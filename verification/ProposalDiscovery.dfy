/**
 What proposal discovery promises over a chain whose proposals hold still during one scan: completeness,
 no proposal twice, hand-over from list to walk, and the reach of the upward probe.
 */
module ProposalDiscovery {
  import opened Basics
  import opened ProposalScan

  type Store = map<nat, Proposal>

  /** What the chain knows about its proposals besides what it reports. */
  datatype Chain = Chain(store: Store, submit: map<nat, Time>, voteEnd: map<nat, Time>)

  ghost predicate Stored(store: Store) {
    forall i {:trigger store[i]} :: i in store ==> i > 0 && store[i].id == Some(i)
  }

  /** In its voting period, or closed with a voting end at or after the cutoff. */
  ghost predicate Relevant(p: Proposal, cutoff: Time) {
    p.status == VotingPeriod || ClosedSince(p, cutoff)
  }

  ghost predicate ClosedSince(p: Proposal, cutoff: Time) {
    (p.status == Blank || p.status.Final?) && p.votingEndTime.Some? && cutoff <= p.votingEndTime.value
  }

  /**
   Submit times do not decrease with the ID, no lifecycle time precedes submission, a vote ends at most one
   lifespan and margin after submission, and a vote still open ends at or after the cutoff.
   */
  ghost predicate Lawful(c: Chain, cutoff: Time, lifespan: Duration) {
    && Stored(c.store)
    && (forall i {:trigger LawfulAt(c, i, cutoff, lifespan)} :: i in c.store ==> LawfulAt(c, i, cutoff, lifespan))
    && (forall i, j {:trigger SubmittedInOrder(c, i, j)} ::
          i in c.store && j in c.store && i < j ==> SubmittedInOrder(c, i, j))
  }

  ghost predicate SubmittedInOrder(c: Chain, i: nat, j: nat) {
    i in c.submit && j in c.submit ==> c.submit[i] <= c.submit[j]
  }

  ghost predicate LawfulAt(c: Chain, i: nat, cutoff: Time, lifespan: Duration)
    requires i in c.store
  {
    var p := c.store[i];
    && i in c.submit
    && NotBefore(p.submitTime, c.submit[i]) && NotBefore(p.depositEndTime, c.submit[i])
    && NotBefore(p.votingStartTime, c.submit[i]) && NotBefore(p.votingEndTime, c.submit[i])
    && (Relevant(p, cutoff) ==>
          && i in c.voteEnd && cutoff <= c.voteEnd[i] && EndsInTime(c.submit[i], c.voteEnd[i], lifespan)
          && (ClosedSince(p, cutoff) ==> c.voteEnd[i] == p.votingEndTime.value))
  }

  ghost predicate NotBefore(time: Option<Time>, submit: Time) {
    IsSet(time) ==> submit <= time.value
  }

  /** At most a week over the lifespan that the chain reports, or over sixty days if it reports none. */
  ghost predicate EndsInTime(submit: Time, voteEnd: Time, lifespan: Duration) {
    if lifespan > 0 then voteEnd <= submit + lifespan + 7 * DAY else voteEnd <= submit + 60 * DAY + 7 * DAY
  }

  /** Stored proposals with IDs up to `hi`, newest first. */
  ghost function Listing(store: Store, hi: nat): seq<Proposal> {
    if hi == 0 then []
    else (if hi in store then [store[hi]] else []) + Listing(store, hi - 1)
  }

  ghost function PageAt(all: seq<Proposal>, k: nat): seq<Proposal> {
    all[Min(k * PAGE_SIZE, |all|)..Min((k + 1) * PAGE_SIZE, |all|)]
  }

  /** A decoded reply is what is stored, NotFound means that nothing is, and any other error promises nothing. */
  ghost predicate TruthfulAt(store: Store, id: nat, reply: ReadReply) {
    && (reply.Decoded? ==> id in store && store[id] == reply.proposal)
    && (SaysMissing(reply) ==> id !in store)
    && (SaysUndecodable(reply) ==> id in store)
  }

  ghost predicate Truthful(store: Store, read: nat -> ReadReply) {
    forall id: nat :: TruthfulAt(store, id, read(id))
  }

  ghost predicate TruthfulUpTo(store: Store, read: nat -> ReadReply, top: nat) {
    forall id: nat :: id <= top ==> TruthfulAt(store, id, read(id))
  }

  ghost predicate ServesPage(all: seq<Proposal>, k: nat, reply: ListReply) {
    reply.Listed? ==>
      reply.proposals == PageAt(all, k) && (reply.more <==> (k + 1) * PAGE_SIZE < |all|)
  }

  /** Every reply of the endpoint is either the truth about `store` or a failure. */
  ghost predicate Serves(store: Store, newest: nat, e: Endpoint) {
    && (forall i :: i in store ==> i <= newest)
    && Truthful(store, e.read)
    && (forall k :: 0 <= k < |e.pages| ==> ServesPage(Listing(store, newest), k, e.pages[k]))
    && (e.newest.Listed? ==>
          e.newest.proposals == Listing(store, newest)[..Min(1, |Listing(store, newest)|)])
  }

  // ----- what a scan has reported

  ghost function Ids(ps: seq<Proposal>): seq<nat> {
    seq(|ps|, i requires 0 <= i < |ps| => if ps[i].id.Some? then ps[i].id.value else 0)
  }

  ghost function AllIds(s: ScanView): multiset<nat> {
    multiset(Ids(s.active)) + multiset(Ids(s.recentClosed)) + multiset(s.unreadable)
  }

  /** A relevant stored proposal is in the list it belongs to, or is reported as unreadable. */
  ghost predicate Reported(s: ScanView, store: Store, i: nat, cutoff: Time) {
    i in store ==>
      && (store[i].status == VotingPeriod ==> store[i] in s.active || i in s.unreadable)
      && (ClosedSince(store[i], cutoff) ==> store[i] in s.recentClosed || i in s.unreadable)
  }

  /** An ID above `id` is reported if it is relevant, and listed at most once; one up to `id` is not listed. */
  ghost predicate CoversId(s: ScanView, store: Store, i: nat, id: nat, cutoff: Time) {
    if i > id then Reported(s, store, i, cutoff) && AllIds(s)[i] <= 1 else AllIds(s)[i] == 0
  }

  ghost predicate Holds(store: Store, p: Proposal) {
    p.id.Some? && p.id.value in store && store[p.id.value] == p
  }

  /** Only what the store holds is listed, each proposal in the list it belongs to. */
  ghost predicate Sound(s: ScanView, store: Store, cutoff: Time) {
    && (forall p :: p in s.active ==> p.status == VotingPeriod && Holds(store, p))
    && (forall p :: p in s.recentClosed ==> ClosedSince(p, cutoff) && Holds(store, p))
    && (forall i :: i in s.unreadable ==> i in store)
  }

  ghost predicate Covers(s: ScanView, store: Store, id: nat, cutoff: Time) {
    Sound(s, store, cutoff) && forall i: nat :: CoversId(s, store, i, id, cutoff)
  }

  lemma AddedId(ps: seq<Proposal>, p: Proposal)
    requires p.id.Some?
    ensures multiset(Ids(ps + [p])) == multiset(Ids(ps)) + multiset{p.id.value}
  {
    assert Ids(ps + [p]) == Ids(ps) + [p.id.value];
  }

  lemma AddedIds(s: ScanView, p: Proposal, cutoff: Time, floor: Time)
    requires p.id.Some?
    ensures AllIds(AddTo(s, p, cutoff, floor)) ==
      if Relevant(p, cutoff) then AllIds(s) + multiset{p.id.value} else AllIds(s)
  {
    AddedId(s.active, p);
    AddedId(s.recentClosed, p);
  }

  lemma AddIsSound(s: ScanView, store: Store, id: nat, cutoff: Time, floor: Time)
    requires Stored(store) && id in store && Sound(s, store, cutoff)
    ensures Sound(AddTo(s, store[id], cutoff, floor), store, cutoff)
  {
  }

  lemma AddCoversId(s: ScanView, store: Store, id: nat, cutoff: Time, floor: Time, i: nat)
    requires Stored(store) && id in store && CoversId(s, store, i, id, cutoff)
    ensures CoversId(AddTo(s, store[id], cutoff, floor), store, i, id - 1, cutoff)
  {
    AddedIds(s, store[id], cutoff, floor);
  }

  lemma AddCovers(s: ScanView, store: Store, id: nat, cutoff: Time, floor: Time)
    requires Stored(store) && id in store && Covers(s, store, id, cutoff)
    ensures Covers(AddTo(s, store[id], cutoff, floor), store, id - 1, cutoff)
  {
    var t, below := AddTo(s, store[id], cutoff, floor), id - 1;
    AddIsSound(s, store, id, cutoff, floor);
    forall i: nat ensures CoversId(t, store, i, below, cutoff) {
      assert CoversId(s, store, i, id, cutoff);
      AddCoversId(s, store, id, cutoff, floor, i);
    }
  }

  lemma UnreadableCoversId(s: ScanView, store: Store, id: nat, cutoff: Time, i: nat)
    requires id > 0 && id in store && CoversId(s, store, i, id, cutoff)
    ensures CoversId(s.(unreadable := s.unreadable + [id]), store, i, id - 1, cutoff)
  {
    var t := s.(unreadable := s.unreadable + [id]);
    assert multiset(t.unreadable) == multiset(s.unreadable) + multiset{id};
    assert AllIds(t)[i] == AllIds(s)[i] + multiset{id}[i];
    assert id in t.unreadable by {
      assert t.unreadable[|s.unreadable|] == id;
    }
    assert forall j :: j in s.unreadable ==> j in t.unreadable;
  }

  lemma UnreadableCovers(s: ScanView, store: Store, id: nat, cutoff: Time)
    requires Stored(store) && id in store && Covers(s, store, id, cutoff)
    ensures Covers(s.(unreadable := s.unreadable + [id]), store, id - 1, cutoff)
  {
    var t, below := s.(unreadable := s.unreadable + [id]), id - 1;
    forall i: nat ensures CoversId(t, store, i, below, cutoff) {
      assert CoversId(s, store, i, id, cutoff);
      UnreadableCoversId(s, store, id, cutoff, i);
    }
  }

  /** Relevant proposals were submitted at or after the floor. */
  lemma RelevantIsRecent(c: Chain, i: nat, cutoff: Time, lifespan: Duration)
    requires Lawful(c, cutoff, lifespan) && i in c.store && Relevant(c.store[i], cutoff)
    ensures i in c.submit && c.submit[i] >= ScanFloor(cutoff, lifespan)
  {
    assert LawfulAt(c, i, cutoff, lifespan);
  }

  /** Below a proposal that is too old nothing is relevant, so stopping there loses nothing. */
  lemma OldEndsTheScan(c: Chain, s: ScanView, id: nat, cutoff: Time, lifespan: Duration)
    requires Lawful(c, cutoff, lifespan) && id in c.store
    requires TooOld(c.store[id], ScanFloor(cutoff, lifespan)) && Covers(s, c.store, id - 1, cutoff)
    ensures Covers(s, c.store, 0, cutoff)
  {
    var earliest := Earliest(Lifecycle(c.store[id]));
    assert LawfulAt(c, id, cutoff, lifespan);
    assert earliest in Lifecycle(c.store[id]) && c.submit[id] <= earliest.value;
    forall i: nat ensures CoversId(s, c.store, i, 0, cutoff) {
      assert CoversId(s, c.store, i, id - 1, cutoff);
      if i in c.store && i < id && Relevant(c.store[i], cutoff) {
        assert SubmittedInOrder(c, i, id);
        RelevantIsRecent(c, i, cutoff, lifespan);
      }
    }
  }

  lemma FoundStep(c: Chain, s: ScanView, id: nat, cutoff: Time, lifespan: Duration)
    requires Lawful(c, cutoff, lifespan) && id in c.store && Covers(s, c.store, id, cutoff)
    ensures var t := AddTo(s, c.store[id], cutoff, ScanFloor(cutoff, lifespan));
      && Covers(t, c.store, id - 1, cutoff)
      && (TooOld(c.store[id], ScanFloor(cutoff, lifespan)) ==> Covers(t, c.store, 0, cutoff))
  {
    var floor := ScanFloor(cutoff, lifespan);
    AddCovers(s, c.store, id, cutoff, floor);
    if TooOld(c.store[id], floor) {
      OldEndsTheScan(c, AddTo(s, c.store[id], cutoff, floor), id, cutoff, lifespan);
    }
  }

  lemma MissingStep(s: ScanView, store: Store, id: nat, cutoff: Time)
    requires id > 0 && id !in store && Covers(s, store, id, cutoff)
    ensures Covers(s, store, id - 1, cutoff)
  {
    var below := id - 1;
    forall i: nat ensures CoversId(s, store, i, below, cutoff) {
      assert CoversId(s, store, i, id, cutoff);
    }
  }

  // ----- the walk is complete

  lemma TakeStep(c: Chain, s: ScanView, id: nat, reply: ReadReply, cutoff: Time, lifespan: Duration)
    requires Lawful(c, cutoff, lifespan) && id > 0 && Covers(s, c.store, id, cutoff)
    requires TruthfulAt(c.store, id, reply) && Classify(reply) != ReadFailed
    ensures var floor := ScanFloor(cutoff, lifespan);
      && Covers(Take(s, id, reply, cutoff, floor), c.store, id - 1, cutoff)
      && (Ends(reply, floor) ==> Covers(Take(s, id, reply, cutoff, floor), c.store, 0, cutoff))
  {
    match Classify(reply) {
      case Found => FoundStep(c, s, id, cutoff, lifespan);
      case Missing => MissingStep(s, c.store, id, cutoff);
      case Unreadable => UnreadableCovers(s, c.store, id, cutoff);
    }
  }

  lemma {:induction false} WalkCovers(
      c: Chain, read: nat -> ReadReply, id: nat, steps: nat, s: ScanView, cutoff: Time, lifespan: Duration)
    requires Lawful(c, cutoff, lifespan) && TruthfulUpTo(c.store, read, id) && Covers(s, c.store, id, cutoff)
    ensures var r := Walk(read, id, steps, s, cutoff, ScanFloor(cutoff, lifespan));
      r.Ok? ==> Covers(r.value, c.store, 0, cutoff)
    decreases id
  {
    var floor := ScanFloor(cutoff, lifespan);
    if Walk(read, id, steps, s, cutoff, floor).Ok? && id > 0 {
      assert TruthfulAt(c.store, id, read(id));
      TakeStep(c, s, id, read(id), cutoff, lifespan);
      if !Ends(read(id), floor) {
        WalkCovers(c, read, id - 1, steps + 1, Take(s, id, read(id), cutoff, floor), cutoff, lifespan);
      }
    }
  }

  // ----- the list is complete as far as it is read

  /** What the list has read when `n` of the proposals up to `hi` have been added. */
  ghost predicate CoversPrefix(s: ScanView, done: bool, store: Store, hi: nat, n: nat, cutoff: Time) {
    var all := Listing(store, hi);
    && (done || n >= |all| ==> Covers(s, store, 0, cutoff))
    && (!done && 0 < n <= |all| ==>
          && all[n - 1].id.Some? && all[n - 1].id.value > 0
          && s.lowestId == all[n - 1].id.value && Covers(s, store, s.lowestId - 1, cutoff))
  }

  lemma TakeFirst<T>(x: T, rest: seq<T>, n: nat)
    requires n > 0
    ensures var all := [x] + rest;
      && all[..Min(n, |all|)] == [x] + rest[..Min(n - 1, |rest|)]
      && all[..Min(n, |all|)][1..] == rest[..Min(n - 1, |rest|)]
  {
  }

  lemma PrefixShifts(s: ScanView, done: bool, store: Store, hi: nat, n: nat, cutoff: Time)
    requires n > 0 && Stored(store) && hi in store && CoversPrefix(s, done, store, hi - 1, n - 1, cutoff)
    requires n == 1 && !done ==> s.lowestId == hi && Covers(s, store, hi - 1, cutoff)
    ensures CoversPrefix(s, done, store, hi, n, cutoff)
  {
    assert Listing(store, hi) == [store[hi]] + Listing(store, hi - 1);
  }

  /** What reading `n` proposals of the list up to `hi` achieves from scan `s`. */
  ghost predicate ListGoal(store: Store, hi: nat, n: nat, s: ScanView, cutoff: Time, floor: Time) {
    var all := Listing(store, hi);
    var (t, done) := AddAll(s, all[..Min(n, |all|)], cutoff, floor);
    CoversPrefix(t, done, store, hi, n, cutoff)
  }

  lemma TakeGoal(c: Chain, hi: nat, n: nat, s: ScanView, cutoff: Time, lifespan: Duration)
    requires Lawful(c, cutoff, lifespan) && Covers(s, c.store, hi, cutoff) && hi in c.store && n > 0
    requires s.lowestId == 0 || s.lowestId > hi
    requires var floor := ScanFloor(cutoff, lifespan);
      || TooOld(c.store[hi], floor)
      || ListGoal(c.store, hi - 1, n - 1, AddTo(s, c.store[hi], cutoff, floor), cutoff, floor)
    ensures ListGoal(c.store, hi, n, s, cutoff, ScanFloor(cutoff, lifespan))
  {
    var floor, rest := ScanFloor(cutoff, lifespan), Listing(c.store, hi - 1);
    var added := AddTo(s, c.store[hi], cutoff, floor);
    FoundStep(c, s, hi, cutoff, lifespan);
    TakeFirst(c.store[hi], rest, n);
    if !TooOld(c.store[hi], floor) {
      var (t, done) := AddAll(added, rest[..Min(n - 1, |rest|)], cutoff, floor);
      PrefixShifts(t, done, c.store, hi, n, cutoff);
    }
  }

  lemma EmptyGoal(store: Store, hi: nat, n: nat, s: ScanView, cutoff: Time, floor: Time)
    requires hi == 0 || n == 0
    requires Covers(s, store, hi, cutoff)
    ensures ListGoal(store, hi, n, s, cutoff, floor)
  {
    var all := Listing(store, hi);
    assert all[..Min(n, |all|)] == [];
    if all == [] {
      EmptyListing(store, hi);
      forall i: nat ensures CoversId(s, store, i, 0, cutoff) {
        assert CoversId(s, store, i, hi, cutoff);
      }
    }
  }

  lemma {:induction false} EmptyListing(store: Store, hi: nat)
    requires Listing(store, hi) == []
    ensures forall i :: i in store && i <= hi ==> i == 0
  {
    if hi == 0 {
    } else {
      EmptyListing(store, hi - 1);
    }
  }

  lemma SkipGoal(store: Store, hi: nat, n: nat, s: ScanView, cutoff: Time, floor: Time)
    requires hi > 0 && hi !in store && ListGoal(store, hi - 1, n, s, cutoff, floor)
    ensures ListGoal(store, hi, n, s, cutoff, floor)
  {
    assert Listing(store, hi) == Listing(store, hi - 1);
  }

  ghost predicate ListGoals(store: Store, hi: nat, s: ScanView, cutoff: Time, floor: Time) {
    forall n: nat :: ListGoal(store, hi, n, s, cutoff, floor)
  }

  lemma {:induction false} ListCovers(c: Chain, hi: nat, s: ScanView, cutoff: Time, lifespan: Duration)
    requires Lawful(c, cutoff, lifespan) && Covers(s, c.store, hi, cutoff)
    requires s.lowestId == 0 || s.lowestId > hi
    ensures ListGoals(c.store, hi, s, cutoff, ScanFloor(cutoff, lifespan))
    decreases hi, 1
  {
    var floor := ScanFloor(cutoff, lifespan);
    ListCoversBelow(c, hi, s, cutoff, lifespan);
    forall n: nat ensures ListGoal(c.store, hi, n, s, cutoff, floor) {
      ListStep(c, hi, n, s, cutoff, lifespan);
    }
  }

  lemma {:induction false} ListCoversBelow(c: Chain, hi: nat, s: ScanView, cutoff: Time, lifespan: Duration)
    requires Lawful(c, cutoff, lifespan) && Covers(s, c.store, hi, cutoff)
    requires s.lowestId == 0 || s.lowestId > hi
    ensures var floor := ScanFloor(cutoff, lifespan);
      && (hi > 0 && hi !in c.store ==> ListGoals(c.store, hi - 1, s, cutoff, floor))
      && (hi > 0 && hi in c.store && !TooOld(c.store[hi], floor) ==>
            ListGoals(c.store, hi - 1, AddTo(s, c.store[hi], cutoff, floor), cutoff, floor))
    decreases hi, 0
  {
    if hi > 0 && hi !in c.store {
      MissingStep(s, c.store, hi, cutoff);
      ListCovers(c, hi - 1, s, cutoff, lifespan);
    } else if hi > 0 {
      FoundStep(c, s, hi, cutoff, lifespan);
      ListCovers(c, hi - 1, AddTo(s, c.store[hi], cutoff, ScanFloor(cutoff, lifespan)), cutoff, lifespan);
    }
  }

  lemma ListStep(c: Chain, hi: nat, n: nat, s: ScanView, cutoff: Time, lifespan: Duration)
    requires Lawful(c, cutoff, lifespan) && Covers(s, c.store, hi, cutoff)
    requires s.lowestId == 0 || s.lowestId > hi
    requires hi > 0 && hi !in c.store ==> ListGoal(c.store, hi - 1, n, s, cutoff, ScanFloor(cutoff, lifespan))
    requires var floor := ScanFloor(cutoff, lifespan);
      hi > 0 && n > 0 && hi in c.store && !TooOld(c.store[hi], floor) ==>
        ListGoal(c.store, hi - 1, n - 1, AddTo(s, c.store[hi], cutoff, floor), cutoff, floor)
    ensures ListGoal(c.store, hi, n, s, cutoff, ScanFloor(cutoff, lifespan))
  {
    var floor := ScanFloor(cutoff, lifespan);
    if hi == 0 || n == 0 {
      EmptyGoal(c.store, hi, n, s, cutoff, floor);
    } else if hi !in c.store {
      SkipGoal(c.store, hi, n, s, cutoff, floor);
    } else {
      TakeGoal(c, hi, n, s, cutoff, lifespan);
    }
  }

  // ----- reading the list, page by page

  type Answer = Result<ScanView, DiscoveryError>

  /** Where the list is left the answer is `good`, and otherwise the next page starts from `inv` again. */
  ghost predicate StepsWell(e: Endpoint, k: nat, s: ScanView, cutoff: Time, floor: Time, known: nat, bound: nat,
                            inv: (nat, ScanView) -> bool, good: Answer -> bool)
    requires Finite(e.read, bound)
  {
    if k >= |e.pages| || e.pages[k].ListFailed? then good(FallBack(e, s, cutoff, floor, known, bound))
    else
      var (t, done) := AddAll(s, e.pages[k].proposals, cutoff, floor);
      if done || !e.pages[k].more then good(Ok(t)) else inv(k + 1, t)
  }

  /** What every page keeps holds of the answer of the whole read. */
  lemma {:induction false} ListInduction(
      e: Endpoint, k: nat, s: ScanView, cutoff: Time, floor: Time, known: nat, bound: nat,
      inv: (nat, ScanView) -> bool, good: Answer -> bool)
    requires Finite(e.read, bound) && inv(k, s)
    requires forall j, x :: inv(j, x) ==> StepsWell(e, j, x, cutoff, floor, known, bound, inv, good)
    ensures good(ListFrom(e, k, s, cutoff, floor, known, bound))
    decreases |e.pages| - k
  {
    assert StepsWell(e, k, s, cutoff, floor, known, bound, inv, good);
    if k >= |e.pages| || e.pages[k].ListFailed? {
    } else {
      var (t, done) := AddAll(s, e.pages[k].proposals, cutoff, floor);
      if !done && e.pages[k].more {
        ListInduction(e, k + 1, t, cutoff, floor, known, bound, inv, good);
      }
    }
  }

  // ----- a scan reports nothing but what the store holds

  ghost predicate AllHold(store: Store, ps: seq<Proposal>) {
    forall i :: 0 <= i < |ps| ==> Holds(store, ps[i])
  }

  ghost predicate Grounded(s: ScanView, store: Store) {
    && AllHold(store, s.active) && AllHold(store, s.recentClosed) && AllHold(store, s.seen)
    && forall i :: 0 <= i < |s.unreadable| ==> s.unreadable[i] in store
  }

  lemma {:induction false} ListingHolds(store: Store, hi: nat)
    requires Stored(store)
    ensures AllHold(store, Listing(store, hi))
  {
    if hi == 0 {
    } else {
      ListingHolds(store, hi - 1);
      assert hi in store ==> Holds(store, store[hi]);
    }
  }

  lemma AddIsGrounded(s: ScanView, store: Store, p: Proposal, cutoff: Time, floor: Time)
    requires Grounded(s, store) && Holds(store, p)
    ensures Grounded(AddTo(s, p, cutoff, floor), store)
  {
  }

  lemma {:induction false} AddAllIsGrounded(s: ScanView, store: Store, ps: seq<Proposal>, cutoff: Time, floor: Time)
    requires Grounded(s, store) && AllHold(store, ps)
    ensures Grounded(AddAll(s, ps, cutoff, floor).0, store)
    decreases |ps|
  {
    if ps == [] {
    } else {
      assert Holds(store, ps[0]);
      AddIsGrounded(s, store, ps[0], cutoff, floor);
      TailHolds(store, ps);
      AddAllIsGrounded(AddTo(s, ps[0], cutoff, floor), store, ps[1..], cutoff, floor);
    }
  }

  lemma TailHolds(store: Store, ps: seq<Proposal>)
    requires ps != [] && AllHold(store, ps)
    ensures AllHold(store, ps[1..])
  {
    forall i | 0 <= i < |ps| - 1 ensures Holds(store, ps[1..][i]) {
      assert Holds(store, ps[i + 1]);
    }
  }

  lemma TakeIsGrounded(s: ScanView, store: Store, id: nat, reply: ReadReply, cutoff: Time, floor: Time)
    requires Stored(store) && Grounded(s, store) && TruthfulAt(store, id, reply)
    ensures Grounded(Take(s, id, reply, cutoff, floor), store)
  {
    if Classify(reply) == Found {
      assert Holds(store, store[id]);
      AddIsGrounded(s, store, reply.proposal, cutoff, floor);
    }
  }

  lemma {:induction false} WalkIsGrounded(store: Store, read: nat -> ReadReply, id: nat, steps: nat, s: ScanView,
                                          cutoff: Time, floor: Time)
    requires Stored(store) && Truthful(store, read) && Grounded(s, store)
    ensures var r := Walk(read, id, steps, s, cutoff, floor); r.Ok? ==> Grounded(r.value, store)
    decreases id
  {
    if id == 0 {
    } else {
      assert TruthfulAt(store, id, read(id));
      TakeIsGrounded(s, store, id, read(id), cutoff, floor);
      WalkIsGrounded(store, read, id - 1, steps + 1, Take(s, id, read(id), cutoff, floor), cutoff, floor);
    }
  }

  lemma PageHolds(store: Store, newest: nat, e: Endpoint, k: nat)
    requires Stored(store) && Serves(store, newest, e) && k < |e.pages| && e.pages[k].Listed?
    ensures AllHold(store, e.pages[k].proposals)
  {
    var all := Listing(store, newest);
    ListingHolds(store, newest);
    assert ServesPage(all, k, e.pages[k]);
    var page, start := PageAt(all, k), Min(k * PAGE_SIZE, |all|);
    forall i | 0 <= i < |page| ensures Holds(store, page[i]) {
      assert Holds(store, all[start + i]);
    }
  }

  lemma FallBackIsGrounded(store: Store, e: Endpoint, s: ScanView, cutoff: Time, floor: Time, known: nat, bound: nat)
    requires Stored(store) && Truthful(store, e.read) && Finite(e.read, bound) && Grounded(s, store)
    ensures var r := FallBack(e, s, cutoff, floor, known, bound); r.Ok? ==> Grounded(r.value, store)
  {
    var t := s.(usedFallback := true);
    if s.lowestId > 0 {
      WalkIsGrounded(store, e.read, s.lowestId - 1, 0, t, cutoff, floor);
    } else {
      var top := FindNewest(e, known, bound);
      if top.Ok? {
        WalkIsGrounded(store, e.read, top.value, 0, t.(highestId := Max(top.value, t.highestId)), cutoff, floor);
      }
    }
  }

  lemma PageIsGrounded(store: Store, newest: nat, e: Endpoint, k: nat, s: ScanView, cutoff: Time, floor: Time)
    requires Stored(store) && Serves(store, newest, e) && Grounded(s, store)
    requires k < |e.pages| && e.pages[k].Listed?
    ensures Grounded(AddAll(s, e.pages[k].proposals, cutoff, floor).0, store)
  {
    PageHolds(store, newest, e, k);
    AddAllIsGrounded(s, store, e.pages[k].proposals, cutoff, floor);
  }

  /** Whatever fails, and whether or not discovery is complete, nothing is reported that the store does not hold. */
  lemma DiscoveryIsGrounded(store: Store, newest: nat, e: Endpoint, cutoff: Time, lifespan: Duration,
                            known: nat, bound: nat)
    requires Stored(store) && Serves(store, newest, e) && Finite(e.read, bound)
    ensures var r := Discover(e, cutoff, lifespan, known, bound); r.Ok? ==> Grounded(r.value, store)
  {
    var floor := ScanFloor(cutoff, lifespan);
    var inv := (k: nat, s: ScanView) => Grounded(s, store);
    var good := (r: Answer) => r.Ok? ==> Grounded(r.value, store);
    forall k: nat, s | inv(k, s) ensures StepsWell(e, k, s, cutoff, floor, known, bound, inv, good) {
      if k >= |e.pages| || e.pages[k].ListFailed? {
        FallBackIsGrounded(store, e, s, cutoff, floor, known, bound);
      } else {
        PageIsGrounded(store, newest, e, k, s, cutoff, floor);
      }
    }
    ListInduction(e, FIRST_LIST_PAGE, EMPTY_SCAN, cutoff, floor, known, bound, inv, good);
  }

  // ----- probing upward

  ghost predicate GapAfter(store: Store, g: nat) {
    forall j: nat :: g < j <= g + 10 ==> j !in store
  }

  /** No run of ten missing IDs lies between the known ID and a stored one. */
  ghost predicate NoLongGap(store: Store, known: nat) {
    forall g: nat, i :: known <= g && GapAfter(store, g) && i in store ==> i <= g + 10
  }

  /** A probe at `id` has seen `misses` missing IDs above `top` and no long gap between `known` and `top`. */
  ghost predicate Probing(store: Store, known: nat, id: nat, top: nat, misses: nat) {
    && known <= top && id == top + misses + 1 && misses <= PROBE_MISSES
    && (top > known ==> top in store)
    && (forall j :: top < j < id ==> j !in store)
    && (forall g: nat :: known <= g < top ==> !GapAfter(store, g))
  }

  lemma NoGapBelow(store: Store, known: nat, id: nat, top: nat, misses: nat)
    requires Probing(store, known, id, top, misses) && misses < PROBE_MISSES && id in store
    ensures Probing(store, known, id + 1, id, 0)
  {
    forall g: nat | known <= g < id ensures !GapAfter(store, g) {
      if g >= top {
        assert g < id <= g + PROBE_MISSES;
      }
    }
  }

  lemma {:induction false} ProbeIsExact(
      store: Store, read: nat -> ReadReply, known: nat, id: nat, top: nat, misses: nat, bound: nat)
    requires Truthful(store, read) && Finite(read, bound) && Probing(store, known, id, top, misses)
    ensures var r := Probe(read, id, top, misses, bound);
      r.Ok? ==> Probing(store, known, r.value + PROBE_MISSES + 1, r.value, PROBE_MISSES)
    decreases Max(bound + 1 - id, 0), PROBE_MISSES - misses
  {
    if misses == PROBE_MISSES {
    } else {
      assert TruthfulAt(store, id, read(id));
      match Classify(read(id)) {
        case Missing => ProbeIsExact(store, read, known, id + 1, top, misses + 1, bound);
        case ReadFailed =>
        case _ =>
          NoGapBelow(store, known, id, top, misses);
          ProbeIsExact(store, read, known, id + 1, id, 0, bound);
      }
    }
  }

  /**
   A successful probe returns an ID at or above the known one with the next ten missing, and it is at or
   above every stored ID exactly when no run of ten missing IDs hides one.
   */
  lemma ProbeReaches(store: Store, read: nat -> ReadReply, known: nat, bound: nat)
    requires Truthful(store, read) && Finite(read, bound)
    ensures var r := Probe(read, known + 1, known, 0, bound);
      r.Ok? ==>
        && known <= r.value && (r.value > known ==> r.value in store) && GapAfter(store, r.value)
        && ((forall i :: i in store && i > known ==> i <= r.value) <==> NoLongGap(store, known))
  {
    ProbeIsExact(store, read, known, known + 1, known, 0, bound);
    var r := Probe(read, known + 1, known, 0, bound);
    if r.Ok? {
      if i :| i in store && i > r.value {
        assert GapAfter(store, r.value) && i > r.value + PROBE_MISSES;
      }
    }
  }

  /** How many IDs the probe asks for. */
  ghost function Probes(read: nat -> ReadReply, id: nat, misses: nat, bound: nat): nat
    requires Finite(read, bound) && misses <= PROBE_MISSES
    decreases Max(bound + 1 - id, 0), PROBE_MISSES - misses
  {
    if misses == PROBE_MISSES then 0
    else
      match Classify(read(id))
      case Missing => 1 + Probes(read, id + 1, misses + 1, bound)
      case ReadFailed => 1
      case _ => 1 + Probes(read, id + 1, 0, bound)
  }

  /** Probing stops after at most ten requests past the highest ID that exists. */
  lemma {:induction false} ProbesAreBounded(read: nat -> ReadReply, id: nat, misses: nat, bound: nat)
    requires Finite(read, bound) && misses <= PROBE_MISSES
    ensures Probes(read, id, misses, bound) <=
      Max(bound + 1 - id, 0) + PROBE_MISSES - (if id > bound then misses else 0)
    decreases Max(bound + 1 - id, 0), PROBE_MISSES - misses
  {
    if misses == PROBE_MISSES {
    } else {
      match Classify(read(id)) {
        case Missing => ProbesAreBounded(read, id + 1, misses + 1, bound);
        case ReadFailed =>
        case _ => ProbesAreBounded(read, id + 1, 0, bound);
      }
    }
  }

  // ----- discovery is complete

  lemma {:induction false} AddAllAppend(s: ScanView, a: seq<Proposal>, b: seq<Proposal>, cutoff: Time, floor: Time)
    ensures var (t, done) := AddAll(s, a, cutoff, floor);
      AddAll(s, a + b, cutoff, floor) == if done then (t, done) else AddAll(t, b, cutoff, floor)
    decreases |a|
  {
    if a == [] {
      assert a + b == b;
    } else {
      assert (a + b)[1..] == a[1..] + b;
      AddAllAppend(AddTo(s, a[0], cutoff, floor), a[1..], b, cutoff, floor);
    }
  }

  lemma AddAllSplit(s: ScanView, all: seq<Proposal>, n: nat, cutoff: Time, floor: Time)
    requires n <= |all|
    ensures var (t, done) := AddAll(s, all[..n], cutoff, floor);
      AddAll(s, all, cutoff, floor) == if done then (t, done) else AddAll(t, all[n..], cutoff, floor)
  {
    AddAllAppend(s, all[..n], all[n..], cutoff, floor);
    assert all[..n] + all[n..] == all;
  }

  /** The newest stored proposal heads the listing. */
  lemma {:induction false} ListingHead(store: Store, hi: nat)
    requires Stored(store) && Listing(store, hi) != []
    ensures var head := Listing(store, hi)[0];
      head.id.Some? && head.id.value in store && forall i :: i in store && i <= hi ==> i <= head.id.value
  {
    if hi !in store {
      assert Listing(store, hi) == Listing(store, hi - 1);
      ListingHead(store, hi - 1);
    }
  }

  /** The first list page answers, so that a walk starts where the list stopped. */
  predicate ListStarts(e: Endpoint) {
    |e.pages| > 0 && e.pages[0].Listed?
  }

  /**
   The probe decides where the walk starts: the first list page and the one-proposal request both failed, and
   some ID is known.
   */
  predicate ProbeDecides(e: Endpoint, known: nat) {
    !ListStarts(e) && e.newest.ListFailed? && known > 0
  }

  lemma NewestIsReached(store: Store, newest: nat, e: Endpoint, known: nat, bound: nat)
    requires Stored(store) && Serves(store, newest, e) && Finite(e.read, bound)
    requires !ProbeDecides(e, known) && !ListStarts(e)
    ensures var r := FindNewest(e, known, bound);
      r.Ok? ==> forall i :: i in store ==> i <= r.value
  {
    if e.newest.Listed? {
      if Listing(store, newest) == [] {
        EmptyListing(store, newest);
      } else {
        ListingHead(store, newest);
      }
    }
  }

  lemma EmptyScanCovers(store: Store, top: nat, s: ScanView, cutoff: Time)
    requires forall i :: i in store ==> i <= top
    requires s.active == s.recentClosed == [] && s.unreadable == []
    ensures Covers(s, store, top, cutoff)
  {
  }

  lemma SameLists(s: ScanView, t: ScanView, store: Store, id: nat, cutoff: Time)
    requires Covers(s, store, id, cutoff)
    requires s.active == t.active && s.recentClosed == t.recentClosed && s.unreadable == t.unreadable
    ensures Covers(t, store, id, cutoff)
  {
    forall i: nat ensures CoversId(t, store, i, id, cutoff) {
      assert CoversId(s, store, i, id, cutoff);
    }
  }

  /** The scan after the first `k` pages of the list, none of which ended it. */
  ghost predicate AfterPages(store: Store, newest: nat, k: nat, s: ScanView, cutoff: Time, floor: Time) {
    var all := Listing(store, newest);
    && (k > 0 ==> k * PAGE_SIZE < |all|)
    && AddAll(EMPTY_SCAN, all[..Min(k * PAGE_SIZE, |all|)], cutoff, floor) == (s, false)
  }

  lemma PrefixCovers(c: Chain, newest: nat, n: nat, t: ScanView, done: bool, cutoff: Time, lifespan: Duration)
    requires Lawful(c, cutoff, lifespan) && forall i :: i in c.store ==> i <= newest
    requires var all := Listing(c.store, newest);
      AddAll(EMPTY_SCAN, all[..Min(n, |all|)], cutoff, ScanFloor(cutoff, lifespan)) == (t, done)
    ensures CoversPrefix(t, done, c.store, newest, n, cutoff)
  {
    EmptyScanCovers(c.store, newest, EMPTY_SCAN, cutoff);
    ListCovers(c, newest, EMPTY_SCAN, cutoff, lifespan);
    assert ListGoal(c.store, newest, n, EMPTY_SCAN, cutoff, ScanFloor(cutoff, lifespan));
  }

  lemma FirstFallBackCovers(c: Chain, newest: nat, e: Endpoint, cutoff: Time, lifespan: Duration, known: nat,
                            bound: nat)
    requires Lawful(c, cutoff, lifespan) && Serves(c.store, newest, e) && Finite(e.read, bound)
    requires !ProbeDecides(e, known) && !ListStarts(e)
    ensures var r := FallBack(e, EMPTY_SCAN, cutoff, ScanFloor(cutoff, lifespan), known, bound);
      r.Ok? ==> Covers(r.value, c.store, 0, cutoff)
  {
    NewestIsReached(c.store, newest, e, known, bound);
    var top := FindNewest(e, known, bound);
    if top.Ok? {
      var u := EMPTY_SCAN.(usedFallback := true, highestId := Max(top.value, EMPTY_SCAN.highestId));
      EmptyScanCovers(c.store, top.value, u, cutoff);
      WalkCovers(c, e.read, top.value, 0, u, cutoff, lifespan);
    }
  }

  lemma WalkOnCovers(c: Chain, read: nat -> ReadReply, s: ScanView, cutoff: Time, lifespan: Duration)
    requires Lawful(c, cutoff, lifespan) && Truthful(c.store, read)
    requires s.lowestId > 0 && Covers(s, c.store, s.lowestId - 1, cutoff)
    ensures var r := Walk(read, s.lowestId - 1, 0, s.(usedFallback := true), cutoff, ScanFloor(cutoff, lifespan));
      r.Ok? ==> Covers(r.value, c.store, 0, cutoff)
  {
    var t := s.(usedFallback := true);
    SameLists(s, t, c.store, s.lowestId - 1, cutoff);
    WalkCovers(c, read, s.lowestId - 1, 0, t, cutoff, lifespan);
  }

  lemma FallBackCovers(c: Chain, newest: nat, e: Endpoint, k: nat, s: ScanView, cutoff: Time, lifespan: Duration,
                       known: nat, bound: nat)
    requires Lawful(c, cutoff, lifespan) && Serves(c.store, newest, e) && Finite(e.read, bound)
    requires !ProbeDecides(e, known) && (k == 0 ==> !ListStarts(e))
    requires AfterPages(c.store, newest, k, s, cutoff, ScanFloor(cutoff, lifespan))
    ensures var r := FallBack(e, s, cutoff, ScanFloor(cutoff, lifespan), known, bound);
      r.Ok? ==> Covers(r.value, c.store, 0, cutoff)
  {
    if k == 0 {
      assert s == EMPTY_SCAN;
      FirstFallBackCovers(c, newest, e, cutoff, lifespan, known, bound);
    } else {
      PrefixCovers(c, newest, k * PAGE_SIZE, s, false, cutoff, lifespan);
      WalkOnCovers(c, e.read, s, cutoff, lifespan);
    }
  }

  /** One more page of a truthful list. */
  lemma NextPage(store: Store, newest: nat, e: Endpoint, k: nat, s: ScanView, cutoff: Time, floor: Time)
    requires Serves(store, newest, e) && k < |e.pages| && e.pages[k].Listed?
    requires AfterPages(store, newest, k, s, cutoff, floor)
    ensures var all := Listing(store, newest);
      var (t, done) := AddAll(s, e.pages[k].proposals, cutoff, floor);
      && AddAll(EMPTY_SCAN, all[..Min((k + 1) * PAGE_SIZE, |all|)], cutoff, floor) == (t, done)
      && (!done && e.pages[k].more ==> AfterPages(store, newest, k + 1, t, cutoff, floor))
      && (!e.pages[k].more ==> (k + 1) * PAGE_SIZE >= |all|)
  {
    var all := Listing(store, newest);
    assert ServesPage(all, k, e.pages[k]);
    var m, n := Min(k * PAGE_SIZE, |all|), Min((k + 1) * PAGE_SIZE, |all|);
    AddAllAppend(EMPTY_SCAN, all[..m], all[m..n], cutoff, floor);
    assert all[..m] + all[m..n] == all[..n];
  }

  /** The page that ends the list leaves nothing relevant unread; any other hands over to the next page. */
  lemma PageCovers(c: Chain, newest: nat, e: Endpoint, k: nat, s: ScanView, cutoff: Time, lifespan: Duration)
    requires Lawful(c, cutoff, lifespan) && Serves(c.store, newest, e) && k < |e.pages| && e.pages[k].Listed?
    requires AfterPages(c.store, newest, k, s, cutoff, ScanFloor(cutoff, lifespan))
    ensures var (t, done) := AddAll(s, e.pages[k].proposals, cutoff, ScanFloor(cutoff, lifespan));
      if done || !e.pages[k].more then Covers(t, c.store, 0, cutoff)
      else AfterPages(c.store, newest, k + 1, t, cutoff, ScanFloor(cutoff, lifespan))
  {
    NextPage(c.store, newest, e, k, s, cutoff, ScanFloor(cutoff, lifespan));
    var (t, done) := AddAll(s, e.pages[k].proposals, cutoff, ScanFloor(cutoff, lifespan));
    PrefixCovers(c, newest, (k + 1) * PAGE_SIZE, t, done, cutoff, lifespan);
  }

  /** From page `k`, the scan either ends with everything covered or goes on to the next page. */
  ghost predicate LeavesCovered(store: Store, newest: nat, e: Endpoint, k: nat, s: ScanView, cutoff: Time, floor: Time,
                                known: nat, bound: nat)
    requires Finite(e.read, bound)
  {
    if k >= |e.pages| || e.pages[k].ListFailed? then
      var r := FallBack(e, s, cutoff, floor, known, bound);
      r.Ok? ==> Covers(r.value, store, 0, cutoff)
    else
      var (t, done) := AddAll(s, e.pages[k].proposals, cutoff, floor);
      if done || !e.pages[k].more then Covers(t, store, 0, cutoff)
      else AfterPages(store, newest, k + 1, t, cutoff, floor)
  }

  lemma CoversByPages(store: Store, newest: nat, e: Endpoint, cutoff: Time, floor: Time, known: nat, bound: nat)
    requires Finite(e.read, bound)
    requires forall k: nat, s :: AfterPages(store, newest, k, s, cutoff, floor) ==>
      LeavesCovered(store, newest, e, k, s, cutoff, floor, known, bound)
    ensures var r := ListFrom(e, FIRST_LIST_PAGE, EMPTY_SCAN, cutoff, floor, known, bound);
      r.Ok? ==> Covers(r.value, store, 0, cutoff)
  {
    var inv := (k: nat, s: ScanView) => AfterPages(store, newest, k, s, cutoff, floor);
    var good := (r: Answer) => r.Ok? ==> Covers(r.value, store, 0, cutoff);
    forall k: nat, s | inv(k, s) ensures StepsWell(e, k, s, cutoff, floor, known, bound, inv, good) {
      assert LeavesCovered(store, newest, e, k, s, cutoff, floor, known, bound);
    }
    NoPagesRead(store, newest, cutoff, floor);
    ListInduction(e, FIRST_LIST_PAGE, EMPTY_SCAN, cutoff, floor, known, bound, inv, good);
  }

  lemma DiscoveryCovers(c: Chain, newest: nat, e: Endpoint, cutoff: Time, lifespan: Duration, known: nat, bound: nat)
    requires Lawful(c, cutoff, lifespan) && Serves(c.store, newest, e) && Finite(e.read, bound)
    requires !ProbeDecides(e, known)
    ensures var r := Discover(e, cutoff, lifespan, known, bound); r.Ok? ==> Covers(r.value, c.store, 0, cutoff)
  {
    var floor := ScanFloor(cutoff, lifespan);
    forall k: nat, s | AfterPages(c.store, newest, k, s, cutoff, floor)
      ensures LeavesCovered(c.store, newest, e, k, s, cutoff, floor, known, bound)
    {
      if k >= |e.pages| || e.pages[k].ListFailed? {
        FallBackCovers(c, newest, e, k, s, cutoff, lifespan, known, bound);
      } else {
        PageCovers(c, newest, e, k, s, cutoff, lifespan);
      }
    }
    CoversByPages(c.store, newest, e, cutoff, floor, known, bound);
  }

  lemma NoPagesRead(store: Store, newest: nat, cutoff: Time, floor: Time)
    ensures AfterPages(store, newest, FIRST_LIST_PAGE, EMPTY_SCAN, cutoff, floor)
  {
  }

  // ----- what a long gap hides

  /** Ten missing IDs in a row lie between the known ID and this one, so that the probe stops before it. */
  ghost predicate Hidden(store: Store, known: nat, i: nat) {
    i in store && exists g: nat :: known <= g && GapAfter(store, g) && g + 10 < i
  }

  ghost predicate Missed(store: Store, e: Endpoint, known: nat, i: nat) {
    ProbeDecides(e, known) && Hidden(store, known, i)
  }

  ghost predicate HidesNothing(store: Store, e: Endpoint, known: nat, cutoff: Time) {
    forall i :: i in store && Relevant(store[i], cutoff) ==> !Missed(store, e, known, i)
  }

  /** The first long gap at or above the known ID. */
  ghost predicate IsFirstGap(store: Store, known: nat, g: nat) {
    && known <= g && GapAfter(store, g)
    && forall h: nat :: known <= h < g ==> !GapAfter(store, h)
  }

  lemma HiddenAboveGap(store: Store, known: nat, top: nat, i: nat)
    requires IsFirstGap(store, known, top) && i in store
    ensures Hidden(store, known, i) <==> i > top
  {
    if i > top {
      assert i > top + PROBE_MISSES;
    }
  }

  ghost function UpTo(store: Store, top: nat): Store {
    map i | i in store && i <= top :: store[i]
  }

  lemma LawfulUpTo(c: Chain, top: nat, cutoff: Time, lifespan: Duration)
    requires Lawful(c, cutoff, lifespan)
    ensures Lawful(c.(store := UpTo(c.store, top)), cutoff, lifespan)
  {
    var below := c.(store := UpTo(c.store, top));
    forall i | i in below.store ensures LawfulAt(below, i, cutoff, lifespan) {
      assert LawfulAt(c, i, cutoff, lifespan);
    }
    forall i, j | i in below.store && j in below.store && i < j ensures SubmittedInOrder(below, i, j) {
      assert SubmittedInOrder(c, i, j);
    }
  }

  /** A walk from `top` covers the store as far as it reaches. */
  lemma WalkCoversBelow(c: Chain, read: nat -> ReadReply, top: nat, s: ScanView, cutoff: Time, lifespan: Duration)
    requires Lawful(c, cutoff, lifespan) && Truthful(c.store, read)
    requires s.active == s.recentClosed == [] && s.unreadable == []
    ensures var r := Walk(read, top, 0, s, cutoff, ScanFloor(cutoff, lifespan));
      r.Ok? ==> Covers(r.value, UpTo(c.store, top), 0, cutoff)
  {
    var below := c.(store := UpTo(c.store, top));
    LawfulUpTo(c, top, cutoff, lifespan);
    EmptyScanCovers(below.store, top, s, cutoff);
    forall id: nat | id <= top ensures TruthfulAt(below.store, id, read(id)) {
      assert TruthfulAt(c.store, id, read(id));
    }
    WalkCovers(below, read, top, 0, s, cutoff, lifespan);
  }

  /** Such a scan reports a relevant proposal exactly if the walk reached it. */
  lemma ReportedUpTo(s: ScanView, store: Store, top: nat, cutoff: Time, i: nat)
    requires Stored(store) && Covers(s, UpTo(store, top), 0, cutoff) && i in store && Relevant(store[i], cutoff)
    ensures Reported(s, store, i, cutoff) <==> i <= top
  {
    assert store[i].id == Some(i);
    if i <= top {
      assert CoversId(s, UpTo(store, top), i, 0, cutoff);
    }
  }

  lemma SoundUpTo(s: ScanView, store: Store, top: nat, cutoff: Time)
    requires Covers(s, UpTo(store, top), 0, cutoff)
    ensures Sound(s, store, cutoff) && forall i: nat :: AllIds(s)[i] <= 1
  {
    forall i: nat ensures AllIds(s)[i] <= 1 {
      assert CoversId(s, UpTo(store, top), i, 0, cutoff);
    }
  }

  /** What a successful discovery promises, proposal by proposal. */
  ghost predicate IsExact(s: ScanView, store: Store, e: Endpoint, known: nat, cutoff: Time) {
    && Sound(s, store, cutoff)
    && (forall i: nat :: AllIds(s)[i] <= 1)
    && (forall i {:trigger ExactAt(s, store, e, known, cutoff, i)} ::
          i in store && Relevant(store[i], cutoff) ==> ExactAt(s, store, e, known, cutoff, i))
  }

  /** The proposal is reported exactly if no long gap hides it. */
  ghost predicate ExactAt(s: ScanView, store: Store, e: Endpoint, known: nat, cutoff: Time, i: nat) {
    Reported(s, store, i, cutoff) <==> !Missed(store, e, known, i)
  }

  lemma ProbedDiscovery(c: Chain, newest: nat, e: Endpoint, cutoff: Time, lifespan: Duration, known: nat, bound: nat)
    requires Lawful(c, cutoff, lifespan) && Serves(c.store, newest, e) && Finite(e.read, bound)
    requires ProbeDecides(e, known)
    ensures var r := Discover(e, cutoff, lifespan, known, bound);
      r.Ok? ==> IsExact(r.value, c.store, e, known, cutoff)
  {
    var probed := Probe(e.read, known + 1, known, 0, bound);
    ProbeFindsFirstGap(c.store, e.read, known, bound);
    var r := Discover(e, cutoff, lifespan, known, bound);
    if r.Ok? {
      var top := probed.value;
      var s := EMPTY_SCAN.(usedFallback := true, highestId := Max(top, EMPTY_SCAN.highestId));
      WalkCoversBelow(c, e.read, top, s, cutoff, lifespan);
      SoundUpTo(r.value, c.store, top, cutoff);
      forall i | i in c.store && Relevant(c.store[i], cutoff) ensures ExactAt(r.value, c.store, e, known, cutoff, i) {
        ReportedUpTo(r.value, c.store, top, cutoff, i);
        HiddenAboveGap(c.store, known, top, i);
      }
    }
  }

  lemma ProbeFindsFirstGap(store: Store, read: nat -> ReadReply, known: nat, bound: nat)
    requires Truthful(store, read) && Finite(read, bound)
    ensures var r := Probe(read, known + 1, known, 0, bound); r.Ok? ==> IsFirstGap(store, known, r.value)
  {
    ProbeIsExact(store, read, known, known + 1, known, 0, bound);
  }

  lemma CoveredIsExact(s: ScanView, store: Store, e: Endpoint, known: nat, cutoff: Time)
    requires Stored(store) && Covers(s, store, 0, cutoff) && !ProbeDecides(e, known)
    ensures IsExact(s, store, e, known, cutoff)
  {
    forall i: nat ensures AllIds(s)[i] <= 1 {
      assert CoversId(s, store, i, 0, cutoff);
    }
    forall i | i in store && Relevant(store[i], cutoff) ensures ExactAt(s, store, e, known, cutoff, i) {
      assert store[i].id == Some(i);
      assert CoversId(s, store, i, 0, cutoff);
    }
  }

  lemma DiscoveryIsExact(c: Chain, newest: nat, e: Endpoint, cutoff: Time, lifespan: Duration, known: nat, bound: nat)
    requires Lawful(c, cutoff, lifespan) && Serves(c.store, newest, e) && Finite(e.read, bound)
    ensures var r := Discover(e, cutoff, lifespan, known, bound);
      r.Ok? ==> IsExact(r.value, c.store, e, known, cutoff)
  {
    if ProbeDecides(e, known) {
      ProbedDiscovery(c, newest, e, cutoff, lifespan, known, bound);
    } else {
      DiscoveryCovers(c, newest, e, cutoff, lifespan, known, bound);
      var r := Discover(e, cutoff, lifespan, known, bound);
      if r.Ok? {
        CoveredIsExact(r.value, c.store, e, known, cutoff);
      }
    }
  }

  /** Every proposal in its voting period and every closed one ending at or after the cutoff is reported. */
  ghost predicate IsComplete(s: ScanView, store: Store, cutoff: Time) {
    forall i :: i in store ==> Reported(s, store, i, cutoff)
  }

  /**
   Whatever pages or reads fail, a discovery that succeeds lists no ID twice and nothing that is not stored, and
   it is complete exactly if no long gap hides a relevant proposal from the probe. The probe is used only when the
   first list page and the one-proposal request both fail.
   */
  lemma DiscoveryIsComplete(c: Chain, newest: nat, e: Endpoint, cutoff: Time, lifespan: Duration,
                            known: nat, bound: nat)
    requires Lawful(c, cutoff, lifespan) && Serves(c.store, newest, e) && Finite(e.read, bound)
    ensures var r := Discover(e, cutoff, lifespan, known, bound);
      r.Ok? ==>
        && (IsComplete(r.value, c.store, cutoff) <==> HidesNothing(c.store, e, known, cutoff))
        && (forall i: nat :: AllIds(r.value)[i] <= 1)
        && Sound(r.value, c.store, cutoff)
  {
    DiscoveryIsExact(c, newest, e, cutoff, lifespan, known, bound);
    var r := Discover(e, cutoff, lifespan, known, bound);
    if r.Ok? {
      CompleteIfExact(r.value, c.store, e, known, cutoff);
    }
  }

  lemma CompleteIfExact(s: ScanView, store: Store, e: Endpoint, known: nat, cutoff: Time)
    requires IsExact(s, store, e, known, cutoff)
    ensures IsComplete(s, store, cutoff) <==> HidesNothing(store, e, known, cutoff)
  {
    forall i | i in store && Relevant(store[i], cutoff)
      ensures Reported(s, store, i, cutoff) <==> !Missed(store, e, known, i)
    {
      assert ExactAt(s, store, e, known, cutoff, i);
    }
  }
}
