/**
 Hand-over from the list to the walk: whichever page fails, both give the lists of an uninterrupted read, unless a
 long gap of missing IDs cuts the walk off.
 */
module ProposalHandOver {
  import opened Basics
  import opened ProposalScan
  import opened ProposalDiscovery

  /** The lists a reader of the scan sees. */
  ghost predicate SameFound(s: ScanView, t: ScanView) {
    s.active == t.active && s.recentClosed == t.recentClosed && s.seen == t.seen
  }

  ghost predicate AllDecodable(read: nat -> ReadReply) {
    forall id: nat :: !SaysUndecodable(read(id))
  }

  lemma AddAllCons(s: ScanView, p: Proposal, rest: seq<Proposal>, cutoff: Time, floor: Time)
    ensures AddAll(s, [p] + rest, cutoff, floor) ==
      var t := AddTo(s, p, cutoff, floor);
      if TooOld(p, floor) then (t, true) else AddAll(t, rest, cutoff, floor)
  {
    assert ([p] + rest)[1..] == rest;
  }

  lemma SameStep(s: ScanView, t: ScanView, p: Proposal, cutoff: Time, floor: Time)
    requires SameFound(s, t) && s.unreadable == []
    ensures SameFound(AddTo(s, p, cutoff, floor), AddTo(t, p, cutoff, floor))
    ensures AddTo(s, p, cutoff, floor).unreadable == []
  {
  }

  /** The walk from `id` gives the lists of the listing from `id`, or an error. */
  ghost predicate WalkGoal(store: Store, read: nat -> ReadReply, id: nat, steps: nat, s: ScanView, t: ScanView,
                           cutoff: Time, floor: Time) {
    var r := Walk(read, id, steps, s, cutoff, floor);
    r.Ok? ==> SameFound(r.value, AddAll(t, Listing(store, id), cutoff, floor).0) && r.value.unreadable == []
  }

  lemma WalkFound(store: Store, read: nat -> ReadReply, id: nat, steps: nat, s: ScanView, t: ScanView,
                  cutoff: Time, floor: Time)
    requires id > 0 && id in store && TruthfulAt(store, id, read(id)) && Classify(read(id)) != Unreadable
    requires SameFound(s, t) && s.unreadable == []
    requires TooOld(store[id], floor) ||
             WalkGoal(store, read, id - 1, steps + 1, AddTo(s, store[id], cutoff, floor),
                      AddTo(t, store[id], cutoff, floor), cutoff, floor)
    ensures WalkGoal(store, read, id, steps, s, t, cutoff, floor)
  {
    AddAllCons(t, store[id], Listing(store, id - 1), cutoff, floor);
  }

  lemma WalkMissing(store: Store, read: nat -> ReadReply, id: nat, steps: nat, s: ScanView, t: ScanView,
                    cutoff: Time, floor: Time)
    requires id > 0 && id !in store && TruthfulAt(store, id, read(id)) && Classify(read(id)) != Unreadable
    requires WalkGoal(store, read, id - 1, steps + 1, s, t, cutoff, floor)
    ensures WalkGoal(store, read, id, steps, s, t, cutoff, floor)
  {
    assert Listing(store, id) == Listing(store, id - 1);
  }

  lemma {:induction false} WalkIsFold(
      store: Store, read: nat -> ReadReply, id: nat, steps: nat, s: ScanView, t: ScanView, cutoff: Time, floor: Time)
    requires Truthful(store, read) && AllDecodable(read) && SameFound(s, t) && s.unreadable == []
    ensures WalkGoal(store, read, id, steps, s, t, cutoff, floor)
    decreases id
  {
    if id == 0 {
    } else {
      assert TruthfulAt(store, id, read(id));
      if id in store {
        var s', t' := AddTo(s, store[id], cutoff, floor), AddTo(t, store[id], cutoff, floor);
        SameStep(s, t, store[id], cutoff, floor);
        WalkIsFold(store, read, id - 1, steps + 1, s', t', cutoff, floor);
        WalkFound(store, read, id, steps, s, t, cutoff, floor);
      } else {
        WalkIsFold(store, read, id - 1, steps + 1, s, t, cutoff, floor);
        WalkMissing(store, read, id, steps, s, t, cutoff, floor);
      }
    }
  }

  /** The lowest ID of an unfinished list scan is the last one read, and the rest of the list lies below it. */
  ghost predicate LowestGoal(store: Store, hi: nat, n: nat, s: ScanView, cutoff: Time, floor: Time)
    requires n <= |Listing(store, hi)|
  {
    var (t, done) := AddAll(s, Listing(store, hi)[..n], cutoff, floor);
    done || (t.lowestId > 0 && Listing(store, hi)[n..] == Listing(store, t.lowestId - 1))
  }

  lemma FirstRead(store: Store, hi: nat, n: nat)
    requires hi > 0 && hi in store && 0 < n <= |Listing(store, hi)|
    ensures var rest := Listing(store, hi - 1);
      && n - 1 <= |rest| && Listing(store, hi)[..n] == [store[hi]] + rest[..n - 1]
      && Listing(store, hi)[n..] == rest[n - 1..]
  {
    assert Listing(store, hi) == [store[hi]] + Listing(store, hi - 1);
  }

  lemma LowestOne(store: Store, hi: nat, s: ScanView, cutoff: Time, floor: Time)
    requires Stored(store) && hi in store && (s.lowestId == 0 || s.lowestId > hi) && Listing(store, hi) != []
    ensures LowestGoal(store, hi, 1, s, cutoff, floor)
  {
    FirstRead(store, hi, 1);
    AddAllCons(s, store[hi], [], cutoff, floor);
    assert AddTo(s, store[hi], cutoff, floor).lowestId == hi;
  }

  lemma LowestMore(store: Store, hi: nat, n: nat, s: ScanView, cutoff: Time, floor: Time)
    requires hi > 0 && hi in store && 1 < n <= |Listing(store, hi)| && n - 1 <= |Listing(store, hi - 1)|
    requires LowestGoal(store, hi - 1, n - 1, AddTo(s, store[hi], cutoff, floor), cutoff, floor)
    ensures LowestGoal(store, hi, n, s, cutoff, floor)
  {
    FirstRead(store, hi, n);
    AddAllCons(s, store[hi], Listing(store, hi - 1)[..n - 1], cutoff, floor);
  }

  lemma {:induction false} LowestIsLast(store: Store, hi: nat, n: nat, s: ScanView, cutoff: Time, floor: Time)
    requires Stored(store) && (s.lowestId == 0 || s.lowestId > hi) && 0 < n <= |Listing(store, hi)|
    ensures LowestGoal(store, hi, n, s, cutoff, floor)
    decreases hi
  {
    if hi !in store {
      assert Listing(store, hi) == Listing(store, hi - 1);
      LowestIsLast(store, hi - 1, n, s, cutoff, floor);
    } else {
      FirstRead(store, hi, n);
      if n == 1 {
        LowestOne(store, hi, s, cutoff, floor);
      } else {
        LowestIsLast(store, hi - 1, n - 1, AddTo(s, store[hi], cutoff, floor), cutoff, floor);
        LowestMore(store, hi, n, s, cutoff, floor);
      }
    }
  }

  /** A list that covers every stored proposal does not depend on where its upper end is put. */
  lemma {:induction false} ListingAbove(store: Store, top: nat, hi: nat)
    requires hi <= top && forall i :: i in store ==> i <= hi
    ensures Listing(store, top) == Listing(store, hi)
    decreases top - hi
  {
    if top == hi {
    } else {
      ListingAbove(store, top - 1, hi);
    }
  }

  ghost function WholeList(store: Store, newest: nat, cutoff: Time, floor: Time): ScanView {
    AddAll(EMPTY_SCAN, Listing(store, newest), cutoff, floor).0
  }

  /** The lists of `s` are those of a read of the whole listing, and nothing is unreadable. */
  ghost predicate FoundWhole(s: ScanView, store: Store, newest: nat, cutoff: Time, floor: Time) {
    SameFound(s, WholeList(store, newest, cutoff, floor)) && s.unreadable == []
  }

  lemma WalkFromTop(store: Store, newest: nat, read: nat -> ReadReply, top: nat, s: ScanView, cutoff: Time, floor: Time)
    requires Truthful(store, read) && AllDecodable(read) && SameFound(s, EMPTY_SCAN) && s.unreadable == []
    requires forall i :: i in store ==> i <= newest && i <= top
    ensures var r := Walk(read, top, 0, s, cutoff, floor);
      r.Ok? ==> FoundWhole(r.value, store, newest, cutoff, floor)
  {
    WalkIsFold(store, read, top, 0, s, EMPTY_SCAN, cutoff, floor);
    if top >= newest {
      ListingAbove(store, top, newest);
    } else {
      ListingAbove(store, newest, top);
    }
  }

  /** Below the lowest ID read so far lies the rest of the listing. */
  lemma RestOfList(store: Store, newest: nat, k: nat, s: ScanView, cutoff: Time, floor: Time)
    requires Stored(store) && k > 0 && AfterPages(store, newest, k, s, cutoff, floor)
    ensures s.lowestId > 0
    ensures AddAll(s, Listing(store, s.lowestId - 1), cutoff, floor).0 == WholeList(store, newest, cutoff, floor)
  {
    LowestIsLast(store, newest, k * PAGE_SIZE, EMPTY_SCAN, cutoff, floor);
    AddAllSplit(EMPTY_SCAN, Listing(store, newest), k * PAGE_SIZE, cutoff, floor);
  }

  lemma WalkFromList(store: Store, newest: nat, read: nat -> ReadReply, k: nat, s: ScanView, cutoff: Time, floor: Time)
    requires Stored(store) && Truthful(store, read) && AllDecodable(read) && s.unreadable == [] && k > 0
    requires AfterPages(store, newest, k, s, cutoff, floor)
    ensures s.lowestId > 0
    ensures var r := Walk(read, s.lowestId - 1, 0, s.(usedFallback := true), cutoff, floor);
      r.Ok? ==> FoundWhole(r.value, store, newest, cutoff, floor)
  {
    RestOfList(store, newest, k, s, cutoff, floor);
    WalkIsFold(store, read, s.lowestId - 1, 0, s.(usedFallback := true), s, cutoff, floor);
  }

  lemma FallBackIsFold(store: Store, newest: nat, e: Endpoint, k: nat, s: ScanView, cutoff: Time, floor: Time,
                       known: nat, bound: nat)
    requires Stored(store) && Serves(store, newest, e) && Finite(e.read, bound)
    requires !ProbeDecides(e, known) && (k == 0 ==> !ListStarts(e))
    requires AllDecodable(e.read) && s.unreadable == [] && AfterPages(store, newest, k, s, cutoff, floor)
    ensures var r := FallBack(e, s, cutoff, floor, known, bound);
      r.Ok? ==> FoundWhole(r.value, store, newest, cutoff, floor)
  {
    if k == 0 {
      assert s == EMPTY_SCAN;
      NewestIsReached(store, newest, e, known, bound);
      var top := FindNewest(e, known, bound);
      if top.Ok? {
        var t := s.(usedFallback := true);
        WalkFromTop(store, newest, e.read, top.value, t.(highestId := Max(top.value, t.highestId)), cutoff, floor);
      }
    } else {
      WalkFromList(store, newest, e.read, k, s, cutoff, floor);
    }
  }

  lemma {:induction false} AddAllKeepsUnreadable(s: ScanView, ps: seq<Proposal>, cutoff: Time, floor: Time)
    ensures AddAll(s, ps, cutoff, floor).0.unreadable == s.unreadable
    decreases |ps|
  {
    if ps == [] {
    } else {
      AddAllKeepsUnreadable(AddTo(s, ps[0], cutoff, floor), ps[1..], cutoff, floor);
    }
  }

  /** A prefix of the listing that ends the scan, or is all of it, gives the lists of the whole listing. */
  lemma PrefixIsWhole(store: Store, newest: nat, n: nat, t: ScanView, done: bool, cutoff: Time, floor: Time)
    requires n <= |Listing(store, newest)| && t.unreadable == []
    requires AddAll(EMPTY_SCAN, Listing(store, newest)[..n], cutoff, floor) == (t, done)
    requires done || n == |Listing(store, newest)|
    ensures FoundWhole(t, store, newest, cutoff, floor)
  {
    AddAllSplit(EMPTY_SCAN, Listing(store, newest), n, cutoff, floor);
    assert Listing(store, newest)[|Listing(store, newest)|..] == [];
  }

  /** Where an uninterrupted list stops, the scan holds the lists of the whole listing. */
  lemma PageIsFold(store: Store, newest: nat, e: Endpoint, k: nat, s: ScanView, cutoff: Time, floor: Time)
    requires Serves(store, newest, e) && k < |e.pages| && e.pages[k].Listed?
    requires ReadSoFar(store, newest, k, s, cutoff, floor)
    ensures var (t, done) := AddAll(s, e.pages[k].proposals, cutoff, floor);
      if done || !e.pages[k].more then FoundWhole(t, store, newest, cutoff, floor)
      else ReadSoFar(store, newest, k + 1, t, cutoff, floor)
  {
    NextPage(store, newest, e, k, s, cutoff, floor);
    AddAllKeepsUnreadable(s, e.pages[k].proposals, cutoff, floor);
    var (t, done) := AddAll(s, e.pages[k].proposals, cutoff, floor);
    if done || !e.pages[k].more {
      PrefixIsWhole(store, newest, Min((k + 1) * PAGE_SIZE, |Listing(store, newest)|), t, done, cutoff, floor);
    }
  }

  /** What every page but the last leaves for the next one. */
  ghost predicate ReadSoFar(store: Store, newest: nat, k: nat, s: ScanView, cutoff: Time, floor: Time) {
    s.unreadable == [] && AfterPages(store, newest, k, s, cutoff, floor)
  }

  /** From page `k`, the scan either ends with the lists of the whole listing or goes on to the next page. */
  ghost predicate LeavesWhole(store: Store, newest: nat, e: Endpoint, k: nat, s: ScanView, cutoff: Time, floor: Time,
                              known: nat, bound: nat)
    requires Finite(e.read, bound)
  {
    if k >= |e.pages| || e.pages[k].ListFailed? then
      var r := FallBack(e, s, cutoff, floor, known, bound);
      r.Ok? ==> FoundWhole(r.value, store, newest, cutoff, floor)
    else
      var (t, done) := AddAll(s, e.pages[k].proposals, cutoff, floor);
      if done || !e.pages[k].more then FoundWhole(t, store, newest, cutoff, floor)
      else ReadSoFar(store, newest, k + 1, t, cutoff, floor)
  }

  lemma WholeByPages(store: Store, newest: nat, e: Endpoint, cutoff: Time, floor: Time, known: nat, bound: nat)
    requires Finite(e.read, bound)
    requires forall k: nat, s :: ReadSoFar(store, newest, k, s, cutoff, floor) ==>
      LeavesWhole(store, newest, e, k, s, cutoff, floor, known, bound)
    ensures var r := ListFrom(e, FIRST_LIST_PAGE, EMPTY_SCAN, cutoff, floor, known, bound);
      r.Ok? ==> FoundWhole(r.value, store, newest, cutoff, floor)
  {
    var inv := (k: nat, s: ScanView) => ReadSoFar(store, newest, k, s, cutoff, floor);
    var good := (r: Answer) => r.Ok? ==> FoundWhole(r.value, store, newest, cutoff, floor);
    forall k: nat, s | inv(k, s) ensures StepsWell(e, k, s, cutoff, floor, known, bound, inv, good) {
      assert LeavesWhole(store, newest, e, k, s, cutoff, floor, known, bound);
    }
    NoPagesRead(store, newest, cutoff, floor);
    ListInduction(e, FIRST_LIST_PAGE, EMPTY_SCAN, cutoff, floor, known, bound, inv, good);
  }

  lemma DiscoveryIsFold(store: Store, newest: nat, e: Endpoint, cutoff: Time, floor: Time, known: nat, bound: nat)
    requires Stored(store) && Serves(store, newest, e) && Finite(e.read, bound)
    requires AllDecodable(e.read) && !ProbeDecides(e, known)
    ensures var r := ListFrom(e, FIRST_LIST_PAGE, EMPTY_SCAN, cutoff, floor, known, bound);
      r.Ok? ==> FoundWhole(r.value, store, newest, cutoff, floor)
  {
    forall k: nat, s | ReadSoFar(store, newest, k, s, cutoff, floor)
      ensures LeavesWhole(store, newest, e, k, s, cutoff, floor, known, bound)
    {
      if k >= |e.pages| || e.pages[k].ListFailed? {
        FallBackIsFold(store, newest, e, k, s, cutoff, floor, known, bound);
      } else {
        PageIsFold(store, newest, e, k, s, cutoff, floor);
      }
    }
    WholeByPages(store, newest, e, cutoff, floor, known, bound);
  }

  // ----- the walk that a long gap cuts off

  /** The newest proposal up to `hi` is too old to matter, or there is none, so that reading from `hi` finds nothing. */
  ghost predicate IsIdle(store: Store, hi: nat, cutoff: Time, floor: Time) {
    var all := Listing(store, hi);
    all == [] || (TooOld(all[0], floor) && !Relevant(all[0], cutoff))
  }

  lemma {:induction false} AddAllKeepsSeen(s: ScanView, ps: seq<Proposal>, cutoff: Time, floor: Time, p: Proposal)
    requires p in s.seen
    ensures p in AddAll(s, ps, cutoff, floor).0.seen
    decreases |ps|
  {
    if ps == [] {
    } else {
      AddAllKeepsSeen(AddTo(s, ps[0], cutoff, floor), ps[1..], cutoff, floor, p);
    }
  }

  ghost predicate IsFound(s: ScanView, p: Proposal) {
    p in s.active || p in s.recentClosed || p in s.seen
  }

  /** Reading finds the newest proposal, or it finds nothing. */
  lemma HeadIsFound(store: Store, hi: nat, cutoff: Time, floor: Time)
    ensures var w := WholeList(store, hi, cutoff, floor);
      if IsIdle(store, hi, cutoff, floor) then SameFound(w, EMPTY_SCAN) else IsFound(w, Listing(store, hi)[0])
  {
    var all := Listing(store, hi);
    if all != [] {
      var t := AddTo(EMPTY_SCAN, all[0], cutoff, floor);
      assert all == [all[0]] + all[1..];
      AddAllCons(EMPTY_SCAN, all[0], all[1..], cutoff, floor);
      if !TooOld(all[0], floor) {
        assert all[0] in t.seen;
        AddAllKeepsSeen(t, all[1..], cutoff, floor, all[0]);
      }
    }
  }

  lemma {:induction false} ListingHoldsUpTo(store: Store, hi: nat, top: nat)
    requires Stored(store) && hi <= top
    ensures AllHold(UpTo(store, top), Listing(store, hi))
  {
    if hi == 0 {
    } else {
      ListingHoldsUpTo(store, hi - 1, top);
      assert hi in store ==> Holds(UpTo(store, top), store[hi]);
    }
  }

  /** Reading from `top` finds nothing above it. */
  lemma FoundUpTo(store: Store, top: nat, cutoff: Time, floor: Time, p: Proposal)
    requires Stored(store) && IsFound(WholeList(store, top, cutoff, floor), p)
    ensures p.id.Some? && p.id.value <= top
  {
    var w := WholeList(store, top, cutoff, floor);
    ListingHoldsUpTo(store, top, top);
    AddAllIsGrounded(EMPTY_SCAN, UpTo(store, top), Listing(store, top), cutoff, floor);
    if i :| 0 <= i < |w.active| && w.active[i] == p {
      assert Holds(UpTo(store, top), w.active[i]);
    } else if i :| 0 <= i < |w.recentClosed| && w.recentClosed[i] == p {
      assert Holds(UpTo(store, top), w.recentClosed[i]);
    } else {
      var i :| 0 <= i < |w.seen| && w.seen[i] == p;
      assert Holds(UpTo(store, top), w.seen[i]);
    }
  }

  /** With something stored above `top`, reading from `top` is the same as reading all only if both find nothing. */
  lemma CutOffShows(store: Store, newest: nat, top: nat, j: nat, cutoff: Time, floor: Time)
    requires Stored(store) && (forall i :: i in store ==> i <= newest) && j in store && j > top
    ensures SameFound(WholeList(store, top, cutoff, floor), WholeList(store, newest, cutoff, floor)) <==>
      IsIdle(store, top, cutoff, floor) && IsIdle(store, newest, cutoff, floor)
  {
    var below, whole := WholeList(store, top, cutoff, floor), WholeList(store, newest, cutoff, floor);
    HeadIsFound(store, top, cutoff, floor);
    HeadIsFound(store, newest, cutoff, floor);
    if SameFound(below, whole) {
      if !IsIdle(store, newest, cutoff, floor) {
        ListingHead(store, newest);
        FoundUpTo(store, top, cutoff, floor, Listing(store, newest)[0]);
      }
    }
  }

  lemma ReadFromAbove(store: Store, newest: nat, top: nat, cutoff: Time, floor: Time)
    requires forall i :: i in store ==> i <= newest && i <= top
    ensures WholeList(store, top, cutoff, floor) == WholeList(store, newest, cutoff, floor)
  {
    if top >= newest {
      ListingAbove(store, top, newest);
    } else {
      ListingAbove(store, newest, top);
    }
  }

  /** Nothing is stored above the gap, or neither side of it has anything to report. */
  ghost predicate GapIsHarmless(store: Store, newest: nat, e: Endpoint, known: nat, cutoff: Time, floor: Time) {
    || (forall i :: i in store ==> !Missed(store, e, known, i))
    || (IsIdle(store, newest, cutoff, floor) &&
        exists top: nat :: IsFirstGap(store, known, top) && IsIdle(store, top, cutoff, floor))
  }

  lemma FirstGapIsUnique(store: Store, known: nat, g: nat, h: nat)
    requires IsFirstGap(store, known, g) && IsFirstGap(store, known, h)
    ensures g == h
  {
  }

  lemma HarmlessIffSame(store: Store, newest: nat, e: Endpoint, known: nat, top: nat, cutoff: Time, floor: Time)
    requires Stored(store) && (forall i :: i in store ==> i <= newest)
    requires ProbeDecides(e, known) && IsFirstGap(store, known, top)
    ensures SameFound(WholeList(store, top, cutoff, floor), WholeList(store, newest, cutoff, floor)) <==>
      GapIsHarmless(store, newest, e, known, cutoff, floor)
  {
    forall i | i in store ensures Missed(store, e, known, i) <==> i > top {
      HiddenAboveGap(store, known, top, i);
    }
    if j :| j in store && j > top {
      CutOffShows(store, newest, top, j, cutoff, floor);
      if g: nat :| IsFirstGap(store, known, g) && IsIdle(store, g, cutoff, floor) {
        FirstGapIsUnique(store, known, g, top);
      }
    } else {
      ReadFromAbove(store, newest, top, cutoff, floor);
    }
  }

  /** A discovery that probes reads the listing from the first gap down. */
  lemma ProbedIsFold(store: Store, newest: nat, e: Endpoint, cutoff: Time, floor: Time, known: nat, bound: nat)
    requires Stored(store) && Serves(store, newest, e) && Finite(e.read, bound)
    requires AllDecodable(e.read) && ProbeDecides(e, known)
    ensures var r := ListFrom(e, FIRST_LIST_PAGE, EMPTY_SCAN, cutoff, floor, known, bound);
      var probed := Probe(e.read, known + 1, known, 0, bound);
      r.Ok? ==>
        && probed.Ok? && IsFirstGap(store, known, probed.value)
        && SameFound(r.value, WholeList(store, probed.value, cutoff, floor)) && r.value.unreadable == []
  {
    ProbeFindsFirstGap(store, e.read, known, bound);
    var probed := Probe(e.read, known + 1, known, 0, bound);
    if probed.Ok? {
      var s := EMPTY_SCAN.(usedFallback := true, highestId := Max(probed.value, EMPTY_SCAN.highestId));
      WalkIsFold(store, e.read, probed.value, 0, s, EMPTY_SCAN, cutoff, floor);
    }
  }

  lemma DiscoveryFinds(store: Store, newest: nat, e: Endpoint, cutoff: Time, floor: Time, known: nat, bound: nat)
    requires Stored(store) && Serves(store, newest, e) && Finite(e.read, bound) && AllDecodable(e.read)
    ensures var r := ListFrom(e, FIRST_LIST_PAGE, EMPTY_SCAN, cutoff, floor, known, bound);
      r.Ok? ==>
        && r.value.unreadable == []
        && (SameFound(r.value, WholeList(store, newest, cutoff, floor)) <==>
            GapIsHarmless(store, newest, e, known, cutoff, floor))
  {
    var r := ListFrom(e, FIRST_LIST_PAGE, EMPTY_SCAN, cutoff, floor, known, bound);
    if r.Ok? {
      if ProbeDecides(e, known) {
        ProbedIsFold(store, newest, e, cutoff, floor, known, bound);
        var top := Probe(e.read, known + 1, known, 0, bound).value;
        HarmlessIffSame(store, newest, e, known, top, cutoff, floor);
      } else {
        DiscoveryIsFold(store, newest, e, cutoff, floor, known, bound);
      }
    }
  }

  /**
   If every proposal can be decoded on its own, list-then-walk either fails or gives the lists of an uninterrupted
   read of the whole listing, in the same order, whichever list page fails: exactly unless the walk had to start
   from the probe and a long gap cut something off.
   */
  lemma HandOverPreserves(store: Store, newest: nat, e: Endpoint, whole: Endpoint, cutoff: Time, lifespan: Duration,
                          known: nat, bound: nat)
    requires Stored(store) && Serves(store, newest, e) && Finite(e.read, bound)
    requires Serves(store, newest, whole) && Finite(whole.read, bound)
    requires AllDecodable(e.read) && AllDecodable(whole.read)
    requires |whole.pages| * PAGE_SIZE >= |Listing(store, newest)| && |whole.pages| > 0
    requires forall k :: 0 <= k < |whole.pages| ==> whole.pages[k].Listed?
    ensures Discover(whole, cutoff, lifespan, known, bound).Ok?
    ensures var r := Discover(e, cutoff, lifespan, known, bound);
      r.Ok? ==>
        && r.value.unreadable == []
        && (SameFound(r.value, Discover(whole, cutoff, lifespan, known, bound).value) <==>
            GapIsHarmless(store, newest, e, known, cutoff, ScanFloor(cutoff, lifespan)))
  {
    var floor := ScanFloor(cutoff, lifespan);
    DiscoveryFinds(store, newest, e, cutoff, floor, known, bound);
    DiscoveryIsFold(store, newest, whole, cutoff, floor, known, bound);
    WholeListSucceeds(store, newest, whole, cutoff, floor, known, bound);
  }

  /** A list of which every page answers is read to its end. */
  lemma WholeListSucceeds(store: Store, newest: nat, e: Endpoint, cutoff: Time, floor: Time, known: nat, bound: nat)
    requires Serves(store, newest, e) && Finite(e.read, bound) && |e.pages| > 0
    requires |e.pages| * PAGE_SIZE >= |Listing(store, newest)|
    requires forall j :: 0 <= j < |e.pages| ==> e.pages[j].Listed?
    ensures ListFrom(e, FIRST_LIST_PAGE, EMPTY_SCAN, cutoff, floor, known, bound).Ok?
  {
    var inv := (k: nat, s: ScanView) => k < |e.pages|;
    var good := (r: Answer) => r.Ok?;
    forall k: nat, s | inv(k, s) ensures StepsWell(e, k, s, cutoff, floor, known, bound, inv, good) {
      assert ServesPage(Listing(store, newest), k, e.pages[k]);
    }
    ListInduction(e, FIRST_LIST_PAGE, EMPTY_SCAN, cutoff, floor, known, bound, inv, good);
  }
}
