/** When the loops of proposal discovery succeed, and which newest ID a discovery leaves behind. */
module ProposalProgress {
  import opened Basics
  import opened ProposalScan
  import opened ProposalDiscovery
  import ProposalHandOver

  // ----- the walk

  /** The walk from `top` asks for this ID: no proposal above it was too old to matter. */
  ghost predicate Visits(read: nat -> ReadReply, top: nat, floor: Time, id: nat) {
    0 < id <= top && forall j: nat :: id < j <= top ==> !StopsAt(read(j), floor)
  }

  ghost predicate StopsAt(reply: ReadReply, floor: Time) {
    reply.Decoded? && TooOld(reply.proposal, floor)
  }

  /** One of the first so many IDs of the walk, with an answer that says something. */
  ghost predicate IsWalked(read: nat -> ReadReply, top: nat, steps: nat, id: nat) {
    !SaysNothing(read(id)) && steps + (top - id) < 250
  }

  /** A walk fails exactly if an answer on its way says nothing, or if it is longer than the limit. */
  lemma {:induction false} WalkSucceeds(
      read: nat -> ReadReply, id: nat, steps: nat, s: ScanView, cutoff: Time, floor: Time)
    ensures Walk(read, id, steps, s, cutoff, floor).Ok? <==>
      forall j: nat :: Visits(read, id, floor, j) ==> IsWalked(read, id, steps, j)
    decreases id
  {
    if id == 0 {
    } else {
      var t := Take(s, id, read(id), cutoff, floor);
      var next: nat := id - 1;
      WalkSucceeds(read, next, steps + 1, t, cutoff, floor);
      assert Visits(read, id, floor, id);
      if StopsAt(read(id), floor) {
        assert forall j: nat :: Visits(read, id, floor, j) ==> j == id;
      } else {
        VisitsNext(read, id, floor);
        if forall j: nat :: Visits(read, id, floor, j) ==> IsWalked(read, id, steps, j) {
          forall j: nat | Visits(read, next, floor, j) ensures IsWalked(read, next, steps + 1, j) {
            assert IsWalked(read, id, steps, j);
          }
        }
        if IsWalked(read, id, steps, id) &&
           forall j: nat :: Visits(read, next, floor, j) ==> IsWalked(read, next, steps + 1, j) {
          forall j: nat | Visits(read, id, floor, j) ensures IsWalked(read, id, steps, j) {
            assert j < id ==> IsWalked(read, next, steps + 1, j);
          }
        }
      }
    }
  }

  lemma VisitsNext(read: nat -> ReadReply, id: nat, floor: Time)
    requires id > 0 && !StopsAt(read(id), floor)
    ensures forall j: nat :: j < id ==> (Visits(read, id, floor, j) <==> Visits(read, id - 1, floor, j))
  {
    var next: nat := id - 1;
    forall j: nat | j < id ensures Visits(read, id, floor, j) <==> Visits(read, next, floor, j) {
    }
  }

  // ----- the probe

  lemma {:induction false} ProbeAnswers(
      store: Store, read: nat -> ReadReply, known: nat, id: nat, top: nat, misses: nat, bound: nat, gap: nat)
    requires Truthful(store, read) && Finite(read, bound) && Probing(store, known, id, top, misses)
    requires IsFirstGap(store, known, gap)
    ensures Probe(read, id, top, misses, bound).Ok? <==>
      forall j: nat :: id <= j <= gap + PROBE_MISSES ==> !SaysNothing(read(j))
    decreases Max(bound + 1 - id, 0), PROBE_MISSES - misses
  {
    assert top <= gap;
    if misses == PROBE_MISSES {
      assert GapAfter(store, top);
    } else {
      assert TruthfulAt(store, id, read(id));
      match Classify(read(id)) {
        case Missing => ProbeAnswers(store, read, known, id + 1, top, misses + 1, bound, gap);
        case ReadFailed =>
        case _ =>
          NoGapBelow(store, known, id, top, misses);
          ProbeAnswers(store, read, known, id + 1, id, 0, bound, gap);
      }
    }
  }

  /** A probe gives the first long gap exactly if every answer up to its end says something. */
  lemma ProbeSucceeds(store: Store, read: nat -> ReadReply, known: nat, bound: nat, gap: nat)
    requires Truthful(store, read) && Finite(read, bound) && IsFirstGap(store, known, gap)
    ensures var r := Probe(read, known + 1, known, 0, bound);
      if forall j: nat :: known < j <= gap + PROBE_MISSES ==> !SaysNothing(read(j)) then r == Ok(gap) else r.Err?
  {
    ProbeAnswers(store, read, known, known + 1, known, 0, bound, gap);
    ProbeFindsFirstGap(store, read, known, bound);
  }

  // ----- the newest ID

  lemma {:induction false} AddAllKeepsHighest(s: ScanView, ps: seq<Proposal>, cutoff: Time, floor: Time)
    requires forall i :: 0 <= i < |ps| && ps[i].id.Some? ==> ps[i].id.value <= s.highestId
    ensures AddAll(s, ps, cutoff, floor).0.highestId == s.highestId
    decreases |ps|
  {
    if ps == [] {
    } else {
      AddAllKeepsHighest(AddTo(s, ps[0], cutoff, floor), ps[1..], cutoff, floor);
    }
  }

  lemma {:induction false} WalkKeepsHighest(
      store: Store, read: nat -> ReadReply, id: nat, steps: nat, s: ScanView, cutoff: Time, floor: Time)
    requires Stored(store) && Truthful(store, read)
    requires forall j :: j in store && j <= id ==> j <= s.highestId
    ensures var r := Walk(read, id, steps, s, cutoff, floor); r.Ok? ==> r.value.highestId == s.highestId
    decreases id
  {
    if id == 0 {
    } else {
      assert TruthfulAt(store, id, read(id));
      assert id in store ==> store[id].id == Some(id);
      WalkKeepsHighest(store, read, id - 1, steps + 1, Take(s, id, read(id), cutoff, floor), cutoff, floor);
    }
  }

  /** `id` is the newest stored ID, or nothing is stored. */
  ghost predicate IsNewestId(store: Store, id: nat) {
    store == map[] || (id in store && forall i :: i in store ==> i <= id)
  }

  /** Reading any part of the list but none leaves the newest stored ID. */
  lemma ListingLeavesNewest(store: Store, newest: nat, n: nat, cutoff: Time, floor: Time)
    requires Stored(store) && (forall i :: i in store ==> i <= newest) && 0 < n <= |Listing(store, newest)|
    ensures IsNewestId(store, AddAll(EMPTY_SCAN, Listing(store, newest)[..n], cutoff, floor).0.highestId)
  {
    var all := Listing(store, newest);
    var t := AddTo(EMPTY_SCAN, all[0], cutoff, floor);
    ListingHead(store, newest);
    ListingHolds(store, newest);
    forall i | 0 <= i < n - 1 && all[..n][1..][i].id.Some? ensures all[..n][1..][i].id.value <= t.highestId {
      assert Holds(store, all[i + 1]);
    }
    AddAllKeepsHighest(t, all[..n][1..], cutoff, floor);
  }

  /** After at least one page, or before the first one. */
  ghost predicate KnowsNewest(store: Store, newest: nat, k: nat, s: ScanView, cutoff: Time, floor: Time) {
    AfterPages(store, newest, k, s, cutoff, floor) && (k > 0 ==> IsNewestId(store, s.highestId))
  }

  lemma PageLeavesNewest(store: Store, newest: nat, e: Endpoint, k: nat, s: ScanView, cutoff: Time, floor: Time)
    requires Stored(store) && Serves(store, newest, e) && k < |e.pages| && e.pages[k].Listed?
    requires AfterPages(store, newest, k, s, cutoff, floor)
    ensures IsNewestId(store, AddAll(s, e.pages[k].proposals, cutoff, floor).0.highestId)
  {
    NextPage(store, newest, e, k, s, cutoff, floor);
    var all := Listing(store, newest);
    if all == [] {
      EmptyListing(store, newest);
      assert store == map[];
    } else {
      ListingLeavesNewest(store, newest, Min((k + 1) * PAGE_SIZE, |all|), cutoff, floor);
    }
  }

  lemma NewestIsListed(store: Store, newest: nat, e: Endpoint, known: nat, bound: nat)
    requires Stored(store) && Serves(store, newest, e) && Finite(e.read, bound)
    requires !ProbeDecides(e, known) && !ListStarts(e)
    ensures var r := FindNewest(e, known, bound); r.Ok? ==> IsNewestId(store, r.value)
  {
    if e.newest.Listed? {
      if Listing(store, newest) == [] {
        EmptyListing(store, newest);
        assert store == map[];
      } else {
        ListingHead(store, newest);
      }
    }
  }

  lemma WalkLeavesNewest(store: Store, read: nat -> ReadReply, id: nat, s: ScanView, cutoff: Time, floor: Time)
    requires Stored(store) && Truthful(store, read) && IsNewestId(store, s.highestId)
    ensures var r := Walk(read, id, 0, s, cutoff, floor); r.Ok? ==> IsNewestId(store, r.value.highestId)
  {
    if store != map[] {
      WalkKeepsHighest(store, read, id, 0, s, cutoff, floor);
    }
  }

  lemma FirstFallBackLeavesNewest(store: Store, newest: nat, e: Endpoint, cutoff: Time, floor: Time,
                                  known: nat, bound: nat)
    requires Stored(store) && Serves(store, newest, e) && Finite(e.read, bound)
    requires !ProbeDecides(e, known) && !ListStarts(e)
    ensures var r := FallBack(e, EMPTY_SCAN, cutoff, floor, known, bound);
      r.Ok? ==> IsNewestId(store, r.value.highestId)
  {
    NewestIsListed(store, newest, e, known, bound);
    var top := FindNewest(e, known, bound);
    if top.Ok? {
      var u := EMPTY_SCAN.(usedFallback := true, highestId := Max(top.value, EMPTY_SCAN.highestId));
      WalkLeavesNewest(store, e.read, top.value, u, cutoff, floor);
    }
  }

  lemma FallBackLeavesNewest(store: Store, newest: nat, e: Endpoint, k: nat, s: ScanView, cutoff: Time, floor: Time,
                             known: nat, bound: nat)
    requires Stored(store) && Serves(store, newest, e) && Finite(e.read, bound) && !ProbeDecides(e, known)
    requires KnowsNewest(store, newest, k, s, cutoff, floor) && (k == 0 ==> !ListStarts(e))
    ensures var r := FallBack(e, s, cutoff, floor, known, bound); r.Ok? ==> IsNewestId(store, r.value.highestId)
  {
    if k > 0 {
      ProposalHandOver.RestOfList(store, newest, k, s, cutoff, floor);
      WalkLeavesNewest(store, e.read, s.lowestId - 1, s.(usedFallback := true), cutoff, floor);
    } else {
      FirstFallBackLeavesNewest(store, newest, e, cutoff, floor, known, bound);
    }
  }

  /** From page `k`, the scan either ends with the newest ID or goes on to the next page. */
  ghost predicate LeavesNewest(store: Store, newest: nat, e: Endpoint, k: nat, s: ScanView, cutoff: Time, floor: Time,
                               known: nat, bound: nat)
    requires Finite(e.read, bound)
  {
    if k >= |e.pages| || e.pages[k].ListFailed? then
      var r := FallBack(e, s, cutoff, floor, known, bound);
      r.Ok? ==> IsNewestId(store, r.value.highestId)
    else
      var (t, done) := AddAll(s, e.pages[k].proposals, cutoff, floor);
      if done || !e.pages[k].more then IsNewestId(store, t.highestId)
      else KnowsNewest(store, newest, k + 1, t, cutoff, floor)
  }

  lemma NewestByPages(store: Store, newest: nat, e: Endpoint, cutoff: Time, floor: Time, known: nat, bound: nat)
    requires Finite(e.read, bound)
    requires forall k: nat, s :: KnowsNewest(store, newest, k, s, cutoff, floor) ==>
      LeavesNewest(store, newest, e, k, s, cutoff, floor, known, bound)
    ensures var r := ListFrom(e, FIRST_LIST_PAGE, EMPTY_SCAN, cutoff, floor, known, bound);
      r.Ok? ==> IsNewestId(store, r.value.highestId)
  {
    var inv := (k: nat, s: ScanView) => KnowsNewest(store, newest, k, s, cutoff, floor);
    var good := (r: Answer) => r.Ok? ==> IsNewestId(store, r.value.highestId);
    forall k: nat, s | inv(k, s) ensures StepsWell(e, k, s, cutoff, floor, known, bound, inv, good) {
      assert LeavesNewest(store, newest, e, k, s, cutoff, floor, known, bound);
    }
    NoPagesRead(store, newest, cutoff, floor);
    ListInduction(e, FIRST_LIST_PAGE, EMPTY_SCAN, cutoff, floor, known, bound, inv, good);
  }

  lemma ListLeavesNewest(store: Store, newest: nat, e: Endpoint, cutoff: Time, floor: Time, known: nat, bound: nat)
    requires Stored(store) && Serves(store, newest, e) && Finite(e.read, bound) && !ProbeDecides(e, known)
    ensures var r := ListFrom(e, FIRST_LIST_PAGE, EMPTY_SCAN, cutoff, floor, known, bound);
      r.Ok? ==> IsNewestId(store, r.value.highestId)
  {
    forall k: nat, s | KnowsNewest(store, newest, k, s, cutoff, floor)
      ensures LeavesNewest(store, newest, e, k, s, cutoff, floor, known, bound)
    {
      if k >= |e.pages| || e.pages[k].ListFailed? {
        FallBackLeavesNewest(store, newest, e, k, s, cutoff, floor, known, bound);
      } else {
        NextPage(store, newest, e, k, s, cutoff, floor);
        PageLeavesNewest(store, newest, e, k, s, cutoff, floor);
      }
    }
    NewestByPages(store, newest, e, cutoff, floor, known, bound);
  }

  /** The highest ID of a successful discovery is the newest stored one, or the first long gap. */
  lemma HighestIsNewest(store: Store, newest: nat, e: Endpoint, cutoff: Time, lifespan: Duration, known: nat,
                        bound: nat)
    requires Stored(store) && Serves(store, newest, e) && Finite(e.read, bound)
    ensures var r := Discover(e, cutoff, lifespan, known, bound);
      r.Ok? ==>
        if ProbeDecides(e, known) then IsFirstGap(store, known, r.value.highestId)
        else IsNewestId(store, r.value.highestId)
  {
    var floor := ScanFloor(cutoff, lifespan);
    if ProbeDecides(e, known) {
      ProbeFindsFirstGap(store, e.read, known, bound);
      var probed := Probe(e.read, known + 1, known, 0, bound);
      if probed.Ok? {
        var s := EMPTY_SCAN.(usedFallback := true, highestId := Max(probed.value, EMPTY_SCAN.highestId));
        WalkKeepsHighest(store, e.read, probed.value, 0, s, cutoff, floor);
      }
    } else {
      ListLeavesNewest(store, newest, e, cutoff, floor, known, bound);
    }
  }
}
