/**
 The input at which discovery loses an open vote without an error: ten missing IDs between the known proposal and a
 newer one, while the first list page and the one-proposal request fail.
 */
module DiscoveryGap {
  import opened Basics
  import opened ProposalScan
  import opened ProposalDiscovery
  import opened ProposalHandOver
  import opened Collector
  import opened CollectorRuns

  const NO_VOTES := Tally(0, 0, 0, 0)

  /** A proposal that closed long ago. */
  function Old(low: nat, start: Time): Proposal {
    var submit := start - 300 * DAY;
    Proposal(Some(low), Final("PASSED"), Some(submit), None, None, Some(submit + 2 * DAY), NO_VOTES)
  }

  /** A proposal that was submitted yesterday and can be voted on until tomorrow. */
  function Open(high: nat, start: Time): Proposal {
    Proposal(Some(high), VotingPeriod, Some(start - DAY), None, Some(start - DAY), Some(start + DAY), NO_VOTES)
  }

  function Above(low: nat): nat {
    low + PROBE_MISSES + 1
  }

  ghost function Facts(low: nat, start: Time): Chain {
    var high := Above(low);
    Chain(map[low := Old(low, start), high := Open(high, start)],
          map[low := start - 300 * DAY, high := start - DAY],
          map[low := start - 298 * DAY, high := start + DAY])
  }

  /** Every single read is answered truthfully. */
  function Read(low: nat, start: Time): nat -> ReadReply {
    id =>
      if id == low then Decoded(Old(low, start))
      else if id == Above(low) then Decoded(Open(id, start))
      else StatusError(404, 5)
  }

  function Failing(low: nat, start: Time): Endpoint {
    Endpoint([ListFailed], ListFailed, Read(low, start))
  }

  function Working(low: nat, start: Time): Endpoint {
    Endpoint([Listed([Open(Above(low), start), Old(low, start)], false)], ListFailed, Read(low, start))
  }

  lemma {:induction false} ListingSkips(store: Store, hi: nat, low: nat)
    requires low <= hi && forall i :: low < i <= hi ==> i !in store
    ensures Listing(store, hi) == Listing(store, low)
    decreases hi
  {
    if hi == low {
    } else {
      ListingSkips(store, hi - 1, low);
    }
  }

  lemma ListingIs(low: nat, start: Time)
    requires low > 0
    ensures Listing(Facts(low, start).store, Above(low)) == [Open(Above(low), start), Old(low, start)]
  {
    var store, high := Facts(low, start).store, Above(low);
    ListingSkips(store, high - 1, low);
    ListingSkips(store, low - 1, 0);
    assert Listing(store, low) == [Old(low, start)] + Listing(store, low - 1);
    assert Listing(store, high) == [Open(high, start)] + Listing(store, high - 1);
  }

  /** Everything that completeness assumes holds here. */
  lemma GapIsLawful(low: nat, start: Time, window: Duration, lifespan: Duration)
    requires low > 0 && window >= 0
    ensures Lawful(Facts(low, start), start - window, lifespan) && Finite(Read(low, start), Above(low))
    ensures Serves(Facts(low, start).store, Above(low), Failing(low, start))
    ensures Serves(Facts(low, start).store, Above(low), Working(low, start))
    ensures AllDecodable(Read(low, start))
  {
    var c, high := Facts(low, start), Above(low);
    ListingIs(low, start);
    assert LawfulAt(c, low, start - window, lifespan);
    assert LawfulAt(c, high, start - window, lifespan);
    assert SubmittedInOrder(c, low, high);
    var all := Listing(c.store, high);
    assert PageAt(all, 0) == all;
  }

  lemma {:induction false} ProbeStops(read: nat -> ReadReply, id: nat, top: nat, misses: nat, bound: nat)
    requires Finite(read, bound) && misses <= PROBE_MISSES
    requires forall j: nat :: id <= j < id + PROBE_MISSES - misses ==> SaysMissing(read(j))
    ensures Probe(read, id, top, misses, bound) == Ok(top)
    decreases PROBE_MISSES - misses
  {
    if misses == PROBE_MISSES {
    } else {
      ProbeStops(read, id + 1, top, misses + 1, bound);
    }
  }

  /** A walk over missing IDs only changes nothing. */
  lemma {:induction false} WalkOverMissing(
      read: nat -> ReadReply, id: nat, steps: nat, s: ScanView, cutoff: Time, floor: Time)
    requires id + steps <= WALK_LIMIT && forall j: nat :: 0 < j <= id ==> SaysMissing(read(j))
    ensures Walk(read, id, steps, s, cutoff, floor) == Ok(s)
    decreases id
  {
    if id == 0 {
    } else {
      WalkOverMissing(read, id - 1, steps + 1, s, cutoff, floor);
    }
  }

  lemma WalkFindsOld(low: nat, start: Time, s: ScanView, cutoff: Time, floor: Time)
    requires 0 < low <= WALK_LIMIT
    ensures Walk(Read(low, start), low, 0, s, cutoff, floor) == Ok(AddTo(s, Old(low, start), cutoff, floor))
  {
    WalkOverMissing(Read(low, start), low - 1, 1, AddTo(s, Old(low, start), cutoff, floor), cutoff, floor);
  }

  /** The walk starts below the gap, finds no open proposal, and ends without an error. */
  lemma DiscoveryMissesOpenVote(low: nat, start: Time, window: Duration, lifespan: Duration)
    requires 0 < low <= WALK_LIMIT && Finite(Read(low, start), Above(low))
    ensures var r := Discover(Failing(low, start), start - window, lifespan, low, Above(low));
      r.Ok? && r.value.active == [] && r.value.unreadable == []
  {
    var cutoff := start - window;
    var s := EMPTY_SCAN.(usedFallback := true, highestId := Max(low, EMPTY_SCAN.highestId));
    ProbeStops(Read(low, start), low + 1, low, 0, Above(low));
    WalkFindsOld(low, start, s, cutoff, ScanFloor(cutoff, lifespan));
  }

  /** The open vote is stored, can be read, and is hidden by the gap. */
  lemma OpenVoteIsMissed(low: nat, start: Time)
    requires low > 0
    ensures var store := Facts(low, start).store;
      && IsOpenVote(store, Some(Above(low))) && Read(low, start)(Above(low)).Decoded?
      && IsFirstGap(store, low, low) && Missed(store, Failing(low, start), low, Above(low))
  {
    var store := Facts(low, start).store;
    assert GapAfter(store, low) && low <= low;
    HiddenAboveGap(store, low, low, Above(low));
  }

  /**
   A cycle that completes and advances the success time while a vote that can still be cast is not listed: every
   assumption of completeness holds, and no query beside the first list page and the one-proposal request fails.
   */
  lemma CompletedCycleMissesOpenVote(low: nat, w: World, window: Duration, s: Carried)
    requires 0 < low <= WALK_LIMIT && window >= 0 && s.known == low
    requires ReachesListing(w) && w.govParams.Some? && w.slashingRead && w.proposals == Failing(low, w.start)
    ensures var c, high := Facts(low, w.start), Above(low);
      && Lawful(c, w.start - window, LifespanOf(w)) && Serves(c.store, high, w.proposals)
      && Finite(w.proposals.read, high) && IsOpenVote(c.store, Some(high))
      && EndOf(w, window, s, high) == Completed && OpenVotes(w, window, low, high) == []
  {
    GapIsLawful(low, w.start, window, LifespanOf(w));
    DiscoveryMissesOpenVote(low, w.start, window, LifespanOf(w));
    OpenVoteIsMissed(low, w.start);
  }

  /** An uninterrupted list gives the open vote at the same store, and list-then-walk other lists and no error. */
  lemma HandOverLosesOpenVote(low: nat, start: Time, window: Duration, lifespan: Duration)
    requires 0 < low <= WALK_LIMIT && window >= 0
    ensures Finite(Read(low, start), Above(low))
    ensures var cutoff, bound := start - window, Above(low);
      var walked := Discover(Failing(low, start), cutoff, lifespan, low, bound);
      var listed := Discover(Working(low, start), cutoff, lifespan, low, bound);
      walked.Ok? && listed.Ok? && !SameFound(walked.value, listed.value)
  {
    var store, cutoff, bound := Facts(low, start).store, start - window, Above(low);
    GapIsLawful(low, start, window, lifespan);
    ListingIs(low, start);
    OpenVoteIsMissed(low, start);
    DiscoveryMissesOpenVote(low, start, window, lifespan);
    HandOverPreserves(store, bound, Failing(low, start), Working(low, start), cutoff, lifespan, low, bound);
    assert Listing(store, bound)[0] == Open(bound, start);
    assert !IsIdle(store, bound, cutoff, ScanFloor(cutoff, lifespan));
  }
}
