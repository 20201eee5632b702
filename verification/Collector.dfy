/**
 The collection cycle and its live gate (collector/collector.go). Every query is an oracle that may fail;
 gauge vectors are maps from proposal to value.
 */
module Collector {
  import opened Basics
  import opened Sums
  import opened ProposalScan
  import opened ProposalDiscovery
  import opened ProposalMemory
  import Governance

  /** A proposal's `proposal_id` label. */
  type Label = Option<nat>

  /** The series that alerts on open votes read. */
  datatype Gate = Gate(
    live: set<Label>,
    secondsRemaining: map<Label, int>,
    turnout: map<Label, Fraction>,
    quorum: map<Label, Amount>)

  const RETIRED := Gate({}, map[], map[], map[])

  datatype GovParams = GovParams(quorum: Amount, vetoThreshold: Amount, lifespan: Duration)

  /** The answers one cycle meets; the clock is read again when the scan is recorded, and at the end. */
  datatype World = World(
    endpointsResolved: bool,
    validatorsRead: bool,
    consensusSize: Option<nat>,
    pool: Option<Amount>,
    govParams: Option<GovParams>,
    proposals: Endpoint,
    slashingRead: bool,
    tally: Label -> Option<Tally>,
    start: Time,
    recorded: Time,
    finish: Time)

  function Bonded(w: World): Amount {
    if w.pool.Some? then w.pool.value else 0.0
  }

  function QuorumOf(w: World): Amount {
    if w.govParams.Some? then w.govParams.value.quorum else 0.0
  }

  function LifespanOf(w: World): Duration {
    if w.govParams.Some? then w.govParams.value.lifespan else 0
  }

  /** A scan goes back by the lifespan of the governance parameters, or by sixty days without one, and a week more. */
  lemma ScanGoesBack(w: World, cutoff: Time)
    ensures ScanFloor(cutoff, LifespanOf(w)) ==
      if w.govParams.Some? && w.govParams.value.lifespan > 0 then cutoff - w.govParams.value.lifespan - 7 * DAY
      else cutoff - 60 * DAY - 7 * DAY
  {
  }

  // ----- what the gate may show

  /** An ID may be live only if this cycle listed it as voting, read its tally and set its series. */
  ghost predicate MayBeLive(g: Gate, l: Label, listed: seq<Proposal>, tally: Label -> Option<Tally>,
                            bonded: Amount, quorum: Amount) {
    && (exists p :: p in listed && p.id == l && p.status == VotingPeriod)
    && tally(l).Some?
    && l in g.turnout && g.turnout[l] == Fraction(Governance.AllVotes(tally(l).value), bonded)
    && l in g.quorum && g.quorum[l] == quorum
  }

  ghost predicate Safe(g: Gate, listed: seq<Proposal>, tally: Label -> Option<Tally>, bonded: Amount, quorum: Amount) {
    forall l :: l in g.live ==> MayBeLive(g, l, listed, tally, bonded, quorum)
  }

  /** The same for a whole cycle, by its answers: the quorum is the chain's, the turnout that of the bonded pool. */
  ghost predicate MayBeLiveIn(g: Gate, l: Label, listed: seq<Proposal>, w: World) {
    && (exists p :: p in listed && p.id == l && p.status == VotingPeriod)
    && w.tally(l).Some? && w.pool.Some? && w.pool.value > 0.0 && w.govParams.Some?
    && l in g.turnout && g.turnout[l] == Fraction(Governance.AllVotes(w.tally(l).value), w.pool.value)
    && l in g.quorum && g.quorum[l] == w.govParams.value.quorum
  }

  ghost predicate SafeIn(g: Gate, listed: seq<Proposal>, w: World) {
    forall l :: l in g.live ==> MayBeLiveIn(g, l, listed, w)
  }

  lemma SafeInCycle(trace: seq<Gate>, n: nat, listed: seq<Proposal>, w: World)
    requires n <= |trace| && w.govParams.Some? && Bonded(w) > 0.0
    requires forall i :: n <= i < |trace| ==> Safe(trace[i], listed, w.tally, Bonded(w), QuorumOf(w))
    ensures forall i :: n <= i < |trace| ==> SafeIn(trace[i], listed, w)
  {
    forall i | n <= i < |trace| ensures SafeIn(trace[i], listed, w) {
      forall l | l in trace[i].live ensures MayBeLiveIn(trace[i], l, listed, w) {
        assert MayBeLive(trace[i], l, listed, w.tally, Bonded(w), QuorumOf(w));
      }
    }
  }

  /** The proposals this cycle lists as open. */
  ghost function OpenVotes(w: World, window: Duration, known: nat, bound: nat): seq<Proposal>
    requires Finite(w.proposals.read, bound)
  {
    match Discover(w.proposals, w.start - window, LifespanOf(w), known, bound)
    case Ok(scan) => scan.active
    case Err(_) => []
  }

  ghost function MemoryAfterScan(w: World, window: Duration, memory: Memory, scan: ScanView): Memory {
    Prune(Remember(memory, scan.seen), ScanFloor(w.start - window, LifespanOf(w)))
  }

  /** What the collector carries from one cycle to the next. */
  datatype Carried = Carried(known: nat, memory: Memory, slashingKnown: bool)

  const FRESH := Carried(0, map[], false)

  /** The carried state after proposals were discovered and recorded, or the same state after an error. */
  ghost function AfterListing(s: Carried, w: World, window: Duration, bound: nat): Carried
    requires Finite(w.proposals.read, bound)
  {
    match Discover(w.proposals, w.start - window, LifespanOf(w), s.known, bound)
    case Ok(scan) => s.(known := Max(s.known, scan.highestId), memory := MemoryAfterScan(w, window, s.memory, scan))
    case Err(_) => s
  }

  /** The queries before discovery succeeded. */
  ghost predicate ReachesListing(w: World) {
    w.endpointsResolved && w.validatorsRead && w.consensusSize.Some? && w.consensusSize.value > 0
  }

  ghost function Next(s: Carried, w: World, window: Duration, bound: nat): Carried
    requires Finite(w.proposals.read, bound)
  {
    if ReachesListing(w)
    then AfterListing(s, w, window, bound).(slashingKnown := w.slashingRead || s.slashingKnown)
    else s
  }

  /** Discovery succeeded, and whatever it could not decode is remembered as closed. */
  ghost predicate NothingHidden(w: World, window: Duration, s: Carried, bound: nat)
    requires Finite(w.proposals.read, bound)
  {
    var found := Discover(w.proposals, w.start - window, LifespanOf(w), s.known, bound);
    && found.Ok?
    && PossiblyOpen(found.value.unreadable, MemoryAfterScan(w, window, s.memory, found.value), w.recorded) == []
  }

  /** Every part of the governance section is known. */
  ghost predicate GovernanceRead(w: World, window: Duration, s: Carried, bound: nat)
    requires Finite(w.proposals.read, bound)
  {
    && w.govParams.Some? && NothingHidden(w, window, s, bound)
    && AllAnalysable(OpenVotes(w, window, s.known, bound), w)
  }

  /** How a cycle can end. Without slashing parameters it stops early, and not as an error. */
  datatype CycleEnd = Abandoned | WithoutSlashing | GovernanceFailed | Completed

  ghost function EndOf(w: World, window: Duration, s: Carried, bound: nat): CycleEnd
    requires Finite(w.proposals.read, bound)
  {
    if !ReachesListing(w) then Abandoned
    else if !w.slashingRead && !s.slashingKnown then WithoutSlashing
    else if GovernanceRead(w, window, s, bound) then Completed
    else GovernanceFailed
  }

  /** Both voting times can be read, and the tally answered. */
  ghost predicate CanBeShown(p: Proposal, w: World) {
    p.votingStartTime.Some? && p.votingEndTime.Some? && w.tally(p.id).Some?
  }

  /**
   What a completed cycle must have met: every query but the pool answered, the slashing parameters perhaps in an
   earlier cycle, nothing hidden, and each open proposal analysable, which needs the pool.
   */
  lemma CompletedIffAnswered(w: World, window: Duration, s: Carried, bound: nat)
    requires Finite(w.proposals.read, bound)
    ensures EndOf(w, window, s, bound) == Completed <==>
      && w.endpointsResolved && w.validatorsRead && w.consensusSize.Some? && w.consensusSize != Some(0)
      && w.govParams.Some? && (w.slashingRead || s.slashingKnown)
      && NothingHidden(w, window, s, bound)
      && (forall p :: p in OpenVotes(w, window, s.known, bound) ==>
            w.pool.Some? && w.pool.value > 0.0 && CanBeShown(p, w))
  {
    DiscoveryKinds(w.proposals, w.start - window, LifespanOf(w), s.known, bound);
    var active := OpenVotes(w, window, s.known, bound);
    if active != [] {
      assert active[0] in active;
    }
  }

  ghost predicate AllAnalysable(active: seq<Proposal>, w: World) {
    if Bonded(w) > 0.0 then forall p :: p in active ==> Governance.Analysable(p, w.tally(p.id)) else active == []
  }

  /** The live proposals have a turnout and a quorum series, no other has, and none has a seconds-remaining series. */
  ghost predicate Aligned(g: Gate) {
    && (forall l :: l in g.turnout <==> l in g.live)
    && (forall l :: l in g.quorum <==> l in g.live)
    && g.secondsRemaining == map[]
  }

  /** The seconds-remaining series of the listed proposals whose voting end can be read, over an older series. */
  function Remaining(series: map<Label, int>, listed: seq<Proposal>, now: Time): map<Label, int> {
    if listed == [] then series
    else
      var n := |listed| - 1;
      var rest := Remaining(series, listed[..n], now);
      if listed[n].votingEndTime.Some? then rest[listed[n].id := Max(listed[n].votingEndTime.value - now, 0)] else rest
  }

  /** Entry `i` is the last listed one with this label and a voting end that can be read. */
  ghost predicate DecidesRemaining(listed: seq<Proposal>, l: Label, i: nat) {
    && i < |listed| && listed[i].id == l && listed[i].votingEndTime.Some?
    && forall j :: i < j < |listed| ==> listed[j].id != l || listed[j].votingEndTime.None?
  }

  /** A listed label gets the time its last entry leaves, never below zero. */
  lemma {:induction false} RemainingOfListed(
      series: map<Label, int>, listed: seq<Proposal>, now: Time, l: Label, i: nat)
    requires DecidesRemaining(listed, l, i)
    ensures var r := Remaining(series, listed, now);
      l in r && r[l] == Max(listed[i].votingEndTime.value - now, 0) && r[l] >= 0
    decreases |listed|
  {
    var n := |listed| - 1;
    if i == n {
    } else {
      var init := listed[..n];
      assert listed[n].id != l || listed[n].votingEndTime.None?;
      RemainingOfListed(series, init, now, l, i);
    }
  }

  /** Every other label keeps what it had. */
  lemma {:induction false} RemainingOfOthers(series: map<Label, int>, listed: seq<Proposal>, now: Time, l: Label)
    requires forall i :: 0 <= i < |listed| ==> listed[i].id != l || listed[i].votingEndTime.None?
    ensures var r := Remaining(series, listed, now);
      (l in r <==> l in series) && (l in series ==> r[l] == series[l])
  {
    if listed == [] {
    } else {
      RemainingOfOthers(series, listed[..|listed| - 1], now, l);
    }
  }

  /** The live IDs are exactly the listed ones. */
  ghost predicate ShowsExactly(g: Gate, listed: seq<Proposal>) {
    forall l :: l in g.live <==> exists p :: p in listed && p.id == l
  }

  /** Discovery puts open proposals, and only those, in the active list. */
  lemma {:induction false} AddAllKinds(s: ScanView, ps: seq<Proposal>, cutoff: Time, floor: Time)
    requires Kinds(s)
    ensures Kinds(AddAll(s, ps, cutoff, floor).0)
    decreases |ps|
  {
    if ps == [] {
    } else {
      AddAllKinds(AddTo(s, ps[0], cutoff, floor), ps[1..], cutoff, floor);
    }
  }

  ghost predicate Kinds(s: ScanView) {
    && (forall p :: p in s.active ==> p.status == VotingPeriod)
    && (forall p :: p in s.recentClosed ==> p.status != VotingPeriod)
  }

  lemma {:induction false} WalkKinds(
      read: nat -> ReadReply, id: nat, steps: nat, s: ScanView, cutoff: Time, floor: Time)
    requires Kinds(s)
    ensures var r := Walk(read, id, steps, s, cutoff, floor); r.Ok? ==> Kinds(r.value)
    decreases id
  {
    if id == 0 {
    } else {
      var t := Take(s, id, read(id), cutoff, floor);
      assert Kinds(t);
      WalkKinds(read, id - 1, steps + 1, t, cutoff, floor);
    }
  }

  lemma FallBackKinds(e: Endpoint, s: ScanView, cutoff: Time, floor: Time, known: nat, bound: nat)
    requires Finite(e.read, bound) && Kinds(s)
    ensures var r := FallBack(e, s, cutoff, floor, known, bound); r.Ok? ==> Kinds(r.value)
  {
    var t := s.(usedFallback := true);
    if s.lowestId > 0 {
      WalkKinds(e.read, s.lowestId - 1, 0, t, cutoff, floor);
    } else {
      var top := FindNewest(e, known, bound);
      if top.Ok? {
        WalkKinds(e.read, top.value, 0, t.(highestId := Max(top.value, t.highestId)), cutoff, floor);
      }
    }
  }

  /** Closed proposals are never live, so what the gate shows is among the active ones. */
  lemma OnlyActiveLive(trace: seq<Gate>, n: nat, active: seq<Proposal>, closed: seq<Proposal>,
                       tally: Label -> Option<Tally>, bonded: Amount, quorum: Amount)
    requires n <= |trace| && forall p :: p in closed ==> p.status != VotingPeriod
    requires forall i :: n <= i < |trace| ==> Safe(trace[i], active + closed, tally, bonded, quorum)
    ensures forall i :: n <= i < |trace| ==> Safe(trace[i], active, tally, bonded, quorum)
  {
    forall i | n <= i < |trace| ensures Safe(trace[i], active, tally, bonded, quorum) {
      forall l | l in trace[i].live ensures MayBeLive(trace[i], l, active, tally, bonded, quorum) {
        assert MayBeLive(trace[i], l, active + closed, tally, bonded, quorum);
      }
    }
  }

  lemma DiscoveryKinds(e: Endpoint, cutoff: Time, lifespan: Duration, known: nat, bound: nat)
    requires Finite(e.read, bound)
    ensures var r := Discover(e, cutoff, lifespan, known, bound); r.Ok? ==> Kinds(r.value)
  {
    var floor := ScanFloor(cutoff, lifespan);
    var inv := (k: nat, s: ScanView) => Kinds(s);
    var good := (r: Answer) => r.Ok? ==> Kinds(r.value);
    forall k: nat, s | inv(k, s) ensures StepsWell(e, k, s, cutoff, floor, known, bound, inv, good) {
      if k >= |e.pages| || e.pages[k].ListFailed? {
        FallBackKinds(e, s, cutoff, floor, known, bound);
      } else {
        AddAllKinds(s, e.pages[k].proposals, cutoff, floor);
      }
    }
    ListInduction(e, FIRST_LIST_PAGE, EMPTY_SCAN, cutoff, floor, known, bound, inv, good);
  }

  class Collector {
    const proposalHistoryWindow: Duration

    var highestProposalID: nat
    var proposalMemory: Memory
    var unreadableProposals: nat
    var slashingKnown: bool

    var gate: Gate
    var governanceSuccess: bool
    var lastSuccess: Time

    /** Every value the gate has taken since the current cycle began. */
    ghost var trace: seq<Gate>

    constructor (window: Duration)
      ensures Carry() == FRESH && gate == RETIRED && trace == [] && proposalHistoryWindow == window
    {
      proposalHistoryWindow := window;
      highestProposalID, proposalMemory, unreadableProposals := 0, map[], 0;
      slashingKnown, governanceSuccess, lastSuccess := false, false, ZERO_TIME;
      gate, trace := RETIRED, [];
    }

    function Carry(): Carried
      reads this
    {
      Carried(highestProposalID, proposalMemory, slashingKnown)
    }

    /** The one place where the gate changes, so that the trace misses nothing. */
    method Put(g: Gate)
      modifies `gate, `trace
      ensures gate == g && trace == old(trace) + [g]
    {
      gate := g;
      trace := trace + [g];
    }

    /** The live series goes first, so no later step can show an ID as live without its other series. */
    method RetireLiveProposalSeries()
      modifies `gate, `trace
      ensures gate == RETIRED && old(trace) < trace && gate == trace[|trace| - 1]
      ensures forall i :: |old(trace)| <= i < |trace| ==> trace[i].live == {}
    {
      Put(gate.(live := {}));
      Put(gate.(secondsRemaining := map[]));
      Put(gate.(turnout := map[]));
      Put(gate.(quorum := map[]));
    }

    method AnalyzeProposals(active: seq<Proposal>, recentClosed: seq<Proposal>, tally: Label -> Option<Tally>,
                            bonded: Amount, quorum: Amount)
      returns (liveErrors: seq<Label>)
      modifies `gate, `trace
      ensures old(trace) < trace && gate == trace[|trace| - 1]
      ensures forall i :: |old(trace)| <= i < |trace| ==> Safe(trace[i], active + recentClosed, tally, bonded, quorum)
      ensures liveErrors == [] ==> forall p :: p in active && p.status == VotingPeriod ==>
        Governance.Analysable(p, tally(p.id)) && p.id in gate.live
      ensures liveErrors != [] ==>
        exists p :: p in active + recentClosed && p.status == VotingPeriod && !Governance.Analysable(p, tally(p.id))
      ensures Aligned(gate)
    {
      RetireLiveProposalSeries();
      var targets := Targets(active, recentClosed);
      liveErrors := [];
      for n := 0 to |targets|
        invariant old(trace) < trace && gate == trace[|trace| - 1] && Aligned(gate)
        invariant forall i :: |old(trace)| <= i < |trace| ==>
          Safe(trace[i], active + recentClosed, tally, bonded, quorum)
        invariant liveErrors == [] ==> forall i :: 0 <= i < n && targets[i].status == VotingPeriod ==>
          Governance.Analysable(targets[i], tally(targets[i].id)) && targets[i].id in gate.live
        invariant liveErrors != [] ==>
          exists p :: p in active + recentClosed && p.status == VotingPeriod && !Governance.Analysable(p, tally(p.id))
      {
        var ok := AnalyzeOne(targets[n], active + recentClosed, tally, bonded, quorum);
        if !ok && targets[n].status == VotingPeriod {
          liveErrors := liveErrors + [targets[n].id];
        }
      }
    }

    /** One target: it is published if it is open and can be analysed, and the gate is untouched otherwise. */
    method AnalyzeOne(p: Proposal, ghost listed: seq<Proposal>, tally: Label -> Option<Tally>,
                      bonded: Amount, quorum: Amount) returns (ok: bool)
      requires p in listed && Safe(gate, listed, tally, bonded, quorum) && Aligned(gate)
      requires trace != [] && gate == trace[|trace| - 1]
      modifies `gate, `trace
      ensures ok <==> Governance.Analysable(p, tally(p.id))
      ensures old(trace) <= trace && gate == trace[|trace| - 1] && Aligned(gate)
      ensures forall i :: |old(trace)| <= i < |trace| ==> Safe(trace[i], listed, tally, bonded, quorum)
      ensures gate.live == if ok && p.status == VotingPeriod then old(gate.live) + {p.id} else old(gate.live)
    {
      ok := Governance.Analysable(p, tally(p.id));
      if ok && p.status == VotingPeriod {
        PublishLive(p, listed, tally, bonded, quorum);
      }
    }

    /** Turnout and quorum of an open proposal, then its live gate last. */
    method PublishLive(p: Proposal, ghost listed: seq<Proposal>, tally: Label -> Option<Tally>,
                       bonded: Amount, quorum: Amount)
      requires p in listed && p.status == VotingPeriod && tally(p.id).Some?
      requires Safe(gate, listed, tally, bonded, quorum) && Aligned(gate)
      modifies `gate, `trace
      ensures old(trace) < trace && gate == trace[|trace| - 1]
      ensures forall i :: |old(trace)| <= i < |trace| ==> Safe(trace[i], listed, tally, bonded, quorum)
      ensures gate.live == old(gate.live) + {p.id} && Aligned(gate)
    {
      Put(gate.(turnout := gate.turnout[p.id := Governance.Turnout(tally(p.id).value, bonded)]));
      Put(gate.(quorum := gate.quorum[p.id := quorum]));
      Put(gate.(live := gate.live + {p.id}));
    }

    method SetSecondsRemaining(active: seq<Proposal>, now: Time)
      requires gate.live == {} && trace != [] && gate == trace[|trace| - 1]
      modifies `gate, `trace
      ensures gate == old(gate).(secondsRemaining := Remaining(old(gate.secondsRemaining), active, now))
      ensures old(trace) <= trace && gate == trace[|trace| - 1]
      ensures forall i :: |old(trace)| <= i < |trace| ==> trace[i].live == {}
    {
      for n := 0 to |active|
        invariant gate == old(gate).(secondsRemaining := Remaining(old(gate.secondsRemaining), active[..n], now))
        invariant old(trace) <= trace && gate == trace[|trace| - 1]
        invariant forall i :: |old(trace)| <= i < |trace| ==> trace[i].live == {}
      {
        assert active[..n + 1][..n] == active[..n];
        if active[n].votingEndTime.Some? {
          var remaining := Max(active[n].votingEndTime.value - now, 0);
          Put(gate.(secondsRemaining := gate.secondsRemaining[active[n].id := remaining]));
        }
      }
      assert active[..|active|] == active;
    }

    /**
     One cycle. Only a completed one advances the success time; the governance section keeps its gauge when the
     cycle ends before it.
     */
    method CollectSnapshot(w: World, ghost bound: nat) returns (failed: bool)
      requires Finite(w.proposals.read, bound)
      modifies this
      ensures trace != [] && gate == trace[|trace| - 1]
      ensures forall i :: 0 <= i < |trace| ==>
        SafeIn(trace[i], OpenVotes(w, proposalHistoryWindow, old(highestProposalID), bound), w)
      ensures Carry() == Next(old(Carry()), w, proposalHistoryWindow, bound)
      ensures !w.endpointsResolved || !w.validatorsRead || w.consensusSize.None? || w.consensusSize == Some(0) ==>
        failed && Carry() == old(Carry()) && unchanged(`governanceSuccess, `lastSuccess)
      ensures match EndOf(w, proposalHistoryWindow, old(Carry()), bound)
        case Abandoned => failed && unchanged(`governanceSuccess, `lastSuccess)
        case WithoutSlashing => !failed && unchanged(`governanceSuccess, `lastSuccess)
        case GovernanceFailed => failed && !governanceSuccess && unchanged(`lastSuccess)
        case Completed =>
          && !failed && governanceSuccess && lastSuccess == w.finish
          && ShowsExactly(gate, OpenVotes(w, proposalHistoryWindow, old(highestProposalID), bound))
    {
      trace := [];
      RetireLiveProposalSeries();
      if !w.endpointsResolved {
        return true;
      }
      if !w.validatorsRead {
        return true;
      }
      if w.consensusSize.None? {
        return true;
      }
      if w.consensusSize.value == 0 {
        return true;
      }
      failed := CollectProposals(w, bound);
    }

    /** The rest of the cycle, once the validators and the consensus set are known. */
    method CollectProposals(w: World, ghost bound: nat) returns (failed: bool)
      requires Finite(w.proposals.read, bound) && ReachesListing(w)
      requires gate.live == {} && trace != [] && gate == trace[|trace| - 1]
      modifies this
      ensures old(trace) <= trace && gate == trace[|trace| - 1]
      ensures forall i :: |old(trace)| <= i < |trace| ==>
        SafeIn(trace[i], OpenVotes(w, proposalHistoryWindow, old(highestProposalID), bound), w)
      ensures Carry() == Next(old(Carry()), w, proposalHistoryWindow, bound)
      ensures
        if !w.slashingRead && !old(slashingKnown) then !failed && unchanged(`governanceSuccess, `lastSuccess)
        else
          && governanceSuccess == GovernanceRead(w, proposalHistoryWindow, old(Carry()), bound) == !failed
          && lastSuccess == (if failed then old(lastSuccess) else w.finish)
          && (!failed ==> ShowsExactly(gate, OpenVotes(w, proposalHistoryWindow, old(highestProposalID), bound)))
    {
      var active, recentClosed, possiblyOpen, listFailed := ListProposals(w, bound);
      if !w.slashingRead && !slashingKnown {
        return false;
      }
      slashingKnown := true;
      SetSecondsRemaining(active, w.recorded);
      failed := FinishGovernance(active, recentClosed, !listFailed && possiblyOpen == [], listFailed, w);
    }

    /** The analysis and the verdict on the governance section. */
    method FinishGovernance(active: seq<Proposal>, recentClosed: seq<Proposal>, nothingHidden: bool, listFailed: bool,
                            w: World) returns (failed: bool)
      requires gate.live == {} && trace != [] && gate == trace[|trace| - 1] && (nothingHidden ==> !listFailed)
      requires forall p :: p in active ==> p.status == VotingPeriod
      requires forall p :: p in recentClosed ==> p.status != VotingPeriod
      modifies `gate, `trace, `governanceSuccess, `lastSuccess
      ensures old(trace) <= trace && gate == trace[|trace| - 1]
      ensures forall i :: |old(trace)| <= i < |trace| ==>
        SafeIn(trace[i], active, w)
      ensures governanceSuccess == !failed == (nothingHidden && w.govParams.Some? && AllAnalysable(active, w))
      ensures lastSuccess == if failed then old(lastSuccess) else w.finish
      ensures !failed ==> ShowsExactly(gate, active)
    {
      var analysisFailed := false;
      if !listFailed && w.govParams.Some? {
        analysisFailed := AnalyzeCycle(active, recentClosed, w);
      }
      governanceSuccess := nothingHidden && w.govParams.Some? && !analysisFailed;
      if !governanceSuccess {
        return true;
      }
      lastSuccess := w.finish;
      return false;
    }

    /** Discovery, and the record of what it could not decode. */
    method ListProposals(w: World, ghost bound: nat)
      returns (active: seq<Proposal>, recentClosed: seq<Proposal>, possiblyOpen: seq<nat>, failed: bool)
      requires Finite(w.proposals.read, bound)
      modifies `highestProposalID, `proposalMemory, `unreadableProposals
      ensures Carry() == AfterListing(old(Carry()), w, proposalHistoryWindow, bound)
      ensures active == OpenVotes(w, proposalHistoryWindow, old(highestProposalID), bound)
      ensures forall p :: p in active ==> p.status == VotingPeriod
      ensures forall p :: p in recentClosed ==> p.status != VotingPeriod
      ensures !failed && possiblyOpen == [] <==>
        NothingHidden(w, proposalHistoryWindow, old(Carry()), bound)
    {
      var cutoff := w.start - proposalHistoryWindow;
      var scan, scanError := QueryRelevantProposals(w.proposals, cutoff, LifespanOf(w), highestProposalID, bound);
      DiscoveryKinds(w.proposals, cutoff, LifespanOf(w), highestProposalID, bound);
      if scanError.Some? {
        return [], [], [], true;
      }
      possiblyOpen := RecordProposalScan(scan.View(), ScanFloor(cutoff, LifespanOf(w)), w.recorded);
      return scan.active, scan.recentClosed, possiblyOpen, false;
    }

    /** The analysis at the end of a cycle; without the bonded pool open proposals cannot be analysed at all. */
    method AnalyzeCycle(active: seq<Proposal>, recentClosed: seq<Proposal>, w: World) returns (failed: bool)
      requires w.govParams.Some? && gate.live == {} && trace != [] && gate == trace[|trace| - 1]
      requires forall p :: p in active ==> p.status == VotingPeriod
      requires forall p :: p in recentClosed ==> p.status != VotingPeriod
      modifies `gate, `trace
      ensures old(trace) <= trace && gate == trace[|trace| - 1]
      ensures forall i :: |old(trace)| <= i < |trace| ==>
        SafeIn(trace[i], active, w)
      ensures failed <==> !AllAnalysable(active, w)
      ensures !failed ==> ShowsExactly(gate, active)
      ensures Bonded(w) > 0.0 ==> Aligned(gate)
    {
      if Bonded(w) <= 0.0 {
        return active != [];
      }
      ghost var before := |trace|;
      var liveErrors := AnalyzeProposals(active, recentClosed, w.tally, Bonded(w), QuorumOf(w));
      OnlyActiveLive(trace, before, active, recentClosed, w.tally, Bonded(w), QuorumOf(w));
      SafeInCycle(trace, before, active, w);
      failed := liveErrors != [];
      if !failed {
        assert SafeIn(trace[|trace| - 1], active, w);
        forall l | l in gate.live ensures exists p :: p in active && p.id == l {
          assert MayBeLiveIn(gate, l, active, w);
        }
      }
    }

    /** Remembers what the scan decoded and returns the unreadable IDs that could still be open. */
    method RecordProposalScan(scan: ScanView, floor: Time, now: Time) returns (possiblyOpen: seq<nat>)
      modifies `highestProposalID, `proposalMemory, `unreadableProposals
      ensures highestProposalID == Max(old(highestProposalID), scan.highestId)
      ensures proposalMemory == Prune(Remember(old(proposalMemory), scan.seen), floor)
      ensures unreadableProposals == |scan.unreadable|
      ensures possiblyOpen == PossiblyOpen(scan.unreadable, proposalMemory, now)
    {
      if scan.highestId > highestProposalID {
        highestProposalID := scan.highestId;
      }
      for i := 0 to |scan.seen|
        invariant proposalMemory == Remember(old(proposalMemory), scan.seen[..i])
        invariant highestProposalID == Max(old(highestProposalID), scan.highestId)
      {
        assert scan.seen[..i + 1][..i] == scan.seen[..i];
        if scan.seen[i].id.Some? {
          proposalMemory := proposalMemory[scan.seen[i].id.value := scan.seen[i]];
        }
      }
      assert scan.seen[..|scan.seen|] == scan.seen;
      ForgetOld(floor);
      unreadableProposals := |scan.unreadable|;
      possiblyOpen := [];
      for i := 0 to |scan.unreadable|
        invariant possiblyOpen == PossiblyOpen(scan.unreadable[..i], proposalMemory, now)
      {
        assert scan.unreadable[..i + 1][..i] == scan.unreadable[..i];
        var id := scan.unreadable[i];
        if id in proposalMemory && ClosedBy(proposalMemory[id], now) {
          continue;
        }
        possiblyOpen := possiblyOpen + [id];
      }
      assert scan.unreadable[..|scan.unreadable|] == scan.unreadable;
    }

    method ForgetOld(floor: Time)
      modifies `proposalMemory
      ensures proposalMemory == Prune(old(proposalMemory), floor)
    {
      var todo := proposalMemory.Keys;
      while todo != {}
        invariant todo <= old(proposalMemory).Keys
        invariant forall id :: id in proposalMemory <==>
          id in old(proposalMemory) && (id in todo || !TooOld(old(proposalMemory)[id], floor))
        invariant forall id :: id in proposalMemory ==> proposalMemory[id] == old(proposalMemory)[id]
        decreases |todo|
      {
        var id :| id in todo;
        var before, ok := SubmittedBefore(proposalMemory[id], floor);
        if ok && before {
          proposalMemory := proposalMemory - {id};
        }
        todo := todo - {id};
      }
    }
  }

  ghost predicate IsTargeted(targets: seq<Proposal>, l: Label) {
    exists p :: p in targets && p.id == l
  }

  /** The active proposals, and after them one for each other ID of the recently closed ones. */
  ghost predicate AreTargets(active: seq<Proposal>, recentClosed: seq<Proposal>, targets: seq<Proposal>) {
    && active <= targets
    && (forall i :: |active| <= i < |targets| ==>
          targets[i] in recentClosed && !IsTargeted(targets[..i], targets[i].id))
    && (forall p :: p in recentClosed ==> IsTargeted(targets, p.id))
  }

  lemma OneMoreTarget(active: seq<Proposal>, recentClosed: seq<Proposal>, targets: seq<Proposal>, n: nat)
    requires n < |recentClosed| && AreTargets(active, recentClosed[..n], targets)
    ensures var p := recentClosed[n];
      AreTargets(active, recentClosed[..n + 1], if IsTargeted(targets, p.id) then targets else targets + [p])
  {
    var p := recentClosed[n];
    assert recentClosed[..n + 1] == recentClosed[..n] + [p];
    if !IsTargeted(targets, p.id) {
      var more := targets + [p];
      forall i | |active| <= i < |more| ensures more[i] in recentClosed[..n + 1] && !IsTargeted(more[..i], more[i].id) {
        assert more[..i] == if i < |targets| then targets[..i] else targets;
      }
      forall q | q in recentClosed[..n + 1] ensures IsTargeted(more, q.id) {
        if q == p {
          assert p in more;
        } else {
          var x :| x in targets && x.id == q.id;
          assert x in more;
        }
      }
    }
  }

  /** Active proposals, then the recently closed ones whose ID has not come up yet. */
  method Targets(active: seq<Proposal>, recentClosed: seq<Proposal>) returns (targets: seq<Proposal>)
    ensures AreTargets(active, recentClosed, targets)
    ensures forall p :: p in active ==> p in targets
    ensures forall p :: p in targets ==> p in active || p in recentClosed
  {
    targets := active;
    var seen := set p | p in active :: p.id;
    for i := 0 to |recentClosed|
      invariant AreTargets(active, recentClosed[..i], targets)
      invariant forall l :: l in seen <==> IsTargeted(targets, l)
    {
      OneMoreTarget(active, recentClosed, targets, i);
      if recentClosed[i].id !in seen {
        targets := targets + [recentClosed[i]];
        seen := seen + {recentClosed[i].id};
      }
    }
    assert recentClosed[..|recentClosed|] == recentClosed;
  }

  // ----- the gate against the chain

  /** Whatever a safe gate shows as live is in its voting period on the chain, however incomplete the cycle is. */
  lemma LiveIsOpenOnChain(g: Gate, l: Label, store: Store, newest: nat, w: World, window: Duration,
                          known: nat, bound: nat)
    requires Finite(w.proposals.read, bound)
    requires SafeIn(g, OpenVotes(w, window, known, bound), w) && l in g.live
    requires Stored(store) && Serves(store, newest, w.proposals)
    ensures l.Some? && l.value in store && store[l.value].status == VotingPeriod
  {
    DiscoveryIsGrounded(store, newest, w.proposals, w.start - window, LifespanOf(w), known, bound);
    var active := OpenVotes(w, window, known, bound);
    assert MayBeLiveIn(g, l, active, w);
    var i :| 0 <= i < |active| && active[i].id == l && active[i].status == VotingPeriod;
    assert Holds(store, active[i]);
  }
}
