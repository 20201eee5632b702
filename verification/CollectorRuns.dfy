/**
 Whole runs of collection cycles (collector/collector.go, Run), and what a completed cycle shows of the chain,
 whatever failed in the cycles before it.
 */
module CollectorRuns {
  import opened Basics
  import opened ProposalScan
  import opened ProposalDiscovery
  import opened ProposalMemory
  import opened Collector

  ghost predicate IsStep(s: Carried, w: World, t: Carried, window: Duration, bound: nat) {
    Finite(w.proposals.read, bound) && t == Next(s, w, window, bound)
  }

  ghost predicate IsCycleRun(worlds: seq<World>, run: seq<Carried>, window: Duration, bound: nat) {
    && |run| == |worlds| + 1 && run[0] == FRESH
    && forall n :: 0 <= n < |worlds| ==> IsStep(run[n], worlds[n], run[n + 1], window, bound)
  }

  /** What the gate shows at the end of a completed cycle. */
  ghost predicate Shows(g: Gate, s: Carried, w: World, window: Duration, bound: nat) {
    && Finite(w.proposals.read, bound)
    && (EndOf(w, window, s, bound) == Completed ==>
          ShowsExactly(g, OpenVotes(w, window, s.known, bound)))
  }

  method RunCycle(c: Collector, w: World, ghost bound: nat)
    requires Finite(w.proposals.read, bound)
    modifies c
    ensures IsStep(old(c.Carry()), w, c.Carry(), c.proposalHistoryWindow, bound)
    ensures Shows(c.gate, old(c.Carry()), w, c.proposalHistoryWindow, bound)
  {
    var failed := c.CollectSnapshot(w, bound);
  }

  /** The polling loop: a failed cycle changes nothing about the next one being run. */
  method RunCycles(c: Collector, worlds: seq<World>, ghost bound: nat)
    returns (run: seq<Carried>, gates: seq<Gate>)
    requires c.Carry() == FRESH && forall w :: w in worlds ==> Finite(w.proposals.read, bound)
    modifies c
    ensures IsCycleRun(worlds, run, c.proposalHistoryWindow, bound) && run[|worlds|] == c.Carry()
    ensures |gates| == |worlds|
    ensures forall n :: 0 <= n < |gates| ==> Shows(gates[n], run[n], worlds[n], c.proposalHistoryWindow, bound)
  {
    run, gates := [c.Carry()], [];
    for n := 0 to |worlds|
      invariant |gates| == n && |run| == n + 1 && run[0] == FRESH && run[n] == c.Carry()
      invariant forall m :: 0 <= m < n ==> IsStep(run[m], worlds[m], run[m + 1], c.proposalHistoryWindow, bound)
      invariant forall m :: 0 <= m < n ==> Shows(gates[m], run[m], worlds[m], c.proposalHistoryWindow, bound)
    {
      RunCycle(c, worlds[n], bound);
      gates := gates + [c.gate];
      run := run + [c.Carry()];
    }
  }

  // ----- the chain that the cycles meet

  /** Every reply of the cycle's endpoint is the truth about the chain at its start, or a failure. */
  ghost predicate Meets(chain: Time -> Store, w: World, newest: nat) {
    Stored(chain(w.start)) && Serves(chain(w.start), newest, w.proposals)
  }

  ghost predicate InOrder(worlds: seq<World>) {
    forall m, n :: 0 <= m < n < |worlds| ==> worlds[m].start <= worlds[n].start
  }

  ghost predicate Environment(chain: Time -> Store, worlds: seq<World>, newest: seq<nat>) {
    && |newest| == |worlds| && Timeline(chain) && InOrder(worlds)
    && forall n :: 0 <= n < |worlds| ==> Meets(chain, worlds[n], newest[n])
  }

  // ----- the memory over the run

  /** What discovery answers in a cycle. */
  ghost function ScanOf(w: World, s: Carried, window: Duration, bound: nat): Result<ScanView, DiscoveryError>
    requires Finite(w.proposals.read, bound)
  {
    Discover(w.proposals, w.start - window, LifespanOf(w), s.known, bound)
  }

  /** Everything a discovery has seen is what the chain holds at that time. */
  lemma SeenIsReported(chain: Time -> Store, w: World, newest: nat, s: Carried, window: Duration, bound: nat)
    requires Meets(chain, w, newest) && Finite(w.proposals.read, bound)
    ensures var r := ScanOf(w, s, window, bound);
      r.Ok? ==> forall p :: p in r.value.seen && p.id.Some? ==> WasReported(chain, p.id.value, p, w.start)
  {
    var store := chain(w.start);
    DiscoveryIsGrounded(store, newest, w.proposals, w.start - window, LifespanOf(w), s.known, bound);
    var r := ScanOf(w, s, window, bound);
    if r.Ok? {
      forall p | p in r.value.seen && p.id.Some? ensures WasReported(chain, p.id.value, p, w.start) {
        var i :| 0 <= i < |r.value.seen| && r.value.seen[i] == p;
        assert Holds(store, r.value.seen[i]);
      }
    }
  }

  lemma ReportedLater(chain: Time -> Store, memory: Memory, t: Time, u: Time)
    requires AllReported(chain, memory, t) && t <= u
    ensures AllReported(chain, memory, u)
  {
    forall id | id in memory ensures WasReported(chain, id, memory[id], u) {
      assert WasReported(chain, id, memory[id], t);
    }
  }

  /** Recording a scan keeps the memory a record of what the chain has reported. */
  lemma ScanKeepsReported(chain: Time -> Store, w: World, newest: nat, s: Carried, window: Duration, bound: nat)
    requires Meets(chain, w, newest) && Finite(w.proposals.read, bound) && AllReported(chain, s.memory, w.start)
    ensures var r := ScanOf(w, s, window, bound);
      r.Ok? ==> AllReported(chain, MemoryAfterScan(w, window, s.memory, r.value), w.start)
  {
    var r := ScanOf(w, s, window, bound);
    SeenIsReported(chain, w, newest, s, window, bound);
    if r.Ok? {
      RememberReported(chain, s.memory, r.value.seen, w.start);
    }
  }

  lemma StepIsReported(chain: Time -> Store, w: World, newest: nat, s: Carried, t: Carried, window: Duration,
                       bound: nat)
    requires Meets(chain, w, newest) && IsStep(s, w, t, window, bound) && AllReported(chain, s.memory, w.start)
    ensures AllReported(chain, t.memory, w.start)
  {
    ScanKeepsReported(chain, w, newest, s, window, bound);
  }

  /** Throughout a run the memory holds only what the chain has reported. */
  lemma {:induction false} RunIsReported(chain: Time -> Store, worlds: seq<World>, newest: seq<nat>,
                                         run: seq<Carried>, window: Duration, bound: nat, n: nat)
    requires n < |worlds| && IsCycleRun(worlds, run, window, bound) && Environment(chain, worlds, newest)
    ensures AllReported(chain, run[n].memory, worlds[n].start)
  {
    if n == 0 {
    } else {
      var m := n - 1;
      RunIsReported(chain, worlds, newest, run, window, bound, m);
      assert Meets(chain, worlds[m], newest[m]) && IsStep(run[m], worlds[m], run[m + 1], window, bound);
      StepIsReported(chain, worlds[m], newest[m], run[m], run[m + 1], window, bound);
      assert worlds[m].start <= worlds[n].start;
      ReportedLater(chain, run[n].memory, worlds[m].start, worlds[n].start);
    }
  }

  /** The highest ID is never forgotten. */
  lemma KnownNeverFalls(worlds: seq<World>, run: seq<Carried>, window: Duration, bound: nat, n: nat)
    requires n < |worlds| && IsCycleRun(worlds, run, window, bound)
    ensures run[n].known <= run[n + 1].known
  {
    assert IsStep(run[n], worlds[n], run[n + 1], window, bound);
  }

  // ----- the main result

  /**
   Whatever discovery could not decode is over, if nothing is hidden: as the chain had it when the cycle started,
   and as it has it when the scan is recorded.
   */
  lemma UnreadableIsOver(chain: Time -> Store, w: World, newest: nat, s: Carried, window: Duration, bound: nat, id: nat)
    requires Meets(chain, w, newest) && Finite(w.proposals.read, bound) && Timeline(chain)
    requires AllReported(chain, s.memory, w.start) && NothingHidden(w, window, s, bound)
    requires id in chain(w.start) && id in ScanOf(w, s, window, bound).value.unreadable
    ensures IsOver(chain(w.start)[id], w.recorded)
    ensures w.start <= w.recorded && id in chain(w.recorded) ==> IsOver(chain(w.recorded)[id], w.recorded)
  {
    var scan := ScanOf(w, s, window, bound).value;
    var memory := MemoryAfterScan(w, window, s.memory, scan);
    ScanKeepsReported(chain, w, newest, s, window, bound);
    OpenOrClosed(scan.unreadable, memory, w.recorded, id);
    assert WasReported(chain, id, memory[id], w.start);
    ClosedStaysClosed(chain, id, memory[id], w.start, w.recorded);
    if w.start <= w.recorded && id in chain(w.recorded) {
      ReportedLater(chain, memory, w.start, w.recorded);
      ClosedStaysClosed(chain, id, memory[id], w.recorded, w.recorded);
    }
  }

  ghost predicate IsOpenVote(store: Store, l: Label) {
    l.Some? && l.value in store && store[l.value].status == VotingPeriod
  }

  ghost predicate IsUnreadable(w: World, s: Carried, window: Duration, bound: nat, l: Label)
    requires Finite(w.proposals.read, bound)
  {
    l.Some? && ScanOf(w, s, window, bound).Ok? && l.value in ScanOf(w, s, window, bound).value.unreadable
  }

  /** A long gap hides the vote from the probe of this cycle. */
  ghost predicate IsMissed(w: World, s: Carried, store: Store, l: Label) {
    l.Some? && Missed(store, w.proposals, s.known, l.value)
  }

  /** An ID is listed once, so an unreadable one is not also active. */
  lemma ActiveIsReadable(scan: ScanView, p: Proposal)
    requires forall i :: AllIds(scan)[i] <= 1
    requires p in scan.active && p.id.Some?
    ensures p.id.value !in scan.unreadable
  {
    var i :| 0 <= i < |scan.active| && scan.active[i] == p;
    var id: nat := p.id.value;
    assert Ids(scan.active)[i] == id;
    assert multiset(Ids(scan.active))[id] >= 1;
    assert AllIds(scan)[id] <= 1;
    assert multiset(scan.unreadable)[id] == 0;
  }

  /** One discovery lists exactly the open votes that can be decoded and that no long gap hides. */
  lemma OpenVotesAreExact(facts: Chain, newest: nat, w: World, s: Carried, window: Duration, bound: nat, l: Label)
    requires Serves(facts.store, newest, w.proposals) && Finite(w.proposals.read, bound)
    requires Lawful(facts, w.start - window, LifespanOf(w)) && ScanOf(w, s, window, bound).Ok?
    ensures (exists p :: p in OpenVotes(w, window, s.known, bound) && p.id == l) <==>
      IsOpenVote(facts.store, l) && !IsUnreadable(w, s, window, bound, l) && !IsMissed(w, s, facts.store, l)
    ensures !(IsUnreadable(w, s, window, bound, l) && IsMissed(w, s, facts.store, l) && IsOpenVote(facts.store, l))
  {
    var cutoff := w.start - window;
    DiscoveryIsExact(facts, newest, w.proposals, cutoff, LifespanOf(w), s.known, bound);
    var scan := ScanOf(w, s, window, bound).value;
    if p :| p in scan.active && p.id == l {
      assert Holds(facts.store, p);
      ActiveIsReadable(scan, p);
      assert ExactAt(scan, facts.store, w.proposals, s.known, cutoff, l.value);
    }
    if IsOpenVote(facts.store, l) {
      assert ExactAt(scan, facts.store, w.proposals, s.known, cutoff, l.value);
      assert facts.store[l.value].id == l;
    }
  }

  /**
   Over every run, with any queries failing in any cycle: a cycle that completes shows as live exactly the
   proposals that are in their voting period on the chain, that it could decode, and that no long gap hid from the
   probe. Those it could not decode have ended by the time the scan is recorded.
   */
  lemma CompletedCycleIsExact(chain: Time -> Store, worlds: seq<World>, newest: seq<nat>, run: seq<Carried>,
                              window: Duration, bound: nat, n: nat, facts: Chain, g: Gate, l: Label)
    requires n < |worlds| && IsCycleRun(worlds, run, window, bound) && Environment(chain, worlds, newest)
    requires facts.store == chain(worlds[n].start)
    requires worlds[n].govParams.Some? ==>
      Lawful(facts, worlds[n].start - window, worlds[n].govParams.value.lifespan)
    requires Finite(worlds[n].proposals.read, bound) && Shows(g, run[n], worlds[n], window, bound)
    requires EndOf(worlds[n], window, run[n], bound) == Completed
    ensures l in g.live <==>
      && IsOpenVote(facts.store, l) && !IsUnreadable(worlds[n], run[n], window, bound, l)
      && !IsMissed(worlds[n], run[n], facts.store, l)
    ensures IsOpenVote(facts.store, l) && l !in g.live && !IsMissed(worlds[n], run[n], facts.store, l) ==>
      Overdue(facts.store[l.value], worlds[n].recorded)
  {
    var w, s := worlds[n], run[n];
    CompletedIffAnswered(w, window, s, bound);
    RunIsReported(chain, worlds, newest, run, window, bound, n);
    assert Meets(chain, w, newest[n]);
    OpenVotesAreExact(facts, newest[n], w, s, window, bound, l);
    if IsOpenVote(facts.store, l) && IsUnreadable(w, s, window, bound, l) {
      UnreadableIsOver(chain, w, newest[n], s, window, bound, l.value);
    }
  }
}
