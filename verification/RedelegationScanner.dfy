/** The scanner that owns the rolling window (collector/redelegation.go). */
module RedelegationScanner {
  import opened Basics
  import opened Sums
  import opened RedelegationQuery
  import opened RedelegationWindow
  import opened RedelegationRuns

  datatype ScanError = QueryFailed(error: QueryError) | PoolFailed | PoolNotPositive

  /** What a successful scan changes: the window, the threshold states, and every flow series. */
  ghost predicate Updated(s: ScannerState, t: ScannerState, flow: FlowGauges, found: Events, now: Time, bonded: Amount,
                          c: Config)
  {
    && t.lastSuccess == now
    && Refreshed(t.events, s.events, found, now - c.window)
    && StatesStep(s.states, t.states, t.events, Threshold(bonded, c.ratio))
    && AboveByRatio(t.states, t.events, bonded, c.ratio)
    && Published(flow, t.events, t.states, bonded)
  }

  class Scanner {
    const window: Duration
    const overlap: Duration
    const thresholdRatio: real

    var events: Window
    var lastSuccess: Time
    var thresholdStates: States

    var scanSuccess: bool
    var scanLastSuccess: Time
    var flow: FlowGauges

    constructor (window: Duration, overlap: Duration, thresholdRatio: real)
      ensures events == map[] && lastSuccess == ZERO_TIME && thresholdStates == map[]
      ensures this.window == window && this.overlap == overlap && this.thresholdRatio == thresholdRatio
    {
      this.window, this.overlap, this.thresholdRatio := window, overlap, thresholdRatio;
      events, lastSuccess, thresholdStates := map[], ZERO_TIME, map[];
      scanSuccess, scanLastSuccess := false, 0;
      flow := NO_FLOW;
    }

    /** `found` is what the page scan answers: the incremental part of the window, or an error. */
    method Scan(now: Time, oracle: nat -> Reply, pool: Option<Amount>)
      returns (error: Option<ScanError>, ghost found: Result<Events, QueryError>)
      modifies this
      ensures found == RedelegationQuery.Scan(oracle, Since(old(lastSuccess), now, window, overlap))
      ensures error == None <==> found.Ok? && pool.Some? && pool.value > 0.0
      ensures scanSuccess <==> error == None
      ensures error.Some? ==> unchanged(`events, `lastSuccess, `thresholdStates, `flow, `scanLastSuccess)
      ensures error == None ==> scanLastSuccess == now
      ensures error == None ==>
        Updated(old(StateOf(this)), StateOf(this), flow, found.value, now, pool.value, ConfigOf(this))
    {
      error, found := ScanOnce(now, oracle, pool);
      if error.Some? {
        scanSuccess := false;
      } else {
        scanSuccess := true;
        scanLastSuccess := now;
      }
    }

    method ScanOnce(now: Time, oracle: nat -> Reply, pool: Option<Amount>)
      returns (error: Option<ScanError>, ghost found: Result<Events, QueryError>)
      modifies `events, `lastSuccess, `thresholdStates, `flow
      ensures found == RedelegationQuery.Scan(oracle, Since(old(lastSuccess), now, window, overlap))
      ensures error == None <==> found.Ok? && pool.Some? && pool.value > 0.0
      ensures error.Some? ==> unchanged(`events, `lastSuccess, `thresholdStates, `flow)
      ensures error == None ==>
        Updated(old(StateOf(this)), StateOf(this), flow, found.value, now, pool.value, ConfigOf(this))
    {
      var windowCutoff := now - window;
      var since := windowCutoff;
      if lastSuccess != ZERO_TIME {
        var incrementalCutoff := lastSuccess - overlap;
        if incrementalCutoff > since {
          since := incrementalCutoff;
        }
      }
      var reply;
      reply, found := Query(oracle, since);
      if reply.Err? {
        return Some(QueryFailed(reply.error)), found;
      }
      if pool.None? {
        return Some(PoolFailed), found;
      }
      if pool.value <= 0.0 {
        return Some(PoolNotPositive), found;
      }
      Install(now, reply.value, found.value, pool.value);
      return None, found;
    }

    method Query(oracle: nat -> Reply, since: Time)
      returns (reply: Result<seq<Event>, QueryError>, ghost found: Result<Events, QueryError>)
      ensures found == RedelegationQuery.Scan(oracle, since)
      ensures reply.Ok? <==> found.Ok?
      ensures reply.Ok? ==> Lists(reply.value, found.value)
    {
      reply := QueryRedelegations(oracle, since);
      found := RedelegationQuery.Scan(oracle, since);
    }

    /** Every required query has answered: replace the window and publish it. */
    method Install(now: Time, found: seq<Event>, ghost scanned: Events, bonded: Amount)
      requires Lists(found, scanned)
      modifies `events, `lastSuccess, `thresholdStates, `flow
      ensures lastSuccess == now && Refreshed(events, old(events), scanned, now - window)
      ensures StatesStep(old(thresholdStates), thresholdStates, events, Threshold(bonded, thresholdRatio))
      ensures AboveByRatio(thresholdStates, events, bonded, thresholdRatio)
      ensures Published(flow, events, thresholdStates, bonded)
    {
      var next := Merge(events, found, now - window, scanned);
      events := next;
      lastSuccess := now;
      Publish(bonded);
    }

    method UpdateThresholdStates(bySource: map<string, SourceAggregate>, bonded: Amount)
      requires AggregatesSources(bySource, events, events)
      modifies `thresholdStates
      ensures StatesStep(old(thresholdStates), thresholdStates, events, Threshold(bonded, thresholdRatio))
      ensures AboveByRatio(thresholdStates, events, bonded, thresholdRatio)
    {
      SourcesOccur(events, bySource);
      MarkAbsentSources(bySource);
      RefreshSources(bySource, Threshold(bonded, thresholdRatio));
      StepAboveByRatio(old(thresholdStates), thresholdStates, events, bonded, thresholdRatio);
    }

    method MarkAbsentSources(bySource: map<string, SourceAggregate>)
      modifies `thresholdStates
      ensures thresholdStates == map s | s in old(thresholdStates) ::
        if s in bySource then old(thresholdStates)[s] else old(thresholdStates)[s].(above := false)
    {
      var todo := thresholdStates.Keys;
      while todo != {}
        invariant todo <= old(thresholdStates).Keys && thresholdStates.Keys == old(thresholdStates).Keys
        invariant forall s :: s in thresholdStates ==>
          thresholdStates[s] == if s in todo || s in bySource then old(thresholdStates)[s]
                                else old(thresholdStates)[s].(above := false)
        decreases |todo|
      {
        var source :| source in todo;
        if source !in bySource {
          thresholdStates := thresholdStates[source := thresholdStates[source].(above := false)];
        }
        todo := todo - {source};
      }
    }

    method RefreshSources(bySource: map<string, SourceAggregate>, threshold: real)
      requires forall s :: s in bySource ==> Occurs(events, s) && bySource[s].amount == Outflow(events, s)
      modifies `thresholdStates
      ensures forall s :: s in thresholdStates <==> s in old(thresholdStates) || s in bySource
      ensures forall s :: s in thresholdStates && s !in bySource ==> thresholdStates[s] == old(thresholdStates)[s]
      ensures forall s :: s in bySource ==>
        SourceStep(old(thresholdStates), s, thresholdStates[s], events, threshold)
    {
      var states := RefreshAll(events, thresholdStates, bySource, threshold);
      thresholdStates := states;
    }

    method Publish(bonded: Amount)
      modifies `thresholdStates, `flow
      ensures StatesStep(old(thresholdStates), thresholdStates, events, Threshold(bonded, thresholdRatio))
      ensures AboveByRatio(thresholdStates, events, bonded, thresholdRatio)
      ensures Published(flow, events, thresholdStates, bonded)
    {
      flow := NO_FLOW;
      var bySource, byPair := Aggregate(events);
      UpdateThresholdStates(bySource, bonded);
      var sources := PublishSources(flow, bySource, thresholdStates, bonded);
      flow := PublishPairs(sources, byPair, bonded);
      PublishedHolds(flow, events, thresholdStates, bonded, bySource, byPair);
    }
  }

  function StateOf(s: Scanner): ScannerState
    reads s
  {
    ScannerState(s.events, s.lastSuccess, s.thresholdStates)
  }

  function ConfigOf(s: Scanner): Config {
    Config(s.window, s.overlap, s.thresholdRatio)
  }

  /** The scanning loop; a failed scan leaves the state for the next one. */
  method RunScans(scanner: Scanner, inputs: seq<Input>) returns (run: seq<ScannerState>)
    requires StateOf(scanner) == ScannerState(map[], ZERO_TIME, map[])
    modifies scanner
    ensures IsRun(ConfigOf(scanner), inputs, run) && run[|inputs|] == StateOf(scanner)
  {
    run := [StateOf(scanner)];
    for n := 0 to |inputs|
      invariant |run| == n + 1 && run[0] == ScannerState(map[], ZERO_TIME, map[]) && run[n] == StateOf(scanner)
      invariant forall m :: 0 <= m < n ==> ScanStep(ConfigOf(scanner), run[m], inputs[m], run[m + 1])
    {
      RunScan(scanner, inputs[n]);
      run := run + [StateOf(scanner)];
    }
  }

  method RunScan(scanner: Scanner, input: Input)
    modifies scanner
    ensures ScanStep(ConfigOf(scanner), old(StateOf(scanner)), input, StateOf(scanner))
  {
    var error, found := scanner.Scan(input.now, input.oracle, input.pool);
  }
}
