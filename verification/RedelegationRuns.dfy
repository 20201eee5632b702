/**
 Whole runs of the scanner: the incrementally refreshed window against a full rebuild, the threshold
 states over time, and what the published series conserve.
 */
module RedelegationRuns {
  import opened Basics
  import opened Sums
  import opened RedelegationQuery
  import opened RedelegationWindow

  datatype Config = Config(window: Duration, overlap: Duration, ratio: real)
  datatype ScannerState = ScannerState(events: Window, lastSuccess: Time, states: States)

  /** What one call of `Scan` meets: the index while it pages, the replies, and the bonded pool. */
  datatype Input = Input(
    now: Time,
    history: nat -> seq<Row>,
    oracle: nat -> Reply,
    pool: Option<Amount>,
    first: Events,
    last: Events)

  ghost function Found(c: Config, s: ScannerState, i: Input): Result<Events, QueryError> {
    RedelegationQuery.Scan(i.oracle, Since(s.lastSuccess, i.now, c.window, c.overlap))
  }

  ghost predicate Succeeds(c: Config, s: ScannerState, i: Input) {
    Found(c, s, i).Ok? && i.pool.Some? && i.pool.value > 0.0
  }

  /** The contract of `Scanner.Scan` on the fields it owns. */
  ghost predicate ScanStep(c: Config, s: ScannerState, i: Input, t: ScannerState) {
    if Succeeds(c, s, i) then
      && t.lastSuccess == i.now
      && Refreshed(t.events, s.events, Found(c, s, i).value, i.now - c.window)
      && StatesStep(s.states, t.states, t.events, Threshold(i.pool.value, c.ratio))
    else
      t == s
  }

  ghost predicate IsRun(c: Config, inputs: seq<Input>, run: seq<ScannerState>) {
    && |run| == |inputs| + 1
    && run[0] == ScannerState(map[], ZERO_TIME, map[])
    && forall n :: 0 <= n < |inputs| ==> ScanStep(c, run[n], inputs[n], run[n + 1])
  }

  ghost predicate WellServed(i: Input) {
    Honest(i.history, i.oracle) && Describes(i.first, i.history(FIRST_PAGE)) && Describes(i.last, i.history(MAX_PAGES))
  }

  /**
   The index keeps every event under its key, wherever later rows are placed between scans; time does not run
   backwards, and whatever is indexed after a successful scan began is stamped no earlier than that success
   minus the overlap.
   */
  ghost predicate Environment(c: Config, inputs: seq<Input>, run: seq<ScannerState>)
    requires |run| == |inputs| + 1
  {
    && (forall n :: 0 <= n < |inputs| ==> WellServed(inputs[n]))
    && (forall m, n :: 0 <= m < n < |inputs| ==> Follows(c, run[m], inputs[m], inputs[n]))
  }

  ghost predicate Follows(c: Config, s: ScannerState, earlier: Input, later: Input) {
    && Submap(earlier.last, later.first)
    && earlier.now <= later.now
    && (Succeeds(c, s, earlier) ==> Timely(earlier, later, c.overlap))
  }

  ghost predicate Timely(earlier: Input, later: Input, overlap: Duration) {
    LaterThan(earlier.first, later.first, earlier.now - overlap)
  }

  /** Whatever `grown` adds to `index` is stamped at or after `t`. */
  ghost predicate LaterThan(index: Events, grown: Events, t: Time) {
    forall k :: k in grown && k !in index ==> grown[k].time >= t
  }

  // ----- the window equals a full rebuild

  /** The window after a success: complete for the index the scan started from, sound for the one it ended with. */
  ghost predicate Exact(c: Config, i: Input, events: Events) {
    && Submap(Backfill(i.first, i.now - c.window), events)
    && Submap(events, Backfill(i.last, i.now - c.window))
  }

  /** Before the first success nothing is held; later the last success `base` accounts for the window. */
  ghost predicate Accounted(c: Config, s: ScannerState, base: Option<Input>, index: Events) {
    && Submap(s.events, index)
    && (base.None? ==> s.events == map[] && s.lastSuccess == ZERO_TIME)
    && (base.Some? ==>
          && s.lastSuccess == base.value.now && Submap(base.value.first, index)
          && Submap(Backfill(base.value.first, base.value.now - c.window), s.events))
  }

  lemma FirstWithinLast(i: Input)
    requires WellServed(i)
    ensures Submap(i.first, i.last)
  {
    assert Suffix(i.history(FIRST_PAGE), i.history(MAX_PAGES));
    GrowthKeepsEvents(i.history(FIRST_PAGE), i.history(MAX_PAGES), i.first, i.last);
  }

  /** Merging is exact if whatever lies between the cutoff and the start of the page scan was already held. */
  lemma MergeIsExact(
      next: Events, events: Events, found: Events, first: Events, last: Events, cutoff: Time, since: Time)
    requires Refreshed(next, events, found, cutoff)
    requires Submap(Backfill(first, since), found) && Submap(found, Backfill(last, since))
    requires Submap(events, first) && Submap(first, last)
    requires forall k :: k in first && cutoff <= first[k].time < since ==> k in events
    ensures Submap(Backfill(first, cutoff), next) && Submap(next, Backfill(last, cutoff))
  {
    forall k | k in Backfill(first, cutoff) ensures k in next && next[k] == first[k] {
      if first[k].time >= since {
        assert k in Backfill(first, since) && k in found;
      }
    }
  }

  /** What the incremental cutoff skips was indexed when the last success began, and so is still held. */
  lemma SkippedIsHeld(events: Events, index: Events, first: Events, kept: Time, cutoff: Time, since: Time)
    requires Submap(first, index) && LaterThan(first, index, since)
    requires kept <= cutoff && Submap(Backfill(first, kept), events)
    ensures forall k :: k in index && cutoff <= index[k].time < since ==> k in events
  {
    forall k | k in index && cutoff <= index[k].time < since ensures k in events {
      assert k in first && first[k] == index[k];
      assert k in Backfill(first, kept);
    }
  }

  /** What the page scan answers lies between the index it started from and the index it ended with. */
  ghost predicate FoundIsExact(c: Config, s: ScannerState, i: Input) {
    var since := Since(s.lastSuccess, i.now, c.window, c.overlap);
    && Submap(i.first, i.last)
    && (Found(c, s, i).Ok? ==>
          && Submap(Backfill(i.first, since), Found(c, s, i).value)
          && Submap(Found(c, s, i).value, Backfill(i.last, since)))
  }

  lemma PageScanIsExact(c: Config, s: ScannerState, i: Input)
    requires WellServed(i)
    ensures FoundIsExact(c, s, i)
  {
    FirstWithinLast(i);
    ScanIsExact(i.history, i.oracle, Since(s.lastSuccess, i.now, c.window, c.overlap), i.first, i.last);
  }

  lemma StepIsExact(c: Config, s: ScannerState, i: Input, t: ScannerState, base: Option<Input>)
    requires FoundIsExact(c, s, i) && Found(c, s, i).Ok? && Accounted(c, s, base, i.first)
    requires Refreshed(t.events, s.events, Found(c, s, i).value, i.now - c.window)
    requires base.Some? ==> base.value.now <= i.now && Timely(base.value, i, c.overlap)
    ensures Exact(c, i, t.events)
  {
    var cutoff, since := i.now - c.window, Since(s.lastSuccess, i.now, c.window, c.overlap);
    if since > cutoff {
      SkippedIsHeld(s.events, i.first, base.value.first, base.value.now - c.window, cutoff, since);
    }
    MergeIsExact(t.events, s.events, Found(c, s, i).value, i.first, i.last, cutoff, since);
  }

  /** The latest input before `n` whose scan succeeded. */
  ghost function LastSuccess(c: Config, inputs: seq<Input>, run: seq<ScannerState>, n: nat): Option<Input>
    requires n <= |inputs| && |run| == |inputs| + 1
  {
    if n == 0 then None
    else if Succeeds(c, run[n - 1], inputs[n - 1]) then Some(inputs[n - 1])
    else LastSuccess(c, inputs, run, n - 1)
  }

  lemma {:induction false} LastSuccessIsEarlier(
      c: Config, inputs: seq<Input>, run: seq<ScannerState>, m: nat, n: nat)
    requires m <= n < |inputs| && |run| == |inputs| + 1
    requires forall k :: 0 <= k < m ==> Follows(c, run[k], inputs[k], inputs[n])
    ensures var base := LastSuccess(c, inputs, run, m);
      base.Some? ==> base.value.now <= inputs[n].now && Timely(base.value, inputs[n], c.overlap)
  {
    if m == 0 {
    } else {
      assert Follows(c, run[m - 1], inputs[m - 1], inputs[n]);
      LastSuccessIsEarlier(c, inputs, run, m - 1, n);
    }
  }

  lemma IndexGrows(c: Config, inputs: seq<Input>, run: seq<ScannerState>, n: nat)
    requires n + 1 < |inputs| && IsRun(c, inputs, run) && Environment(c, inputs, run)
    ensures Submap(inputs[n].last, inputs[n + 1].first)
  {
    assert Follows(c, run[n], inputs[n], inputs[n + 1]);
  }

  lemma SuccessAccounts(c: Config, i: Input, t: ScannerState, index: Events)
    requires Exact(c, i, t.events) && t.lastSuccess == i.now && Submap(i.first, i.last) && Submap(i.last, index)
    ensures Accounted(c, t, Some(i), index)
  {
  }

  lemma FailureAccounts(c: Config, s: ScannerState, base: Option<Input>, index: Events, grown: Events)
    requires Accounted(c, s, base, index) && Submap(index, grown)
    ensures Accounted(c, s, base, grown)
  {
  }

  lemma SubmapTransitive(a: Events, b: Events, c: Events)
    requires Submap(a, b) && Submap(b, c)
    ensures Submap(a, c)
  {
  }

  lemma AccountedStep(c: Config, s: ScannerState, i: Input, t: ScannerState, base: Option<Input>, grown: Events)
    requires ScanStep(c, s, i, t) && FoundIsExact(c, s, i) && Accounted(c, s, base, i.first)
    requires base.Some? ==> base.value.now <= i.now && Timely(base.value, i, c.overlap)
    requires Submap(i.last, grown)
    ensures Accounted(c, t, if Succeeds(c, s, i) then Some(i) else base, grown)
  {
    if Succeeds(c, s, i) {
      StepIsExact(c, s, i, t, base);
      SuccessAccounts(c, i, t, grown);
    } else {
      SubmapTransitive(i.first, i.last, grown);
      FailureAccounts(c, s, base, i.first, grown);
    }
  }

  lemma StartIsAccounted(c: Config, index: Events)
    ensures Accounted(c, ScannerState(map[], ZERO_TIME, map[]), None, index)
  {
  }

  ghost predicate AccountedAt(c: Config, inputs: seq<Input>, run: seq<ScannerState>, n: nat) {
    && n < |inputs| && |run| == |inputs| + 1
    && Accounted(c, run[n], LastSuccess(c, inputs, run, n), inputs[n].first)
  }

  lemma {:induction false} AccountedThroughout(c: Config, inputs: seq<Input>, run: seq<ScannerState>, n: nat)
    requires n < |inputs| && AccountedAt(c, inputs, run, 0)
    requires forall m: nat :: m + 1 < |inputs| && AccountedAt(c, inputs, run, m) ==> AccountedAt(c, inputs, run, m + 1)
    ensures AccountedAt(c, inputs, run, n)
  {
    if n == 0 {
    } else {
      AccountedThroughout(c, inputs, run, n - 1);
    }
  }

  /** Throughout a run the last success accounts for the window. */
  lemma RunIsAccounted(c: Config, inputs: seq<Input>, run: seq<ScannerState>, n: nat)
    requires n < |inputs| && IsRun(c, inputs, run) && Environment(c, inputs, run)
    ensures AccountedAt(c, inputs, run, n)
  {
    StartIsAccounted(c, inputs[0].first);
    forall m: nat | m + 1 < |inputs| && AccountedAt(c, inputs, run, m) ensures AccountedAt(c, inputs, run, m + 1) {
      RunAccountsNext(c, inputs, run, m);
    }
    AccountedThroughout(c, inputs, run, n);
  }

  lemma RunAccountsNext(c: Config, inputs: seq<Input>, run: seq<ScannerState>, n: nat)
    requires n + 1 < |inputs| && IsRun(c, inputs, run) && Environment(c, inputs, run)
    requires Accounted(c, run[n], LastSuccess(c, inputs, run, n), inputs[n].first)
    ensures Accounted(c, run[n + 1], LastSuccess(c, inputs, run, n + 1), inputs[n + 1].first)
  {
    RunStep(c, inputs, run, n);
    IndexGrows(c, inputs, run, n);
    AccountedStep(c, run[n], inputs[n], run[n + 1], LastSuccess(c, inputs, run, n), inputs[n + 1].first);
  }

  /** What one step of a run hands to `StepIsExact`. */
  lemma RunStep(c: Config, inputs: seq<Input>, run: seq<ScannerState>, n: nat)
    requires n < |inputs| && IsRun(c, inputs, run) && Environment(c, inputs, run)
    ensures var base := LastSuccess(c, inputs, run, n);
      base.Some? ==> base.value.now <= inputs[n].now && Timely(base.value, inputs[n], c.overlap)
    ensures FoundIsExact(c, run[n], inputs[n])
    ensures ScanStep(c, run[n], inputs[n], run[n + 1])
  {
    LastSuccessIsEarlier(c, inputs, run, n, n);
    PageScanIsExact(c, run[n], inputs[n]);
  }

  /**
   Over every run, with any failed scans in between, the window after each successful scan holds every event
   of the rolling window indexed when the scan began and none that was not indexed when it ended.
   */
  lemma EveryScanIsExact(c: Config, inputs: seq<Input>, run: seq<ScannerState>, n: nat)
    requires n < |inputs| && IsRun(c, inputs, run) && Environment(c, inputs, run)
    requires Succeeds(c, run[n], inputs[n])
    ensures Exact(c, inputs[n], run[n + 1].events)
  {
    RunIsAccounted(c, inputs, run, n);
    RunStep(c, inputs, run, n);
    StepIsExact(c, run[n], inputs[n], run[n + 1], LastSuccess(c, inputs, run, n));
  }

  /** With an index that holds still during the scan, incremental and full rebuild give the same window. */
  lemma IncrementalEqualsRebuild(
      c: Config, inputs: seq<Input>, run: seq<ScannerState>, n: nat, backfill: Input, rebuilt: ScannerState)
    requires n < |inputs| && IsRun(c, inputs, run) && Environment(c, inputs, run)
    requires Succeeds(c, run[n], inputs[n]) && inputs[n].first == inputs[n].last
    requires WellServed(backfill) && backfill.now == inputs[n].now && backfill.first == backfill.last == inputs[n].first
    requires Succeeds(c, ScannerState(map[], ZERO_TIME, map[]), backfill)
    requires ScanStep(c, ScannerState(map[], ZERO_TIME, map[]), backfill, rebuilt)
    ensures run[n + 1].events == Backfill(inputs[n].first, inputs[n].now - c.window) == rebuilt.events
  {
    EveryScanIsExact(c, inputs, run, n);
    PageScanIsExact(c, ScannerState(map[], ZERO_TIME, map[]), backfill);
    StepIsExact(c, ScannerState(map[], ZERO_TIME, map[]), backfill, rebuilt, None);
    SubmapsAreEqual(run[n + 1].events, Backfill(inputs[n].first, inputs[n].now - c.window));
    SubmapsAreEqual(rebuilt.events, Backfill(inputs[n].first, inputs[n].now - c.window));
  }

  lemma SubmapsAreEqual(a: Events, b: Events)
    requires Submap(a, b) && Submap(b, a)
    ensures a == b
  {
  }

  // ----- the threshold states

  ghost predicate IsAbove(states: States, s: string) {
    s in states && states[s].above
  }

  /** A source is above exactly when it is in the window with a sum that reaches the threshold. */
  ghost predicate StatesAgree(states: States, events: Events, threshold: real) {
    forall s :: IsAbove(states, s) <==> Occurs(events, s) && Outflow(events, s) >= threshold
  }

  lemma StepAgrees(before: States, after: States, events: Events, threshold: real)
    requires StatesStep(before, after, events, threshold)
    ensures StatesAgree(after, events, threshold)
    ensures forall s :: IsAbove(before, s) && IsAbove(after, s) ==> after[s].crossedAt == before[s].crossedAt
    ensures forall s :: !IsAbove(before, s) && IsAbove(after, s) ==>
      IsCrossing(events, s, threshold, after[s].crossedAt)
    ensures forall s :: s in after && !IsAbove(after, s) ==> after[s].crossedAt == CrossedAt(before, s)
  {
    forall s ensures IsAbove(after, s) <==> Occurs(events, s) && Outflow(events, s) >= threshold {
      if s in after && Occurs(events, s) {
        assert SourceStep(before, s, after[s], events, threshold);
      }
    }
  }

  /** A published fraction that reaches the configured ratio. */
  ghost predicate ReachesRatio(f: Fraction, ratio: real) {
    f.numerator >= f.denominator * ratio
  }

  /** After a success, the sources above are those whose published share of the bonded pool reaches the ratio. */
  lemma AboveIffPublishedRatio(flow: FlowGauges, events: Events, states: States, bonded: Amount, ratio: real, s: string)
    requires Published(flow, events, states, bonded) && AboveByRatio(states, events, bonded, ratio)
    ensures IsAbove(states, s) <==> s in flow.outflowRatio && ReachesRatio(flow.outflowRatio[s], ratio)
    ensures s in flow.outflowRatio ==> flow.outflowRatio[s].denominator == bonded
  {
    PublishedOutflow(flow, events, states, bonded, s);
    assert AboveAt(states, events, bonded, ratio, s);
    RatioOfOutflow(events, bonded, ratio, s);
  }

  lemma RatioOfOutflow(events: Events, bonded: Amount, ratio: real, s: string)
    ensures ReachesRatio(Fraction(Outflow(events, s), bonded), ratio) <==> Outflow(events, s) >= bonded * ratio
  {
  }

  lemma PublishedOutflow(flow: FlowGauges, events: Events, states: States, bonded: Amount, s: string)
    requires Published(flow, events, states, bonded)
    ensures s in flow.outflowRatio <==> Occurs(events, s)
    ensures s in flow.outflowRatio ==> flow.outflowRatio[s] == Fraction(Outflow(events, s), bonded)
  {
    var outflows := Groups(Amounts(events), Sources(events));
    if s in outflows {
      var k :| k in Amounts(events) && Sources(events)[k] == s;
    }
    if Occurs(events, s) {
      var k :| k in events && events[k].source == s;
      assert k in Amounts(events) && Sources(events)[k] == s;
    }
  }

  /** The bonded pool at the last success, if any. */
  ghost function LastPool(c: Config, inputs: seq<Input>, run: seq<ScannerState>, n: nat): Option<Amount>
    requires n <= |inputs| && |run| == |inputs| + 1
  {
    match LastSuccess(c, inputs, run, n)
    case None => None
    case Some(i) => i.pool
  }

  /** Between scans a source is above exactly if its window sum is that part of the pool of the last success. */
  lemma RunAgreesWithRatio(c: Config, inputs: seq<Input>, run: seq<ScannerState>, n: nat)
    requires n <= |inputs| && IsRun(c, inputs, run)
    ensures match LastPool(c, inputs, run, n)
      case None => run[n].states == map[] && run[n].events == map[]
      case Some(bonded) => AboveByRatio(run[n].states, run[n].events, bonded, c.ratio)
  {
    RunAgrees(c, inputs, run, n);
    LastSuccessHasPool(c, inputs, run, n);
    match LastPool(c, inputs, run, n) {
      case None =>
      case Some(bonded) => AgreeByRatio(run[n].states, run[n].events, bonded, c.ratio);
    }
  }

  lemma {:induction false} LastSuccessHasPool(c: Config, inputs: seq<Input>, run: seq<ScannerState>, n: nat)
    requires n <= |inputs| && |run| == |inputs| + 1
    ensures LastSuccess(c, inputs, run, n).Some? ==> LastPool(c, inputs, run, n).Some?
  {
    if n == 0 {
    } else {
      LastSuccessHasPool(c, inputs, run, n - 1);
    }
  }

  lemma AgreeByRatio(states: States, events: Events, bonded: Amount, ratio: real)
    requires StatesAgree(states, events, Threshold(bonded, ratio))
    ensures AboveByRatio(states, events, bonded, ratio)
  {
    forall s ensures AboveAt(states, events, bonded, ratio, s) {
    }
  }

  /** The threshold in force at the last success, if any. */
  ghost function LastThreshold(c: Config, inputs: seq<Input>, run: seq<ScannerState>, n: nat): Option<real>
    requires n <= |inputs| && |run| == |inputs| + 1
  {
    match LastSuccess(c, inputs, run, n)
    case None => None
    case Some(i) => if i.pool.Some? then Some(Threshold(i.pool.value, c.ratio)) else None
  }

  /** Between scans every threshold state agrees with the window, as measured at the last success. */
  lemma {:induction false} RunAgrees(c: Config, inputs: seq<Input>, run: seq<ScannerState>, n: nat)
    requires n <= |inputs| && IsRun(c, inputs, run)
    ensures match LastThreshold(c, inputs, run, n)
      case None => run[n].states == map[] && run[n].events == map[]
      case Some(threshold) => StatesAgree(run[n].states, run[n].events, threshold)
  {
    if n == 0 {
    } else {
      RunAgrees(c, inputs, run, n - 1);
      if Succeeds(c, run[n - 1], inputs[n - 1]) {
        StepAgrees(run[n - 1].states, run[n].states, run[n].events,
                   Threshold(inputs[n - 1].pool.value, c.ratio));
      }
    }
  }

  // ----- a re-crossing is caused by something new

  ghost predicate IsNew(held: Events, events: Events, source: string, k: Key) {
    k in events && k !in held && events[k].source == source
  }

  /** Some event of the source that was not held before is stamped at or before `t`. */
  ghost predicate NewBy(held: Events, events: Events, source: string, t: Time) {
    exists k :: IsNew(held, events, source, k) && events[k].time <= t
  }

  ghost predicate NewAt(held: Events, events: Events, source: string, t: Time) {
    exists k :: IsNew(held, events, source, k) && events[k].time == t
  }

  /** No new event of the source is older than one that was kept. */
  ghost predicate NewestLast(held: Events, events: Events, source: string) {
    forall k, j :: IsNew(held, events, source, k) && j in held && j in events && events[j].source == source ==>
      events[j].time <= events[k].time
  }

  lemma RecrossingIsNew(held: Events, events: Events, s: string, was: real, threshold: real, t: Time)
    requires forall k :: k in held && k in events ==> held[k] == events[k]
    requires !Occurs(held, s) || Outflow(held, s) < was
    requires was <= threshold && IsCrossing(events, s, threshold, t)
    ensures NewBy(held, events, s, t)
    ensures NewestLast(held, events, s) ==> NewAt(held, events, s, t)
  {
    var k :| k in events && events[k].source == s && events[k].time == t;
    if k in held && !NewBy(held, events, s, t) {
      var until := map j | j in events && events[j].source == s && events[j].time <= t :: events[j].amount;
      var before := Part(Amounts(held), Sources(held), s);
      forall j | j in until ensures j in before && until[j] <= before[j] {
        assert !IsNew(held, events, s, j);
      }
      SumMonotone(until, before);
      assert false;
    }
    assert k !in held ==> IsNew(held, events, s, k);
  }

  /**
   In a run: when a source goes from below to at-or-above and the threshold has not fallen since the last
   success, the crossing time is no earlier than some event the scanner did not hold before; and it is the
   time of such an event when no new event of the source is older than one it kept.
   */
  lemma RunRecrossing(c: Config, inputs: seq<Input>, run: seq<ScannerState>, n: nat, s: string)
    requires n < |inputs| && IsRun(c, inputs, run) && Environment(c, inputs, run)
    requires Succeeds(c, run[n], inputs[n]) && !IsAbove(run[n].states, s) && IsAbove(run[n + 1].states, s)
    requires var was := LastThreshold(c, inputs, run, n);
      was.Some? ==> was.value <= Threshold(inputs[n].pool.value, c.ratio)
    ensures NewBy(run[n].events, run[n + 1].events, s, run[n + 1].states[s].crossedAt)
    ensures NewestLast(run[n].events, run[n + 1].events, s) ==>
      NewAt(run[n].events, run[n + 1].events, s, run[n + 1].states[s].crossedAt)
  {
    var held, events := run[n].events, run[n + 1].events;
    var threshold := Threshold(inputs[n].pool.value, c.ratio);
    assert ScanStep(c, run[n], inputs[n], run[n + 1]);
    StepAgrees(run[n].states, run[n + 1].states, events, threshold);
    RunAgrees(c, inputs, run, n);
    WindowsAgree(c, inputs, run, n);
    var was := LastThreshold(c, inputs, run, n);
    RecrossingIsNew(held, events, s, if was.Some? then was.value else threshold, threshold,
                    run[n + 1].states[s].crossedAt);
  }

  /** Successive windows give a shared key the same event. */
  lemma WindowsAgree(c: Config, inputs: seq<Input>, run: seq<ScannerState>, n: nat)
    requires n < |inputs| && IsRun(c, inputs, run) && Environment(c, inputs, run)
    requires Succeeds(c, run[n], inputs[n])
    ensures forall k :: k in run[n].events && k in run[n + 1].events ==> run[n].events[k] == run[n + 1].events[k]
  {
    RunIsAccounted(c, inputs, run, n);
    EveryScanIsExact(c, inputs, run, n);
    FirstWithinLast(inputs[n]);
    HeldAgree(run[n].events, run[n + 1].events, inputs[n].first, inputs[n].last, inputs[n].now - c.window);
  }

  lemma HeldAgree(held: Events, events: Events, first: Events, last: Events, cutoff: Time)
    requires Submap(held, first) && Submap(first, last) && Submap(events, Backfill(last, cutoff))
    ensures forall k :: k in held && k in events ==> held[k] == events[k]
  {
  }

  // ----- what the published series conserve

  ghost function Numerators<G>(m: map<G, Fraction>): map<G, Amount> {
    map g | g in m :: m[g].numerator
  }

  ghost function FromSource(m: map<Pair, Amount>, s: string): map<Pair, Amount> {
    map p | p in m && p.source == s :: m[p]
  }

  lemma PairsOfSource(events: Events, s: string)
    ensures Sum(FromSource(Groups(Amounts(events), Pairs(events)), s)) == Outflow(events, s)
  {
    var byPair := Groups(Amounts(events), Pairs(events));
    var part := Part(Amounts(events), Sources(events), s);
    GroupsConserve(part, Pairs(events));
    forall p: Pair | p.source == s ensures Part(part, Pairs(events), p) == Part(Amounts(events), Pairs(events), p) {
    }
    assert FromSource(byPair, s) == Groups(part, Pairs(events));
  }

  /**
   The destination series of a source add up to its outflow, the outflows to everything in the window,
   and the event counts to the number of events.
   */
  lemma FlowsConserve(flow: FlowGauges, events: Events, states: States, bonded: Amount)
    requires Published(flow, events, states, bonded)
    ensures forall s :: s in flow.outflowRatio ==>
      Sum(FromSource(Numerators(flow.flowRatio), s)) == flow.outflowRatio[s].numerator
    ensures Sum(Numerators(flow.outflowRatio)) == Sum(Amounts(events))
    ensures Sum(Reals(flow.eventCount)) == |events| as real
  {
    ScaledNumerators(Groups(Amounts(events), Sources(events)), bonded);
    ScaledNumerators(Groups(Amounts(events), Pairs(events)), bonded);
    forall s | s in flow.outflowRatio
      ensures Sum(FromSource(Numerators(flow.flowRatio), s)) == flow.outflowRatio[s].numerator
    {
      PairsOfSource(events, s);
      SourceNumerator(events, bonded, s);
    }
    GroupsConserve(Amounts(events), Sources(events));
    CountsConserve(events);
  }

  lemma ScaledNumerators<G>(m: map<G, Amount>, unit: Amount)
    ensures Numerators(Scaled(m, unit)) == m
  {
  }

  lemma SourceNumerator(events: Events, unit: Amount, s: string)
    requires s in Groups(Amounts(events), Sources(events))
    ensures Scaled(Groups(Amounts(events), Sources(events)), unit)[s].numerator == Outflow(events, s)
  {
  }

  lemma CountsConserve(events: Events)
    ensures Sum(Groups(Ones(events), Pairs(events))) == |events| as real
  {
    GroupsConserve(Ones(events), Pairs(events));
    SumOfOnes(Ones(events));
    assert Ones(events).Keys == events.Keys;
  }
}
