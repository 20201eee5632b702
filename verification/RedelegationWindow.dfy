/**
 What the rolling event window, its flow series and its threshold states mean, and the loops that
 compute them (collector/redelegation.go).
 */
module RedelegationWindow {
  import opened Basics
  import opened Sums
  import opened Sorting
  import opened RedelegationQuery

  datatype ThresholdState = ThresholdState(above: bool, crossedAt: Time)
  type States = map<string, ThresholdState>
  datatype Pair = Pair(source: string, destination: string)
  datatype SourceAggregate = SourceAggregate(amount: Amount, newest: Time)
  datatype PairAggregate = PairAggregate(amount: Amount, count: nat)
  /** Event maps as the scanner builds them: every event under its own key. */
  type Window = m: Events | Keyed(m) witness map[]


  // ----- what the window means

  ghost function Amounts(events: Events): map<Key, Amount> {
    map k | k in events :: events[k].amount
  }

  ghost function Ones(events: Events): map<Key, Amount> {
    map k | k in events :: 1.0
  }

  ghost function Sources(events: Events): map<Key, string> {
    map k | k in events :: events[k].source
  }

  ghost function Pairs(events: Events): map<Key, Pair> {
    map k | k in events :: Pair(events[k].source, events[k].destination)
  }

  ghost predicate Occurs(events: Events, source: string) {
    exists k :: k in events && events[k].source == source
  }

  /** The window sum of one source. */
  ghost function Outflow(events: Events, source: string): Amount {
    Sum(Part(Amounts(events), Sources(events), source))
  }

  /** The part of a source's window sum stamped at or before `t`. */
  ghost function OutflowUntil(events: Events, source: string, t: Time): Amount {
    Sum(map k | k in events && events[k].source == source && events[k].time <= t :: events[k].amount)
  }

  /** `t` is the first event time at which the running sum of the source reaches the threshold. */
  ghost predicate IsCrossing(events: Events, source: string, threshold: real, t: Time) {
    && (exists k :: k in events && events[k].source == source && events[k].time == t)
    && OutflowUntil(events, source, t) >= threshold
    && (forall k {:trigger OutflowUntil(events, source, events[k].time)} ::
          k in events && events[k].source == source && events[k].time < t ==>
            OutflowUntil(events, source, events[k].time) < threshold)
  }

  lemma CrossingIsUnique(events: Events, source: string, threshold: real, t: Time, u: Time)
    requires IsCrossing(events, source, threshold, t) && IsCrossing(events, source, threshold, u)
    ensures t == u
  {
  }

  /** The new state of a source of the window: below, still above, or newly above with its crossing time. */
  ghost predicate SourceStep(before: States, s: string, after: ThresholdState, events: Events, threshold: real) {
    if Outflow(events, s) < threshold then
      after == ThresholdState(false, CrossedAt(before, s))
    else if s in before && before[s].above then
      after == before[s]
    else
      after.above && IsCrossing(events, s, threshold, after.crossedAt)
  }

  /** One refresh of the threshold states against a new window. */
  ghost predicate StatesStep(before: States, after: States, events: Events, threshold: real) {
    && (forall s :: s in after <==> s in before || Occurs(events, s))
    && (forall s :: s in after && Occurs(events, s) ==> SourceStep(before, s, after[s], events, threshold))
    && (forall s :: s in after && !Occurs(events, s) ==> after[s] == before[s].(above := false))
  }

  /** The newest event of a source, never before Go's zero time. */
  ghost predicate IsNewest(events: Events, source: string, t: Time) {
    && ZERO_TIME <= t
    && (forall k :: k in events && events[k].source == source ==> events[k].time <= t)
    && (t == ZERO_TIME || exists k :: k in events && events[k].source == source && events[k].time == t)
  }

  /** The alert threshold in uatom. */
  function Threshold(bonded: Amount, ratio: real): real {
    bonded * ratio
  }

  /** The source is above exactly if it occurs and moved out at least that part of the bonded pool. */
  ghost predicate AboveAt(states: States, events: Events, bonded: Amount, ratio: real, s: string) {
    (s in states && states[s].above) <==> Occurs(events, s) && Outflow(events, s) >= bonded * ratio
  }

  ghost predicate AboveByRatio(states: States, events: Events, bonded: Amount, ratio: real) {
    forall s :: AboveAt(states, events, bonded, ratio, s)
  }

  lemma StepAboveByRatio(before: States, after: States, events: Events, bonded: Amount, ratio: real)
    requires StatesStep(before, after, events, Threshold(bonded, ratio))
    ensures AboveByRatio(after, events, bonded, ratio)
  {
    forall s ensures AboveAt(after, events, bonded, ratio, s) {
      if s in after && Occurs(events, s) {
        assert SourceStep(before, s, after[s], events, Threshold(bonded, ratio));
      }
    }
  }

  /** The page scan goes back to the start of the window, or, after a success, to shortly before that if it is later. */
  function Since(lastSuccess: Time, now: Time, window: Duration, overlap: Duration): (since: Time)
    ensures lastSuccess == ZERO_TIME ==> since == now - window
    ensures lastSuccess != ZERO_TIME ==> since == Max(now - window, lastSuccess - overlap)
  {
    var cutoff := now - window;
    if lastSuccess != ZERO_TIME && lastSuccess - overlap > cutoff then lastSuccess - overlap else cutoff
  }

  /** The window after a successful scan: the found events and the retained ones, none older than the cutoff. */
  ghost predicate Refreshed(next: Events, events: Events, found: Events, cutoff: Time) {
    && (forall k :: k in next <==>
          (k in events && events[k].time >= cutoff) || (k in found && found[k].time >= cutoff))
    && (forall k :: k in next ==>
          next[k] == if k in found && found[k].time >= cutoff then found[k] else events[k])
  }

  // ----- the flow series

  /** The flow gauges, one map from label to value for each; label text is not modelled. */
  datatype FlowGauges = FlowGauges(
    outflowRatio: map<string, Fraction>,
    outflowAtom: map<string, Fraction>,
    latestEvent: map<string, Time>,
    thresholdCrossed: map<string, Time>,
    flowRatio: map<Pair, Fraction>,
    flowAtom: map<Pair, Fraction>,
    eventCount: map<Pair, nat>)

  const NO_FLOW := FlowGauges(map[], map[], map[], map[], map[], map[], map[])
  const UATOM_PER_ATOM: Amount := 1_000_000.0

  /** Every flow series is derived from the current window and the current threshold states. */
  ghost predicate Published(flow: FlowGauges, events: Events, states: States, bonded: Amount) {
    && flow.outflowRatio == Scaled(Groups(Amounts(events), Sources(events)), bonded)
    && flow.outflowAtom == Scaled(Groups(Amounts(events), Sources(events)), 1_000_000.0)
    && flow.flowRatio == Scaled(Groups(Amounts(events), Pairs(events)), bonded)
    && flow.flowAtom == Scaled(Groups(Amounts(events), Pairs(events)), 1_000_000.0)
    && Reals(flow.eventCount) == Groups(Ones(events), Pairs(events))
    && (forall s :: s in flow.latestEvent <==> Occurs(events, s))
    && (forall s :: s in flow.latestEvent ==> IsNewest(events, s, flow.latestEvent[s]))
    && (forall s :: s in flow.thresholdCrossed <==> Occurs(events, s) && CrossedAt(states, s) != ZERO_TIME)
    && (forall s :: s in flow.thresholdCrossed ==> flow.thresholdCrossed[s] == CrossedAt(states, s))
  }

  ghost function Reals<G>(m: map<G, nat>): map<G, Amount> {
    map g | g in m :: m[g] as real
  }

  /** The source series of `flow` are those of the aggregates. */
  ghost predicate SourcesPublished(flow: FlowGauges, bySource: map<string, SourceAggregate>, states: States,
                                   bonded: Amount)
  {
    && (forall s :: s in flow.outflowRatio <==> s in bySource)
    && (forall s :: s in flow.outflowAtom <==> s in bySource)
    && (forall s :: s in flow.latestEvent <==> s in bySource)
    && (forall s :: s in flow.thresholdCrossed <==> s in bySource && CrossedAt(states, s) != ZERO_TIME)
    && (forall s :: s in flow.outflowRatio ==> flow.outflowRatio[s] == Fraction(bySource[s].amount, bonded))
    && (forall s :: s in flow.outflowAtom ==> flow.outflowAtom[s] == Fraction(bySource[s].amount, UATOM_PER_ATOM))
    && (forall s :: s in flow.latestEvent ==> flow.latestEvent[s] == bySource[s].newest)
    && (forall s :: s in flow.thresholdCrossed ==> flow.thresholdCrossed[s] == CrossedAt(states, s))
  }

  ghost predicate PairsPublished(flow: FlowGauges, byPair: map<Pair, PairAggregate>, bonded: Amount) {
    && (forall p :: p in flow.flowRatio <==> p in byPair)
    && (forall p :: p in flow.flowAtom <==> p in byPair)
    && (forall p :: p in flow.eventCount <==> p in byPair)
    && (forall p :: p in flow.flowRatio ==> flow.flowRatio[p] == Fraction(byPair[p].amount, bonded))
    && (forall p :: p in flow.flowAtom ==> flow.flowAtom[p] == Fraction(byPair[p].amount, UATOM_PER_ATOM))
    && (forall p :: p in flow.eventCount ==> flow.eventCount[p] == byPair[p].count)
  }

  lemma PublishedHolds(flow: FlowGauges, events: Events, states: States, bonded: Amount,
                       bySource: map<string, SourceAggregate>, byPair: map<Pair, PairAggregate>)
    requires AggregatesSources(bySource, events, events) && AggregatesPairs(byPair, events, events)
    requires SourcesPublished(flow, bySource, states, bonded) && PairsPublished(flow, byPair, bonded)
    ensures Published(flow, events, states, bonded)
  {
    SourcesOccur(events, bySource);
    SourceFractions(flow.outflowRatio, bySource, bonded);
    SourceFractions(flow.outflowAtom, bySource, UATOM_PER_ATOM);
    PairFractions(flow.flowRatio, byPair, bonded);
    PairFractions(flow.flowAtom, byPair, UATOM_PER_ATOM);
    PairCounts(flow.eventCount, byPair);
  }

  lemma SourceFractions(r: map<string, Fraction>, m: map<string, SourceAggregate>, unit: Amount)
    requires (forall s :: s in r <==> s in m) && (forall s :: s in r ==> r[s] == Fraction(m[s].amount, unit))
    ensures r == Scaled(AmountsBySource(m), unit)
  {
  }

  lemma PairFractions(r: map<Pair, Fraction>, m: map<Pair, PairAggregate>, unit: Amount)
    requires (forall p :: p in r <==> p in m) && (forall p :: p in r ==> r[p] == Fraction(m[p].amount, unit))
    ensures r == Scaled(AmountsByPair(m), unit)
  {
  }

  lemma PairCounts(r: map<Pair, nat>, m: map<Pair, PairAggregate>)
    requires (forall p :: p in r <==> p in m) && (forall p :: p in r ==> r[p] == m[p].count)
    ensures Reals(r) == CountsByPair(m)
  {
  }

  method PublishSources(flow: FlowGauges, bySource: map<string, SourceAggregate>, states: States, bonded: Amount)
    returns (out: FlowGauges)
    requires flow == NO_FLOW
    ensures SourcesPublished(out, bySource, states, bonded)
    ensures out.flowRatio == out.flowAtom == map[] && out.eventCount == map[]
  {
    var ratio, atom: map<string, Fraction> := map[], map[];
    var latest, crossed: map<string, Time> := map[], map[];
    var sources := bySource.Keys;
    while sources != {}
      invariant sources <= bySource.Keys
      invariant forall s :: s in ratio <==> s in bySource && s !in sources
      invariant forall s :: s in atom <==> s in bySource && s !in sources
      invariant forall s :: s in latest <==> s in bySource && s !in sources
      invariant forall s :: s in crossed <==> s in bySource && s !in sources && CrossedAt(states, s) != ZERO_TIME
      invariant forall s :: s in ratio ==> ratio[s] == Fraction(bySource[s].amount, bonded)
      invariant forall s :: s in atom ==> atom[s] == Fraction(bySource[s].amount, UATOM_PER_ATOM)
      invariant forall s :: s in latest ==> latest[s] == bySource[s].newest
      invariant forall s :: s in crossed ==> crossed[s] == CrossedAt(states, s)
      decreases |sources|
    {
      var source :| source in sources;
      var aggregate := bySource[source];
      ratio := ratio[source := Fraction(aggregate.amount, bonded)];
      atom := atom[source := Fraction(aggregate.amount, UATOM_PER_ATOM)];
      latest := latest[source := aggregate.newest];
      var crossedAt := CrossedAt(states, source);
      if crossedAt != ZERO_TIME {
        crossed := crossed[source := crossedAt];
      }
      sources := sources - {source};
    }
    out := flow.(outflowRatio := ratio, outflowAtom := atom, latestEvent := latest, thresholdCrossed := crossed);
  }

  method PublishPairs(flow: FlowGauges, byPair: map<Pair, PairAggregate>, bonded: Amount) returns (out: FlowGauges)
    requires flow.flowRatio == flow.flowAtom == map[] && flow.eventCount == map[]
    ensures PairsPublished(out, byPair, bonded)
    ensures out.outflowRatio == flow.outflowRatio && out.outflowAtom == flow.outflowAtom
    ensures out.latestEvent == flow.latestEvent && out.thresholdCrossed == flow.thresholdCrossed
  {
    var ratio, atom: map<Pair, Fraction> := map[], map[];
    var count: map<Pair, nat> := map[];
    var pairs := byPair.Keys;
    while pairs != {}
      invariant pairs <= byPair.Keys
      invariant forall p :: p in ratio <==> p in byPair && p !in pairs
      invariant forall p :: p in atom <==> p in byPair && p !in pairs
      invariant forall p :: p in count <==> p in byPair && p !in pairs
      invariant forall p :: p in ratio ==> ratio[p] == Fraction(byPair[p].amount, bonded)
      invariant forall p :: p in atom ==> atom[p] == Fraction(byPair[p].amount, UATOM_PER_ATOM)
      invariant forall p :: p in count ==> count[p] == byPair[p].count
      decreases |pairs|
    {
      var pair :| pair in pairs;
      ratio := ratio[pair := Fraction(byPair[pair].amount, bonded)];
      atom := atom[pair := Fraction(byPair[pair].amount, UATOM_PER_ATOM)];
      count := count[pair := byPair[pair].count];
      pairs := pairs - {pair};
    }
    out := flow.(flowRatio := ratio, flowAtom := atom, eventCount := count);
  }

  function CrossedAt(states: States, source: string): Time {
    if source in states then states[source].crossedAt else ZERO_TIME
  }

  // ----- the loops of the scanner over values

  /** The replacement window: retained events, then the found ones. */
  method Merge(events: Events, found: seq<Event>, cutoff: Time, ghost scanned: Events) returns (next: Events)
    requires Keyed(events) && Lists(found, scanned)
    ensures Refreshed(next, events, scanned, cutoff) && Keyed(next)
  {
    next := Retain(events, cutoff);
    ghost var retained := next;
    for i := 0 to |found|
      invariant Merged(next, retained, scanned, cutoff)
      invariant forall j :: 0 <= j < i && found[j].time >= cutoff ==>
        KeyOf(found[j]) in next && next[KeyOf(found[j])] == found[j]
    {
      assert found[i] in found;
      if found[i].time >= cutoff {
        next := next[KeyOf(found[i]) := found[i]];
      }
    }
    MergedAll(next, events, scanned, found, cutoff);
    RefreshedIsKeyed(next, events, scanned, cutoff);
  }

  /** Whatever is in `next` comes from the retained window or from the scan. */
  ghost predicate Merged(next: Events, retained: Events, scanned: Events, cutoff: Time) {
    && retained.Keys <= next.Keys
    && forall k :: k in next ==>
         || (k in retained && next[k] == retained[k])
         || (k in scanned && scanned[k].time >= cutoff && next[k] == scanned[k])
  }

  lemma MergedAll(next: Events, events: Events, scanned: Events, found: seq<Event>, cutoff: Time)
    requires Merged(next, Backfill(events, cutoff), scanned, cutoff) && Lists(found, scanned)
    requires forall j :: 0 <= j < |found| && found[j].time >= cutoff ==>
      KeyOf(found[j]) in next && next[KeyOf(found[j])] == found[j]
    ensures Refreshed(next, events, scanned, cutoff)
  {
    forall k | k in Backfill(scanned, cutoff) ensures k in next && next[k] == scanned[k] {
      assert scanned[k] in found && KeyOf(scanned[k]) == k;
      var j :| 0 <= j < |found| && found[j] == scanned[k];
    }
  }

  lemma RefreshedIsKeyed(next: Events, events: Events, scanned: Events, cutoff: Time)
    requires Keyed(events) && Keyed(scanned) && Refreshed(next, events, scanned, cutoff)
    ensures Keyed(next)
  {
  }

  method Retain(events: Events, cutoff: Time) returns (next: Events)
    ensures next == Backfill(events, cutoff)
  {
    next := map[];
    var todo := events.Keys;
    while todo != {}
      invariant todo <= events.Keys
      invariant forall k :: k in next <==> k in events && k !in todo && events[k].time >= cutoff
      invariant forall k :: k in next ==> next[k] == events[k]
      decreases |todo|
    {
      var k :| k in todo;
      if events[k].time >= cutoff {
        next := next[k := events[k]];
      }
      todo := todo - {k};
    }
  }

  ghost function AmountsBySource(m: map<string, SourceAggregate>): map<string, Amount> {
    map s | s in m :: m[s].amount
  }

  ghost function AmountsByPair(m: map<Pair, PairAggregate>): map<Pair, Amount> {
    map p | p in m :: m[p].amount
  }

  ghost function CountsByPair(m: map<Pair, PairAggregate>): map<Pair, Amount> {
    map p | p in m :: m[p].count as real
  }

  ghost predicate AggregatesSources(bySource: map<string, SourceAggregate>, part: Events, events: Events)
    requires part.Keys <= events.Keys
  {
    && AmountsBySource(bySource) == Groups(Amounts(part), Sources(events))
    && forall s :: s in bySource ==> IsNewest(part, s, bySource[s].newest)
  }

  ghost predicate AggregatesPairs(byPair: map<Pair, PairAggregate>, part: Events, events: Events)
    requires part.Keys <= events.Keys
  {
    && AmountsByPair(byPair) == Groups(Amounts(part), Pairs(events))
    && CountsByPair(byPair) == Groups(Ones(part), Pairs(events))
  }

  function PlusSource(m: map<string, SourceAggregate>, e: Event): map<string, SourceAggregate> {
    var was := if e.source in m then m[e.source] else SourceAggregate(0.0, ZERO_TIME);
    m[e.source := SourceAggregate(was.amount + e.amount, Max(was.newest, e.time))]
  }

  function PlusPair(m: map<Pair, PairAggregate>, e: Event): map<Pair, PairAggregate> {
    var p := Pair(e.source, e.destination);
    var was := if p in m then m[p] else PairAggregate(0.0, 0);
    m[p := PairAggregate(was.amount + e.amount, was.count + 1)]
  }

  lemma PlusSourceAmounts(m: map<string, SourceAggregate>, e: Event)
    ensures AmountsBySource(PlusSource(m, e)) == Plus(AmountsBySource(m), e.source, e.amount)
  {
  }

  lemma PlusPairAmounts(m: map<Pair, PairAggregate>, e: Event)
    ensures AmountsByPair(PlusPair(m, e)) == Plus(AmountsByPair(m), Pair(e.source, e.destination), e.amount)
  {
  }

  lemma PlusPairCounts(m: map<Pair, PairAggregate>, e: Event)
    ensures CountsByPair(PlusPair(m, e)) == Plus(CountsByPair(m), Pair(e.source, e.destination), 1.0)
  {
  }

  lemma InsertAmount(part: Events, k: Key, e: Event)
    ensures Amounts(part[k := e]) == Amounts(part)[k := e.amount]
    ensures Ones(part[k := e]) == Ones(part)[k := 1.0]
  {
  }

  lemma AddToSources(before: map<string, SourceAggregate>, part: Events, events: Events, k: Key)
    requires part.Keys <= events.Keys && k in events && k !in part && AggregatesSources(before, part, events)
    requires forall j :: j in part ==> part[j] == events[j]
    ensures AggregatesSources(PlusSource(before, events[k]), part[k := events[k]], events)
  {
    var e := events[k];
    InsertAmount(part, k, e);
    GroupsStep(Amounts(part), Sources(events), k, e.amount);
    PlusSourceAmounts(before, e);
    AddNewest(before, part, events, k);
  }

  lemma AddNewest(before: map<string, SourceAggregate>, part: Events, events: Events, k: Key)
    requires part.Keys <= events.Keys && k in events && k !in part && AggregatesSources(before, part, events)
    requires forall j :: j in part ==> part[j] == events[j]
    ensures
      var after := PlusSource(before, events[k]);
      forall s :: s in after ==> IsNewest(part[k := events[k]], s, after[s].newest)
  {
    var e, after := events[k], PlusSource(before, events[k]);
    forall s | s in after ensures IsNewest(part[k := e], s, after[s].newest) {
      if s != e.source {
        NewestOther(part, s, after[s].newest, k, e);
      } else if s in before {
        NewestStep(part, s, before[s].newest, k, e);
      } else {
        assert s !in AmountsBySource(before);
        NotGrouped(part, events, s);
        NewestStep(part, s, ZERO_TIME, k, e);
      }
    }
  }

  lemma NewestStep(part: Events, s: string, t: Time, k: Key, e: Event)
    requires k !in part && IsNewest(part, s, t) && e.source == s
    ensures IsNewest(part[k := e], s, Max(t, e.time))
  {
    var more := part[k := e];
    assert k in more && more[k] == e;
    if t != ZERO_TIME {
      var j :| j in part && part[j].source == s && part[j].time == t;
      assert j in more && more[j] == part[j];
    }
  }

  lemma NewestOther(part: Events, s: string, t: Time, k: Key, e: Event)
    requires k !in part && IsNewest(part, s, t) && e.source != s
    ensures IsNewest(part[k := e], s, t)
  {
    if t != ZERO_TIME {
      var j :| j in part && part[j].source == s && part[j].time == t;
      assert j in part[k := e] && part[k := e][j] == part[j];
    }
  }

  lemma NotGrouped(part: Events, events: Events, s: string)
    requires part.Keys <= events.Keys && s !in Groups(Amounts(part), Sources(events))
    ensures forall k :: k in part ==> events[k].source != s
  {
    forall k | k in part ensures events[k].source != s {
      assert k in Amounts(part) && Sources(events)[k] == events[k].source;
    }
  }

  lemma AddToPairs(before: map<Pair, PairAggregate>, part: Events, events: Events, k: Key)
    requires part.Keys <= events.Keys && k in events && k !in part && AggregatesPairs(before, part, events)
    ensures AggregatesPairs(PlusPair(before, events[k]), part[k := events[k]], events)
  {
    var e := events[k];
    InsertAmount(part, k, e);
    GroupsStep(Amounts(part), Pairs(events), k, e.amount);
    GroupsStep(Ones(part), Pairs(events), k, 1.0);
    PlusPairAmounts(before, e);
    PlusPairCounts(before, e);
  }

  method Aggregate(events: Events) returns (bySource: map<string, SourceAggregate>, byPair: map<Pair, PairAggregate>)
    ensures AggregatesSources(bySource, events, events) && AggregatesPairs(byPair, events, events)
  {
    bySource, byPair := map[], map[];
    var todo := events.Keys;
    ghost var part: Events := map[];
    while todo != {}
      invariant todo <= events.Keys
      invariant forall k :: k in part <==> k in events && k !in todo
      invariant forall k :: k in part ==> part[k] == events[k]
      invariant AggregatesSources(bySource, part, events) && AggregatesPairs(byPair, part, events)
      decreases |todo|
    {
      var k :| k in todo;
      var event := events[k];
      AddToSources(bySource, part, events, k);
      AddToPairs(byPair, part, events, k);
      bySource := AddSource(bySource, event);
      byPair := AddPair(byPair, event);
      part := part[k := event];
      todo := todo - {k};
    }
    assert part == events;
  }

  method AddSource(bySource: map<string, SourceAggregate>, event: Event) returns (after: map<string, SourceAggregate>)
    ensures after == PlusSource(bySource, event)
  {
    var source := if event.source in bySource then bySource[event.source] else SourceAggregate(0.0, ZERO_TIME);
    source := source.(amount := source.amount + event.amount);
    if event.time > source.newest {
      source := source.(newest := event.time);
    }
    after := bySource[event.source := source];
  }

  method AddPair(byPair: map<Pair, PairAggregate>, event: Event) returns (after: map<Pair, PairAggregate>)
    ensures after == PlusPair(byPair, event)
  {
    var key := Pair(event.source, event.destination);
    var pair := if key in byPair then byPair[key] else PairAggregate(0.0, 0);
    after := byPair[key := PairAggregate(pair.amount + event.amount, pair.count + 1)];
  }

  /** The loop over the sources of the window that moves each threshold state. */
  method RefreshAll(events: Events, states: States, bySource: map<string, SourceAggregate>, threshold: real)
    returns (after: States)
    requires Keyed(events)
    requires forall s :: s in bySource ==> Occurs(events, s) && bySource[s].amount == Outflow(events, s)
    ensures forall s :: s in after <==> s in states || s in bySource
    ensures forall s :: s in after && s !in bySource ==> after[s] == states[s]
    ensures forall s :: s in bySource ==> SourceStep(states, s, after[s], events, threshold)
  {
    after := states;
    var todo := bySource.Keys;
    while todo != {}
      invariant todo <= bySource.Keys
      invariant forall s :: s in after <==> s in states || (s in bySource && s !in todo)
      invariant forall s :: s in after && (s !in bySource || s in todo) ==> after[s] == states[s]
      invariant forall s :: s in bySource && s !in todo ==> SourceStep(states, s, after[s], events, threshold)
      decreases |todo|
    {
      var source :| source in todo;
      var state := Refresh(events, states, source, bySource[source].amount, threshold);
      after := after[source := state];
      todo := todo - {source};
    }
  }

  method Refresh(events: Events, states: States, source: string, amount: Amount, threshold: real)
    returns (state: ThresholdState)
    requires Keyed(events) && Occurs(events, source) && amount == Outflow(events, source)
    ensures SourceStep(states, source, state, events, threshold)
  {
    var above := amount >= threshold;
    var known := source in states;
    state := if known then states[source] else ThresholdState(false, ZERO_TIME);
    if !above {
      state := state.(above := false);
    } else if !known || !state.above {
      var crossing := ReconstructCrossing(events, source, threshold);
      state := ThresholdState(true, crossing);
    } else {
      state := state.(above := true);
    }
  }

  method ReconstructCrossing(events: Events, source: string, threshold: real) returns (t: Time)
    requires Keyed(events)
    ensures Occurs(events, source) && Outflow(events, source) >= threshold ==>
      IsCrossing(events, source, threshold, t)
    ensures !Occurs(events, source) || Outflow(events, source) < threshold ==> t == ZERO_TIME
  {
    var list := CollectSource(events, source);
    var ordered := SortBy(list, ByTime);
    Permutation(list, ordered);
    var reached := FirstReach(events, source, threshold, ordered);
    return if reached.Some? then reached.value else ZERO_TIME;
  }

  method CollectSource(events: Events, source: string) returns (list: seq<Event>)
    requires Keyed(events)
    ensures OfSource(events, source, list) && Unique(list)
  {
    list := [];
    var todo := events.Keys;
    while todo != {}
      invariant todo <= events.Keys
      invariant forall e :: e in list <==>
        KeyOf(e) in events && KeyOf(e) !in todo && events[KeyOf(e)] == e && e.source == source
      invariant Unique(list)
      decreases |todo|
    {
      var k :| k in todo;
      if events[k].source == source {
        assert events[k] !in list;
        list := list + [events[k]];
      }
      todo := todo - {k};
    }
  }

  method FirstReach(events: Events, source: string, threshold: real, list: seq<Event>) returns (t: Option<Time>)
    requires Keyed(events) && OfSource(events, source, list) && Unique(list) && Ascending(list, ByTime)
    ensures t.Some? <==> Occurs(events, source) && Outflow(events, source) >= threshold
    ensures t.Some? ==> IsCrossing(events, source, threshold, t.value)
  {
    AllTaken(events, source, list);
    var cumulative := 0.0;
    assert Taken(events, list, 0) == map[];
    for i := 0 to |list|
      invariant cumulative == Sum(Taken(events, list, i))
      invariant i > 0 ==> cumulative < threshold
    {
      assert list[i] in list;
      TakeNext(events, list, i);
      cumulative := cumulative + list[i].amount;
      if cumulative >= threshold {
        FirstReachIsCrossing(events, source, threshold, list, i);
        TakenIsPart(events, source, list, i + 1);
        return Some(list[i].time);
      }
    }
    return None;
  }

  /** The share of every group, as an exact fraction of `unit`. */
  ghost function Scaled<G>(m: map<G, Amount>, unit: Amount): map<G, Fraction> {
    map g | g in m :: Fraction(m[g], unit)
  }

  lemma SourcesOccur(events: Events, bySource: map<string, SourceAggregate>)
    requires AggregatesSources(bySource, events, events)
    ensures forall s :: s in bySource <==> Occurs(events, s)
    ensures forall s :: s in bySource ==> bySource[s].amount == Outflow(events, s)
  {
    var amounts := AmountsBySource(bySource);
    forall s | Occurs(events, s) ensures s in amounts {
      var k :| k in events && events[k].source == s;
      assert k in Amounts(events) && Sources(events)[k] == s;
    }
    forall s | s in bySource ensures Occurs(events, s) && bySource[s].amount == Outflow(events, s) {
      assert s in amounts && amounts[s] == bySource[s].amount;
    }
  }

  // ----- the running sum over events in time order

  ghost function Taken(events: Events, list: seq<Event>, n: nat): map<Key, Amount>
    requires n <= |list|
  {
    map k | k in events && events[k] in list[..n] :: events[k].amount
  }

  lemma TakeNext(events: Events, list: seq<Event>, n: nat)
    requires n < |list| && Keyed(events) && Unique(list)
    requires KeyOf(list[n]) in events && events[KeyOf(list[n])] == list[n]
    ensures Sum(Taken(events, list, n + 1)) == Sum(Taken(events, list, n)) + list[n].amount
  {
    var k := KeyOf(list[n]);
    assert list[..n + 1] == list[..n] + [list[n]];
    assert Taken(events, list, n + 1) == Taken(events, list, n)[k := list[n].amount];
    SumInsert(Taken(events, list, n), k, list[n].amount);
  }

  /** `list` holds exactly the events of `source`. */
  ghost predicate OfSource(events: Events, source: string, list: seq<Event>) {
    forall e :: e in list <==> KeyOf(e) in events && events[KeyOf(e)] == e && e.source == source
  }

  lemma TakenIsPart(events: Events, source: string, list: seq<Event>, n: nat)
    requires n <= |list| && Keyed(events) && OfSource(events, source, list)
    ensures Sum(Taken(events, list, n)) <= Outflow(events, source)
  {
    forall k | k in Taken(events, list, n) ensures k in Part(Amounts(events), Sources(events), source) {
      assert events[k] in list;
    }
    SumMonotone(Taken(events, list, n), Part(Amounts(events), Sources(events), source));
  }

  lemma AllTaken(events: Events, source: string, list: seq<Event>)
    requires Keyed(events) && OfSource(events, source, list)
    ensures Sum(Taken(events, list, |list|)) == Outflow(events, source)
    ensures list == [] <==> !Occurs(events, source)
  {
    assert list[..|list|] == list;
    assert Taken(events, list, |list|) == Part(Amounts(events), Sources(events), source);
    forall k | k in events && events[k].source == source ensures events[k] in list {
    }
    if list != [] {
      assert list[0] in list;
    }
  }

  lemma FirstReachIsCrossing(events: Events, source: string, threshold: real, list: seq<Event>, n: nat)
    requires n < |list| && Keyed(events) && OfSource(events, source, list) && Ascending(list, ByTime)
    requires Sum(Taken(events, list, n + 1)) >= threshold
    requires n > 0 ==> Sum(Taken(events, list, n)) < threshold
    ensures IsCrossing(events, source, threshold, list[n].time) && Occurs(events, source)
  {
    var t := list[n].time;
    assert list[n] in list;
    var until := map k | k in events && events[k].source == source && events[k].time <= t :: events[k].amount;
    forall k | k in Taken(events, list, n + 1) ensures k in until {
      var i :| 0 <= i < n + 1 && list[i] == events[k];
      assert list[i] in list && ByTime(list[i]) <= ByTime(list[n]);
    }
    SumMonotone(Taken(events, list, n + 1), until);
    forall k | k in events && events[k].source == source && events[k].time < t
      ensures OutflowUntil(events, source, events[k].time) < threshold
    {
      var earlier := map j | j in events && events[j].source == source && events[j].time <= events[k].time
                     :: events[j].amount;
      forall j | j in events && events[j].source == source && events[j].time < t
        ensures events[j] in list[..n]
      {
        assert events[j] in list;
        var i :| 0 <= i < |list| && list[i] == events[j];
        assert i >= n ==> ByTime(list[n]) <= ByTime(list[i]);
      }
      SumMonotone(earlier, Taken(events, list, n));
    }
  }
}
