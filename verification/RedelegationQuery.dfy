/**
 The bounded page scan over the transaction index (collector/redelegation_query.go).
 Strings that the collector parses appear as the outcome of that parse.
 */
module RedelegationQuery {
  import opened Basics
  import opened Sums
  import opened Sorting

  const PAGE_LIMIT: nat := 100
  const MAX_PAGES: nat := 200
  const REDELEGATE := "/cosmos.staking.v1beta1.MsgBeginRedelegate"

  datatype Message = Message(typeUrl: string, source: string, destination: string,
                             denom: string, amount: Option<nat>)
  datatype TxResult = TxResult(hash: string, code: nat, timestamp: Option<Time>)
  datatype Row = Row(messages: seq<Message>, result: TxResult)
  datatype Total = Unreported | Malformed | Reported(n: int)
  datatype Reply = Unavailable | Page(txs: seq<seq<Message>>, results: seq<TxResult>, total: Total)

  datatype Key = Key(hash: string, index: nat)
  datatype Event = Event(hash: string, index: nat, time: Time,
                         source: string, destination: string, amount: Amount)
  type Events = map<Key, Event>

  datatype QueryError =
    | PageFailed(page: nat)
    | LengthMismatch(page: nat)
    | BadTotal(page: nat)
    | EmptyTooSoon(page: nat)
    | BadTimestamp(page: nat, row: nat)
    | NotDescending(page: nat, row: nat)
    | MissingField(page: nat, row: nat)
    | BadAmount(hash: string, message: nat)
    | ShortPage(page: nat)
    | TooManyPages

  /** What the row loop carries from row to row. */
  datatype Cursor = Cursor(seen: Events, previous: Time, reachedCutoff: bool)

  /** Hashes are compared in upper case. */
  function Upper(s: string): (t: string)
    ensures |t| == |s|
    ensures forall i :: 0 <= i < |s| ==> !('a' <= t[i] <= 'z')
    ensures forall i :: 0 <= i < |s| ==> t[i] == s[i] || t[i] as int + ('a' as int - 'A' as int) == s[i] as int
    ensures forall i :: 0 <= i < |s| && t[i] != s[i] ==> 'a' <= s[i] <= 'z'
  {
    seq(|s|, i requires 0 <= i < |s| => if 'a' <= s[i] <= 'z' then (s[i] as int - 32) as char else s[i])
  }

  function KeyOf(e: Event): Key {
    Key(e.hash, e.index)
  }

  predicate Qualifies(m: Message) {
    m.typeUrl == REDELEGATE && m.denom == "uatom"
  }

  function EventOf(r: TxResult, time: Time, j: nat, m: Message): Event {
    Event(Upper(r.hash), j, time, m.source, m.destination,
          if m.amount.Some? then m.amount.value as real else 0.0)
  }

  function ParseTotal(t: Total): Option<nat> {
    match t
    case Unreported => Some(0)
    case Malformed => None
    case Reported(n) => if n < 0 then None else Some(n)
  }

  // ----- the scan as a function of the replies

  function ReadMessages(page: nat, row: nat, r: TxResult, time: Time, ms: seq<Message>, j: nat, seen: Events)
    : Result<Events, QueryError>
    requires j <= |ms|
    decreases |ms| - j
  {
    if j == |ms| then Ok(seen)
    else if !Qualifies(ms[j]) then ReadMessages(page, row, r, time, ms, j + 1, seen)
    else if r.hash == "" || ms[j].source == "" || ms[j].destination == "" then Err(MissingField(page, row))
    else if ms[j].amount.None? || ms[j].amount.value == 0 then Err(BadAmount(r.hash, j))
    else
      var e := EventOf(r, time, j, ms[j]);
      ReadMessages(page, row, r, time, ms, j + 1, seen[KeyOf(e) := e])
  }

  function ReadRows(page: nat, txs: seq<seq<Message>>, results: seq<TxResult>, i: nat, since: Time, c: Cursor)
    : Result<Cursor, QueryError>
    requires |txs| == |results| && i <= |results|
    decreases |results| - i
  {
    if i == |results| then Ok(c)
    else
      match results[i].timestamp
      case None => Err(BadTimestamp(page, i))
      case Some(t) =>
        if c.previous != ZERO_TIME && t > c.previous then Err(NotDescending(page, i))
        else if t < since then ReadRows(page, txs, results, i + 1, since, Cursor(c.seen, t, true))
        else if results[i].code != 0 then ReadRows(page, txs, results, i + 1, since, c.(previous := t))
        else
          match ReadMessages(page, i, results[i], t, txs[i], 0, c.seen)
          case Err(e) => Err(e)
          case Ok(seen) => ReadRows(page, txs, results, i + 1, since, Cursor(seen, t, c.reachedCutoff))
  }

  /** What one reply decides: the scan ends, or it asks for the next page. */
  datatype Step = Done(result: Result<Events, QueryError>) | More(cursor: Cursor)

  function PageStep(page: nat, reply: Reply, since: Time, seen: Events, previous: Time): Step
    requires 1 <= page
  {
    if reply.Unavailable? then Done(Err(PageFailed(page)))
    else if |reply.txs| != |reply.results| then Done(Err(LengthMismatch(page)))
    else
      match ParseTotal(reply.total)
      case None => Done(Err(BadTotal(page)))
      case Some(total) =>
        var before := (page - 1) * PAGE_LIMIT;
        var consumed := before + |reply.results|;
        if reply.results == [] then
          Done(if total > before then Err(EmptyTooSoon(page)) else Ok(seen))
        else
          match ReadRows(page, reply.txs, reply.results, 0, since, Cursor(seen, previous, false))
          case Err(e) => Done(Err(e))
          case Ok(c) =>
            if c.reachedCutoff || (total > 0 && consumed >= total) then Done(Ok(c.seen))
            else if |reply.results| < PAGE_LIMIT then
              Done(if total > consumed then Err(ShortPage(page)) else Ok(c.seen))
            else More(c)
  }

  function ReadPages(oracle: nat -> Reply, page: nat, since: Time, seen: Events, previous: Time)
    : Result<Events, QueryError>
    requires 1 <= page
    decreases MAX_PAGES + 1 - page
  {
    if page > MAX_PAGES then Err(TooManyPages)
    else
      match PageStep(page, oracle(page), since, seen, previous)
      case Done(result) => result
      case More(c) => ReadPages(oracle, page + 1, since, c.seen, c.previous)
  }

  const FIRST_PAGE: nat := 1

  function Scan(oracle: nat -> Reply, since: Time): Result<Events, QueryError> {
    ReadPages(oracle, FIRST_PAGE, since, map[], ZERO_TIME)
  }

  // ----- the scan as the loops that compute it

  function ByTime(e: Event): real {
    e.time as real
  }

  ghost predicate OldestFirst(out: seq<Event>) {
    forall i, j :: 0 <= i < j < |out| ==> out[i].time <= out[j].time
  }

  /** `out` holds each event of `seen` once, oldest first. */
  ghost predicate Lists(out: seq<Event>, seen: Events) {
    && |out| == |seen| && Keyed(seen)
    && (forall k :: k in seen ==> seen[k] in out)
    && (forall e :: e in out ==> KeyOf(e) in seen && seen[KeyOf(e)] == e)
    && OldestFirst(out)
  }

  ghost predicate Keyed(seen: Events) {
    forall k :: k in seen ==> KeyOf(seen[k]) == k
  }

  lemma {:induction false} ReadMessagesKeyed(
      page: nat, row: nat, r: TxResult, time: Time, ms: seq<Message>, j: nat, seen: Events)
    requires j <= |ms| && Keyed(seen)
    ensures var out := ReadMessages(page, row, r, time, ms, j, seen); out.Ok? ==> Keyed(out.value)
    decreases |ms| - j
  {
    if j == |ms| {
    } else {
      var e := EventOf(r, time, j, ms[j]);
      ReadMessagesKeyed(page, row, r, time, ms, j + 1, seen);
      ReadMessagesKeyed(page, row, r, time, ms, j + 1, seen[KeyOf(e) := e]);
    }
  }

  method SortedRedelegationEvents(events: Events) returns (out: seq<Event>)
    requires Keyed(events)
    ensures Lists(out, events)
  {
    var list: seq<Event> := [];
    var todo := events.Keys;
    while todo != {}
      invariant todo <= events.Keys && |list| == |events| - |todo|
      invariant forall k :: k in events && k !in todo ==> events[k] in list
      invariant forall e :: e in list ==> KeyOf(e) in events && events[KeyOf(e)] == e
      decreases |todo|
    {
      var k :| k in todo;
      list := list + [events[k]];
      todo := todo - {k};
    }
    out := SortBy(list, ByTime);
    Permutation(list, out);
    forall i, j | 0 <= i < j < |out| ensures out[i].time <= out[j].time {
      assert ByTime(out[i]) <= ByTime(out[j]);
    }
  }

  method QueryRedelegations(oracle: nat -> Reply, since: Time) returns (r: Result<seq<Event>, QueryError>)
    ensures Scan(oracle, since).Ok? <==> r.Ok?
    ensures r.Ok? ==> Lists(r.value, Scan(oracle, since).value)
    ensures r.Err? ==> r.error == Scan(oracle, since).error
  {
    var seen: Events := map[];
    var previous := ZERO_TIME;
    var page := FIRST_PAGE;
    while page <= MAX_PAGES
      invariant 1 <= page <= MAX_PAGES + 1 && Keyed(seen)
      invariant Scan(oracle, since) == ReadPages(oracle, page, since, seen, previous)
    {
      var reply := oracle(page);
      if reply.Unavailable? {
        return Err(PageFailed(page));
      }
      if |reply.txs| != |reply.results| {
        return Err(LengthMismatch(page));
      }
      var total := ParseTotal(reply.total);
      if total.None? {
        return Err(BadTotal(page));
      }
      var before := (page - 1) * PAGE_LIMIT;
      if |reply.results| == 0 {
        if total.value > before {
          return Err(EmptyTooSoon(page));
        }
        var list := SortedRedelegationEvents(seen);
        return Ok(list);
      }

      ghost var rows := ReadRows(page, reply.txs, reply.results, 0, since, Cursor(seen, previous, false));
      var reachedCutoff := false;
      for i := 0 to |reply.results|
        invariant Keyed(seen)
        invariant rows == ReadRows(page, reply.txs, reply.results, i, since, Cursor(seen, previous, reachedCutoff))
      {
        var result := reply.results[i];
        if result.timestamp.None? {
          return Err(BadTimestamp(page, i));
        }
        var timestamp := result.timestamp.value;
        if previous != ZERO_TIME && timestamp > previous {
          return Err(NotDescending(page, i));
        }
        previous := timestamp;
        if timestamp < since {
          reachedCutoff := true;
          continue;
        }
        if result.code != 0 {
          continue;
        }
        var messages := reply.txs[i];
        ghost var read := ReadMessages(page, i, result, timestamp, messages, 0, seen);
        for j := 0 to |messages|
          invariant Keyed(seen)
          invariant read == ReadMessages(page, i, result, timestamp, messages, j, seen)
        {
          if !Qualifies(messages[j]) {
            continue;
          }
          if result.hash == "" || messages[j].source == "" || messages[j].destination == "" {
            return Err(MissingField(page, i));
          }
          if messages[j].amount.None? || messages[j].amount.value == 0 {
            return Err(BadAmount(result.hash, j));
          }
          var event := EventOf(result, timestamp, j, messages[j]);
          seen := seen[KeyOf(event) := event];
        }
      }

      if reachedCutoff {
        var list := SortedRedelegationEvents(seen);
        return Ok(list);
      }
      var consumed := before + |reply.results|;
      if total.value > 0 && consumed >= total.value {
        var list := SortedRedelegationEvents(seen);
        return Ok(list);
      }
      if |reply.results| < PAGE_LIMIT {
        if total.value > consumed {
          return Err(ShortPage(page));
        }
        var list := SortedRedelegationEvents(seen);
        return Ok(list);
      }
      page := page + 1;
    }
    return Err(TooManyPages);
  }

  // ----- what the index holds, and what an honest endpoint serves

  /** Message `j` of the row is a successful redelegation of uatom with everything an event needs. */
  ghost predicate IsEvent(row: Row, j: nat) {
    && j < |row.messages| && IsRedelegation(row.messages[j])
    && row.result.timestamp.Some? && row.result.code == 0
    && row.result.hash != "" && row.messages[j].source != "" && row.messages[j].destination != ""
    && row.messages[j].amount.Some? && row.messages[j].amount.value != 0
  }

  ghost predicate IsRedelegation(m: Message) {
    m.typeUrl == "/cosmos.staking.v1beta1.MsgBeginRedelegate" && m.denom == "uatom"
  }

  /** A message is known by the hash of its transaction in upper case and its place in it. */
  ghost function KeyAt(row: Row, j: nat): Key {
    Key(Upper(row.result.hash), j)
  }

  /** The stake leaves the message's source for its destination, at the time of the row. */
  ghost function EventAt(row: Row, j: nat): Event
    requires IsEvent(row, j)
  {
    var m := row.messages[j];
    Event(Upper(row.result.hash), j, row.result.timestamp.value, m.source, m.destination, m.amount.value as real)
  }

  /** `index` is exactly the events of `rows`: possible only if equal keys carry equal events. */
  ghost predicate Describes(index: Events, rows: seq<Row>) {
    && Indexed(rows, index)
    && (forall k :: k in index ==> exists row, j :: row in rows && IsEvent(row, j) && KeyAt(row, j) == k)
  }

  ghost predicate Suffix(a: seq<Row>, b: seq<Row>) {
    |a| <= |b| && b[|b| - |a|..] == a
  }

  ghost predicate Descending(rows: seq<Row>) {
    forall i, j :: 0 <= i < j < |rows| && rows[i].result.timestamp.Some? && rows[j].result.timestamp.Some? ==>
      rows[j].result.timestamp.value <= rows[i].result.timestamp.value
  }

  ghost function PageOf(rows: seq<Row>, page: nat): seq<Row>
    requires 1 <= page
  {
    rows[Min((page - 1) * PAGE_LIMIT, |rows|)..Min(page * PAGE_LIMIT, |rows|)]
  }

  ghost predicate ServesPage(rows: seq<Row>, page: nat, reply: Reply)
    requires 1 <= page
  {
    reply.Page? ==>
      && |reply.txs| == |reply.results| == |PageOf(rows, page)|
      && (forall i :: 0 <= i < |reply.results| ==> PageOf(rows, page)[i] == Row(reply.txs[i], reply.results[i]))
      && (reply.total == Unreported || reply.total == Reported(|rows|))
  }

  /** `history(p)` is the index when page `p` is read: rows are only ever added in front, in descending order. */
  ghost predicate Honest(history: nat -> seq<Row>, oracle: nat -> Reply) {
    && (forall p :: 1 <= p ==> Descending(history(p)) && ServesPage(history(p), p, oracle(p)))
    && (forall p, q :: 1 <= p <= q ==> Suffix(history(p), history(q)))
  }

  // ----- reading page by page

  type Answer = Result<Events, QueryError>

  /** The page ends the scan with a `good` answer, or leaves `inv` for the next one. */
  ghost predicate StepsWell(oracle: nat -> Reply, p: nat, since: Time, seen: Events, previous: Time,
                            inv: (nat, Events, Time) -> bool, good: Answer -> bool)
    requires 1 <= p
  {
    match PageStep(p, oracle(p), since, seen, previous)
    case Done(result) => good(result)
    case More(c) => if p == MAX_PAGES then good(Err(TooManyPages)) else inv(p + 1, c.seen, c.previous)
  }

  /** What every page keeps holds of the answer of the whole scan. */
  lemma {:induction false} PageInduction(oracle: nat -> Reply, p: nat, since: Time, seen: Events, previous: Time,
                                         inv: (nat, Events, Time) -> bool, good: Answer -> bool)
    requires 1 <= p <= MAX_PAGES && inv(p, seen, previous)
    requires forall q: nat, s, t :: 1 <= q <= MAX_PAGES && inv(q, s, t) ==> StepsWell(oracle, q, since, s, t, inv, good)
    ensures good(ReadPages(oracle, p, since, seen, previous))
    decreases MAX_PAGES - p
  {
    assert StepsWell(oracle, p, since, seen, previous, inv, good);
    var step := PageStep(p, oracle(p), since, seen, previous);
    if step.More? && p < MAX_PAGES {
      PageInduction(oracle, p + 1, since, step.cursor.seen, step.cursor.previous, inv, good);
    }
  }

  // ----- completeness and soundness of the page scan

  ghost function Backfill(index: Events, since: Time): Events {
    map k | k in index && index[k].time >= since :: index[k]
  }

  ghost predicate Submap(a: Events, b: Events) {
    forall k :: k in a ==> k in b && a[k] == b[k]
  }

  ghost predicate Relevant(row: Row, since: Time) {
    row.result.timestamp.Some? && row.result.timestamp.value >= since && row.result.code == 0
  }

  ghost predicate RowIn(seen: Events, row: Row) {
    forall j :: IsEvent(row, j) ==> KeyAt(row, j) in seen
  }

  /** Every relevant row of `first` before position `n` is in `seen`. */
  ghost predicate Covered(seen: Events, first: seq<Row>, since: Time, n: int) {
    forall i :: 0 <= i < |first| && i < n && Relevant(first[i], since) ==> RowIn(seen, first[i])
  }

  ghost predicate IsOlder(row: Row, since: Time) {
    row.result.timestamp.Some? && row.result.timestamp.value < since
  }

  ghost predicate HasOlder(rows: seq<Row>, since: Time) {
    exists row :: row in rows && IsOlder(row, since)
  }

  /** Every event of `rows` is in `index`. */
  ghost predicate Indexed(rows: seq<Row>, index: Events) {
    forall row, j :: row in rows && IsEvent(row, j) ==>
      KeyAt(row, j) in index && index[KeyAt(row, j)] == EventAt(row, j)
  }

  lemma {:induction false} MessagesExact(
      page: nat, at: nat, row: Row, j: nat, seen: Events, index: Events, since: Time)
    requires j <= |row.messages| && Relevant(row, since)
    requires Indexed([row], index)
    requires Submap(seen, Backfill(index, since))
    requires forall m: nat :: m < j && IsEvent(row, m) ==> KeyAt(row, m) in seen
    ensures
      var out := ReadMessages(page, at, row.result, row.result.timestamp.value, row.messages, j, seen);
      out.Ok? ==>
        && seen.Keys <= out.value.Keys && RowIn(out.value, row)
        && Submap(out.value, Backfill(index, since))
    decreases |row.messages| - j
  {
    if j == |row.messages| {
    } else {
      if IsEvent(row, j) {
        assert row in [row];
        var e := EventAt(row, j);
        MessagesExact(page, at, row, j + 1, seen[KeyOf(e) := e], index, since);
      } else if !Qualifies(row.messages[j]) {
        MessagesExact(page, at, row, j + 1, seen, index, since);
      }
    }
  }

  lemma {:induction false} RowsExact(
      page: nat, rows: seq<Row>, txs: seq<seq<Message>>, results: seq<TxResult>, i: nat,
      since: Time, c: Cursor, index: Events)
    requires |txs| == |results| == |rows| && i <= |rows|
    requires forall n :: 0 <= n < |rows| ==> rows[n] == Row(txs[n], results[n])
    requires Indexed(rows, index)
    requires Submap(c.seen, Backfill(index, since))
    ensures
      var out := ReadRows(page, txs, results, i, since, c);
      out.Ok? ==>
        && c.seen.Keys <= out.value.seen.Keys && Submap(out.value.seen, Backfill(index, since))
        && (forall n :: i <= n < |rows| && Relevant(rows[n], since) ==> RowIn(out.value.seen, rows[n]))
        && (out.value.reachedCutoff ==> c.reachedCutoff || HasOlder(rows, since))
    decreases |rows| - i
  {
    if i < |rows| && results[i].timestamp.Some? {
      var t := results[i].timestamp.value;
      var row := rows[i];
      assert row in rows;
      if t < since {
        RowsExact(page, rows, txs, results, i + 1, since, Cursor(c.seen, t, true), index);
      } else if results[i].code != 0 {
        RowsExact(page, rows, txs, results, i + 1, since, c.(previous := t), index);
      } else {
        MessagesExact(page, i, row, 0, c.seen, index, since);
        var read := ReadMessages(page, i, results[i], t, txs[i], 0, c.seen);
        if read.Ok? {
          RowsExact(page, rows, txs, results, i + 1, since, Cursor(read.value, t, c.reachedCutoff), index);
        }
      }
    }
  }

  /** Reading page `p` covers the positions it serves, wherever growth has shifted the first index to. */
  lemma CoverPage(first: seq<Row>, grown: seq<Row>, p: nat, seen: Events, out: Events, since: Time)
    requires 1 <= p && Suffix(first, grown) && seen.Keys <= out.Keys
    requires Covered(seen, first, since, (p - 1) * PAGE_LIMIT - (|grown| - |first|))
    requires forall n :: 0 <= n < |PageOf(grown, p)| && Relevant(PageOf(grown, p)[n], since) ==>
      RowIn(out, PageOf(grown, p)[n])
    ensures Covered(out, first, since, p * PAGE_LIMIT - (|grown| - |first|))
  {
    var shift := |grown| - |first|;
    forall i | 0 <= i < |first| && i < p * PAGE_LIMIT - shift && Relevant(first[i], since)
      ensures RowIn(out, first[i])
    {
      assert first[i] == grown[i + shift];
      if i + shift >= (p - 1) * PAGE_LIMIT {
        assert PageOf(grown, p)[i + shift - (p - 1) * PAGE_LIMIT] == grown[i + shift];
      } else {
        assert RowIn(seen, first[i]);
      }
    }
  }

  lemma PageRow(rows: seq<Row>, p: nat, n: nat)
    requires 1 <= p && n < |PageOf(rows, p)|
    ensures var i := (p - 1) * PAGE_LIMIT + n;
      i < |rows| && i < p * PAGE_LIMIT && PageOf(rows, p)[n] == rows[i] && PageOf(rows, p)[n] in rows
  {
  }

  /** Rows are descending, so one row before `since` on page `p` makes every later position irrelevant. */
  lemma CutoffCovers(first: seq<Row>, grown: seq<Row>, p: nat, seen: Events, since: Time)
    requires 1 <= p && Suffix(first, grown) && Descending(grown) && HasOlder(PageOf(grown, p), since)
    requires Covered(seen, first, since, p * PAGE_LIMIT - (|grown| - |first|))
    ensures Covered(seen, first, since, |first|)
  {
    var row :| row in PageOf(grown, p) && IsOlder(row, since);
    var n :| 0 <= n < |PageOf(grown, p)| && PageOf(grown, p)[n] == row;
    PageRow(grown, p, n);
    var at := (p - 1) * PAGE_LIMIT + n;
    forall i | 0 <= i < |first| && Relevant(first[i], since) ensures RowIn(seen, first[i]) {
      NewerIsBefore(first, grown, at, since, i);
    }
  }

  /** In a descending index a row of the window comes before every older one. */
  lemma NewerIsBefore(first: seq<Row>, grown: seq<Row>, at: nat, since: Time, i: nat)
    requires Suffix(first, grown) && Descending(grown) && at < |grown| && IsOlder(grown[at], since)
    requires i < |first| && Relevant(first[i], since)
    ensures i + |grown| - |first| < at
  {
    assert first[i] == grown[i + |grown| - |first|];
  }

  lemma OnePage(first: seq<Row>, grown: seq<Row>, p: nat, reply: Reply, since: Time, seen: Events,
                previous: Time, index: Events)
    requires 1 <= p && Suffix(first, grown) && Descending(grown) && ServesPage(grown, p, reply)
    requires Indexed(grown, index) && Submap(seen, Backfill(index, since))
    requires Covered(seen, first, since, (p - 1) * PAGE_LIMIT - (|grown| - |first|))
    ensures
      match PageStep(p, reply, since, seen, previous)
      case Done(Err(_)) => true
      case Done(Ok(out)) => Submap(out, Backfill(index, since)) && Covered(out, first, since, |first|)
      case More(c) =>
        Submap(c.seen, Backfill(index, since)) &&
        Covered(c.seen, first, since, p * PAGE_LIMIT - (|grown| - |first|))
  {
    if reply.Page? && reply.results != [] {
      var rows := PageOf(grown, p);
      RowsExact(p, rows, reply.txs, reply.results, 0, since, Cursor(seen, previous, false), index);
      var out := ReadRows(p, reply.txs, reply.results, 0, since, Cursor(seen, previous, false));
      if out.Ok? {
        CoverPage(first, grown, p, seen, out.value.seen, since);
        if out.value.reachedCutoff {
          CutoffCovers(first, grown, p, out.value.seen, since);
        }
      }
    }
  }

  /** One page of a growing index: it ends the scan with a complete answer, or leaves the next page as well placed. */
  lemma PageExact(
      h: nat -> seq<Row>, oracle: nat -> Reply, p: nat, since: Time, seen: Events, previous: Time, index: Events)
    requires 1 <= p <= MAX_PAGES && Honest(h, oracle) && Indexed(h(MAX_PAGES), index)
    requires Submap(seen, Backfill(index, since))
    requires Covered(seen, h(1), since, (p - 1) * PAGE_LIMIT - (|h(p)| - |h(1)|))
    ensures
      match PageStep(p, oracle(p), since, seen, previous)
      case Done(Err(_)) => true
      case Done(Ok(out)) => IsAnswer(out, h, since, index)
      case More(c) =>
        Submap(c.seen, Backfill(index, since)) && Covered(c.seen, h(1), since, p * PAGE_LIMIT - (|h(p + 1)| - |h(1)|))
  {
    HonestAt(h, oracle, p);
    SuffixIndexed(h(p), h(MAX_PAGES), index);
    OnePage(h(1), h(p), p, oracle(p), since, seen, previous, index);
    var step := PageStep(p, oracle(p), since, seen, previous);
    if step.More? {
      CoveredBefore(step.cursor.seen, h(1), since, p * PAGE_LIMIT - (|h(p)| - |h(1)|),
                    p * PAGE_LIMIT - (|h(p + 1)| - |h(1)|));
    }
  }

  /** Nothing that is not indexed by the end, and everything that was indexed when page 1 was read. */
  ghost predicate IsAnswer(out: Events, h: nat -> seq<Row>, since: Time, index: Events) {
    Submap(out, Backfill(index, since)) && Covered(out, h(1), since, |h(1)|)
  }

  /** What the pages before `p` have found of a growing index. */
  ghost predicate CoveredSoFar(h: nat -> seq<Row>, p: nat, since: Time, seen: Events, index: Events)
    requires 1 <= p
  {
    Submap(seen, Backfill(index, since)) && Covered(seen, h(1), since, (p - 1) * PAGE_LIMIT - (|h(p)| - |h(1)|))
  }

  lemma PagesExact(h: nat -> seq<Row>, oracle: nat -> Reply, since: Time, index: Events)
    requires Honest(h, oracle) && Indexed(h(MAX_PAGES), index)
    ensures var out := ReadPages(oracle, FIRST_PAGE, since, map[], ZERO_TIME);
      out.Ok? ==> IsAnswer(out.value, h, since, index)
  {
    var inv := (p: nat, seen: Events, previous: Time) => 1 <= p && CoveredSoFar(h, p, since, seen, index);
    var good := (r: Answer) => r.Ok? ==> IsAnswer(r.value, h, since, index);
    forall p: nat, seen, previous | 1 <= p <= MAX_PAGES && inv(p, seen, previous)
      ensures StepsWell(oracle, p, since, seen, previous, inv, good)
    {
      PageExact(h, oracle, p, since, seen, previous, index);
    }
    PageInduction(oracle, FIRST_PAGE, since, map[], ZERO_TIME, inv, good);
  }

  lemma HonestAt(h: nat -> seq<Row>, oracle: nat -> Reply, p: nat)
    requires 1 <= p <= MAX_PAGES && Honest(h, oracle)
    ensures Suffix(h(1), h(p)) && Suffix(h(p), h(MAX_PAGES)) && |h(p)| <= |h(p + 1)|
    ensures Descending(h(p)) && ServesPage(h(p), p, oracle(p))
  {
    assert Suffix(h(p), h(p + 1));
  }

  lemma CoveredBefore(seen: Events, first: seq<Row>, since: Time, n: int, m: int)
    requires Covered(seen, first, since, n) && m <= n
    ensures Covered(seen, first, since, m)
  {
  }

  lemma SuffixIndexed(rows: seq<Row>, more: seq<Row>, index: Events)
    requires Suffix(rows, more) && Indexed(more, index)
    ensures Indexed(rows, index)
  {
    forall row, j | row in rows && IsEvent(row, j)
      ensures KeyAt(row, j) in index && index[KeyAt(row, j)] == EventAt(row, j)
    {
      assert row in more[|more| - |rows|..];
      assert row in more;
    }
  }

  /**
   The scan is complete or it fails. On success it holds every event at or after `since` that was indexed
   when page 1 was read, even if rows shift between pages, and nothing that was not indexed by the end.
   */
  lemma ScanIsExact(h: nat -> seq<Row>, oracle: nat -> Reply, since: Time, first: Events, last: Events)
    requires Honest(h, oracle) && Describes(first, h(1)) && Describes(last, h(MAX_PAGES))
    ensures Scan(oracle, since).Ok? ==>
      && Submap(Backfill(first, since), Scan(oracle, since).value)
      && Submap(Scan(oracle, since).value, Backfill(last, since))
  {
    PagesExact(h, oracle, since, last);
    if Scan(oracle, since).Ok? {
      assert Suffix(h(1), h(MAX_PAGES));
      CoveredIsComplete(h(1), h(MAX_PAGES), since, Scan(oracle, since).value, first, last);
    }
  }

  lemma CoveredIsComplete(rows: seq<Row>, more: seq<Row>, since: Time, seen: Events, first: Events, last: Events)
    requires Suffix(rows, more) && Describes(first, rows) && Describes(last, more)
    requires Submap(seen, Backfill(last, since)) && Covered(seen, rows, since, |rows|)
    ensures Submap(Backfill(first, since), seen)
  {
    GrowthKeepsEvents(rows, more, first, last);
    forall k | k in Backfill(first, since) ensures k in seen {
      var row, j :| row in rows && IsEvent(row, j) && KeyAt(row, j) == k;
      var i :| 0 <= i < |rows| && rows[i] == row;
      assert Relevant(rows[i], since) && RowIn(seen, rows[i]);
    }
  }

  lemma GrowthKeepsEvents(rows: seq<Row>, more: seq<Row>, index: Events, grown: Events)
    requires Suffix(rows, more) && Describes(index, rows) && Describes(grown, more)
    ensures Submap(index, grown)
  {
    SuffixIndexed(rows, more, grown);
    forall k | k in index ensures k in grown && index[k] == grown[k] {
      var row, j :| row in rows && IsEvent(row, j) && KeyAt(row, j) == k;
      assert KeyAt(row, j) in grown;
    }
  }

  // ----- when the scan succeeds

  /** Every timestamp can be read, and every message the scan would take is well formed. */
  ghost predicate Clean(rows: seq<Row>, since: Time) {
    forall row :: row in rows ==>
      && row.result.timestamp.Some?
      && (Relevant(row, since) ==>
            forall j :: 0 <= j < |row.messages| && IsRedelegation(row.messages[j]) ==> IsEvent(row, j))
  }

  ghost predicate OlderBefore(rows: seq<Row>, since: Time, n: int) {
    exists i :: 0 <= i < |rows| && i < n && IsOlder(rows[i], since)
  }

  lemma {:induction false} MessagesClean(page: nat, at: nat, row: Row, j: nat, seen: Events, since: Time)
    requires j <= |row.messages| && Clean([row], since) && Relevant(row, since)
    ensures ReadMessages(page, at, row.result, row.result.timestamp.value, row.messages, j, seen).Ok?
    decreases |row.messages| - j
  {
    if j == |row.messages| {
    } else {
      assert row in [row];
      var e := EventOf(row.result, row.result.timestamp.value, j, row.messages[j]);
      MessagesClean(page, at, row, j + 1, seen, since);
      MessagesClean(page, at, row, j + 1, seen[KeyOf(e) := e], since);
    }
  }

  lemma {:induction false} RowsClean(
      page: nat, rows: seq<Row>, txs: seq<seq<Message>>, results: seq<TxResult>, i: nat, since: Time, c: Cursor)
    requires |txs| == |results| == |rows| && i <= |rows| && Clean(rows, since) && Descending(rows)
    requires forall n :: 0 <= n < |rows| ==> rows[n] == Row(txs[n], results[n])
    requires c.previous == ZERO_TIME || (i < |rows| ==> rows[i].result.timestamp.value <= c.previous)
    requires c.reachedCutoff <==> OlderBefore(rows, since, i)
    ensures
      var out := ReadRows(page, txs, results, i, since, c);
      && out.Ok? && (out.value.reachedCutoff <==> OlderBefore(rows, since, |rows|))
      && out.value.previous == (if i < |rows| then rows[|rows| - 1].result.timestamp.value else c.previous)
    decreases |rows| - i
  {
    if i == |rows| {
    } else {
      var row := rows[i];
      var t := row.result.timestamp.value;
      assert OlderBefore(rows, since, i + 1) <==> OlderBefore(rows, since, i) || t < since;
      if t < since || row.result.code != 0 {
        RowsClean(page, rows, txs, results, i + 1, since, Cursor(c.seen, t, c.reachedCutoff || t < since));
      } else {
        assert Clean([row], since);
        MessagesClean(page, i, row, 0, c.seen, since);
        var seen := ReadMessages(page, i, results[i], t, txs[i], 0, c.seen).value;
        RowsClean(page, rows, txs, results, i + 1, since, Cursor(seen, t, c.reachedCutoff));
      }
    }
  }

  /** A complete answer can be established within the page bound. */
  ghost predicate FitsBound(rows: seq<Row>, oracle: nat -> Reply, since: Time) {
    || OlderBefore(rows, since, 200 * 100)
    || |rows| < 200 * 100
    || (|rows| == 200 * 100 && oracle(MAX_PAGES).Page? && oracle(MAX_PAGES).total.Reported?)
  }

  lemma PageClean(rows: seq<Row>, p: nat, reply: Reply, since: Time, seen: Events, previous: Time)
    requires 1 <= p && (p - 1) * PAGE_LIMIT <= |rows| && reply.Page? && ServesPage(rows, p, reply)
    requires Descending(rows) && Clean(rows, since) && !OlderBefore(rows, since, (p - 1) * PAGE_LIMIT)
    requires previous == ZERO_TIME ||
             ((p - 1) * PAGE_LIMIT < |rows| ==> rows[(p - 1) * PAGE_LIMIT].result.timestamp.value <= previous)
    ensures
      match PageStep(p, reply, since, seen, previous)
      case Done(r) =>
        r.Ok? && (OlderBefore(rows, since, p * PAGE_LIMIT) || |rows| < p * PAGE_LIMIT ||
                  (|rows| == p * PAGE_LIMIT && reply.total.Reported?))
      case More(c) =>
        && !OlderBefore(rows, since, p * PAGE_LIMIT)
        && (|rows| > p * PAGE_LIMIT || (|rows| == p * PAGE_LIMIT && !reply.total.Reported?))
        && (|rows| > p * PAGE_LIMIT ==> rows[p * PAGE_LIMIT].result.timestamp.value <= c.previous)
  {
    if reply.results != [] {
      PageInherits(rows, p, since);
      PageHoldsOlder(rows, p, since);
      var here := PageOf(rows, p);
      assert here[0] == rows[(p - 1) * PAGE_LIMIT];
      RowsClean(p, here, reply.txs, reply.results, 0, since, Cursor(seen, previous, false));
      assert |rows| > p * PAGE_LIMIT ==> here[|here| - 1] == rows[p * PAGE_LIMIT - 1];
    }
  }

  /** A page of a clean descending index is clean and descending. */
  lemma PageInherits(rows: seq<Row>, p: nat, since: Time)
    requires 1 <= p && Descending(rows) && Clean(rows, since)
    ensures Descending(PageOf(rows, p)) && Clean(PageOf(rows, p), since)
  {
    var here := PageOf(rows, p);
    forall n: nat | n < |here| ensures here[n] == rows[(p - 1) * PAGE_LIMIT + n] && here[n] in rows {
      PageRow(rows, p, n);
    }
  }

  /** The first older row of the index is on the page if it is there and not before it. */
  lemma PageHoldsOlder(rows: seq<Row>, p: nat, since: Time)
    requires 1 <= p && !OlderBefore(rows, since, (p - 1) * PAGE_LIMIT)
    ensures OlderBefore(PageOf(rows, p), since, |PageOf(rows, p)|) <==> OlderBefore(rows, since, p * PAGE_LIMIT)
  {
    var here := PageOf(rows, p);
    if n :| 0 <= n < |here| && IsOlder(here[n], since) {
      PageRow(rows, p, n);
    }
    if i :| 0 <= i < |rows| && i < p * PAGE_LIMIT && IsOlder(rows[i], since) {
      PageRow(rows, p, i - (p - 1) * PAGE_LIMIT);
    }
  }

  /** Where a scan of an index that does not change stands before page `p`. */
  ghost predicate AtPage(rows: seq<Row>, p: nat, since: Time, previous: Time)
    requires 1 <= p
  {
    && (p - 1) * PAGE_LIMIT <= |rows| && !OlderBefore(rows, since, (p - 1) * PAGE_LIMIT)
    && (previous == ZERO_TIME ||
        ((p - 1) * PAGE_LIMIT < |rows| && rows[(p - 1) * PAGE_LIMIT].result.timestamp.Some? ==>
          rows[(p - 1) * PAGE_LIMIT].result.timestamp.value <= previous))
  }

  lemma FixedIndexStep(
      rows: seq<Row>, oracle: nat -> Reply, p: nat, since: Time, seen: Events, previous: Time)
    requires 1 <= p <= MAX_PAGES && Descending(rows) && Clean(rows, since) && AtPage(rows, p, since, previous)
    requires oracle(p).Page? && ServesPage(rows, p, oracle(p))
    ensures match PageStep(p, oracle(p), since, seen, previous)
      case Done(r) => r.Ok? && FitsBound(rows, oracle, since)
      case More(c) => AtPage(rows, p + 1, since, c.previous) && (p == MAX_PAGES ==> !FitsBound(rows, oracle, since))
  {
    PageClean(rows, p, oracle(p), since, seen, previous);
  }

  /**
   Over an index that does not change, with every page answered, the scan succeeds exactly when 200 pages
   reach the cutoff or the end; a full last page needs a reported total to count as the end.
   */
  lemma FixedIndexSucceeds(rows: seq<Row>, oracle: nat -> Reply, since: Time)
    requires Descending(rows) && Clean(rows, since)
    requires forall q :: 1 <= q <= MAX_PAGES ==> oracle(q).Page? && ServesPage(rows, q, oracle(q))
    ensures Scan(oracle, since).Ok? <==> FitsBound(rows, oracle, since)
  {
    var inv := (p: nat, seen: Events, previous: Time) => 1 <= p && AtPage(rows, p, since, previous);
    var good := (r: Answer) => r.Ok? <==> FitsBound(rows, oracle, since);
    forall p: nat, seen, previous | 1 <= p <= MAX_PAGES && inv(p, seen, previous)
      ensures StepsWell(oracle, p, since, seen, previous, inv, good)
    {
      FixedIndexStep(rows, oracle, p, since, seen, previous);
    }
    PageInduction(oracle, FIRST_PAGE, since, map[], ZERO_TIME, inv, good);
  }

  /**
   When two or more strictly newer rows push the list down between pages, the next page starts above the last
   row read, and the scan gives up although nothing is missing: growth costs a retry, never an event.
   */
  lemma GrowthIsRefused(rows: seq<Row>, grown: seq<Row>, p: nat, reply: Reply, next: Reply,
                        since: Time, seen: Events, previous: Time)
    requires 1 <= p && Suffix(rows, grown) && |grown| >= |rows| + 2 && Clean(grown, since)
    requires forall i, j :: 0 <= i < j < |grown| ==>
      grown[j].result.timestamp.Some? && grown[i].result.timestamp.Some? &&
      grown[j].result.timestamp.value < grown[i].result.timestamp.value
    requires p * PAGE_LIMIT <= |rows| && rows[p * PAGE_LIMIT - 1].result.timestamp != Some(ZERO_TIME)
    requires reply.Page? && ServesPage(rows, p, reply) && next.Page? && ServesPage(grown, p + 1, next)
    requires PageStep(p, reply, since, seen, previous).More?
    ensures
      var c := PageStep(p, reply, since, seen, previous).cursor;
      PageStep(p + 1, next, since, c.seen, c.previous) == Done(Err(NotDescending(p + 1, 0)))
  {
    var here, there := PageOf(rows, p), PageOf(grown, p + 1);
    LastRowRead(p, reply.txs, reply.results, 0, since, Cursor(seen, previous, false));
    assert here[PAGE_LIMIT - 1] == rows[p * PAGE_LIMIT - 1] == grown[p * PAGE_LIMIT - 1 + |grown| - |rows|];
    assert there[0] == grown[p * PAGE_LIMIT];
  }

  /** A page adds only what an index of its own rows holds. */
  lemma PageWithin(rows: seq<Row>, p: nat, reply: Reply, since: Time, seen: Events, previous: Time, index: Events)
    requires 1 <= p && ServesPage(rows, p, reply) && Indexed(PageOf(rows, p), index)
    requires Submap(seen, Backfill(index, since))
    ensures
      match PageStep(p, reply, since, seen, previous)
      case Done(Err(_)) => true
      case Done(Ok(out)) => Submap(out, Backfill(index, since))
      case More(c) => Submap(c.seen, Backfill(index, since))
  {
    if reply.Page? && reply.results != [] {
      RowsExact(p, PageOf(rows, p), reply.txs, reply.results, 0, since, Cursor(seen, previous, false), index);
    }
  }

  lemma IndexedPart(part: seq<Row>, rows: seq<Row>, index: Events)
    requires Indexed(rows, index) && forall row :: row in part ==> row in rows
    ensures Indexed(part, index)
  {
  }

  /**
   Growth is refused, but an endpoint that lags behind is not noticed: if page 2 comes from one that has not indexed
   the newest rows yet, the rows that it places on page 1 are skipped without breaking the order, and the scan
   succeeds without their events.
   */
  lemma LaggingEndpointSkips(rows: seq<Row>, behind: nat, oracle: nat -> Reply, since: Time, j: nat, index: Events)
    requires 0 < behind && PAGE_LIMIT + behind <= |rows| < 2 * PAGE_LIMIT + behind
    requires Descending(rows) && Clean(rows, since) && !OlderBefore(rows, since, |rows|)
    requires oracle(1).Page? && ServesPage(rows, 1, oracle(1))
    requires oracle(2).Page? && ServesPage(rows[behind..], 2, oracle(2))
    requires IsEvent(rows[PAGE_LIMIT], j) && KeyAt(rows[PAGE_LIMIT], j) !in index
    requires Indexed(rows[..PAGE_LIMIT] + rows[PAGE_LIMIT + behind..], index)
    ensures Scan(oracle, since).Ok? && KeyAt(rows[PAGE_LIMIT], j) !in Scan(oracle, since).value
  {
    var lagging := rows[behind..];
    LaggingIsClean(rows, behind, since);
    PageClean(rows, FIRST_PAGE, oracle(1), since, map[], ZERO_TIME);
    var c := PageStep(FIRST_PAGE, oracle(1), since, map[], ZERO_TIME).cursor;
    PageClean(lagging, FIRST_PAGE + 1, oracle(2), since, c.seen, c.previous);
    LaggingPages(rows, behind, index);
    PageWithin(rows, FIRST_PAGE, oracle(1), since, map[], ZERO_TIME, index);
    PageWithin(lagging, FIRST_PAGE + 1, oracle(2), since, c.seen, c.previous, index);
  }

  lemma LaggingIsClean(rows: seq<Row>, behind: nat, since: Time)
    requires behind <= |rows| && Descending(rows) && Clean(rows, since) && !OlderBefore(rows, since, |rows|)
    ensures var lagging := rows[behind..];
      Descending(lagging) && Clean(lagging, since) && forall n :: !OlderBefore(lagging, since, n)
    ensures forall n :: !OlderBefore(rows, since, n)
  {
    var lagging := rows[behind..];
    forall i | 0 <= i < |lagging| ensures lagging[i] == rows[i + behind] && lagging[i] in rows {
    }
  }

  lemma LaggingPages(rows: seq<Row>, behind: nat, index: Events)
    requires 0 < behind && PAGE_LIMIT + behind <= |rows| < 2 * PAGE_LIMIT + behind
    requires Indexed(rows[..PAGE_LIMIT] + rows[PAGE_LIMIT + behind..], index)
    ensures Indexed(PageOf(rows, 1), index) && Indexed(PageOf(rows[behind..], 2), index)
  {
    var read := rows[..PAGE_LIMIT] + rows[PAGE_LIMIT + behind..];
    assert PageOf(rows, 1) == rows[..PAGE_LIMIT];
    assert PageOf(rows[behind..], 2) == rows[PAGE_LIMIT + behind..];
    IndexedPart(PageOf(rows, 1), read, index);
    IndexedPart(PageOf(rows[behind..], 2), read, index);
  }

  lemma {:induction false} LastRowRead(
      page: nat, txs: seq<seq<Message>>, results: seq<TxResult>, i: nat, since: Time, c: Cursor)
    requires |txs| == |results| && i < |results|
    ensures
      var out := ReadRows(page, txs, results, i, since, c);
      out.Ok? ==> results[|results| - 1].timestamp == Some(out.value.previous)
    decreases |results| - i
  {
    if results[i].timestamp.Some? && i + 1 < |results| {
      var t := results[i].timestamp.value;
      LastRowRead(page, txs, results, i + 1, since, Cursor(c.seen, t, true));
      LastRowRead(page, txs, results, i + 1, since, c.(previous := t));
      var read := ReadMessages(page, i, results[i], t, txs[i], 0, c.seen);
      if read.Ok? {
        LastRowRead(page, txs, results, i + 1, since, Cursor(read.value, t, c.reachedCutoff));
      }
    }
  }

  // ----- exactly which pages are refused

  /** The time that row `n` must not exceed: that of the row before it. */
  ghost function TimeBefore(rows: seq<Row>, i: nat, previous: Time, n: nat): Time
    requires i <= n <= |rows|
  {
    if n == i then previous
    else if rows[n - 1].result.timestamp.Some? then rows[n - 1].result.timestamp.value
    else ZERO_TIME
  }

  /** Its time can be read and does not exceed `before`, and if it counts every redelegation in it is complete. */
  ghost predicate RowIsAccepted(row: Row, since: Time, before: Time) {
    && row.result.timestamp.Some?
    && (before == ZERO_TIME || row.result.timestamp.value <= before)
    && (row.result.timestamp.value >= since && row.result.code == 0 ==>
          forall j :: 0 <= j < |row.messages| && IsRedelegation(row.messages[j]) ==> IsEvent(row, j))
  }

  ghost predicate RowsAccepted(rows: seq<Row>, i: nat, since: Time, previous: Time)
    requires i <= |rows|
  {
    forall n: nat :: i <= n < |rows| ==> RowIsAccepted(rows[n], since, TimeBefore(rows, i, previous, n))
  }

  lemma {:induction false} MessagesRefused(page: nat, at: nat, row: Row, t: Time, j: nat, seen: Events)
    requires j <= |row.messages| && row.result.timestamp == Some(t) && row.result.code == 0
    ensures ReadMessages(page, at, row.result, t, row.messages, j, seen).Ok? <==>
      forall m :: j <= m < |row.messages| && IsRedelegation(row.messages[m]) ==> IsEvent(row, m)
    decreases |row.messages| - j
  {
    if j == |row.messages| {
    } else if !Qualifies(row.messages[j]) {
      MessagesRefused(page, at, row, t, j + 1, seen);
    } else if IsEvent(row, j) {
      var e := EventOf(row.result, t, j, row.messages[j]);
      MessagesRefused(page, at, row, t, j + 1, seen[KeyOf(e) := e]);
    }
  }

  lemma AcceptedSplits(rows: seq<Row>, i: nat, since: Time, previous: Time)
    requires i < |rows| && rows[i].result.timestamp.Some?
    ensures RowsAccepted(rows, i, since, previous) <==>
      RowIsAccepted(rows[i], since, previous) && RowsAccepted(rows, i + 1, since, rows[i].result.timestamp.value)
  {
    var t := rows[i].result.timestamp.value;
    forall n: nat | i < n < |rows| ensures TimeBefore(rows, i, previous, n) == TimeBefore(rows, i + 1, t, n) {
    }
    assert TimeBefore(rows, i, previous, i) == previous;
    if RowsAccepted(rows, i, since, previous) {
      forall n: nat | i + 1 <= n < |rows| ensures RowIsAccepted(rows[n], since, TimeBefore(rows, i + 1, t, n)) {
        assert RowIsAccepted(rows[n], since, TimeBefore(rows, i, previous, n));
      }
    }
    if RowIsAccepted(rows[i], since, previous) && RowsAccepted(rows, i + 1, since, t) {
      forall n: nat | i <= n < |rows| ensures RowIsAccepted(rows[n], since, TimeBefore(rows, i, previous, n)) {
        assert n > i ==> RowIsAccepted(rows[n], since, TimeBefore(rows, i + 1, t, n));
      }
    }
  }

  lemma {:induction false} RowsRefused(
      page: nat, rows: seq<Row>, txs: seq<seq<Message>>, results: seq<TxResult>, i: nat, since: Time, c: Cursor)
    requires |txs| == |results| == |rows| && i <= |rows|
    requires forall n :: 0 <= n < |rows| ==> rows[n] == Row(txs[n], results[n])
    ensures ReadRows(page, txs, results, i, since, c).Ok? <==> RowsAccepted(rows, i, since, c.previous)
    decreases |rows| - i
  {
    if i == |rows| {
    } else if rows[i].result.timestamp.None? {
      assert RowsAccepted(rows, i, since, c.previous) ==>
        RowIsAccepted(rows[i], since, TimeBefore(rows, i, c.previous, i));
    } else {
      var t := rows[i].result.timestamp.value;
      AcceptedSplits(rows, i, since, c.previous);
      if t < since {
        RowsRefused(page, rows, txs, results, i + 1, since, Cursor(c.seen, t, true));
      } else if results[i].code != 0 {
        RowsRefused(page, rows, txs, results, i + 1, since, c.(previous := t));
      } else {
        MessagesRefused(page, i, rows[i], t, 0, c.seen);
        var read := ReadMessages(page, i, results[i], t, txs[i], 0, c.seen);
        if read.Ok? {
          RowsRefused(page, rows, txs, results, i + 1, since, Cursor(read.value, t, c.reachedCutoff));
        }
      }
    }
  }

  lemma {:induction false} CutoffIsOlder(
      page: nat, rows: seq<Row>, txs: seq<seq<Message>>, results: seq<TxResult>, i: nat, since: Time, c: Cursor)
    requires |txs| == |results| == |rows| && i <= |rows|
    requires forall n :: 0 <= n < |rows| ==> rows[n] == Row(txs[n], results[n])
    ensures var out := ReadRows(page, txs, results, i, since, c);
      out.Ok? ==>
        (out.value.reachedCutoff <==> c.reachedCutoff || exists n :: i <= n < |rows| && IsOlder(rows[n], since))
    decreases |rows| - i
  {
    if i == |rows| {
    } else if results[i].timestamp.Some? {
      var t := results[i].timestamp.value;
      assert IsOlder(rows[i], since) <==> t < since;
      if t < since {
        CutoffIsOlder(page, rows, txs, results, i + 1, since, Cursor(c.seen, t, true));
      } else if results[i].code != 0 {
        CutoffIsOlder(page, rows, txs, results, i + 1, since, c.(previous := t));
      } else {
        var read := ReadMessages(page, i, results[i], t, txs[i], 0, c.seen);
        if read.Ok? {
          CutoffIsOlder(page, rows, txs, results, i + 1, since, Cursor(read.value, t, c.reachedCutoff));
        }
      }
    }
  }

  ghost function RowsOf(reply: Reply): seq<Row>
    requires reply.Page? && |reply.txs| == |reply.results|
  {
    seq(|reply.txs|, i requires 0 <= i < |reply.txs| => Row(reply.txs[i], reply.results[i]))
  }

  /** The page promises more rows than it and those before it hold, and nothing on it explains where it stops. */
  ghost predicate StopsShort(page: nat, reply: Reply, since: Time)
    requires 1 <= page && reply.Page? && |reply.txs| == |reply.results|
  {
    && |reply.results| < PAGE_LIMIT && reply.total.Reported?
    && reply.total.n > (page - 1) * PAGE_LIMIT + |reply.results|
    && !HasOlder(RowsOf(reply), since)
  }

  ghost predicate PageIsAccepted(page: nat, reply: Reply, since: Time, previous: Time)
    requires 1 <= page
  {
    && reply.Page? && |reply.txs| == |reply.results|
    && reply.total != Malformed && (reply.total.Reported? ==> reply.total.n >= 0)
    && RowsAccepted(RowsOf(reply), 0, since, previous)
    && !StopsShort(page, reply, since)
  }

  /**
   A page ends the scan with an error exactly if it is missing or malformed, breaks the descending order, holds an
   incomplete redelegation inside the window, or stops short of its own total.
   */
  lemma PageIsRefused(page: nat, reply: Reply, since: Time, seen: Events, previous: Time)
    requires 1 <= page
    ensures var step := PageStep(page, reply, since, seen, previous);
      step.Done? && step.result.Err? <==> !PageIsAccepted(page, reply, since, previous)
  {
    if reply.Page? && |reply.txs| == |reply.results| {
      var rows := RowsOf(reply);
      RowsRefused(page, rows, reply.txs, reply.results, 0, since, Cursor(seen, previous, false));
      CutoffIsOlder(page, rows, reply.txs, reply.results, 0, since, Cursor(seen, previous, false));
    }
  }
}
