/**
 Proposal discovery: the list read newest first, the one-by-one walk it falls back to, and the probe for
 the newest ID (collector/proposal_scan.go). Times and IDs that the collector parses appear as the outcome
 of that parse.
 */
module ProposalScan {
  import opened Basics

  const PAGE_SIZE: nat := 50
  const WALK_LIMIT: nat := 250
  const PROBE_MISSES: nat := 10
  const DEFAULT_LIFESPAN: Duration := 60 * DAY
  const LIFESPAN_MARGIN: Duration := 7 * DAY
  const END_OF_YEAR_ONE: Time := 365 * DAY

  datatype Status = VotingPeriod | DepositPeriod | Final(name: string) | Blank
  datatype Tally = Tally(yes: nat, no: nat, abstain: nat, veto: nat)
  datatype Proposal = Proposal(
    id: Option<nat>,
    status: Status,
    submitTime: Option<Time>,
    depositEndTime: Option<Time>,
    votingStartTime: Option<Time>,
    votingEndTime: Option<Time>,
    finalTally: Tally)

  /** The answer to one list page, or to one proposal. */
  datatype ListReply = ListFailed | Listed(proposals: seq<Proposal>, more: bool)
  datatype ReadReply = Decoded(proposal: Proposal) | TransportError | StatusError(status: int, grpcCode: int)
  datatype ReadOutcome = Found | Missing | Unreadable | ReadFailed

  /** `pages` are the replies to successive list requests, `newest` the reply to the one-proposal request. */
  datatype Endpoint = Endpoint(pages: seq<ListReply>, newest: ListReply, read: nat -> ReadReply)

  datatype DiscoveryError = NoKnownId | ProbeError(id: nat) | TooManySteps | ReadError(id: nat)

  datatype ScanView = ScanView(
    active: seq<Proposal>,
    recentClosed: seq<Proposal>,
    seen: seq<Proposal>,
    unreadable: seq<nat>,
    highestId: nat,
    usedFallback: bool,
    lowestId: nat)

  const EMPTY_SCAN := ScanView([], [], [], [], 0, false, 0)

  function Lifespan(lifespan: Duration): Duration {
    if lifespan <= 0 then DEFAULT_LIFESPAN else lifespan
  }

  function ScanFloor(cutoff: Time, lifespan: Duration): Time {
    cutoff - (Lifespan(lifespan) + LIFESPAN_MARGIN)
  }

  /** The chain says that there is no such proposal. */
  ghost predicate SaysMissing(reply: ReadReply) {
    reply.StatusError? && reply.grpcCode == 5
  }

  /** The chain has the proposal and cannot encode it. */
  ghost predicate SaysUndecodable(reply: ReadReply) {
    reply.StatusError? && reply.status == 500 && (reply.grpcCode == 13 || reply.grpcCode == 2)
  }

  /** Nothing can be concluded about the proposal. */
  ghost predicate SaysNothing(reply: ReadReply) {
    !reply.Decoded? && !SaysMissing(reply) && !SaysUndecodable(reply)
  }

  /** Missing is the chain's NotFound; unreadable is a 500 with a gRPC Internal or Unknown body. */
  function Classify(reply: ReadReply): ReadOutcome {
    match reply
    case Decoded(_) => Found
    case TransportError => ReadFailed
    case StatusError(status, code) =>
      if code == 5 then Missing
      else if status == 500 && (code == 13 || code == 2) then Unreadable
      else ReadFailed
  }

  // ----- the earliest lifecycle time

  function Lifecycle(p: Proposal): seq<Option<Time>> {
    [p.submitTime, p.depositEndTime, p.votingStartTime, p.votingEndTime]
  }

  predicate Readable(t: Option<Time>) {
    t.Some? && t.value >= END_OF_YEAR_ONE
  }

  /** `t` is the least readable time, or there is none. */
  ghost predicate IsEarliest(times: seq<Option<Time>>, t: Option<Time>) {
    match t
    case None => forall i :: 0 <= i < |times| ==> !Readable(times[i])
    case Some(v) =>
      && Some(v) in times && Readable(t)
      && forall i :: 0 <= i < |times| && Readable(times[i]) ==> v <= times[i].value
  }

  function Earliest(times: seq<Option<Time>>): (t: Option<Time>)
    ensures IsEarliest(times, t)
  {
    if times == [] then None
    else
      var n := |times| - 1;
      var rest := Earliest(times[..n]);
      assert times == times[..n] + [times[n]];
      if Readable(times[n]) && (rest.None? || times[n].value < rest.value) then times[n] else rest
  }

  lemma LifecycleIs(p: Proposal)
    ensures var times := Lifecycle(p);
      && |times| == 4 && times[0] == p.submitTime && times[1] == p.depositEndTime
      && times[2] == p.votingStartTime && times[3] == p.votingEndTime
  {
  }

  /** Some(true) when the proposal was certainly submitted before `t`, None when no time can be read. */
  function SubmittedBeforeSpec(p: Proposal, t: Time): Option<bool> {
    match Earliest(Lifecycle(p))
    case None => None
    case Some(earliest) => Some(earliest < t)
  }

  /** It can be read, and it is not in or before year 1, which stands for a time that was never set. */
  ghost predicate IsSet(time: Option<Time>) {
    time.Some? && time.value >= 365 * 24 * 3_600_000_000_000
  }

  ghost predicate ReadsBefore(time: Option<Time>, t: Time) {
    IsSet(time) && time.value < t
  }

  ghost predicate AnyReadable(p: Proposal) {
    || IsSet(p.submitTime) || IsSet(p.depositEndTime)
    || IsSet(p.votingStartTime) || IsSet(p.votingEndTime)
  }

  ghost predicate AnyBefore(p: Proposal, t: Time) {
    || ReadsBefore(p.submitTime, t) || ReadsBefore(p.depositEndTime, t)
    || ReadsBefore(p.votingStartTime, t) || ReadsBefore(p.votingEndTime, t)
  }

  /** Some lifecycle time can be read, and `before` says whether one of those that can lies before `t`. */
  method SubmittedBefore(p: Proposal, t: Time) returns (before: bool, ok: bool)
    ensures SubmittedBeforeSpec(p, t) == if ok then Some(before) else None
    ensures ok <==> AnyReadable(p)
    ensures before <==> AnyBefore(p, t)
  {
    var times := Lifecycle(p);
    var earliest: Option<Time> := None;
    for i := 0 to |times|
      invariant earliest == Earliest(times[..i])
    {
      assert times[..i + 1][..i] == times[..i];
      if !Readable(times[i]) {
        continue;
      }
      if earliest.None? || times[i].value < earliest.value {
        earliest := times[i];
      }
    }
    assert times[..|times|] == times;
    LifecycleIs(p);
    if earliest.None? {
      return false, false;
    }
    return earliest.value < t, true;
  }

  // ----- one proposal

  predicate TooOld(p: Proposal, floor: Time) {
    SubmittedBeforeSpec(p, floor) == Some(true)
  }

  /** Only a time that is set and lies before the floor makes a proposal too old. */
  lemma TooOldMeans(p: Proposal, floor: Time)
    ensures TooOld(p, floor) <==> AnyBefore(p, floor)
  {
    LifecycleIs(p);
    var times := Lifecycle(p);
    assert IsEarliest(times, Earliest(times));
    assert forall i :: 0 <= i < 4 ==> (Readable(times[i]) <==> IsSet(times[i]));
  }

  predicate RecentlyClosed(p: Proposal, cutoff: Time) {
    p.status != VotingPeriod && p.status != DepositPeriod && p.votingEndTime.Some? && p.votingEndTime.value >= cutoff
  }

  /** The scan with one more decoded proposal; the scan is done at the first one too old to matter. */
  function AddTo(s: ScanView, p: Proposal, cutoff: Time, floor: Time): ScanView {
    s.(active := if p.status == VotingPeriod then s.active + [p] else s.active,
       recentClosed := if RecentlyClosed(p, cutoff) then s.recentClosed + [p] else s.recentClosed,
       seen := if TooOld(p, floor) then s.seen else s.seen + [p],
       highestId := if p.id.Some? && p.id.value > s.highestId then p.id.value else s.highestId,
       lowestId := if p.id.Some? && (s.lowestId == 0 || p.id.value < s.lowestId) then p.id.value else s.lowestId)
  }

  class ProposalScan {
    var active: seq<Proposal>
    var recentClosed: seq<Proposal>
    var seen: seq<Proposal>
    var unreadable: seq<nat>
    var highestId: nat
    var usedFallback: bool
    var lowestId: nat

    function View(): ScanView
      reads this
    {
      ScanView(active, recentClosed, seen, unreadable, highestId, usedFallback, lowestId)
    }

    constructor ()
      ensures View() == EMPTY_SCAN
    {
      active, recentClosed, seen, unreadable := [], [], [], [];
      highestId, usedFallback, lowestId := 0, false, 0;
    }

    method Add(p: Proposal, cutoff: Time, floor: Time) returns (done: bool)
      modifies this
      ensures View() == AddTo(old(View()), p, cutoff, floor)
      ensures done <==> TooOld(p, floor)
    {
      if p.id.Some? {
        if p.id.value > highestId {
          highestId := p.id.value;
        }
        if lowestId == 0 || p.id.value < lowestId {
          lowestId := p.id.value;
        }
      }
      match p.status {
        case VotingPeriod =>
          active := active + [p];
        case DepositPeriod =>
        case _ =>
          if p.votingEndTime.Some? && !(p.votingEndTime.value < cutoff) {
            recentClosed := recentClosed + [p];
          }
      }
      var before, ok := SubmittedBefore(p, floor);
      if ok && before {
        return true;
      }
      seen := seen + [p];
      return false;
    }
  }

  // ----- discovery as a function of the replies

  /** Adds proposals in order until the scan is done. */
  function AddAll(s: ScanView, ps: seq<Proposal>, cutoff: Time, floor: Time): (ScanView, bool)
    decreases |ps|
  {
    if ps == [] then (s, false)
    else
      var t := AddTo(s, ps[0], cutoff, floor);
      if TooOld(ps[0], floor) then (t, true) else AddAll(t, ps[1..], cutoff, floor)
  }

  /** No ID above `bound` is stored. */
  ghost predicate Finite(read: nat -> ReadReply, bound: nat) {
    forall id :: id > bound ==> SaysMissing(read(id)) || SaysNothing(read(id))
  }

  /** Probes upward from `id`; `top` is the highest stored ID known so far. */
  function Probe(read: nat -> ReadReply, id: nat, top: nat, misses: nat, ghost bound: nat): Result<nat, DiscoveryError>
    requires Finite(read, bound) && misses <= PROBE_MISSES
    decreases Max(bound + 1 - id, 0), PROBE_MISSES - misses
  {
    if misses == PROBE_MISSES then Ok(top)
    else
      match Classify(read(id))
      case Missing => Probe(read, id + 1, top, misses + 1, bound)
      case ReadFailed => Err(ProbeError(id))
      case _ => Probe(read, id + 1, id, 0, bound)
  }

  function FindNewest(e: Endpoint, known: nat, ghost bound: nat): Result<nat, DiscoveryError>
    requires Finite(e.read, bound)
  {
    if e.newest.Listed? && |e.newest.proposals| == 1 && e.newest.proposals[0].id.Some? then
      Ok(e.newest.proposals[0].id.value)
    else if known == 0 then Err(NoKnownId)
    else Probe(e.read, known + 1, known, 0, bound)
  }

  /** The scan after the reply to a single proposal, and whether that proposal ends the scan. */
  function Take(s: ScanView, id: nat, reply: ReadReply, cutoff: Time, floor: Time): ScanView {
    match Classify(reply)
    case Found => AddTo(s, reply.proposal, cutoff, floor)
    case Unreadable => s.(unreadable := s.unreadable + [id])
    case _ => s
  }

  predicate Ends(reply: ReadReply, floor: Time) {
    Classify(reply) == Found && TooOld(reply.proposal, floor)
  }

  /** Reads proposals one ID at a time, from `id` down. */
  function Walk(read: nat -> ReadReply, id: nat, steps: nat, s: ScanView, cutoff: Time, floor: Time)
    : Result<ScanView, DiscoveryError>
    decreases id
  {
    if id == 0 then Ok(s)
    else if steps >= WALK_LIMIT then Err(TooManySteps)
    else if Classify(read(id)) == ReadFailed then Err(ReadError(id))
    else
      var t := Take(s, id, read(id), cutoff, floor);
      if Ends(read(id), floor) then Ok(t) else Walk(read, id - 1, steps + 1, t, cutoff, floor)
  }

  function FallBack(e: Endpoint, s: ScanView, cutoff: Time, floor: Time, known: nat, ghost bound: nat)
    : Result<ScanView, DiscoveryError>
    requires Finite(e.read, bound)
  {
    var t := s.(usedFallback := true);
    if s.lowestId > 0 then Walk(e.read, s.lowestId - 1, 0, t, cutoff, floor)
    else
      match FindNewest(e, known, bound)
      case Err(error) => Err(error)
      case Ok(top) => Walk(e.read, top, 0, t.(highestId := Max(top, t.highestId)), cutoff, floor)
  }

  /** Reads list pages from page `k` on, and falls back when one fails or there is no reply left. */
  function ListFrom(e: Endpoint, k: nat, s: ScanView, cutoff: Time, floor: Time, known: nat, ghost bound: nat)
    : Result<ScanView, DiscoveryError>
    requires Finite(e.read, bound)
    decreases |e.pages| - k
  {
    if k >= |e.pages| || e.pages[k].ListFailed? then FallBack(e, s, cutoff, floor, known, bound)
    else
      var (t, done) := AddAll(s, e.pages[k].proposals, cutoff, floor);
      if done || !e.pages[k].more then Ok(t) else ListFrom(e, k + 1, t, cutoff, floor, known, bound)
  }

  const FIRST_LIST_PAGE: nat := 0

  function Discover(e: Endpoint, cutoff: Time, lifespan: Duration, known: nat, ghost bound: nat)
    : Result<ScanView, DiscoveryError>
    requires Finite(e.read, bound)
  {
    ListFrom(e, FIRST_LIST_PAGE, EMPTY_SCAN, cutoff, ScanFloor(cutoff, lifespan), known, bound)
  }

  // ----- discovery as the loops that compute it

  method FindNewestProposalID(e: Endpoint, known: nat, ghost bound: nat) returns (r: Result<nat, DiscoveryError>)
    requires Finite(e.read, bound)
    ensures r == FindNewest(e, known, bound)
  {
    if e.newest.Listed? && |e.newest.proposals| == 1 && e.newest.proposals[0].id.Some? {
      return Ok(e.newest.proposals[0].id.value);
    }
    if known == 0 {
      return Err(NoKnownId);
    }
    var top: nat := known;
    var misses: nat := 0;
    var id: nat := known + 1;
    while misses < PROBE_MISSES
      invariant misses <= PROBE_MISSES
      invariant FindNewest(e, known, bound) == Probe(e.read, id, top, misses, bound)
      decreases Max(bound + 1 - id, 0), PROBE_MISSES - misses
    {
      match Classify(e.read(id)) {
        case Missing =>
          misses := misses + 1;
        case ReadFailed =>
          return Err(ProbeError(id));
        case _ =>
          top := id;
          misses := 0;
      }
      id := id + 1;
    }
    return Ok(top);
  }

  method WalkProposals(scan: ProposalScan, e: Endpoint, cutoff: Time, floor: Time, known: nat, ghost bound: nat)
    returns (error: Option<DiscoveryError>)
    requires Finite(e.read, bound)
    modifies scan
    ensures match FallBack(e, old(scan.View()), cutoff, floor, known, bound)
      case Ok(v) => error == None && scan.View() == v
      case Err(x) => error == Some(x)
  {
    ghost var outcome := FallBack(e, scan.View(), cutoff, floor, known, bound);
    scan.usedFallback := true;
    var start: nat := 0;
    if scan.lowestId > 0 {
      start := scan.lowestId - 1;
    } else {
      var top := FindNewestProposalID(e, known, bound);
      if top.Err? {
        return Some(top.error);
      }
      start := top.value;
      if top.value > scan.highestId {
        scan.highestId := top.value;
      }
    }
    var steps: nat := 0;
    var id: nat := start;
    while id > 0
      invariant outcome == Walk(e.read, id, steps, scan.View(), cutoff, floor)
      decreases id
    {
      if steps >= WALK_LIMIT {
        return Some(TooManySteps);
      }
      var reply := e.read(id);
      match Classify(reply) {
        case Found =>
          var done := scan.Add(reply.proposal, cutoff, floor);
          if done {
            return None;
          }
        case Missing =>
        case Unreadable =>
          scan.unreadable := scan.unreadable + [id];
        case ReadFailed =>
          return Some(ReadError(id));
      }
      steps := steps + 1;
      id := id - 1;
    }
    return None;
  }

  method QueryRelevantProposals(e: Endpoint, cutoff: Time, lifespan: Duration, known: nat, ghost bound: nat)
    returns (scan: ProposalScan, error: Option<DiscoveryError>)
    requires Finite(e.read, bound)
    ensures fresh(scan)
    ensures match Discover(e, cutoff, lifespan, known, bound)
      case Ok(v) => error == None && scan.View() == v
      case Err(x) => error == Some(x)
  {
    var floor := ScanFloor(cutoff, lifespan);
    scan := new ProposalScan();
    var k := 0;
    while k < |e.pages| && e.pages[k].Listed?
      invariant k <= |e.pages| && fresh(scan)
      invariant Discover(e, cutoff, lifespan, known, bound) ==
        ListFrom(e, k, scan.View(), cutoff, floor, known, bound)
    {
      var page := e.pages[k].proposals;
      ghost var all := AddAll(scan.View(), page, cutoff, floor);
      for i := 0 to |page|
        invariant all == AddAll(scan.View(), page[i..], cutoff, floor)
      {
        var done := scan.Add(page[i], cutoff, floor);
        if done {
          return scan, None;
        }
      }
      if !e.pages[k].more {
        return scan, None;
      }
      k := k + 1;
    }
    error := WalkProposals(scan, e, cutoff, floor, known, bound);
  }
}
