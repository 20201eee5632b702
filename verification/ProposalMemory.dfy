/**
 The memory of decoded proposals that decides which unreadable ones are harmless
 (collector/collector.go, recordProposalScan), over whole runs of collection cycles.
 */
module ProposalMemory {
  import opened Basics
  import opened ProposalScan
  import opened ProposalDiscovery

  type Memory = map<nat, Proposal>

  /** A remembered proposal can no longer be live. */
  predicate ClosedBy(p: Proposal, now: Time) {
    match p.status
    case DepositPeriod => false
    case VotingPeriod => p.votingEndTime.Some? && p.votingEndTime.value < now
    case Final(_) => true
    case Blank => false
  }

  function Remember(memory: Memory, seen: seq<Proposal>): Memory
    decreases |seen|
  {
    if seen == [] then memory
    else
      var n := |seen| - 1;
      var rest := Remember(memory, seen[..n]);
      if seen[n].id.Some? then rest[seen[n].id.value := seen[n]] else rest
  }

  function Prune(memory: Memory, floor: Time): Memory {
    map id | id in memory && !TooOld(memory[id], floor) :: memory[id]
  }

  function PossiblyOpen(unreadable: seq<nat>, memory: Memory, now: Time): seq<nat>
    decreases |unreadable|
  {
    if unreadable == [] then []
    else
      var n := |unreadable| - 1;
      var rest := PossiblyOpen(unreadable[..n], memory, now);
      var id := unreadable[n];
      if id in memory && ClosedBy(memory[id], now) then rest else rest + [id]
  }

  /** After a scan is recorded, an ID it has seen is remembered as it was seen last. */
  lemma {:induction false} RememberSeen(memory: Memory, seen: seq<Proposal>, id: nat, i: nat)
    requires IsLastSeen(seen, id, i)
    ensures var after := Remember(memory, seen); id in after && after[id] == seen[i]
    decreases |seen|
  {
    var n := |seen| - 1;
    if i == n {
    } else {
      assert seen[n].id != Some(id);
      assert IsLastSeen(seen[..n], id, i);
      RememberSeen(memory, seen[..n], id, i);
    }
  }

  /** Every other ID is remembered as before. */
  lemma {:induction false} RememberUnseen(memory: Memory, seen: seq<Proposal>, id: nat)
    requires forall i :: 0 <= i < |seen| ==> seen[i].id != Some(id)
    ensures var after := Remember(memory, seen);
      (id in after <==> id in memory) && (id in memory ==> after[id] == memory[id])
    decreases |seen|
  {
    if seen == [] {
    } else {
      RememberUnseen(memory, seen[..|seen| - 1], id);
    }
  }

  ghost predicate IsLastSeen(seen: seq<Proposal>, id: nat, i: int) {
    0 <= i < |seen| && seen[i].id == Some(id) && forall j :: i < j < |seen| ==> seen[j].id != Some(id)
  }

  /** Exactly the proposals with a time that is set and lies before the floor are forgotten. */
  lemma PruneIs(memory: Memory, floor: Time, id: nat)
    ensures id in Prune(memory, floor) <==> id in memory && !AnyBefore(memory[id], floor)
    ensures id in Prune(memory, floor) ==> Prune(memory, floor)[id] == memory[id]
  {
    if id in memory {
      TooOldMeans(memory[id], floor);
    }
  }

  // ----- the chain over time

  /** How one proposal may change from `p` at `t` to `q` at a later or equal time `u`. */
  ghost predicate MayBecome(p: Proposal, q: Proposal) {
    && (p.status.Final? ==> q.status != VotingPeriod && q.status != DepositPeriod)
    && (p.status == VotingPeriod ==> q.status != DepositPeriod)
    && (p.status == q.status == VotingPeriod && p.votingEndTime.Some? ==>
          q.votingEndTime.Some? && q.votingEndTime.value <= p.votingEndTime.value)
  }

  /** The chain still reports the proposal as voting although its end has passed: it has not closed the vote yet. */
  predicate Overdue(p: Proposal, t: Time) {
    p.status == VotingPeriod && p.votingEndTime.Some? && p.votingEndTime.value < t
  }

  /** Final statuses stay final, voting never returns to deposit, and a voting end once seen is not extended. */
  ghost predicate Timeline(chain: Time -> Store) {
    forall t, u, id :: t <= u && id in chain(t) && id in chain(u) ==> MayBecome(chain(t)[id], chain(u)[id])
  }

  /** `p` is what the chain reported under `id` at some time up to `now`. */
  ghost predicate WasReported(chain: Time -> Store, id: nat, p: Proposal, now: Time) {
    exists t :: t <= now && id in chain(t) && chain(t)[id] == p
  }

  datatype Cycle = Cycle(scan: ScanView, floor: Time, now: Time)

  ghost predicate Observes(chain: Time -> Store, c: Cycle) {
    forall p :: p in c.scan.seen && p.id.Some? ==> WasReported(chain, p.id.value, p, c.now)
  }

  ghost predicate Run(chain: Time -> Store, cycles: seq<Cycle>) {
    && Timeline(chain)
    && (forall n :: 0 <= n < |cycles| ==> Observes(chain, cycles[n]))
    && (forall m, n :: 0 <= m < n < |cycles| ==> cycles[m].now <= cycles[n].now)
  }

  /** The memory after `n` cycles, as `RecordProposalScan` leaves it. */
  ghost function MemoryAfter(cycles: seq<Cycle>, n: nat): Memory
    requires n <= |cycles|
  {
    if n == 0 then map[]
    else Prune(Remember(MemoryAfter(cycles, n - 1), cycles[n - 1].scan.seen), cycles[n - 1].floor)
  }

  ghost predicate AllReported(chain: Time -> Store, memory: Memory, now: Time) {
    forall id :: id in memory ==> WasReported(chain, id, memory[id], now)
  }

  lemma {:induction false} RememberReported(chain: Time -> Store, memory: Memory, seen: seq<Proposal>, now: Time)
    requires AllReported(chain, memory, now)
    requires forall p :: p in seen && p.id.Some? ==> WasReported(chain, p.id.value, p, now)
    ensures AllReported(chain, Remember(memory, seen), now)
    decreases |seen|
  {
    if seen == [] {
    } else {
      RememberReported(chain, memory, seen[..|seen| - 1], now);
    }
  }

  lemma {:induction false} MemoryIsReported(chain: Time -> Store, cycles: seq<Cycle>, n: nat)
    requires 0 < n <= |cycles| && Run(chain, cycles)
    ensures AllReported(chain, MemoryAfter(cycles, n), cycles[n - 1].now)
  {
    var c := cycles[n - 1];
    var before := MemoryAfter(cycles, n - 1);
    if n > 1 {
      MemoryIsReported(chain, cycles, n - 1);
      assert cycles[n - 2].now <= c.now;
      forall id | id in before ensures WasReported(chain, id, before[id], c.now) {
        assert WasReported(chain, id, before[id], cycles[n - 2].now);
      }
    }
    assert Observes(chain, c);
    RememberReported(chain, before, c.scan.seen, c.now);
  }

  /** Its status is final, or its vote was open and has ended. */
  ghost predicate KnownClosed(p: Proposal, now: Time) {
    || p.status.Final?
    || (p.status == VotingPeriod && p.votingEndTime.Some? && p.votingEndTime.value < now)
  }

  /** Exactly the unreadable IDs that are not remembered as closed are reported as possibly open. */
  lemma {:induction false} OpenOrClosed(unreadable: seq<nat>, memory: Memory, now: Time, id: nat)
    ensures id in PossiblyOpen(unreadable, memory, now) <==>
      id in unreadable && !(id in memory && KnownClosed(memory[id], now))
    decreases |unreadable|
  {
    if unreadable == [] {
    } else {
      var n := |unreadable| - 1;
      assert unreadable == unreadable[..n] + [unreadable[n]];
      OpenOrClosed(unreadable[..n], memory, now, id);
    }
  }

  /** No vote can be cast on it any more: neither in deposit, nor in voting before its end. */
  ghost predicate IsOver(p: Proposal, now: Time) {
    p.status != DepositPeriod && (p.status == VotingPeriod ==> Overdue(p, now))
  }

  /**
   A proposal that was reported up to `at` and counts as closed at `now` is over as the chain has it at `at`; one
   remembered with a final status is not voting there at all.
   */
  lemma ClosedStaysClosed(chain: Time -> Store, id: nat, p: Proposal, at: Time, now: Time)
    requires Timeline(chain) && WasReported(chain, id, p, at) && KnownClosed(p, now) && id in chain(at)
    ensures IsOver(chain(at)[id], now)
    ensures p.status.Final? ==> chain(at)[id].status != VotingPeriod
  {
    var t :| t <= at && id in chain(t) && chain(t)[id] == p;
    assert MayBecome(chain(t)[id], chain(at)[id]);
  }

  /** Whoever saw `p` on this chain finds the proposal out of its voting period now. */
  ghost predicate LeavesVoting(chain: Time -> Store, id: nat, p: Proposal, now: Time) {
    Timeline(chain) && WasReported(chain, id, p, now) && id in chain(now) ==> chain(now)[id].status != VotingPeriod
  }

  /** A chain that has not closed the vote at its end yet: the memory counts it as closed, and it is still voting. */
  lemma EndedVoteMayStillBeVoting(id: nat, p: Proposal, now: Time)
    requires Overdue(p, now)
    ensures KnownClosed(p, now) && !LeavesVoting(_ => map[id := p], id, p, now)
  {
    var chain: Time -> Store := _ => map[id := p];
    assert id in chain(now) && chain(now)[id] == p;
  }

  /**
   Being remembered as closed means being out of the voting period, on every chain, exactly when the remembered
   status is final; a vote remembered as open whose end has passed may still be reported as voting.
   */
  lemma ClosedLeavesVotingIffFinal(id: nat, p: Proposal, now: Time)
    requires KnownClosed(p, now)
    ensures (forall chain :: LeavesVoting(chain, id, p, now)) <==> p.status.Final?
  {
    if p.status.Final? {
      forall chain: Time -> Store ensures LeavesVoting(chain, id, p, now) {
        if Timeline(chain) && WasReported(chain, id, p, now) && id in chain(now) {
          ClosedStaysClosed(chain, id, p, now, now);
        }
      }
    } else {
      EndedVoteMayStillBeVoting(id, p, now);
    }
  }

  /**
   Over every run: whenever recording a scan reports nothing possibly open, every unreadable ID is over on the
   chain: not in its deposit period, and in its voting period only past its end.
   */
  lemma MemoryIsSafe(chain: Time -> Store, cycles: seq<Cycle>, n: nat, id: nat)
    requires 0 < n <= |cycles| && Run(chain, cycles)
    requires PossiblyOpen(cycles[n - 1].scan.unreadable, MemoryAfter(cycles, n), cycles[n - 1].now) == []
    requires id in cycles[n - 1].scan.unreadable && id in chain(cycles[n - 1].now)
    ensures IsOver(chain(cycles[n - 1].now)[id], cycles[n - 1].now)
  {
    var c, memory := cycles[n - 1], MemoryAfter(cycles, n);
    OpenOrClosed(c.scan.unreadable, memory, c.now, id);
    MemoryIsReported(chain, cycles, n);
    ClosedStaysClosed(chain, id, memory[id], c.now, c.now);
  }

  /**
   Discovery and memory together: a cycle whose scan and record both succeed lists every proposal that is in its
   voting period on the chain when the scan starts, even when pages fail and old proposals cannot be decoded,
   unless a long gap hides it from the probe. What is unreadable is over when the scan is recorded.
   */
  lemma NoOpenVoteIsMissed(chain: Time -> Store, cycles: seq<Cycle>, n: nat, start: Time, facts: Chain, newest: nat,
                           e: Endpoint, cutoff: Time, lifespan: Duration, known: nat, bound: nat, id: nat)
    requires 0 < n <= |cycles| && Run(chain, cycles)
    requires facts.store == chain(start) && Lawful(facts, cutoff, lifespan)
    requires Serves(facts.store, newest, e) && Finite(e.read, bound)
    requires Discover(e, cutoff, lifespan, known, bound) == Ok(cycles[n - 1].scan)
    requires PossiblyOpen(cycles[n - 1].scan.unreadable, MemoryAfter(cycles, n), cycles[n - 1].now) == []
    requires id in facts.store && facts.store[id].status == VotingPeriod
    ensures var scan, now := cycles[n - 1].scan, cycles[n - 1].now;
      && (facts.store[id] in scan.active || id in scan.unreadable <==> !Missed(facts.store, e, known, id))
      && (id in scan.unreadable && id in chain(now) ==> IsOver(chain(now)[id], now))
  {
    DiscoveryIsExact(facts, newest, e, cutoff, lifespan, known, bound);
    assert ExactAt(cycles[n - 1].scan, facts.store, e, known, cutoff, id);
    if id in cycles[n - 1].scan.unreadable && id in chain(cycles[n - 1].now) {
      MemoryIsSafe(chain, cycles, n, id);
    }
  }
}
