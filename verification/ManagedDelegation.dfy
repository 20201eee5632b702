/**
 The managed-delegation scan (collector/managed_delegation.go): positions held by configured accounts, grouped
 by validator, with the part that incoming redelegations lock and the times it unlocks.
 */
module ManagedDelegation {
  import opened Basics
  import opened Sums
  import Slashing

  datatype Account = Account(name: string, address: string)
  datatype Delegation = Delegation(operatorAddress: string, amount: Amount)
  datatype Redelegation = Redelegation(delegatorAddress: string, destinationOperator: string, completionTime: Time)

  /** A delegator and a validator, the key of a position and of a lock. */
  datatype Pair = Pair(delegatorAddress: string, operatorAddress: string)

  datatype Position = Position(accountName: string, pair: Pair, amount: Amount)

  /** What the two per-account queries give. */
  datatype AccountReply = AccountReply(delegations: Option<seq<Delegation>>, redelegations: Option<seq<Redelegation>>)

  // ----- positions

  /** The loop `byOperator[delegation.OperatorAddress] += delegation.AmountUAtom`. */
  function ByOperator(delegations: seq<Delegation>): map<string, Amount> {
    if delegations == [] then map[]
    else
      var n := |delegations| - 1;
      Plus(ByOperator(delegations[..n]), delegations[n].operatorAddress, delegations[n].amount)
  }

  /** What goes to one validator. */
  ghost function DelegatedTo(delegations: seq<Delegation>, op: string): Amount {
    if delegations == [] then 0.0
    else
      var last := delegations[|delegations| - 1];
      DelegatedTo(delegations[..|delegations| - 1], op) + if last.operatorAddress == op then last.amount else 0.0
  }

  ghost predicate DelegatesTo(delegations: seq<Delegation>, op: string) {
    exists i :: 0 <= i < |delegations| && delegations[i].operatorAddress == op
  }

  /** Merging gives every validator that occurs what goes to it. */
  lemma {:induction false} MergedByOperator(delegations: seq<Delegation>, op: string)
    ensures op in ByOperator(delegations) <==> DelegatesTo(delegations, op)
    ensures op in ByOperator(delegations) ==> ByOperator(delegations)[op] == DelegatedTo(delegations, op)
    ensures op !in ByOperator(delegations) ==> DelegatedTo(delegations, op) == 0.0
  {
    if delegations == [] {
    } else {
      var n := |delegations| - 1;
      MergedByOperator(delegations[..n], op);
      if i :| 0 <= i < n && delegations[..n][i].operatorAddress == op {
        assert delegations[i].operatorAddress == op;
      }
      if i :| 0 <= i < |delegations| && delegations[i].operatorAddress == op {
        assert i < n ==> delegations[..n][i] == delegations[i];
      }
    }
  }

  ghost function Total(delegations: seq<Delegation>): Amount {
    if delegations == [] then 0.0
    else Total(delegations[..|delegations| - 1]) + delegations[|delegations| - 1].amount
  }

  /** Merging an account's delegations by validator loses nothing. */
  lemma {:induction false} MergingConserves(delegations: seq<Delegation>)
    ensures Sum(ByOperator(delegations)) == Total(delegations)
  {
    if delegations == [] {
    } else {
      var n := |delegations| - 1;
      MergingConserves(delegations[..n]);
      SumPlus(ByOperator(delegations[..n]), delegations[n].operatorAddress, delegations[n].amount);
    }
  }

  function PairOfPosition(p: Position): Pair {
    p.pair
  }

  function AmountOf(p: Position): Amount {
    p.amount
  }

  /** The amount of every position. */
  ghost function Held(positions: seq<Position>): map<Pair, Amount> {
    Tabulate(positions, PairOfPosition, AmountOf)
  }

  /** No position comes up twice, so the list and its map agree. */
  ghost predicate DistinctPairs(positions: seq<Position>) {
    forall i :: 0 <= i < |positions| ==> IsFresh(positions, i)
  }

  ghost predicate IsFresh(positions: seq<Position>, i: nat)
    requires i < |positions|
  {
    positions[i].pair !in Held(positions[..i])
  }

  lemma {:induction false} HeldKeys(positions: seq<Position>, pair: Pair)
    ensures pair in Held(positions) <==> exists i :: 0 <= i < |positions| && positions[i].pair == pair
  {
    if positions == [] {
    } else {
      var n := |positions| - 1;
      HeldKeys(positions[..n], pair);
      if pair in Held(positions[..n]) {
        var i :| 0 <= i < n && positions[..n][i].pair == pair;
        assert positions[i].pair == pair;
      }
      if i :| 0 <= i < |positions| && positions[i].pair == pair {
        assert i < n ==> positions[..n][i] == positions[i];
      }
    }
  }

  lemma AppendPosition(positions: seq<Position>, p: Position)
    requires DistinctPairs(positions) && p.pair !in Held(positions)
    ensures DistinctPairs(positions + [p]) && Held(positions + [p]) == Held(positions)[p.pair := p.amount]
    ensures Sum(Held(positions + [p])) == Sum(Held(positions)) + p.amount
  {
    assert (positions + [p])[..|positions|] == positions;
    SumInsert(Held(positions), p.pair, p.amount);
    forall i | 0 <= i < |positions| ensures IsFresh(positions + [p], i) {
      assert IsFresh(positions, i);
      assert (positions + [p])[..i] == positions[..i];
    }
  }

  lemma WithoutLast(positions: seq<Position>)
    requires positions != [] && DistinctPairs(positions)
    ensures var n := |positions| - 1; DistinctPairs(positions[..n]) && positions[n].pair !in Held(positions[..n])
  {
    var n := |positions| - 1;
    assert IsFresh(positions, n);
    forall i | 0 <= i < n ensures IsFresh(positions[..n], i) {
      assert IsFresh(positions, i);
      assert positions[..n][..i] == positions[..i];
    }
  }

  lemma Prefix(positions: seq<Position>, i: nat)
    requires i < |positions| && DistinctPairs(positions)
    ensures DistinctPairs(positions[..i + 1])
  {
    var prefix := positions[..i + 1];
    forall j | 0 <= j <= i ensures IsFresh(prefix, j) {
      assert IsFresh(positions, j);
      assert prefix[..j] == positions[..j];
    }
  }

  /** `m` holds `byOperator` for this address and what `before` held for every other. */
  ghost predicate JoinedAt(m: map<Pair, Amount>, before: map<Pair, Amount>, address: string,
                           byOperator: map<string, Amount>, pair: Pair) {
    if pair.delegatorAddress == address
    then
      && (pair in m <==> pair.operatorAddress in byOperator)
      && (pair in m ==> m[pair] == byOperator[pair.operatorAddress])
    else (pair in m <==> pair in before) && (pair in m ==> m[pair] == before[pair])
  }

  ghost predicate Joined(m: map<Pair, Amount>, before: map<Pair, Amount>, address: string,
                         byOperator: map<string, Amount>)
  {
    forall pair :: JoinedAt(m, before, address, byOperator, pair)
  }

  /** One more validator of the account is joined. */
  lemma JoinedGrows(m: map<Pair, Amount>, before: map<Pair, Amount>, address: string, byOperator: map<string, Amount>,
                    todo: set<string>, op: string)
    requires Joined(m, before, address, byOperator - todo) && op in todo && op in byOperator
    ensures Pair(address, op) !in m
    ensures Joined(m[Pair(address, op) := byOperator[op]], before, address, byOperator - (todo - {op}))
    ensures Sum(byOperator - (todo - {op})) == Sum(byOperator - todo) + byOperator[op]
  {
    SumInsert(byOperator - todo, op, byOperator[op]);
    assert byOperator - (todo - {op}) == (byOperator - todo)[op := byOperator[op]];
    assert JoinedAt(m, before, address, byOperator - todo, Pair(address, op));
    var n, more := m[Pair(address, op) := byOperator[op]], byOperator - (todo - {op});
    forall pair ensures JoinedAt(n, before, address, more, pair) {
      assert JoinedAt(m, before, address, byOperator - todo, pair);
      assert pair == Pair(address, op) <==> pair.delegatorAddress == address && pair.operatorAddress == op;
    }
  }

  lemma NothingJoined(before: map<Pair, Amount>, address: string, byOperator: map<string, Amount>)
    requires forall op :: Pair(address, op) !in before
    ensures Joined(before, before, address, byOperator - byOperator.Keys)
    ensures byOperator - {} == byOperator && Sum(byOperator - byOperator.Keys) == 0.0
  {
    assert byOperator - byOperator.Keys == map[];
    forall pair ensures JoinedAt(before, before, address, byOperator - byOperator.Keys, pair) {
      assert pair == Pair(pair.delegatorAddress, pair.operatorAddress);
    }
  }

  ghost predicate OwnedFrom(positions: seq<Position>, start: nat, account: Account) {
    forall i :: start <= i < |positions| ==> Owns(account, positions[i])
  }

  ghost predicate Owns(account: Account, p: Position) {
    p.accountName == account.name && p.pair.delegatorAddress == account.address
  }

  method MergeDelegations(delegations: seq<Delegation>) returns (byOperator: map<string, Amount>)
    ensures byOperator == ByOperator(delegations)
  {
    byOperator := map[];
    for i := 0 to |delegations|
      invariant byOperator == ByOperator(delegations[..i])
    {
      assert delegations[..i + 1][..i] == delegations[..i];
      byOperator := Plus(byOperator, delegations[i].operatorAddress, delegations[i].amount);
    }
    assert delegations[..|delegations|] == delegations;
  }

  ghost predicate NothingHeld(positions: seq<Position>, address: string) {
    forall op :: Pair(address, op) !in Held(positions)
  }

  /** Appends one position for every validator the account delegates to, in whatever order the map gives them. */
  method AppendPositions(account: Account, delegations: seq<Delegation>, before: seq<Position>, soFar: Amount)
    returns (positions: seq<Position>, total: Amount)
    requires DistinctPairs(before) && soFar == Sum(Held(before)) && NothingHeld(before, account.address)
    ensures DistinctPairs(positions) && total == Sum(Held(positions)) == soFar + Total(delegations)
    ensures before <= positions && OwnedFrom(positions, |before|, account)
    ensures Joined(Held(positions), Held(before), account.address, ByOperator(delegations))
  {
    positions, total := before, soFar;
    var byOperator := MergeDelegations(delegations);
    var todo := byOperator.Keys;
    NothingJoined(Held(before), account.address, byOperator);
    while todo != {}
      invariant todo <= byOperator.Keys
      invariant before <= positions && OwnedFrom(positions, |before|, account)
      invariant DistinctPairs(positions) && total == Sum(Held(positions)) == soFar + Sum(byOperator - todo)
      invariant Joined(Held(positions), Held(before), account.address, byOperator - todo)
      decreases |todo|
    {
      var op :| op in todo;
      var p := Position(account.name, Pair(account.address, op), byOperator[op]);
      JoinedGrows(Held(positions), Held(before), account.address, byOperator, todo, op);
      AppendPosition(positions, p);
      positions := positions + [p];
      total := total + byOperator[op];
      todo := todo - {op};
    }
    MergingConserves(delegations);
  }

  // ----- locks

  function PairOf(entry: Redelegation): Pair {
    Pair(entry.delegatorAddress, entry.destinationOperator)
  }

  /** The entry moved the delegator's stake to this validator. */
  ghost predicate Locks(e: Redelegation, pair: Pair) {
    e.delegatorAddress == pair.delegatorAddress && e.destinationOperator == pair.operatorAddress
  }

  /** A pair has a time exactly if an entry came back for it, and it is the latest completion of these entries. */
  ghost predicate IsLatest(finals: map<Pair, Time>, entries: seq<Redelegation>) {
    && (forall e, pair :: e in entries && Locks(e, pair) ==> pair in finals && e.completionTime <= finals[pair])
    && (forall pair :: pair in finals ==>
      exists e :: e in entries && Locks(e, pair) && e.completionTime == finals[pair])
  }

  lemma LatestIsUnique(f: map<Pair, Time>, g: map<Pair, Time>, entries: seq<Redelegation>)
    requires IsLatest(f, entries) && IsLatest(g, entries)
    ensures f == g
  {
    forall pair | pair in f ensures pair in g && f[pair] <= g[pair] {
      var e :| e in entries && Locks(e, pair) && e.completionTime == f[pair];
    }
    forall pair | pair in g ensures pair in f && g[pair] <= f[pair] {
      var e :| e in entries && Locks(e, pair) && e.completionTime == g[pair];
    }
  }

  /** The loop that keeps the latest completion of every pair. */
  function LatestOf(entries: seq<Redelegation>): map<Pair, Time> {
    if entries == [] then map[]
    else
      var n := |entries| - 1;
      WithEntry(LatestOf(entries[..n]), entries[n])
  }

  function WithEntry(finals: map<Pair, Time>, e: Redelegation): map<Pair, Time> {
    if PairOf(e) !in finals || e.completionTime > finals[PairOf(e)] then finals[PairOf(e) := e.completionTime]
    else finals
  }

  lemma {:induction false} LatestOfIs(entries: seq<Redelegation>)
    ensures IsLatest(LatestOf(entries), entries)
  {
    if entries == [] {
    } else {
      var n := |entries| - 1;
      LatestOfIs(entries[..n]);
      LatestGrows(LatestOf(entries[..n]), entries[..n], entries[n]);
      assert entries == entries[..n] + [entries[n]];
    }
  }

  lemma LatestGrows(finals: map<Pair, Time>, entries: seq<Redelegation>, e: Redelegation)
    requires IsLatest(finals, entries)
    ensures IsLatest(WithEntry(finals, e), entries + [e])
  {
    var all, after := entries + [e], WithEntry(finals, e);
    forall p | p in after ensures exists x :: x in all && Locks(x, p) && x.completionTime == after[p] {
      if p == PairOf(e) && after[p] == e.completionTime {
        assert e in all;
      } else {
        var x :| x in entries && Locks(x, p) && x.completionTime == finals[p];
        assert x in all;
      }
    }
  }

  lemma LatestNext(before: seq<Redelegation>, entries: seq<Redelegation>, i: nat)
    requires i < |entries|
    ensures LatestOf(before + entries[..i + 1]) == WithEntry(LatestOf(before + entries[..i]), entries[i])
  {
    var longer := before + entries[..i + 1];
    assert longer[..|longer| - 1] == before + entries[..i];
  }

  method AddLocks(finals: map<Pair, Time>, ghost before: seq<Redelegation>, entries: seq<Redelegation>)
    returns (after: map<Pair, Time>)
    requires finals == LatestOf(before)
    ensures after == LatestOf(before + entries)
  {
    after := finals;
    assert before + entries[..0] == before;
    for i := 0 to |entries|
      invariant after == LatestOf(before + entries[..i])
    {
      LatestNext(before, entries, i);
      var e := entries[i];
      var pair := Pair(e.delegatorAddress, e.destinationOperator);
      if pair !in after || e.completionTime > after[pair] {
        after := after[pair := e.completionTime];
      }
    }
    assert entries[..|entries|] == entries;
  }

  // ----- unlock times

  /** The loop's choice of the next unlock: zero stands for no unlock yet. */
  function NextOf(times: seq<Time>): Time {
    if times == [] then ZERO_TIME
    else
      var next, t := NextOf(times[..|times| - 1]), times[|times| - 1];
      if next == ZERO_TIME || t < next then t else next
  }

  function FinalOf(times: seq<Time>): Time {
    if times == [] then ZERO_TIME
    else
      var final, t := FinalOf(times[..|times| - 1]), times[|times| - 1];
      if t > final then t else final
  }

  ghost predicate IsLeast(times: seq<Time>, t: Time) {
    t in times && forall x :: x in times ==> t <= x
  }

  ghost predicate IsGreatest(times: seq<Time>, t: Time) {
    t in times && forall x :: x in times ==> x <= t
  }

  lemma SplitLast(times: seq<Time>)
    requires times != []
    ensures var init, last := times[..|times| - 1], times[|times| - 1];
      && last in times && (forall x :: x in init ==> x in times) && (forall x :: x in times ==> x in init || x == last)
  {
    assert times == times[..|times| - 1] + [times[|times| - 1]];
  }

  lemma {:induction false} NextIsZero(times: seq<Time>)
    requires times != [] && forall t :: t in times ==> t >= ZERO_TIME
    ensures NextOf(times) >= ZERO_TIME && (NextOf(times) == ZERO_TIME <==> times[|times| - 1] == ZERO_TIME)
  {
    SplitLast(times);
    if |times| == 1 {
    } else {
      NextIsZero(times[..|times| - 1]);
    }
  }

  lemma {:induction false} NextOfPositive(times: seq<Time>)
    requires times != [] && forall t :: t in times ==> t > ZERO_TIME
    ensures IsLeast(times, NextOf(times))
  {
    SplitLast(times);
    if |times| == 1 {
    } else {
      NextOfPositive(times[..|times| - 1]);
    }
  }

  /** The next unlock is the earliest one, unless the zero time itself comes back and is not the last one met. */
  lemma NextIsLeast(times: seq<Time>)
    requires times != [] && forall t :: t in times ==> t >= ZERO_TIME
    ensures IsLeast(times, NextOf(times)) <==> (ZERO_TIME !in times || times[|times| - 1] == ZERO_TIME)
  {
    NextIsZero(times);
    if ZERO_TIME !in times {
      NextOfPositive(times);
    }
  }

  /** The order in which the zero time comes up matters. */
  lemma ZeroTimeBreaksNext(t: Time)
    requires t > ZERO_TIME
    ensures NextOf([ZERO_TIME, t]) == t && NextOf([t, ZERO_TIME]) == ZERO_TIME
  {
    assert [ZERO_TIME, t][..1] == [ZERO_TIME] && [t, ZERO_TIME][..1] == [t];
    assert NextOf([ZERO_TIME]) == ZERO_TIME && NextOf([t]) == t;
  }

  /** The final unlock is the latest one exactly if any is at or after the zero time. */
  lemma {:induction false} FinalIsGreatest(times: seq<Time>)
    ensures IsGreatest(times, FinalOf(times)) <==> exists t :: t in times && t >= ZERO_TIME
    ensures FinalOf(times) >= ZERO_TIME && forall x :: x in times ==> x <= FinalOf(times)
    ensures FinalOf(times) > ZERO_TIME ==> FinalOf(times) in times
  {
    if times == [] {
    } else {
      SplitLast(times);
      FinalIsGreatest(times[..|times| - 1]);
    }
  }

  // ----- one validator

  ghost function OfOperator(held: map<Pair, Amount>, op: string): map<Pair, Amount> {
    map pair | pair in held && pair.operatorAddress == op :: held[pair]
  }

  ghost function Locked(held: map<Pair, Amount>, finals: map<Pair, Time>, op: string): map<Pair, Amount> {
    map pair | pair in held && pair.operatorAddress == op && pair in finals :: held[pair]
  }

  ghost function Free(held: map<Pair, Amount>, finals: map<Pair, Time>, op: string): map<Pair, Amount> {
    map pair | pair in held && pair.operatorAddress == op && pair !in finals :: held[pair]
  }

  /** Locked and redelegatable add up to the amount. */
  lemma LockedAndFree(held: map<Pair, Amount>, finals: map<Pair, Time>, op: string)
    ensures Sum(OfOperator(held, op)) == Sum(Locked(held, finals, op)) + Sum(Free(held, finals, op))
  {
    SumSplit(OfOperator(held, op), finals.Keys);
    var all := OfOperator(held, op);
    assert (map k | k in all && k in finals.Keys :: all[k]) == Locked(held, finals, op);
    assert (map k | k in all && k !in finals.Keys :: all[k]) == Free(held, finals, op);
  }

  predicate IsLocked(p: Position, finals: map<Pair, Time>, op: string) {
    p.pair.operatorAddress == op && p.pair in finals
  }

  /** The unlock times of one validator's locked positions, in list order. */
  function UnlockTimes(positions: seq<Position>, finals: map<Pair, Time>, op: string): seq<Time> {
    if positions == [] then []
    else
      var n := |positions| - 1;
      UnlockTimes(positions[..n], finals, op) +
      if IsLocked(positions[n], finals, op) then [finals[positions[n].pair]] else []
  }

  lemma {:induction false} UnlockTimesAre(positions: seq<Position>, finals: map<Pair, Time>, op: string, t: Time)
    requires DistinctPairs(positions)
    ensures t in UnlockTimes(positions, finals, op) <==>
      exists pair :: pair in Locked(Held(positions), finals, op) && finals[pair] == t
  {
    if positions == [] {
    } else {
      WithoutLast(positions);
      UnlockTimesAre(positions[..|positions| - 1], finals, op, t);
      LockedGrows(positions, finals, op);
    }
  }

  lemma LockedGrows(positions: seq<Position>, finals: map<Pair, Time>, op: string)
    requires positions != [] && DistinctPairs(positions)
    ensures var n := |positions| - 1; var p := positions[n]; var before := Locked(Held(positions[..n]), finals, op);
      && p.pair !in before
      && Locked(Held(positions), finals, op) == if IsLocked(p, finals, op) then before[p.pair := p.amount] else before
  {
    WithoutLast(positions);
  }

  /** The loop over all positions that adds up the locked ones of one validator. */
  method LockedPart(positions: seq<Position>, finals: map<Pair, Time>, op: string)
    returns (locked: Amount, next: Time, final: Time)
    requires DistinctPairs(positions)
    ensures locked == Sum(Locked(Held(positions), finals, op))
    ensures next == NextOf(UnlockTimes(positions, finals, op)) && final == FinalOf(UnlockTimes(positions, finals, op))
  {
    locked, next, final := 0.0, ZERO_TIME, ZERO_TIME;
    assert Locked(Held(positions[..0]), finals, op) == map[];
    for i := 0 to |positions|
      invariant locked == Sum(Locked(Held(positions[..i]), finals, op))
      invariant next == NextOf(UnlockTimes(positions[..i], finals, op))
      invariant final == FinalOf(UnlockTimes(positions[..i], finals, op))
    {
      var p := positions[i];
      LockStep(positions, finals, op, i);
      if p.pair.operatorAddress == op && p.pair in finals {
        locked := locked + p.amount;
        if next == ZERO_TIME || finals[p.pair] < next {
          next := finals[p.pair];
        }
        if finals[p.pair] > final {
          final := finals[p.pair];
        }
      }
    }
    assert positions[..|positions|] == positions;
  }

  lemma LockStep(positions: seq<Position>, finals: map<Pair, Time>, op: string, i: nat)
    requires i < |positions| && DistinctPairs(positions)
    ensures var before, after := positions[..i], positions[..i + 1]; var p := positions[i];
      if IsLocked(p, finals, op) then
        && Sum(Locked(Held(after), finals, op)) == Sum(Locked(Held(before), finals, op)) + p.amount
        && UnlockTimes(after, finals, op) == UnlockTimes(before, finals, op) + [finals[p.pair]]
      else
        && Sum(Locked(Held(after), finals, op)) == Sum(Locked(Held(before), finals, op))
        && UnlockTimes(after, finals, op) == UnlockTimes(before, finals, op)
  {
    var after := positions[..i + 1];
    assert after[..i] == positions[..i];
    Prefix(positions, i);
    LockedGrows(after, finals, op);
    if IsLocked(positions[i], finals, op) {
      SumInsert(Locked(Held(positions[..i]), finals, op), positions[i].pair, positions[i].amount);
    }
  }

  // ----- all validators

  /** The loop `builder.amount += position.amountUAtom`. */
  function AmountByOperator(positions: seq<Position>): map<string, Amount> {
    if positions == [] then map[]
    else
      var n := |positions| - 1;
      Plus(AmountByOperator(positions[..n]), positions[n].pair.operatorAddress, positions[n].amount)
  }

  ghost function Operators(held: map<Pair, Amount>): map<Pair, string> {
    map pair | pair in held :: pair.operatorAddress
  }

  lemma {:induction false} AmountsAreGroups(positions: seq<Position>)
    requires DistinctPairs(positions)
    ensures AmountByOperator(positions) == Groups(Held(positions), Operators(Held(positions)))
  {
    if positions == [] {
    } else {
      var n := |positions| - 1;
      var init := positions[..n];
      WithoutLast(positions);
      AmountsAreGroups(init);
      MoreOperators(Held(init), Held(positions));
      GroupsStep(Held(init), Operators(Held(positions)), positions[n].pair, positions[n].amount);
    }
  }

  lemma MoreOperators(small: map<Pair, Amount>, large: map<Pair, Amount>)
    requires small.Keys <= large.Keys
    ensures Groups(small, Operators(small)) == Groups(small, Operators(large))
  {
    assert (set k | k in small :: Operators(small)[k]) == (set k | k in small :: Operators(large)[k]);
    forall g ensures Part(small, Operators(small), g) == Part(small, Operators(large), g) {
    }
  }

  /** A validator's amount is what its positions hold; all amounts together are the total. */
  lemma AmountsConserve(positions: seq<Position>)
    requires DistinctPairs(positions)
    ensures Sum(AmountByOperator(positions)) == Sum(Held(positions))
    ensures forall op :: op in AmountByOperator(positions) <==> OfOperator(Held(positions), op) != map[]
    ensures forall op :: op in AmountByOperator(positions) ==>
      AmountByOperator(positions)[op] == Sum(OfOperator(Held(positions), op))
  {
    var held := Held(positions);
    AmountsAreGroups(positions);
    GroupsConserve(held, Operators(held));
    forall op ensures Part(held, Operators(held), op) == OfOperator(held, op) {
    }
    forall op ensures op in Groups(held, Operators(held)) <==> OfOperator(held, op) != map[] {
      HasPosition(held, op);
    }
  }

  lemma HasPosition(held: map<Pair, Amount>, op: string)
    ensures op in Groups(held, Operators(held)) <==> OfOperator(held, op) != map[]
  {
    if op in Groups(held, Operators(held)) {
      var pair :| pair in held && Operators(held)[pair] == op;
      assert pair in OfOperator(held, op);
    }
    if OfOperator(held, op) != map[] {
      var pair :| pair in OfOperator(held, op);
      assert Operators(held)[pair] == op;
    }
  }

  // ----- the queries for every account

  /** The answers one scan meets; `validator` stands for metadata, consensus address and signing record together. */
  datatype World = World(
    reply: string -> AccountReply,
    chainRead: bool,
    slashing: Option<Slashing.SlashingParams>,
    validator: string -> Option<ValidatorInfo>)

  datatype ValidatorInfo = ValidatorInfo(missedBlocks: int)

  /** The configuration refuses two accounts with one address. */
  ghost predicate DistinctAddresses(accounts: seq<Account>) {
    forall i, j :: 0 <= i < j < |accounts| ==> accounts[i].address != accounts[j].address
  }

  ghost predicate HasAddress(accounts: seq<Account>, address: string) {
    exists i :: 0 <= i < |accounts| && accounts[i].address == address
  }

  /** Both queries succeeded for the account. */
  ghost predicate Answers(w: World, address: string) {
    w.reply(address).delegations.Some? && w.reply(address).redelegations.Some?
  }

  ghost function Delegations(w: World, address: string): seq<Delegation> {
    if w.reply(address).delegations.Some? then w.reply(address).delegations.value else []
  }

  ghost function Returned(w: World, address: string): seq<Redelegation> {
    if w.reply(address).redelegations.Some? then w.reply(address).redelegations.value else []
  }

  ghost function Entries(w: World, accounts: seq<Account>): seq<Redelegation> {
    if accounts == [] then []
    else Entries(w, accounts[..|accounts| - 1]) + Returned(w, accounts[|accounts| - 1].address)
  }

  /** All delegations of all accounts. */
  ghost function DelegatedTotal(w: World, accounts: seq<Account>): Amount {
    if accounts == [] then 0.0
    else
      var n := |accounts| - 1;
      DelegatedTotal(w, accounts[..n]) + Total(Delegations(w, accounts[n].address))
  }

  /** `held` has one amount for every account and every validator it delegates to: the sum of its delegations there. */
  ghost predicate PortfolioAt(held: map<Pair, Amount>, w: World, accounts: seq<Account>, pair: Pair) {
    var delegations, op := w.reply(pair.delegatorAddress).delegations, pair.operatorAddress;
    && (pair in held <==>
          HasAddress(accounts, pair.delegatorAddress) && delegations.Some? && DelegatesTo(delegations.value, op))
    && (pair in held ==> delegations.Some? && held[pair] == DelegatedTo(delegations.value, op))
  }

  ghost predicate IsPortfolio(held: map<Pair, Amount>, w: World, accounts: seq<Account>) {
    forall pair :: PortfolioAt(held, w, accounts, pair)
  }

  lemma PortfolioGrows(m: map<Pair, Amount>, before: map<Pair, Amount>, w: World, accounts: seq<Account>, a: Account)
    requires IsPortfolio(before, w, accounts)
    requires Joined(m, before, a.address, ByOperator(Delegations(w, a.address)))
    ensures IsPortfolio(m, w, accounts + [a])
  {
    var more := accounts + [a];
    forall pair ensures PortfolioAt(m, w, more, pair) {
      assert PortfolioAt(before, w, accounts, pair);
      assert JoinedAt(m, before, a.address, ByOperator(Delegations(w, a.address)), pair);
      MergedByOperator(Delegations(w, pair.delegatorAddress), pair.operatorAddress);
      AddressGrows(accounts, a, pair.delegatorAddress);
    }
  }

  lemma AddressGrows(accounts: seq<Account>, a: Account, address: string)
    ensures HasAddress(accounts + [a], address) <==> HasAddress(accounts, address) || address == a.address
  {
    var more := accounts + [a];
    if address == a.address {
      assert more[|accounts|].address == address;
    }
    if HasAddress(accounts, address) {
      var i :| 0 <= i < |accounts| && accounts[i].address == address;
      assert more[i].address == address;
    }
  }

  lemma NothingYet(held: map<Pair, Amount>, w: World, accounts: seq<Account>, a: Account)
    requires IsPortfolio(held, w, accounts) && !HasAddress(accounts, a.address)
    ensures forall op :: Pair(a.address, op) !in held
  {
    forall op ensures Pair(a.address, op) !in held {
      assert PortfolioAt(held, w, accounts, Pair(a.address, op));
    }
  }

  /** What the account loop gathers. */
  datatype Collected = Collected(positions: seq<Position>, total: Amount, finals: map<Pair, Time>, failed: bool)

  /** Everything that the accounts' replies say, and nothing else. */
  ghost predicate IsCollected(c: Collected, w: World, accounts: seq<Account>) {
    && DistinctPairs(c.positions) && c.total == Sum(Held(c.positions)) == DelegatedTotal(w, accounts)
    && IsPortfolio(Held(c.positions), w, accounts)
    && NamesFrom(c.positions, accounts)
    && c.finals == LatestOf(Entries(w, accounts))
    && (!c.failed <==> AllAnswer(w, accounts))
  }

  const NOTHING_COLLECTED := Collected([], 0.0, map[], false)

  lemma NothingCollected(w: World, accounts: seq<Account>)
    requires accounts == []
    ensures IsCollected(NOTHING_COLLECTED, w, accounts)
  {
  }

  /** The account loop: a failed query is remembered, and the loop goes on. */
  method CollectAccounts(w: World, accounts: seq<Account>) returns (c: Collected)
    requires DistinctAddresses(accounts)
    ensures IsCollected(c, w, accounts)
  {
    c := NOTHING_COLLECTED;
    ghost var seen: seq<Account> := [];
    NothingCollected(w, seen);
    for i := 0 to |accounts|
      invariant seen == accounts[..i] && IsCollected(c, w, seen)
    {
      NewAddress(accounts, seen, i);
      c := AddAccount(c, w, seen, accounts[i]);
      seen := seen + [accounts[i]];
    }
    assert seen == accounts;
  }

  method AddAccount(c: Collected, w: World, ghost seen: seq<Account>, a: Account) returns (d: Collected)
    requires IsCollected(c, w, seen) && !HasAddress(seen, a.address)
    ensures IsCollected(d, w, seen + [a])
  {
    var positions, total, missing := AddPositions(w, seen, a, c.positions, c.total);
    var redelegations := w.reply(a.address).redelegations;
    var entries := if redelegations.Some? then redelegations.value else [];
    var finals := AddLocks(c.finals, Entries(w, seen), entries);
    AnswersGrow(w, seen, a);
    assert (seen + [a])[..|seen|] == seen;
    d := Collected(positions, total, finals, c.failed || missing || redelegations.None?);
  }

  /** Both queries succeeded for every account. */
  ghost predicate AllAnswer(w: World, accounts: seq<Account>) {
    forall a :: a in accounts ==> Answers(w, a.address)
  }

  lemma AnswersGrow(w: World, accounts: seq<Account>, a: Account)
    ensures AllAnswer(w, accounts + [a]) <==> AllAnswer(w, accounts) && Answers(w, a.address)
  {
    assert a in accounts + [a];
    forall x | x in accounts ensures x in accounts + [a] {
    }
  }

  lemma NewAddress(accounts: seq<Account>, seen: seq<Account>, i: nat)
    requires i < |accounts| && DistinctAddresses(accounts) && seen == accounts[..i]
    ensures !HasAddress(seen, accounts[i].address)
    ensures seen + [accounts[i]] == accounts[..i + 1]
  {
  }

  /** The delegations of one account. */
  method AddPositions(w: World, ghost seen: seq<Account>, a: Account, before: seq<Position>, soFar: Amount)
    returns (positions: seq<Position>, total: Amount, missing: bool)
    requires DistinctPairs(before) && soFar == Sum(Held(before)) && NamesFrom(before, seen)
    requires IsPortfolio(Held(before), w, seen) && !HasAddress(seen, a.address)
    ensures missing <==> w.reply(a.address).delegations.None?
    ensures DistinctPairs(positions) && total == Sum(Held(positions)) && NamesFrom(positions, seen + [a])
    ensures total == soFar + Total(Delegations(w, a.address))
    ensures IsPortfolio(Held(positions), w, seen + [a])
  {
    NothingYet(Held(before), w, seen, a);
    var delegations := w.reply(a.address).delegations;
    missing := delegations.None?;
    if missing {
      positions, total := before, soFar;
      var nothing := ByOperator(Delegations(w, a.address));
      NothingJoined(Held(before), a.address, nothing);
      assert nothing - nothing.Keys == nothing;
    } else {
      positions, total := AppendPositions(a, delegations.value, before, soFar);
    }
    StillNamed(before, positions, seen, a);
    PortfolioGrows(Held(positions), Held(before), w, seen, a);
  }

  ghost predicate NamesFrom(positions: seq<Position>, accounts: seq<Account>) {
    forall i :: 0 <= i < |positions| ==> IsNamed(positions[i], accounts)
  }

  ghost predicate IsNamed(p: Position, accounts: seq<Account>) {
    Account(p.accountName, p.pair.delegatorAddress) in accounts
  }

  lemma StillNamed(before: seq<Position>, positions: seq<Position>, accounts: seq<Account>, a: Account)
    requires NamesFrom(before, accounts) && before <= positions && OwnedFrom(positions, |before|, a)
    ensures NamesFrom(positions, accounts + [a])
  {
    forall i | 0 <= i < |positions| ensures IsNamed(positions[i], accounts + [a]) {
      if i < |before| {
        assert IsNamed(before[i], accounts);
      } else {
        assert Owns(a, positions[i]);
      }
    }
  }
}
