/** One managed-delegation scan: a row for every validator, published only when every answer is there. */
module ManagedScanner {
  import opened Basics
  import opened Sums
  import opened ManagedDelegation

  /** What is published for one validator. */
  datatype Row = Row(
    accounts: set<string>,
    amount: Amount,
    share: Option<Fraction>,
    locked: Amount,
    redelegatable: Amount,
    nextUnlock: Time,
    finalUnlock: Time,
    blocksToJail: int)

  /** The share of the portfolio; there is none of an empty one. */
  function Share(amount: Amount, total: Amount): Option<Fraction> {
    if total > 0.0 then Some(Fraction(amount, total)) else None
  }

  // ----- what a row says

  /** No locked position: zero. Otherwise the earliest of their final unlocks. */
  ghost predicate IsNextUnlock(held: map<Pair, Amount>, finals: map<Pair, Time>, op: string, t: Time) {
    if Locked(held, finals, op) == map[] then t == ZERO_TIME
    else
      && (exists pair :: pair in Locked(held, finals, op) && finals[pair] == t)
      && forall pair :: pair in Locked(held, finals, op) ==> t <= finals[pair]
  }

  ghost predicate IsFinalUnlock(held: map<Pair, Amount>, finals: map<Pair, Time>, op: string, t: Time) {
    if Locked(held, finals, op) == map[] then t == ZERO_TIME
    else
      && (exists pair :: pair in Locked(held, finals, op) && finals[pair] == t)
      && forall pair :: pair in Locked(held, finals, op) ==> finals[pair] <= t
  }

  ghost predicate PositiveTimes(finals: map<Pair, Time>) {
    forall pair :: pair in finals ==> finals[pair] > ZERO_TIME
  }

  ghost predicate IsHolder(held: map<Pair, Amount>, accounts: seq<Account>, op: string, name: string) {
    exists a :: a in accounts && a.name == name && Pair(a.address, op) in held
  }

  ghost predicate IsRow(row: Row, op: string, held: map<Pair, Amount>, finals: map<Pair, Time>, w: World,
                        accounts: seq<Account>)
  {
    && row.amount == Sum(OfOperator(held, op))
    && (row.share.Some? <==> DelegatedTotal(w, accounts) > 0.0)
    && (row.share.Some? ==> row.share.value == Fraction(row.amount, DelegatedTotal(w, accounts)))
    && row.locked == Sum(Locked(held, finals, op))
    && row.redelegatable == Sum(Free(held, finals, op))
    && (PositiveTimes(finals) ==>
      IsNextUnlock(held, finals, op, row.nextUnlock) && IsFinalUnlock(held, finals, op, row.finalUnlock))
    && (forall name :: name in row.accounts <==> IsHolder(held, accounts, op, name))
    && w.slashing.Some? && w.validator(op).Some?
    && row.blocksToJail == Slashing.BlocksUntilJail(w.slashing.value.maxMissed, w.validator(op).value.missedBlocks)
  }

  /** The published state is exactly what the replies of this scan say. */
  ghost predicate IsPublished(rows: map<string, Row>, held: map<Pair, Amount>, w: World, accounts: seq<Account>) {
    && IsPortfolio(held, w, accounts) && Sum(held) == DelegatedTotal(w, accounts)
    && (forall op :: op in rows <==> OfOperator(held, op) != map[])
    && (forall op :: op in rows ==> IsRow(rows[op], op, held, LatestOf(Entries(w, accounts)), w, accounts))
  }

  /** Every query answered, and every validator that an account delegates to is known. */
  ghost predicate Readable(w: World, accounts: seq<Account>) {
    && AllAnswer(w, accounts) && w.chainRead && w.slashing.Some?
    && forall a, op :: a in accounts && DelegatesTo(Delegations(w, a.address), op) ==> w.validator(op).Some?
  }

  // ----- the accounts behind a validator

  function AddName(names: map<string, set<string>>, op: string, name: string): map<string, set<string>> {
    names[op := (if op in names then names[op] else {}) + {name}]
  }

  /** The loop `builder.accounts[position.accountName] = true`. */
  function NamesByOperator(positions: seq<Position>): map<string, set<string>> {
    if positions == [] then map[]
    else
      var n := |positions| - 1;
      AddName(NamesByOperator(positions[..n]), positions[n].pair.operatorAddress, positions[n].accountName)
  }

  lemma {:induction false} SameOperators(positions: seq<Position>)
    ensures NamesByOperator(positions).Keys == AmountByOperator(positions).Keys
  {
    if positions == [] {
    } else {
      SameOperators(positions[..|positions| - 1]);
    }
  }

  ghost predicate Contributes(positions: seq<Position>, op: string, name: string) {
    exists p :: p in positions && p.pair.operatorAddress == op && p.accountName == name
  }

  lemma {:induction false} NamesAre(positions: seq<Position>, op: string, name: string)
    ensures (op in NamesByOperator(positions) && name in NamesByOperator(positions)[op]) <==>
      Contributes(positions, op, name)
  {
    if positions == [] {
    } else {
      var n := |positions| - 1;
      NamesAre(positions[..n], op, name);
      assert positions == positions[..n] + [positions[n]];
    }
  }

  lemma NamesAreHolders(positions: seq<Position>, accounts: seq<Account>, op: string, name: string)
    requires NamesFrom(positions, accounts) && DistinctAddresses(accounts)
    ensures Contributes(positions, op, name) <==> IsHolder(Held(positions), accounts, op, name)
  {
    if Contributes(positions, op, name) {
      var i :| 0 <= i < |positions| && positions[i].pair.operatorAddress == op && positions[i].accountName == name;
      assert IsNamed(positions[i], accounts);
      HeldKeys(positions, positions[i].pair);
    }
    if IsHolder(Held(positions), accounts, op, name) {
      var a :| a in accounts && a.name == name && Pair(a.address, op) in Held(positions);
      HeldKeys(positions, Pair(a.address, op));
      var i :| 0 <= i < |positions| && positions[i].pair == Pair(a.address, op);
      assert IsNamed(positions[i], accounts);
      OneName(accounts, a, Account(positions[i].accountName, a.address));
      assert positions[i] in positions;
    }
  }

  lemma OneName(accounts: seq<Account>, a: Account, b: Account)
    requires DistinctAddresses(accounts) && a in accounts && b in accounts && a.address == b.address
    ensures a == b
  {
  }

  // ----- the loops

  method Build(positions: seq<Position>) returns (amounts: map<string, Amount>, names: map<string, set<string>>)
    ensures amounts == AmountByOperator(positions) && names == NamesByOperator(positions)
    ensures amounts.Keys == names.Keys
  {
    amounts, names := map[], map[];
    for i := 0 to |positions|
      invariant amounts == AmountByOperator(positions[..i]) && names == NamesByOperator(positions[..i])
    {
      var p := positions[i];
      assert positions[..i + 1][..i] == positions[..i];
      amounts := Plus(amounts, p.pair.operatorAddress, p.amount);
      names := AddName(names, p.pair.operatorAddress, p.accountName);
    }
    assert positions[..|positions|] == positions;
    SameOperators(positions);
  }

  /** The row of one validator as the loop computes it. */
  ghost predicate IsComputed(row: Row, c: Collected, w: World, op: string) {
    && op in AmountByOperator(c.positions) && op in NamesByOperator(c.positions)
    && row.accounts == NamesByOperator(c.positions)[op]
    && row.amount == AmountByOperator(c.positions)[op] && row.share == Share(row.amount, c.total)
    && row.locked == Sum(Locked(Held(c.positions), c.finals, op))
    && row.redelegatable == (if row.amount > row.locked then row.amount - row.locked else 0.0)
    && row.nextUnlock == NextOf(UnlockTimes(c.positions, c.finals, op))
    && row.finalUnlock == FinalOf(UnlockTimes(c.positions, c.finals, op))
    && w.slashing.Some? && w.validator(op).Some?
    && row.blocksToJail == Slashing.BlocksUntilJail(w.slashing.value.maxMissed, w.validator(op).value.missedBlocks)
  }

  ghost predicate IsDone(done: map<string, Row>, c: Collected, w: World, todo: set<string>, op: string) {
    && (op in done <==> op in AmountByOperator(c.positions) && op !in todo)
    && (op in done ==> IsComputed(done[op], c, w, op))
  }

  lemma RowDone(done: map<string, Row>, c: Collected, w: World, todo: set<string>, op: string, row: Row)
    requires forall x :: IsDone(done, c, w, todo, x)
    requires op in todo && IsComputed(row, c, w, op)
    ensures var more, rest := done[op := row], todo - {op}; forall x :: IsDone(more, c, w, rest, x)
  {
    var more, rest := done[op := row], todo - {op};
    forall x ensures IsDone(more, c, w, rest, x) {
      assert IsDone(done, c, w, todo, x);
    }
  }

  lemma AllDone(done: map<string, Row>, c: Collected, w: World)
    requires forall x :: IsDone(done, c, w, {}, x)
    ensures forall op :: op in done <==> op in AmountByOperator(c.positions)
    ensures forall op :: op in done ==> IsComputed(done[op], c, w, op)
  {
    forall op ensures op in done <==> op in AmountByOperator(c.positions) {
      assert IsDone(done, c, w, {}, op);
    }
    forall op | op in done ensures IsComputed(done[op], c, w, op) {
      assert IsDone(done, c, w, {}, op);
    }
  }

  /** The loop over the validators; one that the chain does not describe fails the scan. */
  method Aggregate(c: Collected, w: World) returns (rows: Option<map<string, Row>>)
    requires DistinctPairs(c.positions) && w.slashing.Some?
    ensures rows.Some? <==> forall op :: op in AmountByOperator(c.positions) ==> w.validator(op).Some?
    ensures rows.Some? ==> forall op :: op in rows.value <==> op in AmountByOperator(c.positions)
    ensures rows.Some? ==> forall op :: op in rows.value ==> IsComputed(rows.value[op], c, w, op)
  {
    var amounts, names := Build(c.positions);
    var todo := amounts.Keys;
    var done: map<string, Row> := map[];
    while todo != {}
      invariant todo <= amounts.Keys
      invariant forall op :: IsDone(done, c, w, todo, op)
      decreases |todo|
    {
      var op :| op in todo;
      var info := w.validator(op);
      if info.None? {
        return None;
      }
      var row := ComputeRow(c, w, op, amounts[op], names[op]);
      RowDone(done, c, w, todo, op, row);
      done := done[op := row];
      todo := todo - {op};
    }
    AllDone(done, c, w);
    return Some(done);
  }

  method ComputeRow(c: Collected, w: World, op: string, amount: Amount, names: set<string>) returns (row: Row)
    requires DistinctPairs(c.positions) && w.slashing.Some? && w.validator(op).Some?
    requires op in AmountByOperator(c.positions) && amount == AmountByOperator(c.positions)[op]
    requires op in NamesByOperator(c.positions) && names == NamesByOperator(c.positions)[op]
    ensures IsComputed(row, c, w, op)
  {
    var locked, next, final := LockedPart(c.positions, c.finals, op);
    var redelegatable: Amount := if amount > locked then amount - locked else 0.0;
    var blocks := Slashing.BlocksUntilJail(w.slashing.value.maxMissed, w.validator(op).value.missedBlocks);
    row := Row(names, amount, Share(amount, c.total), locked, redelegatable, next, final, blocks);
  }

  // ----- from the loop to the meaning

  lemma LockedTimes(positions: seq<Position>, finals: map<Pair, Time>, op: string)
    requires DistinctPairs(positions) && PositiveTimes(finals)
    ensures IsNextUnlock(Held(positions), finals, op, NextOf(UnlockTimes(positions, finals, op)))
    ensures IsFinalUnlock(Held(positions), finals, op, FinalOf(UnlockTimes(positions, finals, op)))
  {
    var times, locked := UnlockTimes(positions, finals, op), Locked(Held(positions), finals, op);
    forall t ensures t in times <==> exists pair :: pair in locked && finals[pair] == t {
      UnlockTimesAre(positions, finals, op, t);
    }
    if times == [] {
      forall pair ensures pair !in locked {
        if pair in locked {
          UnlockTimesAre(positions, finals, op, finals[pair]);
        }
      }
    } else {
      assert times[0] in times;
      NextOfPositive(times);
      FinalIsGreatest(times);
      forall pair | pair in locked ensures finals[pair] in times {
      }
    }
  }

  lemma RowMeans(row: Row, c: Collected, w: World, accounts: seq<Account>, op: string)
    requires IsCollected(c, w, accounts) && DistinctAddresses(accounts) && IsComputed(row, c, w, op)
    ensures IsRow(row, op, Held(c.positions), c.finals, w, accounts)
  {
    AmountsConserve(c.positions);
    LockedAndFree(Held(c.positions), c.finals, op);
    if PositiveTimes(c.finals) {
      LockedTimes(c.positions, c.finals, op);
    }
    forall name ensures name in row.accounts <==> IsHolder(Held(c.positions), accounts, op, name) {
      NamesAre(c.positions, op, name);
      NamesAreHolders(c.positions, accounts, op, name);
    }
  }

  lemma KnownValidators(c: Collected, w: World, accounts: seq<Account>)
    requires IsCollected(c, w, accounts)
    ensures (forall op :: op in AmountByOperator(c.positions) ==> w.validator(op).Some?) <==>
      forall a, op :: a in accounts && DelegatesTo(Delegations(w, a.address), op) ==> w.validator(op).Some?
  {
    AmountsConserve(c.positions);
    forall a, op | a in accounts && DelegatesTo(Delegations(w, a.address), op)
      ensures op in AmountByOperator(c.positions)
    {
      assert PortfolioAt(Held(c.positions), w, accounts, Pair(a.address, op));
      assert Pair(a.address, op) in OfOperator(Held(c.positions), op);
    }
    forall op | op in AmountByOperator(c.positions)
      ensures exists a :: a in accounts && DelegatesTo(Delegations(w, a.address), op)
    {
      var pair :| pair in OfOperator(Held(c.positions), op);
      assert PortfolioAt(Held(c.positions), w, accounts, pair);
    }
  }

  class ManagedScanner {
    const accounts: seq<Account>

    var rows: map<string, Row>
    var accountATOM: map<Pair, Amount>
    var success: bool
    var lastSuccess: Time

    constructor (accounts: seq<Account>)
      ensures this.accounts == accounts && rows == map[] && accountATOM == map[] && !success && lastSuccess == ZERO_TIME
    {
      this.accounts := accounts;
      rows, accountATOM, success, lastSuccess := map[], map[], false, ZERO_TIME;
    }

    /** A scan publishes everything or, if any answer is missing, nothing but its own failure. */
    method Scan(w: World, now: Time) returns (failed: bool)
      requires DistinctAddresses(accounts)
      modifies this
      ensures !failed <==> Readable(w, accounts)
      ensures failed ==> unchanged(`rows, `accountATOM, `lastSuccess) && !success
      ensures !failed ==> IsPublished(rows, accountATOM, w, accounts) && success && lastSuccess == now
    {
      var c := CollectAccounts(w, accounts);
      KnownValidators(c, w, accounts);
      if c.failed || !w.chainRead || w.slashing.None? {
        success := false;
        return true;
      }
      var computed := Aggregate(c, w);
      if computed.None? {
        success := false;
        return true;
      }
      AmountsConserve(c.positions);
      forall op | op in computed.value ensures IsRow(computed.value[op], op, Held(c.positions), c.finals, w, accounts) {
        RowMeans(computed.value[op], c, w, accounts, op);
      }
      Publish(c.positions, computed.value, now);
      return false;
    }

    /** Resets every series and fills it from the result. */
    method Publish(positions: seq<Position>, result: map<string, Row>, now: Time)
      requires DistinctPairs(positions)
      modifies this
      ensures rows == result && accountATOM == Held(positions) && success && lastSuccess == now
    {
      accountATOM := map[];
      for i := 0 to |positions|
        invariant accountATOM == Held(positions[..i])
      {
        assert positions[..i + 1][..i] == positions[..i];
        accountATOM := accountATOM[positions[i].pair := positions[i].amount];
      }
      assert positions[..|positions|] == positions;
      rows, success, lastSuccess := result, true, now;
    }
  }

  // ----- what holds of every published state

  ghost function Amounts(rows: map<string, Row>): map<string, Amount> {
    map op | op in rows :: rows[op].amount
  }

  /** The rows' amounts sum to all delegations of all accounts, and each splits into locked and redelegatable. */
  lemma PublishedConserves(rows: map<string, Row>, held: map<Pair, Amount>, w: World, accounts: seq<Account>)
    requires IsPublished(rows, held, w, accounts)
    ensures Sum(Amounts(rows)) == DelegatedTotal(w, accounts)
    ensures forall op :: op in rows ==> rows[op].locked + rows[op].redelegatable == rows[op].amount
  {
    GroupsConserve(held, Operators(held));
    forall op ensures op in rows <==> op in Groups(held, Operators(held)) {
      HasPosition(held, op);
    }
    forall op | op in rows
      ensures rows[op].amount == Groups(held, Operators(held))[op]
      ensures rows[op].locked + rows[op].redelegatable == rows[op].amount
    {
      RowSplits(rows[op], op, held, LatestOf(Entries(w, accounts)), w, accounts);
    }
    SameAmounts(rows, Groups(held, Operators(held)));
  }

  lemma RowSplits(row: Row, op: string, held: map<Pair, Amount>, finals: map<Pair, Time>, w: World,
                  accounts: seq<Account>)
    requires IsRow(row, op, held, finals, w, accounts) && op in Groups(held, Operators(held))
    ensures row.amount == Groups(held, Operators(held))[op]
    ensures row.locked + row.redelegatable == row.amount
  {
    LockedAndFree(held, finals, op);
    assert Part(held, Operators(held), op) == OfOperator(held, op);
  }

  lemma SameAmounts(rows: map<string, Row>, amounts: map<string, Amount>)
    requires forall op :: op in rows <==> op in amounts
    requires forall op :: op in rows ==> rows[op].amount == amounts[op]
    ensures Amounts(rows) == amounts
  {
  }

  ghost predicate SameAccounts(a: seq<Account>, b: seq<Account>) {
    forall x :: x in a <==> x in b
  }

  lemma {:induction false} EntriesAre(w: World, accounts: seq<Account>, e: Redelegation)
    ensures e in Entries(w, accounts) <==>
      exists a :: a in accounts && w.reply(a.address).redelegations.Some? && e in w.reply(a.address).redelegations.value
  {
    if accounts == [] {
    } else {
      var n := |accounts| - 1;
      EntriesAre(w, accounts[..n], e);
      assert accounts == accounts[..n] + [accounts[n]];
    }
  }

  lemma SameFinals(w: World, a: seq<Account>, b: seq<Account>)
    requires SameAccounts(a, b)
    ensures LatestOf(Entries(w, a)) == LatestOf(Entries(w, b))
  {
    forall e ensures e in Entries(w, a) <==> e in Entries(w, b) {
      EntriesAre(w, a, e);
      EntriesAre(w, b, e);
    }
    LatestOfIs(Entries(w, a));
    LatestOfIs(Entries(w, b));
    LatestIsUnique(LatestOf(Entries(w, a)), LatestOf(Entries(w, b)), Entries(w, a));
  }

  lemma SameHeld(g: map<Pair, Amount>, h: map<Pair, Amount>, w: World, a: seq<Account>, b: seq<Account>)
    requires IsPortfolio(g, w, a) && IsPortfolio(h, w, b) && SameAccounts(a, b)
    ensures g == h
  {
    forall pair ensures (pair in g <==> pair in h) && (pair in g ==> g[pair] == h[pair]) {
      assert PortfolioAt(g, w, a, pair) && PortfolioAt(h, w, b, pair);
      SameAddress(a, b, pair.delegatorAddress);
    }
  }

  lemma SameAddress(a: seq<Account>, b: seq<Account>, address: string)
    requires SameAccounts(a, b)
    ensures HasAddress(a, address) <==> HasAddress(b, address)
  {
    if HasAddress(a, address) {
      var i :| 0 <= i < |a| && a[i].address == address;
      assert a[i] in b;
    }
    if HasAddress(b, address) {
      var i :| 0 <= i < |b| && b[i].address == address;
      assert b[i] in a;
    }
  }

  lemma SameRow(row: Row, other: Row, op: string, held: map<Pair, Amount>, finals: map<Pair, Time>, w: World,
                a: seq<Account>, b: seq<Account>)
    requires IsRow(row, op, held, finals, w, a) && IsRow(other, op, held, finals, w, b)
    requires SameAccounts(a, b) && PositiveTimes(finals) && DelegatedTotal(w, a) == DelegatedTotal(w, b)
    ensures row == other
  {
    forall name ensures IsHolder(held, a, op, name) <==> IsHolder(held, b, op, name) {
    }
    assert row.accounts == other.accounts;
  }

  /** Neither the order of the accounts nor that of any map changes what is published. */
  lemma OrderDoesNotMatter(rows: map<string, Row>, held: map<Pair, Amount>, others: map<string, Row>,
                           otherHeld: map<Pair, Amount>, w: World, a: seq<Account>, b: seq<Account>)
    requires IsPublished(rows, held, w, a) && IsPublished(others, otherHeld, w, b)
    requires SameAccounts(a, b) && PositiveTimes(LatestOf(Entries(w, a)))
    ensures rows == others && held == otherHeld
  {
    SameHeld(held, otherHeld, w, a, b);
    SameFinals(w, a, b);
    forall op | op in rows ensures rows[op] == others[op] {
      SameRow(rows[op], others[op], op, held, LatestOf(Entries(w, a)), w, a, b);
    }
  }
}
