/**
 Attribution of a live vote to validator entities, and who can veto it (collector/governance.go,
 collector/proposal_veto.go).
 */
module Governance {
  import opened Basics
  import opened Sums
  import opened Sorting
  import Concentration
  import opened ProposalScan

  type Validator = Concentration.Validator

  const NO_WITH_VETO := "NO_WITH_VETO"
  const DID_NOT_VOTE := "DID_NOT_VOTE"

  /** A current vote record: its primary option and its weights by option. */
  datatype RawVote = RawVote(option: string, options: map<string, Amount>)

  datatype GovVote = GovVote(
    operatorAddress: string,
    entity: string,
    option: string,
    options: map<string, Amount>,
    power: Amount)

  /** What attribution reads; `toValoper` is the conversion of an account to an operator address. */
  datatype Ballot = Ballot(
    validators: seq<Validator>,
    entityMap: map<string, string>,
    rawVotes: map<string, RawVote>,
    toValoper: string -> Option<string>)

  /** An empty name in the entity map falls back to the moniker here. */
  function EntityOf(b: Ballot, v: Validator): string {
    if v.operatorAddress in b.entityMap && b.entityMap[v.operatorAddress] != ""
    then b.entityMap[v.operatorAddress] else v.moniker
  }

  function Cast(b: Ballot, v: Validator, raw: RawVote): GovVote {
    GovVote(v.operatorAddress, EntityOf(b, v), raw.option, raw.options, v.tokens)
  }

  function Absent(b: Ballot, v: Validator): GovVote {
    GovVote(v.operatorAddress, EntityOf(b, v), DID_NOT_VOTE, map[], v.tokens)
  }

  /** The validators by operator address; the last of several with one address wins. */
  function Info(validators: seq<Validator>): (info: map<string, Validator>)
    ensures forall op :: op in info ==> info[op] in validators && info[op].operatorAddress == op
    ensures forall v :: v in validators ==> v.operatorAddress in info
  {
    if validators == [] then map[]
    else
      var n := |validators| - 1;
      Info(validators[..n])[validators[n].operatorAddress := validators[n]]
  }

  // ----- what attribution promises

  /** `account` stands for the validator with this operator address. */
  predicate VotesFor(b: Ballot, account: string, op: string) {
    account in b.rawVotes && b.toValoper(account) == Some(op) && op in Info(b.validators)
  }

  /** The map names the entity, or, if it has no name or an empty one for the validator, the moniker does. */
  ghost predicate Belongs(b: Ballot, v: Validator, name: string) {
    var mapped := v.operatorAddress in b.entityMap && b.entityMap[v.operatorAddress] != "";
    (mapped ==> name == b.entityMap[v.operatorAddress]) && (!mapped ==> name == v.moniker)
  }

  /** The vote of the account's record, with the power and the entity of the validator it stands for. */
  ghost predicate IsCastBy(b: Ballot, account: string, v: GovVote) {
    && VotesFor(b, account, v.operatorAddress)
    && v.option == b.rawVotes[account].option && v.options == b.rawVotes[account].options
    && v.power == Info(b.validators)[v.operatorAddress].tokens
    && Belongs(b, Info(b.validators)[v.operatorAddress], v.entity)
  }

  ghost predicate IsCast(b: Ballot, v: GovVote) {
    exists account :: IsCastBy(b, account, v)
  }

  ghost predicate HasVoted(b: Ballot, op: string) {
    exists account :: VotesFor(b, account, op)
  }

  /** A validator without a vote, with its power and its entity. */
  ghost predicate IsAbsentFor(b: Ballot, x: Validator, v: GovVote) {
    && v.operatorAddress == x.operatorAddress && v.power == x.tokens && Belongs(b, x, v.entity)
    && v.option == "DID_NOT_VOTE" && v.options == map[]
  }

  ghost predicate IsAbsent(b: Ballot, v: GovVote) {
    !HasVoted(b, v.operatorAddress) && exists x :: x in b.validators && IsAbsentFor(b, x, v)
  }

  ghost predicate Listed(votes: seq<GovVote>, op: string) {
    exists v :: v in votes && v.operatorAddress == op
  }

  ghost predicate Descending(votes: seq<GovVote>) {
    forall i, j :: 0 <= i < j < |votes| ==> votes[i].power >= votes[j].power
  }

  function ByPowerDescending(v: GovVote): real {
    -(v.power as real)
  }

  /** A validator is listed as voted if some account votes for it, and as absent otherwise. */
  ghost predicate IsAttribution(b: Ballot, voted: seq<GovVote>, nonVoters: seq<GovVote>) {
    && (forall v :: v in voted ==> IsCast(b, v))
    && (forall v :: v in nonVoters ==> IsAbsent(b, v))
    && (forall v :: v in b.validators ==>
      Listed(if HasVoted(b, v.operatorAddress) then voted else nonVoters, v.operatorAddress))
    && Descending(voted) && Descending(nonVoters)
    && (OneAccountEach(b) ==> Unique(voted))
    && (DistinctOperators(b.validators) ==> Unique(nonVoters))
  }

  ghost predicate OneAccountEach(b: Ballot) {
    forall x, y, op :: VotesFor(b, x, op) && VotesFor(b, y, op) ==> x == y
  }

  ghost predicate DistinctOperators(validators: seq<Validator>) {
    forall i, j :: 0 <= i < j < |validators| ==> validators[i].operatorAddress != validators[j].operatorAddress
  }

  // ----- the loops

  /** The loop over the vote records, in whatever order the map gives them. */
  method CollectVoted(b: Ballot) returns (voted: seq<GovVote>, votedOperators: set<string>)
    ensures forall v :: v in voted ==> IsCast(b, v)
    ensures forall op :: op in votedOperators <==> HasVoted(b, op)
    ensures forall op :: op in votedOperators ==> Listed(voted, op)
    ensures OneAccountEach(b) ==> Unique(voted)
  {
    voted, votedOperators := [], {};
    var info := Info(b.validators);
    var todo := b.rawVotes.Keys;
    while todo != {}
      invariant todo <= b.rawVotes.Keys
      invariant Taken(b, todo, voted, votedOperators)
      decreases |todo|
    {
      var account :| account in todo;
      TakeRecord(b, todo, voted, votedOperators, account);
      todo := todo - {account};
      var valoper := b.toValoper(account);
      if valoper.Some? && valoper.value in info {
        var vote := Cast(b, info[valoper.value], b.rawVotes[account]);
        voted := voted + [vote];
        votedOperators := votedOperators + {valoper.value};
      }
    }
    AllTaken(b, voted, votedOperators);
  }

  /** The vote comes from a record that has been taken already. */
  ghost predicate CastOutside(b: Ballot, todo: set<string>, v: GovVote) {
    exists x :: x !in todo && IsCastBy(b, x, v)
  }

  ghost predicate OperatorOutside(b: Ballot, todo: set<string>, ops: set<string>, op: string) {
    forall x :: VotesFor(b, x, op) && x !in todo ==> op in ops
  }

  ghost predicate Taken(b: Ballot, todo: set<string>, voted: seq<GovVote>, ops: set<string>) {
    && (forall v :: v in voted ==> CastOutside(b, todo, v))
    && (forall op :: OperatorOutside(b, todo, ops, op))
    && (forall op :: op in ops ==> Listed(voted, op) && HasVoted(b, op))
    && (OneAccountEach(b) ==> Unique(voted))
  }

  /** One turn of the loop: a record that stands for a known validator is added, any other is skipped. */
  lemma TakeRecord(b: Ballot, todo: set<string>, voted: seq<GovVote>, ops: set<string>, account: string)
    requires Taken(b, todo, voted, ops) && account in todo && account in b.rawVotes
    ensures var valoper, rest, info := b.toValoper(account), todo - {account}, Info(b.validators);
      if valoper.Some? && valoper.value in info
      then Taken(b, rest, voted + [Cast(b, info[valoper.value], b.rawVotes[account])], ops + {valoper.value})
      else Taken(b, rest, voted, ops)
  {
    var valoper, rest, info := b.toValoper(account), todo - {account}, Info(b.validators);
    StillCast(b, voted, todo, rest);
    if valoper.Some? && valoper.value in info {
      var vote := Cast(b, info[valoper.value], b.rawVotes[account]);
      assert IsCastBy(b, account, vote);
      ListedGrows(voted, vote);
      CastGrows(b, voted, vote, account, todo);
      forall op ensures OperatorOutside(b, rest, ops + {valoper.value}, op) {
        assert OperatorOutside(b, todo, ops, op);
      }
    } else {
      forall op ensures OperatorOutside(b, rest, ops, op) {
        assert OperatorOutside(b, todo, ops, op);
      }
    }
  }

  lemma AllTaken(b: Ballot, voted: seq<GovVote>, ops: set<string>)
    requires Taken(b, {}, voted, ops)
    ensures forall v :: v in voted ==> IsCast(b, v)
    ensures forall op :: op in ops <==> HasVoted(b, op)
  {
    forall v | v in voted ensures IsCast(b, v) {
      assert CastOutside(b, {}, v);
    }
    forall op | HasVoted(b, op) ensures op in ops {
      assert OperatorOutside(b, {}, ops, op);
    }
  }

  lemma StillCast(b: Ballot, voted: seq<GovVote>, todo: set<string>, rest: set<string>)
    requires rest <= todo && forall v :: v in voted ==> CastOutside(b, todo, v)
    ensures forall v :: v in voted ==> CastOutside(b, rest, v)
  {
    forall v | v in voted ensures CastOutside(b, rest, v) {
      var x :| x !in todo && IsCastBy(b, x, v);
    }
  }

  /** With one account for each validator, no earlier record has given this vote. */
  lemma CastGrows(b: Ballot, voted: seq<GovVote>, vote: GovVote, account: string, todo: set<string>)
    requires IsCastBy(b, account, vote) && account in todo
    requires forall v :: v in voted ==> CastOutside(b, todo, v)
    ensures OneAccountEach(b) && Unique(voted) ==> Unique(voted + [vote])
  {
    forall i | 0 <= i < |voted| ensures OneAccountEach(b) ==> voted[i] != vote {
      assert voted[i] in voted;
      var x :| x !in todo && IsCastBy(b, x, voted[i]);
    }
  }

  lemma ListedGrows(votes: seq<GovVote>, v: GovVote)
    ensures forall op :: Listed(votes + [v], op) <==> Listed(votes, op) || op == v.operatorAddress
  {
    forall op | Listed(votes, op) || op == v.operatorAddress ensures Listed(votes + [v], op) {
      if op == v.operatorAddress {
        assert v in votes + [v];
      } else {
        var x :| x in votes && x.operatorAddress == op;
        assert x in votes + [v];
      }
    }
  }

  /** The loop over the validators that did not vote. */
  method CollectNonVoters(b: Ballot, votedOperators: set<string>) returns (nonVoters: seq<GovVote>)
    requires forall op :: op in votedOperators <==> HasVoted(b, op)
    ensures forall v :: v in nonVoters ==> IsAbsent(b, v)
    ensures forall v :: v in b.validators ==> HasVoted(b, v.operatorAddress) || Listed(nonVoters, v.operatorAddress)
    ensures DistinctOperators(b.validators) ==> Unique(nonVoters)
  {
    nonVoters := [];
    for i := 0 to |b.validators|
      invariant forall v :: v in nonVoters ==>
        IsAbsent(b, v) && exists j :: 0 <= j < i && v.operatorAddress == b.validators[j].operatorAddress
      invariant forall j :: 0 <= j < i ==>
        HasVoted(b, b.validators[j].operatorAddress) || Listed(nonVoters, b.validators[j].operatorAddress)
      invariant DistinctOperators(b.validators) ==> Unique(nonVoters)
    {
      if b.validators[i].operatorAddress !in votedOperators {
        var vote := Absent(b, b.validators[i]);
        assert IsAbsentFor(b, b.validators[i], vote);
        ListedGrows(nonVoters, vote);
        nonVoters := nonVoters + [vote];
      }
    }
  }

  lemma SortedListed(votes: seq<GovVote>, sorted: seq<GovVote>)
    requires multiset(votes) == multiset(sorted)
    ensures forall v :: v in votes <==> v in sorted
    ensures forall op :: Listed(votes, op) <==> Listed(sorted, op)
    ensures Unique(votes) ==> Unique(sorted)
  {
    Permutation(votes, sorted);
  }

  lemma SortedDescends(votes: seq<GovVote>)
    requires Ascending(votes, ByPowerDescending)
    ensures Descending(votes)
  {
    forall i, j | 0 <= i < j < |votes| ensures votes[i].power >= votes[j].power {
      assert ByPowerDescending(votes[i]) <= ByPowerDescending(votes[j]);
    }
  }

  method Attribute(b: Ballot) returns (voted: seq<GovVote>, nonVoters: seq<GovVote>)
    ensures IsAttribution(b, voted, nonVoters)
  {
    var cast, votedOperators := CollectVoted(b);
    var absent := CollectNonVoters(b, votedOperators);
    voted := SortBy(cast, ByPowerDescending);
    nonVoters := SortBy(absent, ByPowerDescending);
    SortedListed(cast, voted);
    SortedListed(absent, nonVoters);
    SortedDescends(voted);
    SortedDescends(nonVoters);
  }

  // ----- attribution partitions the power

  function OperatorOf(v: GovVote): string {
    v.operatorAddress
  }

  function EntityOfVote(v: GovVote): string {
    v.entity
  }

  /** The power of every listed validator. */
  ghost function PowerOf(votes: seq<GovVote>): map<string, Amount> {
    Tabulate(votes, OperatorOf, Power)
  }

  ghost function EntitiesOf(votes: seq<GovVote>): map<string, string> {
    Tabulate(votes, OperatorOf, EntityOfVote)
  }

  ghost function ValidatorPower(b: Ballot): map<string, Amount> {
    map op | op in Info(b.validators) :: Info(b.validators)[op].tokens
  }

  ghost function ValidatorEntity(b: Ballot): map<string, string> {
    map op | op in Info(b.validators) :: EntityOf(b, Info(b.validators)[op])
  }

  ghost predicate Distinct(votes: seq<GovVote>) {
    forall i, j :: 0 <= i < j < |votes| ==> votes[i].operatorAddress != votes[j].operatorAddress
  }

  ghost predicate IsEntry(powers: map<string, Amount>, entities: map<string, string>, v: GovVote) {
    && v.operatorAddress in powers && powers[v.operatorAddress] == v.power
    && v.operatorAddress in entities && entities[v.operatorAddress] == v.entity
  }

  lemma {:induction false} PowerKeys(votes: seq<GovVote>)
    ensures forall op :: op in PowerOf(votes) <==> Listed(votes, op)
    ensures PowerOf(votes).Keys == EntitiesOf(votes).Keys
  {
    if votes == [] {
    } else {
      var n := |votes| - 1;
      PowerKeys(votes[..n]);
      assert votes == votes[..n] + [votes[n]];
      ListedGrows(votes[..n], votes[n]);
    }
  }

  lemma {:induction false} PowerOfIs(votes: seq<GovVote>)
    requires Distinct(votes)
    ensures forall i :: 0 <= i < |votes| ==> IsEntry(PowerOf(votes), EntitiesOf(votes), votes[i])
  {
    if votes == [] {
    } else {
      var n := |votes| - 1;
      PowerOfIs(votes[..n]);
      forall i | 0 <= i < n ensures IsEntry(PowerOf(votes), EntitiesOf(votes), votes[i]) {
        assert votes[..n][i] == votes[i];
      }
    }
  }

  lemma EntryOf(votes: seq<GovVote>, v: GovVote)
    requires Distinct(votes) && v in votes
    ensures IsEntry(PowerOf(votes), EntitiesOf(votes), v)
  {
    PowerOfIs(votes);
  }

  /** Same operator, same vote: the last validator or record with it decides. */
  lemma CastOnce(b: Ballot, v: GovVote, w: GovVote)
    requires OneAccountEach(b) && IsCast(b, v) && IsCast(b, w) && v.operatorAddress == w.operatorAddress
    ensures v == w
  {
    var x :| IsCastBy(b, x, v);
    var y :| IsCastBy(b, y, w);
  }

  lemma InfoOf(validators: seq<Validator>, v: Validator)
    requires DistinctOperators(validators) && v in validators
    ensures Info(validators)[v.operatorAddress] == v
  {
  }

  lemma AbsentOnce(b: Ballot, v: GovVote)
    requires DistinctOperators(b.validators) && IsAbsent(b, v)
    ensures v.operatorAddress in Info(b.validators) && IsAbsentFor(b, Info(b.validators)[v.operatorAddress], v)
  {
    var x :| x in b.validators && IsAbsentFor(b, x, v);
    InfoOf(b.validators, x);
  }

  lemma AttributionIsDistinct(b: Ballot, voted: seq<GovVote>, nonVoters: seq<GovVote>)
    requires IsAttribution(b, voted, nonVoters) && OneAccountEach(b) && DistinctOperators(b.validators)
    ensures Distinct(voted) && Distinct(nonVoters) && Distinct(voted + nonVoters)
  {
    forall i, j | 0 <= i < j < |voted| ensures voted[i].operatorAddress != voted[j].operatorAddress {
      if voted[i].operatorAddress == voted[j].operatorAddress {
        CastOnce(b, voted[i], voted[j]);
      }
    }
    forall i, j | 0 <= i < j < |nonVoters| ensures nonVoters[i].operatorAddress != nonVoters[j].operatorAddress {
      AbsentOnce(b, nonVoters[i]);
      AbsentOnce(b, nonVoters[j]);
    }
    forall i, j | 0 <= i < |voted| && 0 <= j < |nonVoters|
      ensures voted[i].operatorAddress != nonVoters[j].operatorAddress
    {
      assert IsCast(b, voted[i]) && IsAbsent(b, nonVoters[j]);
    }
  }

  lemma ListedVote(b: Ballot, voted: seq<GovVote>, nonVoters: seq<GovVote>, v: GovVote)
    requires IsAttribution(b, voted, nonVoters) && DistinctOperators(b.validators) && v in voted + nonVoters
    ensures IsEntry(ValidatorPower(b), ValidatorEntity(b), v)
  {
    if v in voted {
      assert IsCast(b, v);
    } else {
      AbsentOnce(b, v);
    }
  }

  /** The voted and the absent validators are disjoint, and together they are the whole set with all its power. */
  lemma AttributionPartitionsPower(b: Ballot, voted: seq<GovVote>, nonVoters: seq<GovVote>)
    requires IsAttribution(b, voted, nonVoters) && OneAccountEach(b) && DistinctOperators(b.validators)
    ensures PowerOf(voted).Keys !! PowerOf(nonVoters).Keys
    ensures forall op :: op in PowerOf(voted) <==> HasVoted(b, op)
    ensures PowerOf(voted + nonVoters) == ValidatorPower(b)
    ensures EntitiesOf(voted + nonVoters) == ValidatorEntity(b)
  {
    PowersMatch(b, voted, nonVoters);
    EntitiesMatch(b, voted, nonVoters);
    VotedEntries(b, voted, nonVoters);
  }

  lemma PowersMatch(b: Ballot, voted: seq<GovVote>, nonVoters: seq<GovVote>)
    requires IsAttribution(b, voted, nonVoters) && OneAccountEach(b) && DistinctOperators(b.validators)
    ensures PowerOf(voted + nonVoters) == ValidatorPower(b)
  {
    forall op ensures SameAt(PowerOf(voted + nonVoters), ValidatorPower(b), op) {
      EntryMatches(b, voted, nonVoters, op);
    }
    SameMap(PowerOf(voted + nonVoters), ValidatorPower(b));
  }

  lemma EntitiesMatch(b: Ballot, voted: seq<GovVote>, nonVoters: seq<GovVote>)
    requires IsAttribution(b, voted, nonVoters) && OneAccountEach(b) && DistinctOperators(b.validators)
    ensures EntitiesOf(voted + nonVoters) == ValidatorEntity(b)
  {
    forall op ensures SameAt(EntitiesOf(voted + nonVoters), ValidatorEntity(b), op) {
      EntryMatches(b, voted, nonVoters, op);
    }
    SameMap(EntitiesOf(voted + nonVoters), ValidatorEntity(b));
  }

  ghost predicate SameAt<V>(m: map<string, V>, n: map<string, V>, op: string) {
    (op in m <==> op in n) && (op in m ==> m[op] == n[op])
  }

  lemma SameMap<V>(m: map<string, V>, n: map<string, V>)
    requires forall op :: SameAt(m, n, op)
    ensures m == n
  {
    forall op ensures op in m <==> op in n {
      assert SameAt(m, n, op);
    }
    forall op | op in m ensures m[op] == n[op] {
      assert SameAt(m, n, op);
    }
  }

  lemma VotedEntries(b: Ballot, voted: seq<GovVote>, nonVoters: seq<GovVote>)
    requires IsAttribution(b, voted, nonVoters) && OneAccountEach(b) && DistinctOperators(b.validators)
    ensures PowerOf(voted).Keys !! PowerOf(nonVoters).Keys
    ensures forall op :: op in PowerOf(voted) <==> HasVoted(b, op)
  {
    forall op
      ensures op in PowerOf(voted) <==> HasVoted(b, op)
      ensures op in PowerOf(voted) ==> op !in PowerOf(nonVoters)
    {
      VotedEntry(b, voted, nonVoters, op);
    }
  }

  lemma VotedEntry(b: Ballot, voted: seq<GovVote>, nonVoters: seq<GovVote>, op: string)
    requires IsAttribution(b, voted, nonVoters) && OneAccountEach(b) && DistinctOperators(b.validators)
    ensures op in PowerOf(voted) <==> HasVoted(b, op)
    ensures op in PowerOf(voted) ==> op !in PowerOf(nonVoters)
  {
    AttributionIsDistinct(b, voted, nonVoters);
    PowerKeys(voted);
    PowerKeys(nonVoters);
    VotedAreListed(b, voted, nonVoters, op);
    if Listed(voted, op) {
      OnlyOnce(voted, nonVoters, op);
    }
  }

  lemma EntryMatches(b: Ballot, voted: seq<GovVote>, nonVoters: seq<GovVote>, op: string)
    requires IsAttribution(b, voted, nonVoters) && OneAccountEach(b) && DistinctOperators(b.validators)
    ensures SameAt(PowerOf(voted + nonVoters), ValidatorPower(b), op)
    ensures SameAt(EntitiesOf(voted + nonVoters), ValidatorEntity(b), op)
  {
    var all := voted + nonVoters;
    PowerKeys(all);
    EveryoneIsListed(b, voted, nonVoters, op);
    if Listed(all, op) {
      var v :| v in all && v.operatorAddress == op;
      ListedVote(b, voted, nonVoters, v);
      AttributionIsDistinct(b, voted, nonVoters);
      EntryOf(all, v);
    }
  }

  lemma OnlyOnce(voted: seq<GovVote>, nonVoters: seq<GovVote>, op: string)
    requires Distinct(voted + nonVoters) && Listed(voted, op)
    ensures !Listed(nonVoters, op)
  {
    var i :| 0 <= i < |voted| && voted[i].operatorAddress == op;
    forall w | w in nonVoters ensures w.operatorAddress != op {
      var j :| 0 <= j < |nonVoters| && nonVoters[j] == w;
      assert (voted + nonVoters)[i] == voted[i] && (voted + nonVoters)[|voted| + j] == w;
    }
  }

  lemma VotedAreListed(b: Ballot, voted: seq<GovVote>, nonVoters: seq<GovVote>, op: string)
    requires IsAttribution(b, voted, nonVoters)
    ensures Listed(voted, op) <==> HasVoted(b, op)
  {
    if HasVoted(b, op) {
      assert Info(b.validators)[op] in b.validators;
    }
    if Listed(voted, op) {
      var v :| v in voted && v.operatorAddress == op;
      assert IsCast(b, v);
    }
  }

  lemma EveryoneIsListed(b: Ballot, voted: seq<GovVote>, nonVoters: seq<GovVote>, op: string)
    requires IsAttribution(b, voted, nonVoters)
    ensures Listed(voted + nonVoters, op) <==> op in Info(b.validators)
  {
    if op in Info(b.validators) {
      assert Info(b.validators)[op] in b.validators;
      var v :| v in (if HasVoted(b, op) then voted else nonVoters) && v.operatorAddress == op;
      assert v in voted + nonVoters;
    }
    if Listed(voted + nonVoters, op) {
      var v :| v in voted + nonVoters && v.operatorAddress == op;
      if v in voted {
        assert IsCast(b, v);
      } else {
        assert IsAbsent(b, v);
      }
    }
  }

  // ----- totals by entity

  /** The loop `total[vote.Entity] += amount`. */
  function ByEntity(votes: seq<GovVote>, amount: GovVote -> Amount): map<string, Amount> {
    if votes == [] then map[]
    else
      var n := |votes| - 1;
      Plus(ByEntity(votes[..n], amount), votes[n].entity, amount(votes[n]))
  }

  function Of(m: map<string, Amount>, entity: string): Amount {
    if entity in m then m[entity] else 0.0
  }

  function Power(v: GovVote): Amount {
    v.power
  }

  function VoteWeights(v: GovVote): map<string, Amount> {
    if v.options != map[] then v.options
    else if v.option == "" || v.option == DID_NOT_VOTE then map[]
    else map[v.option := 1.0]
  }

  function Product(a: Amount, b: Amount): Amount {
    a * b
  }

  function VetoPower(v: GovVote): Amount {
    Product(v.power, Of(VoteWeights(v), NO_WITH_VETO))
  }

  lemma {:induction false} ByEntityIsGroups(votes: seq<GovVote>)
    requires Distinct(votes)
    ensures PowerOf(votes).Keys == EntitiesOf(votes).Keys
    ensures ByEntity(votes, Power) == Groups(PowerOf(votes), EntitiesOf(votes))
  {
    PowerKeys(votes);
    if votes == [] {
    } else {
      var n := |votes| - 1;
      var init := votes[..n];
      ByEntityIsGroups(init);
      PowerKeys(init);
      SameGroups(PowerOf(init), EntitiesOf(init), EntitiesOf(votes));
      GroupsStep(PowerOf(init), EntitiesOf(votes), votes[n].operatorAddress, votes[n].power);
    }
  }

  /** A longer table of tags gives the same groups. */
  lemma SameGroups(m: map<string, Amount>, small: map<string, string>, large: map<string, string>)
    requires m.Keys <= small.Keys && m.Keys <= large.Keys
    requires forall k :: k in m ==> small[k] == large[k]
    ensures Groups(m, small) == Groups(m, large)
  {
    assert (set k | k in m :: small[k]) == (set k | k in m :: large[k]);
    forall g ensures Part(m, small, g) == Part(m, large, g) {
    }
  }

  /** Every entity is credited with exactly the power its validators have, and nothing is lost. */
  lemma EntityTotalsAreEntityPower(b: Ballot, voted: seq<GovVote>, nonVoters: seq<GovVote>)
    requires IsAttribution(b, voted, nonVoters) && OneAccountEach(b) && DistinctOperators(b.validators)
    ensures ByEntity(voted + nonVoters, Power) == Groups(ValidatorPower(b), ValidatorEntity(b))
    ensures Sum(ByEntity(voted + nonVoters, Power)) == Sum(ValidatorPower(b))
  {
    AttributionIsDistinct(b, voted, nonVoters);
    AttributionPartitionsPower(b, voted, nonVoters);
    ByEntityIsGroups(voted + nonVoters);
    GroupsConserve(ValidatorPower(b), ValidatorEntity(b));
  }

  /** The part of an entity that voted and the part that did not add up. */
  lemma {:induction false} ByEntityAdds(a: seq<GovVote>, b: seq<GovVote>, amount: GovVote -> Amount, entity: string)
    ensures Of(ByEntity(a + b, amount), entity) == Of(ByEntity(a, amount), entity) + Of(ByEntity(b, amount), entity)
    ensures entity in ByEntity(a + b, amount) <==> entity in ByEntity(a, amount) || entity in ByEntity(b, amount)
    decreases |b|
  {
    if b == [] {
      assert a + b == a;
    } else {
      var n := |b| - 1;
      assert (a + b)[..|a + b| - 1] == a + b[..n];
      ByEntityAdds(a, b[..n], amount, entity);
    }
  }

  // ----- the proposal analysis

  datatype ProposalAnalysis = ProposalAnalysis(
    tally: Tally,
    turnout: Fraction,
    quorum: Amount,
    isLive: bool,
    attributionComplete: bool,
    voted: seq<GovVote>,
    nonVoters: seq<GovVote>)

  datatype AnalysisError = BadVotingTime | TallyUnavailable

  /** Votes of every option count. */
  ghost function AllVotes(t: Tally): Amount {
    t.yes as real + t.no as real + t.abstain as real + t.veto as real
  }

  function TotalVotes(t: Tally): Amount {
    (t.yes + t.no + t.abstain + t.veto) as real
  }

  function Turnout(t: Tally, bonded: Amount): Fraction {
    Fraction(TotalVotes(t), bonded)
  }

  /** The live tally is the authority while voting is open, the final one afterwards. */
  function TallyOf(p: Proposal, liveTally: Option<Tally>): Option<Tally> {
    if p.status == VotingPeriod then liveTally else Some(p.finalTally)
  }

  /** Analysis needs both voting times, and the live tally while voting is open. */
  predicate Analysable(p: Proposal, liveTally: Option<Tally>) {
    p.votingStartTime.Some? && p.votingEndTime.Some? && TallyOf(p, liveTally).Some?
  }

  method AnalyzeProposal(p: Proposal, validators: seq<Validator>, entityMap: map<string, string>, bonded: Amount,
                         quorum: Amount, liveTally: Option<Tally>, votes: Option<map<string, RawVote>>,
                         toValoper: string -> Option<string>)
    returns (r: Result<ProposalAnalysis, AnalysisError>)
    ensures r.Ok? <==> Analysable(p, liveTally)
    ensures r.Ok? <==>
      p.votingStartTime.Some? && p.votingEndTime.Some? && (p.status == VotingPeriod ==> liveTally.Some?)
    ensures r.Ok? ==>
      && r.value.tally == (if p.status == VotingPeriod then liveTally.value else p.finalTally)
      && r.value.quorum == quorum && r.value.turnout == Fraction(AllVotes(r.value.tally), bonded)
      && (r.value.isLive <==> p.status == VotingPeriod)
      && (r.value.attributionComplete <==>
            p.status == VotingPeriod && votes.Some? && (AllVotes(r.value.tally) > 0.0 ==> votes.value != map[]))
    ensures r.Ok? && r.value.attributionComplete ==>
      IsAttribution(Ballot(validators, entityMap, votes.value, toValoper), r.value.voted, r.value.nonVoters)
    ensures r.Ok? && !r.value.attributionComplete ==> r.value.voted == [] && r.value.nonVoters == []
  {
    if p.votingStartTime.None? || p.votingEndTime.None? {
      return Err(BadVotingTime);
    }
    var tally := TallyOf(p, liveTally);
    if tally.None? {
      return Err(TallyUnavailable);
    }
    var a := ProposalAnalysis(tally.value, Turnout(tally.value, bonded), quorum,
                              p.status == VotingPeriod, false, [], []);
    if !a.isLive || votes.None? {
      return Ok(a);
    }
    if TotalVotes(a.tally) > 0.0 && |votes.value| == 0 {
      return Ok(a);
    }
    var voted, nonVoters := Attribute(Ballot(validators, entityMap, votes.value, toValoper));
    return Ok(a.(attributionComplete := true, voted := voted, nonVoters := nonVoters));
  }

  // ----- the veto analysis

  datatype Kind = Actual | Potential
  datatype Capability = Capability(entity: string, kind: Kind, ratio: Fraction)

  datatype VetoReport = VetoReport(vetoRatio: Fraction, quorumMet: bool, vetoState: int, capabilities: seq<Capability>)

  /** A ratio without a denominator is published as zero. */
  predicate Exceeds(f: Fraction, limit: real) {
    if f.denominator > 0.0 then f.numerator > limit * f.denominator else 0.0 > limit
  }

  predicate Reaches(f: Fraction, limit: real) {
    if f.denominator > 0.0 then f.numerator >= limit * f.denominator else 0.0 >= limit
  }

  predicate Vetoed(a: ProposalAnalysis, threshold: real) {
    threshold > 0.0 && Exceeds(Fraction(a.tally.veto as real, TotalVotes(a.tally)), threshold)
  }

  /** Rows are given only when the vote is valid and every part of them is known. */
  predicate Actionable(a: ProposalAnalysis, threshold: real) {
    Reaches(a.turnout, a.quorum) && a.attributionComplete && TotalVotes(a.tally) > 0.0 && threshold > 0.0
  }

  /** The verdict by the numbers shown: at least the quorum has voted, and more than the threshold of it with veto. */
  lemma VerdictMeans(a: ProposalAnalysis, threshold: real)
    ensures Reaches(a.turnout, a.quorum) <==> ValueOf(a.turnout) >= a.quorum
    ensures Vetoed(a, threshold) <==>
      threshold > 0.0 && ValueOf(Fraction(a.tally.veto as real, AllVotes(a.tally))) > threshold
    ensures Actionable(a, threshold) <==>
      ValueOf(a.turnout) >= a.quorum && a.attributionComplete && AllVotes(a.tally) > 0.0 && threshold > 0.0
  {
    ReachesIs(a.turnout, a.quorum);
    ExceedsIs(Fraction(a.tally.veto as real, TotalVotes(a.tally)), threshold);
  }

  lemma ReachesIs(f: Fraction, limit: real)
    ensures Reaches(f, limit) <==> ValueOf(f) >= limit
  {
    if f.denominator > 0.0 {
      ValueAgainst(f, limit);
    }
  }

  lemma ExceedsIs(f: Fraction, limit: real)
    ensures Exceeds(f, limit) <==> ValueOf(f) > limit
  {
    if f.denominator > 0.0 {
      ValueAgainst(f, limit);
    }
  }

  ghost predicate IsEntity(a: ProposalAnalysis, entity: string) {
    exists v :: v in a.voted + a.nonVoters && v.entity == entity
  }

  /** The share of all votes that the entity casts as vetoes. */
  function ActualRatio(a: ProposalAnalysis, entity: string): Fraction {
    Fraction(Of(ByEntity(a.voted, VetoPower), entity), TotalVotes(a.tally))
  }

  /** The same share if all its validators vetoed now: those that did not vote yet raise the turnout. */
  function PotentialRatio(a: ProposalAnalysis, entity: string): Fraction {
    var absent := Of(ByEntity(a.nonVoters, Power), entity);
    Fraction(Of(ByEntity(a.voted, Power), entity) + absent, TotalVotes(a.tally) + absent)
  }

  /** An entity has a row for what it does, or else, while voting is open, for what it could do. */
  ghost predicate IsRow(a: ProposalAnalysis, threshold: real, row: Capability) {
    var actual, potential := ActualRatio(a, row.entity), PotentialRatio(a, row.entity);
    && IsEntity(a, row.entity)
    && if Exceeds(actual, threshold)
       then row.kind == Actual && row.ratio == actual
       else a.isLive && Exceeds(potential, threshold) && row.kind == Potential && row.ratio == potential
  }

  ghost predicate OneRowEach(rows: seq<Capability>) {
    forall i, j :: 0 <= i < j < |rows| ==> rows[i].entity != rows[j].entity
  }

  ghost predicate ExactRows(a: ProposalAnalysis, threshold: real, rows: seq<Capability>) {
    OneRowEach(rows) && forall row :: row in rows <==> IsRow(a, threshold, row)
  }

  method AnalyzeProposalVeto(a: ProposalAnalysis, threshold: real) returns (r: VetoReport)
    ensures r.vetoRatio == Fraction(a.tally.veto as real, TotalVotes(a.tally))
    ensures r.quorumMet <==> Reaches(a.turnout, a.quorum)
    ensures r.vetoState == if !r.quorumMet then -1 else if Vetoed(a, threshold) then 1 else 0
    ensures if Actionable(a, threshold) then ExactRows(a, threshold, r.capabilities) else r.capabilities == []
  {
    var ratio := Fraction(a.tally.veto as real, TotalVotes(a.tally));
    var quorumMet := Reaches(a.turnout, a.quorum);
    var vetoState := -1;
    if quorumMet {
      vetoState := 0;
      if threshold > 0.0 && Exceeds(ratio, threshold) {
        vetoState := 1;
      }
    }
    if !quorumMet || !a.attributionComplete || TotalVotes(a.tally) <= 0.0 || threshold <= 0.0 {
      return VetoReport(ratio, quorumMet, vetoState, []);
    }
    var rows := Capabilities(a, threshold);
    return VetoReport(ratio, quorumMet, vetoState, rows);
  }

  /** The accumulation of the three maps. */
  method Accumulate(a: ProposalAnalysis)
    returns (total: map<string, Amount>, participating: map<string, Amount>, veto: map<string, Amount>)
    ensures total == ByEntity(a.voted + a.nonVoters, Power)
    ensures participating == ByEntity(a.voted, Power)
    ensures veto == ByEntity(a.voted, VetoPower)
  {
    total, participating, veto := map[], map[], map[];
    for i := 0 to |a.voted|
      invariant total == ByEntity(a.voted[..i], Power)
      invariant participating == ByEntity(a.voted[..i], Power)
      invariant veto == ByEntity(a.voted[..i], VetoPower)
    {
      var vote := a.voted[i];
      assert a.voted[..i + 1][..i] == a.voted[..i];
      total := Plus(total, vote.entity, vote.power);
      participating := Plus(participating, vote.entity, vote.power);
      veto := Plus(veto, vote.entity, VetoPower(vote));
    }
    assert a.voted[..|a.voted|] == a.voted;
    assert a.voted + a.nonVoters[..0] == a.voted;
    for i := 0 to |a.nonVoters|
      invariant total == ByEntity(a.voted + a.nonVoters[..i], Power)
    {
      var vote := a.nonVoters[i];
      var longer := a.voted + a.nonVoters[..i + 1];
      assert longer[..|longer| - 1] == a.voted + a.nonVoters[..i];
      total := Plus(total, vote.entity, vote.power);
    }
    assert a.nonVoters[..|a.nonVoters|] == a.nonVoters;
  }

  /** The loop over the entities, in whatever order the map gives them. */
  method Capabilities(a: ProposalAnalysis, threshold: real) returns (rows: seq<Capability>)
    requires TotalVotes(a.tally) > 0.0
    ensures ExactRows(a, threshold, rows)
  {
    var total, participating, veto := Accumulate(a);
    EntitiesAreKeys(a);
    rows := [];
    var todo := total.Keys;
    while todo != {}
      invariant todo <= total.Keys
      invariant OneRowEach(rows)
      invariant forall row :: row in rows <==> IsRow(a, threshold, row) && row.entity !in todo
      decreases |todo|
    {
      var entity :| entity in todo;
      todo := todo - {entity};
      var actual := Fraction(Of(veto, entity), TotalVotes(a.tally));
      var potential := Hypothetical(a, total, participating, entity);
      var row := RowOf(a, actual, potential, threshold, entity);
      if row.Some? {
        rows := rows + [row.value];
      }
    }
  }

  /** The ratio if the entity's validators all vetoed, as the loop computes it. */
  method Hypothetical(a: ProposalAnalysis, total: map<string, Amount>, participating: map<string, Amount>,
                      entity: string)
    returns (ratio: Fraction)
    requires total == ByEntity(a.voted + a.nonVoters, Power) && participating == ByEntity(a.voted, Power)
    requires entity in total
    ensures ratio == PotentialRatio(a, entity)
  {
    UnvotedPower(a, entity);
    var unvoted: Amount :=
      if total[entity] > Of(participating, entity) then total[entity] - Of(participating, entity) else 0.0;
    return Fraction(total[entity], TotalVotes(a.tally) + unvoted);
  }

  /** One turn of that loop. */
  method RowOf(a: ProposalAnalysis, actual: Fraction, potential: Fraction, threshold: real, entity: string)
    returns (row: Option<Capability>)
    requires actual == ActualRatio(a, entity) && potential == PotentialRatio(a, entity)
    requires IsEntity(a, entity) && TotalVotes(a.tally) > 0.0
    ensures forall r: Capability :: r.entity == entity ==> (IsRow(a, threshold, r) <==> row == Some(r))
    ensures row.Some? ==> row.value.entity == entity
  {
    if Exceeds(actual, threshold) {
      return Some(Capability(entity, Actual, actual));
    }
    if !a.isLive || potential.denominator <= 0.0 {
      return None;
    }
    if Exceeds(potential, threshold) {
      return Some(Capability(entity, Potential, potential));
    }
    return None;
  }

  /** What the subtraction leaves is the power of the validators that did not vote. */
  lemma UnvotedPower(a: ProposalAnalysis, entity: string)
    ensures Of(ByEntity(a.voted + a.nonVoters, Power), entity) ==
      Of(ByEntity(a.voted, Power), entity) + Of(ByEntity(a.nonVoters, Power), entity)
  {
    ByEntityAdds(a.voted, a.nonVoters, Power, entity);
  }

  lemma {:induction false} ByEntityKeys(votes: seq<GovVote>, amount: GovVote -> Amount, entity: string)
    ensures entity in ByEntity(votes, amount) <==> exists v :: v in votes && v.entity == entity
  {
    if votes == [] {
    } else {
      var n := |votes| - 1;
      ByEntityKeys(votes[..n], amount, entity);
      assert votes == votes[..n] + [votes[n]];
    }
  }

  lemma EntitiesAreKeys(a: ProposalAnalysis)
    ensures forall entity :: entity in ByEntity(a.voted + a.nonVoters, Power) <==> IsEntity(a, entity)
  {
    forall entity ensures entity in ByEntity(a.voted + a.nonVoters, Power) <==> IsEntity(a, entity) {
      ByEntityKeys(a.voted + a.nonVoters, Power, entity);
    }
  }

  // ----- what the ratios of the rows are

  /** The weight a vote gives to a veto: its split vote if it has one, and otherwise all or nothing. */
  ghost function VetoWeight(v: GovVote): Amount {
    if NO_WITH_VETO in v.options then v.options[NO_WITH_VETO]
    else if v.options == map[] && v.option == "NO_WITH_VETO" then 1.0
    else 0.0
  }

  ghost function WeightedVeto(v: GovVote): Amount {
    v.power * VetoWeight(v)
  }

  ghost function EntityVeto(votes: seq<GovVote>, entity: string): Amount {
    if votes == [] then 0.0
    else
      var v := votes[|votes| - 1];
      EntityVeto(votes[..|votes| - 1], entity) + if v.entity == entity then WeightedVeto(v) else 0.0
  }

  ghost function EntityPower(votes: seq<GovVote>, entity: string): Amount {
    if votes == [] then 0.0
    else
      var v := votes[|votes| - 1];
      EntityPower(votes[..|votes| - 1], entity) + if v.entity == entity then v.power else 0.0
  }

  /** A vote counts with its weights, or, if it has none, in full for its option; the placeholders count for nothing. */
  lemma WeightsAre(v: GovVote, option: string)
    ensures Of(VoteWeights(v), option) ==
      if option in v.options then v.options[option]
      else if v.options == map[] && option == v.option && option !in ["", "DID_NOT_VOTE"] then 1.0
      else 0.0
  {
  }

  lemma VetoPowerIs(v: GovVote)
    ensures VetoPower(v) == WeightedVeto(v)
  {
  }

  lemma {:induction false} EntityVetoIs(votes: seq<GovVote>, entity: string)
    ensures Of(ByEntity(votes, VetoPower), entity) == EntityVeto(votes, entity)
  {
    if votes == [] {
    } else {
      var n := |votes| - 1;
      EntityVetoIs(votes[..n], entity);
      VetoPowerIs(votes[n]);
    }
  }

  lemma {:induction false} EntityPowerIs(votes: seq<GovVote>, entity: string)
    ensures Of(ByEntity(votes, Power), entity) == EntityPower(votes, entity)
  {
    if votes == [] {
    } else {
      EntityPowerIs(votes[..|votes| - 1], entity);
    }
  }

  /**
   The actual ratio is the entity's weighted veto over all votes; the potential one is all its power over the votes
   that there would be with those of its validators that did not vote.
   */
  lemma RatiosAre(a: ProposalAnalysis, entity: string)
    ensures ActualRatio(a, entity) == Fraction(EntityVeto(a.voted, entity), AllVotes(a.tally))
    ensures PotentialRatio(a, entity) ==
      Fraction(EntityPower(a.voted, entity) + EntityPower(a.nonVoters, entity),
               AllVotes(a.tally) + EntityPower(a.nonVoters, entity))
  {
    EntityVetoIs(a.voted, entity);
    EntityPowerIs(a.voted, entity);
    EntityPowerIs(a.nonVoters, entity);
  }

  // ----- what actual rows imply

  /** All attributed veto power, over the votes rather than over the entities. */
  ghost function AttributedVeto(votes: seq<GovVote>): Amount {
    if votes == [] then 0.0 else AttributedVeto(votes[..|votes| - 1]) + WeightedVeto(votes[|votes| - 1])
  }

  lemma {:induction false} AttributedByEntity(votes: seq<GovVote>)
    ensures Sum(ByEntity(votes, VetoPower)) == AttributedVeto(votes)
  {
    if votes == [] {
    } else {
      var n := |votes| - 1;
      AttributedByEntity(votes[..n]);
      VetoPowerIs(votes[n]);
      SumPlus(ByEntity(votes[..n], VetoPower), votes[n].entity, VetoPower(votes[n]));
    }
  }

  ghost function ActualEntities(rows: seq<Capability>): set<string> {
    set row | row in rows && row.kind == Actual :: row.entity
  }

  /** `n` times `x`. */
  ghost function Times(n: nat, x: Amount): Amount {
    if n == 0 then 0.0 else Times(n - 1, x) + x
  }

  /** Some keys that each hold more than `least` hold more than their number times `least` together. */
  lemma {:induction false} ManyLarge(m: map<string, Amount>, keys: set<string>, least: Amount)
    requires keys <= m.Keys && forall k :: k in keys ==> m[k] > least
    ensures Sum(m) >= Times(|keys|, least)
    ensures keys != {} ==> Sum(m) > Times(|keys|, least)
    decreases |keys|
  {
    if keys == {} {
    } else {
      var k :| k in keys;
      var n := |keys - {k}|;
      assert |keys| == n + 1;
      SumRemove(m, k);
      ManyLarge(m - {k}, keys - {k}, least);
    }
  }

  /** A row for an actual veto stands for more than the threshold of all votes. */
  lemma ActualRowIsHeavy(a: ProposalAnalysis, threshold: real, rows: seq<Capability>, entity: string)
    requires Actionable(a, threshold) && ExactRows(a, threshold, rows) && entity in ActualEntities(rows)
    ensures var veto := ByEntity(a.voted, VetoPower);
      entity in veto && veto[entity] > threshold * TotalVotes(a.tally) > 0.0
  {
    var row :| row in rows && row.kind == Actual && row.entity == entity;
    assert IsRow(a, threshold, row);
    Positive(threshold, TotalVotes(a.tally));
  }

  lemma Positive(x: real, y: real)
    requires x > 0.0 && y > 0.0
    ensures x * y > 0.0
  {
  }

  lemma Rearrange(n: nat, x: Amount, y: Amount)
    requires y > 0.0 && Times(n, Product(x, y)) < y
    ensures Times(n, x) < 1.0
  {
    TimesScales(n, x, y);
    if Times(n, x) >= 1.0 {
      Grows(Times(n, x), y);
    }
  }

  lemma {:induction false} TimesScales(n: nat, x: Amount, y: Amount)
    ensures Times(n, Product(x, y)) == Times(n, x) * y
  {
    if n == 0 {
    } else {
      TimesScales(n - 1, x, y);
      assert (Times(n - 1, x) + x) * y == Times(n - 1, x) * y + x * y;
    }
  }

  lemma Grows(x: real, y: real)
    requires x >= 1.0 && y > 0.0
    ensures x * y >= y
  {
    assert (x - 1.0) * y >= 0.0;
  }

  /** While the attributed veto is no more than the authoritative one, a row for an actual veto means a veto. */
  lemma ActualRowMeansVetoed(a: ProposalAnalysis, threshold: real, rows: seq<Capability>)
    requires Actionable(a, threshold) && ExactRows(a, threshold, rows) && ActualEntities(rows) != {}
    requires AttributedVeto(a.voted) <= a.tally.veto as real
    ensures Vetoed(a, threshold)
  {
    var one :| one in ActualEntities(rows);
    ActualRowIsHeavy(a, threshold, rows, one);
    AttributedByEntity(a.voted);
    PartOfTotal(ByEntity(a.voted, VetoPower), one);
    MeansVetoed(a, threshold, ByEntity(a.voted, VetoPower)[one]);
  }

  lemma PartOfTotal(m: map<string, Amount>, k: string)
    requires k in m
    ensures m[k] <= Sum(m)
  {
    SumRemove(m, k);
  }

  lemma MeansVetoed(a: ProposalAnalysis, threshold: real, part: Amount)
    requires threshold > 0.0 && TotalVotes(a.tally) > 0.0
    requires part > threshold * TotalVotes(a.tally) && part <= a.tally.veto as real
    ensures Vetoed(a, threshold)
  {
  }

  /** How many rows are for an actual veto. */
  ghost function ActualCount(rows: seq<Capability>): nat {
    if rows == [] then 0
    else
      var n := |rows| - 1;
      ActualCount(rows[..n]) + if rows[n].kind == Actual then 1 else 0
  }

  lemma {:induction false} OneRowForEachEntity(rows: seq<Capability>)
    requires OneRowEach(rows)
    ensures ActualCount(rows) == |ActualEntities(rows)|
  {
    if rows == [] {
    } else {
      var n := |rows| - 1;
      OneRowForEachEntity(rows[..n]);
      assert rows == rows[..n] + [rows[n]];
      var last := if rows[n].kind == Actual then {rows[n].entity} else {};
      assert ActualEntities(rows) == ActualEntities(rows[..n]) + last;
    }
  }

  lemma {:induction false} TimesIsProduct(n: nat, x: Amount)
    ensures Times(n, x) == n as real * x
  {
    if n == 0 {
    } else {
      TimesIsProduct(n - 1, x);
      assert n as real * x == (n - 1) as real * x + x;
    }
  }

  /** Under the same premise there are fewer actual rows than one over the threshold. */
  lemma ActualRowsAreFew(a: ProposalAnalysis, threshold: real, rows: seq<Capability>)
    requires Actionable(a, threshold) && ExactRows(a, threshold, rows)
    requires AttributedVeto(a.voted) <= a.tally.veto as real
    ensures FewerThanOneOver(ActualCount(rows), threshold)
  {
    EntitiesAreFew(a, threshold, rows);
    OneRowForEachEntity(rows);
    BelowOne(ActualCount(rows), threshold);
  }

  /** `n` times `x` is below one. */
  ghost predicate FewerThanOneOver(n: nat, x: real) {
    n as real * x < 1.0
  }

  lemma BelowOne(n: nat, x: Amount)
    requires Times(n, x) < 1.0
    ensures FewerThanOneOver(n, x)
  {
    TimesIsProduct(n, x);
  }

  lemma EntitiesAreFew(a: ProposalAnalysis, threshold: real, rows: seq<Capability>)
    requires Actionable(a, threshold) && ExactRows(a, threshold, rows)
    requires AttributedVeto(a.voted) <= a.tally.veto as real
    ensures Times(|ActualEntities(rows)|, threshold) < 1.0
  {
    if ActualEntities(rows) != {} {
      RowsOutweigh(a, threshold, rows, Product(threshold, TotalVotes(a.tally)));
      Rearrange(|ActualEntities(rows)|, threshold, TotalVotes(a.tally));
    }
  }

  lemma RowsOutweigh(a: ProposalAnalysis, threshold: real, rows: seq<Capability>, least: Amount)
    requires Actionable(a, threshold) && ExactRows(a, threshold, rows) && ActualEntities(rows) != {}
    requires AttributedVeto(a.voted) <= a.tally.veto as real && least == threshold * TotalVotes(a.tally)
    ensures Times(|ActualEntities(rows)|, least) < a.tally.veto as real
  {
    var veto := ByEntity(a.voted, VetoPower);
    forall k | k in ActualEntities(rows) ensures k in veto && veto[k] > least {
      ActualRowIsHeavy(a, threshold, rows, k);
    }
    AttributedByEntity(a.voted);
    Outweighed(veto, ActualEntities(rows), least, a.tally.veto as real);
  }

  lemma Outweighed(m: map<string, Amount>, keys: set<string>, least: Amount, authority: real)
    requires keys != {} && keys <= m.Keys && Sum(m) <= authority
    requires forall k :: k in keys ==> m[k] > least
    ensures Times(|keys|, least) < authority
  {
    ManyLarge(m, keys, least);
  }

  // ----- what potential rows mean

  /** The entity's votes, changed to a full veto. */
  function Switched(votes: seq<GovVote>, entity: string): seq<GovVote> {
    if votes == [] then []
    else
      var n := |votes| - 1;
      Switched(votes[..n], entity) + [if votes[n].entity == entity then FullVeto(votes[n]) else votes[n]]
  }

  function FullVeto(v: GovVote): GovVote {
    v.(option := NO_WITH_VETO, options := map[])
  }

  lemma FullVetoPower(v: GovVote)
    ensures VetoPower(FullVeto(v)) == v.power
  {
    assert VoteWeights(FullVeto(v)) == map[NO_WITH_VETO := 1.0];
    assert v.power * 1.0 == v.power;
  }

  function Belonging(votes: seq<GovVote>, entity: string): seq<GovVote> {
    if votes == [] then []
    else
      var n := |votes| - 1;
      Belonging(votes[..n], entity) + if votes[n].entity == entity then [votes[n]] else []
  }

  /** The proposal once all of the entity's validators veto it, under the tally that this leads to. */
  function AfterSwitch(a: ProposalAnalysis, entity: string, tally: Tally): ProposalAnalysis {
    a.(tally := tally, voted := Switched(a.voted + Belonging(a.nonVoters, entity), entity))
  }

  lemma {:induction false} SwitchedVeto(votes: seq<GovVote>, entity: string)
    ensures Of(ByEntity(Switched(votes, entity), VetoPower), entity) == Of(ByEntity(votes, Power), entity)
  {
    if votes == [] {
    } else {
      var n := |votes| - 1;
      SwitchedVeto(votes[..n], entity);
      FullVetoPower(votes[n]);
      var switched := Switched(votes, entity);
      assert switched[..|switched| - 1] == Switched(votes[..n], entity);
    }
  }

  lemma {:induction false} BelongingPower(votes: seq<GovVote>, entity: string)
    ensures Of(ByEntity(Belonging(votes, entity), Power), entity) == Of(ByEntity(votes, Power), entity)
  {
    if votes == [] {
    } else {
      var n := |votes| - 1;
      BelongingPower(votes[..n], entity);
      var init := Belonging(votes[..n], entity);
      if votes[n].entity == entity {
        assert Belonging(votes, entity) == init + [votes[n]];
        assert (init + [votes[n]])[..|init|] == init;
      } else {
        assert Belonging(votes, entity) == init;
      }
    }
  }

  /** Exactly the entity's votes have become full vetoes. */
  ghost predicate IsSwitch(before: seq<GovVote>, after: seq<GovVote>, entity: string) {
    && |after| == |before|
    && forall i :: 0 <= i < |before| ==>
         if before[i].entity == entity then after[i] == before[i].(option := "NO_WITH_VETO", options := map[])
         else after[i] == before[i]
  }

  lemma {:induction false} SwitchedIs(votes: seq<GovVote>, entity: string)
    ensures IsSwitch(votes, Switched(votes, entity), entity)
  {
    if votes == [] {
    } else {
      SwitchedIs(votes[..|votes| - 1], entity);
    }
  }

  /** The potential ratio is the actual ratio after the switch, when its new votes are added to the turnout. */
  lemma PotentialIsActualAfterSwitch(a: ProposalAnalysis, entity: string, tally: Tally)
    requires AllVotes(tally) == AllVotes(a.tally) + EntityPower(a.nonVoters, entity)
    ensures ActualRatio(AfterSwitch(a, entity, tally), entity) == PotentialRatio(a, entity)
    ensures IsSwitch(a.voted + Belonging(a.nonVoters, entity), AfterSwitch(a, entity, tally).voted, entity)
  {
    var all := a.voted + Belonging(a.nonVoters, entity);
    SwitchedVeto(all, entity);
    SwitchedIs(all, entity);
    EntityPowerIs(a.nonVoters, entity);
    ByEntityAdds(a.voted, Belonging(a.nonVoters, entity), Power, entity);
    BelongingPower(a.nonVoters, entity);
  }

  // ----- veto power that does not depend on turnout

  predicate HasTurnoutIndependentVetoPower(share: Fraction, threshold: real) {
    threshold > 0.0 && threshold < 1.0 && Exceeds(share, threshold)
  }

  /** With all of `power` vetoing, a turnout between it and everything bonded does not save the proposal. */
  ghost predicate VetoesAt(power: Amount, threshold: real, turnout: Amount) {
    Exceeds(Fraction(power, turnout), threshold)
  }

  lemma MoreThanAll(power: Amount, bonded: Amount, threshold: real)
    requires 0.0 < bonded < power && threshold < 1.0
    ensures Exceeds(Fraction(power, bonded), threshold)
  {
    assert (1.0 - threshold) * bonded > 0.0;
    assert power > threshold * bonded;
  }

  lemma ScalesUp(threshold: real, a: Amount, b: Amount)
    requires 0.0 < threshold && a <= b
    ensures threshold * a <= threshold * b
  {
    assert threshold * (b - a) >= 0.0;
  }

  /** With a threshold between none and all, the share alone decides whether a veto holds at every turnout. */
  lemma VetoAtEveryTurnout(power: Amount, bonded: Amount, threshold: real)
    requires 0.0 < bonded
    ensures HasTurnoutIndependentVetoPower(Fraction(power, bonded), threshold) <==>
      && 0.0 < threshold < 1.0
      && forall turnout: Amount :: power <= turnout <= bonded && 0.0 < turnout ==> VetoesAt(power, threshold, turnout)
  {
    if 0.0 < threshold < 1.0 && power > bonded {
      MoreThanAll(power, bonded, threshold);
    } else if 0.0 < threshold < 1.0 && Exceeds(Fraction(power, bonded), threshold) {
      forall turnout: Amount | power <= turnout <= bonded && 0.0 < turnout
        ensures VetoesAt(power, threshold, turnout)
      {
        ScalesUp(threshold, turnout, bonded);
      }
    } else if 0.0 < threshold < 1.0 {
      assert !VetoesAt(power, threshold, bonded);
    }
  }
}
