/**
 Concentration coefficients (collector/collector.go): grouping validators into entities, sorting by power,
 and counting the entities that reach a third or two thirds of the total.
 */
module Concentration {
  import opened Basics
  import opened Sums
  import opened Sorting

  datatype Validator = Validator(operatorAddress: string, moniker: string, tokens: Amount)
  datatype EntityEntry = EntityEntry(name: string, power: Amount)
  datatype Coefficients = Coefficients(largestShare: Fraction, halt: nat, safety: nat)

  function EntityName(entityMap: map<string, string>, v: Validator): string {
    if v.operatorAddress in entityMap then entityMap[v.operatorAddress] else v.moniker
  }

  /** The map sends the validator to this entity, or does not hold it and the entity is its moniker. */
  ghost predicate Belongs(entityMap: map<string, string>, v: Validator, name: string) {
    && (v.operatorAddress in entityMap ==> name == entityMap[v.operatorAddress])
    && (v.operatorAddress !in entityMap ==> name == v.moniker)
  }

  // ----- the reference: the least number of groups that reach a threshold

  ghost function Restrict<K>(powers: map<K, Amount>, chosen: set<K>): map<K, Amount> {
    map k | k in powers && k in chosen :: powers[k]
  }

  /** Some `n` groups together hold at least the threshold, and no fewer do, however chosen. */
  ghost predicate IsLeastCount<K(!new)>(powers: map<K, Amount>, threshold: real, n: nat) {
    && (exists chosen: set<K> :: |chosen| == n && chosen <= powers.Keys && Sum(Restrict(powers, chosen)) >= threshold)
    && (forall chosen: set<K> :: |chosen| < n && chosen <= powers.Keys ==> Sum(Restrict(powers, chosen)) < threshold)
  }

  ghost predicate IsLargest<K>(powers: map<K, Amount>, p: Amount) {
    (exists k :: k in powers && powers[k] == p) && forall k :: k in powers ==> powers[k] <= p
  }

  lemma LeastCountIsUnique<K(!new)>(powers: map<K, Amount>, threshold: real, m: nat, n: nat)
    requires IsLeastCount(powers, threshold, m) && IsLeastCount(powers, threshold, n)
    ensures m == n
  {
  }

  /** A higher threshold never needs fewer groups. */
  lemma HigherThresholdNeedsMore<K(!new)>(powers: map<K, Amount>, low: real, high: real, m: nat, n: nat)
    requires low <= high && IsLeastCount(powers, low, m) && IsLeastCount(powers, high, n)
    ensures m <= n
  {
  }

  // ----- the greedy count over a descending list

  ghost predicate Descending(list: seq<EntityEntry>) {
    forall i, j :: 0 <= i < j < |list| ==> list[i].power >= list[j].power
  }

  ghost predicate DistinctNames(list: seq<EntityEntry>) {
    forall i, j :: 0 <= i < j < |list| ==> list[i].name != list[j].name
  }

  ghost function Powers(list: seq<EntityEntry>): map<string, Amount> {
    Tabulate(list, (e: EntityEntry) => e.name, (e: EntityEntry) => e.power)
  }

  ghost function Names(list: seq<EntityEntry>): set<string> {
    set i | 0 <= i < |list| :: list[i].name
  }

  lemma {:induction false} PowersKeys(list: seq<EntityEntry>)
    ensures Powers(list).Keys == Names(list)
    ensures DistinctNames(list) ==> forall i :: 0 <= i < |list| ==> Powers(list)[list[i].name] == list[i].power
  {
    if list == [] {
    } else {
      var n := |list| - 1;
      PowersKeys(list[..n]);
      assert list == list[..n] + [list[n]];
    }
  }

  lemma PowersNames(list: seq<EntityEntry>)
    ensures Powers(list).Keys == Names(list)
  {
    PowersKeys(list);
  }

  lemma {:induction false} NamesCount(list: seq<EntityEntry>)
    requires DistinctNames(list)
    ensures |Names(list)| == |list|
  {
    if list == [] {
    } else {
      var n := |list| - 1;
      NamesCount(list[..n]);
      assert Names(list) == Names(list[..n]) + {list[n].name};
      assert list[n].name !in Names(list[..n]);
    }
  }

  /** The power of the first `k` entries. */
  ghost function Top(list: seq<EntityEntry>, k: nat): Amount
    requires k <= |list|
  {
    Sum(Powers(list[..k]))
  }

  lemma ChoiceFits(list: seq<EntityEntry>, chosen: set<string>)
    requires DistinctNames(list) && chosen <= Names(list)
    ensures |chosen| <= |list|
  {
    NamesCount(list);
    Subset(chosen, Names(list));
  }

  /** The last entry joins the choice at a place in the list where the power is at least its own. */
  lemma TopStep(list: seq<EntityEntry>, chosen: set<string>, others: set<string>)
    requires list != [] && Descending(list) && DistinctNames(list)
    requires others == chosen - {list[|list| - 1].name} && |others| < |list|
    requires Sum(Restrict(Powers(list[..|list| - 1]), others)) <= Top(list[..|list| - 1], |others|)
    requires |chosen| <= |list|
    ensures Sum(Restrict(Powers(list), chosen)) <= Top(list, |chosen|)
  {
    RestrictLast(list, chosen);
    TopOfRest(list, |others|);
    if list[|list| - 1].name in chosen {
      assert |chosen| == |others| + 1;
      PrefixGrows(list, |others|);
    } else {
      assert chosen == others;
    }
  }

  /** Whatever is chosen, as many groups from the top of the list hold at least as much. */
  lemma {:induction false} TopIsBest(list: seq<EntityEntry>, chosen: set<string>)
    requires Descending(list) && DistinctNames(list) && chosen <= Names(list)
    ensures |chosen| <= |list| && Sum(Restrict(Powers(list), chosen)) <= Top(list, |chosen|)
    decreases |list|
  {
    ChoiceFits(list, chosen);
    if list == [] {
      assert Restrict(Powers(list), chosen) == map[];
    } else {
      var others := chosen - {list[|list| - 1].name};
      NamesWithoutLast(list);
      TopIsBest(list[..|list| - 1], others);
      TopStep(list, chosen, others);
    }
  }

  lemma TopOfRest(list: seq<EntityEntry>, k: nat)
    requires list != [] && k < |list| && Descending(list)
    ensures Top(list[..|list| - 1], k) == Top(list, k)
    ensures list[k].power >= list[|list| - 1].power
  {
    assert list[..|list| - 1][..k] == list[..k];
  }

  lemma NamesWithoutLast(list: seq<EntityEntry>)
    requires list != [] && DistinctNames(list)
    ensures var n := |list| - 1;
      Names(list) == Names(list[..n]) + {list[n].name} && list[n].name !in Names(list[..n])
  {
    var n := |list| - 1;
    forall x | x in Names(list) ensures x in Names(list[..n]) + {list[n].name} {
      var i :| 0 <= i < |list| && list[i].name == x;
      if i < n {
        assert list[..n][i].name == x;
      }
    }
    forall x | x in Names(list[..n]) ensures x in Names(list) {
      var i :| 0 <= i < n && list[..n][i].name == x;
      assert list[i].name == x;
    }
  }

  lemma RestrictInsert<K(!new)>(m: map<K, Amount>, x: K, v: Amount, chosen: set<K>)
    requires x !in m
    ensures Sum(Restrict(m[x := v], chosen)) == Sum(Restrict(m, chosen - {x})) + if x in chosen then v else 0.0
  {
    var rest := Restrict(m, chosen - {x});
    if x in chosen {
      assert Restrict(m[x := v], chosen) == rest[x := v];
      SumInsert(rest, x, v);
    } else {
      assert Restrict(m[x := v], chosen) == rest;
    }
  }

  lemma RestrictLast(list: seq<EntityEntry>, chosen: set<string>)
    requires list != [] && DistinctNames(list)
    ensures var n := |list| - 1;
      Sum(Restrict(Powers(list), chosen)) ==
        Sum(Restrict(Powers(list[..n]), chosen - {list[n].name})) +
        if list[n].name in chosen then list[n].power else 0.0
  {
    var n := |list| - 1;
    NamesWithoutLast(list);
    PowersNames(list[..n]);
    RestrictInsert(Powers(list[..n]), list[n].name, list[n].power, chosen);
  }

  lemma Subset<T>(a: set<T>, b: set<T>)
    requires a <= b
    ensures |a| <= |b|
  {
    assert b == a + (b - a);
  }

  lemma PrefixGrows(list: seq<EntityEntry>, k: nat)
    requires k < |list| && DistinctNames(list)
    ensures Top(list, k + 1) == Top(list, k) + list[k].power
  {
    assert list[..k + 1][..k] == list[..k];
    PowersNames(list[..k]);
    SumInsert(Powers(list[..k]), list[k].name, list[k].power);
  }

  lemma PrefixPower(list: seq<EntityEntry>, k: nat, x: string)
    requires k <= |list| && DistinctNames(list) && x in Names(list[..k])
    ensures x in Powers(list) && x in Powers(list[..k]) && Powers(list)[x] == Powers(list[..k])[x]
  {
    PowersKeys(list);
    PowersKeys(list[..k]);
    var i :| 0 <= i < k && list[..k][i].name == x;
    assert list[i] == list[..k][i];
  }

  lemma RestrictToPart<K>(m: map<K, Amount>, part: map<K, Amount>)
    requires forall x :: x in part ==> x in m && m[x] == part[x]
    ensures Restrict(m, part.Keys) == part && part.Keys <= m.Keys
  {
  }

  lemma PrefixIsChoice(list: seq<EntityEntry>, k: nat)
    requires k <= |list| && DistinctNames(list)
    ensures var names := Powers(list[..k]).Keys;
      |names| == k && names <= Powers(list).Keys && Restrict(Powers(list), names) == Powers(list[..k])
  {
    var part := Powers(list[..k]);
    PowersNames(list[..k]);
    NamesCount(list[..k]);
    forall x | x in part ensures x in Powers(list) && Powers(list)[x] == part[x] {
      PrefixPower(list, k, x);
    }
    RestrictToPart(Powers(list), part);
  }

  /** The loop that consumes the sorted list until the threshold is reached. */
  method CountUntil(list: seq<EntityEntry>, threshold: real) returns (count: nat)
    requires list != [] && Descending(list) && DistinctNames(list)
    requires 0.0 < threshold <= Sum(Powers(list))
    ensures IsLeastCount(Powers(list), threshold, count)
  {
    var cumulative: Amount := 0.0;
    count := 0;
    assert list[..|list|] == list;
    for i := 0 to |list|
      invariant count == i && cumulative == Top(list, i) && cumulative < threshold
    {
      PrefixGrows(list, i);
      cumulative := cumulative + list[i].power;
      count := count + 1;
      if cumulative >= threshold {
        break;
      }
    }
    PrefixIsLeast(list, threshold, count);
  }

  lemma FewerFallShort(list: seq<EntityEntry>, threshold: real, count: nat, chosen: set<string>)
    requires Descending(list) && DistinctNames(list) && 0 < count <= |list|
    requires Top(list, count - 1) < threshold && |chosen| < count && chosen <= Powers(list).Keys
    ensures Sum(Restrict(Powers(list), chosen)) < threshold
  {
    PowersNames(list);
    TopIsBest(list, chosen);
    PrefixMonotone(list, |chosen|, count - 1);
  }

  lemma PrefixIsLeast(list: seq<EntityEntry>, threshold: real, count: nat)
    requires Descending(list) && DistinctNames(list) && 0 < count <= |list|
    requires Top(list, count - 1) < threshold <= Top(list, count)
    ensures IsLeastCount(Powers(list), threshold, count)
  {
    PrefixIsChoice(list, count);
    forall chosen: set<string> | |chosen| < count && chosen <= Powers(list).Keys
      ensures Sum(Restrict(Powers(list), chosen)) < threshold
    {
      FewerFallShort(list, threshold, count, chosen);
    }
  }

  lemma {:induction false} PrefixMonotone(list: seq<EntityEntry>, j: nat, k: nat)
    requires j <= k <= |list| && DistinctNames(list)
    ensures Top(list, j) <= Top(list, k)
    decreases k - j
  {
    if j == k {
    } else {
      PrefixGrows(list, k - 1);
      PrefixMonotone(list, j, k - 1);
    }
  }

  // ----- grouping

  ghost function TokensUpTo(validators: seq<Validator>, n: nat): map<nat, Amount>
    requires n <= |validators|
  {
    map i: nat | i < n :: validators[i].tokens
  }

  ghost function Tokens(validators: seq<Validator>): map<nat, Amount> {
    TokensUpTo(validators, |validators|)
  }

  ghost function Owners(validators: seq<Validator>, entityMap: map<string, string>): map<nat, string> {
    map i: nat | i < |validators| :: EntityName(entityMap, validators[i])
  }

  /** The tokens of exactly the validators that belong to the entity. */
  ghost function Members(validators: seq<Validator>, entityMap: map<string, string>, name: string): map<nat, Amount> {
    map i: nat | i < |validators| && Belongs(entityMap, validators[i], name) :: validators[i].tokens
  }

  ghost predicate IsEntity(validators: seq<Validator>, entityMap: map<string, string>, name: string) {
    exists i :: 0 <= i < |validators| && Belongs(entityMap, validators[i], name)
  }

  /** Every entity that some validator belongs to, with the power of all that do. */
  ghost predicate IsEntityPowers(powers: map<string, Amount>, validators: seq<Validator>,
                                 entityMap: map<string, string>)
  {
    forall name :: HasPower(powers, validators, entityMap, name)
  }

  ghost predicate HasPower(powers: map<string, Amount>, validators: seq<Validator>, entityMap: map<string, string>,
                           name: string) {
    && (name in powers <==> IsEntity(validators, entityMap, name))
    && (name in powers ==> powers[name] == Sum(Members(validators, entityMap, name)))
  }

  /** The power of every entity. */
  ghost function EntityPowers(validators: seq<Validator>, entityMap: map<string, string>): map<string, Amount> {
    Groups(Tokens(validators), Owners(validators, entityMap))
  }

  lemma OwnerIs(validators: seq<Validator>, entityMap: map<string, string>, i: nat, name: string)
    requires i < |validators|
    ensures Owners(validators, entityMap)[i] == name <==> Belongs(entityMap, validators[i], name)
  {
  }

  lemma GroupIffEntity(validators: seq<Validator>, entityMap: map<string, string>, name: string)
    ensures name in EntityPowers(validators, entityMap) <==> IsEntity(validators, entityMap, name)
  {
    var tokens, owners := Tokens(validators), Owners(validators, entityMap);
    if name in EntityPowers(validators, entityMap) {
      var i: nat :| i in tokens && owners[i] == name;
      OwnerIs(validators, entityMap, i, name);
    }
    if i :| 0 <= i < |validators| && Belongs(entityMap, validators[i], name) {
      OwnerIs(validators, entityMap, i, name);
      assert i in tokens && owners[i] == name;
    }
  }

  lemma PartIsMembers(validators: seq<Validator>, entityMap: map<string, string>, name: string)
    ensures Part(Tokens(validators), Owners(validators, entityMap), name) == Members(validators, entityMap, name)
  {
    forall i: nat | i < |validators|
      ensures Owners(validators, entityMap)[i] == name <==> Belongs(entityMap, validators[i], name)
    {
      OwnerIs(validators, entityMap, i, name);
    }
  }

  /** Grouping by entity gives exactly the power of the members. */
  lemma EntityPowersAre(validators: seq<Validator>, entityMap: map<string, string>)
    ensures IsEntityPowers(EntityPowers(validators, entityMap), validators, entityMap)
  {
    forall name ensures HasPower(EntityPowers(validators, entityMap), validators, entityMap, name) {
      GroupIffEntity(validators, entityMap, name);
      PartIsMembers(validators, entityMap, name);
    }
  }

  /** Two validators that the map holds share an entity exactly if it gives them the same name. */
  lemma MappedTogether(entityMap: map<string, string>, v: Validator, w: Validator)
    requires v.operatorAddress in entityMap && w.operatorAddress in entityMap
    ensures (exists name :: Belongs(entityMap, v, name) && Belongs(entityMap, w, name)) <==>
      entityMap[v.operatorAddress] == entityMap[w.operatorAddress]
  {
    assert Belongs(entityMap, v, entityMap[v.operatorAddress]);
  }

  lemma GroupNext(validators: seq<Validator>, entityMap: map<string, string>, n: nat)
    requires n < |validators|
    ensures Groups(TokensUpTo(validators, n + 1), Owners(validators, entityMap)) ==
      Plus(Groups(TokensUpTo(validators, n), Owners(validators, entityMap)),
           EntityName(entityMap, validators[n]), validators[n].tokens)
  {
    GroupsStep(TokensUpTo(validators, n), Owners(validators, entityMap), n, validators[n].tokens);
    assert TokensUpTo(validators, n + 1) == TokensUpTo(validators, n)[n := validators[n].tokens];
  }

  /** The loop that adds each validator's tokens to its entity. */
  method GroupByEntity(validators: seq<Validator>, entityMap: map<string, string>) returns (power: map<string, Amount>)
    ensures power == EntityPowers(validators, entityMap) && IsEntityPowers(power, validators, entityMap)
  {
    EntityPowersAre(validators, entityMap);
    power := map[];
    assert TokensUpTo(validators, 0) == map[];
    for i := 0 to |validators|
      invariant power == Groups(TokensUpTo(validators, i), Owners(validators, entityMap))
    {
      GroupNext(validators, entityMap, i);
      var name := EntityName(entityMap, validators[i]);
      power := Plus(power, name, validators[i].tokens);
    }
  }

  function ByPowerDescending(e: EntityEntry): real {
    -(e.power as real)
  }

  method SortEntities(power: map<string, Amount>) returns (list: seq<EntityEntry>)
    ensures Descending(list) && DistinctNames(list) && Powers(list) == power
  {
    var entries: seq<EntityEntry> := [];
    var todo := power.Keys;
    while todo != {}
      invariant todo <= power.Keys
      invariant forall e :: e in entries <==> e.name in power && e.name !in todo && power[e.name] == e.power
      invariant Unique(entries)
      decreases |todo|
    {
      var name :| name in todo;
      assert EntityEntry(name, power[name]) !in entries;
      entries := entries + [EntityEntry(name, power[name])];
      todo := todo - {name};
    }
    list := SortBy(entries, ByPowerDescending);
    Permutation(entries, list);
    SortedEntries(power, list);
  }

  lemma SortedEntries(power: map<string, Amount>, list: seq<EntityEntry>)
    requires Ascending(list, ByPowerDescending) && Unique(list)
    requires forall e :: e in list <==> e.name in power && power[e.name] == e.power
    ensures Descending(list) && DistinctNames(list) && Powers(list) == power
  {
    forall i, j | 0 <= i < j < |list| ensures list[i].power >= list[j].power && list[i].name != list[j].name {
      assert ByPowerDescending(list[i]) <= ByPowerDescending(list[j]);
      assert list[i] in list && list[j] in list;
    }
    PowersKeys(list);
    forall x | x in power ensures x in Names(list) {
      assert EntityEntry(x, power[x]) in list;
    }
    forall x | x in Names(list) ensures x in power && Powers(list)[x] == power[x] {
      var i :| 0 <= i < |list| && list[i].name == x;
      assert list[i] in list;
    }
  }

  lemma TokensNext(validators: seq<Validator>, n: nat)
    requires n < |validators|
    ensures Sum(TokensUpTo(validators, n + 1)) == Sum(TokensUpTo(validators, n)) + validators[n].tokens
  {
    assert TokensUpTo(validators, n + 1) == TokensUpTo(validators, n)[n := validators[n].tokens];
    SumInsert(TokensUpTo(validators, n), n, validators[n].tokens);
  }

  method TotalBonded(validators: seq<Validator>) returns (total: Amount)
    ensures total == Sum(Tokens(validators))
  {
    total := 0.0;
    assert TokensUpTo(validators, 0) == map[];
    for i := 0 to |validators|
      invariant total == Sum(TokensUpTo(validators, i))
    {
      TokensNext(validators, i);
      total := total + validators[i].tokens;
    }
  }

  /** Grouping conserves power, so both thresholds are reached. */
  lemma GroupingConserves(validators: seq<Validator>, entityMap: map<string, string>)
    ensures Sum(EntityPowers(validators, entityMap)) == Sum(Tokens(validators))
  {
    GroupsConserve(Tokens(validators), Owners(validators, entityMap));
  }

  ghost function HaltThreshold(validators: seq<Validator>): real {
    Sum(Tokens(validators)) / 3.0
  }

  ghost function SafetyThreshold(validators: seq<Validator>): real {
    Sum(Tokens(validators)) * 2.0 / 3.0
  }

  /** The coefficients of one cycle; none are published without any bonded power. */
  method ComputeCoefficients(validators: seq<Validator>, entityMap: map<string, string>)
    returns (c: Option<Coefficients>)
    ensures c.Some? <==> Sum(Tokens(validators)) > 0.0
    ensures c.Some? ==>
      var total, powers := Sum(Tokens(validators)), EntityPowers(validators, entityMap);
      && IsEntityPowers(powers, validators, entityMap)
      && IsLeastCount(powers, HaltThreshold(validators), c.value.halt)
      && IsLeastCount(powers, SafetyThreshold(validators), c.value.safety)
      && IsLargest(powers, c.value.largestShare.numerator) && c.value.largestShare.denominator == total
      && c.value.halt <= c.value.safety
  {
    var total := TotalBonded(validators);
    var power := GroupByEntity(validators, entityMap);
    var entities := SortEntities(power);
    GroupingConserves(validators, entityMap);
    if total > 0.0 && |entities| > 0 {
      FirstIsLargest(entities);
      var halt := CountUntil(entities, total / 3.0);
      var safety := CountUntil(entities, total * 2.0 / 3.0);
      HigherThresholdNeedsMore(power, total / 3.0, total * 2.0 / 3.0, halt, safety);
      return Some(Coefficients(Fraction(entities[0].power, total), halt, safety));
    }
    return None;
  }

  lemma FirstIsLargest(list: seq<EntityEntry>)
    requires list != [] && Descending(list) && DistinctNames(list)
    ensures IsLargest(Powers(list), list[0].power)
  {
    PowersKeys(list);
    assert list[0].name in Names(list);
    forall x | x in Powers(list) ensures Powers(list)[x] <= list[0].power {
      var i :| 0 <= i < |list| && list[i].name == x;
    }
  }

  // ----- coarser grouping never raises a coefficient

  lemma {:induction false} ImageIsNoLarger<K, G>(chosen: set<K>, tag: map<K, G>)
    requires chosen <= tag.Keys
    ensures |set k | k in chosen :: tag[k]| <= |chosen|
    decreases |chosen|
  {
    var image := set k | k in chosen :: tag[k];
    if chosen == {} {
    } else {
      var k :| k in chosen;
      ImageIsNoLarger(chosen - {k}, tag);
      var rest := set j | j in chosen - {k} :: tag[j];
      assert image == rest + {tag[k]};
    }
  }

  /** The groups of the chosen members hold at least what those members hold. */
  lemma GroupsHoldMembers<K(!new), G(!new)>(m: map<K, Amount>, tag: map<K, G>, chosen: set<K>)
    requires m.Keys <= tag.Keys && chosen <= m.Keys
    ensures var image := set k | k in chosen :: tag[k];
      Sum(Restrict(m, chosen)) <= Sum(Restrict(Groups(m, tag), image))
  {
    var image := set k | k in chosen :: tag[k];
    var members := map k | k in m && tag[k] in image :: m[k];
    SumMonotone(Restrict(m, chosen), members);
    GroupsConserve(members, tag);
    forall g | g in image ensures Part(members, tag, g) == Part(m, tag, g) {
    }
    assert Groups(members, tag) == Restrict(Groups(m, tag), image);
  }

  /** However members are grouped, no more groups than members are needed to reach a threshold. */
  lemma CoarserNeedsNoMore<K(!new), G(!new)>(m: map<K, Amount>, tag: map<K, G>, threshold: real, fine: nat, coarse: nat)
    requires m.Keys <= tag.Keys
    requires IsLeastCount(m, threshold, fine) && IsLeastCount(Groups(m, tag), threshold, coarse)
    ensures coarse <= fine
  {
    var chosen: set<K> :| |chosen| == fine && chosen <= m.Keys && Sum(Restrict(m, chosen)) >= threshold;
    var image := set k | k in chosen :: tag[k];
    ImageIsNoLarger(chosen, tag);
    GroupsHoldMembers(m, tag, chosen);
    assert image <= Groups(m, tag).Keys;
  }

  lemma CoarserIsLarger<K(!new), G(!new)>(m: map<K, Amount>, tag: map<K, G>, p: Amount, q: Amount)
    requires m.Keys <= tag.Keys && IsLargest(m, p) && IsLargest(Groups(m, tag), q)
    ensures p <= q
  {
    var k :| k in m && m[k] == p;
    var part := Part(m, tag, tag[k]);
    SumRemove(part, k);
    assert tag[k] in Groups(m, tag);
  }

  /**
   For every entity assignment: the halt and safety counts are at most those with each validator alone, and
   the largest entity holds at least what the largest validator holds.
   */
  lemma GroupingNeverRaises(validators: seq<Validator>, entityMap: map<string, string>, threshold: real,
                            alone: nat, grouped: nat, largestValidator: Amount, largestEntity: Amount)
    requires IsLeastCount(Tokens(validators), threshold, alone)
    requires IsLeastCount(EntityPowers(validators, entityMap), threshold, grouped)
    requires IsLargest(Tokens(validators), largestValidator)
    requires IsLargest(EntityPowers(validators, entityMap), largestEntity)
    ensures grouped <= alone && largestValidator <= largestEntity
  {
    CoarserNeedsNoMore(Tokens(validators), Owners(validators, entityMap), threshold, alone, grouped);
    CoarserIsLarger(Tokens(validators), Owners(validators, entityMap), largestValidator, largestEntity);
  }

  /** Whatever a set of members reaches, some least number of members reaches. */
  lemma {:induction false} LeastCountBelow<K(!new)>(m: map<K, Amount>, threshold: real, chosen: set<K>)
    requires chosen <= m.Keys && Sum(Restrict(m, chosen)) >= threshold
    ensures exists n: nat :: IsLeastCount(m, threshold, n)
    decreases |chosen|
  {
    if fewer: set<K> :| |fewer| < |chosen| && fewer <= m.Keys && Sum(Restrict(m, fewer)) >= threshold {
      LeastCountBelow(m, threshold, fewer);
    } else {
      assert IsLeastCount(m, threshold, |chosen|);
    }
  }

  lemma LeastCountExists<K(!new)>(m: map<K, Amount>, threshold: real)
    requires threshold <= Sum(m)
    ensures exists n: nat :: IsLeastCount(m, threshold, n)
  {
    assert Restrict(m, m.Keys) == m;
    LeastCountBelow(m, threshold, m.Keys);
  }

  /** With each validator alone at least as many are needed. */
  ghost predicate NotAboveAlone(validators: seq<Validator>, threshold: real, grouped: nat) {
    exists alone: nat :: IsLeastCount(Tokens(validators), threshold, alone) && grouped <= alone
  }

  lemma GroupedIsNotAboveAlone(validators: seq<Validator>, entityMap: map<string, string>, threshold: real,
                               grouped: nat)
    requires threshold <= Sum(Tokens(validators))
    requires IsLeastCount(EntityPowers(validators, entityMap), threshold, grouped)
    ensures NotAboveAlone(validators, threshold, grouped)
  {
    LeastCountExists(Tokens(validators), threshold);
    var alone: nat :| IsLeastCount(Tokens(validators), threshold, alone);
    CoarserNeedsNoMore(Tokens(validators), Owners(validators, entityMap), threshold, alone, grouped);
  }

  lemma ThresholdsAreReached(validators: seq<Validator>)
    ensures HaltThreshold(validators) <= SafetyThreshold(validators) <= Sum(Tokens(validators))
  {
  }

  /** Neither published count is above the one with each validator alone, whatever the entity assignment. */
  lemma PublishedCountsNeverRise(validators: seq<Validator>, entityMap: map<string, string>, halt: nat, safety: nat)
    requires IsLeastCount(EntityPowers(validators, entityMap), HaltThreshold(validators), halt)
    requires IsLeastCount(EntityPowers(validators, entityMap), SafetyThreshold(validators), safety)
    ensures NotAboveAlone(validators, HaltThreshold(validators), halt)
    ensures NotAboveAlone(validators, SafetyThreshold(validators), safety)
  {
    ThresholdsAreReached(validators);
    GroupedIsNotAboveAlone(validators, entityMap, HaltThreshold(validators), halt);
    GroupedIsNotAboveAlone(validators, entityMap, SafetyThreshold(validators), safety);
  }
}
