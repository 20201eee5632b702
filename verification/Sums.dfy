/**
 The collector adds `float64` amounts while ranging over maps in no fixed order.
 `Sum` is the order-free total of a map; amounts are exact non-negative reals.
 */
module Sums {
  type Amount = x: real | 0.0 <= x

  /** The map of a list of keyed values; the last entry of a key decides. */
  ghost function Tabulate<T, K, V>(list: seq<T>, key: T -> K, value: T -> V): map<K, V> {
    if list == [] then map[]
    else
      var n := |list| - 1;
      Tabulate(list[..n], key, value)[key(list[n]) := value(list[n])]
  }

  /** A published ratio, kept exact. */
  datatype Fraction = Fraction(numerator: Amount, denominator: Amount)

  /** The number that a gauge shows for a ratio; it shows zero when there is nothing to divide by. */
  ghost function ValueOf(f: Fraction): real {
    if f.denominator > 0.0 then f.numerator / f.denominator else 0.0
  }

  /** Comparing a ratio without dividing. */
  lemma ValueAgainst(f: Fraction, limit: real)
    requires f.denominator > 0.0
    ensures ValueOf(f) > limit <==> f.numerator > limit * f.denominator
    ensures ValueOf(f) >= limit <==> f.numerator >= limit * f.denominator
  {
    var v := ValueOf(f);
    assert v * f.denominator == f.numerator;
    if v > limit {
      Larger(limit, v, f.denominator);
    } else if v < limit {
      Larger(v, limit, f.denominator);
    }
  }

  lemma Larger(x: real, y: real, d: real)
    requires x < y && d > 0.0
    ensures x * d < y * d
  {
    assert (y - x) * d > 0.0;
  }

  ghost function Sum<K(!new)>(m: map<K, Amount>): Amount
    decreases |m|
  {
    if m == map[] then 0.0
    else
      var k :| k in m;
      assert (m - {k}).Keys == m.Keys - {k};
      m[k] + Sum(m - {k})
  }

  /** The keys of `m` that `tag` puts in group `g`. */
  ghost function Part<K, G>(m: map<K, Amount>, tag: map<K, G>, g: G): map<K, Amount>
    requires m.Keys <= tag.Keys
  {
    map k | k in m && tag[k] == g :: m[k]
  }

  /** The total of every group that occurs in `m`. */
  ghost function Groups<K(!new), G>(m: map<K, Amount>, tag: map<K, G>): map<G, Amount>
    requires m.Keys <= tag.Keys
  {
    map g | g in (set k | k in m :: tag[k]) :: Sum(Part(m, tag, g))
  }

  function Plus<G>(m: map<G, Amount>, g: G, v: Amount): map<G, Amount> {
    m[g := (if g in m then m[g] else 0.0) + v]
  }

  /** The total does not depend on which key is taken first. */
  lemma {:induction false} SumRemove<K(!new)>(m: map<K, Amount>, k: K)
    requires k in m
    ensures Sum(m) == m[k] + Sum(m - {k})
    decreases |m|
  {
    var j :| j in m && Sum(m) == m[j] + Sum(m - {j});
    if j != k {
      assert (m - {j}).Keys == m.Keys - {j} && (m - {k}).Keys == m.Keys - {k};
      SumRemove(m - {j}, k);
      SumRemove(m - {k}, j);
      assert m - {j} - {k} == m - {k} - {j};
    }
  }

  lemma SumInsert<K(!new)>(m: map<K, Amount>, k: K, v: Amount)
    requires k !in m
    ensures Sum(m[k := v]) == Sum(m) + v
  {
    SumRemove(m[k := v], k);
    assert m[k := v] - {k} == m;
  }

  lemma SumPlus<G(!new)>(m: map<G, Amount>, g: G, v: Amount)
    ensures Sum(Plus(m, g, v)) == Sum(m) + v
  {
    if g in m {
      SumRemove(m, g);
      SumRemove(Plus(m, g, v), g);
      assert Plus(m, g, v) - {g} == m - {g};
    } else {
      SumInsert(m, g, v);
    }
  }

  lemma {:induction false} SumMonotone<K(!new)>(a: map<K, Amount>, b: map<K, Amount>)
    requires a.Keys <= b.Keys
    requires forall k :: k in a ==> a[k] <= b[k]
    ensures Sum(a) <= Sum(b)
    decreases |a|
  {
    if a == map[] {
    } else {
      var k :| k in a;
      SumRemove(a, k);
      SumRemove(b, k);
      assert (a - {k}).Keys == a.Keys - {k};
      SumMonotone(a - {k}, b - {k});
    }
  }

  /** Adding one labelled amount changes exactly one group: the step of every grouping loop. */
  lemma GroupsStep<K(!new), G(!new)>(m: map<K, Amount>, tag: map<K, G>, k: K, v: Amount)
    requires m.Keys <= tag.Keys && k in tag && k !in m
    ensures Groups(m[k := v], tag) == Plus(Groups(m, tag), tag[k], v)
  {
    var n, g := m[k := v], tag[k];
    forall x | x in Groups(n, tag)
      ensures x in Plus(Groups(m, tag), g, v) && Groups(n, tag)[x] == Plus(Groups(m, tag), g, v)[x]
    {
      if x == g {
        assert Part(n, tag, g) == Part(m, tag, g)[k := v];
        SumInsert(Part(m, tag, g), k, v);
        if g !in Groups(m, tag) {
          assert Part(m, tag, g) == map[];
        }
      } else {
        assert Part(n, tag, x) == Part(m, tag, x);
        assert x in Groups(m, tag);
      }
    }
    assert n[k] == v;
    forall x | x in Plus(Groups(m, tag), g, v) ensures x in Groups(n, tag) {
      if x == g {
        assert k in n && tag[k] == g;
      } else {
        var j :| j in m && tag[j] == x;
        assert j in n;
      }
    }
  }

  /** Grouping conserves the total, whatever the grouping. */
  lemma {:induction false} GroupsConserve<K(!new), G(!new)>(m: map<K, Amount>, tag: map<K, G>)
    requires m.Keys <= tag.Keys
    ensures Sum(Groups(m, tag)) == Sum(m)
    decreases |m|
  {
    if m == map[] {
      assert Groups(m, tag) == map[];
    } else {
      var k :| k in m;
      var rest := m - {k};
      assert rest.Keys == m.Keys - {k} && m == rest[k := m[k]];
      GroupsConserve(rest, tag);
      GroupsStep(rest, tag, k, m[k]);
      SumPlus(Groups(rest, tag), tag[k], m[k]);
      SumInsert(rest, k, m[k]);
    }
  }

  /** Summing ones counts the keys. */
  lemma {:induction false} SumOfOnes<K(!new)>(m: map<K, Amount>)
    requires forall k :: k in m ==> m[k] == 1.0
    ensures Sum(m) == |m| as real
    decreases |m|
  {
    if m == map[] {
    } else {
      var k :| k in m;
      SumRemove(m, k);
      assert (m - {k}).Keys == m.Keys - {k};
      SumOfOnes(m - {k});
    }
  }

  /** Any choice of keys splits the total in two. */
  lemma {:induction false} SumSplit<K(!new)>(m: map<K, Amount>, keys: set<K>)
    ensures Sum(m) == Sum(map k | k in m && k in keys :: m[k]) + Sum(map k | k in m && k !in keys :: m[k])
    decreases |m|
  {
    var inside, outside := map k | k in m && k in keys :: m[k], map k | k in m && k !in keys :: m[k];
    if m == map[] {
      assert inside == map[] && outside == map[];
    } else {
      var x :| x in m;
      var rest := m - {x};
      assert rest.Keys == m.Keys - {x};
      SumSplit(rest, keys);
      SumRemove(m, x);
      if x in keys {
        SumRemove(inside, x);
        assert inside - {x} == (map k | k in rest && k in keys :: rest[k]);
        assert outside == (map k | k in rest && k !in keys :: rest[k]);
      } else {
        SumRemove(outside, x);
        assert outside - {x} == (map k | k in rest && k !in keys :: rest[k]);
        assert inside == (map k | k in rest && k in keys :: rest[k]);
      }
    }
  }
}
