/**
 Jail arithmetic: the rounded signing minimum (collector/queries.go) and the headroom to the jail boundary
 (collector/collector.go).
 */
module Slashing {
  import opened Basics

  /** A decimal ratio as an exact fraction. */
  datatype Ratio = Ratio(num: int, den: int)
  datatype SlashingParams = SlashingParams(
    window: int,
    minSigned: int,
    maxMissed: int,
    doubleSign: Ratio,
    downtime: Ratio)

  /** A field that reads as a ratio from 0 to 1. */
  predicate IsRatio(r: Option<Ratio>) {
    r.Some? && 0 < r.value.den && 0 <= r.value.num <= r.value.den
  }

  ghost predicate FromZeroToOne(r: Option<Ratio>) {
    match r
    case None => false
    case Some(Ratio(num, den)) => 0 <= num && 0 < den && num <= den
  }

  // ----- the rounded minimum

  /** `n` is the integer nearest to `x / den`, the larger one on a tie. */
  ghost predicate IsNearest(x: int, den: int, n: int) {
    2 * x - den < 2 * (n * den) <= 2 * x + den
  }

  function RoundTiesUp(x: int, den: int): int
    requires 0 <= x && 0 < den
  {
    var quotient, remainder := x / den, x % den;
    if 2 * remainder >= den then quotient + 1 else quotient
  }

  function ParseMinSignedBlocks(ratio: Option<Ratio>, window: int): Option<int> {
    if !IsRatio(ratio) || window < 0 then None
    else
      ProductIsNatural(ratio.value.num, window);
      Some(RoundTiesUp(ratio.value.num * window, ratio.value.den))
  }

  lemma RoundIsNearest(x: int, den: int)
    requires 0 <= x && 0 < den
    ensures IsNearest(x, den, RoundTiesUp(x, den))
  {
    var quotient := x / den;
    assert x == quotient * den + x % den;
    assert (quotient + 1) * den == quotient * den + den;
  }

  /** The rounding is a property of the ratio, not of the fraction it happens to be written as. */
  lemma NearestIsUnique(x: int, den: int, m: int, n: int)
    requires 0 < den && IsNearest(x, den, m) && IsNearest(x, den, n)
    ensures m == n
  {
    if m < n {
      Multiples(m, n, den);
    } else if n < m {
      Multiples(n, m, den);
    }
  }

  lemma Factor(scale: int, a: int, b: int)
    requires 0 < scale
    ensures scale * a < scale * b <==> a < b
  {
    if a < b {
      Multiples(a, b, scale);
    } else if b < a {
      Multiples(b, a, scale);
    }
  }

  lemma Regroup(n: int, scale: int, den: int)
    ensures n * (scale * den) == scale * (n * den)
  {
  }

  /** Both bounds of the interval scale together. */
  lemma BoundsScale(scale: int, x: int, den: int)
    ensures scale * (2 * x - den) == 2 * (scale * x) - scale * den
    ensures scale * (2 * x + den) == 2 * (scale * x) + scale * den
  {
  }

  /** Writing the fraction with a common factor changes nothing. */
  lemma NearestScales(x: int, den: int, n: int, scale: int)
    requires 0 < scale
    ensures IsNearest(scale * x, scale * den, n) <==> IsNearest(x, den, n)
  {
    Regroup(n, scale, den);
    BoundsScale(scale, x, den);
    Factor(scale, 2 * x - den, 2 * (n * den));
    Factor(scale, 2 * x + den, 2 * (n * den));
  }

  lemma PartOfWindow(num: int, den: int, window: int)
    requires 0 <= num <= den && 0 <= window
    ensures 0 <= num * window <= den * window
  {
    ProductIsNatural(num, window);
    ProductIsNatural(den - num, window);
    assert (den - num) * window == den * window - num * window;
  }

  lemma NearestStaysBelow(x: int, den: int, n: int, window: int)
    requires 0 < den && 0 <= x <= den * window && IsNearest(x, den, n)
    ensures 0 <= n <= window
  {
    assert window * den == den * window;
    if n > window {
      Multiples(window, n, den);
    } else if n < 0 {
      Multiples(n, 0, den);
    }
  }

  /** Every valid ratio rounds to the nearest count of blocks, and never outside the window. */
  lemma MinimumIsNearest(r: Ratio, window: int)
    requires 0 <= r.num <= r.den && 0 < r.den && 0 <= window
    ensures var n := ParseMinSignedBlocks(Some(r), window);
      n.Some? && IsNearest(r.num * window, r.den, n.value) && 0 <= n.value <= window
  {
    PartOfWindow(r.num, r.den, window);
    RoundIsNearest(r.num * window, r.den);
    NearestStaysBelow(r.num * window, r.den, RoundTiesUp(r.num * window, r.den), window);
  }

  function ParseSlashingParams(window: Option<int>, minSigned: Option<Ratio>, doubleSign: Option<Ratio>,
                               downtime: Option<Ratio>): (p: Option<SlashingParams>)
    ensures p.Some? ==>
      && window == Some(p.value.window) && 0 <= p.value.minSigned && minSigned.Some?
      && IsNearest(minSigned.value.num * window.value, minSigned.value.den, p.value.minSigned)
      && Some(p.value.doubleSign) == doubleSign && Some(p.value.downtime) == downtime
      && 0 < p.value.maxMissed && p.value.minSigned + p.value.maxMissed == p.value.window
  {
    if window.None? || window.value <= 0 then None
    else
      match ParseMinSignedBlocks(minSigned, window.value)
      case None => None
      case Some(n) =>
        MinimumIsNearest(minSigned.value, window.value);
        if !IsRatio(doubleSign) || !IsRatio(downtime) || window.value - n <= 0 then None
        else Some(SlashingParams(window.value, n, window.value - n, doubleSign.value, downtime.value))
  }

  /** The signed share of the window, before rounding, is more than half a block below the whole window. */
  ghost predicate LeavesRoom(r: Ratio, window: int) {
    2 * (r.num * window) + r.den < 2 * (window * r.den)
  }

  lemma NearestLeavesRoom(r: Ratio, window: int, n: int)
    requires 0 < r.den && IsNearest(r.num * window, r.den, n)
    ensures n < window <==> LeavesRoom(r, window)
  {
    if n < window {
      Multiples(n, window, r.den);
    } else if window < n {
      Multiples(window, n, r.den);
    }
  }

  /**
   Parameters are accepted exactly when every field reads as what it should be and the ratio asks for so few
   signed blocks that one may be missed.
   */
  lemma AcceptedIffRoom(window: Option<int>, minSigned: Option<Ratio>, doubleSign: Option<Ratio>,
                        downtime: Option<Ratio>)
    ensures ParseSlashingParams(window, minSigned, doubleSign, downtime).Some? <==>
      && window.Some? && 0 < window.value
      && FromZeroToOne(minSigned) && FromZeroToOne(doubleSign) && FromZeroToOne(downtime)
      && LeavesRoom(minSigned.value, window.value)
  {
    if window.Some? && 0 < window.value && IsRatio(minSigned) {
      MinimumIsNearest(minSigned.value, window.value);
      NearestLeavesRoom(minSigned.value, window.value, ParseMinSignedBlocks(minSigned, window.value).value);
    }
  }

  // ----- headroom to the boundary

  function BlocksUntilJail(maxMissed: int, missed: int): int {
    var remaining := maxMissed - missed + 1;
    if remaining < 0 then 0 else remaining
  }

  /** It is the least number of counter increments after which the strict check `missed > maxMissed` holds. */
  lemma HeadroomIsLeast(maxMissed: int, missed: int, increments: nat)
    ensures missed + increments > maxMissed <==> increments >= BlocksUntilJail(maxMissed, missed)
    ensures BlocksUntilJail(maxMissed, missed) == 0 <==> missed > maxMissed
  {
  }

  /** The sliding window: one entry a block, oldest first, true for a missed block. */
  ghost function Missed(window: seq<bool>): nat {
    if window == [] then 0 else (if window[0] then 1 else 0) + Missed(window[1..])
  }

  ghost function AfterBlock(window: seq<bool>, missed: bool): seq<bool>
    requires window != []
  {
    window[1..] + [missed]
  }

  ghost function AfterBlocks(window: seq<bool>, future: seq<bool>): seq<bool>
    requires window != []
    decreases |future|
  {
    if future == [] then window else AfterBlocks(AfterBlock(window, future[0]), future[1..])
  }

  lemma {:induction false} MissedAppend(window: seq<bool>, more: seq<bool>)
    ensures Missed(window + more) == Missed(window) + Missed(more)
  {
    if window == [] {
      assert window + more == more;
    } else {
      assert (window + more)[1..] == window[1..] + more;
      MissedAppend(window[1..], more);
    }
  }

  lemma OneBlock(window: seq<bool>, missed: bool)
    requires window != []
    ensures Missed(AfterBlock(window, missed)) ==
      Missed(window) - (if window[0] then 1 else 0) + (if missed then 1 else 0)
  {
    MissedAppend(window[1..], [missed]);
    assert Missed([missed]) == if missed then 1 else 0;
  }

  /**
   Whatever the window holds and whatever the validator signs from here on, the counter cannot pass the
   maximum in fewer blocks than the headroom.
   */
  lemma {:induction false} HeadroomIsSound(window: seq<bool>, future: seq<bool>, maxMissed: int)
    requires window != [] && |future| < BlocksUntilJail(maxMissed, Missed(window))
    ensures Missed(AfterBlocks(window, future)) <= maxMissed
    decreases |future|
  {
    if future == [] {
    } else {
      OneBlock(window, future[0]);
      HeadroomIsSound(AfterBlock(window, future[0]), future[1..], maxMissed);
    }
  }

  /** The bound is reached: missing every block passes the maximum at once if only signed blocks fall out. */
  lemma {:induction false} HeadroomIsReached(window: seq<bool>, n: nat, maxMissed: int)
    requires window != [] && n == BlocksUntilJail(maxMissed, Missed(window)) && n <= |window|
    requires forall i :: 0 <= i < n ==> !window[i]
    ensures Missed(AfterBlocks(window, seq(n, i => true))) > maxMissed
    decreases n
  {
    if n == 0 {
    } else {
      var next := AfterBlock(window, true);
      OneBlock(window, true);
      HeadroomIsReached(next, n - 1, maxMissed);
      assert seq(n, i => true)[1..] == seq(n - 1, i => true);
    }
  }

  lemma {:induction false} SignedAndMissed(window: seq<bool>)
    ensures Missed(window) + Missed(seq(|window|, i requires 0 <= i < |window| => !window[i])) == |window|
  {
    if window == [] {
    } else {
      SignedAndMissed(window[1..]);
      assert seq(|window|, i requires 0 <= i < |window| => !window[i])[1..] ==
             seq(|window| - 1, i requires 0 <= i < |window| - 1 => !window[1..][i]);
    }
  }

  /** End to end: the counter is past the maximum exactly when fewer blocks are signed than the ratio asks for. */
  lemma JailedIffTooFewSigned(window: seq<bool>, ratio: Ratio, doubleSign: Option<Ratio>, downtime: Option<Ratio>,
                              n: int)
    requires ParseSlashingParams(Some(|window|), Some(ratio), doubleSign, downtime).Some?
    requires IsNearest(ratio.num * |window|, ratio.den, n)
    ensures var signed := seq(|window|, i requires 0 <= i < |window| => !window[i]);
      Missed(window) > ParseSlashingParams(Some(|window|), Some(ratio), doubleSign, downtime).value.maxMissed <==>
        Missed(signed) < n
  {
    SignedAndMissed(window);
    MinimumIsNearest(ratio, |window|);
    NearestIsUnique(ratio.num * |window|, ratio.den, n, ParseMinSignedBlocks(Some(ratio), |window|).value);
  }
}
