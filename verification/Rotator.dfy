/** The shared endpoint selection and the retry loop over it (collector/rotator.go). */
module Rotator {
  import opened Basics

  const MAX_ATTEMPTS: nat := 3

  /** White space as `strings.TrimSpace` sees it in an ASCII URL. */
  predicate IsSpace(c: char) {
    c == ' ' || c == '\t' || c == '\n' || c == '\r' || c == '\U{0B}' || c == '\U{0C}'
  }

  function TrimRight(s: string, drop: char -> bool): (t: string)
    ensures t <= s && (t != [] ==> !drop(t[|t| - 1]))
    ensures forall i :: |t| <= i < |s| ==> drop(s[i])
  {
    if s != [] && drop(s[|s| - 1]) then TrimRight(s[..|s| - 1], drop) else s
  }

  function TrimLeft(s: string, drop: char -> bool): (t: string)
    ensures |t| <= |s| && t == s[|s| - |t|..] && (t != [] ==> !drop(t[0]))
    ensures forall i :: 0 <= i < |s| - |t| ==> drop(s[i])
  {
    if s != [] && drop(s[0]) then TrimLeft(s[1..], drop) else s
  }

  predicate IsSlash(c: char) {
    c == '/'
  }

  function Clean(url: string): string {
    TrimRight(TrimRight(TrimLeft(url, IsSpace), IsSpace), IsSlash)
  }

  /** What one candidate contributes. */
  function Kept(url: string): (bases: seq<string>)
    ensures "" !in bases
  {
    if Clean(url) == "" then [] else [Clean(url)]
  }

  function Collect<T, U>(list: seq<T>, keep: T -> seq<U>): seq<U> {
    if list == [] then [] else Collect(list[..|list| - 1], keep) + keep(list[|list| - 1])
  }

  /** The usable candidates, in order. */
  function Cleaned(urls: seq<string>): seq<string> {
    Collect(urls, Kept)
  }

  lemma {:induction false} CollectAppend<T, U>(a: seq<T>, b: seq<T>, keep: T -> seq<U>)
    ensures Collect(a + b, keep) == Collect(a, keep) + Collect(b, keep)
    decreases |b|
  {
    if b == [] {
      assert a + b == a;
    } else {
      var n := |b| - 1;
      CollectAppend(a, b[..n], keep);
      assert (a + b)[..|a + b| - 1] == a + b[..n];
    }
  }

  lemma CollectOne<T, U>(x: T, keep: T -> seq<U>)
    ensures Collect([x], keep) == keep(x)
  {
    assert [x][..0] == [];
  }

  lemma {:induction false} NoneIsBlank(urls: seq<string>)
    ensures "" !in Cleaned(urls)
  {
    if urls == [] {
    } else {
      NoneIsBlank(urls[..|urls| - 1]);
    }
  }

  ghost predicate AllSpace(s: string) {
    forall i :: 0 <= i < |s| ==> s[i] in [' ', '\t', '\n', '\r', '\U{0B}', '\U{0C}']
  }

  ghost predicate AllSlash(s: string) {
    forall i :: 0 <= i < |s| ==> s[i] == '/'
  }

  /** `t` is `url` without the white space around it and the slashes before the trailing part of that. */
  ghost predicate IsCleanOf(t: string, url: string) {
    exists lead, slashes, trail ::
      && url == lead + t + slashes + trail && AllSpace(lead) && AllSlash(slashes) && AllSpace(trail)
      && NoSpaceAround(t + slashes) && (t != [] ==> t[|t| - 1] != '/')
  }

  ghost predicate NoSpaceAround(s: string) {
    s != [] ==> !AllSpace([s[0]]) && !AllSpace([s[|s| - 1]])
  }

  lemma SpaceIs(c: char)
    ensures IsSpace(c) <==> AllSpace([c])
  {
    assert [c][0] == c;
  }

  lemma AllAreSpace(s: string)
    requires forall i :: 0 <= i < |s| ==> IsSpace(s[i])
    ensures AllSpace(s)
  {
    forall i | 0 <= i < |s| ensures s[i] in [' ', '\t', '\n', '\r', '\U{0B}', '\U{0C}'] {
      SpaceIs(s[i]);
      assert [s[i]][0] == s[i];
    }
  }

  ghost predicate IsTrimmedLeft(url: string, left: string) {
    && |left| <= |url| && left == url[|url| - |left|..] && (left != [] ==> !IsSpace(left[0]))
    && forall i :: 0 <= i < |url| - |left| ==> IsSpace(url[i])
  }

  ghost predicate IsTrimmedRight(s: string, t: string, drop: char -> bool) {
    t <= s && (t != [] ==> !drop(t[|t| - 1])) && forall i :: |t| <= i < |s| ==> drop(s[i])
  }

  lemma TrimmedSpace(url: string, left: string, trimmed: string)
    requires IsTrimmedLeft(url, left) && IsTrimmedRight(left, trimmed, IsSpace)
    ensures var lead, trail := url[..|url| - |left|], left[|trimmed|..];
      url == lead + trimmed + trail && AllSpace(lead) && AllSpace(trail) && NoSpaceAround(trimmed)
  {
    AllAreSpace(url[..|url| - |left|]);
    AllAreSpace(left[|trimmed|..]);
    if trimmed != [] {
      SpaceIs(trimmed[0]);
      SpaceIs(trimmed[|trimmed| - 1]);
    }
  }

  lemma TrimmedSlashes(trimmed: string, t: string)
    requires IsTrimmedRight(trimmed, t, IsSlash)
    ensures trimmed == t + trimmed[|t|..] && AllSlash(trimmed[|t|..]) && (t != [] ==> t[|t| - 1] != '/')
  {
  }

  lemma CleanFrom(url: string, left: string, trimmed: string, t: string)
    requires IsTrimmedLeft(url, left) && IsTrimmedRight(left, trimmed, IsSpace)
    requires IsTrimmedRight(trimmed, t, IsSlash)
    ensures IsCleanOf(t, url)
  {
    TrimmedSpace(url, left, trimmed);
    TrimmedSlashes(trimmed, t);
    CleanBy(url, url[..|url| - |left|], t, trimmed[|t|..], left[|trimmed|..]);
  }

  /** A URL loses exactly the white space around it and then its trailing slashes. */
  lemma CleanIs(url: string)
    ensures IsCleanOf(Clean(url), url)
  {
    var left := TrimLeft(url, IsSpace);
    var trimmed := TrimRight(left, IsSpace);
    CleanFrom(url, left, trimmed, TrimRight(trimmed, IsSlash));
  }

  lemma CleanBy(url: string, lead: string, t: string, slashes: string, trail: string)
    requires url == lead + (t + slashes) + trail && AllSpace(lead) && AllSlash(slashes) && AllSpace(trail)
    requires NoSpaceAround(t + slashes) && (t != [] ==> t[|t| - 1] != '/')
    ensures IsCleanOf(t, url)
  {
    assert url == lead + t + slashes + trail;
  }

  /** The candidates keep their order, and exactly the blank ones are dropped. */
  lemma CleanedInOrder(a: seq<string>, b: seq<string>, url: string)
    ensures Cleaned(a + b) == Cleaned(a) + Cleaned(b)
    ensures Cleaned([url]) == if Clean(url) == "" then [] else [Clean(url)]
  {
    CollectAppend(a, b, Kept);
    CollectOne(url, Kept);
  }

  /** The first position of `url` at or after `i`, or the start of the list. */
  function IndexFrom(bases: seq<string>, url: string, i: nat): (r: nat)
    requires i <= |bases|
    ensures url in bases[i..] ==> i <= r < |bases| && bases[r] == url && forall k :: i <= k < r ==> bases[k] != url
    ensures url !in bases[i..] ==> r == 0
    decreases |bases| - i
  {
    if i == |bases| then 0
    else if bases[i] == url then i
    else
      assert bases[i..] == [bases[i]] + bases[i + 1..];
      IndexFrom(bases, url, i + 1)
  }

  datatype Selection = Selection(bases: seq<string>, current: nat)

  /** The selection is in range, or the list is empty. */
  ghost predicate InRange(s: Selection) {
    s.current < |s.bases| || (s.bases == [] && s.current == 0)
  }

  function Selected(s: Selection): string {
    if s.current < |s.bases| then s.bases[s.current] else ""
  }

  function Replaced(s: Selection, urls: seq<string>): Selection {
    Selection(Cleaned(urls), IndexFrom(Cleaned(urls), Selected(s), 0))
  }

  function Advanced(s: Selection): Selection {
    if |s.bases| > 0 then s.(current := (s.current + 1) % |s.bases|) else s
  }

  // ----- cyclic positions

  /** The position `k` steps after `start` in a cycle of `n`. */
  function Position(start: nat, k: nat, n: nat): nat
    requires 0 < n
  {
    (start + k) % n
  }

  /** Remainders are unique. */
  lemma {:induction false} ModBelow(q: nat, r: nat, n: nat)
    requires r < n
    ensures (q * n + r) % n == r
  {
    var x := q * n + r;
    var p := x / n;
    assert x == p * n + x % n;
    if p < q {
      Multiples(p, q, n);
    } else if p > q {
      Multiples(q, p, n);
    }
  }

  lemma PositionNext(start: nat, k: nat, n: nat)
    requires 0 < n
    ensures (Position(start, k, n) + 1) % n == Position(start, k + 1, n)
  {
    var q, r := (start + k) / n, (start + k) % n;
    assert start + k == q * n + r;
    if r + 1 < n {
      ModBelow(q, r + 1, n);
      ModBelow(0, r + 1, n);
    } else {
      assert start + k + 1 == (q + 1) * n;
      ModBelow(q + 1, 0, n);
      ModBelow(1, 0, n);
    }
  }

  lemma PositionWithin(start: nat, k: nat, n: nat)
    requires start < n && k <= n
    ensures Position(start, k, n) == if start + k < n then start + k else start + k - n
  {
    if start + k < n {
      ModBelow(0, start + k, n);
    } else {
      ModBelow(1, start + k - n, n);
    }
  }

  /** Fewer than `n` steps never come back to an earlier position; `n` steps come back to the start. */
  lemma CycleVisitsEachOnce(start: nat, n: nat, j: nat, k: nat)
    requires start < n && j < k <= n
    ensures Position(start, j, n) == Position(start, k, n) <==> j == 0 && k == n
  {
    PositionWithin(start, j, n);
    PositionWithin(start, k, n);
  }

  // ----- one request, with nobody else touching the selection

  /** What one attempt against a base URL gives; a final error is not retried. */
  datatype Answer = Answered | Failed | FinalError

  datatype Outcome = Success | NoEndpoint | Exhausted | Final

  /** Attempt `k` asked the position `k` steps after the start. */
  ghost predicate AsksAt(bases: seq<string>, start: nat, tried: seq<nat>, k: nat)
    requires bases != [] && k < |tried|
  {
    tried[k] < |bases| && tried[k] == Position(start, k, |bases|)
  }

  ghost predicate Got(bases: seq<string>, answer: (nat, string) -> Answer, tried: seq<nat>, k: int, reply: Answer) {
    0 <= k < |tried| && tried[k] < |bases| && answer(k, bases[tried[k]]) == reply
  }

  /** The positions asked follow the cycle, and every attempt before the last one failed. */
  ghost predicate IsTrail(bases: seq<string>, start: nat, answer: (nat, string) -> Answer, tried: seq<nat>) {
    && bases != [] && 0 < |tried| <= Min(|bases|, MAX_ATTEMPTS)
    && (forall k :: 0 <= k < |tried| ==> AsksAt(bases, start, tried, k))
    && (forall k :: 0 <= k < |tried| - 1 ==> Got(bases, answer, tried, k, Failed))
  }

  /** What a request promises: its outcome, the positions it asked, and the selection it leaves behind. */
  ghost predicate IsRequest(bases: seq<string>, start: nat, answer: (nat, string) -> Answer,
                            outcome: Outcome, tried: seq<nat>, current: nat) {
    match outcome
    case NoEndpoint => bases == [] && tried == [] && current == start
    case Success =>
      && IsTrail(bases, start, answer, tried)
      && Got(bases, answer, tried, |tried| - 1, Answered) && current == tried[|tried| - 1]
    case Final =>
      && IsTrail(bases, start, answer, tried)
      && Got(bases, answer, tried, |tried| - 1, FinalError) && current == tried[|tried| - 1]
    case Exhausted =>
      && IsTrail(bases, start, answer, tried)
      && Got(bases, answer, tried, |tried| - 1, Failed)
      && |tried| == Min(|bases|, MAX_ATTEMPTS) && current == Position(start, |tried|, |bases|)
  }

  /** A request never asks an endpoint twice, and is back where it started when every one of up to three failed. */
  lemma RequestIsFair(bases: seq<string>, start: nat, answer: (nat, string) -> Answer,
                      outcome: Outcome, tried: seq<nat>, current: nat)
    requires start < |bases| && IsRequest(bases, start, answer, outcome, tried, current)
    ensures forall j, k :: 0 <= j < k < |tried| ==> tried[j] != tried[k]
    ensures outcome == Exhausted ==> (current == start <==> |bases| <= 3)
    ensures current < |bases|
  {
    forall j, k | 0 <= j < k < |tried| ensures tried[j] != tried[k] {
      assert AsksAt(bases, start, tried, j) && AsksAt(bases, start, tried, k);
      CycleVisitsEachOnce(start, |bases|, j, k);
    }
    if outcome == Exhausted {
      CycleVisitsEachOnce(start, |bases|, 0, |tried|);
      PositionWithin(start, 0, |bases|);
      PositionWithin(start, |tried|, |bases|);
    }
  }

  // ----- the shared object

  /** The loop that drops blank candidates. */
  method CleanAll(urls: seq<string>) returns (cleaned: seq<string>)
    ensures cleaned == Cleaned(urls)
  {
    cleaned := [];
    for i := 0 to |urls|
      invariant cleaned == Cleaned(urls[..i])
    {
      assert urls[..i + 1][..i] == urls[..i];
      assert Cleaned(urls[..i + 1]) == Cleaned(urls[..i]) + Kept(urls[i]);
      var trimmed := Clean(urls[i]);
      if trimmed != "" {
        cleaned := cleaned + [trimmed];
      }
    }
    assert urls[..|urls|] == urls;
  }

  /** The loop that looks for the URL selected so far. */
  method Locate(bases: seq<string>, url: string) returns (current: nat)
    ensures current == IndexFrom(bases, url, 0)
  {
    for i := 0 to |bases|
      invariant IndexFrom(bases, url, 0) == IndexFrom(bases, url, i)
    {
      if bases[i] == url {
        return i;
      }
    }
    return 0;
  }

  class Rotator {
    var bases: seq<string>
    var current: nat

    function View(): Selection
      reads this
    {
      Selection(bases, current)
    }

    constructor ()
      ensures View() == Selection([], 0)
    {
      bases, current := [], 0;
    }

    /** Replaces the candidates and looks for the URL selected so far. */
    method Set(urls: seq<string>)
      modifies this
      ensures View() == Replaced(old(View()), urls) == Apply(old(View()), SetOp(urls))
    {
      var cleaned := CleanAll(urls);
      var previous := Base();
      var i := Locate(cleaned, previous);
      bases, current := cleaned, i;
    }

    method Base() returns (url: string)
      ensures url == Selected(View()) && View() == Apply(View(), BaseOp)
    {
      return if current < |bases| then bases[current] else "";
    }

    method Advance()
      modifies `current
      ensures View() == Advanced(old(View())) == Apply(old(View()), AdvanceOp)
    {
      if |bases| > 0 {
        current := (current + 1) % |bases|;
      }
    }

    method Budget() returns (n: nat)
      ensures n == Min(|bases|, 3)
    {
      return if |bases| < MAX_ATTEMPTS then |bases| else MAX_ATTEMPTS;
    }

    /** `answer(k, url)` is what attempt `k` gets from `url`; `tried` are the positions asked, in order. */
    method FetchJSONUnless(answer: (nat, string) -> Answer) returns (outcome: Outcome, tried: seq<nat>)
      requires InRange(View())
      modifies `current
      ensures IsRequest(bases, old(current), answer, outcome, tried, current)
    {
      tried := [];
      var attempts := Budget();
      if attempts == 0 {
        return NoEndpoint, tried;
      }
      ghost var start := current;
      PositionWithin(start, 0, |bases|);
      for k := 0 to attempts
        invariant |tried| == k && current == Position(start, k, |bases|) && current < |bases|
        invariant forall j :: 0 <= j < k ==> AsksAt(bases, start, tried, j)
        invariant forall j :: 0 <= j < k ==> Got(bases, answer, tried, j, Failed)
      {
        var base := Base();
        var before := tried;
        tried := tried + [current];
        TrailGrows(bases, start, answer, before, current);
        var reply := answer(k, base);
        if reply == Answered {
          return Success, tried;
        }
        if reply == FinalError {
          return Final, tried;
        }
        Advance();
        PositionNext(start, k, |bases|);
      }
      return Exhausted, tried;
    }
  }

  lemma TrailGrows(bases: seq<string>, start: nat, answer: (nat, string) -> Answer, tried: seq<nat>, next: nat)
    requires bases != [] && next < |bases| && next == Position(start, |tried|, |bases|)
    requires forall j :: 0 <= j < |tried| ==> AsksAt(bases, start, tried, j)
    requires forall j :: 0 <= j < |tried| ==> Got(bases, answer, tried, j, Failed)
    ensures forall j :: 0 <= j <= |tried| ==> AsksAt(bases, start, tried + [next], j)
    ensures forall j :: 0 <= j < |tried| ==> Got(bases, answer, tried + [next], j, Failed)
  {
    forall j | 0 <= j < |tried|
      ensures AsksAt(bases, start, tried + [next], j) && Got(bases, answer, tried + [next], j, Failed)
    {
      assert AsksAt(bases, start, tried, j) && Got(bases, answer, tried, j, Failed);
    }
  }

  // ----- any interleaving

  /** The atomic operations: each holds the mutex from start to end. */
  datatype Op = SetOp(urls: seq<string>) | BaseOp | AdvanceOp

  function Apply(s: Selection, op: Op): Selection {
    match op
    case SetOp(urls) => Replaced(s, urls)
    case BaseOp => s
    case AdvanceOp => Advanced(s)
  }

  /** The selections that a new rotator passes through, one for each operation of whatever request or refresh. */
  ghost predicate IsRun(ops: seq<Op>, run: seq<Selection>) {
    && |run| == |ops| + 1 && run[0] == Selection([], 0)
    && forall n :: 0 <= n < |ops| ==> run[n + 1] == Apply(run[n], ops[n])
  }

  lemma ApplyKeepsRange(s: Selection, op: Op)
    requires InRange(s) && "" !in s.bases
    ensures InRange(Apply(s, op)) && "" !in Apply(s, op).bases
  {
    if op.SetOp? {
      NoneIsBlank(op.urls);
    }
  }

  /** However the operations of any number of requests and refreshes interleave, the selection stays usable. */
  lemma {:induction false} AlwaysInRange(ops: seq<Op>, run: seq<Selection>, n: nat)
    requires IsRun(ops, run) && n <= |ops|
    ensures InRange(run[n]) && "" !in run[n].bases && (Selected(run[n]) == "" <==> run[n].bases == [])
  {
    if n > 0 {
      AlwaysInRange(ops, run, n - 1);
      ApplyKeepsRange(run[n - 1], ops[n - 1]);
    }
  }

  /** A refresh keeps the selected URL if it is still listed, and otherwise selects the first candidate. */
  lemma SetKeepsSelection(s: Selection, urls: seq<string>)
    requires InRange(s)
    ensures var t := Replaced(s, urls);
      && InRange(t)
      && (Selected(s) in Cleaned(urls) ==> Selected(t) == Selected(s))
      && (Selected(s) !in Cleaned(urls) ==> Selected(t) == if Cleaned(urls) == [] then "" else Cleaned(urls)[0])
  {
  }
}
