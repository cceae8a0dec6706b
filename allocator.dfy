/**
 * The allocation step of `distributeMoney` (client/src/SplitAmountApp.js): one receiver, picked by the
 * random draw, gets a rounded percentage of the total; every other receiver
 * gets the same whole-unit share of what is left; whatever the rounding left
 * over goes to the favoured receiver, so the shares add up to the total.
 * Amounts are exact reals.
 */
module Allocator {

  /** A real with no fractional part. */
  predicate IsWhole(x: real) {
    x == x.Floor as real
  }

  /** `Math.floor`: the largest whole number not above `x`. */
  function Floor(x: real): (r: real)
    ensures IsWhole(r)
    ensures r <= x < r + 1.0
  {
    x.Floor as real
  }

  /** `Math.round`: the nearest whole number, a tie going up (towards
      positive infinity), as `Math.round(-2.5) == -2` shows. */
  function Round(x: real): (r: real)
    ensures IsWhole(r)
    ensures x - 0.5 < r <= x + 0.5
  {
    Floor(x + 0.5)
  }

  /** `a.reduce((a, b) => a + b, 0)`: the left-to-right sum. */
  function Sum(s: seq<real>): real {
    if s == [] then 0.0 else Sum(s[..|s| - 1]) + s[|s| - 1]
  }

  /** The order of the `reduce` does not matter: adding from the front gives
      the same total as the left-to-right sum. */
  lemma {:induction false} SumFront(s: seq<real>)
    requires s != []
    ensures Sum(s) == s[0] + Sum(s[1..])
  {
    if |s| > 1 {
      SumFront(s[..|s| - 1]);
      assert s[..|s| - 1][1..] == s[1..][..|s| - 2];
    }
  }

  /** Line 58's reduce over the array of shares. */
  method SumOf(a: array<real>) returns (total: real)
    ensures total == Sum(a[..])
  {
    total := 0.0;
    for i := 0 to a.Length
      invariant total == Sum(a[..i])
    {
      assert a[..i + 1][..i] == a[..i];
      total := total + a[i];
    }
    assert a[..a.Length] == a[..];
  }

  /** `Math.floor(Math.random() * n)`: the favoured receiver's index for a
      draw in [0, 1). */
  function FavouredIndex(draw: real, n: nat): (k: nat)
    requires 0.0 <= draw < 1.0 && n >= 1
    ensures k < n
  {
    var x := draw * n as real;
    assert x < n as real;
    x.Floor
  }

  /** Each index is chosen by a sub-interval of [0, 1) of width 1/n, so a
      uniform draw favours every receiver equally. */
  lemma FavouredIndexInterval(draw: real, n: nat, k: nat)
    requires 0.0 <= draw < 1.0 && n >= 1
    ensures FavouredIndex(draw, n) == k <==>
            k as real / n as real <= draw < (k + 1) as real / n as real
  {
    CompareQuotient(k as real, n as real, draw);
    CompareQuotient((k + 1) as real, n as real, draw);
  }

  /** Comparing `d` with `a / m` is comparing `d * m` with `a`. */
  lemma CompareQuotient(a: real, m: real, d: real)
    requires m > 0.0
    ensures a / m <= d <==> a <= d * m
    ensures d < a / m <==> d * m < a
  {
    var q := a / m;
    assert m * q == a;
    if q <= d {
      ScaleMonotonic(m, q, d);
    } else {
      ScaleMonotonic(m, d, q);
    }
  }

  /** `Math.round(total * percentage / 100)`: the favoured receiver's share
      before the left-over is added. */
  function FavouredShare(total: real, percentage: real): (r: real)
    ensures IsWhole(r)
    ensures total * percentage / 100.0 - 0.5 < r <= total * percentage / 100.0 + 0.5
  {
    Round(total * percentage / 100.0)
  }

  /** `Math.floor((total - favoured) / (n - 1))`: what every other receiver
      gets.  With a single receiver JavaScript divides by zero here; that
      value is never stored, so this model only defines it for n > 1. */
  function EqualShare(total: real, percentage: real, n: nat): (r: real)
    requires n > 1
    ensures IsWhole(r)
  {
    SplitRest(total - FavouredShare(total, percentage), n)
  }

  /** Line 52's quotient: `rest` split `n - 1` ways, rounded down. */
  function SplitRest(rest: real, n: nat): (r: real)
    requires n > 1
    ensures IsWhole(r)
    ensures r <= rest / (n - 1) as real < r + 1.0
  {
    Floor(rest / (n - 1) as real)
  }

  /** The equal share is the floor of the rest divided by n - 1. */
  lemma EqualShareBounds(total: real, percentage: real, n: nat)
    requires n > 1
    ensures var r := EqualShare(total, percentage, n);
            r <= (total - FavouredShare(total, percentage)) / (n - 1) as real < r + 1.0
  {
  }

  /** Scaling the floor of `rest / m` back by `m` falls short of `rest` by
      less than `m`. */
  lemma FloorScaled(rest: real, m: real, r: real)
    requires m > 0.0 && r <= rest / m < r + 1.0
    ensures 0.0 <= rest - m * r < m
  {
    var q := rest / m;
    assert m * q == rest;
    assert m * r <= rest by {
      ScaleMonotonic(m, r, q);
    }
    assert rest < m * r + m by {
      ScaleMonotonic(m, q, r + 1.0);
      assert m * (r + 1.0) == m * r + m;
    }
  }

  /** `m` copies of `x` added up: the total handed out at the equal share. */
  function Times(m: nat, x: real): real {
    if m == 0 then 0.0 else Times(m - 1, x) + x
  }

  lemma {:induction false} TimesIsProduct(m: nat, x: real)
    ensures Times(m, x) == m as real * x
  {
    if m > 0 {
      TimesIsProduct(m - 1, x);
    }
  }

  lemma ScaleMonotonic(m: real, a: real, b: real)
    requires m > 0.0 && a <= b
    ensures m * a <= m * b && (a < b ==> m * a < m * b)
  {
  }

  /** `n` entries, `favoured` at index `k` and `other` everywhere else. */
  function Spread(n: nat, k: nat, favoured: real, other: real): (s: seq<real>)
    ensures |s| == n
  {
    seq(n, i => if i == k then favoured else other)
  }

  /** The share of a non-favoured receiver; with a single receiver there is
      none, and 0 stands in for the unused quotient. */
  function OtherShare(total: real, percentage: real, n: nat): real {
    if n > 1 then EqualShare(total, percentage, n) else 0.0
  }

  /** The allocation `distributeMoney` computes for `n` receivers when the
      draw favours index `k`: every other receiver gets the equal share, and
      the favoured one gets what remains of the total. */
  function Allocation(total: real, percentage: real, n: nat, k: nat): (s: seq<real>)
    requires k < n
    ensures |s| == n
  {
    var share := OtherShare(total, percentage, n);
    Spread(n, k, total - Times(n - 1, share), share)
  }

  lemma {:induction false} SumSpread(n: nat, k: nat, favoured: real, other: real)
    ensures Sum(Spread(n, k, favoured, other)) ==
            if k < n then favoured + Times(n - 1, other) else Times(n, other)
  {
    if n > 0 {
      var s := Spread(n, k, favoured, other);
      assert s[..n - 1] == Spread(n - 1, k, favoured, other);
      SumSpread(n - 1, k, favoured, other);
    }
  }

  /** Proof step for `Allocate` only: unfolds `Allocation` for the share the
      method computes and restates `AllocationSum` for it. */
  lemma AllocationIsBalanced(total: real, percentage: real, n: nat, k: nat, share: real)
    requires k < n && share == OtherShare(total, percentage, n)
    ensures Allocation(total, percentage, n, k) == Spread(n, k, total - Times(n - 1, share), share)
    ensures Sum(Allocation(total, percentage, n, k)) == total
  {
    AllocationSum(total, percentage, n, k);
  }

  /** Sum invariant: the shares add up to the total exactly. */
  lemma AllocationSum(total: real, percentage: real, n: nat, k: nat)
    requires k < n
    ensures Sum(Allocation(total, percentage, n, k)) == total
  {
    var share := OtherShare(total, percentage, n);
    SumSpread(n, k, total - Times(n - 1, share), share);
  }

  /** With more than one receiver, every receiver but the favoured one gets
      the same whole-unit share, and the favoured one gets the rounded
      percentage plus a left-over `residual` with 0 <= residual < n - 1. */
  lemma AllocationShares(total: real, percentage: real, n: nat, k: nat)
    requires 1 < n && k < n
    ensures var s := Allocation(total, percentage, n, k);
            (forall i :: 0 <= i < n && i != k ==>
               s[i] == EqualShare(total, percentage, n) && IsWhole(s[i])) &&
            var residual := s[k] - FavouredShare(total, percentage);
            0.0 <= residual < (n - 1) as real
  {
    var share := EqualShare(total, percentage, n);
    EqualShareBounds(total, percentage, n);
    TimesIsProduct(n - 1, share);
    FloorScaled(total - FavouredShare(total, percentage), (n - 1) as real, share);
  }

  /** Singleton case: a single receiver gets the whole total, whatever the
      percentage. */
  lemma AllocationSingleton(total: real, percentage: real)
    ensures Allocation(total, percentage, 1, 0) == [total]
  {
  }

  /** A sequence that holds `other` everywhere but at `k` and sums to
      `total` is the balanced spread. */
  lemma SpreadUnique(n: nat, k: nat, total: real, other: real, s: seq<real>)
    requires k < n && |s| == n && Sum(s) == total
    requires forall i :: 0 <= i < n && i != k ==> s[i] == other
    ensures s == Spread(n, k, total - Times(n - 1, other), other)
  {
    assert s == Spread(n, k, s[k], other);
    SumSpread(n, k, s[k], other);
  }

  /** The allocation is the only one of length `n` that gives every
      non-favoured receiver the equal share and sums to the total. */
  lemma AllocationUnique(total: real, percentage: real, n: nat, k: nat, s: seq<real>)
    requires k < n && |s| == n && Sum(s) == total
    requires forall i :: 0 <= i < n && i != k ==> s[i] == EqualShare(total, percentage, n)
    ensures s == Allocation(total, percentage, n, k)
  {
    SpreadUnique(n, k, total, OtherShare(total, percentage, n), s);
  }

  /** Two receivers, 100 paid, 70 percent: the favoured receiver gets 70 and
      the other 30, whichever index the draw picked. */
  lemma TwoReceiverExample(k: nat)
    requires k < 2
    ensures Allocation(100.0, 70.0, 2, k) == if k == 0 then [70.0, 30.0] else [30.0, 70.0]
  {
  }

  /** Line 58: adding to the favoured slot what the array falls short of
      the total balances the spread. */
  lemma TopUp(n: nat, k: nat, favoured: real, other: real, total: real)
    requires k < n
    ensures var s := Spread(n, k, favoured, other);
            s[k := favoured + (total - Sum(s))] == Spread(n, k, total - Times(n - 1, other), other)
  {
    SumSpread(n, k, favoured, other);
  }

  /** Lines 45-58 of `distributeMoney`: builds the array of shares for `n`
      receivers, `draw` standing for `Math.random()`. */
  method Allocate(total: real, percentage: real, n: nat, draw: real) returns (shares: seq<real>)
    requires 0.0 <= draw < 1.0 && n >= 1
    ensures shares == Allocation(total, percentage, n, FavouredIndex(draw, n))
    ensures Sum(shares) == total
  {
    var k := FavouredIndex(draw, n);
    var remaining := total;
    var amounts := new real[n](_ => 0.0);
    var favoured := FavouredShare(total, percentage);
    amounts[k] := favoured;
    remaining := remaining - favoured;
    // JavaScript's `remaining / 0` is never stored when n == 1.
    var equalShare := if n > 1 then SplitRest(remaining, n) else 0.0;
    for i := 0 to n
      invariant forall j :: 0 <= j < n ==>
                  amounts[j] == if j == k then favoured else if j < i then equalShare else 0.0
    {
      if i != k {
        amounts[i] := equalShare;
      }
    }
    assert amounts[..] == Spread(n, k, favoured, equalShare);
    var handedOut := SumOf(amounts);
    amounts[k] := amounts[k] + (total - handedOut);
    shares := amounts[..];
    TopUp(n, k, favoured, equalShare, total);
    AllocationIsBalanced(total, percentage, n, k, equalShare);
  }
}
