/** Rank correlation between two orders of the same files, by the shortcut formula
    over squared rank differences, and what that number means. */
module Spearman {
  import opened Seqs
  import opened Orders

  // ---- sums over rank vectors ----

  function Sum(s: seq<nat>): int {
    if s == [] then 0 else Sum(s[..|s| - 1]) + s[|s| - 1]
  }

  function SumSq(s: seq<nat>): int {
    if s == [] then 0 else SumSq(s[..|s| - 1]) + s[|s| - 1] * s[|s| - 1]
  }

  function Dot(r: seq<nat>, s: seq<nat>): int
    requires |r| == |s|
  {
    if r == [] then 0 else Dot(r[..|r| - 1], s[..|s| - 1]) + r[|r| - 1] * s[|s| - 1]
  }

  /** Sum of squared rank differences. */
  function SumDSq(r: seq<nat>, s: seq<nat>): (d: int)
    requires |r| == |s|
    ensures d >= 0
  {
    if r == [] then 0
    else
      var d := r[|r| - 1] as int - s[|s| - 1] as int;
      SquareNonNegative(d);
      SumDSq(r[..|r| - 1], s[..|s| - 1]) + d * d
  }

  /** Sum of squared distances from the opposite rank. */
  function SumOppositeSq(r: seq<nat>, s: seq<nat>, m: int): (d: int)
    requires |r| == |s|
    ensures d >= 0
  {
    if r == [] then 0
    else
      var d := r[|r| - 1] + s[|s| - 1] - m;
      SquareNonNegative(d);
      SumOppositeSq(r[..|r| - 1], s[..|s| - 1], m) + d * d
  }

  /** Twice-centred cross sum: four times the covariance sum when `m` is n-1. */
  function Cross(r: seq<nat>, s: seq<nat>, m: int): int
    requires |r| == |s|
  {
    if r == [] then 0
    else Cross(r[..|r| - 1], s[..|s| - 1], m) + (2 * r[|r| - 1] - m) * (2 * s[|s| - 1] - m)
  }

  lemma SquareNonNegative(d: int)
    ensures d * d >= 0
    ensures d * d == 0 <==> d == 0
  {
  }

  // ---- expanding the squares ----

  lemma DifferenceSquare(x: int, y: int)
    ensures (x - y) * (x - y) == x * x + y * y - 2 * (x * y)
  {
  }

  lemma OppositeSquare(x: int, y: int, m: int)
    ensures (x + y - m) * (x + y - m) == x * x + y * y + 2 * (x * y) + m * m - 2 * (m * x) - 2 * (m * y)
  {
    DifferenceSquare(x + y, m);
    assert (x + y) * (x + y) == x * x + y * y + 2 * (x * y);
    assert (x + y) * m == m * x + m * y;
  }

  lemma CrossProduct(x: int, y: int, m: int)
    ensures (2 * x - m) * (2 * y - m) == 4 * (x * y) - 2 * (m * x) - 2 * (m * y) + m * m
  {
    assert (2 * x) * (2 * y) == 4 * (x * y);
    assert (2 * x) * m == 2 * (m * x) && m * (2 * y) == 2 * (m * y);
    assert (2 * x - m) * (2 * y - m) == (2 * x) * (2 * y) - (2 * x) * m - m * (2 * y) + m * m;
  }

  lemma {:induction false} ExpandDifferences(r: seq<nat>, s: seq<nat>)
    requires |r| == |s|
    ensures SumDSq(r, s) == SumSq(r) + SumSq(s) - 2 * Dot(r, s)
  {
    if r != [] {
      var n := |r| - 1;
      ExpandDifferences(r[..n], s[..n]);
      DifferenceSquare(r[n], s[n]);
    }
  }

  lemma Distribute(m: int, a: int, b: int)
    ensures m * (a + b) == m * a + m * b
  {
  }

  /** One more pair of ranks: `a`, `b`, `d` are the sums of squares and products so far, `u` and `v` the sums. */
  lemma OppositeStep(n: int, m: int, x: int, y: int, a: int, b: int, d: int, u: int, v: int)
    ensures a + b + 2 * d + n * (m * m) - 2 * (m * u) - 2 * (m * v) + (x + y - m) * (x + y - m) ==
            (a + x * x) + (b + y * y) + 2 * (d + x * y) + (n + 1) * (m * m) - 2 * (m * (u + x)) - 2 * (m * (v + y))
  {
    OppositeSquare(x, y, m);
    Distribute(m, u, x);
    Distribute(m, v, y);
    assert (n + 1) * (m * m) == n * (m * m) + m * m;
  }

  lemma {:induction false} ExpandOpposites(r: seq<nat>, s: seq<nat>, m: int)
    requires |r| == |s|
    ensures SumOppositeSq(r, s, m) ==
            SumSq(r) + SumSq(s) + 2 * Dot(r, s) + |r| * (m * m) - 2 * (m * Sum(r)) - 2 * (m * Sum(s))
  {
    if r != [] {
      var n := |r| - 1;
      ExpandOpposites(r[..n], s[..n], m);
      OppositeStep(n, m, r[n], s[n], SumSq(r[..n]), SumSq(s[..n]), Dot(r[..n], s[..n]), Sum(r[..n]), Sum(s[..n]));
    }
  }

  lemma CrossStep(n: int, m: int, x: int, y: int, d: int, u: int, v: int)
    ensures 4 * d - 2 * (m * u) - 2 * (m * v) + n * (m * m) + (2 * x - m) * (2 * y - m) ==
            4 * (d + x * y) - 2 * (m * (u + x)) - 2 * (m * (v + y)) + (n + 1) * (m * m)
  {
    CrossProduct(x, y, m);
    Distribute(m, u, x);
    Distribute(m, v, y);
    assert (n + 1) * (m * m) == n * (m * m) + m * m;
  }

  lemma {:induction false} ExpandCross(r: seq<nat>, s: seq<nat>, m: int)
    requires |r| == |s|
    ensures Cross(r, s, m) == 4 * Dot(r, s) - 2 * (m * Sum(r)) - 2 * (m * Sum(s)) + |r| * (m * m)
  {
    if r != [] {
      var n := |r| - 1;
      ExpandCross(r[..n], s[..n], m);
      CrossStep(n, m, r[n], s[n], Dot(r[..n], s[..n]), Sum(r[..n]), Sum(s[..n]));
    }
  }

  // ---- sums over a permutation of 0 .. n-1 ----

  lemma {:induction false} SumIsFold(s: seq<nat>)
    ensures Sum(s) == Fold((a: int, x: nat) => a + x, 0, s)
    ensures SumSq(s) == Fold((a: int, x: nat) => a + x * x, 0, s)
  {
    if s != [] {
      SumIsFold(s[..|s| - 1]);
    }
  }

  lemma SumsIgnoreOrder(s: seq<nat>, t: seq<nat>)
    requires multiset(s) == multiset(t)
    ensures Sum(s) == Sum(t) && SumSq(s) == SumSq(t)
  {
    SumIsFold(s);
    SumIsFold(t);
    FoldPermutation((a: int, x: nat) => a + x, 0, s, t);
    FoldPermutation((a: int, x: nat) => a + x * x, 0, s, t);
  }

  lemma {:induction false} SumRange(n: nat)
    ensures 2 * Sum(Range(n)) == n * (n - 1)
    ensures 6 * SumSq(Range(n)) == (n - 1) * n * (2 * n - 1)
  {
    if n > 0 {
      assert Range(n)[..n - 1] == Range(n - 1);
      SumRange(n - 1);
      var k := n - 1;
      assert n * (n - 1) == k * (k - 1) + 2 * k;
      CubicStep(k);
    }
  }

  lemma CubicStep(k: int)
    ensures k * (k + 1) * (2 * (k + 1) - 1) == (k - 1) * k * (2 * k - 1) + 6 * (k * k)
  {
    var q := k * k;
    assert k * (k + 1) == q + k && (k - 1) * k == q - k;
    assert (q + k) * (2 * k + 1) == 2 * (q * k) + q + 2 * q + k;
    assert (q - k) * (2 * k - 1) == 2 * (q * k) - q - 2 * q + k;
  }

  /** Three times the spread of a rank vector. */
  function Denominator(n: nat): int { n * (n * n - 1) }

  ghost predicate IsRankVector(r: seq<nat>) {
    multiset(r) == multiset(Range(|r|))
  }

  /** 12Q - 12mL + 3nm² for m = n-1, with 6Q and 2L in closed form. */
  lemma SpreadPolynomial(n: nat, q: int, l: int)
    requires 2 * l == n * (n - 1) && 6 * q == (n - 1) * n * (2 * n - 1)
    ensures 12 * q - 12 * ((n - 1) * l) + 3 * (n * ((n - 1) * (n - 1))) == Denominator(n)
  {
    var m := n - 1;
    var a := n * m;
    assert 6 * q == a * (2 * n - 1) by { assert m * n == a; }
    assert 12 * (m * l) == 6 * (m * a) by { assert m * (2 * l) == m * a; }
    assert n * (m * m) == m * a;
    assert a * (2 * n - 1) == 2 * (a * n) - a;
    assert m * a == a * n - a;
    assert 2 * (2 * (a * n) - a) - 6 * (a * n - a) + 3 * (a * n - a) == a * n + a;
    assert a * n + a == a * (n + 1);
    assert a * (n + 1) == n * (m * (n + 1));
    assert m * (n + 1) == n * n - 1;
  }

  /** For every pair of rank vectors the two sums of squares add up to a constant of n. */
  lemma SquaresAddUp(r: seq<nat>, s: seq<nat>)
    requires IsRankVector(r) && IsRankVector(s) && |r| == |s|
    ensures 3 * (SumDSq(r, s) + SumOppositeSq(r, s, |r| - 1)) == Denominator(|r|)
    ensures Cross(r, s, |r| - 1) == Cross(r, r, |r| - 1) - 2 * SumDSq(r, s)
    ensures 3 * Cross(r, r, |r| - 1) == Denominator(|r|)
  {
    var n := |r|;
    var m := n - 1;
    SumsIgnoreOrder(r, Range(n));
    SumsIgnoreOrder(s, Range(n));
    SumRange(n);
    ExpandDifferences(r, s);
    ExpandOpposites(r, s, m);
    ExpandCross(r, s, m);
    ExpandCross(r, r, m);
    DotSelf(r);
    SpreadPolynomial(n, SumSq(r), Sum(r));
  }

  lemma {:induction false} DotSelf(r: seq<nat>)
    ensures Dot(r, r) == SumSq(r)
  {
    if r != [] {
      DotSelf(r[..|r| - 1]);
    }
  }

  // ---- the coefficient ----

  /** One minus six times the sum of squared differences over n(n²-1). */
  function Coefficient(r: seq<nat>, s: seq<nat>): real
    requires |r| == |s| && |r| >= 2
  {
    DenominatorPositive(|r|);
    1.0 - (6 * SumDSq(r, s)) as real / Denominator(|r|) as real
  }

  lemma DenominatorPositive(n: nat)
    requires n >= 2
    ensures Denominator(n) > 0
  {
    assert n * n >= 2 * n;
    assert n * (n * n - 1) > 0;
  }

  lemma {:induction false} ZeroDifferences(r: seq<nat>, s: seq<nat>)
    requires |r| == |s|
    ensures SumDSq(r, s) == 0 <==> r == s
  {
    if r != [] {
      var n := |r| - 1;
      ZeroDifferences(r[..n], s[..n]);
      SquareNonNegative(r[n] as int - s[n] as int);
      assert r == r[..n] + [r[n]] && s == s[..n] + [s[n]];
    }
  }

  lemma {:induction false} ZeroOpposites(r: seq<nat>, s: seq<nat>, m: int)
    requires |r| == |s|
    ensures SumOppositeSq(r, s, m) == 0 <==> forall i :: 0 <= i < |r| ==> r[i] + s[i] == m
  {
    if r != [] {
      var n := |r| - 1;
      ZeroOpposites(r[..n], s[..n], m);
      SquareNonNegative(r[n] + s[n] - m);
      assert forall i :: 0 <= i < n ==> r[..n][i] + s[..n][i] == r[i] + s[i];
    }
  }

  lemma Quotient(x: int, d: int)
    requires d > 0 && 0 <= x <= 2 * d
    ensures 0.0 <= x as real / d as real <= 2.0
    ensures x as real / d as real == 0.0 <==> x == 0
    ensures x as real / d as real == 2.0 <==> x == 2 * d
  {
    var q := x as real / d as real;
    assert q * d as real == x as real;
  }

  /** The reported value lies between -1 and 1; it is 1 exactly when the orders agree and -1 exactly when
      one is the other reversed. */
  lemma CoefficientRange(p: seq<nat>, q: seq<nat>, r: seq<nat>, s: seq<nat>)
    requires multiset(p) == multiset(Range(|p|)) && multiset(q) == multiset(Range(|q|)) && |p| == |q| >= 2
    requires IsRank(p, r) && IsRank(q, s)
    ensures -1.0 <= Coefficient(r, s) <= 1.0
    ensures Coefficient(r, s) == 1.0 <==> p == q
    ensures Coefficient(r, s) == -1.0 <==> forall k :: 0 <= k < |p| ==> q[|p| - 1 - k] == p[k]
  {
    RanksArePermutation(p, r);
    RanksArePermutation(q, s);
    SquaresAddUp(r, s);
    DenominatorPositive(|r|);
    Quotient(6 * SumDSq(r, s), Denominator(|r|));
    ZeroDifferences(r, s);
    ZeroOpposites(r, s, |r| - 1);
    SameRanksSameOrder(p, q, r, s);
    OppositeRanksReversedOrder(p, q, r, s);
  }

  /** It is the Pearson correlation of the ranks: cross sum over spread, about the mean rank. */
  lemma CoefficientIsPearson(r: seq<nat>, s: seq<nat>)
    requires IsRankVector(r) && IsRankVector(s) && |r| == |s| && |r| >= 2
    ensures var m := |r| - 1;
            Cross(r, r, m) == Cross(s, s, m) > 0 &&
            Coefficient(r, s) == Cross(r, s, m) as real / Cross(r, r, m) as real
  {
    SquaresAddUp(r, s);
    SquaresAddUp(s, r);
    DenominatorPositive(|r|);
    var v, d := Cross(r, r, |r| - 1), SumDSq(r, s);
    assert Denominator(|r|) == 3 * v && Cross(r, s, |r| - 1) == v - 2 * d;
    Fraction(v, d);
  }

  lemma Fraction(v: int, d: int)
    requires v > 0
    ensures 1.0 - (6 * d) as real / (3 * v) as real == (v - 2 * d) as real / v as real
  {
    var a, b := d as real, v as real;
    assert (6 * d) as real == 6.0 * a && (3 * v) as real == 3.0 * b && (v - 2 * d) as real == b - 2.0 * a;
    var y, z := (6.0 * a) / (3.0 * b), (b - 2.0 * a) / b;
    assert y * (3.0 * b) == 6.0 * a;
    assert y * b == 2.0 * a;
    assert z * b == b - 2.0 * a;
    assert (1.0 - y) * b == b - y * b;
    Cancel(1.0 - y, z, b);
  }

  lemma Cancel(u: real, v: real, b: real)
    requires b > 0.0 && u * b == v * b
    ensures u == v
  {
    assert (u - v) * b == 0.0;
  }

  method SquaredDifferences(r: seq<nat>, s: seq<nat>) returns (sumDSq: int)
    requires |r| == |s|
    ensures sumDSq == SumDSq(r, s)
  {
    sumDSq := 0;
    for i := 0 to |r|
      invariant sumDSq == SumDSq(r[..i], s[..i])
    {
      assert r[..i + 1][..i] == r[..i] && s[..i + 1][..i] == s[..i];
      var d := r[i] as int - s[i] as int;
      sumDSq := sumDSq + d * d;
    }
    assert r[..|r|] == r && s[..|s|] == s;
  }

  /** `p` is the stable ascending order of the keys and `r` gives each position its place in it. */
  ghost predicate RankedBy(keys: seq<nat>, p: seq<nat>, r: seq<nat>) {
    IsOrder(keys, p, |keys|) && |p| == |keys| && IsRank(p, r)
  }

  /** The coefficient of the ranks under the two orders. */
  ghost predicate Correlates(frs: seq<nat>, lcn: seq<nat>, rho: real) {
    exists p, q, r, s :: RankedBy(frs, p, r) && RankedBy(lcn, q, s) && |r| == |s| >= 2 && rho == Coefficient(r, s)
  }

  /** The script's computation: two stable sorts, two rank maps, one sum. */
  method SpearmanCorrelation(frs: seq<nat>, lcn: seq<nat>)
    returns (rho: real)
    requires |frs| == |lcn| >= 2
    ensures Correlates(frs, lcn, rho) && -1.0 <= rho <= 1.0
  {
    var byFrs := SortByKey(frs);
    var frsRank := RanksOf(byFrs);
    var byLcn := SortByKey(lcn);
    var lcnRank := RanksOf(byLcn);
    var sumDSq := SquaredDifferences(frsRank, lcnRank);
    DenominatorPositive(|frs|);
    rho := 1.0 - (6 * sumDSq) as real / Denominator(|frs|) as real;
    CoefficientRange(byFrs, byLcn, frsRank, lcnRank);
    assert RankedBy(frs, byFrs, frsRank) && RankedBy(lcn, byLcn, lcnRank);
  }
}
