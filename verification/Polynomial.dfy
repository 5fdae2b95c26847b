/** Polynomials with integer coefficients as maps from power to coefficient. */
module Polynomial {

  type Poly = map<nat, int>

  function Coefficient(p: Poly, k: nat): int {
    if k in p then p[k] else 0
  }

  /** The pointwise sum. A power present in either summand is present in the sum. */
  function Sum(p: Poly, q: Poly): Poly {
    map k | k in p.Keys + q.Keys :: Coefficient(p, k) + Coefficient(q, k)
  }

  /** The coefficient of k grows by c, as operator[] and += do. */
  function AddTo(p: Poly, k: nat, c: int): Poly {
    p[k := Coefficient(p, k) + c]
  }

  /** The powers above zero, each one lower. */
  function Lowered(keys: set<nat>): (r: set<nat>)
    ensures forall k: nat :: k in r <==> k + 1 in keys
  {
    var r := set k | k in keys && k > 0 :: (k - 1) as nat;
    r
  }

  function Scale(a: int, c: int): int {
    a * c
  }

  /** The differentiated map: every entry but the constant one moves down by one. */
  function Differentiated(p: Poly): (d: Poly) {
    map k | k in Lowered(p.Keys) :: Scale(k + 1, p[k + 1])
  }

  function Pow(x: int, k: nat): int {
    if k == 0 then 1 else x * Pow(x, k - 1)
  }

  /** The laws of powers. */
  lemma {:induction false} PowAdd(x: int, j: nat, k: nat)
    ensures Pow(x, 0) == 1 && Pow(x, 1) == x
    ensures Pow(x, j + k) == Pow(x, j) * Pow(x, k)
    decreases j
  {
    assert Pow(x, 1) == x * Pow(x, 0);
    if j > 0 {
      PowAdd(x, j - 1, k);
      PowStep(x, Pow(x, j - 1), Pow(x, k));
    }
  }

  lemma PowStep(x: int, a: int, b: int)
    ensures x * (a * b) == (x * a) * b
  {
  }

  function Monomial(c: int, x: int, k: nat): int {
    c * Pow(x, k)
  }

  /** The sum of the terms of powers below n at x. */
  function EvalBelow(p: Poly, n: nat, x: int): int {
    if n == 0 then 0 else EvalBelow(p, n - 1, x) + Monomial(Coefficient(p, n - 1), x, n - 1)
  }

  /** A number above every power of p. */
  ghost function Bound(p: Poly): (n: nat)
    ensures forall k :: k in p ==> k < n
    decreases |p|
  {
    if p == map[] then 0
    else
      var k :| k in p;
      var n := Bound(p - {k});
      assert forall j :: j in p && j != k ==> j in p - {k};
      if n > k then n else k + 1
  }

  /** The value of p at x. */
  ghost function Eval(p: Poly, x: int): int {
    EvalBelow(p, Bound(p), x)
  }

  lemma {:induction false} EvalBeyond(p: Poly, m: nat, n: nat, x: int)
    requires m <= n && forall k :: k in p ==> k < m
    ensures EvalBelow(p, n, x) == EvalBelow(p, m, x)
    decreases n
  {
    if m < n {
      EvalBeyond(p, m, n - 1, x);
    }
  }

  lemma EvalAbove(p: Poly, n: nat, x: int)
    requires forall k :: k in p ==> k < n
    ensures Eval(p, x) == EvalBelow(p, n, x)
  {
    if n <= Bound(p) {
      EvalBeyond(p, n, Bound(p), x);
    } else {
      EvalBeyond(p, Bound(p), n, x);
    }
  }

  lemma MonomialSum(a: int, b: int, x: int, k: nat)
    ensures Monomial(a + b, x, k) == Monomial(a, x, k) + Monomial(b, x, k)
  {
  }

  lemma SumCoefficient(p: Poly, q: Poly, k: nat)
    ensures Coefficient(Sum(p, q), k) == Coefficient(p, k) + Coefficient(q, k)
  {
  }

  lemma {:induction false} EvalBelowSum(p: Poly, q: Poly, n: nat, x: int)
    ensures EvalBelow(Sum(p, q), n, x) == EvalBelow(p, n, x) + EvalBelow(q, n, x)
  {
    if n > 0 {
      EvalBelowSum(p, q, n - 1, x);
      SumCoefficient(p, q, n - 1);
      MonomialSum(Coefficient(p, n - 1), Coefficient(q, n - 1), x, n - 1);
    }
  }

  /** Evaluation turns sums of maps into sums of numbers. */
  lemma EvalSum(p: Poly, q: Poly, x: int)
    ensures Eval(Sum(p, q), x) == Eval(p, x) + Eval(q, x)
  {
    var n := Bound(p) + Bound(q);
    EvalAbove(p, n, x);
    EvalAbove(q, n, x);
    EvalAbove(Sum(p, q), n, x);
    EvalBelowSum(p, q, n, x);
  }

  lemma {:induction false} EvalBelowSingle(k: nat, c: int, n: nat, x: int)
    ensures EvalBelow(map[k := c], n, x) == if k < n then Monomial(c, x, k) else 0
  {
    if n > 0 {
      EvalBelowSingle(k, c, n - 1, x);
    }
  }

  lemma EvalSingle(k: nat, c: int, x: int)
    ensures Eval(map[k := c], x) == Monomial(c, x, k)
  {
    EvalAbove(map[k := c], k + 1, x);
    EvalBelowSingle(k, c, k + 1, x);
  }

  lemma Distribute(c: int, a: int, b: int)
    ensures Scale(c, a + b) == Scale(c, a) + Scale(c, b)
  {
  }

  lemma DifferentiatedKey(p: Poly, k: nat)
    ensures k in Differentiated(p) <==> k + 1 in p
  {
  }

  lemma SumKey(p: Poly, q: Poly, k: nat)
    ensures k in Sum(p, q) <==> k in p || k in q
  {
  }

  lemma DifferentiatedSumKey(p: Poly, q: Poly, k: nat)
    ensures k in Differentiated(Sum(p, q)) <==> k in Sum(Differentiated(p), Differentiated(q))
  {
    DifferentiatedKey(Sum(p, q), k);
    SumKey(p, q, k + 1);
    DifferentiatedKey(p, k);
    DifferentiatedKey(q, k);
    SumKey(Differentiated(p), Differentiated(q), k);
  }

  lemma DifferentiatedSumCoefficient(p: Poly, q: Poly, k: nat)
    ensures Coefficient(Differentiated(Sum(p, q)), k) == Coefficient(Sum(Differentiated(p), Differentiated(q)), k)
  {
    var a, b := Coefficient(p, k + 1), Coefficient(q, k + 1);
    assert Coefficient(Differentiated(Sum(p, q)), k) == Scale(k + 1, a + b) by {
      DifferentiatedCoefficient(Sum(p, q), k);
      SumCoefficient(p, q, k + 1);
    }
    assert Coefficient(Sum(Differentiated(p), Differentiated(q)), k) == Scale(k + 1, a) + Scale(k + 1, b) by {
      DifferentiatedCoefficient(p, k);
      DifferentiatedCoefficient(q, k);
      SumCoefficient(Differentiated(p), Differentiated(q), k);
    }
    Distribute(k + 1, a, b);
  }

  lemma SamePoly(l: Poly, r: Poly)
    requires forall k: nat :: k in l <==> k in r
    requires forall k: nat :: k in l ==> Coefficient(l, k) == Coefficient(r, k)
    ensures l == r
  {
    assert forall k: nat :: k in l ==> l[k] == Coefficient(l, k) && r[k] == Coefficient(r, k);
  }

  /** Differentiation is linear, down to the zero entries. */
  lemma DifferentiatedSum(p: Poly, q: Poly)
    ensures Differentiated(Sum(p, q)) == Sum(Differentiated(p), Differentiated(q))
  {
    var l, r := Differentiated(Sum(p, q)), Sum(Differentiated(p), Differentiated(q));
    forall k: nat
      ensures k in l <==> k in r
      ensures k in l ==> Coefficient(l, k) == Coefficient(r, k)
    {
      DifferentiatedSumKey(p, q, k);
      DifferentiatedSumCoefficient(p, q, k);
    }
    SamePoly(l, r);
  }

  lemma DifferentiatedCoefficient(p: Poly, k: nat)
    ensures Coefficient(Differentiated(p), k) == Scale(k + 1, Coefficient(p, k + 1))
  {
  }

  // ---------------------------------------------------------------------------------------------
  // Finite differences
  // ---------------------------------------------------------------------------------------------

  /** The cofactor w with (x + h)^k == x^k + h * k * x^(k - 1) + h * h * w. */
  function Cofactor(k: nat, x: int, h: int): int {
    if k <= 1 then 0 else (x + h) * Cofactor(k - 1, x, h) + (k - 1) * Pow(x, k - 2)
  }

  function PowSlope(x: int, k: nat): int {
    if k == 0 then 0 else k * Pow(x, k - 1)
  }

  lemma BinomialStep(x: int, h: int, k: int, a: int, b: int, w: int)
    requires a == x * b
    ensures (x + h) * (a + h * (k * b) + h * h * w) == x * a + h * ((k + 1) * a) + h * h * ((x + h) * w + k * b)
  {
    calc {
      (x + h) * (a + h * (k * b) + h * h * w);
      x * a + x * (h * (k * b)) + h * a + h * (h * (k * b)) + (x + h) * (h * h * w);
      { assert x * (h * (k * b)) == h * (k * a); assert (x + h) * (h * h * w) == h * h * ((x + h) * w); }
      x * a + h * (k * a) + h * a + h * h * (k * b) + h * h * ((x + h) * w);
      { assert h * (k * a) + h * a == h * ((k + 1) * a); }
      x * a + h * ((k + 1) * a) + h * h * (k * b) + h * h * ((x + h) * w);
      { assert h * h * (k * b) + h * h * ((x + h) * w) == h * h * ((x + h) * w + k * b); }
      x * a + h * ((k + 1) * a) + h * h * ((x + h) * w + k * b);
    }
  }

  lemma {:induction false} PowDifference(x: int, h: int, k: nat)
    ensures Pow(x + h, k) == Pow(x, k) + h * PowSlope(x, k) + h * h * Cofactor(k, x, h)
  {
    if k >= 2 {
      PowDifference(x, h, k - 1);
      BinomialStep(x, h, k - 1, Pow(x, k - 1), Pow(x, k - 2), Cofactor(k - 1, x, h));
    } else if k == 1 {
      assert Pow(x, 0) == 1 && Pow(x + h, 0) == 1;
    }
  }

  /** The second-order part of p below n at x with step h. */
  function Remainder(p: Poly, n: nat, x: int, h: int): int {
    if n == 0 then 0 else Remainder(p, n - 1, x, h) + Coefficient(p, n - 1) * Cofactor(n - 1, x, h)
  }

  lemma DistributeThree(c: int, a: int, h: int, b: int, w: int)
    ensures c * (a + h * b + h * h * w) == c * a + h * (c * b) + h * h * (c * w)
  {
    assert c * (h * b) == h * (c * b);
    assert c * (h * h * w) == h * h * (c * w);
  }

  lemma MonomialDifference(c: int, x: int, h: int, k: nat)
    ensures Monomial(c, x + h, k) == Monomial(c, x, k) + h * (c * PowSlope(x, k)) + h * h * (c * Cofactor(k, x, h))
  {
    PowDifference(x, h, k);
    DistributeThree(c, Pow(x, k), h, PowSlope(x, k), Cofactor(k, x, h));
  }

  /** The slope of the terms of p below n. */
  function SlopeBelow(p: Poly, n: nat, x: int): int {
    if n == 0 then 0 else SlopeBelow(p, n - 1, x) + Coefficient(p, n - 1) * PowSlope(x, n - 1)
  }

  lemma Reassociate(c: int, n: int, y: int)
    ensures c * (n * y) == Scale(n, c) * y
  {
  }

  lemma {:induction false} SlopeIsDerivative(p: Poly, n: nat, x: int)
    ensures SlopeBelow(p, n + 1, x) == EvalBelow(Differentiated(p), n, x)
  {
    if n == 0 {
      assert SlopeBelow(p, 1, x) == SlopeBelow(p, 0, x) + Coefficient(p, 0) * PowSlope(x, 0);
    } else {
      SlopeIsDerivative(p, n - 1, x);
      DifferentiatedCoefficient(p, n - 1);
      Reassociate(Coefficient(p, n), n, Pow(x, n - 1));
      assert SlopeBelow(p, n + 1, x) == SlopeBelow(p, n, x) + Coefficient(p, n) * PowSlope(x, n);
    }
  }

  lemma {:induction false} DifferenceBelow(p: Poly, n: nat, x: int, h: int)
    ensures EvalBelow(p, n, x + h) == EvalBelow(p, n, x) + h * SlopeBelow(p, n, x) + h * h * Remainder(p, n, x, h)
  {
    if n > 0 {
      DifferenceBelow(p, n - 1, x, h);
      var c := Coefficient(p, n - 1);
      MonomialDifference(c, x, h, n - 1);
      DistributeStep(h, SlopeBelow(p, n - 1, x), c * PowSlope(x, n - 1),
                     Remainder(p, n - 1, x, h), c * Cofactor(n - 1, x, h));
    }
  }

  lemma DistributeStep(h: int, a: int, b: int, v: int, w: int)
    ensures h * (a + b) == h * a + h * b
    ensures h * h * (v + w) == h * h * v + h * h * w
  {
  }

  function SecondOrder(h: int, w: int): int {
    h * h * w
  }

  /** Going from value a to value b in a step h, the slope fits up to a multiple of h * h. */
  ghost predicate Fits(a: int, b: int, slope: int, h: int) {
    exists w :: b == a + h * slope + SecondOrder(h, w)
  }

  ghost predicate FitsStep(p: Poly, x: int, slope: int, h: int) {
    Fits(Eval(p, x), Eval(p, x + h), slope, h)
  }

  lemma FiniteDifference(p: Poly, x: int, h: int)
    ensures FitsStep(p, x, Eval(Differentiated(p), x), h)
  {
    var n := Bound(p) + 1;
    EvalAbove(p, n, x);
    EvalAbove(p, n, x + h);
    EvalAbove(Differentiated(p), n - 1, x);
    SlopeIsDerivative(p, n - 1, x);
    DifferenceBelow(p, n, x, h);
    assert Eval(p, x + h) == Eval(p, x) + h * Eval(Differentiated(p), x) + SecondOrder(h, Remainder(p, n, x, h));
  }

  lemma CancelFactor(h: int, d: int, v: int)
    requires h * d == SecondOrder(h, v) && -h < d < h
    ensures d == 0
  {
    assert h * (d - h * v) == 0;
    assert d == h * v;
    assert v >= 1 ==> h * v >= h;
    assert v <= -1 ==> h * v <= -h;
  }

  lemma SlopesAgree(h: int, d: int, e: int, v: int, w: int)
    requires h * d + SecondOrder(h, v) == h * e + SecondOrder(h, w) && -h < d - e < h
    ensures d == e
  {
    assert h * (d - e) == h * h * (w - v);
    CancelFactor(h, d - e, w - v);
  }

  /** The value of the differentiated map at x is the one number that fits every step h, that is,
      h * h divides p(x + h) - p(x) - h * slope for all h. */
  lemma DerivativeCharacterized(p: Poly, x: int, slope: int)
    ensures (forall h :: FitsStep(p, x, slope, h)) <==> slope == Eval(Differentiated(p), x)
  {
    var d := Eval(Differentiated(p), x);
    forall h
      ensures FitsStep(p, x, d, h)
    {
      FiniteDifference(p, x, h);
    }
    if forall h :: FitsStep(p, x, slope, h) {
      var h := (if slope < d then d - slope else slope - d) + 1;
      assert FitsStep(p, x, slope, h) && FitsStep(p, x, d, h);
      var v :| Eval(p, x + h) == Eval(p, x) + h * d + SecondOrder(h, v);
      var w :| Eval(p, x + h) == Eval(p, x) + h * slope + SecondOrder(h, w);
      SlopesAgree(h, d, slope, v, w);
    }
  }
}
