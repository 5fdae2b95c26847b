/** Partial pivoting bounds the entries: every multiplier is at most one in absolute value, so
    one pass at most doubles the greatest entry. */
module Growth {
  import opened Determinant
  import opened Elimination

  function Pow(b: real, e: nat): real {
    if e == 0 then 1.0 else Times(b, Pow(b, e - 1))
  }

  /** Every entry in the rows and columns from i on is at most b. */
  ghost predicate TrailingBound(m: Matrix, i: nat, b: real)
    requires Square(m)
  {
    forall r, z :: i <= r < |m| && i <= z < |m| ==> Abs(m[r][z]) <= b
  }

  lemma ProductNonNegative(x: real, y: real)
    requires x >= 0.0 && y >= 0.0
    ensures Times(x, y) >= 0.0
  {
  }

  lemma AbsOfProduct(x: real, y: real)
    ensures Abs(Times(x, y)) == Times(Abs(x), Abs(y))
  {
    ProductNonNegative(Abs(x), Abs(y));
  }

  lemma AbsTimes(x: real, y: real, c: real, d: real)
    requires Abs(x) <= c && Abs(y) <= d
    ensures Abs(Times(x, y)) <= Times(c, d)
  {
    var u, v := Abs(x), Abs(y);
    AbsOfProduct(x, y);
    ProductNonNegative(c - u, v);
    ProductNonNegative(c, d - v);
    assert c * d - u * v == (c - u) * v + c * (d - v);
  }

  lemma ProductGrows(f: real, v: real)
    requires f > 1.0 && v > 0.0
    ensures Times(f, v) > v
  {
    assert (f - 1.0) * v > 0.0;
  }

  lemma QuotientBound(q: real, pivot: real)
    requires pivot != 0.0 && Abs(q) <= Abs(pivot)
    ensures Abs(q / pivot) <= 1.0
  {
    var f := q / pivot;
    assert Times(f, pivot) == q;
    AbsOfProduct(f, pivot);
    if Abs(f) > 1.0 {
      ProductGrows(Abs(f), Abs(pivot));
    }
  }

  lemma DifferenceBound(x: real, y: real, b: real)
    requires Abs(x) <= b && Abs(y) <= Times(b, 1.0)
    ensures Abs(x - y) <= 2.0 * b
  {
  }

  /** One reduced entry: the multiplier is at most one, so the entry at most doubles. */
  lemma ReducedCell(m: Matrix, i: nat, r: nat, z: nat, b: real)
    requires Square(m) && i < r < |m| && i < z < |m| && m[i][i] != 0.0
    requires TrailingBound(m, i, b) && Abs(m[r][i]) <= Abs(m[i][i])
    ensures Abs(ElimCell(m, i, r, z)) <= 2.0 * b
  {
    var f := m[r][i] / m[i][i];
    QuotientBound(m[r][i], m[i][i]);
    AbsTimes(m[i][z], f, b, 1.0);
    DifferenceBound(m[r][z], Times(m[i][z], f), b);
    assert ElimCell(m, i, r, z) == m[r][z] - Times(m[i][z], f);
  }

  lemma SwapBound(m: Matrix, i: nat, p: nat, b: real)
    requires Square(m) && PivotChoice(m, i, p) && TrailingBound(m, i, b)
    ensures TrailingBound(Swapped(m, i, p), i, b) && PivotChoice(Swapped(m, i, p), i, i)
    ensures Swapped(m, i, p)[i][i] == m[p][i]
  {
    var s := Swapped(m, i, p);
    assert forall r, z :: 0 <= r < |m| && 0 <= z < |m| ==> s[r][z] == SwapCell(m, i, p, r, z);
  }

  lemma PassGrowth(m: Matrix, i: nat, p: nat, b: real)
    requires Square(m) && PivotChoice(m, i, p) && m[p][i] != 0.0 && TrailingBound(m, i, b)
    ensures TrailingBound(Pass(m, i, p), i + 1, 2.0 * b)
  {
    var s := Swapped(m, i, p);
    SwapBound(m, i, p, b);
    EliminationGrowth(s, i, b);
  }

  lemma EliminationGrowth(m: Matrix, i: nat, b: real)
    requires Square(m) && i < |m| && PivotChoice(m, i, i) && m[i][i] != 0.0 && TrailingBound(m, i, b)
    ensures TrailingBound(Eliminated(m, i), i + 1, 2.0 * b)
  {
    forall r, z | i + 1 <= r < |m| && i + 1 <= z < |m|
      ensures Abs(Eliminated(m, i)[r][z]) <= 2.0 * b
    {
      ReducedCell(m, i, r, z, b);
    }
  }

  /** The bound b doubled n times. */
  function Doubled(b: real, n: nat): real {
    if n == 0 then b else Doubled(b, n - 1) + Doubled(b, n - 1)
  }

  lemma {:induction false} DoubledClosed(b: real, n: nat)
    ensures Doubled(b, n) == Times(Pow(2.0, n), b)
  {
    if n > 0 {
      DoubledClosed(b, n - 1);
    }
  }

  lemma {:induction false} RunDoubles(m: Matrix, ps: seq<nat>, b: real)
    requires Square(m) && ValidRun(m, ps) && TrailingBound(m, 0, b)
    ensures TrailingBound(After(m, ps), |ps|, Doubled(b, |ps|))
    decreases |ps|
  {
    if ps != [] {
      var qs, p := ps[..|ps| - 1], ps[|ps| - 1];
      assert ps == qs + [p];
      RunDoubles(m, qs, b);
      AfterExtends(m, qs, p);
      PassGrowth(After(m, qs), |qs|, p, Doubled(b, |qs|));
    }
  }

  /** After any run of i passes every trailing entry is at most 2^i times the greatest entry of
      the input. */
  lemma RunGrowth(m: Matrix, ps: seq<nat>, b: real)
    requires Square(m) && ValidRun(m, ps) && TrailingBound(m, 0, b)
    ensures TrailingBound(After(m, ps), |ps|, Times(Pow(2.0, |ps|), b))
  {
    RunDoubles(m, ps, b);
    DoubledClosed(b, |ps|);
  }

  /** The product of the bounds on the first n pivots. */
  function PivotProduct(b: real, n: nat): real {
    if n == 0 then 1.0 else Times(PivotProduct(b, n - 1), Doubled(b, n - 1))
  }

  lemma {:induction false} PowNonNegative(b: real, e: nat)
    requires b >= 0.0
    ensures Pow(b, e) >= 0.0
  {
    if e > 0 {
      PowNonNegative(b, e - 1);
    }
  }

  lemma Reassociate(x: real, y: real, z: real)
    ensures Times(x, Times(y, z)) == Times(Times(x, y), z)
  {
  }

  lemma {:induction false} PowAdd(b: real, d: nat, e: nat)
    ensures Pow(b, d + e) == Times(Pow(b, d), Pow(b, e))
  {
    if d > 0 {
      PowAdd(b, d - 1, e);
      Reassociate(b, Pow(b, d - 1), Pow(b, e));
    }
  }

  /** 0 + 1 + ... + (n - 1). */
  function Triangle(n: nat): nat {
    n * (n - 1) / 2
  }

  lemma TriangleStep(n: nat)
    ensures Triangle(n + 1) == Triangle(n) + n
  {
    assert (n + 1) * n == n * (n - 1) + 2 * n;
  }

  lemma Regroup(x: real, y: real, w: real, b: real)
    ensures Times(Times(x, y), Times(w, b)) == Times(Times(b, x), Times(y, w))
  {
  }

  lemma {:induction false} PivotProductClosed(b: real, n: nat)
    ensures PivotProduct(b, n) == Times(Pow(b, n), Pow(2.0, Triangle(n)))
  {
    if n > 0 {
      PivotProductClosed(b, n - 1);
      DoubledClosed(b, n - 1);
      TriangleStep(n - 1);
      PowAdd(2.0, Triangle(n - 1), n - 1);
      Regroup(Pow(b, n - 1), Pow(2.0, Triangle(n - 1)), Pow(2.0, n - 1), b);
    }
  }

  lemma {:induction false} RunDetBound(m: Matrix, ps: seq<nat>, b: real)
    requires Square(m) && ValidRun(m, ps) && TrailingBound(m, 0, b)
    ensures Abs(RunDet(m, ps)) <= PivotProduct(b, |ps|)
    decreases |ps|
  {
    if ps != [] {
      var qs, p := ps[..|ps| - 1], ps[|ps| - 1];
      assert ps == qs + [p];
      RunDetBound(m, qs, b);
      RunDoubles(m, qs, b);
      AfterExtends(m, qs, p);
      RunDetExtends(m, qs, p);
      AbsTimes(Signed(RunDet(m, qs), |qs|, p), After(m, qs)[p][|qs|], PivotProduct(b, |qs|), Doubled(b, |qs|));
    }
  }

  lemma OutcomeBound(m: Matrix, ps: seq<nat>, b: real)
    requires Square(m) && ValidRun(m, ps) && b >= 0.0 && TrailingBound(m, 0, b)
    ensures Abs(Outcome(m, ps)) <= PivotProduct(b, |m|)
  {
    if |ps| == |m| {
      RunDetBound(m, ps, b);
    } else {
      PowNonNegative(b, |m|);
      PowNonNegative(2.0, Triangle(|m|));
      PivotProductClosed(b, |m|);
    }
  }

  lemma FinishedBound(m: Matrix, ps: seq<nat>, b: real, bound: real)
    requires Square(m) && ValidRun(m, ps) && Finished(m, ps) && b >= 0.0 && TrailingBound(m, 0, b)
    requires bound == PivotProduct(b, |m|)
    ensures Abs(Det(m)) <= bound
  {
    OutcomeBound(m, ps, b);
    RunComputesDet(m, ps);
  }

  /** The determinant of an n by n matrix with entries at most b is at most
      b^n * 2^(n (n - 1) / 2). */
  lemma DetBound(m: Matrix, b: real)
    requires Square(m) && b >= 0.0 && TrailingBound(m, 0, b)
    ensures Abs(Det(m)) <= Times(Pow(b, |m|), Pow(2.0, Triangle(|m|)))
  {
    var ps := FinishRun(m, []);
    PivotProductClosed(b, |m|);
    FinishedBound(m, ps, b, Times(Pow(b, |m|), Pow(2.0, Triangle(|m|))));
  }
}
