/** Elimination keeps the solutions of A x = 0, and so a nonzero determinant means that only the
    zero vector solves it. When a pivot column is zero, back substitution finds another one. */
module Kernel {
  import opened Determinant
  import opened Elimination

  type Vector = seq<real>

  /** The sum of row[z] * x[z] over the columns z from c on. */
  function Dot(row: Row, x: Vector, c: nat): real
    requires |row| == |x| && c <= |x|
    decreases |x| - c
  {
    if c == |x| then 0.0 else row[c] * x[c] + Dot(row, x, c + 1)
  }

  ghost predicate Solves(m: Matrix, x: Vector)
    requires Square(m)
  {
    && |x| == |m|
    && forall r :: 0 <= r < |m| ==> Dot(m[r], x, 0) == 0.0
  }

  ghost predicate IsZero(x: Vector) {
    forall z :: 0 <= z < |x| ==> x[z] == 0.0
  }

  ghost predicate TrivialKernel(m: Matrix)
    requires Square(m)
  {
    forall x :: Solves(m, x) ==> IsZero(x)
  }

  /** The first i columns are reduced: zero below the diagonal, nonzero on it. */
  ghost predicate Echelon(m: Matrix, i: nat)
    requires Square(m) && i <= |m|
  {
    && (forall r, z :: 0 <= z < i && z < r < |m| ==> m[r][z] == 0.0)
    && (forall k :: 0 <= k < i ==> m[k][k] != 0.0)
  }

  // ---------------------------------------------------------------------------------------------
  // Dot products
  // ---------------------------------------------------------------------------------------------

  lemma {:induction false} DotLinear(w: Row, u: Row, v: Row, t: real, x: Vector, c: nat)
    requires |w| == |x| && Combination(w, u, v, t, 0) && c <= |x|
    ensures Dot(w, x, c) == Dot(u, x, c) + t * Dot(v, x, c)
    decreases |x| - c
  {
    if c < |x| {
      DotLinear(w, u, v, t, x, c + 1);
      var d, y := Dot(v, x, c + 1), x[c];
      assert (u[c] + t * v[c]) * y == u[c] * y + t * (v[c] * y);
      assert t * (v[c] * y + d) == t * (v[c] * y) + t * d;
    }
  }

  /** Columns where one factor is zero do not count. */
  lemma {:induction false} DotSkip(row: Row, x: Vector, c: nat, d: nat)
    requires |row| == |x| && c <= d <= |x|
    requires forall z :: c <= z < d ==> row[z] == 0.0 || x[z] == 0.0
    ensures Dot(row, x, c) == Dot(row, x, d)
    decreases d - c
  {
    if c < d {
      DotSkip(row, x, c + 1, d);
    }
  }

  lemma {:induction false} DotSame(row: Row, x: Vector, y: Vector, c: nat)
    requires |row| == |x| == |y| && c <= |x|
    requires forall z :: c <= z < |x| ==> x[z] == y[z]
    ensures Dot(row, x, c) == Dot(row, y, c)
    decreases |x| - c
  {
    if c < |x| {
      DotSame(row, x, y, c + 1);
    }
  }

  // ---------------------------------------------------------------------------------------------
  // A pass keeps the echelon form and the solutions
  // ---------------------------------------------------------------------------------------------

  /** Left of column i the two rows are zero, so exchanging them from i on exchanges them. */
  lemma SwappedIsSwap(m: Matrix, i: nat, p: nat)
    requires Square(m) && i <= p < |m| && Echelon(m, i)
    ensures Swapped(m, i, p) == SwapRows(m, i, p)
  {
    forall r | 0 <= r < |m|
      ensures Swapped(m, i, p)[r] == SwapRows(m, i, p)[r]
    {
      assert forall z :: 0 <= z < |m| ==> Swapped(m, i, p)[r][z] == SwapRows(m, i, p)[r][z];
    }
  }

  lemma SwapKeepsSolutions(m: Matrix, i: nat, p: nat, x: Vector)
    requires Square(m) && i < |m| && p < |m|
    ensures Solves(m, x) <==> Solves(SwapRows(m, i, p), x)
  {
    var s := SwapRows(m, i, p);
    assert s[i] == m[p] && s[p] == m[i];
    assert forall r :: 0 <= r < |m| && r != i && r != p ==> s[r] == m[r];
  }

  lemma EliminatedRow(m: Matrix, i: nat, r: nat)
    requires Square(m) && i < r < |m| && m[i][i] != 0.0 && Echelon(m, i)
    ensures Combination(Eliminated(m, i)[r], m[r], m[i], -(m[r][i] / m[i][i]), 0)
  {
    var f := m[r][i] / m[i][i];
    assert f * m[i][i] == m[r][i];
    forall z | 0 <= z < |m|
      ensures Eliminated(m, i)[r][z] == m[r][z] + -f * m[i][z]
    {
      assert Eliminated(m, i)[r][z] == ElimCell(m, i, r, z);
    }
  }

  lemma EliminationKeepsSolutions(m: Matrix, i: nat, x: Vector)
    requires Square(m) && i < |m| && m[i][i] != 0.0 && Echelon(m, i) && |x| == |m|
    ensures Solves(m, x) <==> Solves(Eliminated(m, i), x)
  {
    var e := Eliminated(m, i);
    forall r | 0 <= r < |m|
      ensures r <= i ==> e[r] == m[r]
      ensures r > i ==> Dot(e[r], x, 0) == Dot(m[r], x, 0) + -(m[r][i] / m[i][i]) * Dot(m[i], x, 0)
    {
      if r <= i {
        assert forall z :: 0 <= z < |m| ==> e[r][z] == m[r][z];
      } else {
        EliminatedRow(m, i, r);
        DotLinear(e[r], m[r], m[i], -(m[r][i] / m[i][i]), x, 0);
      }
    }
    assert e[i] == m[i];
  }

  lemma PassKeepsEchelon(m: Matrix, i: nat, p: nat)
    requires Square(m) && i <= p < |m| && m[p][i] != 0.0 && Echelon(m, i)
    ensures Echelon(Pass(m, i, p), i + 1)
  {
    var s := Swapped(m, i, p);
    var e := Pass(m, i, p);
    forall r, z | 0 <= z < i + 1 && z < r < |m|
      ensures e[r][z] == 0.0
    {
      assert e[r][z] == ElimCell(s, i, r, z) && s[r][z] == SwapCell(m, i, p, r, z);
    }
    forall k | 0 <= k < i + 1
      ensures e[k][k] != 0.0
    {
      assert e[k][k] == ElimCell(s, i, k, k) && s[k][k] == SwapCell(m, i, p, k, k);
    }
  }

  lemma PassKeepsSolutions(m: Matrix, i: nat, p: nat, x: Vector)
    requires Square(m) && i <= p < |m| && m[p][i] != 0.0 && Echelon(m, i) && |x| == |m|
    ensures Solves(m, x) <==> Solves(Pass(m, i, p), x)
  {
    var s := Swapped(m, i, p);
    SwappedIsSwap(m, i, p);
    SwapKeepsSolutions(m, i, p, x);
    assert Echelon(s, i) by {
      assert forall r, z :: 0 <= z < i && z < r < |m| ==> s[r][z] == SwapCell(m, i, p, r, z);
      assert forall k :: 0 <= k < i ==> s[k][k] == SwapCell(m, i, p, k, k);
    }
    EliminationKeepsSolutions(s, i, x);
  }

  lemma {:induction false} RunKeepsEchelon(m: Matrix, ps: seq<nat>)
    requires Square(m) && ValidRun(m, ps)
    ensures Echelon(After(m, ps), |ps|)
    decreases |ps|
  {
    if ps != [] {
      var qs, p := ps[..|ps| - 1], ps[|ps| - 1];
      assert ps == qs + [p];
      RunKeepsEchelon(m, qs);
      AfterExtends(m, qs, p);
      PassKeepsEchelon(After(m, qs), |qs|, p);
    }
  }

  /** Every run keeps the solutions of the homogeneous system. */
  lemma {:induction false} RunKeepsSolutions(m: Matrix, ps: seq<nat>, x: Vector)
    requires Square(m) && ValidRun(m, ps) && |x| == |m|
    ensures Solves(m, x) <==> Solves(After(m, ps), x)
    decreases |ps|
  {
    if ps != [] {
      var qs, p := ps[..|ps| - 1], ps[|ps| - 1];
      assert ps == qs + [p];
      RunKeepsSolutions(m, qs, x);
      RunKeepsEchelon(m, qs);
      AfterExtends(m, qs, p);
      PassKeepsSolutions(After(m, qs), |qs|, p, x);
    }
  }

  // ---------------------------------------------------------------------------------------------
  // The two ends of a run
  // ---------------------------------------------------------------------------------------------

  /** A solution of a full echelon system is zero from column k on. */
  lemma {:induction false} EchelonSolution(m: Matrix, x: Vector, k: nat)
    requires Square(m) && Echelon(m, |m|) && Solves(m, x) && k <= |m|
    ensures forall z :: k <= z < |m| ==> x[z] == 0.0
    decreases |m| - k
  {
    if k < |m| {
      EchelonSolution(m, x, k + 1);
      DotSkip(m[k], x, 0, k);
      DotSkip(m[k], x, k + 1, |m|);
      assert m[k][k] * x[k] == 0.0;
    }
  }

  function Unit(n: nat, i: nat): (x: Vector)
    ensures |x| == n
  {
    seq(n, z => if z == i then 1.0 else 0.0)
  }

  /** Back substitution: one at column i, zero to its right, and rows k .. i - 1 solved. */
  function BackSubstitute(m: Matrix, i: nat, k: nat): (x: Vector)
    requires Square(m) && k <= i < |m|
    requires forall j :: 0 <= j < i ==> m[j][j] != 0.0
    ensures |x| == |m| && x[i] == 1.0
    ensures forall z :: i < z < |m| ==> x[z] == 0.0
    decreases i - k
  {
    if k == i then Unit(|m|, i)
    else
      var y := BackSubstitute(m, i, k + 1);
      y[k := -Dot(m[k], y, k + 1) / m[k][k]]
  }

  lemma {:induction false} BackSubstituteSolves(m: Matrix, i: nat, k: nat)
    requires Square(m) && k <= i < |m| && Echelon(m, i)
    ensures forall r :: k <= r < i ==> Dot(m[r], BackSubstitute(m, i, k), 0) == 0.0
    decreases i - k
  {
    if k < i {
      var y := BackSubstitute(m, i, k + 1);
      var x := BackSubstitute(m, i, k);
      BackSubstituteSolves(m, i, k + 1);
      forall r | k <= r < i
        ensures Dot(m[r], x, 0) == 0.0
      {
        DotSkip(m[r], x, 0, r);
        if r == k {
          DotSame(m[k], x, y, k + 1);
          assert m[k][k] * x[k] == -Dot(m[k], y, k + 1);
        } else {
          DotSkip(m[r], y, 0, r);
          DotSame(m[r], x, y, r);
        }
      }
    }
  }

  /** The early exit: a zero pivot column has a nonzero solution. */
  lemma ZeroColumnSolution(m: Matrix, i: nat) returns (x: Vector)
    requires Square(m) && i < |m| && Echelon(m, i) && ZeroColumn(m, i)
    ensures Solves(m, x) && !IsZero(x)
  {
    x := BackSubstitute(m, i, 0);
    BackSubstituteSolves(m, i, 0);
    forall r | i <= r < |m|
      ensures Dot(m[r], x, 0) == 0.0
    {
      DotSkip(m[r], x, 0, |m|);
    }
    assert x[i] == 1.0;
  }

  lemma TimesNonzero(x: real, y: real)
    requires x != 0.0 && y != 0.0
    ensures Times(x, y) != 0.0
  {
  }

  lemma {:induction false} RunDetNonzero(m: Matrix, ps: seq<nat>)
    requires Square(m) && ValidRun(m, ps)
    ensures RunDet(m, ps) != 0.0
    decreases |ps|
  {
    if ps != [] {
      var qs, p := ps[..|ps| - 1], ps[|ps| - 1];
      assert ps == qs + [p];
      RunDetNonzero(m, qs);
      AfterExtends(m, qs, p);
      RunDetExtends(m, qs, p);
      TimesNonzero(Signed(RunDet(m, qs), |qs|, p), After(m, qs)[p][|qs|]);
    }
  }

  /** The loop returns a nonzero value exactly when A x = 0 has only the zero solution. */
  lemma DetNonzeroIffTrivialKernel(m: Matrix)
    requires Square(m)
    ensures Det(m) != 0.0 <==> TrivialKernel(m)
  {
    var ps := FinishRun(m, []);
    var u := After(m, ps);
    RunComputesDet(m, ps);
    RunKeepsEchelon(m, ps);
    if |ps| == |m| {
      RunDetNonzero(m, ps);
      forall x | Solves(m, x)
        ensures IsZero(x)
      {
        RunKeepsSolutions(m, ps, x);
        EchelonSolution(u, x, 0);
      }
    } else {
      var x := ZeroColumnSolution(u, |ps|);
      RunKeepsSolutions(m, ps, x);
    }
  }
}
