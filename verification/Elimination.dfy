/** Gaussian elimination with partial pivoting as passes over a matrix, and what every run keeps.
    A run is the list of pivot rows it chose. Any row of greatest absolute value may be chosen,
    so a run covers the sequential search (first such row) and any parallel search. */
module Elimination {
  import opened Determinant

  function Abs(x: real): real {
    if x < 0.0 then -x else x
  }

  /** Row p holds a greatest absolute value of column i among the rows from i on. */
  ghost predicate PivotChoice(m: Matrix, i: nat, p: nat)
    requires Square(m)
  {
    && i <= p < |m|
    && forall j :: i <= j < |m| ==> Abs(m[j][i]) <= Abs(m[p][i])
  }

  ghost predicate ZeroColumn(m: Matrix, i: nat)
    requires Square(m)
  {
    forall j :: i <= j < |m| ==> m[j][i] == 0.0
  }

  /** Entry (r, z) after the columns from i on of rows i and p have been exchanged. */
  function SwapCell(m: Matrix, i: nat, p: nat, r: nat, z: nat): real
    requires Square(m) && i <= p < |m| && r < |m| && z < |m|
  {
    if z < i then m[r][z] else if r == i then m[p][z] else if r == p then m[i][z] else m[r][z]
  }

  function Swapped(m: Matrix, i: nat, p: nat): (s: Matrix)
    requires Square(m) && i <= p < |m|
    ensures |s| == |m| && Square(s)
  {
    seq(|m|, r requires 0 <= r < |m| => seq(|m|, z requires 0 <= z < |m| => SwapCell(m, i, p, r, z)))
  }

  /** Entry (r, z) after the rows below i have been reduced by row i. */
  function ElimCell(m: Matrix, i: nat, r: nat, z: nat): real
    requires Square(m) && i < |m| && m[i][i] != 0.0 && r < |m| && z < |m|
  {
    if r <= i || z < i then m[r][z]
    else if z == i then 0.0
    else m[r][z] - m[i][z] * (m[r][i] / m[i][i])
  }

  function Eliminated(m: Matrix, i: nat): (e: Matrix)
    requires Square(m) && i < |m| && m[i][i] != 0.0
    ensures |e| == |m| && Square(e)
  {
    seq(|m|, r requires 0 <= r < |m| => seq(|m|, z requires 0 <= z < |m| => ElimCell(m, i, r, z)))
  }

  /** One pass of the outer loop with pivot row p. */
  function Pass(m: Matrix, i: nat, p: nat): (e: Matrix)
    requires Square(m) && i <= p < |m| && m[p][i] != 0.0
    ensures |e| == |m| && Square(e)
  {
    Eliminated(Swapped(m, i, p), i)
  }

  /** A pass leaves the columns before i and the rows above i as they are, moves the pivot row to row
      i, and makes column i zero below it. */
  lemma PassShape(m: Matrix, i: nat, p: nat)
    requires Square(m) && i <= p < |m| && m[p][i] != 0.0
    ensures var e := Pass(m, i, p);
      && (forall r, z :: 0 <= r < |m| && 0 <= z < |m| && (r < i || z < i) ==> e[r][z] == m[r][z])
      && (forall z :: i <= z < |m| ==> e[i][z] == m[p][z])
      && (forall r :: i < r < |m| ==> e[r][i] == 0.0)
  {
  }

  /** Negated when the pass exchanges two rows. */
  function Signed(det: real, i: nat, p: nat): real {
    if p == i then det else -det
  }

  // ---------------------------------------------------------------------------------------------
  // Runs
  // ---------------------------------------------------------------------------------------------

  /** Every pass of the run chose a greatest entry, and that entry was not zero. */
  ghost predicate ValidRun(m: Matrix, ps: seq<nat>)
    requires Square(m)
    decreases |ps|, 0
  {
    |ps| <= |m| &&
    (ps == [] ||
     var qs, i := ps[..|ps| - 1], |ps| - 1;
     && ValidRun(m, qs)
     && PivotChoice(After(m, qs), i, ps[i])
     && After(m, qs)[ps[i]][i] != 0.0)
  }

  ghost function After(m: Matrix, ps: seq<nat>): (r: Matrix)
    requires Square(m) && ValidRun(m, ps)
    ensures |r| == |m| && Square(r)
    decreases |ps|, 1
  {
    if ps == [] then m else Pass(After(m, ps[..|ps| - 1]), |ps| - 1, ps[|ps| - 1])
  }

  /** The value of the variable det after the run: the product of the pivots, negated at each
      exchange of rows. */
  ghost function RunDet(m: Matrix, ps: seq<nat>): real
    requires Square(m) && ValidRun(m, ps)
    decreases |ps|
  {
    if ps == [] then 1.0
    else
      var qs, i := ps[..|ps| - 1], |ps| - 1;
      Times(Signed(RunDet(m, qs), i, ps[i]), After(m, qs)[ps[i]][i])
  }

  /** The run cannot go on: it used every column, or the next column is zero. */
  ghost predicate Finished(m: Matrix, ps: seq<nat>)
    requires Square(m) && ValidRun(m, ps)
  {
    |ps| < |m| ==> ZeroColumn(After(m, ps), |ps|)
  }

  /** What the loop returns at the end of a finished run. */
  ghost function Outcome(m: Matrix, ps: seq<nat>): real
    requires Square(m) && ValidRun(m, ps)
  {
    if |ps| == |m| then RunDet(m, ps) else 0.0
  }

  lemma RunExtends(m: Matrix, ps: seq<nat>, p: nat)
    requires Square(m) && ValidRun(m, ps) && |ps| < |m|
    requires PivotChoice(After(m, ps), |ps|, p) && After(m, ps)[p][|ps|] != 0.0
    ensures ValidRun(m, ps + [p])
  {
    var qs := ps + [p];
    assert qs[..|qs| - 1] == ps && qs[|qs| - 1] == p;
  }

  lemma AfterExtends(m: Matrix, ps: seq<nat>, p: nat)
    requires Square(m) && ValidRun(m, ps) && ValidRun(m, ps + [p])
    ensures PivotChoice(After(m, ps), |ps|, p) && After(m, ps)[p][|ps|] != 0.0
    ensures After(m, ps + [p]) == Pass(After(m, ps), |ps|, p)
  {
    var qs := ps + [p];
    assert qs[..|qs| - 1] == ps && qs[|qs| - 1] == p;
  }

  // ---------------------------------------------------------------------------------------------
  // One pass and the determinant of the trailing block
  // ---------------------------------------------------------------------------------------------

  /** The determinant of the rows and columns of m from i on. */
  ghost function Trailing(m: Matrix, i: nat): real
    requires Square(m) && i <= |m|
  {
    BlockDet(m[i..], i)
  }

  lemma SwappedBlock(m: Matrix, i: nat, p: nat)
    requires Square(m) && i <= p < |m|
    ensures Trailing(Swapped(m, i, p), i) == Signed(Trailing(m, i), i, p)
  {
    var rows := m[i..];
    var s := Swapped(m, i, p)[i..];
    if p == i {
      BlockDetLocal(s, rows, i);
    } else {
      DetSwap(rows, i, 0, p - i);
      BlockDetLocal(s, SwapRows(rows, 0, p - i), i);
    }
  }

  /** The block after its first k rows have been reduced (row 0, the pivot row, stays). */
  ghost function Reduced(m: Matrix, i: nat, k: nat): (rows: seq<Row>)
    requires Square(m) && i < |m| && m[i][i] != 0.0 && 1 <= k <= |m| - i
    ensures |rows| == |m| - i && IsBlock(rows, i)
  {
    Eliminated(m, i)[i..][..k] + m[i..][k..]
  }

  lemma {:induction false} ReducedKeepsDet(m: Matrix, i: nat, k: nat)
    requires Square(m) && i < |m| && m[i][i] != 0.0 && 1 <= k <= |m| - i
    ensures BlockDet(Reduced(m, i, k), i) == Trailing(m, i)
    decreases k
  {
    if k == 1 {
      BlockDetLocal(Reduced(m, i, 1), m[i..], i);
    } else {
      ReducedKeepsDet(m, i, k - 1);
      var rows := Reduced(m, i, k - 1);
      var w := Eliminated(m, i)[i + k - 1];
      var f := m[i + k - 1][i] / m[i][i];
      assert f * m[i][i] == m[i + k - 1][i];
      assert Combination(w, rows[k - 1], rows[0], -f, i);
      DetAddMultiple(rows, i, k - 1, w, -f);
      assert Reduced(m, i, k) == rows[k - 1 := w];
    }
  }

  lemma EliminatedBlock(m: Matrix, i: nat)
    requires Square(m) && i < |m| && m[i][i] != 0.0
    ensures Trailing(m, i) == Times(m[i][i], Trailing(Eliminated(m, i), i + 1))
  {
    var e := Eliminated(m, i)[i..];
    ReducedKeepsDet(m, i, |m| - i);
    assert Reduced(m, i, |m| - i) == e;
    DetZeroTail(e, i);
    assert e[1..] == Eliminated(m, i)[i + 1..];
  }

  lemma PassBlock(m: Matrix, i: nat, p: nat)
    requires Square(m) && i <= p < |m| && m[p][i] != 0.0
    ensures Trailing(m, i) == Signed(Times(m[p][i], Trailing(Pass(m, i, p), i + 1)), i, p)
  {
    SwappedBlock(m, i, p);
    EliminatedBlock(Swapped(m, i, p), i);
  }

  lemma ProductStep(det: real, i: nat, p: nat, x: real, d: real)
    ensures Times(det, Signed(Times(x, d), i, p)) == Times(Times(Signed(det, i, p), x), d)
  {
  }

  lemma RunDetExtends(m: Matrix, qs: seq<nat>, p: nat)
    requires Square(m) && ValidRun(m, qs) && ValidRun(m, qs + [p]) && |qs| <= p < |m|
    ensures RunDet(m, qs + [p]) == Times(Signed(RunDet(m, qs), |qs|, p), After(m, qs)[p][|qs|])
  {
    var ps := qs + [p];
    assert ps[..|ps| - 1] == qs && ps[|ps| - 1] == p;
  }

  lemma RunStep(m: Matrix, qs: seq<nat>, p: nat)
    requires Square(m) && ValidRun(m, qs) && ValidRun(m, qs + [p])
    ensures Times(RunDet(m, qs), Trailing(After(m, qs), |qs|)) ==
            Times(RunDet(m, qs + [p]), Trailing(After(m, qs + [p]), |qs| + 1))
  {
    var ps, i := qs + [p], |qs|;
    AfterExtends(m, qs, p);
    RunDetExtends(m, qs, p);
    PassBlock(After(m, qs), i, p);
    ProductStep(RunDet(m, qs), i, p, After(m, qs)[p][i], Trailing(After(m, ps), i + 1));
  }

  /** The invariant of the outer loop: after any run, the determinant of the input is the value
      of det times the determinant of the trailing block. */
  lemma {:induction false} RunInvariant(m: Matrix, ps: seq<nat>)
    requires Square(m) && ValidRun(m, ps)
    ensures Det(m) == Times(RunDet(m, ps), Trailing(After(m, ps), |ps|))
    decreases |ps|
  {
    if ps == [] {
      BlockDetIsDet(m, m[0..], 0);
    } else {
      var qs, p := ps[..|ps| - 1], ps[|ps| - 1];
      assert ps == qs + [p];
      RunInvariant(m, qs);
      RunStep(m, qs, p);
    }
  }

  /** A zero column makes the trailing determinant zero. */
  lemma {:induction false} ZeroColumnBlock(m: Matrix, i: nat)
    requires Square(m) && i < |m| && ZeroColumn(m, i)
    ensures Trailing(m, i) == 0.0
  {
    DetZeroTail(m[i..], i);
  }

  /** Whatever pivots a finished run chose among equals, it returns the determinant. */
  lemma RunComputesDet(m: Matrix, ps: seq<nat>)
    requires Square(m) && ValidRun(m, ps) && Finished(m, ps)
    ensures Outcome(m, ps) == Det(m)
  {
    RunInvariant(m, ps);
    if |ps| < |m| {
      ZeroColumnBlock(After(m, ps), |ps|);
    }
  }

  /** Some row holds the greatest absolute value of a column. */
  lemma {:induction false} PivotExists(m: Matrix, i: nat, k: nat) returns (p: nat)
    requires Square(m) && i < k <= |m|
    ensures i <= p < k
    ensures forall j :: i <= j < k ==> Abs(m[j][i]) <= Abs(m[p][i])
    decreases k
  {
    if k == i + 1 {
      p := i;
    } else {
      p := PivotExists(m, i, k - 1);
      if Abs(m[k - 1][i]) > Abs(m[p][i]) {
        p := k - 1;
      }
    }
  }

  /** Every run can be finished, so every matrix has a finished run. */
  lemma {:induction false} FinishRun(m: Matrix, ps: seq<nat>) returns (qs: seq<nat>)
    requires Square(m) && ValidRun(m, ps)
    ensures ps <= qs && ValidRun(m, qs) && Finished(m, qs)
    decreases |m| - |ps|
  {
    qs := ps;
    if |ps| < |m| && !ZeroColumn(After(m, ps), |ps|) {
      var p := PivotExists(After(m, ps), |ps|, |m|);
      RunExtends(m, ps, p);
      qs := FinishRun(m, ps + [p]);
    }
  }
}
