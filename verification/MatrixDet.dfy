/** The two determinant loops, sequential and OpenMP, on a matrix updated in place. Both are
    proved against the same passes, so both compute the Laplace determinant.

    A parallel loop is written as a loop that takes the next elementary step of any unfinished
    iteration; the verifier proves it for every order of steps. */
module MatrixDet {
  import opened Common
  import opened Determinant
  import opened Elimination

  ghost predicate IsSquare(a: array2<real>) {
    a.Length0 == a.Length1
  }

  ghost function Entries(a: array2<real>): (m: Matrix)
    requires IsSquare(a)
    reads a
    ensures |m| == a.Length0 && Square(m)
    ensures forall r, z :: 0 <= r < |m| && 0 <= z < |m| ==> m[r][z] == a[r, z]
  {
    seq(a.Length0, r requires 0 <= r < a.Length0 reads a =>
      seq(a.Length0, z requires 0 <= z < a.Length0 reads a => a[r, z]))
  }

  // ---------------------------------------------------------------------------------------------
  // Sequential steps
  // ---------------------------------------------------------------------------------------------

  /** The first row of greatest absolute value in column i, from row i on. */
  method FindPivot(a: array2<real>, i: nat) returns (p: nat)
    requires IsSquare(a) && i < a.Length0
    ensures PivotChoice(Entries(a), i, p)
    ensures forall j :: i <= j < p ==> Abs(a[j, i]) < Abs(a[p, i])
  {
    p := i;
    for j := i + 1 to a.Length0
      invariant i <= p < j
      invariant forall k :: i <= k < j ==> Abs(a[k, i]) <= Abs(a[p, i])
      invariant forall k :: i <= k < p ==> Abs(a[k, i]) < Abs(a[p, i])
    {
      if Abs(a[j, i]) > Abs(a[p, i]) {
        p := j;
      }
    }
  }

  method ExchangeRows(a: array2<real>, i: nat, p: nat)
    requires IsSquare(a) && i < p < a.Length0
    modifies a
    ensures Entries(a) == Swapped(old(Entries(a)), i, p)
  {
    var n := a.Length0;
    ghost var m := Entries(a);
    for j := i to n
      invariant forall r, z :: 0 <= r < n && 0 <= z < n ==>
        a[r, z] == if z < j then SwapCell(m, i, p, r, z) else m[r][z]
    {
      a[i, j], a[p, j] := a[p, j], a[i, j];
    }
    assert forall r :: 0 <= r < n ==> Entries(a)[r] == Swapped(m, i, p)[r];
  }

  method EliminateBelow(a: array2<real>, i: nat)
    requires IsSquare(a) && i < a.Length0 && a[i, i] != 0.0
    modifies a
    ensures Entries(a) == Eliminated(old(Entries(a)), i)
  {
    var n := a.Length0;
    ghost var m := Entries(a);
    for j := i + 1 to n
      invariant forall r, z :: 0 <= r < n && 0 <= z < n ==>
        a[r, z] == if r < j then ElimCell(m, i, r, z) else m[r][z]
    {
      a[j, i] := a[j, i] / a[i, i];
      for z := i + 1 to n
        invariant a[j, i] == m[j][i] / m[i][i]
        invariant forall r, y :: 0 <= r < n && 0 <= y < n && !(r == j && y == i) ==>
          a[r, y] == if r < j || (r == j && y < z) then ElimCell(m, i, r, y) else m[r][y]
      {
        a[j, z] := a[j, z] - a[i, z] * a[j, i];
      }
      a[j, i] := 0.0;
    }
    assert forall r :: 0 <= r < n ==> Entries(a)[r] == Eliminated(m, i)[r];
  }

  /** The rest of a pass once its pivot row is known. */
  method Reduce(a: array2<real>, i: nat, p: nat, det: real) returns (r: real)
    requires IsSquare(a) && i <= p < a.Length0 && a[p, i] != 0.0
    modifies a
    ensures Entries(a) == Pass(old(Entries(a)), i, p)
    ensures r == Times(Signed(det, i, p), old(a[p, i]))
  {
    r := det;
    if p != i {
      r := -r;
      ExchangeRows(a, i, p);
    } else {
      SwapNothing(Entries(a), i);
    }
    assert a[i, i] == Entries(a)[i][i] == SwapCell(old(Entries(a)), i, p, i, i);
    r := Times(r, a[i, i]);
    EliminateBelow(a, i);
  }

  /** The matrix comes by value, so the loop works on a copy of its own. */
  method DetWithoutOmp(n: nat, m: Matrix) returns (det: real, ghost ps: seq<nat>)
    requires |m| == n && Square(m)
    ensures det == Det(m)
    ensures ValidRun(m, ps) && Finished(m, ps)
  {
    var a := new real[n, n]((r, z) requires 0 <= r < n && 0 <= z < n => m[r][z]);
    det, ps := 1.0, [];
    assert forall r :: 0 <= r < n ==> Entries(a)[r] == m[r];
    assert Entries(a) == m;
    var i := 0;
    while i < n
      invariant 0 <= i <= n && |ps| == i
      invariant ValidRun(m, ps) && After(m, ps) == Entries(a) && det == RunDet(m, ps)
    {
      var maxValueIndex := FindPivot(a, i);
      if a[maxValueIndex, i] == 0.0 {
        det := 0.0;
        break;
      }
      NextPass(m, ps, maxValueIndex);
      det := Reduce(a, i, maxValueIndex, det);
      ps := ps + [maxValueIndex];
      i := i + 1;
    }
    RunComputesDet(m, ps);
  }

  lemma SwapNothing(m: Matrix, i: nat)
    requires Square(m) && i < |m|
    ensures Swapped(m, i, i) == m
  {
    assert forall r :: 0 <= r < |m| ==> Swapped(m, i, i)[r] == m[r];
  }

  /** What one turn of the outer loop does to a run and to its determinant. */
  lemma NextPass(m: Matrix, ps: seq<nat>, p: nat)
    requires Square(m) && ValidRun(m, ps) && |ps| < |m|
    requires PivotChoice(After(m, ps), |ps|, p) && After(m, ps)[p][|ps|] != 0.0
    ensures ValidRun(m, ps + [p])
    ensures After(m, ps + [p]) == Pass(After(m, ps), |ps|, p)
    ensures RunDet(m, ps + [p]) == Times(Signed(RunDet(m, ps), |ps|, p), After(m, ps)[p][|ps|])
  {
    RunExtends(m, ps, p);
    AfterExtends(m, ps, p);
    RunDetExtends(m, ps, p);
  }

  // ---------------------------------------------------------------------------------------------
  // OpenMP steps
  // ---------------------------------------------------------------------------------------------

  /** Some thread holds a row at least as great as row j in column i. */
  ghost predicate Bounded(m: Matrix, i: nat, local: seq<nat>, j: nat)
    requires Square(m) && i < |m| && j < |m|
    requires forall t :: 0 <= t < |local| ==> local[t] < |m|
  {
    exists t :: 0 <= t < |local| && Abs(m[j][i]) <= Abs(m[local[t]][i])
  }

  /** When thread t looks at row j, no row loses its bound and row j gains one. */
  lemma StillBounded(m: Matrix, i: nat, local: seq<nat>, next: seq<nat>, rows: set<int>, j: nat, t: nat)
    requires Square(m) && i < |m| && j < |m| && t < |local|
    requires forall s :: 0 <= s < |local| ==> local[s] < |m|
    requires next == if Abs(m[j][i]) > Abs(m[local[t]][i]) then local[t := j] else local
    requires forall k :: i <= k < |m| && k !in rows ==> Bounded(m, i, local, k)
    ensures forall k :: i <= k < |m| && k !in rows - {j} ==> Bounded(m, i, next, k)
  {
    forall k | i <= k < |m| && k !in rows - {j}
      ensures Bounded(m, i, next, k)
    {
      if k == j {
        assert Abs(m[j][i]) <= Abs(m[next[t]][i]);
      } else {
        var s :| 0 <= s < |local| && Abs(m[k][i]) <= Abs(m[local[s]][i]);
        assert Abs(m[k][i]) <= Abs(m[next[s]][i]);
      }
    }
  }

  /** The parallel region of the search. Any thread takes any remaining row; after the barrier
      the threads pass the critical section in any order. */
  method ParallelFindPivot(a: array2<real>, i: nat, team: nat) returns (p: nat)
    requires IsSquare(a) && i < a.Length0 && team > 0
    ensures PivotChoice(Entries(a), i, p)
  {
    var n := a.Length0;
    var local := seq(team, t => i);
    var rows := Range(i + 1, n);
    assert local[0] == i;
    while rows != {}
      invariant |local| == team && forall t :: 0 <= t < team ==> i <= local[t] < n
      invariant forall j :: i <= j < n && j !in rows ==> Bounded(Entries(a), i, local, j)
    {
      var j :| j in rows;
      var t :| 0 <= t < team;
      var next := if Abs(a[j, i]) > Abs(a[local[t], i]) then local[t := j] else local;
      StillBounded(Entries(a), i, local, next, rows, j, t);
      local := next;
      rows := rows - {j};
    }

    ghost var m := Entries(a);
    p := i;
    var threads := Range(0, team);
    while threads != {}
      invariant i <= p < n
      invariant forall t :: 0 <= t < team && t !in threads ==> Abs(a[local[t], i]) <= Abs(a[p, i])
    {
      var t :| t in threads;
      if Abs(a[local[t], i]) > Abs(a[p, i]) {
        p := local[t];
      }
      threads := threads - {t};
    }
    forall j | i <= j < n
      ensures Abs(m[j][i]) <= Abs(m[p][i])
    {
      assert Bounded(m, i, local, j);
    }
  }

  /** Entry (r, z) when the iteration of column z has done its first k steps: save the upper entry,
      overwrite it with the lower one, write the saved one below. */
  ghost function ColumnCell(m: Matrix, i: nat, p: nat, k: nat, r: nat, z: nat): real
    requires Square(m) && i < p < |m| && r < |m| && z < |m|
  {
    if z >= i && r == i && k >= 2 then m[p][z]
    else if z >= i && r == p && k >= 3 then m[i][z]
    else m[r][z]
  }

  method ColumnStep(a: array2<real>, i: nat, p: nat, j: nat, k: nat, saved: real, ghost m: Matrix) returns (r: real)
    requires IsSquare(a) && i < p < a.Length0 && i <= j < a.Length0 && k < 3
    requires |m| == a.Length0 && Square(m) && (k >= 1 ==> saved == m[i][j])
    requires forall r :: 0 <= r < |m| ==> a[r, j] == ColumnCell(m, i, p, k, r, j)
    modifies a
    ensures forall r, z :: 0 <= r < |m| && 0 <= z < |m| && z != j ==> a[r, z] == old(a[r, z])
    ensures forall r :: 0 <= r < |m| ==> a[r, j] == ColumnCell(m, i, p, k + 1, r, j)
    ensures r == m[i][j]
  {
    r := saved;
    if k == 0 {
      r := a[i, j];
    } else if k == 1 {
      a[i, j] := a[p, j];
    } else {
      a[p, j] := saved;
    }
  }

  /** The iterations of the columns, their steps in any order. */
  method ParallelExchangeRows(a: array2<real>, i: nat, p: nat)
    requires IsSquare(a) && i < p < a.Length0
    modifies a
    ensures Entries(a) == Swapped(old(Entries(a)), i, p)
  {
    var n := a.Length0;
    ghost var m := Entries(a);
    var pc := seq(n, j => if j < i then 3 else 0);
    var saved := seq(n, j => 0.0);
    ghost var todo := set j, s | i <= j < n && 0 <= s < 3 :: (j, s);
    while exists j :: 0 <= j < n && pc[j] < 3
      invariant |pc| == n && |saved| == n
      invariant forall j, s :: (j, s) in todo <==> 0 <= j < n && pc[j] <= s < 3
      invariant forall j :: 0 <= j < n ==> 0 <= pc[j] <= 3 && (j < i ==> pc[j] == 3)
      invariant forall j :: i <= j < n && pc[j] >= 1 ==> saved[j] == m[i][j]
      invariant forall r, z :: 0 <= r < n && 0 <= z < n ==> a[r, z] == ColumnCell(m, i, p, pc[z], r, z)
      decreases todo
    {
      var j :| 0 <= j < n && pc[j] < 3;
      assert (j, pc[j]) in todo;
      var x := ColumnStep(a, i, p, j, pc[j], saved[j], m);
      saved := saved[j := x];
      todo := todo - {(j, pc[j])};
      pc := pc[j := pc[j] + 1];
    }
    assert forall r, z :: 0 <= r < n && 0 <= z < n ==> a[r, z] == SwapCell(m, i, p, r, z);
    assert forall r :: 0 <= r < n ==> Entries(a)[r] == Swapped(m, i, p)[r];
  }

  /** Entry (r, z) when the iteration of row r has done its first k steps: step 0 divides, step y
      subtracts in column i + y, and the step after the last column writes the zero. */
  ghost function RowCell(m: Matrix, i: nat, k: nat, r: nat, z: nat): real
    requires Square(m) && i < |m| && m[i][i] != 0.0 && r < |m| && z < |m|
  {
    if r <= i || z < i || k == 0 then m[r][z]
    else if z == i then (if k <= |m| - i then m[r][i] / m[i][i] else 0.0)
    else if z - i < k then m[r][z] - m[i][z] * (m[r][i] / m[i][i])
    else m[r][z]
  }

  method RowStep(a: array2<real>, i: nat, j: nat, k: nat, ghost m: Matrix)
    requires IsSquare(a) && i < j < a.Length0 && k <= a.Length0 - i
    requires |m| == a.Length0 && Square(m) && m[i][i] != 0.0
    requires forall z :: 0 <= z < |m| ==> a[i, z] == m[i][z]
    requires forall z :: 0 <= z < |m| ==> a[j, z] == RowCell(m, i, k, j, z)
    modifies a
    ensures forall r, z :: 0 <= r < |m| && 0 <= z < |m| && r != j ==> a[r, z] == old(a[r, z])
    ensures forall z :: 0 <= z < |m| ==> a[j, z] == RowCell(m, i, k + 1, j, z)
  {
    if k == 0 {
      a[j, i] := a[j, i] / a[i, i];
    } else if k < a.Length0 - i {
      a[j, i + k] := a[j, i + k] - a[i, i + k] * a[j, i];
    } else {
      a[j, i] := 0.0;
    }
  }

  /** The iterations of the rows below i, their steps in any order. */
  method ParallelEliminateBelow(a: array2<real>, i: nat)
    requires IsSquare(a) && i < a.Length0 && a[i, i] != 0.0
    modifies a
    ensures Entries(a) == Eliminated(old(Entries(a)), i)
  {
    var n := a.Length0;
    var last := n - i;
    ghost var m := Entries(a);
    var pc := seq(n, j => if j <= i then last + 1 else 0);
    ghost var todo := set j, s | i < j < n && 0 <= s <= last :: (j, s);
    while exists j :: 0 <= j < n && pc[j] <= last
      invariant |pc| == n
      invariant forall j, s :: (j, s) in todo <==> 0 <= j < n && pc[j] <= s <= last
      invariant forall j :: 0 <= j < n ==> 0 <= pc[j] <= last + 1 && (j <= i ==> pc[j] == last + 1)
      invariant forall r, z :: 0 <= r < n && 0 <= z < n ==> a[r, z] == RowCell(m, i, pc[r], r, z)
      decreases todo
    {
      var j :| 0 <= j < n && pc[j] <= last;
      assert (j, pc[j]) in todo;
      RowStep(a, i, j, pc[j], m);
      todo := todo - {(j, pc[j])};
      pc := pc[j := pc[j] + 1];
    }
    assert forall r, z :: 0 <= r < n && 0 <= z < n ==> a[r, z] == ElimCell(m, i, r, z);
    assert forall r :: 0 <= r < n ==> Entries(a)[r] == Eliminated(m, i)[r];
  }

  method ParallelReduce(a: array2<real>, i: nat, p: nat, det: real) returns (r: real)
    requires IsSquare(a) && i <= p < a.Length0 && a[p, i] != 0.0
    modifies a
    ensures Entries(a) == Pass(old(Entries(a)), i, p)
    ensures r == Times(Signed(det, i, p), old(a[p, i]))
  {
    r := det;
    if p != i {
      r := -r;
      ParallelExchangeRows(a, i, p);
    } else {
      SwapNothing(Entries(a), i);
    }
    assert a[i, i] == Entries(a)[i][i] == SwapCell(old(Entries(a)), i, p, i, i);
    r := Times(r, a[i, i]);
    ParallelEliminateBelow(a, i);
  }

  /** The loop of main, which works on the matrix that was read. Every parallel region may get a
      team of any size. */
  method DetWithOmp(a: array2<real>) returns (det: real, ghost ps: seq<nat>)
    requires IsSquare(a)
    modifies a
    ensures det == Det(old(Entries(a)))
    ensures ValidRun(old(Entries(a)), ps) && Finished(old(Entries(a)), ps)
    ensures Entries(a) == After(old(Entries(a)), ps)
  {
    var n := a.Length0;
    ghost var m := Entries(a);
    det, ps := 1.0, [];
    var i := 0;
    while i < n
      invariant 0 <= i <= n && |ps| == i
      invariant ValidRun(m, ps) && After(m, ps) == Entries(a) && det == RunDet(m, ps)
    {
      var team: nat :| team > 0;
      var maxValueIndex := ParallelFindPivot(a, i, team);
      if a[maxValueIndex, i] == 0.0 {
        det := 0.0;
        break;
      }
      NextPass(m, ps, maxValueIndex);
      det := ParallelReduce(a, i, maxValueIndex, det);
      ps := ps + [maxValueIndex];
      i := i + 1;
    }
    RunComputesDet(m, ps);
  }
}
