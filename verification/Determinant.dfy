/** The determinant, defined by Laplace expansion along the first column, and the two facts
    about it that Gaussian elimination rests on: it is linear in each row, and it changes sign
    when two rows are exchanged. */
module Determinant {

  type Row = seq<real>
  type Matrix = seq<Row>

  predicate Square(m: Matrix) {
    forall i :: 0 <= i < |m| ==> |m[i]| == |m|
  }

  function Sign(k: nat): real {
    if k % 2 == 0 then 1.0 else -1.0
  }

  /** Multiplication by name: it keeps products out of the proofs that only pass them along. */
  function Times(x: real, y: real): real {
    x * y
  }

  function RemoveAt<T>(s: seq<T>, k: nat): seq<T>
    requires k < |s|
  {
    s[..k] + s[k + 1..]
  }

  function SwapRows<T>(s: seq<T>, i: nat, k: nat): seq<T>
    requires i < |s| && k < |s|
  {
    s[i := s[k]][k := s[i]]
  }

  // ---------------------------------------------------------------------------------------------
  // The textbook definition
  // ---------------------------------------------------------------------------------------------

  function DropFirstColumn(m: Matrix): (r: Matrix)
    requires forall i :: 0 <= i < |m| ==> |m[i]| > 0
    ensures |r| == |m|
    ensures forall i :: 0 <= i < |m| ==> r[i] == m[i][1..]
  {
    seq(|m|, i requires 0 <= i < |m| => m[i][1..])
  }

  /** What is left of m without row k and without the first column. */
  function Minor(m: Matrix, k: nat): (r: Matrix)
    requires Square(m) && k < |m|
    ensures |r| == |m| - 1 && Square(r)
  {
    DropFirstColumn(RemoveAt(m, k))
  }

  /** The determinant: the alternating sum, over the first column, of entry times minor. */
  function Det(m: Matrix): real
    requires Square(m)
    decreases |m|, |m| + 1
  {
    if m == [] then 1.0 else LaplaceSum(m, |m|)
  }

  function LaplaceSum(m: Matrix, k: nat): real
    requires Square(m) && k <= |m|
    decreases |m|, k
  {
    if k == 0 then 0.0
    else LaplaceSum(m, k - 1) + Times(Sign(k - 1), Times(m[k - 1][0], Det(Minor(m, k - 1))))
  }

  // ---------------------------------------------------------------------------------------------
  // The same number without cutting columns: a block is a list of rows of which only the
  // columns from c on count.
  // ---------------------------------------------------------------------------------------------

  predicate IsBlock(rows: seq<Row>, c: nat) {
    forall i :: 0 <= i < |rows| ==> |rows[i]| == c + |rows|
  }

  function BlockDet(rows: seq<Row>, c: nat): real
    requires IsBlock(rows, c)
    decreases |rows|, |rows| + 1
  {
    if rows == [] then 1.0 else Expand(rows, c, |rows|)
  }

  function Term(rows: seq<Row>, c: nat, k: nat): real
    requires IsBlock(rows, c) && k < |rows|
    decreases |rows|, k
  {
    Times(Sign(k), Times(rows[k][c], BlockDet(RemoveAt(rows, k), c + 1)))
  }

  function Expand(rows: seq<Row>, c: nat, k: nat): real
    requires IsBlock(rows, c) && k <= |rows|
    decreases |rows|, k
  {
    if k == 0 then 0.0 else Expand(rows, c, k - 1) + Term(rows, c, k - 1)
  }

  /** Two blocks that agree from column c on. */
  ghost predicate AgreeFrom(rows: seq<Row>, rows': seq<Row>, c: nat) {
    && |rows| == |rows'| && IsBlock(rows, c) && IsBlock(rows', c)
    && forall i, z :: 0 <= i < |rows| && c <= z < c + |rows| ==> rows[i][z] == rows'[i][z]
  }

  lemma {:induction false} BlockDetLocal(rows: seq<Row>, rows': seq<Row>, c: nat)
    requires AgreeFrom(rows, rows', c)
    ensures BlockDet(rows, c) == BlockDet(rows', c)
    decreases |rows|, |rows| + 1
  {
    if rows != [] {
      ExpandLocal(rows, rows', c, |rows|);
    }
  }

  lemma {:induction false} ExpandLocal(rows: seq<Row>, rows': seq<Row>, c: nat, k: nat)
    requires AgreeFrom(rows, rows', c) && k <= |rows|
    ensures Expand(rows, c, k) == Expand(rows', c, k)
    decreases |rows|, k
  {
    if k > 0 {
      ExpandLocal(rows, rows', c, k - 1);
      BlockDetLocal(RemoveAt(rows, k - 1), RemoveAt(rows', k - 1), c + 1);
    }
  }

  /** BlockDet at column 0 is the textbook determinant. */
  lemma {:induction false} BlockDetIsDet(m: Matrix, rows: seq<Row>, c: nat)
    requires IsBlock(rows, c) && Square(m) && |m| == |rows|
    requires forall i :: 0 <= i < |rows| ==> m[i] == rows[i][c..]
    ensures Det(m) == BlockDet(rows, c)
    decreases |m|, |m| + 1
  {
    if m != [] {
      ExpandIsLaplaceSum(m, rows, c, |m|);
    }
  }

  lemma {:induction false} ExpandIsLaplaceSum(m: Matrix, rows: seq<Row>, c: nat, k: nat)
    requires IsBlock(rows, c) && Square(m) && |m| == |rows| && k <= |m|
    requires forall i :: 0 <= i < |rows| ==> m[i] == rows[i][c..]
    ensures LaplaceSum(m, k) == Expand(rows, c, k)
    decreases |m|, k
  {
    if k > 0 {
      ExpandIsLaplaceSum(m, rows, c, k - 1);
      MinorIsRest(m, rows, c, k - 1);
      BlockDetIsDet(Minor(m, k - 1), RemoveAt(rows, k - 1), c + 1);
      assert m[k - 1][0] == rows[k - 1][c];
    }
  }

  lemma MinorIsRest(m: Matrix, rows: seq<Row>, c: nat, k: nat)
    requires IsBlock(rows, c) && Square(m) && |m| == |rows| && k < |m|
    requires forall i :: 0 <= i < |rows| ==> m[i] == rows[i][c..]
    ensures IsBlock(RemoveAt(rows, k), c + 1)
    ensures forall i :: 0 <= i < |rows| - 1 ==> Minor(m, k)[i] == RemoveAt(rows, k)[i][c + 1..]
  {
    forall i | 0 <= i < |rows| - 1
      ensures Minor(m, k)[i] == RemoveAt(rows, k)[i][c + 1..]
    {
      var j := if i < k then i else i + 1;
      assert RemoveAt(m, k)[i] == m[j] && RemoveAt(rows, k)[i] == rows[j];
      assert rows[j][c..][1..] == rows[j][c + 1..];
    }
  }

  // ---------------------------------------------------------------------------------------------
  // Linearity in one row
  // ---------------------------------------------------------------------------------------------

  /** From column c on, w is u + t * v. */
  ghost predicate Combination(w: Row, u: Row, v: Row, t: real, c: nat) {
    && |w| == |u| == |v|
    && forall z :: c <= z < |w| ==> w[z] == u[z] + t * v[z]
  }

  lemma {:induction false} DetLinear(rows: seq<Row>, c: nat, j: nat, w: Row, u: Row, v: Row, t: real)
    requires IsBlock(rows, c) && j < |rows| && |w| == |rows[j]| && Combination(w, u, v, t, c)
    ensures BlockDet(rows[j := w], c) == BlockDet(rows[j := u], c) + Times(t, BlockDet(rows[j := v], c))
    decreases |rows|, |rows| + 1
  {
    ExpandLinear(rows, c, j, w, u, v, t, |rows|);
  }

  lemma SumLinear(t: real, ew: real, eu: real, ev: real, tw: real, tu: real, tv: real)
    requires ew == eu + Times(t, ev) && tw == tu + Times(t, tv)
    ensures ew + tw == (eu + tu) + Times(t, ev + tv)
  {
  }

  lemma {:induction false} ExpandLinear(rows: seq<Row>, c: nat, j: nat, w: Row, u: Row, v: Row, t: real, k: nat)
    requires IsBlock(rows, c) && j < |rows| && |w| == |rows[j]| && Combination(w, u, v, t, c) && k <= |rows|
    ensures Expand(rows[j := w], c, k) == Expand(rows[j := u], c, k) + Times(t, Expand(rows[j := v], c, k))
    decreases |rows|, k
  {
    if k > 0 {
      ExpandLinear(rows, c, j, w, u, v, t, k - 1);
      TermLinear(rows, c, j, w, u, v, t, k - 1);
      SumLinear(t, Expand(rows[j := w], c, k - 1), Expand(rows[j := u], c, k - 1), Expand(rows[j := v], c, k - 1),
                Term(rows[j := w], c, k - 1), Term(rows[j := u], c, k - 1), Term(rows[j := v], c, k - 1));
    }
  }

  lemma FactorLinear(s: real, x: real, y: real, t: real, d: real)
    ensures Times(s, Times(x + t * y, d)) == Times(s, Times(x, d)) + Times(t, Times(s, Times(y, d)))
  {
  }

  lemma MinorLinear(s: real, x: real, t: real, d: real, e: real)
    ensures Times(s, Times(x, d + Times(t, e))) == Times(s, Times(x, d)) + Times(t, Times(s, Times(x, e)))
  {
  }

  lemma {:induction false} TermLinear(rows: seq<Row>, c: nat, j: nat, w: Row, u: Row, v: Row, t: real, k: nat)
    requires IsBlock(rows, c) && j < |rows| && |w| == |rows[j]| && Combination(w, u, v, t, c) && k < |rows|
    ensures Term(rows[j := w], c, k) == Term(rows[j := u], c, k) + Times(t, Term(rows[j := v], c, k))
    decreases |rows|, k, 1
  {
    if k == j {
      OwnTermLinear(rows, c, j, w, u, v, t);
    } else {
      OtherTermLinear(rows, c, j, w, u, v, t, k);
    }
  }

  lemma RemoveUpdated<T>(s: seq<T>, j: nat, x: T)
    requires j < |s|
    ensures RemoveAt(s[j := x], j) == RemoveAt(s, j)
  {
  }

  /** The term of row j itself: its entry is the linear combination. */
  lemma OwnTermLinear(rows: seq<Row>, c: nat, j: nat, w: Row, u: Row, v: Row, t: real)
    requires IsBlock(rows, c) && j < |rows| && |w| == |rows[j]| && Combination(w, u, v, t, c)
    ensures Term(rows[j := w], c, j) == Term(rows[j := u], c, j) + Times(t, Term(rows[j := v], c, j))
  {
    RemoveUpdated(rows, j, w);
    RemoveUpdated(rows, j, u);
    RemoveUpdated(rows, j, v);
    FactorLinear(Sign(j), u[c], v[c], t, BlockDet(RemoveAt(rows, j), c + 1));
  }

  lemma RemoveOther<T>(s: seq<T>, k: nat, j: nat, x: T)
    requires j < |s| && k < |s| && k != j
    ensures RemoveAt(s[j := x], k) == RemoveAt(s, k)[(if k < j then j - 1 else j) := x]
  {
  }

  /** The term of another row: its minor is linear. */
  lemma {:induction false} OtherTermLinear(rows: seq<Row>, c: nat, j: nat, w: Row, u: Row, v: Row, t: real, k: nat)
    requires IsBlock(rows, c) && j < |rows| && |w| == |rows[j]| && Combination(w, u, v, t, c)
    requires k < |rows| && k != j
    ensures Term(rows[j := w], c, k) == Term(rows[j := u], c, k) + Times(t, Term(rows[j := v], c, k))
    decreases |rows|, k, 0
  {
    var rest := RemoveAt(rows, k);
    var j' := if k < j then j - 1 else j;
    RemoveOther(rows, k, j, w);
    RemoveOther(rows, k, j, u);
    RemoveOther(rows, k, j, v);
    DetLinear(rest, c + 1, j', w, u, v, t);
    MinorLinear(Sign(k), rows[k][c], t, BlockDet(rest[j' := u], c + 1), BlockDet(rest[j' := v], c + 1));
  }

  // ---------------------------------------------------------------------------------------------
  // Exchanging two rows
  // ---------------------------------------------------------------------------------------------

  lemma {:induction false} AdjacentSwap(rows: seq<Row>, c: nat, j: nat)
    requires IsBlock(rows, c) && j + 1 < |rows|
    ensures BlockDet(SwapRows(rows, j, j + 1), c) == -BlockDet(rows, c)
    decreases |rows|, |rows| + 1
  {
    ExpandAdjacentSwap(rows, c, j, |rows|);
  }

  lemma {:induction false} ExpandAdjacentSwap(rows: seq<Row>, c: nat, j: nat, k: nat)
    requires IsBlock(rows, c) && j + 1 < |rows| && k <= |rows| && k != j + 1
    ensures Expand(SwapRows(rows, j, j + 1), c, k) == -Expand(rows, c, k)
    decreases |rows|, k
  {
    if k == j + 2 {
      ExpandAdjacentSwap(rows, c, j, j);
      SwappedTerms(rows, c, j);
    } else if k > 0 {
      ExpandAdjacentSwap(rows, c, j, k - 1);
      OtherTermSwap(rows, c, j, k - 1);
    }
  }

  /** The terms of the two exchanged rows trade places, and with them their signs. */
  lemma SwappedTerms(rows: seq<Row>, c: nat, j: nat)
    requires IsBlock(rows, c) && j + 1 < |rows|
    ensures Term(SwapRows(rows, j, j + 1), c, j) == -Term(rows, c, j + 1)
    ensures Term(SwapRows(rows, j, j + 1), c, j + 1) == -Term(rows, c, j)
  {
    var sw := SwapRows(rows, j, j + 1);
    assert RemoveAt(sw, j) == RemoveAt(rows, j + 1);
    assert RemoveAt(sw, j + 1) == RemoveAt(rows, j);
    assert Sign(j + 1) == -Sign(j);
  }

  lemma NegatedMinor(s: real, x: real, d: real)
    ensures Times(s, Times(x, -d)) == -Times(s, Times(x, d))
  {
  }

  lemma {:induction false} OtherTermSwap(rows: seq<Row>, c: nat, j: nat, i: nat)
    requires IsBlock(rows, c) && j + 1 < |rows| && i < |rows| && i != j && i != j + 1
    ensures Term(SwapRows(rows, j, j + 1), c, i) == -Term(rows, c, i)
    decreases |rows|, i
  {
    var sw := SwapRows(rows, j, j + 1);
    var j' := if i < j then j - 1 else j;
    assert RemoveAt(sw, i) == SwapRows(RemoveAt(rows, i), j', j' + 1);
    AdjacentSwap(RemoveAt(rows, i), c + 1, j');
    NegatedMinor(Sign(i), rows[i][c], BlockDet(RemoveAt(rows, i), c + 1));
  }

  /** Exchanging any two rows negates the determinant. */
  lemma {:induction false} DetSwap(rows: seq<Row>, c: nat, i: nat, k: nat)
    requires IsBlock(rows, c) && i < k < |rows|
    ensures BlockDet(SwapRows(rows, i, k), c) == -BlockDet(rows, c)
    decreases k
  {
    if k == i + 1 {
      AdjacentSwap(rows, c, i);
    } else {
      var r1 := SwapRows(rows, k - 1, k);
      var r2 := SwapRows(r1, i, k - 1);
      AdjacentSwap(rows, c, k - 1);
      DetSwap(r1, c, i, k - 1);
      AdjacentSwap(r2, c, k - 1);
      assert SwapRows(rows, i, k) == SwapRows(r2, k - 1, k);
    }
  }

  /** A determinant with two equal rows is zero. */
  lemma DetEqualRows(rows: seq<Row>, c: nat, i: nat, k: nat)
    requires IsBlock(rows, c) && i < k < |rows| && rows[i] == rows[k]
    ensures BlockDet(rows, c) == 0.0
  {
    DetSwap(rows, c, i, k);
    assert SwapRows(rows, i, k) == rows;
  }

  /** Adding a multiple of row 0 to row j keeps the determinant. */
  lemma DetAddMultiple(rows: seq<Row>, c: nat, j: nat, w: Row, t: real)
    requires IsBlock(rows, c) && 0 < j < |rows|
    requires Combination(w, rows[j], rows[0], t, c)
    ensures BlockDet(rows[j := w], c) == BlockDet(rows, c)
  {
    DetLinear(rows, c, j, w, rows[j], rows[0], t);
    assert rows[j := rows[j]] == rows;
    DetEqualRows(rows[j := rows[0]], c, 0, j);
  }

  // ---------------------------------------------------------------------------------------------
  // First columns with at most one nonzero entry
  // ---------------------------------------------------------------------------------------------

  lemma {:induction false} ExpandZeroTail(rows: seq<Row>, c: nat, k: nat)
    requires IsBlock(rows, c) && 1 <= k <= |rows|
    requires forall i :: 1 <= i < |rows| ==> rows[i][c] == 0.0
    ensures Expand(rows, c, k) == Times(rows[0][c], BlockDet(rows[1..], c + 1))
  {
    assert RemoveAt(rows, 0) == rows[1..];
    assert Expand(rows, c, 1) == Term(rows, c, 0);
    if k > 1 {
      ExpandZeroTail(rows, c, k - 1);
      assert Term(rows, c, k - 1) == 0.0;
    }
  }

  /** A first column that is zero below its first entry splits off that entry. */
  lemma DetZeroTail(rows: seq<Row>, c: nat)
    requires IsBlock(rows, c) && rows != []
    requires forall i :: 1 <= i < |rows| ==> rows[i][c] == 0.0
    ensures BlockDet(rows, c) == Times(rows[0][c], BlockDet(rows[1..], c + 1))
  {
    ExpandZeroTail(rows, c, |rows|);
  }

  // ---------------------------------------------------------------------------------------------
  // Known values
  // ---------------------------------------------------------------------------------------------

  function DiagonalProduct(m: Matrix, c: nat): real
    requires Square(m) && c <= |m|
    decreases |m| - c
  {
    if c == |m| then 1.0 else m[c][c] * DiagonalProduct(m, c + 1)
  }

  lemma {:induction false} BlockTriangular(m: Matrix, c: nat)
    requires Square(m) && c <= |m| && forall r, z :: c <= z < r < |m| ==> m[r][z] == 0.0
    ensures BlockDet(m[c..], c) == DiagonalProduct(m, c)
    decreases |m| - c
  {
    if c < |m| {
      assert m[c..][1..] == m[c + 1..];
      DetZeroTail(m[c..], c);
      BlockTriangular(m, c + 1);
    }
  }

  /** The determinant of a triangular matrix is the product of its diagonal. */
  lemma DetTriangular(m: Matrix)
    requires Square(m) && forall r, z :: 0 <= z < r < |m| ==> m[r][z] == 0.0
    ensures Det(m) == DiagonalProduct(m, 0)
  {
    BlockDetIsDet(m, m, 0);
    assert m[0..] == m;
    BlockTriangular(m, 0);
  }

  lemma {:induction false} OnesProduct(m: Matrix, c: nat)
    requires Square(m) && c <= |m| && forall i :: 0 <= i < |m| ==> m[i][i] == 1.0
    ensures DiagonalProduct(m, c) == 1.0
    decreases |m| - c
  {
    if c < |m| {
      OnesProduct(m, c + 1);
    }
  }

  /** The determinant of the identity matrix of any size is one. */
  lemma DetIdentity(m: Matrix)
    requires Square(m)
    requires forall r, z :: 0 <= r < |m| && 0 <= z < |m| ==> m[r][z] == if r == z then 1.0 else 0.0
    ensures Det(m) == 1.0
  {
    DetTriangular(m);
    OnesProduct(m, 0);
  }

  lemma DetOne(x: real)
    ensures Det([[x]]) == x
  {
    DetTriangular([[x]]);
    assert DiagonalProduct([[x]], 1) == 1.0;
  }

  /** Two rows: ad - bc. */
  lemma DetTwo(a: real, b: real, c: real, d: real)
    ensures Det([[a, b], [c, d]]) == a * d - b * c
  {
    var m := [[a, b], [c, d]];
    assert Minor(m, 0) == [[d]] && Minor(m, 1) == [[b]];
    DetOne(d);
    DetOne(b);
    assert LaplaceSum(m, 2) == LaplaceSum(m, 1) + Times(Sign(1), Times(c, b));
    assert LaplaceSum(m, 1) == LaplaceSum(m, 0) + Times(Sign(0), Times(a, d));
  }
}
