/** Prefix sums by doubling windows: in each round cell i adds the cell that lies one window length
    before it, read from the buffer of the round before. */
module PrefixSum {
  import opened Common

  const INT_MIN := -0x8000_0000
  const INT_MAX := 0x7fff_ffff

  function Pow2(k: nat): (p: nat)
    ensures p >= 1
  {
    if k == 0 then 1 else 2 * Pow2(k - 1)
  }

  /** The sum of a[lo..hi]. */
  function Sum(a: seq<int>, lo: nat, hi: nat): int
    requires lo <= hi <= |a|
    decreases hi
  {
    if lo == hi then 0 else Sum(a, lo, hi - 1) + a[hi - 1]
  }

  lemma {:induction false} SumSplit(a: seq<int>, lo: nat, mid: nat, hi: nat)
    requires lo <= mid <= hi <= |a|
    ensures Sum(a, lo, hi) == Sum(a, lo, mid) + Sum(a, mid, hi)
    decreases hi
  {
    if mid < hi {
      SumSplit(a, lo, mid, hi - 1);
    }
  }

  /** The sum of the last w elements up to and including i, or of all of them if there are fewer. */
  function Window(a: seq<int>, i: nat, w: nat): int
    requires i < |a|
  {
    Sum(a, if i + 1 < w then 0 else i + 1 - w, i + 1)
  }

  lemma WindowDoubles(a: seq<int>, i: nat, w: nat)
    requires i < |a| && 1 <= w
    ensures i >= w ==> Window(a, i, 2 * w) == Window(a, i, w) + Window(a, i - w, w)
    ensures i < w ==> Window(a, i, 2 * w) == Window(a, i, w)
  {
    if i >= w {
      SumSplit(a, if i + 1 < 2 * w then 0 else i + 1 - 2 * w, i + 1 - w, i + 1);
    }
  }

  lemma UnitWindow(a: seq<int>)
    ensures forall i :: 0 <= i < |a| ==> Window(a, i, 1) == a[i]
  {
    forall i | 0 <= i < |a|
      ensures Window(a, i, 1) == a[i]
    {
      assert Sum(a, i, i) == 0;
    }
  }

  lemma FullWindow(a: seq<int>, w: nat)
    requires |a| <= w
    ensures forall i :: 0 <= i < |a| ==> Window(a, i, w) == Sum(a, 0, i + 1)
  {
  }

  ghost predicate IsWindowSum(a: seq<int>, v: int) {
    exists lo, hi :: 0 <= lo <= hi <= |a| && v == Sum(a, lo, hi)
  }

  lemma WindowIsWindowSum(a: seq<int>, i: nat, w: nat)
    requires i < |a|
    ensures IsWindowSum(a, Window(a, i, w))
  {
  }

  /** All sums of contiguous elements fit into an int. */
  ghost predicate WindowsFit(a: seq<int>) {
    forall v :: IsWindowSum(a, v) ==> INT_MIN <= v <= INT_MAX
  }

  /** The number of rounds: doubling the window that often covers n elements, and no fewer times. */
  ghost predicate IsRounds(n: nat, k: nat) {
    n <= Pow2(k) && (k > 0 ==> Pow2(k - 1) < n)
  }

  lemma {:induction false} Pow2Monotone(j: nat, k: nat)
    requires j <= k
    ensures Pow2(j) <= Pow2(k)
    decreases k - j
  {
    if j < k {
      Pow2Monotone(j, k - 1);
    }
  }

  lemma RoundsUnique(n: nat, j: nat, k: nat)
    requires IsRounds(n, j) && IsRounds(n, k)
    ensures j == k
  {
    if j < k {
      Pow2Monotone(j, k - 1);
    } else if k < j {
      Pow2Monotone(k, j - 1);
    }
  }

  /** At most 30 rounds for up to 2^30 elements, so 1 << step never leaves the int range. */
  lemma ShiftFits(n: nat, step: nat)
    requires n <= 0x4000_0000 && (step > 0 ==> Pow2(step - 1) < n)
    ensures step <= 30 && Pow2(step) <= 0x4000_0000
  {
    assert Pow2(10) == 1024;
    assert Pow2(20) == 1024 * Pow2(10);
    assert Pow2(30) == 1024 * Pow2(20);
    if step > 30 {
      Pow2Monotone(30, step - 1);
    }
    Pow2Monotone(step, 30);
  }

  // ---------------------------------------------------------------------------------------------
  // What the loops store
  // ---------------------------------------------------------------------------------------------

  /** The values that the round with window p stores, by ascending cell. */
  function RoundStores(a: seq<int>, p: nat): (s: seq<int>)
    requires 1 <= p <= |a|
    ensures |s| == |a| - p
    ensures forall i :: 0 <= i < |s| ==> s[i] == Window(a, i + p, 2 * p)
  {
    seq(|a| - p, i requires 0 <= i < |a| - p => Window(a, i + p, 2 * p))
  }

  /** The values that the first k rounds store. */
  function Stored(a: seq<int>, k: nat): seq<int>
    requires k > 0 ==> Pow2(k - 1) < |a|
  {
    if k == 0 then [] else Stored(a, k - 1) + RoundStores(a, Pow2(k - 1))
  }

  lemma {:induction false} StoredCount(a: seq<int>, k: nat)
    requires k > 0 ==> Pow2(k - 1) < |a|
    ensures |Stored(a, k)| == |a| * k - (Pow2(k) - 1)
  {
    if k > 0 {
      StoredCount(a, k - 1);
    }
  }

  ghost predicate AllFit(s: seq<int>) {
    forall i :: 0 <= i < |s| ==> INT_MIN <= s[i] <= INT_MAX
  }

  lemma RoundFits(a: seq<int>, p: nat)
    requires WindowsFit(a) && 1 <= p <= |a|
    ensures AllFit(RoundStores(a, p))
  {
    forall i | 0 <= i < |a| - p
      ensures INT_MIN <= RoundStores(a, p)[i] <= INT_MAX
    {
      WindowIsWindowSum(a, i + p, 2 * p);
    }
  }

  /** No stored value overflows when all window sums fit. */
  lemma {:induction false} StoredFit(a: seq<int>, k: nat)
    requires WindowsFit(a) && (k > 0 ==> Pow2(k - 1) < |a|)
    ensures AllFit(Stored(a, k))
  {
    if k > 0 {
      StoredFit(a, k - 1);
      RoundFits(a, Pow2(k - 1));
    }
  }

  // ---------------------------------------------------------------------------------------------
  // The programs
  // ---------------------------------------------------------------------------------------------

  ghost predicate Holds(buffer: array<int>, a: seq<int>, w: nat)
    reads buffer
  {
    buffer.Length == |a| && forall i :: 0 <= i < |a| ==> buffer[i] == Window(a, i, w)
  }

  lemma ShortWindows(a: seq<int>, p: nat)
    requires 1 <= p <= |a|
    ensures forall j :: 0 <= j < p ==> Window(a, j, 2 * p) == Window(a, j, p)
  {
    forall j | 0 <= j < p
      ensures Window(a, j, 2 * p) == Window(a, j, p)
    {
      WindowDoubles(a, j, p);
    }
  }

  /** One round, cells in ascending order. */
  method Round(ghost a: seq<int>, prev: array<int>, cur: array<int>, p: nat) returns (ghost stores: seq<int>)
    requires prev != cur && 1 <= p <= |a| && Holds(prev, a, p) && Holds(cur, a, p)
    modifies cur
    ensures Holds(cur, a, 2 * p)
    ensures stores == RoundStores(a, p)
  {
    stores := [];
    ShortWindows(a, p);
    for i := 0 to cur.Length - p
      invariant forall j :: 0 <= j < |a| ==> cur[j] == Window(a, j, if j < i + p then 2 * p else p)
      invariant |stores| == i && forall j :: 0 <= j < i ==> stores[j] == RoundStores(a, p)[j]
    {
      WindowDoubles(a, i + p, p);
      cur[i + p] := cur[i + p] + prev[i];
      stores := stores + [cur[i + p]];
    }
  }

  /** How often v occurs in s at the pending positions below k. */
  ghost function CountPending(s: seq<int>, pending: set<int>, k: nat, v: int): nat
    requires k <= |s|
  {
    if k == 0 then 0 else CountPending(s, pending, k - 1, v) + if k - 1 in pending && s[k - 1] == v then 1 else 0
  }

  lemma {:induction false} AllPending(s: seq<int>, pending: set<int>, k: nat, v: int)
    requires k <= |s| && forall i :: 0 <= i < k ==> i in pending
    ensures CountPending(s, pending, k, v) == multiset(s[..k])[v]
  {
    if k > 0 {
      AllPending(s, pending, k - 1, v);
      assert s[..k] == s[..k - 1] + [s[k - 1]];
    }
  }

  lemma {:induction false} NonePending(s: seq<int>, k: nat, v: int)
    requires k <= |s|
    ensures CountPending(s, {}, k, v) == 0
  {
    if k > 0 {
      NonePending(s, k - 1, v);
    }
  }

  lemma {:induction false} OneLessPending(s: seq<int>, pending: set<int>, i: nat, k: nat, v: int)
    requires k <= |s| && i < |s| && i in pending
    ensures CountPending(s, pending, k, v) ==
            CountPending(s, pending - {i}, k, v) + if i < k && s[i] == v then 1 else 0
  {
    if k > 0 {
      OneLessPending(s, pending, i, k - 1, v);
    }
  }

  /** What is stored and what is pending make up all values. */
  ghost predicate Accounted(stores: seq<int>, values: seq<int>, pending: set<int>) {
    forall v :: multiset(stores)[v] + CountPending(values, pending, |values|, v) == multiset(values)[v]
  }

  lemma NothingStoredYet(values: seq<int>, pending: set<int>)
    requires forall i :: 0 <= i < |values| ==> i in pending
    ensures Accounted([], values, pending)
  {
    assert values[..|values|] == values;
    forall v
      ensures CountPending(values, pending, |values|, v) == multiset(values)[v]
    {
      AllPending(values, pending, |values|, v);
    }
  }

  lemma StoreOne(stores: seq<int>, values: seq<int>, pending: set<int>, i: nat)
    requires Accounted(stores, values, pending) && i < |values| && i in pending
    ensures Accounted(stores + [values[i]], values, pending - {i})
  {
    forall v
      ensures multiset(stores + [values[i]])[v] + CountPending(values, pending - {i}, |values|, v) ==
              multiset(values)[v]
    {
      OneLessPending(values, pending, i, |values|, v);
      assert multiset(stores)[v] + CountPending(values, pending, |values|, v) == multiset(values)[v];
      assert multiset(stores + [values[i]])[v] == multiset(stores)[v] + if values[i] == v then 1 else 0;
    }
  }

  lemma AllStored(stores: seq<int>, values: seq<int>)
    requires Accounted(stores, values, {})
    ensures multiset(stores) == multiset(values)
  {
    forall v
      ensures multiset(stores)[v] == multiset(values)[v]
    {
      NonePending(values, |values|, v);
      assert multiset(stores)[v] + CountPending(values, {}, |values|, v) == multiset(values)[v];
    }
  }

  /** The cells whose iterations are pending hold the old windows, the others the doubled ones. */
  ghost predicate HoldsPartly(buffer: array<int>, a: seq<int>, p: nat, pending: set<int>)
    reads buffer
  {
    && buffer.Length == |a|
    && forall j :: 0 <= j < |a| ==> buffer[j] == Window(a, j, if j - p in pending then p else 2 * p)
  }

  method Iteration(ghost a: seq<int>, prev: array<int>, cur: array<int>, p: nat, i: nat, ghost pending: set<int>)
    requires prev != cur && 1 <= p && i + p < |a| && i in pending
    requires Holds(prev, a, p) && HoldsPartly(cur, a, p, pending)
    modifies cur
    ensures HoldsPartly(cur, a, p, pending - {i}) && cur[i + p] == Window(a, i + p, 2 * p)
  {
    WindowDoubles(a, i + p, p);
    cur[i + p] := cur[i + p] + prev[i];
  }

  /** One round, cells in any order: it stores the same values, each as often. */
  method ParallelRound(ghost a: seq<int>, prev: array<int>, cur: array<int>, p: nat) returns (ghost stores: seq<int>)
    requires prev != cur && 1 <= p <= |a| && Holds(prev, a, p) && Holds(cur, a, p)
    modifies cur
    ensures Holds(cur, a, 2 * p)
    ensures multiset(stores) == multiset(RoundStores(a, p))
  {
    stores := [];
    var pending := Range(0, cur.Length - p);
    ghost var values := RoundStores(a, p);
    ShortWindows(a, p);
    NothingStoredYet(values, pending);
    while pending != {}
      invariant forall i :: i in pending ==> 0 <= i < |a| - p
      invariant HoldsPartly(cur, a, p, pending)
      invariant Accounted(stores, values, pending)
    {
      var i :| i in pending;
      Iteration(a, prev, cur, p, i, pending);
      StoreOne(stores, values, pending, i);
      stores := stores + [cur[i + p]];
      pending := pending - {i};
    }
    AllStored(stores, values);
  }

  /** Returns the running sums. The ghost results are the number of rounds and the values stored
      in the order of the stores. */
  method PrefSum(a: seq<int>) returns (r: seq<int>, ghost rounds: nat, ghost stores: seq<int>)
    requires |a| <= 0x4000_0000
    ensures |r| == |a| && forall i :: 0 <= i < |a| ==> r[i] == Sum(a, 0, i + 1)
    ensures IsRounds(|a|, rounds) && stores == Stored(a, rounds)
  {
    var n := |a|;
    var prev := new int[n](i requires 0 <= i < n => a[i]);
    var cur := new int[n](i requires 0 <= i < n => a[i]);
    var step := 0;
    stores := [];
    UnitWindow(a);
    while Pow2(step) < n
      invariant step > 0 ==> Pow2(step - 1) < n
      invariant Holds(prev, a, Pow2(step)) && Holds(cur, a, Pow2(step))
      invariant stores == Stored(a, step)
      decreases 31 - step
    {
      ShiftFits(n, step);
      ghost var more := Round(a, prev, cur, Pow2(step));
      stores := stores + more;
      forall j | 0 <= j < n {
        prev[j] := cur[j];
      }
      step := step + 1;
    }
    FullWindow(a, Pow2(step));
    r, rounds := cur[..], step;
  }

  /** The variant whose rounds may take their cells in any order. */
  method PrefSumParallel(a: seq<int>) returns (r: seq<int>, ghost rounds: nat, ghost stores: seq<int>)
    requires |a| <= 0x4000_0000
    ensures |r| == |a| && forall i :: 0 <= i < |a| ==> r[i] == Sum(a, 0, i + 1)
    ensures IsRounds(|a|, rounds) && multiset(stores) == multiset(Stored(a, rounds))
  {
    var n := |a|;
    var prev := new int[n](i requires 0 <= i < n => a[i]);
    var cur := new int[n](i requires 0 <= i < n => a[i]);
    var step := 0;
    stores := [];
    UnitWindow(a);
    while Pow2(step) < n
      invariant step > 0 ==> Pow2(step - 1) < n
      invariant Holds(prev, a, Pow2(step)) && Holds(cur, a, Pow2(step))
      invariant multiset(stores) == multiset(Stored(a, step))
      decreases 31 - step
    {
      ShiftFits(n, step);
      ghost var more := ParallelRound(a, prev, cur, Pow2(step));
      stores := stores + more;
      forall j | 0 <= j < n {
        prev[j] := cur[j];
      }
      step := step + 1;
    }
    FullWindow(a, Pow2(step));
    r, rounds := cur[..], step;
  }
}
