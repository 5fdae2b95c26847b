/** The producer and consumer threads on the shared vector, as steps that may interleave in any
    way. The producer pushes 0 .. n-1 under the write lock; the consumer takes the last element
    under a read lock. A lock call may fail at any time; unlock succeeds. */
module ProducerConsumer {

  const INVALID_ELEMENT: int := -2147483648

  datatype ProducerAt = ProducerHead | Locked | Pushed | LoopEnd | ProducerDone
  datatype ConsumerAt = ConsumerHead | Reading | Copied | Unlocking | Counting | ConsumerDone

  datatype State = State(
    vec: seq<int>,
    writer: bool,
    readers: nat,
    producer: ProducerAt,
    i: int,
    consumer: ConsumerAt,
    element: int,
    consumed: seq<int>)

  const START := State([], false, 0, ProducerHead, 0, ConsumerHead, INVALID_ELEMENT, [])

  datatype Action =
    | WriteLock | WriteLockFails | Push | WriteUnlock | NextValue | ProducerReturns
    | ReadLock | ReadLockFails | Look | PopBack | ReadUnlock | Count | ConsumerReturns

  predicate Enabled(n: nat, s: State, a: Action) {
    match a
    case WriteLock => s.producer == ProducerHead && s.i < n && !s.writer && s.readers == 0
    case WriteLockFails => s.producer == ProducerHead && s.i < n
    case Push => s.producer == Locked
    case WriteUnlock => s.producer == Pushed
    case NextValue => s.producer == LoopEnd
    case ProducerReturns => s.producer == ProducerHead && s.i >= n
    case ReadLock => s.consumer == ConsumerHead && |s.consumed| < n && !s.writer
    case ReadLockFails => s.consumer == ConsumerHead && |s.consumed| < n
    case Look => s.consumer == Reading
    case PopBack => s.consumer == Copied && s.vec != []
    case ReadUnlock => s.consumer == Unlocking && s.readers > 0
    case Count => s.consumer == Counting
    case ConsumerReturns => s.consumer == ConsumerHead && |s.consumed| >= n
  }

  /** A failed write lock steps the value back and goes to the end of the loop, which steps it
      forward again. An element read from an empty vector stays invalid and is not counted. */
  function Step(n: nat, s: State, a: Action): State
    requires Enabled(n, s, a)
  {
    match a
    case WriteLock => s.(writer := true, producer := Locked)
    case WriteLockFails => s.(i := s.i - 1, producer := LoopEnd)
    case Push => s.(vec := s.vec + [s.i], producer := Pushed)
    case WriteUnlock => s.(writer := false, producer := LoopEnd)
    case NextValue => s.(i := s.i + 1, producer := ProducerHead)
    case ProducerReturns => s.(producer := ProducerDone)
    case ReadLock => s.(readers := s.readers + 1, consumer := Reading)
    case ReadLockFails => s
    case Look =>
      if s.vec == [] then s.(consumer := Unlocking)
      else s.(element := s.vec[|s.vec| - 1], consumer := Copied)
    case PopBack => s.(vec := s.vec[..|s.vec| - 1], consumer := Unlocking)
    case ReadUnlock => s.(readers := s.readers - 1, consumer := Counting)
    case Count =>
      s.(consumed := if s.element != INVALID_ELEMENT then s.consumed + [s.element] else s.consumed,
         element := INVALID_ELEMENT,
         consumer := ConsumerHead)
    case ConsumerReturns => s.(consumer := ConsumerDone)
  }

  predicate CanRun(n: nat, s: State, run: seq<Action>)
    decreases |run|
  {
    run == [] || (Enabled(n, s, run[0]) && CanRun(n, Step(n, s, run[0]), run[1..]))
  }

  function Run(n: nat, s: State, run: seq<Action>): State
    requires CanRun(n, s, run)
    decreases |run|
  {
    if run == [] then s else Run(n, Step(n, s, run[0]), run[1..])
  }

  predicate Final(s: State) {
    s.producer == ProducerDone && s.consumer == ConsumerDone
  }

  // ---------------------------------------------------------------------------------------------
  // The invariant
  // ---------------------------------------------------------------------------------------------

  /** The value that the producer pushes next. */
  function Next(s: State): int {
    if s.producer == Pushed || s.producer == LoopEnd then s.i + 1 else s.i
  }

  predicate Writing(s: State) {
    s.producer == Locked || s.producer == Pushed
  }

  predicate Inside(s: State) {
    s.consumer == Reading || s.consumer == Copied || s.consumer == Unlocking
  }

  /** The element taken from the vector and not yet counted. */
  function InHand(s: State): seq<int> {
    if (s.consumer == Unlocking || s.consumer == Counting) && s.element != INVALID_ELEMENT then [s.element] else []
  }

  /** Everything taken from the vector, in order. */
  function Taken(s: State): seq<int> {
    s.consumed + InHand(s)
  }

  /** The values 0 .. n-1, once each. */
  function Upto(n: int): (m: multiset<int>)
    ensures forall v :: m[v] == if 0 <= v < n then 1 else 0
    decreases n
  {
    if n <= 0 then multiset{} else Upto(n - 1) + multiset{n - 1}
  }

  lemma {:induction false} UptoSize(n: nat)
    ensures |Upto(n)| == n
  {
    if n > 0 {
      UptoSize(n - 1);
    }
  }

  ghost predicate Increasing(s: seq<int>) {
    forall i, j :: 0 <= i < j < |s| ==> s[i] < s[j]
  }

  /** Neither skipped nor duplicated: what was pushed is in the vector, in hand, or consumed. */
  ghost predicate Conserved(s: State) {
    multiset(s.vec) + multiset(Taken(s)) == Upto(Next(s))
  }

  ghost predicate Control(n: nat, s: State) {
    && 0 <= Next(s) <= n
    && (s.producer == Locked ==> s.i < n)
    && (s.producer == ProducerDone ==> s.i == n)
    && s.writer == Writing(s)
    && s.readers == (if Inside(s) then 1 else 0)
    && !(Writing(s) && Inside(s))
    && (s.consumer == Copied ==> s.vec != [] && s.element == s.vec[|s.vec| - 1])
    && (s.consumer in {ConsumerHead, Reading, ConsumerDone} ==> s.element == INVALID_ELEMENT)
    && (Inside(s) || s.consumer == Counting ==> |s.consumed| < n)
    && |s.consumed| <= n
    && (s.consumer == ConsumerDone ==> |s.consumed| == n)
  }

  /** No three values are taken in the order greatest, least, middle. */
  ghost predicate StackOrder(c: seq<int>) {
    forall i, j, k :: 0 <= i < j < k < |c| ==> !(c[i] > c[k] > c[j])
  }

  /** The same with the middle value still in the vector. */
  ghost predicate StackOrderWith(c: seq<int>, vec: seq<int>) {
    forall i, j, k :: 0 <= i < j < |c| && 0 <= k < |vec| ==> !(c[i] > vec[k] > c[j])
  }

  ghost predicate Data(s: State) {
    && Increasing(s.vec)
    && Conserved(s)
    && StackOrder(Taken(s))
    && StackOrderWith(Taken(s), s.vec)
  }

  ghost predicate Inv(n: nat, s: State) {
    Control(n, s) && Data(s)
  }

  lemma Members(s: State)
    requires Conserved(s)
    ensures forall k :: 0 <= k < |s.vec| ==> 0 <= s.vec[k] < Next(s)
    ensures forall k :: 0 <= k < |Taken(s)| ==> 0 <= Taken(s)[k] < Next(s)
  {
    forall k | 0 <= k < |s.vec|
      ensures 0 <= s.vec[k] < Next(s)
    {
      assert s.vec[k] in multiset(s.vec);
      assert Upto(Next(s))[s.vec[k]] > 0;
    }
    forall k | 0 <= k < |Taken(s)|
      ensures 0 <= Taken(s)[k] < Next(s)
    {
      assert Taken(s)[k] in multiset(Taken(s));
      assert Upto(Next(s))[Taken(s)[k]] > 0;
    }
  }

  lemma StartInv(n: nat)
    ensures Inv(n, START)
  {
  }

  lemma PushOrder(c: seq<int>, vec: seq<int>, v: int)
    requires Increasing(vec) && StackOrderWith(c, vec)
    requires (forall k :: 0 <= k < |vec| ==> vec[k] < v) && (forall k :: 0 <= k < |c| ==> c[k] < v)
    ensures Increasing(vec + [v]) && StackOrderWith(c, vec + [v])
  {
  }

  lemma PushCount(vec: seq<int>, taken: seq<int>, v: nat)
    requires multiset(vec) + multiset(taken) == Upto(v)
    ensures multiset(vec + [v]) + multiset(taken) == Upto(v + 1)
  {
    assert multiset(vec + [v]) == multiset(vec) + multiset{v};
  }

  lemma PushKeepsData(s: State, t: State)
    requires Data(s) && 0 <= Next(s)
    requires t.vec == s.vec + [Next(s)] && Taken(t) == Taken(s) && Next(t) == Next(s) + 1
    ensures Data(t)
  {
    Members(s);
    PushOrder(Taken(s), s.vec, Next(s));
    PushCount(s.vec, Taken(s), Next(s));
  }

  lemma PopOrder(c: seq<int>, vec: seq<int>, v: int)
    requires Increasing(vec + [v]) && StackOrder(c) && StackOrderWith(c, vec + [v])
    ensures Increasing(vec) && StackOrder(c + [v]) && StackOrderWith(c + [v], vec)
  {
    var whole := vec + [v];
    assert forall k :: 0 <= k < |vec| ==> whole[k] == vec[k] && whole[k] < whole[|vec|];
    assert whole[|vec|] == v;
  }

  lemma PopKeepsData(s: State, t: State, v: int)
    requires Data(s) && s.vec == t.vec + [v] && Taken(t) == Taken(s) + [v] && Next(t) == Next(s)
    ensures Data(t)
  {
    PopOrder(Taken(s), t.vec, v);
    assert multiset(s.vec) == multiset(t.vec) + multiset{v};
  }

  predicate ByProducer(a: Action) {
    a in {WriteLock, WriteLockFails, Push, WriteUnlock, NextValue, ProducerReturns}
  }

  lemma ProducerKeepsControl(n: nat, s: State, a: Action)
    requires Control(n, s) && Enabled(n, s, a) && ByProducer(a)
    ensures Control(n, Step(n, s, a))
  {
  }

  lemma ConsumerKeepsControl(n: nat, s: State, a: Action)
    requires Control(n, s) && Enabled(n, s, a) && !ByProducer(a)
    ensures Control(n, Step(n, s, a))
  {
  }

  lemma StepKeepsControl(n: nat, s: State, a: Action)
    requires Control(n, s) && Enabled(n, s, a)
    ensures Control(n, Step(n, s, a))
  {
    if ByProducer(a) {
      ProducerKeepsControl(n, s, a);
    } else {
      ConsumerKeepsControl(n, s, a);
    }
  }

  lemma PopBackKeepsData(n: nat, s: State)
    requires Inv(n, s) && Enabled(n, s, PopBack)
    ensures Data(Step(n, s, PopBack))
  {
    var t := Step(n, s, PopBack);
    var v := s.vec[|s.vec| - 1];
    Members(s);
    assert v != INVALID_ELEMENT;
    assert InHand(s) == [] && InHand(t) == [v];
    assert Taken(t) == Taken(s) + [v];
    PopKeepsData(s, t, v);
  }

  /** Other steps leave the vector, what was taken, and the next value. */
  lemma OtherStep(n: nat, s: State, a: Action)
    requires Inv(n, s) && Enabled(n, s, a) && a != Push && a != PopBack
    ensures var t := Step(n, s, a); Taken(t) == Taken(s) && t.vec == s.vec && Next(t) == Next(s)
  {
    if a == Count {
      assert Taken(Step(n, s, a)) == Taken(s);
    }
  }

  lemma StepKeepsData(n: nat, s: State, a: Action)
    requires Inv(n, s) && Enabled(n, s, a)
    ensures Data(Step(n, s, a))
  {
    if a == Push {
      PushKeepsData(s, Step(n, s, a));
    } else if a == PopBack {
      PopBackKeepsData(n, s);
    } else {
      OtherStep(n, s, a);
    }
  }

  lemma StepKeepsInv(n: nat, s: State, a: Action)
    requires Inv(n, s) && Enabled(n, s, a)
    ensures Inv(n, Step(n, s, a))
  {
    StepKeepsControl(n, s, a);
    StepKeepsData(n, s, a);
  }

  lemma {:induction false} RunKeepsInv(n: nat, s: State, run: seq<Action>)
    requires Inv(n, s) && CanRun(n, s, run)
    ensures Inv(n, Run(n, s, run))
    decreases |run|
  {
    if run != [] {
      StepKeepsInv(n, s, run[0]);
      RunKeepsInv(n, Step(n, s, run[0]), run[1..]);
    }
  }

  // ---------------------------------------------------------------------------------------------
  // Safety over all runs
  // ---------------------------------------------------------------------------------------------

  /** In every reachable state: the two threads are never both inside, the vector is strictly
      increasing and below the next value, and every value pushed so far is in the vector, in hand
      or consumed, exactly once. */
  lemma ReachableStates(n: nat, run: seq<Action>)
    requires CanRun(n, START, run)
    ensures Safe(Run(n, START, run))
  {
    StartInv(n);
    RunKeepsInv(n, START, run);
    InvIsSafe(n, Run(n, START, run));
  }

  ghost predicate Safe(s: State) {
    && !(Writing(s) && Inside(s))
    && Increasing(s.vec)
    && (forall k :: 0 <= k < |s.vec| ==> 0 <= s.vec[k] < Next(s))
    && multiset(s.vec) + multiset(InHand(s)) + multiset(s.consumed) == Upto(Next(s))
  }

  lemma InvIsSafe(n: nat, s: State)
    requires Inv(n, s)
    ensures Safe(s)
  {
    Members(s);
    assert multiset(Taken(s)) == multiset(s.consumed) + multiset(InHand(s));
  }

  /** When both threads have returned, the vector is empty and 0 .. n-1 were each read once. */
  lemma FinalStates(n: nat, run: seq<Action>)
    requires CanRun(n, START, run) && Final(Run(n, START, run))
    ensures var s := Run(n, START, run); s.vec == [] && multiset(s.consumed) == Upto(n)
  {
    var s := Run(n, START, run);
    StartInv(n);
    RunKeepsInv(n, START, run);
    UptoSize(n);
    assert Taken(s) == s.consumed;
    assert |multiset(s.vec) + multiset(s.consumed)| == n;
    assert s.vec == [];
    assert multiset(s.vec) == multiset{};
  }

  // ---------------------------------------------------------------------------------------------
  // Which orders can be consumed
  // ---------------------------------------------------------------------------------------------

  lemma {:induction false} RunAppend(n: nat, s: State, a: seq<Action>, b: seq<Action>)
    requires CanRun(n, s, a) && CanRun(n, Run(n, s, a), b)
    ensures CanRun(n, s, a + b) && Run(n, s, a + b) == Run(n, Run(n, s, a), b)
    decreases |a|
  {
    if a == [] {
      assert a + b == b;
    } else {
      assert (a + b)[1..] == a[1..] + b;
      RunAppend(n, Step(n, s, a[0]), a[1..], b);
    }
  }

  /** Some run leads from s to t. */
  ghost predicate Reaches(n: nat, s: State, t: State) {
    exists run :: CanRun(n, s, run) && Run(n, s, run) == t
  }

  lemma ReachesItself(n: nat, s: State)
    ensures Reaches(n, s, s)
  {
    assert CanRun(n, s, []) && Run(n, s, []) == s;
  }

  lemma ReachesOn(n: nat, s: State, t: State, u: State)
    requires Reaches(n, s, t) && Reaches(n, t, u)
    ensures Reaches(n, s, u)
  {
    var a :| CanRun(n, s, a) && Run(n, s, a) == t;
    var b :| CanRun(n, t, b) && Run(n, t, b) == u;
    RunAppend(n, s, a, b);
  }

  lemma ReachesStep(n: nat, s: State, a: Action)
    requires Enabled(n, s, a)
    ensures Reaches(n, s, Step(n, s, a))
  {
    var run := [a];
    assert run[1..] == [];
    assert CanRun(n, Step(n, s, a), []);
    assert Run(n, Step(n, s, a), []) == Step(n, s, a);
    assert CanRun(n, s, run);
    assert Run(n, s, run) == Run(n, Step(n, s, a), run[1..]);
  }

  lemma ReachesOnStep(n: nat, s: State, t: State, a: Action, u: State)
    requires Reaches(n, s, t) && Enabled(n, t, a) && Step(n, t, a) == u
    ensures Reaches(n, s, u)
  {
    ReachesStep(n, t, a);
    ReachesOn(n, s, t, u);
  }

  /** Both threads at the head of their loops. */
  function Quiet(i: int, vec: seq<int>, consumed: seq<int>): State {
    State(vec, false, 0, ProducerHead, i, ConsumerHead, INVALID_ELEMENT, consumed)
  }

  lemma PushRun(n: nat, i: nat, vec: seq<int>, consumed: seq<int>)
    requires i < n
    ensures Reaches(n, Quiet(i, vec, consumed), Quiet(i + 1, vec + [i], consumed))
  {
    var s := Quiet(i, vec, consumed);
    var s1 := Step(n, s, WriteLock);
    var s2 := Step(n, s1, Push);
    var s3 := Step(n, s2, WriteUnlock);
    ReachesStep(n, s, WriteLock);
    ReachesOnStep(n, s, s1, Push, s2);
    ReachesOnStep(n, s, s2, WriteUnlock, s3);
    ReachesOnStep(n, s, s3, NextValue, Quiet(i + 1, vec + [i], consumed));
  }

  lemma PopRun(n: nat, i: int, vec: seq<int>, v: nat, consumed: seq<int>)
    requires |consumed| < n
    ensures Reaches(n, Quiet(i, vec + [v], consumed), Quiet(i, vec, consumed + [v]))
  {
    var s := Quiet(i, vec + [v], consumed);
    var s1 := Step(n, s, ReadLock);
    var s2 := Step(n, s1, Look);
    var s3 := Step(n, s2, PopBack);
    var s4 := Step(n, s3, ReadUnlock);
    assert (vec + [v])[..|vec + [v]| - 1] == vec;
    ReachesStep(n, s, ReadLock);
    ReachesOnStep(n, s, s1, Look, s2);
    ReachesOnStep(n, s, s2, PopBack, s3);
    ReachesOnStep(n, s, s3, ReadUnlock, s4);
    ReachesOnStep(n, s, s4, Count, Quiet(i, vec, consumed + [v]));
  }

  lemma Cancel(a: multiset<int>, b: multiset<int>, c: multiset<int>)
    requires a + c == b + c
    ensures a == b
  {
    forall v
      ensures a[v] == b[v]
    {
      assert (a + c)[v] == (b + c)[v];
    }
  }

  /** Pushing i .. x on vec leaves whole. */
  ghost predicate Grown(whole: seq<int>, vec: seq<int>, i: int, x: int) {
    multiset(whole) + Upto(i) == multiset(vec) + Upto(x + 1)
  }

  lemma GrownOnce(vec: seq<int>, i: nat)
    ensures Grown(vec + [i], vec, i, i)
  {
    assert Upto(i + 1) == Upto(i) + multiset{i};
    assert multiset(vec + [i]) == multiset(vec) + multiset{i};
  }

  lemma GrownOn(whole: seq<int>, vec: seq<int>, i: nat, x: nat)
    requires Grown(whole, vec + [i], i + 1, x)
    ensures Grown(whole, vec, i, x)
  {
    assert Upto(i + 1) == Upto(i) + multiset{i};
    assert multiset(vec + [i]) == multiset(vec) + multiset{i};
    assert (multiset(whole) + Upto(i)) + multiset{i} == multiset(whole) + Upto(i + 1);
    assert (multiset(vec) + Upto(x + 1)) + multiset{i} == multiset(vec + [i]) + Upto(x + 1);
    Cancel(multiset(whole) + Upto(i), multiset(vec) + Upto(x + 1), multiset{i});
  }

  lemma PushIncreasing(vec: seq<int>, i: int)
    requires Increasing(vec) && forall k :: 0 <= k < |vec| ==> vec[k] < i
    ensures Increasing(vec + [i]) && forall k :: 0 <= k < |vec + [i]| ==> (vec + [i])[k] < i + 1
  {
  }

  /** Push until x is on top. */
  lemma {:induction false} PushUpTo(n: nat, i: nat, vec: seq<int>, consumed: seq<int>, x: nat) returns (below: seq<int>)
    requires i <= x < n && Increasing(vec) && (forall k :: 0 <= k < |vec| ==> vec[k] < i)
    ensures Reaches(n, Quiet(i, vec, consumed), Quiet(x + 1, below + [x], consumed))
    ensures Increasing(below + [x])
    ensures Grown(below + [x], vec, i, x)
    decreases x - i
  {
    PushRun(n, i, vec, consumed);
    PushIncreasing(vec, i);
    if i == x {
      below := vec;
      GrownOnce(vec, i);
    } else {
      below := PushUpTo(n, i + 1, vec + [i], consumed, x);
      ReachesOn(n, Quiet(i, vec, consumed), Quiet(i + 1, vec + [i], consumed), Quiet(x + 1, below + [x], consumed));
      GrownOn(below + [x], vec, i, x);
    }
  }

  /** The values below i are on the stack or taken, once each. */
  ghost predicate Counted(vec: seq<int>, taken: seq<int>, i: int) {
    multiset(vec) + multiset(taken) == Upto(i)
  }

  /** Values below i are on the stack or among the first k taken, and i - 1 is among them. */
  ghost predicate Progress(c: seq<int>, k: nat, i: nat, vec: seq<int>) {
    && k <= |c| && i <= |c|
    && Increasing(vec)
    && Counted(vec, c[..k], i)
    && (i > 0 ==> exists j :: 0 <= j < k && c[j] == i - 1)
  }

  lemma SplitCount(c: seq<int>, k: nat)
    requires k <= |c|
    ensures multiset(c) == multiset(c[..k]) + multiset(c[k..])
  {
    assert c == c[..k] + c[k..];
  }

  /** A value not among the first k comes later. */
  lemma ComesLater(c: seq<int>, k: nat, v: int) returns (r: nat)
    requires k <= |c| && Permutation(c) && 0 <= v < |c| && v !in c[..k]
    ensures k <= r < |c| && c[r] == v
  {
    SplitCount(c, k);
    assert multiset(c)[v] == 1 && multiset(c[..k])[v] == 0;
    assert v in multiset(c[k..]);
    assert v in c[k..];
    var q :| 0 <= q < |c[k..]| && c[k..][q] == v;
    r := k + q;
  }

  /** The value taken next has not been taken before. */
  lemma NotTakenBefore(c: seq<int>, k: nat)
    requires k < |c| && Permutation(c)
    ensures 0 <= c[k] < |c| && c[k] !in c[..k]
  {
    SplitCount(c, k);
    assert c[k..][0] == c[k];
    assert c[k] in multiset(c[k..]);
    assert multiset(c)[c[k]] == multiset(c[..k])[c[k]] + multiset(c[k..])[c[k]];
    assert Upto(|c|)[c[k]] > 0;
    assert c[k] in c[..k] <==> c[k] in multiset(c[..k]);
  }

  lemma OnStack(c: seq<int>, k: nat, i: nat, vec: seq<int>, v: int)
    requires Progress(c, k, i, vec)
    ensures v in vec ==> 0 <= v < i && v !in c[..k]
    ensures 0 <= v < i && v !in c[..k] ==> v in vec
  {
    assert (multiset(vec) + multiset(c[..k]))[v] == multiset(vec)[v] + multiset(c[..k])[v];
    assert v in vec ==> v in multiset(vec);
    assert v in c[..k] ==> v in multiset(c[..k]);
    assert v !in c[..k] ==> v !in multiset(c[..k]);
  }

  lemma TopAbove(vec: seq<int>, x: int)
    requires Increasing(vec) && x in vec
    ensures vec != [] && (vec[|vec| - 1] == x || vec[|vec| - 1] > x)
  {
    var q :| 0 <= q < |vec| && vec[q] == x;
  }

  ghost predicate Permutation(c: seq<int>) {
    multiset(c) == Upto(|c|)
  }

  /** A value between the one taken next and one taken before has been taken already. */
  lemma NothingBetween(c: seq<int>, j: nat, k: nat, v: int)
    requires Permutation(c) && StackOrder(c) && j < k < |c|
    requires 0 <= c[k] < v < c[j] < |c|
    ensures v in c[..k]
  {
    if v !in c[..k] {
      var r := ComesLater(c, k, v);
    }
  }

  lemma LastPushed(c: seq<int>, k: nat, i: nat, vec: seq<int>) returns (j: nat)
    requires Progress(c, k, i, vec) && i > 0
    ensures j < k && c[j] == i - 1 && c[j] in c[..k]
  {
    j :| 0 <= j < k && c[j] == i - 1;
    assert c[..k][j] == c[j];
  }

  lemma TopFacts(c: seq<int>, k: nat, i: nat, vec: seq<int>)
    requires Permutation(c) && Progress(c, k, i, vec) && k < |c| && c[k] < i
    ensures vec != [] && 0 <= c[k] <= vec[|vec| - 1] < i && vec[|vec| - 1] !in c[..k]
  {
    NotTakenBefore(c, k);
    OnStack(c, k, i, vec, c[k]);
    TopAbove(vec, c[k]);
    OnStack(c, k, i, vec, vec[|vec| - 1]);
  }

  /** In a stack order, the value taken next is on top whenever it has been pushed. */
  lemma TopIsNext(c: seq<int>, k: nat, i: nat, vec: seq<int>)
    requires Permutation(c) && StackOrder(c) && Progress(c, k, i, vec) && k < |c| && c[k] < i
    ensures vec != [] && vec[|vec| - 1] == c[k]
  {
    TopFacts(c, k, i, vec);
    var j := LastPushed(c, k, i, vec);
    if vec[|vec| - 1] > c[k] {
      NothingBetween(c, j, k, vec[|vec| - 1]);
    }
  }

  lemma ProgressAfterPop(c: seq<int>, k: nat, i: nat, below: seq<int>)
    requires k < |c| && i <= |c| && Increasing(below + [c[k]])
    requires Counted(below + [c[k]], c[..k], i)
    requires i > 0 && exists j :: 0 <= j <= k && c[j] == i - 1
    ensures Progress(c, k + 1, i, below)
  {
    assert c[..k + 1] == c[..k] + [c[k]];
    assert multiset(below + [c[k]]) == multiset(below) + multiset{c[k]};
    forall a, b | 0 <= a < b < |below|
      ensures below[a] < below[b]
    {
      assert (below + [c[k]])[a] < (below + [c[k]])[b];
    }
  }

  lemma BelowNext(c: seq<int>, k: nat, i: nat, vec: seq<int>)
    requires Progress(c, k, i, vec)
    ensures forall q :: 0 <= q < |vec| ==> vec[q] < i
  {
    forall q | 0 <= q < |vec|
      ensures vec[q] < i
    {
      OnStack(c, k, i, vec, vec[q]);
    }
  }

  lemma BringNew(n: nat, taken: seq<int>, i: nat, vec: seq<int>, x: nat) returns (below: seq<int>)
    requires i <= x < n && Increasing(vec) && Counted(vec, taken, i)
    requires forall q :: 0 <= q < |vec| ==> vec[q] < i
    ensures Reaches(n, Quiet(i, vec, taken), Quiet(x + 1, below + [x], taken))
    ensures Increasing(below + [x]) && Counted(below + [x], taken, x + 1)
  {
    below := PushUpTo(n, i, vec, taken, x);
    BroughtCount(below + [x], vec, taken, i, x);
  }

  lemma BringPushed(c: seq<int>, k: nat, i: nat, vec: seq<int>) returns (below: seq<int>)
    requires Permutation(c) && StackOrder(c) && Progress(c, k, i, vec) && k < |c| && c[k] < i
    ensures vec == below + [c[k]] && Progress(c, k + 1, i, below)
  {
    TopIsNext(c, k, i, vec);
    NotTakenBefore(c, k);
    below := vec[..|vec| - 1];
    assert below + [c[k]] == vec;
    ProgressAfterPop(c, k, i, below);
  }

  lemma BringUnpushed(c: seq<int>, k: nat, i: nat, vec: seq<int>) returns (below: seq<int>)
    requires Permutation(c) && Progress(c, k, i, vec) && k < |c| && i <= c[k] < |c|
    ensures Reaches(|c|, Quiet(i, vec, c[..k]), Quiet(c[k] + 1, below + [c[k]], c[..k]))
    ensures Progress(c, k + 1, c[k] + 1, below)
  {
    BelowNext(c, k, i, vec);
    below := BringNew(|c|, c[..k], i, vec, c[k]);
    ProgressAfterPop(c, k, c[k] + 1, below);
  }

  lemma BroughtCount(whole: seq<int>, vec: seq<int>, taken: seq<int>, i: nat, x: nat)
    requires Grown(whole, vec, i, x) && Counted(vec, taken, i)
    ensures Counted(whole, taken, x + 1)
  {
    forall v
      ensures (multiset(whole) + multiset(taken))[v] == Upto(x + 1)[v]
    {
      assert (multiset(whole) + Upto(i))[v] == (multiset(vec) + Upto(x + 1))[v];
      assert (multiset(vec) + multiset(taken))[v] == Upto(i)[v];
    }
  }

  lemma AllTaken(c: seq<int>, i: nat, vec: seq<int>)
    requires Permutation(c) && Progress(c, |c|, i, vec)
    ensures vec == [] && i == |c|
  {
    assert c[..|c|] == c;
    UptoSize(i);
    UptoSize(|c|);
    assert |multiset(vec) + multiset(c)| == i;
  }

  lemma SliceStep(c: seq<int>, k: nat)
    requires k < |c|
    ensures c[..k] + [c[k]] == c[..k + 1]
  {
  }

  lemma TakeNext(c: seq<int>, k: nat, s: State, j: int, below: seq<int>)
    requires k < |c| && c[k] >= 0 && Reaches(|c|, s, Quiet(j, below + [c[k]], c[..k]))
    ensures Reaches(|c|, s, Quiet(j, below, c[..k + 1]))
  {
    PopRun(|c|, j, below, c[k], c[..k]);
    SliceStep(c, k);
    ReachesOn(|c|, s, Quiet(j, below + [c[k]], c[..k]), Quiet(j, below, c[..k + 1]));
  }

  /** The values from position k on can be taken: each is on top, or it is pushed. */
  lemma {:induction false} Realize(c: seq<int>, k: nat, i: nat, vec: seq<int>)
    requires Permutation(c) && StackOrder(c) && Progress(c, k, i, vec)
    ensures Reaches(|c|, Quiet(i, vec, c[..k]), Quiet(|c|, [], c))
    decreases |c| - k, 2
  {
    if k == |c| {
      AllTaken(c, i, vec);
      assert c[..k] == c;
      ReachesItself(|c|, Quiet(i, vec, c[..k]));
    } else {
      NotTakenBefore(c, k);
      if c[k] < i {
        RealizePushed(c, k, i, vec);
      } else {
        RealizeUnpushed(c, k, i, vec);
      }
    }
  }

  lemma {:induction false} RealizePushed(c: seq<int>, k: nat, i: nat, vec: seq<int>)
    requires Permutation(c) && StackOrder(c) && Progress(c, k, i, vec) && k < |c| && 0 <= c[k] < i
    ensures Reaches(|c|, Quiet(i, vec, c[..k]), Quiet(|c|, [], c))
    decreases |c| - k, 1
  {
    var below := BringPushed(c, k, i, vec);
    ReachesItself(|c|, Quiet(i, vec, c[..k]));
    RealizeFrom(c, k, Quiet(i, vec, c[..k]), i, below);
  }

  lemma {:induction false} RealizeUnpushed(c: seq<int>, k: nat, i: nat, vec: seq<int>)
    requires Permutation(c) && StackOrder(c) && Progress(c, k, i, vec) && k < |c| && i <= c[k] < |c|
    ensures Reaches(|c|, Quiet(i, vec, c[..k]), Quiet(|c|, [], c))
    decreases |c| - k, 1
  {
    var below := BringUnpushed(c, k, i, vec);
    RealizeFrom(c, k, Quiet(i, vec, c[..k]), c[k] + 1, below);
  }

  lemma {:induction false} RealizeFrom(c: seq<int>, k: nat, s: State, j: nat, below: seq<int>)
    requires Permutation(c) && StackOrder(c) && k < |c| && c[k] >= 0 && Progress(c, k + 1, j, below)
    requires Reaches(|c|, s, Quiet(j, below + [c[k]], c[..k]))
    ensures Reaches(|c|, s, Quiet(|c|, [], c))
    decreases |c| - k, 0
  {
    TakeNext(c, k, s, j, below);
    Realize(c, k + 1, j, below);
    ReachesOn(|c|, s, Quiet(j, below, c[..k + 1]), Quiet(|c|, [], c));
  }

  lemma ReturnRun(n: nat, c: seq<int>)
    requires |c| == n
    ensures Reaches(n, Quiet(n, [], c), Quiet(n, [], c).(producer := ProducerDone, consumer := ConsumerDone))
  {
    var s := Quiet(n, [], c);
    var t := Step(n, s, ProducerReturns);
    ReachesStep(n, s, ProducerReturns);
    ReachesOnStep(n, s, t, ConsumerReturns, s.(producer := ProducerDone, consumer := ConsumerDone));
  }

  ghost predicate CanBeConsumed(c: seq<int>) {
    exists run :: CanRun(|c|, START, run) && Final(Run(|c|, START, run)) && Run(|c|, START, run).consumed == c
  }

  lemma StackOrderCanBeConsumed(c: seq<int>)
    requires Permutation(c) && StackOrder(c)
    ensures CanBeConsumed(c)
  {
    assert c[..0] == [];
    Realize(c, 0, 0, []);
    ReturnRun(|c|, c);
    var end := Quiet(|c|, [], c).(producer := ProducerDone, consumer := ConsumerDone);
    ReachesOn(|c|, START, Quiet(|c|, [], c), end);
    var run :| CanRun(|c|, START, run) && Run(|c|, START, run) == end;
  }

  lemma ConsumedIsStackOrder(n: nat, run: seq<Action>)
    requires CanRun(n, START, run) && Final(Run(n, START, run))
    ensures StackOrder(Run(n, START, run).consumed)
  {
    StartInv(n);
    RunKeepsInv(n, START, run);
    assert Taken(Run(n, START, run)) == Run(n, START, run).consumed;
  }

  /** The orders in which complete runs consume the values are exactly the stack orders of
      0 .. n-1. */
  lemma ConsumedOrders(c: seq<int>)
    ensures CanBeConsumed(c) <==> Permutation(c) && StackOrder(c)
  {
    if Permutation(c) && StackOrder(c) {
      StackOrderCanBeConsumed(c);
    }
    if CanBeConsumed(c) {
      var run :| CanRun(|c|, START, run) && Final(Run(|c|, START, run)) && Run(|c|, START, run).consumed == c;
      FinalStates(|c|, run);
      ConsumedIsStackOrder(|c|, run);
    }
  }

  /** The same order law holds for what has been taken at any moment of any run. */
  lemma TakenIsStackOrder(n: nat, run: seq<Action>)
    requires CanRun(n, START, run)
    ensures StackOrder(Taken(Run(n, START, run)))
  {
    StartInv(n);
    RunKeepsInv(n, START, run);
  }

  // ---------------------------------------------------------------------------------------------
  // Every run can be completed
  // ---------------------------------------------------------------------------------------------

  ghost function ProducerWork(n: nat, s: State): int {
    match s.producer
    case ProducerHead => 5 * (n - s.i) + 1
    case Locked => 5 * (n - s.i)
    case Pushed => 5 * (n - s.i) - 1
    case LoopEnd => 5 * (n - s.i - 1) + 2
    case ProducerDone => 0
  }

  ghost function ConsumerWork(n: nat, s: State): int {
    var left := 6 * (n - |s.consumed|);
    match s.consumer
    case ConsumerHead => left + 1
    case Reading => if s.vec == [] then left + 4 else left
    case Copied => left - 1
    case Unlocking => if s.element == INVALID_ELEMENT then left + 3 else left - 2
    case Counting => if s.element == INVALID_ELEMENT then left + 2 else left - 3
    case ConsumerDone => 0
  }

  ghost function Work(n: nat, s: State): int {
    ProducerWork(n, s) + ConsumerWork(n, s)
  }

  /** A step that brings the end closer: the thread that holds the lock goes on; otherwise the
      producer does, until it is done. */
  ghost function Useful(s: State, n: nat): Action {
    match s.consumer
    case Reading => Look
    case Copied => PopBack
    case Unlocking => ReadUnlock
    case Counting => Count
    case _ =>
      match s.producer
      case ProducerHead => if s.i < n then WriteLock else ProducerReturns
      case Locked => Push
      case Pushed => WriteUnlock
      case LoopEnd => NextValue
      case ProducerDone => if |s.consumed| < n then ReadLock else ConsumerReturns
  }

  /** When the producer is done and the consumer is not, something is left to read. */
  lemma SomethingLeft(n: nat, s: State)
    requires Inv(n, s) && s.producer == ProducerDone && s.consumer == ConsumerHead && |s.consumed| < n
    ensures s.vec != []
  {
    UptoSize(n);
    assert Taken(s) == s.consumed;
    assert |multiset(s.vec) + multiset(s.consumed)| == n;
  }

  /** The step brings the end closer. */
  ghost predicate Progresses(n: nat, s: State, a: Action) {
    Enabled(n, s, a) && 0 <= Work(n, Step(n, s, a)) < Work(n, s)
  }

  lemma LookProgresses(n: nat, s: State)
    requires Control(n, s) && s.consumer == Reading
    requires s.vec != [] ==> s.vec[|s.vec| - 1] != INVALID_ELEMENT
    ensures Progresses(n, s, Look)
  {
  }

  lemma PopProgresses(n: nat, s: State)
    requires Control(n, s) && s.consumer == Copied && s.vec[|s.vec| - 1] != INVALID_ELEMENT
    ensures Progresses(n, s, PopBack)
  {
  }

  lemma UnlockProgresses(n: nat, s: State)
    requires Control(n, s) && s.consumer == Unlocking
    ensures Progresses(n, s, ReadUnlock)
  {
  }

  lemma CountProgresses(n: nat, s: State)
    requires Control(n, s) && s.consumer == Counting
    ensures Progresses(n, s, Count)
  {
  }

  lemma ConsumerUseful(n: nat, s: State)
    requires Inv(n, s) && s.consumer != ConsumerHead && s.consumer != ConsumerDone
    ensures Progresses(n, s, Useful(s, n))
  {
    Members(s);
    match s.consumer
    case Reading => LookProgresses(n, s);
    case Copied => PopProgresses(n, s);
    case Unlocking => UnlockProgresses(n, s);
    case Counting => CountProgresses(n, s);
  }

  lemma UsefulStep(n: nat, s: State)
    requires Inv(n, s) && !Final(s)
    ensures Progresses(n, s, Useful(s, n))
  {
    if s.consumer != ConsumerHead && s.consumer != ConsumerDone {
      ConsumerUseful(n, s);
    } else if s.producer == ProducerDone && |s.consumed| < n {
      SomethingLeft(n, s);
    }
  }

  /** No reachable state is stuck: both threads can still return. */
  lemma {:induction false} CanFinish(n: nat, s: State) returns (run: seq<Action>)
    requires Inv(n, s)
    ensures CanRun(n, s, run) && Final(Run(n, s, run))
    decreases Work(n, s)
  {
    if Final(s) {
      run := [];
    } else {
      var a := Useful(s, n);
      UsefulStep(n, s);
      StepKeepsInv(n, s, a);
      var rest := CanFinish(n, Step(n, s, a));
      run := [a] + rest;
      assert run[1..] == rest;
    }
  }

  lemma EveryRunCanFinish(n: nat, run: seq<Action>) returns (more: seq<Action>)
    requires CanRun(n, START, run)
    ensures CanRun(n, START, run + more) && Final(Run(n, START, run + more))
  {
    StartInv(n);
    RunKeepsInv(n, START, run);
    more := CanFinish(n, Run(n, START, run));
    RunAppend(n, START, run, more);
  }

  // ---------------------------------------------------------------------------------------------
  // Rounds of the two loops
  // ---------------------------------------------------------------------------------------------

  /** The run is possible from s and leads to t. */
  ghost predicate Leads(n: nat, s: State, run: seq<Action>, t: State) {
    CanRun(n, s, run) && Run(n, s, run) == t
  }

  lemma LeadsStep(n: nat, s: State, a: Action, rest: seq<Action>, t: State)
    requires Enabled(n, s, a) && Leads(n, Step(n, s, a), rest, t)
    ensures Leads(n, s, [a] + rest, t)
  {
    assert ([a] + rest)[1..] == rest;
  }

  /** A producer at the head of its loop with a value left to push. */
  ghost predicate WantsToPush(n: nat, s: State) {
    s.producer == ProducerHead && s.i < n
  }

  /** A consumer at the head of its loop with a value left to read. */
  ghost predicate WantsToRead(n: nat, s: State) {
    s.consumer == ConsumerHead && |s.consumed| < n
  }

  /** A lock call can succeed exactly when the other thread is not inside, and can fail at any time. */
  lemma LocksExclude(n: nat, s: State)
    requires Inv(n, s)
    ensures Enabled(n, s, WriteLock) <==> WantsToPush(n, s) && !Inside(s)
    ensures Enabled(n, s, ReadLock) <==> WantsToRead(n, s) && !Writing(s)
    ensures Enabled(n, s, WriteLockFails) <==> WantsToPush(n, s)
    ensures Enabled(n, s, ReadLockFails) <==> WantsToRead(n, s)
  {
  }

  /** Everything else waits for nothing: in every state of the invariant each thread can take its
      next step, whatever the other one does. */
  lemma OnlyLocksWait(n: nat, s: State)
    requires Inv(n, s)
    ensures Enabled(n, s, Push) <==> s.producer == Locked
    ensures Enabled(n, s, WriteUnlock) <==> s.producer == Pushed
    ensures Enabled(n, s, NextValue) <==> s.producer == LoopEnd
    ensures Enabled(n, s, ProducerReturns) <==> s.producer == ProducerHead && s.i == n
    ensures Enabled(n, s, Look) <==> s.consumer == Reading
    ensures Enabled(n, s, PopBack) <==> s.consumer == Copied
    ensures Enabled(n, s, ReadUnlock) <==> s.consumer == Unlocking
    ensures Enabled(n, s, Count) <==> s.consumer == Counting
    ensures Enabled(n, s, ConsumerReturns) <==> s.consumer == ConsumerHead && |s.consumed| == n
  {
  }

  /** A failed write lock costs one round and changes nothing: the same value is tried again. */
  lemma FailedWriteRound(n: nat, s: State)
    requires WantsToPush(n, s)
    ensures Leads(n, s, [WriteLockFails, NextValue], s)
  {
    var s1 := Step(n, s, WriteLockFails);
    assert Leads(n, s, [], s);
    LeadsStep(n, s1, NextValue, [], s);
    LeadsStep(n, s, WriteLockFails, [NextValue], s);
  }

  lemma FailedReadRound(n: nat, s: State)
    requires WantsToRead(n, s)
    ensures Leads(n, s, [ReadLockFails], s)
  {
    assert Leads(n, s, [], s);
    LeadsStep(n, s, ReadLockFails, [], s);
  }

  /** Reading from the empty vector takes the lock, counts nothing and changes nothing. */
  lemma EmptyRound(n: nat, s: State)
    requires Inv(n, s) && WantsToRead(n, s) && !Writing(s) && s.vec == []
    ensures Leads(n, s, [ReadLock, Look, ReadUnlock, Count], s)
  {
    var s1 := Step(n, s, ReadLock);
    var s2 := Step(n, s1, Look);
    var s3 := Step(n, s2, ReadUnlock);
    assert Leads(n, s, [], s);
    LeadsStep(n, s3, Count, [], s);
    LeadsStep(n, s2, ReadUnlock, [Count], s);
    LeadsStep(n, s1, Look, [ReadUnlock, Count], s);
    LeadsStep(n, s, ReadLock, [Look, ReadUnlock, Count], s);
  }

  /** A full round of the producer appends its value and goes on to the next one. */
  lemma PushRound(n: nat, s: State)
    requires Inv(n, s) && WantsToPush(n, s) && !Inside(s)
    ensures Leads(n, s, [WriteLock, Push, WriteUnlock, NextValue], s.(vec := s.vec + [s.i], i := s.i + 1))
  {
    var s1 := Step(n, s, WriteLock);
    var s2 := Step(n, s1, Push);
    var s3 := Step(n, s2, WriteUnlock);
    var t := s.(vec := s.vec + [s.i], i := s.i + 1);
    assert Leads(n, t, [], t);
    LeadsStep(n, s3, NextValue, [], t);
    LeadsStep(n, s2, WriteUnlock, [NextValue], t);
    LeadsStep(n, s1, Push, [WriteUnlock, NextValue], t);
    LeadsStep(n, s, WriteLock, [Push, WriteUnlock, NextValue], t);
  }

  /** A full round of the consumer moves the last element of the vector to those consumed. */
  lemma PopRound(n: nat, s: State)
    requires Inv(n, s) && WantsToRead(n, s) && !Writing(s) && s.vec != []
    ensures var v := s.vec[|s.vec| - 1];
      Leads(n, s, [ReadLock, Look, PopBack, ReadUnlock, Count],
            s.(vec := s.vec[..|s.vec| - 1], consumed := s.consumed + [v]))
  {
    Members(s);
    var s2 := Step(n, Step(n, s, ReadLock), Look);
    var t := s.(vec := s.vec[..|s.vec| - 1], consumed := s.consumed + [s.vec[|s.vec| - 1]]);
    PopAndCount(n, s2, t);
    LeadsStep(n, Step(n, s, ReadLock), Look, [PopBack, ReadUnlock, Count], t);
    LeadsStep(n, s, ReadLock, [Look, PopBack, ReadUnlock, Count], t);
  }

  /** The second half of the round, when the last element has been copied. */
  lemma PopAndCount(n: nat, s: State, t: State)
    requires s.consumer == Copied && s.vec != [] && s.readers > 0 && s.element != INVALID_ELEMENT
    requires t == s.(vec := s.vec[..|s.vec| - 1], consumed := s.consumed + [s.element],
                     readers := s.readers - 1, element := INVALID_ELEMENT, consumer := ConsumerHead)
    ensures Leads(n, s, [PopBack, ReadUnlock, Count], t)
  {
    var s3 := Step(n, s, PopBack);
    var s4 := Step(n, s3, ReadUnlock);
    assert Leads(n, t, [], t);
    LeadsStep(n, s4, Count, [], t);
    LeadsStep(n, s3, ReadUnlock, [Count], t);
    LeadsStep(n, s, PopBack, [ReadUnlock, Count], t);
  }
}
