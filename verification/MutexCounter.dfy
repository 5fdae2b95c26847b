/** Threads that each increment a shared counter once, inside a mutex. The increment is a load and
    a store, which other threads could interrupt; a lock call may fail, and then the thread
    returns the bad status. */
module MutexCounter {
  import opened Common

  datatype At = Start | Holding | Loaded(value: int) | Stored | Returned(ok: bool)

  /** used lists the values of counter++ in the order of the stores. */
  datatype State = State(threads: seq<At>, owner: Option<nat>, counter: int, used: seq<int>)

  datatype Kind = Lock | LockFails | Load | Store | Unlock

  datatype Action = Action(thread: nat, kind: Kind)

  predicate Enabled(s: State, a: Action) {
    a.thread < |s.threads| &&
    match a.kind
    case Lock => s.threads[a.thread] == Start && s.owner == None
    case LockFails => s.threads[a.thread] == Start
    case Load => s.threads[a.thread] == Holding
    case Store => s.threads[a.thread].Loaded?
    case Unlock => s.threads[a.thread] == Stored
  }

  function Step(s: State, a: Action): State
    requires Enabled(s, a)
  {
    var t := a.thread;
    match a.kind
    case Lock => s.(threads := s.threads[t := Holding], owner := Some(t))
    case LockFails => s.(threads := s.threads[t := Returned(false)])
    case Load => s.(threads := s.threads[t := Loaded(s.counter)])
    case Store =>
      var v := s.threads[t].value;
      s.(threads := s.threads[t := Stored], counter := v + 1, used := s.used + [v])
    case Unlock => s.(threads := s.threads[t := Returned(true)], owner := None)
  }

  function Initial(n: nat): State {
    State(seq(n, t => Start), None, 0, [])
  }

  predicate CanRun(s: State, run: seq<Action>)
    decreases |run|
  {
    run == [] || (Enabled(s, run[0]) && CanRun(Step(s, run[0]), run[1..]))
  }

  function Run(s: State, run: seq<Action>): State
    requires CanRun(s, run)
    decreases |run|
  {
    if run == [] then s else Run(Step(s, run[0]), run[1..])
  }

  predicate Final(s: State) {
    forall t :: 0 <= t < |s.threads| ==> s.threads[t].Returned?
  }

  // ---------------------------------------------------------------------------------------------
  // The invariant
  // ---------------------------------------------------------------------------------------------

  predicate Inside(p: At) {
    p.Holding? || p.Loaded? || p.Stored?
  }

  predicate HasStored(p: At) {
    p.Stored? || p == Returned(true)
  }

  function CountStored(threads: seq<At>): nat {
    if threads == [] then 0 else CountStored(threads[1..]) + if HasStored(threads[0]) then 1 else 0
  }

  lemma {:induction false} CountUpdate(threads: seq<At>, t: nat, p: At)
    requires t < |threads|
    ensures CountStored(threads[t := p]) ==
            CountStored(threads) + (if HasStored(p) then 1 else 0) - (if HasStored(threads[t]) then 1 else 0)
  {
    if t == 0 {
      assert threads[0 := p][1..] == threads[1..];
    } else {
      CountUpdate(threads[1..], t - 1, p);
      assert threads[t := p][1..] == threads[1..][t - 1 := p];
    }
  }

  /** 0, 1, ..., n-1 in this order. */
  function Ascending(n: nat): (s: seq<int>)
    ensures |s| == n && forall i :: 0 <= i < n ==> s[i] == i
  {
    seq(n, i => i)
  }

  ghost predicate Inv(s: State) {
    && (forall t :: 0 <= t < |s.threads| && Inside(s.threads[t]) ==> s.owner == Some(t))
    && (s.owner.Some? ==> s.owner.value < |s.threads| && Inside(s.threads[s.owner.value]))
    && (forall t :: 0 <= t < |s.threads| && s.threads[t].Loaded? ==> s.threads[t].value == s.counter)
    && s.counter == CountStored(s.threads)
    && s.used == Ascending(CountStored(s.threads))
  }

  lemma {:induction false} NothingStored(n: nat, threads: seq<At>)
    requires |threads| == n && forall t :: 0 <= t < n ==> threads[t] == Start
    ensures CountStored(threads) == 0
  {
    if n > 0 {
      NothingStored(n - 1, threads[1..]);
    }
  }

  lemma StepKeepsInv(s: State, a: Action)
    requires Inv(s) && Enabled(s, a)
    ensures Inv(Step(s, a))
  {
    var s' := Step(s, a);
    CountUpdate(s.threads, a.thread, s'.threads[a.thread]);
    assert s'.threads == s.threads[a.thread := s'.threads[a.thread]];
    assert Ascending(s.counter + 1) == Ascending(s.counter) + [s.counter];
  }

  lemma {:induction false} RunKeepsInv(s: State, run: seq<Action>)
    requires Inv(s) && CanRun(s, run)
    ensures Inv(Run(s, run)) && |Run(s, run).threads| == |s.threads|
    decreases |run|
  {
    if run != [] {
      StepKeepsInv(s, run[0]);
      RunKeepsInv(Step(s, run[0]), run[1..]);
    }
  }

  lemma InitialInv(n: nat)
    ensures Inv(Initial(n))
  {
    NothingStored(n, Initial(n).threads);
  }

  /** At every moment of every run at most one thread is inside, and the values used so far are
      0, 1, ..., counter - 1 in this order. */
  lemma UsedValues(n: nat, run: seq<Action>)
    requires CanRun(Initial(n), run)
    ensures var s := Run(Initial(n), run);
      && s.counter >= 0 && s.used == Ascending(s.counter)
      && |s.threads| == n
      && forall t, u :: 0 <= t < n && 0 <= u < n && Inside(s.threads[t]) && Inside(s.threads[u]) ==> t == u
  {
    InitialInv(n);
    RunKeepsInv(Initial(n), run);
  }

  // ---------------------------------------------------------------------------------------------
  // The runs are the interleavings of the thread functions
  // ---------------------------------------------------------------------------------------------

  /** The two ways through the thread function. */
  const GOOD_WAY := [Lock, Load, Store, Unlock]
  const BAD_WAY := [LockFails]

  /** What thread t did in the run. */
  ghost function Did(run: seq<Action>, t: nat): seq<Kind>
    decreases |run|
  {
    if run == [] then []
    else
      var last := run[|run| - 1];
      Did(run[..|run| - 1], t) + if last.thread == t then [last.kind] else []
  }

  /** After done, k is next on one of the two ways. */
  ghost predicate IsNext(done: seq<Kind>, k: Kind) {
    done + [k] <= GOOD_WAY || done + [k] <= BAD_WAY
  }

  /** Thread t has locked and not yet unlocked. */
  ghost predicate InCritical(run: seq<Action>, t: nat) {
    [Lock] <= Did(run, t) < GOOD_WAY
  }

  /** Each of the n threads goes one of the two ways, and no thread locks while another is between
      its lock and its unlock. */
  ghost predicate Interleaving(n: nat, run: seq<Action>)
    decreases |run|
  {
    run == [] ||
    var front, a := run[..|run| - 1], run[|run| - 1];
    && Interleaving(n, front)
    && a.thread < n
    && IsNext(Did(front, a.thread), a.kind)
    && (a.kind == Lock ==> forall t :: 0 <= t < n ==> !InCritical(front, t))
  }

  /** Where a thread is after what it did. */
  ghost predicate Reached(done: seq<Kind>, p: At) {
    match p
    case Start => done == []
    case Holding => done == [Lock]
    case Loaded(_) => done == [Lock, Load]
    case Stored => done == [Lock, Load, Store]
    case Returned(ok) => done == if ok then GOOD_WAY else BAD_WAY
  }

  lemma {:induction false} LastStep(s: State, run: seq<Action>)
    requires run != []
    ensures var front, a := run[..|run| - 1], run[|run| - 1];
      && (CanRun(s, run) <==> CanRun(s, front) && Enabled(Run(s, front), a))
      && (CanRun(s, run) ==> Run(s, run) == Step(Run(s, front), a))
    decreases |run|
  {
    if |run| == 1 {
      assert run[..0] == [];
    } else if Enabled(s, run[0]) {
      assert run[1..][..|run| - 2] == run[..|run| - 1][1..];
      LastStep(Step(s, run[0]), run[1..]);
    }
  }

  ghost predicate Tracks(s: State, n: nat, run: seq<Action>) {
    |s.threads| == n && forall t :: 0 <= t < n ==> Reached(Did(run, t), s.threads[t])
  }

  lemma NextIsEnabled(s: State, n: nat, front: seq<Action>, a: Action)
    requires Inv(s) && Tracks(s, n, front) && a.thread < n
    ensures Enabled(s, a) <==>
      IsNext(Did(front, a.thread), a.kind) && (a.kind == Lock ==> forall t :: 0 <= t < n ==> !InCritical(front, t))
  {
    WayStep(Did(front, a.thread), s.threads[a.thread], a.kind);
    MutexFree(s, n, front);
  }

  lemma MutexFree(s: State, n: nat, front: seq<Action>)
    requires Inv(s) && Tracks(s, n, front)
    ensures s.owner == None <==> forall t :: 0 <= t < n ==> !InCritical(front, t)
  {
    if s.owner == None {
      forall t | 0 <= t < n
        ensures !InCritical(front, t)
      {
        CriticalInside(front, t, s.threads[t]);
      }
    } else {
      CriticalInside(front, s.owner.value, s.threads[s.owner.value]);
      assert InCritical(front, s.owner.value);
    }
  }

  lemma CriticalInside(run: seq<Action>, t: nat, p: At)
    requires Reached(Did(run, t), p)
    ensures InCritical(run, t) <==> Inside(p)
  {
    WaysApart();
  }

  lemma WaysApart()
    ensures GOOD_WAY[..0] == [] && GOOD_WAY[..1] == [Lock] && GOOD_WAY[..2] == [Lock, Load]
    ensures GOOD_WAY[..3] == [Lock, Load, Store]
    ensures BAD_WAY[..0] == [] && BAD_WAY[0] != GOOD_WAY[0]
  {
  }

  lemma WayStep(done: seq<Kind>, p: At, k: Kind)
    requires Reached(done, p)
    ensures IsNext(done, k) <==>
      match k
      case Lock => p == Start
      case LockFails => p == Start
      case Load => p == Holding
      case Store => p.Loaded?
      case Unlock => p == Stored
  {
    NextOn(done, k, GOOD_WAY);
    NextOn(done, k, BAD_WAY);
    WaysApart();
  }

  lemma NextOn(done: seq<Kind>, k: Kind, way: seq<Kind>)
    ensures done + [k] <= way <==> |done| < |way| && done == way[..|done|] && k == way[|done|]
  {
    var next := done + [k];
    if |done| < |way| && done == way[..|done|] && k == way[|done|] {
      assert next == way[..|next|];
    }
    if next <= way {
      assert next == way[..|next|];
      assert next[|done|] == k;
      assert next[..|done|] == done;
    }
  }

  lemma StepTracks(s: State, n: nat, run: seq<Action>)
    requires run != [] && Tracks(s, n, run[..|run| - 1]) && Enabled(s, run[|run| - 1])
    ensures Tracks(Step(s, run[|run| - 1]), n, run)
  {
  }

  /** The runs of the threads are exactly the interleavings of the two ways that respect the mutex. */
  lemma {:induction false} RunsAreInterleavings(n: nat, run: seq<Action>)
    ensures CanRun(Initial(n), run) <==> Interleaving(n, run)
    ensures CanRun(Initial(n), run) ==> Tracks(Run(Initial(n), run), n, run)
    decreases |run|
  {
    if run != [] {
      var front, a := run[..|run| - 1], run[|run| - 1];
      RunsAreInterleavings(n, front);
      LastStep(Initial(n), run);
      if CanRun(Initial(n), front) {
        InitialInv(n);
        RunKeepsInv(Initial(n), front);
        if a.thread < n {
          NextIsEnabled(Run(Initial(n), front), n, front, a);
        }
        assert CanRun(Initial(n), run) <==> Interleaving(n, run);
        if CanRun(Initial(n), run) {
          StepTracks(Run(Initial(n), front), n, run);
        }
      }
    }
  }

  lemma {:induction false} DidIffInRun(run: seq<Action>, t: nat, k: Kind)
    ensures k in Did(run, t) <==> Action(t, k) in run
    decreases |run|
  {
    if run != [] {
      DidIffInRun(run[..|run| - 1], t, k);
      assert run == run[..|run| - 1] + [run[|run| - 1]];
    }
  }

  /** A thread has returned the bad status exactly when its lock failed, and the good one exactly
      when it stored the counter and unlocked. */
  lemma StatusOfThread(n: nat, run: seq<Action>, t: nat)
    requires CanRun(Initial(n), run) && t < n
    ensures var s := Run(Initial(n), run);
      && |s.threads| == n
      && (s.threads[t] == Returned(false) <==> Action(t, LockFails) in run)
      && (s.threads[t] == Returned(true) <==> Action(t, Unlock) in run)
      && (HasStored(s.threads[t]) <==> Action(t, Store) in run)
  {
    RunsAreInterleavings(n, run);
    DidIffInRun(run, t, LockFails);
    DidIffInRun(run, t, Unlock);
    DidIffInRun(run, t, Store);
  }

  // ---------------------------------------------------------------------------------------------
  // The final count
  // ---------------------------------------------------------------------------------------------

  predicate NoFailure(threads: seq<At>) {
    forall t :: 0 <= t < |threads| ==> threads[t] == Returned(true)
  }

  /** The number of threads that returned the good status. */
  function GoodThreads(threads: seq<At>): nat {
    multiset(threads)[Returned(true)]
  }

  lemma {:induction false} CountAll(threads: seq<At>)
    requires forall t :: 0 <= t < |threads| ==> threads[t].Returned?
    ensures CountStored(threads) == GoodThreads(threads) <= |threads|
    ensures CountStored(threads) == |threads| <==> NoFailure(threads)
  {
    if threads != [] {
      CountAll(threads[1..]);
      assert threads == [threads[0]] + threads[1..];
      assert forall t :: 1 <= t < |threads| ==> threads[t] == threads[1..][t - 1];
    }
  }

  /** The threads whose lock failed. */
  function Failed(run: seq<Action>): set<nat> {
    set a | a in run && a.kind == LockFails :: a.thread
  }

  function BadThreads(threads: seq<At>): set<nat> {
    set t | 0 <= t < |threads| && threads[t] == Returned(false)
  }

  lemma LastBad(threads: seq<At>)
    requires threads != []
    ensures var n := |threads| - 1;
      BadThreads(threads) == BadThreads(threads[..n]) + if threads[n] == Returned(false) then {n} else {}
  {
  }

  lemma {:induction false} GoodAndBad(threads: seq<At>)
    requires forall t :: 0 <= t < |threads| ==> threads[t].Returned?
    ensures GoodThreads(threads) + |BadThreads(threads)| == |threads|
    decreases |threads|
  {
    if threads != [] {
      var n := |threads| - 1;
      var front := threads[..n];
      GoodAndBad(front);
      LastBad(threads);
      assert threads == front + [threads[n]];
    }
  }

  lemma FailedAreBad(n: nat, run: seq<Action>)
    requires CanRun(Initial(n), run)
    ensures BadThreads(Run(Initial(n), run).threads) == Failed(run)
  {
    var threads := Run(Initial(n), run).threads;
    forall t: nat
      ensures t in BadThreads(threads) <==> t in Failed(run)
    {
      RunsAreInterleavings(n, run);
      if t < n {
        StatusOfThread(n, run, t);
      } else {
        NoSuchThread(n, run, t);
      }
      assert t in Failed(run) <==> Action(t, LockFails) in run;
    }
  }

  lemma {:induction false} NoSuchThread(n: nat, run: seq<Action>, t: nat)
    requires Interleaving(n, run) && t >= n
    ensures forall k :: Action(t, k) !in run
    decreases |run|
  {
    if run != [] {
      NoSuchThread(n, run[..|run| - 1], t);
      assert run == run[..|run| - 1] + [run[|run| - 1]];
    }
  }

  /** When all threads have returned, the counter is the number of threads that returned the good
      status, which is n less the number of threads whose lock failed. */
  lemma FinalCounter(n: nat, run: seq<Action>)
    requires CanRun(Initial(n), run) && Final(Run(Initial(n), run))
    ensures var s := Run(Initial(n), run);
      && |s.threads| == n
      && s.counter == GoodThreads(s.threads) == n - |Failed(run)|
      && s.used == Ascending(s.counter)
      && (s.counter == n <==> NoFailure(s.threads))
  {
    InitialInv(n);
    RunKeepsInv(Initial(n), run);
    CountAll(Run(Initial(n), run).threads);
    GoodAndBad(Run(Initial(n), run).threads);
    FailedAreBad(n, run);
  }

  // ---------------------------------------------------------------------------------------------
  // No deadlock
  // ---------------------------------------------------------------------------------------------

  function Left(p: At): nat {
    match p
    case Start => 4
    case Holding => 3
    case Loaded(_) => 2
    case Stored => 1
    case Returned(_) => 0
  }

  function Work(threads: seq<At>): nat {
    if threads == [] then 0 else Left(threads[0]) + Work(threads[1..])
  }

  lemma {:induction false} WorkUpdate(threads: seq<At>, t: nat, p: At)
    requires t < |threads|
    ensures Work(threads[t := p]) == Work(threads) + Left(p) - Left(threads[t])
  {
    if t == 0 {
      assert threads[0 := p][1..] == threads[1..];
    } else {
      WorkUpdate(threads[1..], t - 1, p);
      assert threads[t := p][1..] == threads[1..][t - 1 := p];
    }
  }

  /** In a state that is not final, some thread can go on without a failing lock. */
  lemma SomeoneCanGoOn(s: State) returns (a: Action)
    requires Inv(s) && !Final(s)
    ensures Enabled(s, a) && a.kind != LockFails && Work(Step(s, a).threads) < Work(s.threads)
  {
    if s.owner.Some? {
      var t := s.owner.value;
      a := Action(t, match s.threads[t] case Holding => Load case Loaded(_) => Store case _ => Unlock);
    } else {
      var t :| 0 <= t < |s.threads| && !s.threads[t].Returned?;
      a := Action(t, Lock);
    }
    WorkUpdate(s.threads, a.thread, Step(s, a).threads[a.thread]);
    assert Step(s, a).threads == s.threads[a.thread := Step(s, a).threads[a.thread]];
  }

  ghost predicate AllSucceed(run: seq<Action>) {
    forall i :: 0 <= i < |run| ==> run[i].kind != LockFails
  }

  /** From every state of the invariant all threads can still return, with no further failing
      lock. */
  lemma {:induction false} CanFinish(s: State) returns (run: seq<Action>)
    requires Inv(s)
    ensures CanRun(s, run) && AllSucceed(run) && Final(Run(s, run))
    decreases Work(s.threads)
  {
    if Final(s) {
      run := [];
    } else {
      var a := SomeoneCanGoOn(s);
      StepKeepsInv(s, a);
      var rest := CanFinish(Step(s, a));
      run := [a] + rest;
      assert run[1..] == rest;
    }
  }

  lemma {:induction false} RunAppend(s: State, a: seq<Action>, b: seq<Action>)
    requires CanRun(s, a) && CanRun(Run(s, a), b)
    ensures CanRun(s, a + b) && Run(s, a + b) == Run(Run(s, a), b)
    decreases |a|
  {
    if a == [] {
      assert a + b == b;
    } else {
      assert (a + b)[1..] == a[1..] + b;
      RunAppend(Step(s, a[0]), a[1..], b);
    }
  }

  /** No reachable state is stuck: every run can be continued until all threads have returned. */
  lemma EveryRunCanFinish(n: nat, run: seq<Action>) returns (more: seq<Action>)
    requires CanRun(Initial(n), run)
    ensures AllSucceed(more)
    ensures CanRun(Initial(n), run + more) && Final(Run(Initial(n), run + more))
  {
    InitialInv(n);
    RunKeepsInv(Initial(n), run);
    more := CanFinish(Run(Initial(n), run));
    RunAppend(Initial(n), run, more);
  }

  /** No failing lock in the run: then no thread returns the bad status. */
  lemma {:induction false} SuccessfulRun(s: State, run: seq<Action>)
    requires CanRun(s, run) && AllSucceed(run)
    requires forall t :: 0 <= t < |s.threads| ==> s.threads[t] != Returned(false)
    ensures |Run(s, run).threads| == |s.threads|
    ensures forall t :: 0 <= t < |s.threads| ==> Run(s, run).threads[t] != Returned(false)
    decreases |run|
  {
    if run != [] {
      assert run[0].kind != LockFails;
      SuccessfulRun(Step(s, run[0]), run[1..]);
    }
  }

  /** The assertion at the end of the program: without a failing lock the counter ends at n. */
  lemma AllLocksSucceed(n: nat, run: seq<Action>)
    requires CanRun(Initial(n), run) && AllSucceed(run) && Final(Run(Initial(n), run))
    ensures Run(Initial(n), run).counter == n
  {
    SuccessfulRun(Initial(n), run);
    FinalCounter(n, run);
  }
}
