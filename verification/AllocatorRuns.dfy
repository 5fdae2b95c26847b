/** Whole runs of the allocator. */
module AllocatorRuns {
  import opened Common
  import opened Heap
  import opened FirstFit

  datatype Op =
    | Request(size: nat)
    | Release(pointer: nat)
    | Resize(pointer: nat, size: nat)
  {
    predicate Asks() { !Release? }
  }

  /** Callers free and resize only live pointers, and ask for at least one byte. */
  ghost predicate Legal(h: State, op: Op) {
    match op
    case Request(size) => size > 0
    case Release(pointer) => IsLive(h, pointer)
    case Resize(pointer, size) => IsLive(h, pointer) && size > 0
  }

  ghost function Step(h: State, op: Op): State
    requires WellFormed(h) && Legal(h, op)
  {
    match op
    case Request(size) => Alloc(h, size)
    case Release(pointer) => FindsLive(h, pointer); Free(h, pointer)
    case Resize(pointer, size) => ReAlloc(h, pointer, size)
  }

  lemma StepKeepsSound(h: State, op: Op)
    requires Sound(h) && Legal(h, op)
    ensures Sound(Step(h, op))
  {
    match op
    case Request(size) => AllocKeepsSound(h, size);
    case Release(pointer) =>
      FindsLive(h, pointer);
      FreeKeepsSound(h, pointer);
    case Resize(pointer, size) =>
      if Search(h.blocks, h.first, size).Some? {
        AllocKeepsSound(h, size);
        AllocKeepsLive(h, size, pointer);
        FindsLive(Alloc(h, size), pointer);
        FreeKeepsSound(Alloc(h, size), pointer);
      }
  }

  /** The states that legal calls reach from a new allocator. */
  ghost predicate LegalRun(ops: seq<Op>)
    decreases |ops|, 0
  {
    ops == [] || (LegalRun(ops[..|ops| - 1]) && Legal(Run(ops[..|ops| - 1]), ops[|ops| - 1]))
  }

  ghost function Run(ops: seq<Op>): (h: State)
    requires LegalRun(ops)
    ensures Sound(h)
    decreases |ops|, 1
  {
    if ops == [] then EMPTY
    else
      var h := Run(ops[..|ops| - 1]);
      StepKeepsSound(h, ops[|ops| - 1]);
      Step(h, ops[|ops| - 1])
  }

  // ---------------------------------------------------------------------------------------------
  // The ledger: what a caller who only sees calls and returned pointers can tell
  // ---------------------------------------------------------------------------------------------

  /** The sizes of the live blocks by their starts, and the first free index. */
  datatype Ledger = Ledger(sizes: map<int, nat>, first: nat)

  ghost predicate Matches(h: State, ledger: Ledger) {
    && h.first == ledger.first
    && forall b: MemoryBlock ::
         b in h.blocks <==> b.GetStart() in ledger.sizes && ledger.sizes[b.GetStart()] == b.blockSize
  }

  function Booked(ledger: Ledger, returned: nat, size: nat): Ledger {
    Ledger(ledger.sizes[returned := size], if ledger.first == returned then returned + size else ledger.first)
  }

  function Cleared(ledger: Ledger, pointer: nat): Ledger {
    Ledger(ledger.sizes - {pointer}, if pointer < ledger.first then pointer else ledger.first)
  }

  /** The ledger after a call that returned the pointer, or threw. */
  function Entered(ledger: Ledger, op: Op, returned: Option<nat>): Ledger {
    match op
    case Release(pointer) => Cleared(ledger, pointer)
    case Request(size) => if returned.None? then ledger else Booked(ledger, returned.value, size)
    case Resize(pointer, size) =>
      if returned.None? then ledger else Cleared(Booked(ledger, returned.value, size), pointer)
  }

  function Returned(h: State, op: Op): Option<nat> {
    match op
    case Release(_) => None
    case Request(size) => Search(h.blocks, h.first, size)
    case Resize(_, size) => Search(h.blocks, h.first, size)
  }

  lemma AllocMatches(h: State, ledger: Ledger, size: nat)
    requires Sound(h) && size > 0 && Matches(h, ledger)
    ensures match Search(h.blocks, h.first, size)
      case None => Matches(Alloc(h, size), ledger)
      case Some(r) => Matches(Alloc(h, size), Booked(ledger, r, size))
  {
    AllocRecords(h, size);
    SearchAccepts(h.blocks, h.first, size);
    var found := Search(h.blocks, h.first, size);
    if found.Some? {
      AcceptedNotLive(h, found.value, size);
    }
  }

  lemma FreeMatches(h: State, ledger: Ledger, pointer: nat)
    requires Sound(h) && IsLive(h, pointer) && Matches(h, ledger)
    ensures FindOccupied(h.blocks, pointer) < |h.blocks|
    ensures Matches(Free(h, pointer), Cleared(ledger, pointer))
  {
    FindsLive(h, pointer);
    FreeRemovesBlock(h, pointer);
  }

  lemma StepMatches(h: State, ledger: Ledger, op: Op)
    requires Sound(h) && Legal(h, op) && Matches(h, ledger)
    ensures Matches(Step(h, op), Entered(ledger, op, Returned(h, op)))
  {
    match op
    case Request(size) => AllocMatches(h, ledger, size);
    case Release(pointer) => FreeMatches(h, ledger, pointer);
    case Resize(pointer, size) =>
      AllocMatches(h, ledger, size);
      var found := Search(h.blocks, h.first, size);
      if found.Some? {
        AllocKeepsSound(h, size);
        AllocKeepsLive(h, size, pointer);
        FreeMatches(Alloc(h, size), Booked(ledger, found.value, size), pointer);
      }
  }

  /** The ledger of a run, entered from the pointers that its calls returned. */
  ghost function LedgerOf(ops: seq<Op>): Ledger
    requires LegalRun(ops)
    decreases |ops|
  {
    if ops == [] then Ledger(map[], 0)
    else
      var front := ops[..|ops| - 1];
      Entered(LedgerOf(front), ops[|ops| - 1], Returned(Run(front), ops[|ops| - 1]))
  }

  /** At every moment of every run the ordered set holds exactly the blocks of the ledger. */
  lemma {:induction false} RunMatches(ops: seq<Op>)
    requires LegalRun(ops)
    ensures Matches(Run(ops), LedgerOf(ops))
    decreases |ops|
  {
    if ops != [] {
      var front := ops[..|ops| - 1];
      RunMatches(front);
      StepMatches(Run(front), LedgerOf(front), ops[|ops| - 1]);
    }
  }

  // ---------------------------------------------------------------------------------------------
  // Runs that keep live blocks disjoint
  // ---------------------------------------------------------------------------------------------

  ghost predicate Divides(g: nat, n: int)
    requires g > 0
  {
    exists q: int :: n == Multiple(q, g)
  }

  function Multiple(q: int, g: nat): int {
    q * g
  }

  lemma DividesSum(g: nat, a: int, b: int)
    requires g > 0 && Divides(g, a) && Divides(g, b)
    ensures Divides(g, a + b)
  {
    var p :| a == Multiple(p, g);
    var q :| b == Multiple(q, g);
    assert a + b == Multiple(p + q, g);
  }

  lemma SmallMultiple(d: int, g: nat)
    requires 0 <= d * g < g
    ensures d == 0
  {
    assert d >= 1 ==> (d - 1) * g >= 0;
    assert d <= -1 ==> (-d - 1) * g >= 0;
  }

  /** No multiple of g lies strictly between a multiple of g and the next one. */
  lemma MultiplesApart(g: nat, a: int, b: int)
    requires g > 0 && Divides(g, a) && Divides(g, b) && a <= b < a + g
    ensures a == b
  {
    var p :| a == Multiple(p, g);
    var q :| b == Multiple(q, g);
    assert (q - p) * g == b - a;
    SmallMultiple(q - p, g);
  }

  /** All starts and ends are multiples of g. */
  ghost predicate Aligned(blocks: seq<MemoryBlock>, g: nat)
    requires g > 0
  {
    forall b :: b in blocks ==> Divides(g, b.GetStart()) && Divides(g, b.GetEnd())
  }

  /** The lowest free byte of aligned disjoint blocks is zero or the end of a block. */
  lemma LowestFreeAligned(blocks: seq<MemoryBlock>, u: nat, g: nat)
    requires g > 0 && LowestFree(blocks, u) && Aligned(blocks, g)
    ensures Divides(g, u)
  {
    if u == 0 {
      assert 0 == Multiple(0, g);
    } else {
      var y: nat := u - 1;
      assert Covered(blocks, y);
      var b :| b in blocks && InBlock(b, y);
      assert !InBlock(b, u);
    }
  }

  /** Blocks aligned to the requested size: none starts inside the range that Alloc returns. */
  lemma PoolStartsNothing(h: State, size: nat, u: nat)
    requires Sound(h) && size > 0 && Aligned(h.blocks, size) && LowestFree(h.blocks, u)
    ensures !StartsInside(h.blocks, u, size)
  {
    LowestFreeAligned(h.blocks, u, size);
    forall b | b in h.blocks
      ensures !(u <= b.GetStart() < u + size)
    {
      if u <= b.GetStart() < u + size {
        MultiplesApart(size, u, b.GetStart());
        assert InBlock(b, u);
      }
    }
  }

  lemma PoolAlloc(h: State, size: nat, g: nat)
    requires Sound(h) && Disjoint(h.blocks) && size > 0 && g > 0
    requires Aligned(h.blocks, size) && Aligned(h.blocks, g) && Divides(g, size)
    ensures Disjoint(Alloc(h, size).blocks) && Aligned(Alloc(h, size).blocks, g)
  {
    var u := FindLowestFree(h, 0);
    AllocIsFirstFit(h, size, u);
    LowestFreeAligned(h.blocks, u, g);
    AllocDisjointIff(h, size, u);
    PoolStartsNothing(h, size, u);
    if u + size < MAX_BUFFER_SIZE {
      SearchAccepts(h.blocks, h.first, size);
      AcceptedInsert(h, u, size);
      DividesSum(g, u, size);
    }
  }

  lemma PoolStep(h: State, op: Op, g: nat)
    requires Sound(h) && Legal(h, op) && Disjoint(h.blocks) && g > 0 && Aligned(h.blocks, g)
    requires op.Asks() ==> Aligned(h.blocks, op.size) && Divides(g, op.size)
    ensures Disjoint(Step(h, op).blocks) && Aligned(Step(h, op).blocks, g)
  {
    match op
    case Request(size) => PoolAlloc(h, size, g);
    case Release(pointer) =>
      FindsLive(h, pointer);
      FreeKeepsDisjoint(h, pointer);
      EraseMembers(h.blocks, FindOccupied(h.blocks, pointer));
    case Resize(pointer, size) =>
      if Search(h.blocks, h.first, size).Some? {
        var h' := Alloc(h, size);
        PoolAlloc(h, size, g);
        AllocKeepsSound(h, size);
        AllocKeepsLive(h, size, pointer);
        FindsLive(h', pointer);
        FreeKeepsDisjoint(h', pointer);
        EraseMembers(h'.blocks, FindOccupied(h'.blocks, pointer));
      }
  }

  /** Each requested size divides all sizes requested before it. */
  ghost predicate DescendingPool(ops: seq<Op>) {
    forall i, j :: 0 <= i < j < |ops| && ops[i].Asks() && ops[j].Asks() && ops[j].size > 0 ==>
      Divides(ops[j].size, ops[i].size)
  }

  lemma {:induction false} PoolRun(ops: seq<Op>, g: nat)
    requires LegalRun(ops) && DescendingPool(ops) && g > 0
    requires forall i :: 0 <= i < |ops| && ops[i].Asks() ==> Divides(g, ops[i].size)
    ensures Disjoint(Run(ops).blocks) && Aligned(Run(ops).blocks, g)
    decreases |ops|
  {
    if ops != [] {
      var n := |ops| - 1;
      PoolRun(ops[..n], g);
      if ops[n].Asks() {
        PoolRun(ops[..n], ops[n].size);
      }
      PoolStep(Run(ops[..n]), ops[n], g);
    }
  }

  lemma OneDivides(n: nat)
    ensures Divides(1, n)
  {
    assert n == Multiple(n, 1);
  }

  /** In any run whose requested sizes divide all earlier ones (pools of one size are the special
      case), live blocks stay pairwise disjoint and inside the buffer. */
  lemma DescendingPoolsStayDisjoint(ops: seq<Op>)
    requires LegalRun(ops) && DescendingPool(ops)
    ensures Disjoint(Run(ops).blocks)
    ensures forall b :: b in Run(ops).blocks ==> 0 <= b.GetStart() < b.GetEnd() < MAX_BUFFER_SIZE
  {
    forall i | 0 <= i < |ops| && ops[i].Asks()
      ensures Divides(1, ops[i].size)
    {
      OneDivides(ops[i].size);
    }
    PoolRun(ops, 1);
  }

  /** In such a run the next block, too, meets no live block, so a reallocation copies safely. */
  lemma DescendingPoolMeetsNothing(ops: seq<Op>, size: nat)
    requires LegalRun(ops) && DescendingPool(ops) && size > 0
    requires forall i :: 0 <= i < |ops| && ops[i].Asks() ==> Divides(size, ops[i].size)
    ensures var h := Run(ops);
      var found := Search(h.blocks, h.first, size);
      found.Some? ==> !Meets(h.blocks, NewBlock(found.value, size))
  {
    var h := Run(ops);
    var u := FindLowestFree(h, 0);
    PoolRun(ops, size);
    AllocIsFirstFit(h, size, u);
    PoolStartsNothing(h, size, u);
    if u + size < MAX_BUFFER_SIZE {
      SearchAccepts(h.blocks, h.first, size);
      AcceptedNotLive(h, u, size);
      MeetsIffStartsInside(h, size, u);
    }
  }

  // ---------------------------------------------------------------------------------------------
  // Last in, first out
  // ---------------------------------------------------------------------------------------------

  datatype StackOp = Push(size: nat) | Pop

  /** The allocator together with the blocks it handed out and did not get back, oldest first. */
  datatype StackState = StackState(h: State, live: seq<MemoryBlock>)

  /** Live blocks lie one after the other from index 0 to the first free index, in the order in
      which they were allocated, and the set holds exactly them. */
  ghost predicate Tiled(s: StackState) {
    && Mirrored(s.h.blocks, s.live)
    && Contiguous(s.live)
    && s.h.first == TileEnd(s.live, |s.live|)
  }

  /** The set holds the live blocks, the last one first. */
  ghost predicate Mirrored(blocks: seq<MemoryBlock>, live: seq<MemoryBlock>) {
    && |blocks| == |live|
    && forall i :: 0 <= i < |live| ==> blocks[|live| - 1 - i] == live[i]
  }

  ghost predicate Contiguous(live: seq<MemoryBlock>) {
    forall i :: 0 <= i < |live| ==> live[i].blockSize > 0 && live[i].GetStart() == TileEnd(live, i)
  }

  /** Where the first i blocks end. */
  function TileEnd(live: seq<MemoryBlock>, i: nat): int
    requires i <= |live|
  {
    if i == 0 then 0 else live[i - 1].GetEnd()
  }

  /** A pop frees the block allocated last, if any is left. */
  ghost predicate StackLegal(s: StackState, op: StackOp) {
    match op
    case Push(size) => size > 0
    case Pop => s.live != [] && 0 <= s.live[|s.live| - 1].GetStart() && IsLive(s.h, s.live[|s.live| - 1].GetStart())
  }

  /** A push that throws changes nothing. */
  ghost function StackStep(s: StackState, op: StackOp): StackState
    requires WellFormed(s.h) && StackLegal(s, op)
  {
    match op
    case Push(size) =>
      var found := Search(s.h.blocks, s.h.first, size);
      if found.None? then s else StackState(Alloc(s.h, size), s.live + [NewBlock(found.value, size)])
    case Pop =>
      var pointer := s.live[|s.live| - 1].GetStart();
      FindsLive(s.h, pointer);
      StackState(Free(s.h, pointer), s.live[..|s.live| - 1])
  }

  /** At the first free index the search of a tiled state stops at once, or never. */
  lemma TiledSearch(s: StackState, size: nat)
    requires Tiled(s) && size > 0
    ensures LowerBound(s.h.blocks, NewBlock(s.h.first, size)) == 0
    ensures Search(s.h.blocks, s.h.first, size) ==
            if s.h.first + size < MAX_BUFFER_SIZE then Some(s.h.first) else None
  {
  }

  lemma PushAddsFront(s: StackState, size: nat)
    requires Tiled(s) && Sound(s.h) && size > 0 && s.h.first + size < MAX_BUFFER_SIZE
    ensures var t := StackStep(s, Push(size));
      && t.live == s.live + [NewBlock(s.h.first, size)]
      && t.h.blocks == [NewBlock(s.h.first, size)] + s.h.blocks
      && t.h.first == s.h.first + size
  {
    var r := s.h.first;
    TiledSearch(s, size);
    AcceptedInsert(s.h, r, size);
    assert Insert(s.h.blocks, NewBlock(r, size)) == [NewBlock(r, size)] + s.h.blocks;
  }

  lemma ContiguousExtended(live: seq<MemoryBlock>, b: MemoryBlock)
    requires Contiguous(live) && b.GetStart() == TileEnd(live, |live|) && b.blockSize > 0
    ensures Contiguous(live + [b])
  {
    var more := live + [b];
    forall i | 0 <= i < |more|
      ensures more[i].blockSize > 0 && more[i].GetStart() == TileEnd(more, i)
    {
      assert TileEnd(more, i) == TileEnd(live, i);
    }
  }

  lemma PushKeepsTiled(s: StackState, size: nat)
    requires Tiled(s) && Sound(s.h) && size > 0
    ensures Tiled(StackStep(s, Push(size)))
  {
    TiledSearch(s, size);
    if s.h.first + size < MAX_BUFFER_SIZE {
      PushAddsFront(s, size);
      ContiguousExtended(s.live, NewBlock(s.h.first, size));
    }
  }

  lemma PopRemovesFront(s: StackState)
    requires Tiled(s) && Sound(s.h) && StackLegal(s, Pop)
    ensures var t := StackStep(s, Pop);
      && t.live == s.live[..|s.live| - 1]
      && t.h.blocks == s.h.blocks[1..]
      && t.h.first == TileEnd(s.live, |s.live| - 1)
  {
    var n := |s.live|;
    var last := s.live[n - 1];
    assert s.h.blocks[0] == last;
    FindsLive(s.h, last.GetStart());
    SameStart(s.h.blocks, 0, FindOccupied(s.h.blocks, last.GetStart()));
  }

  lemma PopKeepsTiled(s: StackState)
    requires Tiled(s) && Sound(s.h) && StackLegal(s, Pop)
    ensures Tiled(StackStep(s, Pop))
  {
    PopRemovesFront(s);
    TiledPrefix(s, StackStep(s, Pop));
  }

  lemma TiledPrefix(s: StackState, t: StackState)
    requires Tiled(s) && s.live != []
    requires t.live == s.live[..|s.live| - 1] && t.h.blocks == s.h.blocks[1..]
    requires t.h.first == TileEnd(s.live, |s.live| - 1)
    ensures Tiled(t)
  {
    MirroredPrefix(s.h.blocks, s.live);
    ContiguousPrefix(s.live, |s.live| - 1);
  }

  lemma ContiguousPrefix(live: seq<MemoryBlock>, n: nat)
    requires Contiguous(live) && n <= |live|
    ensures Contiguous(live[..n]) && TileEnd(live[..n], n) == TileEnd(live, n)
  {
    forall i | 0 <= i < n
      ensures live[..n][i].GetStart() == TileEnd(live[..n], i)
    {
      assert TileEnd(live[..n], i) == TileEnd(live, i);
    }
  }

  lemma MirroredPrefix(blocks: seq<MemoryBlock>, live: seq<MemoryBlock>)
    requires Mirrored(blocks, live) && live != []
    ensures Mirrored(blocks[1..], live[..|live| - 1])
  {
    var n := |live|;
    forall i | 0 <= i < n - 1
      ensures blocks[1..][n - 2 - i] == live[i]
    {
      assert blocks[1..][n - 2 - i] == blocks[n - 1 - i];
    }
  }

  ghost predicate StackLegalRun(ops: seq<StackOp>)
    decreases |ops|, 0
  {
    ops == [] || (StackLegalRun(ops[..|ops| - 1]) && StackLegal(StackRun(ops[..|ops| - 1]), ops[|ops| - 1]))
  }

  /** In any last-in-first-out run the live blocks tile the buffer from index 0 to the first free
      index in allocation order. */
  ghost function StackRun(ops: seq<StackOp>): (s: StackState)
    requires StackLegalRun(ops)
    ensures Sound(s.h) && Tiled(s)
    decreases |ops|, 1
  {
    if ops == [] then StackState(EMPTY, [])
    else
      var s := StackRun(ops[..|ops| - 1]);
      StackStepKeeps(s, ops[|ops| - 1]);
      StackStep(s, ops[|ops| - 1])
  }

  lemma StackStepKeeps(s: StackState, op: StackOp)
    requires Sound(s.h) && Tiled(s) && StackLegal(s, op)
    ensures Sound(StackStep(s, op).h) && Tiled(StackStep(s, op))
  {
    match op
    case Push(size) =>
      AllocKeepsSound(s.h, size);
      PushKeepsTiled(s, size);
    case Pop =>
      FindsLive(s.h, s.live[|s.live| - 1].GetStart());
      FreeKeepsSound(s.h, s.live[|s.live| - 1].GetStart());
      PopKeepsTiled(s);
  }

  /** In a last-in-first-out run the next request, of any size, lands at the first free index and
      meets no live block, or throws because it does not fit behind them. */
  lemma StackRunNeverMeets(ops: seq<StackOp>, size: nat)
    requires StackLegalRun(ops) && size > 0
    ensures var h := StackRun(ops).h;
      && Search(h.blocks, h.first, size) == (if h.first + size < MAX_BUFFER_SIZE then Some(h.first) else None)
      && !Meets(h.blocks, NewBlock(h.first, size))
  {
    var s := StackRun(ops);
    TiledSearch(s, size);
    forall b | b in s.h.blocks
      ensures b.GetEnd() <= s.h.first
    {
      var i :| 0 <= i < |s.h.blocks| && s.h.blocks[i] == b;
      assert s.live[|s.live| - 1 - i] == b;
      TiledEnds(s, |s.live| - 1 - i);
    }
  }

  lemma {:induction false} TiledEnds(s: StackState, i: nat)
    requires Tiled(s) && i < |s.live|
    ensures s.live[i].GetEnd() <= s.h.first
    decreases |s.live| - i
  {
    if i + 1 < |s.live| {
      TiledEnds(s, i + 1);
      assert s.live[i + 1].GetStart() == s.live[i].GetEnd();
    }
  }

  // ---------------------------------------------------------------------------------------------
  // What does not hold
  // ---------------------------------------------------------------------------------------------

  lemma RunExtends(ops: seq<Op>, op: Op)
    requires LegalRun(ops) && Legal(Run(ops), op)
    ensures LegalRun(ops + [op]) && Run(ops + [op]) == Step(Run(ops), op)
  {
    var more := ops + [op];
    assert more[..|more| - 1] == ops && more[|more| - 1] == op;
  }

  lemma FirstTwoBlocks()
    ensures Alloc(EMPTY, 4) == State(4, [NewBlock(0, 4)])
    ensures Alloc(State(4, [NewBlock(0, 4)]), 4) == State(8, [NewBlock(4, 4), NewBlock(0, 4)])
  {
    var a := [NewBlock(0, 4)];
    assert Insert(a, NewBlock(4, 4)) == [NewBlock(4, 4)] + a;
  }

  lemma FreeLowerBlock(h: State)
    requires h == State(8, [NewBlock(4, 4), NewBlock(0, 4)])
    ensures IsLive(h, 0) && FindOccupied(h.blocks, 0) == 1
    ensures Free(h, 0) == State(0, [NewBlock(4, 4)])
  {
    assert NewBlock(0, 4) in h.blocks;
    assert h.blocks[1..] == [NewBlock(0, 4)];
    assert FindOccupied(h.blocks[1..], 0) == 0;
    assert Erase(h.blocks, 1) == [NewBlock(4, 4)];
  }

  lemma OverlappingAlloc(h: State)
    requires h == State(0, [NewBlock(4, 4)])
    ensures Alloc(h, 8).blocks == [NewBlock(4, 4), NewBlock(0, 8)]
  {
    assert h.blocks[1..] == [];
    assert LowerBound(h.blocks, NewBlock(0, 8)) == 1;
  }

  lemma ThreeCalls() returns (ops: seq<Op>)
    ensures LegalRun(ops) && Run(ops) == State(0, [NewBlock(4, 4)])
  {
    FirstTwoBlocks();
    RunExtends([], Request(4));
    ops := [] + [Request(4)];
    RunExtends(ops, Request(4));
    ops := ops + [Request(4)];
    FreeLowerBlock(Run(ops));
    RunExtends(ops, Release(0));
    ops := ops + [Release(0)];
  }

  lemma OverlappingPair(blocks: seq<MemoryBlock>)
    requires blocks == [NewBlock(4, 4), NewBlock(0, 8)]
    ensures !Disjoint(blocks)
  {
    assert blocks[0] in blocks && blocks[1] in blocks && Overlaps(blocks[0], blocks[1]);
  }

  /** Legal calls can make live blocks overlap: after Alloc(4), Alloc(4) and freeing the first,
      Alloc(8) returns index 0 although a live block starts at 4. */
  lemma OverlapReachable()
    ensures exists ops :: LegalRun(ops) && !Disjoint(Run(ops).blocks)
  {
    var ops := ThreeCalls();
    OverlappingAlloc(Run(ops));
    RunExtends(ops, Request(8));
    OverlappingPair([NewBlock(4, 4), NewBlock(0, 8)]);
    assert LegalRun(ops + [Request(8)]) && !Disjoint(Run(ops + [Request(8)]).blocks);
  }

  /** Every state of the run, the last one included, has disjoint blocks. */
  ghost predicate DisjointThroughout(ops: seq<Op>)
    requires LegalRun(ops)
    decreases |ops|
  {
    Disjoint(Run(ops).blocks) && (ops != [] ==> DisjointThroughout(ops[..|ops| - 1]))
  }

  lemma ThroughoutExtends(ops: seq<Op>, op: Op)
    requires LegalRun(ops) && DisjointThroughout(ops) && Legal(Run(ops), op) && Disjoint(Step(Run(ops), op).blocks)
    ensures LegalRun(ops + [op]) && Run(ops + [op]) == Step(Run(ops), op) && DisjointThroughout(ops + [op])
  {
    RunExtends(ops, op);
    assert (ops + [op])[..|ops + [op]| - 1] == ops;
  }

  lemma TwoAndFour()
    ensures Alloc(EMPTY, 2) == State(2, [NewBlock(0, 2)])
    ensures Alloc(State(2, [NewBlock(0, 2)]), 4) == State(6, [NewBlock(2, 4), NewBlock(0, 2)])
    ensures Disjoint([NewBlock(0, 2)]) && Disjoint([NewBlock(2, 4), NewBlock(0, 2)])
  {
    var a := [NewBlock(0, 2)];
    assert Insert(a, NewBlock(2, 4)) == [NewBlock(2, 4)] + a;
  }

  lemma FreeTwo(h: State)
    requires h == State(6, [NewBlock(2, 4), NewBlock(0, 2)])
    ensures IsLive(h, 0) && FindOccupied(h.blocks, 0) == 1
    ensures Free(h, 0) == State(0, [NewBlock(2, 4)]) && Disjoint([NewBlock(2, 4)])
  {
    assert NewBlock(0, 2) in h.blocks;
    assert h.blocks[1..] == [NewBlock(0, 2)];
    assert FindOccupied(h.blocks[1..], 0) == 0;
    assert Erase(h.blocks, 1) == [NewBlock(2, 4)];
  }

  lemma EightFitAtZero(h: State)
    requires h == State(0, [NewBlock(2, 4)])
    ensures Search(h.blocks, h.first, 8) == Some(0)
    ensures Alloc(h, 8).blocks == [NewBlock(2, 4), NewBlock(0, 8)]
  {
    assert h.blocks[1..] == [];
    assert LowerBound(h.blocks, NewBlock(0, 8)) == 1;
  }

  lemma FreeMoved(h: State)
    requires h.blocks == [NewBlock(2, 4), NewBlock(0, 8)]
    ensures FindOccupied(h.blocks, 2) == 0 && Free(h, 2).blocks == [NewBlock(0, 8)]
  {
  }

  lemma OnlyBlock(h: State, start: nat, size: nat)
    requires h.blocks == [NewBlock(start, size)] && start + size < MAX_BUFFER_SIZE
    ensures WellFormed(h) && IsLive(h, start) && Disjoint(h.blocks)
  {
    assert h.blocks[0] in h.blocks;
  }

  /** The block at 2 moves to 0 and grows to eight bytes: four bytes are copied from 2 to 0. */
  lemma GrowInPlace(h: State)
    requires h == State(0, [NewBlock(2, 4)])
    ensures WellFormed(h) && IsLive(h, 2)
    ensures Search(h.blocks, h.first, 8) == Some(0) && Min(8, h.blocks[0].blockSize) == 4
    ensures ReAlloc(h, 2, 8).blocks == [NewBlock(0, 8)] && Disjoint([NewBlock(0, 8)])
  {
    OnlyBlock(h, 2, 4);
    EightFitAtZero(h);
    FreeMoved(Alloc(h, 8));
    OnlyBlock(State(0, [NewBlock(0, 8)]), 0, 8);
  }

  lemma UpToTheMove() returns (ops: seq<Op>)
    ensures LegalRun(ops) && DisjointThroughout(ops) && Run(ops) == State(0, [NewBlock(2, 4)])
  {
    ops := UpToTwoBlocks();
    FreeTwo(Run(ops));
    ThroughoutExtends(ops, Release(0));
    ops := ops + [Release(0)];
  }

  lemma UpToTwoBlocks() returns (ops: seq<Op>)
    ensures LegalRun(ops) && DisjointThroughout(ops) && Run(ops) == State(6, [NewBlock(2, 4), NewBlock(0, 2)])
  {
    TwoAndFour();
    ThroughoutExtends([], Request(2));
    ops := [] + [Request(2)];
    ThroughoutExtends(ops, Request(4));
    ops := ops + [Request(4)];
  }

  /** Blocks that are disjoint throughout do not make the copy of a reallocation defined: after
      Alloc(2), Alloc(4) and freeing the first, ReAlloc of the second to eight bytes copies four
      bytes from 2 to 0. */
  lemma OverlappingCopyReachable()
    ensures exists ops: seq<Op>, was: MemoryBlock, size: nat ::
      && LegalRun(ops) && was in Run(ops).blocks
      && LegalRun(ops + [Resize(was.GetStart(), size)])
      && DisjointThroughout(ops + [Resize(was.GetStart(), size)])
      && Search(Run(ops).blocks, Run(ops).first, size).Some?
      && !Apart(Search(Run(ops).blocks, Run(ops).first, size).value, was.GetStart(), Min(size, was.blockSize))
  {
    var ops := UpToTheMove();
    GrowInPlace(Run(ops));
    ThroughoutExtends(ops, Resize(2, 8));
    assert NewBlock(2, 4) in Run(ops).blocks && NewBlock(2, 4).GetStart() == 2;
  }

  /** A block of size zero hides the next one: after Alloc(0), Alloc(4) returns index 0 but is not
      recorded, so bytes below the first free index belong to no block. */
  lemma ZeroSizeLosesBlock()
    ensures var h := Alloc(Alloc(EMPTY, 0), 4);
      h == State(4, [NewBlock(0, 0)]) && !CoveredBelow(h.blocks, h.first)
  {
    var z := NewBlock(0, 0);
    assert Alloc(EMPTY, 0) == State(0, [z]);
    assert Insert([z], NewBlock(0, 4)) == [z];
    assert !Covered([z], 0);
  }
}
