/** What single calls of the allocator keep, find and undo. */
module FirstFit {
  import opened Common
  import opened Heap

  ghost predicate InBlock(b: MemoryBlock, y: nat) {
    b.GetStart() <= y < b.GetEnd()
  }

  ghost predicate Covered(blocks: seq<MemoryBlock>, y: nat) {
    exists b :: b in blocks && InBlock(b, y)
  }

  ghost predicate CoveredBelow(blocks: seq<MemoryBlock>, n: nat) {
    forall y: nat :: y < n ==> Covered(blocks, y)
  }

  /** y is the lowest byte that belongs to no block. */
  ghost predicate LowestFree(blocks: seq<MemoryBlock>, y: nat) {
    !Covered(blocks, y) && CoveredBelow(blocks, y)
  }

  ghost predicate Positive(blocks: seq<MemoryBlock>) {
    forall b :: b in blocks ==> b.blockSize > 0
  }

  /** Below the first free index every byte belongs to a live block. */
  ghost predicate Grounded(h: State) {
    WellFormed(h) && CoveredBelow(h.blocks, h.first)
  }

  /** What holds in every state that positive requests reach, overlapping blocks or not. */
  ghost predicate Sound(h: State) {
    Grounded(h) && Positive(h.blocks)
  }

  ghost predicate Disjoint(blocks: seq<MemoryBlock>) {
    forall b, c :: b in blocks && c in blocks && b != c ==> !Overlaps(b, c)
  }

  lemma SameStart(s: seq<MemoryBlock>, i: nat, j: nat)
    requires Ordered(s) && i < |s| && j < |s| && s[i].GetStart() == s[j].GetStart()
    ensures i == j
  {
  }

  lemma OneBlockPerStart(s: seq<MemoryBlock>, b: MemoryBlock, c: MemoryBlock)
    requires Ordered(s) && b in s && c in s && b.GetStart() == c.GetStart()
    ensures b == c
  {
    var i :| 0 <= i < |s| && s[i] == b;
    var j :| 0 <= j < |s| && s[j] == c;
    SameStart(s, i, j);
  }

  // ---------------------------------------------------------------------------------------------
  // Insertion
  // ---------------------------------------------------------------------------------------------

  /** A block is inserted exactly when no block starts where it starts. */
  lemma InsertUnlessLive(h: State, r: nat, size: nat)
    requires WellFormed(h)
    ensures IsLive(h, r) ==> Insert(h.blocks, NewBlock(r, size)) == h.blocks
    ensures !IsLive(h, r) ==>
      var k := LowerBound(h.blocks, NewBlock(r, size));
      Insert(h.blocks, NewBlock(r, size)) == h.blocks[..k] + [NewBlock(r, size)] + h.blocks[k..]
  {
    var k := LowerBound(h.blocks, NewBlock(r, size));
    if IsLive(h, r) {
      var i :| 0 <= i < |h.blocks| && h.blocks[i].GetStart() == r;
      LowerBoundAt(h.blocks, NewBlock(r, size), i);
    } else if k < |h.blocks| {
      assert h.blocks[k] in h.blocks;
    }
  }

  lemma InsertedMembers(h: State, r: nat, size: nat)
    requires WellFormed(h) && !IsLive(h, r)
    ensures forall c :: c in Insert(h.blocks, NewBlock(r, size)) <==> c == NewBlock(r, size) || c in h.blocks
  {
    var k := LowerBound(h.blocks, NewBlock(r, size));
    InsertUnlessLive(h, r, size);
    InsertMembers(h.blocks, NewBlock(r, size));
    assert Insert(h.blocks, NewBlock(r, size))[k] == NewBlock(r, size);
  }

  /** Exactly the new block is added, unless a block starts where it starts. */
  lemma AllocRecords(h: State, size: nat)
    requires WellFormed(h)
    ensures match Search(h.blocks, h.first, size)
      case None => Alloc(h, size) == h
      case Some(r) => forall b ::
        b in Alloc(h, size).blocks <==> b in h.blocks || (b == NewBlock(r, size) && !IsLive(h, r))
  {
    var found := Search(h.blocks, h.first, size);
    if found.Some? {
      InsertUnlessLive(h, found.value, size);
      if !IsLive(h, found.value) {
        InsertedMembers(h, found.value, size);
      }
    }
  }

  /** Without empty blocks no live block starts at an accepted index. */
  lemma AcceptedNotLive(h: State, r: nat, size: nat)
    requires WellFormed(h) && Positive(h.blocks) && Accepts(h.blocks, r, size)
    ensures !IsLive(h, r)
  {
    var k := LowerBound(h.blocks, NewBlock(r, size));
    forall i | 0 <= i < |h.blocks|
      ensures h.blocks[i].GetStart() != r
    {
      if i < k {
        assert Less(h.blocks[i], NewBlock(r, size));
      } else if i > k {
        assert Less(h.blocks[k], h.blocks[i]);
      }
    }
    if k < |h.blocks| {
      assert h.blocks[k] in h.blocks;
    }
  }

  lemma AcceptedInsert(h: State, r: nat, size: nat)
    requires WellFormed(h) && Positive(h.blocks) && Accepts(h.blocks, r, size)
    ensures !IsLive(h, r)
    ensures forall c :: c in Insert(h.blocks, NewBlock(r, size)) <==> c == NewBlock(r, size) || c in h.blocks
    ensures var k := LowerBound(h.blocks, NewBlock(r, size));
      Insert(h.blocks, NewBlock(r, size)) == h.blocks[..k] + [NewBlock(r, size)] + h.blocks[k..]
  {
    AcceptedNotLive(h, r, size);
    InsertUnlessLive(h, r, size);
    InsertedMembers(h, r, size);
  }

  // ---------------------------------------------------------------------------------------------
  // Coverage below the first free index
  // ---------------------------------------------------------------------------------------------

  lemma CoverageGrows(blocks: seq<MemoryBlock>, more: seq<MemoryBlock>, n: nat)
    requires CoveredBelow(blocks, n) && forall b :: b in blocks ==> b in more
    ensures CoveredBelow(more, n)
  {
    forall y: nat | y < n
      ensures Covered(more, y)
    {
      assert Covered(blocks, y);
      var b :| b in blocks && InBlock(b, y);
      assert b in more;
    }
  }

  /** A recorded block keeps the bytes below the first free index covered. */
  lemma RecordedKeepsCoverage(h: State, r: nat, size: nat)
    requires Grounded(h) && !IsLive(h, r)
    ensures var h' := Allocated(h, r, size); CoveredBelow(h'.blocks, h'.first)
  {
    var h' := Allocated(h, r, size);
    InsertedMembers(h, r, size);
    CoverageGrows(h.blocks, h'.blocks, h.first);
    forall y: nat | h.first <= y < h'.first
      ensures Covered(h'.blocks, y)
    {
      assert NewBlock(r, size) in h'.blocks && InBlock(NewBlock(r, size), y);
    }
  }

  lemma AllocKeepsSound(h: State, size: nat)
    requires Sound(h) && size > 0
    ensures Sound(Alloc(h, size))
  {
    AllocWellFormed(h, size);
    SearchAccepts(h.blocks, h.first, size);
    var found := Search(h.blocks, h.first, size);
    if found.Some? {
      AcceptedInsert(h, found.value, size);
      RecordedKeepsCoverage(h, found.value, size);
    }
  }

  lemma FreeKeepsGrounded(h: State, pointer: nat)
    requires Grounded(h) && FindOccupied(h.blocks, pointer) < |h.blocks|
    ensures Grounded(Free(h, pointer))
  {
    var k := FindOccupied(h.blocks, pointer);
    var h' := Free(h, pointer);
    FreeWellFormed(h, pointer);
    EraseMembers(h.blocks, k);
    assert h.blocks[k] in h.blocks;
    forall y: nat | y < h'.first
      ensures Covered(h'.blocks, y)
    {
      assert Covered(h.blocks, y);
      var b :| b in h.blocks && InBlock(b, y);
      assert b in h'.blocks;
    }
  }

  lemma FreeKeepsSound(h: State, pointer: nat)
    requires Sound(h) && FindOccupied(h.blocks, pointer) < |h.blocks|
    ensures Sound(Free(h, pointer))
  {
    FreeKeepsGrounded(h, pointer);
    EraseMembers(h.blocks, FindOccupied(h.blocks, pointer));
  }

  // ---------------------------------------------------------------------------------------------
  // First fit
  // ---------------------------------------------------------------------------------------------

  /** Among disjoint blocks only the predecessor of an index can contain it. */
  lemma PredecessorDecides(blocks: seq<MemoryBlock>, y: nat, size: nat)
    requires Ordered(blocks) && Disjoint(blocks)
    ensures Accepts(blocks, y, size) <==> !Covered(blocks, y)
    ensures !Accepts(blocks, y, size) ==> InBlock(blocks[LowerBound(blocks, NewBlock(y, size))], y)
  {
    var k := LowerBound(blocks, NewBlock(y, size));
    forall b | b in blocks && InBlock(b, y)
      ensures k < |blocks| && b == blocks[k]
    {
      var i :| 0 <= i < |blocks| && blocks[i] == b;
      assert i < k ==> Less(blocks[i], NewBlock(y, size));
      assert i > k ==> Less(blocks[k], blocks[i]) && blocks[k] in blocks;
      assert i > k ==> !Overlaps(blocks[k], b);
    }
    if k < |blocks| {
      assert blocks[k] in blocks;
    }
  }

  lemma {:induction false} SearchFindsLowest(blocks: seq<MemoryBlock>, current: nat, size: nat, u: nat)
    requires Ordered(blocks) && Disjoint(blocks)
    requires LowestFree(blocks, u) && current <= u
    ensures Search(blocks, current, size) == if u + size < MAX_BUFFER_SIZE then Some(u) else None
    decreases MAX_BUFFER_SIZE - current
  {
    PredecessorDecides(blocks, current, size);
    if current + size < MAX_BUFFER_SIZE && current < u {
      var b := blocks[LowerBound(blocks, NewBlock(current, size))];
      assert b.GetEnd() <= u by {
        if u < b.GetEnd() {
          assert b in blocks && InBlock(b, u);
        }
      }
      SearchFindsLowest(blocks, b.GetEnd(), size, u);
    }
  }

  /** From disjoint blocks the search returns the lowest free byte, and fails exactly when that
      byte plus the size reaches the end of the buffer. */
  lemma AllocIsFirstFit(h: State, size: nat, u: nat)
    requires Grounded(h) && Disjoint(h.blocks) && LowestFree(h.blocks, u)
    ensures Search(h.blocks, h.first, size) == if u + size < MAX_BUFFER_SIZE then Some(u) else None
  {
    assert h.first <= u;
    SearchFindsLowest(h.blocks, h.first, size, u);
  }

  /** The search from covered ground, overlapping blocks or not: every byte below the result is
      covered, and without a result every byte where the request would fit. */
  lemma {:induction false} SearchCovers(h: State, current: nat, size: nat)
    requires WellFormed(h) && CoveredBelow(h.blocks, current)
    ensures match Search(h.blocks, current, size)
      case Some(r) => r + size < 262144 && CoveredBelow(h.blocks, r) && Settles(h.blocks, r)
      case None => forall y: nat :: y + size < 262144 ==> Covered(h.blocks, y)
    decreases MAX_BUFFER_SIZE - current
  {
    AcceptsIsSettles(h.blocks, current, size);
    if current + size < MAX_BUFFER_SIZE && !Accepts(h.blocks, current, size) {
      var b := h.blocks[LowerBound(h.blocks, NewBlock(current, size))];
      assert b in h.blocks;
      assert forall y: nat :: current <= y < b.GetEnd() ==> InBlock(b, y);
      SearchCovers(h, b.GetEnd(), size);
    }
  }

  /** Where Alloc lands and when it throws in any state that calls reach. */
  lemma AllocAnywhere(h: State, size: nat)
    requires Grounded(h)
    ensures match Search(h.blocks, h.first, size)
      case Some(r) => h.first <= r && r + size < 262144 && CoveredBelow(h.blocks, r) && Settles(h.blocks, r)
      case None => forall y: nat :: y + size < 262144 ==> Covered(h.blocks, y)
  {
    SearchCovers(h, h.first, size);
  }

  /** A new allocator serves exactly the requests that the buffer can hold, from index 0. */
  lemma NewAllocatorServes(size: nat)
    ensures Search(EMPTY.blocks, EMPTY.first, size) == if size < 262144 then Some(0) else None
  {
  }

  lemma {:induction false} FindLowestFree(h: State, from: nat) returns (u: nat)
    requires WellFormed(h) && CoveredBelow(h.blocks, from)
    ensures LowestFree(h.blocks, u)
    decreases MAX_BUFFER_SIZE - from
  {
    if Covered(h.blocks, from) {
      u := FindLowestFree(h, from + 1);
    } else {
      u := from;
    }
  }

  // ---------------------------------------------------------------------------------------------
  // Empty blocks
  // ---------------------------------------------------------------------------------------------

  /** A block that starts at an uncovered byte is empty. */
  lemma LiveAtFreeIsEmpty(h: State, u: nat)
    requires WellFormed(h) && !Covered(h.blocks, u)
    ensures IsLive(h, u) <==> NewBlock(u, 0) in h.blocks
  {
    if IsLive(h, u) {
      var b :| b in h.blocks && b.GetStart() == u;
      assert !InBlock(b, u);
      assert b == NewBlock(u, 0);
    } else {
      assert NewBlock(u, 0).GetStart() == u;
    }
  }

  lemma EmptyIsFree(h: State, u: nat)
    requires WellFormed(h) && Disjoint(h.blocks) && NewBlock(u, 0) in h.blocks
    ensures !Covered(h.blocks, u)
  {
    var z := NewBlock(u, 0);
    forall b | b in h.blocks && InBlock(b, u)
      ensures b == z
    {
      if b.GetStart() == u {
        OneBlockPerStart(h.blocks, b, z);
      } else {
        assert Overlaps(b, z);
      }
    }
  }

  /** When a positive request is recorded: exactly when no empty block starts at the lowest free
      byte. */
  lemma AllocRecordedIff(h: State, size: nat, u: nat)
    requires Grounded(h) && Disjoint(h.blocks) && LowestFree(h.blocks, u)
    requires size > 0 && u + size < MAX_BUFFER_SIZE
    ensures NewBlock(u, size) in Alloc(h, size).blocks <==> NewBlock(u, 0) !in h.blocks
  {
    AllocIsFirstFit(h, size, u);
    LiveAtFreeIsEmpty(h, u);
    InsertUnlessLive(h, u, size);
    if IsLive(h, u) {
      if NewBlock(u, size) in h.blocks {
        OneBlockPerStart(h.blocks, NewBlock(u, size), NewBlock(u, 0));
      }
    } else {
      InsertedMembers(h, u, size);
    }
  }

  /** When coverage below the first free index survives a request of any size: always, but for a
      positive request that fits at the first free index while an empty block starts there. */
  lemma CoverageSurvivesIff(h: State, size: nat)
    requires Grounded(h) && Disjoint(h.blocks)
    ensures CoveredBelow(Alloc(h, size).blocks, Alloc(h, size).first) <==>
            !(size > 0 && h.first + size < MAX_BUFFER_SIZE && NewBlock(h.first, 0) in h.blocks)
  {
    var u := FindLowestFree(h, 0);
    AllocIsFirstFit(h, size, u);
    LiveAtFreeIsEmpty(h, u);
    InsertUnlessLive(h, u, size);
    if NewBlock(h.first, 0) in h.blocks {
      EmptyIsFree(h, h.first);
      assert u == h.first;
      assert size > 0 && u + size < MAX_BUFFER_SIZE ==> !Covered(Alloc(h, size).blocks, u);
    } else if u + size < MAX_BUFFER_SIZE && !IsLive(h, u) {
      RecordedKeepsCoverage(h, u, size);
    }
  }

  // ---------------------------------------------------------------------------------------------
  // When a call keeps the blocks disjoint
  // ---------------------------------------------------------------------------------------------

  /** Some live block starts inside the size bytes from r on. */
  ghost predicate StartsInside(blocks: seq<MemoryBlock>, r: nat, size: nat) {
    exists b :: b in blocks && r <= b.GetStart() < r + size
  }

  /** A new block at an uncovered byte meets a live block exactly when a live block starts inside
      it: the search looks at the predecessor only. */
  lemma MeetsIffStartsInside(h: State, size: nat, u: nat)
    requires WellFormed(h) && !Covered(h.blocks, u) && !IsLive(h, u)
    ensures Meets(h.blocks, NewBlock(u, size)) <==> StartsInside(h.blocks, u, size)
  {
    if StartsInside(h.blocks, u, size) {
      var b :| b in h.blocks && u <= b.GetStart() < u + size;
      assert Overlaps(b, NewBlock(u, size));
    }
    forall b | b in h.blocks && Overlaps(b, NewBlock(u, size))
      ensures u <= b.GetStart() < u + size
    {
      assert !InBlock(b, u);
    }
  }

  /** One call of Alloc, of any size, keeps disjoint blocks disjoint exactly when no live block
      starts in the size bytes from the lowest free byte on, unless it throws or an empty block
      keeps it from being recorded. */
  lemma AllocDisjointIff(h: State, size: nat, u: nat)
    requires Grounded(h) && Disjoint(h.blocks) && LowestFree(h.blocks, u)
    ensures Disjoint(Alloc(h, size).blocks) <==>
            (u + size < MAX_BUFFER_SIZE && !IsLive(h, u) ==> !StartsInside(h.blocks, u, size))
  {
    AllocIsFirstFit(h, size, u);
    InsertUnlessLive(h, u, size);
    if u + size < MAX_BUFFER_SIZE && !IsLive(h, u) {
      var added := NewBlock(u, size);
      InsertedMembers(h, u, size);
      MeetsIffStartsInside(h, size, u);
      assert forall b :: b in h.blocks ==> b.GetStart() != u;
      assert added in Alloc(h, size).blocks;
      if Meets(h.blocks, added) {
        var b :| b in h.blocks && Overlaps(b, added);
        assert b in Alloc(h, size).blocks;
      }
    }
  }

  lemma FreeKeepsDisjoint(h: State, pointer: nat)
    requires WellFormed(h) && Disjoint(h.blocks) && FindOccupied(h.blocks, pointer) < |h.blocks|
    ensures Disjoint(Free(h, pointer).blocks)
  {
    EraseMembers(h.blocks, FindOccupied(h.blocks, pointer));
  }

  /** Freeing a live pointer removes the block that starts there and nothing else. */
  lemma FreeRemovesBlock(h: State, pointer: nat)
    requires WellFormed(h) && IsLive(h, pointer)
    ensures FindOccupied(h.blocks, pointer) < |h.blocks|
    ensures forall b :: b in Free(h, pointer).blocks <==> b in h.blocks && b.GetStart() != pointer
  {
    FindsLive(h, pointer);
    var k := FindOccupied(h.blocks, pointer);
    EraseMembers(h.blocks, k);
    forall b | b in h.blocks && b != h.blocks[k]
      ensures b.GetStart() != pointer
    {
      if b.GetStart() == pointer {
        OneBlockPerStart(h.blocks, b, h.blocks[k]);
      }
    }
  }

  /** ReAlloc replaces the block at the pointer by the new one (which an empty block at its start
      keeps out); when no room is found it changes nothing. */
  lemma ReAllocReplacesBlock(h: State, pointer: nat, size: nat)
    requires WellFormed(h) && IsLive(h, pointer)
    ensures var found := Search(h.blocks, h.first, size);
      if found.None? then ReAlloc(h, pointer, size) == h
      else forall b :: b in ReAlloc(h, pointer, size).blocks <==>
        b.GetStart() != pointer && (b in h.blocks || (b == NewBlock(found.value, size) && !IsLive(h, found.value)))
  {
    var found := Search(h.blocks, h.first, size);
    if found.Some? {
      InsertUnlessLive(h, found.value, size);
      AllocWellFormed(h, size);
      AllocKeepsLive(h, size, pointer);
      FreeRemovesBlock(Alloc(h, size), pointer);
      if !IsLive(h, found.value) {
        InsertedMembers(h, found.value, size);
      }
    }
  }

  /** Some block other than the one at the pointer starts inside the size bytes from r on. */
  ghost predicate OtherStartsInside(blocks: seq<MemoryBlock>, pointer: nat, r: nat, size: nat) {
    exists b :: b in blocks && b.GetStart() != pointer && r <= b.GetStart() < r + size
  }

  /** One call of ReAlloc keeps disjoint blocks disjoint exactly when no block but the moved one
      starts in the size bytes from the lowest free byte on, with the same provisos. */
  lemma ReAllocDisjointIff(h: State, pointer: nat, size: nat, u: nat)
    requires Grounded(h) && Disjoint(h.blocks) && IsLive(h, pointer) && LowestFree(h.blocks, u)
    ensures Disjoint(ReAlloc(h, pointer, size).blocks) <==>
            (u + size < MAX_BUFFER_SIZE && !IsLive(h, u) ==> !OtherStartsInside(h.blocks, pointer, u, size))
  {
    AllocIsFirstFit(h, size, u);
    ReAllocReplacesBlock(h, pointer, size);
    if u + size < MAX_BUFFER_SIZE && !IsLive(h, u) {
      var added := NewBlock(u, size);
      var blocks := ReAlloc(h, pointer, size).blocks;
      assert added in blocks;
      if OtherStartsInside(h.blocks, pointer, u, size) {
        var b :| b in h.blocks && b.GetStart() != pointer && u <= b.GetStart() < u + size;
        assert b in blocks && b != added && Overlaps(b, added);
      } else {
        forall b | b in blocks && b != added
          ensures !Overlaps(b, added)
        {
          assert !InBlock(b, u);
        }
      }
    }
  }

  // ---------------------------------------------------------------------------------------------
  // When the copy of a reallocation is defined
  // ---------------------------------------------------------------------------------------------

  /** The two ranges of a copy do not overlap. */
  predicate Apart(target: nat, source: nat, count: nat) {
    target + count <= source || source + count <= target
  }

  /** The copy has apart ranges exactly when the old block does not start inside its target behind
      the first byte. */
  lemma CopyApartIff(h: State, was: MemoryBlock, size: nat, u: nat)
    requires WellFormed(h) && was in h.blocks && !Covered(h.blocks, u)
    ensures var count := Min(size, was.blockSize);
      Apart(u, was.GetStart(), count) <==> !(u < was.GetStart() < u + count)
  {
    assert !InBlock(was, u);
  }

  // ---------------------------------------------------------------------------------------------
  // Free undoes Alloc
  // ---------------------------------------------------------------------------------------------

  /** The block just allocated is live, and it is found where it was inserted. */
  lemma FindsNew(h: State, r: nat, size: nat)
    requires WellFormed(h) && Positive(h.blocks) && Accepts(h.blocks, r, size)
    ensures var h' := Allocated(h, r, size);
      && IsLive(h', r)
      && FindOccupied(h'.blocks, r) == LowerBound(h.blocks, NewBlock(r, size)) < |h'.blocks|
      && h'.blocks[FindOccupied(h'.blocks, r)] == NewBlock(r, size)
      && Erase(h'.blocks, FindOccupied(h'.blocks, r)) == h.blocks
  {
    var h' := Allocated(h, r, size);
    var k := LowerBound(h.blocks, NewBlock(r, size));
    AcceptedInsert(h, r, size);
    InsertOrdered(h.blocks, NewBlock(r, size));
    assert h'.blocks[k] == NewBlock(r, size);
    assert h'.blocks[k] in h'.blocks;
    FindsLive(h', r);
    SameStart(h'.blocks, k, FindOccupied(h'.blocks, r));
    assert Erase(h'.blocks, k) == h.blocks;
  }

  /** Freeing the block just allocated restores the blocks and the first free index. */
  lemma FreeUndoesAlloc(h: State, size: nat)
    requires Sound(h) && size > 0 && Search(h.blocks, h.first, size).Some?
    ensures var r := Search(h.blocks, h.first, size).value;
      var h' := Alloc(h, size);
      && IsLive(h', r)
      && FindOccupied(h'.blocks, r) < |h'.blocks|
      && WellFormed(h')
      && Free(h', r) == h
  {
    var r := Search(h.blocks, h.first, size).value;
    SearchAccepts(h.blocks, h.first, size);
    AllocWellFormed(h, size);
    FindsNew(h, r, size);
  }

  /** The freed start is where the next request that fits lands, exactly when the nearest of the
      remaining blocks, if any, ends at or before it. */
  lemma FreedIsNextFit(h: State, pointer: nat, size: nat)
    requires WellFormed(h) && IsLive(h, pointer) && pointer <= h.first && pointer + size < 262144
    ensures FindOccupied(h.blocks, pointer) < |h.blocks|
    ensures var f := Free(h, pointer);
      Search(f.blocks, f.first, size) == Some(pointer) <==> Settles(f.blocks, pointer)
  {
    FindsLive(h, pointer);
    FreeWellFormed(h, pointer);
    AcceptsIsSettles(Free(h, pointer).blocks, pointer, size);
  }

  /** The first free index only moves to the freed start, and only down; otherwise it stays. */
  lemma FreeLowersFirst(h: State, pointer: nat)
    requires WellFormed(h) && IsLive(h, pointer)
    ensures FindOccupied(h.blocks, pointer) < |h.blocks|
    ensures Free(h, pointer).first <= h.first && Free(h, pointer).first <= pointer
    ensures Free(h, pointer).first == h.first || Free(h, pointer).first == pointer
  {
    FindsLive(h, pointer);
  }
}
