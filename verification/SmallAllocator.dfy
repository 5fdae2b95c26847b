/** The allocator object: the buffer, the lowest index that may be free, and the occupied blocks.
    Pointers are offsets into the buffer; None stands for the bad_alloc exception. */
module SmallAllocator {
  import opened Common
  import opened FirstFit
  import opened Heap

  /** The bytes after count bytes were copied from source to target. */
  ghost function Copied(bytes: seq<bv8>, target: nat, source: nat, count: nat): (r: seq<bv8>)
    ensures |r| == |bytes|
  {
    if target + count <= |bytes| && source + count <= |bytes| then
      bytes[..target] + bytes[source..source + count] + bytes[target + count..]
    else bytes
  }

  /** What a copy is allowed to do: nothing outside its target changes, and the target receives
      the source bytes when the two ranges are apart. */
  ghost predicate CopyEffect(before: seq<bv8>, after: seq<bv8>, target: nat, source: nat, count: nat) {
    && |after| == |before| && target + count <= |before|
    && after[..target] == before[..target]
    && after[target + count..] == before[target + count..]
    && (Apart(target, source, count) ==> after == Copied(before, target, source, count))
  }

  /** What a reallocation does to the bytes of a block of oldSize bytes at source: the first
      min(size, oldSize) of them arrive at target when the two ranges are apart, and no other byte
      of the buffer changes in any case. */
  ghost predicate BytesMove(before: seq<bv8>, after: seq<bv8>, target: nat, source: nat, size: nat, oldSize: nat) {
    && |after| == |before|
    && (forall y :: 0 <= y < |before| && !(target <= y < target + size && y < target + oldSize) ==>
          after[y] == before[y])
    && (|| target + size <= source || target + oldSize <= source
        || source + size <= target || source + oldSize <= target
        ==> forall y :: target <= y < target + size && y < target + oldSize ==>
              y < |before| && source + (y - target) < |before| && after[y] == before[source + (y - target)])
  }

  lemma CopyMovesBytes(before: seq<bv8>, after: seq<bv8>, target: nat, source: nat, size: nat, oldSize: nat)
    requires target + Min(size, oldSize) <= |before| && source + Min(size, oldSize) <= |before|
    requires CopyEffect(before, after, target, source, Min(size, oldSize))
    ensures BytesMove(before, after, target, source, size, oldSize)
  {
    var count := Min(size, oldSize);
    forall y | 0 <= y < |before| && !(target <= y < target + count)
      ensures after[y] == before[y]
    {
      if y < target {
        assert after[..target][y] == before[..target][y];
      } else {
        assert after[target + count..][y - (target + count)] == before[target + count..][y - (target + count)];
      }
    }
    if Apart(target, source, count) {
      CopyMovesContents(before, target, source, count);
      forall y | target <= y < target + count
        ensures after[y] == before[source + (y - target)]
      {
        assert after[target..target + count][y - target] == before[source..source + count][y - target];
      }
    }
  }

  lemma IsCopied(bytes: seq<bv8>, after: seq<bv8>, target: nat, source: nat, count: nat)
    requires |after| == |bytes| && target + count <= |bytes| && source + count <= |bytes|
    requires forall i :: 0 <= i < |bytes| && !(target <= i < target + count) ==> after[i] == bytes[i]
    requires forall i :: target <= i < target + count ==> after[i] == bytes[source + (i - target)]
    ensures after == Copied(bytes, target, source, count)
  {
  }

  /** The copied bytes arrive. */
  lemma CopyMovesContents(bytes: seq<bv8>, target: nat, source: nat, count: nat)
    requires target + count <= |bytes| && source + count <= |bytes|
    ensures Copied(bytes, target, source, count)[target..target + count] == bytes[source..source + count]
  {
  }

  /** The bytes of block b are the same before and after. */
  ghost predicate SameBytes(before: seq<bv8>, after: seq<bv8>, b: MemoryBlock) {
    && |before| == |after|
    && forall i :: 0 <= i < |before| && b.GetStart() <= i < b.GetEnd() ==> before[i] == after[i]
  }

  /** The copy leaves block b as it was, whatever the bytes are. */
  ghost predicate CopyKeeps(b: MemoryBlock, target: nat, source: nat, count: nat) {
    forall bytes: seq<bv8> :: |bytes| == MAX_BUFFER_SIZE ==> SameBytes(bytes, Copied(bytes, target, source, count), b)
  }

  lemma CopyLeavesRest(bytes: seq<bv8>, target: nat, source: nat, count: nat)
    ensures forall i :: 0 <= i < |bytes| && !(target <= i < target + count) ==>
      Copied(bytes, target, source, count)[i] == bytes[i]
  {
  }

  lemma OutsideTargetKept(b: MemoryBlock, target: nat, source: nat, count: nat)
    requires b.GetEnd() <= target || target + count <= b.GetStart()
    ensures CopyKeeps(b, target, source, count)
  {
    forall bytes: seq<bv8> | |bytes| == MAX_BUFFER_SIZE
      ensures SameBytes(bytes, Copied(bytes, target, source, count), b)
    {
      CopyLeavesRest(bytes, target, source, count);
    }
  }

  lemma CopiedByte(bytes: seq<bv8>, target: nat, source: nat, count: nat, y: nat)
    requires target + count <= |bytes| && source + count <= |bytes| && target <= y < target + count
    ensures Copied(bytes, target, source, count)[y] == bytes[source + (y - target)]
  {
  }

  function Marked(y: nat): (bytes: seq<bv8>)
    ensures |bytes| == MAX_BUFFER_SIZE
    ensures forall i :: 0 <= i < |bytes| ==> bytes[i] == if i == y then 1 else 0
  {
    seq(MAX_BUFFER_SIZE, i => if i == y then 1 else 0)
  }

  lemma DifferentByte(before: seq<bv8>, after: seq<bv8>, b: MemoryBlock)
    requires 0 <= b.GetStart() < |before| == |after| && b.blockSize > 0
    requires before[b.GetStart()] != after[b.GetStart()]
    ensures !SameBytes(before, after, b)
  {
  }

  /** A byte that differs from all others shows the change. */
  lemma InsideTargetChanged(b: MemoryBlock, target: nat, source: nat, count: nat)
    requires target != source && target + count <= MAX_BUFFER_SIZE && source + count <= MAX_BUFFER_SIZE
    requires target <= b.GetStart() < target + count && b.blockSize > 0
    ensures !CopyKeeps(b, target, source, count)
  {
    var y := b.GetStart();
    CopiedByte(Marked(y), target, source, count, y);
    DifferentByte(Marked(y), Copied(Marked(y), target, source, count), b);
  }

  /** The copy of a reallocation leaves another block as it was, whatever the bytes are, exactly
      when that block does not start inside the copied bytes. */
  lemma CopyKeepsBlockIff(h: State, was: MemoryBlock, size: nat, u: nat, b: MemoryBlock)
    requires WellFormed(h) && was in h.blocks && !Covered(h.blocks, u) && u + size < MAX_BUFFER_SIZE
    requires b in h.blocks && b != was && b.blockSize > 0
    ensures var count := Min(size, was.blockSize);
      CopyKeeps(b, u, was.GetStart(), count) <==> !(u <= b.GetStart() < u + count)
  {
    var count := Min(size, was.blockSize);
    assert !InBlock(was, u) && !InBlock(b, u);
    if u <= b.GetStart() < u + count {
      InsideTargetChanged(b, u, was.GetStart(), count);
    } else {
      OutsideTargetKept(b, u, was.GetStart(), count);
    }
  }

  class SmallAllocator {
    const buffer: array<bv8>
    var firstFreeIndex: nat
    var occupiedBlocks: seq<MemoryBlock>

    ghost function Model(): State
      reads this
    {
      State(firstFreeIndex, occupiedBlocks)
    }

    ghost predicate Valid()
      reads this
    {
      buffer.Length == MAX_BUFFER_SIZE && WellFormed(Model())
    }

    constructor ()
      ensures Valid() && fresh(buffer) && Model() == EMPTY
      ensures forall i :: 0 <= i < buffer.Length ==> buffer[i] == 0
    {
      buffer := new bv8[MAX_BUFFER_SIZE](i => 0);
      firstFreeIndex := 0;
      occupiedBlocks := [];
    }

    method Alloc(size: nat) returns (r: Option<nat>)
      requires Valid()
      modifies this
      ensures Valid()
      ensures r == Search(old(occupiedBlocks), old(firstFreeIndex), size)
      ensures Model() == Heap.Alloc(old(Model()), size)
      ensures match r
        case None => firstFreeIndex == old(firstFreeIndex) && occupiedBlocks == old(occupiedBlocks)
        case Some(p) =>
          && firstFreeIndex == (if old(firstFreeIndex) == p then p + size else old(firstFreeIndex))
          && forall b :: b in occupiedBlocks <==>
               b in old(occupiedBlocks) || (b == NewBlock(p, size) && !IsLive(old(Model()), p))
    {
      AllocWellFormed(Model(), size);
      AllocRecords(Model(), size);
      var current := firstFreeIndex;
      while true
        invariant Model() == old(Model())
        invariant firstFreeIndex <= current
        invariant Search(occupiedBlocks, firstFreeIndex, size) == Search(occupiedBlocks, current, size)
        decreases MAX_BUFFER_SIZE - current
      {
        var newBlock := NewBlock(current, size);
        var newBlockEnd := newBlock.GetEnd();
        if newBlockEnd >= MAX_BUFFER_SIZE {
          break;
        }
        var it := LowerBound(occupiedBlocks, newBlock);
        var canBeOccupied := it == |occupiedBlocks| || occupiedBlocks[it].GetEnd() <= current;
        if canBeOccupied {
          if firstFreeIndex == current {
            firstFreeIndex := newBlockEnd;
          }
          occupiedBlocks := Insert(occupiedBlocks, newBlock);
          return Some(current);
        }
        current := occupiedBlocks[it].GetEnd();
      }
      r := None;
    }

    method Free(pointer: nat)
      requires Valid() && FindOccupied(occupiedBlocks, pointer) < |occupiedBlocks|
      modifies this
      ensures Valid()
      ensures Model() == Heap.Free(old(Model()), pointer)
      ensures forall b :: Nearest(old(occupiedBlocks), b, pointer) ==>
        && firstFreeIndex == (if b.GetStart() < old(firstFreeIndex) then b.GetStart() else old(firstFreeIndex))
        && forall c :: c in occupiedBlocks <==> c in old(occupiedBlocks) && c != b
    {
      FreeWellFormed(Model(), pointer);
      FindsNearest(occupiedBlocks, NewBlock(pointer, 1));
      EraseMembers(occupiedBlocks, FindOccupied(occupiedBlocks, pointer));
      var it := FindOccupied(occupiedBlocks, pointer);
      firstFreeIndex := Min(occupiedBlocks[it].GetStart(), firstFreeIndex);
      occupiedBlocks := Erase(occupiedBlocks, it);
    }

    /** The library's memcpy: it copies when the two ranges do not overlap, and writes nothing
        outside the target range in any case. */
    method MemCpy(target: nat, source: nat, count: nat)
      requires target + count <= buffer.Length && source + count <= buffer.Length
      modifies buffer
      ensures CopyEffect(old(buffer[..]), buffer[..], target, source, count)
    {
      ghost var bytes := buffer[..];
      for k := 0 to count
        invariant forall i :: 0 <= i < buffer.Length && !(target <= i < target + k) ==> buffer[i] == bytes[i]
        invariant Apart(target, source, count) ==>
          forall i :: target <= i < target + k ==> buffer[i] == bytes[source + (i - target)]
      {
        buffer[target + k] := buffer[source + k];
      }
      assert buffer[..target] == bytes[..target];
      assert buffer[target + count..] == bytes[target + count..];
      if Apart(target, source, count) {
        IsCopied(bytes, buffer[..], target, source, count);
      }
    }

    /** The block set and the bytes after a reallocation. */
    method ReAlloc(pointer: nat, size: nat) returns (r: Option<nat>)
      requires Valid() && IsLive(Model(), pointer)
      modifies this, buffer
      ensures Valid()
      ensures r == Search(old(occupiedBlocks), old(firstFreeIndex), size)
      ensures Model() == Heap.ReAlloc(old(Model()), pointer, size)
      ensures r.None? ==> Model() == old(Model()) && buffer[..] == old(buffer[..])
      ensures r.Some? ==> forall b :: b in old(occupiedBlocks) && b.GetStart() == pointer ==>
        BytesMove(old(buffer[..]), buffer[..], r.value, pointer, size, b.blockSize)
    {
      FindsLive(Model(), pointer);
      AllocKeepsLive(Model(), size, pointer);
      ghost var was := occupiedBlocks[FindOccupied(occupiedBlocks, pointer)];
      ghost var blocks := occupiedBlocks;
      assert was in occupiedBlocks;
      var previousSize := occupiedBlocks[FindOccupied(occupiedBlocks, pointer)].blockSize;
      ghost var bytes := buffer[..];
      r := Alloc(size);
      if r.None? {
        return;
      }
      assert buffer[..] == bytes;
      MemCpy(r.value, pointer, Min(size, previousSize));
      CopyMovesBytes(bytes, buffer[..], r.value, pointer, size, previousSize);
      forall b | b in blocks && b.GetStart() == pointer
        ensures b == was
      {
        OneBlockPerStart(blocks, b, was);
      }
      FindsLive(Model(), pointer);
      Free(pointer);
    }
  }
}
