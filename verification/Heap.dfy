/** The bookkeeping of the allocator: an ordered set of occupied blocks, keyed by the negated
    start, and the lowest index that may be free. */
module Heap {
  import opened Common

  const MAX_BUFFER_SIZE := 262144

  datatype MemoryBlock = MemoryBlock(start_: int, blockSize: nat) {
    function GetStart(): int { -start_ }
    function GetEnd(): int { GetStart() + blockSize }
  }

  function NewBlock(start: nat, size: nat): MemoryBlock {
    MemoryBlock(0 - start, size)
  }

  predicate Less(first: MemoryBlock, second: MemoryBlock) {
    first.start_ < second.start_
  }

  // ---------------------------------------------------------------------------------------------
  // The ordered set
  // ---------------------------------------------------------------------------------------------

  ghost predicate Ordered(s: seq<MemoryBlock>) {
    forall i, j :: 0 <= i < j < |s| ==> Less(s[i], s[j])
  }

  /** The position of the first block not ordered before key. As keys are negated starts, that is
      the block with the greatest start not above the start of key. */
  function LowerBound(s: seq<MemoryBlock>, key: MemoryBlock): (k: nat)
    ensures k <= |s|
    ensures forall i :: 0 <= i < k ==> Less(s[i], key)
    ensures k < |s| ==> !Less(s[k], key)
  {
    if s == [] || !Less(s[0], key) then 0 else 1 + LowerBound(s[1..], key)
  }

  /** Insertion does nothing when a block of the same key is there. */
  function Insert(s: seq<MemoryBlock>, b: MemoryBlock): seq<MemoryBlock> {
    var k := LowerBound(s, b);
    if k < |s| && !Less(b, s[k]) then s else s[..k] + [b] + s[k..]
  }

  function Erase(s: seq<MemoryBlock>, k: nat): seq<MemoryBlock>
    requires k < |s|
  {
    s[..k] + s[k + 1..]
  }

  // ---------------------------------------------------------------------------------------------
  // The operations
  // ---------------------------------------------------------------------------------------------

  datatype State = State(first: nat, blocks: seq<MemoryBlock>)

  const EMPTY := State(0, [])

  /** Blocks in key order, inside the buffer. */
  ghost predicate WellFormed(h: State) {
    && Ordered(h.blocks)
    && forall b :: b in h.blocks ==> 0 <= b.GetStart() && b.GetEnd() < MAX_BUFFER_SIZE
  }

  /** The search loop from index current on. */
  function Search(blocks: seq<MemoryBlock>, current: nat, size: nat): (r: Option<nat>)
    ensures r.Some? ==> current <= r.value && r.value + size < MAX_BUFFER_SIZE
    decreases MAX_BUFFER_SIZE - current
  {
    if current + size >= MAX_BUFFER_SIZE then None
    else
      var k := LowerBound(blocks, NewBlock(current, size));
      if k == |blocks| || blocks[k].GetEnd() <= current then Some(current)
      else Search(blocks, blocks[k].GetEnd(), size)
  }

  function Allocated(h: State, r: nat, size: nat): State {
    State(if h.first == r then r + size else h.first, Insert(h.blocks, NewBlock(r, size)))
  }

  function Alloc(h: State, size: nat): State {
    match Search(h.blocks, h.first, size)
    case None => h
    case Some(r) => Allocated(h, r, size)
  }

  function FindOccupied(blocks: seq<MemoryBlock>, pointer: nat): nat {
    LowerBound(blocks, NewBlock(pointer, 1))
  }

  function Min(x: int, y: int): (m: int)
    ensures m <= x && m <= y && (m == x || m == y)
  {
    if x < y then x else y
  }

  function Free(h: State, pointer: nat): State
    requires FindOccupied(h.blocks, pointer) < |h.blocks|
    requires forall b :: b in h.blocks ==> 0 <= b.GetStart()
  {
    var k := FindOccupied(h.blocks, pointer);
    State(Min(h.blocks[k].GetStart(), h.first), Erase(h.blocks, k))
  }

  ghost predicate IsLive(h: State, pointer: nat) {
    exists b :: b in h.blocks && b.GetStart() == pointer
  }

  ghost predicate Overlaps(b: MemoryBlock, c: MemoryBlock) {
    b.GetStart() < c.GetEnd() && c.GetStart() < b.GetEnd()
  }

  /** Some block shares bytes with c. */
  ghost predicate Meets(blocks: seq<MemoryBlock>, c: MemoryBlock) {
    exists b :: b in blocks && Overlaps(b, c)
  }

  // ---------------------------------------------------------------------------------------------
  // The set operations keep the order
  // ---------------------------------------------------------------------------------------------

  lemma InsertMembers(s: seq<MemoryBlock>, b: MemoryBlock)
    ensures forall c :: c in Insert(s, b) ==> c == b || c in s
    ensures forall c :: c in s ==> c in Insert(s, b)
  {
    var k := LowerBound(s, b);
    assert s == s[..k] + s[k..];
  }

  lemma InsertBetween(s: seq<MemoryBlock>, b: MemoryBlock, k: nat)
    requires Ordered(s) && k <= |s|
    requires forall i :: 0 <= i < k ==> Less(s[i], b)
    requires forall i :: k <= i < |s| ==> Less(b, s[i])
    ensures Ordered(s[..k] + [b] + s[k..])
  {
    var t := s[..k] + [b] + s[k..];
    assert t[k] == b;
    assert forall i :: 0 <= i < k ==> t[i] == s[i];
    assert forall i :: k < i < |t| ==> t[i] == s[i - 1];
  }

  lemma InsertOrdered(s: seq<MemoryBlock>, b: MemoryBlock)
    requires Ordered(s)
    ensures Ordered(Insert(s, b))
    ensures forall c :: c in Insert(s, b) ==> c == b || c in s
    ensures forall c :: c in s ==> c in Insert(s, b)
  {
    var k := LowerBound(s, b);
    InsertMembers(s, b);
    if k == |s| || Less(b, s[k]) {
      assert forall i :: k < i < |s| ==> Less(s[k], s[i]);
      InsertBetween(s, b, k);
    }
  }

  lemma EraseMembers(s: seq<MemoryBlock>, k: nat)
    requires Ordered(s) && k < |s|
    ensures Ordered(Erase(s, k))
    ensures forall c :: c in Erase(s, k) <==> c in s && c != s[k]
  {
    forall c | c in s && c != s[k]
      ensures c in Erase(s, k)
    {
      var i :| 0 <= i < |s| && s[i] == c;
      assert Erase(s, k)[if i < k then i else i - 1] == c;
    }
  }

  lemma LowerBoundAt(s: seq<MemoryBlock>, key: MemoryBlock, i: nat)
    requires Ordered(s) && i < |s| && s[i].start_ == key.start_
    ensures LowerBound(s, key) == i
  {
  }

  /** b is the block with the greatest start not above y. */
  ghost predicate Nearest(blocks: seq<MemoryBlock>, b: MemoryBlock, y: int) {
    && b in blocks && b.GetStart() <= y
    && forall c :: c in blocks && c.GetStart() <= y ==> c.GetStart() <= b.GetStart()
  }

  /** The position found is that of the nearest block, and past the end when every block starts
      above the index. */
  lemma FindsNearest(blocks: seq<MemoryBlock>, key: MemoryBlock)
    requires Ordered(blocks)
    ensures var k := LowerBound(blocks, key);
      && (k < |blocks| ==> forall b :: Nearest(blocks, b, key.GetStart()) <==> b == blocks[k])
      && (k == |blocks| ==> forall b :: !Nearest(blocks, b, key.GetStart()))
  {
    var k := LowerBound(blocks, key);
    forall b | b in blocks && b.GetStart() <= key.GetStart()
      ensures k < |blocks| && b.GetStart() <= blocks[k].GetStart()
      ensures b.GetStart() == blocks[k].GetStart() ==> b == blocks[k]
    {
      var i :| 0 <= i < |blocks| && blocks[i] == b;
      assert i > k ==> Less(blocks[k], blocks[i]);
    }
    if k < |blocks| {
      assert blocks[k] in blocks;
    }
  }

  /** A live pointer is found as the block that starts there. */
  lemma FindsLive(h: State, pointer: nat)
    requires Ordered(h.blocks) && IsLive(h, pointer)
    ensures FindOccupied(h.blocks, pointer) < |h.blocks|
    ensures h.blocks[FindOccupied(h.blocks, pointer)].GetStart() == pointer
  {
    var i :| 0 <= i < |h.blocks| && h.blocks[i].GetStart() == pointer;
    LowerBoundAt(h.blocks, NewBlock(pointer, 1), i);
  }

  /** The index a search accepts: it fits, and its predecessor ends at or before it. */
  ghost predicate Accepts(blocks: seq<MemoryBlock>, r: nat, size: nat) {
    var k := LowerBound(blocks, NewBlock(r, size));
    k == |blocks| || blocks[k].GetEnd() <= r
  }

  lemma {:induction false} SearchAccepts(blocks: seq<MemoryBlock>, current: nat, size: nat)
    ensures Search(blocks, current, size).Some? ==> Accepts(blocks, Search(blocks, current, size).value, size)
    decreases MAX_BUFFER_SIZE - current
  {
    if current + size < MAX_BUFFER_SIZE {
      var k := LowerBound(blocks, NewBlock(current, size));
      if k < |blocks| && blocks[k].GetEnd() > current {
        SearchAccepts(blocks, blocks[k].GetEnd(), size);
      }
    }
  }

  /** The nearest block, if any, ends at or before y. */
  ghost predicate Settles(blocks: seq<MemoryBlock>, y: int) {
    forall b :: Nearest(blocks, b, y) ==> b.GetEnd() <= y
  }

  lemma AcceptsIsSettles(blocks: seq<MemoryBlock>, y: nat, size: nat)
    requires Ordered(blocks)
    ensures Accepts(blocks, y, size) <==> Settles(blocks, y)
  {
    var k := LowerBound(blocks, NewBlock(y, size));
    FindsNearest(blocks, NewBlock(y, size));
    if k < |blocks| {
      assert Nearest(blocks, blocks[k], y);
    }
  }

  /** Each index of the path is the end of the nearest block of the index before, which it covers. */
  ghost predicate Jumps(blocks: seq<MemoryBlock>, path: seq<int>) {
    forall i :: 0 < i < |path| ==> JumpsTo(blocks, path[i - 1], path[i])
  }

  ghost predicate JumpsTo(blocks: seq<MemoryBlock>, y: int, z: int) {
    y < z && exists b :: Nearest(blocks, b, y) && b.GetEnd() == z
  }

  lemma JumpsFirst(blocks: seq<MemoryBlock>, y: int, path: seq<int>)
    requires path != [] && Jumps(blocks, path) && JumpsTo(blocks, y, path[0])
    ensures Jumps(blocks, [y] + path)
  {
    var longer := [y] + path;
    forall i | 0 < i < |longer|
      ensures JumpsTo(blocks, longer[i - 1], longer[i])
    {
      assert i > 1 ==> longer[i - 1] == path[i - 2] && longer[i] == path[i - 1];
    }
  }

  /** What the search does, overlapping blocks or not: it jumps from block end to block end until it
      settles, which gives the result, or until the request no longer fits, and then there is none. */
  lemma {:induction false} SearchJumps(blocks: seq<MemoryBlock>, current: nat, size: nat) returns (path: seq<int>)
    requires Ordered(blocks)
    ensures path != [] && path[0] == current && Jumps(blocks, path)
    ensures var last := path[|path| - 1];
      if last + size < 262144 then Settles(blocks, last) && Search(blocks, current, size) == Some(last)
      else Search(blocks, current, size) == None
    decreases MAX_BUFFER_SIZE - current
  {
    path := [current];
    AcceptsIsSettles(blocks, current, size);
    if current + size < MAX_BUFFER_SIZE && !Accepts(blocks, current, size) {
      var b := blocks[LowerBound(blocks, NewBlock(current, size))];
      FindsNearest(blocks, NewBlock(current, size));
      assert Nearest(blocks, b, current) && JumpsTo(blocks, current, b.GetEnd());
      var rest := SearchJumps(blocks, b.GetEnd(), size);
      JumpsFirst(blocks, current, rest);
      path := [current] + rest;
    }
  }

  lemma AllocWellFormed(h: State, size: nat)
    requires WellFormed(h)
    ensures WellFormed(Alloc(h, size))
  {
    var r := Search(h.blocks, h.first, size);
    if r.Some? {
      InsertOrdered(h.blocks, NewBlock(r.value, size));
    }
  }

  lemma FreeWellFormed(h: State, pointer: nat)
    requires WellFormed(h) && FindOccupied(h.blocks, pointer) < |h.blocks|
    ensures WellFormed(Free(h, pointer))
  {
    EraseMembers(h.blocks, FindOccupied(h.blocks, pointer));
  }

  lemma AllocKeepsLive(h: State, size: nat, pointer: nat)
    requires WellFormed(h) && IsLive(h, pointer)
    ensures IsLive(Alloc(h, size), pointer)
  {
    var r := Search(h.blocks, h.first, size);
    if r.Some? {
      InsertOrdered(h.blocks, NewBlock(r.value, size));
    }
  }

  /** ReAlloc: allocate first, then free the old block; nothing happens when Alloc throws. */
  function ReAlloc(h: State, pointer: nat, size: nat): State
    requires WellFormed(h) && IsLive(h, pointer)
  {
    match Search(h.blocks, h.first, size)
    case None => h
    case Some(r) =>
      assert FindOccupied(Alloc(h, size).blocks, pointer) < |Alloc(h, size).blocks| && WellFormed(Alloc(h, size)) by {
        AllocWellFormed(h, size);
        AllocKeepsLive(h, size, pointer);
        FindsLive(Alloc(h, size), pointer);
      }
      Free(Alloc(h, size), pointer)
  }
}
