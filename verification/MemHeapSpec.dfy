// The memory heap of memheap.c on values: its blocks in address order, the last
// of them the tailer, and its free list in list order.
module MemHeapSpec {
  import opened Common
  import opened Sequences
  import opened Blocks
  import opened Rings

  const HDR := 24    // RT_MEMHEAP_SIZE
  const MIN := 12    // RT_MEMHEAP_MINIALLOC

  // RT_ALIGN(n, 4) on 32-bit operands, then the smallest size.
  function Round(n: nat): nat { Max((n + 3) % U32 / 4 * 4, MIN) }

  datatype Heap = Heap(blocks: seq<Block>, free: seq<int>, pool: nat, available: int, peak: int)

  // MEMITEM_SIZE of block i.
  function Payload(bs: seq<Block>, i: nat): int
    requires i + 1 < |bs|
  {
    bs[i + 1].off - bs[i].off - HDR
  }

  // ----- the invariant -----

  predicate Sound(bs: seq<Block>, i: nat)
    requires i + 1 < |bs|
  {
    bs[i].off % 4 == 0 && (if bs[i].used then MIN else 0) <= Payload(bs, i)
  }

  // The blocks cover the pool without gap or overlap, up to the tailer.
  ghost predicate Tiled(bs: seq<Block>, pool: nat) {
    && |bs| >= 2 && bs[0].off == 0 && HDR <= pool && bs[|bs| - 1] == Block(pool - HDR, true)
    && forall i :: 0 <= i < |bs| - 1 ==> Sound(bs, i)
  }

  // Summed payload of the free blocks, and of the used ones.
  function FreeSum(bs: seq<Block>): int {
    if |bs| < 2 then 0 else (if bs[0].used then 0 else Payload(bs, 0)) + FreeSum(bs[1..])
  }

  function UsedSum(bs: seq<Block>): int {
    if |bs| < 2 then 0 else (if bs[0].used then Payload(bs, 0) else 0) + UsedSum(bs[1..])
  }

  ghost predicate IsFree(bs: seq<Block>, off: int) { exists i :: 0 <= i < |bs| && bs[i].off == off && !bs[i].used }

  // The free list holds every free block once and nothing else.
  ghost predicate Listed(bs: seq<Block>, free: seq<int>) {
    Distinct(free) && forall off: int :: off in free <==> IsFree(bs, off)
  }

  ghost predicate Invariant(h: Heap) {
    && h.pool % 4 == 0 && h.pool < U32
    && Tiled(h.blocks, h.pool) && Coalesced(h.blocks) && Listed(h.blocks, h.free)
    && h.available == FreeSum(h.blocks) && h.pool - h.available <= h.peak
  }

  // ----- the operations -----

  // A pool just initialised, in 32-bit arithmetic.
  function Fresh(pool: nat): Heap
    requires pool < U32
  {
    Heap([Block(0, false), Block((pool + U32 - HDR) % U32, true)], [0], pool, (pool + U32 - 2 * HDR) % U32, 2 * HDR)
  }

  function SizeAt(bs: seq<Block>, off: int): int {
    var i := if off < 0 then |bs| else IndexOf(bs, off);
    if i + 1 < |bs| then Payload(bs, i) else 0
  }

  // The first block of the free list with room for s; |free| for none.
  function FirstFit(bs: seq<Block>, free: seq<int>, s: nat): (j: nat)
    ensures j <= |free|
    ensures j < |free| ==> s <= SizeAt(bs, free[j])
    ensures forall k :: 0 <= k < j ==> SizeAt(bs, free[k]) < s
  {
    if free == [] || s <= SizeAt(bs, free[0]) then 0
    else
      var rest := FirstFit(bs, free[1..], s);
      assert forall k :: 0 < k < 1 + rest ==> free[k] == free[1..][k - 1];
      1 + rest
  }

  function Split(bs: seq<Block>, i: nat, s: nat): seq<Block>
    requires i < |bs|
  {
    bs[..i] + [Block(bs[i].off, true), Block(bs[i].off + HDR + s, false)] + bs[i + 1..]
  }

  predicate Splits(bs: seq<Block>, i: nat, s: nat)
    requires i + 1 < |bs|
  {
    s + HDR + MIN <= Payload(bs, i)
  }

  // rt_memheap_alloc of s bytes from the free block i.
  function Take(h: Heap, i: nat, s: nat): Heap
    requires i + 1 < |h.blocks|
  {
    var off := h.blocks[i].off;
    var rest := Without(h.free, off);
    var left := h.available - if Splits(h.blocks, i, s) then s + HDR else Payload(h.blocks, i);
    Heap(
      if Splits(h.blocks, i, s) then Split(h.blocks, i, s) else h.blocks[i := Block(off, true)],
      if Splits(h.blocks, i, s) then [off + HDR + s] + rest else rest,
      h.pool, left, Max(h.peak, h.pool - left))
  }

  // The block rt_memheap_alloc takes for s bytes, |blocks| for none.
  function Choice(h: Heap, s: nat): nat {
    var j := FirstFit(h.blocks, h.free, s);
    if s < h.available && j < |h.free| && 0 <= h.free[j] then IndexOf(h.blocks, h.free[j]) else |h.blocks|
  }

  function Alloc(h: Heap, size: nat): (Heap, Option<nat>) {
    var i := Choice(h, Round(size));
    if i + 1 < |h.blocks| then (Take(h, i, Round(size)), Some(h.blocks[i].off + HDR)) else (h, None)
  }

  // Merging the free block i with free neighbours: first into the left one, then
  // with the right one.
  predicate MergesLeft(bs: seq<Block>, i: nat)
    requires i < |bs|
  {
    0 < i && !bs[i - 1].used
  }

  function JoinLeft(bs: seq<Block>, i: nat): seq<Block>
    requires i < |bs|
  {
    if MergesLeft(bs, i) then Drop(bs, i) else bs
  }

  predicate MergesRight(bs: seq<Block>, i: nat) { i + 1 < |bs| && !bs[i + 1].used }

  function JoinRight(bs: seq<Block>, i: nat): seq<Block> {
    if MergesRight(bs, i) then Drop(bs, i + 1) else bs
  }

  function ListRight(bs: seq<Block>, i: nat, free: seq<int>): seq<int> {
    if MergesRight(bs, i) then Without(free, bs[i + 1].off) else free
  }

  function Free(h: Heap, i: nat): Heap
    requires i + 1 < |h.blocks|
  {
    var off := h.blocks[i].off;
    var bs := h.blocks[i := Block(off, false)];
    var left := MergesLeft(bs, i);
    var mid := JoinLeft(bs, i);
    var k := if left then i - 1 else i;
    var rest := ListRight(mid, k, h.free);
    h.(blocks := JoinRight(mid, k),
       free := if left then rest else [off] + rest,
       available := h.available + Payload(h.blocks, i) + (if left then HDR else 0) + (if MergesRight(mid, k) then HDR else 0))
  }

  // The offset ptr + s of a new header, in 32-bit address arithmetic.
  function GrownOff(bs: seq<Block>, i: nat, s: nat): nat
    requires i < |bs|
  {
    (bs[i].off + HDR + s) % U32
  }

  // The test for growing in place; its right-hand side wraps.
  predicate Grows(bs: seq<Block>, i: nat, s: nat)
    requires i + 1 < |bs|
  {
    i + 2 < |bs| && !bs[i + 1].used && (s + MIN) % U32 < Payload(bs, i + 1) + Payload(bs, i)
  }

  // All of it is 32-bit arithmetic.
  function Grow(h: Heap, i: nat, s: nat): Heap
    requires i + 2 < |h.blocks|
  {
    var off := GrownOff(h.blocks, i, s);
    var left := (h.available - (s - Payload(h.blocks, i))) % U32;
    Heap(h.blocks[i + 1 := Block(off, false)], [off] + Without(h.free, h.blocks[i + 1].off), h.pool, left, Max(h.peak, (h.pool - left) % U32))
  }

  // Cutting block i down to s bytes.
  function Shrink(h: Heap, i: nat, s: nat): Heap
    requires i + 1 < |h.blocks|
  {
    var bs := Split(h.blocks, i, s);
    var r := JoinRight(bs, i + 1);
    h.(blocks := r,
       free := [h.blocks[i].off + HDR + s] + ListRight(bs, i + 1, h.free),
       available := h.available + (Payload(h.blocks, i) - s - HDR) + if MergesRight(bs, i + 1) then HDR else 0)
  }

  // rt_memheap_realloc of the used block i.
  function Realloc(h: Heap, i: nat, newsize: nat): (Heap, Option<nat>)
    requires i + 1 < |h.blocks|
  {
    var s := Round(newsize);
    var ptr := Some(h.blocks[i].off + HDR);
    if newsize == 0 then (Free(h, i), None)
    else if Payload(h.blocks, i) < s then
      if Grows(h.blocks, i, s) then (Grow(h, i, s), ptr)
      else Move(h, h.blocks[i].off, s)
    else if Payload(h.blocks, i) <= s + HDR + MIN then (h, ptr)
    else (Shrink(h, i, s), ptr)
  }

  function Move(h: Heap, off: nat, s: nat): (Heap, Option<nat>) {
    var (m, p) := Alloc(h, s);
    var k := IndexOf(m.blocks, off);
    if p.None? || |m.blocks| <= k + 1 then (m, p) else (Free(m, k), p)
  }
}
