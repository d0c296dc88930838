// The small-memory heap of mem.c on values: the heap is the ordered list of its
// blocks, and every operation of the allocator is a function on that list.
module SmallMemSpec {
  import opened Common
  import opened Blocks

  const HDR := 12    // size of the in-band header, already a multiple of 4
  const MIN := 12    // smallest payload rt_malloc hands out
  const STEP := 16   // a header and the smallest payload a block can have

  // RT_ALIGN(n, 4) on 32-bit operands: the addition wraps.
  function Align(n: nat): nat { (n + 3) % U32 / 4 * 4 }

  // blocks: every block but the sentinel, in address order; a block reaches to
  // its successor's offset, the last one to End().
  datatype Heap = Heap(blocks: seq<Block>, size: nat, lfree: nat, used: int, peak: int) {
    function End(): nat { size + HDR }

    function Limit(i: nat): nat requires i < |blocks| { LimitOf(blocks, End(), i) }

    function Payload(i: nat): int requires i < |blocks| { Limit(i) - blocks[i].off - HDR }
  }

  function LimitOf(bs: seq<Block>, end: nat, i: nat): nat
    requires i < |bs|
  {
    if i + 1 < |bs| then bs[i + 1].off else end
  }

  // ----- the invariant -----

  // Block i is aligned and ends, with room for a header and a payload, where
  // its successor starts.
  predicate Sound(bs: seq<Block>, end: nat, i: nat)
    requires i < |bs|
  {
    bs[i].off % 4 == 0 && bs[i].off + STEP <= LimitOf(bs, end, i)
  }

  // The blocks cover [0, end) upwards without gap or overlap.
  ghost predicate Tiled(bs: seq<Block>, end: nat) {
    && |bs| > 0
    && bs[0].off == 0
    && forall i :: 0 <= i < |bs| ==> Sound(bs, end, i)
  }

  // Summed extent, headers included, of the used blocks.
  function UsedExtent(bs: seq<Block>, end: nat): int {
    if bs == [] then 0
    else (if bs[0].used then LimitOf(bs, end, 0) - bs[0].off else 0) + UsedExtent(bs[1..], end)
  }

  ghost predicate IsFree(bs: seq<Block>, off: nat) {
    exists i :: 0 <= i < |bs| && bs[i] == Block(off, false)
  }

  ghost predicate Invariant(h: Heap) {
    && h.size % 4 == 0 && MIN <= h.size && h.End() + HDR < U32
    && Tiled(h.blocks, h.End())
    && Coalesced(h.blocks)
    && (h.lfree == h.End() || IsFree(h.blocks, h.lfree))
    && 0 <= h.used == UsedExtent(h.blocks, h.End()) <= h.peak
  }

  // What runs of malloc and free alone keep in addition.
  ghost predicate LfreeLowest(h: Heap) {
    forall i :: 0 <= i < |h.blocks| && !h.blocks[i].used ==> h.lfree <= h.blocks[i].off
  }

  // ----- the operations -----

  function Fresh(size: nat): Heap { Heap([Block(0, false)], size, 0, 0, 0) }

  // A block rt_malloc can take for an already rounded size.
  predicate Candidate(h: Heap, i: nat, s: nat)
    requires i < |h.blocks|
  {
    !h.blocks[i].used && s <= h.Payload(i) && h.blocks[i].off + s < h.size
  }

  // The scanning loop from block i; |blocks| when it runs out.
  function Search(h: Heap, i: nat, s: nat): (r: nat)
    requires i <= |h.blocks|
    ensures i <= r <= |h.blocks|
    decreases |h.blocks| - i
  {
    if i == |h.blocks| || h.size <= h.blocks[i].off + s then |h.blocks|
    else if Candidate(h, i, s) then i
    else Search(h, i + 1, s)
  }

  // Offset of the first free block at or after index i, end if there is none.
  function NextFree(bs: seq<Block>, end: nat, i: nat): nat
    requires i <= |bs|
    decreases |bs| - i
  {
    if i == |bs| then end else if !bs[i].used then bs[i].off else NextFree(bs, end, i + 1)
  }

  function Splits(h: Heap, i: nat, s: nat): bool
    requires i < |h.blocks|
  {
    s + HDR + MIN <= h.Payload(i)
  }

  function Cut(bs: seq<Block>, i: nat, s: nat): seq<Block>
    requires i < |bs|
  {
    bs[..i] + [Block(bs[i].off, true), Block(bs[i].off + HDR + s, false)] + bs[i + 1..]
  }

  function AllocAt(h: Heap, i: nat, s: nat): Heap
    requires i < |h.blocks|
  {
    var b := h.blocks[i];
    var bs := if Splits(h, i, s) then Cut(h.blocks, i, s) else h.blocks[i := Block(b.off, true)];
    var u := h.used + (if Splits(h, i, s) then s + HDR else h.Limit(i) - b.off);
    var l := if h.lfree == b.off then NextFree(bs, h.End(), i) else h.lfree;
    Heap(bs, h.size, l, u, Max(h.peak, u))
  }

  // The rounding rt_malloc applies; None when the request is refused outright.
  function Round(h: Heap, size: nat): Option<nat> {
    if size == 0 || h.size < Align(size) then None else Some(if Align(size) < MIN then MIN else Align(size))
  }

  // The block rt_malloc chooses, |blocks| for none.
  function Choice(h: Heap, size: nat): (i: nat)
    ensures i <= |h.blocks|
  {
    match Round(h, size)
    case None => |h.blocks|
    case Some(s) => Search(h, IndexOf(h.blocks, h.lfree), s)
  }

  function Malloc(h: Heap, size: nat): (Heap, Option<nat>) {
    var i := Choice(h, size);
    if i == |h.blocks| then (h, None)
    else (AllocAt(h, i, Round(h, size).value), Some(h.blocks[i].off + HDR))
  }

  // plug_holes on the free block i: absorb a free successor, then be absorbed
  // by a free predecessor.
  function MergesNext(bs: seq<Block>, i: nat): bool { i + 1 < |bs| && !bs[i + 1].used }

  function MergesPrev(bs: seq<Block>, i: nat): bool
    requires i < |bs|
  {
    0 < i && !bs[i - 1].used
  }

  function PlugNext(bs: seq<Block>, i: nat): seq<Block>
    requires i < |bs|
  {
    if MergesNext(bs, i) then bs[..i + 1] + bs[i + 2..] else bs
  }

  function PlugPrev(bs: seq<Block>, i: nat): seq<Block>
    requires i < |bs|
  {
    if MergesPrev(bs, i) then bs[..i] + bs[i + 1..] else bs
  }

  function Plug(bs: seq<Block>, i: nat): seq<Block>
    requires i < |bs|
  {
    PlugPrev(PlugNext(bs, i), i)
  }

  function PlugLfree(bs: seq<Block>, i: nat, lfree: nat): nat
    requires i < |bs|
  {
    var l := if MergesNext(bs, i) && lfree == bs[i + 1].off then bs[i].off else lfree;
    if MergesPrev(bs, i) && l == bs[i].off then bs[i - 1].off else l
  }

  function Free(h: Heap, i: nat): Heap
    requires i < |h.blocks| && h.blocks[i].used
  {
    var b := h.blocks[i];
    var bs := h.blocks[i := Block(b.off, false)];
    var l := if b.off < h.lfree then b.off else h.lfree;
    h.(blocks := Plug(bs, i), lfree := PlugLfree(bs, i, l), used := h.used - (h.Limit(i) - b.off))
  }

  // The in-place half of rt_realloc.
  predicate Shrinks(h: Heap, i: nat, s: nat)
    requires i < |h.blocks|
  {
    s + HDR + MIN < h.Payload(i)
  }

  function Shrink(h: Heap, i: nat, s: nat): Heap
    requires i < |h.blocks|
  {
    var bs := Cut(h.blocks, i, s);
    h.(blocks := Plug(bs, i + 1), lfree := PlugLfree(bs, i + 1, h.lfree),
       used := h.used - (h.Payload(i) - s))
  }

  // rt_realloc on the live block i, for a rounded size that is neither 0 nor too large.
  function Resize(h: Heap, i: nat, s: nat): (Heap, Option<nat>)
    requires i < |h.blocks| && h.blocks[i].used
  {
    if s == h.Payload(i) then (h, Some(h.blocks[i].off + HDR))
    else if Shrinks(h, i, s) then (Shrink(h, i, s), Some(h.blocks[i].off + HDR))
    else
      var (m, p) := Malloc(h, s);
      var k := IndexOf(m.blocks, h.blocks[i].off);
      if p.None? || k == |m.blocks| || !m.blocks[k].used then (m, p) else (Free(m, k), p)
  }

  function Realloc(h: Heap, i: nat, newsize: nat): (Heap, Option<nat>)
    requires i < |h.blocks| && h.blocks[i].used
  {
    var s := Align(newsize);
    if h.size < s then (h, None) else if s == 0 then (Free(h, i), None) else Resize(h, i, s)
  }
}
