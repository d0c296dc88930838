// memheap.c itself: the fields of the block headers as maps from header address
// (relative to the pool) to value, with the free-list header outside the pool.
module MemHeap {
  import opened Common
  import opened Sequences
  import opened Blocks
  import opened Rings
  import opened MemHeapSpec
  import opened MemHeapProofs
  import opened MemHeapTheorems
  import opened Memory

  const HEAD := -1    // heap->free_list
  const NULL := -2

  function Offs(bs: seq<Block>): (r: seq<int>)
    ensures |r| == |bs| && forall i :: 0 <= i < |bs| ==> r[i] == bs[i].off
  {
    seq(|bs|, i requires 0 <= i < |bs| => bs[i].off)
  }

  ghost predicate Marked(used: map<int, bool>, bs: seq<Block>) {
    forall i :: 0 <= i < |bs| ==> bs[i].off in used && used[bs[i].off] == bs[i].used
  }

  // What the header links say around block i.
  lemma Around(next: map<int, int>, prev: map<int, int>, bs: seq<Block>, i: nat)
    requires IsRing(next, prev, Offs(bs)) && i < |bs|
    ensures bs[i].off in next && bs[i].off in prev
    ensures i + 1 < |bs| ==> next[bs[i].off] == bs[i + 1].off
    ensures next[bs[i].off] == Succ(Offs(bs), i)
    ensures i > 0 ==> prev[bs[i].off] == bs[i - 1].off
    ensures i == 0 && |bs| > 0 ==> prev[bs[0].off] == bs[|bs| - 1].off
  {
    var o := Offs(bs);
    assert Linked(next, prev, o[i], Succ(o, i));
    if i > 0 {
      assert Linked(next, prev, o[i - 1], Succ(o, i - 1));
    } else {
      assert Linked(next, prev, o[|bs| - 1], Succ(o, |bs| - 1));
    }
  }

  lemma NotAnOffset(bs: seq<Block>, pool: nat, i: nat, x: int)
    requires Tiled(bs, pool) && i + 1 < |bs| && bs[i].off < x < bs[i + 1].off
    ensures x !in Offs(bs)
  {
    forall k | 0 <= k < |bs| ensures bs[k].off != x {
      if k < i { Ascending(bs, pool, k, i); } else if k > i + 1 { Ascending(bs, pool, i + 1, k); }
    }
  }

  // A new free block with its header at y behind block i, which is used.
  function Placed(bs: seq<Block>, i: nat, y: nat): seq<Block>
    requires i < |bs|
  {
    bs[..i] + [Block(bs[i].off, true), Block(y, false)] + bs[i + 1..]
  }

  lemma PlacedAt(bs: seq<Block>, i: nat, y: nat, k: nat)
    requires i < |bs| && k <= |bs|
    ensures var r := Placed(bs, i, y);
      && |r| == |bs| + 1
      && r[k] == if k < i then bs[k] else if k == i then Block(bs[i].off, true) else if k == i + 1 then Block(y, false) else bs[k - 1]
  {
  }

  lemma OffsPlaced(bs: seq<Block>, i: nat, y: nat)
    requires i < |bs|
    ensures Offs(Placed(bs, i, y)) == Insert(Offs(bs), i, y)
  {
    forall k | 0 <= k <= |bs| ensures Offs(Placed(bs, i, y))[k] == Insert(Offs(bs), i, y)[k] { PlacedAt(bs, i, y, k); }
  }

  lemma OffsDrop(bs: seq<Block>, i: nat)
    requires i < |bs|
    ensures Offs(Drop(bs, i)) == Rings.Cut(Offs(bs), i)
  {
  }

  lemma PlaceRing(next: map<int, int>, prev: map<int, int>, bs: seq<Block>, i: nat, y: nat)
    requires IsRing(next, prev, Offs(bs)) && i + 1 < |bs| && y !in Offs(bs)
    ensures var (x, n) := (bs[i].off, bs[i + 1].off);
      IsRing(next[y := n][x := y], prev[y := x][n := y], Offs(Placed(bs, i, y)))
  {
    hide IsRing, Placed, Insert;
    OffsPlaced(bs, i, y);
    InsertOk(next, prev, Offs(bs), i, y);
  }

  lemma DropRing(next: map<int, int>, prev: map<int, int>, bs: seq<Block>, i: nat)
    requires IsRing(next, prev, Offs(bs)) && 0 < i && i + 1 < |bs|
    ensures IsRing(next[bs[i - 1].off := bs[i + 1].off], prev[bs[i + 1].off := bs[i - 1].off], Offs(Drop(bs, i)))
  {
    hide IsRing, Drop, Rings.Cut;
    OffsDrop(bs, i);
    RemoveOk(next, prev, Offs(bs), i);
  }

  // The free list with its header, after an insertion at the front and a removal.
  lemma PushFront(free: seq<int>, x: int)
    ensures Insert([HEAD] + free, 0, x) == [HEAD] + ([x] + free)
  {
  }

  lemma UnlinkAt(free: seq<int>, j: nat)
    requires j < |free| && Distinct([HEAD] + free)
    ensures Rings.Cut([HEAD] + free, j + 1) == [HEAD] + Without(free, free[j])
  {
    var o := [HEAD] + free;
    WithoutAt(o, j + 1);
    assert o[0] != o[j + 1] && o[1..] == free;
  }

  lemma PlaceMarked(used: map<int, bool>, bs: seq<Block>, i: nat, y: nat)
    requires Marked(used, bs) && Distinct(Offs(bs)) && i < |bs| && y !in Offs(bs)
    ensures Marked(used[y := false][bs[i].off := true], Placed(bs, i, y))
  {
    hide Placed;
    var (r, u, o) := (Placed(bs, i, y), used[y := false][bs[i].off := true], Offs(bs));
    PlacedAt(bs, i, y, 0);
    assert o[i] in o;
    forall k | 0 <= k < |r| ensures r[k].off in u && u[r[k].off] == r[k].used {
      PlacedAt(bs, i, y, k);
      var j := if k <= i then k else k - 1;
      assert o[j] == bs[j].off && o[j] in o && (o[j] == o[i] ==> j == i);
    }
  }

  // The payloads of the live blocks are the same in d and d'.
  ghost predicate Untouched(d: seq<int>, d': seq<int>, bs: seq<Block>) {
    forall off: nat, n: int :: Live(bs, off, n) ==> BytesAt(d', off + HDR, n) == BytesAt(d, off + HDR, n)
  }

  lemma UntouchedSame(d: seq<int>, bs: seq<Block>)
    ensures Untouched(d, d, bs)
  {
  }

  // The n bytes from p on lie in the pool, and in no live payload of bs.
  ghost predicate Unclaimed(bs: seq<Block>, p: nat, n: nat) {
    forall off: nat, k: int :: Live(bs, off, k) ==> off + HDR + k <= p || p + n <= off + HDR
  }

  // Where a block is moved to: no live block's payload.
  lemma NewPlace(h: Heap, i: nat, s: nat)
    requires Invariant(h) && i + 1 < |h.blocks| && h.blocks[i].used && Round(s) == s && MemHeapSpec.Alloc(h, s).1.Some?
    ensures var (p, n) := (MemHeapSpec.Alloc(h, s).1.value, Min(Payload(h.blocks, i), s));
      && 0 <= n && p + n <= h.pool && h.blocks[i].off + HDR + n <= h.pool && Unclaimed(h.blocks, p, n)
      && Live(h.blocks, h.blocks[i].off, Payload(h.blocks, i))
  {
    hide Invariant, MemHeapSpec.Alloc, Live, Grants, Round;
    var (m, p) := MemHeapSpec.Alloc(h, s);
    AllocKeepsInvariant(h, s);
    AllocKeepsLive(h, s);
    UsedPayload(h, i);
    var room: int := GrantsIsLive(m.blocks, p.value, s);
    forall off: nat, k: int | Live(h.blocks, off, k)
      ensures (off + HDR + k <= p.value || p.value + s <= off + HDR) && off + HDR + k <= h.pool && p.value + s <= h.pool
    {
      if off == p.value - HDR { LiveGrantsSome(h, off, k); }
      SamePool(h, s);
      LiveDisjoint(m, off, k, p.value - HDR, room);
      LiveDisjoint(m, p.value - HDR, room, off, k);
    }
  }

  lemma LiveGrantsSome(h: Heap, off: nat, k: int)
    requires Invariant(h) && Live(h.blocks, off, k)
    ensures Grants(h.blocks, off + HDR, 0)
  {
    var i := LiveIndex(h, off, k);
    UsedPayload(h, i);
    LiveGrants(h.blocks, off, k, 0);
  }

  lemma SamePool(h: Heap, s: nat)
    ensures MemHeapSpec.Alloc(h, s).0.pool == h.pool
  {
    hide Choice;
  }

  // Copying into such a place.
  lemma CopyUntouched(d: seq<int>, d': seq<int>, bs: seq<Block>, dst: nat, src: nat, n: nat)
    requires dst + n <= |d| && src + n <= |d| && d' == Moved(d, dst, src, n) && Unclaimed(bs, dst, n)
    ensures Untouched(d, d', bs)
  {
    hide Live;
    MovedAt(d, dst, src, n);
  }

  class MemHeap {
    const memory: array<int>    // the pool, of which only payload bytes count
    const poolSize: nat
    var next: map<int, int>
    var prev: map<int, int>
    var nextFree: map<int, int>
    var prevFree: map<int, int>
    var used: map<int, bool>
    var available: int
    var maxUsed: int
    ghost var blocks: seq<Block>
    ghost var free: seq<int>

    ghost function View(): Heap
      reads this
    {
      Heap(blocks, free, poolSize, available, maxUsed)
    }

    ghost predicate FreeRing()
      reads `nextFree, `prevFree, `free
    {
      IsRing(nextFree, prevFree, [HEAD] + free)
    }

    ghost predicate Linkage()
      reads `next, `prev, `nextFree, `prevFree, `used, `blocks, `free
    {
      IsRing(next, prev, Offs(blocks)) && FreeRing() && Marked(used, blocks)
    }

    // The invariant of every run.
    ghost predicate Valid()
      reads this
    {
      Invariant(View()) && Linkage() && memory.Length == poolSize
    }

    // rt_memheap_init of a region of size bytes; the free-list header comes first.
    constructor (size: nat)
      requires size < U32
      ensures View() == Fresh(size / 4 * 4) && fresh(memory)
      ensures Valid() <==> 2 * HDR <= size
    {
      var pool := size / 4 * 4;
      var left := (pool + U32 - 2 * HDR) % U32;
      var tail := (left + HDR) % U32;
      memory := new int[pool];
      poolSize := pool;
      available := left;
      maxUsed := (pool + U32 - left) % U32;
      next := map[0 := tail, tail := 0];
      prev := map[0 := tail, tail := 0];
      nextFree := map[HEAD := 0, 0 := HEAD, tail := NULL];
      prevFree := map[HEAD := 0, 0 := HEAD, tail := NULL];
      used := map[0 := false, tail := true];
      blocks := [Block(0, false), Block(tail, true)];
      free := [0];
      new;
      FreshIsSoundIff(poolSize);
      if 2 * HDR <= size {
        assert Offs(blocks) == [0, tail];
        assert [HEAD] + free == [HEAD, 0];
      }
    }

    // ----- the free list -----

    method Unlink(x: int)
      requires FreeRing() && x in free
      modifies `nextFree, `prevFree, `free
      ensures FreeRing() && free == Without(old(free), x)
    {
      ghost var j :| 0 <= j < |free| && free[j] == x;
      assert Distinct([HEAD] + free);
      hide IsRing, Without, Rings.Cut;
      UnlinkAt(free, j);
      RemoveOk(nextFree, prevFree, [HEAD] + free, j + 1);
      assert ([HEAD] + free)[j + 1] == x;
      var n, p := nextFree[x], prevFree[x];
      prevFree := prevFree[n := p];
      nextFree := nextFree[p := n];
      free := Without(free, x);
    }

    method Clear(x: int)
      requires FreeRing() && x !in free && x != HEAD
      modifies `nextFree, `prevFree
      ensures FreeRing()
    {
      OutsideOk(nextFree, prevFree, [HEAD] + free, x, NULL, NULL);
      nextFree := nextFree[x := NULL];
      prevFree := prevFree[x := NULL];
    }

    // To the front of the free list.
    method Push(x: int)
      requires FreeRing() && x !in free && x != HEAD
      modifies `nextFree, `prevFree, `free
      ensures FreeRing() && free == [x] + old(free)
    {
      assert Linked(nextFree, prevFree, ([HEAD] + free)[0], Succ([HEAD] + free, 0));
      hide IsRing, Insert;
      InsertOk(nextFree, prevFree, [HEAD] + free, 0, x);
      PushFront(free, x);
      var first := nextFree[HEAD];
      nextFree := nextFree[x := first];
      prevFree := prevFree[x := HEAD];
      prevFree := prevFree[first := x];
      nextFree := nextFree[HEAD := x];
      free := [x] + free;
    }

    // ----- the block ring -----

    // A new free block with its header at y, linked in behind block i.
    method Place(x: nat, y: nat, ghost i: nat)
      requires IsRing(next, prev, Offs(blocks)) && Marked(used, blocks)
      requires i + 1 < |blocks| && blocks[i].off == x && y !in Offs(blocks)
      modifies `next, `prev, `used, `blocks
      ensures IsRing(next, prev, Offs(blocks)) && Marked(used, blocks) && blocks == Placed(old(blocks), i, y)
    {
      assert Distinct(Offs(blocks));
      hide *;
      Around(next, prev, blocks, i);
      PlaceRing(next, prev, blocks, i, y);
      PlaceMarked(used, blocks, i, y);
      var n := next[x];
      used := used[y := false];
      prev := prev[y := x];
      next := next[y := n];
      prev := prev[n := y];
      next := next[x := y];
      used := used[x := true];
      blocks := Placed(blocks, i, y);
    }

    // The same behind the first s payload bytes of the block.
    method CutBlock(x: nat, s: nat, ghost i: nat)
      requires IsRing(next, prev, Offs(blocks)) && Marked(used, blocks) && Tiled(blocks, poolSize)
      requires i + 1 < |blocks| && blocks[i].off == x && s + HDR <= Payload(blocks, i)
      modifies `next, `prev, `used, `blocks
      ensures IsRing(next, prev, Offs(blocks)) && Marked(used, blocks) && blocks == Split(old(blocks), i, s)
    {
      hide IsRing, Marked, Tiled;
      NotAnOffset(blocks, poolSize, i, x + HDR + s);
      Place(x, x + HDR + s, i);
    }

    // Taking block i out of the ring.
    method DropBlock(x: nat, ghost i: nat)
      requires IsRing(next, prev, Offs(blocks)) && Marked(used, blocks)
      requires 0 < i && i + 1 < |blocks| && blocks[i].off == x
      modifies `next, `prev, `blocks
      ensures IsRing(next, prev, Offs(blocks)) && Marked(used, blocks) && blocks == Drop(old(blocks), i)
    {
      Around(next, prev, blocks, i);
      DropRing(next, prev, blocks, i);
      var n, p := next[x], prev[x];
      prev := prev[n := p];
      next := next[p := n];
      blocks := Drop(blocks, i);
    }

    method Mark(x: nat, u: bool, ghost i: nat)
      requires IsRing(next, prev, Offs(blocks)) && Marked(used, blocks) && i < |blocks| && blocks[i].off == x
      modifies `used, `blocks
      ensures IsRing(next, prev, Offs(blocks)) && Marked(used, blocks) && blocks == old(blocks)[i := Block(x, u)]
    {
      assert Distinct(Offs(blocks));
      ghost var o := Offs(blocks);
      used := used[x := u];
      blocks := blocks[i := Block(x, u)];
      assert Offs(blocks) == o;
      forall k | 0 <= k < |blocks| ensures blocks[k].off in used && used[blocks[k].off] == blocks[k].used {
        assert o[k] == o[i] ==> k == i;
      }
    }

    // ----- rt_memheap_alloc -----

    // The free list is searched in its order for s bytes; x is HEAD if none is found.
    method Search(s: nat) returns (x: int, size: int)
      requires Valid() && 0 < s
      ensures var j := FirstFit(blocks, free, s);
        if j < |free| then x == free[j] && size == SizeAt(blocks, x) else x == HEAD && size < s
    {
      hide *;
      ghost var j := 0;
      FreeLink(0);
      x, size := nextFree[HEAD], 0;
      while x != HEAD && size < s
        invariant j <= |free| && x == if j < |free| then free[j] else HEAD
        invariant forall k :: 0 <= k < j ==> SizeAt(blocks, free[k]) < s
        invariant s <= size ==> j < |free| && size == SizeAt(blocks, x)
        decreases |free| - j, if size < s then 1 else 0
      {
        ghost var i := FreeBlock(j);
        size := next[x] - x - HDR;
        if size < s {
          FreeLink(j + 1);
          x := nextFree[x];
          j := j + 1;
        }
      }
      if j < |free| {
        ghost var i := FreeBlock(j);
      }
      FirstFitIs(blocks, free, s, j);
    }

    // The j-th link of the free list, the header's being link 0.
    lemma FreeLink(j: nat)
      requires Valid() && j <= |free|
      ensures var x := if j == 0 then HEAD else free[j - 1];
        x in nextFree && nextFree[x] == if j < |free| then free[j] else HEAD
    {
      assert Linked(nextFree, prevFree, ([HEAD] + free)[j], Succ([HEAD] + free, j));
    }

    // The header of the j-th free block.
    lemma FreeBlock(j: nat) returns (i: nat)
      requires Valid() && j < |free|
      ensures i + 1 < |blocks| && blocks[i].off == free[j] && !blocks[i].used && i == IndexOf(blocks, blocks[i].off)
      ensures free[j] != HEAD && free[j] in next && next[free[j]] - free[j] - HDR == SizeAt(blocks, free[j])
    {
      hide IsRing, FreeSum, Coalesced, Marked;
      i := ListedBlock(View(), j);
      Around(next, prev, blocks, i);
    }

    method Record(left: int)
      modifies `available, `maxUsed
      ensures available == left && maxUsed == Max(old(maxUsed), poolSize - left)
    {
      available := left;
      if poolSize - available > maxUsed {
        maxUsed := poolSize - available;
      }
    }

    method TakeSplit(x: nat, s: nat, ghost i: nat)
      requires Valid() && i + 1 < |blocks| && blocks[i] == Block(x, false) && Splits(blocks, i, s)
      modifies `next, `prev, `nextFree, `prevFree, `used, `available, `maxUsed, `blocks, `free
      ensures Linkage() && View() == Take(old(View()), i, s)
    {
      hide IsRing, Invariant, Tiled, Listed, Marked, Split;
      TakenIsListed(View(), i, s);
      CutBlock(x, s, i);
      WithoutIn(free, x);
      Unlink(x);
      Clear(x);
      Push(x + HDR + s);
      Record(available - s - HDR);
    }

    method TakeWhole(x: nat, s: nat, size: nat, ghost i: nat)
      requires Valid() && i + 1 < |blocks| && blocks[i] == Block(x, false) && size == Payload(blocks, i) && !Splits(blocks, i, s)
      modifies `nextFree, `prevFree, `used, `available, `maxUsed, `blocks, `free
      ensures Linkage() && View() == Take(old(View()), i, s)
    {
      hide IsRing, FreeSum, Coalesced, Marked;
      assert IsFree(blocks, x);
      Record(available - size);
      WithoutIn(free, x);
      Unlink(x);
      Clear(x);
      Mark(x, true, i);
    }

    method Alloc(size: nat) returns (r: Option<nat>)
      requires Valid() && size < U32
      modifies `next, `prev, `nextFree, `prevFree, `used, `available, `maxUsed, `blocks, `free
      ensures Valid() && (View(), r) == MemHeapSpec.Alloc(old(View()), size)
    {
      hide IsRing, FreeSum, Coalesced, Marked, Tiled, Take, Listed, Split, FirstFit, Linkage, FreeRing;
      ghost var h := View();
      RoundIsAligned(size);
      AllocKeepsInvariant(h, size);
      var s := Round(size);
      if s < available {
        var x, free_ := Search(s);
        if free_ >= s {
          ghost var i := FreeBlock(FirstFit(blocks, free, s));
          if free_ >= s + HDR + MIN {
            TakeSplit(x, s, i);
          } else {
            TakeWhole(x, s, free_, i);
          }
          return Some(x + HDR);
        }
      }
      r := None;
    }

    // ----- rt_memheap_free -----

    // Merging block i with a free right neighbour.
    method MergeRight(x: nat, ghost i: nat)
      requires Linkage() && i + 1 < |blocks| && blocks[i].off == x && blocks[|blocks| - 1].used
      requires MergesRight(blocks, i) ==> blocks[i + 1].off in free
      modifies `next, `prev, `nextFree, `prevFree, `available, `blocks, `free
      ensures Linkage() && blocks == JoinRight(old(blocks), i) && free == ListRight(old(blocks), i, old(free))
      ensures available == old(available) + if MergesRight(old(blocks), i) then HDR else 0
    {
      Around(next, prev, blocks, i);
      assert used[next[x]] == blocks[i + 1].used;
      hide IsRing, Marked, Drop, Without;
      if !used[next[x]] {
        available := available + HDR;
        var n := next[x];
        DropBlock(n, i + 1);
        Unlink(n);
      }
    }

    // Taking block i, which has just become free, into a free left neighbour; y is
    // the header that now stands for it.
    method MergeLeft(x: nat, ghost i: nat) returns (y: nat)
      requires Linkage() && i + 1 < |blocks| && blocks[i].off == x && blocks[|blocks| - 1].used
      modifies `next, `prev, `available, `blocks
      ensures Linkage() && blocks == JoinLeft(old(blocks), i)
      ensures y == if MergesLeft(old(blocks), i) then old(blocks)[i - 1].off else x
      ensures available == old(available) + if MergesLeft(old(blocks), i) then HDR else 0
    {
      Around(next, prev, blocks, i);
      assert used[prev[x]] == if i == 0 then blocks[|blocks| - 1].used else blocks[i - 1].used;
      hide IsRing, Marked, Drop;
      y := x;
      if !used[prev[x]] {
        available := available + HDR;
        y := prev[x];
        DropBlock(x, i);
      }
    }

    // Merging block i, which has just become free, with both neighbours, and listing
    // it unless it went into the left one.
    method Merge(x: nat, ghost i: nat)
      requires Linkage() && i + 1 < |blocks| && blocks[i].off == x && blocks[|blocks| - 1].used
      requires x !in free && (i > 0 ==> blocks[i - 1].off != x) && (MergesRight(blocks, i) ==> blocks[i + 1].off in free)
      modifies `next, `prev, `nextFree, `prevFree, `available, `blocks, `free
      ensures Linkage()
      ensures var (bs, left) := (old(blocks), MergesLeft(old(blocks), i));
        var (mid, k) := (JoinLeft(bs, i), if left then i - 1 else i);
        && blocks == JoinRight(mid, k)
        && free == (if left then [] else [x]) + ListRight(mid, k, old(free))
        && available == old(available) + (if left then HDR else 0) + if MergesRight(mid, k) then HDR else 0
    {
      hide IsRing, Marked, Drop, ListRight, JoinRight, Offs;
      ghost var bs := blocks;
      var y := MergeLeft(x, i);
      ghost var k := if MergesLeft(bs, i) then i - 1 else i;
      DropAt(bs, i);
      ListRightIn(blocks, k, free);
      MergeRight(y, k);
      if y == x {
        Push(x);
      }
    }

    method Free(ptr: nat, ghost i: nat)
      requires Valid() && HDR <= ptr && i + 1 < |blocks| && blocks[i] == Block(ptr - HDR, true)
      modifies `next, `prev, `nextFree, `prevFree, `used, `available, `blocks, `free
      ensures Valid() && View() == MemHeapSpec.Free(old(View()), i)
    {
      hide IsRing, Marked, Invariant, Drop, ListRight, JoinRight, JoinLeft, MergesLeft, Offs;
      ghost var h := View();
      var x := ptr - HDR;
      FreeKeepsInvariant(h, i);
      FreeIsListed(h, i);
      Around(next, prev, blocks, i);
      Mark(x, false, i);
      available := available + (next[x] - x - HDR);
      Merge(x, i);
      assert View() == MemHeapSpec.Free(h, i);
    }

    // ----- rt_memheap_realloc -----

    // Putting the header of the free block i + 1 from n to y.
    method MoveHeader(x: nat, n: nat, y: nat, ghost i: nat)
      requires Linkage() && i + 2 < |blocks| && blocks[i] == Block(x, true) && blocks[i + 1].off == n && n in free
      requires y !in Offs(Drop(blocks, i + 1)) && y !in Without(free, n)
      modifies `next, `prev, `nextFree, `prevFree, `used, `blocks, `free
      ensures Linkage() && blocks == old(blocks)[i + 1 := Block(y, false)] && free == [y] + Without(old(free), n)
    {
      hide IsRing, Marked, Drop, Placed, Offs, Without;
      MoveIsPlacing(blocks, i, y);
      Unlink(n);
      DropBlock(n, i + 1);
      Place(x, y, i);
      Push(y);
    }

    // Growing into the free right neighbour, whose header moves. Its new address and the
    // counters are 32-bit; the links agree with each other even if the address wraps.
    method Grow(ptr: nat, s: nat, ghost i: nat)
      requires Valid() && HDR <= ptr && i + 1 < |blocks| && blocks[i] == Block(ptr - HDR, true) && s % 4 == 0 && s < U32
      requires Payload(blocks, i) < s && Grows(blocks, i, s)
      modifies `next, `prev, `nextFree, `prevFree, `used, `available, `maxUsed, `blocks, `free
      ensures Linkage() && View() == MemHeapSpec.Grow(old(View()), i, s)
    {
      hide IsRing, Marked, Invariant, Drop, Offs, Without;
      ghost var h := View();
      GrowIsNew(h, i, s);
      FreeIsListed(h, i);
      Around(next, prev, blocks, i);
      var x := ptr - HDR;
      var n := next[x];
      available := (available - (s - (n - x - HDR))) % U32;
      if (poolSize - available) % U32 > maxUsed {
        maxUsed := (poolSize - available) % U32;
      }
      MoveHeader(x, n, (ptr + s) % U32, i);
      assert View() == MemHeapSpec.Grow(h, i, s);
    }

    // A free block behind s bytes of block i, merged with a free right neighbour.
    method SplitOff(x: nat, s: nat, ghost i: nat)
      requires Linkage() && Tiled(blocks, poolSize) && i + 1 < |blocks| && blocks[i].off == x && s + HDR <= Payload(blocks, i)
      requires x + HDR + s !in free && (!blocks[i + 1].used ==> blocks[i + 1].off in free)
      modifies `next, `prev, `nextFree, `prevFree, `used, `available, `blocks, `free
      ensures var bs := Split(old(blocks), i, s);
        && Linkage() && blocks == JoinRight(bs, i + 1) && free == [x + HDR + s] + ListRight(bs, i + 1, old(free))
        && available == old(available) + (Payload(old(blocks), i) - s - HDR) + if MergesRight(bs, i + 1) then HDR else 0
    {
      hide IsRing, Marked, Drop, Split, Offs, ListRight, JoinRight, Tiled, Without;
      Around(next, prev, blocks, i);
      SplitFacts(blocks, poolSize, i, s);
      ListRightIn(Split(blocks, i, s), i + 1, free);
      var size := next[x] - x - HDR;
      CutBlock(x, s, i);
      available := available + (size - s - HDR);
      MergeRight(x + HDR + s, i + 1);
      Push(x + HDR + s);
    }

    method Shrink(ptr: nat, s: nat, ghost i: nat)
      requires Valid() && HDR <= ptr && i + 1 < |blocks| && blocks[i] == Block(ptr - HDR, true) && s % 4 == 0 && MIN <= s
      requires s + HDR + MIN < Payload(blocks, i)
      modifies `next, `prev, `nextFree, `prevFree, `used, `available, `blocks, `free
      ensures Valid() && View() == MemHeapSpec.Shrink(old(View()), i, s)
    {
      hide IsRing, Marked, Split, ListRight, JoinRight, Tiled, Coalesced, Listed, FreeSum, Linkage;
      ghost var h := View();
      ShrinkKeepsInvariant(h, i, s);
      NewIsUnlisted(h, i, s);
      FreeIsListed(h, i);
      SplitOff(ptr - HDR, s, i);
      assert View() == MemHeapSpec.Shrink(h, i, s);
    }

    // Allocating elsewhere, copying and freeing; size is that of the payload at ptr.
    method Move(ptr: nat, size: int, s: nat, ghost i: nat) returns (r: Option<nat>)
      requires Valid() && HDR <= ptr && i + 1 < |blocks| && blocks[i] == Block(ptr - HDR, true)
      requires size == Payload(blocks, i) && s < U32 && Round(s) == s
      modifies `next, `prev, `nextFree, `prevFree, `used, `available, `maxUsed, `blocks, `free, memory
      ensures Valid() && (View(), r) == MemHeapSpec.Move(old(View()), ptr - HDR, s)
      ensures r.Some? ==> BytesAt(memory[..], r.value, Min(size, s)) == BytesAt(old(memory[..]), ptr, Min(size, s))
      ensures Untouched(old(memory[..]), memory[..], old(blocks))
    {
      hide MemHeapSpec.Alloc, MemHeapSpec.Free, MemHeapSpec.Move, Invariant, Linkage, Untouched, Unclaimed, Round, Moved, Copied, Live, BytesAt;
      ghost var h := View();
      StaysLive(h, i, s);
      UntouchedSame(memory[..], blocks);
      r := Alloc(s);
      if r.Some? {
        NewPlace(h, i, s);
        Copy(r.value, ptr, if size < s then size else s, h, i);
        Free(ptr, IndexOf(blocks, ptr - HDR));
      }
    }

    method Copy(dst: nat, src: nat, n: nat, ghost h: Heap, ghost i: nat)
      requires dst + n <= memory.Length && src + n <= memory.Length && Unclaimed(h.blocks, dst, n)
      requires i + 1 < |h.blocks| && src == h.blocks[i].off + HDR && n <= Payload(h.blocks, i)
      requires Live(h.blocks, h.blocks[i].off, Payload(h.blocks, i))
      modifies memory
      ensures BytesAt(memory[..], dst, n) == BytesAt(old(memory[..]), src, n)
      ensures Untouched(old(memory[..]), memory[..], h.blocks)
    {
      hide Moved, Copied, Live, BytesAt;
      assert !(src < dst < src + n);
      MemCpy(memory, dst, src, n);
      MovedBytes(old(memory[..]), memory[..], dst, src, n);
      CopyUntouched(old(memory[..]), memory[..], h.blocks, dst, src, n);
    }

    // Whether the block at ptr can grow in place.
    method CanGrow(ptr: nat, s: nat, ghost i: nat) returns (b: bool, size: int)
      requires Valid() && HDR <= ptr && i + 1 < |blocks| && blocks[i] == Block(ptr - HDR, true)
      ensures size == Payload(blocks, i) && b == Grows(blocks, i, s)
    {
      Around(next, prev, blocks, i);
      var n := next[ptr - HDR];
      assert used[n] == blocks[i + 1].used;
      size := n - (ptr - HDR) - HDR;
      b := false;
      if !used[n] {
        TwoAfter(View(), i);
        Around(next, prev, blocks, i + 1);
        b := (s + MIN) % U32 < next[n] - n - HDR + size;
      }
    }

    method Realloc(ptr: nat, newsize: nat, ghost i: nat) returns (r: Option<nat>)
      requires Valid() && HDR <= ptr && i + 1 < |blocks| && blocks[i] == Block(ptr - HDR, true)
      requires newsize < U32
      modifies `next, `prev, `nextFree, `prevFree, `used, `available, `maxUsed, `blocks, `free, memory
      ensures Linkage() && (View(), r) == MemHeapSpec.Realloc(old(View()), i, newsize)
      ensures Valid() <==> !Overflows(old(View()), i, newsize)
      ensures var n := Min(Payload(old(blocks), i), Round(newsize));
        r.Some? ==> BytesAt(memory[..], r.value, n) == BytesAt(old(memory[..]), ptr, n)
      ensures Untouched(old(memory[..]), memory[..], old(blocks))
    {
      hide Invariant, Linkage, Overflows, MemHeapSpec.Free, MemHeapSpec.Grow, MemHeapSpec.Shrink, MemHeapSpec.Move, Untouched;
      UntouchedSame(memory[..], blocks);
      ReallocKeepsInvariantIff(View(), i, newsize);
      if newsize == 0 {
        Free(ptr, i);
        return None;
      }
      RoundIsAligned(newsize);
      var s := Round(newsize);
      var grows, size := CanGrow(ptr, s, i);
      if s > size {
        if grows {
          Grow(ptr, s, i);
          r := Some(ptr);
        } else {
          r := Move(ptr, size, s, i);
        }
      } else if s + HDR + MIN >= size {
        r := Some(ptr);
      } else {
        Shrink(ptr, s, i);
        r := Some(ptr);
      }
    }
  }

  lemma ListRightIn(bs: seq<Block>, i: nat, free: seq<int>)
    ensures forall x :: x in ListRight(bs, i, free) ==> x in free
  {
    if MergesRight(bs, i) {
      WithoutIn(free, bs[i + 1].off);
    }
  }

  lemma DropAt(bs: seq<Block>, i: nat)
    requires i + 1 < |bs|
    ensures |Drop(bs, i)| == |bs| - 1 && (0 < i ==> Drop(bs, i)[i - 1] == bs[i - 1]) && Drop(bs, i)[i] == bs[i + 1]
    ensures Drop(bs, i)[|bs| - 2] == bs[|bs| - 1]
  {
  }

  // The free neighbours of a used block are on the free list, and it is not.
  lemma FreeIsListed(h: Heap, i: nat)
    requires Invariant(h) && i + 1 < |h.blocks| && h.blocks[i].used
    ensures h.blocks[i].off !in h.free && h.blocks[i].off != HEAD
    ensures !h.blocks[i + 1].used ==> h.blocks[i + 1].off in h.free && h.blocks[i + 1].off != h.blocks[i].off
    ensures h.blocks[|h.blocks| - 1].used && (i > 0 ==> h.blocks[i - 1].off != h.blocks[i].off)
  {
    hide FreeSum, Coalesced;
    OffsetsDistinct(h.blocks, h.pool);
    assert !IsFree(h.blocks, h.blocks[i].off);
    assert !h.blocks[i + 1].used ==> IsFree(h.blocks, h.blocks[i + 1].off);
  }

  lemma FirstFitIs(bs: seq<Block>, free: seq<int>, s: nat, j: nat)
    requires j <= |free| && (j < |free| ==> s <= SizeAt(bs, free[j])) && forall k :: 0 <= k < j ==> SizeAt(bs, free[k]) < s
    ensures FirstFit(bs, free, s) == j
  {
    hide SizeAt;
    var f := FirstFit(bs, free, s);
    assert f < |free| ==> j <= f;
  }

  // The header cut out of a block is not on the free list.
  lemma NewIsUnlisted(h: Heap, i: nat, s: nat)
    requires Invariant(h) && i + 1 < |h.blocks| && s + HDR <= Payload(h.blocks, i)
    ensures h.blocks[i].off + HDR + s !in h.free || s + HDR == Payload(h.blocks, i)
  {
    hide FreeSum, Coalesced;
    if s + HDR < Payload(h.blocks, i) {
      NotAnOffset(h.blocks, h.pool, i, h.blocks[i].off + HDR + s);
      forall k | 0 <= k < |h.blocks| ensures h.blocks[k].off != h.blocks[i].off + HDR + s {
        assert Offs(h.blocks)[k] == h.blocks[k].off;
      }
      assert !IsFree(h.blocks, h.blocks[i].off + HDR + s);
    }
  }

  lemma TakenIsListed(h: Heap, i: nat, s: nat)
    requires Invariant(h) && i + 1 < |h.blocks| && !h.blocks[i].used && Splits(h.blocks, i, s)
    ensures Tiled(h.blocks, h.pool) && h.blocks[i].off in h.free && h.blocks[i].off + HDR + s !in h.free
  {
    hide FreeSum, Coalesced;
    assert IsFree(h.blocks, h.blocks[i].off);
    NewIsUnlisted(h, i, s);
  }

  lemma TwoAfter(h: Heap, i: nat)
    requires Invariant(h) && i + 1 < |h.blocks| && !h.blocks[i + 1].used
    ensures i + 2 < |h.blocks|
  {
  }

  // Moving the header behind block i is taking it out and placing it again.
  lemma MoveIsPlacing(bs: seq<Block>, i: nat, y: nat)
    requires i + 2 < |bs| && bs[i].used
    ensures |Drop(bs, i + 1)| == |bs| - 1 && Drop(bs, i + 1)[i] == bs[i]
    ensures Placed(Drop(bs, i + 1), i, y) == bs[i + 1 := Block(y, false)]
  {
  }

  lemma SplitFacts(bs: seq<Block>, pool: nat, i: nat, s: nat)
    requires Tiled(bs, pool) && i + 1 < |bs|
    ensures var r := Split(bs, i, s);
      && |r| == |bs| + 1 && r[i + 1].off == bs[i].off + HDR + s && r[i + 2] == bs[i + 1] && r[|r| - 1].used
  {
  }

  // The moved header lies inside what were block i and its free neighbour, apart from
  // both headers; if its address wrapped, inside the header of block i.
  lemma GrownBetween(h: Heap, i: nat, s: nat)
    requires Invariant(h) && i + 1 < |h.blocks| && h.blocks[i].used && s % 4 == 0 && s < U32
    requires Payload(h.blocks, i) < s && Grows(h.blocks, i, s)
    ensures var y := GrownOff(h.blocks, i, s);
      && i + 2 < |h.blocks| && h.blocks[i].off < y < h.blocks[i + 2].off && (U32 <= s + MIN <==> y < h.blocks[i].off + HDR)
  {
    hide FreeSum, Coalesced, Listed;
    var bs := h.blocks;
    assert Sound(bs, i) && Sound(bs, i + 1);
    Ascending(bs, h.pool, i, |bs| - 1);
    if i + 2 < |bs| - 1 { Ascending(bs, h.pool, i + 2, |bs| - 1); }
  }

  lemma GrowIsNew(h: Heap, i: nat, s: nat)
    requires Invariant(h) && i + 1 < |h.blocks| && h.blocks[i].used && s % 4 == 0 && s < U32
    requires Payload(h.blocks, i) < s && Grows(h.blocks, i, s)
    ensures var y := GrownOff(h.blocks, i, s);
      y !in Offs(Drop(h.blocks, i + 1)) && y !in Without(h.free, h.blocks[i + 1].off)
  {
    hide FreeSum, Coalesced, Without, Drop, Sound, GrownOff, Grows;
    var (bs, y) := (h.blocks, GrownOff(h.blocks, i, s));
    GrownBetween(h, i, s);
    DropListed(bs, h.free, h.pool, i + 1);
    MoveIsPlacing(bs, i, y);
    var d := Drop(bs, i + 1);
    forall k | 0 <= k < |d| ensures d[k].off != y { DropApart(bs, h.pool, i, k, y); }
    assert !IsFree(d, y);
  }

  lemma DropApart(bs: seq<Block>, pool: nat, i: nat, k: nat, y: int)
    requires Tiled(bs, pool) && i + 2 < |bs| && bs[i].off < y < bs[i + 2].off && k + 1 < |bs|
    ensures Drop(bs, i + 1)[k].off != y
  {
    if k < i { Ascending(bs, pool, k, i); } else if i + 1 < k { Ascending(bs, pool, i + 2, k + 1); }
  }

  // A used block is still there after an allocation.
  lemma StaysLive(h: Heap, i: nat, s: nat)
    requires Invariant(h) && i + 1 < |h.blocks| && h.blocks[i].used
    ensures var (m, p) := MemHeapSpec.Alloc(h, s);
      var k := IndexOf(m.blocks, h.blocks[i].off);
      && k + 1 < |m.blocks| && m.blocks[k] == h.blocks[i]
      && MemHeapSpec.Move(h, h.blocks[i].off, s) == (if p.None? then (m, p) else (MemHeapSpec.Free(m, k), p))
  {
    hide Invariant, MemHeapSpec.Alloc, MemHeapSpec.Free;
    UsedPayload(h, i);
    AllocKeepsInvariant(h, s);
    AllocKeepsLive(h, s);
    var k := LiveIndex(MemHeapSpec.Alloc(h, s).0, h.blocks[i].off, Payload(h.blocks, i));
  }
}
