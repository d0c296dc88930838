// What memheap.c promises, proved of the operations of MemHeapSpec for every heap
// that satisfies the invariant, and for every run.
module MemHeapProofs {
  import opened Common
  import opened Sequences
  import opened Blocks
  import opened Rings
  import opened MemHeapSpec

  // ----- sums -----

  lemma {:induction false} SumAppend(a: seq<Block>, b: seq<Block>)
    requires b != []
    ensures FreeSum(a + b) == FreeSum(a + [b[0]]) + FreeSum(b)
  {
    if a == [] {
      assert a + b == b && a + [b[0]] == [b[0]];
    } else {
      assert (a + b)[1..] == a[1..] + b && (a + [b[0]])[1..] == a[1..] + [b[0]];
      SumAppend(a[1..], b);
    }
  }

  // Replacing the blocks a between pre and post by b, from the same offset on.
  lemma SumReplace(pre: seq<Block>, a: seq<Block>, b: seq<Block>, post: seq<Block>)
    requires a != [] && b != [] && post != [] && a[0].off == b[0].off
    ensures FreeSum(pre + a + post) - FreeSum(pre + b + post) == FreeSum(a + [post[0]]) - FreeSum(b + [post[0]])
  {
    SumAround(pre, a, post);
    SumAround(pre, b, post);
    SumEnd(pre, a[0], b[0]);
  }

  lemma SumAround(pre: seq<Block>, a: seq<Block>, post: seq<Block>)
    requires a != [] && post != []
    ensures FreeSum(pre + a + post) == FreeSum(pre + [a[0]]) + FreeSum(a + [post[0]]) + FreeSum(post)
  {
    hide FreeSum;
    assert pre + a + post == pre + (a + post);
    SumAppend(pre, a + post);
    SumAppend(a, post);
  }

  // Only the offset of the last block counts.
  lemma {:induction false} SumEnd(pre: seq<Block>, x: Block, y: Block)
    requires x.off == y.off
    ensures FreeSum(pre + [x]) == FreeSum(pre + [y])
  {
    if pre != [] {
      assert (pre + [x])[1..] == pre[1..] + [x] && (pre + [y])[1..] == pre[1..] + [y];
      SumEnd(pre[1..], x, y);
    }
  }

  lemma SumOne(x: Block, y: Block)
    ensures FreeSum([x, y]) == if x.used then 0 else y.off - x.off - HDR
  {
    assert [x, y][1..] == [y];
  }

  lemma SumTwo(x: Block, y: Block, z: Block)
    ensures FreeSum([x, y, z]) == (if x.used then 0 else y.off - x.off - HDR) + (if y.used then 0 else z.off - y.off - HDR)
  {
    assert [x, y, z][1..] == [y, z];
    SumOne(y, z);
  }

  // Payloads and headers always add up to the pool.
  lemma {:induction false} Conservation(bs: seq<Block>)
    requires |bs| > 0
    ensures FreeSum(bs) + UsedSum(bs) + HDR * (|bs| - 1) == bs[|bs| - 1].off - bs[0].off
  {
    if |bs| > 1 {
      Conservation(bs[1..]);
    }
  }

  lemma PoolIsConserved(h: Heap)
    requires Invariant(h)
    ensures h.available + UsedSum(h.blocks) + HDR * |h.blocks| == h.pool
  {
    Conservation(h.blocks);
  }

  // ----- offsets -----

  lemma {:induction false} Ascending(bs: seq<Block>, pool: nat, i: nat, j: nat)
    requires Tiled(bs, pool) && i < j < |bs|
    ensures bs[i].off + HDR <= bs[j].off
    decreases j
  {
    assert Sound(bs, j - 1);
    if i < j - 1 { Ascending(bs, pool, i, j - 1); }
  }

  lemma OffsetsDistinct(bs: seq<Block>, pool: nat)
    requires Tiled(bs, pool)
    ensures forall i, j :: 0 <= i < |bs| && 0 <= j < |bs| && bs[i].off == bs[j].off ==> i == j
  {
    forall i, j | 0 <= i < j < |bs| ensures bs[i].off != bs[j].off {
      Ascending(bs, pool, i, j);
    }
  }

  lemma IndexIs(bs: seq<Block>, pool: nat, i: nat)
    requires Tiled(bs, pool) && i < |bs|
    ensures IndexOf(bs, bs[i].off) == i
  {
    OffsetsDistinct(bs, pool);
  }

  // ----- the edits of the block list -----

  lemma SplitAt(bs: seq<Block>, i: nat, s: nat)
    requires i < |bs|
    ensures |Split(bs, i, s)| == |bs| + 1
    ensures forall k :: 0 <= k < i ==> Split(bs, i, s)[k] == bs[k]
    ensures Split(bs, i, s)[i] == Block(bs[i].off, true) && Split(bs, i, s)[i + 1] == Block(bs[i].off + HDR + s, false)
    ensures forall k :: i + 1 < k <= |bs| ==> Split(bs, i, s)[k] == bs[k - 1]
  {
  }

  lemma SplitTiled(bs: seq<Block>, pool: nat, i: nat, s: nat)
    requires Tiled(bs, pool) && i + 1 < |bs| && s % 4 == 0 && MIN <= s && s + HDR <= Payload(bs, i)
    ensures Tiled(Split(bs, i, s), pool)
  {
    var r := Split(bs, i, s);
    SplitAt(bs, i, s);
    assert Sound(bs, i);
    forall k | 0 <= k < |r| - 1 ensures Sound(r, k) {
      if k < i { assert Sound(bs, k); } else if k > i + 1 { assert Sound(bs, k - 1); }
    }
  }

  lemma SplitOk(bs: seq<Block>, pool: nat, i: nat, s: nat)
    requires Tiled(bs, pool) && i + 1 < |bs| && s % 4 == 0 && MIN <= s && s + HDR <= Payload(bs, i)
    ensures Tiled(Split(bs, i, s), pool)
    ensures FreeSum(Split(bs, i, s)) == FreeSum(bs) + (Payload(bs, i) - s - HDR) - if bs[i].used then 0 else Payload(bs, i)
  {
    SplitTiled(bs, pool, i, s);
    hide Tiled, Sound, FreeSum;
    var (x, y, z) := (Block(bs[i].off, true), Block(bs[i].off + HDR + s, false), bs[i + 1]);
    SumReplace(bs[..i], [bs[i]], [x, y], bs[i + 1..]);
    assert bs == bs[..i] + [bs[i]] + bs[i + 1..];
    assert [bs[i]] + [z] == [bs[i], z] && [x, y] + [z] == [x, y, z];
    SumOne(bs[i], z);
    SumTwo(x, y, z);
  }

  lemma MarkOk(bs: seq<Block>, pool: nat, i: nat, used: bool)
    requires Tiled(bs, pool) && i + 1 < |bs| && bs[i].used != used && MIN <= Payload(bs, i)
    ensures Tiled(bs[i := Block(bs[i].off, used)], pool)
    ensures FreeSum(bs[i := Block(bs[i].off, used)]) == FreeSum(bs) + if used then -Payload(bs, i) else Payload(bs, i)
  {
    var (b, z) := (Block(bs[i].off, used), bs[i + 1]);
    var r := bs[i := b];
    forall k | 0 <= k < |r| - 1 ensures Sound(r, k) { assert Sound(bs, k); }
    SumReplace(bs[..i], [bs[i]], [b], bs[i + 1..]);
    assert bs == bs[..i] + [bs[i]] + bs[i + 1..];
    assert r == bs[..i] + [b] + bs[i + 1..];
    assert [bs[i]] + [z] == [bs[i], z] && [b] + [z] == [b, z];
    SumOne(bs[i], z);
    SumOne(b, z);
  }

  lemma DropTiled(bs: seq<Block>, pool: nat, i: nat)
    requires Tiled(bs, pool) && 0 < i && i + 1 < |bs| && BothFree(bs, i)
    ensures Tiled(Drop(bs, i), pool)
  {
    var r := Drop(bs, i);
    assert Sound(bs, i) && Sound(bs, i - 1);
    forall k | 0 <= k < |r| - 1 ensures Sound(r, k) { assert Sound(bs, if k < i then k else k + 1); }
  }

  lemma DropOk(bs: seq<Block>, pool: nat, i: nat)
    requires Tiled(bs, pool) && 0 < i && i + 1 < |bs| && BothFree(bs, i)
    ensures Tiled(Drop(bs, i), pool) && FreeSum(Drop(bs, i)) == FreeSum(bs) + HDR
  {
    var r := Drop(bs, i);
    DropTiled(bs, pool, i);
    hide Tiled, Sound, FreeSum;
    var (x, y, z) := (bs[i - 1], bs[i], bs[i + 1]);
    SumReplace(bs[..i - 1], [x, y], [x], bs[i + 1..]);
    assert bs == bs[..i - 1] + [x, y] + bs[i + 1..];
    assert r == bs[..i - 1] + [x] + bs[i + 1..];
    assert [x, y] + [z] == [x, y, z] && [x] + [z] == [x, z];
    SumOne(x, z);
    SumTwo(x, y, z);
  }

  // Moving the header of the free block i + 1 behind s bytes of block i.
  lemma MoveOk(bs: seq<Block>, pool: nat, i: nat, s: nat)
    requires Tiled(bs, pool) && i + 2 < |bs| && bs[i].used && !bs[i + 1].used
    requires s % 4 == 0 && MIN <= s && s <= Payload(bs, i) + Payload(bs, i + 1)
    ensures var r := bs[i + 1 := Block(bs[i].off + HDR + s, false)];
      Tiled(r, pool) && FreeSum(r) == FreeSum(bs) - (s - Payload(bs, i))
  {
    var (b, z) := (Block(bs[i].off + HDR + s, false), bs[i + 2]);
    var r := bs[i + 1 := b];
    assert Sound(bs, i) && Sound(bs, i + 1);
    forall k | 0 <= k < |r| - 1 ensures Sound(r, k) { assert Sound(bs, k); }
    SumReplace(bs[..i], [bs[i], bs[i + 1]], [bs[i], b], bs[i + 2..]);
    assert bs == bs[..i] + [bs[i], bs[i + 1]] + bs[i + 2..];
    assert r == bs[..i] + [bs[i], b] + bs[i + 2..];
    assert [bs[i], bs[i + 1]] + [z] == [bs[i], bs[i + 1], z] && [bs[i], b] + [z] == [bs[i], b, z];
    SumTwo(bs[i], bs[i + 1], z);
    SumTwo(bs[i], b, z);
  }

  // ----- the free list follows -----

  lemma SplitListed(bs: seq<Block>, free: seq<int>, pool: nat, i: nat, s: nat)
    requires Tiled(bs, pool) && Listed(bs, free) && i + 1 < |bs| && Tiled(Split(bs, i, s), pool)
    ensures Listed(Split(bs, i, s), [bs[i].off + HDR + s] + Without(free, bs[i].off))
  {
    var (r, new_) := (Split(bs, i, s), bs[i].off + HDR + s);
    var list := [new_] + Without(free, bs[i].off);
    SplitAt(bs, i, s);
    WithoutIn(free, bs[i].off);
    OffsetsDistinct(bs, pool);
    OffsetsDistinct(r, pool);
    assert r[i + 1].off == new_;
    forall off: int ensures off in list <==> IsFree(r, off) {
      if off == new_ { assert !r[i + 1].used; }
      if off in Without(free, bs[i].off) {
        var k :| 0 <= k < |bs| && bs[k].off == off && !bs[k].used;
        assert r[if k < i then k else k + 1] == bs[k];
      }
      if IsFree(r, off) && off != new_ {
        var k :| 0 <= k < |r| && r[k].off == off && !r[k].used;
        assert r[k] == bs[if k < i then k else k - 1];
      }
    }
    assert !IsFree(bs, new_) by {
      forall k | 0 <= k < |bs| ensures bs[k].off != new_ {
        if k < i { assert r[k] == bs[k]; } else if k > i { assert r[k + 1] == bs[k]; } else { assert r[i].off == bs[i].off; }
      }
    }
  }

  lemma MarkListed(bs: seq<Block>, free: seq<int>, pool: nat, i: nat, used: bool)
    requires Tiled(bs, pool) && Listed(bs, free) && i + 1 < |bs| && bs[i].used != used
    ensures Listed(bs[i := Block(bs[i].off, used)], if used then Without(free, bs[i].off) else [bs[i].off] + free)
  {
    hide Tiled, IsFree;
    var r := bs[i := Block(bs[i].off, used)];
    WithoutIn(free, bs[i].off);
    forall off: int ensures IsFree(r, off) <==> if off == bs[i].off then !used else IsFree(bs, off) { MarkFrees(bs, pool, i, used, off); }
    MarkFrees(bs, pool, i, used, bs[i].off);
    var list := if used then Without(free, bs[i].off) else [bs[i].off] + free;
    assert forall off: int :: off in list <==> if off == bs[i].off then !used else off in free;
  }

  lemma MarkFrees(bs: seq<Block>, pool: nat, i: nat, used: bool, off: int)
    requires Tiled(bs, pool) && i + 1 < |bs| && bs[i].used != used
    ensures IsFree(bs[i := Block(bs[i].off, used)], off) <==> if off == bs[i].off then !used else IsFree(bs, off)
    ensures !used ==> !IsFree(bs, bs[i].off)
  {
    var r := bs[i := Block(bs[i].off, used)];
    OffsetsDistinct(bs, pool);
    if off == bs[i].off { assert r[i].off == off; }
    if IsFree(bs, off) && off != bs[i].off {
      var k :| 0 <= k < |bs| && bs[k].off == off && !bs[k].used;
      assert r[k] == bs[k];
    }
    if IsFree(r, off) && off != bs[i].off {
      var k :| 0 <= k < |r| && r[k].off == off && !r[k].used;
      assert r[k] == bs[k];
    }
  }

  lemma DropListed(bs: seq<Block>, free: seq<int>, pool: nat, i: nat)
    requires Tiled(bs, pool) && Listed(bs, free) && i < |bs|
    ensures Listed(Drop(bs, i), Without(free, bs[i].off))
  {
    var r := Drop(bs, i);
    WithoutIn(free, bs[i].off);
    OffsetsDistinct(bs, pool);
    forall off: int ensures IsFree(r, off) <==> IsFree(bs, off) && off != bs[i].off {
      if IsFree(bs, off) && off != bs[i].off {
        var k :| 0 <= k < |bs| && bs[k].off == off && !bs[k].used;
        assert r[if k < i then k else k - 1] == bs[k];
      }
      if IsFree(r, off) {
        var k :| 0 <= k < |r| && r[k].off == off && !r[k].used;
        assert r[k] == bs[if k < i then k else k + 1];
      }
    }
  }

  // ----- each operation keeps the invariant -----

  lemma TakeKeepsInvariant(h: Heap, i: nat, s: nat)
    requires Invariant(h) && i + 1 < |h.blocks| && !h.blocks[i].used && s % 4 == 0 && MIN <= s <= Payload(h.blocks, i)
    ensures Invariant(Take(h, i, s))
  {
    hide FreeSum, Split, Listed, Without;
    var bs := h.blocks;
    if Splits(bs, i, s) {
      SplitOk(bs, h.pool, i, s);
      SplitListed(bs, h.free, h.pool, i, s);
      SplitAt(bs, i, s);
      forall k | 0 < k < |bs| + 1 ensures !BothFree(Split(bs, i, s), k) {
        if k < i { assert !BothFree(bs, k); } else if k > i + 1 { assert !BothFree(bs, k - 1); }
      }
    } else {
      MarkOk(bs, h.pool, i, true);
      MarkListed(bs, h.free, h.pool, i, true);
      var r := bs[i := Block(bs[i].off, true)];
      forall k | 0 < k < |bs| ensures !BothFree(r, k) {
        assert !BothFree(bs, k);
      }
    }
  }

  // Joining the free block i with its right neighbour.
  lemma JoinRightOk(bs: seq<Block>, free: seq<int>, pool: nat, i: nat)
    requires Tiled(bs, pool) && i + 1 < |bs| && !bs[i].used && Listed(bs, free)
    requires forall k :: 0 < k < |bs| && k != i + 1 ==> !BothFree(bs, k)
    ensures var r := JoinRight(bs, i);
      Tiled(r, pool) && Coalesced(r) && FreeSum(r) == FreeSum(bs) + if MergesRight(bs, i) then HDR else 0
    ensures Listed(JoinRight(bs, i), ListRight(bs, i, free))
  {
    hide FreeSum;
    var r := JoinRight(bs, i);
    if MergesRight(bs, i) {
      assert BothFree(bs, i + 1);
      DropOk(bs, pool, i + 1);
      DropListed(bs, free, pool, i + 1);
      forall k | 0 < k < |r| ensures !BothFree(r, k) {
        if k <= i { assert !BothFree(bs, k); } else { assert !BothFree(bs, k + 1); }
      }
    } else {
      forall k | 0 < k < |r| ensures !BothFree(r, k) { assert k != i + 1 ==> !BothFree(bs, k); }
    }
  }

  // The head of the list is not its right neighbour.
  lemma ListRightCons(bs: seq<Block>, pool: nat, i: nat, free: seq<int>)
    requires Tiled(bs, pool) && i + 1 < |bs|
    ensures ListRight(bs, i, [bs[i].off] + free) == [bs[i].off] + ListRight(bs, i, free)
  {
    Ascending(bs, pool, i, i + 1);
    assert ([bs[i].off] + free)[1..] == free;
  }

  lemma FreedLeft(bs: seq<Block>, free: seq<int>, pool: nat, i: nat)
    requires Tiled(bs, pool) && 0 < i && i + 1 < |bs| && BothFree(bs, i) && Listed(bs, [bs[i].off] + free) && CoalescedBut(bs, i)
    ensures var mid := Drop(bs, i);
      && Tiled(JoinRight(mid, i - 1), pool) && Coalesced(JoinRight(mid, i - 1)) && Listed(JoinRight(mid, i - 1), ListRight(mid, i - 1, free))
      && FreeSum(JoinRight(mid, i - 1)) == FreeSum(bs) + HDR + if MergesRight(mid, i - 1) then HDR else 0
  {
    hide FreeSum, JoinRight, MergesRight, ListRight;
    var mid := Drop(bs, i);
    DropOk(bs, pool, i);
    DropListed(bs, [bs[i].off] + free, pool, i);
    assert Without([bs[i].off] + free, bs[i].off) == free by {
      assert ([bs[i].off] + free)[1..] == free;
      assert forall j :: 0 <= j < |free| ==> ([bs[i].off] + free)[j + 1] == free[j];
      WithoutIn(free, bs[i].off);
    }
    forall k | 0 < k < |mid| && k != i ensures !BothFree(mid, k) {
      if k < i { assert !BothFree(bs, k); } else { assert !BothFree(bs, k + 1); }
    }
    JoinRightOk(mid, free, pool, i - 1);
  }

  lemma FreedAlone(bs: seq<Block>, free: seq<int>, pool: nat, i: nat)
    requires Tiled(bs, pool) && i + 1 < |bs| && !bs[i].used && !MergesLeft(bs, i)
    requires Listed(bs, [bs[i].off] + free) && CoalescedBut(bs, i)
    ensures Tiled(JoinRight(bs, i), pool) && Coalesced(JoinRight(bs, i)) && Listed(JoinRight(bs, i), [bs[i].off] + ListRight(bs, i, free))
    ensures FreeSum(JoinRight(bs, i)) == FreeSum(bs) + if MergesRight(bs, i) then HDR else 0
  {
    hide FreeSum, JoinRight, MergesRight, ListRight;
    forall k | 0 < k < |bs| && k != i + 1 ensures !BothFree(bs, k) {}
    JoinRightOk(bs, [bs[i].off] + free, pool, i);
    ListRightCons(bs, pool, i, free);
  }

  lemma FreeKeepsInvariant(h: Heap, i: nat)
    requires Invariant(h) && i + 1 < |h.blocks| && h.blocks[i].used
    ensures Invariant(Free(h, i))
  {
    hide FreeSum, JoinRight, MergesRight, ListRight, Listed;
    var off := h.blocks[i].off;
    assert Sound(h.blocks, i);
    var bs := h.blocks[i := Block(off, false)];
    MarkOk(h.blocks, h.pool, i, false);
    MarkListed(h.blocks, h.free, h.pool, i, false);
    forall k | 0 < k < |bs| && k != i && k != i + 1 ensures !BothFree(bs, k) { assert !BothFree(h.blocks, k); }
    if MergesLeft(bs, i) {
      FreedLeft(bs, h.free, h.pool, i);
    } else {
      FreedAlone(bs, h.free, h.pool, i);
    }
  }

  lemma ShrinkKeepsInvariant(h: Heap, i: nat, s: nat)
    requires Invariant(h) && i + 1 < |h.blocks| && h.blocks[i].used && s % 4 == 0 && MIN <= s
    requires s + HDR + MIN < Payload(h.blocks, i)
    ensures Invariant(Shrink(h, i, s))
  {
    hide FreeSum, JoinRight, MergesRight, ListRight;
    var bs := Split(h.blocks, i, s);
    SplitOk(h.blocks, h.pool, i, s);
    SplitListed(h.blocks, h.free, h.pool, i, s);
    SplitAt(h.blocks, i, s);
    assert !IsFree(h.blocks, h.blocks[i].off) by { OffsetsDistinct(h.blocks, h.pool); }
    WithoutIn(h.free, h.blocks[i].off);
    forall k | 0 < k < |bs| && k != i + 1 && k != i + 2 ensures !BothFree(bs, k) {
      if k <= i { assert !BothFree(h.blocks, k); } else { assert !BothFree(h.blocks, k - 1); }
    }
    FreedAlone(bs, h.free, h.pool, i + 1);
  }

  lemma GrowKeepsInvariant(h: Heap, i: nat, s: nat)
    requires Invariant(h) && i + 1 < |h.blocks| && h.blocks[i].used && s % 4 == 0 && s + MIN < U32
    requires Payload(h.blocks, i) < s && Grows(h.blocks, i, s)
    ensures Invariant(Grow(h, i, s))
  {
    hide FreeSum;
    var bs := h.blocks;
    assert Sound(bs, i);
    if i + 2 < |bs| - 1 { Ascending(bs, h.pool, i + 2, |bs| - 1); }
    assert GrownOff(bs, i, s) == bs[i].off + HDR + s;
    MoveOk(bs, h.pool, i, s);
    var r := bs[i + 1 := Block(bs[i].off + HDR + s, false)];
    DropListed(bs, h.free, h.pool, i + 1);
    forall k | 0 < k < |bs| ensures !BothFree(r, k) { assert !BothFree(bs, k); }
    MoveListed(bs, h.free, h.pool, i, s);
    InPool(r, h.pool);
  }

  lemma InPool(bs: seq<Block>, pool: nat)
    requires Tiled(bs, pool) && pool < U32
    ensures FreeSum(bs) % U32 == FreeSum(bs) && (pool - FreeSum(bs)) % U32 == pool - FreeSum(bs)
  {
    Conservation(bs);
    SumsAreNat(bs);
  }

  lemma {:induction false} SumsAreNat(bs: seq<Block>)
    requires forall i :: 0 <= i < |bs| - 1 ==> Sound(bs, i)
    ensures 0 <= FreeSum(bs) && 0 <= UsedSum(bs)
  {
    if |bs| > 1 {
      assert Sound(bs, 0);
      forall i | 0 <= i < |bs[1..]| - 1 ensures Sound(bs[1..], i) { assert Sound(bs, i + 1); }
      SumsAreNat(bs[1..]);
    }
  }

  lemma MoveListed(bs: seq<Block>, free: seq<int>, pool: nat, i: nat, s: nat)
    requires Tiled(bs, pool) && Listed(bs, free) && i + 2 < |bs| && !bs[i + 1].used
    requires Tiled(bs[i + 1 := Block(bs[i].off + HDR + s, false)], pool)
    ensures Listed(bs[i + 1 := Block(bs[i].off + HDR + s, false)], [bs[i].off + HDR + s] + Without(free, bs[i + 1].off))
  {
    var r := bs[i + 1 := Block(bs[i].off + HDR + s, false)];
    var (rest, new_) := (Without(free, bs[i + 1].off), bs[i].off + HDR + s);
    DropListed(bs, free, pool, i + 1);
    OffsetsDistinct(r, pool);
    var d := Drop(bs, i + 1);
    forall off: int ensures IsFree(r, off) <==> off == new_ || IsFree(d, off) {
      assert r[i + 1].off == new_ && !r[i + 1].used;
      if IsFree(d, off) {
        var k :| 0 <= k < |d| && d[k].off == off && !d[k].used;
        assert r[if k < i + 1 then k else k + 1] == d[k];
      }
      if IsFree(r, off) && off != new_ {
        var k :| 0 <= k < |r| && r[k].off == off && !r[k].used;
        assert d[if k < i + 1 then k else k - 1] == r[k];
      }
    }
    assert !IsFree(d, new_) by {
      forall k | 0 <= k < |d| ensures d[k].off != new_ {
        var m := if k < i + 1 then k else k + 1;
        assert r[m] == d[k] && m != i + 1;
        assert r[m].off == r[i + 1].off ==> m == i + 1;
      }
    }
  }
}
