// What mem.c promises, proved of the operations of SmallMemSpec for every heap
// that satisfies the invariant and, at the end, for every run of operations.
module SmallMemProofs {
  import opened Common
  import opened Blocks
  import opened SmallMemSpec

  // ----- summed extents -----

  lemma {:induction false} ExtentAppend(a: seq<Block>, b: seq<Block>, end: nat)
    ensures UsedExtent(a + b, end) == UsedExtent(a, if b == [] then end else b[0].off) + UsedExtent(b, end)
  {
    if a == [] {
      assert a + b == b;
    } else {
      assert (a + b)[1..] == a[1..] + b;
      ExtentAppend(a[1..], b, end);
    }
  }

  // Replacing the stretch old of a block list by new, both starting at the same
  // offset, changes the sum by the difference of the two stretches.
  lemma ExtentReplace(pre: seq<Block>, old_: seq<Block>, new_: seq<Block>, post: seq<Block>, end: nat)
    requires old_ != [] && new_ != [] && old_[0].off == new_[0].off
    ensures var stop := if post == [] then end else post[0].off;
            UsedExtent(pre + new_ + post, end) - UsedExtent(pre + old_ + post, end)
            == UsedExtent(new_, stop) - UsedExtent(old_, stop)
  {
    forall mid | mid == old_ || mid == new_
      ensures var stop := if post == [] then end else post[0].off;
              UsedExtent(pre + mid + post, end)
              == UsedExtent(pre, old_[0].off) + UsedExtent(mid, stop) + UsedExtent(post, end)
    {
      assert pre + mid + post == pre + (mid + post);
      ExtentAppend(pre, mid + post, end);
      ExtentAppend(mid, post, end);
    }
  }

  lemma ExtentOne(b: Block, end: nat)
    ensures UsedExtent([b], end) == if b.used then end - b.off else 0
  {
  }

  lemma ExtentTwo(b: Block, c: Block, end: nat)
    ensures UsedExtent([b, c], end)
            == (if b.used then c.off - b.off else 0) + (if c.used then end - c.off else 0)
  {
    assert [b, c][1..] == [c];
    ExtentOne(c, end);
  }

  // ----- the three edits keep the chain well formed -----

  lemma SetOk(bs: seq<Block>, end: nat, i: nat, used: bool)
    requires i < |bs| && Tiled(bs, end) && bs[i].used != used
    ensures Tiled(bs[i := Block(bs[i].off, used)], end)
    ensures UsedExtent(bs[i := Block(bs[i].off, used)], end) == UsedExtent(bs, end)
               + (if used then LimitOf(bs, end, i) - bs[i].off else bs[i].off - LimitOf(bs, end, i))
  {
    var b := Block(bs[i].off, used);
    var r := bs[i := b];
    forall k | 0 <= k < |r| ensures Sound(r, end, k) { assert Sound(bs, end, k); }
    ExtentReplace(bs[..i], [bs[i]], [b], bs[i + 1..], end);
    assert bs == bs[..i] + [bs[i]] + bs[i + 1..];
    assert r == bs[..i] + [b] + bs[i + 1..];
    ExtentOne(bs[i], LimitOf(bs, end, i));
    ExtentOne(b, LimitOf(bs, end, i));
  }

  lemma CutAt(bs: seq<Block>, i: nat, s: nat, k: nat)
    requires i < |bs| && k < |bs| + 1
    ensures |Cut(bs, i, s)| == |bs| + 1
    ensures Cut(bs, i, s)[k] == if k < i then bs[k] else if k == i then Block(bs[i].off, true)
                                else if k == i + 1 then Block(bs[i].off + HDR + s, false) else bs[k - 1]
  {
  }

  lemma CutOk(bs: seq<Block>, end: nat, i: nat, s: nat)
    requires i < |bs| && Tiled(bs, end) && s % 4 == 0 && 4 <= s
    requires s + HDR + STEP <= LimitOf(bs, end, i) - bs[i].off
    ensures Tiled(Cut(bs, i, s), end)
  {
    var r := Cut(bs, i, s);
    assert Sound(bs, end, i);
    forall k | 0 <= k < |r| ensures Sound(r, end, k) {
      CutAt(bs, i, s, k);
      if k + 1 < |r| { CutAt(bs, i, s, k + 1); }
      if k < i { assert Sound(bs, end, k); } else if k > i + 1 { assert Sound(bs, end, k - 1); }
    }
    CutAt(bs, i, s, 0);
  }

  lemma CutExtent(bs: seq<Block>, end: nat, i: nat, s: nat)
    requires i < |bs|
    ensures UsedExtent(Cut(bs, i, s), end)
            == UsedExtent(bs, end) + s + HDR - (if bs[i].used then LimitOf(bs, end, i) - bs[i].off else 0)
  {
    var b, c := Block(bs[i].off, true), Block(bs[i].off + HDR + s, false);
    ExtentReplace(bs[..i], [bs[i]], [b, c], bs[i + 1..], end);
    assert bs == bs[..i] + [bs[i]] + bs[i + 1..];
    ExtentOne(bs[i], LimitOf(bs, end, i));
    ExtentTwo(b, c, LimitOf(bs, end, i));
  }

  // A free block that follows a free block can be dropped from the chain.
  lemma DropOk(bs: seq<Block>, end: nat, i: nat)
    requires 0 < i < |bs| && Tiled(bs, end) && BothFree(bs, i)
    ensures Tiled(Drop(bs, i), end)
    ensures UsedExtent(Drop(bs, i), end) == UsedExtent(bs, end)
  {
    var r := Drop(bs, i);
    assert Sound(bs, end, i);
    forall k | 0 <= k < |r| ensures Sound(r, end, k) {
      assert Sound(bs, end, if k < i then k else k + 1);
    }
    var stop := LimitOf(bs, end, i);
    ExtentReplace(bs[..i - 1], [bs[i - 1], bs[i]], [bs[i - 1]], bs[i + 1..], end);
    assert bs == bs[..i - 1] + [bs[i - 1], bs[i]] + bs[i + 1..];
    assert r == bs[..i - 1] + [bs[i - 1]] + bs[i + 1..];
    ExtentOne(bs[i - 1], stop);
    ExtentTwo(bs[i - 1], bs[i], stop);
  }

  lemma PlugNextOk(bs: seq<Block>, end: nat, i: nat)
    requires i < |bs| && Tiled(bs, end) && CoalescedBut(bs, i) && !bs[i].used
    ensures var mid := PlugNext(bs, i);
            && i < |mid| && Tiled(mid, end) && UsedExtent(mid, end) == UsedExtent(bs, end)
            && (forall k :: 0 < k < |mid| && k != i ==> !BothFree(mid, k)) && mid[i] == bs[i]
  {
    var mid := PlugNext(bs, i);
    if MergesNext(bs, i) {
      assert BothFree(bs, i + 1);
      DropOk(bs, end, i + 1);
      assert mid == Drop(bs, i + 1);
      forall k | 0 < k < |mid| && k != i ensures !BothFree(mid, k) {
        if k < i { assert !BothFree(bs, k); }
        else if k > i + 1 { assert !BothFree(bs, k + 1); }
        else { assert i + 2 < |bs| ==> !BothFree(bs, i + 2); }
      }
    } else {
      forall k | 0 < k < |mid| && k != i ensures !BothFree(mid, k) {
        assert k != i + 1 ==> !BothFree(bs, k);
      }
    }
  }

  // plug_holes restores the invariant around a block that has just become free.
  lemma PlugOk(bs: seq<Block>, end: nat, i: nat)
    requires i < |bs| && Tiled(bs, end) && CoalescedBut(bs, i) && !bs[i].used
    ensures Tiled(Plug(bs, i), end) && Coalesced(Plug(bs, i))
    ensures UsedExtent(Plug(bs, i), end) == UsedExtent(bs, end)
  {
    PlugNextOk(bs, end, i);
    var mid := PlugNext(bs, i);
    var r := Plug(bs, i);
    if MergesPrev(mid, i) {
      assert BothFree(mid, i);
      DropOk(mid, end, i);
      assert r == Drop(mid, i);
      forall k | 0 < k < |r| ensures !BothFree(r, k) {
        if k < i { assert !BothFree(mid, k); }
        else { assert !BothFree(mid, k + 1); }
      }
    } else {
      forall k | 0 < k < |r| ensures !BothFree(r, k) { assert k != i ==> !BothFree(mid, k); }
    }
  }

  // lfree stays a free block of the chain, or the end, across plug_holes.
  lemma PlugLfreeOk(bs: seq<Block>, i: nat, k: nat)
    requires i < |bs| && k < |bs| && !bs[i].used && !bs[k].used
    requires bs[i].off == bs[k].off ==> i == k
    requires i + 1 < |bs| && bs[i + 1].off == bs[k].off ==> i + 1 == k
    ensures IsFree(Plug(bs, i), PlugLfree(bs, i, bs[k].off))
  {
    var mid := PlugNext(bs, i);
    var j := if MergesNext(bs, i) then (if k == i + 1 then i else if k <= i then k else k - 1) else k;
    var l := if MergesNext(bs, i) && k == i + 1 then bs[i].off else bs[k].off;
    assert mid[j] == Block(l, false);
    assert mid[i] == bs[i];
    var r := Plug(bs, i);
    if MergesPrev(bs, i) {
      assert mid[i - 1] == bs[i - 1];
      assert r[if j < i then j else j - 1] == Block(PlugLfree(bs, i, bs[k].off), false);
    } else {
      assert r[j] == Block(l, false);
    }
  }

  lemma {:induction false} Ascending(bs: seq<Block>, end: nat, i: nat, j: nat)
    requires Tiled(bs, end) && i < j <= |bs|
    ensures bs[i].off + STEP <= if j < |bs| then bs[j].off else end
  {
    assert Sound(bs, end, j - 1);
    if i + 1 < j { Ascending(bs, end, i, j - 1); }
  }

  lemma LimitBound(bs: seq<Block>, end: nat, i: nat)
    requires Tiled(bs, end) && i < |bs|
    ensures bs[i].off + STEP <= LimitOf(bs, end, i) <= end
  {
    assert Sound(bs, end, i);
    if i + 1 < |bs| { Ascending(bs, end, i + 1, |bs|); }
  }

  lemma OffsetsDistinct(bs: seq<Block>, end: nat, i: nat, j: nat)
    requires Tiled(bs, end) && i < |bs| && j < |bs| && bs[i].off == bs[j].off
    ensures i == j
  {
    if i < j { Ascending(bs, end, i, j); } else if j < i { Ascending(bs, end, j, i); }
  }

  // ----- each operation keeps the invariant -----

  lemma {:induction false} NextFreeOk(bs: seq<Block>, end: nat, i: nat)
    requires i <= |bs|
    ensures NextFree(bs, end, i) == end || IsFree(bs, NextFree(bs, end, i))
    decreases |bs| - i
  {
    if i < |bs| {
      if bs[i].used {
        NextFreeOk(bs, end, i + 1);
      } else {
        assert bs[i] == Block(bs[i].off, false);
      }
    }
  }

  // What AllocAt leaves of block k, and where.
  function Shifted(h: Heap, i: nat, s: nat, k: nat): nat
    requires i < |h.blocks|
  {
    if Splits(h, i, s) && i < k then k + 1 else k
  }

  lemma AllocBlock(h: Heap, i: nat, s: nat)
    requires i < |h.blocks|
    ensures var r := AllocAt(h, i, s);
            && i < |r.blocks| && r.blocks[i] == Block(h.blocks[i].off, true)
            && r.Limit(i) == if Splits(h, i, s) then h.blocks[i].off + HDR + s else h.Limit(i)
  {
    if Splits(h, i, s) { CutAt(h.blocks, i, s, i); CutAt(h.blocks, i, s, i + 1); }
  }

  lemma AllocOther(h: Heap, i: nat, s: nat, k: nat)
    requires i < |h.blocks| && k < |h.blocks| && k != i
    ensures var (r, k') := (AllocAt(h, i, s), Shifted(h, i, s, k));
            && k' < |r.blocks| && r.blocks[k'] == h.blocks[k] && r.Limit(k') == h.Limit(k)
  {
    if Splits(h, i, s) {
      var k' := Shifted(h, i, s, k);
      CutAt(h.blocks, i, s, k');
      if k' < |h.blocks| { CutAt(h.blocks, i, s, k' + 1); }
    }
  }

  lemma AllocChain(h: Heap, i: nat, s: nat)
    requires Invariant(h) && i < |h.blocks| && Candidate(h, i, s) && s % 4 == 0 && MIN <= s
    ensures var r := AllocAt(h, i, s);
            Tiled(r.blocks, h.End()) && Coalesced(r.blocks) && h.used <= r.used == UsedExtent(r.blocks, h.End())
  {
    var (bs, r) := (h.blocks, AllocAt(h, i, s).blocks);
    assert Sound(bs, h.End(), i);
    if Splits(h, i, s) { CutOk(bs, h.End(), i, s); CutExtent(bs, h.End(), i, s); }
    else { SetOk(bs, h.End(), i, true); }
    forall k | 0 < k < |r| ensures !BothFree(r, k) {
      if Splits(h, i, s) {
        CutAt(bs, i, s, k);
        CutAt(bs, i, s, k - 1);
        if k == i + 2 { assert !BothFree(bs, i + 1); } else if k > i + 2 { assert !BothFree(bs, k - 1); }
      }
      if k < i || (k > i && !Splits(h, i, s)) { assert !BothFree(bs, k); }
    }
  }

  lemma AllocLfree(h: Heap, i: nat, s: nat)
    requires Invariant(h) && i < |h.blocks|
    ensures var r := AllocAt(h, i, s); r.lfree == h.End() || IsFree(r.blocks, r.lfree)
  {
    var r := AllocAt(h, i, s);
    NextFreeOk(r.blocks, h.End(), i);
    if h.lfree != h.blocks[i].off && h.lfree != h.End() {
      var k :| 0 <= k < |h.blocks| && h.blocks[k] == Block(h.lfree, false);
      AllocOther(h, i, s, k);
      assert r.blocks[Shifted(h, i, s, k)] == Block(h.lfree, false);
    }
  }

  lemma AllocKeepsInvariant(h: Heap, i: nat, s: nat)
    requires Invariant(h) && i < |h.blocks| && Candidate(h, i, s) && s % 4 == 0 && MIN <= s
    ensures Invariant(AllocAt(h, i, s))
  {
    AllocChain(h, i, s);
    AllocLfree(h, i, s);
  }

  lemma {:induction false} ExtentNonNegative(bs: seq<Block>, end: nat)
    requires forall k :: 0 <= k < |bs| ==> Sound(bs, end, k)
    ensures 0 <= UsedExtent(bs, end)
  {
    if bs != [] {
      forall k | 0 <= k < |bs[1..]| ensures Sound(bs[1..], end, k) { assert Sound(bs, end, k + 1); }
      assert Sound(bs, end, 0);
      ExtentNonNegative(bs[1..], end);
    }
  }

  lemma FreeChain(h: Heap, i: nat)
    requires Invariant(h) && i < |h.blocks| && h.blocks[i].used
    ensures var r := Free(h, i);
            Tiled(r.blocks, h.End()) && Coalesced(r.blocks) && 0 <= r.used == UsedExtent(r.blocks, h.End()) <= h.used
  {
    var bs := h.blocks[i := Block(h.blocks[i].off, false)];
    SetOk(h.blocks, h.End(), i, false);
    assert Sound(h.blocks, h.End(), i);
    forall k | 0 < k < |bs| && k != i && k != i + 1 ensures !BothFree(bs, k) {
      assert !BothFree(h.blocks, k);
    }
    PlugOk(bs, h.End(), i);
    ExtentNonNegative(Plug(bs, i), h.End());
  }

  lemma FreeLfree(h: Heap, i: nat)
    requires Invariant(h) && i < |h.blocks| && h.blocks[i].used
    ensures IsFree(Free(h, i).blocks, Free(h, i).lfree)
  {
    var b := h.blocks[i];
    var bs := h.blocks[i := Block(b.off, false)];
    SetOk(h.blocks, h.End(), i, false);
    var k := i;
    if b.off >= h.lfree {
      Ascending(bs, h.End(), i, |bs|);
      k :| 0 <= k < |bs| && h.blocks[k] == Block(h.lfree, false);
    }
    assert !bs[k].used && bs[k].off == if b.off < h.lfree then b.off else h.lfree;
    PlugLfreeAny(bs, h.End(), i, k);
  }

  lemma FreeKeepsInvariant(h: Heap, i: nat)
    requires Invariant(h) && i < |h.blocks| && h.blocks[i].used
    ensures Invariant(Free(h, i))
  {
    FreeChain(h, i);
    FreeLfree(h, i);
  }

  lemma PlugLfreeAny(bs: seq<Block>, end: nat, i: nat, k: nat)
    requires Tiled(bs, end) && i < |bs| && k < |bs| && !bs[i].used && !bs[k].used
    ensures IsFree(Plug(bs, i), PlugLfree(bs, i, bs[k].off))
  {
    if bs[i].off == bs[k].off { OffsetsDistinct(bs, end, i, k); }
    if i + 1 < |bs| && bs[i + 1].off == bs[k].off { OffsetsDistinct(bs, end, i + 1, k); }
    PlugLfreeOk(bs, i, k);
  }

  lemma ShrinkChain(h: Heap, i: nat, s: nat)
    requires Invariant(h) && i < |h.blocks| && h.blocks[i].used && s % 4 == 0 && 0 < s && Shrinks(h, i, s)
    ensures var r := Shrink(h, i, s);
            Tiled(r.blocks, h.End()) && Coalesced(r.blocks) && 0 <= r.used == UsedExtent(r.blocks, h.End()) <= h.used
  {
    var bs := Cut(h.blocks, i, s);
    assert Sound(h.blocks, h.End(), i);
    CutOk(h.blocks, h.End(), i, s);
    CutExtent(h.blocks, h.End(), i, s);
    CutAt(h.blocks, i, s, i + 1);
    forall k | 0 < k < |bs| && k != i + 1 && k != i + 2 ensures !BothFree(bs, k) {
      CutAt(h.blocks, i, s, k);
      CutAt(h.blocks, i, s, k - 1);
      if k <= i { assert !BothFree(h.blocks, k); } else { assert !BothFree(h.blocks, k - 1); }
    }
    PlugOk(bs, h.End(), i + 1);
    ExtentNonNegative(Plug(bs, i + 1), h.End());
  }

  lemma ShrinkLfree(h: Heap, i: nat, s: nat)
    requires Invariant(h) && i < |h.blocks| && h.blocks[i].used && s % 4 == 0 && 0 < s && Shrinks(h, i, s)
    ensures var r := Shrink(h, i, s); r.lfree == h.End() || IsFree(r.blocks, r.lfree)
  {
    var bs := Cut(h.blocks, i, s);
    CutOk(h.blocks, h.End(), i, s);
    CutAt(h.blocks, i, s, i + 1);
    if h.lfree != h.End() {
      var k :| 0 <= k < |h.blocks| && h.blocks[k] == Block(h.lfree, false);
      var k' := if k < i then k else k + 1;
      CutAt(h.blocks, i, s, k');
      PlugLfreeAny(bs, h.End(), i + 1, k');
    } else {
      EndStays(bs, h.End(), i + 1);
    }
  }

  lemma ShrinkKeepsInvariant(h: Heap, i: nat, s: nat)
    requires Invariant(h) && i < |h.blocks| && h.blocks[i].used && s % 4 == 0 && 0 < s && Shrinks(h, i, s)
    ensures Invariant(Shrink(h, i, s))
  {
    ShrinkChain(h, i, s);
    ShrinkLfree(h, i, s);
  }

  lemma EndStays(bs: seq<Block>, end: nat, i: nat)
    requires Tiled(bs, end) && i < |bs|
    ensures PlugLfree(bs, i, end) == end
  {
    assert Sound(bs, end, i);
    Ascending(bs, end, i, |bs|);
    if i + 1 < |bs| { Ascending(bs, end, i + 1, |bs|); }
  }
}
