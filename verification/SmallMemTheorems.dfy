// The promises of mem.c that follow from the invariant: first fit, disjoint
// payloads, what realloc does to the lowest-free pointer, and whole runs.
module SmallMemTheorems {
  import opened Common
  import opened Blocks
  import opened SmallMemSpec
  import opened SmallMemProofs

  // ----- first fit -----

  lemma {:induction false} SearchIsFirst(h: Heap, i: nat, s: nat)
    requires Invariant(h) && i <= |h.blocks|
    ensures var r := Search(h, i, s);
            && (r < |h.blocks| ==> Candidate(h, r, s))
            && forall k :: i <= k < r ==> !Candidate(h, k, s)
    decreases |h.blocks| - i
  {
    if i == |h.blocks| {
    } else if h.size <= h.blocks[i].off + s {
      forall k | i < k < |h.blocks| ensures !Candidate(h, k, s) {
        Ascending(h.blocks, h.End(), i, k);
      }
    } else if !Candidate(h, i, s) {
      SearchIsFirst(h, i + 1, s);
    }
  }

  lemma IndexIs(h: Heap, k: nat)
    requires Tiled(h.blocks, h.End()) && k < |h.blocks|
    ensures IndexOf(h.blocks, h.blocks[k].off) == k
  {
    OffsetsDistinct(h.blocks, h.End(), IndexOf(h.blocks, h.blocks[k].off), k);
  }

  // rt_malloc takes the first block from lfree on that is free, large enough and
  // starts below size - s; it fails exactly when there is none.
  lemma MallocTakesFirstFromLfree(h: Heap, size: nat)
    requires Invariant(h) && Round(h, size).Some?
    ensures var (s, i) := (Round(h, size).value, Choice(h, size));
            && (i < |h.blocks| ==> Candidate(h, i, s) && h.lfree <= h.blocks[i].off)
            && forall k :: 0 <= k < |h.blocks| && h.lfree <= h.blocks[k].off && Candidate(h, k, s)
                           ==> i < |h.blocks| && h.blocks[i].off <= h.blocks[k].off
  {
    var (s, i, j) := (Round(h, size).value, Choice(h, size), IndexOf(h.blocks, h.lfree));
    SearchIsFirst(h, j, s);
    if i < |h.blocks| && j < i { Ascending(h.blocks, h.End(), j, i); }
    forall k | 0 <= k < |h.blocks| && h.lfree <= h.blocks[k].off && Candidate(h, k, s)
      ensures i < |h.blocks| && h.blocks[i].off <= h.blocks[k].off
    {
      Ascending(h.blocks, h.End(), k, |h.blocks|);
      if h.lfree != h.End() {
        var f :| 0 <= f < |h.blocks| && h.blocks[f] == Block(h.lfree, false);
        IndexIs(h, f);
      }
      if k < j { Ascending(h.blocks, h.End(), k, j); }
      if i < k { Ascending(h.blocks, h.End(), i, k); }
    }
  }

  // While lfree is the lowest free block this is the lowest block of the heap
  // that fits, and NULL means that no block fits.
  lemma MallocIsFirstFit(h: Heap, size: nat)
    requires Invariant(h) && LfreeLowest(h) && Round(h, size).Some?
    ensures var (s, r) := (Round(h, size).value, Malloc(h, size).1);
            && (r.None? <==> forall k :: 0 <= k < |h.blocks| ==> !Candidate(h, k, s))
            && (r.Some? ==> exists i :: 0 <= i < |h.blocks| && Candidate(h, i, s) && r.value == h.blocks[i].off + HDR
                              && forall k :: 0 <= k < i ==> !Candidate(h, k, s))
  {
    MallocTakesFirstFromLfree(h, size);
    var (s, i) := (Round(h, size).value, Choice(h, size));
    if i < |h.blocks| {
      forall k | 0 <= k < i ensures !Candidate(h, k, s) { Ascending(h.blocks, h.End(), k, i); }
    }
  }

  // A block that rt_malloc returns is as large as asked for unless rounding the
  // request up wrapped, in which case it never is.
  lemma MallocCapacity(h: Heap, size: nat)
    requires Invariant(h) && size < U32 && Malloc(h, size).1.Some?
    ensures var (h', r) := Malloc(h, size);
            && IsLive(h', r.value)
            && (size <= h'.Payload(IndexOf(h'.blocks, r.value - HDR)) <==> size <= U32 - 4)
  {
    hide UsedExtent, Search, IsFree, Coalesced, AllocAt, Candidate, IndexOf;
    var (s, i) := (Round(h, size).value, Choice(h, size));
    SearchIsFirst(h, IndexOf(h.blocks, h.lfree), s);
    AllocKeepsInvariant(h, i, s);
    AllocBlock(h, i, s);
    IndexIs(AllocAt(h, i, s), i);
    Ascending(h.blocks, h.End(), i, |h.blocks|);
    if i + 1 < |h.blocks| { Ascending(h.blocks, h.End(), i + 1, |h.blocks|); }
  }

  lemma CandidateFits(h: Heap, i: nat, s: nat)
    requires i < |h.blocks| && Candidate(h, i, s)
    ensures s <= h.Payload(i)
  {
  }

  // The wrap is reachable: asking for 4294967293 bytes yields a 12-byte block.
  lemma MallocWraps()
    ensures var (h', r) := Malloc(Fresh(100), 0xFFFF_FFFD);
            r == Some(12) && h'.Payload(0) == 12
  {
    var h := Fresh(100);
    assert IndexOf(h.blocks, 0) == 0;
    assert Search(h, 0, 12) == 0;
    CutAt(h.blocks, 0, 12, 0);
    CutAt(h.blocks, 0, 12, 1);
  }

  // ----- live payloads -----

  // ptr is what rt_malloc returned for a block that is still used.
  predicate IsLive(h: Heap, ptr: nat) {
    HDR <= ptr && var i := IndexOf(h.blocks, ptr - HDR); i < |h.blocks| && h.blocks[i].used
  }

  function PayloadOf(h: Heap, ptr: nat): int
    requires IsLive(h, ptr)
  {
    h.Payload(IndexOf(h.blocks, ptr - HDR))
  }

  // And it is larger than the rounded request only by what could not have been split off
  // as a block of its own; used_mem grows by just that and the header.
  lemma MallocIsTight(h: Heap, size: nat)
    requires Invariant(h) && size < U32 && Malloc(h, size).1.Some?
    ensures var (g, r) := Malloc(h, size); var s := Round(h, size).value;
            && IsLive(g, r.value) && s <= PayloadOf(g, r.value) < s + HDR + MIN
            && g.used - h.used == PayloadOf(g, r.value) + HDR
  {
    hide UsedExtent, Search, IsFree, Coalesced, Candidate, IndexOf, Cut, Tiled, NextFree;
    var (s, i) := (Round(h, size).value, Choice(h, size));
    MallocCapacity(h, size);
    SearchIsFirst(h, IndexOf(h.blocks, h.lfree), s);
    assert s <= h.Payload(i) by { CandidateFits(h, i, s); }
    AllocKeepsInvariant(h, i, s);
    AllocBlock(h, i, s);
    IndexIs(AllocAt(h, i, s), i);
  }

  // Live payloads are 4-aligned, lie inside the heap, and no two overlap or
  // reach into each other's header.
  lemma LivePayloadsDisjoint(h: Heap, p: nat, q: nat)
    requires Invariant(h) && IsLive(h, p) && IsLive(h, q)
    ensures p % 4 == 0 && HDR <= p && p + PayloadOf(h, p) <= h.End()
    ensures p < q ==> p + PayloadOf(h, p) + HDR <= q
  {
    var i, j := IndexOf(h.blocks, p - HDR), IndexOf(h.blocks, q - HDR);
    assert Sound(h.blocks, h.End(), i);
    Ascending(h.blocks, h.End(), i, |h.blocks|);
    if i + 1 < |h.blocks| { Ascending(h.blocks, h.End(), i + 1, |h.blocks|); }
    if j < i { Ascending(h.blocks, h.End(), j, i); }
    if i + 1 < j { Ascending(h.blocks, h.End(), i + 1, j); }
  }

  lemma MallocKeepsInvariant(h: Heap, size: nat)
    requires Invariant(h)
    ensures Invariant(Malloc(h, size).0)
  {
    var i := Choice(h, size);
    if i < |h.blocks| {
      SearchIsFirst(h, IndexOf(h.blocks, h.lfree), Round(h, size).value);
      AllocKeepsInvariant(h, i, Round(h, size).value);
    }
  }

  lemma AllocKeepsBlock(h: Heap, i: nat, s: nat, k: nat)
    requires i < |h.blocks| && k < |h.blocks| && h.blocks[k].used && !h.blocks[i].used
    requires Invariant(AllocAt(h, i, s))
    ensures var r := AllocAt(h, i, s);
            var j := IndexOf(r.blocks, h.blocks[k].off);
            j < |r.blocks| && r.blocks[j].used && r.Payload(j) == h.Payload(k) && r.blocks[j].off != h.blocks[i].off
  {
    var r := AllocAt(h, i, s);
    AllocOther(h, i, s, k);
    AllocBlock(h, i, s);
    IndexIs(r, Shifted(h, i, s, k));
    if h.blocks[k].off == h.blocks[i].off { OffsetsDistinct(r.blocks, r.End(), i, Shifted(h, i, s, k)); }
  }

  // Allocating leaves every live block where and as large as it was.
  lemma AllocKeepsLive(h: Heap, size: nat, p: nat)
    requires Invariant(h) && IsLive(h, p)
    ensures var h' := Malloc(h, size).0;
            Invariant(h') && IsLive(h', p) && PayloadOf(h', p) == PayloadOf(h, p)
            && (Malloc(h, size).1.Some? ==> Malloc(h, size).1.value != p)
  {
    hide Tiled, Coalesced, UsedExtent, AllocAt, IndexOf;
    var i := Choice(h, size);
    MallocKeepsInvariant(h, size);
    if i < |h.blocks| {
      SearchIsFirst(h, IndexOf(h.blocks, h.lfree), Round(h, size).value);
      AllocKeepsBlock(h, i, Round(h, size).value, IndexOf(h.blocks, p - HDR));
    }
  }

  // So does freeing another block.
  lemma FreeKeepsLive(h: Heap, p: nat, q: nat)
    requires Invariant(h) && IsLive(h, p) && IsLive(h, q) && p != q
    ensures var h' := Free(h, IndexOf(h.blocks, p - HDR));
            Invariant(h') && IsLive(h', q) && PayloadOf(h', q) == PayloadOf(h, q)
  {
    var i := IndexOf(h.blocks, p - HDR);
    FreeKeepsInvariant(h, i);
    FreeKeepsBlock(h, i, Free(h, i), IndexOf(h.blocks, q - HDR));
  }

  lemma FreeKeepsBlock(h: Heap, i: nat, r: Heap, k: nat)
    requires i < |h.blocks| && k < |h.blocks| && h.blocks[k].used && k != i
    requires r.blocks == Plug(h.blocks[i := Block(h.blocks[i].off, false)], i) && r.size == h.size && Tiled(r.blocks, r.End())
    ensures var j := IndexOf(r.blocks, h.blocks[k].off);
            j < |r.blocks| && r.blocks[j].used && r.Payload(j) == h.Payload(k)
  {
    var bs := h.blocks[i := Block(h.blocks[i].off, false)];
    assert bs[k] == h.blocks[k] && LimitOf(bs, h.End(), k) == h.Limit(k);
    var j := PlugBlock(bs, h.End(), i, k);
    IndexIs(r, j);
  }

  lemma DropBlock(bs: seq<Block>, end: nat, i: nat, k: nat)
    requires 0 < i < |bs| && BothFree(bs, i) && k < |bs| && bs[k].used
    ensures var j := if k < i then k else k - 1;
            j < |Drop(bs, i)| && Drop(bs, i)[j] == bs[k] && LimitOf(Drop(bs, i), end, j) == LimitOf(bs, end, k)
  {
  }

  // Where plug_holes around block i leaves the used block k.
  lemma PlugBlock(bs: seq<Block>, end: nat, i: nat, k: nat) returns (j: nat)
    requires i < |bs| && !bs[i].used && k < |bs| && bs[k].used
    ensures j < |Plug(bs, i)| && Plug(bs, i)[j] == bs[k] && LimitOf(Plug(bs, i), end, j) == LimitOf(bs, end, k)
  {
    var mid := PlugNext(bs, i);
    j := k;
    if MergesNext(bs, i) {
      DropBlock(bs, end, i + 1, k);
      assert mid == Drop(bs, i + 1);
      j := if k < i + 1 then k else k - 1;
    }
    if MergesPrev(mid, i) {
      DropBlock(mid, end, i, j);
      assert Plug(bs, i) == Drop(mid, i);
      j := if j < i then j else j - 1;
    }
  }

  // Freeing what was just allocated restores the heap, the peak counter apart.
  lemma FreeUndoesMalloc(h: Heap, size: nat)
    requires Invariant(h) && LfreeLowest(h) && Malloc(h, size).1.Some?
    ensures var (h', r) := Malloc(h, size);
            && IsLive(h', r.value)
            && Free(h', IndexOf(h'.blocks, r.value - HDR)) == h.(peak := h'.peak)
  {
    hide Coalesced, UsedExtent, IsFree, Search, Plug, PlugLfree, IndexOf, LfreeLowest, Candidate;
    var (s, i) := (Round(h, size).value, Choice(h, size));
    MallocTakesFirstFromLfree(h, size);
    AllocKeepsInvariant(h, i, s);
    AllocBlock(h, i, s);
    IndexIs(AllocAt(h, i, s), i);
    FreeUndoesAlloc(h, i, s);
  }

  lemma FreeUndoesAlloc(h: Heap, i: nat, s: nat)
    requires Invariant(h) && i < |h.blocks| && Candidate(h, i, s) && h.lfree <= h.blocks[i].off
    requires Tiled(AllocAt(h, i, s).blocks, h.End()) && i < |AllocAt(h, i, s).blocks|
    requires AllocAt(h, i, s).blocks[i] == Block(h.blocks[i].off, true)
    ensures Free(AllocAt(h, i, s), i) == h.(peak := AllocAt(h, i, s).peak)
  {
    var h' := AllocAt(h, i, s);
    AllocBlock(h, i, s);
    FreedBlocks(h, i, s);
    NextFreeAbove(h'.blocks, h.End(), i);
  }

  lemma FreedBlocks(h: Heap, i: nat, s: nat)
    requires Invariant(h) && i < |h.blocks| && Candidate(h, i, s)
    ensures var (r, b) := (AllocAt(h, i, s).blocks, h.blocks[i]);
            var freed := r[i := Block(b.off, false)];
            && i < |r| && Plug(freed, i) == h.blocks && !MergesPrev(freed, i)
            && (MergesNext(freed, i) ==> b.off < freed[i + 1].off)
  {
    var (r, b, bs) := (AllocAt(h, i, s).blocks, h.blocks[i], h.blocks);
    AllocBlock(h, i, s);
    var freed := r[i := Block(b.off, false)];
    if i > 0 { assert !BothFree(bs, i); AllocOther(h, i, s, i - 1); }
    if i + 1 < |bs| { assert !BothFree(bs, i + 1); }
    if Splits(h, i, s) {
      assert freed == bs[..i] + [b, Block(b.off + HDR + s, false)] + bs[i + 1..];
      assert PlugNext(freed, i) == bs;
    } else {
      assert freed == bs;
    }
  }

  lemma {:induction false} NextFreeAbove(bs: seq<Block>, end: nat, i: nat)
    requires i < |bs| && Tiled(bs, end)
    ensures bs[i].off <= NextFree(bs, end, i)
    ensures bs[i].used ==> bs[i].off < NextFree(bs, end, i)
    ensures forall k :: i <= k < |bs| && !bs[k].used ==> NextFree(bs, end, i) <= bs[k].off
    decreases |bs| - i
  {
    assert Sound(bs, end, i);
    if bs[i].used {
      if i + 1 < |bs| { NextFreeAbove(bs, end, i + 1); }
    } else {
      forall k | i < k < |bs| ensures bs[i].off <= bs[k].off { Ascending(bs, end, i, k); }
    }
  }

  // ----- the lowest-free pointer -----

  lemma MallocKeepsLowest(h: Heap, size: nat)
    requires Invariant(h) && LfreeLowest(h)
    ensures LfreeLowest(Malloc(h, size).0)
  {
    var i := Choice(h, size);
    if i < |h.blocks| {
      var s := Round(h, size).value;
      MallocTakesFirstFromLfree(h, size);
      AllocKeepsInvariant(h, i, s);
      var (h', bs) := (AllocAt(h, i, s), h.blocks);
      NextFreeAbove(h'.blocks, h.End(), i);
      forall k | 0 <= k < |h'.blocks| && !h'.blocks[k].used ensures h'.lfree <= h'.blocks[k].off {
        if Splits(h, i, s) { CutAt(bs, i, s, k); }
        if k < i { Ascending(bs, h.End(), k, i); }
      }
    }
  }

  lemma PlugKeepsLowest(bs: seq<Block>, end: nat, i: nat, lfree: nat)
    requires i < |bs| && Tiled(bs, end) && !bs[i].used
    requires forall k :: 0 <= k < |bs| && !bs[k].used ==> lfree <= bs[k].off
    ensures forall k :: 0 <= k < |Plug(bs, i)| && !Plug(bs, i)[k].used ==> PlugLfree(bs, i, lfree) <= Plug(bs, i)[k].off
  {
    var (mid, r) := (PlugNext(bs, i), Plug(bs, i));
    assert Sound(bs, end, i);
    if MergesPrev(bs, i) { Ascending(bs, end, i - 1, i); }
    forall k | 0 <= k < |r| && !r[k].used ensures lfree <= r[k].off {
      var m := if MergesPrev(mid, i) && i <= k then k + 1 else k;
      assert r[k] == mid[m];
      assert mid[m] == bs[if MergesNext(bs, i) && i < m then m + 1 else m];
    }
  }

  lemma FreeKeepsLowest(h: Heap, i: nat)
    requires Invariant(h) && LfreeLowest(h) && i < |h.blocks| && h.blocks[i].used
    ensures LfreeLowest(Free(h, i))
  {
    var b := h.blocks[i];
    var bs := h.blocks[i := Block(b.off, false)];
    SetOk(h.blocks, h.End(), i, false);
    PlugKeepsLowest(bs, h.End(), i, if b.off < h.lfree then b.off else h.lfree);
  }

  // The split in rt_realloc does not lower lfree. lfree is still the lowest free
  // block afterwards exactly when a free block lay below the shrunk one or the
  // tail merged with a free successor.
  lemma ShrinkKeepsLowestIff(h: Heap, i: nat, s: nat)
    requires Invariant(h) && LfreeLowest(h) && i < |h.blocks| && h.blocks[i].used
    requires s % 4 == 0 && 0 < s && Shrinks(h, i, s)
    ensures LfreeLowest(Shrink(h, i, s)) <==> h.lfree < h.blocks[i].off || (i + 1 < |h.blocks| && !h.blocks[i + 1].used)
  {
    var (bs, c) := (h.blocks, Cut(h.blocks, i, s));
    var (end, r) := (h.End(), Shrink(h, i, s));
    assert Sound(bs, end, i);
    CutOk(bs, end, i, s);
    CutAt(bs, i, s, i);
    CutAt(bs, i, s, i + 1);
    assert PlugNext(c, i + 1)[i + 1] == c[i + 1] && r.blocks[i + 1] == c[i + 1];
    Ascending(c, end, i + 1, |c|);
    if i + 2 < |c| { CutAt(bs, i, s, i + 2); }
    if h.lfree < bs[i].off {
      forall k | 0 <= k < |c| && !c[k].used ensures h.lfree <= c[k].off { CutAt(bs, i, s, k); }
      PlugKeepsLowest(c, end, i + 1, h.lfree);
    } else {
      // No free block lies below block i, so lfree lies above it.
      LfreeAbove(h, i);
      forall k | 0 <= k < |r.blocks| && !r.blocks[k].used ensures c[i + 1].off <= r.blocks[k].off {
        LowestAfterShrink(h, i, s, k);
      }
    }
  }

  lemma LfreeAbove(h: Heap, i: nat)
    requires Invariant(h) && LfreeLowest(h) && i < |h.blocks| && h.blocks[i].used && h.blocks[i].off <= h.lfree
    ensures forall k :: 0 <= k <= i ==> h.blocks[k].used
    ensures h.Limit(i) <= h.lfree
    ensures i + 1 < |h.blocks| ==> (h.lfree == h.blocks[i + 1].off <==> !h.blocks[i + 1].used)
  {
    var (bs, end) := (h.blocks, h.End());
    forall k | 0 <= k < i ensures bs[k].used { Ascending(bs, end, k, i); }
    if i + 1 < |bs| { Ascending(bs, end, i + 1, |bs|); }
    if h.lfree != end {
      var f :| 0 <= f < |bs| && bs[f] == Block(h.lfree, false);
      if i + 1 < f { Ascending(bs, end, i + 1, f); }
    }
  }

  lemma LowestAfterShrink(h: Heap, i: nat, s: nat, k: nat)
    requires Invariant(h) && i < |h.blocks| && s % 4 == 0 && 0 < s && Shrinks(h, i, s)
    requires forall j :: 0 <= j <= i ==> h.blocks[j].used
    requires k < |Shrink(h, i, s).blocks| && !Shrink(h, i, s).blocks[k].used
    ensures h.blocks[i].off + HDR + s <= Shrink(h, i, s).blocks[k].off
  {
    var (bs, c) := (h.blocks, Cut(h.blocks, i, s));
    var mid := PlugNext(c, i + 1);
    CutOk(bs, h.End(), i, s);
    CutAt(bs, i, s, i + 1);
    CutAt(bs, i, s, i);
    assert mid == Shrink(h, i, s).blocks;
    var m := if MergesNext(c, i + 1) && i + 1 < k then k + 1 else k;
    assert mid[k] == c[m];
    CutAt(bs, i, s, m);
    if i + 1 < m { Ascending(c, h.End(), i + 1, m); }
  }

  // ----- rt_realloc -----

  // The moving half of rt_realloc finds its old block again and frees it.
  lemma ResizeMoves(h: Heap, i: nat, s: nat)
    requires Invariant(h) && i < |h.blocks| && h.blocks[i].used && s != h.Payload(i) && !Shrinks(h, i, s)
    ensures var (m, p) := Malloc(h, s);
            && IsLive(m, h.blocks[i].off + HDR)
            && Resize(h, i, s) == if p.None? then (h, None) else (Free(m, IndexOf(m.blocks, h.blocks[i].off)), p)
  {
    IndexIs(h, i);
    assert IsLive(h, h.blocks[i].off + HDR);
    AllocKeepsLive(h, s, h.blocks[i].off + HDR);
  }

  lemma ResizeKeepsInvariant(h: Heap, i: nat, s: nat)
    requires Invariant(h) && i < |h.blocks| && h.blocks[i].used && 0 < s && s % 4 == 0
    ensures Invariant(Resize(h, i, s).0)
  {
    if s == h.Payload(i) {
    } else if Shrinks(h, i, s) {
      ShrinkKeepsInvariant(h, i, s);
    } else {
      ResizeMoves(h, i, s);
      MallocKeepsInvariant(h, s);
      var (m, p) := Malloc(h, s);
      if p.Some? { FreeKeepsInvariant(m, IndexOf(m.blocks, h.blocks[i].off)); }
    }
  }

  lemma ReallocKeepsInvariant(h: Heap, i: nat, newsize: nat)
    requires Invariant(h) && i < |h.blocks| && h.blocks[i].used
    ensures Invariant(Realloc(h, i, newsize).0)
  {
    var s := Align(newsize);
    if h.size < s {
    } else if s == 0 {
      FreeKeepsInvariant(h, i);
    } else {
      ResizeKeepsInvariant(h, i, s);
    }
  }

  lemma CutBlock(bs: seq<Block>, end: nat, i: nat, s: nat, k: nat)
    requires i < |bs| && k < |bs| && bs[i].used
    ensures var (c, j) := (Cut(bs, i, s), if k <= i then k else k + 1);
            && j < |c| && c[j] == bs[k] && LimitOf(c, end, j) == (if k == i then bs[i].off + HDR + s else LimitOf(bs, end, k))
            && i + 1 < |c| && !c[i + 1].used
  {
    var j := if k <= i then k else k + 1;
    CutAt(bs, i, s, j);
    CutAt(bs, i, s, i + 1);
    if j < |bs| { CutAt(bs, i, s, j + 1); }
  }

  lemma LiveAt(h: Heap, j: nat)
    requires Tiled(h.blocks, h.End()) && j < |h.blocks| && h.blocks[j].used
    ensures IsLive(h, h.blocks[j].off + HDR) && PayloadOf(h, h.blocks[j].off + HDR) == h.Payload(j)
  {
    hide Tiled;
    IndexIs(h, j);
  }

  // Where the in-place half leaves the live block k; block i itself ends up s long.
  lemma ShrinkBlock(h: Heap, i: nat, s: nat, k: nat)
    requires Invariant(h) && i < |h.blocks| && h.blocks[i].used && s % 4 == 0 && 0 < s && Shrinks(h, i, s)
    requires k < |h.blocks| && h.blocks[k].used
    ensures var (r, p) := (Shrink(h, i, s), h.blocks[k].off + HDR);
            IsLive(r, p) && PayloadOf(r, p) == if k == i then s else h.Payload(k)
  {
    hide Tiled, Coalesced, UsedExtent, IsFree, Cut, Plug, PlugLfree, IndexOf, IsLive, LimitOf, Shrinks;
    var r := Shrink(h, i, s);
    ShrinkKeepsInvariant(h, i, s);
    CutBlock(h.blocks, h.End(), i, s, k);
    var j: nat := PlugBlock(Cut(h.blocks, i, s), h.End(), i + 1, if k <= i then k else k + 1);
    LiveAt(r, j);
  }

  // What the moving half leaves at the old and at the new place.
  lemma MoveKeepsLive(h: Heap, p: nat, s: nat, q: nat)
    requires Invariant(h) && IsLive(h, p) && IsLive(h, q) && 0 < s && s % 4 == 0 && s < U32 - 4 && Malloc(h, s).1.Some?
    ensures var (m, r) := Malloc(h, s);
            && IsLive(m, p) && Invariant(m)
            && var g := Free(m, IndexOf(m.blocks, p - HDR));
            && IsLive(g, r.value) && s <= PayloadOf(g, r.value)
            && (q != p ==> IsLive(g, q) && PayloadOf(g, q) == PayloadOf(h, q))
            && r.value != p && r.value != q
  {
    hide Tiled, Coalesced, UsedExtent, AllocAt, Free, Search, IndexOf;
    var (m, r) := Malloc(h, s);
    AllocKeepsLive(h, s, p);
    AllocKeepsLive(h, s, q);
    MallocCapacity(h, s);
    FreeKeepsLive(m, p, r.value);
    if q != p { FreeKeepsLive(m, p, q); }
  }

  // rt_realloc gives a block as large as the rounded request and leaves every other
  // live block where and as large as it was; a refused request changes nothing.
  lemma ReallocKeepsLive(h: Heap, p: nat, newsize: nat, q: nat)
    requires Invariant(h) && IsLive(h, p) && IsLive(h, q) && newsize < U32
    ensures var (s, g, r) := (Align(newsize), Realloc(h, IndexOf(h.blocks, p - HDR), newsize).0, Realloc(h, IndexOf(h.blocks, p - HDR), newsize).1);
            && (q != p ==> IsLive(g, q) && PayloadOf(g, q) == PayloadOf(h, q))
            && (r.Some? ==> IsLive(g, r.value) && s <= PayloadOf(g, r.value) && (r.value == q ==> q == p))
            && (r.None? ==> if s == 0 then g == Free(h, IndexOf(h.blocks, p - HDR)) else g == h)
  {
    hide Tiled, Coalesced, UsedExtent, IsFree, Free, IndexOf, Resize, LimitOf;
    var (s, i) := (Align(newsize), IndexOf(h.blocks, p - HDR));
    if h.size < s {
    } else if s == 0 {
      if q != p { FreeKeepsLive(h, p, q); }
    } else {
      ResizeKeepsLive(h, p, s, q);
    }
  }

  // A size close to 2^32 is rounded to 0, and the block is freed for it.
  lemma ReallocFreesIff(h: Heap, i: nat, newsize: nat)
    requires Invariant(h) && i < |h.blocks| && h.blocks[i].used && newsize < U32
    ensures Realloc(h, i, newsize) == (Free(h, i), None) <==> newsize == 0 || U32 <= newsize + 3
  {
  }

  // A block resized to the size it has is the same block, whatever the heap is like.
  lemma OwnSizeStays(h: Heap, p: nat)
    requires Invariant(h) && IsLive(h, p)
    ensures 0 < PayloadOf(h, p) && Realloc(h, IndexOf(h.blocks, p - HDR), PayloadOf(h, p)) == (h, Some(p))
  {
    hide Invariant, Free, Shrink, Shrinks, Malloc, IndexOf, LimitOf;
    IndexFound(h, p);
    PayloadIsSize(h, IndexOf(h.blocks, p - HDR));
  }

  lemma PayloadIsSize(h: Heap, i: nat)
    requires Invariant(h) && i < |h.blocks|
    ensures 0 < h.Payload(i) <= h.size && Align(h.Payload(i)) == h.Payload(i)
  {
    hide Coalesced, UsedExtent, IsFree;
    assert Sound(h.blocks, h.End(), i);
    if i + 1 < |h.blocks| {
      assert Sound(h.blocks, h.End(), i + 1);
      Ascending(h.blocks, h.End(), i + 1, |h.blocks|);
    }
  }

  lemma ResizeKeepsLive(h: Heap, p: nat, s: nat, q: nat)
    requires Invariant(h) && IsLive(h, p) && IsLive(h, q) && 0 < s <= h.size && s % 4 == 0
    ensures var (g, r) := Resize(h, IndexOf(h.blocks, p - HDR), s);
            && (q != p ==> IsLive(g, q) && PayloadOf(g, q) == PayloadOf(h, q))
            && (r.Some? ==> IsLive(g, r.value) && s <= PayloadOf(g, r.value) && (r.value == q ==> q == p))
            && (r.None? ==> g == h)
  {
    hide Tiled, Coalesced, UsedExtent, IsFree, Malloc, Free, Shrink, Shrinks, IndexOf, LimitOf;
    var i := IndexOf(h.blocks, p - HDR);
    IndexFound(h, p);
    IndexFound(h, q);
    if s == h.Payload(i) {
    } else if Shrinks(h, i, s) {
      ShrinkBlock(h, i, s, i);
      ShrinkBlock(h, i, s, IndexOf(h.blocks, q - HDR));
    } else {
      ResizeMoves(h, i, s);
      if Malloc(h, s).1.Some? { MoveKeepsLive(h, p, s, q); }
    }
  }

  // A resized block stays where it is exactly if it has the size already or what is cut
  // off makes more than a smallest block with its header.
  lemma ResizeStaysIff(h: Heap, p: nat, s: nat)
    requires Invariant(h) && IsLive(h, p) && 0 < s <= h.size && s % 4 == 0
    ensures Resize(h, IndexOf(h.blocks, p - HDR), s).1 == Some(p) <==> s == PayloadOf(h, p) || s + HDR + MIN < PayloadOf(h, p)
  {
    hide Tiled, Coalesced, UsedExtent, IsFree, Malloc, Free, Shrink, IndexOf, LimitOf;
    var i := IndexOf(h.blocks, p - HDR);
    IndexFound(h, p);
    if s != h.Payload(i) && !Shrinks(h, i, s) {
      ResizeMoves(h, i, s);
      if Malloc(h, s).1.Some? { MoveKeepsLive(h, p, s, p); }
    }
  }

  // So what rt_realloc returns is larger than asked for by less than that, too.
  lemma ResizeIsTight(h: Heap, p: nat, s: nat)
    requires Invariant(h) && IsLive(h, p) && 0 < s <= h.size && s % 4 == 0
    ensures var (g, r) := Resize(h, IndexOf(h.blocks, p - HDR), s);
            r.Some? ==> IsLive(g, r.value) && s <= PayloadOf(g, r.value) && (PayloadOf(g, r.value) == s || PayloadOf(g, r.value) < (if s < MIN then MIN else s) + HDR + MIN)
  {
    hide Tiled, Coalesced, UsedExtent, IsFree, Malloc, Free, Shrink, IndexOf, LimitOf;
    var i := IndexOf(h.blocks, p - HDR);
    IndexFound(h, p);
    if s == h.Payload(i) {
    } else if Shrinks(h, i, s) {
      ShrinkBlock(h, i, s, i);
    } else {
      ResizeMoves(h, i, s);
      if Malloc(h, s).1.Some? {
        MoveKeepsLive(h, p, s, p);
        MallocIsTight(h, s);
        FreeKeepsLive(Malloc(h, s).0, p, Malloc(h, s).1.value);
      }
    }
  }

  lemma IndexFound(h: Heap, p: nat)
    requires IsLive(h, p)
    ensures h.blocks[IndexOf(h.blocks, p - HDR)].off == p - HDR
  {
  }

  // ----- whole runs -----

  datatype Call = CallMalloc(size: nat) | CallFree(ptr: nat) | CallRealloc(ptr: nat, newsize: nat)

  // Callers free and resize only live pointers; rt_free asserts as much.
  predicate Permitted(h: Heap, c: Call) { c.CallMalloc? || IsLive(h, c.ptr) }

  function Step(h: Heap, c: Call): Heap
    requires Permitted(h, c)
  {
    match c
    case CallMalloc(n) => Malloc(h, n).0
    case CallFree(p) => Free(h, IndexOf(h.blocks, p - HDR))
    case CallRealloc(p, n) => Realloc(h, IndexOf(h.blocks, p - HDR), n).0
  }

  // The heap after the calls, starting fresh; None once a call is not permitted.
  function Run(size: nat, calls: seq<Call>): Option<Heap> {
    if calls == [] then Some(Fresh(size))
    else
      var c := calls[|calls| - 1];
      match Run(size, calls[..|calls| - 1])
      case None => None
      case Some(h) => if Permitted(h, c) then Some(Step(h, c)) else None
  }

  lemma FreshIsSound(size: nat)
    requires size % 4 == 0 && MIN <= size && size + 2 * HDR < U32
    ensures Invariant(Fresh(size)) && LfreeLowest(Fresh(size))
  {
    var h := Fresh(size);
    assert Sound(h.blocks, h.End(), 0);
    ExtentOne(h.blocks[0], h.End());
    assert h.blocks[0] == Block(0, false);
  }

  // Every run keeps the invariant; a run without rt_realloc also keeps lfree at
  // the lowest free block.
  lemma {:induction false} RunsKeepInvariant(size: nat, calls: seq<Call>)
    requires size % 4 == 0 && MIN <= size && size + 2 * HDR < U32 && Run(size, calls).Some?
    ensures var h := Run(size, calls).value;
            && Invariant(h)
            && ((forall c :: c in calls ==> !c.CallRealloc?) ==> LfreeLowest(h))
  {
    if calls == [] {
      FreshIsSound(size);
    } else {
      var (pre, c) := (calls[..|calls| - 1], calls[|calls| - 1]);
      RunsKeepInvariant(size, pre);
      var h := Run(size, pre).value;
      StepKeepsInvariant(h, c);
      if LfreeLowest(h) && !c.CallRealloc? { StepKeepsLowest(h, c); }
    }
  }

  // The most that was ever in use.
  function MostUsed(size: nat, calls: seq<Call>): int {
    if calls == [] || Run(size, calls).None? then 0
    else Max(MostUsed(size, calls[..|calls| - 1]), Run(size, calls).value.used)
  }

  // max_mem is that, in a run without rt_realloc.
  lemma {:induction false} PeakIsMostUsed(size: nat, calls: seq<Call>)
    requires size % 4 == 0 && MIN <= size && size + 2 * HDR < U32
    requires Run(size, calls).Some? && forall c :: c in calls ==> !c.CallRealloc?
    ensures Run(size, calls).value.peak == MostUsed(size, calls)
  {
    hide AllocAt, Choice, Plug, PlugLfree, IndexOf;
    if calls != [] {
      var (pre, c) := (calls[..|calls| - 1], calls[|calls| - 1]);
      PeakIsMostUsed(size, pre);
      RunsKeepInvariant(size, pre);
      RunsKeepInvariant(size, calls);
      PeakStep(Run(size, pre).value, c);
    }
  }

  lemma PeakStep(h: Heap, c: Call)
    requires Invariant(h) && Permitted(h, c) && !c.CallRealloc?
    ensures Step(h, c).peak == Max(h.peak, Step(h, c).used)
  {
    hide Tiled, Coalesced, UsedExtent, Plug, PlugLfree, Cut, IsFree, LimitOf, IndexOf, Search;
    if c.CallFree? {
      var i := IndexOf(h.blocks, c.ptr - HDR);
      UsedBlockIsLong(h, i);
    }
  }

  lemma UsedBlockIsLong(h: Heap, i: nat)
    requires Invariant(h) && i < |h.blocks|
    ensures h.blocks[i].off < h.Limit(i)
  {
    assert Sound(h.blocks, h.End(), i);
  }

  lemma StepKeepsInvariant(h: Heap, c: Call)
    requires Invariant(h) && Permitted(h, c)
    ensures Invariant(Step(h, c))
  {
    match c
    case CallMalloc(n) => MallocKeepsInvariant(h, n);
    case CallFree(p) => FreeKeepsInvariant(h, IndexOf(h.blocks, p - HDR));
    case CallRealloc(p, n) => ReallocKeepsInvariant(h, IndexOf(h.blocks, p - HDR), n);
  }

  lemma StepKeepsLowest(h: Heap, c: Call)
    requires Invariant(h) && LfreeLowest(h) && Permitted(h, c) && !c.CallRealloc?
    ensures LfreeLowest(Step(h, c))
  {
    if c.CallMalloc? { MallocKeepsLowest(h, c.size); }
    else { FreeKeepsLowest(h, IndexOf(h.blocks, c.ptr - HDR)); }
  }

  // So a heap can hold a block that fits and still refuse: after allocating its 80
  // bytes whole and shrinking them to 40, lfree is at the end and rt_malloc fails.
  lemma ShrunkTailIsNotFound()
    ensures var run := Run(88, [CallMalloc(80), CallRealloc(12, 40)]);
            && run.Some? && run.value.blocks == [Block(0, true), Block(52, false)]
            && Candidate(run.value, 1, 12) && Malloc(run.value, 12).1 == None
  {
    hide Malloc, Realloc, Align;
    var (h, g) := (Heap([Block(0, true)], 88, 100, 100, 100), Heap([Block(0, true), Block(52, false)], 88, 100, 52, 100));
    WholeHeapTaken();
    ShrunkTail();
    var (one, two) := ([CallMalloc(80)], [CallMalloc(80), CallRealloc(12, 40)]);
    assert one[..0] == [] && two[..1] == one;
    assert IndexOf(h.blocks, 0) == 0;
    assert Run(88, one) == Some(h);
    assert Run(88, two) == Some(g);
  }

  lemma WholeHeapTaken()
    ensures Malloc(Fresh(88), 80) == (Heap([Block(0, true)], 88, 100, 100, 100), Some(12))
  {
    var h := Fresh(88);
    assert IndexOf(h.blocks, 0) == 0;
    assert Search(h, 0, 80) == 0;
    assert NextFree([Block(0, true)], 100, 1) == 100;
    assert h.blocks[0 := Block(0, true)] == [Block(0, true)];
    assert AllocAt(h, 0, 80) == Heap([Block(0, true)], 88, 100, 100, 100);
  }

  lemma ShrunkTail()
    ensures var (h, g) := (Heap([Block(0, true)], 88, 100, 100, 100), Heap([Block(0, true), Block(52, false)], 88, 100, 52, 100));
            && Realloc(h, 0, 40).0 == g && Candidate(g, 1, 12) && Malloc(g, 12).1 == None
  {
    var h := Heap([Block(0, true)], 88, 100, 100, 100);
    var c := Cut(h.blocks, 0, 40);
    assert c == [Block(0, true), Block(52, false)];
    assert Plug(c, 1) == c;
    var g := Realloc(h, 0, 40).0;
    assert g.blocks == c && g.lfree == 100;
    assert IndexOf(g.blocks, 100) == 2 by { assert g.blocks[0].off == 0 && g.blocks[1].off == 52; }
  }

  // ----- whether the scan ends -----

  // The scan as the source has it, with an unsigned bound: a cursor goes from block to
  // block, and the sentinel is its own successor.
  function Place(h: Heap, i: nat): nat { if i < |h.blocks| then h.blocks[i].off else h.End() }

  function After(h: Heap, i: nat): nat { if i < |h.blocks| then i + 1 else i }

  function Cursor(h: Heap, start: nat, n: nat): nat
    decreases n
  {
    if n == 0 then start else Cursor(h, After(h, start), n - 1)
  }

  // From block i the loop goes on: it is inside the bound and the block does not serve.
  predicate GoesOn(h: Heap, i: nat, s: nat) {
    && Place(h, i) < (h.size - s) % U32
    && !(i < |h.blocks| && !h.blocks[i].used && s <= h.Payload(i))
  }

  // The loop that starts at block start is over after n steps, not earlier.
  ghost predicate EndsAfter(h: Heap, start: nat, s: nat, n: nat) {
    !GoesOn(h, Cursor(h, start, n), s) && forall k: nat :: k < n ==> GoesOn(h, Cursor(h, start, k), s)
  }

  // On a heap with room for a block it ends, at the block that Search names or behind
  // the bound.
  lemma {:induction false} ScanEnds(h: Heap, start: nat, s: nat) returns (n: nat)
    requires Invariant(h) && start <= |h.blocks| && MIN <= s <= h.size
    ensures EndsAfter(h, start, s, n)
    ensures Search(h, start, s) < |h.blocks| ==> Cursor(h, start, n) == Search(h, start, s)
    ensures Search(h, start, s) == |h.blocks| ==> h.size - s <= Place(h, Cursor(h, start, n))
    decreases |h.blocks| - start
  {
    hide Invariant;
    BoundIs(h, s);
    if GoesOn(h, start, s) {
      n := ScanEnds(h, start + 1, s);
      forall k: nat | k < n + 1 ensures GoesOn(h, Cursor(h, start, k), s) {
        if k > 0 { assert GoesOn(h, Cursor(h, start + 1, k - 1), s); }
      }
      n := n + 1;
    } else {
      n := 0;
    }
  }

  lemma BoundIs(h: Heap, s: nat)
    requires Invariant(h) && s <= h.size
    ensures (h.size - s) % U32 == h.size - s
  {
  }

  lemma {:induction false} StaysAtSentinel(h: Heap, i: nat, n: nat)
    requires |h.blocks| <= i
    ensures Cursor(h, i, n) == i
  {
    if n > 0 { StaysAtSentinel(h, i, n - 1); }
  }

  // On a heap below the smallest size no accepted request lets the scan end: one block
  // that is too small, then the sentinel for ever, below a bound that wrapped.
  lemma {:induction false} TinyHeapSpins(size: nat, request: nat, n: nat)
    requires size % 4 == 0 && size < MIN && Round(Fresh(size), request).Some?
    ensures Cursor(Fresh(size), 0, n) == (if n == 0 then 0 else |Fresh(size).blocks|)
    ensures GoesOn(Fresh(size), Cursor(Fresh(size), 0, n), Round(Fresh(size), request).value)
  {
    var h := Fresh(size);
    if n > 0 { StaysAtSentinel(h, 1, n - 1); }
  }

  // So the scan that answers the first request on a heap ends exactly if the heap has
  // room for a block.
  lemma ScanEndsIff(size: nat, request: nat)
    requires size % 4 == 0 && size + 2 * HDR < U32 && Round(Fresh(size), request).Some?
    ensures (exists n: nat :: EndsAfter(Fresh(size), 0, Round(Fresh(size), request).value, n)) <==> MIN <= size
  {
    hide Invariant, GoesOn;
    var (h, s) := (Fresh(size), Round(Fresh(size), request).value);
    if MIN <= size {
      FreshIsSound(size);
      var n: nat := ScanEnds(h, 0, s);
    } else {
      forall n: nat ensures !EndsAfter(h, 0, s, n) { TinyHeapSpins(size, request, n); }
    }
  }

  // A region of 28 bytes makes such a heap, and one byte is such a request.
  lemma {:induction false} FourByteHeapSpins(n: nat)
    ensures Round(Fresh(4), 1) == Some(12) && GoesOn(Fresh(4), Cursor(Fresh(4), 0, n), 12)
  {
    TinyHeapSpins(4, 1, n);
  }
}
