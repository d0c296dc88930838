// mem.c itself: the heap as an array of cells indexed by byte offset, with the
// block headers in band, and every operation tied to its function in SmallMemSpec.
module SmallMem {
  import opened Common
  import opened Blocks
  import opened SmallMemSpec
  import opened SmallMemProofs
  import opened SmallMemTheorems
  import opened Memory

  // Offsets of the header fields; each field occupies the cell of its first byte.
  const MAGIC := 0
  const USED := 2
  const NEXT := 4
  const PREV := 8
  const HEAP_MAGIC := 0x1ea0

  // ----- headers in the array -----

  ghost predicate HeaderOk(d: seq<int>, bs: seq<Block>, end: nat, i: nat)
    requires i < |bs|
  {
    var p := bs[i].off;
    && p + HDR <= |d|
    && d[p + MAGIC] == HEAP_MAGIC
    && d[p + USED] == (if bs[i].used then 1 else 0)
    && d[p + NEXT] == LimitOf(bs, end, i)
    && d[p + PREV] == (if i == 0 then 0 else bs[i - 1].off)
  }

  // The sentinel is used and its own successor; its prev is not maintained.
  ghost predicate Linked(d: seq<int>, bs: seq<Block>, end: nat) {
    && |d| == end + HDR
    && d[end + USED] == 1 && d[end + NEXT] == end
    && forall i :: 0 <= i < |bs| ==> HeaderOk(d, bs, end, i)
  }

  // Cell a belongs to the payload of a used block.
  ghost predicate InLive(bs: seq<Block>, end: nat, a: int) {
    exists i :: 0 <= i < |bs| && bs[i].used && bs[i].off + HDR <= a < LimitOf(bs, end, i)
  }

  // Start of block i, or of the sentinel.
  function StartOf(bs: seq<Block>, end: nat, i: nat): nat
    requires i <= |bs|
  {
    if i < |bs| then bs[i].off else end
  }

  lemma HeaderNotLive(bs: seq<Block>, end: nat, i: nat, c: nat)
    requires Tiled(bs, end) && i <= |bs| && c < HDR
    ensures !InLive(bs, end, StartOf(bs, end, i) + c)
  {
    forall k | 0 <= k < |bs| ensures !(bs[k].off + HDR <= StartOf(bs, end, i) + c < LimitOf(bs, end, k)) {
      if k < i { if k + 1 < i { Ascending(bs, end, k + 1, i); } }
      else if i < k { Ascending(bs, end, i, k); }
    }
  }

  lemma FreeNotLive(bs: seq<Block>, end: nat, i: nat, a: nat)
    requires Tiled(bs, end) && i < |bs| && !bs[i].used && bs[i].off <= a < LimitOf(bs, end, i)
    ensures !InLive(bs, end, a)
  {
    forall k | 0 <= k < |bs| && bs[k].used ensures !(bs[k].off + HDR <= a < LimitOf(bs, end, k)) {
      if k < i { if k + 1 < i { Ascending(bs, end, k + 1, i); } }
      else if i < k { if i + 1 < k { Ascending(bs, end, i + 1, k); } }
    }
  }

  // Rewriting the links of blocks i and n leaves every live payload alone.
  lemma JoinKeepsLive(d: seq<int>, d': seq<int>, bs: seq<Block>, end: nat, i: nat, n: nat, p: nat, q: nat)
    requires Tiled(bs, end) && i <= |bs| && n <= |bs| && p == StartOf(bs, end, i) && q == StartOf(bs, end, n)
    requires p + HDR <= |d| && q + HDR <= |d| && d' == d[p + NEXT := q][q + PREV := p]
    ensures forall a :: 0 <= a < |d| && InLive(bs, end, a) ==> d'[a] == d[a]
  {
    HeaderNotLive(bs, end, i, NEXT);
    HeaderNotLive(bs, end, n, PREV);
  }

  // The cells from lo to hi are the same in d and d'.
  ghost predicate Same(d: seq<int>, d': seq<int>, lo: int, hi: int) {
    |d| == |d'| && forall a :: 0 <= a < |d| && lo <= a < hi ==> d'[a] == d[a]
  }

  // A header whose cells did not change, seen from the edited chain.
  lemma HeaderKept(d: seq<int>, d': seq<int>, bs: seq<Block>, bs': seq<Block>, end: nat, k: nat, k': nat)
    requires k < |bs| && k' < |bs'| && HeaderOk(d, bs, end, k)
    requires bs'[k'] == bs[k] && LimitOf(bs', end, k') == LimitOf(bs, end, k)
    requires k == 0 <==> k' == 0
    requires k > 0 ==> bs[k - 1].off == bs'[k' - 1].off
    requires Same(d, d', bs[k].off, bs[k].off + HDR)
    ensures HeaderOk(d', bs', end, k')
  {
  }

  lemma LinkSet(d: seq<int>, bs: seq<Block>, end: nat, i: nat, used: bool)
    requires Linked(d, bs, end) && Tiled(bs, end) && i < |bs|
    ensures bs[i].off + USED < |d|
    ensures Linked(d[bs[i].off + USED := if used then 1 else 0], bs[i := Block(bs[i].off, used)], end)
  {
    LimitBound(bs, end, i);
    var bs' := bs[i := Block(bs[i].off, used)];
    var d' := d[bs[i].off + USED := if used then 1 else 0];
    forall k | 0 <= k < |bs| ensures HeaderOk(d', bs', end, k) {
      assert HeaderOk(d, bs, end, k);
      if k < i { Ascending(bs, end, k, i); } else if i < k { Ascending(bs, end, i, k); }
    }
  }

  // Removing block i from the chain by rewriting its neighbours' links.
  lemma LinkDrop(d: seq<int>, bs: seq<Block>, end: nat, i: nat)
    requires Linked(d, bs, end) && Tiled(bs, end) && 0 < i < |bs|
    ensures var (p, n) := (bs[i - 1].off, LimitOf(bs, end, i));
            && p + HDR <= n && n + HDR <= |d|
            && Linked(d[p + NEXT := n][n + PREV := p], Drop(bs, i), end)
  {
    var (bs', p, n) := (Drop(bs, i), bs[i - 1].off, LimitOf(bs, end, i));
    LimitBound(bs, end, i - 1);
    LimitBound(bs, end, i);
    if i + 1 < |bs| { LimitBound(bs, end, i + 1); }
    var d' := d[p + NEXT := n][n + PREV := p];
    forall k' | 0 <= k' < |bs'| ensures HeaderOk(d', bs', end, k') {
      var k := if k' < i then k' else k' + 1;
      assert HeaderOk(d, bs, end, k);
      if k < i - 1 {
        Ascending(bs, end, k, i - 1);
        HeaderKept(d, d', bs, bs', end, k, k');
      } else if i + 1 < k {
        Ascending(bs, end, i + 1, k);
        HeaderKept(d, d', bs, bs', end, k, k');
      }
    }
  }

  // d' is d after the block at p, whose successor is at n, was cut at q.
  ghost predicate IsCut(d: seq<int>, d': seq<int>, p: nat, q: nat, n: nat, end: nat)
    requires p + HDR <= q && q + HDR <= n <= end && end + HDR <= |d|
  {
    && |d'| == |d|
    && Same(d, d', 0, p) && Same(d, d', p + HDR, q) && Same(d, d', q + HDR, n) && Same(d, d', n + HDR, |d|)
    && d'[p + MAGIC] == d[p + MAGIC] && d'[p + USED] == 1 && d'[p + NEXT] == q && d'[p + PREV] == d[p + PREV]
    && d'[q + MAGIC] == HEAP_MAGIC && d'[q + USED] == 0 && d'[q + NEXT] == n && d'[q + PREV] == p
    && d'[n + MAGIC] == d[n + MAGIC] && d'[n + USED] == d[n + USED] && d'[n + NEXT] == d[n + NEXT]
    && d'[n + PREV] == if n != end then q else d[n + PREV]
  }

  // Headers before and well after the block that is cut.
  lemma LinkCutFar(d: seq<int>, d': seq<int>, bs: seq<Block>, end: nat, i: nat, s: nat, k: nat)
    requires Linked(d, bs, end) && Tiled(bs, end) && i < |bs| && k < |bs| && (k < i || i + 1 < k)
    requires |d| == |d'| && Same(d, d', 0, bs[i].off) && Same(d, d', LimitOf(bs, end, i) + HDR, |d|)
    ensures HeaderOk(d', Cut(bs, i, s), end, if k < i then k else k + 1)
  {
    var k' := if k < i then k else k + 1;
    assert HeaderOk(d, bs, end, k);
    CutAt(bs, i, s, k');
    if k' < |bs| { CutAt(bs, i, s, k' + 1); }
    if k' > 0 { CutAt(bs, i, s, k' - 1); }
    if k < i { Ascending(bs, end, k, i); } else { Ascending(bs, end, i + 1, k); }
    HeaderKept(d, d', bs, Cut(bs, i, s), end, k, k');
  }

  lemma LinkCutNear(d: seq<int>, d': seq<int>, bs: seq<Block>, end: nat, i: nat, s: nat, k: nat)
    requires Linked(d, bs, end) && i < |bs| && i <= k <= i + 2 && k <= |bs|
    requires s + HDR + STEP <= LimitOf(bs, end, i) - bs[i].off && LimitOf(bs, end, i) <= end
    requires i + 1 < |bs| ==> bs[i + 1].off < end
    requires IsCut(d, d', bs[i].off, bs[i].off + HDR + s, LimitOf(bs, end, i), end)
    ensures HeaderOk(d', Cut(bs, i, s), end, k)
  {
    assert HeaderOk(d, bs, end, i);
    if i > 0 { CutAt(bs, i, s, i - 1); }
    CutAt(bs, i, s, i);
    CutAt(bs, i, s, i + 1);
    if k == i + 2 {
      assert HeaderOk(d, bs, end, i + 1);
      CutAt(bs, i, s, i + 2);
      if i + 2 < |bs| { CutAt(bs, i, s, i + 3); }
    } else if i + 1 < |bs| {
      CutAt(bs, i, s, i + 2);
    }
  }

  // Splitting block i: a new header behind the first s payload bytes.
  lemma LinkCut(d: seq<int>, d': seq<int>, bs: seq<Block>, end: nat, i: nat, s: nat)
    requires Linked(d, bs, end) && Tiled(bs, end) && i < |bs|
    requires s + HDR + STEP <= LimitOf(bs, end, i) - bs[i].off && LimitOf(bs, end, i) <= end
    requires IsCut(d, d', bs[i].off, bs[i].off + HDR + s, LimitOf(bs, end, i), end)
    ensures Linked(d', Cut(bs, i, s), end)
  {
    if i + 1 < |bs| { LimitBound(bs, end, i + 1); }
    LimitBound(bs, end, i);
    forall k' | 0 <= k' < |Cut(bs, i, s)| ensures HeaderOk(d', Cut(bs, i, s), end, k') {
      if k' < i {
        LinkCutFar(d, d', bs, end, i, s, k');
      } else if i + 2 < k' {
        LinkCutFar(d, d', bs, end, i, s, k' - 1);
      } else {
        LinkCutNear(d, d', bs, end, i, s, k');
      }
    }
  }

  // What plug_holes reads around the free block i.
  lemma Around(d: seq<int>, bs: seq<Block>, end: nat, i: nat)
    requires Linked(d, bs, end) && Tiled(bs, end) && i < |bs|
    ensures var p := bs[i].off;
            && p + STEP <= end && d[p + USED] == (if bs[i].used then 1 else 0)
            && d[p + NEXT] == LimitOf(bs, end, i) && d[p + PREV] == (if i == 0 then 0 else bs[i - 1].off)
            && (i > 0 ==> bs[i - 1].off + STEP <= p && d[bs[i - 1].off + USED] == if bs[i - 1].used then 1 else 0)
            && p + STEP <= d[p + NEXT] <= end && (i + 1 == |bs| <==> d[p + NEXT] == end)
            && (i + 1 < |bs| ==> d[d[p + NEXT] + USED] == (if bs[i + 1].used then 1 else 0)
                                 && d[p + NEXT] + STEP <= d[d[p + NEXT] + NEXT] == LimitOf(bs, end, i + 1) <= end)
  {
    LimitBound(bs, end, i);
    assert HeaderOk(d, bs, end, i);
    if i > 0 { assert HeaderOk(d, bs, end, i - 1); LimitBound(bs, end, i - 1); }
    if i + 1 < |bs| { assert HeaderOk(d, bs, end, i + 1); LimitBound(bs, end, i + 1); }
  }

  // Dropping block i of chain mid, where live payloads are those of chain bs.
  lemma DropStep(d: seq<int>, d': seq<int>, mid: seq<Block>, bs: seq<Block>, end: nat, i: nat, j: nat, n: nat)
    requires Linked(d, mid, end) && Tiled(mid, end) && Tiled(bs, end) && 0 < i < |mid| && BothFree(mid, i)
    requires j <= |bs| && n <= |bs| && mid[i - 1].off == StartOf(bs, end, j) && LimitOf(mid, end, i) == StartOf(bs, end, n)
    requires mid[i - 1].off + HDR <= |d| && LimitOf(mid, end, i) + HDR <= |d|
    requires d' == d[mid[i - 1].off + NEXT := LimitOf(mid, end, i)][LimitOf(mid, end, i) + PREV := mid[i - 1].off]
    ensures Linked(d', Drop(mid, i), end) && Tiled(Drop(mid, i), end)
    ensures forall a :: 0 <= a < |d| && InLive(bs, end, a) ==> d'[a] == d[a]
  {
    LinkDrop(d, mid, end, i);
    DropOk(mid, end, i);
    JoinKeepsLive(d, d', bs, end, j, n, mid[i - 1].off, LimitOf(mid, end, i));
  }

  // No live payload reaches into a free block or the header behind it.
  lemma LiveAvoids(bs: seq<Block>, end: nat, i: nat)
    requires Tiled(bs, end) && i < |bs| && !bs[i].used
    ensures forall a :: bs[i].off <= a < LimitOf(bs, end, i) + HDR ==> !InLive(bs, end, a)
  {
    forall a | bs[i].off <= a < LimitOf(bs, end, i) + HDR ensures !InLive(bs, end, a) {
      if a < LimitOf(bs, end, i) { FreeNotLive(bs, end, i, a); }
      else { HeaderNotLive(bs, end, i + 1, a - LimitOf(bs, end, i)); }
    }
  }

  lemma DropKeepsLive(bs: seq<Block>, end: nat, i: nat, a: int)
    requires 0 < i < |bs| && BothFree(bs, i) && InLive(Drop(bs, i), end, a)
    ensures InLive(bs, end, a)
  {
    var r := Drop(bs, i);
    var k :| 0 <= k < |r| && r[k].used && r[k].off + HDR <= a < LimitOf(r, end, k);
    var m := if k < i then k else k + 1;
    assert r[k] == bs[m] && LimitOf(bs, end, m) == LimitOf(r, end, k);
  }

  // plug_holes changes no live payload.
  lemma PlugKeepsLive(bs: seq<Block>, end: nat, i: nat)
    requires i < |bs| && !bs[i].used
    ensures forall a :: InLive(Plug(bs, i), end, a) ==> InLive(bs, end, a)
  {
    var mid := PlugNext(bs, i);
    forall a | InLive(Plug(bs, i), end, a) ensures InLive(bs, end, a) {
      if MergesPrev(mid, i) { assert Plug(bs, i) == Drop(mid, i); DropKeepsLive(mid, end, i, a); }
      if MergesNext(bs, i) { assert mid == Drop(bs, i + 1); DropKeepsLive(bs, end, i + 1, a); }
    }
  }

  lemma FreeParts(h: Heap, i: nat, r: Heap)
    requires Invariant(h) && i < |h.blocks| && h.blocks[i].used && r.size == h.size && r.peak == h.peak
    requires var bs := h.blocks[i := Block(h.blocks[i].off, false)];
             && r.blocks == Plug(bs, i)
             && r.lfree == PlugLfree(bs, i, if h.blocks[i].off < h.lfree then h.blocks[i].off else h.lfree)
    requires r.used == h.used - (h.Limit(i) - h.blocks[i].off)
    ensures r == SmallMemSpec.Free(h, i) && Invariant(r)
  {
    FreeKeepsInvariant(h, i);
  }

  // No live payload of a chain just cut behind block i reaches into what the cut wrote.
  lemma ShrunkAvoids(bs: seq<Block>, end: nat, i: nat, next: nat)
    requires Tiled(bs, end) && i + 1 < |bs| && !bs[i + 1].used && next == LimitOf(bs, end, i + 1)
    ensures forall a :: InLive(bs, end, a) ==> !(bs[i].off <= a < bs[i].off + HDR) && !(bs[i + 1].off <= a < next + HDR)
  {
    LiveAvoids(bs, end, i + 1);
    forall a | bs[i].off <= a < bs[i].off + HDR ensures !InLive(bs, end, a) {
      HeaderNotLive(bs, end, i, a - bs[i].off);
    }
  }

  lemma CutNeighbours(bs: seq<Block>, i: nat, s: nat)
    requires i < |bs|
    ensures var r := Cut(bs, i, s);
            && |r| == |bs| + 1 && r[i] == Block(bs[i].off, true) && r[i + 1] == Block(bs[i].off + HDR + s, false)
            && forall end: nat :: LimitOf(r, end, i + 1) == LimitOf(bs, end, i)
  {
    CutAt(bs, i, s, i);
    CutAt(bs, i, s, i + 1);
    if i + 1 < |bs| { CutAt(bs, i, s, i + 2); }
  }

  lemma ShrinkParts(h: Heap, i: nat, s: nat, r: Heap)
    requires Invariant(h) && i < |h.blocks| && h.blocks[i].used && s % 4 == 0 && 0 < s && Shrinks(h, i, s)
    requires var bs := Cut(h.blocks, i, s);
             r.blocks == Plug(bs, i + 1) && r.lfree == PlugLfree(bs, i + 1, h.lfree)
    requires r.size == h.size && r.peak == h.peak && r.used == h.used - (h.Payload(i) - s)
    ensures r == Shrink(h, i, s) && Invariant(r)
  {
    ShrinkKeepsInvariant(h, i, s);
  }

  lemma LiveCells(h: Heap, p: nat)
    requires Tiled(h.blocks, h.End()) && IsLive(h, p)
    ensures 0 <= PayloadOf(h, p) && p + PayloadOf(h, p) <= h.End()
    ensures forall a :: p <= a < p + PayloadOf(h, p) ==> InLive(h.blocks, h.End(), a)
  {
    LimitBound(h.blocks, h.End(), IndexOf(h.blocks, p - HDR));
  }

  // Equal live cells make equal bytes behind a live pointer.
  lemma BytesKept(d: seq<int>, d': seq<int>, h: Heap, p: nat, n: int)
    requires Tiled(h.blocks, h.End()) && IsLive(h, p) && n <= PayloadOf(h, p) && |d| == |d'|
    requires forall a :: 0 <= a < |d| && InLive(h.blocks, h.End(), a) ==> d'[a] == d[a]
    ensures BytesAt(d', p, n) == BytesAt(d, p, n)
  {
    LiveCells(h, p);
  }

  // The payloads of the live blocks other than p and q are the same in d and d'.
  ghost predicate Untouched(d: seq<int>, d': seq<int>, h: Heap, p: nat, q: nat) {
    forall o: nat :: IsLive(h, o) && o != p && o != q ==> BytesAt(d', o, PayloadOf(h, o)) == BytesAt(d, o, PayloadOf(h, o))
  }

  // The live blocks other than p and q are live in g, and as large.
  ghost predicate Stays(h: Heap, g: Heap, p: nat, q: nat) {
    forall o: nat :: IsLive(h, o) && o != p && o != q ==> IsLive(g, o) && PayloadOf(g, o) == PayloadOf(h, o)
  }

  lemma UntouchedBy(d: seq<int>, d': seq<int>, h: Heap, g: Heap, p: nat, q: nat)
    requires Stays(h, g, p, q) && Tiled(g.blocks, g.End()) && |d| == |d'|
    requires forall a :: 0 <= a < |d| && InLive(g.blocks, g.End(), a) ==> d'[a] == d[a]
    ensures Untouched(d, d', h, p, q)
  {
    hide Tiled, IsLive, BytesAt, InLive;
    forall o: nat | IsLive(h, o) && o != p && o != q ensures BytesAt(d', o, PayloadOf(h, o)) == BytesAt(d, o, PayloadOf(h, o)) {
      BytesKept(d, d', g, o, PayloadOf(g, o));
    }
  }

  lemma UntouchedThen(d: seq<int>, d': seq<int>, d'': seq<int>, h: Heap, m: Heap, p: nat, q: nat)
    requires Untouched(d, d', h, p, p) && Untouched(d', d'', m, p, q) && Stays(h, m, p, p) && !IsLive(h, q)
    ensures Untouched(d, d'', h, p, p)
  {
    hide IsLive, BytesAt;
  }

  lemma UntouchedBoth(d: seq<int>, d': seq<int>, d'': seq<int>, h: Heap, p: nat, q: nat)
    requires Untouched(d, d', h, q, q) && Untouched(d', d'', h, p, p)
    ensures Untouched(d, d'', h, p, q)
  {
    hide IsLive, BytesAt;
  }

  lemma UntouchedSame(d: seq<int>, h: Heap, p: nat)
    ensures Untouched(d, d, h, p, p)
  {
  }

  // Writing n bytes into the payload of q touches no other block.
  lemma CopyUntouched(d: seq<int>, d': seq<int>, h: Heap, q: nat, n: nat)
    requires Invariant(h) && IsLive(h, q) && n <= PayloadOf(h, q) && |d| == |d'|
    requires forall a :: 0 <= a < |d| && !(q <= a < q + n) ==> d'[a] == d[a]
    ensures Untouched(d, d', h, q, q)
  {
    hide Invariant, IsLive;
    forall o: nat | IsLive(h, o) && o != q ensures BytesAt(d', o, PayloadOf(h, o)) == BytesAt(d, o, PayloadOf(h, o)) {
      LivePayloadsDisjoint(h, o, q);
      LivePayloadsDisjoint(h, q, o);
    }
  }

  lemma MallocStays(h: Heap, s: nat, p: nat)
    requires Invariant(h)
    ensures Stays(h, SmallMemSpec.Malloc(h, s).0, p, p)
    ensures SmallMemSpec.Malloc(h, s).1.Some? ==> !IsLive(h, SmallMemSpec.Malloc(h, s).1.value)
  {
    hide Invariant, IsLive, SmallMemSpec.Malloc, PayloadOf;
    forall o: nat | IsLive(h, o) ensures IsLive(SmallMemSpec.Malloc(h, s).0, o) && PayloadOf(SmallMemSpec.Malloc(h, s).0, o) == PayloadOf(h, o) {
      AllocKeepsLive(h, s, o);
    }
    if SmallMemSpec.Malloc(h, s).1.Some? && IsLive(h, SmallMemSpec.Malloc(h, s).1.value) {
      AllocKeepsLive(h, s, SmallMemSpec.Malloc(h, s).1.value);
    }
  }

  lemma FreeStays(h: Heap, p: nat)
    requires Invariant(h) && IsLive(h, p)
    ensures Stays(h, SmallMemSpec.Free(h, IndexOf(h.blocks, p - HDR)), p, p)
  {
    hide Invariant, SmallMemSpec.Free, PayloadOf, IndexOf;
    forall o: nat | IsLive(h, o) && o != p
      ensures var g := SmallMemSpec.Free(h, IndexOf(h.blocks, p - HDR)); IsLive(g, o) && PayloadOf(g, o) == PayloadOf(h, o)
    {
      FreeKeepsLive(h, p, o);
    }
  }

  lemma SelfStays(h: Heap, p: nat)
    ensures Stays(h, h, p, p)
  {
  }

  lemma ShrinkStays(h: Heap, i: nat, s: nat)
    requires Invariant(h) && i < |h.blocks| && h.blocks[i].used && s % 4 == 0 && 0 < s && Shrinks(h, i, s)
    ensures Stays(h, Shrink(h, i, s), h.blocks[i].off + HDR, h.blocks[i].off + HDR)
  {
    hide Invariant, Shrink, Shrinks, IndexOf;
    var (g, p) := (Shrink(h, i, s), h.blocks[i].off + HDR);
    forall o: nat | IsLive(h, o) && o != p ensures IsLive(g, o) && PayloadOf(g, o) == PayloadOf(h, o) {
      IndexFound(h, o);
      ShrinkBlock(h, i, s, IndexOf(h.blocks, o - HDR));
    }
  }

  // Writing into a payload changes no header.
  lemma PayloadWrite(d: seq<int>, d': seq<int>, bs: seq<Block>, end: nat, k: nat, n: nat)
    requires Linked(d, bs, end) && Tiled(bs, end) && k < |bs| && bs[k].off + HDR + n <= LimitOf(bs, end, k)
    requires |d'| == |d| && forall a :: 0 <= a < |d| && !(bs[k].off + HDR <= a < bs[k].off + HDR + n) ==> d'[a] == d[a]
    ensures Linked(d', bs, end)
  {
    LimitBound(bs, end, k);
    forall i | 0 <= i < |bs| ensures HeaderOk(d', bs, end, i) {
      assert HeaderOk(d, bs, end, i);
      if i < k { Ascending(bs, end, i, k); } else if k + 1 < i { Ascending(bs, end, k + 1, i); }
    }
  }

  lemma FrontKept(d: seq<int>, d': seq<int>, h: Heap, i: nat, s: nat)
    requires Invariant(h) && i < |h.blocks| && h.blocks[i].used && s % 4 == 0 && 0 < s && Shrinks(h, i, s)
    requires |d| == |d'| && forall a :: 0 <= a < |d| && InLive(Shrink(h, i, s).blocks, h.End(), a) ==> d'[a] == d[a]
    ensures BytesAt(d', h.blocks[i].off + HDR, s) == BytesAt(d, h.blocks[i].off + HDR, s)
  {
    ShrinkKeepsFront(h, i, s);
  }

  lemma Apart(h: Heap, p: nat, q: nat, n: nat)
    requires Invariant(h) && IsLive(h, p) && IsLive(h, q) && p != q && n <= PayloadOf(h, p) && n <= PayloadOf(h, q)
    ensures p + n <= h.End() && (q + n <= p || p + n <= q)
  {
    LivePayloadsDisjoint(h, p, q);
    LivePayloadsDisjoint(h, q, p);
  }

  lemma ShrinkKeepsFront(h: Heap, i: nat, s: nat)
    requires Invariant(h) && i < |h.blocks| && h.blocks[i].used && s % 4 == 0 && 0 < s && Shrinks(h, i, s)
    ensures forall a :: h.blocks[i].off + HDR <= a < h.blocks[i].off + HDR + s ==> InLive(Shrink(h, i, s).blocks, h.End(), a)
  {
    var c := Cut(h.blocks, i, s);
    CutNeighbours(h.blocks, i, s);
    var j := PlugBlock(c, h.End(), i + 1, i);
    assert Shrink(h, i, s).blocks[j] == c[i];
  }

  lemma StartOfLfree(h: Heap)
    requires Invariant(h)
    ensures h.lfree == StartOf(h.blocks, h.End(), IndexOf(h.blocks, h.lfree))
  {
    if h.lfree != h.End() {
      var k :| 0 <= k < |h.blocks| && h.blocks[k] == Block(h.lfree, false);
      IndexIs(h, k);
    } else {
      var i := IndexOf(h.blocks, h.End());
      if i < |h.blocks| { LimitBound(h.blocks, h.End(), i); }
    }
  }

  // The scan from a used block on looks at the headers in turn.
  lemma NextFreeStep(d: seq<int>, bs: seq<Block>, end: nat, i: nat)
    requires Linked(d, bs, end) && Tiled(bs, end) && i <= |bs|
    ensures var p := StartOf(bs, end, i);
            && p + HDR <= |d| && (i < |bs| <==> p != end)
            && (i < |bs| ==> (d[p + USED] != 0 <==> bs[i].used) && d[p + NEXT] == StartOf(bs, end, i + 1))
  {
    if i < |bs| { LimitBound(bs, end, i); assert HeaderOk(d, bs, end, i); }
  }

  // ----- the allocator -----

  class SmallMem {
    var data: array<int>
    var heapEnd: nat
    var memSize: nat
    var lfree: nat
    var usedMem: int
    var maxMem: int
    ghost var blocks: seq<Block>

    ghost function View(): Heap reads this { Heap(blocks, memSize, lfree, usedMem, maxMem) }

    // The chain is well formed, though two neighbours may both be free.
    ghost predicate Chained()
      reads this, data
    {
      && heapEnd == memSize + HDR
      && Linked(data[..], blocks, heapEnd)
      && Tiled(blocks, heapEnd)
    }

    ghost predicate Valid()
      reads this, data
    {
      Chained() && Invariant(View())
    }

    // rt_system_heap_init: an aligned region with room for two headers, or nothing.
    constructor (begin: nat, end: nat)
      requires begin < U32 && end < U32
      ensures var (b, e) := (Align(begin), end / 4 * 4);
              && (b + 2 * HDR <= e && 2 * HDR < e ==> memSize == e - b - 2 * HDR)
              && (b + 2 * HDR + MIN <= e ==> Valid() && View() == Fresh(memSize) && fresh(data))
    {
      var (b, e) := (Align(begin), end / 4 * 4);
      var ok := 2 * HDR < e && b <= e - 2 * HDR;
      var size := if ok then e - b - 2 * HDR else 0;
      memSize := size;
      heapEnd := size + HDR;
      var d := new int[size + 2 * HDR];
      d[MAGIC], d[USED], d[NEXT], d[PREV] := HEAP_MAGIC, 0, size + HDR, 0;
      d[size + HDR + MAGIC], d[size + HDR + USED] := HEAP_MAGIC, 1;
      d[size + HDR + NEXT], d[size + HDR + PREV] := size + HDR, size + HDR;
      data := d;
      lfree := 0;
      usedMem, maxMem := 0, 0;
      blocks := [Block(0, false)];
      new;
      if MIN <= size {
        FreshIsSound(size);
        assert data[..][heapEnd + USED] == 1 && data[..][heapEnd + NEXT] == heapEnd;
        assert HeaderOk(data[..], blocks, heapEnd, 0);
      }
    }

    // Joins block p to block n.
    method Join(p: nat, n: nat)
      requires p + HDR <= n && n + HDR <= data.Length
      modifies data
      ensures data[..] == old(data[..])[p + NEXT := n][n + PREV := p]
    {
      data[p + NEXT] := n;
      data[n + PREV] := p;
    }

    // plug_holes on block i, which starts at mem.
    method PlugHoles(mem: nat, ghost i: nat)
      requires Chained() && i < |blocks| && blocks[i] == Block(mem, false)
      modifies this`lfree, this`blocks, data
      ensures Chained()
      ensures blocks == Plug(old(blocks), i) && lfree == PlugLfree(old(blocks), i, old(lfree))
      ensures forall a :: 0 <= a < data.Length && InLive(old(blocks), heapEnd, a) ==> data[a] == old(data[a])
    {
      ghost var bs := blocks;
      PlugForward(mem, i);
      PlugBack(mem, bs, i);
    }

    // The first half of plug_holes.
    method PlugForward(mem: nat, ghost i: nat)
      requires Chained() && i < |blocks| && blocks[i] == Block(mem, false)
      modifies this`lfree, this`blocks, data
      ensures Chained()
      ensures blocks == PlugNext(old(blocks), i)
      ensures lfree == if MergesNext(old(blocks), i) && old(lfree) == old(blocks[i + 1].off) then mem else old(lfree)
      ensures forall a :: 0 <= a < data.Length && InLive(old(blocks), heapEnd, a) ==> data[a] == old(data[a])
    {
      ghost var (bs, d) := (blocks, data[..]);
      Around(d, bs, heapEnd, i);
      var nmem := data[mem + NEXT];
      if mem != nmem && data[nmem + USED] == 0 && nmem != heapEnd {
        if lfree == nmem {
          lfree := mem;
        }
        Join(mem, data[nmem + NEXT]);
        blocks := Drop(bs, i + 1);
        DropStep(d, data[..], bs, bs, heapEnd, i + 1, i, i + 2);
      }
    }

    // The second half of plug_holes; bs is the chain at its start.
    method PlugBack(mem: nat, ghost bs: seq<Block>, ghost i: nat)
      requires Chained() && i < |bs| && bs[i] == Block(mem, false) && Tiled(bs, heapEnd)
      requires blocks == PlugNext(bs, i)
      modifies this`lfree, this`blocks, data
      ensures Chained()
      ensures blocks == PlugPrev(old(blocks), i)
      ensures lfree == if MergesPrev(bs, i) && old(lfree) == mem then bs[i - 1].off else old(lfree)
      ensures forall a :: 0 <= a < data.Length && InLive(bs, heapEnd, a) ==> data[a] == old(data[a])
    {
      ghost var (mid, d) := (blocks, data[..]);
      assert mid[i] == bs[i] && (i > 0 ==> mid[i - 1] == bs[i - 1]);
      Around(d, mid, heapEnd, i);
      var pmem := data[mem + PREV];
      if pmem != mem && data[pmem + USED] == 0 {
        if lfree == mem {
          lfree := pmem;
        }
        Join(pmem, data[mem + NEXT]);
        blocks := Drop(mid, i);
        DropStep(d, data[..], mid, bs, heapEnd, i, i - 1, if MergesNext(bs, i) then i + 2 else i + 1);
      }
    }

    // The header writes of a split: the used block p, which reaches to n, is cut at q.
    method WriteCut(p: nat, q: nat, n: nat)
      requires heapEnd + HDR == data.Length && p + HDR <= q && q + HDR <= n <= heapEnd
      requires data[p + USED] == 1
      modifies data
      ensures IsCut(old(data[..]), data[..], p, q, n, heapEnd)
    {
      data[q + MAGIC] := HEAP_MAGIC;
      data[q + USED] := 0;
      data[q + NEXT] := n;
      data[q + PREV] := p;
      data[p + NEXT] := q;
      if n != heapEnd {
        data[n + PREV] := q;
      }
    }

    // Moves lfree from block i to the first free block.
    method Advance(ghost i: nat)
      requires Chained() && i <= |blocks| && lfree == StartOf(blocks, heapEnd, i)
      modifies this`lfree
      ensures lfree == NextFree(blocks, heapEnd, i)
    {
      ghost var k := i;
      NextFreeStep(data[..], blocks, heapEnd, k);
      while lfree != heapEnd && data[lfree + USED] != 0
        invariant i <= k <= |blocks| && lfree == StartOf(blocks, heapEnd, k)
        invariant NextFree(blocks, heapEnd, k) == NextFree(blocks, heapEnd, i)
        invariant lfree + HDR <= data.Length
        decreases |blocks| - k
      {
        NextFreeStep(data[..], blocks, heapEnd, k);
        lfree := data[lfree + NEXT];
        k := k + 1;
        NextFreeStep(data[..], blocks, heapEnd, k);
      }
      NextFreeStep(data[..], blocks, heapEnd, k);
    }

    // The two ways the scanning loop of rt_malloc uses block i: split it ...
    method TakeFront(ptr: nat, size: nat, ghost i: nat)
      requires Chained() && i < |blocks| && blocks[i] == Block(ptr, false)
      requires size + HDR + STEP <= LimitOf(blocks, heapEnd, i) - ptr && size % 4 == 0 && MIN <= size
      modifies this`blocks, data
      ensures Chained() && blocks == Cut(old(blocks), i, size)
      ensures forall a :: 0 <= a < data.Length && !(ptr <= a < LimitOf(old(blocks), heapEnd, i) + HDR) ==> data[a] == old(data[a])
    {
      ghost var bs := blocks;
      TakeWhole(ptr, i);
      Around(data[..], blocks, heapEnd, i);
      ghost var d := data[..];
      CutOk(bs, heapEnd, i, size);
      WriteCut(ptr, ptr + HDR + size, data[ptr + NEXT]);
      LinkCut(d, data[..], blocks, heapEnd, i, size);
      assert Cut(blocks, i, size) == Cut(bs, i, size);
      blocks := Cut(bs, i, size);
    }

    // ... or take it whole.
    method TakeWhole(ptr: nat, ghost i: nat)
      requires Chained() && i < |blocks| && blocks[i] == Block(ptr, false)
      modifies this`blocks, data
      ensures Chained() && blocks == old(blocks)[i := Block(ptr, true)]
      ensures ptr + USED < data.Length && data[ptr + USED] == 1
      ensures forall a :: 0 <= a < data.Length && a != ptr + USED ==> data[a] == old(data[a])
    {
      LinkSet(data[..], blocks, heapEnd, i, true);
      SetOk(blocks, heapEnd, i, true);
      data[ptr + USED] := 1;
      blocks := blocks[i := Block(ptr, true)];
    }

    method Carve(ptr: nat, size: nat, ghost i: nat)
      requires Chained() && i < |blocks| && blocks[i].off == ptr && Candidate(View(), i, size)
      requires size % 4 == 0 && MIN <= size
      modifies this`usedMem, this`maxMem, this`blocks, data
      ensures Chained()
      ensures var r := AllocAt(old(View()), i, size); blocks == r.blocks && usedMem == r.used && maxMem == r.peak
      ensures forall a :: 0 <= a < data.Length && !(ptr <= a < LimitOf(old(blocks), heapEnd, i) + HDR) ==> data[a] == old(data[a])
    {
      Around(data[..], blocks, heapEnd, i);
      var next := data[ptr + NEXT];
      if next - (ptr + HDR) >= size + HDR + MIN {
        TakeFront(ptr, size, i);
        usedMem := usedMem + size + HDR;
      } else {
        TakeWhole(ptr, i);
        usedMem := usedMem + next - ptr;
      }
      maxMem := Max(maxMem, usedMem);
    }

    method Take(ptr: nat, size: nat, ghost i: nat)
      requires Valid() && i < |blocks| && blocks[i].off == ptr && Candidate(View(), i, size)
      requires size % 4 == 0 && MIN <= size
      modifies this`lfree, this`usedMem, this`maxMem, this`blocks, data
      ensures Valid() && View() == AllocAt(old(View()), i, size)
      ensures forall a :: 0 <= a < data.Length && InLive(old(blocks), heapEnd, a) ==> data[a] == old(data[a])
    {
      AllocKeepsInvariant(View(), i, size);
      AllocBlock(View(), i, size);
      LiveAvoids(blocks, heapEnd, i);
      Carve(ptr, size, i);
      if lfree == ptr {
        Advance(i);
      }
    }

    method Malloc(size: nat) returns (r: Option<nat>)
      requires Valid() && size < U32
      modifies this`lfree, this`usedMem, this`maxMem, this`blocks, data
      ensures Valid() && (View(), r) == SmallMemSpec.Malloc(old(View()), size)
      ensures forall a :: 0 <= a < data.Length && InLive(old(blocks), heapEnd, a) ==> data[a] == old(data[a])
    {
      if size == 0 {
        return None;
      }
      var s := Align(size);
      if s > memSize {
        return None;
      }
      if s < MIN {
        s := MIN;
      }
      ghost var i;
      var ptr;
      ptr, i := Scan(s);
      SearchIsFirst(View(), IndexOf(blocks, lfree), s);
      if ptr < memSize - s {
        Take(ptr, s, i);
        return Some(ptr + HDR);
      }
      return None;
    }

    // The scanning loop of rt_malloc; ptr is in bounds when it found block i.
    method Scan(s: nat) returns (ptr: nat, ghost i: nat)
      requires Valid() && s <= memSize
      ensures i == Search(View(), IndexOf(blocks, lfree), s)
      ensures if i < |blocks| then ptr == blocks[i].off < memSize - s else memSize - s <= ptr
    {
      ghost var start := IndexOf(blocks, lfree);
      i := start;
      ptr := lfree;
      StartOfLfree(View());
      while ptr < memSize - s
        invariant start <= i <= |blocks| && ptr == StartOf(blocks, heapEnd, i)
        invariant Search(View(), i, s) == Search(View(), start, s)
        decreases |blocks| - i
      {
        NextFreeStep(data[..], blocks, heapEnd, i);
        if data[ptr + USED] == 0 && data[ptr + NEXT] - (ptr + HDR) >= s {
          return;
        }
        ptr := data[ptr + NEXT];
        i := i + 1;
      }
      i := |blocks|;
    }

    // rt_free on a pointer rt_malloc returned and nobody has freed since.
    method Free(ptr: nat)
      requires Valid() && IsLive(View(), ptr)
      modifies this`lfree, this`usedMem, this`blocks, data
      ensures Valid() && View() == SmallMemSpec.Free(old(View()), IndexOf(old(blocks), ptr - HDR))
      ensures forall a :: 0 <= a < data.Length && InLive(blocks, heapEnd, a) ==> data[a] == old(data[a])
    {
      ghost var i := IndexOf(blocks, ptr - HDR);
      ghost var h := View();
      Release(ptr - HDR, i);
      PlugKeepsLive(blocks, heapEnd, i);
      PlugHoles(ptr - HDR, i);
      FreeParts(h, i, View());
    }

    // rt_free up to plug_holes.
    method Release(mem: nat, ghost i: nat)
      requires Chained() && i < |blocks| && blocks[i] == Block(mem, true)
      modifies this`lfree, this`usedMem, this`blocks, data
      ensures Chained() && blocks == old(blocks)[i := Block(mem, false)]
      ensures lfree == if mem < old(lfree) then mem else old(lfree)
      ensures usedMem == old(usedMem) - (LimitOf(old(blocks), heapEnd, i) - mem)
      ensures forall a :: 0 <= a < data.Length && InLive(blocks, heapEnd, a) ==> data[a] == old(data[a])
    {
      Around(data[..], blocks, heapEnd, i);
      LinkSet(data[..], blocks, heapEnd, i, false);
      SetOk(blocks, heapEnd, i, false);
      data[mem + USED] := 0;
      blocks := blocks[i := Block(mem, false)];
      HeaderNotLive(blocks, heapEnd, i, USED);
      if mem < lfree {
        lfree := mem;
      }
      usedMem := usedMem - (data[mem + NEXT] - mem);
    }

    // The in-place half of rt_realloc on block i at mem.
    method ShrinkInPlace(mem: nat, size: nat, ghost i: nat)
      requires Valid() && i < |blocks| && blocks[i] == Block(mem, true)
      requires size % 4 == 0 && 0 < size && Shrinks(View(), i, size)
      modifies this`lfree, this`usedMem, this`blocks, data
      ensures Valid() && View() == Shrink(old(View()), i, size)
      ensures forall a :: 0 <= a < data.Length && InLive(blocks, heapEnd, a) ==> data[a] == old(data[a])
    {
      ghost var h := View();
      CutTail(mem, size, i);
      PlugKeepsLive(blocks, heapEnd, i + 1);
      PlugHoles(mem + HDR + size, i + 1);
      ShrinkParts(h, i, size, View());
    }

    // The split of rt_realloc, up to plug_holes.
    method CutTail(mem: nat, size: nat, ghost i: nat)
      requires Chained() && i < |blocks| && blocks[i] == Block(mem, true)
      requires size % 4 == 0 && 0 < size && Shrinks(View(), i, size)
      modifies this`usedMem, this`blocks, data
      ensures Chained() && blocks == Cut(old(blocks), i, size)
      ensures i + 1 < |blocks| && blocks[i + 1] == Block(mem + HDR + size, false)
      ensures usedMem == old(usedMem) - (old(View()).Payload(i) - size)
      ensures forall a :: 0 <= a < data.Length && InLive(blocks, heapEnd, a) ==> data[a] == old(data[a])
    {
      ghost var d := data[..];
      Around(d, blocks, heapEnd, i);
      var next := data[mem + NEXT];
      usedMem := usedMem - (next - mem - HDR - size);
      CutOk(blocks, heapEnd, i, size);
      WriteCut(mem, mem + HDR + size, next);
      LinkCut(d, data[..], blocks, heapEnd, i, size);
      blocks := Cut(blocks, i, size);
      CutNeighbours(old(blocks), i, size);
      ShrunkAvoids(blocks, heapEnd, i, next);
    }

    // Copies n bytes between ranges that do not overlap; the destination is
    // the payload of block k, so no header changes.
    method CopyInto(dst: nat, src: nat, n: nat, ghost k: nat)
      requires Valid() && k < |blocks| && blocks[k].off + HDR == dst && dst + n <= LimitOf(blocks, heapEnd, k)
      requires src + n <= data.Length && (dst + n <= src || src + n <= dst)
      modifies data
      ensures Valid()
      ensures forall a :: 0 <= a < data.Length && !(dst <= a < dst + n) ==> data[a] == old(data[a])
      ensures BytesAt(data[..], dst, n) == BytesAt(old(data[..]), src, n)
    {
      hide Memory.Moved, Memory.Copied, Invariant;
      LimitBound(blocks, heapEnd, k);
      Memory.MovedAt(data[..], dst, src, n);
      MemCpy(data, dst, src, n);
      MovedBytes(old(data[..]), data[..], dst, src, n);
      PayloadWrite(old(data[..]), data[..], blocks, heapEnd, k, n);
    }

    // The moving half of rt_realloc: allocate, copy, free.
    method Move(ptr: nat, s: nat, size: nat) returns (r: Option<nat>)
      requires Valid() && IsLive(View(), ptr) && size == PayloadOf(View(), ptr) && 0 < s <= memSize && s % 4 == 0
      modifies this`lfree, this`usedMem, this`maxMem, this`blocks, data
      ensures Valid()
      ensures var (m, p) := SmallMemSpec.Malloc(old(View()), s);
              && r == p && IsLive(m, ptr)
              && View() == if p.None? then m else SmallMemSpec.Free(m, IndexOf(m.blocks, ptr - HDR))
      ensures r.Some? ==> BytesAt(data[..], r.value, Min(size, s)) == BytesAt(old(data[..]), ptr, Min(size, s))
      ensures Untouched(old(data[..]), data[..], old(View()), ptr, ptr)
    {
      hide Coalesced, UsedExtent, IsFree, Linked, SmallMemSpec.Malloc, SmallMemSpec.Free, Untouched, Stays, IndexOf, InLive;
      ghost var (h, d) := (View(), data[..]);
      AllocKeepsLive(h, s, ptr);
      MallocStays(h, s, ptr);
      SelfStays(h, ptr);
      r := Malloc(s);
      ghost var (m, d') := (View(), data[..]);
      BytesKept(d, d', h, ptr, Min(size, s));
      UntouchedBy(d, d', h, h, ptr, ptr);
      if r.Some? {
        MallocCapacity(h, s);
        CopyAndFree(ptr, r.value, if size < s then size else s);
        UntouchedThen(d, d', data[..], h, m, ptr, r.value);
      }
    }

    method CopyAndFree(src: nat, dst: nat, n: nat)
      requires Valid() && IsLive(View(), src) && IsLive(View(), dst) && src != dst
      requires n <= PayloadOf(View(), src) && n <= PayloadOf(View(), dst)
      modifies this`lfree, this`usedMem, this`blocks, data
      ensures Valid() && View() == SmallMemSpec.Free(old(View()), IndexOf(old(blocks), src - HDR))
      ensures BytesAt(data[..], dst, n) == BytesAt(old(data[..]), src, n)
      ensures Untouched(old(data[..]), data[..], old(View()), src, dst)
    {
      hide Coalesced, UsedExtent, IsFree, SmallMemSpec.Free, Untouched, IndexOf;
      ghost var (h, d) := (View(), data[..]);
      Apart(h, src, dst, n);
      CopyInto(dst, src, n, IndexOf(blocks, dst - HDR));
      ghost var d' := data[..];
      CopyUntouched(d, d', h, dst, n);
      FreeOther(src, dst, n);
      UntouchedBoth(d, d', data[..], h, src, dst);
    }

    // Freeing one block leaves the bytes of another alone.
    method FreeOther(ptr: nat, ghost other: nat, ghost n: nat)
      requires Valid() && IsLive(View(), ptr) && IsLive(View(), other) && ptr != other && n <= PayloadOf(View(), other)
      modifies this`lfree, this`usedMem, this`blocks, data
      ensures Valid() && View() == SmallMemSpec.Free(old(View()), IndexOf(old(blocks), ptr - HDR))
      ensures BytesAt(data[..], other, n) == BytesAt(old(data[..]), other, n)
      ensures Untouched(old(data[..]), data[..], old(View()), ptr, ptr)
    {
      hide Tiled, Coalesced, UsedExtent, IsFree, Linked, Plug, PlugLfree, Untouched, Stays;
      ghost var h := View();
      Free(ptr);
      FreeKeepsLive(h, ptr, other);
      FreeStays(h, ptr);
      BytesKept(old(data[..]), data[..], View(), other, n);
      UntouchedBy(old(data[..]), data[..], h, View(), ptr, ptr);
    }

    // Shrinking a block in place keeps the bytes that stay in it.
    method KeepFront(ptr: nat, s: nat, ghost i: nat)
      requires Valid() && HDR <= ptr && i < |blocks| && blocks[i] == Block(ptr - HDR, true)
      requires s % 4 == 0 && 0 < s && Shrinks(View(), i, s)
      modifies this`lfree, this`usedMem, this`blocks, data
      ensures Valid() && View() == Shrink(old(View()), i, s)
      ensures BytesAt(data[..], ptr, s) == BytesAt(old(data[..]), ptr, s)
      ensures Untouched(old(data[..]), data[..], old(View()), ptr, ptr)
    {
      hide Tiled, Coalesced, Linked, UsedExtent, IsFree, Untouched, Stays;
      ghost var h := View();
      ShrinkInPlace(ptr - HDR, s, i);
      FrontKept(old(data[..]), data[..], h, i, s);
      ShrinkStays(h, i, s);
      UntouchedBy(old(data[..]), data[..], h, View(), ptr, ptr);
    }

    method SizeOf(ptr: nat) returns (size: nat)
      requires Valid() && IsLive(View(), ptr)
      ensures size == PayloadOf(View(), ptr)
    {
      Around(data[..], blocks, heapEnd, IndexOf(blocks, ptr - HDR));
      size := data[ptr - HDR + NEXT] - (ptr - HDR) - HDR;
    }

    // rt_realloc of a live block to an aligned size that is neither 0 nor too large.
    method Resize(ptr: nat, s: nat) returns (r: Option<nat>)
      requires Valid() && IsLive(View(), ptr) && 0 < s <= memSize && s % 4 == 0
      modifies this`lfree, this`usedMem, this`maxMem, this`blocks, data
      ensures Valid()
      ensures (View(), r) == SmallMemSpec.Resize(old(View()), IndexOf(old(blocks), ptr - HDR), s)
      ensures var n := Min(PayloadOf(old(View()), ptr), s);
              r.Some? ==> BytesAt(data[..], r.value, n) == BytesAt(old(data[..]), ptr, n)
      ensures Untouched(old(data[..]), data[..], old(View()), ptr, ptr)
    {
      hide Invariant, Linked, SmallMemSpec.Malloc, SmallMemSpec.Free, Shrink, Untouched;
      ghost var i := IndexOf(blocks, ptr - HDR);
      UntouchedSame(data[..], View(), ptr);
      var size := SizeOf(ptr);
      if size == s {
        return Some(ptr);
      }
      if s + HDR + MIN < size {
        KeepFront(ptr, s, i);
        return Some(ptr);
      }
      ResizeMoves(View(), i, s);
      r := Move(ptr, s, size);
    }

    // rt_realloc of a live block.
    method ReallocLive(ptr: nat, newsize: nat) returns (r: Option<nat>)
      requires Valid() && IsLive(View(), ptr) && newsize < U32
      modifies this`lfree, this`usedMem, this`maxMem, this`blocks, data
      ensures Valid()
      ensures (View(), r) == SmallMemSpec.Realloc(old(View()), IndexOf(old(blocks), ptr - HDR), newsize)
      ensures var n := Min(PayloadOf(old(View()), ptr), Align(newsize));
              r.Some? ==> BytesAt(data[..], r.value, n) == BytesAt(old(data[..]), ptr, n)
      ensures Untouched(old(data[..]), data[..], old(View()), ptr, ptr)
    {
      hide Coalesced, UsedExtent, IsFree, Linked, SmallMemSpec.Free, SmallMemSpec.Resize, Untouched, Stays;
      UntouchedSame(data[..], View(), ptr);
      var s := Align(newsize);
      if s > memSize {
        return None;
      }
      if s == 0 {
        ghost var h := View();
        FreeStays(h, ptr);
        Free(ptr);
        UntouchedBy(old(data[..]), data[..], h, View(), ptr, ptr);
        return None;
      }
      r := Resize(ptr, s);
    }

    // rt_realloc of anything else: NULL allocates, a pointer outside the heap is
    // handed back unchanged.
    method ReallocOther(ptr: Option<int>, newsize: nat) returns (r: Option<int>)
      requires Valid() && newsize < U32
      requires ptr.Some? ==> !(0 <= ptr.value < heapEnd) && Align(newsize) != 0
      modifies this`lfree, this`usedMem, this`maxMem, this`blocks, data
      ensures Valid()
      ensures ptr.None? ==> (View(), r) == SmallMemSpec.Malloc(old(View()), Align(newsize))
      ensures ptr.Some? ==> View() == old(View()) && data[..] == old(data[..])
                            && r == if memSize < Align(newsize) then None else ptr
    {
      hide Invariant, Linked, AllocAt, Search, IndexOf;
      var s := Align(newsize);
      if s > memSize || s == 0 {
        return None;
      }
      if ptr.None? {
        r := Malloc(s);
        return;
      }
      return ptr;
    }
  }
}
