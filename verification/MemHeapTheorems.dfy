// What a caller of memheap.c can rely on.
module MemHeapTheorems {
  import opened Common
  import opened Blocks
  import opened Rings
  import opened MemHeapSpec
  import opened MemHeapProofs

  // ----- allocation -----

  // A block that can serve s bytes.
  predicate Serves(bs: seq<Block>, i: nat, s: nat) { i + 1 < |bs| && !bs[i].used && s <= Payload(bs, i) }

  lemma ListedBlock(h: Heap, j: nat) returns (i: nat)
    requires Invariant(h) && j < |h.free|
    ensures i + 1 < |h.blocks| && h.blocks[i] == Block(i, false).(off := h.blocks[i].off) && h.free[j] == h.blocks[i].off
    ensures IndexOf(h.blocks, h.blocks[i].off) == i && SizeAt(h.blocks, h.free[j]) == Payload(h.blocks, i)
  {
    assert h.free[j] in h.free;
    assert IsFree(h.blocks, h.free[j]);
    i :| 0 <= i < |h.blocks| && h.blocks[i].off == h.free[j] && !h.blocks[i].used;
    IndexIs(h.blocks, h.pool, i);
  }

  // No block of the free list before the j-th has room for s.
  ghost predicate FirstAt(h: Heap, j: nat, s: nat) {
    forall k :: 0 <= k < j && k < |h.free| ==> SizeAt(h.blocks, h.free[k]) < s
  }

  // The block taken is the first of the free list with room, if the request is
  // below the available size at all.
  lemma ChoiceIsFirstInList(h: Heap, s: nat)
    requires Invariant(h)
    ensures var i := Choice(h, s);
      && (i < |h.blocks| ==> Serves(h.blocks, i, s) && s < h.available)
      && (i < |h.blocks| ==> exists j :: 0 <= j < |h.free| && FirstAt(h, j, s) && h.free[j] == h.blocks[i].off)
      && (i >= |h.blocks| && s < h.available ==> forall m: nat :: !Serves(h.blocks, m, s))
  {
    var j := FirstFit(h.blocks, h.free, s);
    if j < |h.free| {
      var i := ListedBlock(h, j);
      assert FirstAt(h, j, s);
    } else {
      forall m: nat ensures !Serves(h.blocks, m, s) {
        if m + 1 < |h.blocks| && !h.blocks[m].used {
          assert IsFree(h.blocks, h.blocks[m].off);
          var k :| 0 <= k < |h.free| && h.free[k] == h.blocks[m].off;
          IndexIs(h.blocks, h.pool, m);
          assert SizeAt(h.blocks, h.free[k]) < s;
        }
      }
    }
  }

  lemma AllocSucceedsIff(h: Heap, size: nat)
    requires Invariant(h)
    ensures Alloc(h, size).1.Some? <==> Round(size) < h.available && exists m: nat :: Serves(h.blocks, m, Round(size))
  {
    ChoiceIsFirstInList(h, Round(size));
  }

  lemma {:induction false} PayloadInSum(bs: seq<Block>, m: nat)
    requires (forall i :: 0 <= i < |bs| - 1 ==> Sound(bs, i)) && m + 1 < |bs| && !bs[m].used
    ensures Payload(bs, m) <= FreeSum(bs)
  {
    assert Sound(bs, 0);
    forall i | 0 <= i < |bs[1..]| - 1 ensures Sound(bs[1..], i) { assert Sound(bs, i + 1); }
    if m == 0 { SumsAreNat(bs[1..]); } else { PayloadInSum(bs[1..], m - 1); }
  }

  // A request that some free block could serve is refused exactly when it asks for
  // all the bytes that are free.
  lemma RefusedOnlyForTheLastByte(h: Heap, size: nat, m: nat)
    requires Invariant(h) && Serves(h.blocks, m, Round(size))
    ensures Alloc(h, size).1.None? <==> h.available == Round(size)
  {
    AllocSucceedsIff(h, size);
    PayloadInSum(h.blocks, m);
  }

  lemma RoundIsAligned(n: nat)
    ensures Round(n) % 4 == 0 && MIN <= Round(n) && Round(n) < U32 && Round(Round(n)) == Round(n)
    ensures n + 3 < U32 ==> n <= Round(n)
  {
  }

  lemma AllocKeepsInvariant(h: Heap, size: nat)
    requires Invariant(h)
    ensures Invariant(Alloc(h, size).0)
  {
    hide Invariant;
    RoundIsAligned(size);
    ChoiceIsFirstInList(h, Round(size));
    if Choice(h, Round(size)) + 1 < |h.blocks| {
      TakeKeepsInvariant(h, Choice(h, Round(size)), Round(size));
    }
  }

  // ----- live blocks -----

  // A used block with n bytes of payload.
  ghost predicate Live(bs: seq<Block>, off: nat, n: int) {
    exists k :: 0 <= k < |bs| - 1 && bs[k] == Block(off, true) && Payload(bs, k) == n
  }

  // ptr is the payload of a used block with room for s bytes.
  ghost predicate Grants(bs: seq<Block>, ptr: nat, s: nat) {
    exists k :: 0 <= k < |bs| - 1 && bs[k].used && bs[k].off + HDR == ptr && s <= Payload(bs, k)
  }

  lemma GrantsIsLive(bs: seq<Block>, ptr: nat, s: nat) returns (n: int)
    requires Grants(bs, ptr, s)
    ensures HDR <= ptr && s <= n && Live(bs, ptr - HDR, n)
  {
    var k :| 0 <= k < |bs| - 1 && bs[k].used && bs[k].off + HDR == ptr && s <= Payload(bs, k);
    n := Payload(bs, k);
  }

  lemma LiveGrants(bs: seq<Block>, off: nat, n: int, s: nat)
    requires Live(bs, off, n) && s <= n
    ensures Grants(bs, off + HDR, s)
  {
  }

  // Whatever is live before is live after, but for the block at but.
  ghost predicate Keeps(bs: seq<Block>, r: seq<Block>, but: nat) {
    forall off: nat, n: int :: off != but && Live(bs, off, n) ==> Live(r, off, n)
  }

  lemma DropKeeps(bs: seq<Block>, i: nat, but: nat)
    requires 0 < i && i + 1 < |bs| && BothFree(bs, i)
    ensures Keeps(bs, Drop(bs, i), but)
  {
    forall off: nat, n: int | off != but && Live(bs, off, n) ensures Live(Drop(bs, i), off, n) {
      var k :| 0 <= k < |bs| - 1 && bs[k] == Block(off, true) && Payload(bs, k) == n;
      var m := if k < i then k else k - 1;
      assert Drop(bs, i)[m] == Block(off, true) && Payload(Drop(bs, i), m) == n;
    }
  }

  lemma SplitKeeps(bs: seq<Block>, i: nat, s: nat)
    requires i + 1 < |bs|
    ensures Keeps(bs, Split(bs, i, s), bs[i].off) && Live(Split(bs, i, s), bs[i].off, s)
  {
    var r := Split(bs, i, s);
    SplitAt(bs, i, s);
    assert r[i] == Block(bs[i].off, true) && Payload(r, i) == s;
    forall off: nat, n: int | off != bs[i].off && Live(bs, off, n) ensures Live(r, off, n) {
      var k :| 0 <= k < |bs| - 1 && bs[k] == Block(off, true) && Payload(bs, k) == n;
      var m := if k < i then k else k + 1;
      assert r[m] == bs[k] && r[m + 1].off == bs[k + 1].off;
    }
  }

  // An update of block j that keeps offsets, or comes right behind block i.
  lemma UpdateKeeps(bs: seq<Block>, j: nat, b: Block, but: nat)
    requires j + 1 < |bs| && (bs[j].used ==> bs[j].off == but)
    requires b.off == bs[j].off || (0 < j && bs[j - 1].off == but)
    ensures Keeps(bs, bs[j := b], but)
  {
    var r := bs[j := b];
    forall off: nat, n: int | off != but && Live(bs, off, n) ensures Live(r, off, n) {
      var k :| 0 <= k < |bs| - 1 && bs[k] == Block(off, true) && Payload(bs, k) == n;
      assert r[k] == Block(off, true) && Payload(r, k) == n;
    }
  }

  lemma JoinRightKeeps(bs: seq<Block>, i: nat, but: nat)
    requires i + 1 < |bs| && !bs[i].used && bs[|bs| - 1].used
    ensures Keeps(bs, JoinRight(bs, i), but)
  {
    if MergesRight(bs, i) {
      assert BothFree(bs, i + 1);
      DropKeeps(bs, i + 1, but);
    }
  }

  // Allocation hands out a live block of at least the rounded size, which was not live
  // before, and disturbs no live block.
  lemma AllocKeepsLive(h: Heap, size: nat)
    requires Invariant(h)
    ensures var (m, p) := Alloc(h, size);
      && (forall off: nat, n: int :: Live(h.blocks, off, n) ==> Live(m.blocks, off, n))
      && (p.Some? ==> Grants(m.blocks, p.value, Round(size)) && !Grants(h.blocks, p.value, 0))
  {
    var s := Round(size);
    ChoiceIsFirstInList(h, s);
    var i := Choice(h, s);
    if i + 1 < |h.blocks| {
      var off := h.blocks[i].off;
      OffsetsDistinct(h.blocks, h.pool);
      if Splits(h.blocks, i, s) {
        SplitKeeps(h.blocks, i, s);
        LiveGrants(Split(h.blocks, i, s), off, s, s);
      } else {
        var r := h.blocks[i := Block(off, true)];
        UpdateKeeps(h.blocks, i, Block(off, true), off);
        assert r[i] == Block(off, true);
        LiveGrants(r, off, Payload(h.blocks, i), s);
      }
    }
  }

  // So the block is as large as asked for unless rounding the request up wrapped, in
  // which case it never is.
  lemma AllocCapacity(h: Heap, size: nat)
    requires Invariant(h) && size < U32
    ensures var (m, p) := Alloc(h, size); p.Some? ==> (Grants(m.blocks, p.value, size) <==> size + 3 < U32)
  {
    hide Alloc, Invariant, Live;
    RoundIsAligned(size);
    AllocKeepsInvariant(h, size);
    AllocKeepsLive(h, size);
    var (m, p) := Alloc(h, size);
    if p.Some? { GrantsCapacity(m, p.value, size); }
  }

  // And it is larger than the rounded request only by what could not have been split off
  // as a block of its own.
  lemma AllocIsTight(h: Heap, size: nat) returns (n: nat)
    requires Invariant(h) && Alloc(h, size).1.Some?
    ensures var (m, p) := Alloc(h, size); var s := Round(size);
      && HDR <= p.value && Live(m.blocks, p.value - HDR, n) && s <= n < s + HDR + MIN
      && h.available - m.available == if |m.blocks| > |h.blocks| then n + HDR else n
  {
    var (s, i) := (Round(size), Choice(h, Round(size)));
    ChoiceIsFirstInList(h, s);
    hide FreeSum, Listed, Coalesced, Choice;
    var r := Alloc(h, size).0.blocks;
    if Splits(h.blocks, i, s) { SplitAt(h.blocks, i, s); }
    n := Payload(r, i);
    assert r[i] == Block(h.blocks[i].off, true);
  }

  lemma GrantsCapacity(h: Heap, ptr: nat, size: nat)
    requires Invariant(h) && size < U32 && Grants(h.blocks, ptr, Round(size))
    ensures Grants(h.blocks, ptr, size) <==> size + 3 < U32
  {
    hide FreeSum, Listed, Coalesced;
    RoundIsAligned(size);
    var n: int := GrantsIsLive(h.blocks, ptr, Round(size));
    if size + 3 < U32 {
      LiveGrants(h.blocks, ptr - HDR, n, size);
    } else if Grants(h.blocks, ptr, size) {
      var k: int := GrantsIsLive(h.blocks, ptr, size);
      LiveIsSmall(h, ptr - HDR, k);
    }
  }

  lemma LiveIsSmall(h: Heap, off: nat, n: int)
    requires Invariant(h) && Live(h.blocks, off, n)
    ensures n < U32 - 4
  {
    var (bs, last) := (h.blocks, |h.blocks| - 1);
    var i :| 0 <= i < last && bs[i] == Block(off, true) && Payload(bs, i) == n;
    if i + 1 < last { Ascending(bs, h.pool, i + 1, last); }
  }

  lemma FreeKeepsLive(h: Heap, i: nat)
    requires Invariant(h) && i + 1 < |h.blocks| && h.blocks[i].used
    ensures Keeps(h.blocks, Free(h, i).blocks, h.blocks[i].off)
  {
    var off := h.blocks[i].off;
    var bs := h.blocks[i := Block(off, false)];
    UpdateKeeps(h.blocks, i, Block(off, false), off);
    if MergesLeft(bs, i) {
      assert BothFree(bs, i);
      DropKeeps(bs, i, off);
      JoinRightKeeps(Drop(bs, i), i - 1, off);
    } else {
      JoinRightKeeps(bs, i, off);
    }
  }

  // Live payloads do not overlap each other or the tailer, nor any header.
  lemma LiveDisjoint(h: Heap, a: nat, m: int, b: nat, n: int)
    requires Invariant(h) && Live(h.blocks, a, m) && Live(h.blocks, b, n) && a != b
    ensures a + HDR + m <= b || b + HDR + n <= a
    ensures a + HDR + m <= h.pool - HDR
  {
    var (bs, last) := (h.blocks, |h.blocks| - 1);
    var i :| 0 <= i < |bs| - 1 && bs[i] == Block(a, true) && Payload(bs, i) == m;
    var k :| 0 <= k < |bs| - 1 && bs[k] == Block(b, true) && Payload(bs, k) == n;
    if i + 1 < k { Ascending(bs, h.pool, i + 1, k); }
    if k + 1 < i { Ascending(bs, h.pool, k + 1, i); }
    if i + 1 < last { Ascending(bs, h.pool, i + 1, last); }
  }

  // ----- reallocation -----

  lemma LiveIndex(h: Heap, off: nat, n: int) returns (i: nat)
    requires Invariant(h) && Live(h.blocks, off, n)
    ensures i == IndexOf(h.blocks, off) && i + 1 < |h.blocks| && h.blocks[i] == Block(off, true) && Payload(h.blocks, i) == n
  {
    i :| 0 <= i < |h.blocks| - 1 && h.blocks[i] == Block(off, true) && Payload(h.blocks, i) == n;
    IndexIs(h.blocks, h.pool, i);
  }

  lemma UsedPayload(h: Heap, i: nat)
    requires Invariant(h) && i + 1 < |h.blocks| && h.blocks[i].used
    ensures MIN <= Payload(h.blocks, i) && Live(h.blocks, h.blocks[i].off, Payload(h.blocks, i))
  {
    assert Sound(h.blocks, i);
  }

  lemma MoveKeepsInvariant(h: Heap, i: nat, s: nat)
    requires Invariant(h) && i + 1 < |h.blocks| && h.blocks[i].used
    ensures Invariant(Move(h, h.blocks[i].off, s).0)
    ensures Keeps(h.blocks, Move(h, h.blocks[i].off, s).0.blocks, h.blocks[i].off)
    ensures var (m, p) := Move(h, h.blocks[i].off, s);
      p.Some? ==> Grants(m.blocks, p.value, Round(s))
  {
    hide Invariant, Alloc, Free;
    var off := h.blocks[i].off;
    AllocKeepsInvariant(h, s);
    AllocKeepsLive(h, s);
    var (m, p) := Alloc(h, s);
    assert Live(h.blocks, off, Payload(h.blocks, i)) && 0 <= Payload(h.blocks, i) by { UsedPayload(h, i); }
    var k := LiveIndex(m, off, Payload(h.blocks, i));
    FreeKeepsInvariant(m, k);
    FreeKeepsLive(m, k);
    if p.Some? {
      var n := GrantsIsLive(m.blocks, p.value, Round(s));
      LiveGrants(h.blocks, off, Payload(h.blocks, i), 0);
      assert p.value - HDR != off;
      LiveGrants(Free(m, k).blocks, p.value - HDR, n, Round(s));
    }
  }

  // The one case in which the in-place growth test wraps around: the next block is
  // free and the rounded size is within 12 bytes of 2^32.
  predicate Overflows(h: Heap, i: nat, newsize: nat) {
    newsize != 0 && U32 <= Round(newsize) + MIN && MergesRight(h.blocks, i)
  }

  lemma OverflowBreaksInvariant(h: Heap, i: nat, newsize: nat)
    requires Invariant(h) && i + 1 < |h.blocks| && h.blocks[i].used && newsize < U32 && Overflows(h, i, newsize)
    ensures !Invariant(Realloc(h, i, newsize).0)
  {
    hide FreeSum, Listed, Coalesced;
    var (bs, s) := (h.blocks, Round(newsize));
    RoundIsAligned(newsize);
    assert Sound(bs, i) && Sound(bs, i + 1);
    Ascending(bs, h.pool, i, |bs| - 1);
    if i + 2 < |bs| - 1 { Ascending(bs, h.pool, i + 2, |bs| - 1); }
    assert Grows(bs, i, s) && Payload(bs, i) < s;
    assert GrownOff(bs, i, s) == bs[i].off + HDR + s - U32;
    var r := Grow(h, i, s).blocks;
    assert Payload(r, i) < 0;
    assert !Sound(r, i);
  }

  lemma ReallocInPlace(h: Heap, i: nat, newsize: nat)
    requires Invariant(h) && i + 1 < |h.blocks| && h.blocks[i].used && 0 < newsize < U32 && !Overflows(h, i, newsize)
    ensures Invariant(Realloc(h, i, newsize).0)
  {
    hide Invariant, Alloc, Free, Grow, Shrink, Move;
    var s := Round(newsize);
    RoundIsAligned(newsize);
    if Payload(h.blocks, i) < s {
      if Grows(h.blocks, i, s) {
        GrowKeepsInvariant(h, i, s);
      } else {
        MoveKeepsInvariant(h, i, s);
      }
    } else if s + HDR + MIN < Payload(h.blocks, i) {
      ShrinkKeepsInvariant(h, i, s);
    }
  }

  // Reallocation keeps the heap sound exactly when that test does not wrap.
  lemma ReallocKeepsInvariantIff(h: Heap, i: nat, newsize: nat)
    requires Invariant(h) && i + 1 < |h.blocks| && h.blocks[i].used && newsize < U32
    ensures Invariant(Realloc(h, i, newsize).0) <==> !Overflows(h, i, newsize)
  {
    hide Invariant, Alloc, Grow, Shrink, Move;
    if newsize == 0 {
      FreeKeepsInvariant(h, i);
    } else if Overflows(h, i, newsize) {
      OverflowBreaksInvariant(h, i, newsize);
    } else {
      ReallocInPlace(h, i, newsize);
    }
  }

  // It disturbs no other live block, what it returns is live and large enough, and if
  // it refuses, nothing changes.
  lemma ReallocKeepsLive(h: Heap, i: nat, newsize: nat)
    requires Invariant(h) && i + 1 < |h.blocks| && h.blocks[i].used && newsize < U32 && !Overflows(h, i, newsize)
    ensures var (m, p) := Realloc(h, i, newsize);
      && Keeps(h.blocks, m.blocks, h.blocks[i].off)
      && (p.Some? ==> Grants(m.blocks, p.value, Round(newsize)))
      && (p.None? ==> if newsize == 0 then m == Free(h, i) else m == h)
  {
    hide *;
    ReallocGrants(h, i, newsize);
    RefusedChangesNothing(h, i, newsize);
  }

  lemma RefusedChangesNothing(h: Heap, i: nat, newsize: nat)
    requires i + 1 < |h.blocks|
    ensures Realloc(h, i, newsize).1.None? ==> Realloc(h, i, newsize).0 == if newsize == 0 then Free(h, i) else h
  {
    hide Free, Grow, Shrink, Move;
    RefusedMove(h, h.blocks[i].off, Round(newsize));
  }

  lemma ReallocGrants(h: Heap, i: nat, newsize: nat)
    requires Invariant(h) && i + 1 < |h.blocks| && h.blocks[i].used && newsize < U32 && !Overflows(h, i, newsize)
    ensures var (m, p) := Realloc(h, i, newsize);
      && Keeps(h.blocks, m.blocks, h.blocks[i].off)
      && (p.Some? ==> Grants(m.blocks, p.value, Round(newsize)))
  {
    hide Alloc, Free, Move, FreeSum, Listed, Coalesced;
    var (bs, s) := (h.blocks, Round(newsize));
    RoundIsAligned(newsize);
    if newsize == 0 {
      FreeKeepsLive(h, i);
    } else if Payload(bs, i) < s {
      if Grows(bs, i, s) {
        if i + 2 < |bs| - 1 { Ascending(bs, h.pool, i + 2, |bs| - 1); }
        assert Sound(bs, i);
        UpdateKeeps(bs, i + 1, Block(GrownOff(bs, i, s), false), bs[i].off);
        assert Grow(h, i, s).blocks[i] == Block(bs[i].off, true) && Payload(Grow(h, i, s).blocks, i) == s;
        LiveGrants(Grow(h, i, s).blocks, bs[i].off, s, s);
      } else {
        MoveKeepsInvariant(h, i, s);
      }
    } else if s + HDR + MIN < Payload(bs, i) {
      ShrinkKeepsLive(h, i, s);
      LiveGrants(Shrink(h, i, s).blocks, bs[i].off, s, s);
    } else {
      LiveGrants(bs, bs[i].off, Payload(bs, i), s);
    }
  }

  lemma RefusedMove(h: Heap, off: nat, s: nat)
    ensures Move(h, off, s).1.None? ==> Move(h, off, s).0 == h
  {
    hide Choice, Take, Free;
  }

  lemma ShrinkKeepsLive(h: Heap, i: nat, s: nat)
    requires Invariant(h) && i + 1 < |h.blocks| && h.blocks[i].used
    ensures Keeps(h.blocks, Shrink(h, i, s).blocks, h.blocks[i].off) && Live(Shrink(h, i, s).blocks, h.blocks[i].off, s)
  {
    hide FreeSum, Listed, Coalesced, Split, ListRight;
    var bs := Split(h.blocks, i, s);
    SplitKeeps(h.blocks, i, s);
    SplitAt(h.blocks, i, s);
    JoinRightKeeps(bs, i + 1, bs[i + 1].off);
    var r := JoinRight(bs, i + 1);
    assert r[i] == Block(h.blocks[i].off, true) && Payload(r, i) == s;
    forall off: nat, n: int | off != h.blocks[i].off && Live(h.blocks, off, n) ensures Live(r, off, n) {
      assert Live(bs, off, n);
      if off == bs[i + 1].off {
        OtherLive(bs, i + 1, off, n);
      }
    }
  }

  // Joining to the right leaves even a live block that starts where i does.
  lemma OtherLive(bs: seq<Block>, i: nat, off: nat, n: int)
    requires i + 1 < |bs| && !bs[i].used && bs[|bs| - 1].used && Live(bs, off, n)
    ensures Live(JoinRight(bs, i), off, n)
  {
    JoinRightKeeps(bs, i, off + 1);
  }

  // ----- freeing undoes allocating -----

  lemma FreeUndoesAlloc(h: Heap, size: nat)
    requires Invariant(h) && Alloc(h, size).1.Some?
    ensures var (m, p) := Alloc(h, size);
      var k := IndexOf(m.blocks, p.value - HDR);
      && k + 1 < |m.blocks| && Free(m, k).blocks == h.blocks && Free(m, k).available == h.available
      && forall off :: off in Free(m, k).free <==> off in h.free
  {
    hide FreeSum;
    var s := Round(size);
    RoundIsAligned(size);
    ChoiceIsFirstInList(h, s);
    var (bs, i) := (h.blocks, Choice(h, s));
    var m := Take(h, i, s);
    AllocKeepsInvariant(h, size);
    if Splits(bs, i, s) { SplitAt(bs, i, s); }
    assert m.blocks[i] == Block(bs[i].off, true);
    IndexIs(m.blocks, m.pool, i);
    var r := Free(m, i);
    FreeKeepsInvariant(m, i);
    assert r.blocks == bs by { UndoneBlocks(h, i, s); }
    assert r.available == FreeSum(r.blocks) && h.available == FreeSum(bs);
    forall off: int ensures off in r.free <==> off in h.free {
      assert off in r.free <==> IsFree(r.blocks, off);
      assert off in h.free <==> IsFree(h.blocks, off);
    }
  }

  // A freed block whose left neighbour is used comes first in the free list, so the next
  // request that it has room for gets it, unless it asks for all free bytes.
  lemma FreedIsReused(h: Heap, i: nat, size: nat)
    requires Invariant(h) && i + 1 < |h.blocks| && h.blocks[i].used && (0 < i ==> h.blocks[i - 1].used)
    requires Round(size) <= Payload(h.blocks, i) && Round(size) < Free(h, i).available
    ensures Alloc(Free(h, i), size).1 == Some(h.blocks[i].off + HDR)
  {
    hide FreeSum, Listed, Coalesced;
    var (m, off) := (Free(h, i), h.blocks[i].off);
    FreeKeepsInvariant(h, i);
    FreedComesFirst(h, i);
    IndexIs(m.blocks, m.pool, i);
    assert FirstFit(m.blocks, m.free, Round(size)) == 0;
  }

  lemma FreedComesFirst(h: Heap, i: nat)
    requires Invariant(h) && i + 1 < |h.blocks| && h.blocks[i].used && (0 < i ==> h.blocks[i - 1].used)
    ensures var m := Free(h, i);
      && m.free != [] && m.free[0] == h.blocks[i].off
      && i + 1 < |m.blocks| && m.blocks[i] == Block(h.blocks[i].off, false) && Payload(h.blocks, i) <= Payload(m.blocks, i)
  {
    hide FreeSum, Listed, Coalesced;
    var bs := h.blocks[i := Block(h.blocks[i].off, false)];
    assert !MergesLeft(bs, i);
    if MergesRight(bs, i) {
      LastIsUsed(h, i);
      assert Sound(h.blocks, i + 1);
    }
  }

  lemma UndoneBlocks(h: Heap, i: nat, s: nat)
    requires Invariant(h) && i + 1 < |h.blocks| && !h.blocks[i].used
    ensures Free(Take(h, i, s), i).blocks == h.blocks
  {
    hide FreeSum, Listed, Tiled, ListRight;
    var (bs, m) := (h.blocks, Take(h, i, s));
    assert i > 0 ==> !BothFree(bs, i);
    assert i + 1 < |bs| ==> !BothFree(bs, i + 1);
    var freed := m.blocks[i := Block(bs[i].off, false)];
    if Splits(bs, i, s) {
      SplitAt(bs, i, s);
      assert MergesRight(freed, i);
      assert Drop(freed, i + 1) == bs;
    } else {
      assert freed == bs;
    }
  }

  // ----- runs -----

  datatype Call = CallAlloc(size: nat) | CallFree(ptr: nat) | CallRealloc(ptr: nat, newsize: nat)

  // Pointers that are not live are not passed.
  function Step(h: Heap, c: Call): Heap {
    match c
    case CallAlloc(size) => Alloc(h, size).0
    case CallFree(ptr) =>
      var i := if HDR <= ptr then IndexOf(h.blocks, ptr - HDR) else |h.blocks|;
      if i + 1 < |h.blocks| && h.blocks[i].used then Free(h, i) else h
    case CallRealloc(ptr, newsize) =>
      var i := if HDR <= ptr then IndexOf(h.blocks, ptr - HDR) else |h.blocks|;
      if i + 1 < |h.blocks| && h.blocks[i].used then Realloc(h, i, newsize).0 else h
  }

  function Run(h: Heap, calls: seq<Call>): Heap
    decreases calls
  {
    if calls == [] then h else Run(Step(h, calls[0]), calls[1..])
  }

  // The growth test of the call, if it comes to that, does not wrap.
  predicate Tame(h: Heap, c: Call) {
    c.CallRealloc? && HDR <= c.ptr ==>
      var i := IndexOf(h.blocks, c.ptr - HDR);
      i + 1 < |h.blocks| && h.blocks[i].used ==> !Overflows(h, i, c.newsize)
  }

  predicate AllTame(h: Heap, calls: seq<Call>)
    decreases calls
  {
    calls == [] || (Tame(h, calls[0]) && AllTame(Step(h, calls[0]), calls[1..]))
  }

  // The heap is sound now and after each call.
  ghost predicate StaysSound(h: Heap, calls: seq<Call>)
    decreases calls
  {
    Invariant(h) && (calls == [] || StaysSound(Step(h, calls[0]), calls[1..]))
  }

  lemma StepKeepsInvariantIff(h: Heap, c: Call)
    requires Invariant(h) && (c.CallRealloc? ==> c.newsize < U32)
    ensures Invariant(Step(h, c)) <==> Tame(h, c)
  {
    hide Invariant, Free, Alloc, Realloc, Overflows;
    match c {
      case CallAlloc(size) => AllocKeepsInvariant(h, size);
      case CallFree(ptr) =>
        var i := if HDR <= ptr then IndexOf(h.blocks, ptr - HDR) else |h.blocks|;
        if i + 1 < |h.blocks| && h.blocks[i].used { FreeKeepsInvariant(h, i); }
      case CallRealloc(ptr, newsize) =>
        var i := if HDR <= ptr then IndexOf(h.blocks, ptr - HDR) else |h.blocks|;
        if i + 1 < |h.blocks| && h.blocks[i].used { ReallocKeepsInvariantIff(h, i, newsize); }
    }
  }

  // A run keeps the heap sound throughout exactly if no growth test wraps in it.
  lemma {:induction false} RunsKeepInvariant(h: Heap, calls: seq<Call>)
    requires Invariant(h) && forall c :: c in calls && c.CallRealloc? ==> c.newsize < U32
    ensures StaysSound(h, calls) <==> AllTame(h, calls)
    ensures AllTame(h, calls) ==> Invariant(Run(h, calls))
    decreases calls
  {
    hide Invariant, Step, Tame;
    if calls != [] {
      StepKeepsInvariantIff(h, calls[0]);
      if Tame(h, calls[0]) { RunsKeepInvariant(Step(h, calls[0]), calls[1..]); }
    }
  }

  // A pool is sound at the start exactly if two headers fit into it.
  lemma FreshIsSoundIff(pool: nat)
    requires pool < U32 && pool % 4 == 0
    ensures Invariant(Fresh(pool)) <==> 2 * HDR <= pool
  {
    var bs := Fresh(pool).blocks;
    if 2 * HDR <= pool {
      FreshIs(pool);
      SumOne(bs[0], bs[1]);
      assert Sound(bs, 0);
      assert !bs[0].used && bs[0].off == 0;
      assert !BothFree(bs, 1);
    } else {
      assert Tiled(bs, pool) ==> Sound(bs, 0);
    }
  }

  // As with allocation it is large enough for what was asked for unless the rounding
  // wrapped.
  lemma ReallocCapacity(h: Heap, i: nat, newsize: nat)
    requires Invariant(h) && i + 1 < |h.blocks| && h.blocks[i].used && newsize < U32 && !Overflows(h, i, newsize)
    ensures var (m, p) := Realloc(h, i, newsize); p.Some? ==> (Grants(m.blocks, p.value, newsize) <==> newsize + 3 < U32)
  {
    hide *;
    ReallocKeepsInvariantIff(h, i, newsize);
    ReallocKeepsLive(h, i, newsize);
    if Realloc(h, i, newsize).1.Some? { GrantsCapacity(Realloc(h, i, newsize).0, Realloc(h, i, newsize).1.value, newsize); }
  }

  // A block stays where it is exactly if it has the size already or its right neighbour
  // is free and keeps more than the least size; a smaller one stays, too.
  lemma ReallocStaysIff(h: Heap, i: nat, newsize: nat)
    requires Invariant(h) && i + 1 < |h.blocks| && h.blocks[i].used && 0 < newsize < U32 && !Overflows(h, i, newsize)
    ensures var (s, own) := (Round(newsize), Payload(h.blocks, i));
      Realloc(h, i, newsize).1 == Some(h.blocks[i].off + HDR) <==>
        s <= own || (!h.blocks[i + 1].used && s + MIN < own + Payload(h.blocks, i + 1))
  {
    hide Alloc, Free, Grow, Shrink, FreeSum, Listed, Coalesced;
    var (s, off) := (Round(newsize), h.blocks[i].off);
    RoundIsAligned(newsize);
    assert MergesRight(h.blocks, i) <==> !h.blocks[i + 1].used;
    LastIsUsed(h, i);
    AllocKeepsLive(h, s);
    LiveGrants(h.blocks, off, Payload(h.blocks, i), 0) by { UsedPayload(h, i); }
  }

  lemma LastIsUsed(h: Heap, i: nat)
    requires Invariant(h) && i + 1 < |h.blocks|
    ensures !h.blocks[i + 1].used ==> i + 2 < |h.blocks|
  {
  }

  // So the block keeps no more than could not have been cut off.
  lemma ReallocIsTight(h: Heap, i: nat, newsize: nat) returns (n: nat)
    requires Invariant(h) && i + 1 < |h.blocks| && h.blocks[i].used && newsize < U32 && !Overflows(h, i, newsize)
    requires Realloc(h, i, newsize).1.Some?
    ensures var (m, p) := Realloc(h, i, newsize); var s := Round(newsize);
      HDR <= p.value && Live(m.blocks, p.value - HDR, n) && s <= n <= s + HDR + MIN
  {
    hide Alloc, Free, FreeSum, Listed, Coalesced;
    var (bs, s) := (h.blocks, Round(newsize));
    RoundIsAligned(newsize);
    if Payload(bs, i) < s {
      if Grows(bs, i, s) {
        GrowIsLive(h, i, s);
        n := s;
      } else {
        n := MoveIsTight(h, i, s);
      }
    } else if s + HDR + MIN < Payload(bs, i) {
      ShrinkKeepsLive(h, i, s);
      n := s;
    } else {
      UsedPayload(h, i);
      n := Payload(bs, i);
    }
  }

  lemma GrowIsLive(h: Heap, i: nat, s: nat)
    requires Invariant(h) && i + 1 < |h.blocks| && h.blocks[i].used && Payload(h.blocks, i) < s && Grows(h.blocks, i, s) && s + MIN < U32
    ensures Live(Grow(h, i, s).blocks, h.blocks[i].off, s)
  {
    hide FreeSum, Listed, Coalesced;
    var bs := h.blocks;
    if i + 2 < |bs| - 1 { Ascending(bs, h.pool, i + 2, |bs| - 1); }
    assert Sound(bs, i);
    assert Grow(h, i, s).blocks[i] == Block(bs[i].off, true) && Payload(Grow(h, i, s).blocks, i) == s;
  }

  lemma MoveIsTight(h: Heap, i: nat, s: nat) returns (n: nat)
    requires Invariant(h) && i + 1 < |h.blocks| && h.blocks[i].used && Move(h, h.blocks[i].off, s).1.Some?
    ensures var (m, p) := Move(h, h.blocks[i].off, s);
      HDR <= p.value && Live(m.blocks, p.value - HDR, n) && Round(s) <= n < Round(s) + HDR + MIN
  {
    hide Invariant, Alloc, Free;
    var off := h.blocks[i].off;
    AllocKeepsInvariant(h, s);
    AllocKeepsLive(h, s);
    n := AllocIsTight(h, s);
    var (m, p) := Alloc(h, s);
    assert Live(h.blocks, off, Payload(h.blocks, i)) && 0 <= Payload(h.blocks, i) by { UsedPayload(h, i); }
    var k := LiveIndex(m, off, Payload(h.blocks, i));
    FreeKeepsLive(m, k);
    LiveGrants(h.blocks, off, Payload(h.blocks, i), 0);
    assert p.value - HDR != off;
  }

  lemma FreshIs(pool: nat)
    requires 2 * HDR <= pool < U32
    ensures Fresh(pool) == Heap([Block(0, false), Block(pool - HDR, true)], [0], pool, pool - 2 * HDR, 2 * HDR)
  {
  }

  // ----- inputs for what fails -----

  // 1000 bytes, a block of 100, then a size of 2^32 - 12 for it.
  lemma OverflowIsReached()
    ensures var (a, b) := (CallAlloc(100), CallRealloc(24, 0xFFFF_FFF4));
      && Invariant(Run(Fresh(1000), [a])) && Overflows(Run(Fresh(1000), [a]), 0, 0xFFFF_FFF4)
      && !Invariant(Run(Fresh(1000), [a, b]))
  {
    var (a, b) := (CallAlloc(100), CallRealloc(24, 0xFFFF_FFF4));
    FirstHundred();
    FreshIsSoundIff(1000);
    AllocKeepsInvariant(Fresh(1000), 100);
    hide Invariant, Alloc, Fresh, Realloc, Free;
    var h := Alloc(Fresh(1000), 100).0;
    assert [a, b][1..] == [b] && [b][1..] == [] && [a][1..] == [];
    assert IndexOf(h.blocks, 0) == 0;
    OverflowBreaksInvariant(h, 0, 0xFFFF_FFF4);
    assert Run(Fresh(1000), [a]) == h;
    assert Run(Fresh(1000), [a, b]) == Run(h, [b]) == Step(h, b);
  }

  lemma FirstHundred()
    ensures var h := Alloc(Fresh(1000), 100).0; h.blocks == [Block(0, true), Block(124, false), Block(976, true)]
  {
    var h := Fresh(1000);
    assert IndexOf(h.blocks, 0) == 0;
    assert FirstFit(h.blocks, h.free, 100) == 0;
    assert Split(h.blocks, 0, 100) == [Block(0, true), Block(124, false), Block(976, true)];
  }

  // A request of 2^32 - 3 bytes is answered with 12.
  lemma AllocWraps()
    ensures var (m, p) := Alloc(Fresh(1000), 0xFFFF_FFFD); p == Some(24) && Live(m.blocks, 0, 12)
  {
    var h := Fresh(1000);
    assert FirstFit(h.blocks, h.free, 12) == 0;
    assert IndexOf(h.blocks, 0) == 0;
    var r := Split(h.blocks, 0, 12);
    assert r == [Block(0, true), Block(36, false), Block(976, true)];
    assert r[0] == Block(0, true) && Payload(r, 0) == 12;
  }

  // 952 bytes are free in one block, and a request for them is refused.
  lemma LastByteIsRefused()
    ensures Serves(Fresh(1000).blocks, 0, Round(952)) && Alloc(Fresh(1000), 952).1 == None
  {
  }
}
