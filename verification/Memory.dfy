// rt_memcpy and rt_memmove of kservice.c. The array is the memory, its indices are
// the addresses, and a word has four cells.
module Memory {
  // What moving n cells means: all are read before any is written.
  function Moved<T>(m: seq<T>, dst: nat, src: nat, n: nat): seq<T>
    requires dst + n <= |m| && src + n <= |m|
  {
    m[..dst] + m[src..src + n] + m[dst + n..]
  }

  // The n bytes from p on, none if they are not all there.
  function BytesAt(d: seq<int>, p: int, n: int): seq<int> {
    if 0 <= p && 0 <= n && p + n <= |d| then d[p..p + n] else []
  }

  lemma MovedBytes(d: seq<int>, d': seq<int>, dst: nat, src: nat, n: nat)
    requires dst + n <= |d| && src + n <= |d| && d' == Moved(d, dst, src, n)
    ensures BytesAt(d', dst, n) == BytesAt(d, src, n)
  {
  }

  lemma MovedAt<T>(m: seq<T>, dst: nat, src: nat, n: nat)
    requires dst + n <= |m| && src + n <= |m|
    ensures |Moved(m, dst, src, n)| == |m|
    ensures forall c :: 0 <= c < |m| ==> Moved(m, dst, src, n)[c] == m[if dst <= c < dst + n then src + (c - dst) else c]
  {
  }

  // The cell, from src on, that ends up at dst + i when cells are copied upwards: if
  // the destination starts p cells above the source, the first p cells repeat.
  function Origin(dst: nat, src: nat, i: nat): (o: nat)
    ensures o <= i
  {
    if dst <= src || i < dst - src then i else Origin(dst, src, i - (dst - src))
  }

  // The cell that ends up in cell c.
  function Source(dst: nat, src: nat, n: nat, c: nat): nat {
    if dst <= c < dst + n then src + Origin(dst, src, c - dst) else c
  }

  // m' is m after n cells were copied upwards.
  ghost predicate Copied<T>(m: seq<T>, m': seq<T>, dst: nat, src: nat, n: nat) {
    && |m'| == |m| && dst + n <= |m| && src + n <= |m|
    && forall c :: 0 <= c < |m| ==> m'[c] == m[Source(dst, src, n, c)]
  }

  // Where the destination starts inside the source, p cells above its start, the
  // source has period p.
  ghost predicate Repeats<T>(m: seq<T>, dst: nat, src: nat, n: nat)
    requires src + n <= |m|
  {
    forall c :: src < dst <= c < src + n ==> m[c] == m[c - (dst - src)]
  }

  lemma {:induction false} PeriodReaches<T>(m: seq<T>, dst: nat, src: nat, n: nat, i: nat)
    requires src + n <= |m| && i < n && Repeats(m, dst, src, n)
    ensures m[src + i] == m[src + Origin(dst, src, i)]
    decreases i
  {
    if src < dst && dst - src <= i {
      PeriodReaches(m, dst, src, n, i - (dst - src));
      assert m[src + i] == m[src + i - (dst - src)];
    }
  }

  // Copying upwards moves the cells exactly if the source is periodic in this way,
  // which it is wherever the destination does not start inside it.
  lemma CopyIsMoveIff<T>(m: seq<T>, m': seq<T>, dst: nat, src: nat, n: nat)
    requires Copied(m, m', dst, src, n)
    ensures m' == Moved(m, dst, src, n) <==> Repeats(m, dst, src, n)
    ensures !(src < dst < src + n) ==> Repeats(m, dst, src, n)
  {
    hide Moved;
    MovedAt(m, dst, src, n);
    if Repeats(m, dst, src, n) {
      forall c | 0 <= c < |m| ensures m'[c] == Moved(m, dst, src, n)[c] {
        if dst <= c < dst + n { PeriodReaches(m, dst, src, n, c - dst); }
      }
    }
    if m' == Moved(m, dst, src, n) {
      forall c | src < dst <= c < src + n ensures m[c] == m[c - (dst - src)] {
        var (i, p) := (c - src, dst - src);
        assert m'[dst + i] == m[Source(dst, src, n, dst + i)];
        assert m'[dst + (i - p)] == m[Source(dst, src, n, dst + (i - p))];
      }
    }
  }

  // Copying two cells one up repeats the first.
  lemma OverlapSmears()
    ensures Copied([1, 2, 3], [1, 1, 1], 1, 0, 2) && [1, 1, 1] != Moved([1, 2, 3], 1, 0, 2)
  {
    assert Moved([1, 2, 3], 1, 0, 2)[2] == 2;
  }

  // What the next cell of the source, or the j-th after it, holds by now.
  lemma NextCell<T>(m: seq<T>, m': seq<T>, dst: nat, src: nat, k: nat, j: nat)
    requires Copied(m, m', dst, src, k) && src + k + j < |m| && (src < dst ==> j < dst - src)
    ensures m'[src + k + j] == m[src + Origin(dst, src, k + j)]
  {
    if src < dst && dst - src <= k + j {
      assert Source(dst, src, k, src + k + j) == src + Origin(dst, src, k + j - (dst - src));
    }
  }

  lemma CellCopied<T>(m: seq<T>, m': seq<T>, dst: nat, src: nat, k: nat, v: T)
    requires Copied(m, m', dst, src, k) && dst + k < |m| && src + k < |m| && v == m[src + Origin(dst, src, k)]
    ensures |m'| == |m| && Copied(m, m'[dst + k := v], dst, src, k + 1)
  {
    hide Origin;
  }

  method CopyCell<T>(a: array<T>, ghost m: seq<T>, dst: nat, src: nat, k: nat)
    requires Copied(m, a[..], dst, src, k) && dst + k < a.Length && src + k < a.Length
    modifies a
    ensures Copied(m, a[..], dst, src, k + 1)
  {
    NextCell(m, a[..], dst, src, k, 0);
    a[dst + k] := a[src + k];
  }

  // The four cells of a word are read before they are written.
  method CopyWord<T>(a: array<T>, ghost m: seq<T>, dst: nat, src: nat, k: nat)
    requires Copied(m, a[..], dst, src, k) && dst + k + 4 <= a.Length && src + k + 4 <= a.Length
    requires dst % 4 == 0 && src % 4 == 0
    modifies a
    ensures Copied(m, a[..], dst, src, k + 4)
  {
    hide Copied, Origin;
    var (d, s) := (dst + k, src + k);
    ghost var m' := a[..];
    var (v0, v1, v2, v3) := (a[s], a[s + 1], a[s + 2], a[s + 3]);
    SameLength(m, m', dst, src, k);
    NextCell(m, m', dst, src, k, 0);
    NextCell(m, m', dst, src, k, 1);
    NextCell(m, m', dst, src, k, 2);
    NextCell(m, m', dst, src, k, 3);
    a[d], a[d + 1], a[d + 2], a[d + 3] := v0, v1, v2, v3;
    CellCopied(m, m', dst, src, k, v0);
    CellCopied(m, m'[d := v0], dst, src, k + 1, v1);
    CellCopied(m, m'[d := v0][d + 1 := v1], dst, src, k + 2, v2);
    CellCopied(m, m'[d := v0][d + 1 := v1][d + 2 := v2], dst, src, k + 3, v3);
    assert a[..] == m'[d := v0][d + 1 := v1][d + 2 := v2][d + 3 := v3];
  }

  lemma SameLength<T>(m: seq<T>, m': seq<T>, dst: nat, src: nat, k: nat)
    requires Copied(m, m', dst, src, k)
    ensures |m| == |m'|
  {
  }

  // rt_memcpy: by words while both addresses are aligned, then by cells.
  method MemCpy<T>(a: array<T>, dst: nat, src: nat, count: nat)
    requires dst + count <= a.Length && src + count <= a.Length
    modifies a
    ensures Copied(old(a[..]), a[..], dst, src, count)
    ensures !(src < dst < src + count) ==> a[..] == Moved(old(a[..]), dst, src, count)
  {
    hide Copied, Moved;
    ghost var m := a[..];
    NoneCopied(m, dst, src);
    var k: nat := 0;
    if 16 <= count && dst % 4 == 0 && src % 4 == 0 {
      while 16 <= count - k
        invariant k <= count && Copied(m, a[..], dst, src, k)
      {
        CopyWord(a, m, dst, src, k);
        CopyWord(a, m, dst, src, k + 4);
        CopyWord(a, m, dst, src, k + 8);
        CopyWord(a, m, dst, src, k + 12);
        k := k + 16;
      }
      while 4 <= count - k
        invariant k <= count && Copied(m, a[..], dst, src, k)
      {
        CopyWord(a, m, dst, src, k);
        k := k + 4;
      }
    }
    while k < count
      invariant k <= count && Copied(m, a[..], dst, src, k)
    {
      CopyCell(a, m, dst, src, k);
      k := k + 1;
    }
    CopyIsMoveIff(m, a[..], dst, src, count);
  }

  lemma NoneCopied<T>(m: seq<T>, dst: nat, src: nat)
    requires dst <= |m| && src <= |m|
    ensures Copied(m, m, dst, src, 0)
  {
  }

  // rt_memmove: downwards if the destination starts inside the source, else upwards.
  method MemMove<T>(a: array<T>, dst: nat, src: nat, n: nat)
    requires dst + n <= a.Length && src + n <= a.Length
    modifies a
    ensures a[..] == Moved(old(a[..]), dst, src, n)
  {
    ghost var m := a[..];
    if src < dst && dst < src + n {
      var k: nat := n;
      while 0 < k
        invariant k <= n
        invariant forall i :: 0 <= i < a.Length ==> a[i] == m[if dst + k <= i < dst + n then src + (i - dst) else i]
      {
        k := k - 1;
        a[dst + k] := a[src + k];
      }
      MovedAt(m, dst, src, n);
    } else {
      NoneCopied(m, dst, src);
      var k: nat := 0;
      while k < n
        invariant k <= n && Copied(m, a[..], dst, src, k)
      {
        CopyCell(a, m, dst, src, k);
        k := k + 1;
      }
      CopyIsMoveIff(m, a[..], dst, src, n);
    }
  }
}
