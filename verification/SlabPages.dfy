// The page allocator of slab.c: a singly linked list threaded through the first
// page of every free run, walked with a pointer to the link to rewrite.
module SlabPages {
  import opened Common
  import opened SlabPagesSpec

  const NULL := -1

  function StartOr(rs: seq<Run>, i: nat): int { if i < |rs| then rs[i].start else NULL }

  predicate Node(next: map<int, int>, page: map<int, nat>, x: int, n: int, count: nat) {
    x in next && next[x] == n && x in page && page[x] == count
  }

  ghost predicate Linked(next: map<int, int>, page: map<int, nat>, head: int, rs: seq<Run>) {
    head == StartOr(rs, 0) && forall i :: 0 <= i < |rs| ==> Node(next, page, rs[i].start, StartOr(rs, i + 1), rs[i].count)
  }

  lemma {:induction false} Ascends(rs: seq<Run>, i: nat, j: nat)
    requires Canonical(rs) && i < j < |rs|
    ensures rs[i].Stop() < rs[j].start && rs[i].count > 0 && rs[j].count > 0
    decreases j
  {
    if i > 0 {
      Ascends(rs[1..], i - 1, j - 1);
    } else {
      CountsPositive(rs, j);
      if j > 1 {
        Ascends(rs[1..], 0, j - 1);
        assert rs[1..][0] == rs[1];
      }
    }
  }

  lemma {:induction false} CountsPositive(rs: seq<Run>, j: nat)
    requires Canonical(rs) && j < |rs|
    ensures rs[j].count > 0
  {
    if j > 0 { CountsPositive(rs[1..], j - 1); }
  }

  // The node whose link is the i-th, NULL for the list head itself.
  function PrevOf(rs: seq<Run>, i: nat): int
    requires i <= |rs|
  {
    if i == 0 then NULL else rs[i - 1].start
  }

  // The link at prev after x was stored in it.
  function LinkTo(next: map<int, int>, prev: int, x: int): map<int, int> { if prev == NULL then next else next[prev := x] }

  function HeadTo(head: int, prev: int, x: int): int { if prev == NULL then x else head }

  // ----- the loops -----

  // The loop of rt_page_alloc goes past the first i runs.
  ghost predicate TooShort(rs: seq<Run>, k: nat, i: nat) {
    i <= |rs| && forall j :: 0 <= j < i ==> rs[j].count < k
  }

  lemma {:induction false} AllocAt(rs: seq<Run>, k: nat, i: nat)
    requires i <= |rs| && TooShort(rs, k, i)
    ensures i == |rs| ==> Alloc(rs, k).None?
    ensures i < |rs| && rs[i].count > k ==>
      Alloc(rs, k) == Some((rs[i].start, rs[i := Run(rs[i].start + k, rs[i].count - k)]))
    ensures i < |rs| && rs[i].count == k ==> Alloc(rs, k) == Some((rs[i].start, Removed(rs, i)))
  {
    if i > 0 {
      forall j | 0 <= j < i - 1 ensures rs[1..][j].count < k { assert rs[1..][j] == rs[j + 1]; }
      AllocAt(rs[1..], k, i - 1);
      if i < |rs| && rs[i].count > k {
        assert rs[i := Run(rs[i].start + k, rs[i].count - k)] == [rs[0]] + rs[1..][i - 1 := Run(rs[i].start + k, rs[i].count - k)];
      }
      if i < |rs| {
        assert Removed(rs, i) == [rs[0]] + Removed(rs[1..], i - 1);
      }
    } else if rs != [] {
      assert forall r :: rs[0 := r] == [r] + rs[1..];
      assert Removed(rs, 0) == rs[1..];
    }
  }

  lemma AllocCanonical(rs: seq<Run>, k: nat)
    requires Canonical(rs) && k > 0 && Alloc(rs, k).Some?
    ensures Canonical(Alloc(rs, k).value.1)
  {
    AllocTakes(rs, k);
  }

  // Run i without its first k pages.
  function CutRun(rs: seq<Run>, i: nat, k: nat): seq<Run>
    requires i < |rs| && k <= rs[i].count
  {
    rs[i := Run(rs[i].start + k, rs[i].count - k)]
  }

  lemma CutFacts(next: map<int, int>, page: map<int, nat>, head: int, rs: seq<Run>, i: nat, k: nat)
    requires Linked(next, page, head, rs) && Canonical(rs) && i < |rs| && 0 < k < rs[i].count && TooShort(rs, k, i)
    ensures Alloc(rs, k) == Some((rs[i].start, CutRun(rs, i, k))) && Canonical(CutRun(rs, i, k))
    ensures var n := rs[i].start + k;
      Linked(LinkTo(next[n := StartOr(rs, i + 1)], PrevOf(rs, i), n), page[n := rs[i].count - k], HeadTo(head, PrevOf(rs, i), n), CutRun(rs, i, k))
  {
    hide Canonical, Linked;
    AllocAt(rs, k, i);
    AllocCanonical(rs, k);
    LinkReplace(next, page, head, rs, i, Run(rs[i].start + k, rs[i].count - k));
  }

  // The loop of rt_page_free goes past a run.
  predicate Passes(r: Run, a: nat, k: nat) { r.Stop() != a && r.start < a + k }

  ghost predicate PassesAll(rs: seq<Run>, a: nat, k: nat, i: nat) {
    i <= |rs| && forall j :: 0 <= j < i ==> Passes(rs[j], a, k)
  }

  lemma {:induction false} ReleaseAt(rs: seq<Run>, a: nat, k: nat, i: nat)
    requires i <= |rs| && PassesAll(rs, a, k, i)
    ensures Release(rs, a, k) == rs[..i] + Release(rs[i..], a, k)
  {
    if i > 0 {
      forall j | 0 <= j < i - 1 ensures Passes(rs[1..][j], a, k) { assert rs[1..][j] == rs[j + 1]; }
      ReleaseAt(rs[1..], a, k, i - 1);
      assert rs[1..][i - 1..] == rs[i..];
      assert rs[..i] == [rs[0]] + rs[1..][..i - 1];
      assert Passes(rs[0], a, k);
    } else {
      assert rs[0..] == rs;
    }
  }

  // ----- edits of the list -----

  // Run i becomes r; the link to it is head, or in the run before it.
  lemma LinkReplace(next: map<int, int>, page: map<int, nat>, head: int, rs: seq<Run>, i: nat, r: Run)
    requires Linked(next, page, head, rs) && Canonical(rs) && i < |rs|
    requires Canonical(rs[i := r])
    ensures Linked(LinkTo(next[r.start := StartOr(rs, i + 1)], PrevOf(rs, i), r.start), page[r.start := r.count],
                   HeadTo(head, PrevOf(rs, i), r.start), rs[i := r])
  {
    var t := rs[i := r];
    var next' := next[r.start := StartOr(rs, i + 1)];
    var n := if i == 0 then next' else next'[rs[i - 1].start := r.start];
    forall k | 0 <= k < |t| ensures Node(n, page[r.start := r.count], t[k].start, StartOr(t, k + 1), t[k].count) {
      assert Node(next, page, rs[k].start, StartOr(rs, k + 1), rs[k].count);
      if k < i { Ascends(t, k, i); } else if k > i { Ascends(t, i, k); }
      if i > 0 && k < i - 1 { Ascends(rs, k, i - 1); }
      if i > 0 && k > i - 1 { Ascends(t, i - 1, k); }
    }
  }

  function Removed(rs: seq<Run>, i: nat): seq<Run>
    requires i < |rs|
  {
    rs[..i] + rs[i + 1..]
  }

  lemma RemovedAt(rs: seq<Run>, i: nat, k: nat)
    requires i < |rs| && k + 1 < |rs|
    ensures |Removed(rs, i)| == |rs| - 1 && Removed(rs, i)[k] == rs[if k < i then k else k + 1]
    ensures StartOr(Removed(rs, i), k + 1) == StartOr(rs, if k + 1 < i then k + 1 else k + 2)
  {
  }

  lemma RemovedStart(rs: seq<Run>, i: nat)
    requires i < |rs|
    ensures |Removed(rs, i)| == |rs| - 1 && StartOr(Removed(rs, i), 0) == if i == 0 then StartOr(rs, 1) else StartOr(rs, 0)
  {
  }

  // Run i leaves the list.
  lemma LinkRemove(next: map<int, int>, page: map<int, nat>, head: int, rs: seq<Run>, i: nat)
    requires Linked(next, page, head, rs) && Canonical(rs) && i < |rs|
    ensures Linked(LinkTo(next, PrevOf(rs, i), StartOr(rs, i + 1)), page, HeadTo(head, PrevOf(rs, i), StartOr(rs, i + 1)), Removed(rs, i))
  {
    var t := Removed(rs, i);
    var n := if i == 0 then next else next[rs[i - 1].start := StartOr(rs, i + 1)];
    hide Removed, Canonical;
    RemovedStart(rs, i);
    forall k | 0 <= k < |t| ensures Node(n, page, t[k].start, StartOr(t, k + 1), t[k].count) {
      RemovedAt(rs, i, k);
      var m := if k < i then k else k + 1;
      assert Node(next, page, rs[m].start, StartOr(rs, m + 1), rs[m].count);
      if i > 0 && m < i - 1 { Ascends(rs, m, i - 1); } else if i > 0 && m > i - 1 { Ascends(rs, i - 1, m); }
    }
  }

  // A run r enters before run i.
  lemma LinkInsert(next: map<int, int>, page: map<int, nat>, head: int, rs: seq<Run>, i: nat, r: Run)
    requires Linked(next, page, head, rs) && i <= |rs| && Canonical(rs) && Canonical(rs[..i] + [r] + rs[i..])
    ensures Linked(LinkTo(next[r.start := StartOr(rs, i)], PrevOf(rs, i), r.start), page[r.start := r.count],
                   HeadTo(head, PrevOf(rs, i), r.start), rs[..i] + [r] + rs[i..])
  {
    var t := rs[..i] + [r] + rs[i..];
    var next' := next[r.start := StartOr(rs, i)];
    var n := if i == 0 then next' else next'[rs[i - 1].start := r.start];
    assert t[i] == r;
    forall k | 0 <= k < |t| ensures Node(n, page[r.start := r.count], t[k].start, StartOr(t, k + 1), t[k].count) {
      if k != i {
        var m := if k < i then k else k - 1;
        assert t[k] == rs[m] && Node(next, page, rs[m].start, StartOr(rs, m + 1), rs[m].count);
        if k < i { Ascends(t, k, i); } else { Ascends(t, i, k); }
        if i > 0 && m < i - 1 { Ascends(rs, m, i - 1); } else if i > 0 && m > i - 1 { Ascends(rs, i - 1, m); }
      } else if i > 0 {
        Ascends(t, i - 1, i);
      }
    }
  }

  lemma {:induction false} RemovedCanonical(rs: seq<Run>, i: nat)
    requires Canonical(rs) && i < |rs|
    ensures Canonical(Removed(rs, i)) && forall stop :: Follows(rs, stop) ==> Follows(Removed(rs, i), stop)
  {
    if i == 0 {
      assert Removed(rs, 0) == rs[1..];
    } else {
      RemovedCanonical(rs[1..], i - 1);
      assert Removed(rs, i) == [rs[0]] + Removed(rs[1..], i - 1);
    }
  }

  lemma ReleaseJoins(rs: seq<Run>, k: nat, i: nat)
    requires i + 1 < |rs| && rs[i + 1].start == rs[i].Stop() + k && PassesAll(rs, rs[i].Stop(), k, i)
    ensures Release(rs, rs[i].Stop(), k) == Removed(rs, i + 1)[i := Run(rs[i].start, rs[i].count + k + rs[i + 1].count)]
  {
    ReleaseAt(rs, rs[i].Stop(), k, i);
    assert Release(rs[i..], rs[i].Stop(), k) == [Run(rs[i].start, rs[i].count + k + rs[i + 1].count)] + rs[i..][2..];
    assert rs[i..][2..] == rs[i + 2..];
  }

  lemma ReleaseGrows(rs: seq<Run>, k: nat, i: nat)
    requires i < |rs| && StartOr(rs, i + 1) != rs[i].Stop() + k && PassesAll(rs, rs[i].Stop(), k, i)
    ensures Release(rs, rs[i].Stop(), k) == rs[i := Run(rs[i].start, rs[i].count + k)]
  {
    ReleaseAt(rs, rs[i].Stop(), k, i);
    assert rs[i..][1..] == rs[i + 1..];
  }

  lemma ReleaseBefore(rs: seq<Run>, a: nat, k: nat, i: nat)
    requires i < |rs| && rs[i].start == a + k && rs[i].Stop() != a && PassesAll(rs, a, k, i)
    ensures Release(rs, a, k) == rs[i := Run(a, k + rs[i].count)]
  {
    ReleaseAt(rs, a, k, i);
    assert Release(rs[i..], a, k) == [Run(a, k + rs[i].count)] + rs[i..][1..];
    assert rs[i..][1..] == rs[i + 1..];
  }

  // Run i is extended up to, but not touching, the next one.
  lemma AppendGrows(next: map<int, int>, page: map<int, nat>, head: int, rs: seq<Run>, i: nat, k: nat)
    requires Linked(next, page, head, rs) && Canonical(rs) && i < |rs| && StartOr(rs, i + 1) != rs[i].Stop() + k
    requires Canonical(Release(rs, rs[i].Stop(), k)) && PassesAll(rs, rs[i].Stop(), k, i)
    ensures Linked(next, page[rs[i].start := rs[i].count + k], head, Release(rs, rs[i].Stop(), k))
  {
    hide Canonical, Release;
    ReleaseGrows(rs, k, i);
    LinkReplace(next, page, head, rs, i, Run(rs[i].start, rs[i].count + k));
    assert Node(next, page, rs[i].start, StartOr(rs, i + 1), rs[i].count);
    assert i > 0 ==> Node(next, page, rs[i - 1].start, StartOr(rs, i), rs[i - 1].count);
    assert next[rs[i].start := StartOr(rs, i + 1)] == next;
    if i > 0 { assert next[rs[i - 1].start := rs[i].start] == next; }
  }

  // Run i is extended to the next one and takes it in.
  lemma AppendJoins(next: map<int, int>, page: map<int, nat>, head: int, rs: seq<Run>, i: nat, k: nat)
    requires Linked(next, page, head, rs) && Canonical(rs) && i + 1 < |rs| && rs[i + 1].start == rs[i].Stop() + k
    requires Canonical(Release(rs, rs[i].Stop(), k)) && PassesAll(rs, rs[i].Stop(), k, i)
    ensures Linked(next[rs[i].start := StartOr(rs, i + 2)],
                   page[rs[i].start := rs[i].count + k][rs[i].start := rs[i].count + k + rs[i + 1].count], head,
                   Release(rs, rs[i].Stop(), k))
    ensures rs[i + 1].start != rs[i].start
  {
    hide Canonical;
    var r := Run(rs[i].start, rs[i].count + k + rs[i + 1].count);
    var (m, n) := (Removed(rs, i + 1), next[rs[i].start := StartOr(rs, i + 2)]);
    ReleaseJoins(rs, k, i);
    Ascends(rs, i, i + 1);
    assert page[rs[i].start := rs[i].count + k][rs[i].start := r.count] == page[rs[i].start := r.count];
    hide Release;
    RemovedCanonical(rs, i + 1);
    LinkRemove(next, page, head, rs, i + 1);
    LinkReplace(n, page, head, m, i, r);
    assert StartOr(m, i + 1) == StartOr(rs, i + 2) && m[i] == rs[i];
    assert n[rs[i].start := StartOr(m, i + 1)] == n;
    if i > 0 {
      assert m[i - 1] == rs[i - 1];
      assert Node(n, page, m[i - 1].start, StartOr(m, i), m[i - 1].count);
      assert n[m[i - 1].start := r.start] == n;
    }
  }

  class PageList {
    var next: map<int, int>
    var page: map<int, nat>
    var list: int
    ghost var runs: seq<Run>

    ghost predicate Valid()
      reads this
    {
      Canonical(runs) && Linked(next, page, list, runs)
    }

    // rt_page_init with the n pages from a.
    constructor (a: nat, n: nat)
      requires n > 0
      ensures Valid() && runs == [Run(a, n)]
    {
      next, page, list, runs := map[], map[], NULL, [];
      new;
      assert Canonical(runs) && Linked(next, page, list, runs);
      Free(a, n);
    }

    // Makes x the target of the link at prev, the list head if prev is NULL.
    method Relink(prev: int, x: int)
      modifies `next, `list
      ensures list == HeadTo(old(list), prev, x) && next == LinkTo(old(next), prev, x)
    {
      if prev == NULL {
        list := x;
      } else {
        next := next[prev := x];
      }
    }

    method Alloc(npages: nat) returns (r: Option<nat>)
      requires Valid()
      modifies this
      ensures Valid()
      ensures npages == 0 ==> r.None? && runs == old(runs)
      ensures npages > 0 ==> match SlabPagesSpec.Alloc(old(runs), npages)
        case None => r.None? && runs == old(runs)
        case Some((a, rest)) => r == Some(a) && runs == rest
    {
      if npages == 0 {
        return None;
      }
      var prev, b := NULL, list;
      ghost var i := 0;
      while b != NULL
        invariant i <= |runs| && b == StartOr(runs, i) && prev == PrevOf(runs, i)
        invariant TooShort(runs, npages, i)
        invariant Valid() && runs == old(runs)
        decreases |runs| - i
      {
        assert i < |runs|;
        assert Node(next, page, runs[i].start, StartOr(runs, i + 1), runs[i].count);
        if page[b] > npages {
          Cut(prev, b, npages, i);
          return Some(b);
        }
        if page[b] == npages {
          Remove(prev, b, npages, i);
          return Some(b);
        }
        prev, b := b, next[b];
        i := i + 1;
      }
      assert i == |runs|;
      AllocAt(runs, npages, i);
      r := None;
    }

    method Cut(prev: int, b: nat, npages: nat, ghost i: nat)
      requires Valid() && i < |runs| && b == runs[i].start && 0 < npages < runs[i].count
      requires prev == PrevOf(runs, i) && TooShort(runs, npages, i)
      modifies this
      ensures Valid() && SlabPagesSpec.Alloc(old(runs), npages) == Some((b, runs))
    {
      AroundRun(i);
      CutFacts(next, page, list, runs, i, npages);
      hide *;
      var n := b + npages;
      next := next[n := next[b]];
      page := page[n := page[b] - npages];
      Relink(prev, n);
      runs := CutRun(runs, i, npages);
      assert Valid() by { StillValid(); }
    }

    method Remove(prev: int, b: nat, npages: nat, ghost i: nat)
      requires Valid() && i < |runs| && b == runs[i].start && 0 < npages == runs[i].count
      requires prev == PrevOf(runs, i) && TooShort(runs, npages, i)
      modifies this
      ensures Valid() && SlabPagesSpec.Alloc(old(runs), npages) == Some((b, runs))
    {
      AroundRun(i);
      hide *;
      AllocAt(runs, npages, i);
      AllocCanonical(runs, npages);
      LinkRemove(next, page, list, runs, i);
      Relink(prev, next[b]);
      runs := Removed(runs, i);
    }

    // The pages go behind run i, and may close the gap to the next one.
    method Append(b: nat, a: nat, npages: nat, ghost i: nat)
      requires Valid() && i < |runs| && b == runs[i].start && runs[i].Stop() == a && Canonical(Release(runs, a, npages))
      requires PassesAll(runs, a, npages, i)
      modifies this
      ensures Valid() && runs == Release(old(runs), a, npages)
    {
      AroundRun(i);
      ghost var rs := Release(runs, a, npages);
      if b + page[b] + npages == next[b] {
        AppendJoins(next, page, list, runs, i, npages);
      } else {
        AppendGrows(next, page, list, runs, i, npages);
      }
      hide *;
      page := page[b := page[b] + npages];
      if b + page[b] == next[b] {
        page := page[b := page[b] + page[next[b]]];
        next := next[b := next[next[b]]];
      }
      runs := rs;
      assert Valid() by { StillValid(); }
    }

    lemma StillValid()
      requires Canonical(runs) && Linked(next, page, list, runs)
      ensures Valid()
    {
    }

    // What the nodes of run i and its successor hold.
    lemma AroundRun(i: nat)
      requires Valid() && i < |runs|
      ensures Canonical(runs) && Linked(next, page, list, runs) && runs[i].Stop() == runs[i].start + runs[i].count
      ensures var b := runs[i].start;
        b in next && b in page && page[b] == runs[i].count && next[b] == StartOr(runs, i + 1)
        && (if i + 1 < |runs| then StartOr(runs, i + 1) == runs[i + 1].start >= 0 else StartOr(runs, i + 1) < 0)
      ensures i + 1 < |runs| ==> var b := runs[i + 1].start;
        b in next && b in page && page[b] == runs[i + 1].count && next[b] == StartOr(runs, i + 2)
    {
      assert Node(next, page, runs[i].start, StartOr(runs, i + 1), runs[i].count);
      assert i + 1 < |runs| ==> Node(next, page, runs[i + 1].start, StartOr(runs, i + 2), runs[i + 1].count);
    }

    // The pages go before run i, which they touch.
    method Prepend(prev: int, b: nat, a: nat, npages: nat, ghost i: nat)
      requires Valid() && i < |runs| && b == runs[i].start == a + npages && runs[i].Stop() != a
      requires Canonical(Release(runs, a, npages)) && PassesAll(runs, a, npages, i)
      requires prev == PrevOf(runs, i)
      modifies this
      ensures Valid() && runs == Release(old(runs), a, npages)
    {
      AroundRun(i);
      hide Canonical, Linked, Release, StartOr;
      ghost var r := Run(a, npages + runs[i].count);
      ReleaseBefore(runs, a, npages, i);
      LinkReplace(next, page, list, runs, i, r);
      page := page[a := page[b] + npages];
      next := next[a := next[b]];
      Relink(prev, a);
      runs := runs[i := r];
    }

    // The pages become a run of their own between prev and b.
    method Enter(prev: int, b: int, a: nat, npages: nat, ghost i: nat)
      requires Valid() && i <= |runs| && b == StartOr(runs, i) && npages > 0 && (b != NULL ==> b > a + npages)
      requires Canonical(Release(runs, a, npages)) && PassesAll(runs, a, npages, i)
      requires prev == PrevOf(runs, i)
      modifies this
      ensures Valid() && runs == Release(old(runs), a, npages)
    {
      hide Canonical;
      ReleaseAt(runs, a, npages, i);
      ghost var t := runs[..i] + [Run(a, npages)] + runs[i..];
      assert Release(runs[i..], a, npages) == [Run(a, npages)] + runs[i..];
      assert Release(runs, a, npages) == t;
      LinkInsert(next, page, list, runs, i, Run(a, npages));
      page := page[a := npages];
      next := next[a := b];
      Relink(prev, a);
      runs := t;
    }

    method Free(a: nat, npages: nat)
      requires Valid() && npages > 0 && forall p :: InRange(a, npages, p) ==> !SlabPagesSpec.Free(runs, p)
      modifies this
      ensures Valid() && runs == Release(old(runs), a, npages)
    {
      ReleaseAdds(runs, a, npages);
      var prev, b := NULL, list;
      ghost var i := 0;
      while b != NULL
        invariant i <= |runs| && b == StartOr(runs, i) && prev == PrevOf(runs, i)
        invariant PassesAll(runs, a, npages, i)
        invariant Valid() && runs == old(runs)
        decreases |runs| - i
      {
        assert i < |runs|;
        assert Node(next, page, runs[i].start, StartOr(runs, i + 1), runs[i].count);
        if b + page[b] == a {
          Append(b, a, npages, i);
          return;
        }
        if b == a + npages {
          Prepend(prev, b, a, npages, i);
          return;
        }
        if b > a + npages {
          break;
        }
        prev, b := b, next[b];
        i := i + 1;
      }
      Enter(prev, b, a, npages, i);
    }
  }
}
