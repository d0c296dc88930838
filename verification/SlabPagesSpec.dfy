// The page allocator of slab.c on values: the free pages as a list of runs.
module SlabPagesSpec {
  import opened Common

  // Pages start .. start + count - 1.
  datatype Run = Run(start: nat, count: nat) {
    function Stop(): nat { start + count }
  }

  predicate Inside(r: Run, p: int) { r.start <= p < r.Stop() }

  predicate Free(rs: seq<Run>, p: int) { rs != [] && (Inside(rs[0], p) || Free(rs[1..], p)) }

  predicate Follows(rs: seq<Run>, stop: int) { rs != [] ==> stop < rs[0].start }

  // Ascending runs with a gap between any two.
  predicate Canonical(rs: seq<Run>) {
    rs != [] ==> rs[0].count > 0 && Follows(rs[1..], rs[0].Stop()) && Canonical(rs[1..])
  }

  // rt_page_alloc: the front of the first run that is long enough.
  function Alloc(rs: seq<Run>, k: nat): Option<(nat, seq<Run>)> {
    if rs == [] then None
    else if rs[0].count > k then Some((rs[0].start, [Run(rs[0].start + k, rs[0].count - k)] + rs[1..]))
    else if rs[0].count == k then Some((rs[0].start, rs[1..]))
    else
      var r :- Alloc(rs[1..], k);
      Some((r.0, [rs[0]] + r.1))
  }

  // rt_page_free of the k pages from a.
  function Release(rs: seq<Run>, a: nat, k: nat): seq<Run> {
    if rs == [] then [Run(a, k)]
    else if rs[0].Stop() == a then
      if |rs| > 1 && a + k == rs[1].start then [Run(rs[0].start, rs[0].count + k + rs[1].count)] + rs[2..]
      else [Run(rs[0].start, rs[0].count + k)] + rs[1..]
    else if rs[0].start == a + k then [Run(a, k + rs[0].count)] + rs[1..]
    else if rs[0].start > a + k then [Run(a, k)] + rs
    else [rs[0]] + Release(rs[1..], a, k)
  }

  // ----- the list is determined by the set of free pages -----

  lemma {:induction false} AllAbove(rs: seq<Run>, stop: int, p: int)
    requires Canonical(rs) && Follows(rs, stop) && Free(rs, p)
    ensures stop < p
  {
    if !Inside(rs[0], p) {
      AllAbove(rs[1..], rs[0].Stop(), p);
    }
  }

  lemma FirstIsFree(rs: seq<Run>)
    requires Canonical(rs) && rs != []
    ensures Free(rs, rs[0].start)
  {
    assert Inside(rs[0], rs[0].start);
  }

  lemma {:induction false} Unique(a: seq<Run>, b: seq<Run>)
    requires Canonical(a) && Canonical(b) && forall p :: Free(a, p) <==> Free(b, p)
    ensures a == b
  {
    if a != [] { FirstIsFree(a); }
    if b != [] { FirstIsFree(b); }
    if a != [] && b != [] {
      SameFirst(a, b);
      forall p ensures Free(a[1..], p) <==> Free(b[1..], p) {
        assert Free(a, p) <==> Free(b, p);
        if Free(a[1..], p) { AllAbove(a[1..], a[0].Stop(), p); }
        if Free(b[1..], p) { AllAbove(b[1..], b[0].Stop(), p); }
      }
      Unique(a[1..], b[1..]);
    }
  }

  lemma SameFirst(a: seq<Run>, b: seq<Run>)
    requires Canonical(a) && Canonical(b) && a != [] && b != [] && forall p :: Free(a, p) <==> Free(b, p)
    ensures a[0] == b[0]
  {
    FirstAtMost(a, b);
    FirstAtMost(b, a);
    StopAtMost(a, b);
    StopAtMost(b, a);
  }

  lemma FirstAtMost(a: seq<Run>, b: seq<Run>)
    requires Canonical(a) && Canonical(b) && a != [] && b != [] && forall p :: Free(a, p) <==> Free(b, p)
    ensures b[0].start <= a[0].start
  {
    assert Free(a, a[0].start);
    if !Inside(b[0], a[0].start) { AllAbove(b[1..], b[0].Stop(), a[0].start); }
  }

  lemma StopAtMost(a: seq<Run>, b: seq<Run>)
    requires Canonical(a) && Canonical(b) && a != [] && b != [] && forall p :: Free(a, p) <==> Free(b, p)
    requires a[0].start == b[0].start
    ensures a[0].Stop() <= b[0].Stop()
  {
    if b[0].Stop() < a[0].Stop() {
      assert Inside(a[0], b[0].Stop()) && Free(b, b[0].Stop());
      AllAbove(b[1..], b[0].Stop(), b[0].Stop());
    }
  }

  // ----- what allocating and releasing do to the set -----

  predicate InRange(a: int, k: int, p: int) { a <= p < a + k }

  ghost predicate AllFree(rs: seq<Run>, a: int, k: int) { forall p :: InRange(a, k, p) ==> Free(rs, p) }

  lemma {:induction false} AllocTakes(rs: seq<Run>, k: nat)
    requires Canonical(rs) && k > 0 && Alloc(rs, k).Some?
    ensures var (a, r) := Alloc(rs, k).value;
      && Canonical(r) && (forall stop :: Follows(rs, stop) ==> Follows(r, stop))
      && AllFree(rs, a, k)
      && forall p :: Free(r, p) <==> Free(rs, p) && !InRange(a, k, p)
  {
    if rs[0].count >= k {
      var r := Alloc(rs, k).value.1;
      forall p ensures Free(r, p) <==> Free(rs, p) && !InRange(rs[0].start, k, p) {
        if Free(rs[1..], p) { AllAbove(rs[1..], rs[0].Stop(), p); }
        if rs[0].count > k { assert r[1..] == rs[1..]; }
      }
      if rs[0].count > k { assert r[1..] == rs[1..]; }
    } else {
      AllocTakes(rs[1..], k);
      var (a, t) := Alloc(rs[1..], k).value;
      var r := [rs[0]] + t;
      assert r[1..] == t;
      AllAbove(rs[1..], rs[0].Stop(), a) by { assert InRange(a, k, a); }
      forall p ensures Free(r, p) <==> Free(rs, p) && !InRange(a, k, p) {
        assert Free(t, p) <==> Free(rs[1..], p) && !InRange(a, k, p);
      }
    }
  }

  // All of a stretch of free pages lies in one run.
  lemma {:induction false} AllocFindsLowest(rs: seq<Run>, k: nat, b: int)
    requires Canonical(rs) && k > 0 && AllFree(rs, b, k)
    ensures Alloc(rs, k).Some? && Alloc(rs, k).value.0 <= b
  {
    assert InRange(b, k, b);
    assert Free(rs, b);
    if Inside(rs[0], b) {
      if rs[0].count < k {
        assert InRange(b, k, rs[0].Stop());
        AllAbove(rs[1..], rs[0].Stop(), rs[0].Stop());
      }
    } else {
      forall p | InRange(b, k, p) ensures Free(rs[1..], p) {
        AllAbove(rs[1..], rs[0].Stop(), b);
        assert Free(rs, p);
      }
      AllocFindsLowest(rs[1..], k, b);
      AllAbove(rs[1..], rs[0].Stop(), b);
    }
  }

  // rt_page_alloc returns the lowest k free pages in a row, NULL iff there are none.
  lemma AllocIsLowest(rs: seq<Run>, k: nat)
    requires Canonical(rs) && k > 0
    ensures Alloc(rs, k).Some? ==> AllFree(rs, Alloc(rs, k).value.0, k)
    ensures forall b :: AllFree(rs, b, k) ==> Alloc(rs, k).Some? && Alloc(rs, k).value.0 <= b
  {
    if Alloc(rs, k).Some? { AllocTakes(rs, k); }
    forall b | AllFree(rs, b, k) ensures Alloc(rs, k).Some? && Alloc(rs, k).value.0 <= b {
      AllocFindsLowest(rs, k, b);
    }
  }

  lemma {:induction false} ReleaseAdds(rs: seq<Run>, a: nat, k: nat)
    requires Canonical(rs) && k > 0 && forall p :: InRange(a, k, p) ==> !Free(rs, p)
    ensures var r := Release(rs, a, k);
      && Canonical(r) && (forall stop :: stop < a && Follows(rs, stop) ==> Follows(r, stop))
      && forall p :: Free(r, p) <==> Free(rs, p) || InRange(a, k, p)
  {
    if rs != [] {
      assert !Inside(rs[0], a) by { assert InRange(a, k, a); }
      assert InRange(a, k, rs[0].start) ==> !Free(rs, rs[0].start);
      if rs[0].Stop() == a {
        ReleaseBehind(rs, a, k);
      } else if rs[0].start >= a + k {
        var r := Release(rs, a, k);
        assert r[1..] == if rs[0].start == a + k then rs[1..] else rs;
      } else {
        forall p | InRange(a, k, p) ensures !Free(rs[1..], p) { assert !Free(rs, p); }
        ReleaseAdds(rs[1..], a, k);
        var r := Release(rs, a, k);
        assert r[1..] == Release(rs[1..], a, k);
      }
    } else {
      var r := [Run(a, k)];
      assert r[1..] == [];
    }
  }

  lemma ReleaseBehind(rs: seq<Run>, a: nat, k: nat)
    requires Canonical(rs) && k > 0 && rs != [] && rs[0].Stop() == a && forall p :: InRange(a, k, p) ==> !Free(rs, p)
    ensures var r := Release(rs, a, k);
      && Canonical(r) && (forall stop :: stop < a && Follows(rs, stop) ==> Follows(r, stop))
      && forall p :: Free(r, p) <==> Free(rs, p) || InRange(a, k, p)
  {
    var r := Release(rs, a, k);
    if |rs| > 1 {
      assert rs[1..][0] == rs[1] && rs[1..][1..] == rs[2..];
      assert InRange(a, k, rs[1].start) ==> !Free(rs, rs[1].start);
      assert Inside(rs[1], rs[1].start) && Free(rs[1..], rs[1].start);
    }
    assert r[1..] == if |rs| > 1 && a + k == rs[1].start then rs[2..] else rs[1..];
  }

  // Releasing what was allocated restores the identical list.
  lemma ReleaseUndoesAlloc(rs: seq<Run>, k: nat)
    requires Canonical(rs) && k > 0 && Alloc(rs, k).Some?
    ensures Release(Alloc(rs, k).value.1, Alloc(rs, k).value.0, k) == rs
  {
    var (a, r) := Alloc(rs, k).value;
    AllocTakes(rs, k);
    ReleaseAdds(r, a, k);
    Unique(Release(r, a, k), rs);
  }
}
