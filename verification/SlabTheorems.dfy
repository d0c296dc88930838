// What every run of slab.c's rt_malloc and rt_free keeps.
module SlabTheorems {
  import opened Common
  import opened Sequences
  import opened SlabPagesSpec
  import opened SlabSpec
  import opened SlabProofs

  // ----- live blocks -----

  // All live blocks of m are those of h and the n bytes at addr, which is new.
  ghost predicate Adds(h: Heap, m: Heap, addr: nat, n: nat) {
    && (forall a, b :: Live(m, a, b) <==> Live(h, a, b) || (a == addr && b == n))
    && forall b :: !Live(h, addr, b)
  }

  ghost predicate Removes(h: Heap, m: Heap, addr: nat) { forall a, b :: Live(m, a, b) <==> Live(h, a, b) && a != addr }

  // The pages of region p contain the n bytes at addr.
  predicate Holds(h: Heap, p: nat, addr: nat, n: nat)
    requires p in h.regions
  {
    p * PAGE <= addr && addr + n <= (p + h.regions[p]) * PAGE
  }

  lemma ZoneIsMapped(cfg: Config, h: Heap, p: nat)
    requires UsageOk(cfg, h) && p in h.zones
    ensures Mapped(cfg, h, p)
  {
  }

  lemma ZoneSize(cfg: Config, z: Zone)
    requires ZoneOk(cfg, z)
    ensures 0 < z.size
  {
  }

  lemma ZoneHolds(cfg: Config, h: Heap, p: nat, addr: nat, n: nat)
    requires Invariant(cfg, h) && p in h.zones && InZone(h, p, addr, n)
    ensures p in h.regions && h.regions[p] == cfg.Pages() && Holds(h, p, addr, n) && 0 < n && addr > p * PAGE
  {
    hide RegionsOk, ArraysOk, ZoneOk, LiveIn, UsageOk, Marked;
    assert ZoneOk(cfg, h.zones[p]);
    ZoneIsMapped(cfg, h, p);
    ZoneSize(cfg, h.zones[p]);
    LiveInside(cfg, h.zones[p], addr - p * PAGE);
  }

  // Every live block lies in one region.
  lemma LiveRegion(cfg: Config, h: Heap, addr: nat, n: nat) returns (p: nat)
    requires Invariant(cfg, h) && Live(h, addr, n)
    ensures p in h.regions && Holds(h, p, addr, n) && 0 < n
    ensures if p in h.zones then InZone(h, p, addr, n) else p !in h.spare && addr == p * PAGE && n == h.regions[p] * PAGE
  {
    hide ArraysOk, UsageOk, LiveIn;
    if q :| q in h.zones && InZone(h, q, addr, n) {
      p := q;
      ZoneHolds(cfg, h, p, addr, n);
    } else {
      p :| p in h.regions && p !in h.zones && p !in h.spare && addr == p * PAGE && n == h.regions[p] * PAGE;
    }
  }

  lemma RegionsApart(h: Heap, p: nat, a: nat, n: nat, q: nat, b: nat, m: nat)
    requires RegionsOk(h.free, h.regions) && p in h.regions && q in h.regions && Holds(h, p, a, n) && Holds(h, q, b, m)
    ensures p != q ==> Apart(a, n, b, m)
  {
  }

  // Live blocks do not overlap, and lie in pages that are not free.
  lemma LiveDisjoint(cfg: Config, h: Heap, a: nat, n: nat, b: nat, m: nat)
    requires Invariant(cfg, h) && Live(h, a, n) && Live(h, b, m)
    ensures if a == b then n == m else Apart(a, n, b, m)
    ensures forall x :: a / PAGE <= x <= (a + n - 1) / PAGE ==> !Free(h.free, x)
  {
    hide ArraysOk, UsageOk, LiveIn, Live;
    var p: nat := LiveRegion(cfg, h, a, n);
    var q: nat := LiveRegion(cfg, h, b, m);
    RegionsApart(h, p, a, n, q, b, m);
    if p == q && p in h.zones && a != b {
      ChunksApart(h.zones[p], a - p * PAGE, b - p * PAGE);
    }
    forall x | a / PAGE <= x <= (a + n - 1) / PAGE ensures !Free(h.free, x) {
      assert InRange(p, h.regions[p], x);
    }
  }

  // ----- taking pages and giving them back -----

  lemma NewRegion(h: Heap, k: nat)
    requires RegionsOk(h.free, h.regions) && k > 0 && Alloc(h.free, k).Some?
    ensures var (p, rest) := Alloc(h.free, k).value;
      && RegionsOk(rest, h.regions[p := k]) && p !in h.regions
      && forall q :: q in h.regions ==> Apart(p, k, q, h.regions[q])
  {
    var (p, rest) := Alloc(h.free, k).value;
    AllocTakes(h.free, k);
    hide Canonical, Free, Alloc;
    forall q | q in h.regions ensures Apart(p, k, q, h.regions[q]) && p != q {
      assert InRange(q, h.regions[q], q) && !Free(h.free, q);
      assert !InRange(p, k, q);
      assert InRange(p, k, p) && Free(h.free, p);
      assert !InRange(q, h.regions[q], p);
    }
    var m := h.(free := rest, regions := h.regions[p := k]);
    forall q, x | q in m.regions && InRange(q, m.regions[q], x) ensures !Free(rest, x) {
      if q != p { assert !Free(h.free, x); }
    }
  }

  lemma OldRegion(h: Heap, p: nat)
    requires RegionsOk(h.free, h.regions) && p in h.regions
    ensures RegionsOk(Release(h.free, p, h.regions[p]), h.regions - {p})
  {
    ReleaseAdds(h.free, p, h.regions[p]);
    hide Canonical, Free, Release;
    var m := h.(free := Release(h.free, p, h.regions[p]), regions := h.regions - {p});
    forall q, x | q in m.regions && InRange(q, m.regions[q], x) ensures !Free(m.free, x) {
      assert !Free(h.free, x) && Apart(p, h.regions[p], q, h.regions[q]);
    }
  }

  // u and v agree outside the k pages from p.
  ghost predicate SameBut(u: map<nat, Usage>, v: map<nat, Usage>, p: nat, k: nat) {
    forall x: nat :: !InRange(p, k, x) && x in u ==> x in v && v[x] == u[x]
  }

  lemma {:induction false} UsageOfAt(cfg: Config, p: nat, u: map<nat, Usage>, i: nat)
    ensures Marked(UsageOf(cfg, p, u, i), p, i) && SameBut(u, UsageOf(cfg, p, u, i), p, i)
  {
    if i > 0 { UsageOfAt(cfg, p, u, i - 1); }
  }

  lemma {:induction false} ClearAt(p: nat, u: map<nat, Usage>, i: nat)
    ensures SameBut(u, Clear(p, u, i), p, i)
  {
    if i > 0 { ClearAt(p, u, i - 1); }
  }

  // What memusage says of a region stays right when it changes only elsewhere.
  lemma UsageKept(u: map<nat, Usage>, v: map<nat, Usage>, p: nat, k: nat, q: nat, n: nat)
    requires Apart(p, k, q, n) && 0 < n && SameBut(u, v, p, k)
    ensures Marked(u, q, n) ==> Marked(v, q, n)
    ensures q in u ==> q in v && v[q] == u[q]
  {
    assert !InRange(p, k, q);
    if Marked(u, q, n) {
      forall x: nat | InRange(q, n, x) ensures x in v && v[x] == Small(x - q) {
        assert x in u && !InRange(p, k, x);
      }
    }
  }

  lemma UsageStays(cfg: Config, h: Heap, m: Heap, p: nat, k: nat)
    requires UsageOk(cfg, h) && SameBut(h.usage, m.usage, p, k)
    requires forall q :: q in h.regions && q != p ==> q in m.regions && m.regions[q] == h.regions[q] > 0 && Apart(p, k, q, h.regions[q])
    ensures forall q :: q in h.regions && q != p && (q in h.zones || q in h.spare) ==> Mapped(cfg, m, q)
    ensures forall q :: q in h.regions && q != p && q !in h.zones && q !in h.spare ==> q in m.usage && m.usage[q] == Large(m.regions[q])
  {
    hide Marked, SameBut;
    forall q | q in h.regions && q != p
      ensures q in h.zones || q in h.spare ==> Mapped(cfg, m, q)
      ensures q !in h.zones && q !in h.spare ==> q in m.usage && m.usage[q] == Large(m.regions[q])
    {
      UsageKept(h.usage, m.usage, p, k, q, h.regions[q]);
      assert q in h.zones || q in h.spare ==> Mapped(cfg, h, q);
    }
  }

  // ----- large blocks -----

  lemma MallocLargeOk(cfg: Config, h: Heap, k: nat)
    requires Invariant(cfg, h) && k > 0 && Alloc(h.free, k).Some?
    ensures var (m, r) := MallocLarge(h, k); Invariant(cfg, m) && r.Some? && Adds(h, m, r.value, k * PAGE)
  {
    hide ZoneOk, Alloc, Adds, RegionsOk, ArraysOk, Marked;
    var (m, r) := MallocLarge(h, k);
    var p := Alloc(h.free, k).value.0;
    NewRegion(h, k);
    assert forall q :: q in h.regions ==> h.regions[q] > 0 by { RegionSizes(h); }
    UsageStays(cfg, h, m, p, k);
    assert forall q :: q in h.zones || q in h.spare ==> Mapped(cfg, h, q);
    assert UsageOk(cfg, m);
    NewLarge(cfg, h, m, p, k);
  }

  lemma RegionSizes(h: Heap)
    requires RegionsOk(h.free, h.regions)
    ensures forall q :: q in h.regions ==> h.regions[q] > 0
  {
  }

  lemma NewLarge(cfg: Config, h: Heap, m: Heap, p: nat, k: nat)
    requires Invariant(cfg, h) && Invariant(cfg, m) && p !in h.regions && k > 0 && m.regions == h.regions[p := k]
    requires m.zones == h.zones && m.spare == h.spare && p !in h.spare && p !in h.zones
    ensures Adds(h, m, p * PAGE, k * PAGE)
  {
    hide RegionsOk, UsageOk, ArraysOk, LiveIn, ZoneOk;
    forall a, b ensures Live(m, a, b) <==> Live(h, a, b) || (a == p * PAGE && b == k * PAGE) {
      forall q | q in h.zones ensures InZone(m, q, a, b) == InZone(h, q, a, b) {}
      assert p in m.regions;
    }
    forall b ensures !Live(h, p * PAGE, b) {
      if Live(h, p * PAGE, b) {
        assert Live(m, p * PAGE, b) && Live(m, p * PAGE, k * PAGE);
        var q: nat := LiveRegion(cfg, h, p * PAGE, b);
        RegionsApart(m, p, p * PAGE, k * PAGE, q, p * PAGE, b);
      }
    }
  }

  lemma FreeLargeOk(cfg: Config, h: Heap, p: nat)
    requires Invariant(cfg, h) && p in h.regions && p !in h.zones && p !in h.spare
    ensures p in h.usage && h.usage[p] == Large(h.regions[p])
    ensures Invariant(cfg, FreeLarge(h, p)) && Removes(h, FreeLarge(h, p), p * PAGE)
  {
    hide ZoneOk, Free, Release, Removes, RegionsOk, ArraysOk, Marked;
    var m := FreeLarge(h, p);
    OldRegion(h, p);
    assert (forall q :: q in h.regions ==> h.regions[q] > 0)
      && forall q :: q in h.regions && q != p ==> Apart(p, 1, q, h.regions[q]) by { RegionStarts(h, p); }
    assert SameBut(h.usage, m.usage, p, 1);
    UsageStays(cfg, h, m, p, 1);
    assert forall q :: q in h.zones || q in h.spare ==> Mapped(cfg, h, q);
    assert UsageOk(cfg, m);
    GoneLarge(cfg, h, m, p);
  }

  lemma RegionStarts(h: Heap, p: nat)
    requires RegionsOk(h.free, h.regions) && p in h.regions
    ensures forall q :: q in h.regions ==> h.regions[q] > 0
    ensures forall q :: q in h.regions && q != p ==> Apart(p, 1, q, h.regions[q]) && Apart(p, h.regions[p], q, h.regions[q])
  {
  }

  lemma GoneLarge(cfg: Config, h: Heap, m: Heap, p: nat)
    requires Invariant(cfg, h) && Invariant(cfg, m) && p in h.regions && p !in h.zones && p !in h.spare
    requires m.regions == h.regions - {p} && m.zones == h.zones && m.spare == h.spare
    ensures Removes(h, m, p * PAGE)
  {
    hide RegionsOk, UsageOk, ArraysOk, LiveIn, ZoneOk;
    forall a, b ensures Live(m, a, b) <==> Live(h, a, b) && a != p * PAGE {
      forall q | q in h.zones ensures InZone(m, q, a, b) == InZone(h, q, a, b) && (InZone(h, q, a, b) ==> a != p * PAGE) {
        if InZone(h, q, a, b) {
          ZoneHolds(cfg, h, q, a, b);
          assert RegionsOk(h.free, h.regions);
          RegionsApart(h, q, a, b, p, p * PAGE, h.regions[p] * PAGE);
          RegionStarts(h, p);
        }
      }
    }
  }

  // ----- zones -----

  // A zone whose chunk at o became live, or stopped being so.
  ghost predicate Flips(z: Zone, r: Zone, o: nat, live: bool) {
    && r.size == z.size && LiveIn(z, o) != live && LiveIn(r, o) == live
    && forall x :: x != o ==> (LiveIn(r, x) <==> LiveIn(z, x))
  }

  lemma ChunkAdded(cfg: Config, h: Heap, m: Heap, p: nat, z: Zone, o: nat)
    requires Invariant(cfg, h) && Invariant(cfg, m) && p in h.zones && Flips(h.zones[p], z, o, true)
    requires m.regions == h.regions && m.spare == h.spare && m.zones == h.zones[p := z]
    ensures Adds(h, m, p * PAGE + o, z.size)
  {
    hide RegionsOk, UsageOk, ArraysOk, LiveIn, ZoneOk;
    var addr := p * PAGE + o;
    forall a, b ensures Live(m, a, b) <==> Live(h, a, b) || (a == addr && b == z.size) {
      forall q | q in h.zones && q != p ensures InZone(m, q, a, b) == InZone(h, q, a, b) {}
      assert InZone(m, p, a, b) <==> InZone(h, p, a, b) || (a == addr && b == z.size);
    }
    forall b ensures !Live(h, addr, b) {
      if Live(h, addr, b) {
        assert InZone(m, p, addr, z.size);
        ZoneHolds(cfg, m, p, addr, z.size);
        var q: nat := LiveRegion(cfg, h, addr, b);
        assert RegionsOk(h.free, h.regions);
        RegionsApart(h, p, addr, z.size, q, addr, b);
      }
    }
  }

  lemma ChunkGone(cfg: Config, h: Heap, m: Heap, p: nat, z: Zone, o: nat)
    requires Invariant(cfg, h) && p in h.zones && Flips(h.zones[p], z, o, false)
    requires m.regions == h.regions && m.spare == h.spare && m.zones == h.zones[p := z]
    ensures Removes(h, m, p * PAGE + o)
  {
    hide RegionsOk, UsageOk, ArraysOk, LiveIn, ZoneOk;
    var addr := p * PAGE + o;
    assert InZone(h, p, addr, z.size);
    forall a, b ensures Live(m, a, b) <==> Live(h, a, b) && a != addr {
      forall q | q in h.zones && q != p ensures InZone(m, q, a, b) == InZone(h, q, a, b) && (InZone(h, q, a, b) ==> a != addr) {
        if InZone(h, q, a, b) { OneRegion(cfg, h, p, addr, z.size, q, a, b); }
      }
      assert InZone(m, p, a, b) <==> InZone(h, p, a, b) && a != addr;
      forall q | q in h.regions && q !in h.zones && q !in h.spare && a == q * PAGE && b == h.regions[q] * PAGE ensures a != addr {
        ZoneHolds(cfg, h, p, addr, z.size);
        RegionStarts(h, q);
        RegionsApart(h, p, addr, z.size, q, a, b);
      }
    }
  }

  lemma OneRegion(cfg: Config, h: Heap, p: nat, a: nat, n: nat, q: nat, b: nat, m: nat)
    requires Invariant(cfg, h) && p in h.zones && q in h.zones && p != q && InZone(h, p, a, n) && InZone(h, q, b, m)
    ensures a != b
  {
    hide UsageOk, ArraysOk, LiveIn, ZoneOk;
    ZoneHolds(cfg, h, p, a, n);
    ZoneHolds(cfg, h, q, b, m);
    RegionsApart(h, p, a, n, q, b, m);
  }

  // ----- allocating from a listed zone -----

  // The heap after a chunk of zone p was taken, which leaves z.
  lemma TakenOk(cfg: Config, h: Heap, m: Heap, k: nat, p: nat, z: Zone, o: nat)
    requires Invariant(cfg, h) && k < NZONES && h.arrays[k] != [] && p == h.arrays[k][0] && p in h.zones
    requires Take(h.zones[p]) == (z, o)
    requires m == h.(zones := h.zones[p := z], arrays := if z.nfree == 0 then h.arrays[k := h.arrays[k][1..]] else h.arrays)
    ensures Invariant(cfg, m) && Flips(h.zones[p], z, o, true)
  {
    hide LiveIn, ZoneOk, ArraysOk, UsageOk, RegionsOk, Take;
    HeadIsZone(h.arrays, h.zones, h.spare, k);
    TakeOk(cfg, h.zones[p]);
    TakeListed(h.arrays, h.zones, h.spare, k, z);
    Rezoned(cfg, h, p, z, m.arrays);
  }

  lemma MallocListedOk(cfg: Config, h: Heap, k: nat)
    requires Invariant(cfg, h) && k < NZONES && h.arrays[k] != []
    ensures h.arrays[k][0] in h.zones && h.zones[h.arrays[k][0]].cls == k
    ensures var (m, r) := MallocListed(h, k);
      Invariant(cfg, m) && r.Some? && Adds(h, m, r.value, h.zones[h.arrays[k][0]].size)
  {
    hide Adds, Take, Flips, RegionsOk, UsageOk, ZoneOk, ArraysOk;
    ClassCount(h.arrays, h.zones, h.spare);
    HeadIsZone(h.arrays, h.zones, h.spare, k);
    var p := h.arrays[k][0];
    var (z, o) := Take(h.zones[p]);
    var (m, r) := MallocListed(h, k);
    TakenOk(cfg, h, m, k, p, z, o);
    assert z.size == h.zones[p].size by { FlipsSize(h.zones[p], z, o); }
    ChunkAdded(cfg, h, m, p, z, o);
  }

  lemma FlipsSize(z: Zone, r: Zone, o: nat)
    requires Flips(z, r, o, true)
    ensures r.size == z.size
  {
  }

  // Replacing a zone and relisting zones keeps the rest of the invariant.
  lemma Rezoned(cfg: Config, h: Heap, p: nat, z: Zone, arrays: seq<seq<nat>>)
    requires Invariant(cfg, h) && p in h.zones && ZoneOk(cfg, z) && ArraysOk(arrays, h.zones[p := z], h.spare)
    ensures Invariant(cfg, h.(zones := h.zones[p := z], arrays := arrays))
  {
    hide LiveIn, ZoneOk, ArraysOk, UsageOk, RegionsOk;
    var m := h.(zones := h.zones[p := z], arrays := arrays);
    assert m.zones.Keys == h.zones.Keys;
    UsageSame(cfg, h, m);
  }

  lemma UsageSame(cfg: Config, h: Heap, m: Heap)
    requires UsageOk(cfg, h) && m.regions == h.regions && m.usage == h.usage && m.spare == h.spare && m.zones.Keys == h.zones.Keys
    ensures UsageOk(cfg, m)
  {
    hide Marked;
    assert forall q :: q in m.zones <==> q in h.zones;
    assert forall q :: q in h.zones || q in h.spare ==> Mapped(cfg, h, q);
  }

  lemma ClassCount(arrays: seq<seq<nat>>, zones: map<nat, Zone>, spare: seq<nat>)
    requires ArraysOk(arrays, zones, spare)
    ensures |arrays| == NZONES
  {
  }

  lemma HeadIsZone(arrays: seq<seq<nat>>, zones: map<nat, Zone>, spare: seq<nat>, k: nat)
    requires ArraysOk(arrays, zones, spare) && k < NZONES && arrays[k] != []
    ensures var p := arrays[k][0]; p in zones && zones[p].cls == k && zones[p].nfree > 0
  {
    assert arrays[k][0] in arrays[k];
  }

  lemma TakeListed(arrays: seq<seq<nat>>, zones: map<nat, Zone>, spare: seq<nat>, k: nat, z: Zone)
    requires ArraysOk(arrays, zones, spare) && k < NZONES && arrays[k] != [] && z.cls == k && z.nfree >= 0
    ensures ArraysOk(if z.nfree == 0 then arrays[k := arrays[k][1..]] else arrays, zones[arrays[k][0] := z], spare)
  {
    var (p, rest) := (arrays[k][0], arrays[k][1..]);
    RestDistinct(arrays[k]);
    assert Distinct(arrays[k]) && p in arrays[k];
    hide Distinct;
    assert forall q :: q in arrays[k] <==> q == p || q in rest;
    var (a, zs) := (if z.nfree == 0 then arrays[k := rest] else arrays, zones[p := z]);
    forall j, q | 0 <= j < NZONES && q in a[j] ensures q in zs && zs[q].cls == j && zs[q].nfree > 0 {
      assert q in arrays[j];
    }
    forall q | q in zs && zs[q].nfree > 0 ensures zs[q].cls < NZONES && q in a[zs[q].cls] {
      if q != p {
        assert zs[q] == zones[q] && q in arrays[zones[q].cls];
      } else {
        assert zs[q] == z && a == arrays;
      }
    }
  }

  // ----- allocating from a new zone -----

  // The pages of zone p, which no zone or spare zone has, over the state h.
  ghost predicate Pending(cfg: Config, h: Heap, m: Heap, p: nat) {
    && cfg.Ok() && RegionsOk(m.free, m.regions) && Mapped(cfg, m, p) && p !in h.zones && p !in m.spare
    && m.zones == h.zones && m.arrays == h.arrays
    && (forall q :: q in m.spare ==> q in h.spare) && (forall q :: q in h.spare ==> q == p || q in m.spare)
    && (p in h.spare || p !in h.regions) && |m.spare| <= |h.spare| && Distinct(m.spare)
    && (forall q :: q in m.regions <==> q in h.regions || q == p)
    && (forall q :: q in h.regions ==> m.regions[q] == h.regions[q])
    && (forall q :: q in h.regions && q != p && (q in h.zones || q in h.spare) ==> Mapped(cfg, m, q))
    && (forall q :: q in h.regions && q != p && q !in h.zones && q !in h.spare ==> q in m.usage && m.usage[q] == Large(m.regions[q]))
  }

  lemma ZonePageOk(cfg: Config, h: Heap)
    requires Invariant(cfg, h)
    ensures ZonePage(cfg, h).Some? ==> Pending(cfg, h, ZonePage(cfg, h).value.1, ZonePage(cfg, h).value.0)
    ensures ZonePage(cfg, h).None? <==> h.spare == [] && Alloc(h.free, cfg.Pages()).None?
  {
    hide RegionsOk, ZoneOk, Marked, UsageOf, Alloc, Pending;
    if h.spare != [] {
      SparePage(cfg, h);
    } else if Alloc(h.free, cfg.Pages()).Some? {
      NewPage(cfg, h);
    }
  }

  lemma SparePage(cfg: Config, h: Heap)
    requires Invariant(cfg, h) && h.spare != []
    ensures Pending(cfg, h, h.(spare := h.spare[1..]), h.spare[0])
  {
    hide RegionsOk, ZoneOk, Marked;
    var (p, rest) := (h.spare[0], h.spare[1..]);
    RestDistinct(h.spare);
    hide Distinct;
    assert p in h.spare;
    assert Mapped(cfg, h, p);
    assert forall q :: q in h.regions && (q in h.zones || q in h.spare) ==> Mapped(cfg, h, q);
  }

  lemma NewPage(cfg: Config, h: Heap)
    requires Invariant(cfg, h) && h.spare == [] && Alloc(h.free, cfg.Pages()).Some?
    ensures Pending(cfg, h, ZonePage(cfg, h).value.1, ZonePage(cfg, h).value.0)
  {
    hide RegionsOk, ZoneOk, Marked, UsageOf, Alloc, ArraysOk;
    var p := Alloc(h.free, cfg.Pages()).value.0;
    var m := ZonePage(cfg, h).value.1;
    NewRegion(h, cfg.Pages());
    UsageOfAt(cfg, p, h.usage, cfg.Pages());
    RegionSizes(h);
    UsageStays(cfg, h, m, p, cfg.Pages());
    assert forall q :: q in h.zones ==> Mapped(cfg, h, q);
    assert Distinct(h.spare);
  }

  lemma NewZoneInvariant(cfg: Config, h: Heap, m: Heap, p: nat, k: nat, z: Zone)
    requires Invariant(cfg, h) && Pending(cfg, h, m, p) && k < NZONES && ZoneOk(cfg, z) && z.cls == k && z.nfree > 0
    ensures Invariant(cfg, m.(zones := m.zones[p := z], arrays := m.arrays[k := [p] + m.arrays[k]]))
  {
    hide RegionsOk, ZoneOk, Marked;
    var r := m.(zones := m.zones[p := z], arrays := m.arrays[k := [p] + m.arrays[k]]);
    forall q | q in h.zones || q in h.spare ensures q in h.regions { assert Mapped(cfg, h, q); }
    assert UsageOk(cfg, r) by {
      forall q | q in r.zones || q in r.spare ensures Mapped(cfg, r, q) {
        if q == p { assert Mapped(cfg, m, p); } else { assert Mapped(cfg, m, q); }
      }
    }
    ListZone(m.arrays, m.zones, m.spare, p, z);
  }

  // Putting a zone at the front of the list of its class, where it was not.
  lemma ListZone(arrays: seq<seq<nat>>, zones: map<nat, Zone>, spare: seq<nat>, p: nat, z: Zone)
    requires |arrays| == NZONES && |spare| <= RELEASE_THRESH && Distinct(spare) && (forall q :: q in spare ==> q !in zones)
    requires forall k :: 0 <= k < NZONES ==> Distinct(arrays[k])
    requires forall k, q :: 0 <= k < NZONES && q in arrays[k] ==> q in zones && zones[q].cls == k && zones[q].nfree > 0
    requires forall q :: q in zones && zones[q].nfree > 0 ==> zones[q].cls < NZONES && q in arrays[zones[q].cls]
    requires z.cls < NZONES && z.nfree > 0 && p !in spare && (p in zones ==> zones[p].nfree <= 0)
    ensures ArraysOk(arrays[z.cls := [p] + arrays[z.cls]], zones[p := z], spare)
  {
    var (a, zs) := (arrays[z.cls := [p] + arrays[z.cls]], zones[p := z]);
    assert p !in arrays[z.cls];
    assert Distinct([p] + arrays[z.cls]);
    forall j, q | 0 <= j < NZONES && q in a[j] ensures q in zs && zs[q].cls == j && zs[q].nfree > 0 {
      if q != p { assert q in arrays[j]; }
    }
  }

  lemma NewZoneLive(cfg: Config, h: Heap, m: Heap, r: Heap, p: nat, z: Zone, o: nat)
    requires Invariant(cfg, h) && Pending(cfg, h, m, p) && Invariant(cfg, r) && (forall x :: LiveIn(z, x) <==> x == o)
    requires r.regions == m.regions && r.spare == m.spare && r.zones == h.zones[p := z]
    ensures Adds(h, r, p * PAGE + o, z.size)
  {
    hide RegionsOk, UsageOk, ArraysOk, LiveIn, ZoneOk, Mapped;
    var addr := p * PAGE + o;
    forall a, b ensures Live(r, a, b) <==> Live(h, a, b) || (a == addr && b == z.size) {
      forall q | q in h.zones ensures InZone(r, q, a, b) == InZone(h, q, a, b) {}
      assert InZone(r, p, a, b) <==> (a == addr && b == z.size);
    }
    assert InZone(r, p, addr, z.size);
    ZoneHolds(cfg, r, p, addr, z.size);
    forall b ensures !Live(h, addr, b) {
      if Live(h, addr, b) {
        var q: nat := LiveRegion(cfg, h, addr, b);
        assert RegionsOk(r.free, r.regions);
        RegionsApart(r, p, addr, z.size, q, addr, b);
      }
    }
  }

  lemma MallocNewOk(cfg: Config, h: Heap, k: nat, size: nat)
    requires Invariant(cfg, h) && k < NZONES && IsClass(k, size) && 0 < size && 4 * size <= cfg.zoneSize
    ensures |h.arrays| == NZONES
    ensures var (m, r) := MallocNew(cfg, h, k, size);
      && Invariant(cfg, m) && (r.None? <==> h.spare == [] && Alloc(h.free, cfg.Pages()).None?)
      && if r.Some? then Adds(h, m, r.value, size) else m == h
  {
    hide RegionsOk, UsageOk, LiveIn, ZoneOk, FreshZone, Pending, Alloc;
    ZonePageOk(cfg, h);
    if ZonePage(cfg, h).Some? {
      var (p, m) := ZonePage(cfg, h).value;
      var z := FreshZone(cfg, k, size);
      FreshZoneOk(cfg, k, size);
      NewZoneInvariant(cfg, h, m, p, k, z);
      assert m.zones == h.zones;
      NewZoneLive(cfg, h, m, MallocNew(cfg, h, k, size).0, p, z, At(z, 0));
    }
  }

  // ----- freeing a chunk -----

  lemma {:induction false} RemoveIn(s: seq<nat>, x: nat)
    requires Distinct(s)
    ensures Distinct(Remove(s, x)) && forall y :: y in Remove(s, x) <==> y in s && y != x
  {
    if s != [] {
      RestDistinct(s);
      RemoveIn(s[1..], x);
    }
  }

  lemma PutListed(arrays: seq<seq<nat>>, zones: map<nat, Zone>, spare: seq<nat>, p: nat, z: Zone)
    requires ArraysOk(arrays, zones, spare) && p in zones && z.cls == zones[p].cls < NZONES && z.nfree == zones[p].nfree + 1 && 0 < z.nfree
    ensures |arrays| == NZONES
    ensures ArraysOk(if zones[p].nfree == 0 then arrays[z.cls := [p] + arrays[z.cls]] else arrays, zones[p := z], spare)
  {
    if zones[p].nfree == 0 {
      ListZone(arrays, zones, spare, p, z);
    } else {
      hide Distinct;
      var zs := zones[p := z];
      forall j, q | 0 <= j < NZONES && q in arrays[j] ensures q in zs && zs[q].cls == j && zs[q].nfree > 0 {}
    }
  }

  lemma ZoneClass(cfg: Config, z: Zone)
    requires ZoneOk(cfg, z)
    ensures z.cls < NZONES
  {
  }

  // The heap after a chunk was put back, before the zone is retired.
  function PutBack(h: Heap, p: nat, o: nat): Heap
    requires p in h.zones && h.zones[p].cls < |h.arrays|
  {
    var z := Put(h.zones[p], o);
    var list := h.arrays[z.cls];
    h.(zones := h.zones[p := z], arrays := h.arrays[z.cls := if h.zones[p].nfree == 0 then [p] + list else list])
  }

  lemma PutBackOk(cfg: Config, h: Heap, p: nat, o: nat)
    requires Invariant(cfg, h) && p in h.zones && LiveIn(h.zones[p], o)
    ensures h.zones[p].cls < |h.arrays| == NZONES
    ensures var m := PutBack(h, p, o);
      && Invariant(cfg, m) && Removes(h, m, p * PAGE + o)
      && p in m.zones && m.zones[p] == Put(h.zones[p], o) && m.zones[p].nfree > 0 && m.zones[p].cls == h.zones[p].cls
  {
    hide LiveIn, ZoneOk, ArraysOk, UsageOk, RegionsOk, Removes;
    ClassCount(h.arrays, h.zones, h.spare);
    ZoneClass(cfg, h.zones[p]);
    PutOk(cfg, h.zones[p], o);
    var z := Put(h.zones[p], o);
    PutListed(h.arrays, h.zones, h.spare, p, z);
    var m := PutBack(h, p, o);
    assert h.arrays == h.arrays[z.cls := h.arrays[z.cls]];
    Rezoned(cfg, h, p, z, m.arrays);
    ChunkGone(cfg, h, m, p, z, o);
  }

  // ----- retiring a zone -----

  // A zone without live chunks leaves the zones.
  lemma UnlistZone(arrays: seq<seq<nat>>, zones: map<nat, Zone>, spare: seq<nat>, p: nat, k: nat)
    requires ArraysOk(arrays, zones, spare) && p in zones && zones[p].cls == k < NZONES
    ensures |arrays| == NZONES && ArraysOk(arrays[k := Remove(arrays[k], p)], zones - {p}, spare)
  {
    hide Distinct;
    RemoveIn(arrays[k], p);
    var (a, zs) := (arrays[k := Remove(arrays[k], p)], zones - {p});
    forall j, q | 0 <= j < NZONES && q in a[j] ensures q in zs && zs[q].cls == j && zs[q].nfree > 0 {
      assert q in arrays[j];
    }
    forall q | q in zs && zs[q].nfree > 0 ensures zs[q].cls < NZONES && q in a[zs[q].cls] {
      assert q in arrays[zones[q].cls];
    }
  }

  lemma SpareZone(arrays: seq<seq<nat>>, zones: map<nat, Zone>, spare: seq<nat>, p: nat)
    requires ArraysOk(arrays, zones, spare) && p !in zones && p !in spare && |spare| < RELEASE_THRESH
    ensures ArraysOk(arrays, zones, [p] + spare)
  {
  }

  ghost predicate Empty(z: Zone) { forall o :: !LiveIn(z, o) }

  // Dropping an empty zone, whether or not it stays as a spare, leaves what is live.
  lemma SameLive(cfg: Config, h: Heap, m: Heap, p: nat)
    requires Invariant(cfg, h) && p in h.zones && Empty(h.zones[p]) && m.zones == h.zones - {p}
    requires (m.regions == h.regions && forall q :: q in m.spare <==> q in h.spare || q == p)
      || (m.regions == h.regions - {p} && m.spare == h.spare)
    ensures forall a, b :: Live(m, a, b) <==> Live(h, a, b)
  {
    hide RegionsOk, UsageOk, ArraysOk, LiveIn, ZoneOk;
    forall a, b ensures Live(m, a, b) <==> Live(h, a, b) {
      forall q | q in h.zones && q != p ensures InZone(m, q, a, b) == InZone(h, q, a, b) {}
    }
  }

  lemma RetireOk(cfg: Config, h: Heap, p: nat, k: nat)
    requires Invariant(cfg, h) && p in h.zones && h.zones[p].cls == k && Empty(h.zones[p])
    ensures k < |h.arrays|
    ensures Invariant(cfg, Retire(cfg, h, p, k)) && forall a, b :: Live(Retire(cfg, h, p, k), a, b) <==> Live(h, a, b)
  {
    hide LiveIn, ZoneOk, ArraysOk, UsageOk, RegionsOk, Release, Clear, Empty, Live;
    ClassCount(h.arrays, h.zones, h.spare);
    ZoneClass(cfg, h.zones[p]);
    UnlistZone(h.arrays, h.zones, h.spare, p, k);
    NotSpare(h.arrays, h.zones, h.spare);
    var m := Retire(cfg, h, p, k);
    if |h.spare| + 1 > RELEASE_THRESH {
      ReleasedOk(cfg, h, m, p);
    } else {
      SpareZone(m.arrays, m.zones, h.spare, p);
      SparedOk(cfg, h, m, p);
    }
    SameLive(cfg, h, m, p);
  }

  lemma NotSpare(arrays: seq<seq<nat>>, zones: map<nat, Zone>, spare: seq<nat>)
    requires ArraysOk(arrays, zones, spare)
    ensures forall q :: q in spare ==> q !in zones
  {
  }

  lemma SparedOk(cfg: Config, h: Heap, m: Heap, p: nat)
    requires Invariant(cfg, h) && p in h.zones && ArraysOk(m.arrays, m.zones, m.spare)
    requires m == h.(zones := h.zones - {p}, arrays := m.arrays, spare := [p] + h.spare)
    ensures Invariant(cfg, m)
  {
    hide ZoneOk, ArraysOk, RegionsOk, Marked;
    assert forall q :: q in h.zones || q in h.spare ==> Mapped(cfg, h, q);
    assert UsageOk(cfg, m);
  }

  lemma ReleasedOk(cfg: Config, h: Heap, m: Heap, p: nat)
    requires Invariant(cfg, h) && p in h.zones && p !in h.spare && ArraysOk(m.arrays, m.zones, m.spare)
    requires m == h.(zones := h.zones - {p}, arrays := m.arrays, free := Release(h.free, p, cfg.Pages()),
                     regions := h.regions - {p}, usage := Clear(p, h.usage, cfg.Pages()))
    ensures Invariant(cfg, m)
  {
    hide ZoneOk, ArraysOk, RegionsOk, Marked, Release, Clear;
    ZoneIsMapped(cfg, h, p);
    OldRegion(h, p);
    RegionStarts(h, p);
    ClearAt(p, h.usage, cfg.Pages());
    UsageStays(cfg, h, m, p, cfg.Pages());
    forall q | q in h.zones || q in h.spare ensures q in h.regions { assert Mapped(cfg, h, q); }
    assert UsageOk(cfg, m);
  }

  lemma FreeSmallOk(cfg: Config, h: Heap, p: nat, o: nat)
    requires Invariant(cfg, h) && p in h.zones && LiveIn(h.zones[p], o)
    ensures h.zones[p].cls < |h.arrays|
    ensures Invariant(cfg, FreeSmall(cfg, h, p, o)) && Removes(h, FreeSmall(cfg, h, p, o), p * PAGE + o)
  {
    hide Invariant, LiveIn, ZoneOk, Live, Empty, Retire;
    PutBackOk(cfg, h, p, o);
    var m := PutBack(h, p, o);
    var z := m.zones[p];
    var k := z.cls;
    if z.nfree == z.nmax && m.arrays[k] != [p] {
      IsEmpty(cfg, m, p);
      RetireOk(cfg, m, p, k);
    }
  }

  lemma IsEmpty(cfg: Config, h: Heap, p: nat)
    requires Invariant(cfg, h) && p in h.zones && h.zones[p].nfree == h.zones[p].nmax
    ensures Empty(h.zones[p])
  {
    hide ZoneOk, LiveIn, RegionsOk, UsageOk, ArraysOk;
    ChunksPartition(cfg, h.zones[p]);
  }

  // ----- rt_malloc and rt_free -----

  // Pages of a large request; the rounding wraps.
  function LargePages(size: nat): nat { (size + PAGE - 1) % U32 / PAGE }

  // rt_malloc fails for exactly these requests.
  ghost predicate Refuses(cfg: Config, h: Heap, size: nat)
    requires |h.arrays| == NZONES
  {
    || size == 0
    || (size >= cfg.Limit() && (LargePages(size) == 0 || Alloc(h.free, LargePages(size)).None?))
    || (size < cfg.Limit() && ZoneIndex(size).0 < NZONES && h.arrays[ZoneIndex(size).0] == [] && h.spare == []
        && Alloc(h.free, cfg.Pages()).None?)
  }

  lemma MallocLargeCase(cfg: Config, h: Heap, size: nat)
    requires Invariant(cfg, h) && cfg.Limit() <= size < U32
    ensures |h.arrays| == NZONES
    ensures var (m, r) := Malloc(cfg, h, size);
      && Invariant(cfg, m) && (r.None? <==> Refuses(cfg, h, size)) && (r.None? ==> m == h)
      && (r.Some? ==> exists n :: size <= n && Adds(h, m, r.value, n))
  {
    hide Invariant, Adds, Alloc, ZoneIndex;
    HasClasses(cfg, h);
    LimitIs(cfg, h);
    var k := LargePages(size);
    if k > 0 && Alloc(h.free, k).Some? {
      MallocLargeOk(cfg, h, k);
      LargeEnough(size);
      assert Adds(h, MallocLarge(h, k).0, MallocLarge(h, k).1.value, k * PAGE);
    }
  }

  lemma LargeEnough(size: nat)
    requires size < U32 && LargePages(size) > 0
    ensures size <= LargePages(size) * PAGE
  {
  }

  lemma HasClasses(cfg: Config, h: Heap)
    requires Invariant(cfg, h)
    ensures |h.arrays| == NZONES
  {
  }

  lemma LimitIs(cfg: Config, h: Heap)
    requires Invariant(cfg, h)
    ensures cfg.Ok() && cfg.Limit() <= 16384 && 0 < cfg.Limit() && cfg.Pages() > 0
  {
    hide RegionsOk, UsageOk, ArraysOk, ZoneOk;
  }

  lemma MallocSmallCase(cfg: Config, h: Heap, size: nat)
    requires Invariant(cfg, h) && 0 < size < cfg.Limit()
    ensures |h.arrays| == NZONES
    ensures var (m, r) := Malloc(cfg, h, size);
      && Invariant(cfg, m) && (r.None? <==> Refuses(cfg, h, size)) && (r.None? ==> m == h)
      && (r.Some? ==> Adds(h, m, r.value, ZoneIndex(size).1) && size <= ZoneIndex(size).1)
  {
    hide Invariant, Adds, Alloc, ZoneIndex, MallocListed, MallocNew;
    HasClasses(cfg, h);
    LimitIs(cfg, h);
    ChunkFits(cfg, size);
    var (k, chunk) := ZoneIndex(size);
    assert IsClass(k, chunk);
    if h.arrays[k] != [] {
      MallocListedOk(cfg, h, k);
      ListedSize(cfg, h, k, chunk);
    } else {
      MallocNewOk(cfg, h, k, chunk);
    }
  }

  lemma ListedSize(cfg: Config, h: Heap, k: nat, chunk: nat)
    requires Invariant(cfg, h) && k < |h.arrays| && h.arrays[k] != [] && h.arrays[k][0] in h.zones
    requires h.zones[h.arrays[k][0]].cls == k && IsClass(k, chunk)
    ensures h.zones[h.arrays[k][0]].size == chunk
  {
    hide RegionsOk, UsageOk, ArraysOk, IsClass;
    ClassHasOneSize(k, chunk, h.zones[h.arrays[k][0]].size);
  }

  // rt_malloc keeps the invariant, fails exactly on the requests above and then
  // changes nothing, and otherwise adds one live block with room for the request.
  lemma MallocOk(cfg: Config, h: Heap, size: nat)
    requires Invariant(cfg, h) && size < U32
    ensures |h.arrays| == NZONES
    ensures var (m, r) := Malloc(cfg, h, size);
      && Invariant(cfg, m) && (r.None? <==> Refuses(cfg, h, size)) && (r.None? ==> m == h)
      && (r.Some? ==> exists n :: size <= n && Adds(h, m, r.value, n))
  {
    hide Invariant, Adds, Alloc, ZoneIndex, Refuses;
    HasClasses(cfg, h);
    LimitIs(cfg, h);
    if size >= cfg.Limit() {
      MallocLargeCase(cfg, h, size);
    } else if size > 0 {
      MallocSmallCase(cfg, h, size);
    } else {
      assert Refuses(cfg, h, 0) by { RefusesNothing(cfg, h); }
    }
  }

  // The block wastes less than 8 bytes or an eighth of the request if it is small, and less
  // than a page if it is large.
  lemma MallocIsTight(cfg: Config, h: Heap, size: nat) returns (n: nat)
    requires Invariant(cfg, h) && size < U32 && Malloc(cfg, h, size).1.Some?
    ensures Adds(h, Malloc(cfg, h, size).0, Malloc(cfg, h, size).1.value, n)
    ensures size <= n && if size < cfg.Limit() then n - size < 8 || 8 * (n - size) < size else n - size < PAGE
  {
    hide Invariant, Adds, Alloc, ZoneIndex;
    HasClasses(cfg, h);
    LimitIs(cfg, h);
    hide MallocListed, MallocNew, MallocLarge;
    if size >= cfg.Limit() {
      LargeAdds(cfg, h, size);
      LargeIsTight(size);
      n := LargePages(size) * PAGE;
    } else {
      SmallIsSome(cfg, h, size);
      MallocSmallCase(cfg, h, size);
      ClassIsTight(size);
      n := ZoneIndex(size).1;
    }
  }

  lemma SmallIsSome(cfg: Config, h: Heap, size: nat)
    requires Invariant(cfg, h) && Malloc(cfg, h, size).1.Some?
    ensures 0 < size
  {
    hide Invariant;
  }

  lemma LargeAdds(cfg: Config, h: Heap, size: nat)
    requires Invariant(cfg, h) && cfg.Limit() <= size < U32 && Malloc(cfg, h, size).1.Some?
    ensures var (m, r) := Malloc(cfg, h, size); Adds(h, m, r.value, LargePages(size) * PAGE) && size <= LargePages(size) * PAGE
  {
    hide Invariant, Adds, Alloc, ZoneIndex, MallocListed, MallocNew;
    LimitIs(cfg, h);
    MallocLargeOk(cfg, h, LargePages(size));
    LargeEnough(size);
  }

  lemma LargeIsTight(size: nat)
    requires size < U32
    ensures LargePages(size) * PAGE < size + PAGE
  {
  }

  lemma RefusesNothing(cfg: Config, h: Heap)
    requires |h.arrays| == NZONES
    ensures Refuses(cfg, h, 0)
  {
  }

  // rt_free of a live block keeps the invariant and takes away just that block.
  lemma FreeOk(cfg: Config, h: Heap, addr: nat, n: nat)
    requires Invariant(cfg, h) && Live(h, addr, n)
    ensures Invariant(cfg, FreeAt(cfg, h, addr)) && Removes(h, FreeAt(cfg, h, addr), addr)
  {
    hide Invariant, Removes, Live, LiveIn, FreeSmall, FreeLarge;
    LimitIs(cfg, h);
    HasClasses(cfg, h);
    var p: nat := LiveRegion(cfg, h, addr, n);
    if p in h.zones {
      ZoneHolds(cfg, h, p, addr, n);
      FreeSmallOk(cfg, h, p, addr - p * PAGE);
      PageOf(cfg, h, p, addr);
    } else {
      FreeLargeOk(cfg, h, p);
    }
  }

  // memusage leads from an address in a zone to the zone.
  lemma PageOf(cfg: Config, h: Heap, p: nat, addr: nat)
    requires Invariant(cfg, h) && p in h.zones && p * PAGE <= addr < (p + cfg.Pages()) * PAGE
    ensures var x := addr / PAGE; x in h.usage && p <= x && h.usage[x] == Small(x - p)
  {
    hide RegionsOk, ArraysOk, ZoneOk;
    assert Mapped(cfg, h, p);
    assert InRange(p, cfg.Pages(), addr / PAGE);
  }

  // Freeing what was just allocated leaves the live blocks as they were.
  lemma FreeUndoesMalloc(cfg: Config, h: Heap, size: nat)
    requires Invariant(cfg, h) && size < U32 && Malloc(cfg, h, size).1.Some?
    ensures var (m, r) := Malloc(cfg, h, size);
      Invariant(cfg, FreeAt(cfg, m, r.value)) && forall a, b :: Live(FreeAt(cfg, m, r.value), a, b) <==> Live(h, a, b)
  {
    hide Invariant, Live, Malloc, FreeAt, Refuses;
    MallocOk(cfg, h, size);
    var (m, r) := Malloc(cfg, h, size);
    var n :| size <= n && Adds(h, m, r.value, n);
    assert Live(m, r.value, n);
    FreeOk(cfg, m, r.value, n);
  }

  // A large block that is freed again leaves the identical page list.
  lemma LargeRoundTrip(cfg: Config, h: Heap, k: nat)
    requires Invariant(cfg, h) && k > 0 && Alloc(h.free, k).Some?
    ensures var (m, r) := MallocLarge(h, k);
      && FreeAt(cfg, m, r.value).free == h.free && FreeAt(cfg, m, r.value).regions == h.regions
      && FreeAt(cfg, m, r.value).usage[r.value / PAGE] == Large(0)
  {
    NewRegion(h, k);
    ReleaseUndoesAlloc(h.free, k);
    hide RegionsOk, Alloc, Release, UsageOk, ArraysOk;
    var p := Alloc(h.free, k).value.0;
    assert p * PAGE / PAGE == p;
    assert h.regions[p := k] - {p} == h.regions;
  }

  // ----- runs -----

  datatype Call = CallMalloc(size: nat) | CallFree(addr: nat)

  // Addresses that are not live are not freed.
  ghost function Step(cfg: Config, h: Heap, c: Call): Heap {
    match c
    case CallMalloc(size) => Malloc(cfg, h, size).0
    case CallFree(addr) => if exists n :: Live(h, addr, n) then FreeAt(cfg, h, addr) else h
  }

  ghost function RunCalls(cfg: Config, h: Heap, calls: seq<Call>): Heap
    decreases calls
  {
    if calls == [] then h else RunCalls(cfg, Step(cfg, h, calls[0]), calls[1..])
  }

  lemma {:induction false} RunsKeepInvariant(cfg: Config, h: Heap, calls: seq<Call>)
    requires Invariant(cfg, h) && forall c :: c in calls && c.CallMalloc? ==> c.size < U32
    ensures Invariant(cfg, RunCalls(cfg, h, calls))
    decreases calls
  {
    hide Invariant, Live, Malloc, FreeAt, Refuses, Adds, Removes;
    if calls != [] {
      match calls[0] {
        case CallMalloc(size) => MallocOk(cfg, h, size);
        case CallFree(addr) =>
          if n :| Live(h, addr, n) { FreeOk(cfg, h, addr, n); }
      }
      RunsKeepInvariant(cfg, Step(cfg, h, calls[0]), calls[1..]);
    }
  }

  // ----- empty zones -----

  // All chunks of the zone are free.
  predicate Idle(z: Zone) { z.nfree == z.nmax }

  ghost predicate OneIdle(h: Heap) {
    forall p, q :: p in h.zones && q in h.zones && h.zones[p].cls == h.zones[q].cls && Idle(h.zones[p]) && Idle(h.zones[q]) ==> p == q
  }

  lemma NotMoreThanAll(cfg: Config, z: Zone)
    requires ZoneOk(cfg, z)
    ensures z.nfree <= z.nmax && (Idle(z) <==> Empty(z))
  {
    hide ZoneOk, LiveIn;
    ChunksPartition(cfg, z);
  }

  // A zone p that is not idle afterwards, while the others stay, leaves one idle zone
  // of a class at most.
  lemma BusyKeepsOneIdle(h: Heap, m: Heap, p: nat)
    requires OneIdle(h) && p in m.zones && !Idle(m.zones[p])
    requires forall q :: q in m.zones && q != p ==> q in h.zones && m.zones[q] == h.zones[q]
    ensures OneIdle(m)
  {
  }

  lemma MallocKeepsOneIdle(cfg: Config, h: Heap, size: nat)
    requires Invariant(cfg, h) && OneIdle(h)
    ensures OneIdle(Malloc(cfg, h, size).0)
  {
    hide RegionsOk, UsageOk, ZoneOk, ArraysOk, OneIdle, ZoneIndex, Alloc, UsageOf;
    HasClasses(cfg, h);
    var (k, chunk) := ZoneIndex(size);
    var m := Malloc(cfg, h, size).0;
    if size == 0 || size >= cfg.Limit() {
      SameZones(h, m);
    } else if k < |h.arrays| && h.arrays[k] != [] {
      MallocListedOk(cfg, h, k);
      var p := h.arrays[k][0];
      ListedIsFree(h, k);
      NotMoreThanAll(cfg, h.zones[p]);
      TakeOk(cfg, h.zones[p]);
      TakeNmax(h.zones[p]);
      BusyKeepsOneIdle(h, m, p);
    } else if k < |h.arrays| && chunk > 0 && ZonePage(cfg, h).Some? {
      BusyKeepsOneIdle(h, m, ZonePage(cfg, h).value.0);
    } else {
      SameZones(h, m);
    }
  }

  lemma SameZones(h: Heap, m: Heap)
    requires OneIdle(h) && m.zones == h.zones
    ensures OneIdle(m)
  {
  }

  lemma ListedIsFree(h: Heap, k: nat)
    requires ArraysOk(h.arrays, h.zones, h.spare) && k < |h.arrays| && h.arrays[k] != []
    ensures h.arrays[k][0] in h.zones && h.zones[h.arrays[k][0]].nfree > 0
  {
    assert h.arrays[k][0] in h.arrays[k];
  }

  lemma TakeNmax(z: Zone)
    ensures Take(z).0.nmax == z.nmax
  {
  }

  lemma FreeKeepsOneIdle(cfg: Config, h: Heap, p: nat, o: nat)
    requires Invariant(cfg, h) && OneIdle(h) && p in h.zones && LiveIn(h.zones[p], o)
    ensures h.zones[p].cls < |h.arrays|
    ensures OneIdle(FreeSmall(cfg, h, p, o))
  {
    hide Invariant, LiveIn, ZoneOk, Live, Empty, OneIdle, Clear, Release, Remove;
    PutBackOk(cfg, h, p, o);
    var m := PutBack(h, p, o);
    var k := m.zones[p].cls;
    if !Idle(m.zones[p]) {
      BusyKeepsOneIdle(h, m, p);
    } else if m.arrays[k] == [p] {
      AloneIsIdle(cfg, m, p, k);
      OnlyIdle(h, m, p);
    } else {
      FewerZones(h, Retire(cfg, m, p, k), p);
    }
  }

  // If p is the only zone of its class with a free chunk, no other is idle.
  lemma AloneIsIdle(cfg: Config, m: Heap, p: nat, k: nat)
    requires Invariant(cfg, m) && p in m.zones && m.zones[p].cls == k < |m.arrays| && m.arrays[k] == [p]
    ensures forall q :: q in m.zones && m.zones[q].cls == k && q != p ==> !Idle(m.zones[q])
  {
    hide RegionsOk, UsageOk;
    forall q | q in m.zones && m.zones[q].cls == k && q != p ensures !Idle(m.zones[q]) {
      assert ZoneOk(cfg, m.zones[q]);
      assert q !in m.arrays[k];
    }
  }

  lemma OnlyIdle(h: Heap, m: Heap, p: nat)
    requires OneIdle(h) && p in m.zones
    requires forall q :: q in m.zones && q != p ==> q in h.zones && m.zones[q] == h.zones[q]
    requires forall q :: q in m.zones && m.zones[q].cls == m.zones[p].cls && q != p ==> !Idle(m.zones[q])
    ensures OneIdle(m)
  {
  }

  lemma FewerZones(h: Heap, m: Heap, p: nat)
    requires OneIdle(h) && p !in m.zones && forall q :: q in m.zones ==> q in h.zones && m.zones[q] == h.zones[q]
    ensures OneIdle(m)
  {
  }

  // Over every run at most one zone of a class stands empty: all others went back to the
  // spare zones or the free pages.
  lemma {:induction false} EmptyZonesAreFew(cfg: Config, h: Heap, calls: seq<Call>)
    requires Invariant(cfg, h) && OneIdle(h) && forall c :: c in calls && c.CallMalloc? ==> c.size < U32
    ensures var r := RunCalls(cfg, h, calls);
      && OneIdle(r)
      && forall p, q :: p in r.zones && q in r.zones && r.zones[p].cls == r.zones[q].cls && Empty(r.zones[p]) && Empty(r.zones[q]) ==> p == q
    decreases calls
  {
    hide Invariant, OneIdle, Live, Malloc, FreeAt, Refuses, Adds, Removes, Empty;
    if calls != [] {
      match calls[0] {
        case CallMalloc(size) =>
          MallocOk(cfg, h, size);
          MallocKeepsOneIdle(cfg, h, size);
        case CallFree(addr) =>
          if n :| Live(h, addr, n) {
            FreeOk(cfg, h, addr, n);
            FreeAtKeepsOneIdle(cfg, h, addr, n);
          }
      }
      EmptyZonesAreFew(cfg, Step(cfg, h, calls[0]), calls[1..]);
    } else {
      IdleIsEmpty(cfg, h);
    }
  }

  lemma IdleIsEmpty(cfg: Config, h: Heap)
    requires Invariant(cfg, h) && OneIdle(h)
    ensures forall p, q :: p in h.zones && q in h.zones && h.zones[p].cls == h.zones[q].cls && Empty(h.zones[p]) && Empty(h.zones[q]) ==> p == q
  {
    hide ZoneOk, RegionsOk, UsageOk, ArraysOk, Empty;
    forall p | p in h.zones ensures Idle(h.zones[p]) <==> Empty(h.zones[p]) { NotMoreThanAll(cfg, h.zones[p]); }
  }

  lemma FreeAtKeepsOneIdle(cfg: Config, h: Heap, addr: nat, n: nat)
    requires Invariant(cfg, h) && OneIdle(h) && Live(h, addr, n)
    ensures OneIdle(FreeAt(cfg, h, addr))
  {
    hide Invariant, OneIdle, Live, LiveIn, FreeSmall, Release;
    LimitIs(cfg, h);
    HasClasses(cfg, h);
    var p: nat := LiveRegion(cfg, h, addr, n);
    if p in h.zones {
      ZoneHolds(cfg, h, p, addr, n);
      FreeKeepsOneIdle(cfg, h, p, addr - p * PAGE);
      PageOf(cfg, h, p, addr);
    } else {
      FreeLargeOk(cfg, h, p);
      SameZones(h, FreeAt(cfg, h, addr));
    }
  }

  lemma FreshIsSound(cfg: Config, start: nat, count: nat)
    requires cfg.Ok()
    ensures Invariant(cfg, Fresh(start, count)) && OneIdle(Fresh(start, count)) && forall a, n :: !Live(Fresh(start, count), a, n)
  {
  }

  // ----- alignment -----

  lemma {:induction false} ModShift(a: nat, q: nat, s: nat)
    requires s > 0
    ensures (a + q * s) % s == a % s
  {
    if q > 0 {
      ModShift(a, q - 1, s);
      assert a + q * s == (a + (q - 1) * s) + s;
      ModStep(a + (q - 1) * s, s);
    } else {
      assert 0 * s == 0;
    }
  }

  lemma ModStep(a: nat, s: nat)
    requires s > 0
    ensures (a + s) % s == a % s
  {
    DivUnique(a + s, s, a / s + 1, a % s);
  }

  // A chunk whose size is a power of two is aligned to it exactly as its zone is.
  lemma ChunksAreAligned(cfg: Config, h: Heap, p: nat, o: nat)
    requires Invariant(cfg, h) && p in h.zones && LiveIn(h.zones[p], o) && PowerOfTwo(h.zones[p].size)
    ensures h.zones[p].size > 0 && (p * PAGE + o) % h.zones[p].size == p * PAGE % h.zones[p].size
  {
    hide RegionsOk, UsageOk, ArraysOk, IsClass, PowerOfTwo, Distinct, Up;
    var z := h.zones[p];
    assert ZoneOk(cfg, z);
    var c: nat :| c <= z.uindex && At(z, c) == o;
    UpIs(HEADER, z.size);
    var q: nat :| Up(HEADER, z.size) == q * z.size;
    ModShift(p * PAGE, q, z.size);
    ModShift(p * PAGE + q * z.size, c, z.size);
  }

  lemma {:induction false} PowersDivide(s: nat, t: nat) returns (q: nat)
    requires PowerOfTwo(s) && PowerOfTwo(t) && s <= t
    ensures s > 0 && t == q * s
  {
    if s == 1 {
      q := t;
    } else {
      q := PowersDivide(s / 2, t / 2);
    }
  }

  // So chunks of up to a page are aligned to their size if that is a power of two.
  lemma SmallPowersAligned(cfg: Config, h: Heap, p: nat, o: nat)
    requires Invariant(cfg, h) && p in h.zones && LiveIn(h.zones[p], o) && PowerOfTwo(h.zones[p].size) && h.zones[p].size <= PAGE
    ensures h.zones[p].size > 0 && (p * PAGE + o) % h.zones[p].size == 0
  {
    hide Invariant, LiveIn;
    var s := h.zones[p].size;
    ChunksAreAligned(cfg, h, p, o);
    assert PowerOfTwo(64) by { assert PowerOfTwo(8); }
    assert PowerOfTwo(512);
    assert PowerOfTwo(PAGE);
    var q: nat := PowersDivide(s, PAGE);
    hide PowerOfTwo;
    assert p * PAGE == 0 + (p * q) * s;
    ModShift(0, p * q, s);
  }

  lemma PowerFacts()
    ensures PowerOfTwo(PAGE) && PowerOfTwo(8192)
  {
    assert PowerOfTwo(8);
    assert PowerOfTwo(64);
    assert PowerOfTwo(512);
    assert PowerOfTwo(PAGE);
  }

  // The powers of two that chunks are made for.
  lemma {:induction false} PowersBelow(n: nat)
    requires PowerOfTwo(n) && n < 16384
    ensures n in {1, 2, 4, 8, 16, 32, 64, 128, 256, 512, 1024, 2048, 4096, 8192}
  {
    if n > 1 { PowersBelow(n / 2); }
  }

  // The chunk for such a request has its size, or 8 bytes at least.
  lemma PowerChunk(n: nat)
    requires PowerOfTwo(n) && n < 16384
    ensures ZoneIndex(n).1 == Max(n, 8) && PowerOfTwo(Max(n, 8))
  {
    PowersBelow(n);
    assert PowerOfTwo(8);
    hide PowerOfTwo;
  }

  // The first page of the zone or the block that answers a request.
  function PageFor(cfg: Config, h: Heap, size: nat): nat {
    var k := ZoneIndex(size).0;
    if cfg.Limit() <= size then
      if Alloc(h.free, size / PAGE).Some? then Alloc(h.free, size / PAGE).value.0 else 0
    else if k < |h.arrays| && h.arrays[k] != [] then h.arrays[k][0]
    else if ZonePage(cfg, h).Some? then ZonePage(cfg, h).value.0
    else 0
  }

  // A chunk lies in its zone, which is listed or new.
  lemma ListedChunk(cfg: Config, h: Heap, k: nat)
    requires Invariant(cfg, h) && k < |h.arrays| && k < NZONES && h.arrays[k] != [] && h.arrays[k][0] in h.zones
    ensures var (p, m, r) := (h.arrays[k][0], MallocListed(h, k).0, MallocListed(h, k).1);
      && r.Some? && Invariant(cfg, m) && p in m.zones && m.zones[p].size == h.zones[p].size
      && p * PAGE <= r.value && LiveIn(m.zones[p], r.value - p * PAGE)
  {
    hide Take, LiveIn, Adds, RegionsOk, UsageOk, ArraysOk, ZoneOk, IsClass;
    MallocListedOk(cfg, h, k);
    ListedHasFree(cfg, h, k);
    var p: nat := h.arrays[k][0];
    TakeOk(cfg, h.zones[p]);
    var (z, o) := Take(h.zones[p]);
    var (m, r) := MallocListed(h, k);
    assert m.zones[p] == z && r == Some(p * PAGE + o);
    assert r.value - p * PAGE == o;
  }

  lemma ListedHasFree(cfg: Config, h: Heap, k: nat)
    requires Invariant(cfg, h) && k < |h.arrays| && k < NZONES && h.arrays[k] != [] && h.arrays[k][0] in h.zones
    ensures ZoneOk(cfg, h.zones[h.arrays[k][0]]) && h.zones[h.arrays[k][0]].nfree > 0
  {
    hide RegionsOk, UsageOk, ZoneOk;
    HeadIsZone(h.arrays, h.zones, h.spare, k);
  }

  lemma NewChunk(cfg: Config, h: Heap, k: nat, size: nat)
    requires Invariant(cfg, h) && k < |h.arrays| && k < NZONES && IsClass(k, size) && 0 < size && 4 * size <= cfg.zoneSize
    requires MallocNew(cfg, h, k, size).1.Some?
    ensures ZonePage(cfg, h).Some?
    ensures var (p, m, r) := (ZonePage(cfg, h).value.0, MallocNew(cfg, h, k, size).0, MallocNew(cfg, h, k, size).1);
      && Invariant(cfg, m) && p in m.zones && m.zones[p].size == size
      && p * PAGE <= r.value && LiveIn(m.zones[p], r.value - p * PAGE)
  {
    hide LiveIn, Adds, RegionsOk, UsageOk, ZonePage, FreshZone, At, ZoneOk;
    MallocNewOk(cfg, h, k, size);
    FreshZoneOk(cfg, k, size);
  }

  // A small request that is answered: the address is that of a chunk of its class.
  lemma SmallAnswer(cfg: Config, h: Heap, size: nat)
    requires Invariant(cfg, h) && 0 < size < cfg.Limit() && Malloc(cfg, h, size).1.Some?
    ensures var (m, r, p) := (Malloc(cfg, h, size).0, Malloc(cfg, h, size).1.value, PageFor(cfg, h, size));
      && Invariant(cfg, m) && p in m.zones && m.zones[p].size == ZoneIndex(size).1
      && p * PAGE <= r && LiveIn(m.zones[p], r - p * PAGE)
  {
    hide MallocListed, MallocNew, ZoneIndex, Invariant, LiveIn, ZonePage, IsClass;
    var (k, chunk) := ZoneIndex(size);
    HasClasses(cfg, h);
    LimitIs(cfg, h);
    ChunkFits(cfg, size);
    ClassAt(size);
    if h.arrays[k] != [] {
      ListedZone(cfg, h, k);
      ListedSize(cfg, h, k, chunk);
      ListedChunk(cfg, h, k);
    } else {
      NewChunk(cfg, h, k, chunk);
    }
  }

  lemma ClassAt(size: nat)
    requires 0 < size < 16384
    ensures IsClass(ZoneIndex(size).0, ZoneIndex(size).1)
  {
    hide ZoneIndex;
    assert ZoneIndex(size) == (ZoneIndex(size).0, ZoneIndex(size).1);
  }

  lemma ListedZone(cfg: Config, h: Heap, k: nat)
    requires Invariant(cfg, h) && k < NZONES && |h.arrays| == NZONES && h.arrays[k] != []
    ensures h.arrays[k][0] in h.zones && h.zones[h.arrays[k][0]].cls == k
  {
  }

  // A page is aligned to m pages exactly if its number is a multiple of m.
  lemma PageMultiple(p: nat, m: nat)
    requires m > 0
    ensures p * PAGE % (m * PAGE) == p % m * PAGE
  {
    var (a, b) := (p / m, p % m);
    PageParts(p, m, a, b);
    DivUnique(p * PAGE, m * PAGE, a, b * PAGE);
  }

  lemma PageParts(p: nat, m: nat, a: nat, b: nat)
    requires p == a * m + b
    ensures p * PAGE == a * (m * PAGE) + b * PAGE
  {
    assert a * (m * PAGE) == (a * m) * PAGE;
  }

  // A power of two above a page is a number of pages.
  lemma PowerPages(size: nat) returns (m: nat)
    requires PowerOfTwo(size) && PAGE <= size
    ensures size == m * PAGE && size / PAGE == m > 0
  {
    PowerFacts();
    m := PowersDivide(PAGE, size);
    hide PowerOfTwo;
    DivUnique(size, PAGE, m, 0);
  }

  lemma LargeAnswers(cfg: Config, h: Heap, size: nat)
    requires Invariant(cfg, h) && PowerOfTwo(size) && cfg.Limit() <= size < U32 && Malloc(cfg, h, size).1.Some?
    ensures Malloc(cfg, h, size).1 == Some(PageFor(cfg, h, size) * PAGE) && PAGE < size
  {
    hide Invariant, ZoneIndex, PowerOfTwo, ZonePage;
    LimitIs(cfg, h);
    var m: nat := PowerPages(size);
    assert (size + PAGE - 1) / PAGE == m by { DivUnique(size + PAGE - 1, PAGE, m, PAGE - 1); }
    assert size <= U32 - PAGE by { assert U32 == 0x10_0000 * PAGE; }
  }

  // What the promise comes to: the address of a power of two is aligned to it exactly
  // if the request is no larger than a page, or the page it is answered from, known
  // before the call, is a multiple of its number of pages.
  lemma MallocAlignedIff(cfg: Config, h: Heap, size: nat)
    requires Invariant(cfg, h) && size < U32 && PowerOfTwo(size) && Malloc(cfg, h, size).1.Some?
    ensures Malloc(cfg, h, size).1.value % size == 0
      <==> (size <= PAGE || PageFor(cfg, h, size) % (size / PAGE) == 0)
  {
    hide Invariant, Malloc, PageFor, LiveIn, ZoneIndex, PowerOfTwo;
    var (p, r) := (PageFor(cfg, h, size), Malloc(cfg, h, size).1.value);
    LimitIs(cfg, h);
    PowerPositive(size);
    if cfg.Limit() <= size {
      LargeAnswers(cfg, h, size);
      var m: nat := PowerPages(size);
      PageMultiple(p, m);
    } else {
      SmallAnswer(cfg, h, size);
      PowerChunk(size);
      var g := Malloc(cfg, h, size).0;
      ChunksAreAligned(cfg, g, p, r - p * PAGE);
      if size <= PAGE {
        SmallPowersAligned(cfg, g, p, r - p * PAGE);
        if size < 8 { DividesEight(r, size); }
      } else {
        var m: nat := PowerPages(size);
        PageMultiple(p, m);
      }
    }
  }

  lemma PowerPositive(n: nat)
    requires PowerOfTwo(n)
    ensures 0 < n
  {
  }

  lemma DividesEight(r: nat, n: nat)
    requires PowerOfTwo(n) && n < 8 && r % 8 == 0
    ensures n > 0 && r % n == 0
  {
    hide PowerOfTwo;
    PowersBelow(n);
    assert r == 8 * (r / 8);
  }

  // Larger ones need not be, although the allocator promises it of every power of
  // two: a fresh heap hands out 8192 bytes at address 4096.
  lemma LargePowerMisaligned()
    ensures var (cfg, h) := (Config(0x8000), Fresh(1, 99));
      var (m, r) := Malloc(cfg, h, 8192);
      && Invariant(cfg, h) && PowerOfTwo(8192) && r == Some(4096) && Live(m, 4096, 8192) && 4096 % 8192 != 0
  {
    hide Invariant, PowerOfTwo, Malloc, MallocLarge, Fresh, Live;
    var (cfg, h) := (Config(0x8000), Fresh(1, 99));
    PowerFacts();
    FreshIsSound(cfg, 1, 99);
    LargeAnswer();
    MallocLargeOk(cfg, h, 2);
    AddsLive(h, MallocLarge(h, 2).0, 4096, 8192);
  }

  lemma LargeAnswer()
    ensures var h := Fresh(1, 99);
      && Alloc(h.free, 2).Some? && MallocLarge(h, 2).1 == Some(4096) && Malloc(Config(0x8000), h, 8192) == MallocLarge(h, 2)
  {
    hide ZoneIndex;
    assert Alloc([Run(1, 99)], 2) == Some((1, [Run(3, 97)])) by {
      assert [Run(3, 97)] + [Run(1, 99)][1..] == [Run(3, 97)];
    }
  }

  lemma AddsLive(h: Heap, m: Heap, addr: nat, n: nat)
    requires Adds(h, m, addr, n)
    ensures Live(m, addr, n)
  {
  }
}
