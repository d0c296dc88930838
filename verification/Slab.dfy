// slab.c itself, on top of its page allocator. The zone lists and the free chunk
// lists are sequences; zone headers and memusage are maps from page numbers.
module Slab {
  import opened Common
  import opened Sequences
  import opened SlabPagesSpec
  import opened SlabPages
  import opened SlabSpec
  import opened SlabProofs
  import opened SlabTheorems

  lemma {:induction false} RemoveAt(s: seq<nat>, x: nat, i: nat)
    requires i < |s| && s[i] == x && forall j :: 0 <= j < i ==> s[j] != x
    ensures Remove(s, x) == s[..i] + s[i + 1..]
  {
    if i > 0 {
      RemoveAt(s[1..], x, i - 1);
      assert s[..i] + s[i + 1..] == [s[0]] + (s[1..][..i - 1] + s[1..][i..]);
    }
  }

  // Pages of the memusage array, one word a page.
  function UsagePages(npages: nat): nat { Up(4 * npages, PAGE) / PAGE }

  class Slab {
    const cfg: Config
    const pages: PageList
    var usage: map<nat, Usage>
    var zones: map<nat, Zone>
    var arrays: seq<seq<nat>>
    var spare: seq<nat>
    ghost var regions: map<nat, nat>

    ghost function View(): Heap
      reads this, pages
    {
      Heap(pages.runs, regions, usage, zones, arrays, spare)
    }

    // The invariant of every run.
    ghost predicate Valid()
      reads this, pages
    {
      pages.Valid() && Invariant(cfg, View())
    }

    // rt_system_heap_init over npages pages from page start.
    constructor (start: nat, npages: nat)
      requires npages > 0
      ensures Valid() && fresh(pages)
      ensures 0x8000 < cfg.zoneSize ==> cfg.zoneSize < npages * PAGE / 1024
      ensures cfg.zoneSize < 0x2_0000 ==> npages * PAGE / 1024 <= 2 * cfg.zoneSize
      ensures View() == Fresh(start + UsagePages(npages), npages - UsagePages(npages))
    {
      var size := 0x8000;
      while size < 0x2_0000 && 2 * size < npages * PAGE / 1024
        invariant size == 0x8000 || ((size == 0x1_0000 || size == 0x2_0000) && size < npages * PAGE / 1024)
        decreases 0x2_0000 - size
      {
        size := 2 * size;
      }
      cfg := Config(size);
      pages := new PageList(start, npages);
      usage, zones, spare, regions := map[], map[], [], map[];
      arrays := seq(NZONES, _ => []);
      new;
      UsageFits(npages);
      var k := UsagePages(npages);
      var _ := pages.Alloc(k);
      FreshPages(start, npages, k);
      FreshIsSound(cfg, start + k, npages - k);
    }

    // ----- rt_malloc -----

    method MallocLarge(k: nat) returns (r: Option<nat>)
      requires Valid()
      modifies this, pages
      ensures Valid() && (View(), r) == SlabSpec.MallocLarge(old(View()), k)
    {
      hide Invariant, PageList.Valid;
      ghost var h := View();
      if k > 0 && SlabPagesSpec.Alloc(pages.runs, k).Some? {
        MallocLargeOk(cfg, h, k);
      }
      var p := pages.Alloc(k);
      if p.None? {
        return None;
      }
      usage := usage[p.value := Large(k)];
      regions := regions[p.value := k];
      r := Some(p.value * PAGE);
    }

    // A chunk of zone p: a never-used one if there is one, else the last one freed.
    method TakeChunk(p: nat) returns (o: nat)
      requires p in zones && (zones[p].uindex + 1 != zones[p].nmax || zones[p].chunks != [])
      modifies `zones
      ensures zones == old(zones)[p := Take(old(zones)[p]).0] && o == Take(old(zones)[p]).1
    {
      var z := zones[p];
      z := z.(nfree := z.nfree - 1);
      if z.uindex + 1 != z.nmax {
        z := z.(uindex := z.uindex + 1);
        o := At(z, z.uindex);
      } else {
        o := z.chunks[0];
        z := z.(chunks := z.chunks[1..]);
      }
      zones := zones[p := z];
    }

    // A chunk of the first zone listed under class k.
    method MallocListed(k: nat) returns (r: Option<nat>)
      requires Valid() && k < NZONES && |arrays| == NZONES && arrays[k] != [] && arrays[k][0] in zones
      modifies this`zones, this`arrays
      ensures Valid() && (View(), r) == SlabSpec.MallocListed(old(View()), k)
    {
      hide Invariant, Take, PageList.Valid;
      MallocListedOk(cfg, View(), k);
      HasFree(cfg, View(), k);
      ghost var h := View();
      var p := arrays[k][0];
      var o := TakeChunk(p);
      if zones[p].nfree == 0 {
        arrays := arrays[k := arrays[k][1..]];
      }
      assert View() == SlabSpec.MallocListed(h, k).0;
      r := Some(p * PAGE + o);
    }

    method MarkPages(p: nat)
      modifies `usage
      ensures usage == UsageOf(cfg, p, old(usage), cfg.Pages())
    {
      var off := 0;
      while off < cfg.Pages()
        invariant off <= cfg.Pages() && usage == UsageOf(cfg, p, old(usage), off)
      {
        usage := usage[p + off := Small(off)];
        off := off + 1;
      }
    }

    // A spare zone, or the pages for a new one.
    method TakeZone() returns (r: Option<nat>)
      requires Valid()
      modifies this`spare, this`usage, this`regions, pages
      ensures pages.Valid() && match ZonePage(cfg, old(View()))
        case None => r.None? && View() == old(View())
        case Some((p, m)) => r == Some(p) && View() == m
    {
      hide Invariant, UsageOf, PageList.Valid, Alloc;
      LimitIs(cfg, View());
      if spare != [] {
        r := Some(spare[0]);
        spare := spare[1..];
        return;
      }
      r := pages.Alloc(cfg.Pages());
      if r.Some? {
        regions := regions[r.value := cfg.Pages()];
        MarkPages(r.value);
      }
    }

    method MallocNew(k: nat, size: nat) returns (r: Option<nat>)
      requires Valid() && k < NZONES && |arrays| == NZONES && IsClass(k, size) && 0 < size && 4 * size <= cfg.zoneSize
      modifies this, pages
      ensures Valid() && (View(), r) == SlabSpec.MallocNew(cfg, old(View()), k, size)
    {
      hide Invariant, ZonePage, FreshZone, IsClass, PageList.Valid;
      MallocNewOk(cfg, View(), k, size);
      ghost var h := View();
      var p := TakeZone();
      if p.None? {
        return None;
      }
      var z := FreshZone(cfg, k, size);
      zones := zones[p.value := z];
      arrays := arrays[k := [p.value] + arrays[k]];
      r := Some(p.value * PAGE + At(z, z.uindex));
      assert z.uindex == 0 by { FreshIndex(cfg, k, size); }
    }

    method Malloc(size: nat) returns (r: Option<nat>)
      requires Valid() && size < U32
      modifies this, pages
      ensures Valid() && (View(), r) == SlabSpec.Malloc(cfg, old(View()), size)
    {
      hide Invariant, ZoneIndex, SlabSpec.MallocListed, SlabSpec.MallocNew, SlabSpec.MallocLarge, PageList.Valid;
      LimitIs(cfg, View());
      HasClasses(cfg, View());
      if size == 0 {
        return None;
      }
      if size >= cfg.Limit() {
        r := MallocLarge((size + PAGE - 1) % U32 / PAGE);
        return;
      }
      ChunkFits(cfg, size);
      var (k, chunk) := ZoneIndex(size);
      assert IsClass(k, chunk);
      if arrays[k] != [] {
        ListedZone(cfg, View(), k);
        r := MallocListed(k);
      } else {
        r := MallocNew(k, chunk);
      }
    }

    // ----- rt_free -----

    method ClearPages(p: nat)
      modifies `usage
      ensures usage == Clear(p, old(usage), cfg.Pages())
    {
      var i := 0;
      while i < cfg.Pages()
        invariant i <= cfg.Pages() && usage == Clear(p, old(usage), i)
      {
        usage := usage[p + i := Unused];
        i := i + 1;
      }
    }

    // Takes zone p out of the list of class k.
    method Unlist(p: nat, k: nat)
      requires k < |arrays| && p in arrays[k]
      modifies `arrays
      ensures arrays == old(arrays)[k := Remove(old(arrays)[k], p)]
    {
      var i := 0;
      while arrays[k][i] != p
        invariant i < |arrays[k]| && forall j :: 0 <= j < i ==> arrays[k][j] != p
        decreases |arrays[k]| - i
      {
        assert p in arrays[k][i + 1..] by {
          var j :| 0 <= j < |arrays[k]| && arrays[k][j] == p;
          assert arrays[k][i + 1..][j - i - 1] == p;
        }
        i := i + 1;
      }
      RemoveAt(arrays[k], p, i);
      arrays := arrays[k := arrays[k][..i] + arrays[k][i + 1..]];
    }

    // An empty zone becomes spare, and goes back to the pages if there are too many.
    method Retire(p: nat, k: nat)
      requires Valid() && p in zones && zones[p].cls == k && k < |arrays| && p in arrays[k] && Empty(zones[p])
      modifies this, pages
      ensures Valid() && View() == SlabSpec.Retire(cfg, old(View()), p, k)
    {
      hide Invariant, Empty, Remove, Clear, PageList.Valid;
      ghost var h := View();
      RetireOk(cfg, h, p, k);
      ZonePagesTaken(cfg, h, p);
      Unlist(p, k);
      zones := zones - {p};
      spare := [p] + spare;
      if |spare| > RELEASE_THRESH {
        var z := spare[0];
        spare := spare[1..];
        ClearPages(z);
        pages.Free(z, cfg.Pages());
        regions := regions - {z};
      }
      assert View() == SlabSpec.Retire(cfg, h, p, k);
    }

    // Puts a chunk back; its zone is listed again if it had none free.
    method PutChunk(p: nat, o: nat)
      requires Valid() && p in zones && LiveIn(zones[p], o)
      modifies this`zones, this`arrays
      ensures old(zones)[p].cls < |old(arrays)|
      ensures Valid() && View() == PutBack(old(View()), p, o)
    {
      hide Invariant, LiveIn;
      PutBackOk(cfg, View(), p, o);
      ghost var h := View();
      var z := zones[p];
      zones := zones[p := z.(chunks := [o] + z.chunks, nfree := z.nfree + 1)];
      if z.nfree == 0 {
        arrays := arrays[z.cls := [p] + arrays[z.cls]];
      }
      assert arrays == arrays[z.cls := arrays[z.cls]];
      assert View() == PutBack(h, p, o);
    }

    method FreeSmall(p: nat, o: nat)
      requires Valid() && p in zones && LiveIn(zones[p], o)
      modifies this, pages
      ensures old(zones)[p].cls < |old(arrays)|
      ensures Valid() && View() == SlabSpec.FreeSmall(cfg, old(View()), p, o)
    {
      hide Invariant, LiveIn, Empty, SlabSpec.Retire, PageList.Valid;
      PutBackOk(cfg, View(), p, o);
      PutChunk(p, o);
      var z := zones[p];
      if z.nfree == z.nmax && arrays[z.cls] != [p] {
        IsEmpty(cfg, View(), p);
        ZoneListed(cfg, View(), p);
        Retire(p, z.cls);
      }
    }

    method FreeLarge(p: nat)
      requires Valid() && p in regions && p !in zones && p !in spare && p in usage && usage[p].Large?
      modifies this`usage, this`regions, pages
      ensures Valid() && View() == SlabSpec.FreeLarge(old(View()), p)
    {
      hide Invariant, PageList.Valid, Release;
      FreeLargeOk(cfg, View(), p);
      RegionTaken(cfg, View(), p);
      var size := usage[p].pages;
      usage := usage[p := Large(0)];
      pages.Free(p, size);
      regions := regions - {p};
    }

    method Free(addr: nat, ghost n: nat)
      requires Valid() && Live(View(), addr, n)
      modifies this, pages
      ensures Valid() && View() == FreeAt(cfg, old(View()), addr)
    {
      hide Invariant, LiveIn, PageList.Valid, SlabSpec.FreeSmall, SlabSpec.FreeLarge, Live, InZone;
      ghost var p: nat := Leads(cfg, View(), addr, n);
      var x := addr / PAGE;
      match usage[x] {
        case Large(_) =>
          FreeLarge(x);
        case Small(off) =>
          FreeSmall(x - off, addr - (x - off) * PAGE);
      }
    }
  }

  // memusage leads from a live address to its region.
  lemma Leads(cfg: Config, h: Heap, addr: nat, n: nat) returns (p: nat)
    requires Invariant(cfg, h) && Live(h, addr, n)
    ensures var x := addr / PAGE;
      && x in h.usage && p in h.regions && p <= x && p * PAGE <= addr
      && if p in h.zones then h.usage[x] == Small(x - p) && LiveIn(h.zones[p], addr - p * PAGE) && h.zones[p].cls < |h.arrays|
         else p == x && p !in h.spare && h.usage[x] == Large(h.regions[p])
  {
    hide Invariant, Live, LiveIn;
    p := LiveRegion(cfg, h, addr, n);
    LimitIs(cfg, h);
    if p in h.zones {
      ZoneHolds(cfg, h, p, addr, n);
      PageOf(cfg, h, p, addr);
      FreeSmallOk(cfg, h, p, addr - p * PAGE);
    } else {
      FreeLargeOk(cfg, h, p);
    }
  }

  lemma RegionTaken(cfg: Config, h: Heap, p: nat)
    requires Invariant(cfg, h) && p in h.regions
    ensures h.regions[p] > 0 && forall x :: InRange(p, h.regions[p], x) ==> !SlabPagesSpec.Free(h.free, x)
  {
    hide UsageOk, ArraysOk, ZoneOk;
  }

  lemma ZonePagesTaken(cfg: Config, h: Heap, p: nat)
    requires Invariant(cfg, h) && p in h.zones
    ensures cfg.Pages() > 0 && forall x :: InRange(p, cfg.Pages(), x) ==> !SlabPagesSpec.Free(h.free, x)
  {
    hide RegionsOk, ArraysOk, ZoneOk, Marked;
    ZoneIsMapped(cfg, h, p);
    RegionTaken(cfg, h, p);
  }

  lemma ZoneListed(cfg: Config, h: Heap, p: nat)
    requires Invariant(cfg, h) && p in h.zones && h.zones[p].nfree > 0
    ensures h.zones[p].cls < |h.arrays| && p in h.arrays[h.zones[p].cls]
  {
    hide RegionsOk, UsageOk, ZoneOk;
  }


  lemma UsageFits(npages: nat)
    requires npages > 0
    ensures 0 < UsagePages(npages) <= npages
  {
  }

  lemma FreshPages(start: nat, npages: nat, k: nat)
    requires 0 < k <= npages
    ensures SlabPagesSpec.Alloc([Run(start, npages)], k) == Some((start, Fresh(start + k, npages - k).free))
  {
    assert [Run(start + k, npages - k)] + [Run(start, npages)][1..] == [Run(start + k, npages - k)];
  }

  lemma FreshIndex(cfg: Config, k: nat, size: nat)
    requires size > 0
    ensures FreshZone(cfg, k, size).uindex == 0
  {
  }

  // A listed zone has a never-used chunk or a freed one.
  lemma HasFree(cfg: Config, h: Heap, k: nat)
    requires Invariant(cfg, h) && k < NZONES && |h.arrays| == NZONES && h.arrays[k] != [] && h.arrays[k][0] in h.zones
    ensures var z := h.zones[h.arrays[k][0]]; z.uindex + 1 != z.nmax || z.chunks != []
  {
    hide RegionsOk, UsageOk, IsClass, Distinct;
    HeadIsZone(h.arrays, h.zones, h.spare, k);
  }
}
