// The slab allocator of slab.c on values: zones of equal chunks on top of the
// page allocator.
module SlabSpec {
  import opened Common
  import opened Sequences
  import opened SlabPagesSpec

  const PAGE := 4096
  const HEADER := 36          // sizeof(slab_zone)
  const NZONES := 72
  const RELEASE_THRESH := 2

  // zone_size, and what rt_system_heap_init derives from it.
  datatype Config = Config(zoneSize: nat) {
    predicate Ok() { zoneSize == 0x8000 || zoneSize == 0x1_0000 || zoneSize == 0x2_0000 }

    function Limit(): nat { Min(zoneSize / 4, 0x4000) }

    function Pages(): nat { zoneSize / PAGE }
  }

  // n rounded up to a multiple of m.
  function Up(n: nat, m: nat): nat
    requires m > 0
  {
    (n + m - 1) / m * m
  }

  // zoneindex: the class of a request and the chunk size of that class.
  function ZoneIndex(n: nat): (nat, nat) {
    if n < 128 then (Max(Up(n, 8) / 8 - 1, 0), Up(n, 8))
    else if n < 256 then (Up(n, 16) / 16 + 7, Up(n, 16))
    else if n < 512 then (Up(n, 32) / 32 + 15, Up(n, 32))
    else if n < 1024 then (Up(n, 64) / 64 + 23, Up(n, 64))
    else if n < 2048 then (Up(n, 128) / 128 + 31, Up(n, 128))
    else if n < 4096 then (Up(n, 256) / 256 + 39, Up(n, 256))
    else if n < 8192 then (Up(n, 512) / 512 + 47, Up(n, 512))
    else if n < 16384 then (Up(n, 1024) / 1024 + 55, Up(n, 1024))
    else (0, n)
  }

  predicate PowerOfTwo(n: nat) { n == 1 || (n > 0 && n % 2 == 0 && PowerOfTwo(n / 2)) }

  // ----- zones -----

  // off: where the chunks start, from the start of the zone. chunks: the freed
  // chunks, by offset from the start of the zone, the last one freed first.
  datatype Zone = Zone(cls: nat, size: nat, off: nat, nmax: int, uindex: nat, chunks: seq<nat>, nfree: int)

  function At(z: Zone, c: nat): nat { z.off + c * z.size }

  // Where the chunks start: aligned to their size if it is a power of two.
  function OffsetOf(size: nat): nat
    requires size > 0
  {
    if PowerOfTwo(size) then Up(HEADER, size) else Up(HEADER, 8)
  }

  function FreshZone(cfg: Config, cls: nat, size: nat): Zone
    requires size > 0
  {
    var off := OffsetOf(size);
    var nmax := (cfg.zoneSize - off) / size;
    Zone(cls, size, off, nmax, 0, [], nmax - 1)
  }

  // Offset o is that of a chunk handed out before.
  ghost predicate Touched(z: Zone, o: nat) { exists c: nat :: c <= z.uindex && At(z, c) == o }

  ghost predicate LiveIn(z: Zone, o: nat) { Touched(z, o) && o !in z.chunks }

  // size is the chunk size of class k.
  ghost predicate IsClass(k: nat, size: nat) { exists n: nat :: 0 < n < 16384 && ZoneIndex(n) == (k, size) }

  ghost predicate ZoneOk(cfg: Config, z: Zone) {
    && IsClass(z.cls, z.size) && z.cls < NZONES && 0 < z.size && z.off == OffsetOf(z.size) && HEADER <= z.off && z.off + z.nmax * z.size <= cfg.zoneSize
    && z.uindex < z.nmax && Distinct(z.chunks) && (forall o :: o in z.chunks ==> Touched(z, o))
    && z.nfree == z.nmax - 1 - z.uindex + |z.chunks|
  }

  // Taking a chunk: a never-used one while there is one, else the last one freed.
  function Take(z: Zone): (Zone, nat) {
    if z.uindex + 1 != z.nmax then (z.(uindex := z.uindex + 1, nfree := z.nfree - 1), At(z, z.uindex + 1))
    else if z.chunks != [] then (z.(chunks := z.chunks[1..], nfree := z.nfree - 1), z.chunks[0])
    else (z, 0)
  }

  function Put(z: Zone, o: nat): Zone { z.(chunks := [o] + z.chunks, nfree := z.nfree + 1) }

  // ----- the allocator -----

  datatype Usage = Unused | Small(off: nat) | Large(pages: nat)

  // free: the free pages. regions: the pages taken from there, by first page, with
  // their number. arrays: the zones with free chunks, by class. spare: zone_free.
  datatype Heap = Heap(
    free: seq<Run>, regions: map<nat, nat>, usage: map<nat, Usage>,
    zones: map<nat, Zone>, arrays: seq<seq<nat>>, spare: seq<nat>)

  predicate Apart(p: nat, n: nat, q: nat, m: nat) { p + n <= q || q + m <= p }

  ghost predicate RegionsOk(free: seq<Run>, regions: map<nat, nat>) {
    && Canonical(free)
    && (forall p :: p in regions ==> regions[p] > 0)
    && (forall p, x :: p in regions && InRange(p, regions[p], x) ==> !Free(free, x))
    && (forall p, q :: p in regions && q in regions && p != q ==> Apart(p, regions[p], q, regions[q]))
  }

  // memusage says of each of the n pages from p how far it is from p.
  ghost predicate Marked(usage: map<nat, Usage>, p: nat, n: nat) {
    forall x: nat :: InRange(p, n, x) ==> x in usage && usage[x] == Small(x - p)
  }

  // What memusage says of the pages of a zone, used or spare.
  ghost predicate Mapped(cfg: Config, h: Heap, p: nat) {
    p in h.regions && h.regions[p] == cfg.Pages() && Marked(h.usage, p, cfg.Pages())
  }

  ghost predicate UsageOk(cfg: Config, h: Heap) {
    && (forall p :: p in h.zones || p in h.spare ==> Mapped(cfg, h, p))
    && (forall p :: p in h.regions && p !in h.zones && p !in h.spare ==> p in h.usage && h.usage[p] == Large(h.regions[p]))
  }

  // Zones with free chunks are listed under their class, once, and no others.
  ghost predicate ArraysOk(arrays: seq<seq<nat>>, zones: map<nat, Zone>, spare: seq<nat>) {
    && |arrays| == NZONES && |spare| <= RELEASE_THRESH
    && (forall k :: 0 <= k < NZONES ==> Distinct(arrays[k]))
    && (forall k, p :: 0 <= k < NZONES && p in arrays[k] ==> p in zones && zones[p].cls == k && zones[p].nfree > 0)
    && (forall p :: p in zones && zones[p].nfree > 0 ==> zones[p].cls < NZONES && p in arrays[zones[p].cls])
    && Distinct(spare) && (forall p :: p in spare ==> p !in zones)
  }

  ghost predicate Invariant(cfg: Config, h: Heap) {
    && cfg.Ok() && RegionsOk(h.free, h.regions) && UsageOk(cfg, h) && ArraysOk(h.arrays, h.zones, h.spare)
    && forall p :: p in h.zones ==> ZoneOk(cfg, h.zones[p])
  }

  // A block of n bytes at addr is allocated.
  ghost predicate Live(h: Heap, addr: nat, n: nat) {
    || (exists p :: p in h.zones && InZone(h, p, addr, n))
    || (exists p :: p in h.regions && p !in h.zones && p !in h.spare && addr == p * PAGE && n == h.regions[p] * PAGE)
  }

  ghost predicate InZone(h: Heap, p: nat, addr: nat, n: nat)
    requires p in h.zones
  {
    addr >= p * PAGE && LiveIn(h.zones[p], addr - p * PAGE) && n == h.zones[p].size
  }

  // ----- rt_malloc -----

  function MallocLarge(h: Heap, k: nat): (Heap, Option<nat>) {
    if k == 0 || Alloc(h.free, k).None? then (h, None)
    else
      var (p, rest) := Alloc(h.free, k).value;
      (h.(free := rest, regions := h.regions[p := k], usage := h.usage[p := Large(k)]), Some(p * PAGE))
  }

  function MallocListed(h: Heap, k: nat): (Heap, Option<nat>)
    requires k < |h.arrays| && h.arrays[k] != [] && h.arrays[k][0] in h.zones
  {
    var p := h.arrays[k][0];
    var (z, o) := Take(h.zones[p]);
    (h.(zones := h.zones[p := z], arrays := if z.nfree == 0 then h.arrays[k := h.arrays[k][1..]] else h.arrays), Some(p * PAGE + o))
  }

  function UsageOf(cfg: Config, p: nat, usage: map<nat, Usage>, i: nat): map<nat, Usage> {
    if i == 0 then usage else UsageOf(cfg, p, usage, i - 1)[p + i - 1 := Small(i - 1)]
  }

  // The zone a class without free chunks gets: a spare one, or new pages.
  function ZonePage(cfg: Config, h: Heap): Option<(nat, Heap)> {
    if h.spare != [] then Some((h.spare[0], h.(spare := h.spare[1..])))
    else if cfg.Pages() == 0 then None
    else
      var r :- Alloc(h.free, cfg.Pages());
      Some((r.0, h.(free := r.1, regions := h.regions[r.0 := cfg.Pages()], usage := UsageOf(cfg, r.0, h.usage, cfg.Pages()))))
  }

  function MallocNew(cfg: Config, h: Heap, k: nat, size: nat): (Heap, Option<nat>)
    requires k < |h.arrays| && size > 0
  {
    match ZonePage(cfg, h)
    case None => (h, None)
    case Some((p, m)) =>
      var z := FreshZone(cfg, k, size);
      (m.(zones := m.zones[p := z], arrays := m.arrays[k := [p] + m.arrays[k]]), Some(p * PAGE + At(z, 0)))
  }

  function Malloc(cfg: Config, h: Heap, size: nat): (Heap, Option<nat>) {
    var (k, chunk) := ZoneIndex(size);
    if size == 0 then (h, None)
    else if size >= cfg.Limit() then MallocLarge(h, (size + PAGE - 1) % U32 / PAGE)
    else if k < |h.arrays| && h.arrays[k] != [] && h.arrays[k][0] in h.zones then MallocListed(h, k)
    else if k < |h.arrays| && chunk > 0 then MallocNew(cfg, h, k, chunk)
    else (h, None)
  }

  // ----- rt_free -----

  function Remove(s: seq<nat>, x: nat): seq<nat> {
    if s == [] then [] else if s[0] == x then s[1..] else [s[0]] + Remove(s[1..], x)
  }

  function FreeLarge(h: Heap, p: nat): Heap
    requires p in h.usage && h.usage[p].Large?
  {
    h.(free := Release(h.free, p, h.usage[p].pages), regions := h.regions - {p}, usage := h.usage[p := Large(0)])
  }

  function Clear(p: nat, usage: map<nat, Usage>, i: nat): map<nat, Usage> {
    if i == 0 then usage else Clear(p, usage, i - 1)[p + i - 1 := Unused]
  }

  // A zone without live chunks becomes spare; beyond the threshold the spare zone
  // just added goes back to the page allocator.
  function Retire(cfg: Config, h: Heap, p: nat, k: nat): Heap
    requires k < |h.arrays|
  {
    var m := h.(zones := h.zones - {p}, arrays := h.arrays[k := Remove(h.arrays[k], p)]);
    if |h.spare| + 1 > RELEASE_THRESH then
      m.(free := Release(h.free, p, cfg.Pages()), regions := h.regions - {p}, usage := Clear(p, h.usage, cfg.Pages()))
    else m.(spare := [p] + h.spare)
  }

  function FreeSmall(cfg: Config, h: Heap, p: nat, o: nat): Heap
    requires p in h.zones && h.zones[p].cls < |h.arrays|
  {
    var z := Put(h.zones[p], o);
    var list := h.arrays[z.cls];
    var m := h.(zones := h.zones[p := z], arrays := h.arrays[z.cls := if h.zones[p].nfree == 0 then [p] + list else list]);
    if z.nfree == z.nmax && m.arrays[z.cls] != [p] then Retire(cfg, m, p, z.cls) else m
  }

  function FreeAt(cfg: Config, h: Heap, addr: nat): Heap {
    var x := addr / PAGE;
    if x !in h.usage then h
    else match h.usage[x]
      case Large(_) => FreeLarge(h, x)
      case Small(i) =>
        if i <= x && x - i in h.zones && h.zones[x - i].cls < |h.arrays| && addr >= (x - i) * PAGE then FreeSmall(cfg, h, x - i, addr - (x - i) * PAGE)
        else h
      case Unused => h
  }

  // The heap when rt_system_heap_init is through, with count free pages from start.
  function Fresh(start: nat, count: nat): Heap {
    Heap(if count == 0 then [] else [Run(start, count)], map[], map[], map[], seq(NZONES, _ => []), [])
  }
}
