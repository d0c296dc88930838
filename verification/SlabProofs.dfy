// Size classes and zones of slab.c.
module SlabProofs {
  import opened Common
  import opened Sequences
  import opened SlabPagesSpec
  import opened SlabSpec

  // ----- size classes -----

  // The eight bands of requests, and the step of the chunk sizes in each.
  function Band(n: nat): nat {
    if n < 128 then 0 else if n < 256 then 1 else if n < 512 then 2 else if n < 1024 then 3
    else if n < 2048 then 4 else if n < 4096 then 5 else if n < 8192 then 6 else 7
  }

  function Unit(j: nat): nat { if j == 0 then 8 else 2 * Unit(j - 1) }

  lemma Units()
    ensures Unit(0) == 8 && Unit(1) == 16 && Unit(2) == 32 && Unit(3) == 64
    ensures Unit(4) == 128 && Unit(5) == 256 && Unit(6) == 512 && Unit(7) == 1024
  {
    assert Unit(2) == 2 * Unit(1);
    assert Unit(4) == 2 * Unit(3);
    assert Unit(6) == 2 * Unit(5);
  }

  // How many steps a request takes, rounded up.
  function Steps(n: nat): nat
    requires Unit(Band(n)) > 0
  {
    (n + Unit(Band(n)) - 1) / Unit(Band(n))
  }

  lemma BandIs(n: nat)
    requires 0 < n < 16384
    ensures var (j, u) := (Band(n), Unit(Band(n)));
      && u > 0 && n < 16 * u && (j > 0 ==> 8 * u <= n) && j <= 7
      && ZoneIndex(n) == (Steps(n) + 8 * j - 1, Steps(n) * u)
  {
    Units();
  }

  lemma StepsIs(n: nat)
    requires 0 < n < 16384 && Unit(Band(n)) > 0 && n < 16 * Unit(Band(n))
    ensures var (q, u) := (Steps(n), Unit(Band(n)));
      n <= q * u < n + u && 1 <= q <= 16 && (8 * u <= n ==> 8 <= q)
  {
    var (q, u) := (Steps(n), Unit(Band(n)));
    assert n + u - 1 == q * u + (n + u - 1) % u;
    assert 0 * u == 0;
    if q > 16 { MulLe(17, q, u); }
    if q < 8 { MulLe(q, 7, u); }
  }

  lemma MulLe(a: nat, b: nat, m: nat)
    requires a <= b
    ensures a * m <= b * m
  {
  }

  lemma DivUnique(a: nat, m: nat, q: nat, r: nat)
    requires m > 0 && r < m && a == q * m + r
    ensures a / m == q && a % m == r
  {
    var (p, s) := (a / m, a % m);
    assert a == p * m + s;
    if p < q { MulLe(p + 1, q, m); }
    if q < p { MulLe(q + 1, p, m); }
  }

  // Every request below 16 KiB has a class; its chunk holds the request and wastes
  // less than 8 bytes or less than an eighth of the request.
  lemma ClassIsTight(n: nat)
    requires 0 < n < 16384
    ensures var (k, chunk) := ZoneIndex(n);
      k < NZONES && n <= chunk && chunk % 8 == 0 && (chunk - n < 8 || 8 * (chunk - n) < n)
  {
    hide ZoneIndex, Unit, Steps;
    BandIs(n);
    StepsIs(n);
    UnitIsMultiple(Band(n), Steps(n));
    assert Band(n) == 0 ==> Unit(Band(n)) == 8 by { Units(); }
  }

  lemma UnitIsMultiple(j: nat, q: nat)
    ensures q * Unit(j) % 8 == 0
  {
    if j > 0 {
      UnitIsMultiple(j - 1, 2 * q);
      assert q * Unit(j) == 2 * q * Unit(j - 1);
    }
  }

  lemma {:induction false} UnitDoubles(i: nat, j: nat)
    requires i < j
    ensures 2 * Unit(i) <= Unit(j) && (2 * Unit(i) == Unit(j) <==> j == i + 1) && Unit(i) > 0
  {
    if i + 1 < j {
      UnitDoubles(i, j - 1);
    } else {
      UnitPositive(i);
    }
  }

  lemma UnitPositive(i: nat)
    ensures Unit(i) > 0
  {
  }

  // Two requests in one band.
  lemma SameUnit(p: nat, q: nat, u: nat, n: nat, m: nat)
    requires n <= m && n <= p * u < n + u && m <= q * u < m + u
    ensures p <= q && p * u <= q * u && (p == q <==> p * u == q * u) && (m <= p * u ==> p == q)
  {
    if q < p {
      MulLe(q + 1, p, u);
    } else if p < q {
      MulLe(p + 1, q, u);
      if m <= p * u { MulLe(p, q - 1, u); }
    }
  }

  // Two requests in different bands, i and j.
  lemma OtherUnit(i: nat, j: nat, p: nat, q: nat, u: nat, v: nat, m: nat)
    requires i < j && 1 <= p <= 16 && 8 <= q && 0 < 2 * u <= v && (2 * u == v <==> j == i + 1)
    requires 8 * v <= m <= q * v < m + v
    ensures p + 8 * i <= q + 8 * j && p * u <= q * v && (p + 8 * i == q + 8 * j <==> p * u == q * v)
    ensures m <= p * u ==> p + 8 * i == q + 8 * j
  {
    MulLe(p, 16, u);
    MulLe(8, q, v);
    if p < 16 { MulLe(p, 15, u); }
    if q > 8 { MulLe(9, q, v); }
  }

  // The classes partition the requests, in order, by chunk size.
  lemma ClassesAreOrdered(n: nat, m: nat)
    requires 0 < n <= m < 16384
    ensures ZoneIndex(n).0 <= ZoneIndex(m).0 && ZoneIndex(n).1 <= ZoneIndex(m).1
    ensures ZoneIndex(n).0 == ZoneIndex(m).0 <==> ZoneIndex(n).1 == ZoneIndex(m).1
    ensures m <= ZoneIndex(n).1 ==> ZoneIndex(m) == ZoneIndex(n)
  {
    hide ZoneIndex, Unit, Steps;
    BandIs(n);
    BandIs(m);
    StepsIs(n);
    StepsIs(m);
    assert Band(n) <= Band(m);
    hide Band;
    if Band(n) == Band(m) {
      SameUnit(Steps(n), Steps(m), Unit(Band(n)), n, m);
    } else {
      UnitDoubles(Band(n), Band(m));
      OtherUnit(Band(n), Band(m), Steps(n), Steps(m), Unit(Band(n)), Unit(Band(m)), m);
    }
  }

  lemma ChunkFits(cfg: Config, n: nat)
    requires cfg.Ok() && 0 < n < cfg.Limit()
    ensures ZoneIndex(n).1 <= cfg.Limit() && 4 * cfg.Limit() <= cfg.zoneSize && 0 < ZoneIndex(n).1 && ZoneIndex(n).1 % 8 == 0
    ensures ZoneIndex(n).0 < NZONES && n <= ZoneIndex(n).1
  {
    ClassIsTight(n);
  }

  // The chunk size of a class is unique.
  lemma ClassHasOneSize(k: nat, a: nat, b: nat)
    requires IsClass(k, a) && IsClass(k, b)
    ensures a == b
  {
    hide ZoneIndex;
    var n: nat :| 0 < n < 16384 && ZoneIndex(n) == (k, a);
    var m: nat :| 0 < m < 16384 && ZoneIndex(m) == (k, b);
    if n <= m { ClassesAreOrdered(n, m); } else { ClassesAreOrdered(m, n); }
  }

  // ----- zones -----

  lemma UpIs(n: nat, m: nat)
    requires m > 0
    ensures n <= Up(n, m) < n + m && exists q: nat :: Up(n, m) == q * m
  {
    var q := (n + m - 1) / m;
    assert n + m - 1 == q * m + (n + m - 1) % m;
    assert Up(n, m) == q * m;
  }

  lemma FreshZoneOk(cfg: Config, k: nat, size: nat)
    requires cfg.Ok() && IsClass(k, size) && k < NZONES && 0 < size && 4 * size <= cfg.zoneSize
    ensures var z := FreshZone(cfg, k, size); ZoneOk(cfg, z) && z.nfree > 0 && z.cls == k && z.size == size && forall o :: LiveIn(z, o) <==> o == At(z, 0)
  {
    hide PowerOfTwo, Up, ZoneIndex;
    var z := FreshZone(cfg, k, size);
    UpIs(HEADER, size);
    UpIs(HEADER, 8);
    var room := cfg.zoneSize - z.off;
    assert room == z.nmax * size + room % size;
    if z.nmax < 2 { MulLe(z.nmax, 1, size); }
    assert At(z, 0) == z.off;
  }

  lemma AtApart(z: Zone, c: nat, d: nat)
    requires c < d && z.size > 0
    ensures At(z, c) + z.size <= At(z, d)
  {
    MulLe(c + 1, d, z.size);
  }

  // Chunks lie inside the zone, behind its header.
  lemma AtInside(cfg: Config, z: Zone, c: nat)
    requires ZoneOk(cfg, z) && c < z.nmax
    ensures HEADER <= At(z, c) && At(z, c) + z.size <= cfg.zoneSize
  {
    hide IsClass, Distinct, Touched;
    MulLe(c + 1, z.nmax, z.size);
  }

  lemma TakeOk(cfg: Config, z: Zone)
    requires ZoneOk(cfg, z) && z.nfree > 0
    ensures var (r, o) := Take(z);
      && ZoneOk(cfg, r) && r.cls == z.cls && r.size == z.size && r.off == z.off && r.nfree == z.nfree - 1
      && !LiveIn(z, o) && LiveIn(r, o) && forall x :: x != o ==> (LiveIn(r, x) <==> LiveIn(z, x))
  {
    hide IsClass;
    var (r, o) := Take(z);
    if z.uindex + 1 != z.nmax {
      assert At(r, r.uindex) == o;
      forall c: nat | c <= z.uindex ensures At(z, c) != o { AtApart(z, c, r.uindex); }
      forall x: nat ensures Touched(r, x) <==> x == o || Touched(z, x) {
        if Touched(z, x) { var c: nat :| c <= z.uindex && At(z, c) == x; assert At(r, c) == x; }
        if Touched(r, x) { var c: nat :| c <= r.uindex && At(r, c) == x; assert At(z, c) == x; }
      }
    } else {
      assert z.chunks == [o] + r.chunks;
      assert forall i :: 0 <= i < |r.chunks| ==> r.chunks[i] == z.chunks[i + 1];
      assert forall x: nat :: Touched(r, x) <==> Touched(z, x) by { SameTouched(z, r); }
    }
  }

  lemma SameTouched(z: Zone, r: Zone)
    requires z.off == r.off && z.size == r.size && z.uindex == r.uindex
    ensures forall x: nat :: Touched(r, x) <==> Touched(z, x)
  {
    forall x: nat ensures Touched(r, x) <==> Touched(z, x) {
      if Touched(z, x) { var c: nat :| c <= z.uindex && At(z, c) == x; assert At(r, c) == x; }
      if Touched(r, x) { var c: nat :| c <= r.uindex && At(r, c) == x; assert At(z, c) == x; }
    }
  }

  // A zone hands out its chunks in order first, and once all have been in use the one
  // that was freed last.
  lemma TakesInOrder(cfg: Config, z: Zone, o: nat)
    requires ZoneOk(cfg, z) && LiveIn(z, o)
    ensures z.uindex + 1 < z.nmax ==> Take(Put(z, o)).1 == At(z, z.uindex + 1) && forall x: nat :: Touched(z, x) ==> x < At(z, z.uindex + 1)
    ensures z.uindex + 1 == z.nmax ==> Take(Put(z, o)) == (z, o)
  {
    hide IsClass, Distinct, At, Touched, LiveIn;
    forall x: nat | Touched(z, x) ensures x < At(z, z.uindex + 1) { TouchedIsBelow(z, x); }
    assert ([o] + z.chunks)[1..] == z.chunks;
    PutChunksSame(z, o, z.uindex + 1);
  }

  lemma PutChunksSame(z: Zone, o: nat, c: nat)
    ensures At(Put(z, o), c) == At(z, c)
  {
  }

  lemma TouchedIsBelow(z: Zone, x: nat)
    requires Touched(z, x) && 0 < z.size
    ensures x < At(z, z.uindex + 1)
  {
    var c: nat :| c <= z.uindex && At(z, c) == x;
    MulLe(c, z.uindex, z.size);
    NextChunk(z.uindex, z.size);
  }

  lemma NextChunk(c: nat, size: nat)
    ensures (c + 1) * size == c * size + size
  {
  }

  lemma PutOk(cfg: Config, z: Zone, o: nat)
    requires ZoneOk(cfg, z) && LiveIn(z, o)
    ensures var r := Put(z, o);
      && ZoneOk(cfg, r) && r.cls == z.cls && r.size == z.size && r.off == z.off && r.nfree == z.nfree + 1 && 0 < r.nfree
      && !LiveIn(r, o) && forall x :: x != o ==> (LiveIn(r, x) <==> LiveIn(z, x))
  {
    hide IsClass;
    var r := Put(z, o);
    SameTouched(z, r);
  }

  // ----- counting chunks -----

  // The offsets of the first n chunks.
  function Offsets(z: Zone, n: nat): (s: set<nat>)
    requires z.size > 0
    ensures forall o :: o in s <==> exists c: nat :: c < n && At(z, c) == o
    ensures |s| == n
  {
    if n == 0 then {}
    else
      var s := Offsets(z, n - 1);
      assert At(z, n - 1) !in s by {
        forall c: nat | c < n - 1 ensures At(z, c) != At(z, n - 1) { AtApart(z, c, n - 1); }
      }
      s + {At(z, n - 1)}
  }

  lemma {:induction false} DistinctCount(s: seq<nat>, t: set<nat>)
    requires Distinct(s) && forall x :: x in s ==> x in t
    ensures |s| <= |t| && (|s| == |t| ==> forall x :: x in t ==> x in s)
  {
    if s == [] {
      assert |t| == 0 ==> t == {};
    } else {
      assert forall i :: 0 <= i < |s[1..]| ==> s[1..][i] == s[i + 1];
      forall x | x in s[1..] ensures x in t - {s[0]} {}
      DistinctCount(s[1..], t - {s[0]});
      assert |t - {s[0]}| == |t| - 1;
      if |s| == |t| {
        forall x | x in t ensures x in s { assert x == s[0] || x in s[1..]; }
      }
    }
  }

  // Live, freed and never-used chunks partition a zone, and z_nfree counts the last
  // two: the zone is totally free exactly when no chunk of it is live.
  lemma ChunksPartition(cfg: Config, z: Zone)
    requires ZoneOk(cfg, z)
    ensures |z.chunks| <= z.uindex + 1 && 0 <= z.nfree <= z.nmax
    ensures forall c: nat :: c < z.nmax ==> (c > z.uindex) != (LiveIn(z, At(z, c)) || At(z, c) in z.chunks)
    ensures z.nfree == z.nmax <==> forall o :: !LiveIn(z, o)
  {
    hide IsClass;
    var t := Offsets(z, z.uindex + 1);
    forall o | o in z.chunks ensures o in t {
      var c: nat :| c <= z.uindex && At(z, c) == o;
    }
    DistinctCount(z.chunks, t);
    forall c: nat | c < z.nmax ensures (c > z.uindex) != (LiveIn(z, At(z, c)) || At(z, c) in z.chunks) {
      if Touched(z, At(z, c)) {
        var d: nat :| d <= z.uindex && At(z, d) == At(z, c);
        if c < d { AtApart(z, c, d); } else if d < c { AtApart(z, d, c); }
      }
    }
    if forall o :: !LiveIn(z, o) {
      forall o | o in t ensures o in z.chunks {
        var c: nat :| c < z.uindex + 1 && At(z, c) == o;
        assert Touched(z, o) && !LiveIn(z, o);
      }
      CoverCount(z.chunks, t);
    } else {
      var o :| LiveIn(z, o);
      assert o in t && o !in z.chunks;
    }
  }

  lemma {:induction false} CoverCount(s: seq<nat>, t: set<nat>)
    requires forall x :: x in t ==> x in s
    ensures |t| <= |s|
  {
    if s == [] {
      assert t == {};
    } else {
      forall x | x in t - {s[0]} ensures x in s[1..] {
        var i :| 0 <= i < |s| && s[i] == x;
        assert s[1..][i - 1] == x;
      }
      CoverCount(s[1..], t - {s[0]});
      assert t <= (t - {s[0]}) + {s[0]};
      assert |t| <= |t - {s[0]}| + 1;
    }
  }

  // Two live chunks of a zone do not overlap.
  lemma ChunksApart(z: Zone, x: nat, y: nat)
    requires LiveIn(z, x) && LiveIn(z, y) && x != y && z.size > 0
    ensures x + z.size <= y || y + z.size <= x
  {
    var c: nat :| c <= z.uindex && At(z, c) == x;
    var d: nat :| d <= z.uindex && At(z, d) == y;
    if c < d { AtApart(z, c, d); } else { AtApart(z, d, c); }
  }

  lemma LiveInside(cfg: Config, z: Zone, o: nat)
    requires ZoneOk(cfg, z) && LiveIn(z, o)
    ensures HEADER <= o && o + z.size <= cfg.zoneSize
  {
    var c: nat :| c <= z.uindex && At(z, c) == o;
    AtInside(cfg, z, c);
  }
}
