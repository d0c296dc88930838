// The ready priority group: a word with a bit for every priority, and the search for
// its lowest bit in kservice.c.
module ReadyGroup {
  import opened BitSets

  const PRIORITIES := 32

  // 1L << p.
  function Mask(p: nat): Bits {
    match p
    case 0 => 0x1 case 1 => 0x2 case 2 => 0x4 case 3 => 0x8
    case 4 => 0x10 case 5 => 0x20 case 6 => 0x40 case 7 => 0x80
    case 8 => 0x100 case 9 => 0x200 case 10 => 0x400 case 11 => 0x800
    case 12 => 0x1000 case 13 => 0x2000 case 14 => 0x4000 case 15 => 0x8000
    case 16 => 0x1_0000 case 17 => 0x2_0000 case 18 => 0x4_0000 case 19 => 0x8_0000
    case 20 => 0x10_0000 case 21 => 0x20_0000 case 22 => 0x40_0000 case 23 => 0x80_0000
    case 24 => 0x100_0000 case 25 => 0x200_0000 case 26 => 0x400_0000 case 27 => 0x800_0000
    case 28 => 0x1000_0000 case 29 => 0x2000_0000 case 30 => 0x4000_0000 case _ => 0x8000_0000
  }

  // Bit p of the group is set.
  predicate Bit(group: Bits, p: nat) { Meet(group, Mask(p)) != 0 }

  predicate Single(m: Bits) { m != 0 && m & (m - 1) == 0 }

  lemma MaskSingle(p: nat)
    requires p < PRIORITIES
    ensures Single(Mask(p))
  {
  }

  lemma MaskOrder(p: nat, q: nat)
    requires p < q < PRIORITIES
    ensures Mask(p) < Mask(q)
  {
  }

  // The bits below that of m.
  function Lower(m: Bits): Bits { m - 1 }

  lemma SinglesMeet(a: Bits, b: Bits)
    requires Single(a) && Single(b) && a != b
    ensures a & b == 0
  {
  }

  lemma SetOwn(v: Bits, a: Bits)
    requires a != 0
    ensures Meet(Join(v, a), a) != 0 && Meet(Minus(v, a), a) == 0
  {
  }

  lemma JoinOther(v: Bits, a: Bits, b: Bits)
    requires a & b == 0
    ensures (v | a) & b == v & b
  {
    assert (v | a) & b == (v & b) | (a & b);
  }

  lemma Spared(a: Bits, b: Bits)
    requires a & b == 0
    ensures !a & b == b
  {
  }

  lemma MinusOther(v: Bits, a: Bits, b: Bits)
    requires a & b == 0
    ensures (v & !a) & b == v & b
  {
    Spared(a, b);
    assert (v & !a) & b == v & (!a & b);
  }

  lemma SetOther(v: Bits, a: Bits, b: Bits)
    requires a & b == 0
    ensures Meet(Join(v, a), b) == Meet(v, b) && Meet(Minus(v, a), b) == Meet(v, b)
  {
    JoinOther(v, a, b);
    MinusOther(v, a, b);
  }

  lemma SinglesBelow(v: Bits, a: Bits, b: Bits)
    requires Single(a) && Single(b) && a < b && Meet(v, Lower(b)) == 0
    ensures Meet(v, a) == 0
  {
  }

  lemma MasksDiffer(p: nat, q: nat)
    requires p < PRIORITIES && q < PRIORITIES && p != q
    ensures Mask(p) != Mask(q)
  {
    hide Mask;
    if p < q { MaskOrder(p, q); } else { MaskOrder(q, p); }
  }

  // Setting and clearing one bit leaves the others.
  lemma BitsAreIndependent(group: Bits, p: nat)
    requires p < PRIORITIES
    ensures forall q: nat :: q < PRIORITIES ==> (Bit(Join(group, Mask(p)), q) <==> q == p || Bit(group, q))
    ensures forall q: nat :: q < PRIORITIES ==> (Bit(Minus(group, Mask(p)), q) <==> q != p && Bit(group, q))
  {
    hide Bit, Join, Minus, Mask;
    forall q: nat | q < PRIORITIES
      ensures Bit(Join(group, Mask(p)), q) <==> q == p || Bit(group, q)
      ensures Bit(Minus(group, Mask(p)), q) <==> q != p && Bit(group, q)
    {
      MasksApart(group, p, q);
    }
  }

  lemma MasksApart(group: Bits, p: nat, q: nat)
    requires p < PRIORITIES && q < PRIORITIES
    ensures Bit(Join(group, Mask(p)), q) <==> q == p || Bit(group, q)
    ensures Bit(Minus(group, Mask(p)), q) <==> q != p && Bit(group, q)
  {
    hide Mask, Meet, Join, Minus;
    MaskSingle(p);
    MaskSingle(q);
    if p == q {
      SetOwn(group, Mask(p));
    } else {
      hide Single;
      MasksDiffer(p, q);
      SinglesMeet(Mask(p), Mask(q));
      SetOther(group, Mask(p), Mask(q));
    }
  }

  lemma EmptyGroup(q: nat)
    ensures !Bit(0, q)
  {
    hide Mask;
  }

  // ----- __rt_ffs -----

  // The sixteen entries of a row of __lowest_bit_bitmap, which repeat in each row
  // but for the first; the first entries of the rows are these, plus 4.
  function Row(x: Bits): nat {
    if x == 2 || x == 6 || x == 10 || x == 14 then 1
    else if x == 4 || x == 12 then 2
    else if x == 8 then 3
    else 0
  }

  function LowestBitBitmap(x: Bits): nat
    requires x < 0x100
  {
    if x & 0xF != 0 then Row(x & 0xF) else if x != 0 then 4 + Row(x >> 4) else 0
  }

  function Ffs(value: Bits): nat {
    if value == 0 then 0
    else if value & 0xFF != 0 then LowestBitBitmap(value & 0xFF) + 1
    else if value & 0xFF00 != 0 then LowestBitBitmap((value & 0xFF00) >> 8) + 9
    else if value & 0xFF_0000 != 0 then LowestBitBitmap((value & 0xFF_0000) >> 16) + 17
    else LowestBitBitmap((value & 0xFF00_0000) >> 24) + 25
  }

  lemma FfsMask(value: Bits)
    requires value != 0
    ensures 1 <= Ffs(value) <= 32
    ensures var m := Mask(Ffs(value) - 1); Meet(value, m) != 0 && Meet(value, Lower(m)) == 0
  {
  }

  // An empty group has none.
  lemma FfsIsZeroIff(group: Bits)
    ensures Ffs(group) == 0 <==> group == 0
  {
    if group != 0 { FfsIsLowest(group); }
  }

  // The lowest bit of a group that is not empty, counted from 1.
  lemma FfsIsLowest(group: Bits)
    requires group != 0
    ensures 1 <= Ffs(group) <= 32 && Bit(group, Ffs(group) - 1) && forall q: nat :: q < Ffs(group) - 1 ==> !Bit(group, q)
  {
    hide Mask, Ffs, Meet, Lower, Single;
    FfsMask(group);
    var p := Ffs(group) - 1;
    forall q: nat | q < p ensures !Bit(group, q) {
      MaskSingle(p);
      MaskSingle(q);
      MaskOrder(q, p);
      SinglesBelow(group, Mask(q), Mask(p));
    }
  }
}
