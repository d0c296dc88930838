// 32-bit words as sets of bits.
module BitSets {
  type Bits = bv32

  function Meet(a: Bits, b: Bits): Bits { a & b }

  function Join(a: Bits, b: Bits): Bits { a | b }

  function Minus(a: Bits, b: Bits): Bits { a & !b }

  predicate Within(a: Bits, b: Bits) { a & !b == 0 }

  predicate Apart(a: Bits, b: Bits) { a & b == 0 }

  lemma MeetWithin(a: Bits, b: Bits)
    ensures Within(Meet(a, b), b) && Within(Meet(a, b), a) && Meet(a, b) == Meet(b, a)
  {
  }

  lemma WithinMeet(a: Bits, b: Bits)
    ensures Meet(a, b) == a <==> Within(a, b)
  {
  }

  lemma WithinSelf(a: Bits)
    ensures Within(a, a) && Minus(a, 0) == a
  {
  }

  lemma WithinTrans(a: Bits, b: Bits, c: Bits)
    requires Within(a, b) && Within(b, c)
    ensures Within(a, c)
  {
  }

  lemma MinusWithin(a: Bits, b: Bits)
    ensures Within(Minus(a, b), a)
  {
  }

  // What lies in a smaller set lies in the larger one, and meets less.
  lemma SmallerMeetsLess(want: Bits, small: Bits, large: Bits)
    requires Within(small, large)
    ensures Meet(want, small) == want ==> Meet(want, large) == want
    ensures Meet(want, large) == 0 ==> Meet(want, small) == 0
  {
  }

  lemma WithinMeetIff(x: Bits, a: Bits, b: Bits)
    ensures Within(x, Meet(a, b)) <==> Within(x, a) && Within(x, b)
  {
    assert x & !(a & b) == (x & !a) | (x & !b);
    JoinIsEmptyIff(x & !a, x & !b);
  }

  lemma WithinMinusIff(x: Bits, a: Bits, b: Bits)
    ensures Within(x, Minus(a, b)) <==> Within(x, a) && Apart(x, b)
  {
    assert x & !(a & !b) == (x & !a) | (x & b);
    JoinIsEmptyIff(x & !a, x & b);
  }

  lemma JoinIsEmptyIff(a: Bits, b: Bits)
    ensures a | b == 0 <==> a == 0 && b == 0
  {
  }

  lemma WithinMinus(a: Bits, b: Bits, c: Bits)
    requires Within(a, Minus(b, c))
    ensures Within(a, b) && Apart(c, a)
  {
  }

  lemma MinusMinus(a: Bits, b: Bits, c: Bits)
    ensures Minus(Minus(a, b), c) == Minus(a, Join(b, c))
  {
  }

  // What a condition misses after bits were taken away is one of them.
  lemma MissingMeets(want: Bits, bits: Bits, less: Bits)
    ensures Meet(want, bits) == want && Meet(want, Minus(bits, less)) != want ==> Meet(want, less) != 0
    ensures Meet(want, bits) != 0 && Meet(want, Minus(bits, less)) == 0 ==> Meet(want, less) != 0
  {
    hide Meet, Minus;
    MissingOfAll(want, bits, less);
    MissingOfAny(want, bits, less);
  }

  lemma MissingOfAll(want: Bits, bits: Bits, less: Bits)
    ensures Meet(want, bits) == want && Meet(want, Minus(bits, less)) != want ==> Meet(want, less) != 0
  {
  }

  lemma MissingOfAny(want: Bits, bits: Bits, less: Bits)
    ensures Meet(want, bits) != 0 && Meet(want, Minus(bits, less)) == 0 ==> Meet(want, less) != 0
  {
  }

  lemma MinusMeet(a: Bits, b: Bits)
    ensures Minus(a, Meet(a, b)) == Minus(a, b)
  {
  }
}
