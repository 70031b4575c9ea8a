/** Single bits of a 32-bit word. */
module WordBits {

  /** `1 << o`. */
  function Mask(o: nat): bv32
    requires o < 32
  {
    if o == 0 then 1 else Mask(o - 1) << 1
  }

  predicate Test(w: bv32, m: bv32) { w & m != 0 }

  predicate Apart(a: bv32, b: bv32) { a & b == 0 }

  function And(w: bv32, m: bv32): bv32 { w & m }

  function Or(w: bv32, m: bv32): bv32 { w | m }

  function AndNot(w: bv32, m: bv32): bv32 { w & !m }

  predicate Bit(w: bv32, o: nat)
    requires o < 32
  {
    Test(w, Mask(o))
  }

  function WithBit(w: bv32, o: nat): bv32
    requires o < 32
  {
    Or(w, Mask(o))
  }

  function WithoutBit(w: bv32, o: nat): bv32
    requires o < 32
  {
    AndNot(w, Mask(o))
  }

  lemma MaskValues()
    ensures Mask(0) == 0x1 && Mask(1) == 0x2 && Mask(2) == 0x4 && Mask(3) == 0x8
    ensures Mask(4) == 0x10 && Mask(5) == 0x20 && Mask(6) == 0x40 && Mask(7) == 0x80
    ensures Mask(8) == 0x100 && Mask(9) == 0x200 && Mask(10) == 0x400 && Mask(11) == 0x800
    ensures Mask(12) == 0x1000 && Mask(13) == 0x2000 && Mask(14) == 0x4000 && Mask(15) == 0x8000
    ensures Mask(16) == 0x1_0000 && Mask(17) == 0x2_0000 && Mask(18) == 0x4_0000 && Mask(19) == 0x8_0000
    ensures Mask(20) == 0x10_0000 && Mask(21) == 0x20_0000 && Mask(22) == 0x40_0000 && Mask(23) == 0x80_0000
    ensures Mask(24) == 0x100_0000 && Mask(25) == 0x200_0000 && Mask(26) == 0x400_0000 && Mask(27) == 0x800_0000
    ensures Mask(28) == 0x1000_0000 && Mask(29) == 0x2000_0000 && Mask(30) == 0x4000_0000 && Mask(31) == 0x8000_0000
  {
  }

  /** Different bits do not overlap. */
  lemma {:induction false} MaskApart(o: nat, p: nat)
    requires o < p < 32
    ensures Apart(Mask(o), Mask(p))
  {
    if o == 0 {
      OddEven(Mask(p - 1));
    } else {
      MaskApart(o - 1, p - 1);
      ShiftApart(Mask(o - 1), Mask(p - 1));
    }
  }

  lemma OddEven(x: bv32)
    ensures 1 & (x << 1) == 0
  {
  }

  lemma ShiftApart(x: bv32, y: bv32)
    requires x & y == 0
    ensures (x << 1) & (y << 1) == 0
  {
  }

  lemma MaskNotZero(o: nat)
    requires o < 32
    ensures Mask(o) != 0
  {
    MaskValues();
  }

  lemma OrApart(w: bv32, a: bv32, b: bv32)
    requires Apart(a, b)
    ensures And(Or(w, a), b) == And(w, b)
  {
  }

  lemma AndNotApart(w: bv32, a: bv32, b: bv32)
    requires Apart(a, b)
    ensures And(AndNot(w, a), b) == And(w, b)
  {
  }

  lemma SameTest(x: bv32, w: bv32, b: bv32)
    requires And(x, b) == And(w, b)
    ensures Test(x, b) == Test(w, b)
  {
  }

  lemma TestApart(w: bv32, a: bv32, b: bv32)
    requires Apart(a, b)
    ensures Test(Or(w, a), b) == Test(w, b) && Test(AndNot(w, a), b) == Test(w, b)
  {
    hide Test, Or, And, AndNot, Apart;
    OrApart(w, a, b);
    AndNotApart(w, a, b);
    SameTest(Or(w, a), w, b);
    SameTest(AndNot(w, a), w, b);
  }

  lemma TestSet(w: bv32, a: bv32)
    requires a != 0
    ensures Test(Or(w, a), a)
  {
    assert (w | a) & a == a;
  }

  lemma TestCleared(w: bv32, a: bv32)
    ensures !Test(AndNot(w, a), a)
  {
    assert (w & !a) & a == 0;
  }

  /** Setting or clearing a bit changes that bit alone. */
  lemma BitAfter(w: bv32, o: nat, p: nat)
    requires o < 32 && p < 32
    ensures Bit(WithBit(w, o), p) <==> p == o || Bit(w, p)
    ensures Bit(WithoutBit(w, o), p) <==> p != o && Bit(w, p)
  {
    hide Mask, Test, Apart, Or, AndNot;
    if p == o {
      MaskNotZero(o);
      TestSet(w, Mask(o));
      TestCleared(w, Mask(o));
    } else {
      if o < p {
        MaskApart(o, p);
      } else {
        MaskApart(p, o);
        ApartSymmetric(Mask(p), Mask(o));
      }
      TestApart(w, Mask(o), Mask(p));
    }
  }

  lemma ApartSymmetric(a: bv32, b: bv32)
    requires Apart(a, b)
    ensures Apart(b, a)
  {
    AndCommutes(a, b);
  }

  lemma AndCommutes(a: bv32, b: bv32)
    ensures a & b == b & a
  {
  }

  predicate Odd(w: bv32) { w & 1 == 1 }

  function Half(w: bv32): bv32 { w >> 1 }

  /** Bit 0 is the lowest of the word, and bit `o + 1` is bit `o` of the word shifted right by one. */
  lemma BitPlace(w: bv32, o: nat)
    requires o < 32
    ensures Bit(w, 0) <==> Odd(w)
    ensures o < 31 ==> (Bit(w, o + 1) <==> Bit(Half(w), o))
  {
    hide Mask, Test, Apart, Odd, Half;
    LowestBit(w);
    if o < 31 {
      MaskApart(o, 31);
      NextMask(o);
      ShiftedTest(w, Mask(o));
    }
  }

  lemma LowestBit(w: bv32)
    ensures Mask(0) == 1 && (Test(w, 1) <==> Odd(w))
  {
  }

  function Twice(m: bv32): bv32 { m << 1 }

  lemma NextMask(o: nat)
    requires o < 31
    ensures Mask(o + 1) == Twice(Mask(o)) && Mask(31) == 0x8000_0000
  {
    MaskValues();
  }

  lemma ShiftedTest(w: bv32, m: bv32)
    requires Apart(m, 0x8000_0000)
    ensures Test(w, Twice(m)) <==> Test(Half(w), m)
  {
  }

  predicate Full(w: bv32) { w == 0xFFFF_FFFF }

  /** The word test that skips 32 frames at once: a word differs from 0xFFFFFFFF exactly when one of its
      bits is clear. */
  lemma FullWord(w: bv32)
    ensures Full(w) <==> forall o: nat :: o < 32 ==> Bit(w, o)
  {
    if w == 0xFFFF_FFFF {
      forall o: nat | o < 32 ensures Bit(w, o) {
        MaskNotZero(o);
        AllOnes(Mask(o));
      }
    } else if forall o: nat :: o < 32 ==> Bit(w, o) {
      AllBits(w);
    }
  }

  lemma AllOnes(m: bv32)
    ensures 0xFFFF_FFFF & m == m
  {
  }

  lemma AllBits(w: bv32)
    requires forall o: nat :: o < 32 ==> Bit(w, o)
    ensures w == 0xFFFF_FFFF
  {
    MaskValues();
    assert Bit(w, 0) && Bit(w, 1) && Bit(w, 2) && Bit(w, 3) && Bit(w, 4) && Bit(w, 5) && Bit(w, 6) && Bit(w, 7);
    assert Bit(w, 8) && Bit(w, 9) && Bit(w, 10) && Bit(w, 11) && Bit(w, 12) && Bit(w, 13) && Bit(w, 14) && Bit(w, 15);
    assert Bit(w, 16) && Bit(w, 17) && Bit(w, 18) && Bit(w, 19) && Bit(w, 20) && Bit(w, 21) && Bit(w, 22) && Bit(w, 23);
    assert Bit(w, 24) && Bit(w, 25) && Bit(w, 26) && Bit(w, 27) && Bit(w, 28) && Bit(w, 29) && Bit(w, 30) && Bit(w, 31);
  }
}
