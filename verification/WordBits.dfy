/** The bits of a 32-bit word. */
module WordBits {

  function Mask(e: nat): bv32 {
    if e == 0 then 0x1 else if e == 1 then 0x2 else if e == 2 then 0x4 else if e == 3 then 0x8
    else if e == 4 then 0x10 else if e == 5 then 0x20 else if e == 6 then 0x40 else if e == 7 then 0x80
    else if e == 8 then 0x100 else if e == 9 then 0x200 else if e == 10 then 0x400 else if e == 11 then 0x800
    else if e == 12 then 0x1000 else if e == 13 then 0x2000 else if e == 14 then 0x4000 else if e == 15 then 0x8000
    else if e == 16 then 0x1_0000 else if e == 17 then 0x2_0000
    else if e == 18 then 0x4_0000 else if e == 19 then 0x8_0000
    else if e == 20 then 0x10_0000 else if e == 21 then 0x20_0000
    else if e == 22 then 0x40_0000 else if e == 23 then 0x80_0000
    else if e == 24 then 0x100_0000 else if e == 25 then 0x200_0000
    else if e == 26 then 0x400_0000 else if e == 27 then 0x800_0000
    else if e == 28 then 0x1000_0000 else if e == 29 then 0x2000_0000
    else if e == 30 then 0x4000_0000 else if e == 31 then 0x8000_0000
    else 0
  }

  predicate Hit(w: bv32, m: bv32) {
    w & m != 0
  }

  predicate Bit(w: bv32, e: nat) {
    Hit(w, Mask(e))
  }

  predicate OneHot(m: bv32) {
    m & (m - 1) == 0
  }

  predicate Doubles(m: bv32, m': bv32) {
    m' == m << 1 && m & 0x8000_0000 == 0
  }

  lemma LowMaskDoubles(e: nat)
    requires 0 < e < 11
    ensures Doubles(Mask(e - 1), Mask(e))
  {
  }

  lemma MiddleMaskDoubles(e: nat)
    requires 11 <= e < 22
    ensures Doubles(Mask(e - 1), Mask(e))
  {
  }

  lemma HighMaskDoubles(e: nat)
    requires 22 <= e < 32
    ensures Doubles(Mask(e - 1), Mask(e))
  {
  }

  lemma MaskDoubles(e: nat)
    requires 0 < e < 32
    ensures Doubles(Mask(e - 1), Mask(e))
  {
    hide Mask, Doubles;
    if e < 11 {
      LowMaskDoubles(e);
    } else if e < 22 {
      MiddleMaskDoubles(e);
    } else {
      HighMaskDoubles(e);
    }
  }

  lemma MaskValues()
    ensures Mask(0) == 1 && Mask(8) == 0x100 && Mask(16) == 0x1_0000 && Mask(31) == 0x8000_0000
  {
  }

  lemma OneHotShift(m: bv32, m': bv32)
    requires OneHot(m) && Doubles(m, m')
    ensures OneHot(m')
  {
  }

  lemma {:induction false} MaskOneHot(e: nat)
    requires e < 32
    ensures OneHot(Mask(e))
  {
    if e == 0 {
      MaskValues();
    } else {
      hide Mask, OneHot, Doubles;
      MaskOneHot(e - 1);
      MaskDoubles(e);
      OneHotShift(Mask(e - 1), Mask(e));
    }
  }

  lemma ShiftHit(w: bv32, m: bv32, m': bv32)
    requires Doubles(m, m')
    ensures Hit(w << 1, m') <==> Hit(w, m)
  {
  }

  lemma XorHit(w: bv32, v: bv32, m: bv32)
    requires OneHot(m)
    ensures Hit(w ^ v, m) <==> Hit(w, m) != Hit(v, m)
  {
  }

  lemma LowMask(w: bv32)
    ensures (w << 1) & 1 == 0 && (w << 1) + 1 == (w << 1) ^ 1
  {
  }

  lemma ShiftBit(w: bv32, e: nat)
    requires 0 < e < 32
    ensures Bit(w << 1, e) <==> Bit(w, e - 1)
  {
    MaskDoubles(e);
    hide Mask, Hit, Doubles;
    ShiftHit(w, Mask(e - 1), Mask(e));
  }

  lemma XorBit(w: bv32, v: bv32, e: nat)
    requires e < 32
    ensures Bit(w ^ v, e) <==> Bit(w, e) != Bit(v, e)
  {
    hide Mask, Hit, OneHot;
    MaskOneHot(e);
    XorHit(w, v, Mask(e));
  }

  lemma LowestBit(w: bv32)
    ensures !Bit(w << 1, 0)
  {
  }

  lemma HitTests(w: bv32)
    ensures Hit(w, 0x100) <==> w & 0x100 != 0
    ensures Hit(w, 0x1_0000) <==> w & 0x1_0000 != 0
    ensures Hit(w, 0x8000_0000) <==> w & 0x8000_0000 != 0
  {
  }

  lemma TestBits(w: bv32)
    ensures Bit(w, 8) <==> w & 0x100 != 0
    ensures Bit(w, 16) <==> w & 0x1_0000 != 0
    ensures Bit(w, 31) <==> w & 0x8000_0000 != 0
  {
    hide Mask, Hit;
    MaskValues();
    HitTests(w);
  }

  lemma NoBits()
    ensures forall e: nat :: !Bit(0, e)
  {
  }

  /** A word without bits is zero. */
  lemma ZeroWord(w: bv32)
    requires forall e: nat | e < 32 :: !Bit(w, e)
    ensures w == 0
  {
    assert !Bit(w, 0) && !Bit(w, 1) && !Bit(w, 2) && !Bit(w, 3);
    assert !Bit(w, 4) && !Bit(w, 5) && !Bit(w, 6) && !Bit(w, 7);
    assert !Bit(w, 8) && !Bit(w, 9) && !Bit(w, 10) && !Bit(w, 11);
    assert !Bit(w, 12) && !Bit(w, 13) && !Bit(w, 14) && !Bit(w, 15);
    assert !Bit(w, 16) && !Bit(w, 17) && !Bit(w, 18) && !Bit(w, 19);
    assert !Bit(w, 20) && !Bit(w, 21) && !Bit(w, 22) && !Bit(w, 23);
    assert !Bit(w, 24) && !Bit(w, 25) && !Bit(w, 26) && !Bit(w, 27);
    assert !Bit(w, 28) && !Bit(w, 29) && !Bit(w, 30) && !Bit(w, 31);
  }

  lemma XorZero(w: bv32, v: bv32)
    requires w ^ v == 0
    ensures w == v
  {
  }

  // ----- clearing a bit -----

  lemma {:induction false} MaskBit(c: nat, e: nat)
    requires c < 32 && e < 32
    ensures Bit(Mask(c), e) <==> e == c
  {
    hide Bit, Hit, Mask;
    if c == 0 {
      MaskValues();
      OneBit(e);
    } else {
      MaskShift(c);
      if e == 0 {
        LowestBit(Mask(c - 1));
      } else {
        MaskBit(c - 1, e - 1);
        ShiftBit(Mask(c - 1), e);
      }
    }
  }

  lemma MaskShift(c: nat)
    requires 0 < c < 32
    ensures Mask(c) == Mask(c - 1) << 1
  {
    hide Mask;
    MaskDoubles(c);
  }

  lemma OneBit(e: nat)
    requires e < 32
    ensures Bit(1, e) <==> e == 0
  {
  }

  function Cleared(w: bv32, m: bv32): bv32 {
    w & !m
  }

  predicate Disjoint(m: bv32, n: bv32) {
    m & n == 0
  }

  lemma Apart(m: bv32, n: bv32)
    requires OneHot(m) && OneHot(n) && m != n
    ensures Disjoint(m, n)
  {
  }

  lemma ClearOther(w: bv32, m: bv32, n: bv32)
    requires Disjoint(m, n)
    ensures Hit(Cleared(w, m), n) <==> Hit(w, n)
  {
    hide Hit, Cleared, Disjoint;
    KeptByClearing(m, n);
    HitCleared(w, m, n);
  }

  lemma KeptByClearing(m: bv32, n: bv32)
    requires Disjoint(m, n)
    ensures Cleared(n, m) == n
  {
  }

  lemma HitCleared(w: bv32, m: bv32, n: bv32)
    ensures Hit(Cleared(w, m), n) <==> Hit(w, Cleared(n, m))
  {
  }

  lemma ClearSame(w: bv32, m: bv32)
    ensures !Hit(Cleared(w, m), m)
  {
  }

  lemma ClearBit(w: bv32, c: nat, e: nat)
    requires c < 32 && e < 32
    ensures Bit(Cleared(w, Mask(c)), e) <==> e != c && Bit(w, e)
  {
    hide Hit, Mask, Cleared, OneHot, Disjoint;
    MaskOneHot(c);
    MaskOneHot(e);
    MaskBit(c, e);
    MaskBit(e, e);
    if c == e {
      ClearSame(w, Mask(c));
    } else {
      Apart(Mask(c), Mask(e));
      ClearOther(w, Mask(c), Mask(e));
    }
  }

  // ----- the highest bit -----

  /** `tmp` is `w` moved up by `nr` bits, none of which was set. */
  ghost predicate MovedUp(w: bv32, tmp: bv32, nr: nat) {
    forall e: nat :: e < 32 ==> (Bit(w, e) <==> e + nr < 32 && Bit(tmp, e + nr))
  }

  lemma MovedTwice(w: bv32, a: bv32, b: bv32, i: nat, j: nat)
    requires MovedUp(w, a, i) && MovedUp(a, b, j)
    ensures MovedUp(w, b, i + j)
  {
    hide Bit;
  }

  lemma NotMoved(w: bv32)
    ensures MovedUp(w, w, 0)
  {
  }

  lemma Top31(w: bv32)
    ensures Bit(w, 31) <==> w & 0x8000_0000 != 0
  {
    hide Mask, Hit;
    MaskValues();
    HitTests(w);
  }

  lemma Up1(w: bv32)
    requires w & 0x8000_0000 == 0
    ensures MovedUp(w, w << 1, 1)
  {
    hide Bit;
    Top31(w);
    var v := w << 1;
    forall e: nat | e < 32
      ensures Bit(w, e) <==> e + 1 < 32 && Bit(v, e + 1)
    {
      if e < 31 { ShiftBit(w, e + 1); }
    }
  }

  lemma Shifts(w: bv32)
    ensures (w << 1) << 1 == w << 2 && (w << 2) << 2 == w << 4 && (w << 4) << 4 == w << 8 && (w << 8) << 8 == w << 16
    ensures w & 0xC000_0000 == 0 ==> w & 0x8000_0000 == 0 && (w << 1) & 0x8000_0000 == 0
    ensures w & 0xF000_0000 == 0 ==> w & 0xC000_0000 == 0 && (w << 2) & 0xC000_0000 == 0
    ensures w & 0xFF00_0000 == 0 ==> w & 0xF000_0000 == 0 && (w << 4) & 0xF000_0000 == 0
    ensures w & 0xFFFF_0000 == 0 ==> w & 0xFF00_0000 == 0 && (w << 8) & 0xFF00_0000 == 0
  {
  }

  lemma Up2(w: bv32)
    requires w & 0xC000_0000 == 0
    ensures MovedUp(w, w << 2, 2)
  {
    hide MovedUp;
    Shifts(w);
    Up1(w);
    Up1(w << 1);
    MovedTwice(w, w << 1, (w << 1) << 1, 1, 1);
  }

  lemma Up4(w: bv32)
    requires w & 0xF000_0000 == 0
    ensures MovedUp(w, w << 4, 4)
  {
    hide MovedUp;
    Shifts(w);
    Up2(w);
    Up2(w << 2);
    MovedTwice(w, w << 2, (w << 2) << 2, 2, 2);
  }

  lemma Up8(w: bv32)
    requires w & 0xFF00_0000 == 0
    ensures MovedUp(w, w << 8, 8)
  {
    hide MovedUp;
    Shifts(w);
    Up4(w);
    Up4(w << 4);
    MovedTwice(w, w << 4, (w << 4) << 4, 4, 4);
  }

  lemma Up16(w: bv32)
    requires w & 0xFFFF_0000 == 0
    ensures MovedUp(w, w << 16, 16)
  {
    hide MovedUp;
    Shifts(w);
    Up8(w);
    Up8(w << 8);
    MovedTwice(w, w << 8, (w << 8) << 8, 8, 8);
  }

  predicate IsHighest(w: bv32, c: nat) {
    c < 32 && Bit(w, c) && forall e :: c < e < 32 ==> !Bit(w, e)
  }

  /** What the next half of a word keeps set. */
  lemma NextHalf(w: bv32)
    ensures w != 0 && w & 0xFFFF_0000 == 0 ==> (w << 16) & 0xFFFF_0000 != 0
    ensures w & 0xFFFF_0000 != 0 && w & 0xFF00_0000 == 0 ==> (w << 8) & 0xFF00_0000 != 0
    ensures w & 0xFF00_0000 != 0 && w & 0xF000_0000 == 0 ==> (w << 4) & 0xF000_0000 != 0
    ensures w & 0xF000_0000 != 0 && w & 0xC000_0000 == 0 ==> (w << 2) & 0xC000_0000 != 0
    ensures w & 0xC000_0000 != 0 && w & 0x8000_0000 == 0 ==> (w << 1) & 0x8000_0000 != 0
  {
  }

  /** `krhino_find_first_bit` on one word: the zeros above the highest set bit. */
  method FindFirstBit(bitmap: bv32) returns (nr: nat)
    requires bitmap != 0
    ensures nr < 32 && IsHighest(bitmap, 31 - nr)
  {
    hide MovedUp, Bit;
    nr := 0;
    var tmp := bitmap;
    NotMoved(bitmap);
    NextHalf(tmp);
    if tmp & 0xFFFF_0000 == 0 {
      Up16(tmp);
      MovedTwice(bitmap, tmp, tmp << 16, nr, 16);
      tmp := tmp << 16;
      nr := nr + 16;
    }
    NextHalf(tmp);
    if tmp & 0xFF00_0000 == 0 {
      Up8(tmp);
      MovedTwice(bitmap, tmp, tmp << 8, nr, 8);
      tmp := tmp << 8;
      nr := nr + 8;
    }
    NextHalf(tmp);
    if tmp & 0xF000_0000 == 0 {
      Up4(tmp);
      MovedTwice(bitmap, tmp, tmp << 4, nr, 4);
      tmp := tmp << 4;
      nr := nr + 4;
    }
    NextHalf(tmp);
    if tmp & 0xC000_0000 == 0 {
      Up2(tmp);
      MovedTwice(bitmap, tmp, tmp << 2, nr, 2);
      tmp := tmp << 2;
      nr := nr + 2;
    }
    NextHalf(tmp);
    if tmp & 0x8000_0000 == 0 {
      Up1(tmp);
      MovedTwice(bitmap, tmp, tmp << 1, nr, 1);
      Topmost(bitmap, tmp << 1, nr + 1);
      nr := nr + 1;
    } else {
      Topmost(bitmap, tmp, nr);
    }
  }

  lemma Topmost(w: bv32, tmp: bv32, nr: nat)
    requires MovedUp(w, tmp, nr) && tmp & 0x8000_0000 != 0 && nr < 32
    ensures IsHighest(w, 31 - nr)
  {
    hide Bit;
    Top31(tmp);
  }
}
