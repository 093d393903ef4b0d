/** The checksums: shift registers, and the remainders they compute. */
module Crc {
  import opened Gf2
  import opened WordBits

  type byte = bv8

  /** The powers of x^16 + x^12 + x^5 + 1. */
  const G16: Poly := {16, 12, 5, 0}

  /** The powers of x^32 + x^26 + ... + 1. */
  const G32: Poly := {32, 26, 23, 22, 16, 12, 11, 10, 8, 7, 5, 4, 2, 1, 0}

  // ----- words as polynomials -----

  /** The polynomial of the low `n` bits of a word. */
  function PolyOf(w: bv32, n: nat): Poly {
    set e: nat | e < n && Bit(w, e)
  }

  /** The constants of the two checksums have the powers of the two polynomials, but
    * for the highest. */
  lemma Constants(e: nat)
    requires e < 32
    ensures Bit(0x1021, e) <==> e in G16 && e != 16
    ensures Bit(0x04C1_1DB7, e) <==> e in G32
    ensures Bit(0xFFFF_FFFF, e)
    ensures Bit(1, e) <==> e == 0
    ensures Bit(0x100, e) <==> e == 8
  {
  }

  /** One more bit shifted in from below. */
  function ShiftIn(w: bv32, b: bool): bv32 {
    if b then (w << 1) ^ 1 else w << 1
  }

  lemma ShiftInBit(w: bv32, b: bool, e: nat)
    requires e < 32
    ensures Bit(ShiftIn(w, b), e) <==> if e == 0 then b else Bit(w, e - 1)
  {
    hide Bit;
    if e == 0 { LowestBit(w); } else { ShiftBit(w, e); }
    Constants(e);
    XorBit(w << 1, 1, e);
  }

  function One(b: bool): Poly {
    if b then {0} else {}
  }

  // ----- the 16-bit register -----

  /** A step of the register: shifted, and reduced when the highest power appears.  The
    * bits above the register are left behind and do not matter. */
  function Next16(w: bv32, b: bool): bv32 {
    Reduced16(ShiftIn(w, b))
  }

  function Reduced16(w: bv32): bv32 {
    if Bit(w, 16) then w ^ 0x1021 else w
  }

  /** Powers below `n` are those of the shifted polynomial. */
  lemma ShiftInPoly(w: bv32, b: bool, n: nat)
    requires n < 32
    ensures PolyOf(ShiftIn(w, b), n + 1) == Add(TimesX(PolyOf(w, n)), One(b))
  {
    hide Bit, ShiftIn;
    var p := TimesX(PolyOf(w, n));
    forall e: nat
      ensures e in PolyOf(ShiftIn(w, b), n + 1) <==> e in Add(p, One(b))
    {
      assert e in p <==> 0 < e <= n && Bit(w, e - 1) by { assert e > 0 ==> (e in p <==> e - 1 in PolyOf(w, n)); }
      if e <= n { ShiftInBit(w, b, e); }
    }
  }

  lemma XorPoly(w: bv32, v: bv32, n: nat)
    requires n <= 32
    ensures PolyOf(w ^ v, n) == Add(PolyOf(w, n), PolyOf(v, n))
  {
    hide Bit;
    forall e: nat | e < n
      ensures Bit(w ^ v, e) <==> Bit(w, e) != Bit(v, e)
    {
      XorBit(w, v, e);
    }
  }

  lemma Divisors()
    ensures PolyOf(0x1021, 16) == G16 - {16}
    ensures PolyOf(0x04C1_1DB7, 32) == G32 - {32}
  {
    hide Bit;
    forall e: nat | e < 32
      ensures Bit(0x1021, e) <==> e in G16 && e != 16
      ensures Bit(0x04C1_1DB7, e) <==> e in G32
    {
      Constants(e);
    }
  }

  lemma Next16Poly(w: bv32, b: bool)
    ensures var p := Add(TimesX(PolyOf(w, 16)), One(b));
      PolyOf(Next16(w, b), 16) == if 16 in p then Add(p, G16) else p
  {
    hide Bit, ShiftIn;
    var s := ShiftIn(w, b);
    ShiftInPoly(w, b, 16);
    XorPoly(s, 0x1021, 16);
    Divisors();
    assert PolyOf(s, 16) == PolyOf(s, 17) - {16};
  }

  // ----- bytes -----

  function Wide(b: byte): bv32 {
    b as bv32
  }

  function BytePoly(b: byte): Poly {
    PolyOf(Wide(b), 8)
  }

  /** The powers of a message, its first byte highest. */
  function MessagePoly(m: seq<byte>): Poly {
    if m == [] then {} else Add(TimesXs(MessagePoly(m[..|m|-1]), 8), BytePoly(m[|m|-1]))
  }

  /** Power `e` of a message is bit `e % 8` of its byte `e / 8` from the end. */
  lemma {:induction false} MessageBit(m: seq<byte>, e: nat)
    ensures e in MessagePoly(m) <==> e < 8 * |m| && Bit(Wide(m[|m| - 1 - e / 8]), e % 8)
    decreases |m|
  {
    hide Bit, TimesXs, Wide;
    if m != [] {
      var front := m[..|m|-1];
      TimesXsAt(MessagePoly(front), 8, e);
      if e >= 8 {
        MessageBit(front, e - 8);
        assert e / 8 == (e - 8) / 8 + 1 && e % 8 == (e - 8) % 8;
      }
    }
  }

  predicate BitFrom(w: bv32, base: int, e: nat) {
    base + e >= 0 && Bit(w, base + e)
  }

  /** The polynomial of the top `k` of the low 8 bits of a word. */
  function Top(w: bv32, k: nat): Poly {
    Field(w, 8 - k, k)
  }

  function Field(w: bv32, base: int, k: nat): Poly {
    set e: nat | e < k && BitFrom(w, base, e)
  }

  lemma TopStep(w: bv32, k: nat)
    requires k < 8
    ensures Top(w, k + 1) == Add(TimesX(Top(w, k)), One(Bit(w, 7 - k)))
  {
    hide Bit;
    var t, p, o := Top(w, k + 1), TimesX(Top(w, k)), One(Bit(w, 7 - k));
    forall e: nat
      ensures e in t <==> e in Add(p, o)
    {
      if e > 0 {
        assert e in p <==> e - 1 in Top(w, k);
        assert BitFrom(w, 8 - k, e - 1) == BitFrom(w, 7 - k, e);
      }
    }
  }

  lemma TopEnds(w: bv32)
    ensures Top(w, 0) == {} && Top(w, 8) == PolyOf(w, 8)
  {
    hide Bit;
    assert forall e: nat :: BitFrom(w, 0, e) == Bit(w, e);
  }

  /** What a byte with a marker bit above it looks like, shifted `k` times. */
  predicate Marks(b: bv32, k: nat, e: nat) {
    e >= k && (e - k == 8 || (e - k < 8 && Bit(b, e - k)))
  }

  ghost predicate Marked(w: bv32, b: bv32, k: nat) {
    forall e: nat | e < 32 :: Bit(w, e) <==> Marks(b, k, e)
  }

  lemma MarkedStart(b: byte)
    ensures Marked(Wide(b) | 0x100, Wide(b), 0)
  {
    var v := Wide(b) | 0x100;
    forall e: nat | e < 32
      ensures Bit(v, e) <==> e == 8 || (e < 8 && Bit(Wide(b), e))
    {
      SmallByte(b, e);
    }
  }

  lemma SmallByte(b: byte, e: nat)
    requires e < 32
    ensures Bit(Wide(b) | 0x100, e) <==> e == 8 || (e < 8 && Bit(Wide(b), e))
    ensures e >= 8 ==> !Bit(Wide(b), e)
  {
  }

  lemma MarkedShift(w: bv32, b: bv32, k: nat)
    requires Marked(w, b, k) && k < 8
    ensures Marked(w << 1, b, k + 1)
    ensures Bit(w << 1, 8) <==> Bit(b, 7 - k)
    ensures Bit(w << 1, 16) <==> k == 7
  {
    hide Bit;
    var v := w << 1;
    forall e: nat | e < 32
      ensures Bit(v, e) <==> Marks(b, k + 1, e)
    {
      if e == 0 {
        LowestBit(w);
      } else {
        ShiftBit(w, e);
        assert Bit(w, e - 1) <==> Marks(b, k, e - 1);
      }
    }
  }

  // ----- CRC-16 -----

  /** `crc & 0xffffu`, as it is stored in 16 bits. */
  function Narrow(w: bv32): bv16 {
    (w & 0xFFFF) as bv16
  }

  function Widen(c: bv16): bv32 {
    c as bv32
  }

  lemma NarrowIsLow(w: bv32)
    ensures Widen(Narrow(w)) == w & 0xFFFF
  {
  }

  lemma LowBits(w: bv32)
    ensures PolyOf(Widen(Narrow(w)), 16) == PolyOf(w, 16)
  {
    hide Widen, Narrow, Bit;
    NarrowIsLow(w);
    var v := w & 0xFFFF;
    forall e: nat | e < 16
      ensures Bit(v, e) <==> Bit(w, e)
    {
      LowBit(w, e);
    }
  }

  lemma LowBit(w: bv32, e: nat)
    requires e < 16
    ensures Bit(w & 0xFFFF, e) <==> Bit(w, e)
  {
  }

  function Reg16(crc: bv16): Poly {
    PolyOf(Widen(crc), 16)
  }

  /** The register after one more byte has gone in. */
  ghost predicate Feeds(r: Poly, b: byte, r': Poly, g: Poly) {
    Congruent(Add(TimesXs(r, 8), BytePoly(b)), r', g)
  }

  /** One step of the register, for any polynomial it stands for. */
  lemma Step16(p: Poly, w: bv32, b: bool)
    requires Congruent(p, PolyOf(w, 16), G16)
    ensures Congruent(Add(TimesX(p), One(b)), PolyOf(Next16(w, b), 16), G16)
  {
    hide Bit, Next16;
    var r := PolyOf(w, 16);
    CongruentTimesX(p, r, G16);
    CongruentAdd(TimesX(p), TimesX(r), One(b), G16);
    Next16Poly(w, b);
    var s := Add(TimesX(r), One(b));
    if 16 in s { CongruentReduce(Add(TimesX(p), One(b)), s, G16); }
  }

  /** The polynomial so far, with the next bit of the byte. */
  lemma NextBit(r: Poly, w: bv32, k: nat)
    requires k < 8
    ensures Add(TimesX(Add(TimesXs(r, k), Top(w, k))), One(Bit(w, 7 - k))) == Add(TimesXs(r, k + 1), Top(w, k + 1))
  {
    hide Bit, Top, TimesX, Add;
    var p, t, o := TimesXs(r, k), Top(w, k), One(Bit(w, 7 - k));
    TopStep(w, k);
    AddFacts(p, t, {});
    AddFacts(TimesX(p), TimesX(t), o);
  }

  lemma NoShift(p: Poly)
    ensures TimesXs(p, 0) == p
  {
  }

  /** `crc <<= 1`, and `++crc` for a bit. */
  method ShiftUp(w: bv32, b: bool) returns (crc: bv32)
    ensures crc == ShiftIn(w, b)
  {
    LowMask(w);
    crc := w << 1;
    if b { crc := crc + 1; }
  }

  /** `if (crc & 0x10000) crc ^= 0x1021`. */
  method Reduce(w: bv32) returns (crc: bv32)
    ensures crc == Reduced16(w)
  {
    hide Bit;
    TestBits(w);
    crc := w;
    if crc & 0x1_0000 != 0 { crc := crc ^ 0x1021; }
  }

  /** `UpdateCRC16`. */
  method UpdateCRC16(crcIn: bv16, b: byte) returns (r: bv16)
    ensures Feeds(Reg16(crcIn), b, Reg16(r), G16)
  {
    hide Bit, Congruent, Top, Marked, ShiftIn, Add, PolyOf, TimesXs, Wide, Widen, Narrow, Reduced16;
    var crc := Widen(crcIn);
    var in_ := Wide(b) | 0x100;
    ghost var k, first, wide := 0, Reg16(crcIn), Wide(b);
    MarkedStart(b);
    TopEnds(wide);
    CongruentSelf(first, G16);
    AddFacts(first, {}, {});
    NoShift(first);
    while true
      invariant 0 <= k < 8 && Marked(in_, wide, k)
      invariant Congruent(Add(TimesXs(first, k), Top(wide, k)), PolyOf(crc, 16), G16)
      decreases 8 - k
    {
      ghost var bit := Bit(wide, 7 - k);
      Step16(Add(TimesXs(first, k), Top(wide, k)), crc, bit);
      NextBit(first, wide, k);
      MarkedShift(in_, wide, k);
      in_ := in_ << 1;
      TestBits(in_);
      crc := ShiftUp(crc, in_ & 0x100 != 0);
      crc := Reduce(crc);
      k := k + 1;
      if in_ & 0x1_0000 != 0 { break; }
    }
    LowBits(crc);
    r := Narrow(crc);
  }

  lemma MessageStep(m: seq<byte>, b: byte)
    ensures MessagePoly(m + [b]) == Add(TimesXs(MessagePoly(m), 8), BytePoly(b))
  {
    assert (m + [b])[..|m|] == m;
  }

  /** A byte fed into a register that stands for a message. */
  lemma Fed(m: seq<byte>, r: Poly, b: byte, r': Poly, g: Poly)
    requires Congruent(MessagePoly(m), r, g) && Feeds(r, b, r', g)
    ensures Congruent(MessagePoly(m + [b]), r', g)
  {
    hide MessagePoly, BytePoly;
    var p, d := MessagePoly(m), BytePoly(b);
    MessageStep(m, b);
    CongruentTimesXs(p, r, 8, g);
    CongruentAdd(TimesXs(p, 8), TimesXs(r, 8), d, g);
    CongruentChain(Add(TimesXs(p, 8), d), Add(TimesXs(r, 8), d), r', g);
  }

  lemma ZeroByte()
    ensures BytePoly(0) == {}
  {
    assert Wide(0) == 0;
    NoBits();
  }

  /** The CRC of a message: what division leaves of the message and sixteen zero bits. */
  ghost predicate IsCrc16(m: seq<byte>, r: bv16) {
    IsRemainder(TimesXs(MessagePoly(m), 16), Reg16(r), G16, 16)
  }

  lemma Crc16Is(m: seq<byte>, r: bv16)
    ensures IsCrc16(m, r) <==>
      IsRemainder(TimesXs(MessagePoly(m), 16), Reg16(r), {16, 12, 5, 0}, 16)
  {
    hide TimesXs, MessagePoly, Congruent, Bit;
  }

  lemma TwoZeros(m: seq<byte>)
    ensures MessagePoly(m + [0] + [0]) == TimesXs(MessagePoly(m), 16)
  {
    hide TimesXs;
    ZeroByte();
    MessageStep(m, 0);
    MessageStep(m + [0], 0);
    var p := MessagePoly(m);
    AddFacts(TimesXs(p, 8), {}, {});
    TimesXsSum(p, 8, 8);
    AddFacts(TimesXs(TimesXs(p, 8), 8), {}, {});
  }

  class Crc16Context {
    var crc: bv16
    ghost var fed: seq<byte>

    ghost predicate Valid()
      reads this
    {
      Congruent(MessagePoly(fed), Reg16(crc), G16)
    }

    /** `CRC16_Init`. */
    constructor ()
      ensures Valid() && fed == []
    {
      crc := 0;
      fed := [];
      new;
      assert Widen(0) == 0;
      NoBits();
      CongruentSelf({}, G16);
    }

    /** `CRC16_Update`: any split of a message into calls feeds the whole message. */
    method Update(src: seq<byte>)
      requires Valid()
      modifies this
      ensures Valid() && fed == old(fed) + src
    {
      hide Congruent, MessagePoly, Reg16, Feeds;
      var i := 0;
      while i < |src|
        invariant 0 <= i <= |src| && Valid() && fed == old(fed) + src[..i]
      {
        ghost var r := Reg16(crc);
        crc := UpdateCRC16(crc, src[i]);
        Fed(fed, r, src[i], Reg16(crc), G16);
        fed := fed + [src[i]];
        i := i + 1;
      }
    }

    /** `CRC16_Final`. */
    method Final() returns (outResult: bv16)
      requires Valid()
      modifies this
      ensures IsCrc16(old(fed), outResult)
      ensures IsRemainder(TimesXs(MessagePoly(old(fed)), 16), Reg16(outResult), {16, 12, 5, 0}, 16)
    {
      hide Congruent, MessagePoly, Reg16, Feeds, IsCrc16, IsRemainder, PolyOf, TimesXs;
      for i := 0 to 2
        invariant Valid() && fed == if i == 0 then old(fed) else if i == 1 then old(fed) + [0] else old(fed) + [0] + [0]
      {
        ghost var r := Reg16(crc);
        crc := UpdateCRC16(crc, 0);
        Fed(fed, r, 0, Reg16(crc), G16);
        fed := fed + [0];
      }
      RegisterIsCrc(old(fed), crc);
      outResult := crc;
      Crc16Is(old(fed), outResult);
    }
  }

  lemma RegisterIsCrc(m: seq<byte>, crc: bv16)
    requires Congruent(MessagePoly(m + [0] + [0]), Reg16(crc), G16)
    ensures IsCrc16(m, crc)
  {
    hide Congruent, MessagePoly, Reg16;
    TwoZeros(m);
    Reg16IsShort(crc);
  }

  lemma Reg16IsShort(c: bv16)
    ensures Short(Reg16(c), 16)
  {
  }

  // ----- CRC-16: one result, and the residue -----

  lemma SameWord(w: bv32, v: bv32)
    requires PolyOf(w, 32) == PolyOf(v, 32)
    ensures w == v
  {
    hide Bit;
    var x := w ^ v;
    forall e: nat | e < 32
      ensures !Bit(x, e)
    {
      XorBit(w, v, e);
      assert e in PolyOf(w, 32) <==> e in PolyOf(v, 32);
    }
    ZeroWord(x);
    XorZero(w, v);
  }

  lemma HighBit(c: bv16, e: nat)
    requires 16 <= e
    ensures !Bit(Widen(c), e)
  {
  }

  lemma SameWord16(c: bv16, d: bv16)
    requires Reg16(c) == Reg16(d)
    ensures c == d
  {
    WholeWord16(c);
    WholeWord16(d);
    SameWord(Widen(c), Widen(d));
    WidenIsExact(c, d);
  }

  lemma WholeWord16(c: bv16)
    ensures PolyOf(Widen(c), 32) == Reg16(c)
  {
    hide Bit;
    forall e: nat | 16 <= e
      ensures !Bit(Widen(c), e)
    {
      HighBit(c, e);
    }
  }

  lemma WidenIsExact(c: bv16, d: bv16)
    requires Widen(c) == Widen(d)
    ensures c == d
  {
  }

  /** A message has one CRC. */
  lemma Crc16IsUnique(m: seq<byte>, c: bv16, d: bv16)
    requires IsCrc16(m, c) && IsCrc16(m, d)
    ensures c == d
  {
    RemainderIsUnique(TimesXs(MessagePoly(m), 16), Reg16(c), Reg16(d), G16, 16);
    SameWord16(c, d);
  }

  function High(c: bv16): byte {
    (c >> 8) as bv8
  }

  function Low(c: bv16): byte {
    (c & 0xFF) as bv8
  }

  lemma HighLowBit(c: bv16, e: nat)
    requires e < 8
    ensures Bit(Wide(High(c)), e) <==> Bit(Widen(c), e + 8)
    ensures Bit(Wide(Low(c)), e) <==> Bit(Widen(c), e)
  {
  }

  lemma HighLow(c: bv16)
    ensures Add(TimesXs(BytePoly(High(c)), 8), BytePoly(Low(c))) == Reg16(c)
  {
    hide Bit, TimesXs;
    var h, l, r := TimesXs(BytePoly(High(c)), 8), BytePoly(Low(c)), Reg16(c);
    forall e: nat
      ensures e in h <==> 8 <= e && e in r
      ensures e in l <==> e < 8 && e in r
    {
      TimesXsAt(BytePoly(High(c)), 8, e);
      if e < 8 { HighLowBit(c, e); }
      if 8 <= e < 16 { HighLowBit(c, e - 8); }
    }
  }

  /** A message followed by its CRC, high byte first, leaves the register at zero. */
  lemma Crc16Residue(m: seq<byte>, c: bv16, register: bv16)
    requires IsCrc16(m, c)
    requires Congruent(MessagePoly(m + [High(c)] + [Low(c)]), Reg16(register), G16)
    ensures register == 0
  {
    hide Bit, TimesXs, BytePoly, MessagePoly;
    var p, r, h, l := MessagePoly(m), Reg16(c), BytePoly(High(c)), BytePoly(Low(c));
    MessageStep(m, High(c));
    MessageStep(m + [High(c)], Low(c));
    TimesXsAdd(TimesXs(p, 8), h, 8);
    TimesXsSum(p, 8, 8);
    AddFacts(TimesXs(p, 16), TimesXs(h, 8), l);
    HighLow(c);
    CongruentAdd(TimesXs(p, 16), r, r, G16);
    AddFacts(r, r, {});
    assert IsRemainder(Add(TimesXs(p, 16), r), {}, G16, 16);
    Reg16IsShort(register);
    RemainderIsUnique(Add(TimesXs(p, 16), r), {}, Reg16(register), G16, 16);
    ZeroRegister(register);
  }

  lemma ZeroRegister(c: bv16)
    requires Reg16(c) == {}
    ensures c == 0
  {
    hide Bit;
    NoBits();
    assert Widen(0) == 0;
    SameWord16(c, 0);
  }

  // ----- CRC-32 -----

  const CRC32_SEED: bv32 := 0xFFFF_FFFF
  const POLY32: bv32 := 0x04C1_1DB7

  function Reg32(crc: bv32): Poly {
    PolyOf(crc, 32)
  }

  /** One round of the inner loop. */
  function Next32(w: bv32): bv32 {
    if Bit(w, 31) then (w << 1) ^ POLY32 else w << 1
  }

  lemma Shift32Poly(w: bv32)
    ensures Reg32(w << 1) == TimesX(Reg32(w)) - {32}
    ensures 32 in TimesX(Reg32(w)) <==> Bit(w, 31)
  {
    hide Bit;
    var s, p := w << 1, TimesX(Reg32(w));
    forall e: nat
      ensures e in Reg32(s) <==> e in p && e != 32
    {
      assert e > 0 ==> (e in p <==> e - 1 in Reg32(w));
      if 0 < e < 32 { ShiftBit(w, e); }
      LowestBit(w);
    }
    assert 31 in Reg32(w) <==> Bit(w, 31);
  }

  lemma CancelTop(p: Poly)
    requires 32 in p
    ensures Add(p - {32}, G32 - {32}) == Add(p, G32)
  {
  }

  lemma Next32Poly(w: bv32)
    ensures var p := TimesX(Reg32(w));
      Reg32(Next32(w)) == if 32 in p then Add(p, G32) else p
  {
    hide Bit, PolyOf, TimesX, Add;
    var p := TimesX(Reg32(w));
    Shift32Poly(w);
    if 32 in p {
      XorPoly(w << 1, POLY32, 32);
      Divisors();
      CancelTop(p);
    }
  }

  lemma Step32(p: Poly, w: bv32)
    requires Congruent(p, Reg32(w), G32)
    ensures Congruent(TimesX(p), Reg32(Next32(w)), G32)
  {
    hide Bit, Next32;
    CongruentTimesX(p, Reg32(w), G32);
    Next32Poly(w);
    if 32 in TimesX(Reg32(w)) { CongruentReduce(TimesX(p), TimesX(Reg32(w)), G32); }
  }

  lemma HighByteBit(b: byte, e: nat)
    requires e < 32
    ensures Bit(Wide(b) << 24, e) <==> e >= 24 && Bit(Wide(b), e - 24)
  {
  }

  /** A byte in the top of the register. */
  lemma HighByte(b: byte)
    ensures Reg32(Wide(b) << 24) == TimesXs(BytePoly(b), 24)
  {
    hide Bit, TimesXs;
    var w, p := Reg32(Wide(b) << 24), TimesXs(BytePoly(b), 24);
    forall e: nat
      ensures e in w <==> e in p
    {
      TimesXsAt(BytePoly(b), 24, e);
      if e < 32 { HighByteBit(b, e); }
    }
  }

  /** What the register stands for: the seed ahead of the message, and 32 zero bits. */
  function Seeded(m: seq<byte>): Poly {
    Add(TimesXs(Reg32(CRC32_SEED), 8 * |m|), TimesXs(MessagePoly(m), 32))
  }

  lemma SeededStep(m: seq<byte>, b: byte)
    ensures Seeded(m + [b]) == TimesXs(Add(Seeded(m), TimesXs(BytePoly(b), 24)), 8)
  {
    hide TimesXs, BytePoly, MessagePoly, Add, Reg32;
    var s, p, d := TimesXs(Reg32(CRC32_SEED), 8 * |m|), MessagePoly(m), BytePoly(b);
    MessageStep(m, b);
    TimesXsSum(Reg32(CRC32_SEED), 8 * |m|, 8);
    assert 8 * |m + [b]| == 8 * |m| + 8;
    TimesXsAdd(TimesXs(p, 8), d, 32);
    TimesXsSum(p, 8, 32);
    TimesXsSum(p, 32, 8);
    TimesXsSum(d, 24, 8);
    TimesXsAdd(Add(s, TimesXs(p, 32)), TimesXs(d, 24), 8);
    TimesXsAdd(s, TimesXs(p, 32), 8);
    AddFacts(TimesXs(s, 8), TimesXs(p, 40), TimesXs(d, 32));
  }

  ghost predicate IsCrc32(m: seq<byte>, crc: bv32) {
    IsRemainder(Seeded(m), Reg32(crc), G32, 32)
  }

  predicate Among(e: nat, low: nat, n: nat) {
    low <= e < low + n
  }

  /** The powers from `low` on, `n` of them. */
  function Ones(low: nat, n: nat): Poly {
    set e: nat | e < low + n && Among(e, low, n)
  }

  lemma {:induction false} OnesMoved(low: nat, n: nat, k: nat)
    ensures TimesXs(Ones(low, n), k) == Ones(low + k, n)
    decreases k
  {
    hide TimesXs;
    forall e: nat ensures e in TimesXs(Ones(low, n), k) <==> e in Ones(low + k, n) {
      TimesXsAt(Ones(low, n), k, e);
    }
  }

  lemma SeedIsOnes()
    ensures Reg32(CRC32_SEED) == Ones(0, 32)
  {
    hide Bit;
    forall e: nat | e < 32 ensures Bit(CRC32_SEED, e) { Constants(e); }
  }

  /** What a CRC-32 is: the remainder of 32 ones ahead of the message, and 32 zeros
    * behind it, by the polynomial with these powers. */
  lemma Crc32Is(m: seq<byte>, crc: bv32)
    ensures IsCrc32(m, crc) <==>
      IsRemainder(Add(Ones(8 * |m|, 32), TimesXs(MessagePoly(m), 32)), PolyOf(crc, 32),
                  {32, 26, 23, 22, 16, 12, 11, 10, 8, 7, 5, 4, 2, 1, 0}, 32)
  {
    hide TimesXs, Bit, MessagePoly, Congruent;
    SeedIsOnes();
    OnesMoved(0, 32, 8 * |m|);
  }

  /** Of nothing it is all ones. */
  lemma Crc32OfNothing(crc: bv32)
    ensures IsCrc32([], crc) <==> crc == 0xFFFF_FFFF
  {
    hide Bit, Congruent, TimesXs, Seeded, Reg32;
    SeededStart();
    Reg32IsShort(CRC32_SEED);
    assert IsCrc32([], CRC32_SEED);
    assert CRC32_SEED == 0xFFFF_FFFF;
    if IsCrc32([], crc) { Crc32IsUnique([], crc, CRC32_SEED); }
  }

  method ReduceShift(w: bv32) returns (crc: bv32)
    ensures crc == Next32(w)
  {
    hide Bit;
    TestBits(w);
    if w & 0x8000_0000 != 0 {
      crc := (w << 1) ^ POLY32;
    } else {
      crc := w << 1;
    }
  }

  /** `utils_crc32`. */
  method UtilsCrc32(buf: seq<byte>) returns (crc: bv32)
    ensures IsCrc32(buf, crc)
    ensures IsRemainder(Add(Ones(8 * |buf|, 32), TimesXs(MessagePoly(buf), 32)), PolyOf(crc, 32),
                        {32, 26, 23, 22, 16, 12, 11, 10, 8, 7, 5, 4, 2, 1, 0}, 32)
    ensures buf == [] ==> crc == 0xFFFF_FFFF
  {
    hide Bit, Congruent, TimesXs, BytePoly, Next32, Seeded, Wide, Reg32, Add;
    crc := CRC32_SEED;
    SeededStart();
    var n := 0;
    while n < |buf|
      invariant 0 <= n <= |buf| && Congruent(Seeded(buf[..n]), Reg32(crc), G32)
    {
      var b := buf[n];
      ghost var p, d := Seeded(buf[..n]), TimesXs(BytePoly(b), 24);
      CongruentAdd(p, Reg32(crc), d, G32);
      HighByte(b);
      XorPoly32(crc, Wide(b) << 24);
      crc := crc ^ (Wide(b) << 24);
      NoShift(Add(p, d));
      for i := 0 to 8
        invariant Congruent(TimesXs(Add(p, d), i), Reg32(crc), G32)
      {
        Step32(TimesXs(Add(p, d), i), crc);
        OneShift(Add(p, d), i);
        crc := ReduceShift(crc);
      }
      SeededStep(buf[..n], b);
      assert buf[..n] + [b] == buf[..n+1];
      n := n + 1;
    }
    assert buf[..n] == buf;
    Reg32IsShort(crc);
    Crc32Is(buf, crc);
    if buf == [] { Crc32OfNothing(crc); }
  }

  lemma OneShift(p: Poly, k: nat)
    ensures TimesXs(p, k + 1) == TimesX(TimesXs(p, k))
  {
  }

  lemma XorPoly32(w: bv32, v: bv32)
    ensures Reg32(w ^ v) == Add(Reg32(w), Reg32(v))
  {
    XorPoly(w, v, 32);
  }

  lemma SeededStart()
    ensures Congruent(Seeded([]), Reg32(CRC32_SEED), G32)
  {
    hide Congruent, Reg32;
    var s := Reg32(CRC32_SEED);
    TimesXsZero(32);
    AddFacts(s, {}, {});
    CongruentSelf(s, G32);
  }

  lemma Reg32IsShort(crc: bv32)
    ensures Short(Reg32(crc), 32)
  {
  }

  lemma Crc32IsUnique(m: seq<byte>, c: bv32, d: bv32)
    requires IsCrc32(m, c) && IsCrc32(m, d)
    ensures c == d
  {
    hide Bit;
    RemainderIsUnique(Seeded(m), Reg32(c), Reg32(d), G32, 32);
    SameWord(c, d);
  }

  function Byte3(c: bv32): byte { (c >> 24) as bv8 }
  function Byte2(c: bv32): byte { ((c >> 16) & 0xFF) as bv8 }
  function Byte1(c: bv32): byte { ((c >> 8) & 0xFF) as bv8 }
  function Byte0(c: bv32): byte { (c & 0xFF) as bv8 }

  /** The four bytes of a result, high byte first. */
  function BigEndian(c: bv32): seq<byte> {
    [Byte3(c), Byte2(c), Byte1(c), Byte0(c)]
  }

  lemma Byte3Bit(c: bv32, e: nat)
    requires e < 8
    ensures Bit(Wide(Byte3(c)), e) <==> Bit(c, e + 24)
  {
  }

  lemma Byte2Bit(c: bv32, e: nat)
    requires e < 8
    ensures Bit(Wide(Byte2(c)), e) <==> Bit(c, e + 16)
  {
  }

  lemma Byte1Bit(c: bv32, e: nat)
    requires e < 8
    ensures Bit(Wide(Byte1(c)), e) <==> Bit(c, e + 8)
  {
  }

  lemma Byte0Bit(c: bv32, e: nat)
    requires e < 8
    ensures Bit(Wide(Byte0(c)), e) <==> Bit(c, e)
  {
  }

  function FourBytes(b3: byte, b2: byte, b1: byte, b0: byte): Poly {
    Add(Add(TimesXs(BytePoly(b3), 24), TimesXs(BytePoly(b2), 16)), Add(TimesXs(BytePoly(b1), 8), BytePoly(b0)))
  }

  lemma WordBytes(c: bv32)
    ensures FourBytes(Byte3(c), Byte2(c), Byte1(c), Byte0(c)) == Reg32(c)
  {
    hide Bit, TimesXs, Byte3, Byte2, Byte1, Byte0;
    var r := Reg32(c);
    var p3, p2, p1, p0 := TimesXs(BytePoly(Byte3(c)), 24), TimesXs(BytePoly(Byte2(c)), 16),
      TimesXs(BytePoly(Byte1(c)), 8), BytePoly(Byte0(c));
    forall e: nat
      ensures e in p3 <==> 24 <= e && e in r
      ensures e in p2 <==> 16 <= e < 24 && e in r
      ensures e in p1 <==> 8 <= e < 16 && e in r
      ensures e in p0 <==> e < 8 && e in r
    {
      TimesXsAt(BytePoly(Byte3(c)), 24, e);
      TimesXsAt(BytePoly(Byte2(c)), 16, e);
      TimesXsAt(BytePoly(Byte1(c)), 8, e);
      if e < 8 { Byte0Bit(c, e); }
      if 8 <= e < 16 { Byte1Bit(c, e - 8); }
      if 16 <= e < 24 { Byte2Bit(c, e - 16); }
      if 24 <= e < 32 { Byte3Bit(c, e - 24); }
    }
  }

  lemma FourMore(m: seq<byte>, b3: byte, b2: byte, b1: byte, b0: byte)
    ensures MessagePoly(m + [b3, b2, b1, b0]) == Add(TimesXs(MessagePoly(m), 32), FourBytes(b3, b2, b1, b0))
  {
    hide TimesXs, BytePoly, MessagePoly, Add;
    var p, p3, p2, p1, p0 := MessagePoly(m), BytePoly(b3), BytePoly(b2), BytePoly(b1), BytePoly(b0);
    MessageStep(m, b3);
    MessageStep(m + [b3], b2);
    MessageStep(m + [b3] + [b2], b1);
    MessageStep(m + [b3] + [b2] + [b1], b0);
    assert m + [b3] + [b2] + [b1] + [b0] == m + [b3, b2, b1, b0];
    var q := Add(TimesXs(p, 8), p3);
    Two(q, p2, p1);
    Two(p, p3, p2);
    Four(p, p3, p2, p1, p0);
  }

  lemma Two(p: Poly, a: Poly, b: Poly)
    ensures Add(TimesXs(Add(TimesXs(p, 8), a), 8), b) == Add(TimesXs(p, 16), Add(TimesXs(a, 8), b))
  {
    hide TimesXs, Add;
    TimesXsAdd(TimesXs(p, 8), a, 8);
    TimesXsSum(p, 8, 8);
    AddFacts(TimesXs(p, 16), TimesXs(a, 8), b);
  }

  lemma Four(p: Poly, p3: Poly, p2: Poly, p1: Poly, p0: Poly)
    ensures var q := Add(TimesXs(p, 16), Add(TimesXs(p3, 8), p2));
      Add(TimesXs(Add(TimesXs(q, 8), p1), 8), p0)
      == Add(TimesXs(p, 32), Add(Add(TimesXs(p3, 24), TimesXs(p2, 16)), Add(TimesXs(p1, 8), p0)))
  {
    hide TimesXs, Add;
    var h, l := Add(TimesXs(p3, 8), p2), Add(TimesXs(p1, 8), p0);
    var q := Add(TimesXs(p, 16), h);
    Two(q, p1, p0);
    TimesXsAdd(TimesXs(p, 16), h, 16);
    TimesXsSum(p, 16, 16);
    TimesXsAdd(TimesXs(p3, 8), p2, 16);
    TimesXsSum(p3, 8, 16);
    AddFacts(TimesXs(p, 32), TimesXs(h, 16), l);
  }

  /** A message followed by its CRC, high byte first, has CRC zero. */
  lemma Crc32Residue(m: seq<byte>, c: bv32, d: bv32)
    requires IsCrc32(m, c) && IsCrc32(m + BigEndian(c), d)
    ensures d == 0
  {
    hide Bit, TimesXs, MessagePoly, FourBytes, Reg32, Add, Byte3, Byte2, Byte1, Byte0, Congruent;
    var s, p, r := TimesXs(Reg32(CRC32_SEED), 8 * |m|), MessagePoly(m), Reg32(c);
    FourMore(m, Byte3(c), Byte2(c), Byte1(c), Byte0(c));
    WordBytes(c);
    TimesXsSum(Reg32(CRC32_SEED), 8 * |m|, 32);
    assert 8 * |m + BigEndian(c)| == 8 * |m| + 32;
    TimesXsAdd(s, Add(TimesXs(p, 32), r), 32);
    AddFacts(s, TimesXs(p, 32), r);
    assert Seeded(m + BigEndian(c)) == TimesXs(Add(Seeded(m), r), 32);
    CongruentAdd(Seeded(m), r, r, G32);
    AddFacts(r, r, {});
    CongruentTimesXs(Add(Seeded(m), r), {}, 32, G32);
    TimesXsZero(32);
    ZeroWordPoly();
    assert IsRemainder(Seeded(m + BigEndian(c)), Reg32(0), G32, 32);
    Crc32IsUnique(m + BigEndian(c), 0, d);
  }

  lemma ZeroWordPoly()
    ensures Reg32(0) == {}
  {
    hide Bit;
    NoBits();
  }
}
