/** IPv4 addresses as text: printing, the two parsers, and that they undo printing.  An
  * address is its four bytes in memory, in network order. */
module Ip4Text {
  import opened Arithmetic
  import opened Decimal
  import opened Wrappers

  const NUL: char := '\0'
  const U32: nat := 0x1_0000_0000

  predicate IsAddr(a: seq<nat>) {
    |a| == 4 && forall i :: 0 <= i < 4 ==> a[i] < 256
  }

  /** Four numbers with dots between them. */
  function Quad(a: seq<nat>): string
    requires |a| == 4
  {
    PrintNat(a[0]) + "." + (PrintNat(a[1]) + "." + (PrintNat(a[2]) + "." + PrintNat(a[3])))
  }

  /** The first `n` numbers, each with a dot behind it. */
  function Dotted(a: seq<nat>, n: nat): string
    requires n <= |a|
  {
    if n == 0 then "" else Dotted(a, n - 1) + PrintNat(a[n-1]) + "."
  }

  lemma DottedQuad(a: seq<nat>)
    requires |a| == 4
    ensures Dotted(a, 4) == Quad(a) + "."
  {
    hide PrintNat;
    assert Dotted(a, 1) == PrintNat(a[0]) + ".";
    assert Dotted(a, 2) == PrintNat(a[0]) + "." + (PrintNat(a[1]) + ".");
    assert Dotted(a, 3) == PrintNat(a[0]) + "." + (PrintNat(a[1]) + "." + (PrintNat(a[2]) + "."));
  }

  lemma {:induction false} DottedGrows(a: seq<nat>, n: nat)
    requires n <= |a|
    ensures Dotted(a, n) <= Dotted(a, |a|)
    decreases |a| - n
  {
    if n < |a| { DottedGrows(a, n + 1); }
  }

  // ----- printing -----

  function Reversed(s: string): string {
    if s == "" then "" else Reversed(s[1..]) + [s[0]]
  }

  /** The digits of a byte, last one first. */
  method Digits(ap: nat) returns (inv: seq<char>)
    requires ap < 256
    ensures 1 <= |inv| <= 3 && Reversed(inv) == PrintNat(ap)
  {
    var rest := ap;
    inv := [];
    var more := true;
    while more
      invariant |inv| <= 3
      invariant more ==> PrintNat(ap) == PrintNat(rest) + Reversed(inv)
      invariant !more ==> 1 <= |inv| && PrintNat(ap) == Reversed(inv)
      invariant rest < 256 && (|inv| == 1 ==> rest < 26) && (|inv| == 2 ==> rest < 3)
      invariant more && |inv| > 0 ==> rest > 0
      invariant |inv| == 3 ==> !more
      decreases more, rest
    {
      var rem := rest % 10;
      ReversedMore(inv, Digit(rem));
      rest := rest / 10;
      inv := inv + [Digit(rem)];
      more := rest != 0;
    }
  }

  lemma {:induction false} ReversedMore(s: string, c: char)
    ensures Reversed(s + [c]) == [c] + Reversed(s)
  {
    if s != "" {
      ReversedMore(s[1..], c);
      assert (s + [c])[1..] == s[1..] + [c];
    } else {
      assert s + [c] == [c];
    }
  }

  lemma {:induction false} ReversedAt(s: string, k: nat)
    requires k < |s|
    ensures |Reversed(s)| == |s| && Reversed(s)[|s| - 1 - k] == s[k]
  {
    if k > 0 {
      ReversedAt(s[1..], k - 1);
    } else if |s| > 1 {
      ReversedAt(s[1..], 0);
    }
  }

  lemma ReversedLength(s: string)
    ensures |Reversed(s)| == |s|
  {
    if s != "" { ReversedAt(s, 0); }
  }

  /** Writes one character if the length allows. */
  method Put(buf: array<char>, buflen: int, len: nat, c: char) returns (ok: bool)
    requires buflen <= buf.Length
    modifies buf
    ensures ok <==> len < buflen
    ensures ok ==> buf[..len+1] == old(buf[..len]) + [c]
  {
    if len >= buflen { return false; }
    buf[len] := c;
    ok := true;
  }

  /** One number and its dot. */
  method PutNumber(buf: array<char>, buflen: int, len: nat, ap: nat) returns (ok: bool)
    requires buflen <= buf.Length && ap < 256 && len <= buf.Length
    modifies buf
    ensures ok <==> len + |PrintNat(ap)| < buflen
    ensures ok ==> buf[..len + |PrintNat(ap)| + 1] == old(buf[..len]) + PrintNat(ap) + "."
  {
    hide PrintNat, Reversed;
    var inv := Digits(ap);
    ReversedLength(inv);
    var i := |inv|;
    ghost var digits := PrintNat(ap);
    while i > 0
      invariant 0 <= i <= |inv|
      invariant i < |inv| ==> len + |inv| - i <= buflen
      invariant len + |inv| - i <= buf.Length
      invariant buf[..len + |inv| - i] == old(buf[..len]) + digits[..|inv| - i]
    {
      i := i - 1;
      ReversedAt(inv, i);
      ok := Put(buf, buflen, len + |inv| - i - 1, inv[i]);
      if !ok { return; }
      assert digits[..|inv| - i] == digits[..|inv| - i - 1] + [inv[i]];
    }
    ok := Put(buf, buflen, len + |inv|, '.');
    assert digits[..|inv|] == digits;
  }

  /** `ip4addr_ntoa_r`: the text and its terminator, if they fit. */
  method NtoaR(addr: seq<nat>, buf: array<char>, buflen: int) returns (ok: bool)
    requires IsAddr(addr) && buflen <= buf.Length
    modifies buf
    ensures ok <==> |Quad(addr)| + 1 <= buflen
    ensures ok ==> buf[..|Quad(addr)| + 1] == Quad(addr) + [NUL]
  {
    hide PrintNat;
    DottedQuad(addr);
    var rp := 0;
    for n := 0 to 4
      invariant rp == |Dotted(addr, n)| <= buf.Length && buf[..rp] == Dotted(addr, n)
      invariant n > 0 ==> rp <= buflen
    {
      DottedGrows(addr, n + 1);
      ok := PutNumber(buf, buflen, rp, addr[n]);
      if !ok { return; }
      rp := rp + |PrintNat(addr[n])| + 1;
    }
    rp := rp - 1;
    buf[rp] := NUL;
    ok := true;
  }

  // ----- parsing -----

  function Head(s: string): char {
    if s == "" then NUL else s[0]
  }

  function HexDigit(c: char): Option<nat> {
    if IsDigit(c) then Some(c as int - '0' as int)
    else if 'a' <= c <= 'f' then Some(c as int - 'a' as int + 10)
    else if 'A' <= c <= 'F' then Some(c as int - 'A' as int + 10)
    else None
  }

  /** Collects a number in 32 bits, digit by digit; in base 8 too all ten digits count. */
  function Number(s: string, base: nat, val: nat): (nat, string) {
    if IsDigit(Head(s)) then Number(s[1..], base, (val * base + (s[0] as int - '0' as int)) % U32)
    else if base == 16 && HexDigit(Head(s)).Some? then Number(s[1..], base, (val * 16) % U32 + HexDigit(s[0]).value)
    else (val, s)
  }

  /** A number as in C: `0x` for base 16, another leading 0 for base 8. */
  function Part(s: string): Option<(nat, string)> {
    if !IsDigit(Head(s)) then None
    else if s[0] != '0' then Some(Number(s, 10, 0))
    else if Head(s[1..]) == 'x' || Head(s[1..]) == 'X' then Some(Number(s[2..], 16, 0))
    else Some(Number(s[1..], 8, 0))
  }

  lemma {:induction false} NumberShrinks(s: string, base: nat, val: nat)
    ensures |Number(s, base, val).1| <= |s|
    decreases |s|
  {
    if IsDigit(Head(s)) {
      NumberShrinks(s[1..], base, (val * base + (s[0] as int - '0' as int)) % U32);
    } else if base == 16 && HexDigit(Head(s)).Some? {
      NumberShrinks(s[1..], base, (val * 16) % U32 + HexDigit(s[0]).value);
    }
  }

  lemma PartShrinks(s: string)
    requires Part(s).Some?
    ensures |Part(s).value.1| <= |s|
  {
    if s[0] != '0' { NumberShrinks(s, 10, 0); }
    else if Head(s[1..]) == 'x' || Head(s[1..]) == 'X' { NumberShrinks(s[2..], 16, 0); }
    else { NumberShrinks(s[1..], 8, 0); }
  }

  /** The numbers between the dots, at most four, and what is left of the text. */
  function Collect(s: string, parts: seq<nat>): Option<(seq<nat>, string)>
    decreases |s|
  {
    var p := Part(s);
    if p.None? then None
    else
      var (val, rest) := p.value;
      if Head(rest) != '.' then Some((parts + [val], rest))
      else if |parts| >= 3 then None
      else PartShrinks(s); Collect(rest[1..], parts + [val])
  }

  /** The last number fills the bytes that are left. */
  function Combine(p: seq<nat>): Option<nat>
    requires 1 <= |p| <= 4
  {
    var last := p[|p|-1];
    if |p| == 1 then Some(last)
    else if |p| == 2 then
      if last > 0xff_ffff || p[0] > 0xff then None else Some(p[0] * 0x100_0000 + last)
    else if |p| == 3 then
      if last > 0xffff || p[0] > 0xff || p[1] > 0xff then None else Some(p[0] * 0x100_0000 + p[1] * 0x1_0000 + last)
    else
      if last > 0xff || p[0] > 0xff || p[1] > 0xff || p[2] > 0xff then None
      else Some(p[0] * 0x100_0000 + p[1] * 0x1_0000 + p[2] * 0x100 + last)
  }

  function NetworkOrder(val: nat): seq<nat> {
    [val / 0x100_0000 % 256, val / 0x1_0000 % 256, val / 0x100 % 256, val % 256]
  }

  lemma {:induction false} CollectCounts(s: string, parts: seq<nat>)
    requires |parts| <= 3 && Collect(s, parts).Some?
    ensures |parts| < |Collect(s, parts).value.0| <= 4
    decreases |s|
  {
    var (val, rest) := Part(s).value;
    PartShrinks(s);
    if Head(rest) == '.' { CollectCounts(rest[1..], parts + [val]); }
  }

  /** What a text denotes as an address. */
  function Denoted(cp: string): Option<seq<nat>> {
    var c := Collect(cp, []);
    if c.None? || !(Head(c.value.1) == NUL || IsSpace(Head(c.value.1))) then None
    else
      CollectCounts(cp, []);
      var val := Combine(c.value.0);
      if val.None? then None else Some(NetworkOrder(val.value))
  }

  /** The inner loop of `ip4addr_aton`, and what comes before it. */
  method ReadPart(cp: string) returns (ok: bool, val: nat, s: string)
    ensures ok <==> Part(cp).Some?
    ensures ok ==> (val, s) == Part(cp).value
  {
    s, val, ok := cp, 0, false;
    var c := Head(s);
    if !IsDigit(c) { return; }
    ok := true;
    var base := 10;
    if c == '0' {
      s := s[1..];
      c := Head(s);
      if c == 'x' || c == 'X' {
        base := 16;
        s := s[1..];
      } else {
        base := 8;
      }
    }
    c := Head(s);
    ghost var whole := Number(s, base, 0);
    while true
      invariant c == Head(s) && Number(s, base, val) == whole
      decreases |s|
    {
      if IsDigit(c) {
        val := (val * base + (c as int - '0' as int)) % U32;
        s := s[1..];
      } else if base == 16 && HexDigit(c).Some? {
        val := (val * 16) % U32 + HexDigit(c).value;
        s := s[1..];
      } else {
        break;
      }
      c := Head(s);
    }
  }

  /** `ip4addr_aton`. */
  method Aton(cp: string) returns (ok: bool, addr: seq<nat>)
    ensures ok <==> Denoted(cp).Some?
    ensures ok ==> addr == Denoted(cp).value
  {
    hide Part, Combine, NetworkOrder;
    var s, parts: seq<nat>, val := cp, [], 0;
    addr := [];
    while true
      invariant |parts| <= 3 && Collect(cp, []) == Collect(s, parts)
      decreases |s|
    {
      ghost var before := s;
      ok, val, s := ReadPart(s);
      if !ok { return; }
      PartShrinks(before);
      if Head(s) != '.' { break; }
      if |parts| >= 3 { return false, []; }
      parts := parts + [val];
      s := s[1..];
    }
    CollectCounts(cp, []);
    var c := Head(s);
    if c != NUL && !IsSpace(c) { return false, []; }
    var whole := Combine(parts + [val]);
    if whole.None? { return false, []; }
    addr := NetworkOrder(whole.value);
  }

  // ----- parsing printed text -----

  lemma {:induction false} NumberReads(s: string, val: nat)
    requires ReadDigits(s, val).0 < U32
    ensures Number(s, 10, val) == ReadDigits(s, val) && val <= ReadDigits(s, val).0
    decreases |s|
  {
    if s != "" && IsDigit(s[0]) {
      NumberReads(s[1..], 10 * val + (s[0] as int - '0' as int));
    }
  }

  lemma {:induction false} LeadingZero(n: nat)
    ensures PrintNat(n)[0] == '0' <==> n == 0
  {
    if n >= 10 { LeadingZero(n / 10); }
  }

  /** What ends a number, in any base. */
  predicate Stops(rest: string) {
    rest == "" || (HexDigit(rest[0]) == None && rest[0] != 'x' && rest[0] != 'X')
  }

  /** A printed number up to its end is read back. */
  lemma PartPrinted(n: nat, rest: string)
    requires n < U32 && Stops(rest)
    ensures Part(PrintNat(n) + rest) == Some((n, rest))
  {
    var s := PrintNat(n) + rest;
    LeadingZero(n);
    if n == 0 {
      assert s[1..] == rest;
    } else {
      ReadPrinted(n, rest);
      NumberReads(s, 0);
    }
  }

  lemma CollectStep(n: nat, rest: string, parts: seq<nat>)
    requires n < U32 && |parts| < 3
    ensures Collect(PrintNat(n) + ("." + rest), parts) == Collect(rest, parts + [n])
  {
    PartPrinted(n, "." + rest);
    assert ("." + rest)[1..] == rest;
  }

  lemma CollectQuad(a: seq<nat>)
    requires |a| == 4 && forall i :: 0 <= i < 4 ==> a[i] < U32
    ensures Collect(Quad(a), []) == Some((a, ""))
  {
    hide Part;
    var t3 := PrintNat(a[3]);
    var t2 := PrintNat(a[2]) + "." + t3;
    var t1 := PrintNat(a[1]) + "." + t2;
    var p0, p1, p2: seq<nat>, p3 := [], [a[0]], [a[0], a[1]], [a[0], a[1], a[2]];
    assert Quad(a) == PrintNat(a[0]) + ("." + t1);
    assert t1 == PrintNat(a[1]) + ("." + t2) && t2 == PrintNat(a[2]) + ("." + t3);
    CollectStep(a[0], t1, p0);
    CollectStep(a[1], t2, p1);
    CollectStep(a[2], t3, p2);
    assert p0 + [a[0]] == p1 && p1 + [a[1]] == p2 && p2 + [a[2]] == p3;
    PartPrinted(a[3], "");
    assert t3 + "" == t3;
    assert p3 + [a[3]] == a;
  }

  lemma NetworkBytes(a: seq<nat>)
    requires IsAddr(a)
    ensures NetworkOrder(a[0] * 0x100_0000 + a[1] * 0x1_0000 + a[2] * 0x100 + a[3]) == a
  {
    var v := a[0] * 0x100_0000 + a[1] * 0x1_0000 + a[2] * 0x100 + a[3];
    DivMod(v, 0x100, a[0] * 0x1_0000 + a[1] * 0x100 + a[2], a[3]);
    DivMod(v, 0x1_0000, a[0] * 0x100 + a[1], a[2] * 0x100 + a[3]);
    DivMod(v, 0x100_0000, a[0], a[1] * 0x1_0000 + a[2] * 0x100 + a[3]);
    DivMod(a[0] * 0x1_0000 + a[1] * 0x100 + a[2], 0x100, a[0] * 0x100 + a[1], a[2]);
    DivMod(a[0] * 0x100 + a[1], 0x100, a[0], a[1]);
  }

  /** Four numbers with dots denote an address exactly when each fits a byte, and then
    * those bytes: parsing undoes printing for every address. */
  lemma QuadDenotes(a: seq<nat>)
    requires |a| == 4 && forall i :: 0 <= i < 4 ==> a[i] < U32
    ensures Denoted(Quad(a)) == if IsAddr(a) then Some(a) else None
  {
    hide Collect, NetworkOrder;
    CollectQuad(a);
    if IsAddr(a) { NetworkBytes(a); }
  }

  // ----- numbers in three bases, and addresses of one to four parts -----

  datatype Base = Eight | Ten | Sixteen

  function BaseOf(b: Base): nat {
    match b
    case Eight => 8
    case Ten => 10
    case Sixteen => 16
  }

  function DigitIn(d: nat): char
    requires d < 16
  {
    if d < 10 then Digit(d) else ['a', 'b', 'c', 'd', 'e', 'f'][d - 10]
  }

  function PrintIn(n: nat, b: Base): (s: string)
    ensures s != ""
    decreases n
  {
    if n < BaseOf(b) then [DigitIn(n)] else PrintIn(n / BaseOf(b), b) + [DigitIn(n % BaseOf(b))]
  }

  /** A number as C writes it. */
  function Numeral(n: nat, b: Base): string {
    match b
    case Eight => "0" + PrintIn(n, Eight)
    case Ten => PrintNat(n)
    case Sixteen => "0x" + PrintIn(n, Sixteen)
  }

  lemma DigitFacts(d: nat)
    requires d < 16
    ensures IsDigit(DigitIn(d)) <==> d < 10
    ensures d < 10 ==> DigitIn(d) as int - '0' as int == d
    ensures HexDigit(DigitIn(d)) == Some(d)
  {
  }

  lemma OneDigit(d: nat, b: Base, rest: string, val: nat)
    requires d < BaseOf(b) && val * BaseOf(b) + d < U32
    ensures Number([DigitIn(d)] + rest, BaseOf(b), val) == Number(rest, BaseOf(b), val * BaseOf(b) + d)
  {
    hide Number, DigitIn, HexDigit, IsDigit;
    var s := [DigitIn(d)] + rest;
    assert s[1..] == rest && s[0] == DigitIn(d);
    DigitFacts(d);
    NumberStep(s, BaseOf(b), val);
    match b
    case Eight => Small(val * 8 + d);
    case Ten => Small(val * 10 + d);
    case Sixteen =>
      Small(val * 16 + d);
      Small(val * 16);
  }

  lemma Small(v: nat)
    requires v < U32
    ensures v % U32 == v
  {
  }

  lemma NumberStep(s: string, base: nat, val: nat)
    requires s != "" && (IsDigit(s[0]) || (base == 16 && HexDigit(s[0]).Some?))
    ensures Number(s, base, val) ==
      if IsDigit(s[0]) then Number(s[1..], base, (val * base + (s[0] as int - '0' as int)) % U32)
      else Number(s[1..], base, (val * 16) % U32 + HexDigit(s[0]).value)
  {
  }

  /** The digits of a number put it together again. */
  lemma {:induction false} NumberPrinted(n: nat, b: Base, rest: string)
    requires n < U32
    ensures Number(PrintIn(n, b) + rest, BaseOf(b), 0) == Number(rest, BaseOf(b), n)
    decreases n
  {
    hide Number, DigitIn;
    var base := BaseOf(b);
    if n < base {
      OneDigit(n, b, rest, 0);
    } else {
      var d := n % base;
      Quotient(n, base);
      NumberPrinted(n / base, b, [DigitIn(d)] + rest);
      assert PrintIn(n, b) + rest == PrintIn(n / base, b) + ([DigitIn(d)] + rest);
      OneDigit(d, b, rest, n / base);
    }
  }

  lemma Quotient(n: nat, base: nat)
    requires base > 1 && n > 0
    ensures n / base < n && n / base * base + n % base == n && n % base < base
  {
    var q := n / base;
    assert n == q * base + n % base;
    if q > 0 { MulMono(2, base, q); }
  }

  /** A number in any of the three bases is read back. */
  lemma PartNumeral(n: nat, b: Base, rest: string)
    requires n < U32 && Stops(rest)
    ensures Part(Numeral(n, b) + rest) == Some((n, rest))
  {
    match b
    case Ten => PartPrinted(n, rest);
    case Eight =>
      OctalPart(n, rest);
    case Sixteen =>
      var s := Numeral(n, b) + rest;
      assert s[2..] == PrintIn(n, Sixteen) + rest && s[0] == '0' && s[1] == 'x';
      NumberPrinted(n, Sixteen, rest);
  }

  lemma OctalPart(n: nat, rest: string)
    requires n < U32 && Stops(rest)
    ensures Part("0" + PrintIn(n, Eight) + rest) == Some((n, rest))
  {
    var s := "0" + PrintIn(n, Eight) + rest;
    assert s[1..] == PrintIn(n, Eight) + rest && s[0] == '0';
    OctalDigit(n);
    NumberPrinted(n, Eight, rest);
  }

  lemma {:induction false} OctalDigit(n: nat)
    ensures IsDigit(PrintIn(n, Eight)[0])
    decreases n
  {
    if n >= 8 { OctalDigit(n / 8); }
  }

  /** Numbers with dots between them. */
  function DotText(p: seq<(nat, Base)>): string
    requires p != []
  {
    var t := Numeral(p[0].0, p[0].1);
    if |p| == 1 then t else t + ("." + DotText(p[1..]))
  }

  function Values(p: seq<(nat, Base)>): seq<nat> {
    seq(|p|, i requires 0 <= i < |p| => p[i].0)
  }

  lemma {:induction false} CollectParts(p: seq<(nat, Base)>, parts: seq<nat>, rest: string)
    requires p != [] && |parts| + |p| <= 4 && forall i :: 0 <= i < |p| ==> p[i].0 < U32
    requires Stops(rest) && Head(rest) != '.'
    ensures Collect(DotText(p) + rest, parts) == Some((parts + Values(p), rest))
    decreases |p|
  {
    hide Part, Numeral;
    var (n, b) := p[0];
    if |p| == 1 {
      PartNumeral(n, b, rest);
      assert parts + Values(p) == parts + [n];
    } else {
      var more := DotText(p[1..]) + rest;
      PartNumeral(n, b, "." + more);
      assert DotText(p) + rest == Numeral(n, b) + ("." + more);
      assert ("." + more)[1..] == more;
      CollectParts(p[1..], parts + [n], rest);
      assert parts + [n] + Values(p[1..]) == parts + Values(p);
    }
  }

  /** White space may follow, and whatever is behind it; nothing else that is no part of
    * a number. */
  lemma TrailingText(p: seq<(nat, Base)>, c: char, rest: string)
    requires 1 <= |p| <= 4 && forall i :: 0 <= i < |p| ==> p[i].0 < 0x1_0000_0000
    requires Stops([c] + rest) && c != '.' && c != '\0'
    ensures Denoted(DotText(p) + [c] + rest) == if IsSpace(c) then Denoted(DotText(p)) else None
  {
    hide Collect, DotText, NetworkOrder, Combine;
    CollectParts(p, [], [c] + rest);
    CollectParts(p, [], "");
    assert DotText(p) + [c] + rest == DotText(p) + ([c] + rest) && DotText(p) + "" == DotText(p);
    assert [] + Values(p) == Values(p);
  }

  /** What one to four numbers denote: the last one fills the bytes that are left, and
    * each must fit its place. */
  lemma PartsDenote(p: seq<(nat, Base)>)
    requires 1 <= |p| <= 4 && forall i :: 0 <= i < |p| ==> p[i].0 < 0x1_0000_0000
    ensures var n := p[|p|-1].0;
      Denoted(DotText(p)) ==
        if |p| == 1 then Some([n / 0x100_0000, n / 0x1_0000 % 256, n / 0x100 % 256, n % 256])
        else if |p| == 2 then
          if p[0].0 < 256 && n < 0x100_0000 then Some([p[0].0, n / 0x1_0000, n / 0x100 % 256, n % 256]) else None
        else if |p| == 3 then
          if p[0].0 < 256 && p[1].0 < 256 && n < 0x1_0000 then Some([p[0].0, p[1].0, n / 0x100, n % 256]) else None
        else if p[0].0 < 256 && p[1].0 < 256 && p[2].0 < 256 && n < 256 then Some([p[0].0, p[1].0, p[2].0, n])
        else None
  {
    hide Collect, NetworkOrder, DotText, Combine;
    CollectParts(p, [], "");
    assert [] + Values(p) == Values(p) && DotText(p) + "" == DotText(p);
    CombinedIs(Values(p));
  }

  lemma CombinedIs(v: seq<nat>)
    requires 1 <= |v| <= 4 && v[|v|-1] < U32
    ensures var n, r := v[|v|-1], Combine(v);
      (if r.None? then None else Some(NetworkOrder(r.value))) ==
        if |v| == 1 then Some([n / 0x100_0000, n / 0x1_0000 % 256, n / 0x100 % 256, n % 256])
        else if |v| == 2 then
          if v[0] < 256 && n < 0x100_0000 then Some([v[0], n / 0x1_0000, n / 0x100 % 256, n % 256]) else None
        else if |v| == 3 then
          if v[0] < 256 && v[1] < 256 && n < 0x1_0000 then Some([v[0], v[1], n / 0x100, n % 256]) else None
        else if v[0] < 256 && v[1] < 256 && v[2] < 256 && n < 256 then Some([v[0], v[1], v[2], n])
        else None
  {
    hide NetworkOrder;
    OrderedBytes(if |v| > 1 then v[0] else 0, if |v| > 2 then v[1] else 0, if |v| > 3 then v[2] else 0, v[|v|-1], |v|);
  }

  lemma OrderedBytes(a: nat, b: nat, c: nat, n: nat, parts: nat)
    requires 1 <= parts <= 4 && n < U32
    ensures parts == 1 ==> NetworkOrder(n) == [n / 0x100_0000, n / 0x1_0000 % 256, n / 0x100 % 256, n % 256]
    ensures parts == 2 && a < 256 && n < 0x100_0000 ==>
      NetworkOrder(a * 0x100_0000 + n) == [a, n / 0x1_0000, n / 0x100 % 256, n % 256]
    ensures parts == 3 && a < 256 && b < 256 && n < 0x1_0000 ==>
      NetworkOrder(a * 0x100_0000 + b * 0x1_0000 + n) == [a, b, n / 0x100, n % 256]
    ensures parts == 4 && a < 256 && b < 256 && c < 256 && n < 256 ==>
      NetworkOrder(a * 0x100_0000 + b * 0x1_0000 + c * 0x100 + n) == [a, b, c, n]
  {
    Bytes(n);
    if parts == 2 && a < 256 && n < 0x100_0000 { NetworkBytes([a, n / 0x1_0000, n / 0x100 % 256, n % 256]); }
    if parts == 3 && a < 256 && b < 256 && n < 0x1_0000 { NetworkBytes([a, b, n / 0x100, n % 256]); }
    if parts == 4 && a < 256 && b < 256 && c < 256 && n < 256 { NetworkBytes([a, b, c, n]); }
  }

  lemma Bytes(n: nat)
    ensures n == n / 0x100 * 0x100 + n % 256
    ensures n / 0x100 == n / 0x1_0000 * 0x100 + n / 0x100 % 256
    ensures n < U32 ==> n / 0x100_0000 < 256
    ensures n < 0x100_0000 ==> n / 0x1_0000 < 256
    ensures n < 0x1_0000 ==> n / 0x100 < 256
  {
  }

  // ----- the other parser -----

  /** The state of `ipstr_to_u32` while it reads: the bytes stored, how many dots, the
    * number so far in 8 bits, and how many characters. */
  function Scan(s: string, stridx: nat, q: seq<nat>, dotnum: nat, n: nat): Option<seq<nat>>
    requires |q| == 4
  {
    if Head(s) == NUL || stridx >= 15 || dotnum >= 4 then
      if dotnum >= 4 || stridx > 15 then None else Some(q[dotnum := n])
    else if s[0] == '.' then Scan(s[1..], stridx + 1, q[dotnum := n], dotnum + 1, 0)
    else if !IsDigit(s[0]) then None
    else Scan(s[1..], stridx + 1, q, dotnum, (n * 10 + (s[0] as int - '0' as int)) % 256)
  }

  /** `ipstr_to_u32`. */
  method IpstrToU32(ipstr: string, ip32: array<nat>) returns (err: int)
    requires ip32.Length == 4
    modifies ip32
    ensures err == 0 <==> Scan(ipstr, 0, old(ip32[..]), 0, 0).Some?
    ensures err == 0 || err == -1
    ensures err == 0 ==> ip32[..] == Scan(ipstr, 0, old(ip32[..]), 0, 0).value
  {
    var p := ipstr;
    var n: nat, stridx: nat, dotnum: nat := 0, 0, 0;
    while Head(p) != NUL && stridx < 15 && dotnum < 4
      invariant stridx <= 15 && dotnum <= 4
      invariant Scan(ipstr, 0, old(ip32[..]), 0, 0) == Scan(p, stridx, ip32[..], dotnum, n)
      decreases |p|
    {
      if p[0] == '.' {
        ghost var q := ip32[..];
        ip32[dotnum] := n;
        assert ip32[..] == q[dotnum := n];
        n := 0;
        dotnum := dotnum + 1;
      } else {
        if !IsDigit(p[0]) { return -1; }
        n := (n * 10 + (p[0] as int - '0' as int)) % 256;
      }
      stridx := stridx + 1;
      p := p[1..];
    }
    if dotnum >= 4 || stridx > 15 { return -1; }
    ghost var q := ip32[..];
    ip32[dotnum] := n;
    assert ip32[..] == q[dotnum := n];
    err := 0;
  }

  lemma ScanDigit(s: string, stridx: nat, q: seq<nat>, dotnum: nat, n: nat, m: nat)
    requires |q| == 4 && dotnum < 4 && stridx < 15 && s != "" && IsDigit(s[0])
    requires m == (n * 10 + (s[0] as int - '0' as int)) % 256
    ensures Scan(s, stridx, q, dotnum, n) == Scan(s[1..], stridx + 1, q, dotnum, m)
  {
  }

  lemma SameModulo(n: nat, v: nat, d: nat)
    requires n == v % 256
    ensures (n * 10 + d) % 256 == (10 * v + d) % 256
  {
    var q, x := v / 256, n * 10 + d;
    assert v == q * 256 + n && x == x / 256 * 256 + x % 256;
    assert 10 * v + d == (10 * q + x / 256) * 256 + x % 256;
    DivMod(10 * v + d, 256, 10 * q + x / 256, x % 256);
  }

  /** Digits are collected in 8 bits. */
  lemma {:induction false} ScanNumber(s: string, rest: string, stridx: nat, q: seq<nat>, dotnum: nat, n: nat, v: nat)
    requires |q| == 4 && dotnum < 4 && (forall i :: 0 <= i < |s| ==> IsDigit(s[i])) && stridx + |s| <= 15
    requires NoDigit(rest) && n == v % 256
    ensures Scan(s + rest, stridx, q, dotnum, n)
      == Scan(rest, stridx + |s|, q, dotnum, ReadDigits(s + rest, v).0 % 256)
    decreases |s|
  {
    if s == "" {
      assert s + rest == rest;
    } else {
      var t := s[1..] + rest;
      assert (s + rest)[1..] == t && (s + rest)[0] == s[0];
      var d := s[0] as int - '0' as int;
      SameModulo(n, v, d);
      ScanDigit(s + rest, stridx, q, dotnum, n, (n * 10 + d) % 256);
      hide Scan;
      ScanNumber(s[1..], rest, stridx + 1, q, dotnum, (n * 10 + d) % 256, 10 * v + d);
    }
  }

  lemma ScanPart(n: nat, rest: string, stridx: nat, q: seq<nat>, dotnum: nat)
    requires |q| == 4 && dotnum < 3 && stridx + |PrintNat(n)| < 15
    ensures Scan(PrintNat(n) + ("." + rest), stridx, q, dotnum, 0)
      == Scan(rest, stridx + |PrintNat(n)| + 1, q[dotnum := n % 256], dotnum + 1, 0)
  {
    ReadPrinted(n, "." + rest);
    ScanNumber(PrintNat(n), "." + rest, stridx, q, dotnum, 0, 0);
    assert ("." + rest)[1..] == rest;
  }

  /** Four numbers with dots, no more than 15 characters, are taken modulo 256. */
  lemma ScanNumbers(a: seq<nat>, q: seq<nat>)
    requires |a| == 4 && |q| == 4 && |Quad(a)| <= 15
    ensures Scan(Quad(a), 0, q, 0, 0) == Some([a[0] % 256, a[1] % 256, a[2] % 256, a[3] % 256])
  {
    hide Scan, PrintNat;
    var t3 := PrintNat(a[3]);
    var t2 := PrintNat(a[2]) + ("." + t3);
    var t1 := PrintNat(a[1]) + ("." + t2);
    var i1 := |PrintNat(a[0])| + 1;
    var i2 := i1 + |PrintNat(a[1])| + 1;
    var i3 := i2 + |PrintNat(a[2])| + 1;
    var q1 := q[0 := a[0] % 256];
    var q2 := q1[1 := a[1] % 256];
    var q3 := q2[2 := a[2] % 256];
    assert Quad(a) == PrintNat(a[0]) + ("." + t1) && |Quad(a)| == i3 + |t3|;
    ScanPart(a[0], t1, 0, q, 0);
    ScanPart(a[1], t2, i1, q1, 1);
    ScanPart(a[2], t3, i2, q2, 2);
    ScanLast(a[3], i3, q3);
    assert q3[3 := a[3] % 256] == [a[0] % 256, a[1] % 256, a[2] % 256, a[3] % 256];
  }

  lemma ScanLast(n: nat, stridx: nat, q: seq<nat>)
    requires |q| == 4 && stridx + |PrintNat(n)| <= 15
    ensures Scan(PrintNat(n), stridx, q, 3, 0) == Some(q[3 := n % 256])
  {
    ReadPrinted(n, "");
    assert PrintNat(n) + "" == PrintNat(n);
    ScanNumber(PrintNat(n), "", stridx, q, 3, 0, 0);
  }

  lemma ByteDigits(n: nat)
    requires n < 256
    ensures |PrintNat(n)| <= 3
  {
    var tens := n / 10;
    assert |PrintNat(n)| <= |PrintNat(tens)| + 1;
    var hundreds := tens / 10;
    assert |PrintNat(tens)| <= |PrintNat(hundreds)| + 1;
    assert hundreds < 10;
  }

  /** On printed text the other parser gives the same address. */
  lemma ScanQuad(a: seq<nat>, q: seq<nat>)
    requires IsAddr(a) && |q| == 4
    ensures Scan(Quad(a), 0, q, 0, 0) == Some(a)
  {
    hide Scan, PrintNat;
    ByteDigits(a[0]);
    ByteDigits(a[1]);
    ByteDigits(a[2]);
    ByteDigits(a[3]);
    ScanNumbers(a, q);
    assert [a[0] % 256, a[1] % 256, a[2] % 256, a[3] % 256] == a;
  }
}
