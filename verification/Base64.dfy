/** Base64 (RFC 4648, section 4): the two loops, and that decoding undoes encoding. */
module Base64 {
  import opened Arithmetic

  type byte = n: nat | n < 256

  // ----- the alphabet -----

  /** The encoding table. */
  function Letter(v: nat): char
    requires v < 64
  {
    if v < 26 then 'A' + v as char else if v < 52 then 'a' + (v - 26) as char
    else if v < 62 then '0' + (v - 52) as char else if v == 62 then '+' else '/'
  }

  predicate IsLetter(c: char) {
    'A' <= c <= 'Z' || 'a' <= c <= 'z' || '0' <= c <= '9' || c == '+' || c == '/'
  }

  /** The decoding table: a character outside the alphabet counts as 0. */
  function Sextet(c: char): (v: nat)
    ensures v < 64
  {
    if 'A' <= c <= 'Z' then c as int - 'A' as int
    else if 'a' <= c <= 'z' then c as int - 'a' as int + 26
    else if '0' <= c <= '9' then c as int - '0' as int + 52
    else if c == '+' then 62 else if c == '/' then 63 else 0
  }

  lemma Alphabet(v: nat)
    requires v < 64
    ensures IsLetter(Letter(v)) && Sextet(Letter(v)) == v
  {
  }

  lemma AlphabetBack(c: char)
    requires IsLetter(c)
    ensures Letter(Sextet(c)) == c && c != '='
  {
  }

  /** The alphabet, in order. */
  lemma AlphabetIs(v: nat)
    requires v < 64
    ensures Letter(v) == ("ABCDEFGHIJKLMNOPQRSTUVWXYZ" + "abcdefghijklmnopqrstuvwxyz" + "0123456789+/")[v]
  {
    if v < 26 { Capital(v); } else if v < 52 { Small(v - 26); } else { Other(v - 52); }
  }

  lemma Capital(v: nat)
    requires v < 26
    ensures Letter(v) == "ABCDEFGHIJKLMNOPQRSTUVWXYZ"[v]
  {
    assert v == 0 || v == 1 || v == 2 || v == 3 || v == 4 || v == 5 || v == 6 || v == 7 || v == 8
      || v == 9 || v == 10 || v == 11 || v == 12 || v == 13 || v == 14 || v == 15 || v == 16 || v == 17
      || v == 18 || v == 19 || v == 20 || v == 21 || v == 22 || v == 23 || v == 24 || v == 25;
  }

  lemma Small(v: nat)
    requires v < 26
    ensures Letter(26 + v) == "abcdefghijklmnopqrstuvwxyz"[v]
  {
    assert v == 0 || v == 1 || v == 2 || v == 3 || v == 4 || v == 5 || v == 6 || v == 7 || v == 8
      || v == 9 || v == 10 || v == 11 || v == 12 || v == 13 || v == 14 || v == 15 || v == 16 || v == 17
      || v == 18 || v == 19 || v == 20 || v == 21 || v == 22 || v == 23 || v == 24 || v == 25;
  }

  lemma Other(v: nat)
    requires v < 12
    ensures Letter(52 + v) == "0123456789+/"[v]
  {
    assert v == 0 || v == 1 || v == 2 || v == 3 || v == 4 || v == 5 || v == 6 || v == 7 || v == 8
      || v == 9 || v == 10 || v == 11;
  }

  // ----- three bytes and four letters -----

  function Letters(a: byte, b: byte, c: byte): string {
    [Letter(a / 4), Letter(a % 4 * 16 + b / 16), Letter(b % 16 * 4 + c / 64), Letter(c % 64)]
  }

  function Bytes(s: string): (r: seq<byte>)
    requires |s| == 4
    ensures |r| == 3
  {
    var v0, v1, v2, v3 := Sextet(s[0]), Sextet(s[1]), Sextet(s[2]), Sextet(s[3]);
    [v0 * 4 + v1 / 16, v1 % 16 * 16 + v2 / 4, v2 % 4 * 64 + v3]
  }

  /** The encoding of RFC 4648: three bytes at a time, one or two at the end padded. */
  function Encoded(x: seq<byte>): string {
    if x == [] then ""
    else if |x| == 1 then Letters(x[0], 0, 0)[..2] + "=="
    else if |x| == 2 then Letters(x[0], x[1], 0)[..3] + "="
    else Letters(x[0], x[1], x[2]) + Encoded(x[3..])
  }

  /** The letters are the four 6-bit digits of the 24 bits, highest first. */
  lemma LettersAreDigits(a: byte, b: byte, c: byte)
    ensures var n := a * 0x1_0000 + b * 0x100 + c;
      Letters(a, b, c) ==
        [Letter(n / 0x4_0000), Letter(n / 0x1000 % 64), Letter(n / 64 % 64), Letter(n % 64)]
  {
    var n, d := a * 0x1_0000 + b * 0x100 + c, a % 4 * 16 + b / 16;
    var e, f := b % 16 * 4 + c / 64, c % 64;
    assert n == 0x4_0000 * (a / 4) + 0x1000 * d + 64 * e + f;
    DivMod(n, 0x4_0000, a / 4, 0x1000 * d + 64 * e + f);
    DivMod(n, 0x1000, 64 * (a / 4) + d, 64 * e + f);
    DivMod(64 * (a / 4) + d, 64, a / 4, d);
    DivMod(n, 64, 0x1000 * (a / 4) + 64 * d + e, f);
    DivMod(0x1000 * (a / 4) + 64 * d + e, 64, 64 * (a / 4) + d, e);
  }

  /** "Man", "Ma" and "M". */
  lemma EncodedMan()
    ensures Encoded([77, 97, 110]) == "TWFu" && Encoded([77, 97]) == "TWE=" && Encoded([77]) == "TQ=="
  {
    var x: seq<byte> := [77, 97, 110];
    assert x[3..] == [] && Encoded([]) == "";
  }

  /** Three bytes for every four characters, padding read as 0. */
  function Expanded(s: string): seq<byte> {
    if |s| < 4 then [] else Bytes(s[..4]) + Expanded(s[4..])
  }

  lemma {:induction false} ExpandedLength(s: string, groups: nat)
    requires |s| == 4 * groups
    ensures |Expanded(s)| == 3 * groups
  {
    if groups > 0 { ExpandedLength(s[4..], groups - 1); }
  }

  /** The length of the result, from the last two characters. */
  function OutLen(s: string): nat
    requires |s| % 4 == 0 && s != ""
  {
    |s| / 4 * 3 - (if s[|s|-1] == '=' then 1 else 0) - (if s[|s|-2] == '=' then 1 else 0)
  }

  function Decoded(s: string): seq<byte>
    requires |s| % 4 == 0 && s != ""
  {
    ExpandedLength(s, |s| / 4);
    Expanded(s)[..OutLen(s)]
  }

  lemma {:induction false} EncodedLength(x: seq<byte>)
    ensures |Encoded(x)| == 4 * ((|x| + 2) / 3)
  {
    if |x| >= 3 {
      EncodedLength(x[3..]);
      EncodedGroup(x);
      hide Encoded;
      assert (|x| + 2) / 3 == (|x| - 3 + 2) / 3 + 1;
    }
  }

  /** The first three bytes make the first four characters. */
  lemma EncodedGroup(x: seq<byte>)
    requires |x| >= 3
    ensures Encoded(x) == Letters(x[0], x[1], x[2]) + Encoded(x[3..])
  {
  }

  // ----- the loops -----

  /** The encoding with zeros in place of the padding. */
  function Filled(x: seq<byte>): string {
    if x == [] then ""
    else if |x| == 1 then Letters(x[0], 0, 0)
    else if |x| == 2 then Letters(x[0], x[1], 0)
    else Letters(x[0], x[1], x[2]) + Filled(x[3..])
  }

  function Pad(x: seq<byte>): nat {
    if |x| % 3 == 0 then 0 else if |x| % 3 == 1 then 2 else 1
  }

  lemma Ahead(f: string, rest: string, pad: nat)
    requires pad <= |rest|
    ensures f + (rest[..|rest| - pad] + seq(pad, _ => '=')) == (f + rest)[..|f + rest| - pad] + seq(pad, _ => '=')
  {
  }

  lemma FilledGroup(x: seq<byte>)
    requires |x| >= 3
    ensures Filled(x) == Letters(x[0], x[1], x[2]) + Filled(x[3..])
  {
  }

  lemma PadGroup(x: seq<byte>)
    requires |x| >= 3
    ensures Pad(x[3..]) == Pad(x)
  {
    assert (|x| - 3) % 3 == |x| % 3;
  }

  lemma {:induction false} PaddedIsEncoded(x: seq<byte>)
    ensures |Filled(x)| == |Encoded(x)| >= Pad(x)
    ensures Encoded(x) == Filled(x)[..|Filled(x)| - Pad(x)] + seq(Pad(x), _ => '=')
  {
    hide Letters, Encoded, Filled, Pad;
    if |x| >= 3 {
      PaddedIsEncoded(x[3..]);
      EncodedGroup(x);
      FilledGroup(x);
      PadGroup(x);
      Ahead(Letters(x[0], x[1], x[2]), Filled(x[3..]), Pad(x));
    } else {
      PaddedEnd(x);
    }
  }

  lemma PaddedEnd(x: seq<byte>)
    requires |x| < 3
    ensures |Filled(x)| == |Encoded(x)| >= Pad(x)
    ensures Encoded(x) == Filled(x)[..|Filled(x)| - Pad(x)] + seq(Pad(x), _ => '=')
  {
    if |x| == 1 {
      assert seq(2, _ => '=') == "==";
    } else if |x| == 2 {
      assert seq(1, _ => '=') == "=";
    } else {
      assert Filled(x) == "" && seq(0, _ => '=') == "";
    }
  }

  /** `(n >> k) & mask`, with `d` for the shift and `m` for one more than the mask. */
  function Taken(n: nat, d: nat, m: nat): nat
    requires d > 0 && m > 0
  {
    n / d % m
  }

  lemma TakenIs(n: nat, d: nat, m: nat, high: nat, mid: nat, low: nat)
    requires low < d && mid < m && n == (high * m + mid) * d + low
    ensures Taken(n, d, m) == mid
  {
    DivMod(n, d, high * m + mid, low);
    DivMod(high * m + mid, m, high, mid);
  }

  function Triple(a: byte, b: byte, c: byte): nat {
    a * 0x1_0000 + b * 0x100 + c
  }

  /** The four letters of a triple, as the shifts and masks take them out. */
  lemma TripleLetters(a: byte, b: byte, c: byte)
    ensures var t := Triple(a, b, c);
      && Taken(t, 0x4_0000, 64) == a / 4 && Taken(t, 0x1000, 64) == a % 4 * 16 + b / 16
      && Taken(t, 64, 64) == b % 16 * 4 + c / 64 && Taken(t, 1, 64) == c % 64
  {
    hide Taken;
    var a1, a0, b1, b0, c1, c0 := a / 4, a % 4, b / 16, b % 16, c / 64, c % 64;
    var t := Triple(a, b, c);
    assert a == 4 * a1 + a0 && b == 16 * b1 + b0 && c == 64 * c1 + c0;
    TakenIs(t, 0x4_0000, 64, 0, a1, a0 * 0x1_0000 + b * 0x100 + c);
    TakenIs(t, 0x1000, 64, a1, a0 * 16 + b1, b0 * 0x100 + c);
    TakenIs(t, 64, 64, a1 * 64 + a0 * 16 + b1, b0 * 4 + c1, c0);
    TakenIs(t, 1, 64, a * 1024 + b * 4 + c1, c0, 0);
  }

  function Quartet(v0: nat, v1: nat, v2: nat, v3: nat): nat {
    v0 * 0x4_0000 + v1 * 0x1000 + v2 * 64 + v3
  }

  /** The three bytes of four sextets. */
  lemma QuartetBytes(v0: nat, v1: nat, v2: nat, v3: nat)
    requires v0 < 64 && v1 < 64 && v2 < 64 && v3 < 64
    ensures var t := Quartet(v0, v1, v2, v3);
      && Taken(t, 0x1_0000, 256) == v0 * 4 + v1 / 16 && Taken(t, 0x100, 256) == v1 % 16 * 16 + v2 / 4
      && Taken(t, 1, 256) == v2 % 4 * 64 + v3
  {
    hide Taken;
    var p1, p0, q1, q0 := v1 / 16, v1 % 16, v2 / 4, v2 % 4;
    var t := Quartet(v0, v1, v2, v3);
    assert v1 == 16 * p1 + p0 && v2 == 4 * q1 + q0;
    TakenIs(t, 0x1_0000, 256, 0, v0 * 4 + p1, p0 * 0x1000 + v2 * 64 + v3);
    TakenIs(t, 0x100, 256, v0 * 4 + p1, p0 * 16 + q1, q0 * 64 + v3);
    TakenIs(t, 1, 256, v0 * 1024 + v1 * 16 + q1, q0 * 64 + v3, 0);
  }

  /** `base64_encode`. */
  method Base64Encode(input: seq<byte>, output: array<char>) returns (output_len: nat)
    requires output.Length >= 4 * ((|input| + 2) / 3)
    modifies output
    ensures output_len == 4 * ((|input| + 2) / 3) && output[..output_len] == Encoded(input)
    ensures output[output_len..] == old(output[output_len..])
  {
    output_len := 4 * ((|input| + 2) / 3);
    EncodedLength(input);
    PaddedIsEncoded(input);
    FillGroups(input, output, output_len);
    PadEnd(output, output_len, Pad(input));
  }

  /** The first loop of `base64_encode`. */
  method FillGroups(input: seq<byte>, output: array<char>, o_len: nat)
    requires o_len == |Filled(input)| <= output.Length
    modifies output
    ensures output[..o_len] == Filled(input) && output[o_len..] == old(output[o_len..])
  {
    FilledEnds();
    hide Letters, Filled;
    var i, j := 0, 0;
    while i < |input|
      invariant i <= |input| && j + |Filled(input[i..])| == o_len
      invariant Filled(input) == output[..j] + Filled(input[i..])
      invariant output[o_len..] == old(output[o_len..])
    {
      ghost var x, before := input[i..], output[..j];
      FilledStep(x);
      var octet_a: nat, octet_b: nat, octet_c: nat := input[i], 0, 0;
      i := i + 1;
      if i < |input| { octet_b := input[i]; i := i + 1; }
      if i < |input| { octet_c := input[i]; i := i + 1; }
      assert input[i..] == x[if |x| < 3 then |x| else 3..];
      Join(before, Letters(octet_a, octet_b, octet_c), Filled(input[i..]));
      PutTriple(output, j, octet_a, octet_b, octet_c);
      j := j + 4;
    }
    assert input[i..] == [];
  }

  lemma Join(a: string, b: string, c: string)
    ensures a + (b + c) == (a + b) + c
  {
  }

  lemma FilledEnds()
    ensures Filled([]) == ""
  {
  }

  /** The zeros that stand in for missing bytes. */
  lemma FilledStep(x: seq<byte>)
    requires x != []
    ensures var b, c := if |x| > 1 then x[1] else 0, if |x| > 2 then x[2] else 0;
      |Letters(x[0], b, c)| == 4 && Filled(x) == Letters(x[0], b, c) + Filled(x[if |x| < 3 then |x| else 3..])
  {
  }

  method PutTriple(output: array<char>, j: nat, octet_a: byte, octet_b: byte, octet_c: byte)
    requires j + 4 <= output.Length
    modifies output
    ensures output[..j+4] == old(output[..j]) + Letters(octet_a, octet_b, octet_c)
    ensures output[j+4..] == old(output[j+4..])
  {
    hide Letter, Taken, Triple;
    var triple := Triple(octet_a, octet_b, octet_c);
    TripleLetters(octet_a, octet_b, octet_c);
    output[j] := Letter(Taken(triple, 0x4_0000, 64));
    output[j+1] := Letter(Taken(triple, 0x1000, 64));
    output[j+2] := Letter(Taken(triple, 64, 64));
    output[j+3] := Letter(Taken(triple, 1, 64));
  }

  /** The second loop: the padding replaces the letters of missing bytes. */
  method PadEnd(output: array<char>, o_len: nat, pad: nat)
    requires pad <= o_len <= output.Length
    modifies output
    ensures output[..o_len] == old(output[..o_len - pad]) + seq(pad, _ => '=')
    ensures output[o_len..] == old(output[o_len..])
  {
    var i := 0;
    while i < pad
      invariant 0 <= i <= pad
      invariant forall k :: 0 <= k < output.Length ==>
        output[k] == if o_len - i <= k < o_len then '=' else old(output[k])
    {
      output[o_len - 1 - i] := '=';
      i := i + 1;
    }
  }

  function Least(a: nat, b: nat): nat {
    if a < b then a else b
  }

  /** The three bytes of four characters, as far as there is room. */
  method PutQuartet(output: array<nat>, at: nat, o_len: nat, s: string) returns (j: nat)
    requires at <= o_len <= output.Length && |s| == 4
    modifies output
    ensures j == Least(at + 3, o_len)
    ensures output[..j] == old(output[..at]) + Bytes(s)[..j - at]
    ensures output[o_len..] == old(output[o_len..])
  {
    hide Sextet, Taken, Quartet;
    var a, b, c, d := Sextet(s[0]), Sextet(s[1]), Sextet(s[2]), Sextet(s[3]);
    var triple := Quartet(a, b, c, d);
    QuartetBytes(a, b, c, d);
    j := at;
    if j < o_len { output[j] := Taken(triple, 0x1_0000, 256); j := j + 1; }
    if j < o_len { output[j] := Taken(triple, 0x100, 256); j := j + 1; }
    if j < o_len { output[j] := Taken(triple, 1, 256); j := j + 1; }
  }

  /** `base64_decode`. */
  method Base64Decode(input: string, output: array<nat>) returns (output_len: nat)
    requires |input| % 4 == 0 && input != "" && output.Length >= OutLen(input)
    modifies output
    ensures output_len == OutLen(input) && output[..output_len] == Decoded(input)
    ensures output[output_len..] == old(output[output_len..])
  {
    output_len := |input| / 4 * 3;
    if input[|input|-1] == '=' { output_len := output_len - 1; }
    if input[|input|-2] == '=' { output_len := output_len - 1; }
    DecodeGroups(input, output, output_len, |input| / 4);
  }

  /** The loop of `base64_decode`. */
  method DecodeGroups(input: string, output: array<nat>, o_len: nat, ghost groups: nat)
    requires |input| == 4 * groups && o_len <= 3 * groups && o_len <= output.Length
    modifies output
    ensures o_len <= |Expanded(input)| && output[..o_len] == Expanded(input)[..o_len]
    ensures output[o_len..] == old(output[o_len..])
  {
    hide Bytes, Expanded;
    var i, j := 0, 0;
    ghost var all, g := Expanded(input), 0;
    ExpandedLength(input, groups);
    while i < |input|
      invariant i == 4 * g && 0 <= g <= groups
      invariant j == Least(3 * g, o_len)
      invariant all[3 * g..] == Expanded(input[i..])
      invariant output[..j] == all[..j]
      invariant output[o_len..] == old(output[o_len..])
    {
      NextQuartet(input, i, all, g);
      ghost var at, bytes := j, Bytes(input[i..i+4]);
      j := PutQuartet(output, j, o_len, input[i..i+4]);
      if at == 3 * g { MoreOf(all, at, bytes, j); }
      i, g := i + 4, g + 1;
    }
  }

  lemma MoreOf(all: seq<byte>, at: nat, bytes: seq<byte>, j: nat)
    requires at + |bytes| <= |all| && all[at..at + |bytes|] == bytes && at <= j <= at + |bytes|
    ensures all[..j] == all[..at] + bytes[..j - at]
  {
    assert bytes[..j - at] == all[at..j];
  }

  lemma NextQuartet(s: string, i: nat, all: seq<byte>, g: nat)
    requires i + 4 <= |s| && 3 * g <= |all| && all[3 * g..] == Expanded(s[i..])
    ensures 3 * g + 3 <= |all|
    ensures Bytes(s[i..i+4]) == all[3 * g..3 * g + 3] && all[3 * (g + 1)..] == Expanded(s[i+4..])
  {
    assert s[i..][..4] == s[i..i+4] && s[i..][4..] == s[i+4..];
    hide Bytes;
    assert all[3 * g..][..3] == Bytes(s[i..i+4]);
    assert all[3 * g..][3..] == Expanded(s[i+4..]);
  }

  // ----- decoding undoes encoding -----

  lemma LettersAndBytes(a: byte, b: byte, c: byte)
    ensures Bytes(Letters(a, b, c)) == [a, b, c]
    ensures forall i :: 0 <= i < 4 ==> IsLetter(Letters(a, b, c)[i])
  {
    hide Letter, Sextet, IsLetter;
    var v0, v1, v2, v3 := a / 4, a % 4 * 16 + b / 16, b % 16 * 4 + c / 64, c % 64;
    Alphabet(v0);
    Alphabet(v1);
    Alphabet(v2);
    Alphabet(v3);
    Ungroup(a, b, c);
  }

  lemma Ungroup(a: byte, b: byte, c: byte)
    ensures var v0, v1, v2, v3 := a / 4, a % 4 * 16 + b / 16, b % 16 * 4 + c / 64, c % 64;
      v0 * 4 + v1 / 16 == a && v1 % 16 * 16 + v2 / 4 == b && v2 % 4 * 64 + v3 == c
  {
    DivMod(a % 4 * 16 + b / 16, 16, a % 4, b / 16);
    DivMod(b % 16 * 4 + c / 64, 4, b % 16, c / 64);
  }

  /** Without padding in the first four characters, they are decoded on their own. */
  lemma DecodedStep(q: string, t: string)
    requires |q| == 4 && t != "" && |t| % 4 == 0
    ensures |q + t| % 4 == 0 && Decoded(q + t) == Bytes(q) + Decoded(t)
  {
    assert (q + t)[..4] == q && (q + t)[4..] == t;
    hide Bytes;
    ExpandedLength(t, |t| / 4);
    assert OutLen(q + t) == 3 + OutLen(t);
  }

  lemma DecodedLast(q: string)
    requires |q| == 4
    ensures Decoded(q) == Bytes(q)[..OutLen(q)]
  {
    assert q[..4] == q && q[4..] == "";
    assert Expanded(q) == Bytes(q);
  }

  /** The padded letters of one or two bytes give them back. */
  lemma OneOrTwo(x: seq<byte>)
    requires 1 <= |x| <= 2
    ensures |Encoded(x)| == 4 && Decoded(Encoded(x)) == x
  {
    var b := if |x| == 2 then x[1] else 0;
    LettersAndBytes(x[0], b, 0);
    DecodedLast(Encoded(x));
    assert !IsLetter('=');
  }

  /** `base64_decode` undoes `base64_encode` on everything but the empty input. */
  lemma {:induction false} DecodeEncode(x: seq<byte>)
    requires x != []
    ensures Encoded(x) != "" && |Encoded(x)| % 4 == 0 && Decoded(Encoded(x)) == x
    decreases |x|
  {
    if |x| <= 2 {
      EncodedLength(x);
      OneOrTwo(x);
    } else if |x| == 3 {
      JustThree(x);
    } else {
      DecodeEncode(x[3..]);
      ThreeMore(x);
    }
  }

  lemma JustThree(x: seq<byte>)
    requires |x| == 3
    ensures |Encoded(x)| == 4 && Decoded(Encoded(x)) == x
  {
    var q := Letters(x[0], x[1], x[2]);
    LettersAndBytes(x[0], x[1], x[2]);
    assert !IsLetter('=');
    EncodedGroup(x);
    assert x[3..] == [] && q + Encoded([]) == q;
    DecodedLast(q);
  }

  /** Three bytes in front are four characters in front. */
  lemma ThreeMore(x: seq<byte>)
    requires |x| > 3
    requires var t := Encoded(x[3..]); t != "" && |t| % 4 == 0 && Decoded(t) == x[3..]
    ensures Encoded(x) != "" && |Encoded(x)| % 4 == 0 && Decoded(Encoded(x)) == x
  {
    hide Encoded, Decoded, Bytes, Letter;
    EncodedGroup(x);
    var q, t := Letters(x[0], x[1], x[2]), Encoded(x[3..]);
    LettersAndBytes(x[0], x[1], x[2]);
    DecodedStep(q, t);
    assert [x[0], x[1], x[2]] + x[3..] == x;
  }

  // ----- which texts are encodings -----

  /** The last four characters: letters, or padding behind a letter whose unused bits
    * are zero. */
  predicate Ends(q: string)
    requires |q| == 4
  {
    && IsLetter(q[0]) && IsLetter(q[1])
    && (|| (IsLetter(q[2]) && IsLetter(q[3]))
        || (IsLetter(q[2]) && Sextet(q[2]) % 4 == 0 && q[3] == '=')
        || (Sextet(q[1]) % 16 == 0 && q[2] == '=' && q[3] == '='))
  }

  predicate Canonical(s: string) {
    if |s| < 4 then false
    else if |s| == 4 then Ends(s)
    else (forall i :: 0 <= i < 4 ==> IsLetter(s[i])) && Canonical(s[4..])
  }

  lemma BytesAndLetters(q: string)
    requires |q| == 4 && Ends(q)
    ensures Encoded(Bytes(q)[..OutLen(q)]) == q
  {
    hide Letter, Sextet, IsLetter;
    var v0, v1, v2, v3 := Sextet(q[0]), Sextet(q[1]), Sextet(q[2]), Sextet(q[3]);
    NotPadding();
    AlphabetBack(q[0]);
    AlphabetBack(q[1]);
    if IsLetter(q[2]) { AlphabetBack(q[2]); }
    if IsLetter(q[3]) { AlphabetBack(q[3]); }
    Regroup(v0, v1, v2, v3);
    var b := Bytes(q);
    if OutLen(q) == 3 {
      assert b[..3] == b && b[3..] == [];
      assert Letters(b[0], b[1], b[2]) + Encoded([]) == q;
    }
  }

  lemma NotPadding()
    ensures !IsLetter('=') && Sextet('=') == 0
  {
  }

  lemma Regroup(v0: nat, v1: nat, v2: nat, v3: nat)
    requires v0 < 64 && v1 < 64 && v2 < 64 && v3 < 64
    ensures var a, b, c := v0 * 4 + v1 / 16, v1 % 16 * 16 + v2 / 4, v2 % 4 * 64 + v3;
      a / 4 == v0 && a % 4 * 16 + b / 16 == v1 && b % 16 * 4 + c / 64 == v2 && c % 64 == v3
  {
  }

  lemma {:induction false} EncodeDecode(s: string)
    requires Canonical(s)
    ensures |s| % 4 == 0 && Encoded(Decoded(s)) == s
    decreases |s|
  {
    if |s| == 4 {
      DecodedLast(s);
      BytesAndLetters(s);
    } else {
      var q, t := s[..4], s[4..];
      EncodeDecode(t);
      assert s == q + t;
      DecodedStep(q, t);
      NotPadding();
      BytesAndLetters(q);
      WholeGroup(q, Decoded(t));
    }
  }

  lemma WholeGroup(q: string, x: seq<byte>)
    requires |q| == 4 && Encoded(Bytes(q)) == q
    ensures Encoded(Bytes(q) + x) == q + Encoded(x)
  {
    var b := Bytes(q);
    assert (b + x)[3..] == x && b[3..] == [];
    assert Letters(b[0], b[1], b[2]) + Encoded([]) == Letters(b[0], b[1], b[2]);
  }

  lemma {:induction false} EncodedIsCanonical(x: seq<byte>)
    requires x != []
    ensures Canonical(Encoded(x))
    decreases |x|
  {
    hide Letter, Sextet, IsLetter;
    var b, c := if |x| > 1 then x[1] else 0, if |x| > 2 then x[2] else 0;
    LettersAndBytes(x[0], b, c);
    Alphabet(x[0] % 4 * 16 + b / 16);
    Alphabet(b % 16 * 4 + c / 64);
    if |x| == 3 {
      assert Encoded(x) == Letters(x[0], b, c);
    } else if |x| > 3 {
      EncodedIsCanonical(x[3..]);
      assert Encoded(x)[4..] == Encoded(x[3..]);
    }
  }

  /** Encoding undoes decoding exactly on the texts in canonical form. */
  lemma CanonicalExactly(s: string)
    requires s != "" && |s| % 4 == 0
    ensures Encoded(Decoded(s)) == s <==> Canonical(s)
  {
    if Canonical(s) {
      EncodeDecode(s);
    } else if Encoded(Decoded(s)) == s {
      EncodedIsCanonical(Decoded(s));
    }
  }
}
