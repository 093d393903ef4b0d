/** Text operations under the JSON utilities: case-insensitive comparison, JSON
  * Pointer escaping (RFC 6901, sections 3 and 4) and decimal numbers.
  *
  * A C string is a `string` without its terminator; reading one past the end
  * yields NUL (`CharAt`).  Only the ASCII letters have case.
  */
module JsonText {
  import opened Wrappers

  const NUL: char := '\0'

  /** What a C string holds: every character before the terminator. */
  predicate IsCString(s: string) {
    forall i :: 0 <= i < |s| ==> s[i] != NUL
  }

  function CharAt(s: string, i: nat): char
    requires i <= |s|
  {
    if i < |s| then s[i] else NUL
  }

  // ----- letter case -----

  function ToLower(c: char): char {
    if 'A' <= c <= 'Z' then (c as int + 32) as char else c
  }

  function Lower(s: string): string {
    seq(|s|, i requires 0 <= i < |s| => ToLower(s[i]))
  }

  predicate SameKey(a: string, b: string) {
    Lower(a) == Lower(b)
  }

  function CharDiff(a: char, b: char): int { a as int - b as int }

  /** `strcmp`: the sign tells the order, zero means equal. */
  function StrCmp(a: string, b: string): int {
    if a == "" && b == "" then 0
    else if a == "" then CharDiff(NUL, b[0])
    else if b == "" then CharDiff(a[0], NUL)
    else if a[0] == b[0] then StrCmp(a[1..], b[1..])
    else CharDiff(a[0], b[0])
  }

  /** The case-insensitive order is `strcmp` on lower-cased text. */
  function StrCaseCmp(a: string, b: string): int {
    StrCmp(Lower(a), Lower(b))
  }

  lemma {:induction false} StrCmpZero(a: string, b: string)
    requires IsCString(a) && IsCString(b)
    ensures StrCmp(a, b) == 0 <==> a == b
  {
    if a != "" && b != "" && a[0] == b[0] {
      StrCmpZero(a[1..], b[1..]);
      assert a == [a[0]] + a[1..] && b == [b[0]] + b[1..];
    }
  }

  lemma {:induction false} StrCmpAntisymmetric(a: string, b: string)
    ensures StrCmp(a, b) == -StrCmp(b, a)
  {
    if a != "" && b != "" && a[0] == b[0] {
      StrCmpAntisymmetric(a[1..], b[1..]);
    }
  }

  lemma {:induction false} StrCmpTransitive(a: string, b: string, c: string)
    requires IsCString(a) && IsCString(b) && IsCString(c)
    requires StrCmp(a, b) <= 0 && StrCmp(b, c) <= 0
    ensures StrCmp(a, c) <= 0
    ensures StrCmp(a, b) < 0 || StrCmp(b, c) < 0 ==> StrCmp(a, c) < 0
  {
    if a != "" && b != "" && c != "" && a[0] == b[0] == c[0] {
      StrCmpTransitive(a[1..], b[1..], c[1..]);
    }
  }

  lemma LowerIsCString(s: string)
    requires IsCString(s)
    ensures IsCString(Lower(s))
  {
  }

  /** The comparison answers 0 exactly for keys that differ in case only. */
  lemma StrCaseCmpZero(a: string, b: string)
    requires IsCString(a) && IsCString(b)
    ensures StrCaseCmp(a, b) == 0 <==> SameKey(a, b)
  {
    LowerIsCString(a);
    LowerIsCString(b);
    StrCmpZero(Lower(a), Lower(b));
  }

  /** `cJSONUtils_strcasecmp`: one cursor moves down both strings. */
  method StrCaseCmpLoop(s1: string, s2: string) returns (r: int)
    requires IsCString(s1) && IsCString(s2)
    ensures r == StrCaseCmp(s1, s2)
  {
    LowerIsCString(s1);
    LowerIsCString(s2);
    var i := 0;
    while ToLower(CharAt(s1, i)) == ToLower(CharAt(s2, i))
      invariant 0 <= i <= |s1| && i <= |s2|
      invariant StrCmp(Lower(s1)[i..], Lower(s2)[i..]) == StrCaseCmp(s1, s2)
      decreases |s1| - i
    {
      if CharAt(s1, i) == NUL {
        return 0;
      }
      i := i + 1;
    }
    r := CharDiff(ToLower(CharAt(s1, i)), ToLower(CharAt(s2, i)));
  }

  // ----- pointer tokens -----

  /** Escapes '~' as "~0" and '/' as "~1" (RFC 6901, section 3). */
  function Encode(s: string): string {
    if s == "" then ""
    else (if s[0] == '/' then "~1" else if s[0] == '~' then "~0" else [s[0]]) + Encode(s[1..])
  }

  function EncodedLength(s: string): nat {
    if s == "" then 0
    else (if s[0] == '/' || s[0] == '~' then 2 else 1) + EncodedLength(s[1..])
  }

  lemma {:induction false} EncodeSplit(s: string, k: nat)
    requires k <= |s|
    ensures Encode(s) == Encode(s[..k]) + Encode(s[k..])
    ensures EncodedLength(s) == EncodedLength(s[..k]) + EncodedLength(s[k..])
  {
    if k == 0 {
      assert s[..0] == "" && s[0..] == s;
    } else {
      EncodeSplit(s[1..], k - 1);
      assert s[1..][..k-1] == s[..k][1..] && s[1..][k-1..] == s[k..];
    }
  }

  lemma EncodeStep(s: string, k: nat)
    requires k < |s|
    ensures Encode(s[..k+1]) == Encode(s[..k]) + Encode([s[k]])
    ensures EncodedLength(s[..k+1]) == EncodedLength(s[..k]) + EncodedLength([s[k]])
  {
    EncodeSplit(s[..k+1], k);
    assert s[..k+1][..k] == s[..k] && s[..k+1][k..] == [s[k]];
  }

  /** The buffer size the callers allocate is the length of what is written. */
  lemma {:induction false} EncodedLengthExact(s: string)
    ensures |Encode(s)| == EncodedLength(s)
  {
    if s != "" { EncodedLengthExact(s[1..]); }
  }

  /** `cJSONUtils_PointerEncodedstrlen`. */
  method PointerEncodedStrlen(s: string) returns (l: nat)
    ensures l == |Encode(s)|
  {
    l := 0;
    var i := 0;
    while i < |s|
      invariant 0 <= i <= |s| && l == EncodedLength(s[..i])
    {
      EncodeStep(s, i);
      if s[i] == '~' || s[i] == '/' {
        l := l + 1;
      }
      i, l := i + 1, l + 1;
    }
    assert s[..|s|] == s;
    EncodedLengthExact(s);
  }

  /** `cJSONUtils_PointerEncodedstrcpy`: writes the escaped text and the
    * terminator at `d`, and touches nothing else of the buffer. */
  method PointerEncodedStrcpy(buf: array<char>, d: nat, s: string)
    requires d + |Encode(s)| < buf.Length
    modifies buf
    ensures var end := d + |Encode(s)|;
      buf[..end] == old(buf[..d]) + Encode(s) && buf[end] == NUL && buf[end+1..] == old(buf[end+1..])
  {
    hide Encode;
    ghost var out := Encode(s);
    var i, p := 0, d;
    EncodePrefix(s, 0);
    while i < |s|
      invariant 0 <= i <= |s|
      invariant p == d + |Encode(s[..i])| <= d + |out|
      invariant forall k :: 0 <= k < p - d ==> buf[d+k] == out[k]
      invariant forall k :: 0 <= k < d || p <= k < buf.Length ==> buf[k] == old(buf[k])
    {
      EncodePrefix(s, i);
      if s[i] == '/' {
        buf[p], buf[p+1], p := '~', '1', p + 2;
      } else if s[i] == '~' {
        buf[p], buf[p+1], p := '~', '0', p + 2;
      } else {
        buf[p], p := s[i], p + 1;
      }
      i := i + 1;
    }
    assert s[..|s|] == s;
    buf[p] := NUL;
    assert buf[..p] == old(buf[..d]) + out;
  }

  /** Where the escaped character `i` lands in the escaped text. */
  lemma EncodePrefix(s: string, i: nat)
    requires i <= |s|
    ensures var out, p := Encode(s), |Encode(s[..i])|;
      && (i == 0 ==> p == 0)
      && p <= |out|
      && (i < |s| && s[i] == '/' ==> |Encode(s[..i+1])| == p + 2 <= |out| && out[p] == '~' && out[p+1] == '1')
      && (i < |s| && s[i] == '~' ==> |Encode(s[..i+1])| == p + 2 <= |out| && out[p] == '~' && out[p+1] == '0')
      && (i < |s| && s[i] != '/' && s[i] != '~' ==> |Encode(s[..i+1])| == p + 1 <= |out| && out[p] == s[i])
  {
    EncodeSplit(s, i);
    if i < |s| {
      EncodeStep(s, i);
    }
  }

  /** Reverses the escaping; None when a '~' ends the text, where the C loop
    * steps over the terminator. */
  function Decode(s: string): Option<string> {
    if s == "" then Some("")
    else if s[0] != '~' then
      var rest := Decode(s[1..]);
      if rest.None? then None else Some([s[0]] + rest.value)
    else if |s| == 1 then None
    else
      var rest := Decode(s[2..]);
      if rest.None? then None else Some([if s[1] == '0' then '~' else '/'] + rest.value)
  }

  /** Escaping loses nothing. */
  lemma {:induction false} DecodeEncode(s: string)
    ensures Decode(Encode(s)) == Some(s)
  {
    if s != "" {
      DecodeEncode(s[1..]);
      var head := if s[0] == '/' then "~1" else if s[0] == '~' then "~0" else [s[0]];
      assert Encode(s)[|head|..] == Encode(s[1..]);
      assert [s[0]] + s[1..] == s;
    }
  }

  /** Behind a '~' a '0' stands for '~', and any other character for '/'. */
  lemma Escapes(c: char)
    ensures Encode("~") == "~0" && Encode("/") == "~1"
    ensures Decode(['~', c]) == Some(if c == '0' then "~" else "/") && Decode("~") == None
  {
    var s := ['~', c];
    assert s[2..] == "" && Decode("") == Some("");
    assert "~"[0] == '~' && ['~'] + "" == "~" && ['/'] + "" == "/";
  }

  /** Decoding never lengthens the text, which is why it can be done in place. */
  lemma {:induction false} DecodeShrinks(s: string)
    ensures Decode(s).Some? ==> |Decode(s).value| <= |s|
  {
    if s != "" && s[0] != '~' {
      DecodeShrinks(s[1..]);
    } else if |s| > 1 {
      DecodeShrinks(s[2..]);
    }
  }

  /** `cJSONUtils_InplaceDecodePointerString`: the read cursor runs ahead of the
    * write cursor in the same buffer of `len` characters and a terminator. */
  method InplaceDecodePointerString(buf: array<char>, len: nat)
    requires len < buf.Length && IsCString(buf[..len]) && buf[len] == NUL
    requires Decode(buf[..len]).Some?
    modifies buf
    ensures var out := Decode(old(buf[..len])).value;
            |out| <= len && buf[..|out|] == out && buf[|out|] == NUL
    ensures buf[len+1..] == old(buf[len+1..])
  {
    ghost var text := buf[..len];
    ghost var out := Decode(text).value;
    DecodeShrinks(text);
    assert text[0..] == text && out[0..] == out;
    hide Decode;
    var w, r := 0, 0;
    while buf[r] != NUL
      invariant 0 <= w <= r <= len && w <= |out|
      invariant forall k :: r <= k < len ==> buf[k] == text[k]
      invariant forall k :: len <= k < buf.Length ==> buf[k] == old(buf[k])
      invariant forall k :: 0 <= k < w ==> buf[k] == out[k]
      invariant Decode(text[r..]) == Some(out[w..])
      decreases len - r
    {
      assert r < len;
      DecodeNext(text, r, out, w);
      var c := buf[r];
      if c == '~' {
        r := r + 1;
        c := if buf[r] == '0' then '~' else '/';
      }
      buf[w] := c;
      w, r := w + 1, r + 1;
    }
    assert text[r..] == "";
    DecodeNothing(out, w);
    buf[w] := NUL;
    assert buf[..w] == out;
  }

  /** One step of decoding, at position `r` of the text and `w` of the result. */
  lemma DecodeNext(text: string, r: nat, out: string, w: nat)
    requires r < |text| && w <= |out| && Decode(text[r..]) == Some(out[w..])
    ensures w < |out|
    ensures text[r] != '~' ==> out[w] == text[r] && Decode(text[r+1..]) == Some(out[w+1..])
    ensures text[r] == '~' ==>
      && r + 1 < |text| && out[w] == (if text[r+1] == '0' then '~' else '/')
      && Decode(text[r+2..]) == Some(out[w+1..])
  {
    var unread, expected := text[r..], out[w..];
    if text[r] != '~' {
      assert unread[1..] == text[r+1..];
      assert expected == [text[r]] + Decode(text[r+1..]).value;
    } else {
      assert unread[2..] == text[r+2..];
      assert expected == [if text[r+1] == '0' then '~' else '/'] + Decode(text[r+2..]).value;
    }
    assert expected[0] == out[w] && expected[1..] == out[w+1..];
  }

  lemma DecodeNothing(out: string, w: nat)
    requires w <= |out| && Decode("") == Some(out[w..])
    ensures w == |out|
  {
  }

  /** `cJSONUtils_Pstrcasecmp(a, e) == 0`: key `a` against the escaped token at
    * the start of `e`, which runs to the next '/' or the end. */
  predicate TokenMatches(a: string, e: string) {
    if a == "" || e == "" || e[0] == '/' then
      (e != "" && e[0] != '/') == (a != "")
    else if e[0] == '~' then
      && |e| > 1
      && ((e[1] == '0' && a[0] == '~') || (e[1] == '1' && a[0] == '/'))
      && TokenMatches(a[1..], e[2..])
    else
      ToLower(a[0]) == ToLower(e[0]) && TokenMatches(a[1..], e[1..])
  }

  method Pstrcasecmp(a: string, e: string) returns (r: int)
    requires IsCString(a) && IsCString(e)
    ensures r == 0 || r == 1
    ensures r == 0 <==> TokenMatches(a, e)
  {
    var i, j := 0, 0;
    while CharAt(a, i) != NUL && CharAt(e, j) != NUL && CharAt(e, j) != '/'
      invariant 0 <= i <= |a| && 0 <= j <= |e|
      invariant TokenMatches(a, e) == TokenMatches(a[i..], e[j..])
      decreases |a| - i
    {
      if e[j] == '~' {
        if !(CharAt(e, j + 1) == '0' && a[i] == '~') && !(CharAt(e, j + 1) == '1' && a[i] == '/') {
          return 1;
        } else {
          j := j + 1;
        }
      } else if ToLower(a[i]) != ToLower(e[j]) {
        return 1;
      }
      i, j := i + 1, j + 1;
    }
    if (CharAt(e, j) != NUL && CharAt(e, j) != '/') != (CharAt(a, i) != NUL) {
      return 1;
    }
    return 0;
  }

  predicate AtTokenEnd(rest: string) {
    rest == "" || rest[0] == '/'
  }

  /** An escaped key is matched by the keys equal to it ignoring case, and by no
    * others, whatever follows it in the pointer. */
  lemma {:induction false} TokenMatchesEncoded(a: string, b: string, rest: string)
    requires AtTokenEnd(rest)
    ensures TokenMatches(a, Encode(b) + rest) <==> SameKey(a, b)
  {
    var e := Encode(b) + rest;
    if b == "" {
      assert e == rest;
      assert |Lower(a)| == |a| && |Lower(b)| == 0;
    } else if a == "" {
      assert e != "" && e[0] != '/';
      assert |Lower(a)| == 0 && |Lower(b)| == |b|;
    } else {
      TokenMatchesEncoded(a[1..], b[1..], rest);
      var head := if b[0] == '/' then "~1" else if b[0] == '~' then "~0" else [b[0]];
      assert e[|head|..] == Encode(b[1..]) + rest;
      LowerCons(a);
      LowerCons(b);
    }
  }

  lemma LowerCons(s: string)
    requires s != ""
    ensures Lower(s) == [ToLower(s[0])] + Lower(s[1..])
    ensures Lower(s)[1..] == Lower(s[1..]) && Lower(s)[0] == ToLower(s[0])
  {
  }

  /** The rest of a pointer after its first token. */
  function AfterToken(p: string): string {
    if AtTokenEnd(p) then p else AfterToken(p[1..])
  }

  lemma {:induction false} AfterTokenEncoded(b: string, rest: string)
    requires AtTokenEnd(rest)
    ensures AfterToken(Encode(b) + rest) == rest
  {
    if b == "" {
      assert Encode(b) + rest == rest;
    } else {
      AfterTokenEncoded(b[1..], rest);
      var tail := Encode(b[1..]) + rest;
      EncodeFirst(b, rest);
      hide Encode, AfterToken;
      if b[0] == '/' || b[0] == '~' {
        var c := if b[0] == '/' then '1' else '0';
        AfterOne('~', [c] + tail);
        AfterOne(c, tail);
      } else {
        AfterOne(b[0], tail);
      }
    }
  }

  lemma EncodeFirst(b: string, rest: string)
    requires b != ""
    ensures var tail := Encode(b[1..]) + rest;
      Encode(b) + rest ==
        if b[0] == '/' then ['~'] + (['1'] + tail)
        else if b[0] == '~' then ['~'] + (['0'] + tail)
        else [b[0]] + tail
  {
  }

  lemma AfterOne(c: char, p: string)
    requires c != '/'
    ensures AfterToken([c] + p) == AfterToken(p)
  {
    assert ([c] + p)[1..] == p;
  }

  // ----- text that needs no escaping -----

  /** Text without the three special characters is its own escaping. */
  lemma {:induction false} EncodePlain(s: string)
    requires forall i :: 0 <= i < |s| ==> s[i] != '~' && s[i] != '/'
    ensures Encode(s) == s
  {
    if s != "" {
      EncodePlain(s[1..]);
      assert [s[0]] + s[1..] == s;
    }
  }

  lemma {:induction false} EncodeHasNoSlash(s: string)
    ensures forall i :: 0 <= i < |Encode(s)| ==> Encode(s)[i] != '/'
  {
    if s != "" { EncodeHasNoSlash(s[1..]); }
  }
}
