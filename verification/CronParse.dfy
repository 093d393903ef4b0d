/** The parser of cron expressions, against the sets its grammar denotes. */
module CronParse {
  import opened Arithmetic
  import opened CronBits
  import opened CronSearch
  import opened Decimal
  import opened Wrappers

  const CRON_MAX_STR_LEN_TO_SPLIT := 256
  const INT_MAX := 0x7fff_ffff

  // ----- splitting -----

  /** A piece without its white space. */
  function Squeeze(s: string): string {
    if s == [] then []
    else Squeeze(s[..|s|-1]) + if IsSpace(s[|s|-1]) then [] else [s[|s|-1]]
  }

  /** A text cut at every `del`. */
  function Pieces(s: string, del: char): (p: seq<string>)
    ensures p != []
  {
    if s == [] then [[]]
    else
      var p := Pieces(s[..|s|-1], del);
      if s[|s|-1] == del then p + [[]] else p[..|p|-1] + [p[|p|-1] + [s[|s|-1]]]
  }

  /** The pieces that are more than white space, squeezed. */
  function Kept(pieces: seq<string>): seq<string> {
    if pieces == [] then []
    else
      var last := Squeeze(pieces[|pieces|-1]);
      Kept(pieces[..|pieces|-1]) + if last == [] then [] else [last]
  }

  function Split(s: string, del: char): Option<seq<string>> {
    var kept := Kept(Pieces(s, del));
    if |s| >= CRON_MAX_STR_LEN_TO_SPLIT || kept == [] then None else Some(kept)
  }

  /** The tokens that are complete in the first `i` characters, and the start of the
    * next one. */
  function Done(s: string, i: nat, del: char): seq<string>
    requires i <= |s|
  {
    var p := Pieces(s[..i], del);
    Kept(p[..|p|-1])
  }

  function Begun(s: string, i: nat, del: char): string
    requires i <= |s|
  {
    var p := Pieces(s[..i], del);
    Squeeze(p[|p|-1])
  }

  function Flush(buf: string): seq<string> {
    if buf == [] then [] else [buf]
  }

  lemma Start(s: string, del: char)
    ensures Done(s, 0, del) == [] && Begun(s, 0, del) == []
  {
  }

  /** One more character of the text. */
  lemma Grow(s: string, i: nat, del: char)
    requires i < |s|
    ensures Done(s, i + 1, del) == Done(s, i, del) + if s[i] == del then Flush(Begun(s, i, del)) else []
    ensures Begun(s, i + 1, del)
      == if s[i] == del then [] else Begun(s, i, del) + if IsSpace(s[i]) then [] else [s[i]]
  {
    assert s[..i+1][..i] == s[..i];
    var p, q := Pieces(s[..i], del), Pieces(s[..i+1], del);
    if s[i] == del {
      assert q[..|q|-1] == p;
    } else {
      var last := p[|p|-1] + [s[i]];
      assert q == p[..|p|-1] + [last] && q[..|q|-1] == p[..|p|-1];
      assert last[..|last|-1] == p[|p|-1];
    }
  }

  lemma End(s: string, del: char)
    ensures Kept(Pieces(s, del)) == Done(s, |s|, del) + Flush(Begun(s, |s|, del))
  {
    assert s[..|s|] == s;
  }

  /** Tokens complete in a beginning are tokens of the whole. */
  lemma {:induction false} DoneGrows(s: string, i: nat, del: char)
    requires i <= |s|
    ensures |Done(s, i, del)| <= |Done(s, |s|, del)|
    decreases |s| - i
  {
    if i < |s| {
      Grow(s, i, del);
      DoneGrows(s, i + 1, del);
    }
  }

  /** `split_str`: one loop counts the tokens, the other fills the array of that size. */
  method SplitStr(str: string, del: char) returns (res: Option<seq<string>>)
    ensures res == Split(str, del)
  {
    var stlen := 0;
    for i := 0 to |str|
      invariant stlen == i < CRON_MAX_STR_LEN_TO_SPLIT
    {
      stlen := stlen + 1;
      if stlen >= CRON_MAX_STR_LEN_TO_SPLIT { return None; }
    }
    var len := Count(str, del);
    if len == 0 { return None; }
    var tokens := Fill(str, del, len);
    res := Some(tokens);
  }

  method Count(str: string, del: char) returns (len: nat)
    ensures len == |Kept(Pieces(str, del))|
  {
    hide Done, Begun;
    var accum := 0;
    len := 0;
    Start(str, del);
    for i := 0 to |str|
      invariant len == |Done(str, i, del)| && accum == |Begun(str, i, del)|
    {
      Grow(str, i, del);
      if del == str[i] {
        if accum > 0 {
          len := len + 1;
          accum := 0;
        }
      } else if !IsSpace(str[i]) {
        accum := accum + 1;
      }
    }
    End(str, del);
    if accum > 0 { len := len + 1; }
  }

  method Fill(str: string, del: char, len: nat) returns (tokens: seq<string>)
    requires len == |Kept(Pieces(str, del))|
    ensures tokens == Kept(Pieces(str, del))
  {
    hide Done, Begun, Kept, Pieces, Squeeze;
    var res := new string[len];
    var buf, ri := "", 0;
    Start(str, del);
    End(str, del);
    for i := 0 to |str|
      invariant ri == |Done(str, i, del)| <= len
      invariant buf == Begun(str, i, del)
      invariant res[..ri] == Done(str, i, del)
    {
      Grow(str, i, del);
      DoneGrows(str, i + 1, del);
      if del == str[i] {
        if |buf| > 0 {
          Put(res, ri, buf);
          ri := ri + 1;
          buf := "";
        }
      } else if !IsSpace(str[i]) {
        buf := buf + [str[i]];
      }
    }
    if |buf| > 0 {
      Put(res, ri, buf);
      ri := ri + 1;
    }
    assert res[..ri] == Kept(Pieces(str, del)) && ri == len;
    tokens := res[..];
  }

  method Put(res: array<string>, ri: nat, buf: string)
    requires ri < res.Length
    modifies res
    ensures res[..ri+1] == old(res[..ri]) + [buf]
  {
    res[ri] := buf;
  }

  // ----- numbers -----

  function Digit(c: char): nat {
    if '0' <= c <= '9' then c as int - '0' as int
    else if 'a' <= c <= 'z' then c as int - 'a' as int + 10
    else if 'A' <= c <= 'Z' then c as int - 'A' as int + 10
    else 36
  }

  function Digits(s: string, base: nat): Option<nat> {
    if s == [] then Some(0)
    else
      var high, d := Digits(s[..|s|-1], base), Digit(s[|s|-1]);
      if high.None? || d >= base then None else Some(base * high.value + d)
  }

  /** A numeral in the base its beginning tells, as `strtol` reads it with base 0. */
  function Magnitude(s: string): Option<nat> {
    if s == [] then None
    else if |s| > 2 && s[0] == '0' && (s[1] == 'x' || s[1] == 'X') then Digits(s[2..], 16)
    else Digits(s, if s[0] == '0' then 8 else 10)
  }

  /** `parse_uint` on a text without white space. */
  function ParseUint(s: string): Option<nat> {
    if s == [] then Some(0)
    else
      var m := Magnitude(if s[0] == '+' || s[0] == '-' then s[1..] else s);
      if m.None? || (s[0] == '-' && m.value > 0) || m.value > INT_MAX then None else m
  }

  // ----- ranges -----

  function TwoNumbers(s: string): Option<(nat, nat)> {
    var parts := Split(s, '-');
    if parts.None? || |parts.value| != 2 then None
    else
      var lo, hi := ParseUint(parts.value[0]), ParseUint(parts.value[1]);
      if lo.None? || hi.None? then None else Some((lo.value, hi.value))
  }

  /** What a range says: everything, one number, or two. */
  function RangeOf(field: string, min: nat, max: nat): Option<(nat, nat)>
    requires min < max
  {
    var r :=
      if field == "*" then Some((min, max - 1))
      else if '-' !in field then
        var n := ParseUint(field);
        if n.None? then None else Some((n.value, n.value))
      else TwoNumbers(field);
    if r.Some? && min <= r.value.0 <= r.value.1 < max then r else None
  }

  /** `get_range`. */
  method GetRange(field: string, min: nat, max: nat) returns (res: Option<(nat, nat)>, error: Option<string>)
    requires min < max
    ensures res == RangeOf(field, min, max) && (error.None? <==> res.Some?)
  {
    var lo, hi := 0, 0;
    if |field| == 1 && '*' == field[0] {
      lo, hi := min, max - 1;
    } else if '-' !in field {
      var val := ParseUint(field);
      if val.None? { return None, Some("Unsigned integer parse error 1"); }
      lo, hi := val.value, val.value;
    } else {
      var parts := SplitStr(field, '-');
      if parts.None? || |parts.value| != 2 { return None, Some("Specified range requires two fields"); }
      var first, second := ParseUint(parts.value[0]), ParseUint(parts.value[1]);
      if first.None? { return None, Some("Unsigned integer parse error 2"); }
      if second.None? { return None, Some("Unsigned integer parse error 3"); }
      lo, hi := first.value, second.value;
    }
    if lo >= max || hi >= max { return None, Some("Specified range exceeds maximum"); }
    if lo < min || hi < min { return None, Some("Specified range is less than minimum"); }
    if lo > hi { return None, Some("Specified range start exceeds range end"); }
    return Some((lo, hi)), None;
  }

  // ----- lists -----

  predicate OnStep(lo: int, delta: nat, n: int)
    requires delta > 0
  {
    (n - lo) % delta == 0
  }

  /** The numbers from `lo` to `hi` by steps of `delta`. */
  function Stepped(lo: nat, hi: nat, delta: nat): set<int>
    requires delta > 0
  {
    set n | lo <= n <= hi && OnStep(lo, delta, n)
  }

  function Below(lo: nat, hi: nat, delta: nat, end: nat): set<int>
    requires delta > 0
  {
    set n | n in Stepped(lo, hi, delta) && n < end
  }

  /** What one item of a list denotes: a range, or `a/delta`, where a range without an
    * end goes on to the maximum. */
  function ItemSet(item: string, min: nat, max: nat): Option<set<int>>
    requires min < max
  {
    if '/' !in item then
      var r := RangeOf(item, min, max);
      if r.None? then None else Some(Stepped(r.value.0, r.value.1, 1))
    else
      var parts := Split(item, '/');
      if parts.None? || |parts.value| != 2 then None
      else
        var r, delta := RangeOf(parts.value[0], min, max), ParseUint(parts.value[1]);
        if r.None? || delta.None? || delta.value == 0 then None
        else Some(Stepped(r.value.0, if '-' in parts.value[0] then r.value.1 else max - 1, delta.value))
  }

  predicate AllGood(items: seq<string>, min: nat, max: nat)
    requires min < max
  {
    forall i :: 0 <= i < |items| ==> ItemSet(items[i], min, max).Some?
  }

  function Union(items: seq<string>, min: nat, max: nat): set<int>
    requires min < max && AllGood(items, min, max)
  {
    if items == [] then {}
    else
      var last := |items| - 1;
      Union(items[..last], min, max) + ItemSet(items[last], min, max).value
  }

  /** What a comma list denotes. */
  function ListSet(value: string, min: nat, max: nat): Option<set<int>>
    requires min < max
  {
    var items := Split(value, ',');
    if items.Some? && AllGood(items.value, min, max) then Some(Union(items.value, min, max)) else None
  }

  /** Sets the bits `lo`, `lo + delta`, and so on up to `hi`; the 32-bit counter does
    * not wrap around. */
  method SetBits(target: array<bv8>, lo: nat, hi: nat, delta: nat)
    requires 0 < delta <= INT_MAX && hi < 8 * target.Length && hi <= INT_MAX
    modifies target
    ensures Members(target[..]) == Members(old(target[..])) + Stepped(lo, hi, delta)
  {
    hide Members;
    var i1 := lo;
    while i1 <= hi
      invariant lo <= i1 && OnStep(lo, delta, i1)
      invariant Members(target[..]) == Members(old(target[..])) + Below(lo, hi, delta, i1)
    {
      OnlyStep(lo, hi, delta, i1);
      CronSetBit(target, i1);
      assert i1 + delta < 0x1_0000_0000;
      i1 := i1 + delta;
    }
  }

  /** Between one step and the next there is no other. */
  lemma OnlyStep(lo: nat, hi: nat, delta: nat, i1: nat)
    requires delta > 0 && lo <= i1 <= hi && OnStep(lo, delta, i1)
    ensures OnStep(lo, delta, i1 + delta)
    ensures Below(lo, hi, delta, i1 + delta) == Below(lo, hi, delta, i1) + {i1}
  {
    hide OnStep;
    forall n | i1 <= n <= i1 + delta
      ensures OnStep(lo, delta, n) <==> n == i1 || n == i1 + delta
    {
      NextStep(lo, delta, i1, n);
    }
  }

  lemma NextStep(lo: nat, delta: nat, i1: nat, n: nat)
    requires delta > 0 && lo <= i1 <= n <= i1 + delta && OnStep(lo, delta, i1)
    ensures OnStep(lo, delta, n) <==> n == i1 || n == i1 + delta
  {
    var q := (i1 - lo) / delta;
    assert i1 - lo == q * delta;
    if n < i1 + delta {
      DivMod(n - lo, delta, q, n - i1);
    } else {
      assert n - lo == (q + 1) * delta;
      DivMod(n - lo, delta, q + 1, 0);
    }
  }

  lemma UnionStep(items: seq<string>, i: nat, min: nat, max: nat)
    requires min < max && i < |items| && AllGood(items[..i], min, max) && ItemSet(items[i], min, max).Some?
    ensures AllGood(items[..i+1], min, max)
    ensures Union(items[..i+1], min, max) == Union(items[..i], min, max) + ItemSet(items[i], min, max).value
  {
    hide ItemSet;
    assert items[..i+1][..i] == items[..i];
  }

  /** One round of `set_number_hits`. */
  method SetItem(item: string, target: array<bv8>, min: nat, max: nat) returns (error: Option<string>)
    requires min < max <= 8 * target.Length && max <= INT_MAX
    modifies target
    ensures error.None? <==> ItemSet(item, min, max).Some?
    ensures error.None? ==> Members(target[..]) == Members(old(target[..])) + ItemSet(item, min, max).value
  {
    hide Members;
    if '/' !in item {
      var range;
      range, error := GetRange(item, min, max);
      if error.Some? { return; }
      SetBits(target, range.value.0, range.value.1, 1);
    } else {
      var split := SplitStr(item, '/');
      if split.None? || |split.value| != 2 { return Some("Incrementer must have two fields"); }
      var range;
      range, error := GetRange(split.value[0], min, max);
      if error.Some? { return; }
      var last := if '-' !in split.value[0] then max - 1 else range.value.1;
      var delta := ParseUint(split.value[1]);
      if delta.None? { return Some("Unsigned integer parse error 4"); }
      if 0 == delta.value { return Some("Incrementer may not be zero"); }
      SetBits(target, range.value.0, last, delta.value);
    }
  }

  /** `set_number_hits`. */
  method SetNumberHits(value: string, target: array<bv8>, min: nat, max: nat) returns (error: Option<string>)
    requires min < max <= 8 * target.Length && max <= INT_MAX
    modifies target
    ensures error.None? <==> ListSet(value, min, max).Some?
    ensures error.None? ==> Members(target[..]) == Members(old(target[..])) + ListSet(value, min, max).value
  {
    hide Members, ItemSet;
    var fields := SplitStr(value, ',');
    if fields.None? { return Some("Comma split error"); }
    error := None;
    for i := 0 to |fields.value|
      invariant error.None? && AllGood(fields.value[..i], min, max)
      invariant Members(target[..]) == Members(old(target[..])) + Union(fields.value[..i], min, max)
    {
      error := SetItem(fields.value[i], target, min, max);
      if error.Some? {
        assert !AllGood(fields.value, min, max);
        return;
      }
      UnionStep(fields.value, i, min, max);
    }
    assert fields.value[..|fields.value|] == fields.value;
  }

  // ----- names -----

  predicate OccursAt(s: string, rep: string, i: nat) {
    i + |rep| <= |s| && s[i..i+|rep|] == rep
  }

  /** `strstr`: where `rep` first occurs from `i` on, or -1. */
  function StrStr(s: string, rep: string, i: nat): (r: int)
    requires i <= |s|
    ensures r == -1 || (i <= r <= r + |rep| <= |s| && OccursAt(s, rep, r))
    ensures forall j :: i <= j <= |s| && (r == -1 || j < r) ==> !OccursAt(s, rep, j)
    decreases |s| - i
  {
    if OccursAt(s, rep, i) then i else if i == |s| then -1 else StrStr(s, rep, i + 1)
  }

  function Replaced(s: string, rep: string, with: string): string
    requires rep != []
    decreases |s|
  {
    var i := StrStr(s, rep, 0);
    if i == -1 then s else s[..i] + with + Replaced(s[i+|rep|..], rep, with)
  }

  function Occurrences(s: string, rep: string): nat
    requires rep != []
    decreases |s|
  {
    var i := StrStr(s, rep, 0);
    if i == -1 then 0 else 1 + Occurrences(s[i+|rep|..], rep)
  }

  lemma OneMore(d: int, k: int)
    ensures d * (k + 1) == d * k + d
  {
  }

  lemma {:induction false} ReplacedLength(s: string, rep: string, with: string)
    requires rep != []
    ensures |Replaced(s, rep, with)| == |s| + (|with| - |rep|) * Occurrences(s, rep)
    decreases |s|
  {
    hide OccursAt, StrStr;
    var i, d := StrStr(s, rep, 0), |with| - |rep|;
    if i != -1 {
      var rest := s[i+|rep|..];
      ReplacedLength(rest, rep, with);
      OneMore(d, Occurrences(rest, rep));
    }
  }

  /** `str_replace`: counts first, and the text built has just the size counted. */
  method StrReplace(orig: string, rep: string, with: string) returns (result: string)
    requires rep != []
    ensures result == Replaced(orig, rep, with)
    ensures |result| == |orig| + (|with| - |rep|) * Occurrences(orig, rep)
  {
    hide OccursAt, StrStr;
    var count := CountOccurrences(orig, rep);
    ReplacedLength(orig, rep, with);
    result := "";
    var rest := orig;
    while count > 0
      invariant 0 <= count == Occurrences(rest, rep)
      invariant Replaced(orig, rep, with) == result + Replaced(rest, rep, with)
      decreases count
    {
      var front := StrStr(rest, rep, 0);
      result := result + (rest[..front] + with);
      rest := rest[front + |rep|..];
      count := count - 1;
    }
    result := result + rest;
  }

  method CountOccurrences(orig: string, rep: string) returns (count: nat)
    requires rep != []
    ensures count == Occurrences(orig, rep)
  {
    hide OccursAt, StrStr;
    count := 0;
    var ins := orig;
    var tmp := StrStr(ins, rep, 0);
    while tmp != -1
      invariant tmp == StrStr(ins, rep, 0)
      invariant count + Occurrences(ins, rep) == Occurrences(orig, rep)
      decreases |ins|
    {
      ins := ins[tmp + |rep|..];
      count := count + 1;
      tmp := StrStr(ins, rep, 0);
    }
  }

  const DAYS_ARR := ["SUN", "MON", "TUE", "WED", "THU", "FRI", "SAT"]
  const MONTHS_ARR := ["FOO", "JAN", "FEB", "MAR", "APR", "MAY", "JUN", "JUL", "AUG", "SEP", "OCT", "NOV", "DEC"]

  /** A text with the first `n` names replaced by their numbers, one after the other. */
  function Ordinals(s: string, names: seq<string>, n: nat): string
    requires n <= |names| && forall i :: 0 <= i < |names| ==> names[i] != []
  {
    if n == 0 then s else Replaced(Ordinals(s, names, n - 1), names[n-1], PrintNat(n - 1))
  }

  /** `replace_ordinals`. */
  method ReplaceOrdinals(value: string, arr: seq<string>) returns (res: string)
    requires forall i :: 0 <= i < |arr| ==> arr[i] != []
    ensures res == Ordinals(value, arr, |arr|)
  {
    res := value;
    for i := 0 to |arr|
      invariant res == Ordinals(value, arr, i)
    {
      res := StrReplace(res, arr[i], PrintNat(i));
    }
  }

  predicate Named(names: seq<string>) {
    && (forall i :: 0 <= i < |names| ==> |names[i]| == 3 && forall k :: 0 <= k < 3 ==> 'A' <= names[i][k] <= 'Z')
    && forall i, j :: 0 <= i < j < |names| ==> names[i] != names[j]
  }

  /** Where a name can occur: at a letter, and in a text of its own length only as the
    * whole text. */
  lemma Occurrence(s: string, rep: string, j: nat)
    requires OccursAt(s, rep, j) && rep != []
    ensures s[j] == rep[0]
    ensures |s| == |rep| ==> j == 0 && s == rep
  {
    assert s[j..j+|rep|][0] == s[j];
    if |s| == |rep| { assert s[0..|s|] == s; }
  }

  lemma WholeText(s: string)
    ensures OccursAt(s, s, 0)
  {
    assert s[0..|s|] == s;
  }

  /** A text without letters names nothing. */
  lemma {:induction false} NumbersStay(s: string, names: seq<string>, n: nat)
    requires Named(names) && n <= |names| && forall k :: 0 <= k < |s| ==> !('A' <= s[k] <= 'Z')
    ensures Ordinals(s, names, n) == s
  {
    hide OccursAt;
    if n > 0 {
      NumbersStay(s, names, n - 1);
      var r := StrStr(s, names[n-1], 0);
      if r != -1 { Occurrence(s, names[n-1], r); }
    }
  }

  /** A name alone becomes its number. */
  lemma {:induction false} NameIsNumber(names: seq<string>, i: nat, n: nat)
    requires Named(names) && i < |names| && n <= |names|
    ensures Ordinals(names[i], names, n) == if n <= i then names[i] else PrintNat(i)
  {
    hide OccursAt, PrintNat;
    if n > 0 {
      NameIsNumber(names, i, n - 1);
      var s, name := Ordinals(names[i], names, n - 1), names[n-1];
      var r := StrStr(s, name, 0);
      if n - 1 == i {
        WholeText(s);
        assert s[3..] == [] && s[..0] == [];
        assert Replaced([], name, PrintNat(i)) == [];
      } else if r != -1 {
        Occurrence(s, name, r);
      }
    }
  }

  // ----- the six fields -----

  /** `to_upper`. */
  function Upper(s: string): (r: string)
    ensures |r| == |s|
    ensures forall i :: 0 <= i < |s| ==> r[i] == if 'a' <= s[i] <= 'z' then s[i] - 'a' + 'A' else s[i]
  {
    if s == [] then [] else
      Upper(s[..|s|-1]) + [var c := s[|s|-1]; if 'a' <= c <= 'z' then c - 'a' + 'A' else c]
  }

  function Star(field: string): string {
    if field == "?" then "*" else field
  }

  predicate Shifted(s: set<int>, n: int) {
    n + 1 in s
  }

  /** Months are counted from 0. */
  function MonthSet(value: string): Option<set<int>> {
    var s := ListSet(Ordinals(Upper(value), MONTHS_ARR, 13), 1, 13);
    if s.None? then None else Some(set n | 0 <= n < 12 && Shifted(s.value, n))
  }

  /** Sunday is 0, or 7. */
  function WeekdaySet(field: string): Option<set<int>> {
    var s := ListSet(Ordinals(Upper(Star(field)), DAYS_ARR, 7), 0, 8);
    if s.None? then None else Some(s.value - {7} + if 7 in s.value then {0} else {})
  }

  function DayOfMonthSet(field: string): Option<set<int>> {
    ListSet(Star(field), 1, 32)
  }

  /** A list denotes at least one number, and none out of range. */
  lemma ListInRange(value: string, min: nat, max: nat)
    requires min < max && ListSet(value, min, max).Some?
    ensures var s := ListSet(value, min, max).value; s != {} && forall n :: n in s ==> min <= n < max
  {
    var items := Split(value, ',').value;
    UnionInRange(items, min, max);
  }

  lemma {:induction false} UnionInRange(items: seq<string>, min: nat, max: nat)
    requires min < max && AllGood(items, min, max)
    ensures var s := Union(items, min, max);
      (items != [] ==> s != {}) && forall n :: n in s ==> min <= n < max
  {
    hide ItemSet;
    if items != [] {
      var last := |items| - 1;
      UnionInRange(items[..last], min, max);
      var n := ItemInRange(items[last], min, max);
      assert n in Union(items, min, max);
    }
  }

  lemma ItemInRange(item: string, min: nat, max: nat) returns (lo: int)
    requires min < max && ItemSet(item, min, max).Some?
    ensures var s := ItemSet(item, min, max).value; lo in s && forall n :: n in s ==> min <= n < max
  {
    lo := if '/' !in item then RangeOf(item, min, max).value.0
          else RangeOf(Split(item, '/').value[0], min, max).value.0;
    var delta: nat := if '/' !in item then 1 else ParseUint(Split(item, '/').value[1]).value;
    assert OnStep(lo, delta, lo);
  }

  /** `to_upper`, in place. */
  method ToUpper(str: array<char>)
    modifies str
    ensures str[..] == Upper(old(str[..]))
  {
    for i := 0 to str.Length
      invariant forall j :: 0 <= j < str.Length ==>
        str[j] == if j < i then Upper(old(str[..]))[j] else old(str[j])
    {
      if 'a' <= str[i] <= 'z' { str[i] := str[i] - 'a' + 'A'; }
    }
  }

  /** The numbers from 1 to `i - 1` moved down by one. */
  function Moved(s: set<int>, i: int): set<int> {
    (set y | y in s && !(1 <= y < i)) + set y | 0 <= y < i - 1 && Shifted(s, y)
  }

  lemma MoveOne(s: set<int>, i: int)
    requires 1 <= i
    ensures i in Moved(s, i) <==> i in s
    ensures Moved(s, i + 1) == if i in s then Moved(s, i) + {i - 1} - {i} else Moved(s, i)
  {
  }

  /** A token in memory of its own. */
  method CString(s: string) returns (str: array<char>)
    ensures fresh(str) && str[..] == s
  {
    str := new char[|s|](i requires 0 <= i < |s| => s[i]);
  }

  /** A token with `?` read as `*`. */
  method StarString(field: string) returns (str: array<char>)
    ensures fresh(str) && str[..] == Star(field)
  {
    str := CString(field);
    if str.Length == 1 && str[0] == '?' { str[0] := '*'; }
  }

  /** `set_months`, from an empty array. */
  method SetMonths(value: string, targ: array<bv8>) returns (error: Option<string>)
    requires targ.Length == 2 && Members(targ[..]) == {}
    modifies targ
    ensures error.None? <==> MonthSet(value).Some?
    ensures error.None? ==> Members(targ[..]) == MonthSet(value).value
  {
    hide Members, ListSet, Ordinals, GetBit;
    var max := 12;
    var str := CString(value);
    ToUpper(str);
    var replaced := ReplaceOrdinals(str[..], MONTHS_ARR);
    error := SetNumberHits(replaced, targ, 1, max + 1);
    ghost var hits := Members(targ[..]);
    assert Moved(hits, 1) == hits;
    for i := 1 to max + 1
      invariant Members(targ[..]) == Moved(hits, i)
    {
      MoveOne(hits, i);
      BitMember(targ[..], i);
      if GetBit(targ[..], i) {
        CronSetBit(targ, i - 1);
        CronDelBit(targ, i);
      }
    }
    if error.None? {
      ListInRange(replaced, 1, 13);
      assert hits == ListSet(replaced, 1, 13).value;
      assert Moved(hits, 13) == set n | 0 <= n < 12 && Shifted(hits, n);
    }
  }

  lemma BitMember(bits: Bits, i: int)
    requires 0 <= i < 8 * |bits|
    ensures GetBit(bits, i) <==> i in Members(bits)
  {
  }

  /** `set_days_of_week`, from an empty array. */
  method SetDaysOfWeek(field: string, targ: array<bv8>) returns (error: Option<string>)
    requires targ.Length == 1 && Members(targ[..]) == {}
    modifies targ
    ensures error.None? <==> WeekdaySet(field).Some?
    ensures error.None? ==> Members(targ[..]) == WeekdaySet(field).value
  {
    hide Members, ListSet, Ordinals, GetBit, Star, Upper;
    var max := 7;
    var str := StarString(field);
    ToUpper(str);
    var replaced := ReplaceOrdinals(str[..], DAYS_ARR);
    error := SetNumberHits(replaced, targ, 0, max + 1);
    assert error.None? ==> Members(targ[..]) == ListSet(replaced, 0, 8).value;
    SundayToZero(targ);
  }

  /** Sunday can be represented as 0 or 7. */
  method SundayToZero(targ: array<bv8>)
    requires targ.Length == 1
    modifies targ
    ensures var hits := Members(old(targ[..])); Members(targ[..]) == hits - {7} + if 7 in hits then {0} else {}
  {
    hide Members, GetBit;
    BitMember(targ[..], 7);
    if GetBit(targ[..], 7) {
      CronSetBit(targ, 0);
      CronDelBit(targ, 7);
    }
  }

  /** `set_days_of_month`. */
  method SetDaysOfMonth(field: string, targ: array<bv8>) returns (error: Option<string>)
    requires targ.Length == 4 && Members(targ[..]) == {}
    modifies targ
    ensures error.None? <==> DayOfMonthSet(field).Some?
    ensures error.None? ==> Members(targ[..]) == DayOfMonthSet(field).value
  {
    hide Members, ListSet;
    var str := StarString(field);
    error := SetNumberHits(str[..], targ, 1, 32);
  }

  // ----- the expression -----

  /** What the six fields of an expression denote. */
  datatype Sets = Sets(seconds: set<int>, minutes: set<int>, hours: set<int>,
                       days_of_month: set<int>, months: set<int>, days_of_week: set<int>)

  function Denoted(expression: string): Option<Sets> {
    var f := Split(expression, ' ');
    if f.None? || |f.value| != 6 then None
    else
      var sec, min, hour := ListSet(f.value[0], 0, 60), ListSet(f.value[1], 0, 60), ListSet(f.value[2], 0, 24);
      var mday, mon, wday := DayOfMonthSet(f.value[3]), MonthSet(f.value[4]), WeekdaySet(f.value[5]);
      if sec.None? || min.None? || hour.None? || mday.None? || mon.None? || wday.None? then None
      else Some(Sets(sec.value, min.value, hour.value, mday.value, mon.value, wday.value))
  }

  function BitSets(e: CronExpr): Sets {
    Sets(Members(e.seconds), Members(e.minutes), Members(e.hours),
         Members(e.days_of_month), Members(e.months), Members(e.days_of_week))
  }

  method Zeroed(len: nat) returns (a: array<bv8>)
    ensures fresh(a) && a.Length == len && Members(a[..]) == {}
  {
    a := new bv8[len](_ => 0);
  }

  /** `cron_parse_expr`: no error exactly when the expression denotes something, and
    * then the bits are exactly what it denotes. */
  method CronParseExpr(expression: string) returns (target: CronExpr, error: Option<string>)
    ensures error.None? <==> Denoted(expression).Some?
    ensures error.None? ==> Some(BitSets(target)) == Denoted(expression) && Sized(target)
  {
    hide Members, ListSet, MonthSet, WeekdaySet, DayOfMonthSet, Split;
    target := CronExpr([], [], [], [], [], []);
    var split := SplitStr(expression, ' ');
    if split.None? || |split.value| != 6 {
      return target, Some("Invalid number of fields, expression must consist of 6 fields");
    }
    var fields := split.value;
    var seconds, minutes, hours;
    seconds, error := NumberField(fields[0], 8, 60);
    if error.Some? { return; }
    minutes, error := NumberField(fields[1], 8, 60);
    if error.Some? { return; }
    hours, error := NumberField(fields[2], 3, 24);
    if error.Some? { return; }
    var days_of_month := Zeroed(4);
    error := SetDaysOfMonth(fields[3], days_of_month);
    if error.Some? { return; }
    var months := Zeroed(2);
    error := SetMonths(fields[4], months);
    if error.Some? { return; }
    var days_of_week := Zeroed(1);
    error := SetDaysOfWeek(fields[5], days_of_week);
    if error.Some? { return; }
    target := CronExpr(seconds, minutes, hours, days_of_week[..], days_of_month[..], months[..]);
  }

  /** A field of plain numbers from 0, into cleared bytes. */
  method NumberField(value: string, len: nat, max: nat) returns (bits: Bits, error: Option<string>)
    requires 0 < max <= 8 * len && max <= INT_MAX
    ensures error.None? <==> ListSet(value, 0, max).Some?
    ensures error.None? ==> |bits| == len && Members(bits) == ListSet(value, 0, max).value
  {
    hide Members, ListSet;
    var target := Zeroed(len);
    error := SetNumberHits(value, target, 0, max);
    bits := target[..];
  }

  /** What a good expression denotes is in range, and no field is empty: so the search
    * can use it. */
  lemma ParsedIsFilled(expression: string, e: CronExpr)
    ensures Denoted(expression) == Some(BitSets(e)) ==>
      && Filled(e)
      && (forall n :: n in Members(e.days_of_month) ==> 1 <= n < 32)
      && (forall n :: n in Members(e.months) ==> 0 <= n < 12)
      && (forall n :: n in Members(e.days_of_week) ==> 0 <= n < 7)
  {
    hide Members, ListSet, Split;
    if Denoted(expression) == Some(BitSets(e)) {
      var f := Split(expression, ' ').value;
      var second := SomeIn(f[0], 0, 60);
      var minute := SomeIn(f[1], 0, 60);
      var hour := SomeIn(f[2], 0, 24);
      var mday := SomeIn(Star(f[3]), 1, 32);
      var month := SomeIn(Ordinals(Upper(f[4]), MONTHS_ARR, 13), 1, 13);
      assert Shifted(ListSet(Ordinals(Upper(f[4]), MONTHS_ARR, 13), 1, 13).value, month - 1);
      assert month - 1 in Members(e.months);
      var day := SomeIn(Ordinals(Upper(Star(f[5])), DAYS_ARR, 7), 0, 8);
      assert (if day == 7 then 0 else day) in Members(e.days_of_week);
    }
  }

  lemma SomeIn(value: string, min: nat, max: nat) returns (n: int)
    requires min < max && ListSet(value, min, max).Some?
    ensures var s := ListSet(value, min, max).value;
      n in s && Any(s, min, max) && forall k :: k in s ==> min <= k < max
  {
    ListInRange(value, min, max);
    n :| n in ListSet(value, min, max).value;
  }
}
