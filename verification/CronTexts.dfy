/** What the fields of a cron expression denote, in numbers and names. */
module CronTexts {
  import opened Arithmetic
  import opened CronBits
  import opened CronParse
  import opened CronSearch
  import opened Decimal
  import opened Wrappers

  // ----- texts put together -----

  /** Tokens with `del` between them. */
  function Join(ts: seq<string>, del: char): string {
    if ts == [] then [] else if |ts| == 1 then ts[0] else Join(ts[..|ts|-1], del) + [del] + ts[|ts|-1]
  }

  /** A token has neither white space nor the character that separates it. */
  predicate Token(t: string, del: char) {
    t != [] && forall i :: 0 <= i < |t| ==> t[i] != del && !IsSpace(t[i])
  }

  predicate Tokens(ts: seq<string>, del: char) {
    forall i :: 0 <= i < |ts| ==> Token(ts[i], del)
  }

  lemma {:induction false} PiecesWith(s: string, t: string, del: char)
    requires Token(t, del) || t == []
    ensures Pieces(s + [del] + t, del) == Pieces(s, del) + [t]
    decreases |t|
  {
    var x := s + [del] + t;
    if t == [] {
      assert x[..|x|-1] == s;
    } else {
      var front := t[..|t|-1];
      assert x[..|x|-1] == s + [del] + front;
      assert front == [] || Token(front, del);
      PiecesWith(s, front, del);
      assert front + [t[|t|-1]] == t;
    }
  }

  lemma {:induction false} PiecesOne(t: string, del: char)
    requires Token(t, del) || t == []
    ensures Pieces(t, del) == [t]
    decreases |t|
  {
    if t != [] {
      var front := t[..|t|-1];
      assert front == [] || Token(front, del);
      PiecesOne(front, del);
      assert front + [t[|t|-1]] == t;
    }
  }

  lemma {:induction false} SqueezeToken(t: string, del: char)
    requires Token(t, del) || t == []
    ensures Squeeze(t) == t
    decreases |t|
  {
    if t != [] {
      var front := t[..|t|-1];
      assert front == [] || Token(front, del);
      SqueezeLast(t);
      hide Squeeze;
      SqueezeToken(front, del);
      assert front + [t[|t|-1]] == t;
    }
  }

  lemma SqueezeLast(t: string)
    requires t != [] && !IsSpace(t[|t|-1])
    ensures Squeeze(t) == Squeeze(t[..|t|-1]) + [t[|t|-1]]
  {
  }

  lemma {:induction false} PiecesJoin(ts: seq<string>, del: char)
    requires ts != [] && Tokens(ts, del)
    ensures Pieces(Join(ts, del), del) == ts
    decreases |ts|
  {
    var front, last := ts[..|ts|-1], ts[|ts|-1];
    if |ts| == 1 {
      PiecesOne(ts[0], del);
      assert ts == [ts[0]];
    } else {
      PiecesJoin(front, del);
      PiecesWith(Join(front, del), last, del);
      assert ts == front + [last];
    }
  }

  lemma {:induction false} KeptTokens(ts: seq<string>, del: char)
    requires Tokens(ts, del)
    ensures Kept(ts) == ts
    decreases |ts|
  {
    if ts != [] {
      var front, last := ts[..|ts|-1], ts[|ts|-1];
      SqueezeToken(last, del);
      assert Kept(ts) == Kept(front) + [last];
      assert Tokens(front, del) && ts == front + [last];
      hide Kept, Squeeze, Token;
      KeptTokens(front, del);
    }
  }

  /** Splitting undoes joining. */
  lemma SplitJoin(ts: seq<string>, del: char)
    requires ts != [] && Tokens(ts, del) && |Join(ts, del)| < 256
    ensures Split(Join(ts, del), del) == Some(ts)
  {
    PiecesJoin(ts, del);
    KeptTokens(ts, del);
  }

  /** A text of 256 characters or more is not split. */
  lemma LongText(s: string, del: char)
    requires |s| >= 256
    ensures Split(s, del) == None
  {
  }

  // White space and empty tokens.

  /** Two beginnings of a text come to the same tokens. */
  ghost predicate Alike(a: string, b: string, del: char) {
    Done(a, |a|, del) == Done(b, |b|, del) && Begun(a, |a|, del) == Begun(b, |b|, del)
  }

  lemma GrowEnd(a: string, c: char, del: char)
    ensures Done(a + [c], |a| + 1, del) == Done(a, |a|, del) + if c == del then Flush(Begun(a, |a|, del)) else []
    ensures Begun(a + [c], |a| + 1, del)
      == if c == del then [] else Begun(a, |a|, del) + if IsSpace(c) then [] else [c]
  {
    var s := a + [c];
    assert s[..|a|] == a[..|a|];
    Grow(s, |a|, del);
    hide Pieces, Squeeze, Kept;
  }

  lemma {:induction false} AlikeOn(a: string, b: string, t: string, del: char)
    requires Alike(a, b, del)
    ensures Alike(a + t, b + t, del)
    decreases |t|
  {
    hide Done, Begun;
    if t == [] {
      assert a + t == a && b + t == b;
    } else {
      var front, c := t[..|t|-1], t[|t|-1];
      AlikeOn(a, b, front, del);
      GrowEnd(a + front, c, del);
      GrowEnd(b + front, c, del);
      assert a + t == a + front + [c] && b + t == b + front + [c];
    }
  }

  lemma AlikeSplit(a: string, b: string, del: char)
    requires Alike(a, b, del) && |a| < 256 && |b| < 256
    ensures Split(a, del) == Split(b, del)
  {
    End(a, del);
    End(b, del);
    hide Done, Begun, Kept, Pieces;
  }

  /** White space inside a token is dropped. */
  lemma BlankDropped(a: string, w: char, b: string, del: char)
    requires IsSpace(w) && w != del && |a + [w] + b| < 256
    ensures Split(a + [w] + b, del) == Split(a + b, del)
  {
    hide Done, Begun, Split;
    GrowEnd(a, w, del);
    assert Begun(a, |a|, del) + [] == Begun(a, |a|, del) && Done(a, |a|, del) + [] == Done(a, |a|, del);
    AlikeOn(a + [w], a, b, del);
    AlikeSplit(a + [w] + b, a + b, del);
  }

  /** So are empty tokens. */
  lemma EmptyDropped(a: string, b: string, del: char)
    requires |a + [del] + [del] + b| < 256
    ensures Split(a + [del] + [del] + b, del) == Split(a + [del] + b, del)
  {
    hide Done, Begun, Split;
    GrowEnd(a, del, del);
    GrowEnd(a + [del], del, del);
    assert Done(a + [del], |a| + 1, del) + [] == Done(a + [del], |a| + 1, del);
    AlikeOn(a + [del] + [del], a + [del], b, del);
    AlikeSplit(a + [del] + [del] + b, a + [del] + b, del);
  }

  // ----- numbers -----

  lemma {:induction false} DigitsValue(s: string)
    requires forall i :: 0 <= i < |s| ==> IsDigit(s[i])
    ensures Digits(s, 10) == Some(Value(s))
    decreases |s|
  {
    if s != [] { DigitsValue(s[..|s|-1]); }
  }

  lemma {:induction false} NoLeadingZero(n: nat)
    requires n > 0
    ensures PrintNat(n)[0] != '0'
  {
    if n >= 10 {
      NoLeadingZero(n / 10);
      assert PrintNat(n)[0] == PrintNat(n / 10)[0];
    }
  }

  /** A number printed is read back, when it is an `int`. */
  lemma UintPrinted(n: nat)
    ensures ParseUint(PrintNat(n)) == if n <= 0x7fff_ffff then Some(n) else None
  {
    var s := PrintNat(n);
    assert IsDigit(s[0]);
    if n == 0 {
      assert s == "0";
      assert Digits("0", 8) == Some(0) by { assert "0"[..0] == []; }
    } else {
      NoLeadingZero(n);
      DigitsValue(s);
      ValueOfPrint(n);
    }
  }

  /** The base is told by the beginning, and there may be a sign. */
  lemma UintForms()
    ensures ParseUint("010") == Some(8) && ParseUint("0x1f") == Some(31) && ParseUint("0X1F") == Some(31)
    ensures ParseUint("+5") == Some(5) && ParseUint("-0") == Some(0) && ParseUint("-1") == None
    ensures ParseUint("08") == None && ParseUint("1a") == None
  {
    TwoDigits('1', '0', 8);
    TwoDigits('1', 'f', 16);
    TwoDigits('1', 'F', 16);
    TwoDigits('0', '8', 8);
    TwoDigits('1', 'a', 10);
    OneUint('5', 10);
    OneUint('0', 8);
    OneUint('1', 10);
    hide Digits;
    assert "010"[0] == '0' && "0x1f"[2..] == "1f" && "0X1F"[2..] == "1F";
    assert "+5"[1..] == "5" && "-0"[1..] == "0" && "-1"[1..] == "1";
    ZeroTen();
  }

  lemma ZeroTen()
    ensures Digits("010", 8) == Some(8)
  {
    TwoDigits('0', '1', 8);
    assert "010"[..2] == "01";
  }

  lemma OneUint(c: char, base: nat)
    ensures Digits([c], base) == if CronParse.Digit(c) < base then Some(CronParse.Digit(c)) else None
  {
    assert [c][..0] == [];
  }

  lemma TwoDigits(c: char, d: char, base: nat)
    ensures Digits([c, d], base) ==
      var high, low := CronParse.Digit(c), CronParse.Digit(d);
      if high < base && low < base then Some(base * high + low) else None
  {
    assert [c, d][..1] == [c];
    OneUint(c, base);
  }

  // ----- the grammar -----

  datatype Span = Every | One(a: nat) | From(a: nat, b: nat)

  datatype Item = Plain(span: Span) | By(span: Span, d: nat)

  function SpanText(s: Span): string {
    match s
    case Every => "*"
    case One(a) => PrintNat(a)
    case From(a, b) => PrintNat(a) + "-" + PrintNat(b)
  }

  function ItemText(i: Item): string {
    match i
    case Plain(s) => SpanText(s)
    case By(s, d) => SpanText(s) + "/" + PrintNat(d)
  }

  function ItemTexts(items: seq<Item>): seq<string> {
    seq(|items|, i requires 0 <= i < |items| => ItemText(items[i]))
  }

  function ListText(items: seq<Item>): string {
    Join(ItemTexts(items), ',')
  }

  /** Numbers in range and in order, and a step of at least 1. */
  predicate Proper(i: Item, min: nat, max: nat) {
    && (match i.span
        case Every => true
        case One(a) => min <= a < max
        case From(a, b) => min <= a <= b < max)
    && (i.By? ==> 0 < i.d <= 0x7fff_ffff)
  }

  /** The numbers an item of a field with numbers from `min` to `max - 1` stands for. */
  predicate Fires(i: Item, min: nat, max: nat, n: int) {
    match i
    case Plain(Every) => min <= n < max
    case Plain(One(a)) => n == a
    case Plain(From(a, b)) => a <= n <= b
    case By(Every, d) => min <= n < max && d > 0 && (n - min) % d == 0
    case By(One(a), d) => a <= n < max && d > 0 && (n - a) % d == 0
    case By(From(a, b), d) => a <= n <= b && d > 0 && (n - a) % d == 0
  }

  lemma PrintedToken(n: nat)
    ensures forall c :: c in PrintNat(n) ==> IsDigit(c) && !IsSpace(c)
    ensures '-' !in PrintNat(n) && '/' !in PrintNat(n) && ',' !in PrintNat(n) && ' ' !in PrintNat(n)
    ensures PrintNat(n) != "*"
  {
    var s := PrintNat(n);
    assert forall c :: c in s ==> IsDigit(c);
    assert IsDigit(s[0]);
  }

  lemma SpanIs(s: Span, min: nat, max: nat)
    requires min < max <= INT_MAX && |SpanText(s)| < 256
    ensures RangeOf(SpanText(s), min, max) ==
      if !Proper(Plain(s), min, max) then None
      else Some(match s
                case Every => (min, max - 1)
                case One(a) => (a, a)
                case From(a, b) => (a, b))
    ensures '/' !in SpanText(s) && ('-' in SpanText(s) <==> s.From?)
  {
    match s
    case Every =>
    case One(a) =>
      PrintedToken(a);
      UintPrinted(a);
    case From(a, b) => TwoPrinted(a, b);
  }

  lemma TwoPrinted(a: nat, b: nat)
    requires |PrintNat(a) + "-" + PrintNat(b)| < 256
    ensures TwoNumbers(PrintNat(a) + "-" + PrintNat(b)) ==
      if a <= INT_MAX && b <= INT_MAX then Some((a, b)) else None
    ensures var s := PrintNat(a) + "-" + PrintNat(b); '/' !in s && '-' in s && s != "*"
  {
    PrintedToken(a);
    PrintedToken(b);
    UintPrinted(a);
    UintPrinted(b);
    hide PrintNat, ParseUint, Split;
    var ts := [PrintNat(a), PrintNat(b)];
    assert ts[..1] == [PrintNat(a)];
    assert Join(ts, '-') == PrintNat(a) + "-" + PrintNat(b);
    SplitJoin(ts, '-');
    assert "-"[0] in PrintNat(a) + "-" + PrintNat(b);
  }

  /** The characters of an item. */
  predicate Plainly(t: string) {
    t != [] && forall i :: 0 <= i < |t| ==> IsDigit(t[i]) || t[i] == '*' || t[i] == '-' || t[i] == '/'
  }

  lemma SpanPlainly(s: Span)
    ensures Plainly(SpanText(s))
  {
  }

  lemma ItemPlainly(i: Item)
    ensures Plainly(ItemText(i))
  {
    SpanPlainly(i.span);
    hide SpanText;
  }

  lemma ByIs(s: Span, d: nat)
    requires |SpanText(s) + "/" + PrintNat(d)| < 256
    ensures var t := SpanText(s) + "/" + PrintNat(d);
      Split(t, '/') == Some([SpanText(s), PrintNat(d)]) && '/' in t
  {
    SpanPlainly(s);
    SpanIs(s, 0, 1);
    PrintedToken(d);
    hide SpanText, PrintNat, Split;
    var ts := [SpanText(s), PrintNat(d)];
    assert ts[..1] == [SpanText(s)];
    assert Join(ts, '/') == SpanText(s) + "/" + PrintNat(d);
    assert "/"[0] in SpanText(s) + "/" + PrintNat(d);
    SplitJoin(ts, '/');
  }

  /** What one item denotes: nothing unless its numbers are in range and in order. */
  lemma ItemDenotes(i: Item, min: nat, max: nat)
    requires min < max <= INT_MAX && |ItemText(i)| < 256
    ensures var r := ItemSet(ItemText(i), min, max);
      && (r.Some? <==> Proper(i, min, max))
      && (r.Some? ==> forall n :: n in r.value <==> Fires(i, min, max, n))
  {
    hide Split, ParseUint, SpanText, PrintNat, RangeOf;
    match i
    case Plain(s) => SpanIs(s, min, max);
    case By(s, d) =>
      ByIs(s, d);
      SpanIs(s, min, max);
      UintPrinted(d);
  }

  lemma {:induction false} UnionDenotes(items: seq<string>, min: nat, max: nat)
    requires min < max && AllGood(items, min, max)
    ensures forall n :: n in Union(items, min, max) <==>
      exists i :: 0 <= i < |items| && n in ItemSet(items[i], min, max).value
    decreases |items|
  {
    hide ItemSet;
    if items != [] {
      var last := |items| - 1;
      UnionDenotes(items[..last], min, max);
      forall n ensures n in Union(items, min, max) <==>
        exists i :: 0 <= i < |items| && n in ItemSet(items[i], min, max).value
      {
        if n in Union(items[..last], min, max) {
          var i :| 0 <= i < last && n in ItemSet(items[..last][i], min, max).value;
          assert items[i] == items[..last][i];
        }
        if i :| 0 <= i < |items| && n in ItemSet(items[i], min, max).value {
          if i < last { assert items[..last][i] == items[i]; }
        }
      }
    }
  }

  lemma {:induction false} JoinLonger(ts: seq<string>, del: char, i: nat)
    requires i < |ts|
    ensures |ts[i]| <= |Join(ts, del)|
    decreases |ts|
  {
    if |ts| > 1 && i < |ts| - 1 { JoinLonger(ts[..|ts|-1], del, i); }
  }

  predicate AllProper(items: seq<Item>, min: nat, max: nat) {
    forall i :: 0 <= i < |items| ==> Proper(items[i], min, max)
  }

  /** Some item of the list stands for `n`. */
  predicate Listed(items: seq<Item>, min: nat, max: nat, n: int) {
    exists i :: 0 <= i < |items| && Fires(items[i], min, max, n)
  }

  /** What a comma list denotes: the numbers its items stand for, and nothing when an
    * item is out of range or out of order. */
  lemma ListDenotes(items: seq<Item>, min: nat, max: nat)
    requires min < max <= INT_MAX && items != [] && |ListText(items)| < 256
    ensures var r := ListSet(ListText(items), min, max);
      && (r.Some? <==> AllProper(items, min, max))
      && (r.Some? ==> forall n :: n in r.value <==> Listed(items, min, max, n))
  {
    hide Split, ItemSet, ItemText, Proper, Fires;
    var ts := ItemTexts(items);
    forall i | 0 <= i < |ts|
      ensures Token(ts[i], ',') && |ts[i]| < 256
    {
      ItemPlainly(items[i]);
      JoinLonger(ts, ',', i);
    }
    SplitJoin(ts, ',');
    forall i | 0 <= i < |ts|
      ensures var r := ItemSet(ts[i], min, max);
        && (r.Some? <==> Proper(items[i], min, max))
        && (r.Some? ==> forall n :: n in r.value <==> Fires(items[i], min, max, n))
    {
      assert ts[i] == ItemText(items[i]) && Token(ts[i], ',');
      ItemDenotes(items[i], min, max);
    }
    assert AllGood(ts, min, max) <==> AllProper(items, min, max);
    if AllGood(ts, min, max) {
      UnionDenotes(ts, min, max);
      forall n ensures n in Union(ts, min, max) <==> Listed(items, min, max, n) {
        if i :| 0 <= i < |ts| && n in ItemSet(ts[i], min, max).value { assert Fires(items[i], min, max, n); }
        if i :| 0 <= i < |items| && Fires(items[i], min, max, n) { assert n in ItemSet(ts[i], min, max).value; }
      }
    }
  }

  // ----- names -----

  /** "JAN" to "DEC" are the months 0 to 11. */
  lemma MonthNamed(i: nat)
    requires i < 12
    ensures var names := ["JAN", "FEB", "MAR", "APR", "MAY", "JUN", "JUL", "AUG", "SEP", "OCT", "NOV", "DEC"];
      MonthSet(names[i]) == Some({i})
  {
    hide MonthSet;
    var names := ["JAN", "FEB", "MAR", "APR", "MAY", "JUN", "JUL", "AUG", "SEP", "OCT", "NOV", "DEC"];
    assert names[i] == MONTHS_ARR[i + 1];
    MonthOfName(i);
  }

  lemma MonthOfName(i: nat)
    requires i < 12
    ensures MonthSet(MONTHS_ARR[i + 1]) == Some({i})
  {
    hide Ordinals, ListSet, PrintNat, Upper, Named;
    GoodNames();
    NameIsNumber(MONTHS_ARR, i + 1, 13);
    NameStays(MONTHS_ARR, i + 1);
    OneNumber(i + 1, 1, 13);
    var ones := {i + 1};
    assert forall n :: 0 <= n < 12 ==> (Shifted(ones, n) <==> n == i);
    assert (set n | 0 <= n < 12 && Shifted(ones, n)) == {i};
  }

  lemma NameStays(names: seq<string>, i: nat)
    requires Named(names) && i < |names|
    ensures Upper(names[i]) == names[i] && Star(names[i]) == names[i]
  {
    CapitalsStay(names[i]);
  }

  /** "SUN" to "SAT" are the weekdays 0 to 6. */
  lemma WeekdayNamed(i: nat)
    requires i < 7
    ensures var names := ["SUN", "MON", "TUE", "WED", "THU", "FRI", "SAT"]; WeekdaySet(names[i]) == Some({i})
  {
    hide WeekdaySet;
    var names := ["SUN", "MON", "TUE", "WED", "THU", "FRI", "SAT"];
    assert names[i] == DAYS_ARR[i];
    WeekdayOfName(i);
  }

  lemma WeekdayOfName(i: nat)
    requires i < 7
    ensures WeekdaySet(DAYS_ARR[i]) == Some({i})
  {
    hide Ordinals, ListSet, PrintNat, Upper, Named, Star;
    GoodNames();
    NameIsNumber(DAYS_ARR, i, 7);
    NameStays(DAYS_ARR, i);
    OneNumber(i, 0, 8);
    assert {i} - {7} + {} == {i};
  }

  lemma CapitalsStay(s: string)
    requires forall i :: 0 <= i < |s| ==> !('a' <= s[i] <= 'z')
    ensures Upper(s) == s
  {
  }

  lemma OneNumber(n: nat, min: nat, max: nat)
    requires min <= n < max <= 60
    ensures ListSet(PrintNat(n), min, max) == Some({n})
  {
    var items := [Plain(One(n))];
    assert ItemTexts(items) == [PrintNat(n)];
    assert |PrintNat(n)| <= 2 by { ShortNumber(n); }
    hide PrintNat;
    ListDenotes(items, min, max);
    var s := ListSet(PrintNat(n), min, max).value;
    assert forall k :: k in s <==> k == n by {
      assert Fires(items[0], min, max, n);
    }
    assert s == {n};
  }

  lemma ShortNumber(n: nat)
    requires n < 100
    ensures |PrintNat(n)| <= 2
  {
  }

  // ----- the fields -----

  /** Neither letters nor white space nor a question mark. */
  predicate Numeric(t: string) {
    t != [] && forall i :: 0 <= i < |t| ==>
      IsDigit(t[i]) || t[i] == '*' || t[i] == '-' || t[i] == '/' || t[i] == ','
  }

  lemma {:induction false} JoinNumeric(ts: seq<string>)
    requires ts != [] && forall i :: 0 <= i < |ts| ==> Plainly(ts[i])
    ensures Numeric(Join(ts, ','))
    decreases |ts|
  {
    if |ts| > 1 { JoinNumeric(ts[..|ts|-1]); }
  }

  lemma ListNumeric(items: seq<Item>)
    requires items != []
    ensures Numeric(ListText(items))
  {
    forall i | 0 <= i < |items| ensures Plainly(ItemTexts(items)[i]) { ItemPlainly(items[i]); }
    JoinNumeric(ItemTexts(items));
  }

  lemma NumericStays(t: string)
    requires Numeric(t)
    ensures Star(t) == t && Upper(t) == t && Token(t, ' ')
    ensures Ordinals(t, MONTHS_ARR, 13) == t && Ordinals(t, DAYS_ARR, 7) == t
  {
    hide Ordinals, Upper, Named;
    GoodNames();
    CapitalsStay(t);
    NumbersStay(t, MONTHS_ARR, 13);
    NumbersStay(t, DAYS_ARR, 7);
  }

  lemma GoodNames()
    ensures Named(MONTHS_ARR) && Named(DAYS_ARR)
  {
  }

  /** Months in numbers are counted from 1 and kept from 0. */
  lemma MonthsDenote(items: seq<Item>)
    requires items != [] && |ListText(items)| < 256
    ensures var r := MonthSet(ListText(items));
      && (r.Some? <==> AllProper(items, 1, 13))
      && (r.Some? ==> forall n :: n in r.value <==> 0 <= n < 12 && Listed(items, 1, 13, n + 1))
  {
    hide ListText, ListSet, Ordinals, Numeric, Listed;
    ListNumeric(items);
    NumericStays(ListText(items));
    ListDenotes(items, 1, 13);
    var r := ListSet(ListText(items), 1, 13);
    if r.Some? {
      assert forall n :: Shifted(r.value, n) <==> Listed(items, 1, 13, n + 1);
    }
  }

  /** Sunday is 0 or 7. */
  lemma WeekdaysDenote(items: seq<Item>)
    requires items != [] && |ListText(items)| < 256
    ensures var r := WeekdaySet(ListText(items));
      && (r.Some? <==> AllProper(items, 0, 8))
      && (r.Some? ==> forall n :: n in r.value <==>
            (n != 7 && Listed(items, 0, 8, n)) || (n == 0 && Listed(items, 0, 8, 7)))
  {
    hide ListText, ListSet, Ordinals, Numeric, Listed, AllProper, Upper, Star;
    ListNumeric(items);
    NumericStays(ListText(items));
    ListDenotes(items, 0, 8);
    SundayIs(ListText(items));
  }

  /** The set of weekdays from a list of plain numbers. */
  lemma SundayIs(t: string)
    requires Ordinals(Upper(Star(t)), DAYS_ARR, 7) == t
    ensures var r, s := WeekdaySet(t), ListSet(t, 0, 8);
      && (r.Some? <==> s.Some?)
      && (r.Some? ==> forall n :: n in r.value <==> (n != 7 && n in s.value) || (n == 0 && 7 in s.value))
  {
    hide ListSet, Ordinals, Upper, Star;
  }

  lemma MonthDaysDenote(items: seq<Item>)
    requires items != [] && |ListText(items)| < 256
    ensures var r := DayOfMonthSet(ListText(items));
      && (r.Some? <==> AllProper(items, 1, 32))
      && (r.Some? ==> forall n :: n in r.value <==> Listed(items, 1, 32, n))
  {
    hide ListText, ListSet, Numeric, Listed;
    ListNumeric(items);
    NumericStays(ListText(items));
    ListDenotes(items, 1, 32);
  }

  /** "?" leaves a day field open. */
  lemma QuestionDenotes()
    ensures var r := DayOfMonthSet("?"); r.Some? && forall n :: n in r.value <==> 1 <= n < 32
    ensures var r := WeekdaySet("?"); r.Some? && forall n :: n in r.value <==> 0 <= n < 7
  {
    hide ListSet, Ordinals, Upper;
    NumericStays("*");
    EveryDenotes(1, 32);
    EveryDenotes(0, 8);
    SundayIs("*");
  }

  /** "*" is every number of the field. */
  lemma EveryDenotes(min: nat, max: nat)
    requires min < max <= 60
    ensures var r := ListSet("*", min, max); r.Some? && forall n :: n in r.value <==> min <= n < max
  {
    var items := [Plain(Every)];
    assert ItemTexts(items) == ["*"] && ListText(items) == "*";
    ListDenotes(items, min, max);
    ListedOnce(Plain(Every), min, max);
  }

  // ----- the expression -----

  datatype Fields = Fields(seconds: seq<Item>, minutes: seq<Item>, hours: seq<Item>,
                           days_of_month: seq<Item>, months: seq<Item>, days_of_week: seq<Item>)

  function FieldTexts(f: Fields): seq<string> {
    [ListText(f.seconds), ListText(f.minutes), ListText(f.hours),
     ListText(f.days_of_month), ListText(f.months), ListText(f.days_of_week)]
  }

  function ExpressionText(f: Fields): string {
    Join(FieldTexts(f), ' ')
  }

  predicate AllFields(f: Fields) {
    && f.seconds != [] && f.minutes != [] && f.hours != []
    && f.days_of_month != [] && f.months != [] && f.days_of_week != []
  }

  /** What an expression in numbers sets in each of its six fields, and when it is
    * refused. */
  lemma ExpressionDenotes(f: Fields, e: CronExpr)
    requires AllFields(f) && |ExpressionText(f)| < 256
    ensures Denoted(ExpressionText(f)).Some? <==>
      && AllProper(f.seconds, 0, 60) && AllProper(f.minutes, 0, 60) && AllProper(f.hours, 0, 24)
      && AllProper(f.days_of_month, 1, 32) && AllProper(f.months, 1, 13) && AllProper(f.days_of_week, 0, 8)
    ensures Denoted(ExpressionText(f)) == Some(BitSets(e)) ==>
      && (forall n :: n in Members(e.seconds) <==> Listed(f.seconds, 0, 60, n))
      && (forall n :: n in Members(e.minutes) <==> Listed(f.minutes, 0, 60, n))
      && (forall n :: n in Members(e.hours) <==> Listed(f.hours, 0, 24, n))
      && (forall n :: n in Members(e.days_of_month) <==> Listed(f.days_of_month, 1, 32, n))
      && (forall n :: n in Members(e.months) <==> 0 <= n < 12 && Listed(f.months, 1, 13, n + 1))
      && (forall n :: n in Members(e.days_of_week) <==>
            (n != 7 && Listed(f.days_of_week, 0, 8, n)) || (n == 0 && Listed(f.days_of_week, 0, 8, 7)))
  {
    hide ListText, ListSet, MonthSet, WeekdaySet, DayOfMonthSet, Members, Split, Listed, AllProper;
    FieldsSplit(f);
    assert forall i :: 0 <= i < 6 ==> |FieldTexts(f)[i]| < 256;
    assert |FieldTexts(f)[0]| < 256 && |FieldTexts(f)[1]| < 256 && |FieldTexts(f)[2]| < 256;
    assert |FieldTexts(f)[3]| < 256 && |FieldTexts(f)[4]| < 256 && |FieldTexts(f)[5]| < 256;
    ListDenotes(f.seconds, 0, 60);
    ListDenotes(f.minutes, 0, 60);
    ListDenotes(f.hours, 0, 24);
    MonthDaysDenote(f.days_of_month);
    MonthsDenote(f.months);
    WeekdaysDenote(f.days_of_week);
  }

  /** An expression of any other number of fields is refused. */
  lemma FieldCount(ts: seq<string>)
    requires ts != [] && Tokens(ts, ' ') && |Join(ts, ' ')| < 256 && |ts| != 6
    ensures Denoted(Join(ts, ' ')) == None
  {
    hide Join, Split, ListSet, MonthSet, WeekdaySet, DayOfMonthSet;
    SplitJoin(ts, ' ');
  }

  /** So is an item with two slashes or a range with two dashes. */
  lemma PartCount(ts: seq<string>, min: nat, max: nat)
    requires |ts| > 2 && min < max
    ensures Tokens(ts, '/') && |Join(ts, '/')| < 256 ==> ItemSet(Join(ts, '/'), min, max) == None
    ensures Tokens(ts, '-') && |Join(ts, '-')| < 256 ==> RangeOf(Join(ts, '-'), min, max) == None
  {
    hide Split, ParseUint;
    JoinHas(ts, '/');
    JoinHas(ts, '-');
    if Tokens(ts, '/') && |Join(ts, '/')| < 256 { SplitJoin(ts, '/'); }
    if Tokens(ts, '-') && |Join(ts, '-')| < 256 {
      SplitJoin(ts, '-');
      assert '-' in Join(ts, '-') && "*"[0] == '*';
    }
  }

  lemma JoinHas(ts: seq<string>, del: char)
    requires |ts| > 1
    ensures del in Join(ts, del)
  {
    var s := Join(ts[..|ts|-1], del);
    assert Join(ts, del) == s + [del] + ts[|ts|-1];
    assert Join(ts, del)[|s|] == del;
  }

  lemma FieldsSplit(f: Fields)
    requires AllFields(f) && |ExpressionText(f)| < 256
    ensures Split(ExpressionText(f), ' ') == Some(FieldTexts(f))
    ensures forall i :: 0 <= i < 6 ==> |FieldTexts(f)[i]| < 256
  {
    hide ListText, Split, Join;
    var ts := FieldTexts(f);
    FieldToken(f.seconds);
    FieldToken(f.minutes);
    FieldToken(f.hours);
    FieldToken(f.days_of_month);
    FieldToken(f.months);
    FieldToken(f.days_of_week);
    assert Tokens(ts, ' ');
    forall i | 0 <= i < 6 ensures |ts[i]| < 256 { JoinLonger(ts, ' ', i); }
    SplitJoin(ts, ' ');
  }

  lemma FieldToken(items: seq<Item>)
    requires items != []
    ensures Token(ListText(items), ' ')
  {
    hide ListText;
    ListNumeric(items);
    NumericStays(ListText(items));
  }

  /** Half past eight, every second of that minute, on Mondays, Tuesdays and Wednesdays. */
  lemma HalfPastEight(e: CronExpr)
    ensures Denoted("* 30 8 * * 1,2,3").Some?
    ensures Denoted("* 30 8 * * 1,2,3") == Some(BitSets(e)) ==>
      && (forall n :: n in Members(e.seconds) <==> 0 <= n < 60)
      && (forall n :: n in Members(e.minutes) <==> n == 30)
      && (forall n :: n in Members(e.hours) <==> n == 8)
      && (forall n :: n in Members(e.days_of_month) <==> 1 <= n < 32)
      && (forall n :: n in Members(e.months) <==> 0 <= n < 12)
      && (forall n :: n in Members(e.days_of_week) <==> n == 1 || n == 2 || n == 3)
  {
    hide Members, Denoted, BitSets, ExpressionText, Listed;
    var f := HALF_PAST;
    HalfPastText();
    ExpressionDenotes(f, e);
    ListedOnce(Plain(Every), 0, 60);
    ListedOnce(Plain(One(30)), 0, 60);
    ListedOnce(Plain(One(8)), 0, 24);
    ListedOnce(Plain(Every), 1, 32);
    ListedOnce(Plain(Every), 1, 13);
    ListedThrice(f.days_of_week);
  }

  const HALF_PAST := Fields([Plain(Every)], [Plain(One(30))], [Plain(One(8))], [Plain(Every)], [Plain(Every)],
                            [Plain(One(1)), Plain(One(2)), Plain(One(3))])

  lemma HalfPastText()
    ensures ExpressionText(HALF_PAST) == "* 30 8 * * 1,2,3"
  {
    hide Join;
    HalfPastFields();
    var ts := ["*", "30", "8", "*", "*", "1,2,3"];
    var ts3, ts4, ts5 := ["*", "30", "8"], ["*", "30", "8", "*"], ["*", "30", "8", "*", "*"];
    Three("*", "30", "8", ' ');
    JoinMore(ts3, "*", ' ');
    JoinMore(ts4, "*", ' ');
    JoinMore(ts5, "1,2,3", ' ');
    assert ts3 + ["*"] == ts4 && ts4 + ["*"] == ts5 && ts5 + ["1,2,3"] == ts;
    hide FieldTexts;
    assert "*" + [' '] + "30" + [' '] + "8" + [' '] + "*" + [' '] + "*" + [' '] + "1,2,3" == "* 30 8 * * 1,2,3";
  }

  lemma HalfPastFields()
    ensures FieldTexts(HALF_PAST) == ["*", "30", "8", "*", "*", "1,2,3"]
  {
    hide Join;
    SmallNumbers();
    hide PrintNat;
    var days := HALF_PAST.days_of_week;
    JoinOne("*", ',');
    JoinOne("30", ',');
    JoinOne("8", ',');
    assert ItemTexts([Plain(Every)]) == ["*"] && ItemTexts([Plain(One(30))]) == ["30"];
    assert ItemTexts([Plain(One(8))]) == ["8"] && ItemTexts(days) == ["1", "2", "3"];
    Three("1", "2", "3", ',');
    assert "1" + [','] + "2" + [','] + "3" == "1,2,3";
  }

  lemma SmallNumbers()
    ensures PrintNat(30) == "30" && PrintNat(8) == "8" && PrintNat(1) == "1" && PrintNat(2) == "2" && PrintNat(3) == "3"
  {
  }

  lemma JoinOne(t: string, del: char)
    ensures Join([t], del) == t
  {
  }

  lemma JoinMore(ts: seq<string>, t: string, del: char)
    requires ts != []
    ensures Join(ts + [t], del) == Join(ts, del) + [del] + t
  {
    assert (ts + [t])[..|ts|] == ts;
  }

  lemma Three(a: string, b: string, c: string, del: char)
    ensures Join([a, b, c], del) == a + [del] + b + [del] + c
  {
    JoinOne(a, del);
    JoinMore([a], b, del);
    assert [a] + [b] == [a, b] && [a, b] + [c] == [a, b, c];
    JoinMore([a, b], c, del);
  }

  lemma ListedOnce(i: Item, min: nat, max: nat)
    ensures forall n :: Listed([i], min, max, n) <==> Fires(i, min, max, n)
  {
    forall n | Fires(i, min, max, n) ensures Listed([i], min, max, n) { assert Fires([i][0], min, max, n); }
  }

  lemma ListedThrice(items: seq<Item>)
    requires items == [Plain(One(1)), Plain(One(2)), Plain(One(3))]
    ensures forall n :: Listed(items, 0, 8, n) <==> n == 1 || n == 2 || n == 3
  {
    assert Fires(items[0], 0, 8, 1) && Fires(items[1], 0, 8, 2) && Fires(items[2], 0, 8, 3);
  }
}
