/** Names of months and weekdays anywhere in a cron field. */
module CronNames {
  import opened CronParse
  import opened CronTexts
  import opened Decimal
  import opened Wrappers

  /** A name, or text without letters between names. */
  datatype Chunk = Name(i: nat) | Plaintext(t: string)

  predicate NoLetters(t: string) {
    forall k :: 0 <= k < |t| ==> !('A' <= t[k] <= 'Z') && !('a' <= t[k] <= 'z')
  }

  function ChunkText(c: Chunk, names: seq<string>): string
    requires c.Name? ==> c.i < |names|
  {
    if c.Name? then names[c.i] else c.t
  }

  /** Chunks whose names stand apart from each other. */
  predicate Chunks(cs: seq<Chunk>, names: seq<string>) {
    && (forall k :: 0 <= k < |cs| ==> if cs[k].Name? then cs[k].i < |names| else NoLetters(cs[k].t))
    && (forall k :: 0 <= k < |cs| - 1 && cs[k].Name? ==> cs[k + 1].Plaintext? && cs[k + 1].t != [])
  }

  function Text(cs: seq<Chunk>, names: seq<string>): string
    requires Chunks(cs, names)
  {
    if cs == [] then [] else ChunkText(cs[0], names) + Text(cs[1..], names)
  }

  /** The first `n` names as numbers. */
  function Numbered(c: Chunk, n: nat): Chunk {
    if c.Name? && c.i < n then Plaintext(PrintNat(c.i)) else c
  }

  function AllNumbered(cs: seq<Chunk>, n: nat): seq<Chunk> {
    seq(|cs|, k requires 0 <= k < |cs| => Numbered(cs[k], n))
  }

  lemma NumberedChunks(cs: seq<Chunk>, names: seq<string>, n: nat)
    requires Chunks(cs, names)
    ensures Chunks(AllNumbered(cs, n), names)
  {
    forall i: nat ensures NoLetters(PrintNat(i)) && PrintNat(i) != [] { PrintedToken(i); }
  }

  // ----- where a name occurs -----

  /** Behind a name there is no letter. */
  predicate Ends(rest: string) {
    rest == [] || !('A' <= rest[0] <= 'Z')
  }

  lemma TextEnds(cs: seq<Chunk>, names: seq<string>)
    requires Chunks(cs, names) && (cs == [] || (cs[0].Plaintext? && cs[0].t != []))
    ensures Ends(Text(cs, names))
  {
  }

  /** In a chunk and what follows it a name occurs at the chunk, if that is its text,
    * and where it occurs in what follows. */
  lemma OccursIn(c: string, rest: string, rep: string, j: nat)
    requires |rep| == 3 && forall k :: 0 <= k < 3 ==> 'A' <= rep[k] <= 'Z'
    requires NoLetters(c) || (|c| == 3 && Ends(rest))
    ensures OccursAt(c + rest, rep, j) <==> (j == 0 && c == rep) || (j >= |c| && OccursAt(rest, rep, j - |c|))
  {
    var s := c + rest;
    OccursChars(s, rep, j);
    if j >= |c| {
      if j + 3 <= |s| { assert s[j..j+3] == rest[j - |c|..j - |c| + 3]; }
      if c == rep { assert j >= 3; }
      if c == [] { assert c != rep; }
    } else {
      assert s[j] == c[j] && (|c| == 3 && |s| > 3 ==> s[3] == rest[0]);
      if j == 0 && |c| == 3 { assert s[0..3] == c; }
    }
  }

  lemma OccursChars(s: string, rep: string, j: nat)
    ensures OccursAt(s, rep, j) ==> forall i :: j <= i < j + |rep| ==> s[i] == rep[i - j]
  {
    if OccursAt(s, rep, j) {
      forall i | j <= i < j + |rep| ensures s[i] == rep[i - j] { assert s[j..j+|rep|][i - j] == s[i]; }
    }
  }

  /** One chunk more in front. */
  lemma ReplacedFirst(c: string, rest: string, rep: string, with: string)
    requires |rep| == 3 && forall k :: 0 <= k < 3 ==> 'A' <= rep[k] <= 'Z'
    requires NoLetters(c) || (|c| == 3 && Ends(rest))
    ensures Replaced(c + rest, rep, with) == (if c == rep then with else c) + Replaced(rest, rep, with)
  {
    hide OccursAt, StrStr;
    forall j: nat
      ensures OccursAt(c + rest, rep, j) <==> (j == 0 && c == rep) || (j >= |c| && OccursAt(rest, rep, j - |c|))
    {
      OccursIn(c, rest, rep, j);
    }
    var s, r, q := c + rest, StrStr(c + rest, rep, 0), StrStr(rest, rep, 0);
    assert c != rep && r != -1 ==> r >= |c| && OccursAt(rest, rep, r - |c|);
    if c == rep {
      assert OccursAt(s, rep, 0) && r == 0;
      assert s[3..] == rest && s[..0] == [];
    } else if q == -1 {
      assert r == -1;
    } else {
      assert OccursAt(s, rep, |c| + q);
      assert r == |c| + q;
      assert s[..r] == c + rest[..q] && s[r+3..] == rest[q+3..];
    }
  }

  lemma {:induction false} ReplacedName(cs: seq<Chunk>, names: seq<string>, n: nat)
    requires Named(names) && n < |names| && Chunks(cs, names)
    requires forall k :: 0 <= k < |cs| ==> cs[k].Name? ==> cs[k].i >= n
    ensures Chunks(AllNumbered(cs, n + 1), names)
    ensures Replaced(Text(cs, names), names[n], PrintNat(n)) == Text(AllNumbered(cs, n + 1), names)
    decreases |cs|
  {
    hide PrintNat, OccursAt, StrStr;
    NumberedChunks(cs, names, n + 1);
    if cs != [] {
      var rest := cs[1..];
      if cs[0].Name? { TextEnds(rest, names); }
      ReplacedFirst(ChunkText(cs[0], names), Text(rest, names), names[n], PrintNat(n));
      ReplacedName(rest, names, n);
      ChunkNumbered(cs[0], names, n);
      var ns := AllNumbered(cs, n + 1);
      assert ns[0] == Numbered(cs[0], n + 1) && ns[1..] == AllNumbered(rest, n + 1);
      hide Replaced, Chunks, ChunkText, Named, AllNumbered, Numbered;
      assert Text(ns, names) == ChunkText(ns[0], names) + Text(ns[1..], names);
    }
  }

  lemma ChunkNumbered(c: Chunk, names: seq<string>, n: nat)
    requires Named(names) && n < |names| && if c.Name? then n <= c.i < |names| else NoLetters(c.t)
    ensures ChunkText(Numbered(c, n + 1), names) ==
      if ChunkText(c, names) == names[n] then PrintNat(n) else ChunkText(c, names)
  {
    hide PrintNat;
    assert 'A' <= names[n][0] <= 'Z';
    assert c.Plaintext? && c.t != [] ==> !('A' <= c.t[0] <= 'Z');
  }

  /** Names stand for their numbers. */
  lemma {:induction false} NamesAreNumbers(cs: seq<Chunk>, names: seq<string>, n: nat)
    requires Named(names) && n <= |names| && Chunks(cs, names)
    ensures Chunks(AllNumbered(cs, n), names)
    ensures Ordinals(Text(cs, names), names, n) == Text(AllNumbered(cs, n), names)
  {
    hide PrintNat, Replaced;
    NumberedChunks(cs, names, n);
    if n == 0 {
      assert AllNumbered(cs, 0) == cs;
    } else {
      NamesAreNumbers(cs, names, n - 1);
      ReplacedName(AllNumbered(cs, n - 1), names, n - 1);
      assert AllNumbered(AllNumbered(cs, n - 1), n) == AllNumbered(cs, n);
    }
  }

  lemma {:induction false} PlainText(cs: seq<Chunk>, names: seq<string>)
    requires Chunks(cs, names) && forall k :: 0 <= k < |cs| ==> cs[k].Plaintext?
    ensures NoLetters(Text(cs, names))
    decreases |cs|
  {
    if cs != [] { PlainText(cs[1..], names); }
  }

  lemma {:induction false} CapitalText(cs: seq<Chunk>, names: seq<string>)
    requires Chunks(cs, names) && Named(names)
    ensures Upper(Text(cs, names)) == Text(cs, names)
    decreases |cs|
  {
    AllCapital(cs, names);
    CapitalsStay(Text(cs, names));
  }

  lemma {:induction false} AllCapital(cs: seq<Chunk>, names: seq<string>)
    requires Chunks(cs, names) && Named(names)
    ensures forall k :: 0 <= k < |Text(cs, names)| ==> !('a' <= Text(cs, names)[k] <= 'z')
    decreases |cs|
  {
    if cs != [] { AllCapital(cs[1..], names); }
  }

  /** In a field of months names may stand for numbers anywhere. */
  lemma MonthNames(cs: seq<Chunk>)
    requires Chunks(cs, MONTHS_ARR)
    ensures Chunks(AllNumbered(cs, 13), MONTHS_ARR)
    ensures MonthSet(Text(cs, MONTHS_ARR)) == MonthSet(Text(AllNumbered(cs, 13), MONTHS_ARR))
  {
    hide Ordinals, Upper, Named, ListSet, Text;
    GoodNames();
    NamesAreNumbers(cs, MONTHS_ARR, 13);
    CapitalText(cs, MONTHS_ARR);
    NumbersOnly(cs, MONTHS_ARR);
  }

  lemma NumbersOnly(cs: seq<Chunk>, names: seq<string>)
    requires Chunks(cs, names) && Named(names)
    ensures Chunks(AllNumbered(cs, |names|), names)
    ensures var t := Text(AllNumbered(cs, |names|), names); Upper(t) == t && Ordinals(t, names, |names|) == t
  {
    hide Ordinals, Upper, Named, PrintNat;
    NumberedChunks(cs, names, |names|);
    var t := Text(AllNumbered(cs, |names|), names);
    PlainText(AllNumbered(cs, |names|), names);
    CapitalsStay(t);
    NumbersStay(t, names, |names|);
  }

  /** ... and in one of weekdays. */
  lemma WeekdayNames(cs: seq<Chunk>)
    requires Chunks(cs, DAYS_ARR) && Text(cs, DAYS_ARR) != "?"
    ensures Chunks(AllNumbered(cs, 7), DAYS_ARR)
    ensures Text(AllNumbered(cs, 7), DAYS_ARR) != "?" ==>
      WeekdaySet(Text(cs, DAYS_ARR)) == WeekdaySet(Text(AllNumbered(cs, 7), DAYS_ARR))
  {
    hide Ordinals, Upper, Named, ListSet, Text;
    GoodNames();
    NamesAreNumbers(cs, DAYS_ARR, 7);
    CapitalText(cs, DAYS_ARR);
    NumbersOnly(cs, DAYS_ARR);
  }

  /** "MON-FRI" is the weekdays 1 to 5. */
  lemma WorkingDays()
    ensures var r := WeekdaySet("MON-FRI"); r.Some? && forall n :: n in r.value <==> 1 <= n <= 5
  {
    hide WeekdaySet, ListText;
    var cs := [Name(1), Plaintext("-"), Name(5)];
    WorkingText(cs);
    WeekdayNames(cs);
    var items := [Plain(From(1, 5))];
    WorkingItems(items);
    WeekdaysDenote(items);
    ListedOnce(items[0], 0, 8);
  }

  lemma WorkingText(cs: seq<Chunk>)
    requires cs == [Name(1), Plaintext("-"), Name(5)]
    ensures Chunks(cs, DAYS_ARR) && Text(cs, DAYS_ARR) == "MON-FRI"
    ensures Chunks(AllNumbered(cs, 7), DAYS_ARR) && Text(AllNumbered(cs, 7), DAYS_ARR) == "1-5"
  {
    var ns := AllNumbered(cs, 7);
    assert PrintNat(1) == "1" && PrintNat(5) == "5" && DAYS_ARR[1] == "MON" && DAYS_ARR[5] == "FRI";
    assert ns == [Plaintext("1"), Plaintext("-"), Plaintext("5")];
    assert Chunks(cs, DAYS_ARR) && Chunks(ns, DAYS_ARR);
    hide Chunks, AllNumbered, PrintNat;
    ThreeChunks(cs, DAYS_ARR);
    ThreeChunks(ns, DAYS_ARR);
    assert "MON" + "-" + "FRI" == "MON-FRI" && "1" + "-" + "5" == "1-5";
  }

  lemma ThreeChunks(cs: seq<Chunk>, names: seq<string>)
    requires |cs| == 3 && Chunks(cs, names)
    ensures Text(cs, names) == ChunkText(cs[0], names) + ChunkText(cs[1], names) + ChunkText(cs[2], names)
  {
    hide ChunkText;
    var two, one := cs[1..], cs[2..];
    assert two[1..] == one && one[1..] == [];
    assert Text(one, names) == ChunkText(cs[2], names) + [];
    assert Text(two, names) == ChunkText(cs[1], names) + Text(one, names);
  }

  lemma WorkingItems(items: seq<Item>)
    requires items == [Plain(From(1, 5))]
    ensures ListText(items) == "1-5" && AllProper(items, 0, 8)
  {
    assert PrintNat(1) == "1" && PrintNat(5) == "5" && "1" + "-" + "5" == "1-5";
    assert ItemText(items[0]) == "1-5";
    assert ItemTexts(items) == ["1-5"];
  }
}
