/** The round trip of JSON Patch: for every pair of trees, what applying the
  * generated patch does, and when that is what it was generated for. */
module JsonPatchTheorem {
  import JsonSort
  import opened Decimal
  import opened JsonPatch
  import opened JsonPointer
  import opened JsonRoundTrip
  import opened JsonText
  import opened JsonTree
  import opened Wrappers
  import opened Sequences

  // ----- arrays -----

  /** The outcome of removing index c, then c + 1, and so on to the end. */
  function Thinned(items: seq<Json>, c: nat): seq<Json> {
    if c < |items| then items[..c] + Survivors(items[c..]) else items
  }

  lemma ThinnedStep(items: seq<Json>, c: nat)
    requires c < |items|
    ensures Thinned(Without(items, c), c + 1) == Thinned(items, c)
  {
    var left, tail := Without(items, c), items[c..];
    SurvivorsTwo(tail);
    ThinnedIs(items, c);
    if |tail| >= 2 { ThinnedIs(left, c + 1); }
    hide Survivors;
    if |tail| >= 2 {
      hide Thinned, Without;
      SecondMovesUp(items, c);
      var y, rest := tail[1], Survivors(tail[2..]);
      assert (items[..c] + [y]) + rest == items[..c] + ([y] + rest);
    } else {
      assert left == items[..c];
    }
  }

  lemma ThinnedIs(items: seq<Json>, c: nat)
    requires c <= |items|
    ensures Thinned(items, c) == items[..c] + Survivors(items[c..])
  {
    if c == |items| { assert items[..c] + Survivors(items[c..]) == items; }
  }

  lemma SecondMovesUp(items: seq<Json>, c: nat)
    requires c + 1 < |items|
    ensures var left, tail := Without(items, c), items[c..];
      left[..c+1] == items[..c] + [tail[1]] && left[c+1..] == tail[2..] && (c + 1 == |left| ==> tail[2..] == [])
  {
  }

  lemma SurvivorsTwo(s: seq<Json>)
    ensures Survivors(s) == if |s| < 2 then [] else [s[1]] + Survivors(s[2..])
  {
  }

  lemma RemoveOne(items: seq<Json>, c: nat)
    ensures ApplyEdit(Arr(items), Edit("remove", Below("", PrintNat(c)), None)) ==
      Done(0, Arr(if c < |items| then Without(items, c) else items))
  {
    hide ApplyEdit, Below, Atoi, PrintNat;
    EditHere(Arr(items), PrintNat(c), Null);
    AtoiPrinted(c);
  }

  /** Removing ascending indices from a tail leaves every second element of it. */
  lemma {:induction false} RemoveTail(items: seq<Json>, c: nat, a: seq<Json>)
    requires |items| <= c + |a|
    ensures ApplyEdits(Arr(items), ItemEdits("", a, [], c)) == Done(0, Arr(Thinned(items, c)))
    decreases |a|
  {
    hide ApplyEdit, Below, PrintNat, Survivors;
    if a != [] {
      RemoveOne(items, c);
      if c < |items| {
        RemoveTail(Without(items, c), c + 1, a[1..]);
        ThinnedStep(items, c);
      } else {
        RemoveTail(items, c + 1, a[1..]);
      }
    }
  }

  /** Appending leftovers with "-" adds them in order. */
  lemma {:induction false} AddTail(items: seq<Json>, c: nat, b: seq<Json>)
    ensures ApplyEdits(Arr(items), ItemEdits("", [], b, c)) == Done(0, Arr(items + Duplicates(b)))
    decreases |b|
  {
    hide ApplyEdit, Duplicate;
    if b == [] {
      assert items + Duplicates(b) == items;
    } else {
      EditHere(Arr(items), "-", b[0]);
      AddTail(items + [Duplicate(b[0])], c + 1, b[1..]);
      assert items + [Duplicate(b[0])] + Duplicates(b[1..]) == items + Duplicates(b);
    }
  }

  lemma DuplicatesMean(b: seq<Json>)
    requires WellFormed(Arr(b))
    ensures WellFormed(Arr(Duplicates(b))) && DenoteItems(Duplicates(b)) == DenoteItems(b)
  {
    hide Duplicate, Denote;
    forall i | 0 <= i < |b| ensures WellFormed(Duplicate(b[i])) && Denote(Duplicate(b[i])) == Denote(b[i]) {
      DuplicateMeans(b[i]);
    }
  }

  lemma {:induction false} SurvivorsMean(a: seq<Json>, b: seq<Json>)
    requires DenoteItems(a) == DenoteItems(b)
    ensures DenoteItems(Survivors(a)) == DenoteItems(Survivors(b))
    decreases |a|
  {
    ItemsEqual(a, b);
    if |a| >= 2 {
      ItemsEqual(a[2..], b[2..]);
      SurvivorsMean(a[2..], b[2..]);
      ItemsEqual(Survivors(a[2..]), Survivors(b[2..]));
      ItemsEqual(Survivors(a), Survivors(b));
    }
  }

  lemma {:induction false} SurvivorsIn(s: seq<Json>)
    ensures forall x :: x in Survivors(s) ==> x in s
    decreases |s|
  {
    if |s| >= 2 {
      SurvivorsIn(s[2..]);
    }
  }

  ghost predicate ItemsOutcome(r: Outcome, items: seq<Json>, c: nat, m: seq<Meaning>) {
    && r.Done? && r.err == 0 && r.doc.Arr? && WellFormed(r.doc)
    && c <= |items| && c <= |r.doc.items| && r.doc.items[..c] == items[..c]
    && DenoteItems(r.doc.items[c..]) == m
  }

  ghost predicate ItemsEnd(r: Outcome, items: seq<Json>, c: nat, m: seq<Meaning>, touched: bool) {
    if touched then r == Fault else ItemsOutcome(r, items, c, m)
  }

  lemma RemovedItems(items: seq<Json>, a: seq<Json>, c: nat)
    requires c <= |items| && WellFormed(Arr(items)) && a != []
    requires DenoteItems(items[c..]) == DenoteItems(a)
    ensures ItemsOutcome(ApplyEdits(Arr(items), ItemEdits("", a, [], c)), items, c, PatchedItems(a, []))
  {
    hide ApplyEdits, ItemEdits, Denote;
    assert |DenoteItems(items[c..])| == |items[c..]| && |DenoteItems(a)| == |a|;
    RemoveTail(items, c, a);
    var tail := items[c..];
    SurvivorsMean(tail, a);
    SurvivorsIn(tail);
    var r := items[..c] + Survivors(tail);
    assert r[c..] == Survivors(tail) && r[..c] == items[..c];
    forall i | 0 <= i < |r| ensures WellFormed(r[i]) {
      if i < c {
        assert r[i] == items[i];
      } else {
        assert r[i] in Survivors(tail);
        var n :| 0 <= n < |tail| && tail[n] == r[i];
        assert items[c + n] == r[i];
      }
    }
    assert Thinned(items, c) == r;
  }

  lemma AddedItems(items: seq<Json>, b: seq<Json>, c: nat)
    requires c == |items| && WellFormed(Arr(items)) && WellFormed(Arr(b))
    ensures ItemsOutcome(ApplyEdits(Arr(items), ItemEdits("", [], b, c)), items, c, PatchedItems([], b))
  {
    hide ApplyEdits, ItemEdits, Denote, Duplicates;
    AddTail(items, c, b);
    DuplicatesMean(b);
    var b' := Duplicates(b);
    assert (items + b')[c..] == b' && (items + b')[..c] == items[..c];
  }

  lemma LeftoverItems(items: seq<Json>, a: seq<Json>, b: seq<Json>, c: nat)
    requires c <= |items| && WellFormed(Arr(items)) && WellFormed(Arr(b)) && (a == [] || b == [])
    requires DenoteItems(items[c..]) == DenoteItems(a)
    ensures ItemsOutcome(ApplyEdits(Arr(items), ItemEdits("", a, b, c)), items, c, PatchedItems(a, b))
  {
    hide ApplyEdits, ItemEdits, Denote, ItemsOutcome, WellFormed;
    if a != [] {
      RemovedItems(items, a, c);
    } else {
      assert |DenoteItems(items[c..])| == |items[c..]| && |DenoteItems(a)| == |a|;
      assert a == b[..0] && |items| == c;
      AddedItems(items, b, c);
    }
  }

  lemma NextItem(items: seq<Json>, items': seq<Json>, r: Outcome, c: nat, v: Meaning, m: seq<Meaning>)
    requires c < |items| == |items'| && items' == items[c := items'[c]] && Denote(items'[c]) == v
    requires ItemsOutcome(r, items', c + 1, m)
    ensures ItemsOutcome(r, items, c, [v] + m)
  {
    hide Denote, WellFormed;
    var out := r.doc.items;
    assert out[..c] == out[..c+1][..c] && items'[..c] == items[..c];
    assert out[c] == out[..c+1][c] == items'[c];
    assert out[c..][1..] == out[c+1..];
    assert DenoteItems(out[c..]) == [v] + m by {
      var d := DenoteItems(out[c..]);
      assert d[0] == v;
      assert forall i :: 0 < i <= |m| ==> d[i] == DenoteItems(out[c+1..])[i-1];
    }
  }

  lemma ItemsTouchedStep(xs: seq<Json>, a: seq<Json>, b: seq<Json>)
    requires xs != [] && a != [] && b != []
    ensures ItemsTouched(xs, a, b) <==> Touched(xs[0], a[0], b[0]) || ItemsTouched(xs[1..], a[1..], b[1..])
  {
    hide Touched;
    if i :| 0 < i < |a| && i < |b| && i < |xs| && Touched(xs[i], a[i], b[i]) {
      assert Touched(xs[1..][i-1], a[1..][i-1], b[1..][i-1]);
    }
    if i :| 0 <= i < |a| - 1 && i < |b| - 1 && i < |xs| - 1 && Touched(xs[1..][i], a[1..][i], b[1..][i]) {
      assert Touched(xs[i+1], a[i+1], b[i+1]);
    }
  }

  lemma {:induction false} ItemsApply(items: seq<Json>, a: seq<Json>, b: seq<Json>, c: nat)
    requires c <= |items| && WellFormed(Arr(items)) && WellFormed(Arr(a)) && WellFormed(Arr(b))
    requires DenoteItems(items[c..]) == DenoteItems(a)
    ensures ItemsEnd(ApplyEdits(Arr(items), ItemEdits("", a, b, c)), items, c, PatchedItems(a, b),
      ItemsTouched(items[c..], a, b))
    decreases a, 0, |b|
  {
    if a == [] || b == [] {
      LeftoverItems(items, a, b, c);
    } else {
      ItemsEqual(items[c..], a);
      var x := items[c];
      assert x == items[c..][0] && Denote(x) == Denote(a[0]);
      if SameContainer(a[0], b[0]) { PatchYields(x, a[0], b[0]); }
      ItemPatched(items, c, a[0], b[0]);
      ItemsTouchedStep(items[c..], a, b);
      assert items[c..][1..] == items[c+1..];
      if Touched(x, a[0], b[0]) {
        FirstFaults(items, a, b, c);
      } else {
        FirstThenRest(items, a, b, c);
      }
    }
  }

  lemma FirstFaults(items: seq<Json>, a: seq<Json>, b: seq<Json>, c: nat)
    requires a != [] && b != []
    requires ApplyEdits(Arr(items), CompareToPatch("/" + PrintNat(c), a[0], b[0])) == Fault
    ensures ApplyEdits(Arr(items), ItemEdits("", a, b, c)) == Fault
  {
    hide ApplyEdits, CompareToPatch;
    assert "" + "/" + PrintNat(c) == "/" + PrintNat(c);
    ApplyEditsFault(Arr(items), CompareToPatch("/" + PrintNat(c), a[0], b[0]), ItemEdits("", a[1..], b[1..], c + 1));
  }

  lemma {:induction false} FirstThenRest(items: seq<Json>, a: seq<Json>, b: seq<Json>, c: nat)
    requires c < |items| && a != [] && b != [] && WellFormed(Arr(a)) && WellFormed(Arr(b))
    requires DenoteItems(items[c..]) == DenoteItems(a)
    requires ItemEnds(ApplyEdits(Arr(items), CompareToPatch("/" + PrintNat(c), a[0], b[0])), items, c,
      Patched(a[0], b[0]), false)
    ensures ItemsEnd(ApplyEdits(Arr(items), ItemEdits("", a, b, c)), items, c, PatchedItems(a, b),
      ItemsTouched(items[c+1..], a[1..], b[1..]))
    decreases a, 0, 0
  {
    hide ApplyEdits, CompareToPatch, Denote, Patched, Touched, ItemsTouched;
    var first := CompareToPatch("/" + PrintNat(c), a[0], b[0]);
    assert "" + "/" + PrintNat(c) == "/" + PrintNat(c);
    var items' := ApplyEdits(Arr(items), first).doc.items;
    ItemsEqual(items[c..], a);
    assert items'[c+1..] == items[c+1..] == items[c..][1..];
    ItemsEqual(items'[c+1..], a[1..]);
    ItemsApply(items', a[1..], b[1..], c + 1);
    ApplyEditsConcat(Arr(items), first, ItemEdits("", a[1..], b[1..], c + 1));
    var r := ApplyEdits(Arr(items'), ItemEdits("", a[1..], b[1..], c + 1));
    if r.Done? {
      NextItem(items, items', r, c, Patched(a[0], b[0]), PatchedItems(a[1..], b[1..]));
    }
  }

  // ----- objects -----

  /** What the merge walk over sorted members makes of a map. */
  ghost function WalkResult(m: map<string, Meaning>, a: seq<Member>, b: seq<Member>): map<string, Meaning>
    decreases |a| + |b|
  {
    if a == [] && b == [] then m
    else
      var diff := if a == [] then 1 else if b == [] then -1 else StrCaseCmp(a[0].key, b[0].key);
      if diff == 0 then WalkResult(m[Lower(a[0].key) := Patched(a[0].item, b[0].item)], a[1..], b[1..])
      else if diff < 0 then WalkResult(m - {Lower(a[0].key)}, a[1..], b)
      else WalkResult(m[Lower(b[0].key) := Denote(b[0].item)], a, b[1..])
  }

  predicate Walkable(s: seq<Member>) {
    WellFormedMembers(s) && JsonSort.Sorted(s, KeyOf)
  }

  lemma WalkableTail(s: seq<Member>)
    requires Walkable(s) && s != []
    ensures Walkable(s[1..]) && LowerKeys(s[1..]) == LowerKeys(s) - {Lower(s[0].key)}
  {
    hide SameKey, IsCString, WellFormed, StrCaseCmp;
    var t := s[1..];
    assert forall i :: 0 <= i < |t| ==> t[i] == s[i+1];
    TailKeys(s);
  }

  /** A key before the head of a sorted list is not in it. */
  lemma BeforeAll(x: string, s: seq<Member>)
    requires IsCString(x) && Walkable(s) && (s != [] ==> StrCaseCmp(x, s[0].key) < 0)
    ensures Lower(x) !in LowerKeys(s)
  {
    hide Lower, StrCaseCmp;
    forall i | 0 <= i < |s| ensures Lower(s[i].key) != Lower(x) {
      if i > 0 {
        assert StrCaseCmp(KeyOf(s[0]), KeyOf(s[i])) <= 0;
        JsonSort.OrderTransitive(x, s[0].key, s[i].key);
      }
      StrCaseCmpZero(x, s[i].key);
    }
  }

  /** Where the two heads stand to the lists, for each outcome of comparing them. */
  lemma Heads(a: seq<Member>, b: seq<Member>)
    requires Walkable(a) && Walkable(b) && (a != [] || b != [])
    ensures var diff := if a == [] then 1 else if b == [] then -1 else StrCaseCmp(a[0].key, b[0].key);
      && (diff == 0 ==> Lower(a[0].key) == Lower(b[0].key))
      && (diff < 0 ==> Lower(a[0].key) !in LowerKeys(b))
      && (diff > 0 ==> Lower(b[0].key) !in LowerKeys(a))
  {
    hide Lower;
    if a == [] || b == [] {
    } else {
      StrCaseCmpZero(a[0].key, b[0].key);
      StrCmpAntisymmetric(Lower(a[0].key), Lower(b[0].key));
      if StrCaseCmp(a[0].key, b[0].key) < 0 { BeforeAll(a[0].key, b); }
      if StrCaseCmp(b[0].key, a[0].key) < 0 { BeforeAll(b[0].key, a); }
    }
  }

  /** The entry the walk leaves at key `k`. */
  ghost predicate EntryAfter(m: map<string, Meaning>, r: map<string, Meaning>,
                             a: seq<Member>, b: seq<Member>, k: string) {
    PresentIndex(a, k);
    PresentIndex(b, k);
    if k in LowerKeys(b) then
      && k in r
      && r[k] == if k in LowerKeys(a) then Patched(a[IndexOf(a, k)].item, b[IndexOf(b, k)].item)
                 else Denote(b[IndexOf(b, k)].item)
    else if k in LowerKeys(a) then k !in r
    else (k in r <==> k in m) && (k in r ==> r[k] == m[k])
  }

  lemma IndexOfTail(s: seq<Member>, k: string)
    requires s != []
    ensures Lower(s[0].key) != Lower(k) ==> IndexOf(s, k) == IndexOf(s[1..], k) + 1
    ensures Lower(s[0].key) == Lower(k) ==> IndexOf(s, k) == 0
  {
  }

  lemma {:induction false} WalkEntry(m: map<string, Meaning>, a: seq<Member>, b: seq<Member>, k: string)
    requires Walkable(a) && Walkable(b)
    ensures EntryAfter(m, WalkResult(m, a, b), a, b, k)
    decreases |a| + |b|
  {
    hide Lower, StrCaseCmp, Denote, Patched, Walkable;
    if a != [] || b != [] {
      Heads(a, b);
      PresentIndex(a, k);
      PresentIndex(b, k);
      var diff := if a == [] then 1 else if b == [] then -1 else StrCaseCmp(a[0].key, b[0].key);
      if diff == 0 {
        WalkableTail(a);
        WalkableTail(b);
        IndexOfTail(a, k);
        IndexOfTail(b, k);
        WalkEntry(m[Lower(a[0].key) := Patched(a[0].item, b[0].item)], a[1..], b[1..], k);
      } else if diff < 0 {
        WalkableTail(a);
        IndexOfTail(a, k);
        WalkEntry(m - {Lower(a[0].key)}, a[1..], b, k);
      } else {
        WalkableTail(b);
        IndexOfTail(b, k);
        WalkEntry(m[Lower(b[0].key) := Denote(b[0].item)], a, b[1..], k);
      }
    }
  }

  lemma ItemAtTail(s: seq<Member>, k: string)
    requires s != [] && Walkable(s)
    ensures Lower(s[0].key) != Lower(k) ==> ItemAt(s, k) == ItemAt(s[1..], k)
    ensures Lower(s[0].key) == Lower(k) ==> ItemAt(s, k) == Some(s[0].item) && ItemAt(s[1..], k) == None
  {
    hide Lower, Walkable;
    IndexOfTail(s, k);
    WalkableTail(s);
    KeyPresent(s[1..], k);
  }

  lemma ItemAtPermuted(a: seq<Member>, b: seq<Member>, k: string)
    requires multiset(a) == multiset(b) && DistinctKeys(a) && DistinctKeys(b)
    ensures ItemAt(a, k) == ItemAt(b, k)
  {
    hide SameKey;
    if IndexOf(a, k) < |a| { PermutedLookup(a, b, k); }
    if IndexOf(b, k) < |b| { PermutedLookup(b, a, k); }
  }

  lemma WalkMeans(a: seq<Member>, b: seq<Member>)
    requires Walkable(a) && Walkable(b)
    ensures WalkResult(DenoteMembers(a), a, b) == PatchedMembers(a, b)
  {
    hide WalkResult, Lower, Denote, Patched, DenoteMembers, Walkable;
    var r, p := WalkResult(DenoteMembers(a), a, b), PatchedMembers(a, b);
    forall k | k in r ensures k in p {
      WalkEntry(DenoteMembers(a), a, b, k);
    }
    forall k | k in p ensures k in r && r[k] == p[k] {
      WalkEntry(DenoteMembers(a), a, b, k);
    }
  }

  lemma PermutedLookup(a: seq<Member>, b: seq<Member>, k: string)
    requires multiset(a) == multiset(b) && DistinctKeys(a) && DistinctKeys(b) && IndexOf(a, k) < |a|
    ensures IndexOf(b, k) < |b| && b[IndexOf(b, k)] == a[IndexOf(a, k)]
  {
    JsonSort.SameElements(a, b);
    assert a[IndexOf(a, k)] in b;
    var j :| 0 <= j < |b| && b[j] == a[IndexOf(a, k)];
    IndexUnique(b, j, k);
  }

  lemma PatchedPermuted(a: seq<Member>, b: seq<Member>, a': seq<Member>, b': seq<Member>)
    requires multiset(a) == multiset(a') && multiset(b) == multiset(b')
    requires WellFormedMembers(a) && WellFormedMembers(b)
    ensures PatchedMembers(a, b) == PatchedMembers(a', b')
  {
    hide Lower, Denote, Patched;
    PermutedMembers(a, a');
    PermutedMembers(b, b');
    forall k | k in LowerKeys(b)
      ensures PatchedMembers(a, b)[k] == PatchedMembers(a', b')[k]
    {
      PresentIndex(a, k);
      PresentIndex(b, k);
      PermutedLookup(b, b', k);
      if k in LowerKeys(a) { PermutedLookup(a, a', k); }
    }
  }

  ghost predicate WalkOutcome(r: Outcome, m: map<string, Meaning>) {
    r.Done? && r.err == 0 && r.doc.Obj? && WellFormed(r.doc) && DenoteMembers(r.doc.members) == m
  }

  /** `ms` still holds, under every key of `a`, what `a` says. */
  ghost predicate Holds(m: map<string, Meaning>, a: seq<Member>) {
    forall i :: 0 <= i < |a| ==> Lower(a[i].key) in m && m[Lower(a[i].key)] == Denote(a[i].item)
  }

  lemma HoldsTail(m: map<string, Meaning>, m': map<string, Meaning>, a: seq<Member>, k: string)
    requires Holds(m, a) && k !in LowerKeys(a)
    requires forall x :: x in m && x != k ==> x in m' && m'[x] == m[x]
    ensures Holds(m', a)
  {
    hide Lower, Denote;
    forall i | 0 <= i < |a| ensures Lower(a[i].key) in m' && m'[Lower(a[i].key)] == Denote(a[i].item) {
      KeyInside(a, i);
    }
  }

  lemma HoldsRest(m: map<string, Meaning>, a: seq<Member>)
    requires Holds(m, a) && a != []
    ensures Holds(m, a[1..])
  {
    hide Lower, Denote;
    assert forall i :: 0 <= i < |a| - 1 ==> a[1..][i] == a[i+1];
  }

  ghost predicate WalkEnds(r: Outcome, m: map<string, Meaning>, touched: bool) {
    if touched then r == Fault else WalkOutcome(r, m)
  }

  lemma FirstEdits(doc: Json, first: seq<Edit>, rest: seq<Edit>, r: Outcome, m: map<string, Meaning>, touched: bool)
    requires r == ApplyEdits(doc, first) && r.Done? && r.err == 0
    requires WalkEnds(ApplyEdits(r.doc, rest), m, touched)
    ensures WalkEnds(ApplyEdits(doc, first + rest), m, touched)
  {
    hide ApplyEdits, WalkOutcome;
    ApplyEditsConcat(doc, first, rest);
  }

  // What the walk has not reached yet is as it was in `x` at the start.

  ghost predicate Tracks(d: Json, x: Json, s: seq<Member>) {
    forall i :: 0 <= i < |s| ==> Same(d, x, s[i].key)
  }

  /** A key of the target that `x` has is still ahead in the source. */
  ghost predicate KeysLeft(x: Json, a: seq<Member>, b: seq<Member>)
    requires x.Obj?
  {
    forall k :: k in LowerKeys(b) && k in LowerKeys(x.members) ==> k in LowerKeys(a)
  }

  lemma TracksOn(d': Json, d: Json, x: Json, k: string, s: seq<Member>)
    requires Elsewhere(d', d, k) && Tracks(d, x, s) && Lower(k) !in LowerKeys(s)
    ensures Tracks(d', x, s)
  {
    hide ItemAt, StaleAt, Lower;
    forall i | 0 <= i < |s| ensures Same(d', x, s[i].key) {
      KeyInside(s, i);
      assert !SameKey(s[i].key, k) && Same(d, x, s[i].key) && Same(d', d, s[i].key);
    }
  }

  lemma TracksTail(d: Json, x: Json, s: seq<Member>)
    requires Tracks(d, x, s) && s != []
    ensures Tracks(d, x, s[1..])
  {
    hide Same;
    assert forall i :: 0 <= i < |s| - 1 ==> s[1..][i] == s[i+1];
  }

  lemma TouchedFirst(x: Json, a: seq<Member>, b: seq<Member>)
    requires x.Obj? && a != []
    ensures MembersTouched(x, a, b) <==>
      MemberTouched(x, a[0], ItemAt(b, a[0].key)) || MembersTouched(x, a[1..], b)
  {
    hide MemberTouched, ItemAt;
    if i :| 0 < i < |a| && MemberTouched(x, a[i], ItemAt(b, a[i].key)) {
      assert MemberTouched(x, a[1..][i-1], ItemAt(b, a[1..][i-1].key));
    }
    if i :| 0 <= i < |a| - 1 && MemberTouched(x, a[1..][i], ItemAt(b, a[1..][i].key)) {
      assert MemberTouched(x, a[i+1], ItemAt(b, a[i+1].key));
    }
  }

  /** The head of the target matters only to its own key. */
  lemma TouchedTail(x: Json, a: seq<Member>, b: seq<Member>)
    requires x.Obj? && Walkable(b) && b != [] && Lower(b[0].key) !in LowerKeys(a)
    ensures MembersTouched(x, a, b) <==> MembersTouched(x, a, b[1..])
  {
    hide MemberTouched, ItemAt, Lower, Walkable;
    forall i | 0 <= i < |a| ensures ItemAt(b, a[i].key) == ItemAt(b[1..], a[i].key) {
      KeyInside(a, i);
      ItemAtTail(b, a[i].key);
    }
  }

  /** Between two steps of the walk. */
  ghost predicate Walking(owner: Json, x: Json, d: Json, a: seq<Member>, b: seq<Member>) {
    && owner.Obj? && (forall m :: m in a ==> m in owner.members)
    && x.Obj? && d.Obj? && WellFormed(d) && Walkable(a) && Walkable(b)
    && Holds(DenoteMembers(d.members), a)
    && Tracks(d, x, a) && Tracks(d, x, b) && KeysLeft(x, a, b)
  }

  lemma {:induction false} MembersApply(owner: Json, x: Json, d: Json, a: seq<Member>, b: seq<Member>)
    requires Walking(owner, x, d, a, b)
    ensures WalkEnds(ApplyEdits(d, MemberEdits("", owner, a, b)), WalkResult(DenoteMembers(d.members), a, b),
      MembersTouched(x, a, b))
    decreases owner, 0, |a| + |b|, 2
  {
    if a != [] || b != [] {
      hide WalkEnds, MembersTouched, ApplyEdits, WalkResult, Tracks, KeysLeft, Holds, Walkable;
      var diff := if a == [] then 1 else if b == [] then -1 else StrCaseCmp(a[0].key, b[0].key);
      if diff == 0 {
        BothMembers(owner, x, d, a, b);
      } else if diff < 0 {
        OnlyFrom(owner, x, d, a, b);
      } else {
        OnlyTo(owner, x, d, a, b);
      }
    }
  }

  /** The member both sides have, found in `d` as it was in `x`. */
  lemma {:induction false} FirstMember(owner: Json, x: Json, d: Json, a: seq<Member>, b: seq<Member>)
    requires Walking(owner, x, d, a, b) && a != [] && b != [] && StrCaseCmp(a[0].key, b[0].key) == 0
    ensures MemberEnds(ApplyEdits(d, CompareToPatch(Below("", a[0].key), a[0].item, b[0].item)), d, a[0].key,
      Patched(a[0].item, b[0].item), MemberTouched(x, a[0], Some(b[0].item)))
    decreases owner, 0, |a| + |b|, 0
  {
    hide ApplyEdits, CompareToPatch, Denote, DenoteMembers, Patched, StrCaseCmp, Lower, JsonSort.Sorted, Touched,
      StaleAt, NoEdits, MemberEnds, KeysLeft;
    assert a[0] in owner.members;
    var k, y, z := a[0].key, a[0].item, b[0].item;
    assert Lower(k) in DenoteMembers(d.members) && DenoteMembers(d.members)[Lower(k)] == Denote(y);
    KeyPresent(d.members, k);
    assert WellFormedMembers(d.members);
    DenoteAt(d.members, IndexOf(d.members, k));
    var item := ItemAt(d.members, k).value;
    assert Same(d, x, k);
    if SameContainer(y, z) {
      PatchYields(item, y, z);
      ContainerMember(d, k, y, z);
    } else {
      ScalarMember(d, k, y, z);
      PatchedScalar(y, z);
      ScalarUntouched(item, y, z);
    }
  }

  lemma {:induction false} BothMembers(owner: Json, x: Json, d: Json, a: seq<Member>, b: seq<Member>)
    requires Walking(owner, x, d, a, b) && a != [] && b != [] && StrCaseCmp(a[0].key, b[0].key) == 0
    ensures WalkEnds(ApplyEdits(d, MemberEdits("", owner, a, b)), WalkResult(DenoteMembers(d.members), a, b),
      MembersTouched(x, a, b))
    decreases owner, 0, |a| + |b|, 1
  {
    FirstMember(owner, x, d, a, b);
    hide ApplyEdits, CompareToPatch, Denote, DenoteMembers, Patched, StrCaseCmp, Lower, Walkable, MemberTouched,
      MembersTouched, Elsewhere, Holds, Tracks, KeysLeft, ItemAt;
    var k := a[0].key;
    Heads(a, b);
    WalkableTail(b);
    ItemAtTail(b, k);
    TouchedFirst(x, a, b);
    WalkableTail(a);
    TouchedTail(x, a[1..], b);
    var first := CompareToPatch(Below("", k), a[0].item, b[0].item);
    var rest := MemberEdits("", owner, a[1..], b[1..]);
    var r := ApplyEdits(d, first);
    if MemberTouched(x, a[0], Some(b[0].item)) {
      ApplyEditsFault(d, first, rest);
    } else {
      WalkingBoth(owner, x, d, r.doc, a, b, Patched(a[0].item, b[0].item));
      MembersApply(owner, x, r.doc, a[1..], b[1..]);
      FirstEdits(d, first, rest, r, WalkResult(DenoteMembers(r.doc.members), a[1..], b[1..]),
        MembersTouched(x, a[1..], b[1..]));
    }
  }

  lemma WalkingBoth(owner: Json, x: Json, d: Json, d': Json, a: seq<Member>, b: seq<Member>, v: Meaning)
    requires Walking(owner, x, d, a, b) && a != [] && b != [] && Lower(a[0].key) == Lower(b[0].key)
    requires d'.Obj? && WellFormed(d') && Elsewhere(d', d, a[0].key)
    requires DenoteMembers(d'.members) == DenoteMembers(d.members)[Lower(a[0].key) := v]
    ensures Walking(owner, x, d', a[1..], b[1..])
  {
    hide Denote, DenoteMembers, Lower, Walkable, Elsewhere, Tracks, WellFormed;
    var k := a[0].key;
    WalkableTail(a);
    WalkableTail(b);
    HoldsRest(DenoteMembers(d.members), a);
    HoldsTail(DenoteMembers(d.members), DenoteMembers(d'.members), a[1..], Lower(k));
    TracksTail(d, x, a);
    TracksTail(d, x, b);
    TracksOn(d', d, x, k, a[1..]);
    TracksOn(d', d, x, k, b[1..]);
  }

  lemma PatchedScalar(from: Json, to: Json)
    requires !SameContainer(from, to)
    ensures Patched(from, to) == Denote(to)
  {
  }

  lemma {:induction false} OnlyFrom(owner: Json, x: Json, d: Json, a: seq<Member>, b: seq<Member>)
    requires Walking(owner, x, d, a, b)
    requires a != [] && (b == [] || StrCaseCmp(a[0].key, b[0].key) < 0)
    ensures WalkEnds(ApplyEdits(d, MemberEdits("", owner, a, b)), WalkResult(DenoteMembers(d.members), a, b),
      MembersTouched(x, a, b))
    decreases owner, 0, |a| + |b|, 1
  {
    hide ApplyEdits, ApplyEdit, Denote, DenoteMembers, Patched, StrCaseCmp, Lower, Walkable, MembersTouched,
      Elsewhere, Holds, KeysLeft, StaleAt, DetachChild;
    var k := a[0].key;
    Heads(a, b);
    KeyPresent(b, k);
    TouchedFirst(x, a, b);
    assert Same(d, x, k);
    var e, rest := Edit("remove", Below("", k), None), MemberEdits("", owner, a[1..], b);
    EditHere(d, k, Null);
    OneEdit(d, e);
    DetachMember(d, k);
    var r := ApplyEdits(d, [e]);
    if r.Fault? {
      ApplyEditsFault(d, [e], rest);
    } else {
      WalkingFrom(owner, x, d, r.doc, a, b);
      MembersApply(owner, x, r.doc, a[1..], b);
      FirstEdits(d, [e], rest, r, WalkResult(DenoteMembers(r.doc.members), a[1..], b), MembersTouched(x, a[1..], b));
    }
  }

  lemma WalkingFrom(owner: Json, x: Json, d: Json, d': Json, a: seq<Member>, b: seq<Member>)
    requires Walking(owner, x, d, a, b) && a != [] && Lower(a[0].key) !in LowerKeys(b)
    requires d'.Obj? && WellFormed(d') && Elsewhere(d', d, a[0].key)
    requires DenoteMembers(d'.members) == DenoteMembers(d.members) - {Lower(a[0].key)}
    ensures Walking(owner, x, d', a[1..], b)
  {
    hide Denote, DenoteMembers, Lower, Walkable, Elsewhere, Tracks, WellFormed;
    var k := a[0].key;
    WalkableTail(a);
    HoldsRest(DenoteMembers(d.members), a);
    HoldsTail(DenoteMembers(d.members), DenoteMembers(d'.members), a[1..], Lower(k));
    TracksTail(d, x, a);
    TracksOn(d', d, x, k, a[1..]);
    TracksOn(d', d, x, k, b);
  }

  lemma {:induction false} OnlyTo(owner: Json, x: Json, d: Json, a: seq<Member>, b: seq<Member>)
    requires Walking(owner, x, d, a, b)
    requires b != [] && (a == [] || StrCaseCmp(a[0].key, b[0].key) > 0)
    ensures WalkEnds(ApplyEdits(d, MemberEdits("", owner, a, b)), WalkResult(DenoteMembers(d.members), a, b),
      MembersTouched(x, a, b))
    decreases owner, 0, |a| + |b|, 1
  {
    hide ApplyEdits, ApplyEdit, Denote, DenoteMembers, Patched, StrCaseCmp, Lower, Walkable, MembersTouched,
      Elsewhere, Holds, AddChild, Duplicate;
    var k, v := b[0].key, b[0].item;
    Heads(a, b);
    TouchedTail(x, a, b);
    NotStale(owner, x, d, a, b);
    var e, rest := Edit("add", Below("", k), Some(v)), MemberEdits("", owner, a, b[1..]);
    EditHere(d, k, v);
    OneEdit(d, e);
    TargetText(b);
    DuplicateMeans(v);
    AddMember(d, k, Duplicate(v));
    var r := ApplyEdits(d, [e]);
    WalkingTo(owner, x, d, r.doc, a, b);
    MembersApply(owner, x, r.doc, a, b[1..]);
    FirstEdits(d, [e], rest, r, WalkResult(DenoteMembers(r.doc.members), a, b[1..]), MembersTouched(x, a, b[1..]));
  }

  lemma TargetText(b: seq<Member>)
    requires Walkable(b) && b != []
    ensures IsCString(b[0].key) && WellFormed(b[0].item)
  {
  }

  /** A new key is not that of the first member. */
  lemma NotStale(owner: Json, x: Json, d: Json, a: seq<Member>, b: seq<Member>)
    requires Walking(owner, x, d, a, b) && b != [] && Lower(b[0].key) !in LowerKeys(a)
    ensures !StaleAt(d, b[0].key)
  {
    hide Walkable, Holds, Denote, DenoteMembers, WellFormed;
    KeyInside(b, 0);
    assert Same(d, x, b[0].key);
    if StaleAt(x, b[0].key) { KeyInside(x.members, 0); }
  }

  lemma WalkingTo(owner: Json, x: Json, d: Json, d': Json, a: seq<Member>, b: seq<Member>)
    requires Walking(owner, x, d, a, b) && b != [] && Lower(b[0].key) !in LowerKeys(a)
    requires d'.Obj? && WellFormed(d') && Elsewhere(d', d, b[0].key)
    requires DenoteMembers(d'.members) == DenoteMembers(d.members)[Lower(b[0].key) := Denote(b[0].item)]
    ensures Walking(owner, x, d', a, b[1..])
  {
    hide Denote, DenoteMembers, Lower, Walkable, Elsewhere, Tracks, WellFormed;
    var k := b[0].key;
    WalkableTail(b);
    HoldsTail(DenoteMembers(d.members), DenoteMembers(d'.members), a, Lower(k));
    TracksTail(d, x, b);
    TracksOn(d', d, x, k, a);
    TracksOn(d', d, x, k, b[1..]);
  }

  lemma SortedWalkable(ms: seq<Member>)
    requires WellFormedMembers(ms)
    ensures Walkable(SortMembers(ms)) && multiset(SortMembers(ms)) == multiset(ms)
  {
    SortedElements(ms);
    PermutedMembers(ms, SortMembers(ms));
    JsonSort.SortSorts(ms, KeyOf);
  }

  /** Applying the edits for (`from`, `to`) to any document that means `from`: a fault
    * when a first member that has a `prev` is touched, and otherwise `Patched`. */
  lemma {:induction false} PatchYields(x: Json, from: Json, to: Json)
    requires SameContainer(from, to) && WellFormed(x) && WellFormed(from) && WellFormed(to)
    requires Denote(x) == Denote(from)
    ensures Ends(x, CompareToPatch("", from, to), Patched(from, to), Touched(x, from, to))
    decreases from, 1, 0, 0
  {
    if from.Arr? {
      assert x.items[0..] == x.items;
      ItemsApply(x.items, from.items, to.items, 0);
      var r := ApplyEdits(x, ItemEdits("", from.items, to.items, 0));
      assert r.Done? ==> r.doc.items[0..] == r.doc.items;
    } else {
      ObjectYields(x, from, to);
    }
  }

  lemma {:induction false} ObjectYields(x: Json, from: Json, to: Json)
    requires from.Obj? && to.Obj? && WellFormed(x) && WellFormed(from) && WellFormed(to)
    requires Denote(x) == Denote(from)
    ensures Ends(x, CompareToPatch("", from, to), Patched(from, to), Touched(x, from, to))
    decreases from, 0, |from.members| + |to.members|, 3
  {
    hide ApplyEdits, MemberEdits, WalkResult, Lower, SortMembers, MembersTouched, Walkable, Tracks, Holds;
    var a, b := SortMembers(from.members), SortMembers(to.members);
    SortedWalkable(from.members);
    SortedWalkable(to.members);
    SortedElements(from.members);
    WalkStarts(x, from, to);
    MembersApply(from, x, x, a, b);
    WalkMeans(a, b);
    PermutedMembers(from.members, a);
    PatchedPermuted(from.members, to.members, a, b);
    WalkableDistinct(b);
    TouchedPermuted(x, from.members, to.members, a, b);
  }

  lemma WalkableDistinct(s: seq<Member>)
    requires Walkable(s)
    ensures DistinctKeys(s)
  {
  }

  lemma WalkStarts(x: Json, from: Json, to: Json)
    requires from.Obj? && to.Obj? && WellFormed(x) && WellFormed(from) && WellFormed(to)
    requires Denote(x) == Denote(from)
    ensures x.Obj? && Walking(from, x, x, SortMembers(from.members), SortMembers(to.members))
  {
    var a, b := SortMembers(from.members), SortMembers(to.members);
    SameMeaning(x, from);
    SortedStart(from.members);
    SortedStart(to.members);
    hide Lower, SortMembers, DenoteMembers, Denote, Walkable, Tracks, WellFormed, Holds;
    HoldsAtStart(a);
    TracksItself(x, a);
    TracksItself(x, b);
  }

  lemma SortedStart(ms: seq<Member>)
    requires WellFormedMembers(ms)
    ensures var a := SortMembers(ms);
      && Walkable(a) && DenoteMembers(a) == DenoteMembers(ms) && LowerKeys(a) == LowerKeys(ms)
      && forall m :: m in a ==> m in ms
  {
    hide SortMembers, Walkable, DenoteMembers, WellFormedMembers;
    SortedWalkable(ms);
    SortedElements(ms);
    PermutedMembers(ms, SortMembers(ms));
  }

  lemma SameMeaning(x: Json, from: Json)
    requires from.Obj? && Denote(x) == Denote(from)
    ensures x.Obj? && DenoteMembers(x.members) == DenoteMembers(from.members)
    ensures LowerKeys(x.members) == LowerKeys(from.members)
  {
    assert x.Obj?;
    hide DenoteMembers;
  }

  lemma TracksItself(x: Json, s: seq<Member>)
    requires x.Obj?
    ensures Tracks(x, x, s)
  {
  }

  lemma HoldsAtStart(a: seq<Member>)
    requires Walkable(a)
    ensures Holds(DenoteMembers(a), a)
  {
    hide Lower, Denote, DenoteMembers;
    forall i | 0 <= i < |a|
      ensures Lower(a[i].key) in DenoteMembers(a) && DenoteMembers(a)[Lower(a[i].key)] == Denote(a[i].item)
    {
      DenoteAt(a, i);
    }
  }

  lemma TouchedPermuted(x: Json, a: seq<Member>, b: seq<Member>, a': seq<Member>, b': seq<Member>)
    requires x.Obj? && multiset(a) == multiset(a') && multiset(b) == multiset(b')
    requires DistinctKeys(b) && DistinctKeys(b')
    ensures MembersTouched(x, a, b) <==> MembersTouched(x, a', b')
  {
    TouchedAlong(x, a, b, a', b');
    TouchedAlong(x, a', b', a, b);
  }

  lemma TouchedAlong(x: Json, a: seq<Member>, b: seq<Member>, a': seq<Member>, b': seq<Member>)
    requires x.Obj? && multiset(a) == multiset(a') && multiset(b) == multiset(b')
    requires DistinctKeys(b) && DistinctKeys(b')
    ensures MembersTouched(x, a, b) ==> MembersTouched(x, a', b')
  {
    hide MemberTouched, ItemAt, SameKey;
    JsonSort.SameElements(a, a');
    if i :| 0 <= i < |a| && MemberTouched(x, a[i], ItemAt(b, a[i].key)) {
      ItemAtPermuted(b, b', a[i].key);
      assert a[i] in a';
      var j :| 0 <= j < |a'| && a'[j] == a[i];
      assert MemberTouched(x, a'[j], ItemAt(b', a'[j].key));
    }
  }

  // ----- when the result is the intended document -----

  /** No compared pair of arrays shrinks by more than one element. */
  predicate Reachable(from: Json, to: Json)
    decreases from
  {
    match from
    case Arr(a) =>
      to.Arr? ==>
        && |a| <= |to.items| + 1
        && forall i :: 0 <= i < |a| && i < |to.items| ==> Reachable(a[i], to.items[i])
    case Obj(a, _) =>
      to.Obj? ==>
        forall i :: 0 <= i < |a| && IndexOf(to.members, a[i].key) < |to.members| ==>
          Reachable(a[i].item, to.members[IndexOf(to.members, a[i].key)].item)
    case _ => true
  }

  lemma {:induction false} PatchedItemsAt(a: seq<Json>, b: seq<Json>)
    ensures var p := PatchedItems(a, b);
      && |p| == (if |a| > |b| then |b| + (|a| - |b|) / 2 else |b|)
      && (forall i :: 0 <= i < |a| && i < |b| ==> p[i] == Patched(a[i], b[i]))
      && (forall i :: |a| <= i < |b| ==> p[i] == Denote(b[i]))
    decreases |a|
  {
    hide Patched, Denote;
    if a != [] && b != [] {
      PatchedItemsAt(a[1..], b[1..]);
      var p, q := PatchedItems(a, b), PatchedItems(a[1..], b[1..]);
      assert p == [Patched(a[0], b[0])] + q;
      forall i | 0 < i < |b| ensures i < |p| && p[i] == q[i-1] && b[i] == b[1..][i-1] {}
      forall i | 0 < i < |a| ensures a[i] == a[1..][i-1] {}
    }
  }

  /** The patched document means `to` exactly when `to` was reachable. */
  lemma {:induction false} PatchedIsIntended(from: Json, to: Json)
    requires WellFormed(from) && WellFormed(to)
    ensures Patched(from, to) == Denote(to) <==> Reachable(from, to)
    decreases from, 1
  {
    if from.Arr? && to.Arr? {
      ItemsIntended(from, to);
    } else if from.Obj? && to.Obj? {
      MembersIntended(from, to);
    }
  }

  lemma {:induction false} ItemsIntended(from: Json, to: Json)
    requires from.Arr? && to.Arr? && WellFormed(from) && WellFormed(to)
    ensures Patched(from, to) == Denote(to) <==> Reachable(from, to)
    decreases from, 0
  {
    var a, b := from.items, to.items;
    forall i | 0 <= i < |a| && i < |b|
      ensures Patched(a[i], b[i]) == Denote(b[i]) <==> Reachable(a[i], b[i])
    {
      PatchedIsIntended(a[i], b[i]);
    }
    PatchedItemsAt(a, b);
    var p, d := PatchedItems(a, b), DenoteItems(b);
    assert forall i :: 0 <= i < |b| ==> d[i] == Denote(b[i]);
    if Patched(from, to) == Denote(to) {
      assert p == d;
      assert forall i :: 0 <= i < |a| && i < |b| ==> p[i] == d[i];
    }
    if Reachable(from, to) {
      assert forall i :: 0 <= i < |b| ==> p[i] == d[i];
      assert p == d;
    }
  }

  lemma {:induction false} MembersIntended(from: Json, to: Json)
    requires from.Obj? && to.Obj? && WellFormed(from) && WellFormed(to)
    ensures Patched(from, to) == Denote(to) <==> Reachable(from, to)
    decreases from, 0
  {
    hide Patched, Denote, Reachable, PatchedMembers, DenoteMembers, Lower, IndexOf;
    var a, b := from.members, to.members;
    forall i | 0 <= i < |a| && IndexOf(b, a[i].key) < |b|
      ensures MemberReached(a, b, i)
    {
      var j := IndexOf(b, a[i].key);
      assert WellFormedMembers(a) && WellFormedMembers(b);
      PatchedIsIntended(a[i].item, b[j].item);
      MemberEntry(a, b, i, j);
    }
    if PatchedMembers(a, b) == DenoteMembers(b) { AllReached(a, b); }
    ObjectReachable(from, to);
    if Reachable(from, to) { AllMeant(a, b); }
    ObjectPatched(from, to);
  }

  /** A member both sides have comes out as intended exactly when it is reachable. */
  ghost predicate MemberReached(a: seq<Member>, b: seq<Member>, i: nat)
    requires i < |a| && IndexOf(b, a[i].key) < |b|
  {
    var j := IndexOf(b, a[i].key);
    && MemberAgrees(a, b, i, j)
    && (Patched(a[i].item, b[j].item) == Denote(b[j].item) <==> Reachable(a[i].item, b[j].item))
  }

  predicate MembersReachable(a: seq<Member>, b: seq<Member>) {
    forall i :: 0 <= i < |a| && IndexOf(b, a[i].key) < |b| ==> Reachable(a[i].item, b[IndexOf(b, a[i].key)].item)
  }

  lemma ObjectReachable(from: Json, to: Json)
    requires from.Obj? && to.Obj?
    ensures Reachable(from, to) <==> MembersReachable(from.members, to.members)
  {
  }

  lemma ObjectPatched(from: Json, to: Json)
    requires from.Obj? && to.Obj?
    ensures Patched(from, to) == Denote(to) <==> PatchedMembers(from.members, to.members) == DenoteMembers(to.members)
  {
    hide PatchedMembers, DenoteMembers;
  }

  lemma AllReached(a: seq<Member>, b: seq<Member>)
    requires forall i :: 0 <= i < |a| && IndexOf(b, a[i].key) < |b| ==> MemberReached(a, b, i)
    requires PatchedMembers(a, b) == DenoteMembers(b)
    ensures MembersReachable(a, b)
  {
    hide Patched, Denote, Reachable, PatchedMembers, DenoteMembers, Lower, IndexOf;
    forall i | 0 <= i < |a| && IndexOf(b, a[i].key) < |b|
      ensures Reachable(a[i].item, b[IndexOf(b, a[i].key)].item)
    {
      assert MemberReached(a, b, i);
    }
  }

  lemma AllMeant(a: seq<Member>, b: seq<Member>)
    requires forall i :: 0 <= i < |a| && IndexOf(b, a[i].key) < |b| ==> MemberReached(a, b, i)
    requires MembersReachable(a, b)
    ensures PatchedMembers(a, b) == DenoteMembers(b)
  {
    hide Patched, Denote, Reachable, Lower;
    var p, d := PatchedMembers(a, b), DenoteMembers(b);
    forall k | k in LowerKeys(b) ensures p[k] == d[k] {
      PresentIndex(a, k);
      PresentIndex(b, k);
      if k in LowerKeys(a) {
        var i := IndexOf(a, k);
        SameIndex(b, k, a[i].key);
        assert MemberReached(a, b, i);
      }
    }
    assert p == d;
  }

  lemma {:induction false} SameIndex(b: seq<Member>, k: string, x: string)
    requires SameKey(k, x)
    ensures IndexOf(b, k) == IndexOf(b, x)
  {
    if b != [] { SameIndex(b[1..], k, x); }
  }

  ghost predicate MemberAgrees(a: seq<Member>, b: seq<Member>, i: nat, j: nat)
    requires i < |a| && j < |b|
  {
    var k := Lower(b[j].key);
    && k in PatchedMembers(a, b) && k in DenoteMembers(b)
    && PatchedMembers(a, b)[k] == Patched(a[i].item, b[j].item)
    && DenoteMembers(b)[k] == Denote(b[j].item)
  }

  lemma MemberEntry(a: seq<Member>, b: seq<Member>, i: nat, j: nat)
    requires DistinctKeys(a) && DistinctKeys(b) && i < |a| && j < |b| && SameKey(a[i].key, b[j].key)
    ensures MemberAgrees(a, b, i, j)
  {
    hide Denote, Patched;
    var k := Lower(b[j].key);
    KeyInside(a, i);
    KeyInside(b, j);
    LowerIdempotent(b[j].key);
    IndexUnique(a, i, k);
    IndexUnique(b, j, k);
  }

  // ----- the theorem -----

  /** A root that would have to be replaced as a whole. */
  predicate RootReplaced(from: Json, to: Json) {
    !SameContainer(from, to) && !NoEdits(from, to)
  }

  lemma RootFault(x: Json, from: Json, to: Json)
    requires WellFormed(from) && WellFormed(to) && RootReplaced(from, to)
    ensures ApplyPatches(x, GeneratePatches(from, to)) == Fault
  {
    ScalarEdits("", from, to);
    var e := Edit("replace", "", Some(to));
    PatchListApplies(x, [e]);
    PatchObjectFields(e);
  }

  /** JSON Patch round trip.  Applied to any document equal to `from`, the patch
    * generated from (`from`, `to`) either faults, exactly when the root itself must
    * be replaced or a first member that has a `prev` is touched, or it succeeds; and
    * then the outcome compares equal to `to` exactly when no compared pair of arrays
    * shrinks by two elements or more. */
  lemma PatchRoundTrip(x: Json, from: Json, to: Json)
    requires WellFormed(x) && WellFormed(from) && WellFormed(to)
    requires Compare(x, from) == 0
    ensures var r := ApplyPatches(x, GeneratePatches(from, to));
      && (r == Fault <==> RootReplaced(from, to) || Touched(x, from, to))
      && (r != Fault ==>
            && r.err == 0 && WellFormed(r.doc)
            && (Compare(r.doc, to) == 0 <==> Reachable(from, to)))
  {
    CompareDecidesMeaning(x, from);
    if RootReplaced(from, to) {
      RootFault(x, from, to);
    } else {
      var es := CompareToPatch("", from, to);
      PatchListApplies(x, es);
      if SameContainer(from, to) {
        PatchYields(x, from, to);
      } else {
        ScalarEdits("", from, to);
        PatchedScalar(from, to);
      }
      var r := ApplyEdits(x, es);
      PatchedIsIntended(from, to);
      if r.Done? { CompareDecidesMeaning(r.doc, to); }
    }
  }

  /** A document that is to become itself is not touched. */
  lemma {:induction false} SelfUntouched(x: Json, n: Json)
    requires WellFormed(n)
    ensures !Touched(x, n, n)
    decreases n
  {
    if n.Arr? && x.Arr? {
      forall i | 0 <= i < |n.items| && i < |x.items| ensures !Touched(x.items[i], n.items[i], n.items[i]) {
        SelfUntouched(x.items[i], n.items[i]);
      }
    } else if n.Obj? && x.Obj? {
      forall i | 0 <= i < |n.members|
        ensures !MemberTouched(x, n.members[i], ItemAt(n.members, n.members[i].key))
      {
        var m := n.members[i];
        IndexUnique(n.members, i, m.key);
        var y := ItemAt(x.members, m.key);
        if y.Some? { SelfUntouched(y.value, m.item); }
      }
    }
  }

  /** A concrete pair the generator does not get across: a four-element array
    * towards a two-element one leaves three. */
  lemma ShrinkingArrayMissed(n: Json)
    requires WellFormed(n)
    ensures var from, to := Arr([n, n, n, n]), Arr([n, n]);
      var r := ApplyPatches(from, GeneratePatches(from, to));
      !Reachable(from, to) && r.Done? && r.err == 0 && Compare(r.doc, to) != 0
  {
    var from, to := Arr([n, n, n, n]), Arr([n, n]);
    CompareDecidesMeaning(from, from);
    SelfUntouched(n, n);
    PatchRoundTrip(from, from, to);
  }

  // ----- patching the source itself -----

  /** `from` once the patch has been generated: the objects that were compared have
    * been sorted in place.  A first member that sorting brings to the front keeps the
    * `prev` it had. */
  function Rearranged(from: Json, to: Json): Json
    decreases from, 1
  {
    if from.Arr? && to.Arr? then Arr(RearrangedItems(from.items, to.items))
    else if from.Obj? && to.Obj? then
      SortedElements(from.members);
      var a := SortMembers(from.members);
      Obj(RearrangedMembers(from, a, to.members), from.stale || (a != [] && a[0] != from.members[0]))
    else from
  }

  function RearrangedItems(a: seq<Json>, b: seq<Json>): (r: seq<Json>)
    ensures |r| == |a|
    decreases a, 0
  {
    seq(|a|, i requires 0 <= i < |a| => if i < |b| then Rearranged(a[i], b[i]) else a[i])
  }

  function RearrangedMembers(ghost owner: Json, a: seq<Member>, b: seq<Member>): (r: seq<Member>)
    requires owner.Obj? && forall m :: m in a ==> m in owner.members
    ensures |r| == |a|
    decreases owner, 0
  {
    seq(|a|, i requires 0 <= i < |a| =>
      assert a[i] in owner.members;
      var y := ItemAt(b, a[i].key);
      if y.Some? then Member(a[i].key, Rearranged(a[i].item, y.value)) else a[i])
  }

  /** Generating a patch does not change what the source means. */
  lemma {:induction false} RearrangedMeans(from: Json, to: Json)
    requires WellFormed(from)
    ensures WellFormed(Rearranged(from, to)) && Denote(Rearranged(from, to)) == Denote(from)
    decreases from
  {
    if from.Arr? && to.Arr? {
      var a, r := from.items, RearrangedItems(from.items, to.items);
      forall i | 0 <= i < |a| ensures WellFormed(r[i]) && Denote(r[i]) == Denote(a[i]) {
        if i < |to.items| { RearrangedMeans(a[i], to.items[i]); }
      }
      assert DenoteItems(r) == DenoteItems(a);
    } else if from.Obj? && to.Obj? {
      SortedElements(from.members);
      var a := SortMembers(from.members);
      PermutedMembers(from.members, a);
      var r := RearrangedMembers(from, a, to.members);
      forall i | 0 <= i < |a|
        ensures r[i].key == a[i].key && WellFormed(r[i].item) && Denote(r[i].item) == Denote(a[i].item)
      {
        var y := ItemAt(to.members, a[i].key);
        assert a[i] in from.members;
        if y.Some? { RearrangedMeans(a[i].item, y.value); }
      }
      SameShape(a, r);
    }
  }

  lemma SameShape(a: seq<Member>, r: seq<Member>)
    requires WellFormedMembers(a) && |r| == |a|
    requires forall i :: 0 <= i < |a| ==>
      r[i].key == a[i].key && WellFormed(r[i].item) && Denote(r[i].item) == Denote(a[i].item)
    ensures WellFormedMembers(r) && DenoteMembers(r) == DenoteMembers(a)
  {
    hide WellFormed, Denote, IsCString, Lower;
    PairwiseSame(a, r);
  }

  /** Applying a patch to the very document it was generated from: exactly when that
    * goes well. */
  lemma PatchOwnSource(from: Json, to: Json)
    requires WellFormed(from) && WellFormed(to)
    ensures var x := Rearranged(from, to);
      var r := ApplyPatches(x, GeneratePatches(from, to));
      && (r == Fault <==> RootReplaced(from, to) || Touched(x, from, to))
      && (r != Fault ==> r.err == 0 && (Compare(r.doc, to) == 0 <==> Reachable(from, to)))
  {
    RearrangedMeans(from, to);
    CompareDecidesMeaning(Rearranged(from, to), from);
    PatchRoundTrip(Rearranged(from, to), from, to);
  }

  lemma DuplicateAt(items: seq<Json>, i: nat)
    requires i < |items|
    ensures Duplicate(Arr(items)).items[i] == Duplicate(items[i])
  {
  }

  /** A copy is never touched, so there the patch goes through. */
  lemma {:induction false} CopyUntouched(j: Json, from: Json, to: Json)
    ensures !Touched(Duplicate(j), from, to)
    decreases j
  {
    var x := Duplicate(j);
    if j.Arr? && from.Arr? && to.Arr? {
      forall i | 0 <= i < |from.items| && i < |to.items| && i < |j.items|
        ensures !Touched(x.items[i], from.items[i], to.items[i])
      {
        DuplicateAt(j.items, i);
        CopyUntouched(j.items[i], from.items[i], to.items[i]);
      }
    } else if j.Obj? && from.Obj? && to.Obj? {
      forall i | 0 <= i < |from.members|
        ensures !MemberTouched(x, from.members[i], ItemAt(to.members, from.members[i].key))
      {
        var m := from.members[i];
        var y, n := ItemAt(to.members, m.key), IndexOf(x.members, m.key);
        if y.Some? && n < |x.members| { CopyUntouched(j.members[n].item, m.item, y.value); }
      }
    }
  }

  const SWAPPED := Obj([Member("b", True), Member("a", True)])
  const SHORTER := Obj([Member("b", True)])

  /** Sorting {"b": true, "a": true} brings "a" to the front; the patch that removes
    * "a" then cannot be applied to that object, but it can be to a copy of it. */
  lemma OwnSourceFaults()
    ensures var patches := GeneratePatches(SWAPPED, SHORTER);
      && ApplyPatches(Rearranged(SWAPPED, SHORTER), patches) == Fault
      && ApplyPatches(Duplicate(SWAPPED), patches) != Fault
  {
    SwappedSorted();
    SwappedTouched();
    hide Rearranged, SortMembers, Touched, Duplicate, WellFormed;
    PatchOwnSource(SWAPPED, SHORTER);
    CopyGoesThrough(SWAPPED, SHORTER);
  }

  lemma SwappedTouched()
    ensures Touched(Rearranged(SWAPPED, SHORTER), SWAPPED, SHORTER)
  {
    SwappedSorted();
    hide SortMembers;
    var x := Rearranged(SWAPPED, SHORTER);
    assert MemberTouched(x, SWAPPED.members[1], ItemAt(SHORTER.members, "a"));
  }

  /** On a copy of the source only a root that must be replaced is a fault. */
  lemma CopyGoesThrough(from: Json, to: Json)
    requires WellFormed(from) && WellFormed(to)
    ensures ApplyPatches(Duplicate(from), GeneratePatches(from, to)) == Fault <==> RootReplaced(from, to)
  {
    hide Touched, Duplicate, RootReplaced;
    DuplicateMeans(from);
    CompareDecidesMeaning(Duplicate(from), from);
    CopyUntouched(from, from, to);
    PatchRoundTrip(Duplicate(from), from, to);
  }

  lemma SwappedSorted()
    ensures WellFormed(SWAPPED) && WellFormed(SHORTER)
    ensures SortMembers(SWAPPED.members) == [Member("a", True), Member("b", True)]
    ensures IndexOf(SHORTER.members, "a") == 1
  {
    SwappedKeys();
    SwappedMerged(Member("a", True), Member("b", True));
  }

  lemma SwappedKeys()
    ensures WellFormed(SWAPPED) && WellFormed(SHORTER)
    ensures IndexOf(SHORTER.members, "a") == 1
  {
    assert Lower("a") == "a" && Lower("b") == "b";
    assert SHORTER.members[1..] == [];
  }

  lemma SwappedMerged(a: Member, b: Member)
    requires a.key == "a" && b.key == "b"
    ensures SortMembers([b, a]) == [a, b]
  {
    assert Lower("a") == "a" && Lower("b") == "b";
    assert StrCmp("a", "b") < 0 < StrCmp("b", "a");
    TwoSorted(a, b);
  }

  /** Two members in the wrong order are swapped. */
  lemma TwoSorted(a: Member, b: Member)
    requires StrCaseCmp(a.key, b.key) < 0 < StrCaseCmp(b.key, a.key)
    ensures SortMembers([b, a]) == [a, b]
  {
    hide StrCaseCmp;
    var ms := [b, a];
    assert ms[..1] == [b] && ms[1..] == [a];
    assert JsonSort.SortList([b], KeyOf) == [b] && JsonSort.SortList([a], KeyOf) == [a];
    assert !JsonSort.StrictlySorted(ms, KeyOf) by { assert KeyOf(ms[0]) == b.key && KeyOf(ms[1]) == a.key; }
    assert [a][1..] == [];
    assert JsonSort.Merge([b], [a], KeyOf) == [a] + JsonSort.Merge([b], [], KeyOf);
  }
}
