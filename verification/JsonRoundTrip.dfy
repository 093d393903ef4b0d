/** Applying a generated patch: exactly which document comes out, and exactly
  * when it is the one the patch was generated for. */
module JsonRoundTrip {
  import JsonSort
  import opened Decimal
  import opened JsonPatch
  import opened JsonPointer
  import opened JsonText
  import opened JsonTree
  import opened Wrappers
  import opened Sequences

  // ----- carrying edits down one step -----

  datatype Step = Index(c: nat) | Key(key: string)

  function StepText(t: Step): string {
    match t
    case Index(c) => "/" + PrintNat(c)
    case Key(k) => "/" + Encode(k)
  }

  /** Step `t` leads from `j` to its child `i`. */
  predicate Leads(j: Json, t: Step, i: nat) {
    && i < |Kids(j)|
    && match t
       case Index(c) => j.Arr? && i == c
       case Key(k) => j.Obj? && IndexOf(j.members, k) == i
  }

  lemma LeadsDown(j: Json, t: Step, i: nat, rest: string)
    requires Leads(j, t, i) && AtTokenEnd(rest)
    ensures GetPointer(j, StepText(t) + rest) == Down(i, GetPointer(Kids(j)[i], rest))
  {
    match t
    case Index(c) => IntoItem(j.items, c, rest);
    case Key(k) => IntoMember(j.members, j.stale, k, rest);
  }

  lemma {:induction false} IndexOfKeys(a: seq<Member>, b: seq<Member>, k: string)
    requires |a| == |b| && forall i :: 0 <= i < |a| ==> a[i].key == b[i].key
    ensures IndexOf(a, k) == IndexOf(b, k)
  {
    if a != [] { IndexOfKeys(a[1..], b[1..], k); }
  }

  lemma LeadsAfter(j: Json, t: Step, i: nat, v: Json)
    requires Leads(j, t, i)
    ensures Leads(SetKid(j, i, v), t, i)
    ensures Kids(SetKid(j, i, v)) == Kids(j)[i := v]
    ensures forall w: Json {:trigger SetKid(SetKid(j, i, v), i, w)} :: SetKid(SetKid(j, i, v), i, w) == SetKid(j, i, w)
  {
    hide IndexOf;
    match j
    case Arr(items) =>
      assert forall w: Json {:trigger items[i := w]} :: items[i := v][i := w] == items[i := w];
    case Obj(ms, _) =>
      var ms' := ms[i := Member(ms[i].key, v)];
      IndexOfKeys(ms, ms', t.key);
      assert forall m: Member {:trigger ms[i := m]} :: ms'[i := m] == ms[i := m];
  }

  lemma SetKidSame(j: Json, i: nat)
    requires i < |Kids(j)|
    ensures SetKid(j, i, Kids(j)[i]) == j
  {
    match j
    case Arr(items) => assert items[i := items[i]] == items;
    case Obj(ms, _) => assert ms[i := Member(ms[i].key, ms[i].item)] == ms;
  }

  /** A path with at least one token. */
  predicate Proper(path: string) { path != "" && path[0] == '/' }

  lemma {:induction false} SplitPrefixed(pre: string, q: string)
    requires SplitLast(q).Some?
    ensures SplitLast(pre + q) == Some((pre + SplitLast(q).value.0, SplitLast(q).value.1))
  {
    if pre == "" {
      assert pre + q == q;
      assert pre + SplitLast(q).value.0 == SplitLast(q).value.0;
    } else {
      SplitPrefixed(pre[1..], q);
      assert (pre + q)[1..] == pre[1..] + q;
      assert [pre[0]] + (pre[1..] + SplitLast(q).value.0) == pre + SplitLast(q).value.0;
    }
  }

  lemma SplitProper(q: string)
    requires Proper(q)
    ensures SplitLast(q).Some? && AtTokenEnd(SplitLast(q).value.0)
  {
  }

  lemma PutBelow(j: Json, i: nat, loc: Loc, v: Json)
    requires i < |Kids(j)| && ValidLoc(Kids(j)[i], loc)
    ensures ValidLoc(j, [i] + loc) && At(j, [i] + loc) == At(Kids(j)[i], loc)
    ensures Put(j, [i] + loc, v) == SetKid(j, i, Put(Kids(j)[i], loc, v))
  {
    assert ([i] + loc)[1..] == loc;
  }

  lemma DetachBelow(j: Json, t: Step, i: nat, q: string)
    requires Leads(j, t, i) && Proper(q)
    ensures var kid := Kids(j)[i];
      PatchDetach(j, StepText(t) + q) ==
        match PatchDetach(kid, q)
        case None => None
        case Some((item, kid')) => Some((item, SetKid(j, i, kid')))
  {
    SplitProper(q);
    SplitPrefixed(StepText(t), q);
    var (pp, cp) := SplitLast(q).value;
    LeadsDown(j, t, i, pp);
    var r := GetPointer(Kids(j)[i], pp);
    SetKidSame(j, i);
    if r.Some? && Decode(cp).Some? {
      GetPointerValid(Kids(j)[i], pp);
      var d := DetachChild(At(Kids(j)[i], r.value), Decode(cp).value);
      PutBelow(j, i, r.value, if d.Some? then d.value.1 else Null);
    }
  }

  function Above(j: Json, i: nat, r: Outcome): Outcome
    requires i < |Kids(j)|
  {
    match r
    case Fault => Fault
    case Done(err, kid) => Done(err, SetKid(j, i, kid))
  }

  lemma AddBelow(j: Json, t: Step, i: nat, q: string, v: Json)
    requires Leads(j, t, i) && Proper(q)
    ensures PatchAdd(j, StepText(t) + q, v) == Above(j, i, PatchAdd(Kids(j)[i], q, v))
  {
    hide GetPointer, SplitLast, Decode, Put, At;
    SplitProper(q);
    SplitPrefixed(StepText(t), q);
    var (pp, cp) := SplitLast(q).value;
    LeadsDown(j, t, i, pp);
    var r := GetPointer(Kids(j)[i], pp);
    SetKidSame(j, i);
    if r.Some? && Decode(cp).Some? {
      GetPointerValid(Kids(j)[i], pp);
      var d := AddChild(At(Kids(j)[i], r.value), Decode(cp).value, v);
      PutBelow(j, i, r.value, if d.Some? then d.value else Null);
    }
  }

  /** The edits the generator makes below a node. */
  predicate Generated(e: Edit) {
    Proper(e.path) && (e.op == "add" || e.op == "remove" || e.op == "replace")
  }

  predicate AllGenerated(es: seq<Edit>) { forall i :: 0 <= i < |es| ==> Generated(es[i]) }

  lemma EditBelow(j: Json, t: Step, i: nat, e: Edit)
    requires Leads(j, t, i) && Generated(e)
    ensures ApplyEdit(j, Relocate(StepText(t), e)) == Above(j, i, ApplyEdit(Kids(j)[i], e))
  {
    hide ApplyEdit, PatchAdd, PatchDetach, IndexOf, StepText;
    EditApplies(j, Relocate(StepText(t), e));
    EditApplies(Kids(j)[i], e);
    var kid := Kids(j)[i];
    SetKidSame(j, i);
    if e.op == "add" {
      if e.value.Some? { AddBelow(j, t, i, e.path, Duplicate(e.value.value)); }
    } else {
      DetachBelow(j, t, i, e.path);
      var d := PatchDetach(kid, e.path);
      if d.Some? && e.op == "replace" && e.value.Some? {
        var kid' := d.value.1;
        LeadsAfter(j, t, i, kid');
        AddBelow(SetKid(j, i, kid'), t, i, e.path, Duplicate(e.value.value));
      } else if d.Some? {
        LeadsAfter(j, t, i, d.value.1);
      }
    }
  }

  /** Edits relocated below child `i` change that child as they would change it
    * alone, and nothing else. */
  lemma {:induction false} EditsBelow(j: Json, t: Step, i: nat, es: seq<Edit>)
    requires Leads(j, t, i) && AllGenerated(es)
    ensures ApplyEdits(j, RelocateAll(StepText(t), es)) == Above(j, i, ApplyEdits(Kids(j)[i], es))
    decreases |es|
  {
    hide ApplyEdit, SetKid, StepText, IndexOf;
    SetKidSame(j, i);
    if es != [] {
      EditBelow(j, t, i, es[0]);
      var r := ApplyEdit(Kids(j)[i], es[0]);
      if r.Done? && r.err == 0 {
        LeadsAfter(j, t, i, r.doc);
        EditsBelow(SetKid(j, i, r.doc), t, i, es[1..]);
        assert RelocateAll(StepText(t), es)[1..] == RelocateAll(StepText(t), es[1..]);
      }
    }
  }

  // ----- edits on the children of the node itself -----

  lemma SplitOne(k: string)
    requires forall i :: 0 <= i < |k| ==> k[i] != '/'
    ensures SplitLast("/" + k) == Some(("", k))
  {
    assert ("/" + k)[1..] == k;
    SplitNone(k);
  }

  lemma {:induction false} SplitNone(k: string)
    requires forall i :: 0 <= i < |k| ==> k[i] != '/'
    ensures SplitLast(k) == None
  {
    if k != "" { SplitNone(k[1..]); }
  }

  lemma DetachHere(j: Json, k: string)
    ensures PatchDetach(j, Below("", k)) == DetachChild(j, k)
  {
    assert Below("", k) == "/" + Encode(k);
    EncodeHasNoSlash(k);
    SplitOne(Encode(k));
    DecodeEncode(k);
  }

  function Tried(d: Option<Json>): Outcome {
    if d.None? then Fault else Done(0, d.value)
  }

  /** What is left after detaching. */
  function Remainder(j: Json, k: string): (r: Option<Json>)
    ensures j.Obj? && r.Some? ==> r.value.Obj?
  {
    if DetachChild(j, k).None? then None else Some(DetachChild(j, k).value.1)
  }

  lemma AddHere(j: Json, k: string, v: Json)
    ensures PatchAdd(j, Below("", k), v) == Tried(AddChild(j, k, v))
  {
    assert Below("", k) == "/" + Encode(k);
    EncodeHasNoSlash(k);
    SplitOne(Encode(k));
    DecodeEncode(k);
  }

  lemma EditHere(j: Json, k: string, v: Json)
    ensures ApplyEdit(j, Edit("remove", Below("", k), None)) == Tried(Remainder(j, k))
    ensures ApplyEdit(j, Edit("add", Below("", k), Some(v))) == Tried(AddChild(j, k, Duplicate(v)))
    ensures ApplyEdit(j, Edit("replace", Below("", k), Some(v))) ==
      var d := Remainder(j, k);
      if d.None? then Fault else Tried(AddChild(d.value, k, Duplicate(v)))
  {
    hide DetachChild, AddChild, Below, Duplicate;
    EditApplies(j, Edit("remove", Below("", k), None));
    EditApplies(j, Edit("add", Below("", k), Some(v)));
    EditApplies(j, Edit("replace", Below("", k), Some(v)));
    DetachHere(j, k);
    AddHere(j, k, Duplicate(v));
    if Remainder(j, k).Some? { AddHere(Remainder(j, k).value, k, Duplicate(v)); }
  }

  lemma IndexPath(c: nat)
    ensures Encode(PrintNat(c)) == PrintNat(c) && Below("", PrintNat(c)) == StepText(Index(c))
  {
    var s := PrintNat(c);
    assert forall i :: 0 <= i < |s| ==> IsDigit(s[i]);
    EncodePlain(s);
  }

  // ----- what members mean after one operation -----

  /** A map that lists exactly the members of `ms` is what `ms` means. */
  lemma MembersMean(ms: seq<Member>, d: map<string, Meaning>)
    requires DistinctKeys(ms)
    requires forall n :: 0 <= n < |ms| ==> Lower(ms[n].key) in d && d[Lower(ms[n].key)] == Denote(ms[n].item)
    requires d.Keys <= LowerKeys(ms)
    ensures DenoteMembers(ms) == d
  {
    hide Denote, Lower, DenoteMembers;
    forall x | x in LowerKeys(ms) ensures x in d && DenoteMembers(ms)[x] == d[x] {
      var n :| 0 <= n < |ms| && Lower(ms[n].key) == x;
      DenoteAt(ms, n);
    }
  }

  lemma KeysWithout(ms: seq<Member>, i: nat)
    requires i < |ms|
    ensures LowerKeys(ms) - {Lower(ms[i].key)} <= LowerKeys(Without(ms, i))
  {
    var r := Without(ms, i);
    forall x | x in LowerKeys(ms) - {Lower(ms[i].key)} ensures x in LowerKeys(r) {
      var m :| 0 <= m < |ms| && Lower(ms[m].key) == x;
      var n := if m < i then m else m - 1;
      assert r[n] == ms[m];
      KeyInside(r, n);
    }
  }

  lemma WithoutWellFormed(ms: seq<Member>, i: nat)
    requires WellFormedMembers(ms) && i < |ms|
    ensures WellFormedMembers(Without(ms, i))
    ensures forall n :: 0 <= n < |ms| - 1 ==> Without(ms, i)[n] == ms[if n < i then n else n + 1]
  {
    hide SameKey, IsCString, WellFormed;
    var r := Without(ms, i);
    assert forall n :: 0 <= n < |r| ==> r[n] == ms[if n < i then n else n + 1];
  }

  lemma AppendWellFormed(ms: seq<Member>, m: Member)
    requires WellFormedMembers(ms) && IndexOf(ms, m.key) == |ms| && IsCString(m.key) && WellFormed(m.item)
    ensures WellFormedMembers(ms + [m])
  {
    hide SameKey, IsCString, WellFormed;
    var r := ms + [m];
    assert forall n :: 0 <= n < |ms| ==> r[n] == ms[n] && !SameKey(r[n].key, m.key);
    assert r[|ms|] == m;
  }

  lemma WithoutMember(ms: seq<Member>, k: string)
    requires WellFormedMembers(ms) && IndexOf(ms, k) < |ms|
    ensures var r := Without(ms, IndexOf(ms, k));
      WellFormedMembers(r) && IndexOf(r, k) == |r| && DenoteMembers(r) == DenoteMembers(ms) - {Lower(k)}
  {
    hide Lower, Denote, DenoteMembers, WellFormed;
    var i := IndexOf(ms, k);
    var r := Without(ms, i);
    WithoutWellFormed(ms, i);
    forall n | 0 <= n < |r| ensures !SameKey(r[n].key, k) {
      var m := if n < i then n else n + 1;
      assert r[n] == ms[m] && !SameKey(ms[m].key, ms[i].key);
    }
    assert IndexOf(r, k) == |r|;
    WithoutMeaning(ms, i, r, DenoteMembers(ms) - {Lower(k)});
  }

  lemma WithoutMeaning(ms: seq<Member>, i: nat, r: seq<Member>, d: map<string, Meaning>)
    requires DistinctKeys(ms) && DistinctKeys(r) && i < |ms| && r == Without(ms, i)
    requires forall n :: 0 <= n < |r| ==> !SameKey(r[n].key, ms[i].key)
    requires d == DenoteMembers(ms) - {Lower(ms[i].key)}
    ensures DenoteMembers(r) == d
  {
    hide Lower, Denote, DenoteMembers;
    forall n | 0 <= n < |r| ensures Lower(r[n].key) in d && d[Lower(r[n].key)] == Denote(r[n].item) {
      var m := if n < i then n else n + 1;
      assert r[n] == ms[m];
      DenoteAt(ms, m);
    }
    KeysWithout(ms, i);
    MembersMean(r, d);
  }

  lemma KeysAppend(ms: seq<Member>, k: string, v: Json)
    ensures LowerKeys(ms + [Member(k, v)]) >= LowerKeys(ms) + {Lower(k)}
  {
    var r := ms + [Member(k, v)];
    KeyInside(r, |ms|);
    forall x | x in LowerKeys(ms) ensures x in LowerKeys(r) {
      var n :| 0 <= n < |ms| && Lower(ms[n].key) == x;
      assert r[n] == ms[n];
      KeyInside(r, n);
    }
  }

  lemma AppendMember(ms: seq<Member>, k: string, v: Json)
    requires WellFormedMembers(ms) && IndexOf(ms, k) == |ms| && IsCString(k) && WellFormed(v)
    ensures var r := ms + [Member(k, v)];
      WellFormedMembers(r) && DenoteMembers(r) == DenoteMembers(ms)[Lower(k) := Denote(v)]
  {
    hide Lower, IsCString, Denote, DenoteMembers, WellFormed;
    var r := ms + [Member(k, v)];
    var d := DenoteMembers(ms)[Lower(k) := Denote(v)];
    AppendWellFormed(ms, Member(k, v));
    forall n | 0 <= n < |r|
      ensures Lower(r[n].key) in d && d[Lower(r[n].key)] == Denote(r[n].item)
    {
      if n < |ms| {
        assert r[n] == ms[n] && !SameKey(ms[n].key, k);
        DenoteAt(ms, n);
      }
    }
    KeysAppend(ms, k, v);
    MembersMean(r, d);
  }

  /** Under key `x` an object holds what it held before, and its first member is
    * there, with a `prev`, if it was. */
  ghost predicate Same(d': Json, d: Json, x: string) {
    && d'.Obj? && d.Obj?
    && ItemAt(d'.members, x) == ItemAt(d.members, x) && StaleAt(d', x) == StaleAt(d, x)
  }

  ghost predicate Elsewhere(d': Json, d: Json, k: string) {
    forall x :: !SameKey(x, k) ==> Same(d', d, x)
  }

  /** Taking out another member does not change where a key is found first. */
  lemma ItemWithout(ms: seq<Member>, i: nat, x: string)
    requires i < |ms| && !SameKey(ms[i].key, x)
    ensures ItemAt(Without(ms, i), x) == ItemAt(ms, x)
  {
    var r, n, m := Without(ms, i), IndexOf(ms, x), IndexOf(Without(ms, i), x);
    hide SameKey, IndexOf, Without;
    WithoutAt(ms, i);
    var k := if n <= i then n else n - 1;
    assert n < |ms| ==> SameKey(r[k].key, x);
    assert m >= k by {
      if m < |r| { assert SameKey(ms[if m < i then m else m + 1].key, x); }
    }
  }

  lemma WithoutAt(ms: seq<Member>, i: nat)
    requires i < |ms|
    ensures var r := Without(ms, i);
      |r| == |ms| - 1 && forall k :: 0 <= k < |r| ==> r[k] == ms[if k < i then k else k + 1]
  {
  }

  lemma {:induction false} ItemAppended(ms: seq<Member>, m: Member, x: string)
    requires !SameKey(m.key, x)
    ensures ItemAt(ms + [m], x) == ItemAt(ms, x)
    decreases |ms|
  {
    hide SameKey;
    if ms == [] {
      assert [m][1..] == [] && ms + [m] == [m];
    } else {
      ItemAppended(ms[1..], m, x);
      assert (ms + [m])[1..] == ms[1..] + [m];
    }
  }

  lemma DetachElsewhere(j: Json, k: string)
    requires j.Obj? && Remainder(j, k).Some?
    ensures Elsewhere(Remainder(j, k).value, j, k)
  {
    hide SameKey, IndexOf;
    var d, i := Remainder(j, k).value, IndexOf(j.members, k);
    forall x | !SameKey(x, k) ensures Same(d, j, x) {
      KeysAlike(x, k);
      if i < |j.members| {
        KeysAlike(j.members[i].key, x);
        ItemWithout(j.members, i, x);
      }
    }
  }

  lemma KeysAlike(a: string, b: string)
    ensures SameKey(a, b) == SameKey(b, a)
    ensures forall c :: SameKey(a, b) && SameKey(b, c) ==> SameKey(a, c)
    ensures forall c :: SameKey(a, b) && SameKey(a, c) ==> SameKey(b, c)
  {
  }

  lemma AppendElsewhere(j: Json, k: string, v: Json)
    requires j.Obj?
    ensures Elsewhere(Appended(j, k, v), j, k)
  {
    hide SameKey, IndexOf;
    var d := Appended(j, k, v);
    forall x | !SameKey(x, k) ensures Same(d, j, x) {
      KeysAlike(x, k);
      ItemAppended(j.members, Member(k, v), x);
    }
  }

  lemma ElsewhereOn(d'': Json, d': Json, d: Json, k: string)
    requires Elsewhere(d'', d', k) && Elsewhere(d', d, k)
    ensures Elsewhere(d'', d, k)
  {
    hide SameKey, StaleAt, ItemAt;
    forall x | !SameKey(x, k) ensures Same(d'', d, x) {
      assert Same(d'', d', x) && Same(d', d, x);
    }
  }

  lemma SetKidElsewhere(j: Json, i: nat, v: Json)
    requires j.Obj? && i < |j.members|
    ensures Elsewhere(SetKid(j, i, v), j, j.members[i].key)
  {
    hide SameKey, IndexOf;
    var d := SetKid(j, i, v);
    forall x | !SameKey(x, j.members[i].key) ensures Same(d, j, x) {
      KeysAlike(x, j.members[i].key);
      IndexOfKeys(j.members, d.members, x);
      assert IndexOf(j.members, x) < |j.members| ==> SameKey(j.members[IndexOf(j.members, x)].key, x);
    }
  }

  /** A member taken out, unless it is the first one and has a `prev`. */
  lemma DetachMember(j: Json, k: string)
    requires j.Obj? && WellFormed(j)
    ensures Remainder(j, k) == None <==> StaleAt(j, k)
    ensures var r := Remainder(j, k);
      r.Some? ==>
        && r.value.Obj? && WellFormed(r.value) && Elsewhere(r.value, j, k)
        && DenoteMembers(r.value.members) == DenoteMembers(j.members) - {Lower(k)}
        && IndexOf(r.value.members, k) == |r.value.members|
  {
    hide Elsewhere, Lower, DenoteMembers;
    KeyPresent(j.members, k);
    if Remainder(j, k).Some? {
      DetachElsewhere(j, k);
      if IndexOf(j.members, k) < |j.members| {
        WithoutMember(j.members, k);
      } else {
        assert DenoteMembers(j.members) - {Lower(k)} == DenoteMembers(j.members);
      }
    }
  }

  /** Adding a member replaces whatever had its key. */
  lemma AddMember(j: Json, k: string, v: Json)
    requires j.Obj? && WellFormed(j) && IsCString(k) && WellFormed(v)
    ensures AddChild(j, k, v) == None <==> StaleAt(j, k)
    ensures var r := AddChild(j, k, v);
      r.Some? ==>
        && r.value.Obj? && WellFormed(r.value) && Elsewhere(r.value, j, k)
        && DenoteMembers(r.value.members) == DenoteMembers(j.members)[Lower(k) := Denote(v)]
  {
    hide Lower, IsCString, Denote, DenoteMembers, WellFormedMembers, Elsewhere, DetachChild, StaleAt;
    assert AddChild(j, k, v) ==
      if Remainder(j, k).None? then None else Some(Appended(Remainder(j, k).value, k, v));
    DetachMember(j, k);
    if Remainder(j, k).Some? {
      var d := Remainder(j, k).value;
      AppendElsewhere(d, k, v);
      ElsewhereOn(Appended(d, k, v), d, j, k);
      AppendMember(d.members, k, v);
      assert (DenoteMembers(j.members) - {Lower(k)})[Lower(k) := Denote(v)] ==
        DenoteMembers(j.members)[Lower(k) := Denote(v)];
    }
  }

  lemma SetMember(ms: seq<Member>, i: nat, k: string, v: Json)
    requires WellFormedMembers(ms) && i < |ms| && SameKey(ms[i].key, k) && WellFormed(v)
    ensures var r := ms[i := Member(ms[i].key, v)];
      WellFormedMembers(r) && DenoteMembers(r) == DenoteMembers(ms)[Lower(k) := Denote(v)]
  {
    hide Lower, IsCString, Denote, DenoteMembers, WellFormed;
    var r := ms[i := Member(ms[i].key, v)];
    assert forall n :: 0 <= n < |ms| ==> r[n].key == ms[n].key;
    assert WellFormedMembers(r);
    SetMeaning(ms, i, v, r, DenoteMembers(ms)[Lower(k) := Denote(v)]);
  }

  lemma SetMeaning(ms: seq<Member>, i: nat, v: Json, r: seq<Member>, d: map<string, Meaning>)
    requires DistinctKeys(ms) && DistinctKeys(r) && i < |ms| && r == ms[i := Member(ms[i].key, v)]
    requires d == DenoteMembers(ms)[Lower(ms[i].key) := Denote(v)]
    ensures DenoteMembers(r) == d
  {
    hide Lower, Denote, DenoteMembers;
    forall n | 0 <= n < |r| ensures Lower(r[n].key) in d && d[Lower(r[n].key)] == Denote(r[n].item) {
      if n != i {
        assert !SameKey(ms[n].key, ms[i].key);
        DenoteAt(ms, n);
      }
    }
    forall x | x in d.Keys ensures x in LowerKeys(r) {
      KeyInside(ms, i);
      var n :| 0 <= n < |ms| && Lower(ms[n].key) == x;
      assert r[n].key == ms[n].key;
      KeyInside(r, n);
    }
    MembersMean(r, d);
  }

  // ----- the document that comes out -----

  predicate SameContainer(a: Json, b: Json) {
    SameKind(a, b) && (a.Arr? || a.Obj?)
  }

  /** What remains of `s` after removing index 0, then 1, then 2, ... */
  function Survivors<T>(s: seq<T>): (r: seq<T>)
    ensures |r| == |s| / 2
  {
    if |s| < 2 then [] else [s[1]] + Survivors(s[2..])
  }

  /** The meaning of `from` after the patch towards `to` has been applied. */
  ghost function Patched(from: Json, to: Json): Meaning
    decreases from, 1
  {
    if SameKind(from, to) && from.Arr? then MArr(PatchedItems(from.items, to.items))
    else if SameKind(from, to) && from.Obj? then MObj(PatchedMembers(from.members, to.members))
    else Denote(to)
  }

  ghost function PatchedItems(from: seq<Json>, to: seq<Json>): seq<Meaning>
    decreases from, 0
  {
    if from != [] && to != [] then [Patched(from[0], to[0])] + PatchedItems(from[1..], to[1..])
    else if from != [] then DenoteItems(Survivors(from))
    else DenoteItems(to)
  }

  ghost function PatchedMembers(from: seq<Member>, to: seq<Member>): map<string, Meaning>
    decreases from, 0
  {
    map k | k in LowerKeys(to) ::
      PresentIndex(from, k);
      PresentIndex(to, k);
      if k in LowerKeys(from) then Patched(from[IndexOf(from, k)].item, to[IndexOf(to, k)].item)
      else Denote(to[IndexOf(to, k)].item)
  }

  /** Patching `x`, which says what `from` says, detaches the first member of an
    * object of `x` where that member has a `prev`. */
  predicate Touched(x: Json, from: Json, to: Json)
    decreases from, 1
  {
    if from.Arr? && to.Arr? then x.Arr? && ItemsTouched(x.items, from.items, to.items)
    else from.Obj? && to.Obj? && x.Obj? && MembersTouched(x, from.members, to.members)
  }

  predicate ItemsTouched(xs: seq<Json>, a: seq<Json>, b: seq<Json>)
    decreases a, 0
  {
    exists i :: 0 <= i < |a| && i < |b| && i < |xs| && Touched(xs[i], a[i], b[i])
  }

  predicate MembersTouched(x: Json, a: seq<Member>, b: seq<Member>)
    requires x.Obj?
    decreases a, 0
  {
    exists i :: 0 <= i < |a| && MemberTouched(x, a[i], ItemAt(b, a[i].key))
  }

  /** A member goes when the target has no such key or another scalar there. */
  predicate MemberTouched(x: Json, m: Member, to: Option<Json>)
    requires x.Obj?
    decreases m, 2
  {
    if to.None? || !(SameContainer(m.item, to.value) || NoEdits(m.item, to.value)) then StaleAt(x, m.key)
    else
      var y := ItemAt(x.members, m.key);
      y.Some? && Touched(y.value, m.item, to.value)
  }

  // ----- one child -----

  lemma RelocatedEdits(t: Step, from: Json, to: Json)
    ensures CompareToPatch(StepText(t), from, to) == RelocateAll(StepText(t), CompareToPatch("", from, to))
  {
    EditsAreRelative(StepText(t), "", from, to);
    assert StepText(t) + "" == StepText(t);
  }

  lemma {:induction false} ContainerEditsGenerated(from: Json, to: Json)
    requires SameContainer(from, to)
    ensures AllGenerated(CompareToPatch("", from, to))
    decreases from, 1, 0
  {
    if from.Arr? {
      ItemEditsGenerated(from.items, to.items, 0);
    } else {
      SortedElements(from.members);
      MemberEditsGenerated(from, SortMembers(from.members), SortMembers(to.members));
    }
  }

  lemma {:induction false} ChildEditsGenerated(t: Step, from: Json, to: Json)
    ensures AllGenerated(CompareToPatch(StepText(t), from, to))
    decreases from, 2, 0
  {
    RelocatedEdits(t, from, to);
    if SameContainer(from, to) {
      ContainerEditsGenerated(from, to);
    }
  }

  lemma {:induction false} ItemEditsGenerated(from: seq<Json>, to: seq<Json>, c: nat)
    ensures AllGenerated(ItemEdits("", from, to, c))
    decreases from, 0, |to|
  {
    if from != [] && to != [] {
      ChildEditsGenerated(Index(c), from[0], to[0]);
      assert "" + "/" + PrintNat(c) == StepText(Index(c));
      ItemEditsGenerated(from[1..], to[1..], c + 1);
    } else if from != [] {
      ItemEditsGenerated(from[1..], to, c + 1);
    } else if to != [] {
      ItemEditsGenerated(from, to[1..], c + 1);
    }
  }

  lemma {:induction false} MemberEditsGenerated(owner: Json, a: seq<Member>, b: seq<Member>)
    requires owner.Obj? && forall m :: m in a ==> m in owner.members
    ensures AllGenerated(MemberEdits("", owner, a, b))
    decreases owner, 0, |a| + |b|
  {
    if a != [] || b != [] {
      var diff := if a == [] then 1 else if b == [] then -1 else StrCaseCmp(a[0].key, b[0].key);
      if diff == 0 {
        assert a[0] in owner.members;
        ChildEditsGenerated(Key(a[0].key), a[0].item, b[0].item);
        assert Below("", a[0].key) == StepText(Key(a[0].key));
        MemberEditsGenerated(owner, a[1..], b[1..]);
      } else if diff < 0 {
        MemberEditsGenerated(owner, a[1..], b);
      } else {
        MemberEditsGenerated(owner, a, b[1..]);
      }
    }
  }

  /** Applying the edits succeeds and leaves a well-formed document that means `m`. */
  ghost predicate Yields(j: Json, es: seq<Edit>, m: Meaning) {
    var r := ApplyEdits(j, es);
    r.Done? && r.err == 0 && WellFormed(r.doc) && Denote(r.doc) == m
  }

  /** ... or is a fault, when it touches a first member that has a `prev`. */
  ghost predicate Ends(j: Json, es: seq<Edit>, m: Meaning, touched: bool) {
    if touched then ApplyEdits(j, es) == Fault else Yields(j, es, m)
  }

  /** Nothing is generated for two equal scalars. */
  predicate NoEdits(from: Json, to: Json) {
    && SameKind(from, to)
    && match from
       case Number(i, d) => i == to.valueint && d == to.valuedouble
       case Str(t) => t == to.text
       case Arr(_) => false
       case Obj(_, _) => false
       case _ => true
  }

  lemma ScalarEdits(path: string, from: Json, to: Json)
    requires !SameContainer(from, to) && WellFormed(from) && WellFormed(to)
    ensures CompareToPatch(path, from, to) == if NoEdits(from, to) then [] else [Edit("replace", path, Some(to))]
    ensures NoEdits(from, to) ==> Denote(from) == Denote(to)
  {
    if from.Str? && to.Str? { StrCmpZero(from.text, to.text); }
  }

  /** An array element is patched in its place. */
  lemma ItemPatched(items: seq<Json>, c: nat, from: Json, to: Json)
    requires c < |items| && WellFormed(Arr(items)) && WellFormed(from) && WellFormed(to)
    requires Denote(items[c]) == Denote(from)
    requires SameContainer(from, to) ==>
      Ends(items[c], CompareToPatch("", from, to), Patched(from, to), Touched(items[c], from, to))
    ensures ItemEnds(ApplyEdits(Arr(items), CompareToPatch("/" + PrintNat(c), from, to)), items, c,
      Patched(from, to), Touched(items[c], from, to))
  {
    hide ApplyEdit, CompareToPatch, Touched;
    var j, t := Arr(items), Index(c);
    assert StepText(t) == "/" + PrintNat(c);
    if SameContainer(from, to) {
      RelocatedEdits(t, from, to);
      ContainerEditsGenerated(from, to);
      EditsBelow(j, t, c, CompareToPatch("", from, to));
    } else {
      hide Denote, WellFormed, NoEdits;
      ScalarEdits(StepText(t), from, to);
      ScalarUntouched(items[c], from, to);
      if NoEdits(from, to) {
        assert items == items[c := items[c]];
      } else {
        ReplaceHere(items, c, to);
      }
      assert Patched(from, to) == Denote(to);
    }
  }

  lemma ReplaceHere(items: seq<Json>, c: nat, to: Json)
    requires c < |items| && WellFormed(Arr(items)) && WellFormed(to)
    ensures var es := [Edit("replace", "/" + PrintNat(c), Some(to))];
      ItemEnds(ApplyEdits(Arr(items), es), items, c, Denote(to), false)
  {
    hide ApplyEdit, Denote;
    IndexPath(c);
    EditHere(Arr(items), PrintNat(c), to);
    AtoiPrinted(c);
    DuplicateMeans(to);
    ReplaceItem(items, c, PrintNat(c), Duplicate(to));
  }

  ghost predicate ItemEnds(r: Outcome, items: seq<Json>, c: nat, m: Meaning, touched: bool)
    requires c < |items|
  {
    if touched then r == Fault
    else
      && r.Done? && r.err == 0 && r.doc.Arr? && |r.doc.items| == |items| && WellFormed(r.doc)
      && r.doc.items == items[c := r.doc.items[c]] && Denote(r.doc.items[c]) == m
  }

  lemma ScalarUntouched(x: Json, from: Json, to: Json)
    requires !SameContainer(from, to)
    ensures !Touched(x, from, to)
  {
  }

  lemma ReplaceItem(items: seq<Json>, c: nat, child: string, v: Json)
    requires c < |items| && Atoi(child) == c && child != "-"
    ensures var d := Remainder(Arr(items), child);
      d.Some? && AddChild(d.value, child, v) == Some(Arr(items[c := v]))
  {
    hide Atoi;
    var r := Without(items, c);
    assert r[..c] + [v] + r[c..] == items[c := v];
    assert c == |r| ==> r + [v] == items[c := v];
  }

  /** A member is patched under its key, wherever it ends up. */
  ghost predicate MemberOutcome(r: Outcome, d: Json, k: string, m: Meaning)
    requires d.Obj?
  {
    && r.Done? && r.err == 0 && r.doc.Obj? && WellFormed(r.doc) && Elsewhere(r.doc, d, k)
    && DenoteMembers(r.doc.members) == DenoteMembers(d.members)[Lower(k) := m]
  }

  ghost predicate MemberEnds(r: Outcome, d: Json, k: string, m: Meaning, touched: bool)
    requires d.Obj?
  {
    if touched then r == Fault else MemberOutcome(r, d, k, m)
  }

  lemma ContainerMember(d: Json, k: string, from: Json, to: Json)
    requires d.Obj? && WellFormed(d) && WellFormed(from) && WellFormed(to) && SameContainer(from, to)
    requires var x := ItemAt(d.members, k);
      && x.Some?
      && Ends(x.value, CompareToPatch("", from, to), Patched(from, to), Touched(x.value, from, to))
    ensures MemberEnds(ApplyEdits(d, CompareToPatch(Below("", k), from, to)), d, k, Patched(from, to),
      Touched(ItemAt(d.members, k).value, from, to))
  {
    hide ApplyEdits, CompareToPatch, DenoteMembers, Denote, Lower, Patched, WellFormedMembers, Touched, Elsewhere;
    var t := Key(k);
    var i := IndexOf(d.members, k);
    assert StepText(t) == Below("", k);
    assert Kids(d)[i] == d.members[i].item;
    RelocatedEdits(t, from, to);
    ContainerEditsGenerated(from, to);
    EditsBelow(d, t, i, CompareToPatch("", from, to));
    var r := ApplyEdits(d.members[i].item, CompareToPatch("", from, to));
    if r.Done? && WellFormed(r.doc) {
      SetMember(d.members, i, k, r.doc);
      SetKidElsewhere(d, i, r.doc);
      SameElsewhere(SetKid(d, i, r.doc), d, d.members[i].key, k);
    }
  }

  lemma SameElsewhere(d': Json, d: Json, k: string, k': string)
    requires Elsewhere(d', d, k) && SameKey(k, k')
    ensures Elsewhere(d', d, k')
  {
    forall x | !SameKey(x, k') ensures Same(d', d, x) {
      assert !SameKey(x, k);
    }
  }

  lemma ReplaceMember(d: Json, k: string, v: Json)
    requires d.Obj? && WellFormed(d) && IsCString(k) && WellFormed(v)
    ensures Remainder(d, k) == None <==> StaleAt(d, k)
    ensures Remainder(d, k).Some? ==>
      var r := AddChild(Remainder(d, k).value, k, v);
      && r.Some? && r.value.Obj? && WellFormed(r.value) && Elsewhere(r.value, d, k)
      && DenoteMembers(r.value.members) == DenoteMembers(d.members)[Lower(k) := Denote(v)]
  {
    hide AddChild, DetachChild, DenoteMembers, Denote, Lower, Elsewhere;
    DetachMember(d, k);
    if Remainder(d, k).Some? {
      var d' := Remainder(d, k).value;
      NotThere(d', k);
      AddMember(d', k, v);
      ElsewhereOn(AddChild(d', k, v).value, d', d, k);
      assert (DenoteMembers(d.members) - {Lower(k)})[Lower(k) := Denote(v)] ==
        DenoteMembers(d.members)[Lower(k) := Denote(v)];
    }
  }

  lemma NotThere(j: Json, k: string)
    requires j.Obj? && IndexOf(j.members, k) == |j.members|
    ensures !StaleAt(j, k)
  {
  }

  lemma OneEdit(doc: Json, e: Edit)
    ensures var r := ApplyEdit(doc, e); r.Fault? || r.err == 0 ==> ApplyEdits(doc, [e]) == r
  {
    hide ApplyEdit;
    var r := ApplyEdit(doc, e);
    if r.Done? { assert ApplyEdits(r.doc, [e][1..]) == Done(0, r.doc); }
  }

  lemma ScalarMember(d: Json, k: string, from: Json, to: Json)
    requires d.Obj? && WellFormed(d) && WellFormed(from) && WellFormed(to) && IsCString(k)
    requires !SameContainer(from, to)
    requires ItemAt(d.members, k).Some? && Denote(ItemAt(d.members, k).value) == Denote(from)
    ensures MemberEnds(ApplyEdits(d, CompareToPatch(Below("", k), from, to)), d, k, Denote(to),
      !NoEdits(from, to) && StaleAt(d, k))
  {
    hide ApplyEdit, CompareToPatch, DenoteMembers, Denote, Lower, AddChild, DetachChild, Below, NoEdits, Elsewhere,
      StaleAt, Duplicate;
    DenoteAt(d.members, IndexOf(d.members, k));
    ScalarEdits(Below("", k), from, to);
    if NoEdits(from, to) {
      assert DenoteMembers(d.members)[Lower(k) := Denote(to)] == DenoteMembers(d.members);
      Unchanged(d, k);
    } else {
      EditHere(d, k, to);
      OneEdit(d, Edit("replace", Below("", k), Some(to)));
      DuplicateMeans(to);
      ReplaceMember(d, k, Duplicate(to));
    }
  }

  lemma Unchanged(d: Json, k: string)
    requires d.Obj?
    ensures Elsewhere(d, d, k)
  {
  }
}
