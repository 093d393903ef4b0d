/** What the six operations of a JSON Patch do to the meaning of a document, at any
  * place in it, and the codes they answer. */
module JsonOperations {
  import opened Decimal
  import opened JsonPatch
  import opened JsonPointer
  import opened JsonRoundTrip
  import opened JsonText
  import opened JsonTree
  import opened Wrappers
  import opened Sequences

  // ----- places in a document -----

  /** The pointer that takes the steps `ts` (RFC 6901, section 3). */
  function PathText(ts: seq<string>): string {
    if ts == [] then "" else "/" + Encode(ts[0]) + PathText(ts[1..])
  }

  predicate IsNumber(t: string) {
    forall i :: 0 <= i < |t| ==> IsDigit(t[i])
  }

  /** What one step leads to; a step without digits counts as 0 in an array. */
  ghost function StepTo(m: Meaning, t: string): Option<Meaning> {
    match m
    case MArr(items) => if IsNumber(t) && Value(t) < |items| then Some(items[Value(t)]) else None
    case MObj(ms) => if Lower(t) in ms then Some(ms[Lower(t)]) else None
    case _ => None
  }

  ghost function Seen(m: Meaning, ts: seq<string>): Option<Meaning>
    decreases |ts|
  {
    if ts == [] then Some(m)
    else if StepTo(m, ts[0]).None? then None
    else Seen(StepTo(m, ts[0]).value, ts[1..])
  }

  /** The same document with what one step leads to replaced. */
  ghost function StepChanged(m: Meaning, t: string, v: Meaning): Meaning
    requires StepTo(m, t).Some?
  {
    match m
    case MArr(items) => MArr(items[Value(t) := v])
    case MObj(ms) => MObj(ms[Lower(t) := v])
  }

  ghost function Changed(m: Meaning, ts: seq<string>, v: Meaning): Meaning
    requires Seen(m, ts).Some?
    decreases |ts|
  {
    if ts == [] then v else StepChanged(m, ts[0], Changed(StepTo(m, ts[0]).value, ts[1..], v))
  }

  // ----- the last step -----

  /** What the last step names; in an array it is read by `atoi`. */
  ghost function Named(m: Meaning, k: string): Option<Meaning> {
    match m
    case MArr(items) => if 0 <= Atoi(k) < |items| then Some(items[Atoi(k)]) else None
    case MObj(ms) => if Lower(k) in ms then Some(ms[Lower(k)]) else None
    case _ => None
  }

  /** ... and what is left without it. */
  ghost function Left(m: Meaning, k: string): Meaning {
    match m
    case MArr(items) => if 0 <= Atoi(k) < |items| then MArr(items[..Atoi(k)] + items[Atoi(k) + 1..]) else m
    case MObj(ms) => MObj(ms - {Lower(k)})
    case _ => m
  }

  /** A value put there: a member replaces what has its key, an array grows. */
  ghost function With(m: Meaning, k: string, v: Meaning): Meaning {
    match m
    case MArr(items) =>
      if k == "-" || Atoi(k) >= |items| then MArr(items + [v])
      else if Atoi(k) < 0 then m
      else MArr(items[..Atoi(k)] + [v] + items[Atoi(k)..])
    case MObj(ms) => MObj(ms[Lower(k) := v])
    case _ => m
  }

  // ----- following a pointer -----

  lemma PathBegins(ts: seq<string>)
    ensures AtTokenEnd(PathText(ts))
  {
  }

  lemma IntoArray(items: seq<Json>, t: string, rest: string)
    requires AtTokenEnd(rest)
    ensures GetPointer(Arr(items), "/" + Encode(t) + rest) ==
      if IsNumber(t) && Value(t) < |items| then Down(Value(t), GetPointer(items[Value(t)], rest)) else None
  {
    var p := "/" + Encode(t) + rest;
    assert p[1..] == Encode(t) + rest;
    DigitsOfToken(t, rest);
    hide Encode, ReadDigits, Value;
  }

  lemma DigitsOfToken(t: string, rest: string)
    requires AtTokenEnd(rest)
    ensures IsNumber(t) ==> ReadDigits(Encode(t) + rest, 0) == (Value(t), rest)
    ensures !IsNumber(t) ==> !AtTokenEnd(ReadDigits(Encode(t) + rest, 0).1)
  {
    if IsNumber(t) {
      EncodePlain(t);
      ReadDigitsOf(t, 0, rest);
    } else {
      StopsInToken(t, rest, 0);
    }
  }

  lemma {:induction false} StopsInToken(t: string, rest: string, acc: nat)
    requires !IsNumber(t)
    ensures !AtTokenEnd(ReadDigits(Encode(t) + rest, acc).1)
    decreases |t|
  {
    if IsDigit(t[0]) {
      assert !IsNumber(t[1..]);
      assert Encode(t) + rest == [t[0]] + (Encode(t[1..]) + rest);
      StopsInToken(t[1..], rest, 10 * acc + (t[0] as int - '0' as int));
    }
  }

  /** The child one step leads to. */
  function ChildAt(j: Json, t: string): (r: Option<nat>)
    ensures r.Some? ==> r.value < |Kids(j)|
  {
    match j
    case Arr(items) => if IsNumber(t) && Value(t) < |items| then Some(Value(t)) else None
    case Obj(ms, _) => if IndexOf(ms, t) < |ms| then Some(IndexOf(ms, t)) else None
    case _ => None
  }

  lemma IntoChild(j: Json, t: string, rest: string)
    requires AtTokenEnd(rest)
    ensures var c := ChildAt(j, t);
      GetPointer(j, "/" + Encode(t) + rest) ==
        if c.None? then None else Down(c.value, GetPointer(Kids(j)[c.value], rest))
  {
    hide Encode, IsNumber, Value, IndexOf;
    match j
    case Arr(items) => IntoArray(items, t, rest);
    case Obj(ms, stale) => IntoMember(ms, stale, t, rest);
    case _ => NoChild(j, "/" + Encode(t) + rest);
  }

  lemma NoChild(j: Json, p: string)
    requires Kids(j) == [] && !j.Arr? && !j.Obj? && p != "" && p[0] == '/'
    ensures GetPointer(j, p) == None
  {
  }

  lemma ChildMeans(j: Json, t: string)
    requires WellFormed(j)
    ensures var c := ChildAt(j, t);
      && (c.None? <==> StepTo(Denote(j), t).None?)
      && (c.Some? ==> WellFormed(Kids(j)[c.value]) && StepTo(Denote(j), t) == Some(Denote(Kids(j)[c.value])))
  {
    hide IsNumber, Value, Lower;
    if j.Obj? { MemberNamed(j.members, t); }
  }

  lemma ChildChanged(j: Json, t: string, v: Json)
    requires WellFormed(j) && WellFormed(v) && ChildAt(j, t).Some? && StepTo(Denote(j), t).Some?
    ensures var j' := SetKid(j, ChildAt(j, t).value, v);
      WellFormed(j') && Denote(j') == StepChanged(Denote(j), t, Denote(v))
  {
    hide IsNumber, Value, Lower;
    var i := ChildAt(j, t).value;
    match j
    case Arr(items) => assert DenoteItems(items[i := v]) == DenoteItems(items)[i := Denote(v)];
    case Obj(ms, _) => SetMember(ms, i, t, v);
  }

  /** Following a pointer finds what its steps lead to. */
  lemma {:induction false} PointerMeans(j: Json, ts: seq<string>)
    requires WellFormed(j)
    ensures var r, s := GetPointer(j, PathText(ts)), Seen(Denote(j), ts);
      && (r.Some? <==> s.Some?)
      && (r.Some? ==> ValidLoc(j, r.value) && WellFormed(At(j, r.value)) && Denote(At(j, r.value)) == s.value)
    decreases |ts|
  {
    hide Encode, ChildAt, StepTo, Kids, Denote, WellFormed;
    if ts != [] {
      PathBegins(ts[1..]);
      IntoChild(j, ts[0], PathText(ts[1..]));
      ChildMeans(j, ts[0]);
      var c := ChildAt(j, ts[0]);
      if c.Some? { PointerMeans(Kids(j)[c.value], ts[1..]); }
    }
  }

  /** Replacing a node changes the meaning there. */
  lemma {:induction false} PutMeans(j: Json, ts: seq<string>, v: Json)
    requires WellFormed(j) && WellFormed(v) && GetPointer(j, PathText(ts)).Some? && Seen(Denote(j), ts).Some?
    ensures var loc := GetPointer(j, PathText(ts)).value;
      && ValidLoc(j, loc) && WellFormed(Put(j, loc, v))
      && Denote(Put(j, loc, v)) == Changed(Denote(j), ts, Denote(v))
    decreases |ts|
  {
    hide Encode, ChildAt, StepTo, StepChanged, Kids, Denote, WellFormed, SetKid;
    if ts != [] {
      PathBegins(ts[1..]);
      IntoChild(j, ts[0], PathText(ts[1..]));
      ChildMeans(j, ts[0]);
      var i := ChildAt(j, ts[0]).value;
      PutMeans(Kids(j)[i], ts[1..], v);
      ChildChanged(j, ts[0], Put(Kids(j)[i], GetPointer(Kids(j)[i], PathText(ts[1..])).value, v));
    }
  }

  // ----- the two halves of an operation -----

  /** The step `k` names a first member with a `prev`, at the place `ts`. */
  predicate StaleThere(doc: Json, ts: seq<string>, k: string) {
    var r := GetPointer(doc, PathText(ts));
    r.Some? && (GetPointerValid(doc, PathText(ts)); StaleAt(At(doc, r.value), k))
  }

  lemma {:induction false} PathAppend(ts: seq<string>, k: string)
    ensures PathText(ts + [k]) == PathText(ts) + "/" + Encode(k)
    decreases |ts|
  {
    if ts == [] {
      assert [k][1..] == [] && ts + [k] == [k];
    } else {
      PathAppend(ts[1..], k);
      assert (ts + [k])[1..] == ts[1..] + [k];
    }
  }

  /** The last step is what comes after the last '/'. */
  lemma PathSplits(ts: seq<string>, k: string)
    ensures SplitLast(PathText(ts + [k])) == Some((PathText(ts), Encode(k)))
    ensures Decode(Encode(k)) == Some(k)
  {
    hide Encode, PathText, SplitLast;
    PathAppend(ts, k);
    EncodeHasNoSlash(k);
    SplitOne(Encode(k));
    SplitPrefixed(PathText(ts), "/" + Encode(k));
    assert PathText(ts) + ("/" + Encode(k)) == PathText(ts) + "/" + Encode(k);
    assert PathText(ts) + "" == PathText(ts);
    DecodeEncode(k);
  }

  lemma DetachNamed(parent: Json, k: string)
    requires WellFormed(parent) && !StaleAt(parent, k)
    ensures var d := DetachChild(parent, k); var p := Denote(parent);
      && d.Some?
      && (d.value.0.None? <==> Named(p, k).None?)
      && (d.value.0.Some? ==> WellFormed(d.value.0.value) && Named(p, k) == Some(Denote(d.value.0.value)))
      && WellFormed(d.value.1) && Denote(d.value.1) == Left(p, k)
  {
    hide Atoi, Lower, Without, WellFormed;
    match parent
    case Arr(items) =>
      DetachElement(items, k);
      hide DenoteItems, DetachChild;
    case Obj(ms, _) =>
      DetachKey(parent, k);
      hide DenoteMembers, DetachChild;
    case _ =>
  }

  lemma DetachElement(items: seq<Json>, k: string)
    requires WellFormed(Arr(items))
    ensures var d, s, i := DetachChild(Arr(items), k), DenoteItems(items), Atoi(k);
      && d.Some? && WellFormed(d.value.1)
      && (d.value.0.None? <==> !(0 <= i < |s|))
      && (d.value.0.Some? ==> WellFormed(d.value.0.value) && s[i] == Denote(d.value.0.value))
      && Denote(d.value.1) == if 0 <= i < |s| then MArr(s[..i] + s[i + 1..]) else MArr(s)
  {
    hide Atoi, Without, WellFormed;
    if 0 <= Atoi(k) < |items| {
      DetachIndex(items, Atoi(k));
      WithoutMeans(items, Atoi(k));
    }
  }

  lemma DetachKey(parent: Json, k: string)
    requires parent.Obj? && WellFormed(parent) && !StaleAt(parent, k)
    ensures var d, m := DetachChild(parent, k), DenoteMembers(parent.members);
      && d.Some?
      && (d.value.0.None? <==> Lower(k) !in m)
      && (d.value.0.Some? ==> WellFormed(d.value.0.value) && m[Lower(k)] == Denote(d.value.0.value))
      && WellFormed(d.value.1) && Denote(d.value.1) == MObj(m - {Lower(k)})
  {
    hide DenoteMembers, StaleAt, Elsewhere, WellFormedMembers, Lower;
    DetachMember(parent, k);
    MemberNamed(parent.members, k);
  }

  lemma WithoutIs<T>(s: seq<T>, i: nat)
    requires i < |s|
    ensures |Without(s, i)| == |s| - 1
    ensures forall n :: 0 <= n < |s| - 1 ==> Without(s, i)[n] == s[if n < i then n else n + 1]
  {
  }

  /** A list is another one without element `i`. */
  lemma IsWithout<T>(r: seq<T>, s: seq<T>, i: nat)
    requires i < |s| && |r| == |s| - 1 && forall n :: 0 <= n < |r| ==> r[n] == s[if n < i then n else n + 1]
    ensures r == s[..i] + s[i + 1..]
  {
  }

  lemma DetachIndex(items: seq<Json>, i: nat)
    requires i < |items| && WellFormed(Arr(items))
    ensures WellFormed(Arr(Without(items, i))) && WellFormed(items[i]) && DenoteItems(items)[i] == Denote(items[i])
  {
    WithoutIs(items, i);
    ItemsMean(items);
    ItemsFormed(items);
    ItemsFormed(Without(items, i));
    hide Without, Denote, DenoteItems, WellFormed;
  }

  lemma ItemsFormed(items: seq<Json>)
    ensures WellFormed(Arr(items)) <==> forall n :: 0 <= n < |items| ==> WellFormed(items[n])
  {
  }

  lemma WithoutMeans(items: seq<Json>, i: nat)
    requires i < |items|
    ensures DenoteItems(Without(items, i)) == DenoteItems(items)[..i] + DenoteItems(items)[i + 1..]
  {
    hide Denote, DenoteItems, Without;
    WithoutIs(items, i);
    ItemsMean(items);
    ItemsMean(Without(items, i));
    IsWithout(DenoteItems(Without(items, i)), DenoteItems(items), i);
  }

  lemma ItemsMean(items: seq<Json>)
    ensures |DenoteItems(items)| == |items|
    ensures forall n :: 0 <= n < |items| ==> DenoteItems(items)[n] == Denote(items[n])
  {
  }

  lemma MemberNamed(ms: seq<Member>, k: string)
    requires WellFormedMembers(ms)
    ensures var i := IndexOf(ms, k);
      && (i < |ms| <==> Lower(k) in DenoteMembers(ms))
      && (i < |ms| ==> WellFormed(ms[i].item) && DenoteMembers(ms)[Lower(k)] == Denote(ms[i].item))
  {
    hide Denote, Lower, WellFormed, DenoteMembers;
    KeyPresent(ms, k);
    if IndexOf(ms, k) < |ms| { DenoteAt(ms, IndexOf(ms, k)); }
  }

  lemma AddNamed(parent: Json, k: string, v: Json)
    requires WellFormed(parent) && WellFormed(v) && IsCString(k) && !StaleAt(parent, k)
    ensures var d := AddChild(parent, k, v);
      d.Some? && WellFormed(d.value) && Denote(d.value) == With(Denote(parent), k, Denote(v))
  {
    hide Atoi, Lower;
    match parent
    case Arr(items) =>
      var i := Atoi(k);
      assert DenoteItems(items + [v]) == DenoteItems(items) + [Denote(v)];
      if 0 <= i < |items| {
        assert DenoteItems(items[..i] + [v] + items[i..]) ==
          DenoteItems(items)[..i] + [Denote(v)] + DenoteItems(items)[i..];
      }
    case Obj(_, _) => AddMember(parent, k, v);
    case _ =>
  }

  // Getting and putting.

  /** Putting back what is there changes nothing. */
  lemma {:induction false} ChangedBack(m: Meaning, ts: seq<string>)
    requires Seen(m, ts).Some?
    ensures Changed(m, ts, Seen(m, ts).value) == m
    decreases |ts|
  {
    hide Value, Lower;
    if ts != [] {
      ChangedBack(StepTo(m, ts[0]).value, ts[1..]);
      match m
      case MArr(items) => assert items[Value(ts[0]) := items[Value(ts[0])]] == items;
      case MObj(ms) => assert ms[Lower(ts[0]) := ms[Lower(ts[0])]] == ms;
    }
  }

  /** What is put somewhere is found there. */
  lemma {:induction false} ChangedThere(m: Meaning, ts: seq<string>, v: Meaning)
    requires Seen(m, ts).Some?
    ensures Seen(Changed(m, ts, v), ts) == Some(v)
    decreases |ts|
  {
    hide IsNumber, Value, Lower;
    if ts != [] { ChangedThere(StepTo(m, ts[0]).value, ts[1..], v); }
  }

  /** Two pointers part ways: after some common steps they take different ones. */
  ghost predicate Apart(m: Meaning, ts: seq<string>, us: seq<string>)
    decreases |ts|
  {
    && ts != [] && us != []
    && (SameStep(m, ts[0], us[0]) ==> StepTo(m, ts[0]).Some? && Apart(StepTo(m, ts[0]).value, ts[1..], us[1..]))
  }

  predicate SameStep(m: Meaning, t: string, u: string) {
    || (m.MArr? && IsNumber(t) && IsNumber(u) && Value(t) == Value(u))
    || (m.MObj? && Lower(t) == Lower(u))
  }

  /** Elsewhere a change is not seen. */
  lemma {:induction false} ChangedElsewhere(m: Meaning, ts: seq<string>, us: seq<string>, v: Meaning)
    requires Seen(m, ts).Some? && Apart(m, ts, us)
    ensures Seen(Changed(m, ts, v), us) == Seen(m, us)
    decreases |ts|
  {
    hide IsNumber, Value, Lower;
    var next := StepTo(m, ts[0]).value;
    if Apart(next, ts[1..], us[1..]) { ChangedElsewhere(next, ts[1..], us[1..], v); }
  }

  lemma LeftAlone(m: Meaning, k: string)
    requires Named(m, k).None?
    ensures Left(m, k) == m
  {
    if m.MObj? { assert m.members - {Lower(k)} == m.members; }
  }

  lemma StaleChild(parent: Json, k: string, v: Json)
    requires StaleAt(parent, k)
    ensures DetachChild(parent, k) == None && AddChild(parent, k, v) == None
  {
  }

  /** What taking out a node does. */
  lemma DetachMeaning(doc: Json, ts: seq<string>, k: string)
    requires WellFormed(doc)
    ensures var r, p := PatchDetach(doc, PathText(ts + [k])), Seen(Denote(doc), ts);
      && (r.None? <==> StaleThere(doc, ts, k))
      && (r.Some? ==> WellFormed(r.value.1) && Taken(Denote(doc), ts, k, r.value.0, Denote(r.value.1)))
  {
    hide Encode, PathText, SplitLast, Decode, StaleAt, DetachChild, Named, Left, Seen, Changed, WellFormed, Denote;
    PathSplits(ts, k);
    PointerMeans(doc, ts);
    var loc := GetPointer(doc, PathText(ts));
    if loc.Some? {
      var parent := At(doc, loc.value);
      if StaleAt(parent, k) {
        StaleChild(parent, k, Null);
      } else {
        DetachNamed(parent, k);
        PutMeans(doc, ts, DetachChild(parent, k).value.1);
        if Named(Denote(parent), k).None? {
          LeftAlone(Denote(parent), k);
          ChangedBack(Denote(doc), ts);
        }
      }
    }
  }

  /** What is named at a place of a document. */
  ghost function NamedAt(m: Meaning, ts: seq<string>, k: string): Option<Meaning> {
    if Seen(m, ts).None? then None else Named(Seen(m, ts).value, k)
  }

  /** `item` has been taken out of a document that meant `m`. */
  ghost predicate Taken(m: Meaning, ts: seq<string>, k: string, item: Option<Json>, m': Meaning) {
    if NamedAt(m, ts, k).None? then item.None? && m' == m
    else
      && item.Some? && WellFormed(item.value) && Denote(item.value) == NamedAt(m, ts, k).value
      && m' == Changed(m, ts, Left(Seen(m, ts).value, k))
  }

  /** What putting in a node does. */
  lemma AddMeaning(doc: Json, ts: seq<string>, k: string, v: Json)
    requires WellFormed(doc) && WellFormed(v) && IsCString(k)
    ensures var r := PatchAdd(doc, PathText(ts + [k]), v);
      if StaleThere(doc, ts, k) then r == Fault else Entered(r, Denote(doc), ts, k, Denote(v))
  {
    hide Encode, PathText, SplitLast, Decode, StaleAt, AddChild, With, Seen, Changed, WellFormed, Denote, IsCString;
    PathSplits(ts, k);
    PointerMeans(doc, ts);
    var loc := GetPointer(doc, PathText(ts));
    if loc.Some? {
      var parent := At(doc, loc.value);
      if StaleAt(parent, k) {
        StaleChild(parent, k, v);
      } else {
        AddNamed(parent, k, v);
        PutMeans(doc, ts, AddChild(parent, k, v).value);
      }
    }
  }

  /** An operation has answered `err` and left a document that means `m`. */
  ghost predicate Answers(r: Outcome, err: int, m: Meaning) {
    r.Done? && r.err == err && WellFormed(r.doc) && Denote(r.doc) == m
  }

  /** The value `v` has been put at step `k` below the place `ts` of a document that
    * meant `m`; 9 says that there is no such place. */
  ghost predicate Entered(r: Outcome, m: Meaning, ts: seq<string>, k: string, v: Meaning) {
    if Seen(m, ts).None? then Answers(r, 9, m)
    else Answers(r, 0, Changed(m, ts, With(Seen(m, ts).value, k, v)))
  }

  // ----- the operations -----

  /** A patch object for operation `op` on the place `ts` and step `k`. */
  predicate Asks(patch: Json, op: string, ts: seq<string>, k: string) {
    && GetObjectItem(patch, "op") == Some(Str(op))
    && GetObjectItem(patch, "path") == Some(Str(PathText(ts + [k])))
    && IsCString(k)
  }

  /** Which operation a patch asks for. */
  lemma Performed(doc: Json, patch: Json, op: string, path: string)
    requires GetObjectItem(patch, "op") == Some(Str(op)) && GetObjectItem(patch, "path") == Some(Str(path))
    ensures op == "add" ==> ApplyPatch(doc, patch) == PatchValue(doc, path, GetObjectItem(patch, "value"))
    ensures op == "remove" || op == "replace" ==>
      ApplyPatch(doc, patch) ==
        match PatchDetach(doc, path)
        case None => Fault
        case Some((_, doc')) =>
          if op == "remove" then Done(0, doc') else PatchValue(doc', path, GetObjectItem(patch, "value"))
    ensures op == "move" ==> ApplyPatch(doc, patch) == PatchMove(doc, path, GetObjectItem(patch, "from"))
    ensures op == "copy" ==> ApplyPatch(doc, patch) == PatchCopy(doc, path, GetObjectItem(patch, "from"))
    ensures op == "test" ==> ApplyPatch(doc, patch) == PatchTest(doc, path, GetObjectItem(patch, "value"))
  {
    hide GetObjectItem, PatchDetach, PatchValue, PatchMove, PatchCopy, PatchTest;
  }

  ghost predicate ValueText(value: Option<Json>) {
    value.Some? ==> WellFormed(value.value)
  }

  /** "add": 7 without a value. */
  lemma AddAnswers(doc: Json, patch: Json, ts: seq<string>, k: string)
    requires WellFormed(doc) && Asks(patch, "add", ts, k) && ValueText(GetObjectItem(patch, "value"))
    ensures var r, m, value := ApplyPatch(doc, patch), Denote(doc), GetObjectItem(patch, "value");
      if value.None? then Answers(r, 7, m)
      else if StaleThere(doc, ts, k) then r == Fault
      else Entered(r, m, ts, k, Denote(value.value))
  {
    hide GetObjectItem, PatchAdd, StaleThere, Denote, WellFormed, PathText, Entered, ApplyPatch;
    Performed(doc, patch, "add", PathText(ts + [k]));
    var value := GetObjectItem(patch, "value");
    if value.Some? {
      DuplicateMeans(value.value);
      AddMeaning(doc, ts, k, Duplicate(value.value));
    }
  }

  /** The document with what is named there taken out. */
  ghost function Cleared(m: Meaning, ts: seq<string>, k: string): Meaning {
    if NamedAt(m, ts, k).None? then m else Changed(m, ts, Left(Seen(m, ts).value, k))
  }

  /** "remove": nothing there is no error. */
  lemma RemoveAnswers(doc: Json, patch: Json, ts: seq<string>, k: string)
    requires WellFormed(doc) && Asks(patch, "remove", ts, k)
    ensures var r := ApplyPatch(doc, patch);
      if StaleThere(doc, ts, k) then r == Fault else Answers(r, 0, Cleared(Denote(doc), ts, k))
  {
    hide GetObjectItem, PatchDetach, StaleThere, Denote, WellFormed, PathText, NamedAt, Seen, Changed, Left, ApplyPatch;
    Performed(doc, patch, "remove", PathText(ts + [k]));
    DetachMeaning(doc, ts, k);
  }

  /** The tree after taking out a node. */
  function Cut(doc: Json, ts: seq<string>, k: string): Json {
    var loc := GetPointer(doc, PathText(ts));
    if loc.None? then doc
    else
      GetPointerValid(doc, PathText(ts));
      var d := Remainder(At(doc, loc.value), k);
      if d.None? then doc else Put(doc, loc.value, d.value)
  }

  lemma CutIs(doc: Json, ts: seq<string>, k: string)
    ensures var d := PatchDetach(doc, PathText(ts + [k])); d.Some? ==> d.value.1 == Cut(doc, ts, k)
  {
    hide PathText, Encode, SplitLast, Decode;
    PathSplits(ts, k);
  }

  /** "replace": what is there goes even when the value is missing. */
  lemma ReplaceAnswers(doc: Json, patch: Json, ts: seq<string>, k: string)
    requires WellFormed(doc) && Asks(patch, "replace", ts, k) && ValueText(GetObjectItem(patch, "value"))
    ensures var r, m, value := ApplyPatch(doc, patch), Denote(doc), GetObjectItem(patch, "value");
      if StaleThere(doc, ts, k) then r == Fault
      else if value.None? then Answers(r, 7, Cleared(m, ts, k))
      else if StaleThere(Cut(doc, ts, k), ts, k) then r == Fault
      else Entered(r, Cleared(m, ts, k), ts, k, Denote(value.value))
  {
    hide GetObjectItem, PatchDetach, PatchAdd, StaleThere, Denote, WellFormed, PathText, Entered, Cut, Seen, Changed;
    hide NamedAt, Left;
    hide ApplyPatch;
    Performed(doc, patch, "replace", PathText(ts + [k]));
    var value := GetObjectItem(patch, "value");
    DetachMeaning(doc, ts, k);
    CutIs(doc, ts, k);
    if value.Some? && !StaleThere(doc, ts, k) {
      DuplicateMeans(value.value);
      AddMeaning(Cut(doc, ts, k), ts, k, Duplicate(value.value));
    }
  }

  /** "move": 4 without a "from", 5 when nothing is there; then the value is taken out
    * and put at the path, and is lost with 9 when there is no such place. */
  lemma MoveAnswers(doc: Json, patch: Json, from: seq<string>, f: string, ts: seq<string>, k: string)
    requires WellFormed(doc) && Asks(patch, "move", ts, k)
    requires GetObjectItem(patch, "from") in {None, Some(Str(PathText(from + [f])))}
    ensures var r, m, v := ApplyPatch(doc, patch), Denote(doc), NamedAt(Denote(doc), from, f);
      if GetObjectItem(patch, "from").None? then Answers(r, 4, m)
      else if StaleThere(doc, from, f) then r == Fault
      else if v.None? then Answers(r, 5, m)
      else if StaleThere(Cut(doc, from, f), ts, k) then r == Fault
      else Entered(r, Cleared(m, from, f), ts, k, v.value)
  {
    hide GetObjectItem, PatchDetach, PatchAdd, StaleThere, Denote, WellFormed, PathText, Entered, Cut, Seen, Changed;
    hide NamedAt, Left;
    hide ApplyPatch;
    Performed(doc, patch, "move", PathText(ts + [k]));
    DetachMeaning(doc, from, f);
    CutIs(doc, from, f);
    var d := PatchDetach(doc, PathText(from + [f]));
    if d.Some? && d.value.0.Some? { AddMeaning(Cut(doc, from, f), ts, k, d.value.0.value); }
  }

  /** "copy": the same from a document that keeps the value.  "from" is read like any
    * pointer here, so that the whole document can be copied. */
  lemma CopyAnswers(doc: Json, patch: Json, from: seq<string>, ts: seq<string>, k: string)
    requires WellFormed(doc) && Asks(patch, "copy", ts, k)
    requires GetObjectItem(patch, "from") in {None, Some(Str(PathText(from)))}
    ensures var r, m, v := ApplyPatch(doc, patch), Denote(doc), Seen(Denote(doc), from);
      if GetObjectItem(patch, "from").None? then Answers(r, 4, m)
      else if v.None? then Answers(r, 5, m)
      else if StaleThere(doc, ts, k) then r == Fault
      else Entered(r, m, ts, k, v.value)
  {
    hide GetObjectItem, PatchDetach, PatchAdd, StaleThere, Denote, WellFormed, PathText, Entered, Seen, Changed;
    hide ApplyPatch;
    Performed(doc, patch, "copy", PathText(ts + [k]));
    PointerMeans(doc, from);
    var loc := GetPointer(doc, PathText(from));
    if loc.Some? {
      var v := At(doc, loc.value);
      DuplicateMeans(v);
      AddMeaning(doc, ts, k, Duplicate(v));
    }
  }

  /** "test": the document stays, and 0 says that the place means what the value
    * means.  C reads NULL when one of the two is missing. */
  lemma TestAnswers(doc: Json, patch: Json, ts: seq<string>)
    requires WellFormed(doc) && ValueText(GetObjectItem(patch, "value"))
    requires GetObjectItem(patch, "op") == Some(Str("test"))
    requires GetObjectItem(patch, "path") == Some(Str(PathText(ts)))
    ensures var r, v, value := ApplyPatch(doc, patch), Seen(Denote(doc), ts), GetObjectItem(patch, "value");
      if v.None? || value.None? then r == Fault
      else r.Done? && r.doc == doc && (r.err == 0 <==> v.value == Denote(value.value))
  {
    hide GetObjectItem, Denote, WellFormed, PathText, Seen, Compare, ApplyPatch;
    Performed(doc, patch, "test", PathText(ts));
    PointerMeans(doc, ts);
    var loc, value := GetPointer(doc, PathText(ts)), GetObjectItem(patch, "value");
    if loc.Some? && value.Some? { CompareDecidesMeaning(At(doc, loc.value), value.value); }
  }

  /** 1 for patches that are no list, 2 for a patch without its two texts, 3 for an
    * operation that does not exist; the document stays. */
  lemma Malformed(doc: Json, patch: Json, patches: Json)
    ensures !patches.Arr? ==> ApplyPatches(doc, patches) == Done(1, doc)
    ensures GetObjectItem(patch, "op").None? || GetObjectItem(patch, "path").None? ==>
      ApplyPatch(doc, patch) == Done(2, doc)
    ensures forall op, path :: GetObjectItem(patch, "op") == Some(Str(op)) ==>
      GetObjectItem(patch, "path") == Some(Str(path)) ==>
      op !in {"add", "remove", "replace", "move", "copy", "test"} ==> ApplyPatch(doc, patch) == Done(3, doc)
  {
  }

  // ----- the same for the members of one object and the elements of one array -----

  lemma StaysFresh(doc: Json, f: string, k: string)
    requires doc.Obj? && !StaleAt(doc, f) && !StaleAt(doc, k)
    ensures !StaleThere(doc, [], f) && !StaleThere(Cut(doc, [], f), [], k)
  {
    var d := Remainder(doc, f).value;
    assert GetPointer(doc, "") == Some([]) && GetPointer(d, "") == Some([]);
    assert Cut(doc, [], f) == d;
    if doc.stale && doc.members != [] {
      assert IndexOf(doc.members, f) > 0;
      assert d.members != [] && d.members[0] == doc.members[0];
    }
  }

  lemma OneStep(k: string)
    ensures PathText([k]) == "/" + Encode(k) && [] + [k] == [k]
  {
    assert [k][1..] == [];
    assert "/" + Encode(k) + "" == "/" + Encode(k);
  }

  /** A member moved from key `f` to key `k` is under `k` alone. */
  lemma MoveMember(doc: Json, patch: Json, f: string, k: string)
    requires doc.Obj? && WellFormed(doc) && IsCString(k) && !StaleAt(doc, f) && !StaleAt(doc, k)
    requires GetObjectItem(patch, "op") == Some(Str("move"))
    requires GetObjectItem(patch, "from") == Some(Str("/" + Encode(f)))
    requires GetObjectItem(patch, "path") == Some(Str("/" + Encode(k)))
    ensures var r, m := ApplyPatch(doc, patch), DenoteMembers(doc.members);
      && r.Done? && WellFormed(r.doc)
      && if Lower(f) in m then r.err == 0 && Denote(r.doc) == MObj((m - {Lower(f)})[Lower(k) := m[Lower(f)]])
         else r.err == 5 && Denote(r.doc) == MObj(m)
  {
    hide GetObjectItem, Encode, Lower, PathText, DenoteMembers, StaleAt, Cut, StaleThere;
    OneStep(f);
    OneStep(k);
    StaysFresh(doc, f, k);
    MoveAnswers(doc, patch, [], f, [], k);
  }

  /** A member copied from key `f` to key `k` is under both. */
  lemma CopyMember(doc: Json, patch: Json, f: string, k: string)
    requires doc.Obj? && WellFormed(doc) && IsCString(k) && !StaleAt(doc, k)
    requires GetObjectItem(patch, "op") == Some(Str("copy"))
    requires GetObjectItem(patch, "from") == Some(Str("/" + Encode(f)))
    requires GetObjectItem(patch, "path") == Some(Str("/" + Encode(k)))
    ensures var r, m := ApplyPatch(doc, patch), DenoteMembers(doc.members);
      && r.Done? && WellFormed(r.doc)
      && if Lower(f) in m then r.err == 0 && Denote(r.doc) == MObj(m[Lower(k) := m[Lower(f)]])
         else r.err == 5 && Denote(r.doc) == MObj(m)
  {
    hide GetObjectItem, Encode, Lower, PathText, DenoteMembers, StaleAt, Cut;
    OneStep(f);
    OneStep(k);
    assert GetPointer(doc, "") == Some([]) && PathText([]) == "" by { EmptyPath(); }
    CopyAnswers(doc, patch, [f], [], k);
  }

  lemma EmptyPath()
    ensures PathText([]) == ""
  {
  }

  /** A member is tested against a value. */
  lemma TestMember(doc: Json, patch: Json, k: string, v: Json)
    requires doc.Obj? && WellFormed(doc) && WellFormed(v) && ItemAt(doc.members, k).Some?
    requires GetObjectItem(patch, "op") == Some(Str("test")) && GetObjectItem(patch, "value") == Some(v)
    requires GetObjectItem(patch, "path") == Some(Str("/" + Encode(k)))
    ensures var r := ApplyPatch(doc, patch);
      r.Done? && r.doc == doc && (r.err == 0 <==> DenoteMembers(doc.members)[Lower(k)] == Denote(v))
  {
    hide GetObjectItem, Encode, Lower, PathText, DenoteMembers, ApplyPatch, Seen;
    OneStep(k);
    KeyPresent(doc.members, k);
    SeenOne(Denote(doc), k);
    TestAnswers(doc, patch, [k]);
  }

  lemma SeenOne(m: Meaning, k: string)
    ensures Seen(m, [k]) == StepTo(m, k)
  {
    assert [k][1..] == [];
  }

  /** An element moved within an array: the others close up first. */
  lemma MoveItem(doc: Json, patch: Json, i: nat, j: nat)
    requires doc.Arr? && WellFormed(doc) && i < |doc.items| && j < |doc.items|
    requires GetObjectItem(patch, "op") == Some(Str("move"))
    requires GetObjectItem(patch, "from") == Some(Str("/" + PrintNat(i)))
    requires GetObjectItem(patch, "path") == Some(Str("/" + PrintNat(j)))
    ensures var r, s := ApplyPatch(doc, patch), DenoteItems(doc.items);
      var rest := s[..i] + s[i + 1..];
      r.Done? && r.err == 0 && Denote(r.doc) == MArr(rest[..j] + [s[i]] + rest[j..])
  {
    hide GetObjectItem, PathText, Atoi;
    NumberStep(i);
    NumberStep(j);
    var s := DenoteItems(doc.items);
    var rest := s[..i] + s[i + 1..];
    assert j == |rest| ==> rest + [s[i]] == rest[..j] + [s[i]] + rest[j..];
    assert !StaleThere(doc, [], PrintNat(i)) && !StaleThere(Cut(doc, [], PrintNat(i)), [], PrintNat(j)) by {
      EmptyPath();
      assert GetPointer(doc, "") == Some([]);
    }
    MoveAnswers(doc, patch, [], PrintNat(i), [], PrintNat(j));
  }

  lemma NumberStep(i: nat)
    ensures PathText([] + [PrintNat(i)]) == "/" + PrintNat(i)
    ensures Atoi(PrintNat(i)) == i && PrintNat(i) != "-" && IsCString(PrintNat(i))
  {
    var t := PrintNat(i);
    assert forall n :: 0 <= n < |t| ==> IsDigit(t[n]);
    hide PrintNat;
    EncodePlain(t);
    OneStep(t);
    AtoiPrinted(i);
  }

  /** {"a": v} with "a" moved to "b" is {"b": v}. */
  lemma MoveOnly(v: Json)
    requires WellFormed(v)
    ensures var patch := Obj([Member("op", Str("move")), Member("from", Str("/a")), Member("path", Str("/b"))]);
      var r := ApplyPatch(Obj([Member("a", v)]), patch);
      r.Done? && r.err == 0 && Denote(r.doc) == MObj(map["b" := Denote(v)])
  {
    hide GetObjectItem, Encode, Lower, DenoteMembers, Denote, ApplyPatch, WellFormed, IsCString;
    var doc := Obj([Member("a", v)]);
    var patch := Obj([Member("op", Str("move")), Member("from", Str("/a")), Member("path", Str("/b"))]);
    MovePatch(patch);
    Letters();
    OnlyMember("a", v);
    MoveMember(doc, patch, "a", "b");
    assert (map["a" := Denote(v)] - {"a"})["b" := Denote(v)] == map["b" := Denote(v)];
  }

  lemma OnlyMember(k: string, v: Json)
    requires WellFormed(v) && IsCString(k) && Lower(k) == k
    ensures WellFormed(Obj([Member(k, v)])) && DenoteMembers([Member(k, v)]) == map[k := Denote(v)]
  {
    DenoteAt([Member(k, v)], 0);
  }

  lemma Letters()
    ensures Encode("a") == "a" && Encode("b") == "b" && Lower("a") == "a" && Lower("b") == "b"
    ensures "/" + "a" == "/a" && "/" + "b" == "/b" && IsCString("a") && IsCString("b")
  {
    EncodePlain("a");
    EncodePlain("b");
  }

  lemma MovePatch(patch: Json)
    requires patch == Obj([Member("op", Str("move")), Member("from", Str("/a")), Member("path", Str("/b"))])
    ensures GetObjectItem(patch, "op") == Some(Str("move")) && GetObjectItem(patch, "from") == Some(Str("/a"))
    ensures GetObjectItem(patch, "path") == Some(Str("/b"))
  {
    assert Lower("op")[0] == 'o' && Lower("from")[0] == 'f' && Lower("path")[0] == 'p';
    var ms := patch.members;
    assert DistinctKeys(ms);
    IndexUnique(ms, 0, "op");
    IndexUnique(ms, 1, "from");
    IndexUnique(ms, 2, "path");
  }
}
