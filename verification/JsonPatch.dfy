/** JSON Patch (RFC 6902): applying a patch document, and generating one from two
  * trees.  The document operations are stated on sequences of children. */
module JsonPatch {
  import opened Decimal
  import opened JsonPointer
  import opened JsonText
  import opened JsonTree
  import opened Wrappers
  import opened Sequences

  // ----- operations on the children of one node -----

  /** The first member, when it has a `prev`, is stored under key `k`. */
  predicate StaleAt(j: Json, k: string) {
    j.Obj? && j.stale && j.members != [] && SameKey(j.members[0].key, k)
  }

  /** `cJSON_DetachItemFromArray` / `cJSON_DetachItemFromObject`.  None is a fault:
    * detaching a first member that has a `prev` leaves no chain behind
    * (`JsonNodes.DetachItemViaPointer`). */
  function DetachChild(parent: Json, child: string): Option<(Option<Json>, Json)> {
    match parent
    case Arr(items) =>
      var i := Atoi(child);
      Some(if 0 <= i < |items| then (Some(items[i]), Arr(Without(items, i))) else (None, parent))
    case Obj(ms, stale) =>
      var i := IndexOf(ms, child);
      if StaleAt(parent, child) then None
      else Some(if i < |ms| then (Some(ms[i].item), Obj(Without(ms, i), stale)) else (None, parent))
    case _ => Some((None, parent))
  }

  /** `cJSON_AddItemToObject`: the first member of an empty object has no `prev`. */
  function Appended(j: Json, k: string, v: Json): Json
    requires j.Obj?
  {
    Obj(j.members + [Member(k, v)], j.stale && j.members != [])
  }

  /** The last step of an insertion: "-" and large indices append, a negative
    * index drops the value, and a member replaces the first one with its key. */
  function AddChild(parent: Json, child: string, v: Json): Option<Json> {
    match parent
    case Arr(items) =>
      if child == "-" then Some(Arr(items + [v]))
      else
        var i := Atoi(child);
        if i < 0 then Some(parent)
        else if i >= |items| then Some(Arr(items + [v]))
        else Some(Arr(items[..i] + [v] + items[i..]))
    case Obj(_, _) =>
      (match DetachChild(parent, child)
       case None => None
       case Some((_, rest)) => Some(Appended(rest, child, v)))
    case _ => Some(parent)
  }

  // ----- applying -----

  /** Fault stands for a C run without defined behaviour, because a NULL string or
    * node is read, or decoding runs past the end of its buffer; or for one that
    * leaves a ring of members, on which later walks do not end. */
  datatype Outcome = Fault | Done(err: int, doc: Json)

  /** Everything before the last '/', and everything after it (`strrchr`). */
  function SplitLast(path: string): Option<(string, string)> {
    if path == "" then None
    else
      var rest := SplitLast(path[1..]);
      if rest.Some? then Some(([path[0]] + rest.value.0, rest.value.1))
      else if path[0] == '/' then Some(("", path[1..]))
      else None
  }

  /** `cJSONUtils_PatchDetach`; None is a fault. */
  function PatchDetach(doc: Json, path: string): Option<(Option<Json>, Json)> {
    match SplitLast(path)
    case None => None
    case Some((parentPath, childPath)) =>
      match Decode(childPath)
      case None => None
      case Some(child) =>
        match GetPointer(doc, parentPath)
        case None => Some((None, doc))
        case Some(loc) =>
          GetPointerValid(doc, parentPath);
          (match DetachChild(At(doc, loc), child)
           case None => None
           case Some((item, parent)) => Some((item, Put(doc, loc, parent))))
  }

  /** The end of `cJSONUtils_ApplyPatch`: add `v` at `path`. */
  function PatchAdd(doc: Json, path: string, v: Json): Outcome {
    match SplitLast(path)
    case None => Fault
    case Some((parentPath, childPath)) =>
      match Decode(childPath)
      case None => Fault
      case Some(child) =>
        match GetPointer(doc, parentPath)
        case None => Done(9, doc)
        case Some(loc) =>
          GetPointerValid(doc, parentPath);
          (match AddChild(At(doc, loc), child, v)
           case None => Fault
           case Some(parent) => Done(0, Put(doc, loc, parent)))
  }

  /** `cJSON_GetObjectItem`. */
  function GetObjectItem(j: Json, key: string): Option<Json> {
    if j.Obj? && IndexOf(j.members, key) < |j.members| then Some(j.members[IndexOf(j.members, key)].item) else None
  }

  /** The `valuestring` field, NULL for nodes without text. */
  function TextOf(j: Json): Option<string> {
    match j
    case Str(t) => Some(t)
    case Raw(t) => Some(t)
    case _ => None
  }

  function PatchValue(doc: Json, path: string, value: Option<Json>): Outcome {
    if value.None? then Done(7, doc) else PatchAdd(doc, path, Duplicate(value.value))
  }

  function PatchMove(doc: Json, path: string, from: Option<Json>): Outcome {
    if from.None? then Done(4, doc)
    else match TextOf(from.value)
      case None => Fault
      case Some(source) =>
        match PatchDetach(doc, source)
        case None => Fault
        case Some((item, doc')) => if item.None? then Done(5, doc') else PatchAdd(doc', path, item.value)
  }

  function PatchCopy(doc: Json, path: string, from: Option<Json>): Outcome {
    if from.None? then Done(4, doc)
    else match TextOf(from.value)
      case None => Fault
      case Some(source) =>
        match GetPointer(doc, source)
        case None => Done(5, doc)
        case Some(loc) => GetPointerValid(doc, source); PatchAdd(doc, path, Duplicate(At(doc, loc)))
  }

  function PatchTest(doc: Json, path: string, value: Option<Json>): Outcome {
    match GetPointer(doc, path)
    case None => Fault
    case Some(loc) =>
      GetPointerValid(doc, path);
      if value.None? then Fault else Done(Compare(At(doc, loc), value.value), doc)
  }

  /** `cJSONUtils_ApplyPatch` once "op" and "path" have been read. */
  function Perform(doc: Json, op: string, path: string, patch: Json): Outcome {
    if op == "add" then PatchValue(doc, path, GetObjectItem(patch, "value"))
    else if op == "remove" || op == "replace" then
      match PatchDetach(doc, path)
      case None => Fault
      case Some((_, doc')) =>
        if op == "remove" then Done(0, doc') else PatchValue(doc', path, GetObjectItem(patch, "value"))
    else if op == "move" then PatchMove(doc, path, GetObjectItem(patch, "from"))
    else if op == "copy" then PatchCopy(doc, path, GetObjectItem(patch, "from"))
    else if op == "test" then PatchTest(doc, path, GetObjectItem(patch, "value"))
    else Done(3, doc)
  }

  function ApplyPatch(doc: Json, patch: Json): Outcome {
    var op := GetObjectItem(patch, "op");
    var path := GetObjectItem(patch, "path");
    if op.None? || path.None? then Done(2, doc)
    else if TextOf(op.value).None? || TextOf(path.value).None? then Fault
    else Perform(doc, TextOf(op.value).value, TextOf(path.value).value, patch)
  }

  function ApplyAll(doc: Json, patches: seq<Json>): Outcome
    decreases |patches|
  {
    if patches == [] then Done(0, doc)
    else
      var r := ApplyPatch(doc, patches[0]);
      if r.Fault? || r.err != 0 then r else ApplyAll(r.doc, patches[1..])
  }

  function ApplyPatches(doc: Json, patches: Json): Outcome {
    if !patches.Arr? then Done(1, doc) else ApplyAll(doc, patches.items)
  }

  /** `cJSONUtils_ApplyPatches`: the loop that stops at the first error.  The
    * document it leaves behind has the patches before that one applied. */
  method ApplyPatchesLoop(doc: Json, patches: Json) returns (r: Outcome)
    ensures r == ApplyPatches(doc, patches)
  {
    if !patches.Arr? {
      return Done(1, doc);
    }
    var todo := patches.items;
    r := Done(0, doc);
    while todo != []
      invariant r.Done? && r.err == 0
      invariant ApplyAll(r.doc, todo) == ApplyAll(doc, patches.items)
      decreases |todo|
    {
      r := ApplyPatch(r.doc, todo[0]);
      if r.Fault? || r.err != 0 {
        return;
      }
      todo := todo[1..];
    }
  }

  // ----- generating -----

  /** One call of `cJSONUtils_GeneratePatch`. */
  datatype Edit = Edit(op: string, path: string, value: Option<Json>)

  function PatchObject(e: Edit): Json {
    Obj([Member("op", Str(e.op)), Member("path", Str(e.path))]
        + if e.value.Some? then [Member("value", e.value.value)] else [])
  }

  function Below(path: string, suffix: string): string { path + "/" + Encode(suffix) }

  /** `cJSONUtils_CompareToPatch`: the edits it appends to the patch list. */
  function CompareToPatch(path: string, from: Json, to: Json): seq<Edit>
    decreases from, 1, 0
  {
    if !SameKind(from, to) then [Edit("replace", path, Some(to))]
    else match from
      case Number(i, d) =>
        if i != to.valueint || d != to.valuedouble then [Edit("replace", path, Some(to))] else []
      case Str(t) =>
        if StrCmp(t, to.text) != 0 then [Edit("replace", path, Some(to))] else []
      case Arr(items) => ItemEdits(path, items, to.items, 0)
      case Obj(ms, _) =>
        SortedElements(ms);
        MemberEdits(path, from, SortMembers(ms), SortMembers(to.members))
      case _ => []
  }

  /** Arrays: the common positions, then what is left over on either side. */
  function ItemEdits(path: string, from: seq<Json>, to: seq<Json>, c: nat): seq<Edit>
    decreases from, 0, |to|
  {
    if from != [] && to != [] then
      CompareToPatch(path + "/" + PrintNat(c), from[0], to[0]) + ItemEdits(path, from[1..], to[1..], c + 1)
    else if from != [] then
      [Edit("remove", Below(path, PrintNat(c)), None)] + ItemEdits(path, from[1..], to, c + 1)
    else if to != [] then
      [Edit("add", Below(path, "-"), Some(to[0]))] + ItemEdits(path, from, to[1..], c + 1)
    else []
  }

  /** Objects: a merge walk down the sorted members of `owner` and of the target. */
  function MemberEdits(path: string, ghost owner: Json, a: seq<Member>, b: seq<Member>): seq<Edit>
    requires owner.Obj? && forall m :: m in a ==> m in owner.members
    decreases owner, 0, |a| + |b|
  {
    if a == [] && b == [] then []
    else
      var diff := if a == [] then 1 else if b == [] then -1 else StrCaseCmp(a[0].key, b[0].key);
      if diff == 0 then
        assert a[0] in owner.members;
        CompareToPatch(Below(path, a[0].key), a[0].item, b[0].item) + MemberEdits(path, owner, a[1..], b[1..])
      else if diff < 0 then
        [Edit("remove", Below(path, a[0].key), None)] + MemberEdits(path, owner, a[1..], b)
      else
        [Edit("add", Below(path, b[0].key), Some(b[0].item))] + MemberEdits(path, owner, a, b[1..])
  }

  function PatchList(edits: seq<Edit>): seq<Json> {
    seq(|edits|, i requires 0 <= i < |edits| => PatchObject(edits[i]))
  }

  /** `cJSONUtils_GeneratePatches`. */
  function GeneratePatches(from: Json, to: Json): Json {
    Arr(PatchList(CompareToPatch("", from, to)))
  }

  // ----- edits and the patch objects made of them -----

  function ApplyEdit(doc: Json, e: Edit): Outcome {
    Perform(doc, e.op, e.path, PatchObject(e))
  }

  function ApplyEdits(doc: Json, es: seq<Edit>): Outcome
    decreases |es|
  {
    if es == [] then Done(0, doc)
    else
      var r := ApplyEdit(doc, es[0]);
      if r.Fault? || r.err != 0 then r else ApplyEdits(r.doc, es[1..])
  }

  lemma KeysDiffer()
    ensures !SameKey("op", "path") && !SameKey("op", "value") && !SameKey("path", "value")
  {
    assert Lower("op")[0] == 'o' && Lower("path")[0] == 'p' && Lower("value")[0] == 'v';
  }

  lemma PatchObjectFields(e: Edit)
    ensures GetObjectItem(PatchObject(e), "op") == Some(Str(e.op))
    ensures GetObjectItem(PatchObject(e), "path") == Some(Str(e.path))
    ensures GetObjectItem(PatchObject(e), "value") == e.value
  {
    KeysDiffer();
    var ms := PatchObject(e).members;
    assert DistinctKeys(ms);
    IndexUnique(ms, 0, "op");
    IndexUnique(ms, 1, "path");
    if e.value.Some? { IndexUnique(ms, 2, "value"); }
  }

  /** What the three operations the generator uses amount to. */
  lemma EditApplies(doc: Json, e: Edit)
    ensures e.op == "add" ==> ApplyEdit(doc, e) == PatchValue(doc, e.path, e.value)
    ensures e.op == "remove" || e.op == "replace" ==>
      ApplyEdit(doc, e) ==
        match PatchDetach(doc, e.path)
        case None => Fault
        case Some((_, doc')) => if e.op == "remove" then Done(0, doc') else PatchValue(doc', e.path, e.value)
  {
    hide PatchDetach, PatchValue;
    PatchObjectFields(e);
  }

  lemma PatchObjectApplies(doc: Json, e: Edit)
    ensures ApplyPatch(doc, PatchObject(e)) == ApplyEdit(doc, e)
  {
    hide Perform;
    PatchObjectFields(e);
  }

  lemma {:induction false} PatchListApplies(doc: Json, es: seq<Edit>)
    ensures ApplyAll(doc, PatchList(es)) == ApplyEdits(doc, es)
    decreases |es|
  {
    hide Perform, ApplyPatch, ApplyEdit;
    if es != [] {
      PatchObjectApplies(doc, es[0]);
      var r := ApplyEdit(doc, es[0]);
      if r.Done? {
        assert PatchList(es)[1..] == PatchList(es[1..]);
        PatchListApplies(r.doc, es[1..]);
      }
    }
  }

  lemma {:induction false} ApplyEditsConcat(doc: Json, xs: seq<Edit>, ys: seq<Edit>)
    requires var r := ApplyEdits(doc, xs); r.Done? && r.err == 0
    ensures ApplyEdits(doc, xs + ys) == ApplyEdits(ApplyEdits(doc, xs).doc, ys)
    decreases |xs|
  {
    hide ApplyEdit;
    if xs == [] {
      assert xs + ys == ys;
    } else {
      ApplyEditsConcat(ApplyEdit(doc, xs[0]).doc, xs[1..], ys);
      assert (xs + ys)[1..] == xs[1..] + ys;
    }
  }

  lemma {:induction false} ApplyEditsFault(doc: Json, xs: seq<Edit>, ys: seq<Edit>)
    requires ApplyEdits(doc, xs) == Fault
    ensures ApplyEdits(doc, xs + ys) == Fault
    decreases |xs|
  {
    hide ApplyEdit;
    var r := ApplyEdit(doc, xs[0]);
    assert (xs + ys)[1..] == xs[1..] + ys;
    if r.Done? { ApplyEditsFault(r.doc, xs[1..], ys); }
  }

  // ----- edits are relative to their path -----

  function Relocate(pre: string, e: Edit): Edit { e.(path := pre + e.path) }

  function RelocateAll(pre: string, es: seq<Edit>): seq<Edit> {
    seq(|es|, i requires 0 <= i < |es| => Relocate(pre, es[i]))
  }

  lemma RelocateConcat(pre: string, xs: seq<Edit>, ys: seq<Edit>)
    ensures RelocateAll(pre, xs + ys) == RelocateAll(pre, xs) + RelocateAll(pre, ys)
  {
  }

  lemma {:induction false} EditsAreRelative(pre: string, path: string, from: Json, to: Json)
    ensures CompareToPatch(pre + path, from, to) == RelocateAll(pre, CompareToPatch(path, from, to))
    decreases from, 1, 0
  {
    if SameKind(from, to) && from.Arr? {
      ItemEditsAreRelative(pre, path, from.items, to.items, 0);
    } else if SameKind(from, to) && from.Obj? {
      SortedElements(from.members);
      MemberEditsAreRelative(pre, path, from, SortMembers(from.members), SortMembers(to.members));
    }
  }

  lemma {:induction false} ItemEditsAreRelative(pre: string, path: string, from: seq<Json>, to: seq<Json>, c: nat)
    ensures ItemEdits(pre + path, from, to, c) == RelocateAll(pre, ItemEdits(path, from, to, c))
    decreases from, 0, |to|
  {
    hide CompareToPatch, Below, PrintNat;
    var t := PrintNat(c);
    if from != [] && to != [] {
      EditsAreRelative(pre, path + "/" + t, from[0], to[0]);
      ItemEditsAreRelative(pre, path, from[1..], to[1..], c + 1);
      assert (pre + path) + "/" + t == pre + (path + "/" + t);
      RelocateConcat(pre, CompareToPatch(path + "/" + t, from[0], to[0]), ItemEdits(path, from[1..], to[1..], c + 1));
    } else if from != [] {
      ItemEditsAreRelative(pre, path, from[1..], to, c + 1);
      BelowIsRelative(pre, path, t);
      RelocateConcat(pre, [Edit("remove", Below(path, t), None)], ItemEdits(path, from[1..], to, c + 1));
    } else if to != [] {
      ItemEditsAreRelative(pre, path, from, to[1..], c + 1);
      BelowIsRelative(pre, path, "-");
      RelocateConcat(pre, [Edit("add", Below(path, "-"), Some(to[0]))], ItemEdits(path, from, to[1..], c + 1));
    }
  }

  lemma {:induction false} MemberEditsAreRelative(pre: string, path: string, owner: Json,
                                                  a: seq<Member>, b: seq<Member>)
    requires owner.Obj? && forall m :: m in a ==> m in owner.members
    ensures MemberEdits(pre + path, owner, a, b) == RelocateAll(pre, MemberEdits(path, owner, a, b))
    decreases owner, 0, |a| + |b|
  {
    hide CompareToPatch, Below, StrCaseCmp;
    if a != [] || b != [] {
      var diff := if a == [] then 1 else if b == [] then -1 else StrCaseCmp(a[0].key, b[0].key);
      if diff == 0 {
        assert a[0] in owner.members;
        BelowIsRelative(pre, path, a[0].key);
        EditsAreRelative(pre, Below(path, a[0].key), a[0].item, b[0].item);
        MemberEditsAreRelative(pre, path, owner, a[1..], b[1..]);
        RelocateConcat(pre, CompareToPatch(Below(path, a[0].key), a[0].item, b[0].item),
          MemberEdits(path, owner, a[1..], b[1..]));
      } else if diff < 0 {
        BelowIsRelative(pre, path, a[0].key);
        MemberEditsAreRelative(pre, path, owner, a[1..], b);
        RelocateConcat(pre, [Edit("remove", Below(path, a[0].key), None)], MemberEdits(path, owner, a[1..], b));
      } else {
        BelowIsRelative(pre, path, b[0].key);
        MemberEditsAreRelative(pre, path, owner, a, b[1..]);
        RelocateConcat(pre, [Edit("add", Below(path, b[0].key), Some(b[0].item))], MemberEdits(path, owner, a, b[1..]));
      }
    }
  }

  lemma BelowIsRelative(pre: string, path: string, s: string)
    ensures Below(pre + path, s) == pre + Below(path, s)
  {
  }
}
