/** JSON Merge Patch (RFC 7396): applying one, generating one, and the round trip. */
module JsonMerge {
  import opened JsonText
  import opened JsonTree
  import opened JsonPatch
  import opened JsonRoundTrip
  import opened JsonPatchTheorem
  import JsonSort
  import opened Wrappers
  import opened Sequences

  // ----- the two operations -----

  /** `cJSONUtils_MergePatch`; a missing target is the C code's NULL.  None is a
    * fault: a first member that has a `prev` was detached. */
  function MergePatch(target: Option<Json>, patch: Json): Option<Json>
    decreases patch, 1
  {
    if !patch.Obj? then Some(Duplicate(patch)) else MergeMembers(ObjectOf(target), patch.members)
  }

  /** The object that is merged into: a new one, unless there is one. */
  function ObjectOf(target: Option<Json>): (d: Json)
    ensures d.Obj?
  {
    if target.Some? && target.value.Obj? then target.value else Obj([])
  }

  function MergeMembers(d: Json, patch: seq<Member>): (r: Option<Json>)
    requires d.Obj?
    ensures r.Some? ==> r.value.Obj?
    decreases patch, 0
  {
    if patch == [] then Some(d)
    else match DetachChild(d, patch[0].key)
      case None => None
      case Some((was, rest)) =>
        if patch[0].item.Null? then MergeMembers(rest, patch[1..])
        else match MergePatch(was, patch[0].item)
          case None => None
          case Some(v) => MergeMembers(Appended(rest, patch[0].key, v), patch[1..])
  }

  /** `cJSONUtils_GenerateMergePatch`; None is the NULL that says "no change". */
  function GenerateMergePatch(from: Json, to: Json): Option<Json>
    decreases from, 1, 0
  {
    if !to.Obj? || !from.Obj? then Some(to)
    else
      SortedElements(from.members);
      var ps := MergeEntries(from, SortMembers(from.members), SortMembers(to.members));
      if ps == [] then None else Some(Obj(ps))
  }

  /** Which list the walk reads next: below zero `from`, above zero `to`, zero
    * both.  It compares with `strcmp`, although both lists were sorted ignoring
    * case. */
  function WalkOrder(a: seq<Member>, b: seq<Member>): int
    requires a != [] || b != []
  {
    if a == [] then 1 else if b == [] then -1 else StrCmp(a[0].key, b[0].key)
  }

  function MergeEntries(ghost owner: Json, a: seq<Member>, b: seq<Member>): seq<Member>
    requires owner.Obj? && forall m :: m in a ==> m in owner.members
    decreases owner, 0, |a| + |b|
  {
    if a == [] && b == [] then []
    else
      var diff := WalkOrder(a, b);
      if diff < 0 then [Member(a[0].key, Null)] + MergeEntries(owner, a[1..], b)
      else if diff > 0 then [b[0]] + MergeEntries(owner, a, b[1..])
      else
        assert a[0] in owner.members;
        var entry :=
          if Compare(a[0].item, b[0].item) == 0 then []
          else
            var p := GenerateMergePatch(a[0].item, b[0].item);
            if p.None? then [] else [Member(b[0].key, p.value)];
        entry + MergeEntries(owner, a[1..], b[1..])
  }

  // ----- what merging means -----

  ghost function DenoteOption(j: Option<Json>): Option<Meaning> {
    if j.None? then None else Some(Denote(j.value))
  }

  ghost function Base(t: Option<Meaning>): map<string, Meaning> {
    if t.Some? && t.value.MObj? then t.value.members else map[]
  }

  ghost function Entry(m: map<string, Meaning>, k: string): Option<Meaning> {
    if k in m then Some(m[k]) else None
  }

  ghost function Merged(t: Option<Meaning>, patch: Json): Meaning
    decreases patch, 1
  {
    if !patch.Obj? then Denote(patch) else MObj(MergedMembers(Base(t), patch.members))
  }

  ghost function MergedMembers(m: map<string, Meaning>, patch: seq<Member>): map<string, Meaning>
    decreases patch, 0
  {
    if patch == [] then m
    else
      var k := Lower(patch[0].key);
      MergedMembers(
        if patch[0].item.Null? then m - {k} else m[k := Merged(Entry(m, k), patch[0].item)],
        patch[1..])
  }

  /** What RFC 7396, section 2, asks for, key by key: a patch that is no object replaces
    * the target; otherwise null removes a member, any other value is merged into what
    * is there, and what the patch does not mention stays; a target that is no object
    * counts as an empty one. */
  lemma MergedByKey(t: Option<Meaning>, patch: Json)
    requires patch.Obj? ==> DistinctKeys(patch.members)
    ensures !patch.Obj? ==> Merged(t, patch) == Denote(patch)
    ensures patch.Obj? ==>
      var was := if t.Some? && t.value.MObj? then t.value.members else map[];
      && Merged(t, patch).MObj?
      && (forall k :: k !in LowerKeys(patch.members) ==>
            (k in Merged(t, patch).members <==> k in was) && (k in was ==> Merged(t, patch).members[k] == was[k]))
      && (forall i :: 0 <= i < |patch.members| ==>
            var k, v := Lower(patch.members[i].key), patch.members[i].item;
            && (v.Null? ==> k !in Merged(t, patch).members)
            && (!v.Null? ==>
                  && k in Merged(t, patch).members
                  && Merged(t, patch).members[k] == Merged(if k in was then Some(was[k]) else None, v)))
  {
    hide Lower, Denote;
    if patch.Obj? {
      var m := Base(t);
      forall k | k !in LowerKeys(patch.members)
        ensures Entry(MergedMembers(m, patch.members), k) == Entry(m, k)
      {
        Unmentioned(m, patch.members, k);
      }
      forall i | 0 <= i < |patch.members|
        ensures var k, v := Lower(patch.members[i].key), patch.members[i].item;
          Entry(MergedMembers(m, patch.members), k) == if v.Null? then None else Some(Merged(Entry(m, k), v))
      {
        Mentioned(m, patch.members, i);
      }
    }
  }

  lemma {:induction false} Unmentioned(m: map<string, Meaning>, patch: seq<Member>, k: string)
    requires k !in LowerKeys(patch)
    ensures Entry(MergedMembers(m, patch), k) == Entry(m, k)
    decreases |patch|
  {
    hide Lower;
    if patch != [] {
      var k0, v := Lower(patch[0].key), patch[0].item;
      KeyInside(patch, 0);
      RestUnmentioned(patch, k);
      Unmentioned(if v.Null? then m - {k0} else m[k0 := Merged(Entry(m, k0), v)], patch[1..], k);
    }
  }

  lemma RestUnmentioned(patch: seq<Member>, k: string)
    requires patch != [] && k !in LowerKeys(patch)
    ensures k !in LowerKeys(patch[1..])
  {
    hide Lower;
    forall i | 0 <= i < |patch[1..]| ensures Lower(patch[1..][i].key) != k { KeyInside(patch, i + 1); }
  }

  lemma {:induction false} Mentioned(m: map<string, Meaning>, patch: seq<Member>, i: nat)
    requires DistinctKeys(patch) && i < |patch|
    ensures var k, v := Lower(patch[i].key), patch[i].item;
      Entry(MergedMembers(m, patch), k) == if v.Null? then None else Some(Merged(Entry(m, k), v))
    decreases |patch|
  {
    hide Lower;
    var k0, v := Lower(patch[0].key), patch[0].item;
    var m' := if v.Null? then m - {k0} else m[k0 := Merged(Entry(m, k0), v)];
    if i == 0 {
      OnceMentioned(patch);
      Unmentioned(m', patch[1..], k0);
    } else {
      assert !SameKey(patch[0].key, patch[i].key);
      Mentioned(m', patch[1..], i - 1);
    }
  }

  lemma OnceMentioned(patch: seq<Member>)
    requires patch != [] && DistinctKeys(patch)
    ensures Lower(patch[0].key) !in LowerKeys(patch[1..])
  {
    hide Lower;
    forall i | 0 <= i < |patch[1..]| ensures Lower(patch[1..][i].key) != Lower(patch[0].key) {
      assert !SameKey(patch[0].key, patch[i + 1].key);
    }
  }

  /** Text in a patch is free of terminators; its keys may repeat. */
  predicate PatchText(j: Json) {
    match j
    case Obj(ms, _) => forall i :: 0 <= i < |ms| ==> IsCString(ms[i].key) && PatchText(ms[i].item)
    case _ => WellFormed(j)
  }

  /** What detaching gives, when it is not a fault. */
  lemma DetachMeans(d: Json, k: string)
    requires d.Obj? && WellFormed(d) && DetachChild(d, k).Some?
    ensures var (was, rest) := DetachChild(d, k).value;
      && was == ItemAt(d.members, k) && DenoteOption(was) == Entry(DenoteMembers(d.members), Lower(k))
      && (was.Some? ==> WellFormed(was.value))
      && rest.Obj? && WellFormed(rest) && IndexOf(rest.members, k) == |rest.members|
      && DenoteMembers(rest.members) == DenoteMembers(d.members) - {Lower(k)} && Elsewhere(rest, d, k)
  {
    hide Lower, Denote, DenoteMembers, IsCString, Elsewhere, StaleAt;
    assert WellFormedMembers(d.members);
    KeyPresent(d.members, k);
    DetachMember(d, k);
    if IndexOf(d.members, k) < |d.members| { DenoteAt(d.members, IndexOf(d.members, k)); }
  }

  /** Merging commutes with taking the meaning. */
  lemma {:induction false} MergeDenotes(target: Option<Json>, patch: Json)
    requires target.Some? ==> WellFormed(target.value)
    requires PatchText(patch)
    ensures var r := MergePatch(target, patch);
      r.Some? ==> WellFormed(r.value) && Denote(r.value) == Merged(DenoteOption(target), patch)
    decreases patch, 1
  {
    if patch.Obj? {
      assert DenoteMembers([]) == map[];
      MergeMembersDenote(ObjectOf(target), patch.members);
    } else {
      DuplicateMeans(patch);
    }
  }

  lemma {:induction false} MergeMembersDenote(d: Json, patch: seq<Member>)
    requires d.Obj? && WellFormed(d) && PatchText(Obj(patch))
    ensures var r := MergeMembers(d, patch);
      r.Some? ==>
        WellFormed(r.value) && DenoteMembers(r.value.members) == MergedMembers(DenoteMembers(d.members), patch)
    decreases patch, 0
  {
    hide Lower, Denote, DenoteMembers, WellFormedMembers, DetachChild, MergePatch, Merged, Elsewhere, ItemAt, IsCString;
    if patch != [] && DetachChild(d, patch[0].key).Some? {
      var k, v := patch[0].key, patch[0].item;
      var (was, rest) := DetachChild(d, k).value;
      DetachMeans(d, k);
      assert PatchText(Obj(patch[1..]));
      if v.Null? {
        MergeMembersDenote(rest, patch[1..]);
      } else {
        MergeDenotes(was, v);
        if MergePatch(was, v).Some? {
          var v' := MergePatch(was, v).value;
          AppendMember(rest.members, k, v');
          var m := DenoteMembers(d.members);
          assert (m - {Lower(k)})[Lower(k) := Denote(v')] == m[Lower(k) := Denote(v')];
          MergeMembersDenote(Appended(rest, k, v'), patch[1..]);
        }
      }
    }
  }

  // ----- when merging is a fault -----

  predicate Seen(ps: seq<Member>, k: string) {
    exists i :: 0 <= i < |ps| && SameKey(ps[i].key, k)
  }

  /** Merging `patch` into `x` detaches a first member that has a `prev`.  Only the
    * first entry for a key can meet what `x` had there. */
  predicate PatchTouches(x: Option<Json>, patch: Json)
    decreases patch, 1
  {
    patch.Obj? && x.Some? && x.value.Obj? && EntriesTouch(x.value, patch.members, 0)
  }

  predicate EntriesTouch(x: Json, ps: seq<Member>, n: nat)
    requires x.Obj?
    decreases ps, 1
  {
    exists i :: n <= i < |ps| && EntryTouches(x, ps, i)
  }

  predicate EntryTouches(x: Json, ps: seq<Member>, i: nat)
    requires x.Obj? && i < |ps|
    decreases ps, 0
  {
    var m := ps[i];
    || StaleAt(x, m.key)
    || (!m.item.Null? && !Seen(ps[..i], m.key) && PatchTouches(ItemAt(x.members, m.key), m.item))
  }

  /** Of the entries for one key at most one is not null; the generator sees to it. */
  predicate Regular(patch: Json) {
    patch.Obj? ==>
      && (forall i, j :: 0 <= i < j < |patch.members| ==>
            patch.members[i].item.Null? || patch.members[j].item.Null?
            || !SameKey(patch.members[i].key, patch.members[j].key))
      && forall i :: 0 <= i < |patch.members| ==> Regular(patch.members[i].item)
  }

  /** Where entries `ps` have been merged into `x`, giving `d`. */
  ghost predicate Merging(d: Json, x: Json, ps: seq<Member>, k: string) {
    && d.Obj? && x.Obj?
    && (!Seen(ps, k) ==> Same(d, x, k))
    && (Seen(ps, k) ==> !StaleAt(d, k) && !StaleAt(x, k))
    && (Seen(ps, k) && (forall i :: 0 <= i < |ps| && SameKey(ps[i].key, k) ==> ps[i].item.Null?) ==>
          ItemAt(d.members, k) == None)
  }

  ghost predicate AllMerging(d: Json, x: Json, ps: seq<Member>) {
    forall k :: Merging(d, x, ps, k)
  }

  lemma SeenMore(ps: seq<Member>, m: Member, k: string)
    ensures Seen(ps + [m], k) <==> Seen(ps, k) || SameKey(m.key, k)
  {
    hide SameKey;
    var qs := ps + [m];
    if SameKey(m.key, k) { assert qs[|ps|] == m; }
    if i :| 0 <= i < |ps| && SameKey(ps[i].key, k) { assert qs[i] == ps[i]; }
  }

  /** One more entry merged. */
  lemma MergingOn(d': Json, d: Json, x: Json, ps: seq<Member>, m: Member)
    requires AllMerging(d, x, ps) && !StaleAt(d, m.key)
    requires d'.Obj? && Elsewhere(d', d, m.key) && !StaleAt(d', m.key)
    requires m.item.Null? ==> ItemAt(d'.members, m.key) == None
    ensures AllMerging(d', x, ps + [m])
  {
    hide SameKey, ItemAt, StaleAt, Seen;
    var qs := ps + [m];
    forall k ensures Merging(d', x, qs, k) {
      SeenMore(ps, m, k);
      assert Merging(d, x, ps, k) && Merging(d, x, ps, m.key);
      KeysAlike(m.key, k);
      if SameKey(k, m.key) {
        assert qs[|ps|] == m;
        SameSpot(d', m.key, k);
        SameSpot(x, m.key, k);
      } else {
        assert Same(d', d, k);
        assert forall i :: 0 <= i < |ps| ==> qs[i] == ps[i];
      }
    }
  }

  lemma {:induction false} SameSpot(d: Json, k: string, k': string)
    requires d.Obj? && SameKey(k, k')
    ensures StaleAt(d, k) == StaleAt(d, k') && ItemAt(d.members, k) == ItemAt(d.members, k')
  {
    SameIndex(d.members, k, k');
  }

  /** A merge is a fault exactly when it touches such a member. */
  lemma {:induction false} MergeFaults(x: Option<Json>, patch: Json)
    requires (x.Some? ==> WellFormed(x.value)) && PatchText(patch) && Regular(patch)
    ensures MergePatch(x, patch) == None <==> PatchTouches(x, patch)
    decreases patch, 1
  {
    if patch.Obj? {
      hide AllMerging, MergeMembers, EntriesTouch;
      var d, ps := ObjectOf(x), patch.members;
      assert ps[..0] == [] && ps[0..] == ps;
      NothingMerged(d);
      MembersFault(d, d, ps, 0);
      if x.None? || !x.value.Obj? { NewUntouched(ps); }
    }
  }

  lemma NothingMerged(d: Json)
    requires d.Obj?
    ensures AllMerging(d, d, [])
  {
  }

  lemma NewUntouched(ps: seq<Member>)
    ensures !EntriesTouch(Obj([]), ps, 0)
  {
    forall i | 0 <= i < |ps| ensures !EntryTouches(Obj([]), ps, i) {
      assert !StaleAt(Obj([]), ps[i].key) && ItemAt([], ps[i].key) == None;
    }
  }

  lemma {:induction false} MembersFault(d: Json, x: Json, ps: seq<Member>, n: nat)
    requires n <= |ps| && d.Obj? && x.Obj? && WellFormed(d) && WellFormed(x)
    requires PatchText(Obj(ps)) && Regular(Obj(ps)) && AllMerging(d, x, ps[..n])
    ensures MergeMembers(d, ps[n..]) == None <==> EntriesTouch(x, ps, n)
    decreases ps, 0, |ps| - n
  {
    if n < |ps| {
      hide EntryTouches, AllMerging, DetachChild, MergePatch, StaleAt, WellFormedMembers, Regular, PatchText;
      hide Elsewhere, Appended, IndexOf;
      assert ps[n..][0] == ps[n] && ps[n..][1..] == ps[n+1..];
      MergingAt(d, x, ps[..n], ps[n].key);
      EntryFaults(d, x, ps, n);
      if !EntryTouches(x, ps, n) {
        var d' := MergeEntry(d, x, ps, n);
        MembersFault(d', x, ps, n + 1);
      }
    }
  }

  lemma MergingAt(d: Json, x: Json, ps: seq<Member>, k: string)
    requires AllMerging(d, x, ps)
    ensures Merging(d, x, ps, k)
  {
    hide Merging;
  }

  /** The object after one more entry. */
  lemma MergeEntry(d: Json, x: Json, ps: seq<Member>, n: nat) returns (d': Json)
    requires n < |ps| && d.Obj? && x.Obj? && WellFormed(d) && WellFormed(x) && PatchText(Obj(ps))
    requires AllMerging(d, x, ps[..n]) && DetachChild(d, ps[n].key).Some?
    requires ps[n].item.Null? || MergePatch(DetachChild(d, ps[n].key).value.0, ps[n].item).Some?
    ensures d'.Obj? && WellFormed(d') && AllMerging(d', x, ps[..n+1])
    ensures MergeMembers(d, ps[n..]) == MergeMembers(d', ps[n+1..])
  {
    hide AllMerging, DetachChild, MergePatch, StaleAt, WellFormedMembers, Elsewhere, PatchText, Denote, DenoteMembers,
      Lower;
    var m := ps[n];
    assert ps[n..][0] == m && ps[n..][1..] == ps[n+1..] && ps[..n] + [m] == ps[..n+1];
    DetachMember(d, m.key);
    var (was, rest) := DetachChild(d, m.key).value;
    DetachMeans(d, m.key);
    NotThere(rest, m.key);
    d' := rest;
    if !m.item.Null? {
      TextAt(ps, n);
      MergeDenotes(was, m.item);
      var v := MergePatch(was, m.item).value;
      AppendMember(rest.members, m.key, v);
      AppendElsewhere(rest, m.key, v);
      d' := Appended(rest, m.key, v);
      ElsewhereOn(d', rest, d, m.key);
      AppendedLast(rest, m.key, v);
    }
    MergingOn(d', d, x, ps[..n], m);
  }

  lemma TextAt(ps: seq<Member>, n: nat)
    requires n < |ps| && PatchText(Obj(ps))
    ensures IsCString(ps[n].key) && PatchText(ps[n].item)
  {
  }

  lemma AppendedLast(d: Json, k: string, v: Json)
    requires d.Obj? && IndexOf(d.members, k) == |d.members|
    ensures !StaleAt(Appended(d, k, v), k)
  {
  }

  lemma {:induction false} EntryFaults(d: Json, x: Json, ps: seq<Member>, n: nat)
    requires n < |ps| && d.Obj? && x.Obj? && WellFormed(d) && WellFormed(x)
    requires PatchText(Obj(ps)) && Regular(Obj(ps)) && Merging(d, x, ps[..n], ps[n].key)
    ensures EntryTouches(x, ps, n) <==>
      || DetachChild(d, ps[n].key) == None
      || (!ps[n].item.Null? && MergePatch(DetachChild(d, ps[n].key).value.0, ps[n].item) == None)
    decreases ps[n], 0
  {
    hide MergePatch, WellFormedMembers, PatchTouches;
    var m := ps[n];
    DetachMember(d, m.key);
    if DetachChild(d, m.key).Some? {
      DetachMeans(d, m.key);
      MergeFaults(ItemAt(d.members, m.key), m.item);
      if Seen(ps[..n], m.key) && !m.item.Null? {
        forall i | 0 <= i < n && SameKey(ps[..n][i].key, m.key) ensures ps[..n][i].item.Null? {
          assert ps[..n][i] == ps[i];
        }
        NothingThere(m.item);
      }
    }
  }

  lemma NothingThere(patch: Json)
    ensures !PatchTouches(None, patch)
  {
  }

  // ----- how the walk meets a key -----

  /** The two members of a key are read together, or one of them first. */
  datatype Meeting = Together | SourceFirst | TargetFirst

  /** How the walk down two lists meets key `k`: a matter of the keys alone. */
  function Meets(a: seq<Member>, b: seq<Member>, k: string): Meeting
    decreases |a| + |b|
  {
    if a == [] && b == [] then Together
    else
      var diff := WalkOrder(a, b);
      if diff < 0 then (if SameKey(a[0].key, k) then SourceFirst else Meets(a[1..], b, k))
      else if diff > 0 then (if SameKey(b[0].key, k) then TargetFirst else Meets(a, b[1..], k))
      else if SameKey(a[0].key, k) then Together
      else Meets(a[1..], b[1..], k)
  }

  function HowMet(from: Json, to: Json, k: string): Meeting
    requires from.Obj? && to.Obj?
  {
    Meets(SortMembers(from.members), SortMembers(to.members), k)
  }

  lemma SameText(a: string, b: string)
    requires IsCString(a) && IsCString(b) && StrCmp(a, b) == 0
    ensures a == b
  {
    StrCmpZero(a, b);
  }

  // ----- what generation produces -----

  /** What merging leaves at a key of `to`, given the member `from` had there. */
  ghost function Outcome(from: Option<Json>, to: Json): Option<Meaning> {
    if from.None? then (if to.Null? then None else Some(Merged(None, to)))
    else if Denote(from.value) == Denote(to) then Some(Denote(from.value))
    else match GenerateMergePatch(from.value, to)
      case None => Some(Denote(from.value))
      case Some(p) => if p.Null? then None else Some(Merged(Some(Denote(from.value)), p))
  }

  /** What is left at a key of `to`: a member read after its counterpart was
    * removed counts as new, one read before is removed again. */
  ghost function Left(how: Meeting, from: Option<Json>, to: Json): Option<Meaning> {
    if from.None? || how.SourceFirst? then Outcome(None, to)
    else if how.TargetFirst? then None
    else Outcome(from, to)
  }

  ghost function EntryMerged(m: map<string, Meaning>, a: seq<Member>, b: seq<Member>, k: string): Option<Meaning> {
    var x, y := ItemAt(a, k), ItemAt(b, k);
    if y.Some? then Left(Meets(a, b, k), x, y.value) else if x.Some? then None else Entry(m, k)
  }

  /** At key `k` the map still says what the unread part of the source says. */
  ghost predicate EntryHolds(m: map<string, Meaning>, a: seq<Member>, b: seq<Member>, k: string) {
    var x, y := ItemAt(a, k), ItemAt(b, k);
    y.Some? ==> Entry(m, k) == if x.Some? then Some(Denote(x.value)) else None
  }

  /** Merging the generated entries into a map that holds `a`, key by key. */
  lemma {:induction false} EntriesMerge(owner: Json, m: map<string, Meaning>, a: seq<Member>, b: seq<Member>, k: string)
    requires owner.Obj? && forall x :: x in a ==> x in owner.members
    requires Walkable(a) && Walkable(b) && Lower(k) == k && EntryHolds(m, a, b, k)
    ensures Entry(MergedMembers(m, MergeEntries(owner, a, b)), k) == EntryMerged(m, a, b, k)
    decreases |a| + |b|
  {
    hide Lower, StrCmp, Denote, Merged, GenerateMergePatch, Walkable, IndexOf, Left;
    if a != [] || b != [] {
      var diff := WalkOrder(a, b);
      if diff < 0 {
        RemovedEntry(owner, m, a, b, k);
      } else if diff > 0 {
        AddedEntry(owner, m, a, b, k);
      } else {
        ChangedEntry(owner, m, a, b, k);
      }
    }
  }

  lemma {:induction false} RemovedEntry(owner: Json, m: map<string, Meaning>, a: seq<Member>, b: seq<Member>, k: string)
    requires owner.Obj? && forall x :: x in a ==> x in owner.members
    requires Walkable(a) && Walkable(b) && Lower(k) == k && EntryHolds(m, a, b, k)
    requires a != [] && WalkOrder(a, b) < 0
    ensures Entry(MergedMembers(m, MergeEntries(owner, a, b)), k) == EntryMerged(m, a, b, k)
    decreases |a| + |b|, 0
  {
    hide Lower, WalkOrder, Denote, Merged, GenerateMergePatch, Walkable, ItemAt, Outcome;
    WalkableTail(a);
    ItemAtTail(a, k);
    var m' := m - {Lower(a[0].key)};
    EntriesMerge(owner, m', a[1..], b, k);
    var ps := MergeEntries(owner, a, b);
    assert ps[1..] == MergeEntries(owner, a[1..], b);
  }

  lemma {:induction false} AddedEntry(owner: Json, m: map<string, Meaning>, a: seq<Member>, b: seq<Member>, k: string)
    requires owner.Obj? && forall x :: x in a ==> x in owner.members
    requires Walkable(a) && Walkable(b) && Lower(k) == k && EntryHolds(m, a, b, k)
    requires b != [] && WalkOrder(a, b) > 0
    ensures Entry(MergedMembers(m, MergeEntries(owner, a, b)), k) == EntryMerged(m, a, b, k)
    decreases |a| + |b|, 0
  {
    hide Lower, WalkOrder, Denote, Merged, GenerateMergePatch, Walkable, ItemAt;
    WalkableTail(b);
    ItemAtTail(b, k);
    var kb, v := Lower(b[0].key), b[0].item;
    var m' := if v.Null? then m - {kb} else m[kb := Merged(Entry(m, kb), v)];
    EntriesMerge(owner, m', a, b[1..], k);
    var ps := MergeEntries(owner, a, b);
    assert ps[0] == b[0] && ps[1..] == MergeEntries(owner, a, b[1..]);
  }

  lemma {:induction false} ChangedEntry(owner: Json, m: map<string, Meaning>, a: seq<Member>, b: seq<Member>, k: string)
    requires owner.Obj? && forall x :: x in a ==> x in owner.members
    requires Walkable(a) && Walkable(b) && Lower(k) == k && EntryHolds(m, a, b, k)
    requires a != [] && b != [] && WalkOrder(a, b) == 0
    ensures Entry(MergedMembers(m, MergeEntries(owner, a, b)), k) == EntryMerged(m, a, b, k)
    decreases |a| + |b|, 0
  {
    hide Lower, StrCmp, Denote, Merged, GenerateMergePatch, Walkable,
      MergeEntries, MergedMembers, Compare, ItemAt, Outcome;
    WalkableHead(a);
    WalkableHead(b);
    SameText(a[0].key, b[0].key);
    WalkableTail(a);
    WalkableTail(b);
    ItemAtTail(a, k);
    ItemAtTail(b, k);
    var x, y, kb := a[0].item, b[0].item, Lower(b[0].key);
    var m' := ChangedMap(m, kb, x, y);
    ChangedOutcome(m, kb, a, b);
    EntriesMerge(owner, m', a[1..], b[1..], k);
    EntriesBoth(owner, a, b);
    var p := GenerateMergePatch(x, y);
    if p.Some? { MergedCons(m, Member(b[0].key, p.value), MergeEntries(owner, a[1..], b[1..])); }
  }

  /** The map after the entry generated for one common key, if any, is merged. */
  ghost function ChangedMap(m: map<string, Meaning>, k: string, x: Json, y: Json): map<string, Meaning> {
    var p := GenerateMergePatch(x, y);
    if Compare(x, y) == 0 || p.None? then m
    else if p.value.Null? then m - {k}
    else m[k := Merged(Entry(m, k), p.value)]
  }

  lemma ChangedOutcome(m: map<string, Meaning>, k: string, a: seq<Member>, b: seq<Member>)
    requires Walkable(a) && Walkable(b) && a != [] && b != []
    ensures var m' := ChangedMap(m, k, a[0].item, b[0].item);
      && (forall x :: x != k ==> Entry(m', x) == Entry(m, x))
      && (Entry(m, k) == Some(Denote(a[0].item)) ==> Entry(m', k) == Outcome(Some(a[0].item), b[0].item))
  {
    hide Denote, Merged, GenerateMergePatch, Walkable, Compare;
    WalkableHead(a);
    WalkableHead(b);
    CompareDecidesMeaning(a[0].item, b[0].item);
  }

  lemma EntriesBoth(owner: Json, a: seq<Member>, b: seq<Member>)
    requires owner.Obj? && forall x :: x in a ==> x in owner.members
    requires a != [] && b != [] && StrCmp(a[0].key, b[0].key) == 0
    ensures var p, rest := GenerateMergePatch(a[0].item, b[0].item), MergeEntries(owner, a[1..], b[1..]);
      MergeEntries(owner, a, b) ==
        if Compare(a[0].item, b[0].item) == 0 || p.None? then rest else [Member(b[0].key, p.value)] + rest
  {
    hide StrCmp, GenerateMergePatch, Compare;
    assert [] + MergeEntries(owner, a[1..], b[1..]) == MergeEntries(owner, a[1..], b[1..]);
  }

  lemma MergedCons(m: map<string, Meaning>, head: Member, rest: seq<Member>)
    ensures var k := Lower(head.key);
      MergedMembers(m, [head] + rest) ==
        MergedMembers(if head.item.Null? then m - {k} else m[k := Merged(Entry(m, k), head.item)], rest)
  {
    hide Lower, Merged;
    assert ([head] + rest)[1..] == rest;
  }

  lemma WalkableHead(s: seq<Member>)
    requires Walkable(s) && s != []
    ensures WellFormed(s[0].item) && IsCString(s[0].key)
  {
  }

  lemma {:induction false} EntriesText(owner: Json, a: seq<Member>, b: seq<Member>)
    requires owner.Obj? && forall x :: x in a ==> x in owner.members
    requires Walkable(a) && Walkable(b)
    ensures PatchText(Obj(MergeEntries(owner, a, b)))
    decreases owner, 0, |a| + |b|
  {
    hide StrCmp, Walkable, IsCString;
    if a != [] { WalkableTail(a); WalkableHead(a); }
    if b != [] { WalkableTail(b); WalkableHead(b); WellFormedText(b[0].item); }
    if a != [] || b != [] {
      var ps := MergeEntries(owner, a, b);
      var diff := WalkOrder(a, b);
      if diff < 0 {
        EntriesText(owner, a[1..], b);
        TextCons(Member(a[0].key, Null), MergeEntries(owner, a[1..], b));
      } else if diff > 0 {
        EntriesText(owner, a, b[1..]);
        TextCons(b[0], MergeEntries(owner, a, b[1..]));
      } else {
        EntriesText(owner, a[1..], b[1..]);
        assert a[0] in owner.members;
        GeneratedText(a[0].item, b[0].item);
        var p := GenerateMergePatch(a[0].item, b[0].item);
        var rest := MergeEntries(owner, a[1..], b[1..]);
        assert [] + rest == rest;
        if p.Some? { TextCons(Member(b[0].key, p.value), rest); }
      }
    }
  }

  lemma TextCons(m: Member, rest: seq<Member>)
    requires IsCString(m.key) && PatchText(m.item) && PatchText(Obj(rest))
    ensures PatchText(Obj([m] + rest))
  {
    hide IsCString;
    var s := [m] + rest;
    assert forall i :: 0 < i < |s| ==> s[i] == rest[i-1];
  }

  lemma {:induction false} WellFormedText(j: Json)
    requires WellFormed(j)
    ensures PatchText(j)
    decreases j
  {
    if j.Obj? {
      forall i | 0 <= i < |j.members| ensures PatchText(j.members[i].item) {
        WellFormedText(j.members[i].item);
      }
    }
  }

  lemma {:induction false} GeneratedText(from: Json, to: Json)
    requires WellFormed(from) && WellFormed(to)
    ensures var p := GenerateMergePatch(from, to); p.Some? ==> PatchText(p.value)
    decreases from, 1, 0
  {
    if to.Obj? && from.Obj? {
      SortedWalkable(from.members);
      SortedWalkable(to.members);
      SortedElements(from.members);
      EntriesText(from, SortMembers(from.members), SortMembers(to.members));
    } else {
      WellFormedText(to);
    }
  }

  // What the generator makes is regular.

  ghost predicate ValuesDistinct(ps: seq<Member>) {
    && (forall i, j :: 0 <= i < j < |ps| ==>
          ps[i].item.Null? || ps[j].item.Null? || !SameKey(ps[i].key, ps[j].key))
    && forall i :: 0 <= i < |ps| ==> Regular(ps[i].item)
  }

  ghost predicate ValuesAmong(ps: seq<Member>, keys: set<string>) {
    forall i :: 0 <= i < |ps| && !ps[i].item.Null? ==> Lower(ps[i].key) in keys
  }

  lemma {:induction false} PlainRegular(j: Json)
    requires WellFormed(j)
    ensures Regular(j)
    decreases j
  {
    if j.Obj? {
      forall i | 0 <= i < |j.members| ensures Regular(j.members[i].item) {
        PlainRegular(j.members[i].item);
      }
    }
  }

  lemma RegularCons(m: Member, rest: seq<Member>, keys: set<string>)
    requires ValuesDistinct(rest) && ValuesAmong(rest, keys) && Regular(m.item)
    requires m.item.Null? || Lower(m.key) !in keys
    ensures ValuesDistinct([m] + rest)
    ensures ValuesAmong([m] + rest, keys + {Lower(m.key)})
    ensures m.item.Null? ==> ValuesAmong([m] + rest, keys)
  {
    hide Lower, Regular;
    var s := [m] + rest;
    assert forall i :: 0 < i < |s| ==> s[i] == rest[i-1];
  }

  lemma {:induction false} EntriesRegular(owner: Json, a: seq<Member>, b: seq<Member>)
    requires owner.Obj? && forall x :: x in a ==> x in owner.members
    requires Walkable(a) && Walkable(b)
    ensures ValuesDistinct(MergeEntries(owner, a, b)) && ValuesAmong(MergeEntries(owner, a, b), LowerKeys(b))
    decreases owner, 0, |a| + |b|
  {
    hide StrCmp, Walkable, Lower, Regular, ValuesDistinct, ValuesAmong, LowerKeys;
    if a != [] { WalkableTail(a); WalkableHead(a); }
    if b != [] { WalkableTail(b); WalkableHead(b); PlainRegular(b[0].item); KeyInside(b, 0); }
    if a != [] || b != [] {
      var diff := WalkOrder(a, b);
      if diff < 0 {
        EntriesRegular(owner, a[1..], b);
        NullRegular();
        RegularCons(Member(a[0].key, Null), MergeEntries(owner, a[1..], b), LowerKeys(b));
      } else if diff > 0 {
        EntriesRegular(owner, a, b[1..]);
        RegularCons(b[0], MergeEntries(owner, a, b[1..]), LowerKeys(b[1..]));
        KeysBack(b);
      } else {
        EntriesRegular(owner, a[1..], b[1..]);
        assert a[0] in owner.members;
        GeneratedRegular(a[0].item, b[0].item);
        var p := GenerateMergePatch(a[0].item, b[0].item);
        var rest := MergeEntries(owner, a[1..], b[1..]);
        assert [] + rest == rest;
        if p.Some? { RegularCons(Member(b[0].key, p.value), rest, LowerKeys(b[1..])); }
        KeysBack(b);
        AmongMore(rest, LowerKeys(b[1..]), LowerKeys(b));
      }
    } else {
      NoneDistinct(LowerKeys(b));
    }
  }

  lemma NullRegular()
    ensures Regular(Null)
  {
  }

  lemma NoneDistinct(keys: set<string>)
    ensures ValuesDistinct([]) && ValuesAmong([], keys)
  {
  }

  lemma KeysBack(b: seq<Member>)
    requires b != [] && Lower(b[0].key) in LowerKeys(b)
    requires LowerKeys(b[1..]) == LowerKeys(b) - {Lower(b[0].key)}
    ensures LowerKeys(b[1..]) + {Lower(b[0].key)} == LowerKeys(b)
  {
  }

  lemma AmongMore(ps: seq<Member>, keys: set<string>, more: set<string>)
    requires ValuesAmong(ps, keys) && keys <= more
    ensures ValuesAmong(ps, more)
  {
  }

  lemma {:induction false} GeneratedRegular(from: Json, to: Json)
    requires WellFormed(from) && WellFormed(to)
    ensures var p := GenerateMergePatch(from, to); p.Some? ==> Regular(p.value)
    decreases from, 1, 0
  {
    if to.Obj? && from.Obj? {
      SortedWalkable(from.members);
      SortedWalkable(to.members);
      SortedElements(from.members);
      EntriesRegular(from, SortMembers(from.members), SortMembers(to.members));
    } else {
      PlainRegular(to);
    }
  }

  // ----- no patch means no difference -----

  function KeySet(ms: seq<Member>): set<string> {
    set m | m in ms :: m.key
  }

  predicate SpelledAlike(a: seq<Member>, b: seq<Member>) {
    |a| == |b| && forall i :: 0 <= i < |a| ==> a[i].key == b[i].key
  }

  lemma {:induction false} EntriesEmpty(owner: Json, a: seq<Member>, b: seq<Member>)
    requires owner.Obj? && forall m :: m in a ==> m in owner.members
    requires Walkable(a) && Walkable(b)
    ensures MergeEntries(owner, a, b) == [] <==> CompareMembers(owner, a, b) == 0 && SpelledAlike(a, b)
    decreases owner, 0, |a| + |b|
  {
    hide StrCmp, StrCaseCmp, Walkable, GenerateMergePatch, Compare, SpelledAlike;
    SpelledHeads(a, b);
    if a != [] && b != [] {
      WalkableHead(a);
      WalkableHead(b);
      StrCmpZero(a[0].key, b[0].key);
      if StrCmp(a[0].key, b[0].key) == 0 {
        WalkableTail(a);
        WalkableTail(b);
        StrCaseCmpZero(a[0].key, b[0].key);
        assert a[0] in owner.members;
        NoneMeansEqual(a[0].item, b[0].item);
        EntriesEmpty(owner, a[1..], b[1..]);
      }
    }
  }

  lemma SpelledHeads(a: seq<Member>, b: seq<Member>)
    ensures SpelledAlike(a, b) <==>
      if a == [] || b == [] then a == [] && b == []
      else a[0].key == b[0].key && SpelledAlike(a[1..], b[1..])
  {
    if a != [] && b != [] && a[0].key == b[0].key && SpelledAlike(a[1..], b[1..]) {
      assert forall i :: 0 < i < |a| ==> a[i] == a[1..][i-1] && b[i] == b[1..][i-1];
    }
  }

  /** For equal objects, the same spellings in the same order are the same set. */
  lemma SpelledSets(from: Json, to: Json)
    requires from.Obj? && to.Obj? && WellFormed(from) && WellFormed(to) && Compare(from, to) == 0
    ensures SpelledAlike(SortMembers(from.members), SortMembers(to.members))
      <==> KeySet(from.members) == KeySet(to.members)
  {
    hide SortMembers;
    var a, b := SortMembers(from.members), SortMembers(to.members);
    SortedElements(from.members);
    SortedElements(to.members);
    assert KeySet(from.members) == KeySet(a) && KeySet(to.members) == KeySet(b);
    SortedWalkable(from.members);
    SortedWalkable(to.members);
    CompareMembersZero(from, a, b);
    hide WellFormed, Compare, CompareMembers, Denote;
    if SpelledAlike(a, b) {
      SpelledKeys(a, b);
      SpelledKeys(b, a);
    }
    if KeySet(a) == KeySet(b) {
      forall i | 0 <= i < |a| ensures a[i].key == b[i].key {
        assert a[i] in a && a[i].key in KeySet(b);
        var j :| 0 <= j < |b| && b[j].key == a[i].key;
        IndexUnique(b, i, b[j].key);
        IndexUnique(b, j, b[j].key);
      }
    }
  }

  lemma SpelledKeys(a: seq<Member>, b: seq<Member>)
    requires SpelledAlike(a, b)
    ensures KeySet(a) <= KeySet(b)
  {
    forall k | k in KeySet(a) ensures k in KeySet(b) {
      var i :| 0 <= i < |a| && a[i].key == k;
      assert b[i] in b;
    }
  }

  /** The generator answers NULL exactly for two equal objects that spell their
    * keys alike. */
  lemma {:induction false} NoneMeansEqual(from: Json, to: Json)
    requires WellFormed(from) && WellFormed(to)
    ensures GenerateMergePatch(from, to) == None
      <==> from.Obj? && to.Obj? && Compare(from, to) == 0 && KeySet(from.members) == KeySet(to.members)
    decreases from, 1, 0
  {
    if from.Obj? && to.Obj? {
      hide WellFormedMembers, SortMembers, Walkable, SpelledAlike, KeySet;
      SortedWalkable(from.members);
      SortedWalkable(to.members);
      SortedElements(from.members);
      EntriesEmpty(from, SortMembers(from.members), SortMembers(to.members));
      if Compare(from, to) == 0 { SpelledSets(from, to); }
    }
  }

  // ----- when the merged document is the intended one -----

  /** No null-valued member anywhere outside the arrays. */
  predicate Bare(j: Json) {
    j.Obj? ==> forall i :: 0 <= i < |j.members| ==> !j.members[i].item.Null? && Bare(j.members[i].item)
  }

  /** The target arrives: no member of it is read before its counterpart, and the
    * nulls that a merge patch cannot express are all ones it need not express,
    * because `from` has an equal member there, read together with it. */
  ghost predicate Kept(from: Json, to: Json)
    decreases (to), 1
  {
    if from.Obj? && to.Obj? then
      forall i :: 0 <= i < |to.members| ==>
        var y := to.members[i];
        MemberKept(HowMet(from, to, y.key), ItemAt(from.members, y.key), y.item)
    else Bare(to)
  }

  ghost predicate MemberKept(how: Meeting, from: Option<Json>, to: Json)
    decreases (to), 2
  {
    if from.None? || how.SourceFirst? then !to.Null? && Bare(to)
    else how.Together? && (Compare(from.value, to) == 0 || (!to.Null? && Kept(from.value, to)))
  }

  /** A document none of whose keys has an upper-case letter. */
  predicate LowerCaseKeys(j: Json) {
    match j
    case Arr(items) => forall i :: 0 <= i < |items| ==> LowerCaseKeys(items[i])
    case Obj(ms, _) => LowerCaseMembers(ms) && forall i :: 0 <= i < |ms| ==> LowerCaseKeys(ms[i].item)
    case _ => true
  }

  predicate LowerCaseMembers(ms: seq<Member>) {
    forall m :: m in ms ==> Lower(m.key) == m.key
  }

  /** Lower-case keys are always met together. */
  lemma {:induction false} LowerCaseMeets(a: seq<Member>, b: seq<Member>, k: string)
    requires Walkable(a) && Walkable(b) && LowerCaseMembers(a) && LowerCaseMembers(b)
    requires Lower(k) in LowerKeys(a) && Lower(k) in LowerKeys(b)
    ensures Meets(a, b, k) == Together
    decreases |a| + |b|
  {
    hide Lower, StrCmp, Walkable, LowerKeys;
    if a != [] { WalkableTail(a); }
    if b != [] { WalkableTail(b); }
    if a != [] && b != [] {
      Heads(a, b);
      if !SameKey(a[0].key, k) && WalkOrder(a, b) <= 0 {
        LowerCaseMeets(a[1..], if WalkOrder(a, b) == 0 then b[1..] else b, k);
      } else if !SameKey(b[0].key, k) && WalkOrder(a, b) > 0 {
        LowerCaseMeets(a, b[1..], k);
      }
    } else {
      assert LowerKeys([]) == {} by { NoKeys(); }
    }
  }

  lemma NoKeys()
    ensures LowerKeys([]) == {}
  {
  }

  /** Lower-case keys and a target without nulls: a simple way to meet the condition. */
  lemma {:induction false} LowerCaseKept(from: Json, to: Json)
    requires WellFormed(from) && WellFormed(to) && LowerCaseKeys(from) && LowerCaseKeys(to) && Bare(to)
    ensures Kept(from, to)
    decreases (to)
  {
    if from.Obj? && to.Obj? {
      hide Meets, SortMembers, Walkable;
      var a, b := SortMembers(from.members), SortMembers(to.members);
      SortedWalkable(from.members);
      SortedWalkable(to.members);
      SortedElements(from.members);
      SortedElements(to.members);
      forall i | 0 <= i < |to.members|
        ensures var y := to.members[i];
          MemberKept(HowMet(from, to, y.key), ItemAt(from.members, y.key), y.item)
      {
        var y := to.members[i];
        var x := ItemAt(from.members, y.key);
        if x.Some? {
          KeyPresent(from.members, y.key);
          SubsetKeys(from.members, a);
          KeyInside(to.members, i);
          SubsetKeys(to.members, b);
          LowerCaseMeets(a, b, y.key);
          LowerCaseKept(x.value, y.item);
        }
      }
    }
  }

  /** Equal objects with lower-case keys spell them alike. */
  lemma LowerCaseSpelled(from: Json, to: Json)
    requires from.Obj? && to.Obj? && WellFormed(from) && WellFormed(to) && Compare(from, to) == 0
    requires LowerCaseKeys(from) && LowerCaseKeys(to)
    ensures KeySet(from.members) == KeySet(to.members)
  {
    CompareDecidesMeaning(from, to);
    assert DenoteMembers(from.members).Keys == DenoteMembers(to.members).Keys;
    LowerCaseSet(from.members);
    LowerCaseSet(to.members);
  }

  lemma LowerCaseSet(ms: seq<Member>)
    requires LowerCaseMembers(ms)
    ensures KeySet(ms) == LowerKeys(ms)
  {
    forall k | k in LowerKeys(ms) ensures k in KeySet(ms) {
      var i :| 0 <= i < |ms| && Lower(ms[i].key) == k;
      assert ms[i] in ms;
    }
  }

  lemma IndexOfRest(ps: seq<Member>, k: string)
    requires ps != [] && DistinctKeys(ps)
    ensures DistinctKeys(ps[1..])
    ensures Lower(ps[0].key) == Lower(k) ==> ItemAt(ps, k) == Some(ps[0].item) && ItemAt(ps[1..], k) == None
    ensures Lower(ps[0].key) != Lower(k) ==> ItemAt(ps, k) == ItemAt(ps[1..], k)
  {
    hide Lower;
    IndexOfTail(ps, k);
    TailKeys(ps);
    KeyPresent(ps[1..], k);
    assert forall i :: 0 <= i < |ps| - 1 ==> ps[1..][i] == ps[i+1];
  }

  /** Merging distinct keys into a map, key by key. */
  lemma {:induction false} MergedEntry(m: map<string, Meaning>, ps: seq<Member>, k: string)
    requires DistinctKeys(ps) && Lower(k) == k
    ensures Entry(MergedMembers(m, ps), k) ==
      match ItemAt(ps, k)
      case None => Entry(m, k)
      case Some(v) => if v.Null? then None else Some(Merged(Entry(m, k), v))
    decreases |ps|
  {
    hide Lower, Denote, Merged, IndexOf;
    if ps != [] {
      IndexOfRest(ps, k);
      var kb, v := Lower(ps[0].key), ps[0].item;
      MergedEntry(if v.Null? then m - {kb} else m[kb := Merged(Entry(m, kb), v)], ps[1..], k);
    } else {
      assert ItemAt(ps, k) == None;
    }
  }

  /** Merging an object into nothing strips its nulls, so it arrives whole exactly
    * when it has none. */
  lemma {:induction false} MergedIntoNothing(t: Option<Meaning>, v: Json)
    requires WellFormed(v) && (t.Some? && v.Obj? ==> !t.value.MObj?)
    ensures Merged(t, v) == Denote(v) <==> Bare(v)
    decreases v
  {
    if v.Obj? {
      var ps := v.members;
      var r, d := MergedMembers(map[], ps), DenoteMembers(ps);
      assert Base(t) == map[];
      forall i | 0 <= i < |ps|
        ensures var k := Lower(ps[i].key);
          && Entry(r, k) == (if ps[i].item.Null? then None else Some(Merged(None, ps[i].item)))
          && Entry(d, k) == Some(Denote(ps[i].item))
          && (Merged(None, ps[i].item) == Denote(ps[i].item) <==> Bare(ps[i].item))
      {
        var k := Lower(ps[i].key);
        MergedIntoNothing(None, ps[i].item);
        DenoteAt(ps, i);
        LowerIdempotent(ps[i].key);
        IndexUnique(ps, i, k);
        MergedEntry(map[], ps, k);
      }
      if r == d {
        forall i | 0 <= i < |ps| ensures !ps[i].item.Null? && Bare(ps[i].item) {
          assert Entry(r, Lower(ps[i].key)) == Entry(d, Lower(ps[i].key));
        }
      }
      if Bare(v) {
        MergedKeys(map[], ps);
        AllEntries(r, ps);
      }
    }
  }

  lemma {:induction false} MergedKeys(m: map<string, Meaning>, ps: seq<Member>)
    ensures MergedMembers(m, ps).Keys <= m.Keys + LowerKeys(ps)
    decreases |ps|
  {
    hide Lower, Denote, Merged;
    if ps != [] {
      var kb, v := Lower(ps[0].key), ps[0].item;
      MergedKeys(if v.Null? then m - {kb} else m[kb := Merged(Entry(m, kb), v)], ps[1..]);
      KeyInside(ps, 0);
      SubsetKeys(ps[1..], ps);
    }
  }

  /** A member of the target arrives exactly when it is kept. */
  lemma {:induction false} LeftIntended(how: Meeting, from: Option<Json>, to: Json)
    requires WellFormed(to) && (from.Some? ==> WellFormed(from.value))
    ensures Left(how, from, to) == Some(Denote(to)) <==> MemberKept(how, from, to)
    decreases (to), 3
  {
    if from.None? || how.SourceFirst? {
      MergedIntoNothing(None, to);
    } else {
      var f := from.value;
      CompareDecidesMeaning(f, to);
      NoneMeansEqual(f, to);
      if Denote(f) != Denote(to) {
        if f.Obj? && to.Obj? {
          ObjectMerged(f, to);
        } else {
          MergedIntoNothing(Some(Denote(f)), to);
        }
      }
    }
  }

  lemma {:induction false} ObjectMerged(from: Json, to: Json)
    requires from.Obj? && to.Obj? && WellFormed(from) && WellFormed(to)
    ensures var p := GenerateMergePatch(from, to);
      p.Some? ==> p.value.Obj? && (Merged(Some(Denote(from)), p.value) == Denote(to) <==> Kept(from, to))
    decreases (to), 0
  {
    SortedElements(from.members);
    hide MergeEntries, MergedMembers, Lower, SortMembers, Left, MemberKept, Kept, HowMet;
    var a, b := SortMembers(from.members), SortMembers(to.members);
    var ps := MergeEntries(from, a, b);
    var r := MergedMembers(DenoteMembers(from.members), ps);
    forall i | 0 <= i < |to.members|
      ensures Arrives(from, to, r, i)
    {
      EntryOfTarget(from, to, r, i);
      var y := to.members[i];
      LeftIntended(HowMet(from, to, y.key), ItemAt(from.members, y.key), y.item);
    }
    forall k | k in r ensures k in LowerKeys(to.members) {
      EntryOfOther(from, to, r, k);
    }
    AllArrive(from, to, r);
  }

  lemma AllArrive(from: Json, to: Json, r: map<string, Meaning>)
    requires from.Obj? && to.Obj? && WellFormed(to)
    requires forall i :: 0 <= i < |to.members| ==> Arrives(from, to, r, i)
    requires forall k :: k in r ==> k in LowerKeys(to.members)
    ensures r == DenoteMembers(to.members) <==> Kept(from, to)
  {
    hide Lower, Denote, MemberKept, HowMet;
    var ms := to.members;
    var d := DenoteMembers(ms);
    forall i | 0 <= i < |ms| ensures Entry(d, Lower(ms[i].key)) == Some(Denote(ms[i].item)) {
      DenoteAt(ms, i);
    }
    if r == d {
      forall i | 0 <= i < |ms|
        ensures MemberKept(HowMet(from, to, ms[i].key), ItemAt(from.members, ms[i].key), ms[i].item)
      {
        assert Arrives(from, to, r, i);
      }
    }
    if Kept(from, to) {
      forall i | 0 <= i < |ms| ensures Entry(r, Lower(ms[i].key)) == Some(Denote(ms[i].item)) {
        assert Arrives(from, to, r, i);
      }
      AllEntries(r, ms);
    }
  }

  lemma AllEntries(r: map<string, Meaning>, ms: seq<Member>)
    requires DistinctKeys(ms) && forall k :: k in r ==> k in LowerKeys(ms)
    requires forall i :: 0 <= i < |ms| ==> Entry(r, Lower(ms[i].key)) == Some(Denote(ms[i].item))
    ensures r == DenoteMembers(ms)
  {
    hide Lower, Denote;
    var d := DenoteMembers(ms);
    forall k | k in d ensures k in r && r[k] == d[k] {
      var i :| 0 <= i < |ms| && Lower(ms[i].key) == k;
      DenoteAt(ms, i);
      assert Entry(r, Lower(ms[i].key)) == Some(Denote(ms[i].item));
    }
  }

  ghost predicate Arrives(from: Json, to: Json, r: map<string, Meaning>, i: nat)
    requires from.Obj? && to.Obj? && i < |to.members|
  {
    var y := to.members[i];
    Entry(r, Lower(y.key)) == Some(Denote(y.item)) <==>
      MemberKept(HowMet(from, to, y.key), ItemAt(from.members, y.key), y.item)
  }

  lemma EntryOfMembers(ms: seq<Member>, k: string)
    requires DistinctKeys(ms) && Lower(k) == k
    ensures Entry(DenoteMembers(ms), k) == DenoteOption(ItemAt(ms, k))
  {
    hide Lower, Denote;
    KeyPresent(ms, k);
  }

  ghost predicate MergedDocument(from: Json, to: Json, r: map<string, Meaning>) {
    && from.Obj? && to.Obj? && WellFormed(from) && WellFormed(to)
    && (forall m :: m in SortMembers(from.members) ==> m in from.members)
    && r == MergedMembers(DenoteMembers(from.members),
              MergeEntries(from, SortMembers(from.members), SortMembers(to.members)))
  }

  lemma {:induction false} MeetsSame(a: seq<Member>, b: seq<Member>, k: string, k': string)
    requires SameKey(k, k')
    ensures Meets(a, b, k) == Meets(a, b, k')
    decreases |a| + |b|
  {
    hide Lower, StrCmp;
    if a != [] || b != [] {
      var diff := WalkOrder(a, b);
      if diff < 0 {
        MeetsSame(a[1..], b, k, k');
      } else if diff > 0 {
        MeetsSame(a, b[1..], k, k');
      } else {
        MeetsSame(a[1..], b[1..], k, k');
      }
    }
  }

  /** The merged entry at any key, in terms of the two documents as given. */
  lemma EntryOfAny(from: Json, to: Json, r: map<string, Meaning>, k: string)
    requires MergedDocument(from, to, r) && Lower(k) == k
    ensures var x, y := ItemAt(from.members, k), ItemAt(to.members, k);
      Entry(r, k) ==
        if y.Some? then Left(HowMet(from, to, k), x, y.value) else if x.Some? then None
        else Entry(DenoteMembers(from.members), k)
  {
    hide MergedMembers, MergeEntries, Left, Lower, Denote, DenoteMembers, SortMembers, Walkable;
    var a, b := SortMembers(from.members), SortMembers(to.members);
    SortedWalkable(from.members);
    SortedWalkable(to.members);
    WalkableDistinct(a);
    WalkableDistinct(b);
    ItemAtPermuted(a, from.members, k);
    ItemAtPermuted(b, to.members, k);
    EntryOfMembers(from.members, k);
    EntriesMerge(from, DenoteMembers(from.members), a, b, k);
  }

  lemma EntryOfTarget(from: Json, to: Json, r: map<string, Meaning>, i: nat)
    requires MergedDocument(from, to, r) && i < |to.members|
    ensures var y := to.members[i];
      Entry(r, Lower(y.key)) == Left(HowMet(from, to, y.key), ItemAt(from.members, y.key), y.item)
  {
    hide MergedMembers, MergeEntries, Left, Lower, Denote, Meets;
    var x := to.members[i].key;
    var k := Lower(x);
    LowerIdempotent(x);
    EntryOfAny(from, to, r, k);
    assert WellFormedMembers(to.members);
    IndexUnique(to.members, i, x);
    KeyPresent(to.members, x);
    KeyPresent(from.members, x);
    MeetsSame(SortMembers(from.members), SortMembers(to.members), x, k);
  }

  lemma EntryOfOther(from: Json, to: Json, r: map<string, Meaning>, k: string)
    requires MergedDocument(from, to, r) && k in r
    ensures k in LowerKeys(to.members)
  {
    hide MergedMembers, MergeEntries, Left, Lower, Denote, HowMet;
    var ps := MergeEntries(from, SortMembers(from.members), SortMembers(to.members));
    assert Lower(k) == k by {
      MergedKeys(DenoteMembers(from.members), ps);
      if k in LowerKeys(ps) { PresentIndex(ps, k); } else { PresentIndex(from.members, k); }
    }
    EntryOfAny(from, to, r, k);
    KeyPresent(to.members, k);
    KeyPresent(from.members, k);
    assert WellFormedMembers(from.members);
    EntryOfMembers(from.members, k);
  }

  // ----- the theorem -----

  /** JSON Merge Patch round trip, for all documents.  No patch is generated
    * exactly for two equal objects that spell their keys alike.  Otherwise merging
    * the patch into any document equal to `from` is a fault exactly when it touches
    * a first member that has a `prev`, and without a fault gives `to` exactly when
    * every member of `to` is kept. */
  lemma MergePatchRoundTrip(x: Json, from: Json, to: Json)
    requires WellFormed(x) && WellFormed(from) && WellFormed(to) && Compare(x, from) == 0
    ensures var p := GenerateMergePatch(from, to);
      && (p.None? <==>
            from.Obj? && to.Obj? && Compare(from, to) == 0 && KeySet(from.members) == KeySet(to.members))
      && (p.Some? ==>
            var r := MergePatch(Some(x), p.value);
            && (r.None? <==> PatchTouches(Some(x), p.value))
            && (r.Some? ==> WellFormed(r.value) && (Compare(r.value, to) == 0 <==> Kept(from, to))))
  {
    hide KeySet, Regular, PatchTouches;
    CompareDecidesMeaning(x, from);
    CompareDecidesMeaning(from, to);
    NoneMeansEqual(from, to);
    var p := GenerateMergePatch(from, to);
    if p.Some? {
      GeneratedText(from, to);
      GeneratedRegular(from, to);
      MergeFaults(Some(x), p.value);
      MergeDenotes(Some(x), p.value);
      var r := MergePatch(Some(x), p.value);
      if r.Some? { CompareDecidesMeaning(r.value, to); }
      if from.Obj? && to.Obj? {
        ObjectMerged(from, to);
      } else {
        MergedIntoNothing(Some(Denote(x)), to);
      }
    }
  }

  /** Two documents with lower-case keys, no null member in the target: the form
    * in which the two operations undo each other on a copy of the source. */
  lemma MergePatchUndoesGenerate(x: Json, from: Json, to: Json)
    requires WellFormed(x) && WellFormed(from) && WellFormed(to) && Compare(x, from) == 0
    requires LowerCaseKeys(from) && LowerCaseKeys(to) && Bare(to)
    ensures var p := GenerateMergePatch(from, to);
      && (p.None? <==> from.Obj? && to.Obj? && Compare(from, to) == 0)
      && (p.None? ==> Compare(x, to) == 0)
      && (p.Some? ==>
            var r := MergePatch(Some(Duplicate(x)), p.value); r.Some? && Compare(r.value, to) == 0)
  {
    hide PatchTouches, Kept;
    LowerCaseKept(from, to);
    CompareDecidesMeaning(x, from);
    CompareDecidesMeaning(from, to);
    CompareDecidesMeaning(x, to);
    DuplicateMeans(x);
    CompareDecidesMeaning(Duplicate(x), from);
    MergePatchRoundTrip(Duplicate(x), from, to);
    var p := GenerateMergePatch(from, to);
    if p.Some? { CopyUntouchedByMerge(x, p.value); }
    if from.Obj? && to.Obj? && Compare(from, to) == 0 { LowerCaseSpelled(from, to); }
  }

  lemma {:induction false} CopyUntouchedByMerge(x: Json, patch: Json)
    ensures !PatchTouches(Some(Duplicate(x)), patch)
    decreases patch
  {
    var d := Duplicate(x);
    if patch.Obj? && x.Obj? {
      forall i | 0 <= i < |patch.members| ensures !EntryTouches(d, patch.members, i) {
        var m := patch.members[i];
        var n := IndexOf(d.members, m.key);
        if n < |d.members| { CopyUntouchedByMerge(x.members[n].item, m.item); }
      }
      assert !EntriesTouch(d, patch.members, 0);
    }
  }

  const MIXED_FROM := [Member("a", True), Member("B", True)]
  const MIXED_TO := [Member("B", False)]

  /** Mixed case defeats the walk: "B" is both added and removed, so merging the
    * patch for {"a": true, "B": true} -> {"B": false} empties the document. */
  lemma MixedCaseMissed()
    ensures WellFormed(Obj(MIXED_FROM)) && WellFormed(Obj(MIXED_TO))
    ensures var p := GenerateMergePatch(Obj(MIXED_FROM), Obj(MIXED_TO));
      p.Some? && MergePatch(Some(Obj(MIXED_FROM)), p.value) == Some(Obj([]))
  {
    hide MergeEntries, MergeMembers, SortMembers, WellFormedMembers;
    MixedCaseSorted();
    MixedCaseEntries();
    MixedCaseMerged();
    assert MIXED_TO != [];
  }

  lemma MixedCaseSorted()
    ensures WellFormedMembers(MIXED_FROM) && WellFormedMembers(MIXED_TO)
    ensures SortMembers(MIXED_FROM) == MIXED_FROM && SortMembers(MIXED_TO) == MIXED_TO
  {
    assert Lower("a") == "a" && Lower("B") == "b";
    assert JsonSort.StrictlySorted(MIXED_FROM, KeyOf) by { assert StrCmp("a", "b") < 0; }
  }

  lemma MixedCaseEntries()
    ensures MergeEntries(Obj(MIXED_FROM), MIXED_FROM, MIXED_TO) ==
      [Member("B", False), Member("a", Null), Member("B", Null)]
  {
    var a, b, owner := MIXED_FROM, MIXED_TO, Obj(MIXED_FROM);
    assert a[1..] == [a[1]] && a[1..][1..] == [] && b[1..] == [];
    assert MergeEntries(owner, [], []) == [];
    assert MergeEntries(owner, [a[1]], []) == [Member("B", Null)];
    assert MergeEntries(owner, a, []) == [Member("a", Null), Member("B", Null)];
    assert StrCmp("a", "B") > 0;
  }

  lemma MergeOne(ms: seq<Member>, i: nat, p: Member, rest: seq<Member>)
    requires IndexOf(ms, p.key) == i < |ms| && (p.item.Null? || p.item.False?)
    ensures MergeMembers(Obj(ms), [p] + rest) ==
      MergeMembers(Obj(Without(ms, i) + (if p.item.Null? then [] else [p])), rest)
  {
    assert ([p] + rest)[1..] == rest;
    assert Without(ms, i) + [] == Without(ms, i);
  }

  lemma MixedCaseMerged()
    ensures MergeMembers(Obj(MIXED_FROM), [Member("B", False), Member("a", Null), Member("B", Null)]) == Some(Obj([]))
  {
    hide Lower, IndexOf, MergeMembers;
    var a, b, bf := MIXED_FROM[0], MIXED_FROM[1], Member("B", False);
    var na, nb := Member("a", Null), Member("B", Null);
    MixedCaseFound(a, bf);
    MixedCaseFound(a, b);
    MergeOne([a, b], 1, bf, [na, nb]);
    assert [bf] + [na, nb] == [bf, na, nb] && Without([a, b], 1) + [bf] == [a, bf];
    MergeOne([a, bf], 0, na, [nb]);
    assert [na] + [nb] == [na, nb] && Without([a, bf], 0) + [] == [bf];
    MergeOne([bf], 0, nb, []);
    assert [nb] + [] == [nb] && Without([bf], 0) + [] == [];
    MergeNone([]);
  }

  lemma MixedCaseFound(a: Member, b: Member)
    requires a.key == "a" && b.key == "B"
    ensures IndexOf([a, b], "B") == 1 && IndexOf([a, b], "a") == 0 && IndexOf([b], "B") == 0
  {
    assert Lower("a") == "a" && Lower("B") == "b";
    hide Lower;
    assert [a, b][1..] == [b];
  }

  lemma MergeNone(ms: seq<Member>)
    ensures MergeMembers(Obj(ms), []) == Some(Obj(ms))
  {
  }
}
