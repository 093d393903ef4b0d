/** JSON documents, what they mean, and `cJSONUtils_Compare`. */
module JsonTree {
  import opened JsonText
  import JsonSort
  import opened Wrappers

  /** A cJSON node with its chain of children.  A number carries both of its
    * fields, the saturated integer and the double.  `stale` says that the first
    * member of an object has a `prev` all the same, which sorting can leave behind
    * (`JsonNodes.SortList`). */
  datatype Json =
    | Null | False | True
    | Raw(raw: string)
    | Number(valueint: int, valuedouble: real)
    | Str(text: string)
    | Arr(items: seq<Json>)
    | Obj(members: seq<Member>, stale: bool := false)

  datatype Member = Member(key: string, item: Json)

  function KeyOf(m: Member): string { m.key }

  predicate SameKind(a: Json, b: Json) {
    match a
    case Null => b.Null?
    case False => b.False?
    case True => b.True?
    case Raw(_) => b.Raw?
    case Number(_, _) => b.Number?
    case Str(_) => b.Str?
    case Arr(_) => b.Arr?
    case Obj(_, _) => b.Obj?
  }

  // ----- lookup -----

  /** The first member whose key equals `k` ignoring case, or the length
    * (`cJSON_GetObjectItem`). */
  function IndexOf(ms: seq<Member>, k: string): (r: nat)
    ensures r <= |ms|
    ensures r < |ms| ==> SameKey(ms[r].key, k)
    ensures forall i :: 0 <= i < r ==> !SameKey(ms[i].key, k)
  {
    if ms == [] || SameKey(ms[0].key, k) then 0 else 1 + IndexOf(ms[1..], k)
  }

  function LowerKeys(ms: seq<Member>): set<string> {
    set i | 0 <= i < |ms| :: Lower(ms[i].key)
  }

  /** What is found under a key. */
  function ItemAt(ms: seq<Member>, k: string): Option<Json> {
    if IndexOf(ms, k) < |ms| then Some(ms[IndexOf(ms, k)].item) else None
  }

  lemma KeyInside(ms: seq<Member>, i: nat)
    requires i < |ms|
    ensures Lower(ms[i].key) in LowerKeys(ms)
  {
  }

  predicate DistinctKeys(ms: seq<Member>) {
    forall i, j :: 0 <= i < j < |ms| ==> !SameKey(ms[i].key, ms[j].key)
  }

  /** Text free of terminators, and sibling keys distinct ignoring case. */
  predicate WellFormed(j: Json) {
    match j
    case Str(t) => IsCString(t)
    case Arr(items) => forall i :: 0 <= i < |items| ==> WellFormed(items[i])
    case Obj(ms, _) => WellFormedMembers(ms)
    case _ => true
  }

  predicate WellFormedMembers(ms: seq<Member>) {
    && DistinctKeys(ms)
    && (forall i :: 0 <= i < |ms| ==> IsCString(ms[i].key))
    && (forall i :: 0 <= i < |ms| ==> WellFormed(ms[i].item))
  }

  lemma LowerIdempotent(s: string)
    ensures Lower(Lower(s)) == Lower(s)
  {
    assert forall c :: ToLower(ToLower(c)) == ToLower(c);
    assert forall i :: 0 <= i < |s| ==> Lower(Lower(s))[i] == Lower(s)[i];
  }

  lemma KeyPresent(ms: seq<Member>, k: string)
    ensures Lower(k) in LowerKeys(ms) <==> IndexOf(ms, k) < |ms|
    ensures IndexOf(ms, k) == IndexOf(ms, Lower(k))
  {
    LowerIdempotent(k);
    var i, j := IndexOf(ms, k), IndexOf(ms, Lower(k));
    assert i < |ms| ==> SameKey(ms[i].key, Lower(k));
    assert j < |ms| ==> SameKey(ms[j].key, k);
    if Lower(k) in LowerKeys(ms) {
      var n :| 0 <= n < |ms| && Lower(ms[n].key) == Lower(k);
      assert SameKey(ms[n].key, k);
    }
  }

  lemma IndexUnique(ms: seq<Member>, i: nat, k: string)
    requires DistinctKeys(ms) && i < |ms| && SameKey(ms[i].key, k)
    ensures IndexOf(ms, k) == i
  {
    var r := IndexOf(ms, k);
    if r < i { assert SameKey(ms[r].key, ms[i].key); }
  }

  // ----- copying -----

  /** `cJSON_Duplicate`, all the way down: a copy is linked afresh. */
  function Duplicate(j: Json): Json {
    match j
    case Arr(items) => Arr(Duplicates(items))
    case Obj(ms, _) => Obj(seq(|ms|, i requires 0 <= i < |ms| => Member(ms[i].key, Duplicate(ms[i].item))))
    case _ => j
  }

  function Duplicates(items: seq<Json>): (r: seq<Json>)
    ensures |r| == |items|
  {
    seq(|items|, i requires 0 <= i < |items| => Duplicate(items[i]))
  }

  // ----- meaning -----

  /** What a document says: member order and the case of keys do not count. */
  datatype Meaning =
    | MNull | MFalse | MTrue | MRaw
    | MNumber(valueint: int, valuedouble: real)
    | MStr(text: string)
    | MArr(items: seq<Meaning>)
    | MObj(members: map<string, Meaning>)

  ghost function Denote(j: Json): Meaning
    decreases j, 1
  {
    match j
    case Null => MNull
    case False => MFalse
    case True => MTrue
    case Raw(_) => MRaw
    case Number(i, d) => MNumber(i, d)
    case Str(t) => MStr(t)
    case Arr(items) => MArr(DenoteItems(items))
    case Obj(ms, _) => MObj(DenoteMembers(ms))
  }

  ghost function DenoteItems(items: seq<Json>): (r: seq<Meaning>)
    ensures |r| == |items|
    decreases items, 0
  {
    seq(|items|, i requires 0 <= i < |items| => Denote(items[i]))
  }

  lemma PresentIndex(ms: seq<Member>, k: string)
    ensures k in LowerKeys(ms) ==> Lower(k) == k && IndexOf(ms, k) < |ms|
  {
    if k in LowerKeys(ms) {
      var n :| 0 <= n < |ms| && Lower(ms[n].key) == k;
      LowerIdempotent(ms[n].key);
      KeyPresent(ms, k);
    }
  }

  ghost function DenoteMembers(ms: seq<Member>): (r: map<string, Meaning>)
    ensures r.Keys == LowerKeys(ms)
    decreases ms, 0
  {
    map k | k in LowerKeys(ms) :: PresentIndex(ms, k); Denote(ms[IndexOf(ms, k)].item)
  }

  lemma DenoteAt(ms: seq<Member>, i: nat)
    requires DistinctKeys(ms) && i < |ms|
    ensures Lower(ms[i].key) in DenoteMembers(ms)
    ensures DenoteMembers(ms)[Lower(ms[i].key)] == Denote(ms[i].item)
  {
    LowerIdempotent(ms[i].key);
    IndexUnique(ms, i, Lower(ms[i].key));
  }

  /** A copy means the same. */
  lemma {:induction false} DuplicateMeans(j: Json)
    requires WellFormed(j)
    ensures WellFormed(Duplicate(j)) && Denote(Duplicate(j)) == Denote(j)
    decreases j
  {
    match j
    case Arr(items) =>
      forall i | 0 <= i < |items|
        ensures WellFormed(Duplicate(items[i])) && Denote(Duplicate(items[i])) == Denote(items[i])
      {
        DuplicateMeans(items[i]);
      }
      assert DenoteItems(Duplicates(items)) == DenoteItems(items);
    case Obj(ms, _) =>
      forall i | 0 <= i < |ms|
        ensures WellFormed(Duplicate(ms[i].item)) && Denote(Duplicate(ms[i].item)) == Denote(ms[i].item)
      {
        DuplicateMeans(ms[i].item);
      }
      var r := Duplicate(j).members;
      assert forall i :: 0 <= i < |ms| ==> r[i].key == ms[i].key;
      PairwiseSame(ms, r);
    case _ =>
  }

  /** Two member lists mean the same when each has the other's keys and agrees
    * on one of them at a time. */
  lemma SameMembers(a: seq<Member>, b: seq<Member>)
    requires DistinctKeys(a) && DistinctKeys(b)
    requires LowerKeys(a) == LowerKeys(b)
    requires forall i, j :: 0 <= i < |a| && 0 <= j < |b| && SameKey(a[i].key, b[j].key) ==>
      Denote(a[i].item) == Denote(b[j].item)
    ensures DenoteMembers(a) == DenoteMembers(b)
  {
    forall k | k in LowerKeys(a) ensures DenoteMembers(a)[k] == DenoteMembers(b)[k] {
      PresentIndex(a, k);
      PresentIndex(b, k);
      assert SameKey(a[IndexOf(a, k)].key, b[IndexOf(b, k)].key);
    }
  }

  // ----- reordering members -----

  lemma PermutedMembers(a: seq<Member>, b: seq<Member>)
    requires multiset(a) == multiset(b) && WellFormedMembers(a)
    ensures WellFormedMembers(b) && LowerKeys(a) == LowerKeys(b)
    ensures DenoteMembers(a) == DenoteMembers(b)
  {
    JsonSort.SameElements(a, b);
    PermutedDistinct(a, b);
    forall i | 0 <= i < |b| ensures IsCString(b[i].key) && WellFormed(b[i].item) {
      assert b[i] in a;
    }
    SubsetKeys(a, b);
    SubsetKeys(b, a);
    forall i, j | 0 <= i < |a| && 0 <= j < |b| && SameKey(a[i].key, b[j].key)
      ensures Denote(a[i].item) == Denote(b[j].item)
    {
      assert b[j] in a;
      var n :| 0 <= n < |a| && a[n] == b[j];
      IndexUnique(a, n, b[j].key);
      IndexUnique(a, i, b[j].key);
    }
    SameMembers(a, b);
  }

  lemma SubsetKeys(a: seq<Member>, b: seq<Member>)
    requires forall x :: x in a ==> x in b
    ensures LowerKeys(a) <= LowerKeys(b)
  {
    forall k | k in LowerKeys(a) ensures k in LowerKeys(b) {
      var i :| 0 <= i < |a| && Lower(a[i].key) == k;
      assert a[i] in b;
      var j :| 0 <= j < |b| && b[j] == a[i];
    }
  }

  /** A permutation of distinct keys repeats none of them. */
  lemma PermutedDistinct(a: seq<Member>, b: seq<Member>)
    requires multiset(a) == multiset(b) && DistinctKeys(a)
    ensures DistinctKeys(b)
  {
    forall i, j | 0 <= i < j < |b| ensures !SameKey(b[i].key, b[j].key) {
      if SameKey(b[i].key, b[j].key) {
        JsonSort.SameElements(a, b);
        assert b[i] in a && b[j] in a;
        var p :| 0 <= p < |a| && a[p] == b[i];
        var q :| 0 <= q < |a| && a[q] == b[j];
        IndexUnique(a, p, b[i].key);
        IndexUnique(a, q, b[i].key);
        MultiplicityTwo(b, i, j);
        MultiplicityOne(a, p);
      }
    }
  }

  lemma MultiplicityTwo(s: seq<Member>, i: nat, j: nat)
    requires i < j < |s| && s[i] == s[j]
    ensures multiset(s)[s[i]] >= 2
  {
    assert s == s[..j] + [s[j]] + s[j+1..];
    assert s[i] in s[..j];
  }

  lemma MultiplicityOne(s: seq<Member>, i: nat)
    requires DistinctKeys(s) && i < |s|
    ensures multiset(s)[s[i]] == 1
  {
    forall n | 0 <= n < |s| && n != i ensures s[n] != s[i] {
      assert !SameKey(s[if n < i then n else i].key, s[if n < i then i else n].key);
    }
    hide DistinctKeys;
    OnlyOne(s, i);
  }

  lemma OnlyOne(s: seq<Member>, i: nat)
    requires i < |s| && forall n :: 0 <= n < |s| && n != i ==> s[n] != s[i]
    ensures multiset(s)[s[i]] == 1
  {
    var front, back := s[..i], s[i+1..];
    assert s == front + [s[i]] + back;
    assert s[i] !in front && s[i] !in back;
    assert multiset(front)[s[i]] == 0 && multiset(back)[s[i]] == 0;
  }

  // ----- comparison -----

  function SortMembers(ms: seq<Member>): (r: seq<Member>)
    ensures |r| == |ms|
  {
    JsonSort.SortList(ms, KeyOf)
  }

  lemma SortedElements(ms: seq<Member>)
    ensures multiset(SortMembers(ms)) == multiset(ms)
    ensures forall m :: m in SortMembers(ms) <==> m in ms
  {
    JsonSort.SortPermutes(ms, KeyOf);
    JsonSort.SameElements(SortMembers(ms), ms);
  }

  /** `cJSONUtils_Compare`: zero means equal; the codes name the first
    * difference met. */
  function Compare(a: Json, b: Json): int
    decreases a, 1, 0
  {
    if !SameKind(a, b) then -1
    else match a
      case Number(i, d) => if i != b.valueint || d != b.valuedouble then -2 else 0
      case Str(t) => if StrCmp(t, b.text) != 0 then -3 else 0
      case Arr(items) => CompareItems(items, b.items)
      case Obj(ms, _) =>
        SortedElements(ms);
        CompareMembers(a, SortMembers(ms), SortMembers(b.members))
      case _ => 0
  }

  function CompareItems(a: seq<Json>, b: seq<Json>): int
    decreases a, 0, 0
  {
    if a == [] || b == [] then (if a == [] && b == [] then 0 else -4)
    else
      var err := Compare(a[0], b[0]);
      if err != 0 then err else CompareItems(a[1..], b[1..])
  }

  /** The walk down two sorted member lists; `owner` is the object whose members
    * `a` holds. */
  function CompareMembers(ghost owner: Json, a: seq<Member>, b: seq<Member>): int
    requires owner.Obj? && forall m :: m in a ==> m in owner.members
    decreases owner, 0, |a|
  {
    if a == [] || b == [] then (if a == [] && b == [] then 0 else -5)
    else if StrCaseCmp(a[0].key, b[0].key) != 0 then -6
    else
      assert a[0] in owner.members;
      var err := Compare(a[0].item, b[0].item);
      if err != 0 then err else CompareMembers(owner, a[1..], b[1..])
  }

  lemma {:induction false} CompareMembersZero(owner: Json, a: seq<Member>, b: seq<Member>)
    requires owner.Obj? && forall m :: m in a ==> m in owner.members
    requires forall i :: 0 <= i < |a| ==> IsCString(a[i].key)
    requires forall i :: 0 <= i < |b| ==> IsCString(b[i].key)
    ensures CompareMembers(owner, a, b) == 0 <==>
      (|a| == |b| && forall i :: 0 <= i < |a| ==> SameKey(a[i].key, b[i].key) && Compare(a[i].item, b[i].item) == 0)
    decreases |a|
  {
    if a != [] && b != [] {
      StrCaseCmpZero(a[0].key, b[0].key);
      var a', b' := a[1..], b[1..];
      CompareMembersZero(owner, a', b');
      assert forall i :: 0 < i < |a| ==> a[i] == a'[i-1];
      assert forall i :: 0 < i < |b| ==> b[i] == b'[i-1];
    }
  }

  lemma {:induction false} CompareItemsZero(a: seq<Json>, b: seq<Json>)
    ensures CompareItems(a, b) == 0 <==> (|a| == |b| && forall i :: 0 <= i < |a| ==> Compare(a[i], b[i]) == 0)
    decreases |a|
  {
    if a != [] && b != [] {
      var a', b' := a[1..], b[1..];
      CompareItemsZero(a', b');
      assert forall i :: 0 < i < |a| ==> a[i] == a'[i-1];
      assert forall i :: 0 < i < |b| ==> b[i] == b'[i-1];
    }
  }

  /** Sorted lists over the same distinct keys list them in the same order. */
  lemma {:induction false} SortedAgree(a: seq<Member>, b: seq<Member>)
    requires DistinctKeys(a) && DistinctKeys(b) && JsonSort.Keyed(a, KeyOf) && JsonSort.Keyed(b, KeyOf)
    requires JsonSort.Sorted(a, KeyOf) && JsonSort.Sorted(b, KeyOf)
    requires LowerKeys(a) == LowerKeys(b)
    ensures |a| == |b| && forall i :: 0 <= i < |a| ==> SameKey(a[i].key, b[i].key)
    decreases |a|
  {
    hide StrCaseCmp, IsCString, Lower;
    if b != [] { KeyInside(b, 0); }
    if a != [] {
      assert Lower(a[0].key) in LowerKeys(a);
      var j :| 0 <= j < |b| && SameKey(b[j].key, a[0].key);
      assert Lower(b[0].key) in LowerKeys(b);
      var i :| 0 <= i < |a| && SameKey(a[i].key, b[0].key);
      FirstKeysAgree(a, b, i, j);
      TailKeys(a);
      TailKeys(b);
      SortedAgree(a[1..], b[1..]);
      assert forall i :: 0 < i < |a| ==> a[i] == a[1..][i-1];
      assert forall i :: 0 < i < |b| ==> b[i] == b[1..][i-1];
    }
  }

  lemma FirstKeysAgree(a: seq<Member>, b: seq<Member>, i: nat, j: nat)
    requires JsonSort.Keyed(a, KeyOf) && JsonSort.Keyed(b, KeyOf)
    requires JsonSort.Sorted(a, KeyOf) && JsonSort.Sorted(b, KeyOf)
    requires i < |a| && j < |b| && SameKey(b[j].key, a[0].key) && SameKey(a[i].key, b[0].key)
    ensures SameKey(a[0].key, b[0].key)
  {
    var x, y := Lower(a[0].key), Lower(b[0].key);
    assert IsCString(KeyOf(a[0])) && IsCString(KeyOf(b[0]));
    LowerIsCString(a[0].key);
    LowerIsCString(b[0].key);
    StrCmpZero(x, y);
    StrCmpAntisymmetric(x, y);
    assert i > 0 ==> StrCaseCmp(KeyOf(a[0]), KeyOf(a[i])) <= 0;
    assert j > 0 ==> StrCaseCmp(KeyOf(b[0]), KeyOf(b[j])) <= 0;
  }

  lemma TailKeys(s: seq<Member>)
    requires s != [] && DistinctKeys(s)
    ensures LowerKeys(s[1..]) == LowerKeys(s) - {Lower(s[0].key)}
  {
    var t := s[1..];
    forall k | k in LowerKeys(s) - {Lower(s[0].key)} ensures k in LowerKeys(t) {
      var i :| 0 <= i < |s| && Lower(s[i].key) == k;
      assert t[i-1] == s[i];
    }
    forall k | k in LowerKeys(t) ensures k in LowerKeys(s) && k != Lower(s[0].key) {
      var i :| 0 <= i < |t| && Lower(t[i].key) == k;
      assert t[i] == s[i+1];
      assert !SameKey(s[0].key, s[i+1].key);
    }
  }

  /** What the codes say at the root: -1 for nodes of another kind, -2 for numbers, -3
    * for texts, -4 for arrays where one is the beginning of the other, -5 for objects
    * with members left over, -6 for a key that is missing. */
  lemma CompareCodes(a: Json, b: Json)
    requires WellFormed(a) && WellFormed(b)
    ensures Compare(a, b) == -1 ==> a.Arr? || a.Obj? || !SameKind(a, b)
    ensures !SameKind(a, b) ==> Compare(a, b) == -1
    ensures a.Number? && b.Number? ==>
      Compare(a, b) == if a.valueint == b.valueint && a.valuedouble == b.valuedouble then 0 else -2
    ensures a.Str? && b.Str? ==> Compare(a, b) == if a.text == b.text then 0 else -3
    ensures a.Arr? && b.Arr? && a.items == [] != b.items ==> Compare(a, b) == -4
    ensures a.Obj? && b.Obj? && a.members == [] != b.members ==> Compare(a, b) == -5
    ensures a.Obj? && b.Obj? && |a.members| == 1 == |b.members| && !SameKey(a.members[0].key, b.members[0].key) ==>
      Compare(a, b) == -6
  {
    hide StrCmp, StrCaseCmp, IsCString, Lower;
    if a.Str? && b.Str? { StrCmpZero(a.text, b.text); }
    if a.Obj? && b.Obj? && |a.members| == 1 == |b.members| {
      SortedElements(a.members);
      SortedElements(b.members);
      assert SortMembers(a.members)[0] in a.members && SortMembers(b.members)[0] in b.members;
      StrCaseCmpZero(a.members[0].key, b.members[0].key);
    }
  }

  /** `cJSONUtils_Compare` decides whether two documents mean the same. */
  lemma {:induction false} CompareDecidesMeaning(a: Json, b: Json)
    requires WellFormed(a) && WellFormed(b)
    ensures Compare(a, b) == 0 <==> Denote(a) == Denote(b)
    decreases a
  {
    if SameKind(a, b) {
      match a
      case Str(t) => StrCmpZero(t, b.text);
      case Arr(items) =>
        forall i | 0 <= i < |items| && i < |b.items|
          ensures Compare(items[i], b.items[i]) == 0 <==> Denote(items[i]) == Denote(b.items[i])
        {
          CompareDecidesMeaning(items[i], b.items[i]);
        }
        CompareItemsZero(items, b.items);
        ItemsEqual(items, b.items);
      case Obj(ms, _) =>
        CompareDecidesMembers(a, b);
      case _ =>
    }
  }

  lemma ItemsEqual(a: seq<Json>, b: seq<Json>)
    ensures DenoteItems(a) == DenoteItems(b) <==>
      (|a| == |b| && forall i :: 0 <= i < |a| ==> Denote(a[i]) == Denote(b[i]))
  {
    var x, y := DenoteItems(a), DenoteItems(b);
    assert forall i :: 0 <= i < |a| ==> x[i] == Denote(a[i]);
    assert forall i :: 0 <= i < |b| ==> y[i] == Denote(b[i]);
  }

  lemma {:induction false} CompareDecidesMembers(a: Json, b: Json)
    requires WellFormed(a) && WellFormed(b) && a.Obj? && b.Obj?
    ensures Compare(a, b) == 0 <==> Denote(a) == Denote(b)
    decreases a, 0
  {
    var A, B := SortMembers(a.members), SortMembers(b.members);
    SortedElements(a.members);
    SortedElements(b.members);
    JsonSort.SortSorts(a.members, KeyOf);
    JsonSort.SortSorts(b.members, KeyOf);
    PermutedMembers(a.members, A);
    PermutedMembers(b.members, B);
    CompareMembersZero(a, A, B);
    forall i | 0 <= i < |A| && i < |B|
      ensures Compare(A[i].item, B[i].item) == 0 <==> Denote(A[i].item) == Denote(B[i].item)
    {
      assert A[i] in a.members;
      CompareDecidesMeaning(A[i].item, B[i].item);
    }
    if Compare(a, b) == 0 {
      PairwiseSame(A, B);
    }
    if Denote(a) == Denote(b) {
      SortedAgree(A, B);
      forall i | 0 <= i < |A| ensures Denote(A[i].item) == Denote(B[i].item) {
        DenoteAt(A, i);
        DenoteAt(B, i);
      }
    }
  }

  lemma PairwiseSame(a: seq<Member>, b: seq<Member>)
    requires DistinctKeys(a) && DistinctKeys(b) && |a| == |b|
    requires forall i :: 0 <= i < |a| ==> SameKey(a[i].key, b[i].key) && Denote(a[i].item) == Denote(b[i].item)
    ensures DenoteMembers(a) == DenoteMembers(b)
  {
    forall k | k in LowerKeys(a) ensures k in LowerKeys(b) {
      var i :| 0 <= i < |a| && Lower(a[i].key) == k;
      assert Lower(b[i].key) == k;
    }
    forall k | k in LowerKeys(b) ensures k in LowerKeys(a) {
      var i :| 0 <= i < |b| && Lower(b[i].key) == k;
      assert Lower(a[i].key) == k;
    }
    forall i, j | 0 <= i < |a| && 0 <= j < |b| && SameKey(a[i].key, b[j].key)
      ensures Denote(a[i].item) == Denote(b[j].item)
    {
      IndexUnique(b, i, b[j].key);
      IndexUnique(b, j, b[j].key);
    }
    SameMembers(a, b);
  }
}
