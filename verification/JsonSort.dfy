/** The merge sort of `cJSONUtils_SortList` on sequences.  `SortList` makes the
  * same comparisons and splits as the C code; JsonNodes proves that the code
  * which rewires the linked list computes it. */
module JsonSort {
  import opened JsonText

  predicate Keyed<T>(s: seq<T>, key: T -> string) {
    forall i :: 0 <= i < |s| ==> IsCString(key(s[i]))
  }

  /** Two elements in the wrong order or with the same key never count as sorted. */
  predicate StrictlySorted<T>(s: seq<T>, key: T -> string) {
    forall i :: 0 <= i < |s| - 1 ==> StrCaseCmp(key(s[i]), key(s[i+1])) < 0
  }

  predicate Sorted<T>(s: seq<T>, key: T -> string) {
    forall i, j :: 0 <= i < j < |s| ==> StrCaseCmp(key(s[i]), key(s[j])) <= 0
  }

  function Merge<T>(first: seq<T>, second: seq<T>, key: T -> string): (r: seq<T>)
    ensures |r| == |first| + |second|
  {
    if first == [] then second
    else if second == [] then first
    else if StrCaseCmp(key(first[0]), key(second[0])) < 0 then [first[0]] + Merge(first[1..], second, key)
    else [second[0]] + Merge(first, second[1..], key)
  }

  function SortList<T>(s: seq<T>, key: T -> string): (r: seq<T>)
    ensures |r| == |s|
    decreases |s|
  {
    if |s| <= 1 || StrictlySorted(s, key) then s
    else
      var mid := (|s| + 1) / 2;
      Merge(SortList(s[..mid], key), SortList(s[mid..], key), key)
  }

  lemma {:induction false} MergePermutes<T>(first: seq<T>, second: seq<T>, key: T -> string)
    ensures multiset(Merge(first, second, key)) == multiset(first) + multiset(second)
    decreases |first| + |second|
  {
    if first != [] && second != [] {
      assert first == [first[0]] + first[1..] && second == [second[0]] + second[1..];
      if StrCaseCmp(key(first[0]), key(second[0])) < 0 {
        MergePermutes(first[1..], second, key);
      } else {
        MergePermutes(first, second[1..], key);
      }
    }
  }

  lemma {:induction false} SortPermutes<T>(s: seq<T>, key: T -> string)
    ensures multiset(SortList(s, key)) == multiset(s)
    decreases |s|
  {
    if |s| > 1 && !StrictlySorted(s, key) {
      var mid := (|s| + 1) / 2;
      var left, right := SortList(s[..mid], key), SortList(s[mid..], key);
      SortPermutes(s[..mid], key);
      SortPermutes(s[mid..], key);
      BothHalves(s, mid);
      MergePermutes(left, right, key);
    }
  }

  lemma BothHalves<T>(s: seq<T>, mid: nat)
    requires mid <= |s|
    ensures multiset(s) == multiset(s[..mid]) + multiset(s[mid..])
  {
    assert s[..mid] + s[mid..] == s;
  }

  lemma SameElements<T>(a: seq<T>, b: seq<T>)
    requires multiset(a) == multiset(b)
    ensures |a| == |b| && forall x :: x in a <==> x in b
  {
    assert |multiset(a)| == |a| && |multiset(b)| == |b|;
    assert forall x :: x in a <==> x in multiset(a);
    assert forall x :: x in b <==> x in multiset(b);
  }

  lemma KeyedTransfers<T>(a: seq<T>, b: seq<T>, key: T -> string)
    requires multiset(a) == multiset(b) && Keyed(a, key)
    ensures Keyed(b, key)
  {
    SameElements(a, b);
    forall i | 0 <= i < |b| ensures IsCString(key(b[i])) {
      assert b[i] in a;
    }
  }

  lemma OrderTransitive(a: string, b: string, c: string)
    requires IsCString(a) && IsCString(b) && IsCString(c)
    requires StrCaseCmp(a, b) <= 0 && StrCaseCmp(b, c) <= 0
    ensures StrCaseCmp(a, c) <= 0
    ensures StrCaseCmp(a, b) < 0 || StrCaseCmp(b, c) < 0 ==> StrCaseCmp(a, c) < 0
  {
    LowerIsCString(a);
    LowerIsCString(b);
    LowerIsCString(c);
    StrCmpTransitive(Lower(a), Lower(b), Lower(c));
  }

  /** Neighbours in order means everything in order. */
  lemma {:induction false} StrictlySortedPairs<T>(s: seq<T>, key: T -> string, i: nat, j: nat)
    requires Keyed(s, key) && StrictlySorted(s, key) && i < j < |s|
    ensures StrCaseCmp(key(s[i]), key(s[j])) < 0
    decreases j
  {
    if i + 1 < j {
      StrictlySortedPairs(s, key, i, j - 1);
      OrderTransitive(key(s[i]), key(s[j-1]), key(s[j]));
    }
  }

  /** `x` comes no later than any element of `s`. */
  predicate Before<T>(x: T, s: seq<T>, key: T -> string) {
    forall i :: 0 <= i < |s| ==> StrCaseCmp(key(x), key(s[i])) <= 0
  }

  lemma SortedCons<T>(x: T, s: seq<T>, key: T -> string)
    requires Sorted(s, key) && Before(x, s, key)
    ensures Sorted([x] + s, key)
  {
  }

  lemma BeforeByHead<T>(x: T, s: seq<T>, key: T -> string)
    requires IsCString(key(x)) && Keyed(s, key) && Sorted(s, key)
    requires s != [] ==> StrCaseCmp(key(x), key(s[0])) <= 0
    ensures Before(x, s, key)
  {
    forall i | 0 <= i < |s| ensures StrCaseCmp(key(x), key(s[i])) <= 0 {
      if i > 0 { OrderTransitive(key(x), key(s[0]), key(s[i])); }
    }
  }

  lemma BeforeMerge<T>(x: T, a: seq<T>, b: seq<T>, m: seq<T>, key: T -> string)
    requires Before(x, a, key) && Before(x, b, key) && multiset(m) == multiset(a) + multiset(b)
    ensures Before(x, m, key)
  {
    forall i | 0 <= i < |m| ensures StrCaseCmp(key(x), key(m[i])) <= 0 {
      assert m[i] in multiset(m);
      assert m[i] in a || m[i] in b;
    }
  }

  lemma {:induction false} MergeSorts<T>(first: seq<T>, second: seq<T>, key: T -> string)
    requires Keyed(first, key) && Keyed(second, key) && Sorted(first, key) && Sorted(second, key)
    ensures Sorted(Merge(first, second, key), key)
    decreases |first| + |second|
  {
    if first != [] && second != [] {
      StrCmpAntisymmetric(Lower(key(first[0])), Lower(key(second[0])));
      if StrCaseCmp(key(first[0]), key(second[0])) < 0 {
        MergeSorts(first[1..], second, key);
        MergePermutes(first[1..], second, key);
        BeforeByHead(first[0], second, key);
        BeforeMerge(first[0], first[1..], second, Merge(first[1..], second, key), key);
        SortedCons(first[0], Merge(first[1..], second, key), key);
      } else {
        MergeSorts(first, second[1..], key);
        MergePermutes(first, second[1..], key);
        BeforeByHead(second[0], first, key);
        BeforeMerge(second[0], first, second[1..], Merge(first, second[1..], key), key);
        SortedCons(second[0], Merge(first, second[1..], key), key);
      }
    }
  }

  /** The sort delivers a sorted permutation. */
  lemma {:induction false} SortSorts<T>(s: seq<T>, key: T -> string)
    requires Keyed(s, key)
    ensures multiset(SortList(s, key)) == multiset(s)
    ensures Sorted(SortList(s, key), key)
    decreases |s|
  {
    SortPermutes(s, key);
    if |s| > 1 {
      if StrictlySorted(s, key) {
        forall i, j | 0 <= i < j < |s| ensures StrCaseCmp(key(s[i]), key(s[j])) <= 0 {
          StrictlySortedPairs(s, key, i, j);
        }
      } else {
        var mid := (|s| + 1) / 2;
        SortSorts(s[..mid], key);
        SortSorts(s[mid..], key);
        KeyedTransfers(s[..mid], SortList(s[..mid], key), key);
        KeyedTransfers(s[mid..], SortList(s[mid..], key), key);
        MergeSorts(SortList(s[..mid], key), SortList(s[mid..], key), key);
      }
    }
  }
}
