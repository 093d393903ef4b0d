/** Lists of nodes and values. */
module Sequences {

  predicate Distinct<T(==)>(s: seq<T>) {
    forall i, j :: 0 <= i < j < |s| ==> s[i] != s[j]
  }

  function Inserted<T>(s: seq<T>, i: nat, x: T): seq<T>
    requires i <= |s|
  {
    s[..i] + [x] + s[i..]
  }

  function Without<T>(s: seq<T>, i: nat): seq<T>
    requires i < |s|
  {
    s[..i] + s[i+1..]
  }

  lemma InsertedDistinct<T>(s: seq<T>, i: nat, x: T)
    requires Distinct(s) && i <= |s| && x !in s
    ensures Distinct(Inserted(s, i, x)) && |Inserted(s, i, x)| == |s| + 1
    ensures forall k :: 0 <= k <= |s| ==> Inserted(s, i, x)[k] == if k < i then s[k] else if k == i then x else s[k-1]
  {
    var r := Inserted(s, i, x);
    assert forall k :: 0 <= k <= |s| ==> r[k] == if k < i then s[k] else if k == i then x else s[k-1];
  }

  lemma WithoutDistinct<T>(s: seq<T>, i: nat)
    requires Distinct(s) && i < |s|
    ensures Distinct(Without(s, i)) && s[i] !in Without(s, i) && |Without(s, i)| == |s| - 1
    ensures forall k :: 0 <= k < |Without(s, i)| ==> Without(s, i)[k] == s[if k < i then k else k + 1]
  {
    var r := Without(s, i);
    assert forall k :: 0 <= k < |r| ==> r[k] == s[if k < i then k else k + 1];
  }
}
