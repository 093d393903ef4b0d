/** JSON Pointer (RFC 6901): printing the pointer of a node and following it.
  *
  * A node is named by its location, the child positions on the way from the
  * root.  Locations play the part of node addresses: two nodes of a tree are the
  * same node exactly when their locations are equal. */
module JsonPointer {
  import opened Decimal
  import opened JsonText
  import opened JsonTree
  import opened Wrappers

  type Loc = seq<nat>

  function Kids(j: Json): seq<Json> {
    match j
    case Arr(items) => items
    case Obj(ms, _) => seq(|ms|, i requires 0 <= i < |ms| => ms[i].item)
    case _ => []
  }

  predicate ValidLoc(j: Json, loc: Loc) {
    loc == [] || (loc[0] < |Kids(j)| && ValidLoc(Kids(j)[loc[0]], loc[1..]))
  }

  function At(j: Json, loc: Loc): Json
    requires ValidLoc(j, loc)
    decreases |loc|
  {
    if loc == [] then j else At(Kids(j)[loc[0]], loc[1..])
  }

  function SetKid(j: Json, i: nat, v: Json): Json
    requires i < |Kids(j)|
  {
    match j
    case Arr(items) => Arr(items[i := v])
    case Obj(ms, stale) => Obj(ms[i := Member(ms[i].key, v)], stale)
  }

  /** The tree with the node at `loc` replaced. */
  function Put(j: Json, loc: Loc, v: Json): Json
    requires ValidLoc(j, loc)
    decreases |loc|
  {
    if loc == [] then v else SetKid(j, loc[0], Put(Kids(j)[loc[0]], loc[1..], v))
  }

  /** The first member whose key the token at the start of `q` names. */
  function FirstMatch(ms: seq<Member>, q: string): (r: nat)
    ensures r <= |ms|
    ensures r < |ms| ==> TokenMatches(ms[r].key, q)
    ensures forall i :: 0 <= i < r ==> !TokenMatches(ms[i].key, q)
  {
    if ms == [] || TokenMatches(ms[0].key, q) then 0 else 1 + FirstMatch(ms[1..], q)
  }

  lemma {:induction false} AfterTokenShrinks(p: string)
    ensures |AfterToken(p)| <= |p|
  {
    if !AtTokenEnd(p) { AfterTokenShrinks(p[1..]); }
  }

  lemma {:induction false} ReadDigitsShrinks(s: string, acc: nat)
    ensures |ReadDigits(s, acc).1| <= |s|
  {
    if s != "" && IsDigit(s[0]) {
      ReadDigitsShrinks(s[1..], 10 * acc + (s[0] as int - '0' as int));
    }
  }

  function Down(i: nat, rest: Option<Loc>): Option<Loc> {
    if rest.None? then None else Some([i] + rest.value)
  }

  /** `cJSONUtils_GetPointer`, answering where the node is.  Text that does not
    * begin with '/' ends the walk at the current node. */
  function GetPointer(j: Json, p: string): Option<Loc>
    decreases |p|
  {
    if p == "" || p[0] != '/' then Some([])
    else
      var q := p[1..];
      match j
      case Arr(items) =>
        ReadDigitsShrinks(q, 0);
        var (which, rest) := ReadDigits(q, 0);
        if !AtTokenEnd(rest) || which >= |items| then None
        else Down(which, GetPointer(items[which], rest))
      case Obj(ms, _) =>
        AfterTokenShrinks(q);
        var i := FirstMatch(ms, q);
        if i == |ms| then None else Down(i, GetPointer(ms[i].item, AfterToken(q)))
      case _ => None
  }

  lemma {:induction false} GetPointerValid(j: Json, p: string)
    ensures var r := GetPointer(j, p); r.Some? ==> ValidLoc(j, r.value)
    decreases |p|
  {
    if p != "" && p[0] == '/' {
      var q := p[1..];
      match j
      case Arr(items) =>
        ReadDigitsShrinks(q, 0);
        var (which, rest) := ReadDigits(q, 0);
        if which < |items| { GetPointerValid(items[which], rest); }
      case Obj(ms, _) =>
        AfterTokenShrinks(q);
        var i := FirstMatch(ms, q);
        if i < |ms| {
          GetPointerValid(ms[i].item, AfterToken(q));
          assert Kids(j)[i] == ms[i].item;
        }
      case _ =>
    }
  }

  // ----- printing -----

  /** One step of a pointer: the child's index, or its escaped key. */
  function Token(j: Json, i: nat): string
    requires i < |Kids(j)|
  {
    match j
    case Arr(_) => "/" + PrintNat(i)
    case Obj(ms, _) => "/" + Encode(ms[i].key)
  }

  /** `cJSONUtils_FindPointerFromObjectTo`: `here` is where `j` sits, and the
    * search compares node identities while it walks all the children. */
  function FindPointer(j: Json, here: Loc, target: Loc): Option<string>
    decreases j, 1, 0
  {
    if here == target then Some("") else FindBelow(j, here, target, 0)
  }

  function FindBelow(j: Json, here: Loc, target: Loc, c: nat): Option<string>
    requires c <= |Kids(j)|
    decreases j, 0, |Kids(j)| - c
  {
    if c == |Kids(j)| then None
    else
      var found := FindPointer(Kids(j)[c], here + [c], target);
      if found.Some? then Some(Token(j, c) + found.value)
      else FindBelow(j, here, target, c + 1)
  }

  /** The text the search should come back with. */
  function PointerOf(j: Json, loc: Loc): string
    requires ValidLoc(j, loc)
    decreases |loc|
  {
    if loc == [] then "" else Token(j, loc[0]) + PointerOf(Kids(j)[loc[0]], loc[1..])
  }

  ghost predicate Under(j: Json, here: Loc, target: Loc) {
    here <= target && ValidLoc(j, target[|here|..])
  }

  lemma {:induction false} FindPointerFinds(j: Json, here: Loc, target: Loc)
    ensures FindPointer(j, here, target) ==
      if Under(j, here, target) then Some(PointerOf(j, target[|here|..])) else None
    decreases j, 1, 0
  {
    if here == target {
      assert target[|here|..] == [];
    } else {
      FindBelowFinds(j, here, target, 0);
      assert here <= target ==> target[|here|..] != [];
    }
  }

  lemma {:induction false} FindBelowFinds(j: Json, here: Loc, target: Loc, c: nat)
    requires c <= |Kids(j)| && here != target
    ensures FindBelow(j, here, target, c) ==
      if Under(j, here, target) && c <= target[|here|] then Some(PointerOf(j, target[|here|..])) else None
    decreases j, 0, |Kids(j)| - c
  {
    assert here <= target ==> |here| < |target|;
    if c < |Kids(j)| {
      FindPointerFinds(Kids(j)[c], here + [c], target);
      FindBelowFinds(j, here, target, c + 1);
      if here <= target { OneFurther(here, target, c); }
    }
  }

  lemma OneFurther(here: Loc, target: Loc, c: nat)
    requires here <= target && |here| < |target|
    ensures target[|here|..][1..] == target[|here + [c]|..]
    ensures here + [c] <= target <==> target[|here|] == c
  {
    if target[|here|] == c { assert target == here + [c] + target[|here| + 1..]; }
  }

  lemma FirstMatchIsIndexOf(ms: seq<Member>, k: string, rest: string)
    requires AtTokenEnd(rest)
    ensures FirstMatch(ms, Encode(k) + rest) == IndexOf(ms, k)
  {
    var r, i := FirstMatch(ms, Encode(k) + rest), IndexOf(ms, k);
    if r < |ms| { TokenMatchesEncoded(ms[r].key, k, rest); }
    if i < |ms| { TokenMatchesEncoded(ms[i].key, k, rest); }
  }

  lemma IntoItem(items: seq<Json>, i: nat, rest: string)
    requires i < |items| && AtTokenEnd(rest)
    ensures GetPointer(Arr(items), "/" + PrintNat(i) + rest) == Down(i, GetPointer(items[i], rest))
  {
    hide PrintNat, ReadDigits, FirstMatch;
    var p := "/" + PrintNat(i) + rest;
    assert p[1..] == PrintNat(i) + rest;
    ReadPrinted(i, rest);
  }

  lemma IntoMember(ms: seq<Member>, stale: bool, k: string, rest: string)
    requires AtTokenEnd(rest)
    ensures GetPointer(Obj(ms, stale), "/" + Encode(k) + rest) ==
      var i := IndexOf(ms, k); if i == |ms| then None else Down(i, GetPointer(ms[i].item, rest))
  {
    hide Encode, AfterToken, TokenMatches, IndexOf, FirstMatch, ReadDigits;
    var p := "/" + Encode(k) + rest;
    assert p[1..] == Encode(k) + rest;
    FirstMatchIsIndexOf(ms, k, rest);
    AfterTokenEncoded(k, rest);
  }

  /** Following a printed token leads to the child it was printed for. */
  lemma StepBack(j: Json, i: nat, rest: string)
    requires WellFormed(j) && i < |Kids(j)| && AtTokenEnd(rest)
    ensures GetPointer(j, Token(j, i) + rest) == Down(i, GetPointer(Kids(j)[i], rest))
  {
    match j
    case Arr(items) =>
      IntoItem(items, i, rest);
    case Obj(ms, stale) =>
      IndexUnique(ms, i, ms[i].key);
      IntoMember(ms, stale, ms[i].key, rest);
  }

  lemma TokenBegins(j: Json, i: nat)
    requires i < |Kids(j)|
    ensures Token(j, i) != "" && Token(j, i)[0] == '/'
  {
  }

  lemma {:induction false} PointerOfResolves(j: Json, loc: Loc)
    requires WellFormed(j) && ValidLoc(j, loc)
    ensures GetPointer(j, PointerOf(j, loc)) == Some(loc)
    ensures AtTokenEnd(PointerOf(j, loc))
    decreases |loc|
  {
    hide Token, Encode, PrintNat, IndexOf;
    if loc != [] {
      var kid := Kids(j)[loc[0]];
      PointerOfResolves(kid, loc[1..]);
      StepBack(j, loc[0], PointerOf(kid, loc[1..]));
      TokenBegins(j, loc[0]);
      assert loc == [loc[0]] + loc[1..];
    }
  }

  /** Printing the pointer of any node and following it comes back to that very
    * node, whatever '~' and '/' its keys contain. */
  lemma FindThenGet(root: Json, target: Loc)
    requires WellFormed(root)
    ensures ValidLoc(root, target) <==> FindPointer(root, [], target).Some?
    ensures ValidLoc(root, target) ==>
      GetPointer(root, FindPointer(root, [], target).value) == Some(target)
  {
    FindPointerFinds(root, [], target);
    assert target[0..] == target;
    if ValidLoc(root, target) { PointerOfResolves(root, target); }
  }
}
