/** Polynomials over the field with two elements, as the sets of their exponents. */
module Gf2 {

  type Poly = set<nat>

  function Add(p: Poly, q: Poly): Poly {
    (p - q) + (q - p)
  }

  function TimesX(p: Poly): Poly {
    set e | e in p :: e + 1
  }

  function TimesXs(p: Poly, k: nat): Poly {
    if k == 0 then p else TimesX(TimesXs(p, k - 1))
  }

  /** The product of `g` and the polynomial with the coefficients `q`, highest first. */
  function Product(q: seq<bool>, g: Poly): Poly {
    if q == [] then {}
    else
      var high := TimesX(Product(q[..|q|-1], g));
      if q[|q|-1] then Add(high, g) else high
  }

  /** `p` and `r` differ by a multiple of `g`. */
  ghost predicate Congruent(p: Poly, r: Poly, g: Poly) {
    exists q: seq<bool> :: p == Add(Product(q, g), r)
  }

  ghost predicate Short(r: Poly, n: nat) {
    forall e :: e in r ==> e < n
  }

  ghost predicate Degree(g: Poly, n: nat) {
    n in g && forall e :: e in g ==> e <= n
  }

  /** Division leaves `r`. */
  ghost predicate IsRemainder(p: Poly, r: Poly, g: Poly, n: nat) {
    Short(r, n) && Congruent(p, r, g)
  }

  lemma AddFacts(p: Poly, q: Poly, r: Poly)
    ensures Add(p, q) == Add(q, p)
    ensures Add(Add(p, q), r) == Add(p, Add(q, r))
    ensures Add(p, p) == {} && Add(p, {}) == p
    ensures TimesX(Add(p, q)) == Add(TimesX(p), TimesX(q))
  {
  }

  lemma ProductStep(q: seq<bool>, b: bool, g: Poly)
    ensures Product(q + [b], g) == if b then Add(TimesX(Product(q, g)), g) else TimesX(Product(q, g))
  {
    assert (q + [b])[..|q|] == q;
  }

  lemma CongruentSelf(p: Poly, g: Poly)
    ensures Congruent(p, p, g)
  {
    assert p == Add(Product([], g), p);
  }

  lemma CongruentTimesX(p: Poly, r: Poly, g: Poly)
    requires Congruent(p, r, g)
    ensures Congruent(TimesX(p), TimesX(r), g)
  {
    var q: seq<bool> :| p == Add(Product(q, g), r);
    ProductStep(q, false, g);
    AddFacts(Product(q, g), r, {});
    assert TimesX(p) == Add(Product(q + [false], g), TimesX(r));
  }

  lemma CongruentAdd(p: Poly, r: Poly, d: Poly, g: Poly)
    requires Congruent(p, r, g)
    ensures Congruent(Add(p, d), Add(r, d), g)
  {
    var q: seq<bool> :| p == Add(Product(q, g), r);
    AddFacts(Product(q, g), r, d);
    assert Add(p, d) == Add(Product(q, g), Add(r, d));
  }

  /** A divisor can be taken away from the remainder. */
  lemma CongruentReduce(p: Poly, r: Poly, g: Poly)
    requires Congruent(p, r, g)
    ensures Congruent(p, Add(r, g), g)
  {
    var q: seq<bool> :| p == Add(Product(q, g), r);
    var q' := FlipLast(q, g);
    AddFacts(Product(q, g), g, r);
    AddFacts(Product(q, g), g, Add(r, g));
    assert p == Add(Product(q', g), Add(r, g));
  }

  lemma FlipLast(q: seq<bool>, g: Poly) returns (q': seq<bool>)
    ensures Product(q', g) == Add(Product(q, g), g)
  {
    if q == [] {
      q' := [true];
      ProductStep([], true, g);
    } else {
      var high, last := q[..|q|-1], q[|q|-1];
      q' := high + [!last];
      ProductStep(high, !last, g);
      AddFacts(TimesX(Product(high, g)), g, g);
    }
  }

  lemma {:induction false} CongruentTimesXs(p: Poly, r: Poly, k: nat, g: Poly)
    requires Congruent(p, r, g)
    ensures Congruent(TimesXs(p, k), TimesXs(r, k), g)
  {
    if k > 0 {
      CongruentTimesXs(p, r, k - 1, g);
      CongruentTimesX(TimesXs(p, k - 1), TimesXs(r, k - 1), g);
    }
  }

  lemma {:induction false} TimesXsAt(p: Poly, k: nat, e: nat)
    ensures e in TimesXs(p, k) <==> e >= k && e - k in p
  {
    if k > 0 {
      if e > 0 { TimesXsAt(p, k - 1, e - 1); }
      assert e in TimesX(TimesXs(p, k - 1)) <==> e > 0 && e - 1 in TimesXs(p, k - 1);
    }
  }

  lemma {:induction false} TimesXsAdd(p: Poly, q: Poly, k: nat)
    ensures TimesXs(Add(p, q), k) == Add(TimesXs(p, k), TimesXs(q, k))
  {
    if k > 0 {
      TimesXsAdd(p, q, k - 1);
      AddFacts(TimesXs(p, k - 1), TimesXs(q, k - 1), {});
    }
  }

  lemma {:induction false} TimesXsSum(p: Poly, j: nat, k: nat)
    ensures TimesXs(TimesXs(p, j), k) == TimesXs(p, j + k)
  {
    if k > 0 { TimesXsSum(p, j, k - 1); }
  }

  lemma {:induction false} TimesXsZero(k: nat)
    ensures TimesXs({}, k) == {}
  {
    if k > 0 { TimesXsZero(k - 1); }
  }

  // ----- the remainder is unique -----

  /** A multiple of a divisor of degree `n` is zero or has a power from `n` on. */
  lemma {:induction false} NoShortMultiple(q: seq<bool>, g: Poly, n: nat)
    requires Degree(g, n) && Short(Product(q, g), n)
    ensures Product(q, g) == {}
    decreases |q|
  {
    if q != [] {
      var high := q[..|q|-1];
      var low := Product(high, g);
      forall e | e in low
        ensures e < n
      {
        HighStays(low, g, n, q[|q|-1], e);
      }
      NoShortMultiple(high, g, n);
      assert n in Product(q, g) <==> q[|q|-1];
    }
  }

  lemma HighStays(low: Poly, g: Poly, n: nat, last: bool, e: nat)
    requires Degree(g, n) && e in low
    ensures e >= n ==> e + 1 in if last then Add(TimesX(low), g) else TimesX(low)
  {
    assert e + 1 in TimesX(low);
  }

  lemma {:induction false} Pad(q: seq<bool>, g: Poly)
    ensures Product([false] + q, g) == Product(q, g)
    decreases |q|
  {
    if q == [] {
      ProductStep([], false, g);
    } else {
      var high, last := q[..|q|-1], q[|q|-1];
      Pad(high, g);
      assert [false] + q == ([false] + high) + [last];
      ProductStep([false] + high, last, g);
    }
  }

  /** The sum of two multiples is a multiple. */
  lemma {:induction false} ProductAdd(a: seq<bool>, b: seq<bool>, g: Poly) returns (c: seq<bool>)
    ensures Product(c, g) == Add(Product(a, g), Product(b, g))
    decreases |a| + |b|
  {
    if a == [] {
      c := b;
    } else if b == [] {
      c := a;
    } else {
      var high := ProductAdd(a[..|a|-1], b[..|b|-1], g);
      var x, y := a[|a|-1], b[|b|-1];
      c := high + [x != y];
      ProductStep(high, x != y, g);
      var p, q := Product(a[..|a|-1], g), Product(b[..|b|-1], g);
      AddFacts(p, q, {});
      Shuffle(TimesX(p), TimesX(q), g);
    }
  }

  lemma Shuffle(p: Poly, q: Poly, g: Poly)
    ensures Add(Add(p, g), Add(q, g)) == Add(p, q)
    ensures Add(Add(p, g), q) == Add(Add(p, q), g) == Add(p, Add(q, g))
  {
  }

  lemma RemainderIsUnique(p: Poly, r: Poly, r': Poly, g: Poly, n: nat)
    requires Degree(g, n) && IsRemainder(p, r, g, n) && IsRemainder(p, r', g, n)
    ensures r == r'
  {
    var a: seq<bool> :| p == Add(Product(a, g), r);
    var b: seq<bool> :| p == Add(Product(b, g), r');
    var c := ProductAdd(a, b, g);
    Cancel(Product(a, g), Product(b, g), r, r');
    NoShortMultiple(c, g, n);
  }

  lemma Cancel(p: Poly, q: Poly, r: Poly, r': Poly)
    requires Add(p, r) == Add(q, r')
    ensures Add(p, q) == Add(r, r')
    ensures Add(r, r') == {} ==> r == r'
  {
    forall e: nat
      ensures e in Add(p, q) <==> e in Add(r, r')
    {
      assert e in Add(p, r) <==> e in Add(q, r');
    }
  }

  lemma CongruentChain(p: Poly, r: Poly, r': Poly, g: Poly)
    requires Congruent(p, r, g) && Congruent(r, r', g)
    ensures Congruent(p, r', g)
  {
    var a: seq<bool> :| p == Add(Product(a, g), r);
    var b: seq<bool> :| r == Add(Product(b, g), r');
    var c := ProductAdd(a, b, g);
    AddFacts(Product(a, g), Product(b, g), r');
    assert p == Add(Product(c, g), r');
  }
}
