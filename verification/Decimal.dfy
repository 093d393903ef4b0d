/** Decimal numbers as text. */
module Decimal {

  predicate IsDigit(c: char) { '0' <= c <= '9' }

  function Digit(d: nat): char
    requires d < 10
  {
    ('0' as int + d) as char
  }

  /** "%d" for a value that is not negative. */
  function PrintNat(n: nat): (s: string)
    ensures s != "" && forall i :: 0 <= i < |s| ==> IsDigit(s[i])
  {
    if n < 10 then [Digit(n)] else PrintNat(n / 10) + [Digit(n % 10)]
  }

  /** Reads digits onto `acc` and hands back what follows them. */
  function ReadDigits(s: string, acc: nat): (nat, string) {
    if s != "" && IsDigit(s[0]) then ReadDigits(s[1..], 10 * acc + (s[0] as int - '0' as int))
    else (acc, s)
  }

  function Value(s: string): nat
    requires forall i :: 0 <= i < |s| ==> IsDigit(s[i])
  {
    if s == "" then 0
    else assert IsDigit(s[|s|-1]); 10 * Value(s[..|s|-1]) + (s[|s|-1] as int - '0' as int)
  }

  predicate NoDigit(rest: string) { rest == "" || !IsDigit(rest[0]) }

  lemma {:induction false} ReadDigitsOf(s: string, acc: nat, rest: string)
    requires forall i :: 0 <= i < |s| ==> IsDigit(s[i])
    ensures ReadDigits(s + rest, acc) == ReadDigits(rest, Power10(|s|) * acc + Value(s))
  {
    if s == "" {
      assert s + rest == rest;
    } else {
      var d := s[0] as int - '0' as int;
      assert (s + rest)[1..] == s[1..] + rest;
      ReadDigitsOf(s[1..], 10 * acc + d, rest);
      ValueCons(s);
      ShiftDigit(Power10(|s| - 1), acc, d);
    }
  }

  lemma ShiftDigit(p: nat, acc: nat, d: int)
    ensures p * (10 * acc + d) == (10 * p) * acc + d * p
  {
  }

  function Power10(n: nat): nat { if n == 0 then 1 else 10 * Power10(n - 1) }

  lemma {:induction false} ValueCons(s: string)
    requires s != "" && forall i :: 0 <= i < |s| ==> IsDigit(s[i])
    ensures Value(s) == (s[0] as int - '0' as int) * Power10(|s| - 1) + Value(s[1..])
  {
    if |s| > 1 {
      var front := s[..|s|-1];
      ValueCons(front);
      assert s[1..][..|s|-2] == front[1..];
      var d := s[0] as int - '0' as int;
      var p := Power10(|s| - 2);
      assert 10 * (d * p) == d * (10 * p);
    }
  }

  lemma {:induction false} ValueOfPrint(n: nat)
    ensures Value(PrintNat(n)) == n
  {
    if n >= 10 {
      ValueOfPrint(n / 10);
      assert PrintNat(n)[..|PrintNat(n)|-1] == PrintNat(n / 10);
    } else {
      assert [Digit(n)][..0] == "";
    }
  }

  /** Printing and reading back an index is the identity. */
  lemma ReadPrinted(n: nat, rest: string)
    requires NoDigit(rest)
    ensures ReadDigits(PrintNat(n) + rest, 0) == (n, rest)
  {
    ReadDigitsOf(PrintNat(n), 0, rest);
    ValueOfPrint(n);
  }

  predicate IsSpace(c: char) {
    c == ' ' || '\t' <= c <= '\r'
  }

  /** `atoi`: blanks, an optional sign, digits; 0 when there are none. */
  function Atoi(s: string): int {
    if s == "" then 0
    else if IsSpace(s[0]) then Atoi(s[1..])
    else if s[0] == '-' then -(ReadDigits(s[1..], 0).0 as int)
    else if s[0] == '+' then ReadDigits(s[1..], 0).0
    else ReadDigits(s, 0).0
  }

  lemma AtoiPrinted(n: nat)
    ensures Atoi(PrintNat(n)) == n
  {
    ReadPrinted(n, "");
    assert PrintNat(n) + "" == PrintNat(n);
    assert IsDigit(PrintNat(n)[0]);
  }
}
