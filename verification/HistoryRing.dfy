/** The command history: a circular buffer of 256 bytes holding NUL-terminated lines,
  * and the proof that it is a list of the most recent lines. */
module HistoryRing {
  import opened Arithmetic

  const SIZE := 256
  const NUL: char := '\0'

  // ----- the lines the ring should hold -----

  predicate IsLine(l: string) {
    0 < |l| < SIZE && forall i :: 0 <= i < |l| ==> l[i] != NUL
  }

  predicate AreLines(lines: seq<string>) {
    forall i :: 0 <= i < |lines| ==> IsLine(lines[i])
  }

  /** The bytes some lines take, each with its terminator. */
  function Total(lines: seq<string>): nat {
    if lines == [] then 0 else Total(lines[..|lines|-1]) + |lines[|lines|-1]| + 1
  }

  /** The newest lines that fit the ring. */
  function Recent(all: seq<string>): seq<string>
    decreases |all|
  {
    if Total(all) <= SIZE then all else Recent(all[1..])
  }

  lemma {:induction false} TotalSum(a: seq<string>, b: seq<string>)
    ensures Total(a + b) == Total(a) + Total(b)
    decreases |b|
  {
    if b == [] {
      assert a + b == a;
    } else {
      TotalSum(a, b[..|b|-1]);
      assert (a + b)[..|a + b|-1] == a + b[..|b|-1];
    }
  }

  /** `Recent` is the longest end of the list that fits. */
  lemma {:induction false} RecentIsLongest(all: seq<string>, k: nat)
    requires k <= |all|
    ensures |Recent(all)| <= |all| && Recent(all) == all[|all| - |Recent(all)|..]
    ensures Total(Recent(all)) <= 256
    ensures Total(all[k..]) <= 256 <==> |all| - k <= |Recent(all)|
    decreases |all|
  {
    if Total(all) <= SIZE {
      NoMore(all, k);
    } else {
      assert all != [];
      hide Total;
      if k == 0 {
        assert all[0..] == all;
        RecentIsLongest(all[1..], 0);
      } else {
        assert all[k..] == all[1..][k-1..];
        RecentIsLongest(all[1..], k - 1);
      }
    }
  }

  lemma NoMore(all: seq<string>, k: nat)
    requires k <= |all|
    ensures Total(all[k..]) <= Total(all)
  {
    hide Total;
    assert all[..k] + all[k..] == all;
    TotalSum(all[..k], all[k..]);
  }

  /** Only the lines kept matter for what is kept next. */
  lemma {:induction false} RecentStep(all: seq<string>, line: string)
    ensures Recent(all + [line]) == Recent(Recent(all) + [line])
    decreases |all|
  {
    TotalSum(all, [line]);
    if Total(all) > SIZE {
      assert (all + [line])[1..] == all[1..] + [line];
      RecentStep(all[1..], line);
    }
  }

  lemma RecentNonEmpty(lines: seq<string>, line: string)
    requires IsLine(line)
    ensures Recent(lines + [line]) != []
  {
    TotalOne(line);
    assert (lines + [line])[|lines|..] == [line];
    RecentIsLongest(lines + [line], |lines|);
  }

  // ----- where the lines are -----

  function Wrap(x: int): (i: int)
    ensures 0 <= i < SIZE
    ensures 0 <= x < SIZE ==> i == x
  {
    x % SIZE
  }

  /** The byte `x` steps after `from`, going round. */
  function At(h: seq<char>, from: int, x: int): char
    requires |h| == SIZE
  {
    h[Wrap(from + x)]
  }

  lemma AtFrom(h: seq<char>, from: int, x: int, y: int)
    requires |h| == SIZE
    ensures At(h, Wrap(from + x), y) == At(h, from, x + y)
    ensures At(h, from, x) == At(h, from, x - SIZE)
  {
    WrapOn(from + x, y);
    Rounds(from + x, -1);
    hide Wrap;
    assert from + x + y == from + (x + y) && from + x - SIZE == from + (x - SIZE);
  }

  lemma Here(h: seq<char>, from: int, x: int)
    requires |h| == SIZE
    ensures At(h, from, x) == h[Wrap(from + x)]
  {
  }

  lemma Step(from: int, x: int)
    ensures (Wrap(from + x) + 1) % SIZE == Wrap(from + x + 1)
    ensures (Wrap(from + x) - 1 + SIZE) % SIZE == Wrap(from + x - 1)
  {
    WrapOn(from + x, 1);
    WrapOn(from + x, SIZE - 1);
    Rounds(from + x - 1, 1);
  }

  lemma Minus(x: int, y: int)
    ensures Wrap(Wrap(x) - y) == Wrap(x - y)
    ensures Wrap(x - SIZE) == Wrap(x) == Wrap(x + SIZE)
  {
    WrapOn(x, -y);
    Rounds(x, 1);
    Rounds(x, -1);
  }

  lemma WrapOn(x: int, y: int)
    ensures Wrap(Wrap(x) + y) == Wrap(x + y)
  {
    Rounds(x + y, -(x / SIZE));
    assert Wrap(x) + y == x + y + SIZE * -(x / SIZE);
  }

  lemma Rounds(x: int, k: int)
    ensures Wrap(x + SIZE * k) == Wrap(x)
  {
    var q, q' := x / SIZE, (x + SIZE * k) / SIZE;
    assert x == SIZE * q + Wrap(x);
    assert x + SIZE * k == SIZE * q' + Wrap(x + SIZE * k);
  }

  lemma AllAround(x: int, d: int)
    requires 1 <= d <= SIZE
    ensures Wrap(Wrap(x) - d) == Wrap(x) <==> d == SIZE
    ensures Wrap(x - d) == Wrap(x) <==> d == SIZE
  {
  }

  lemma AtUpdate(h: seq<char>, h': seq<char>, from: int, x: int, c: char)
    requires |h| == SIZE && 0 <= x < SIZE && h' == h[Wrap(from + x) := c]
    ensures forall y :: 0 <= y < SIZE ==> At(h', from, y) == if y == x then c else At(h, from, y)
  {
    forall y | 0 <= y < SIZE
      ensures At(h', from, y) == if y == x then c else At(h, from, y)
    {
      assert y != x ==> Wrap(from + y) != Wrap(from + x);
    }
  }

  predicate Nuls(h: seq<char>, from: int, lo: int, hi: int)
    requires |h| == SIZE
  {
    forall x :: lo <= x < hi ==> At(h, from, x) == NUL
  }

  predicate Placed(h: seq<char>, from: int, lo: int, line: string)
    requires |h| == SIZE
  {
    && (forall x :: lo <= x < lo + |line| ==> At(h, from, x) == line[x - lo])
    && At(h, from, lo + |line|) == NUL
  }

  /** Where line `p` starts, counted from the write position. */
  function Start(lines: seq<string>, p: nat): int
    requires p <= |lines|
  {
    SIZE - Total(lines) + Total(lines[..p])
  }

  /** From the write position: unused NULs, then the lines from old to new up to the
    * write position again. */
  ghost predicate Layout(h: seq<char>, cur: int, lines: seq<string>) {
    && |h| == SIZE && Total(lines) <= SIZE
    && Nuls(h, cur, 0, SIZE - Total(lines))
    && forall p :: 0 <= p < |lines| ==> Placed(h, cur, Start(lines, p), lines[p])
  }

  lemma StartNext(lines: seq<string>, p: nat)
    requires p < |lines|
    ensures Start(lines, p + 1) == Start(lines, p) + |lines[p]| + 1
    ensures Start(lines, |lines|) == SIZE
    ensures Start(lines, p + 1) <= SIZE
    ensures Start(lines, 0) == SIZE - Total(lines)
  {
    assert lines[..p+1][..p] == lines[..p];
    assert lines[..|lines|] == lines;
    TotalSum(lines[..p+1], lines[p+1..]);
    assert lines[..p+1] + lines[p+1..] == lines;
  }

  // ----- going back and forth -----

  function Older(m: nat, p: nat): nat
    requires p < m
  {
    if p > 0 then p - 1 else m - 1
  }

  function Newer(m: nat, p: nat): nat
    requires p < m
  {
    if p + 1 < m then p + 1 else 0
  }

  /** Where the terminator of the line before line `p` is; before the oldest line
    * that is just before the write position. */
  function EndBefore(lines: seq<string>, p: nat): int
    requires p < |lines|
  {
    if p > 0 then Start(lines, p) - 1 else -1
  }

  /** What going back from line `p` meets: NULs, then the older line backwards, then
    * a NUL. */
  lemma Before(h: seq<char>, cur: int, lines: seq<string>, p: nat)
    requires Layout(h, cur, lines) && AreLines(lines) && p < |lines|
    ensures var e, q := EndBefore(lines, p), Older(|lines|, p);
      var s := e - |lines[q]|;
      && Nuls(h, cur, e, Start(lines, p))
      && (forall x :: s <= x < e ==> At(h, cur, x) != NUL)
      && At(h, cur, s - 1) == NUL
      && Wrap(cur + s) == Wrap(cur + Start(lines, q))
  {
    hide At, Wrap, Total;
    var e, q := EndBefore(lines, p), Older(|lines|, p);
    var s := e - |lines[q]|;
    StartNext(lines, p);
    StartNext(lines, q);
    LineBack(h, cur, lines, q, if p > 0 then 0 else SIZE);
    NulBefore(h, cur, lines, q);
    if p == 0 {
      AtFrom(h, cur, s - 1 + SIZE, 0);
    }
  }

  /** Line `q` as seen going back `shift` steps less. */
  lemma LineBack(h: seq<char>, cur: int, lines: seq<string>, q: nat, shift: int)
    requires Layout(h, cur, lines) && AreLines(lines) && q < |lines| && (shift == 0 || shift == SIZE)
    ensures forall x :: Start(lines, q) - shift <= x < Start(lines, q) - shift + |lines[q]| ==> At(h, cur, x) != NUL
    ensures At(h, cur, Start(lines, q) - shift + |lines[q]|) == NUL
    ensures Wrap(cur + Start(lines, q) - shift) == Wrap(cur + Start(lines, q))
  {
    hide At, Wrap, Total;
    var s, l := Start(lines, q), lines[q];
    Minus(cur + s, 0);
    assert Placed(h, cur, s, l);
    forall x | s - shift <= x < s - shift + |l|
      ensures At(h, cur, x) != NUL
    {
      AtFrom(h, cur, x + shift, 0);
      assert At(h, cur, x + shift) == l[x + shift - s];
    }
    AtFrom(h, cur, s + |l|, 0);
  }

  /** A line is preceded by a NUL, the oldest one by an unused byte or by the newest
    * line's terminator. */
  lemma NulBefore(h: seq<char>, cur: int, lines: seq<string>, q: nat)
    requires Layout(h, cur, lines) && q < |lines|
    ensures At(h, cur, Start(lines, q) - 1) == NUL
  {
    hide At, Wrap, Total;
    StartNext(lines, q);
    assert q == 0 ==> lines[..q] == lines[..0];
    if q > 0 {
      StartNext(lines, q - 1);
      assert Placed(h, cur, Start(lines, q - 1), lines[q - 1]);
    } else if Start(lines, 0) == 0 {
      StartNext(lines, |lines| - 1);
      assert Placed(h, cur, Start(lines, |lines| - 1), lines[|lines| - 1]);
      AtFrom(h, cur, SIZE - 1, 0);
    }
  }

  /** What going forward from line `p` meets: its text, NULs, and then the first
    * character of the newer line. */
  lemma After(h: seq<char>, cur: int, lines: seq<string>, p: nat)
    requires Layout(h, cur, lines) && AreLines(lines) && p < |lines|
    ensures var f, q := Start(lines, p) + |lines[p]|, Newer(|lines|, p);
      var n := if p + 1 < |lines| then Start(lines, q) else Start(lines, q) + SIZE;
      && f < n && Nuls(h, cur, f, n) && At(h, cur, n) != NUL
      && Wrap(cur + n) == Wrap(cur + Start(lines, q))
  {
    hide At, Wrap, Total;
    var f, q := Start(lines, p) + |lines[p]|, Newer(|lines|, p);
    StartNext(lines, p);
    StartNext(lines, q);
    assert Placed(h, cur, Start(lines, p), lines[p]);
    LineBack(h, cur, lines, q, 0);
    if p + 1 == |lines| {
      assert lines[..0] == lines[..q];
      Minus(cur + Start(lines, 0), 0);
      AtFrom(h, cur, Start(lines, 0) + SIZE, 0);
      forall x | f <= x < SIZE + Start(lines, 0)
        ensures At(h, cur, x) == NUL
      {
        AtFrom(h, cur, x, 0);
      }
    }
  }

  /** The line picked after `k` times up, right after a line was entered. */
  function Ups(m: nat, k: nat): nat
    requires m > 0
    ensures Ups(m, k) < m
  {
    if k == 0 then m - 1 else Older(m, Ups(m, k - 1))
  }

  lemma UpsOn(m: nat, k: nat)
    requires m > 0
    ensures Ups(m, k + 1) == if Ups(m, k) > 0 then Ups(m, k) - 1 else m - 1
  {
  }

  /** Going up goes through the `m` recent lines from the newest to the oldest, over
    * and over. */
  lemma {:induction false} UpsGoRound(m: nat, k: nat)
    requires m > 0
    ensures Ups(m, k) == m - 1 - k % m
    decreases k
  {
    if k == 0 {
      DivMod(0, m, 0, 0);
    } else {
      UpsGoRound(m, k - 1);
      NextRemainder(k, m);
    }
  }

  lemma NextRemainder(k: nat, m: nat)
    requires 0 < m && 0 < k
    ensures k % m == if (k - 1) % m == m - 1 then 0 else (k - 1) % m + 1
  {
    var q, r := (k - 1) / m, (k - 1) % m;
    assert k - 1 == q * m + r;
    if r == m - 1 {
      assert (q + 1) * m == q * m + m;
      DivMod(k, m, q + 1, 0);
    } else {
      DivMod(k, m, q, r + 1);
    }
  }

  // ----- entering a line -----

  /** Entering `line` costs the oldest lines, `k` of them: the others stay where they
    * are, and the last one lost reaches past the end of the new line's bytes, if only
    * by its terminator. */
  lemma Cut(lines: seq<string>, line: string, k: nat)
    requires Total(lines) <= SIZE && IsLine(line)
    requires k == |lines| + 1 - |Recent(lines + [line])|
    ensures k <= |lines| && Recent(lines + [line]) == lines[k..] + [line]
    ensures Start(lines, k) == |line| + 1 + SIZE - Total(lines[k..] + [line])
    ensures Total(lines[k..] + [line]) <= SIZE
    ensures k > 0 ==> Start(lines, k - 1) <= |line|
  {
    RecentNonEmpty(lines, line);
    hide Recent, Total, IsLine, Start;
    RecentIsLongest(lines + [line], k);
    EndTotal(lines, line, k);
    if k > 0 {
      RecentIsLongest(lines + [line], k - 1);
      EndTotal(lines, line, k - 1);
    }
  }

  /** The bytes of the lines from line `k` on, with a new one. */
  lemma EndTotal(lines: seq<string>, line: string, k: nat)
    requires k <= |lines|
    ensures (lines + [line])[k..] == lines[k..] + [line]
    ensures Total(lines[k..] + [line]) == Total(lines) - Total(lines[..k]) + |line| + 1
    ensures Start(lines, k) == |line| + 1 + SIZE - Total(lines[k..] + [line])
  {
    hide Total;
    TailWith(lines, line, k);
    assert lines[..k] + lines[k..] == lines;
    TotalParts(lines[..k], lines[k..], line);
  }

  lemma TailWith(lines: seq<string>, line: string, k: nat)
    requires k <= |lines|
    ensures (lines + [line])[k..] == lines[k..] + [line]
  {
  }

  lemma TotalParts(front: seq<string>, back: seq<string>, line: string)
    ensures Total(back + [line]) == Total(front + back) - Total(front) + |line| + 1
  {
    hide Total;
    TotalOne(line);
    TotalSum(back, [line]);
    TotalSum(front, back);
  }

  lemma TotalOne(line: string)
    ensures Total([line]) == |line| + 1
  {
    assert [line][..0] == [];
  }

  /** What the bytes behind the new line hold before they are wiped: nothing, when the
    * byte its terminator replaces is a NUL; otherwise the rest of a line and that
    * line's terminator. */
  lemma Behind(h: seq<char>, cur: int, lines: seq<string>, line: string)
    requires Layout(h, cur, lines) && AreLines(lines) && IsLine(line)
    ensures var c, free := |line| + 1, SIZE - Total(Recent(lines + [line]));
      && 0 <= free <= SIZE - c
      && if At(h, cur, c - 1) == NUL then Nuls(h, cur, c, c + free)
         else
           && free > 0 && At(h, cur, c + free - 1) == NUL
           && (forall x :: c <= x < c + free - 1 ==> At(h, cur, x) != NUL)
  {
    hide At, Wrap, Total;
    var k := |lines| + 1 - |Recent(lines + [line])|;
    RecentIsLongest(lines + [line], 0);
    Cut(lines, line, k);
    var c, free := |line| + 1, SIZE - Total(Recent(lines + [line]));
    if k == 0 {
      StartNextOrEnd(lines, 0);
    } else {
      StartNext(lines, k - 1);
      assert Placed(h, cur, Start(lines, k - 1), lines[k-1]);
      assert forall x :: Start(lines, k - 1) <= x < Start(lines, k - 1) + |lines[k-1]| ==>
        At(h, cur, x) == lines[k-1][x - Start(lines, k - 1)];
    }
  }

  lemma StartNextOrEnd(lines: seq<string>, k: nat)
    requires k <= |lines|
    ensures Start(lines, 0) == SIZE - Total(lines)
    ensures Total(lines) <= SIZE ==> Start(lines, k) <= SIZE
  {
    assert lines[..0] == [];
    if k > 0 { StartNext(lines, k - 1); }
  }

  /** With the line written, the bytes behind it up to the oldest line kept wiped, and
    * the rest as before, the ring holds the recent lines. */
  lemma Entered(h: seq<char>, h': seq<char>, cur: int, lines: seq<string>, line: string)
    requires Layout(h, cur, lines) && AreLines(lines) && IsLine(line) && |h'| == SIZE
    requires Placed(h', cur, 0, line)
    requires var c, free := |line| + 1, SIZE - Total(Recent(lines + [line]));
      && Nuls(h', cur, c, c + free)
      && forall x :: c + free <= x < SIZE ==> At(h', cur, x) == At(h, cur, x)
    ensures Layout(h', Wrap(cur + |line| + 1), Recent(lines + [line]))
  {
    hide At, Wrap, Total, Recent, Start, Placed;
    var c, lines' := |line| + 1, Recent(lines + [line]);
    var k, cur' := |lines| + 1 - |lines'|, Wrap(cur + c);
    RecentIsLongest(lines + [line], 0);
    Cut(lines, line, k);
    forall x | 0 <= x < SIZE - Total(lines')
      ensures At(h', cur', x) == NUL
    {
      AtFrom(h', cur, c, x);
    }
    forall p | 0 <= p < |lines'|
      ensures Placed(h', cur', Start(lines', p), lines'[p])
    {
      EnteredLine(h, h', cur, lines, line, k, p);
    }
  }

  /** One line of those kept, or the new one, seen from the new write position. */
  lemma EnteredLine(h: seq<char>, h': seq<char>, cur: int, lines: seq<string>, line: string, k: nat, p: nat)
    requires Layout(h, cur, lines) && |h'| == SIZE && Placed(h', cur, 0, line)
    requires k <= |lines| && p <= |lines| - k
    requires Start(lines, k) == |line| + 1 + SIZE - Total(lines[k..] + [line])
    requires forall x :: |line| + 1 + SIZE - Total(lines[k..] + [line]) <= x < SIZE ==> At(h', cur, x) == At(h, cur, x)
    ensures var lines' := lines[k..] + [line];
      Placed(h', Wrap(cur + |line| + 1), Start(lines', p), lines'[p])
  {
    hide At, Wrap, Total;
    var c, lines' := |line| + 1, lines[k..] + [line];
    KeptStart(lines, line, k, p);
    if p < |lines| - k {
      StartNext(lines, k + p);
      hide Start;
      OldLine(h, h', cur, c, Start(lines', p), c + SIZE - Total(lines'), lines[k + p]);
    } else {
      hide Start;
      Around(h', cur, line);
      Moved(h', h', cur, c, Start(lines', p), line);
    }
  }

  /** A line of the part that was not touched stays where it is. */
  lemma OldLine(h: seq<char>, h': seq<char>, cur: int, c: int, lo: int, kept: int, line: string)
    requires |h| == |h'| == SIZE && Placed(h, cur, c + lo, line)
    requires forall x :: kept <= x < SIZE ==> At(h', cur, x) == At(h, cur, x)
    requires kept <= c + lo && c + lo + |line| < SIZE
    ensures Placed(h', Wrap(cur + c), lo, line)
  {
    hide At, Wrap;
    Moved(h, h', cur, c, lo, line);
  }

  /** The new line seen after a whole round. */
  lemma Around(h: seq<char>, cur: int, line: string)
    requires |h| == SIZE && Placed(h, cur, 0, line)
    ensures Placed(h, cur, SIZE, line)
  {
    hide At, Wrap;
    forall x | SIZE <= x <= SIZE + |line|
      ensures At(h, cur, x) == if x < SIZE + |line| then line[x - SIZE] else NUL
    {
      AtFrom(h, cur, x, 0);
      assert At(h, cur, x - SIZE) == At(h, cur, x);
    }
  }

  /** A line that was not touched, counted from `c` bytes further. */
  lemma Moved(h: seq<char>, h': seq<char>, cur: int, c: int, lo: int, line: string)
    requires |h| == |h'| == SIZE && Placed(h, cur, c + lo, line)
    requires forall x :: c + lo <= x <= c + lo + |line| ==> At(h', cur, x) == At(h, cur, x)
    ensures Placed(h', Wrap(cur + c), lo, line)
  {
    hide At, Wrap;
    var cur' := Wrap(cur + c);
    forall x | lo <= x <= lo + |line|
      ensures At(h', cur', x) == if x < lo + |line| then line[x - lo] else NUL
    {
      AtFrom(h', cur, c, x);
      assert At(h, cur, c + x) == At(h', cur, c + x);
    }
  }

  /** The lines kept start where they did, counted from the old write position; the new
    * one starts there. */
  lemma KeptStart(lines: seq<string>, line: string, k: nat, p: nat)
    requires k <= |lines| && p <= |lines| - k
    requires Start(lines, k) == |line| + 1 + SIZE - Total(lines[k..] + [line])
    ensures var lines' := lines[k..] + [line];
      Start(lines', p) + |line| + 1 == if p < |lines| - k then Start(lines, k + p) else SIZE
    ensures p < |lines| - k ==> |line| + 1 + SIZE - Total(lines[k..] + [line]) <= Start(lines, k + p)
  {
    var lines' := lines[k..] + [line];
    assert lines'[..p] == lines[k..k+p];
    TotalSum(lines[..k], lines[k..k+p]);
    assert lines[..k] + lines[k..k+p] == lines[..k+p];
    StartNextOrEnd(lines, 0);
    assert lines[..|lines|] == lines;
  }

  // ----- the buffer -----

  class History {
    const history: array<char>
    var his_idx: int
    var his_cur: int
    ghost var entered: seq<string>   // every line entered so far, oldest first
    ghost var pick: nat              // the recent line that is shown next

    ghost predicate Valid()
      reads this, history
    {
      && history.Length == SIZE && 0 <= his_cur < SIZE && 0 <= his_idx < SIZE
      && AreLines(entered)
      && Layout(history[..], his_cur, Recent(entered))
      && (entered != [] ==>
            && pick < |Recent(entered)|
            && his_idx == Wrap(his_cur + Start(Recent(entered), pick)))
    }

    constructor ()
      ensures Valid() && entered == []
    {
      history := new char[SIZE](_ => NUL);
      his_idx, his_cur, entered, pick := 0, 0, [], 0;
    }

    /** `strncpy(&history[at], src, n)` for at most the characters and the terminator. */
    method Strncpy(at: int, src: string, n: nat)
      requires 0 <= at && at + n <= history.Length && n <= |src|
      modifies history
      ensures forall i :: 0 <= i < history.Length ==>
        history[i] == if at <= i < at + n then src[i - at] else old(history[i])
    {
      var i := 0;
      while i < n
        invariant 0 <= i <= n
        invariant forall j :: 0 <= j < history.Length ==>
          history[j] == if at <= j < at + i then src[j - at] else old(history[j])
      {
        history[at + i] := src[i];
        i := i + 1;
      }
    }

    /** The copying part of `cli_history_input`, in one piece or around the end. */
    method Store(inbuf: string, charnum: nat) returns (tmp_idx: int, lastchar: char)
      requires history.Length == SIZE && 0 <= his_cur < SIZE
      requires inbuf != [] && charnum == |inbuf| <= SIZE
      modifies history
      ensures tmp_idx == Wrap(his_cur + charnum - 1)
      ensures lastchar == At(old(history[..]), his_cur, charnum - 1)
      ensures forall x :: 0 <= x < SIZE ==>
        At(history[..], his_cur, x) == if x < charnum then inbuf[x] else At(old(history[..]), his_cur, x)
    {
      ghost var before := history[..];
      Here(before, his_cur, charnum - 1);
      var left_num := SIZE - his_cur;
      if left_num >= charnum {
        tmp_idx := his_cur + charnum - 1;
        lastchar := history[tmp_idx];
        Strncpy(his_cur, inbuf, charnum);
      } else {
        tmp_idx := (his_cur + charnum - 1) % SIZE;
        lastchar := history[tmp_idx];
        Strncpy(his_cur, inbuf, left_num);
        Strncpy(0, inbuf[left_num..], charnum - left_num);
      }
    }

    /** The wiping part: clears up to the next NUL, `count` bytes away. */
    method Wipe(at: int, ghost cur: int, ghost lo: int, ghost count: nat)
      requires history.Length == SIZE && at == Wrap(cur + lo)
      requires 0 <= lo && lo + count < SIZE
      requires forall x :: lo <= x < lo + count ==> At(history[..], cur, x) != NUL
      requires At(history[..], cur, lo + count) == NUL
      modifies history
      ensures Nuls(history[..], cur, lo, lo + count + 1)
      ensures forall x :: 0 <= x < SIZE && !(lo <= x <= lo + count) ==>
        At(history[..], cur, x) == At(old(history[..]), cur, x)
    {
      hide At, Wrap;
      var tmp_idx := at;
      ghost var t := 0;
      while history[tmp_idx] != NUL
        invariant 0 <= t <= count && tmp_idx == Wrap(cur + lo + t)
        invariant Nuls(history[..], cur, lo, lo + t)
        invariant forall x :: 0 <= x < SIZE && !(lo <= x < lo + t) ==>
          At(history[..], cur, x) == At(old(history[..]), cur, x)
        decreases count - t
      {
        Here(history[..], cur, lo + t);
        ghost var h := history[..];
        history[tmp_idx] := NUL;
        AtUpdate(h, history[..], cur, lo + t, NUL);
        Step(cur, lo + t);
        tmp_idx := (tmp_idx + 1) % SIZE;
        t := t + 1;
      }
      Here(history[..], cur, lo + t);
    }

    /** `cli_history_input`. */
    method HistoryInput(inbuf: string)
      requires Valid() && IsLine(inbuf)
      modifies this, history
      ensures Valid() && entered == old(entered) + [inbuf] && pick == |Recent(entered)| - 1
    {
      hide At, Wrap, Total, Recent, Layout, Start;
      ghost var lines, cur, before := Recent(entered), his_cur, history[..];
      assert Total(lines) <= SIZE by { RecentIsLongest(entered, 0); }
      RecentLines(entered);
      Behind(before, cur, lines, inbuf);
      RecentStep(entered, inbuf);
      RecentNonEmpty(lines, inbuf);
      var charnum := |inbuf| + 1;
      his_idx := his_cur;
      var tmp_idx, lastchar := Store(inbuf + [NUL], charnum);
      Step(cur, charnum - 1);
      assert Placed(history[..], cur, 0, inbuf);
      tmp_idx := (tmp_idx + 1) % SIZE;
      his_cur := tmp_idx;
      ghost var free := SIZE - Total(Recent(lines + [inbuf]));
      if lastchar != NUL {
        Wipe(tmp_idx, cur, charnum, free - 1);
      }
      Entered(before, history[..], cur, lines, inbuf);
      entered := entered + [inbuf];
      pick := |Recent(entered)| - 1;
      NewestStart(lines, inbuf, cur);
    }

    /** First loop of `cli_up_history`: back over NULs, at most once around. */
    method BackOverNuls() returns (index: int, ghost d: int)
      requires history.Length == SIZE && 0 <= his_idx < SIZE
      ensures 1 <= d <= SIZE && index == Wrap(his_idx - d)
      ensures Nuls(history[..], his_idx, 1 - d, 0)
      ensures d == SIZE || At(history[..], his_idx, -d) != NUL
    {
      hide At, Wrap;
      Step(his_idx, 0);
      index := (his_idx - 1 + SIZE) % SIZE;
      d := 1;
      Here(history[..], his_idx, -1);
      AllAround(his_idx, d);
      while history[index] == NUL && index != his_idx
        invariant 1 <= d <= SIZE && index == Wrap(his_idx - d)
        invariant Nuls(history[..], his_idx, 1 - d, 0)
        invariant history[index] == At(history[..], his_idx, -d)
        invariant index == his_idx <==> d == SIZE
        decreases SIZE - d
      {
        Step(his_idx, -d);
        index := (index - 1 + SIZE) % SIZE;
        d := d + 1;
        AllAround(his_idx, d);
        Here(history[..], his_idx, -d);
      }
    }

    /** Second loop of `cli_up_history`: back over a line to its first character. */
    method BackOverText(at: int, ghost n: int) returns (index: int)
      requires history.Length == SIZE && 0 <= at < SIZE && 0 <= n < SIZE
      requires forall x :: -n < x <= 0 ==> At(history[..], at, x) != NUL
      requires At(history[..], at, -n) == NUL
      ensures index == Wrap(at - n + 1)
    {
      hide At, Wrap;
      index := at;
      ghost var t: int := 0;
      Here(history[..], at, 0);
      while history[index] != NUL
        invariant 0 <= t <= n && index == Wrap(at - t)
        invariant history[index] == At(history[..], at, -t)
        decreases n - t
      {
        Step(at, -t);
        index := (index - 1 + SIZE) % SIZE;
        t := t + 1;
        Here(history[..], at, -t);
      }
      Step(at, -t);
      index := (index + 1) % SIZE;
    }

    /** Last loop of both: the line at `at`. */
    method ReadLine(at: int, ghost line: string) returns (inaddr: string)
      requires history.Length == SIZE && 0 <= at < SIZE
      requires Placed(history[..], at, 0, line) && forall i :: 0 <= i < |line| ==> line[i] != NUL
      ensures inaddr == line
    {
      hide At, Wrap;
      var lastindex := at;
      inaddr := "";
      Here(history[..], at, 0);
      while history[lastindex] != NUL
        invariant |inaddr| <= |line| && inaddr == line[..|inaddr|]
        invariant lastindex == Wrap(at + |inaddr|)
        invariant history[lastindex] == At(history[..], at, |inaddr|)
        decreases |line| - |inaddr|
      {
        Step(at, |inaddr|);
        inaddr := inaddr + [history[lastindex]];
        lastindex := (lastindex + 1) % SIZE;
        Here(history[..], at, |inaddr|);
      }
    }

    /** The part of `cli_up_history` that finds the older line. */
    method OlderStart() returns (index: int)
      requires Valid()
      ensures entered == [] ==> index == his_idx
      ensures entered != [] ==>
        var lines := Recent(entered); index == Wrap(his_cur + Start(lines, Older(|lines|, pick)))
    {
      hide At, Wrap, Total, Recent, Start;
      ghost var d;
      index, d := BackOverNuls();
      ghost var h, lines := history[..], Recent(entered);
      RecentIsLongest(entered, 0);
      RecentLines(entered);
      ghost var n := 0;
      if entered == [] {
        NoOlder(h, his_cur, his_idx, d);
      } else {
        BackDistance(h, his_cur, lines, pick, d);
        n := |lines[Older(|lines|, pick)]|;
      }
      if index != his_idx {
        index := BackOverText(index, n);
      }
    }

    /** `cli_up_history`: shows the line picked and picks the one before it. */
    method UpHistory() returns (inaddr: string)
      requires Valid()
      modifies this`his_idx, this`pick
      ensures Valid()
      ensures entered == [] ==> inaddr == ""
      ensures entered != [] ==> var lines := Recent(entered);
        inaddr == lines[old(pick)] && pick == if old(pick) > 0 then old(pick) - 1 else |lines| - 1
    {
      hide At, Wrap, Total, Recent, Start;
      ghost var line := Picked();
      var lastindex := his_idx;
      his_idx := OlderStart();
      if entered != [] {
        pick := Older(|Recent(entered)|, pick);
      }
      inaddr := ReadLine(lastindex, line);
    }

    /** Pressing the key `n` times right after a line was entered: time `k` shows the
      * `k`-th newest line that is left, counted from 0, and after the oldest one the
      * newest again. */
    method UpTimes(n: nat) returns (shown: seq<string>)
      requires Valid() && entered != [] && pick == |Recent(entered)| - 1
      modifies this`his_idx, this`pick
      ensures Valid() && |shown| == n
      ensures var lines := Recent(entered);
        forall k :: 0 <= k < n ==> shown[k] == lines[|lines| - 1 - k % |lines|]
    {
      hide Valid, Recent, Ups;
      ghost var lines := Recent(entered);
      assert lines != [] by { PickedInside(); }
      UpsGoRound(|lines|, 0);
      shown := [];
      while |shown| < n
        invariant Valid() && |shown| <= n && entered == old(entered) && pick == Ups(|lines|, |shown|)
        invariant forall k :: 0 <= k < |shown| ==> shown[k] == lines[|lines| - 1 - k % |lines|]
        decreases n - |shown|
      {
        UpsGoRound(|lines|, |shown|);
        UpsOn(|lines|, |shown|);
        var inaddr := UpHistory();
        shown := shown + [inaddr];
      }
    }

    lemma PickedInside()
      requires Valid() && entered != []
      ensures pick < |Recent(entered)|
    {
    }

    /** `cli_down_history`: shows the line picked and picks the one after it. */
    method DownHistory() returns (inaddr: string)
      requires Valid()
      modifies this`his_idx, this`pick
      ensures Valid()
      ensures entered == [] ==> inaddr == ""
      ensures entered != [] ==> var lines := Recent(entered);
        inaddr == lines[old(pick)] && pick == if old(pick) + 1 < |lines| then old(pick) + 1 else 0
    {
      hide At, Wrap, Total, Recent, Start;
      ghost var line := Picked();
      var lastindex := his_idx;
      his_idx := NewerStart();
      if entered != [] {
        pick := Newer(|Recent(entered)|, pick);
      }
      inaddr := ReadLine(lastindex, line);
    }

    /** The line that starts at `his_idx`; nothing when there is none. */
    lemma Picked() returns (line: string)
      requires Valid()
      ensures Placed(history[..], his_idx, 0, line) && forall i :: 0 <= i < |line| ==> line[i] != NUL
      ensures line == if entered == [] then "" else Recent(entered)[pick]
    {
      hide At, Wrap, Total, Start;
      var h, lines := history[..], Recent(entered);
      if entered == [] {
        line := "";
        RecentIsLongest(entered, 0);
        AllNul(h, his_cur, his_idx);
      } else {
        RecentLines(entered);
        line := lines[pick];
        var s := Start(lines, pick);
        assert Placed(h, his_cur, s, line);
        forall x | 0 <= x <= |line|
          ensures At(h, his_idx, x) == if x < |line| then line[x] else NUL
        {
          AtFrom(h, his_cur, s, x);
        }
      }
    }

    /** The part of `cli_down_history` that finds the newer line. */
    method NewerStart() returns (index: int)
      requires Valid()
      ensures entered == [] ==> index == his_idx
      ensures entered != [] ==>
        var lines := Recent(entered); index == Wrap(his_cur + Start(lines, Newer(|lines|, pick)))
    {
      hide At, Wrap, Total, Recent, Start;
      ghost var line := Picked();
      index := EndOfLine(his_idx, line);
      ghost var n := 0;
      ghost var h, lines := history[..], Recent(entered);
      if entered != [] {
        RecentLines(entered);
        n := Ahead(h, his_cur, lines, pick);
      }
      if index != his_idx {
        index := SkipNuls(index, n);
      }
    }

    /** First loop of `cli_down_history`: the terminator of the line at `his_idx`. */
    method EndOfLine(at: int, ghost line: string) returns (index: int)
      requires history.Length == SIZE && 0 <= at < SIZE
      requires Placed(history[..], at, 0, line) && forall i :: 0 <= i < |line| ==> line[i] != NUL
      ensures index == Wrap(at + |line|)
    {
      hide At, Wrap;
      index := at;
      ghost var t := 0;
      Here(history[..], at, 0);
      while history[index] != NUL
        invariant 0 <= t <= |line| && index == Wrap(at + t)
        invariant history[index] == At(history[..], at, t)
        decreases |line| - t
      {
        Step(at, t);
        index := (index + 1) % SIZE;
        t := t + 1;
        Here(history[..], at, t);
      }
    }

    /** Second loop of `cli_down_history`: over NULs to the next character, `n` away. */
    method SkipNuls(at: int, ghost n: nat) returns (index: int)
      requires history.Length == SIZE && 0 <= at < SIZE
      requires Nuls(history[..], at, 0, n) && At(history[..], at, n) != NUL
      ensures index == Wrap(at + n)
    {
      hide At, Wrap;
      index := at;
      ghost var t := 0;
      Here(history[..], at, 0);
      while history[index] == NUL
        invariant 0 <= t <= n && index == Wrap(at + t)
        invariant history[index] == At(history[..], at, t)
        decreases n - t
      {
        Step(at, t);
        index := (index + 1) % SIZE;
        t := t + 1;
        Here(history[..], at, t);
      }
    }
  }

  /** Without lines the way back leads all the way around. */
  lemma NoOlder(h: seq<char>, cur: int, from: int, d: int)
    requires Layout(h, cur, []) && 0 <= from < SIZE && 1 <= d <= SIZE
    requires d == SIZE || At(h, from, -d) != NUL
    ensures Wrap(from - d) == from
  {
    var y := Wrap(from - d - cur);
    WrapOn(from - d - cur, cur);
    assert At(h, cur, y) == At(h, from, -d);
    hide At, Wrap;
    AllAround(from, d);
    Minus(from, 0);
    assert Nuls(h, cur, 0, SIZE);
  }

  lemma AllNul(h: seq<char>, cur: int, from: int)
    requires Layout(h, cur, [])
    ensures forall x :: At(h, from, x) == NUL
  {
    forall x
      ensures At(h, from, x) == NUL
    {
      var y := Wrap(from + x - cur);
      assert At(h, cur, y) == At(h, from, x);
    }
  }

  /** From the terminator of line `p`, `n` steps over NULs lead to the newer line. */
  lemma Ahead(h: seq<char>, cur: int, lines: seq<string>, p: nat) returns (n: nat)
    requires Layout(h, cur, lines) && AreLines(lines) && p < |lines|
    ensures var from, q := Wrap(cur + Start(lines, p)), Newer(|lines|, p);
      var at := Wrap(from + |lines[p]|);
      && at != from
      && Nuls(h, at, 0, n) && At(h, at, n) != NUL
      && Wrap(at + n) == Wrap(cur + Start(lines, q))
  {
    hide At, Wrap, Total, Start, Placed;
    var f, q := Start(lines, p) + |lines[p]|, Newer(|lines|, p);
    After(h, cur, lines, p);
    var far := if p + 1 < |lines| then Start(lines, q) else Start(lines, q) + SIZE;
    n := far - f;
    Minus(cur + Start(lines, p), 0 - |lines[p]|);
    AllAround(cur + f, |lines[p]|);
    Minus(cur + f, 0 - n);
    var at := Wrap(cur + f);
    forall x | 0 <= x <= n
      ensures At(h, at, x) == At(h, cur, f + x)
    {
      AtFrom(h, cur, f, x);
    }
  }

  /** From the start of line `p`, `d` steps back over NULs lead to the end of the older
    * line's text; all the way around only when that is the line itself. */
  lemma BackDistance(h: seq<char>, cur: int, lines: seq<string>, p: nat, d: int)
    requires Layout(h, cur, lines) && AreLines(lines) && p < |lines| && 1 <= d <= SIZE
    requires var from := Wrap(cur + Start(lines, p));
      Nuls(h, from, 1 - d, 0) && (d == SIZE || At(h, from, -d) != NUL)
    ensures var from, q := Wrap(cur + Start(lines, p)), Older(|lines|, p);
      var at, n: int := Wrap(from - d), |lines[q]|;
      if at == from then q == p
      else
        && (forall x :: -n < x <= 0 ==> At(h, at, x) != NUL)
        && At(h, at, -n) == NUL
        && Wrap(at - n + 1) == Wrap(cur + Start(lines, q))
  {
    hide At, Wrap, Total, Start, Placed;
    var e, q := EndBefore(lines, p), Older(|lines|, p);
    var from, far := Wrap(cur + Start(lines, p)), Start(lines, p) - e + 1;
    Before(h, cur, lines, p);
    StartNext(lines, p);
    StartNext(lines, q);
    AtFrom(h, cur, Start(lines, p), 0 - d);
    AtFrom(h, cur, Start(lines, p), 0 - far);
    assert far <= SIZE;
    assert d == far;
    var at, n: int := Wrap(from - d), |lines[q]|;
    Minus(cur + Start(lines, p), far);
    if Wrap(from - d) == from {
      AllAround(cur + Start(lines, p), far);
      if |lines| > 1 { StartNext(lines, 0); StartNext(lines, 1); }
    } else {
      TextBack(h, cur, lines, p);
    }
  }

  /** The older line's text, going back from its last character. */
  lemma TextBack(h: seq<char>, cur: int, lines: seq<string>, p: nat)
    requires Layout(h, cur, lines) && AreLines(lines) && p < |lines|
    ensures var at, q := Wrap(cur + EndBefore(lines, p) - 1), Older(|lines|, p);
      var n: int := |lines[q]|;
      && (forall x :: -n < x <= 0 ==> At(h, at, x) != NUL)
      && At(h, at, -n) == NUL
      && Wrap(at - n + 1) == Wrap(cur + Start(lines, q))
  {
    hide At, Wrap, Total, Start;
    var e, q := EndBefore(lines, p), Older(|lines|, p);
    var at, n: int := Wrap(cur + e - 1), |lines[q]|;
    Before(h, cur, lines, p);
    Minus(cur + e - 1, n - 1);
    forall x | -n <= x <= 0
      ensures At(h, at, x) == At(h, cur, e - 1 + x)
    {
      AtFrom(h, cur, e - 1, x);
    }
  }

  /** The newest line starts where the write position was. */
  lemma NewestStart(lines: seq<string>, line: string, cur: int)
    requires Total(lines) <= SIZE && IsLine(line) && 0 <= cur < SIZE
    ensures var lines', next := Recent(lines + [line]), Wrap(cur + |line| + 1);
      lines' != [] && cur == Wrap(next + Start(lines', |lines'| - 1))
  {
    hide Wrap, Total, Recent, Start;
    RecentIsLongest(lines + [line], 0);
    Cut(lines, line, |lines| + 1 - |Recent(lines + [line])|);
    var lines' := Recent(lines + [line]);
    StartNext(lines', |lines'| - 1);
    var c := |line| + 1;
    assert Start(lines', |lines'| - 1) == SIZE - c;
    Minus(cur + c, c - SIZE);
    Minus(cur, 0);
  }

  lemma RecentLines(all: seq<string>)
    requires AreLines(all)
    ensures AreLines(Recent(all))
  {
    RecentIsLongest(all, 0);
  }
}
