/** Why at most 255 threads may select: with 256 the 8-bit `select_waiting` goes
  * round to 0, and an event wakes nobody. */
module SelectOverflow {
  import opened SelectProof
  import opened SelectProtocol
  import opened Sequences
  import opened Wrappers

  // ----- states that can be reached -----

  ghost predicate Leads(s: State, s': State) {
    exists actions :: Execution(s, actions) && Final(s, actions) == s'
  }

  lemma LeadsNowhere(s: State)
    ensures Leads(s, s)
  {
    assert Execution(s, []) && Final(s, []) == s;
  }

  lemma LeadsOne(s: State, a: Action)
    requires Enabled(s, a)
    ensures Leads(s, Next(s, a))
  {
    var s', none := Next(s, a), [];
    assert [a][1..] == none;
    assert Execution(s', none) && Final(s', none) == s';
    assert Execution(s, [a]) && Final(s, [a]) == s';
  }

  lemma {:induction false} RunBoth(s: State, a: seq<Action>, b: seq<Action>)
    requires Execution(s, a) && Execution(Final(s, a), b)
    ensures Execution(s, a + b) && Final(s, a + b) == Final(Final(s, a), b)
    decreases |a|
  {
    hide Enabled, Next;
    if a == [] {
      assert a + b == b;
    } else {
      assert (a + b)[0] == a[0] && (a + b)[1..] == a[1..] + b;
      RunBoth(Next(s, a[0]), a[1..], b);
    }
  }

  lemma LeadsOn(s: State, s': State, s'': State)
    requires Leads(s, s') && Leads(s', s'')
    ensures Leads(s, s'')
  {
    var a :| Execution(s, a) && Final(s, a) == s';
    var b :| Execution(s', b) && Final(s', b) == s'';
    RunBoth(s, a, b);
  }

  lemma LeadsByOne(s: State, s': State, a: Action)
    requires Leads(s, s') && Enabled(s', a)
    ensures Leads(s, Next(s', a))
  {
    LeadsOne(s', a);
    LeadsOn(s, s', Next(s', a));
  }

  // ----- one select that waits for one socket -----

  /** A select that waits to read from socket `x`, in phase `p`. */
  function Reading(x: nat, p: Phase): Selector {
    Selector({x}, {}, {}, x + 1, Forever, p, false, 0, 0, NO_SETS, None)
  }

  function With(s: State, id: nat, c: Selector): State {
    s.(selectors := s.selectors[id := c])
  }

  predicate NothingToRead(s: State, x: nat) {
    x in s.socks && s.socks[x].rcvevent == 0 && !s.socks[x].held
  }

  function Scan(first: bool, i: nat): Phase {
    if first then FirstScan(i, 0) else SecondScan(i, 0)
  }

  lemma {:induction false} ScanLeads(s: State, id: nat, x: nat, first: bool, i: nat)
    requires NothingToRead(s, x) && i <= x + 1
    ensures Leads(With(s, id, Reading(x, Scan(first, i))), With(s, id, Reading(x, Scan(first, x + 1))))
    decreases x + 1 - i
  {
    var s1 := With(s, id, Reading(x, Scan(first, i)));
    if i == x + 1 {
      LeadsNowhere(s1);
    } else {
      var s2 := With(s, id, Reading(x, Scan(first, i + 1)));
      LeadsOne(s1, ASelect(id));
      assert ScanSets(s1, s1.selectors[id], i) == NO_SETS;
      assert Next(s1, ASelect(id)) == s2;
      ScanLeads(s, id, x, first, i + 1);
      LeadsOn(s1, s2, With(s, id, Reading(x, Scan(first, x + 1))));
    }
  }

  /** Raising `select_waiting` passes over the sockets before `x`. */
  lemma {:induction false} RaiseLeads(s: State, id: nat, x: nat, i: nat)
    requires NothingToRead(s, x) && i <= x
    ensures var w := (s.socks[x].waiting + 1) % 256;
      Leads(With(s, id, Reading(x, Raise(i))), SetWaiting(With(s, id, Reading(x, Raise(x + 1))), x, w))
    decreases x - i
  {
    var s1 := With(s, id, Reading(x, Raise(i)));
    LeadsOne(s1, ASelect(id));
    if i < x {
      var s2 := With(s, id, Reading(x, Raise(i + 1)));
      assert Next(s1, ASelect(id)) == s2;
      RaiseLeads(s, id, x, i + 1);
      LeadsOn(s1, s2, SetWaiting(With(s, id, Reading(x, Raise(x + 1))), x, (s.socks[x].waiting + 1) % 256));
    } else {
      assert Next(s1, ASelect(id))
        == SetWaiting(With(s, id, Reading(x, Raise(x + 1))), x, (s.socks[x].waiting + 1) % 256);
    }
  }

  /** The state once select `id` is parked as well. */
  function WithParked(s: State, id: nat, x: nat): State
    requires x in s.socks
  {
    With(s, id, Reading(x, Parked)).(
      list := [id] + s.list, ctr := s.ctr + 1,
      socks := s.socks[x := s.socks[x].(waiting := (s.socks[x].waiting + 1) % 256)])
  }

  /** A thread that calls select while there is nothing to read gets to wait. */
  lemma ParkLeads(s: State, id: nat, x: nat)
    requires NothingToRead(s, x) && id in s.selectors && s.selectors[id].phase.Idle?
    ensures Leads(s, WithParked(s, id, x))
  {
    LeadsOne(s, AStart(id, {x}, {}, {}, x + 1, Forever));
    assert Next(s, AStart(id, {x}, {}, {}, x + 1, Forever)) == With(s, id, Reading(x, FirstScan(0, 0)));
    ScanLeads(s, id, x, true, 0);
    LeadsOn(s, With(s, id, Reading(x, FirstScan(0, 0))), With(s, id, Reading(x, FirstScan(x + 1, 0))));
    var s1 := With(s, id, Reading(x, FirstScan(x + 1, 0)));
    LeadsByOne(s, s1, ASelect(id));
    EnlistLeads(s, id, x);
    assert Next(s1, ASelect(id)) == With(s, id, Reading(x, Enlist));
    LeadsOn(s, With(s, id, Reading(x, Enlist)), WithParked(s, id, x));
  }

  function Enlisted(s: State, id: nat): State {
    s.(list := [id] + s.list, ctr := s.ctr + 1)
  }

  lemma EnlistLeads(s: State, id: nat, x: nat)
    requires NothingToRead(s, x)
    ensures Leads(With(s, id, Reading(x, Enlist)), WithParked(s, id, x))
  {
    var s0, s1 := With(s, id, Reading(x, Enlist)), Enlisted(s, id);
    LeadsOne(s0, ASelect(id));
    assert Next(s0, ASelect(id)) == With(s1, id, Reading(x, Raise(0)));
    hide Leads, Next, Enabled;
    RaiseLeads(s1, id, x, 0);
    var s2 := SetWaiting(s1, x, (s.socks[x].waiting + 1) % 256);
    assert SetWaiting(With(s1, id, Reading(x, Raise(x + 1))), x, (s.socks[x].waiting + 1) % 256)
      == With(s2, id, Reading(x, Raise(x + 1)));
    LeadsOn(s0, With(s1, id, Reading(x, Raise(0))), With(s2, id, Reading(x, Raise(x + 1))));
    RaisedLeads(s2, id, x);
    assert With(s2, id, Reading(x, Parked)) == WithParked(s, id, x);
    LeadsOn(s0, With(s2, id, Reading(x, Raise(x + 1))), WithParked(s, id, x));
  }

  /** With `select_waiting` raised, the second scan still finds nothing. */
  lemma RaisedLeads(s: State, id: nat, x: nat)
    requires NothingToRead(s, x)
    ensures Leads(With(s, id, Reading(x, Raise(x + 1))), With(s, id, Reading(x, Parked)))
  {
    var s0, s1 := With(s, id, Reading(x, Raise(x + 1))), With(s, id, Reading(x, SecondScan(0, 0)));
    LeadsOne(s0, ASelect(id));
    assert Next(s0, ASelect(id)) == s1;
    var s2 := With(s, id, Reading(x, SecondScan(x + 1, 0)));
    LeadsOne(s2, ASelect(id));
    assert Next(s2, ASelect(id)) == With(s, id, Reading(x, Parked));
    hide Leads, Next;
    ScanLeads(s, id, x, false, 0);
    LeadsOn(s0, s1, s2);
    LeadsOn(s0, s2, With(s, id, Reading(x, Parked)));
  }

  // ----- many selects -----

  lemma {:induction false} SomeOf(keys: set<nat>, n: nat) returns (ids: seq<nat>)
    requires n <= |keys|
    ensures |ids| == n && Distinct(ids) && forall i :: 0 <= i < n ==> ids[i] in keys
    decreases n
  {
    if n == 0 {
      ids := [];
    } else {
      var id :| id in keys;
      var rest := SomeOf(keys - {id}, n - 1);
      ids := [id] + rest;
    }
  }

  ghost predicate AllIdle(s: State, ids: seq<nat>) {
    forall i :: 0 <= i < |ids| ==> ids[i] in s.selectors && s.selectors[ids[i]].phase.Idle?
  }

  lemma ParkedWaiting(s: State, id: nat, x: nat, n: nat)
    requires x in s.socks
    ensures (WithParked(s, id, x).socks[x].waiting + n) % 256 == (s.socks[x].waiting + n + 1) % 256
  {
  }

  lemma {:induction false} AllPark(s: State, ids: seq<nat>, x: nat) returns (s': State)
    requires NothingToRead(s, x) && Distinct(ids) && AllIdle(s, ids)
    ensures Leads(s, s') && NothingToRead(s', x) && s'.posters == s.posters
    ensures s'.socks[x].waiting % 256 == (s.socks[x].waiting + |ids|) % 256
    ensures s.socks[x].waiting < 256 ==> s'.socks[x].waiting < 256
    ensures forall i :: 0 <= i < |ids| ==> ids[i] in s'.selectors && s'.selectors[ids[i]] == Reading(x, Parked)
    ensures forall id :: id in s.selectors && id !in ids ==> id in s'.selectors && s'.selectors[id] == s.selectors[id]
    decreases |ids|
  {
    if ids == [] {
      LeadsNowhere(s);
      s' := s;
    } else {
      var id, rest := ids[0], ids[1..];
      ParkLeads(s, id, x);
      var s1 := WithParked(s, id, x);
      hide Leads;
      assert forall i :: 0 <= i < |rest| ==> rest[i] == ids[i + 1] && rest[i] != id;
      ParkedWaiting(s, id, x, |rest|);
      s' := AllPark(s1, rest, x);
      LeadsOn(s, s1, s');
      assert id !in rest && s'.selectors[id] == Reading(x, Parked);
      assert forall i :: 1 <= i < |ids| ==> ids[i] == rest[i - 1];
    }
  }

  // ----- nothing to read -----

  lemma {:induction false} DrainLeads(s: State, p: nat, x: nat, n: nat) returns (s': State)
    requires x in s.socks && s.socks[x].waiting == 0 && p in s.posters && s.posters[p] == Resting
    requires s.socks[x].rcvevent <= n <= 32768 && s.socks[x].rcvevent + n >= 0
    ensures Leads(s, s') && s' == s.(socks := s.socks[x := s.socks[x].(rcvevent := 0)])
    decreases n
  {
    var r := s.socks[x].rcvevent;
    if r == 0 {
      s' := s;
      LeadsNowhere(s);
      assert s == s.(socks := s.socks[x := s.socks[x].(rcvevent := 0)]);
    } else {
      var a := APost(p, x, if r > 0 then RcvMinus else RcvPlus);
      var s1 := Next(s, a);
      LeadsOne(s, a);
      s' := DrainLeads(s1, p, x, n - 1);
      LeadsOn(s, s1, s');
    }
  }

  /** Whatever the socket holds, it can be emptied while nobody waits. */
  lemma EmptyLeads(s: State, p: nat, x: nat) returns (s': State)
    requires Quiet(s) && x in s.socks && p in s.posters
    ensures Leads(s, s') && NothingToRead(s', x) && s'.selectors == s.selectors && s'.posters == s.posters
    ensures s'.socks[x].waiting == 0
  {
    var s1 := Hold(s, x, false);
    LeadsOne(s, AHold(x, false));
    var a := APost(p, x, RcvPlus);
    var s2 := Next(s1, a);
    LeadsByOne(s, s1, a);
    s' := DrainLeads(s2, p, x, 32768);
    LeadsOn(s, s2, s');
  }

  // ----- the theorem -----

  /** When 256 selects wait for `x`, an event wakes nobody and starts no walk. */
  lemma EventUnseen(s: State, p: nat, id: nat, x: nat)
    requires NothingToRead(s, x) && s.socks[x].waiting == 0
    requires id in s.selectors && s.selectors[id] == Reading(x, Parked)
    requires forall q :: q in s.posters ==> s.posters[q] == Resting
    ensures !NoLostWakeUp(Post(s, p, x, RcvPlus))
  {
    var s' := Post(s, p, x, RcvPlus);
    assert Waits(s', id, x) && forall q :: !YetToVisit(s', q, id, x);
  }

  /** From a quiet state with an open socket and someone to post events: no
    * wake-up is ever lost exactly when at most 255 threads select. */
  lemma NoLostWakeUpExactly(s0: State, p: nat, x: nat)
    requires Quiet(s0) && x in s0.socks && p in s0.posters
    ensures |s0.selectors| <= 255 <==> forall s :: Leads(s0, s) ==> NoLostWakeUp(s)
  {
    if |s0.selectors| <= 255 {
      forall s | Leads(s0, s) ensures NoLostWakeUp(s) {
        var actions :| Execution(s0, actions) && Final(s0, actions) == s;
        InitialInv(s0);
        RunsKeepInv(s0, actions);
      }
    } else {
      assert |s0.selectors.Keys| == |s0.selectors|;
      var ids := SomeOf(s0.selectors.Keys, 256);
      var s1 := EmptyLeads(s0, p, x);
      var s2 := AllPark(s1, ids, x);
      LeadsOn(s0, s1, s2);
      EventUnseen(s2, p, ids[0], x);
      LeadsByOne(s0, s2, APost(p, x, RcvPlus));
    }
  }
}
