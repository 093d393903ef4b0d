/** No wake-up is lost: the invariant of the select protocol over every run. */
module SelectProof {
  import opened SelectProtocol
  import opened Wrappers

  // ----- small facts about lists -----

  lemma IndexHit(list: seq<nat>, id: nat)
    ensures IndexIn(list, id) < |list| <==> id in list
  {
  }

  lemma IndexAt(list: seq<nat>, i: nat)
    requires i < |list| && forall a, b :: 0 <= a < b < |list| ==> list[a] != list[b]
    ensures IndexIn(list, list[i]) == i
  {
  }

  lemma RemovedList(list: seq<nat>, id: nat)
    requires forall a, b :: 0 <= a < b < |list| ==> list[a] != list[b]
    ensures var r := Removed(list, id);
      && (forall a, b :: 0 <= a < b < |r| ==> r[a] != r[b])
      && (forall x :: x in r <==> x in list && x != id)
  {
    var i := IndexIn(list, id);
    var r := Removed(list, id);
    if i < |list| {
      assert forall k :: 0 <= k < |r| ==> r[k] == list[if k < i then k else k + 1];
      forall x | x in list && x != id ensures x in r {
        var k :| 0 <= k < |list| && list[k] == x;
        assert r[if k < i then k else k - 1] == x;
      }
    }
  }

  // ----- the effect of one pass over a list entry -----

  /** `s'` differs from `s` only in posters and in signals given. */
  ghost predicate OnlySignals(s: State, s': State) {
    && s'.socks == s.socks && s'.list == s.list && s'.ctr == s.ctr
    && s'.selectors.Keys == s.selectors.Keys
    && forall id :: id in s.selectors ==>
         var c, c' := s.selectors[id], s'.selectors[id];
         c' == c || (id in s.list && !c.signalled && c' == Signalled(c))
  }

  lemma VisitEffect(s: State, p: nat, x: nat, idx: nat)
    requires x in s.socks && idx <= |s.list|
    ensures var s' := Visit(s, p, x, idx);
      && OnlySignals(s, s')
      && (forall q :: q != p && q in s.posters ==> q in s'.posters && s'.posters[q] == s.posters[q])
      && (forall q :: q != p && q in s'.posters ==> q in s.posters)
      && p in s'.posters
      && s'.posters[p] == (if idx == |s.list| then Resting else Walking(x, s.list[idx], s.ctr))
      && ((idx < |s.list| && s.list[idx] in s.selectors && CounterReady(s.socks[x], s.selectors[s.list[idx]], x)) ==>
            s'.selectors[s.list[idx]].signalled)
  {
  }

  lemma SignalsKeepRegistrations(s: State, s': State)
    requires OnlySignals(s, s')
    ensures forall id, x :: id in s.selectors ==> (Registered(s.selectors[id], x) <==> Registered(s'.selectors[id], x))
    ensures forall x :: Registrations(s', x) == Registrations(s, x)
  {
    forall x ensures Registrations(s', x) == Registrations(s, x) {
      assert forall id :: id in s.selectors ==> (Registered(s.selectors[id], x) <==> Registered(s'.selectors[id], x));
    }
  }

  /** Everything but the wake-up property survives a pass. */
  lemma SignalsKeepRest(s: State, s': State)
    requires ListInv(s) && OpenInv(s) && WaitingInv(s) && SemInv(s) && OnlySignals(s, s')
    ensures ListInv(s') && OpenInv(s') && WaitingInv(s') && SemInv(s')
  {
    SignalsKeepRegistrations(s, s');
    assert |s'.selectors| == |s.selectors| by { assert |s'.selectors.Keys| == |s.selectors.Keys|; }
    forall id, x | id in s'.selectors && Registered(s'.selectors[id], x) ensures x in s'.socks {
      assert Registered(s.selectors[id], x);
    }
  }

  /** Other posters' unfinished walks stay unfinished, and a new or continued walk
    * of `p` from `idx` still has everything after `idx` before it. */
  lemma VisitKeepsPending(s: State, p: nat, x: nat, idx: nat, id: nat, y: nat)
    requires ListInv(s) && x in s.socks && idx <= |s.list|
    requires Waits(Visit(s, p, x, idx), id, y)
    requires y == x ==> IndexIn(s.list, id) >= idx || exists q :: q != p && YetToVisit(s, q, id, y)
    requires y != x ==> exists q :: q != p && YetToVisit(s, q, id, y)
    ensures exists q :: YetToVisit(Visit(s, p, x, idx), q, id, y)
  {
    hide CounterReady, Registered;
    var s' := Visit(s, p, x, idx);
    VisitEffect(s, p, x, idx);
    if q :| q != p && YetToVisit(s, q, id, y) {
      assert YetToVisit(s', q, id, y);
    } else {
      assert id in s.list;
      IndexHit(s.list, id);
      assert idx < |s.list| && s.list[idx] != id;
      IndexAt(s.list, idx);
      assert YetToVisit(s', p, id, y);
    }
  }

  // ----- posting an event -----

  lemma RegisteredCount(s: State, id: nat, x: nat)
    requires WaitingInv(s) && x in s.socks && id in s.selectors && Registered(s.selectors[id], x)
    ensures s.socks[x].waiting > 0
  {
    assert id in Registrations(s, x);
  }

  lemma IdleIsRegistered(c: Selector, x: nat)
    requires FoundIdle(c, x)
    ensures Registered(c, x) && OnList(c.phase)
  {
  }

  ghost predicate RestInv(s: State) {
    ListInv(s) && OpenInv(s) && WaitingInv(s) && PosterInv(s) && SemInv(s)
  }

  ghost function AfterCount(s: State, x: nat, e: Event): State
    requires x in s.socks
  {
    s.(socks := s.socks[x := Counted(s.socks[x], e)])
  }

  lemma CountKeepsRest(s: State, x: nat, e: Event)
    requires RestInv(s) && x in s.socks
    ensures RestInv(AfterCount(s, x, e))
  {
    var s1 := AfterCount(s, x, e);
    assert forall y :: Registrations(s1, y) == Registrations(s, y);
  }

  /** Nobody waits for the socket: no walk is needed. */
  lemma UnwatchedPost(s: State, x: nat, e: Event)
    requires Inv(s) && x in s.socks && s.socks[x].waiting == 0
    ensures Inv(AfterCount(s, x, e))
  {
    hide CounterReady;
    CountKeepsRest(s, x, e);
    var s1 := AfterCount(s, x, e);
    forall id, y | Waits(s1, id, y) ensures exists q :: YetToVisit(s1, q, id, y) {
      IdleIsRegistered(s.selectors[id], y);
      if y == x {
        RegisteredCount(s, id, x);
      } else {
        assert Waits(s, id, y);
        var q :| YetToVisit(s, q, id, y);
        assert YetToVisit(s1, q, id, y);
      }
    }
  }

  lemma WatchedPost(s: State, p: nat, x: nat, e: Event)
    requires Inv(s) && p in s.posters && s.posters[p] == Resting && x in s.socks
    ensures Inv(Visit(AfterCount(s, x, e), p, x, 0))
  {
    CountKeepsRest(s, x, e);
    var s1 := AfterCount(s, x, e);
    hide CounterReady;
    VisitEffect(s1, p, x, 0);
    var s2 := Visit(s1, p, x, 0);
    SignalsKeepRest(s1, s2);
    VisitKeepsPosters(s1, p, x, 0);
    forall id, y | Waits(s2, id, y) ensures exists q :: YetToVisit(s2, q, id, y) {
      if y != x {
        assert Waits(s, id, y);
        var q :| YetToVisit(s, q, id, y);
        assert q != p && YetToVisit(s1, q, id, y);
      }
      VisitKeepsPending(s1, p, x, 0, id, y);
    }
  }

  lemma VisitKeepsPosters(s: State, p: nat, x: nat, idx: nat)
    requires RestInv(s) && x in s.socks && idx <= |s.list|
    ensures PosterInv(Visit(s, p, x, idx))
  {
    VisitEffect(s, p, x, idx);
  }

  lemma PostKeepsInv(s: State, p: nat, x: nat, e: Event)
    requires Inv(s) && p in s.posters && s.posters[p] == Resting
    ensures Inv(Post(s, p, x, e))
  {
    if x in s.socks {
      if s.socks[x].waiting == 0 {
        UnwatchedPost(s, x, e);
      } else {
        WatchedPost(s, p, x, e);
      }
    }
  }

  // ----- walking on -----

  /** The entry a walk comes to next. */
  function NextEntry(s: State, p: nat): nat
    requires Enabled(s, AWalk(p))
  {
    if s.posters[p].seen != s.ctr then 0 else IndexIn(s.list, s.posters[p].at) + 1
  }

  lemma WalkVisits(s: State, p: nat)
    requires PosterInv(s) && Enabled(s, AWalk(p))
    ensures NextEntry(s, p) <= |s.list| && Walk(s, p) == Visit(s, p, s.posters[p].sock, NextEntry(s, p))
  {
    hide Visit;
    IndexHit(s.list, s.posters[p].at);
  }

  lemma WalkKeepsInv(s: State, p: nat)
    requires Inv(s) && Enabled(s, AWalk(p))
    ensures Inv(Walk(s, p))
  {
    hide ListInv, OpenInv, WaitingInv, SemInv, CounterReady, OnlySignals, Visit, Walk;
    var x, idx, s' := s.posters[p].sock, NextEntry(s, p), Walk(s, p);
    WalkVisits(s, p);
    VisitEffect(s, p, x, idx);
    SignalsKeepRest(s, s');
    VisitKeepsPosters(s, p, x, idx);
    forall id, y | Waits(s', id, y) ensures exists q :: YetToVisit(s', q, id, y) {
      SignalsKeepWaiting(s, s', id, y);
      var q :| YetToVisit(s, q, id, y);
      if q == p { assert y == x && IndexIn(s.list, id) >= idx; }
      VisitKeepsPending(s, p, x, idx, id, y);
    }
  }

  lemma SignalsKeepWaiting(s: State, s': State, id: nat, y: nat)
    requires OnlySignals(s, s') && Waits(s', id, y)
    ensures Waits(s, id, y)
  {
  }

  // ----- select steps -----

  /** A step of select `id` as the others see it: no counter moves, and if the list
    * changes then `select_cb_ctr` grows. */
  ghost predicate OneSelect(s: State, s': State, id: nat) {
    && s'.posters == s.posters && s'.socks.Keys == s.socks.Keys
    && (forall x :: x in s.socks ==>
          var k, k' := s.socks[x], s'.socks[x];
          k'.rcvevent == k.rcvevent && k'.sendevent == k.sendevent && k'.errevent == k.errevent)
    && id in s.selectors && s'.selectors.Keys == s.selectors.Keys
    && (forall i :: i in s.selectors && i != id ==> s'.selectors[i] == s.selectors[i])
    && ((s'.list == s.list && s'.ctr == s.ctr) || s'.ctr > s.ctr)
  }

  lemma OthersKeepWaiting(s: State, s': State, id: nat, i: nat, x: nat)
    requires PosterInv(s) && NoLostWakeUp(s) && OneSelect(s, s', id)
    requires Waits(s', i, x) && (i != id || Waits(s, i, x))
    ensures exists p :: YetToVisit(s', p, i, x)
  {
    assert Waits(s, i, x);
    var p :| YetToVisit(s, p, i, x);
    assert YetToVisit(s', p, i, x);
  }

  /** What remains to be shown of the stepping select itself. */
  lemma SelectKeepsWakeUp(s: State, s': State, id: nat)
    requires PosterInv(s) && NoLostWakeUp(s) && OneSelect(s, s', id)
    requires forall x :: Waits(s', id, x) ==> Waits(s, id, x)
    ensures NoLostWakeUp(s')
  {
    forall i, x | Waits(s', i, x) ensures exists p :: YetToVisit(s', p, i, x) {
      OthersKeepWaiting(s, s', id, i, x);
    }
  }

  lemma SameRegistrations(s: State, s': State, id: nat)
    requires OneSelect(s, s', id)
    requires forall x :: Registered(s'.selectors[id], x) <==> Registered(s.selectors[id], x)
    ensures forall x :: Registrations(s', x) == Registrations(s, x)
    ensures |s'.selectors| == |s.selectors|
  {
    assert |s'.selectors.Keys| == |s.selectors.Keys|;
    forall x ensures Registrations(s', x) == Registrations(s, x) {
      assert forall i :: i in s.selectors ==> (Registered(s'.selectors[i], x) <==> Registered(s.selectors[i], x));
    }
  }

  /** A step inside a scan, or between two phases, that neither registers nor moves
    * the select on or off the list. */
  lemma LocalStep(s: State, id: nat, c': Selector)
    requires Inv(s) && id in s.selectors
    requires var c := s.selectors[id];
      && (OnList(c'.phase) <==> OnList(c.phase))
      && (OnList(c.phase) ==> c'.signalled == c.signalled) && (SemOk(c) ==> SemOk(c'))
      && (forall x :: Registered(c', x) <==> Registered(c, x))
      && (forall x :: FoundIdle(c', x) && x in s.socks && CounterReady(s.socks[x], c', x) && !c'.signalled ==>
            FoundIdle(c, x) && CounterReady(s.socks[x], c, x) && !c.signalled)
    ensures Inv(s.(selectors := s.selectors[id := c']))
  {
    hide CounterReady, Registered, FoundIdle, Watches;
    var s' := s.(selectors := s.selectors[id := c']);
    SameRegistrations(s, s', id);
    SelectKeepsWakeUp(s, s', id);
    forall i, x | i in s'.selectors && Registered(s'.selectors[i], x) ensures x in s'.socks {
      assert Registered(s.selectors[i], x);
    }
  }

  lemma StartKeepsInv(s: State, a: Action)
    requires Inv(s) && Enabled(s, a) && a.AStart?
    ensures Inv(Next(s, a))
  {
    LocalStep(s, a.id, Start(s, a.id, a.readset, a.writeset, a.exceptset, a.maxfdp1, a.timeout).selectors[a.id]);
  }

  lemma WaitEndsKeepInv(s: State, a: Action)
    requires Inv(s) && Enabled(s, a) && (a.AWake? || a.AExpire?)
    ensures Inv(Next(s, a))
  {
    hide ListInv, OpenInv, WaitingInv, PosterInv, NoLostWakeUp, CounterReady;
    var c := s.selectors[a.id];
    if a.AWake? {
      LocalStep(s, a.id, c.(phase := Fall(0, c.maxfdp1, Woken), sem := c.sem - 1));
    } else {
      LocalStep(s, a.id, c.(phase := Fall(0, c.maxfdp1, TimedOut)));
    }
  }

  lemma HoldKeepsInv(s: State, x: nat, held: bool)
    requires Inv(s) && x in s.socks
    ensures Inv(Hold(s, x, held))
  {
    var s' := Hold(s, x, held);
    assert forall y :: Registrations(s', y) == Registrations(s, y);
    forall id, y | Waits(s', id, y) ensures exists p :: YetToVisit(s', p, id, y) {
      assert Waits(s, id, y);
      var p :| YetToVisit(s, p, id, y);
      assert YetToVisit(s', p, id, y);
    }
  }

  // Raising and lowering select_waiting.

  lemma Subset(a: set<nat>, b: set<nat>)
    requires a <= b
    ensures |a| <= |b|
  {
    assert b == a + (b - a);
  }

  lemma OthersRegistered(s: State, s': State, id: nat, x: nat)
    requires OneSelect(s, s', id)
    ensures Registrations(s', x) - {id} == Registrations(s, x) - {id}
  {
  }

  lemma OneRegistration(s: State, s': State, id: nat, i: nat, added: bool)
    requires OneSelect(s, s', id)
    requires forall x :: x != i ==> (Registered(s'.selectors[id], x) <==> Registered(s.selectors[id], x))
    requires Registered(s'.selectors[id], i) == added && Registered(s.selectors[id], i) == !added
    ensures forall x :: x != i ==> Registrations(s', x) == Registrations(s, x)
    ensures Registrations(s', i) == if added then Registrations(s, i) + {id} else Registrations(s, i) - {id}
    ensures |s'.selectors| == |s.selectors|
    ensures |Registrations(s', i)| == |Registrations(s, i)| + if added then 1 else -1
    ensures |Registrations(s', i)| <= |s.selectors|
  {
    hide Registered;
    assert |s'.selectors.Keys| == |s.selectors.Keys|;
    OthersRegistered(s, s', id, i);
    forall x | x != i ensures Registrations(s', x) == Registrations(s, x) {
      OthersRegistered(s, s', id, x);
    }
    Subset(Registrations(s', i), s'.selectors.Keys);
  }

  /** `select_waiting` follows the registrations, and never reaches 256. */
  lemma WaitingFollows(s: State, s': State, id: nat, i: nat, added: bool)
    requires WaitingInv(s) && OneSelect(s, s', id) && i in s.socks
    requires forall x :: x in s.socks && x != i ==> s'.socks[x].waiting == s.socks[x].waiting
    requires added ==> s'.socks[i].waiting == (s.socks[i].waiting + 1) % 256
    requires !added ==> s'.socks[i].waiting == s.socks[i].waiting - 1
    requires forall x :: x != i ==> (Registered(s'.selectors[id], x) <==> Registered(s.selectors[id], x))
    requires Registered(s'.selectors[id], i) == added && Registered(s.selectors[id], i) == !added
    ensures WaitingInv(s')
  {
    hide Registered, Registrations;
    OneRegistration(s, s', id, i, added);
  }

  lemma CountedSelect(s: State, id: nat, p: Phase, i: nat, w: nat)
    requires id in s.selectors && i in s.socks
    ensures OneSelect(s, SetWaiting(WithPhase(s, id, p), i, w), id)
  {
  }

  lemma RaiseStep(s: State, id: nat, i: nat)
    requires Inv(s) && id in s.selectors && s.selectors[id].phase == Raise(i)
    requires Watches(s.selectors[id], i) && i in s.socks
    ensures Inv(SetWaiting(WithPhase(s, id, Raise(i + 1)), i, (s.socks[i].waiting + 1) % 256))
  {
    var s' := SetWaiting(WithPhase(s, id, Raise(i + 1)), i, (s.socks[i].waiting + 1) % 256);
    hide NoLostWakeUp, ListInv, OpenInv, PosterInv, SemInv, WaitingInv, OneSelect;
    CountedSelect(s, id, Raise(i + 1), i, (s.socks[i].waiting + 1) % 256);
    WaitingFollows(s, s', id, i, true);
    RaiseKeepsRest(s, s', id, i);
  }

  lemma RaiseKeepsRest(s: State, s': State, id: nat, i: nat)
    requires Inv(s) && id in s.selectors && s.selectors[id].phase == Raise(i) && i in s.socks
    requires s' == SetWaiting(WithPhase(s, id, Raise(i + 1)), i, (s.socks[i].waiting + 1) % 256)
    requires WaitingInv(s')
    ensures Inv(s')
  {
    hide WaitingInv, CounterReady;
    assert forall x :: !FoundIdle(s'.selectors[id], x);
    SelectKeepsWakeUp(s, s', id);
    forall k, x | k in s'.selectors && Registered(s'.selectors[k], x) ensures x in s'.socks {
      assert (k == id && x == i) || Registered(s.selectors[k], x);
    }
  }

  lemma FallStep(s: State, id: nat, i: nat, limit: nat, why: Why)
    requires Inv(s) && id in s.selectors && s.selectors[id].phase == Fall(i, limit, why) && i < limit
    requires Watches(s.selectors[id], i) && i in s.socks
    ensures s.socks[i].waiting > 0
    ensures Inv(SetWaiting(WithPhase(s, id, Fall(i + 1, limit, why)), i, s.socks[i].waiting - 1))
  {
    hide NoLostWakeUp, ListInv, OpenInv, PosterInv, SemInv, WaitingInv, OneSelect;
    RegisteredCount(s, id, i);
    var s' := SetWaiting(WithPhase(s, id, Fall(i + 1, limit, why)), i, s.socks[i].waiting - 1);
    CountedSelect(s, id, Fall(i + 1, limit, why), i, s.socks[i].waiting - 1);
    WaitingFollows(s, s', id, i, false);
    FallKeepsRest(s, s', id, i, limit, why);
  }

  lemma FallKeepsRest(s: State, s': State, id: nat, i: nat, limit: nat, why: Why)
    requires Inv(s) && id in s.selectors && s.selectors[id].phase == Fall(i, limit, why) && i in s.socks
    requires s.socks[i].waiting > 0
    requires s' == SetWaiting(WithPhase(s, id, Fall(i + 1, limit, why)), i, s.socks[i].waiting - 1)
    requires WaitingInv(s')
    ensures Inv(s')
  {
    hide WaitingInv, CounterReady;
    assert forall x :: !FoundIdle(s'.selectors[id], x);
    SelectKeepsWakeUp(s, s', id);
    forall k, x | k in s'.selectors && Registered(s'.selectors[k], x) ensures x in s'.socks {
      assert Registered(s.selectors[k], x);
    }
  }

  // Going on and off the list.

  /** Nothing but the list and the phase of a select that is not registered. */
  ghost predicate OnlyList(s: State, s': State, id: nat) {
    && OneSelect(s, s', id) && s'.socks == s.socks && s'.ctr > s.ctr
    && (forall x :: !Registered(s'.selectors[id], x) && !Registered(s.selectors[id], x))
    && SemOk(s'.selectors[id])
  }

  lemma ListStep(s: State, s': State, id: nat)
    requires Inv(s) && OnlyList(s, s', id) && ListInv(s')
    requires forall x :: !FoundIdle(s'.selectors[id], x)
    ensures Inv(s')
  {
    hide ListInv, CounterReady, FoundIdle, Registered, SemOk;
    SameRegistrations(s, s', id);
    SelectKeepsWakeUp(s, s', id);
    OthersOpen(s, s', id);
    assert PosterInv(s');
    assert SemInv(s');
  }

  lemma NotFound(c: Selector)
    requires !c.phase.SecondScan? && !c.phase.Parked?
    ensures forall x :: !FoundIdle(c, x)
  {
  }

  lemma ListMoved(s: State, s': State, id: nat, c': Selector)
    requires id in s.selectors && SemOk(c')
    requires s' == s.(list := s'.list, ctr := s.ctr + 1, selectors := s.selectors[id := c'])
    requires forall x :: !Registered(c', x) && !Registered(s.selectors[id], x)
    ensures OnlyList(s, s', id)
  {
  }

  lemma EnlistedList(s: State, s': State, id: nat, c': Selector)
    requires ListInv(s) && id in s.selectors && !OnList(s.selectors[id].phase) && OnList(c'.phase)
    requires s'.list == [id] + s.list && s'.selectors == s.selectors[id := c']
    ensures ListInv(s')
  {
    assert forall x :: x in s'.list <==> x in s.list || x == id;
  }

  lemma DelistedList(s: State, s': State, id: nat, c': Selector)
    requires ListInv(s) && id in s.selectors && !OnList(c'.phase)
    requires s'.list == Removed(s.list, id) && s'.selectors == s.selectors[id := c']
    ensures ListInv(s')
  {
    hide Removed;
    RemovedList(s.list, id);
  }

  lemma EnlistStep(s: State, id: nat)
    requires Inv(s) && id in s.selectors && s.selectors[id].phase == Enlist
    ensures Inv(SelectStep(s, id))
  {
    hide Removed, NoLostWakeUp, ListInv, OpenInv, WaitingInv, PosterInv, CounterReady, FoundIdle, OneSelect, OnlyList;
    var s' := SelectStep(s, id);
    NotFound(s'.selectors[id]);
    EnlistedList(s, s', id, s'.selectors[id]);
    ListMoved(s, s', id, s'.selectors[id]);
    ListStep(s, s', id);
  }

  lemma OthersOpen(s: State, s': State, id: nat)
    requires OpenInv(s) && OneSelect(s, s', id) && forall x :: !Registered(s'.selectors[id], x)
    ensures OpenInv(s')
  {
    forall k, x | k in s'.selectors && Registered(s'.selectors[k], x) ensures x in s'.socks {
      assert Registered(s.selectors[k], x);
    }
  }

  lemma DelistStep(s: State, id: nat)
    requires Inv(s) && id in s.selectors && s.selectors[id].phase.Delist?
    ensures Inv(SelectStep(s, id))
  {
    hide Removed, NoLostWakeUp, ListInv, OpenInv, WaitingInv, PosterInv, CounterReady, FoundIdle, OneSelect, OnlyList;
    var s' := SelectStep(s, id);
    NotFound(s'.selectors[id]);
    DelistedList(s, s', id, s'.selectors[id]);
    ListMoved(s, s', id, s'.selectors[id]);
    ListStep(s, s', id);
  }

  // Scanning.

  /** A socket the second scan passes over without counting is not ready. */
  lemma ScanFindsReady(s: State, c: Selector, i: nat, n: nat)
    requires i in s.socks && Watches(c, i) && ScanStep(s, c, i, n) == 0
    ensures !CounterReady(s.socks[i], c, i)
  {
  }

  lemma SecondScanStep(s: State, id: nat, i: nat, n: nat)
    requires Inv(s) && id in s.selectors && s.selectors[id].phase == SecondScan(i, n) && i < s.selectors[id].maxfdp1
    ensures Inv(WithScan(s, id, SecondScan(i + 1, ScanStep(s, s.selectors[id], i, n)), i))
  {
    var c := s.selectors[id];
    var n' := ScanStep(s, c, i, n);
    var c' := c.(phase := SecondScan(i + 1, n'), found := ScanSets(s, c, i));
    if i in s.socks && Watches(c, i) && n' == 0 { ScanFindsReady(s, c, i, n); }
    forall x | FoundIdle(c', x) && x in s.socks && CounterReady(s.socks[x], c', x) && !c'.signalled
      ensures FoundIdle(c, x) && CounterReady(s.socks[x], c, x) && !c.signalled
    {
      assert x != i;
    }
    LocalStep(s, id, c');
  }

  /** A step to phase `p` that changes the scan's sets and the answer at most. */
  lemma PhaseStep(s: State, id: nat, p: Phase, found: Sets, out: Option<Sets>)
    requires Inv(s) && id in s.selectors && !s.selectors[id].phase.Idle?
    requires var c := s.selectors[id]; var c' := c.(phase := p);
      && (OnList(p) <==> OnList(c.phase))
      && (forall x :: Registered(c', x) <==> Registered(c, x))
      && (forall x :: FoundIdle(c', x) ==> FoundIdle(c, x))
    ensures Inv(s.(selectors := s.selectors[id := s.selectors[id].(phase := p, found := found, out := out)]))
  {
    var c := s.selectors[id];
    var c1, c2 := c.(phase := p), c.(phase := p, found := found, out := out);
    assert forall x :: Registered(c2, x) <==> Registered(c1, x);
    assert forall x :: FoundIdle(c2, x) <==> FoundIdle(c1, x);
    LocalStep(s, id, c2);
  }

  lemma SelectKeepsInv(s: State, id: nat)
    requires Inv(s) && id in s.selectors && !s.selectors[id].phase.Parked?
    ensures Inv(SelectStep(s, id))
  {
    hide Inv;
    var c := s.selectors[id];
    match c.phase
    case FirstScan(i, n) =>
      if i < c.maxfdp1 { PhaseStep(s, id, FirstScan(i + 1, ScanStep(s, c, i, n)), ScanSets(s, c, i), c.out); }
      else if n > 0 { PhaseStep(s, id, Returned(n), c.found, Some(c.found)); }
      else if c.timeout.Zero? { PhaseStep(s, id, Returned(0), c.found, Some(c.found)); }
      else { PhaseStep(s, id, Enlist, c.found, c.out); }
    case Enlist => EnlistStep(s, id);
    case Raise(i) =>
      if i >= c.maxfdp1 { PhaseStep(s, id, SecondScan(0, 0), NO_SETS, c.out); }
      else if !Watches(c, i) { PhaseStep(s, id, Raise(i + 1), c.found, c.out); }
      else if i in s.socks { RaiseStep(s, id, i); }
      else { PhaseStep(s, id, Fall(0, i, BadSocket), c.found, c.out); }
    case SecondScan(i, n) =>
      if i < c.maxfdp1 { SecondScanStep(s, id, i, n); }
      else if n > 0 { PhaseStep(s, id, Fall(0, c.maxfdp1, FoundReady), c.found, c.out); }
      else { PhaseStep(s, id, Parked, c.found, c.out); }
    case Fall(i, limit, why) =>
      if i >= limit { PhaseStep(s, id, Delist(why), c.found, c.out); }
      else if Watches(c, i) && i in s.socks { FallStep(s, id, i, limit, why); }
      else { FallOver(s, id, i, limit, why); }
    case Delist(why) => DelistStep(s, id);
    case LastScan(i, n) =>
      if i < c.maxfdp1 { PhaseStep(s, id, LastScan(i + 1, ScanStep(s, c, i, n)), ScanSets(s, c, i), c.out); }
      else { PhaseStep(s, id, Returned(n), c.found, Some(c.found)); }
    case _ =>
  }

  /** An fd that is not watched, or was never registered, is passed over. */
  lemma FallOver(s: State, id: nat, i: nat, limit: nat, why: Why)
    requires Inv(s) && id in s.selectors && s.selectors[id].phase == Fall(i, limit, why) && i < limit
    requires !(Watches(s.selectors[id], i) && i in s.socks)
    ensures Inv(WithPhase(s, id, Fall(i + 1, limit, why)))
  {
    assert !Registered(s.selectors[id], i);
    var c := s.selectors[id];
    PhaseStep(s, id, Fall(i + 1, limit, why), c.found, c.out);
  }

  // ----- the theorems -----

  lemma NextKeepsInv(s: State, a: Action)
    requires Inv(s) && Enabled(s, a)
    ensures Inv(Next(s, a))
  {
    hide Inv;
    match a
    case AStart(_, _, _, _, _, _) => StartKeepsInv(s, a);
    case ASelect(id) => SelectKeepsInv(s, id);
    case AWake(_) => WaitEndsKeepInv(s, a);
    case AExpire(_) => WaitEndsKeepInv(s, a);
    case APost(p, x, e) => PostKeepsInv(s, p, x, e);
    case AWalk(p) => WalkKeepsInv(s, p);
    case AHold(x, held) => HoldKeepsInv(s, x, held);
  }

  lemma InitialInv(s: State)
    requires Initial(s)
    ensures Inv(s)
  {
    assert forall x :: Registrations(s, x) == {};
  }

  lemma {:induction false} RunsKeepInv(s: State, actions: seq<Action>)
    requires Inv(s) && Execution(s, actions)
    ensures Inv(Final(s, actions))
    decreases |actions|
  {
    hide Inv, Enabled;
    if actions != [] {
      NextKeepsInv(s, actions[0]);
      RunsKeepInv(Next(s, actions[0]), actions[1..]);
    }
  }

  /** In every interleaving: when a select is parked, unsignalled, and a socket of
    * its sets has a ready counter, some walk on that socket has yet to come to it;
    * `select_waiting` is the number of selects registered with the socket; and no
    * select is signalled twice. */
  lemma NoWakeUpIsLost(s0: State, actions: seq<Action>)
    requires Initial(s0) && Execution(s0, actions)
    ensures var s := Final(s0, actions);
      && (forall id, x :: Neglected(s, id, x) ==> exists p :: YetToVisit(s, p, id, x))
      && (forall x :: x in s.socks ==> s.socks[x].waiting == |Registrations(s, x)|)
      && (forall id :: id in s.selectors && !s.selectors[id].phase.Idle? ==> s.selectors[id].signals <= 1)
  {
    InitialInv(s0);
    RunsKeepInv(s0, actions);
    var s := Final(s0, actions);
    forall id, x | Neglected(s, id, x)
      ensures exists p :: YetToVisit(s, p, id, x)
    {
      assert Waits(s, id, x);
    }
  }

  /** Select `id` is parked unsignalled although socket `x` of its sets is ready. */
  ghost predicate Neglected(s: State, id: nat, x: nat) {
    && id in s.selectors && x in s.socks && s.selectors[id].phase.Parked? && Watches(s.selectors[id], x)
    && !s.selectors[id].signalled
    && (|| (s.socks[x].rcvevent > 0 && x in s.selectors[id].readset)
        || (s.socks[x].sendevent != 0 && x in s.selectors[id].writeset)
        || (s.socks[x].errevent != 0 && x in s.selectors[id].exceptset))
  }

  /** What an event does to the counters of its socket; the others stay.  The counts
    * have 16 bits, that of received packets with a sign. */
  lemma PostCounts(s: State, p: nat, x: nat, e: Event)
    requires x in s.socks && -32768 <= s.socks[x].rcvevent <= 32767 && s.socks[x].sendevent <= 65535
    ensures var k, k' := s.socks[x], Post(s, p, x, e).socks[x];
      && Post(s, p, x, e).socks == s.socks[x := k'] && k'.held == k.held && k'.waiting == k.waiting
      && k'.rcvevent == (if e.RcvPlus? then (if k.rcvevent == 32767 then -32768 else k.rcvevent + 1)
                         else if e.RcvMinus? then (if k.rcvevent == -32768 then 32767 else k.rcvevent - 1)
                         else k.rcvevent)
      && k'.sendevent == (if e.SendPlus? then (if k.sendevent == 65535 then 0 else k.sendevent + 1)
                          else if e.SendMinus? then (if k.sendevent == 0 then 65535 else k.sendevent - 1)
                          else k.sendevent)
      && k'.errevent == (if e.Error? then 1 else k.errevent)
  {
  }

  // ----- the pending walk does arrive -----

  ghost function WalkOn(s: State, p: nat, steps: nat): State
    requires PosterInv(s)
    decreases steps
  {
    if steps == 0 || !Enabled(s, AWalk(p)) || !Inv(s) then s
    else
      WalkKeepsInv(s, p);
      WalkOn(Walk(s, p), p, steps - 1)
  }

  ghost predicate SignalledAfter(s: State, p: nat, id: nat, steps: nat)
    requires PosterInv(s)
  {
    var s' := WalkOn(s, p, steps);
    id in s'.selectors && s'.selectors[id].signalled
  }

  /** How many entries the walk of `p` has before it. */
  ghost function EntriesLeft(s: State, p: nat): int
    requires p in s.posters && s.posters[p].Walking?
  {
    if s.posters[p].seen != s.ctr then |s.list| else |s.list| - 1 - IndexIn(s.list, s.posters[p].at)
  }

  /** One step of the pending walk either signals the select or stays pending, with
    * one entry less to go. */
  lemma WalkCloser(s: State, p: nat, id: nat, x: nat)
    requires Inv(s) && Waits(s, id, x) && YetToVisit(s, p, id, x)
    ensures Enabled(s, AWalk(p)) && EntriesLeft(s, p) > 0
    ensures var s' := Walk(s, p);
      && Inv(s') && id in s'.selectors && s'.list == s.list
      && (s'.selectors[id].signalled ||
           (Waits(s', id, x) && YetToVisit(s', p, id, x) && EntriesLeft(s', p) == EntriesLeft(s, p) - 1))
  {
    hide NoLostWakeUp, WaitingInv, OpenInv, SemInv, CounterReady, Visit;
    WalkKeepsInv(s, p);
    WalkVisits(s, p);
    IndexHit(s.list, s.posters[p].at);
    IndexHit(s.list, id);
    assert id in s.list;
    VisitCloser(s, p, id, x, NextEntry(s, p));
  }

  lemma VisitCloser(s: State, p: nat, id: nat, x: nat, idx: nat)
    requires ListInv(s) && Waits(s, id, x) && idx <= IndexIn(s.list, id) < |s.list|
    ensures var s' := Visit(s, p, x, idx);
      && id in s'.selectors && s'.list == s.list
      && (s'.selectors[id].signalled ||
           (Waits(s', id, x) && YetToVisit(s', p, id, x) && EntriesLeft(s', p) == |s.list| - 1 - idx))
  {
    hide Registered;
    VisitEffect(s, p, x, idx);
    IndexAt(s.list, idx);
  }

  /** Left to itself, the poster a parked select waits for signals it within one
    * pass over the list. */
  lemma {:induction false} WalkArrives(s: State, p: nat, id: nat, x: nat)
    requires Inv(s) && Waits(s, id, x) && YetToVisit(s, p, id, x)
    ensures exists n: nat :: n <= |s.list| && SignalledAfter(s, p, id, n)
  {
    var n := WalkArrivesAfter(s, p, id, x);
    assert SignalledAfter(s, p, id, n);
  }

  lemma {:induction false} WalkArrivesAfter(s: State, p: nat, id: nat, x: nat) returns (n: nat)
    requires Inv(s) && Waits(s, id, x) && YetToVisit(s, p, id, x)
    ensures n <= EntriesLeft(s, p) && n <= |s.list| && SignalledAfter(s, p, id, n)
    decreases EntriesLeft(s, p)
  {
    hide Waits, Walk, Visit, YetToVisit, ListInv, OpenInv, WaitingInv, PosterInv, SemInv, NoLostWakeUp;
    WalkCloser(s, p, id, x);
    var s' := Walk(s, p);
    n := 1;
    if s'.selectors[id].signalled {
      assert WalkOn(s', p, 0) == s' && WalkOn(s, p, 1) == s';
    } else {
      var m := WalkArrivesAfter(s', p, id, x);
      n := m + 1;
      assert WalkOn(s, p, n) == WalkOn(s', p, m);
    }
  }
}
