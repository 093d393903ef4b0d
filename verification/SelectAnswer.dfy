/** What `sal_select` answers: the count and the sets it writes back, in every
  * interleaving with other selects and with events. */
module SelectAnswer {
  import opened SelectProtocol
  import opened Wrappers

  // ----- runs, state by state -----

  ghost predicate Run(states: seq<State>, actions: seq<Action>) {
    && |states| == |actions| + 1
    && forall k :: 0 <= k < |actions| ==> Enabled(states[k], actions[k]) && states[k + 1] == Next(states[k], actions[k])
  }

  /** A run is an execution ... */
  lemma {:induction false} RunExecutes(states: seq<State>, actions: seq<Action>)
    requires Run(states, actions)
    ensures Execution(states[0], actions) && Final(states[0], actions) == states[|actions|]
    decreases |actions|
  {
    hide Enabled, Next;
    if actions != [] {
      assert Enabled(states[0], actions[0]) && states[1] == Next(states[0], actions[0]);
      RunExecutes(states[1..], actions[1..]);
    }
  }

  /** ... and every execution is one. */
  lemma {:induction false} ExecutionRuns(s: State, actions: seq<Action>) returns (states: seq<State>)
    requires Execution(s, actions)
    ensures Run(states, actions) && states[0] == s
    decreases |actions|
  {
    hide Enabled, Next;
    states := [s];
    if actions != [] {
      var rest := ExecutionRuns(Next(s, actions[0]), actions[1..]);
      states := [s] + rest;
      forall k | 0 <= k < |actions|
        ensures Enabled(states[k], actions[k]) && states[k + 1] == Next(states[k], actions[k])
      {
        if k > 0 { assert states[k] == rest[k - 1] && actions[k] == actions[1..][k - 1]; }
      }
    }
  }

  // ----- one call -----

  /** Thread `id` calls select at step `j` and has not called it again since. */
  ghost predicate Call(states: seq<State>, actions: seq<Action>, id: nat, j: nat) {
    && Run(states, actions) && j < |actions| && actions[j].AStart? && actions[j].id == id
    && forall k :: j < k < |actions| ==> !(actions[k].AStart? && actions[k].id == id)
  }

  predicate ReadsReady(k: Sock) { k.held || k.rcvevent > 0 }

  predicate WritesReady(k: Sock) { k.sendevent != 0 }

  predicate ExceptReady(k: Sock) { k.errevent != 0 }

  /** Some sockets of a call were looked at, each in its own state: socket `x` in
    * state `ks[x]`. */
  ghost predicate Looks(states: seq<State>, since: nat, ks: seq<nat>) {
    && (forall x :: 0 <= x < |ks| ==> since <= ks[x] < |states| - 1)
    && (forall x, y :: 0 <= x < y < |ks| ==> ks[x] < ks[y])
  }

  /** Those of some sockets that were open and ready when they were looked at. */
  ghost function ReadyOf(states: seq<State>, ks: seq<nat>, fds: set<nat>, ready: Sock -> bool): set<nat>
    requires forall x :: 0 <= x < |ks| ==> ks[x] < |states|
  {
    set x | x in fds && x < |ks| && x in states[ks[x]].socks && ready(states[ks[x]].socks[x])
  }

  ghost function ReadyThen(states: seq<State>, ks: seq<nat>, c: Selector): Sets
    requires forall x :: 0 <= x < |ks| ==> ks[x] < |states|
  {
    Sets(ReadyOf(states, ks, c.readset, ReadsReady), ReadyOf(states, ks, c.writeset, WritesReady),
         ReadyOf(states, ks, c.exceptset, ExceptReady))
  }

  function Size(f: Sets): nat {
    |f.read| + |f.write| + |f.except|
  }

  /** A scan that began in state `since` has looked at the sockets below `i`. */
  ghost predicate Scanned(states: seq<State>, c: Selector, since: nat, ks: seq<nat>, i: nat, n: nat) {
    && |ks| == i <= c.maxfdp1 && since < |states| && Looks(states, since, ks)
    && c.found == ReadyThen(states, ks, c) && n == Size(c.found)
  }

  ghost predicate AllOpen(s: State, c: Selector) {
    forall x: nat :: Watches(c, x) ==> x in s.socks
  }

  /** The call has put its select_cb on the list. */
  ghost predicate Blocked(states: seq<State>, id: nat, j: nat) {
    exists k :: j < k < |states| && id in states[k].selectors && states[k].selectors[id].phase == Enlist
  }

  /** The time of the call has run out. */
  ghost predicate Expired(actions: seq<Action>, id: nat, j: nat) {
    exists k :: j < k < |actions| && actions[k] == AExpire(id)
  }

  /** What a call that has come this far has done. */
  ghost predicate History(states: seq<State>, actions: seq<Action>, id: nat, j: nat, c: Selector,
                          since: nat, ks: seq<nat>)
    requires states != []
  {
    var s := states[|states| - 1];
    && (!c.phase.Returned? ==> c.out == None)
    && match c.phase
    case Idle => false
    case FirstScan(i, n) => !Blocked(states, id, j) && Scanned(states, c, since, ks, i, n)
    case Enlist => Blocked(states, id, j) && !c.timeout.Zero?
    case Raise(i) => Blocked(states, id, j) && forall x: nat :: Watches(c, x) && x < i ==> x in s.socks
    case SecondScan(i, n) => Blocked(states, id, j) && AllOpen(s, c) && Scanned(states, c, since, ks, i, n)
    case Parked => Blocked(states, id, j) && AllOpen(s, c) && c.found == NO_SETS
    case Fall(_, _, why) => Leaving(states, actions, id, j, c, why)
    case Delist(why) => Leaving(states, actions, id, j, c, why)
    case LastScan(i, n) => Blocked(states, id, j) && AllOpen(s, c) && Scanned(states, c, since, ks, i, n)
    case Returned(r) => Answered(states, actions, id, j, c, r, since, ks)
  }

  ghost predicate Leaving(states: seq<State>, actions: seq<Action>, id: nat, j: nat, c: Selector, why: Why)
    requires states != []
  {
    && Blocked(states, id, j)
    && (why.BadSocket? <==> !AllOpen(states[|states| - 1], c))
    && (why.TimedOut? ==> c.found == NO_SETS && Expired(actions, id, j))
  }

  /** The answer of a call.
    * - It is -1, and the caller's sets stay, exactly when the call had to wait and one
    *   of its sockets is not open.
    * - Otherwise the sets written back are what the last scan found ready, and the
    *   answer is their size; or nothing, after a zero or an expired timeout. */
  ghost predicate Answered(states: seq<State>, actions: seq<Action>, id: nat, j: nat, c: Selector, r: int,
                           since: nat, ks: seq<nat>)
    requires states != []
  {
    && (r == -1 <==> Blocked(states, id, j) && !AllOpen(states[|states| - 1], c))
    && (r == -1 <==> c.out == None)
    && (r != -1 ==> r == Size(c.out.value))
    && (r != -1 ==>
          || (c.out == Some(NO_SETS) && Expired(actions, id, j))
          || (&& |ks| == c.maxfdp1 && Looks(states, since, ks) && c.out == Some(ReadyThen(states, ks, c))
              && (r == 0 ==> c.timeout.Zero? || Blocked(states, id, j))))
  }

  // ----- one more step -----

  lemma BlockedOn(states: seq<State>, s': State, id: nat, j: nat)
    requires j < |states| && id in s'.selectors
    ensures Blocked(states + [s'], id, j) <==> Blocked(states, id, j) || s'.selectors[id].phase == Enlist
  {
    var more := states + [s'];
    assert more[|states|] == s' && forall k :: 0 <= k < |states| ==> more[k] == states[k];
  }

  lemma ExpiredOn(actions: seq<Action>, a: Action, id: nat, j: nat)
    requires j < |actions|
    ensures Expired(actions + [a], id, j) <==> Expired(actions, id, j) || a == AExpire(id)
  {
    var more := actions + [a];
    assert more[|actions|] == a && forall k :: 0 <= k < |actions| ==> more[k] == actions[k];
  }

  lemma LooksOn(states: seq<State>, s': State, since: nat, ks: seq<nat>, c: Selector)
    requires Looks(states, since, ks)
    ensures Looks(states + [s'], since, ks) && ReadyThen(states + [s'], ks, c) == ReadyThen(states, ks, c)
  {
    var more := states + [s'];
    assert forall k :: 0 <= k < |states| ==> more[k] == states[k];
  }

  /** Nothing but the wake-up of the call has changed. */
  ghost predicate Apart(s: State, s': State, id: nat) {
    && id in s.selectors && id in s'.selectors && s'.socks.Keys == s.socks.Keys
    && var c, c' := s.selectors[id], s'.selectors[id];
       c' == c.(signalled := c'.signalled, sem := c'.sem, signals := c'.signals)
  }

  predicate Own(a: Action, id: nat) {
    match a
    case AStart(i, _, _, _, _, _) => i == id
    case ASelect(i) => i == id
    case AWake(i) => i == id
    case AExpire(i) => i == id
    case _ => false
  }

  lemma OthersStep(s: State, a: Action, id: nat)
    requires id in s.selectors && Enabled(s, a) && !Own(a, id)
    ensures Apart(s, Next(s, a), id)
  {
    match a
    case APost(p, x, e) => PostApart(s, p, x, e, id);
    case AWalk(p) => WalkApart(s, p, id);
    case ASelect(i) => SelectApart(s, i, id);
    case _ =>
  }

  lemma VisitApart(s: State, p: nat, x: nat, idx: nat, id: nat)
    requires id in s.selectors && x in s.socks && idx <= |s.list|
    ensures Apart(s, Visit(s, p, x, idx), id)
  {
  }

  lemma PostApart(s: State, p: nat, x: nat, e: Event, id: nat)
    requires id in s.selectors
    ensures Apart(s, Post(s, p, x, e), id)
  {
    if x in s.socks {
      var s' := s.(socks := s.socks[x := Counted(s.socks[x], e)]);
      VisitApart(s', p, x, 0, id);
    }
  }

  lemma WalkApart(s: State, p: nat, id: nat)
    requires id in s.selectors && p in s.posters && s.posters[p].Walking? && s.posters[p].sock in s.socks
    ensures Apart(s, Walk(s, p), id)
  {
    hide Visit;
    var w := s.posters[p];
    VisitApart(s, p, w.sock, 0, id);
    var i := IndexIn(s.list, w.at);
    VisitApart(s, p, w.sock, if i < |s.list| then i + 1 else i, id);
  }

  lemma SelectApart(s: State, i: nat, id: nat)
    requires id in s.selectors && i in s.selectors && i != id
    ensures Apart(s, SelectStep(s, i), id)
  {
    hide Removed, IndexIn, ScanStep, ScanSets, Watches;
    match s.selectors[i].phase
    case Delist(_) =>
    case Raise(_) =>
    case Fall(_, _, _) =>
    case _ =>
  }

  lemma {:induction false} ApartHistory(states: seq<State>, actions: seq<Action>, s': State, a: Action, id: nat, j: nat,
                                        since: nat, ks: seq<nat>)
    requires j < |actions| && |states| == |actions| + 1 && Apart(states[|states| - 1], s', id) && a != AExpire(id)
    requires History(states, actions, id, j, states[|states| - 1].selectors[id], since, ks)
    ensures History(states + [s'], actions + [a], id, j, s'.selectors[id], since, ks)
  {
    hide Blocked, Expired, Looks, ReadyThen, Size;
    var c, c' := states[|states| - 1].selectors[id], s'.selectors[id];
    BlockedOn(states, s', id, j);
    ExpiredOn(actions, a, id, j);
    assert forall x :: Watches(c', x) <==> Watches(c, x);
    if Looks(states, since, ks) {
      LooksOn(states, s', since, ks, c);
      SameReady(states + [s'], ks, c, c');
    }
    if c.phase == Enlist { EnlistedBlocks(states, id, j); }
  }

  lemma SameReady(states: seq<State>, ks: seq<nat>, c: Selector, c': Selector)
    requires forall x :: 0 <= x < |ks| ==> ks[x] < |states|
    requires c'.readset == c.readset && c'.writeset == c.writeset && c'.exceptset == c.exceptset
    ensures ReadyThen(states, ks, c') == ReadyThen(states, ks, c)
  {
  }

  lemma EnlistedBlocks(states: seq<State>, id: nat, j: nat)
    requires j < |states| - 1 && id in states[|states| - 1].selectors
    requires states[|states| - 1].selectors[id].phase == Enlist
    ensures Blocked(states, id, j)
  {
  }

  // Scanning one socket.

  lemma LookOne(states: seq<State>, s': State, ks: seq<nat>, fds: set<nat>, ready: Sock -> bool)
    requires states != [] && forall x :: 0 <= x < |ks| ==> ks[x] < |states|
    ensures var s, i := states[|states| - 1], |ks|;
      var more := One(s, i, fds, ready);
      && ReadyOf(states + [s'], ks + [|states| - 1], fds, ready) == ReadyOf(states, ks, fds, ready) + more
      && |ReadyOf(states, ks, fds, ready) + more| == |ReadyOf(states, ks, fds, ready)| + |more|
  {
    var s, i, ks' := states[|states| - 1], |ks|, ks + [|states| - 1];
    var all := states + [s'];
    assert forall k :: 0 <= k < |states| ==> all[k] == states[k];
    assert forall x :: 0 <= x < i ==> ks'[x] == ks[x];
    assert i !in ReadyOf(states, ks, fds, ready);
  }

  /** Socket `i` alone, when it is one of some and ready. */
  function One(s: State, i: nat, fds: set<nat>, ready: Sock -> bool): set<nat> {
    if i in fds && i in s.socks && ready(s.socks[i]) then {i} else {}
  }

  lemma OneScanned(s: State, c: Selector, i: nat, n: nat)
    requires i < c.maxfdp1
    ensures var r, w, x := One(s, i, c.readset, ReadsReady), One(s, i, c.writeset, WritesReady),
                           One(s, i, c.exceptset, ExceptReady);
      && ScanSets(s, c, i) == Sets(c.found.read + r, c.found.write + w, c.found.except + x)
      && ScanStep(s, c, i, n) == n + |r| + |w| + |x|
  {
    var f := c.found;
    assert f.read + {} == f.read && f.write + {} == f.write && f.except + {} == f.except;
    assert |{i}| == 1;
  }

  lemma LooksMore(states: seq<State>, s': State, since: nat, ks: seq<nat>)
    requires states != [] && since < |states| && Looks(states, since, ks)
    ensures Looks(states + [s'], since, ks + [|states| - 1])
  {
  }

  lemma LookAt(states: seq<State>, s': State, c: Selector, since: nat, ks: seq<nat>, i: nat, n: nat)
    requires states != [] && i < c.maxfdp1 && Scanned(states, c, since, ks, i, n)
    ensures var s := states[|states| - 1];
      var c' := c.(found := ScanSets(s, c, i));
      Scanned(states + [s'], c', since, ks + [|states| - 1], i + 1, ScanStep(s, c, i, n))
  {
    hide ReadyOf, ScanSets, ScanStep, Looks;
    LooksMore(states, s', since, ks);
    LooksInside(states, since, ks);
    LookOne(states, s', ks, c.readset, ReadsReady);
    LookOne(states, s', ks, c.writeset, WritesReady);
    LookOne(states, s', ks, c.exceptset, ExceptReady);
    OneScanned(states[|states| - 1], c, i, n);
  }

  lemma LooksInside(states: seq<State>, since: nat, ks: seq<nat>)
    requires Looks(states, since, ks)
    ensures forall x :: 0 <= x < |ks| ==> ks[x] < |states|
  {
  }

  // The steps of the call itself.

  lemma NoLooks(states: seq<State>, c: Selector)
    requires states != [] && c.found == NO_SETS
    ensures Scanned(states, c, |states| - 1, [], 0, 0)
  {
  }

  lemma NothingFound(f: Sets)
    requires Size(f) == 0
    ensures f == NO_SETS
  {
  }

  predicate Asked(c: Selector, a: Action) {
    && a.AStart? && c.readset == a.readset && c.writeset == a.writeset && c.exceptset == a.exceptset
    && c.maxfdp1 == a.maxfdp1 && c.timeout == a.timeout
  }

  /** In state `since` the select begins a scan. */
  ghost predicate Begun(states: seq<State>, id: nat, since: nat) {
    && since < |states| && id in states[since].selectors
    && states[since].selectors[id].phase in {FirstScan(0, 0), SecondScan(0, 0), LastScan(0, 0)}
  }

  /** A call so far, and what it has done. */
  ghost predicate Told(states: seq<State>, actions: seq<Action>, id: nat, j: nat, since: nat, ks: seq<nat>) {
    && j < |actions| && |states| == |actions| + 1 && id in states[|states| - 1].selectors
    && Asked(states[|states| - 1].selectors[id], actions[j]) && Begun(states, id, since)
    && History(states, actions, id, j, states[|states| - 1].selectors[id], since, ks)
  }

  lemma ScanStepTold(states: seq<State>, actions: seq<Action>, id: nat, j: nat, since: nat, ks: seq<nat>)
    returns (since': nat, ks': seq<nat>)
    requires Told(states, actions, id, j, since, ks)
    requires var c := states[|states| - 1].selectors[id];
      match c.phase
      case FirstScan(i, _) => i < c.maxfdp1
      case SecondScan(i, _) => i < c.maxfdp1
      case LastScan(i, _) => i < c.maxfdp1
      case _ => false
    ensures Told(states + [SelectStep(states[|states| - 1], id)], actions + [ASelect(id)], id, j, since', ks')
  {
    hide Blocked, Expired, Looks, ReadyThen, Size, ScanSets, ScanStep, Scanned;
    var s := states[|states| - 1];
    var s', c := SelectStep(s, id), s.selectors[id];
    since', ks' := since, ks + [|states| - 1];
    BlockedOn(states, s', id, j);
    LookAt(states, s', c, since, ks, c.phase.i, c.phase.nready);
    SameScan(states + [s'], c.(found := ScanSets(s, c, c.phase.i)), s'.selectors[id], since, ks', c.phase.i + 1,
             ScanStep(s, c, c.phase.i, c.phase.nready));
  }

  lemma SameScan(states: seq<State>, c: Selector, c': Selector, since: nat, ks: seq<nat>, i: nat, n: nat)
    requires Scanned(states, c, since, ks, i, n) && c' == c.(phase := c'.phase)
    ensures Scanned(states, c', since, ks, i, n)
  {
    SameReady(states, ks, c, c');
  }

  /** The scan is over. */
  lemma ScanOverTold(states: seq<State>, actions: seq<Action>, id: nat, j: nat, since: nat, ks: seq<nat>)
    returns (since': nat, ks': seq<nat>)
    requires Told(states, actions, id, j, since, ks)
    requires var c := states[|states| - 1].selectors[id];
      match c.phase
      case FirstScan(i, _) => i >= c.maxfdp1
      case SecondScan(i, _) => i >= c.maxfdp1
      case LastScan(i, _) => i >= c.maxfdp1
      case _ => false
    ensures Told(states + [SelectStep(states[|states| - 1], id)], actions + [ASelect(id)], id, j, since', ks')
  {
    hide Blocked, Expired, Looks, ReadyThen, Size;
    var s := states[|states| - 1];
    var s', c := SelectStep(s, id), s.selectors[id];
    since', ks' := since, ks;
    BlockedOn(states, s', id, j);
    LooksOn(states, s', since, ks, c);
    SameReady(states + [s'], ks, c, s'.selectors[id]);
    if Size(c.found) == 0 { NothingFound(c.found); }
    assert forall x: nat :: Watches(s'.selectors[id], x) <==> Watches(c, x);
  }

  lemma EnlistTold(states: seq<State>, actions: seq<Action>, id: nat, j: nat, since: nat, ks: seq<nat>)
    requires Told(states, actions, id, j, since, ks)
    requires states[|states| - 1].selectors[id].phase == Enlist
    ensures Told(states + [SelectStep(states[|states| - 1], id)], actions + [ASelect(id)], id, j, since, ks)
  {
    hide Blocked, Expired, Looks, ReadyThen, Removed, Scanned;
    var s := states[|states| - 1];
    var s', c := SelectStep(s, id), s.selectors[id];
    var c' := s'.selectors[id];
    BlockedOn(states, s', id, j);
    ExpiredOn(actions, ASelect(id), id, j);
    assert forall x: nat :: Watches(c', x) <==> Watches(c, x);
    assert s'.socks.Keys == s.socks.Keys;
  }

  lemma FallTold(states: seq<State>, actions: seq<Action>, id: nat, j: nat, since: nat, ks: seq<nat>)
    requires Told(states, actions, id, j, since, ks)
    requires states[|states| - 1].selectors[id].phase.Fall?
    ensures Told(states + [SelectStep(states[|states| - 1], id)], actions + [ASelect(id)], id, j, since, ks)
  {
    hide Blocked, Expired, Looks, ReadyThen, Removed, Scanned;
    var s := states[|states| - 1];
    var s', c := SelectStep(s, id), s.selectors[id];
    var c' := s'.selectors[id];
    BlockedOn(states, s', id, j);
    ExpiredOn(actions, ASelect(id), id, j);
    assert forall x: nat :: Watches(c', x) <==> Watches(c, x);
    assert s'.socks.Keys == s.socks.Keys;
  }

  lemma RaiseTold(states: seq<State>, actions: seq<Action>, id: nat, j: nat, since: nat, ks: seq<nat>)
    returns (since': nat, ks': seq<nat>)
    requires Told(states, actions, id, j, since, ks)
    requires states[|states| - 1].selectors[id].phase.Raise?
    ensures Told(states + [SelectStep(states[|states| - 1], id)], actions + [ASelect(id)], id, j, since', ks')
  {
    hide Blocked, Expired, Looks, ReadyThen, Removed;
    var s := states[|states| - 1];
    var s', c := SelectStep(s, id), s.selectors[id];
    var c' := s'.selectors[id];
    BlockedOn(states, s', id, j);
    ExpiredOn(actions, ASelect(id), id, j);
    assert forall x: nat :: Watches(c', x) <==> Watches(c, x);
    assert s'.socks.Keys == s.socks.Keys;
    since', ks' := since, ks;
    if c'.phase.SecondScan? || c'.phase.LastScan? {
      since', ks' := |states|, [];
      NoLooks(states + [s'], c');
    }
    hide Scanned;
  }

  lemma DelistTold(states: seq<State>, actions: seq<Action>, id: nat, j: nat, since: nat, ks: seq<nat>)
    returns (since': nat, ks': seq<nat>)
    requires Told(states, actions, id, j, since, ks)
    requires states[|states| - 1].selectors[id].phase.Delist?
    ensures Told(states + [SelectStep(states[|states| - 1], id)], actions + [ASelect(id)], id, j, since', ks')
  {
    hide Blocked, Expired, Looks, ReadyThen, Removed;
    var s := states[|states| - 1];
    var s', c := SelectStep(s, id), s.selectors[id];
    var c' := s'.selectors[id];
    BlockedOn(states, s', id, j);
    ExpiredOn(actions, ASelect(id), id, j);
    assert forall x: nat :: Watches(c', x) <==> Watches(c, x);
    assert s'.socks.Keys == s.socks.Keys;
    since', ks' := since, ks;
    if c'.phase.SecondScan? || c'.phase.LastScan? {
      since', ks' := |states|, [];
      NoLooks(states + [s'], c');
    }
    hide Scanned;
  }

  lemma WaitTold(states: seq<State>, actions: seq<Action>, a: Action, id: nat, j: nat, since: nat, ks: seq<nat>)
    requires Told(states, actions, id, j, since, ks) && Enabled(states[|states| - 1], a)
    requires a == AWake(id) || a == AExpire(id)
    ensures Told(states + [Next(states[|states| - 1], a)], actions + [a], id, j, since, ks)
  {
    hide Blocked, Expired, Looks, ReadyThen, Scanned;
    var s := states[|states| - 1];
    var s', c := Next(s, a), s.selectors[id];
    BlockedOn(states, s', id, j);
    ExpiredOn(actions, a, id, j);
    assert forall x: nat :: Watches(s'.selectors[id], x) <==> Watches(c, x);
  }

  lemma StepTold(states: seq<State>, actions: seq<Action>, a: Action, id: nat, j: nat, since: nat, ks: seq<nat>)
    returns (since': nat, ks': seq<nat>)
    requires Told(states, actions, id, j, since, ks) && Enabled(states[|states| - 1], a)
    requires !(a.AStart? && a.id == id)
    ensures Told(states + [Next(states[|states| - 1], a)], actions + [a], id, j, since', ks')
  {
    hide History, SelectStep;
    var s := states[|states| - 1];
    since', ks' := since, ks;
    if !Own(a, id) {
      OthersStep(s, a, id);
      ApartHistory(states, actions, Next(s, a), a, id, j, since, ks);
    } else if a != ASelect(id) {
      WaitTold(states, actions, a, id, j, since, ks);
    } else {
      var c := s.selectors[id];
      match c.phase
      case FirstScan(i, n) =>
        if i < c.maxfdp1 { since', ks' := ScanStepTold(states, actions, id, j, since, ks); }
        else { since', ks' := ScanOverTold(states, actions, id, j, since, ks); }
      case SecondScan(i, n) =>
        if i < c.maxfdp1 { since', ks' := ScanStepTold(states, actions, id, j, since, ks); }
        else { since', ks' := ScanOverTold(states, actions, id, j, since, ks); }
      case LastScan(i, n) =>
        if i < c.maxfdp1 { since', ks' := ScanStepTold(states, actions, id, j, since, ks); }
        else { since', ks' := ScanOverTold(states, actions, id, j, since, ks); }
      case Idle =>
        NoSteps(s, id);
        ApartHistory(states, actions, s, a, id, j, since, ks);
      case Returned(_) =>
        NoSteps(s, id);
        ApartHistory(states, actions, s, a, id, j, since, ks);
      case Enlist => EnlistTold(states, actions, id, j, since, ks);
      case Raise(_) => since', ks' := RaiseTold(states, actions, id, j, since, ks);
      case Fall(_, _, _) => FallTold(states, actions, id, j, since, ks);
      case Delist(_) => since', ks' := DelistTold(states, actions, id, j, since, ks);
    }
  }

  lemma NoSteps(s: State, id: nat)
    requires id in s.selectors && (s.selectors[id].phase.Idle? || s.selectors[id].phase.Returned?)
    ensures SelectStep(s, id) == s && Apart(s, s, id)
  {
  }

  // ----- the answer -----

  /** What a call has done so far, in every run. */
  lemma {:induction false} CallTold(states: seq<State>, actions: seq<Action>, id: nat, j: nat)
    returns (since: nat, ks: seq<nat>)
    requires Call(states, actions, id, j)
    ensures Told(states, actions, id, j, since, ks)
    decreases |actions|
  {
    hide Call, History, Enabled, Next;
    var n := |actions|;
    CallSize(states, actions, id, j);
    if n == j + 1 {
      since, ks := n, [];
      StartTold(states, actions, id, j);
    } else {
      CallBefore(states, actions, id, j);
      var states', actions' := states[..n], actions[..n - 1];
      since, ks := CallTold(states', actions', id, j);
      since, ks := StepTold(states', actions', actions[n - 1], id, j, since, ks);
    }
  }

  lemma CallSize(states: seq<State>, actions: seq<Action>, id: nat, j: nat)
    requires Call(states, actions, id, j)
    ensures j < |actions| && |states| == |actions| + 1
  {
  }

  /** The same call one step earlier. */
  lemma CallBefore(states: seq<State>, actions: seq<Action>, id: nat, j: nat)
    requires Call(states, actions, id, j) && |actions| > j + 1
    ensures var n := |actions|; var a, s := actions[n - 1], states[n - 1];
      && Call(states[..n], actions[..n - 1], id, j)
      && Enabled(s, a) && !(a.AStart? && a.id == id)
      && states == states[..n] + [Next(s, a)] && actions == actions[..n - 1] + [a]
  {
    hide Enabled, Next;
    var n := |actions|;
    assert Enabled(states[n - 1], actions[n - 1]) && states[n] == Next(states[n - 1], actions[n - 1]);
  }

  lemma StartTold(states: seq<State>, actions: seq<Action>, id: nat, j: nat)
    requires Call(states, actions, id, j) && |actions| == j + 1
    ensures Told(states, actions, id, j, |actions|, [])
  {
    var s := states[j + 1];
    assert Enabled(states[j], actions[j]) && s == Next(states[j], actions[j]);
    NoLooks(states, s.selectors[id]);
  }

  /** What `sal_select` answers, in every run and whatever other threads do in
    * between: `ks` tells when the last scan, which began in state `since`, looked at
    * each socket. */
  lemma SelectAnswers(states: seq<State>, actions: seq<Action>, id: nat, j: nat, r: int)
    returns (since: nat, ks: seq<nat>)
    requires Call(states, actions, id, j)
    requires id in states[|states| - 1].selectors && states[|states| - 1].selectors[id].phase == Returned(r)
    ensures Begun(states, id, since) && Asked(states[|states| - 1].selectors[id], actions[j])
    ensures Answered(states, actions, id, j, states[|states| - 1].selectors[id], r, since, ks)
  {
    hide Answered, Call;
    since, ks := CallTold(states, actions, id, j);
  }

  /** The sockets of a call do not change from state `since` on. */
  ghost predicate Calm(states: seq<State>, c: Selector, since: nat)
    requires states != []
  {
    forall k, x: nat :: since <= k < |states| && Watches(c, x) ==>
      var s, s' := states[k], states[|states| - 1];
      && (x in s.socks <==> x in s'.socks)
      && (x in s.socks ==>
            && ReadsReady(s.socks[x]) == ReadsReady(s'.socks[x]) && WritesReady(s.socks[x]) == WritesReady(s'.socks[x])
            && ExceptReady(s.socks[x]) == ExceptReady(s'.socks[x]))
  }

  /** When the sockets do not change during the last scan, the sets written back are
    * those ready at the end, and the answer is the number of their members; unless the
    * time has run out or a socket is not open. */
  lemma CalmAnswer(states: seq<State>, actions: seq<Action>, id: nat, j: nat, r: int) returns (since: nat)
    requires Call(states, actions, id, j)
    requires id in states[|states| - 1].selectors && states[|states| - 1].selectors[id].phase == Returned(r)
    ensures Begun(states, id, since)
    ensures var s := states[|states| - 1]; var c := s.selectors[id];
      Calm(states, c, since) && r != -1 && !Expired(actions, id, j) ==>
        && c.out.Some? && r == |c.out.value.read| + |c.out.value.write| + |c.out.value.except|
        && (forall x :: x in c.out.value.read <==>
              x in actions[j].readset && x < actions[j].maxfdp1 && x in s.socks
              && (s.socks[x].held || s.socks[x].rcvevent > 0))
        && (forall x :: x in c.out.value.write <==>
              x in actions[j].writeset && x < actions[j].maxfdp1 && x in s.socks && s.socks[x].sendevent != 0)
        && (forall x :: x in c.out.value.except <==>
              x in actions[j].exceptset && x < actions[j].maxfdp1 && x in s.socks && s.socks[x].errevent != 0)
  {
    hide Call, Expired, Blocked;
    var ks;
    since, ks := SelectAnswers(states, actions, id, j, r);
    var s := states[|states| - 1];
    var c := s.selectors[id];
    if Calm(states, c, since) && r != -1 && !Expired(actions, id, j) {
      CalmReady(states, c, since, ks, c.readset, ReadsReady);
      CalmReady(states, c, since, ks, c.writeset, WritesReady);
      CalmReady(states, c, since, ks, c.exceptset, ExceptReady);
    }
  }

  lemma CalmReady(states: seq<State>, c: Selector, since: nat, ks: seq<nat>, fds: set<nat>, ready: Sock -> bool)
    requires states != [] && Calm(states, c, since) && Looks(states, since, ks) && |ks| == c.maxfdp1
    requires forall x :: x in fds && x < c.maxfdp1 ==> Watches(c, x)
    requires ready in {ReadsReady, WritesReady, ExceptReady}
    ensures forall x :: x in ReadyOf(states, ks, fds, ready) <==>
      x in fds && x < c.maxfdp1 && x in states[|states| - 1].socks && ready(states[|states| - 1].socks[x])
  {
  }
}
