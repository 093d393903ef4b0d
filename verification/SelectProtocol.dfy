/** The wake-up protocol between `sal_select` and `sal_deal_event`.
  *
  * Any number of threads run selects and any number post events.  One step is one
  * region between SAL_ARCH_PROTECT and SAL_ARCH_UNPROTECT (or purely local work),
  * and the steps of all threads interleave freely.  Sockets stay open meanwhile. */
module SelectProtocol {
  import opened Wrappers

  // ----- state -----

  /** The counters of a socket.  `held` says that `lastdata` is not NULL;
    * `waiting` is `select_waiting`, an 8-bit number. */
  datatype Sock = Sock(rcvevent: int, sendevent: nat, errevent: nat, held: bool, waiting: nat)

  datatype Phase =
    | Idle
    | FirstScan(i: nat, nready: nat)   // not on the list yet
    | Enlist                           // about to put the select_cb on the list
    | Raise(i: nat)                    // raising select_waiting from fd i on
    | SecondScan(i: nat, nready: nat)
    | Parked                           // in sal_arch_sem_wait
    | Fall(i: nat, limit: nat, why: Why)  // lowering select_waiting from fd i up to limit
    | Delist(why: Why)
    | LastScan(i: nat, nready: nat)
    | Returned(result: int)

  datatype Why = FoundReady | Woken | TimedOut | BadSocket

  /** The `timeout` argument: NULL, a zero time, or any other. */
  datatype Timeout = Forever | Zero | Bounded

  datatype Sets = Sets(read: set<nat>, write: set<nat>, except: set<nat>)

  const NO_SETS := Sets({}, {}, {})

  /** A thread's select call: its arguments, where it is, its select_cb, how often
    * that has been signalled, which only the proof looks at, the local sets of the
    * scan, and what is written back to the caller's sets on return. */
  datatype Selector = Selector(
    readset: set<nat>, writeset: set<nat>, exceptset: set<nat>, maxfdp1: nat, timeout: Timeout,
    phase: Phase, signalled: bool, sem: nat, signals: nat, found: Sets, out: Option<Sets>)

  /** A thread in `sal_deal_event`, between two of its protected regions: it has
    * treated entry `at` of the list and remembers `select_cb_ctr` as `seen`. */
  datatype Poster = Resting | Walking(sock: nat, at: nat, seen: nat)

  datatype State = State(
    socks: map<nat, Sock>, list: seq<nat>, ctr: nat,
    selectors: map<nat, Selector>, posters: map<nat, Poster>)

  predicate Watches(c: Selector, x: nat) {
    x < c.maxfdp1 && (x in c.readset || x in c.writeset || x in c.exceptset)
  }

  /** What `sal_deal_event` tests before it signals. */
  predicate CounterReady(k: Sock, c: Selector, x: nat) {
    || (k.rcvevent > 0 && x in c.readset)
    || (k.sendevent != 0 && x in c.writeset)
    || (k.errevent != 0 && x in c.exceptset)
  }

  /** What `sal_selscan` adds to nready for one fd. */
  function ScanCount(k: Sock, c: Selector, x: nat): nat {
    (if x in c.readset && (k.held || k.rcvevent > 0) then 1 else 0)
    + (if x in c.writeset && k.sendevent != 0 then 1 else 0)
    + (if x in c.exceptset && k.errevent != 0 then 1 else 0)
  }

  // ----- select steps -----

  function ScanStep(s: State, c: Selector, i: nat, n: nat): nat {
    if Watches(c, i) && i in s.socks then n + ScanCount(s.socks[i], c, i) else n
  }

  /** The local sets of `sal_selscan` once fd `i` has been looked at. */
  function ScanSets(s: State, c: Selector, i: nat): Sets {
    if Watches(c, i) && i in s.socks then
      var k := s.socks[i];
      Sets(c.found.read + (if i in c.readset && (k.held || k.rcvevent > 0) then {i} else {}),
           c.found.write + (if i in c.writeset && k.sendevent != 0 then {i} else {}),
           c.found.except + (if i in c.exceptset && k.errevent != 0 then {i} else {}))
    else c.found
  }

  function WithPhase(s: State, id: nat, p: Phase): State
    requires id in s.selectors
  {
    s.(selectors := s.selectors[id := s.selectors[id].(phase := p)])
  }

  /** The scan has looked at fd `i`. */
  function WithScan(s: State, id: nat, p: Phase, i: nat): State
    requires id in s.selectors
  {
    var c := s.selectors[id];
    s.(selectors := s.selectors[id := c.(phase := p, found := ScanSets(s, c, i))])
  }

  /** A scan begins with empty sets. */
  function ScanFrom(s: State, id: nat, p: Phase): State
    requires id in s.selectors
  {
    s.(selectors := s.selectors[id := s.selectors[id].(phase := p, found := NO_SETS)])
  }

  /** `return_copy_fdsets`. */
  function Answer(s: State, id: nat, r: int): State
    requires id in s.selectors
  {
    var c := s.selectors[id];
    s.(selectors := s.selectors[id := c.(phase := Returned(r), out := Some(c.found))])
  }

  function SetWaiting(s: State, x: nat, w: nat): State
    requires x in s.socks
  {
    s.(socks := s.socks[x := s.socks[x].(waiting := w)])
  }

  function IndexIn(list: seq<nat>, id: nat): (r: nat)
    ensures r <= |list|
    ensures r < |list| ==> list[r] == id
    ensures forall i :: 0 <= i < r ==> list[i] != id
  {
    if list == [] || list[0] == id then 0 else 1 + IndexIn(list[1..], id)
  }

  function Removed(list: seq<nat>, id: nat): seq<nat> {
    var i := IndexIn(list, id);
    if i == |list| then list else list[..i] + list[i+1..]
  }

  /** A thread calls select. */
  function Start(s: State, id: nat, r: set<nat>, w: set<nat>, e: set<nat>, maxfdp1: nat, timeout: Timeout): State {
    s.(selectors := s.selectors[id :=
      Selector(r, w, e, maxfdp1, timeout, FirstScan(0, 0), false, 0, 0, NO_SETS, None)])
  }

  /** The next step of a select that is not waiting. */
  function SelectStep(s: State, id: nat): State
    requires id in s.selectors
  {
    var c := s.selectors[id];
    match c.phase
    case FirstScan(i, n) =>
      if i < c.maxfdp1 then WithScan(s, id, FirstScan(i + 1, ScanStep(s, c, i, n)), i)
      else if n > 0 then Answer(s, id, n)
      else if c.timeout.Zero? then Answer(s, id, 0)
      else WithPhase(s, id, Enlist)
    case Enlist =>
      var c' := c.(signalled := false, sem := 0, signals := 0, phase := Raise(0));
      s.(list := [id] + s.list, ctr := s.ctr + 1, selectors := s.selectors[id := c'])
    case Raise(i) =>
      if i >= c.maxfdp1 then ScanFrom(s, id, SecondScan(0, 0))
      else if !Watches(c, i) then WithPhase(s, id, Raise(i + 1))
      else if i in s.socks then
        SetWaiting(WithPhase(s, id, Raise(i + 1)), i, (s.socks[i].waiting + 1) % 256)
      else WithPhase(s, id, Fall(0, i, BadSocket))
    case SecondScan(i, n) =>
      if i < c.maxfdp1 then WithScan(s, id, SecondScan(i + 1, ScanStep(s, c, i, n)), i)
      else if n > 0 then WithPhase(s, id, Fall(0, c.maxfdp1, FoundReady))
      else WithPhase(s, id, Parked)
    case Fall(i, limit, why) =>
      if i >= limit then WithPhase(s, id, Delist(why))
      else if Watches(c, i) && i in s.socks && s.socks[i].waiting > 0 then
        SetWaiting(WithPhase(s, id, Fall(i + 1, limit, why)), i, s.socks[i].waiting - 1)
      else WithPhase(s, id, Fall(i + 1, limit, why))
    case Delist(why) =>
      var s' := match why
        case BadSocket => WithPhase(s, id, Returned(-1))
        case TimedOut => Answer(s, id, 0)
        case _ => ScanFrom(s, id, LastScan(0, 0));
      s'.(list := Removed(s.list, id), ctr := s.ctr + 1)
    case LastScan(i, n) =>
      if i < c.maxfdp1 then WithScan(s, id, LastScan(i + 1, ScanStep(s, c, i, n)), i)
      else Answer(s, id, n)
    case _ => s
  }

  /** `sal_arch_sem_wait` returns because the semaphore was signalled. */
  function Wake(s: State, id: nat): State
    requires id in s.selectors && s.selectors[id].sem > 0
  {
    var c := s.selectors[id];
    s.(selectors := s.selectors[id := c.(phase := Fall(0, c.maxfdp1, Woken), sem := c.sem - 1)])
  }

  /** ... or because the time is up. */
  function Expire(s: State, id: nat): State
    requires id in s.selectors
  {
    WithPhase(s, id, Fall(0, s.selectors[id].maxfdp1, TimedOut))
  }

  // ----- event steps -----

  datatype Event = RcvPlus | RcvMinus | SendPlus | SendMinus | Error

  function Int16(x: int): int { (x + 32768) % 65536 - 32768 }

  function Counted(k: Sock, e: Event): Sock {
    match e
    case RcvPlus => k.(rcvevent := Int16(k.rcvevent + 1))
    case RcvMinus => k.(rcvevent := Int16(k.rcvevent - 1))
    case SendPlus => k.(sendevent := (k.sendevent + 1) % 65536)
    case SendMinus => k.(sendevent := (k.sendevent + 65535) % 65536)
    case Error => k.(errevent := 1)
  }

  function Signalled(c: Selector): Selector {
    c.(signalled := true, sem := c.sem + 1, signals := c.signals + 1)
  }

  /** One pass of the loop body for the entry at `idx`: signal it if it is waiting
    * for socket `x` and has not been signalled; past the end the walk is over. */
  function Visit(s: State, p: nat, x: nat, idx: nat): State
    requires x in s.socks && idx <= |s.list|
  {
    if idx == |s.list| then s.(posters := s.posters[p := Resting])
    else
      var id := s.list[idx];
      var s' := s.(posters := s.posters[p := Walking(x, id, s.ctr)]);
      if id in s.selectors && !s.selectors[id].signalled && CounterReady(s.socks[x], s.selectors[id], x) then
        var c := s.selectors[id];
        s'.(selectors := s.selectors[id := Signalled(c)])
      else s'
  }

  /** `sal_deal_event` up to its first UNPROTECT. */
  function Post(s: State, p: nat, x: nat, e: Event): State {
    if x !in s.socks then s
    else
      var s' := s.(socks := s.socks[x := Counted(s.socks[x], e)]);
      if s.socks[x].waiting == 0 then s' else Visit(s', p, x, 0)
  }

  /** From one PROTECT inside the loop to the next UNPROTECT: start over when the
    * list has changed, otherwise go on to the next entry. */
  function Walk(s: State, p: nat): State
    requires p in s.posters && s.posters[p].Walking? && s.posters[p].sock in s.socks
  {
    var w := s.posters[p];
    if w.seen != s.ctr then Visit(s, p, w.sock, 0)
    else
      var i := IndexIn(s.list, w.at);
      Visit(s, p, w.sock, if i < |s.list| then i + 1 else i)
  }

  /** A reader takes or leaves `lastdata`. */
  function Hold(s: State, x: nat, held: bool): State
    requires x in s.socks
  {
    s.(socks := s.socks[x := s.socks[x].(held := held)])
  }

  // ----- runs -----

  datatype Action =
    | AStart(id: nat, readset: set<nat>, writeset: set<nat>, exceptset: set<nat>, maxfdp1: nat,
             timeout: Timeout)
    | ASelect(id: nat)
    | AWake(id: nat)
    | AExpire(id: nat)
    | APost(p: nat, x: nat, event: Event)
    | AWalk(p: nat)
    | AHold(x: nat, held: bool)

  predicate Enabled(s: State, a: Action) {
    match a
    case AStart(id, _, _, _, _, _) =>
      id in s.selectors && (s.selectors[id].phase.Idle? || s.selectors[id].phase.Returned?)
    case ASelect(id) => id in s.selectors && !s.selectors[id].phase.Parked?
    case AWake(id) => id in s.selectors && s.selectors[id].phase.Parked? && s.selectors[id].sem > 0
    case AExpire(id) => id in s.selectors && s.selectors[id].phase.Parked? && s.selectors[id].timeout.Bounded?
    case APost(p, _, _) => p in s.posters && s.posters[p].Resting?
    case AWalk(p) => p in s.posters && s.posters[p].Walking? && s.posters[p].sock in s.socks
    case AHold(x, _) => x in s.socks
  }

  function Next(s: State, a: Action): State
    requires Enabled(s, a)
  {
    match a
    case AStart(id, r, w, e, m, t) => Start(s, id, r, w, e, m, t)
    case ASelect(id) => SelectStep(s, id)
    case AWake(id) => Wake(s, id)
    case AExpire(id) => Expire(s, id)
    case APost(p, x, e) => Post(s, p, x, e)
    case AWalk(p) => Walk(s, p)
    case AHold(x, held) => Hold(s, x, held)
  }

  /** Nobody in select, nobody posting. */
  predicate Quiet(s: State) {
    && s.list == []
    && (forall x :: x in s.socks ==> s.socks[x].waiting == 0)
    && (forall id :: id in s.selectors ==> s.selectors[id].phase == Idle)
    && (forall p :: p in s.posters ==> s.posters[p] == Resting)
  }

  /** ... and fewer than 256 threads ever select. */
  predicate Initial(s: State) {
    Quiet(s) && |s.selectors| <= 255
  }

  predicate Execution(s: State, actions: seq<Action>)
    decreases |actions|
  {
    actions == [] || (Enabled(s, actions[0]) && Execution(Next(s, actions[0]), actions[1..]))
  }

  function Final(s: State, actions: seq<Action>): State
    requires Execution(s, actions)
    decreases |actions|
  {
    if actions == [] then s else Final(Next(s, actions[0]), actions[1..])
  }

  // ----- invariants -----

  ghost predicate OnList(p: Phase) {
    p.Raise? || p.SecondScan? || p.Parked? || p.Fall? || p.Delist?
  }

  /** The select has raised `select_waiting` of `x` and not lowered it yet. */
  ghost predicate Registered(c: Selector, x: nat) {
    && Watches(c, x)
    && match c.phase
       case Raise(i) => x < i
       case SecondScan(_, _) => true
       case Parked => true
       case Fall(i, limit, _) => i <= x < limit
       case _ => false
  }

  ghost function Registrations(s: State, x: nat): set<nat> {
    set id | id in s.selectors && Registered(s.selectors[id], x)
  }

  ghost predicate ListInv(s: State) {
    && (forall i, j :: 0 <= i < j < |s.list| ==> s.list[i] != s.list[j])
    && (forall id :: id in s.list <==> id in s.selectors && OnList(s.selectors[id].phase))
  }

  /** Whatever a select has registered with is an open socket. */
  ghost predicate OpenInv(s: State) {
    forall id, x :: id in s.selectors && Registered(s.selectors[id], x) ==> x in s.socks
  }

  ghost predicate WaitingInv(s: State) {
    && |s.selectors| <= 255
    && (forall x :: x in s.socks ==> s.socks[x].waiting == |Registrations(s, x)|)
  }

  ghost predicate PosterInv(s: State) {
    forall p :: p in s.posters && s.posters[p].Walking? ==>
      var w := s.posters[p];
      && w.sock in s.socks && w.seen <= s.ctr
      && (w.seen == s.ctr ==> w.at in s.list)
  }

  /** A select has been signalled at most once, and only when marked. */
  ghost predicate SemOk(c: Selector) {
    c.phase.Idle? || c.sem <= c.signals <= (if c.signalled then 1 else 0)
  }

  ghost predicate SemInv(s: State) {
    forall id :: id in s.selectors ==> SemOk(s.selectors[id])
  }

  /** The walk of poster `p` has yet to come to select `id`: it is going to start
    * over, or `id` is further down the list. */
  ghost predicate YetToVisit(s: State, p: nat, id: nat, x: nat) {
    && p in s.posters && s.posters[p].Walking? && s.posters[p].sock == x
    && (s.posters[p].seen != s.ctr || IndexIn(s.list, s.posters[p].at) < IndexIn(s.list, id))
  }

  /** The sockets a select has found not ready since it is on the list. */
  ghost predicate FoundIdle(c: Selector, x: nat) {
    && Watches(c, x)
    && match c.phase
       case SecondScan(i, n) => n == 0 && x < i
       case Parked => true
       case _ => false
  }

  ghost predicate Waits(s: State, id: nat, x: nat) {
    && id in s.selectors && x in s.socks
    && FoundIdle(s.selectors[id], x)
    && !s.selectors[id].signalled
    && CounterReady(s.socks[x], s.selectors[id], x)
  }

  ghost predicate NoLostWakeUp(s: State) {
    forall id, x :: Waits(s, id, x) ==> exists p :: YetToVisit(s, p, id, x)
  }

  ghost predicate Inv(s: State) {
    ListInv(s) && OpenInv(s) && WaitingInv(s) && PosterInv(s) && SemInv(s) && NoLostWakeUp(s)
  }
}
