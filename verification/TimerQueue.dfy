/** The delayed actions of the event loop: a list of timeouts kept sorted by
  * deadline. */
module TimerQueue {
  import opened DList
  import opened Wrappers
  import opened Sequences

  datatype Timeout = Timeout(timeout_ms: int, private_data: nat, cb: nat, ms: int)

  const EINVAL := 22

  // ----- the queue as a sequence -----

  predicate Sorted(ts: seq<Timeout>) {
    forall i, j :: 0 <= i < j < |ts| ==> ts[i].timeout_ms <= ts[j].timeout_ms
  }

  /** Where a timeout goes: in front of the first one that is due later. */
  function Place(ts: seq<Timeout>, t: Timeout): (k: nat)
    ensures k <= |ts|
    ensures forall i :: 0 <= i < k ==> ts[i].timeout_ms <= t.timeout_ms
    ensures k < |ts| ==> t.timeout_ms < ts[k].timeout_ms
  {
    if ts == [] || t.timeout_ms < ts[0].timeout_ms then 0 else 1 + Place(ts[1..], t)
  }

  predicate Matches(t: Timeout, ms: int, cb: nat, private_data: nat) {
    (ms == -1 || t.ms == ms) && t.cb == cb && t.private_data == private_data
  }

  function FirstMatch(ts: seq<Timeout>, ms: int, cb: nat, private_data: nat): (k: nat)
    ensures k <= |ts|
    ensures forall i :: 0 <= i < k ==> !Matches(ts[i], ms, cb, private_data)
    ensures k < |ts| ==> Matches(ts[k], ms, cb, private_data)
  {
    if ts == [] || Matches(ts[0], ms, cb, private_data) then 0 else 1 + FirstMatch(ts[1..], ms, cb, private_data)
  }

  function Posted(ts: seq<Timeout>, t: Timeout): seq<Timeout> {
    Inserted(ts, Place(ts, t), t)
  }

  function Cancelled(ts: seq<Timeout>, ms: int, cb: nat, private_data: nat): seq<Timeout> {
    var k := FirstMatch(ts, ms, cb, private_data);
    if k == |ts| then ts else Without(ts, k)
  }

  /** The action the loop runs at time `now`, if any. */
  function Due(ts: seq<Timeout>, now: int): Option<Timeout> {
    if ts != [] && now >= ts[0].timeout_ms then Some(ts[0]) else None
  }

  function Fired(ts: seq<Timeout>, now: int): seq<Timeout> {
    if Due(ts, now).Some? then ts[1..] else ts
  }

  /** A timeout goes behind all that are due no later, equal deadlines included, and
    * in front of all that are due later; nothing else moves. */
  lemma PostedSorted(ts: seq<Timeout>, t: Timeout)
    requires Sorted(ts)
    ensures Sorted(Posted(ts, t))
    ensures multiset(Posted(ts, t)) == multiset(ts) + multiset{t}
    ensures exists k :: 0 <= k <= |ts| && Posted(ts, t) == Inserted(ts, k, t) && Between(ts, k, t)
  {
    var k := Place(ts, t);
    LaterThanPlace(ts, t);
    var r := Posted(ts, t);
    assert Between(ts, k, t);
    assert forall i :: 0 <= i < |r| ==> r[i] == if i < k then ts[i] else if i == k then t else ts[i-1];
    InsertedMultiset(ts, k, t);
  }

  predicate Between(ts: seq<Timeout>, k: nat, t: Timeout) {
    forall i :: 0 <= i < |ts| ==>
      if i < k then ts[i].timeout_ms <= t.timeout_ms else t.timeout_ms < ts[i].timeout_ms
  }

  lemma InsertedMultiset(ts: seq<Timeout>, k: nat, t: Timeout)
    requires k <= |ts|
    ensures multiset(Inserted(ts, k, t)) == multiset(ts) + multiset{t}
  {
    assert ts == ts[..k] + ts[k..];
  }

  lemma LaterThanPlace(ts: seq<Timeout>, t: Timeout)
    requires Sorted(ts)
    ensures forall i :: Place(ts, t) <= i < |ts| ==> t.timeout_ms < ts[i].timeout_ms
  {
  }

  /** Cancelling takes out the first match and nothing else. */
  lemma CancelledSorted(ts: seq<Timeout>, ms: int, cb: nat, private_data: nat)
    requires Sorted(ts)
    ensures var r := Cancelled(ts, ms, cb, private_data);
      && Sorted(r)
      && ((forall i :: 0 <= i < |ts| ==> !Matches(ts[i], ms, cb, private_data)) ==> r == ts)
      && (forall k :: 0 <= k < |ts| ==>
            Matches(ts[k], ms, cb, private_data) ==>
            (forall i :: 0 <= i < k ==> !Matches(ts[i], ms, cb, private_data)) ==>
            r == Without(ts, k))
  {
    hide Matches;
    var k := FirstMatch(ts, ms, cb, private_data);
    if k < |ts| { WithoutSorted(ts, k); }
  }

  /** In the fields: a timeout stays when its action or its argument is another, or its
    * time is, unless -1 is given; of those left the first one goes. */
  lemma CancelledInFields(ts: seq<Timeout>, ms: int, cb: nat, private_data: nat)
    ensures var r := Cancelled(ts, ms, cb, private_data);
      && ((forall i :: 0 <= i < |ts| ==>
             ts[i].cb != cb || ts[i].private_data != private_data || (ms != -1 && ts[i].ms != ms)) ==> r == ts)
      && (forall k :: 0 <= k < |ts| ==>
            ts[k].cb == cb && ts[k].private_data == private_data && (ms == -1 || ts[k].ms == ms) ==>
            (forall i :: 0 <= i < k ==>
               ts[i].cb != cb || ts[i].private_data != private_data || (ms != -1 && ts[i].ms != ms)) ==>
            r == ts[..k] + ts[k + 1..])
  {
    var k := FirstMatch(ts, ms, cb, private_data);
    var r := Cancelled(ts, ms, cb, private_data);
    assert k < |ts| ==> r == ts[..k] + ts[k + 1..];
    MatchesInFields(ts, ms, cb, private_data);
    hide Matches, FirstMatch, Cancelled;
  }

  lemma MatchesInFields(ts: seq<Timeout>, ms: int, cb: nat, private_data: nat)
    ensures forall i :: 0 <= i < |ts| ==>
      (Matches(ts[i], ms, cb, private_data) <==>
        ts[i].cb == cb && ts[i].private_data == private_data && (ms == -1 || ts[i].ms == ms))
  {
  }

  /** A timeout with another action, another argument or another time is pending as
    * often as before. */
  lemma OthersPending(ts: seq<Timeout>, ms: int, cb: nat, private_data: nat, t: Timeout)
    requires t.cb != cb || t.private_data != private_data || (ms != -1 && t.ms != ms)
    ensures multiset(Cancelled(ts, ms, cb, private_data))[t] == multiset(ts)[t]
  {
    var k := FirstMatch(ts, ms, cb, private_data);
    if k < |ts| { assert ts == ts[..k] + [ts[k]] + ts[k+1..]; }
  }

  lemma WithoutSorted(ts: seq<Timeout>, k: nat)
    requires Sorted(ts) && k < |ts|
    ensures Sorted(Without(ts, k))
  {
    var r := Without(ts, k);
    forall i, j | 0 <= i < j < |r| ensures r[i].timeout_ms <= r[j].timeout_ms {
      assert r[i] == ts[if i < k then i else i + 1] && r[j] == ts[if j < k then j else j + 1];
    }
  }

  /** What is fired is due, and nothing pending is due earlier. */
  lemma FiredFirst(ts: seq<Timeout>, now: int)
    requires Sorted(ts)
    ensures Sorted(Fired(ts, now))
    ensures Due(ts, now).Some? ==>
      now >= Due(ts, now).value.timeout_ms
      && forall i :: 0 <= i < |ts| ==> Due(ts, now).value.timeout_ms <= ts[i].timeout_ms
    ensures ts == (if Due(ts, now).Some? then [Due(ts, now).value] else []) + Fired(ts, now)
    ensures Due(ts, now).None? <==> forall i :: 0 <= i < |ts| ==> now < ts[i].timeout_ms
  {
    hide Fired, Without;
    DueFirst(ts, now);
    if ts != [] { WithoutSorted(ts, 0); }
  }

  lemma DueFirst(ts: seq<Timeout>, now: int)
    ensures ts == (if Due(ts, now).Some? then [Due(ts, now).value] else []) + Fired(ts, now)
    ensures Fired(ts, now) == if Due(ts, now).Some? then Without(ts, 0) else ts
  {
  }

  // ----- whole runs -----

  datatype Op =
    | Post(t: Timeout)
    | Cancel(ms: int, cb: nat, private_data: nat)
    | Fire(now: int)

  /** A pending timeout together with the position of its post in the run. */
  datatype Stamped = Stamped(t: Timeout, stamp: nat)

  function Plain(qs: seq<Stamped>): seq<Timeout> {
    seq(|qs|, i requires 0 <= i < |qs| => qs[i].t)
  }

  /** The queue operations with every post stamped. */
  function Step(qs: seq<Stamped>, op: Op, now: nat): seq<Stamped> {
    match op
    case Post(t) => Inserted(qs, Place(Plain(qs), t), Stamped(t, now))
    case Cancel(ms, cb, d) =>
      var k := FirstMatch(Plain(qs), ms, cb, d);
      if k == |qs| then qs else Without(qs, k)
    case Fire(time) => if Due(Plain(qs), time).Some? then qs[1..] else qs
  }

  function Run(ops: seq<Op>): seq<Stamped> {
    if ops == [] then [] else Step(Run(ops[..|ops|-1]), ops[|ops|-1], |ops| - 1)
  }

  /** Stamps do not change what the operations do. */
  lemma StepIsPlain(qs: seq<Stamped>, op: Op, now: nat)
    ensures Plain(Step(qs, op, now)) ==
      match op
      case Post(t) => Posted(Plain(qs), t)
      case Cancel(ms, cb, d) => Cancelled(Plain(qs), ms, cb, d)
      case Fire(time) => Fired(Plain(qs), time)
  {
    match op
    case Post(t) => assert Plain(Step(qs, op, now)) == Posted(Plain(qs), t);
    case Cancel(ms, cb, d) => assert Plain(Step(qs, op, now)) == Cancelled(Plain(qs), ms, cb, d);
    case Fire(time) => assert Plain(Step(qs, op, now)) == Fired(Plain(qs), time);
  }

  /** One more call is one more step of the queue. */
  lemma RunOn(calls: seq<Op>, op: Op)
    ensures Run(calls + [op]) == Step(Run(calls), op, |calls|)
    ensures Plain(Run(calls + [op])) == Plain(Step(Run(calls), op, |calls|))
  {
    assert (calls + [op])[..|calls|] == calls;
  }

  /** By deadline, and among equal deadlines in the order they were posted. */
  predicate InOrder(qs: seq<Stamped>) {
    forall i, j :: 0 <= i < j < |qs| ==> Earlier(qs[i], qs[j])
  }

  predicate Earlier(a: Stamped, b: Stamped) {
    a.t.timeout_ms < b.t.timeout_ms || (a.t.timeout_ms == b.t.timeout_ms && a.stamp < b.stamp)
  }

  lemma {:induction false} RunInOrder(ops: seq<Op>)
    ensures InOrder(Run(ops)) && Sorted(Plain(Run(ops)))
    ensures forall i :: 0 <= i < |Run(ops)| ==>
      Run(ops)[i].stamp < |ops| && ops[Run(ops)[i].stamp] == Post(Run(ops)[i].t)
    decreases |ops|
  {
    if ops != [] {
      var before := ops[..|ops|-1];
      RunInOrder(before);
      StepInOrder(Run(before), ops[|ops|-1], |ops| - 1);
    }
  }

  lemma StepInOrder(qs: seq<Stamped>, op: Op, now: nat)
    requires InOrder(qs) && Sorted(Plain(qs)) && forall i :: 0 <= i < |qs| ==> qs[i].stamp < now
    ensures InOrder(Step(qs, op, now)) && Sorted(Plain(Step(qs, op, now)))
    ensures forall i :: 0 <= i < |Step(qs, op, now)| ==>
      Step(qs, op, now)[i] in qs || (op.Post? && Step(qs, op, now)[i] == Stamped(op.t, now))
  {
    match op
    case Post(t) => PostInOrder(qs, t, now);
    case Cancel(ms, cb, d) =>
      var k := FirstMatch(Plain(qs), ms, cb, d);
      if k < |qs| { DropInOrder(qs, k); }
    case Fire(time) =>
      if qs != [] {
        DropInOrder(qs, 0);
        assert Without(qs, 0) == qs[1..];
      }
  }

  lemma PlainSorted(qs: seq<Stamped>)
    requires InOrder(qs)
    ensures Sorted(Plain(qs))
  {
  }

  lemma DropInOrder(qs: seq<Stamped>, k: nat)
    requires InOrder(qs) && k < |qs|
    ensures InOrder(Without(qs, k)) && Sorted(Plain(Without(qs, k)))
    ensures forall i :: 0 <= i < |Without(qs, k)| ==> Without(qs, k)[i] in qs
  {
    var r := Without(qs, k);
    assert forall i :: 0 <= i < |r| ==> r[i] == qs[if i < k then i else i + 1];
    PlainSorted(r);
  }

  lemma InsertInOrder(qs: seq<Stamped>, k: nat, x: Stamped)
    requires InOrder(qs) && k <= |qs|
    requires forall i :: 0 <= i < |qs| ==> if i < k then Earlier(qs[i], x) else Earlier(x, qs[i])
    ensures InOrder(Inserted(qs, k, x))
    ensures forall i :: 0 <= i <= |qs| ==> Inserted(qs, k, x)[i] in qs || Inserted(qs, k, x)[i] == x
  {
    hide Earlier;
    var r := Inserted(qs, k, x);
    forall i, j | 0 <= i < j < |r| ensures Earlier(r[i], r[j]) {
      assert r[i] == if i < k then qs[i] else if i == k then x else qs[i-1];
      assert r[j] == if j < k then qs[j] else if j == k then x else qs[j-1];
    }
  }

  lemma PostInOrder(qs: seq<Stamped>, t: Timeout, now: nat)
    requires InOrder(qs) && Sorted(Plain(qs)) && forall i :: 0 <= i < |qs| ==> qs[i].stamp < now
    ensures var r := Step(qs, Post(t), now);
      InOrder(r) && Sorted(Plain(r)) && forall i :: 0 <= i < |r| ==> r[i] in qs || r[i] == Stamped(t, now)
  {
    var ts := Plain(qs);
    LaterThanPlace(ts, t);
    assert forall i :: 0 <= i < |qs| ==> qs[i].t == ts[i];
    InsertInOrder(qs, Place(ts, t), Stamped(t, now));
    PlainSorted(Inserted(qs, Place(ts, t), Stamped(t, now)));
  }

  // ----- the list on the heap -----

  lemma DropFirst(ts: seq<Timeout>)
    requires ts != []
    ensures Without(ts, 0) == ts[1..]
  {
  }

  /** The links of `list` are embedded in the timeouts `ts`. */
  ghost predicate Carry(list: seq<Node<Timeout>>, ts: seq<Timeout>)
    reads list
  {
    |ts| == |list| && forall i :: 0 <= i < |list| ==> list[i].entry == Some(ts[i])
  }

  lemma HeadInserted(head: Node<Timeout>, list: seq<Node<Timeout>>, k: nat, node: Node<Timeout>)
    requires k <= |list|
    ensures [head] + Inserted(list, k, node) == Inserted([head] + list, k + 1, node)
  {
  }

  lemma HeadWithout(head: Node<Timeout>, list: seq<Node<Timeout>>, k: nat)
    requires k < |list|
    ensures [head] + Without(list, k) == Without([head] + list, k + 1)
  {
  }

  lemma CarryInserted(list: seq<Node<Timeout>>, ts: seq<Timeout>, k: nat, node: Node<Timeout>, t: Timeout)
    requires Carry(list, ts) && k <= |list| && node.entry == Some(t)
    ensures Carry(Inserted(list, k, node), Inserted(ts, k, t))
  {
  }

  lemma CarryWithout(list: seq<Node<Timeout>>, ts: seq<Timeout>, k: nat)
    requires Carry(list, ts) && k < |list|
    ensures Carry(Without(list, k), Without(ts, k))
  {
  }

  class Loop {
    const head: Node<Timeout>              // ctx->timeouts
    ghost var List: seq<Node<Timeout>>
    ghost var Calls: seq<Op>               // the calls made so far

    /** What the links carry, first one first. */
    ghost function Pending(): seq<Timeout>
      reads this
    {
      Plain(Run(Calls))
    }

    ghost function Links(): seq<Node<Timeout>>
      reads this
    {
      [head] + List
    }

    /** A well-formed ring through the head that carries the queue which the calls lead
      * to: by deadline, and equal deadlines in posting order (`RunInOrder`). */
    ghost predicate Valid()
      reads this, head, List
    {
      Ring(Links()) && Carry(List, Pending())
    }

    constructor ()
      ensures Valid() && Calls == [] && fresh(head)
    {
      head := new Node(None);
      List, Calls := [], [];
      new;
      Init(head);
      assert Links() == [head];
    }

    lemma NextLink(i: nat)
      requires Valid() && i < |Links()|
      ensures Links()[i].next == (if i < |List| then List[i] else head)
      ensures i > 0 ==> Links()[i] == List[i-1] != head
    {
      NextOf(Links(), i);
      assert i > 0 ==> Links()[0] != Links()[i];
    }

    /** The walk to the first link that is due later, or to the head. */
    method FindPlace(t: Timeout) returns (tmp: Node<Timeout>, ghost k: nat)
      requires Valid()
      ensures k == Place(Pending(), t) && tmp == (if k < |List| then List[k] else head)
    {
      hide Ring, Run, Plain, Place;
      NextLink(0);
      tmp, k := head.next, 0;
      if List != [] { NextLink(1); }
      while tmp != head
        invariant 0 <= k <= |List| && tmp == (if k < |List| then List[k] else head)
        invariant k < |List| ==> tmp != head
        invariant forall i :: 0 <= i < k ==> Pending()[i].timeout_ms <= t.timeout_ms
        decreases |List| - k
      {
        if t.timeout_ms < tmp.entry.value.timeout_ms {
          break;
        }
        NextLink(k + 1);
        tmp := tmp.next;
        k := k + 1;
        if k < |List| { NextLink(k + 1); }
      }
      PlaceIs(Pending(), t, k);
    }

    /** `aos_post_delayed_action` at time `now`; None stands for a NULL action. */
    method PostDelayedAction(ms: int, action: Option<nat>, param: nat, now: int) returns (r: int)
      requires Valid()
      modifies this`List, this`Calls, NodeSet(Links())`next, NodeSet(Links())`prev
      ensures Valid()
      ensures r == if action.None? then -22 else 0
      ensures action.None? ==> Calls == old(Calls)
      ensures action.Some? ==>
        var t := Timeout(now + ms, param, action.value, ms);
        Calls == old(Calls) + [Post(t)] && Pending() == Posted(old(Pending()), t)
    {
      if action.None? {
        return -EINVAL;
      }
      var t := Timeout(now + ms, param, action.value, ms);
      var timeout := new Node(Some(t));
      ghost var k;
      var tmp;
      tmp, k := FindPlace(t);
      LinkIn(timeout, tmp, t, k);
      return 0;
    }

    /** The link goes in front of `tmp`, which is the head when it goes last. */
    method LinkIn(timeout: Node<Timeout>, tmp: Node<Timeout>, ghost t: Timeout, ghost k: nat)
      requires Valid() && timeout !in Links() && timeout.entry == Some(t)
      requires k == Place(Pending(), t) && tmp == (if k < |List| then List[k] else head)
      modifies this`List, this`Calls, timeout`next, timeout`prev, NodeSet(Links())`next, NodeSet(Links())`prev
      ensures Valid() && Calls == old(Calls) + [Post(t)] && Pending() == Posted(old(Pending()), t)
      ensures List == Inserted(old(List), k, timeout)
    {
      CarryInserted(List, Pending(), k, timeout, t);
      StepIsPlain(Run(Calls), Post(t), |Calls|);
      assert Posted(Pending(), t) == Inserted(Pending(), k, t);
      hide Ring, Inserted, Run, Step, Place, Posted, Plain, Carry;
      PutBefore(timeout, tmp, k, Posted(Pending(), t));
      Record(Post(t), Inserted(List, k, timeout));
    }

    method PutBefore(timeout: Node<Timeout>, tmp: Node<Timeout>, ghost k: nat, ghost ts: seq<Timeout>)
      requires Ring(Links()) && timeout !in Links()
      requires k <= |List| && tmp == (if k < |List| then List[k] else head)
      requires Carry(Inserted(List, k, timeout), ts)
      modifies timeout`next, timeout`prev, NodeSet(Links())`next, NodeSet(Links())`prev
      ensures Ring([head] + Inserted(List, k, timeout)) && Carry(Inserted(List, k, timeout), ts)
    {
      ghost var i := if k < |List| then k + 1 else 0;
      assert tmp == Links()[i] && (if i == 0 then |Links()| else i) == k + 1;
      hide Ring, Inserted;
      HeadInserted(head, List, k, timeout);
      AddTail(timeout, tmp, Links(), i);
    }

    /** The walk to the first match, or to the head. */
    method FindMatch(ms: int, cb: nat, private_data: nat) returns (tmp: Node<Timeout>, ghost k: nat)
      requires Valid()
      ensures k == FirstMatch(Pending(), ms, cb, private_data) && tmp == (if k < |List| then List[k] else head)
      ensures tmp == head <==> k == |List|
    {
      hide Ring, Run, Plain, FirstMatch;
      NextLink(0);
      tmp, k := head.next, 0;
      if List != [] { NextLink(1); }
      while tmp != head
        invariant 0 <= k <= |List| && tmp == (if k < |List| then List[k] else head)
        invariant k < |List| ==> tmp != head
        invariant forall i :: 0 <= i < k ==> !Matches(Pending()[i], ms, cb, private_data)
        decreases |List| - k
      {
        if Matches(tmp.entry.value, ms, cb, private_data) {
          break;
        }
        NextLink(k + 1);
        tmp := tmp.next;
        k := k + 1;
        if k < |List| { NextLink(k + 1); }
      }
      MatchIs(Pending(), ms, cb, private_data, k);
    }

    /** `aos_cancel_delayed_action`: takes the first match out. */
    method CancelDelayedAction(ms: int, cb: nat, private_data: nat)
      requires Valid()
      modifies this`List, this`Calls, NodeSet(Links())`next, NodeSet(Links())`prev
      ensures Valid()
      ensures Calls == old(Calls) + [Cancel(ms, cb, private_data)]
      ensures Pending() == Cancelled(old(Pending()), ms, cb, private_data)
      ensures forall t: Timeout ::
        t.cb != cb || t.private_data != private_data || (ms != -1 && t.ms != ms) ==>
        multiset(Pending())[t] == multiset(old(Pending()))[t]
      ensures forall k :: 0 <= k < |old(Pending())| ==>
        var ts := old(Pending());
        ts[k].cb == cb && ts[k].private_data == private_data && (ms == -1 || ts[k].ms == ms) ==>
        (forall i :: 0 <= i < k ==>
           ts[i].cb != cb || ts[i].private_data != private_data || (ms != -1 && ts[i].ms != ms)) ==>
        Pending() == ts[..k] + ts[k + 1..]
    {
      hide Run, Step, FirstMatch, Ring, Plain;
      ghost var k;
      var tmp;
      ghost var op := Cancel(ms, cb, private_data);
      StepIsPlain(Run(Calls), op, |Calls|);
      tmp, k := FindMatch(ms, cb, private_data);
      if tmp != head {
        LinkOut(tmp, k, op);
      } else {
        Record(op, List);
      }
      CancelledInFields(old(Pending()), ms, cb, private_data);
      forall t: Timeout | t.cb != cb || t.private_data != private_data || (ms != -1 && t.ms != ms)
        ensures multiset(Pending())[t] == multiset(old(Pending()))[t]
      {
        OthersPending(old(Pending()), ms, cb, private_data, t);
      }
    }

    /** Takes link `k` out, which is what call `op` asks for. */
    method LinkOut(tmp: Node<Timeout>, ghost k: nat, ghost op: Op)
      requires Valid() && k < |List| && tmp == List[k]
      requires Plain(Step(Run(Calls), op, |Calls|)) == Without(Pending(), k)
      modifies this`List, this`Calls, NodeSet(Links())`next, NodeSet(Links())`prev
      ensures Valid() && Calls == old(Calls) + [op] && Pending() == Without(old(Pending()), k)
      ensures List == Without(old(List), k)
    {
      CarryWithout(List, Pending(), k);
      hide Ring, Without, Run, Step, Plain, Carry;
      TakeOut(tmp, k, Without(Pending(), k));
      Record(op, Without(List, k));
    }

    method TakeOut(tmp: Node<Timeout>, ghost k: nat, ghost ts: seq<Timeout>)
      requires Ring(Links()) && k < |List| && tmp == List[k] && Carry(Without(List, k), ts)
      modifies NodeSet(Links())`next, NodeSet(Links())`prev
      ensures Ring([head] + Without(List, k)) && Carry(Without(List, k), ts)
    {
      hide Ring;
      HeadWithout(head, List, k);
      Del(tmp, Links(), k + 1);
    }

    /** Call `op` has been carried out; the links are `list` now. */
    ghost method Record(op: Op, list: seq<Node<Timeout>>)
      requires Ring([head] + list) && Carry(list, Plain(Step(Run(Calls), op, |Calls|)))
      modifies this`List, this`Calls
      ensures Valid() && List == list && Calls == old(Calls) + [op]
      ensures Pending() == old(Plain(Step(Run(Calls), op, |Calls|)))
    {
      RunOn(Calls, op);
      hide Run, Step, Ring;
      List, Calls := list, Calls + [op];
    }

    /** The time the loop may sleep: -1 (for ever) exactly when nothing is pending,
      * and otherwise up to the first deadline. */
    method PollTimeout(now: int) returns (delayed_ms: int)
      requires Valid()
      ensures delayed_ms == -1 <==> Pending() == []
      ensures Pending() != [] ==>
        && delayed_ms >= 0
        && (forall i :: 0 <= i < |Pending()| ==> delayed_ms == 0 || now + delayed_ms <= Pending()[i].timeout_ms)
        && (delayed_ms == 0 <==> now >= Pending()[0].timeout_ms)
        && (delayed_ms > 0 ==> now + delayed_ms == Pending()[0].timeout_ms)
    {
      RunInOrder(Calls);
      hide Run;
      delayed_ms := -1;
      var empty := Empty(head, Links());
      if !empty {
        NextLink(0);
        var tmo := head.next;
        assert tmo == List[0] && tmo.entry == Some(Pending()[0]);
        if now < tmo.entry.value.timeout_ms {
          delayed_ms := tmo.entry.value.timeout_ms - now;
        } else {
          delayed_ms := 0;
        }
      }
    }

    /** The timeout part of one round of `aos_loop_run`: at most one action fires,
      * and it is out of the list before it runs. */
    method CheckTimeouts(now: int) returns (fired: Option<Timeout>)
      requires Valid()
      modifies this`List, this`Calls, NodeSet(Links())`next, NodeSet(Links())`prev
      ensures Valid()
      ensures Calls == old(Calls) + [Fire(now)]
      ensures fired == Due(old(Pending()), now) && Pending() == Fired(old(Pending()), now)
    {
      hide Run, Step, Plain, Ring;
      fired := None;
      ghost var op := Fire(now);
      StepIsPlain(Run(Calls), op, |Calls|);
      var empty := Empty(head, Links());
      if !empty {
        NextLink(0);
        var tmo: Node<Timeout> := head.next;
        if now >= tmo.entry.value.timeout_ms {
          DropFirst(Pending());
          LinkOut(tmo, 0, op);
          fired := tmo.entry;
        } else {
          Record(op, List);
        }
      } else {
        Record(op, List);
      }
    }
  }

  lemma {:induction false} PlaceIs(ts: seq<Timeout>, t: Timeout, k: nat)
    requires k <= |ts| && forall i :: 0 <= i < k ==> ts[i].timeout_ms <= t.timeout_ms
    requires k < |ts| ==> t.timeout_ms < ts[k].timeout_ms
    ensures Place(ts, t) == k
  {
    var p := Place(ts, t);
    assert p < |ts| ==> p >= k;
  }

  lemma {:induction false} MatchIs(ts: seq<Timeout>, ms: int, cb: nat, private_data: nat, k: nat)
    requires k <= |ts| && forall i :: 0 <= i < k ==> !Matches(ts[i], ms, cb, private_data)
    requires k < |ts| ==> Matches(ts[k], ms, cb, private_data)
    ensures FirstMatch(ts, ms, cb, private_data) == k
  {
    var p := FirstMatch(ts, ms, cb, private_data);
    assert p < |ts| ==> p >= k;
  }
}
