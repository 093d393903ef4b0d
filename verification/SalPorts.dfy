/** Local ports of the socket layer: the list of protocol control blocks and the
  * allocator of dynamic ports.  The TCP and UDP halves of the source are the same
  * code on two lists; this models one of them. */
module SalPorts {
  import opened Sequences

  const LOCAL_PORT_RANGE_START := 0xc000
  const LOCAL_PORT_RANGE_END := 0xffff
  const RANGE := 0x4000

  const ERR_OK := 0
  const ERR_BUF := -2
  const ERR_VAL := -6
  const ERR_USE := -8

  predicate InRange(port: nat) {
    LOCAL_PORT_RANGE_START <= port <= LOCAL_PORT_RANGE_END
  }

  /** ENSURE_LOCAL_PORT_RANGE on the low 16 bits. */
  function EnsureLocalPortRange(r: nat): (port: nat)
    ensures InRange(port)
  {
    LOCAL_PORT_RANGE_START + r % RANGE
  }

  /** The k-th port after `start`, going round the range. */
  function PortAfter(start: nat, k: nat): nat
    requires InRange(start)
  {
    LOCAL_PORT_RANGE_START + (start - LOCAL_PORT_RANGE_START + k) % RANGE
  }

  /** How far round the range port `q` lies after `start`. */
  function StepsTo(start: nat, q: nat): nat
    requires InRange(start) && InRange(q)
  {
    if q > start then q - start else q - start + RANGE
  }

  /** RANGE steps reach every port of the range. */
  lemma EveryPortReached(start: nat, q: nat)
    requires InRange(start) && InRange(q)
    ensures 1 <= StepsTo(start, q) <= RANGE && PortAfter(start, StepsTo(start, q)) == q
  {
  }

  /** One increment with wrap-around is one step round the range. */
  lemma NextPort(start: nat, k: nat)
    requires InRange(start)
    ensures InRange(PortAfter(start, k))
    ensures PortAfter(start, k + 1) ==
      if PortAfter(start, k) == LOCAL_PORT_RANGE_END then LOCAL_PORT_RANGE_START else PortAfter(start, k) + 1
    ensures PortAfter(start, 0) == start && PortAfter(start, RANGE) == start
  {
    NextModulo(start - LOCAL_PORT_RANGE_START + k);
  }

  lemma NextModulo(x: nat)
    ensures (x + 1) % RANGE == if x % RANGE == RANGE - 1 then 0 else x % RANGE + 1
  {
  }

  /** When RANGE consecutive steps have all met a bound port, no port is free. */
  lemma AllTried(start: nat, bound: set<nat>)
    requires InRange(start)
    requires forall k :: 1 <= k <= RANGE ==> PortAfter(start, k) in bound
    ensures forall q :: InRange(q) ==> q in bound
  {
    forall q | InRange(q) ensures q in bound {
      EveryPortReached(start, q);
    }
  }

  // ----- the list of control blocks -----

  class Pcb {
    var local_port: nat
    var next: Pcb?
  }

  ghost predicate Chain(head: Pcb?, s: seq<Pcb>)
    reads s
  {
    && head == (if s == [] then null else s[0])
    && Distinct(s)
    && (forall i :: 0 <= i < |s| - 1 ==> s[i].next == s[i+1])
    && (s != [] ==> s[|s|-1].next == null)
  }

  ghost predicate DistinctPorts(s: seq<Pcb>)
    reads s
  {
    forall i, j :: 0 <= i < j < |s| ==> s[i].local_port != s[j].local_port
  }

  ghost function Ports(s: seq<Pcb>): set<nat>
    reads s
  {
    set i | 0 <= i < |s| :: s[i].local_port
  }

  function After(s: seq<Pcb>, i: nat): Pcb? {
    if i + 1 < |s| then s[i+1] else null
  }

  lemma ChainNext(head: Pcb?, s: seq<Pcb>, i: nat)
    requires Chain(head, s) && i < |s|
    ensures s[i].next == After(s, i)
  {
  }

  /** With block `i` skipped, the other blocks are still a chain on distinct ports. */
  lemma Skipped(head: Pcb?, s: seq<Pcb>, i: nat)
    requires Distinct(s) && DistinctPorts(s) && i < |s|
    requires head == if i > 0 then s[0] else After(s, 0)
    requires forall k :: 0 <= k < |s| && k != i ==> s[k].next == if k + 1 == i then After(s, i) else After(s, k)
    ensures Chain(head, Without(s, i)) && DistinctPorts(Without(s, i))
    ensures s[i] !in Without(s, i)
  {
    WithoutDistinct(s, i);
    hide Distinct, Without;
    var r := Without(s, i);
    forall k | 0 <= k < |r| ensures r[k].next == After(r, k) {
      if k < i { assert r[k] == s[k]; } else { assert r[k] == s[k+1]; }
    }
    forall j, k | 0 <= j < k < |r| ensures r[j].local_port != r[k].local_port {
      assert r[j] == s[if j < i then j else j + 1] && r[k] == s[if k < i then k else k + 1];
    }
  }

  lemma OnlyOnce(s: seq<Pcb>, i: nat)
    requires Distinct(s) && i < |s|
    ensures forall k :: 0 <= k < |s| && s[k] == s[i] ==> k == i
  {
  }

  class PortTable {
    var pcbs: Pcb?      // sal_tcp_pcbs
    var tcp_port: nat   // the port handed out last, 0 before the first one
    ghost var List: seq<Pcb>

    /** The list ends, no block is on it twice, and no two share a port. */
    ghost predicate Valid()
      reads this, List
    {
      && Chain(pcbs, List) && DistinctPorts(List)
      && (tcp_port == 0 || InRange(tcp_port))
    }

    constructor ()
      ensures Valid() && List == []
    {
      pcbs, tcp_port, List := null, 0, [];
    }

    /** The search for a block with a given port. */
    method PortBound(port: nat) returns (bound: bool)
      requires Valid()
      ensures bound <==> port in Ports(List)
    {
      var pcb := pcbs;
      ghost var i := 0;
      while pcb != null
        invariant 0 <= i <= |List| && pcb == (if i < |List| then List[i] else null)
        invariant forall k :: 0 <= k < i ==> List[k].local_port != port
        decreases |List| - i
      {
        ChainNext(pcbs, List, i);
        if pcb.local_port == port {
          return true;
        }
        pcb := pcb.next;
        i := i + 1;
      }
      return false;
    }

    /** `sal_tcp_new_port` (`sal_udp_new_port`).  It answers the first port after the
      * last one handed out, going round the range, that no block has; and 0 exactly
      * when all 16384 ports are bound. */
    method NewPort(rand: nat) returns (port: nat)
      requires Valid()
      modifies this`tcp_port
      ensures Valid()
      ensures port == 0 <==> forall q :: 0xc000 <= q <= 0xffff ==> q in Ports(List)
      ensures port != 0 ==> 0xc000 <= port <= 0xffff && port !in Ports(List) && tcp_port == port
      ensures var start := if old(tcp_port) == 0 then 0xc000 + rand % 0x4000 else old(tcp_port);
        port != 0 ==>
          exists k :: 1 <= k <= RANGE && port == PortAfter(start, k)
            && forall j :: 1 <= j < k ==> PortAfter(start, j) in Ports(List)
    {
      hide Chain, DistinctPorts, Ports, PortAfter;
      ghost var bound := Ports(List);
      if tcp_port == 0 {
        tcp_port := EnsureLocalPortRange(rand);
      }
      ghost var start := tcp_port;
      var n := 0;
      NextPort(start, 0);
      while true
        invariant 0 <= n < RANGE && tcp_port == PortAfter(start, n) && Valid() && Ports(List) == bound
        invariant forall k :: 1 <= k <= n ==> PortAfter(start, k) in bound
        decreases RANGE - n
      {
        NextPort(start, n);
        if tcp_port == LOCAL_PORT_RANGE_END {
          tcp_port := LOCAL_PORT_RANGE_START;
        } else {
          tcp_port := tcp_port + 1;
        }
        NextPort(start, n + 1);
        var taken := PortBound(tcp_port);
        if !taken {
          assert tcp_port == PortAfter(start, n + 1);
          return tcp_port;
        }
        n := n + 1;
        if n > LOCAL_PORT_RANGE_END - LOCAL_PORT_RANGE_START {
          AllTried(start, bound);
          return 0;
        }
      }
    }

    method OnList(pcb: Pcb) returns (found: bool)
      requires Valid()
      ensures found <==> pcb in List
    {
      var p := pcbs;
      ghost var i := 0;
      while p != null
        invariant 0 <= i <= |List| && p == (if i < |List| then List[i] else null)
        invariant forall k :: 0 <= k < i ==> List[k] != pcb
        decreases |List| - i
      {
        ChainNext(pcbs, List, i);
        if p == pcb {
          return true;
        }
        p := p.next;
        i := i + 1;
      }
      return false;
    }

    method UsedByOther(pcb: Pcb, port: nat) returns (used: bool)
      requires Valid()
      ensures used <==> exists i :: 0 <= i < |List| && List[i] != pcb && List[i].local_port == port
    {
      var p := pcbs;
      ghost var i := 0;
      while p != null
        invariant 0 <= i <= |List| && p == (if i < |List| then List[i] else null)
        invariant forall k :: 0 <= k < i ==> List[k] == pcb || List[k].local_port != port
        decreases |List| - i
      {
        ChainNext(pcbs, List, i);
        if pcb != p && p.local_port == port {
          return true;
        }
        p := p.next;
        i := i + 1;
      }
      return false;
    }

    /** `sal_tcp_bind` (`sal_udp_bind`).  A block gets the port it asks for unless
      * another block has it, and a free dynamic port when it asks for none; it joins
      * the front of the list unless it is already there. */
    method Bind(pcb: Pcb?, port0: nat, rand: nat) returns (err: int)
      requires Valid() && port0 < 65536
      modifies this, pcb
      ensures Valid()
      ensures err == -6 <==> pcb == null
      ensures err == -2 <==>
        pcb != null && port0 == 0 && old(forall q :: 0xc000 <= q <= 0xffff ==> q in Ports(List))
      ensures err == -8 <==>
        pcb != null && port0 != 0 && old(exists i :: 0 <= i < |List| && List[i] != pcb && List[i].local_port == port0)
      ensures err == 0 || err == -6 || err == -2 || err == -8
      ensures err != 0 ==> List == old(List) && (pcb != null ==> unchanged(pcb))
      ensures err == 0 ==>
        && List == (if pcb in old(List) then old(List) else [pcb] + old(List))
        && (port0 != 0 ==> pcb.local_port == port0)
        && (port0 == 0 ==> 0xc000 <= pcb.local_port <= 0xffff && pcb.local_port !in old(Ports(List)))
    {
      if pcb == null {
        return ERR_VAL;
      }
      var rebind := OnList(pcb);
      var port := port0;
      if port == 0 {
        port := NewPort(rand);
        assert Ports(List) == old(Ports(List));
        if port == 0 {
          return ERR_BUF;
        }
      } else {
        var used := UsedByOther(pcb, port);
        if used {
          return ERR_USE;
        }
      }
      Place(pcb, port, rebind);
      return ERR_OK;
    }

    /** The end of the bind: set the port, and join the list unless already on it. */
    method Place(pcb: Pcb, port: nat, rebind: bool)
      requires Valid() && (rebind <==> pcb in List)
      requires forall i :: 0 <= i < |List| && List[i] != pcb ==> List[i].local_port != port
      modifies this`pcbs, this`List, pcb
      ensures Valid() && pcb.local_port == port
      ensures List == if rebind then old(List) else [pcb] + old(List)
    {
      pcb.local_port := port;
      if !rebind {
        pcb.next := pcbs;
        pcbs := pcb;
        ghost var before := List;
        List := [pcb] + before;
        assert forall i :: 0 < i < |List| ==> List[i] == before[i-1];
      }
    }

    /** Takes the block behind `p` out of the chain. */
    method Unlink(p: Pcb, ghost i: nat)
      requires Valid() && i + 1 < |List| && p == List[i] && p.next == List[i+1]
      modifies this`List, p`next
      ensures Valid() && List == Without(old(List), i + 1) && old(List)[i+1] !in List
    {
      OnlyOnce(List, i);
      ChainNext(pcbs, List, i + 1);
      hide Distinct;
      p.next := p.next.next;
      Skipped(pcbs, List, i + 1);
      List := Without(List, i + 1);
    }

    /** `sal_tcp_remove` (`sal_udp_remove`): the block leaves the list, if it was on it. */
    method Remove(pcb: Pcb)
      requires Valid()
      modifies this`pcbs, this`List, (set p | p in List)`next
      ensures Valid()
      ensures forall i :: 0 <= i < |old(List)| && old(List)[i] == pcb ==> List == Without(old(List), i)
      ensures pcb !in old(List) ==> List == old(List)
      ensures pcb !in List
    {
      if pcbs == pcb {
        ChainNext(pcbs, List, 0);
        OnlyOnce(List, 0);
        pcbs := pcb.next;
        Skipped(pcbs, List, 0);
        List := Without(List, 0);
      } else {
        hide DistinctPorts;
        var p := pcbs;
        ghost var i := 0;
        while p != null
          invariant 0 <= i <= |List| && p == (if i < |List| then List[i] else null)
          invariant forall k :: 0 <= k < |List| && k <= i ==> List[k] != pcb
          invariant Valid() && List == old(List)
          decreases |List| - i
        {
          ChainNext(pcbs, List, i);
          if p.next != null && p.next == pcb {
            OnlyOnce(List, i + 1);
            Unlink(p, i);
            return;
          }
          p := p.next;
          i := i + 1;
        }
      }
    }
  }
}
