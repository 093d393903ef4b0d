/** Receiving on a socket: packets go into a mailbox, reads take bytes out of it
  * and keep the unread part of a buffer for the next read. */
module SalStream {
  import opened Wrappers

  type byte = bv8

  function Flatten(bufs: seq<seq<byte>>): seq<byte> {
    if bufs == [] then [] else bufs[0] + Flatten(bufs[1..])
  }

  lemma {:induction false} FlattenAppend(a: seq<seq<byte>>, b: seq<byte>)
    ensures Flatten(a + [b]) == Flatten(a) + b
  {
    if a == [] {
      assert [] + [b] == [b] && [b][1..] == [];
    } else {
      FlattenAppend(a[1..], b);
      assert (a + [b])[1..] == a[1..] + [b];
    }
  }

  function Min(a: nat, b: nat): nat { if a > b then b else a }

  // ----- what one read does to the waiting buffers -----

  /** The bytes a TCP read of `len` returns when `bufs` wait, first buffer first: at
    * most `len` of every buffer, up to the first that has that many. */
  function TcpBytes(bufs: seq<seq<byte>>, len: nat): seq<byte>
    requires bufs != []
  {
    if |bufs[0]| >= len || |bufs| == 1 then bufs[0][..Min(len, |bufs[0]|)]
    else bufs[0] + TcpBytes(bufs[1..], len)
  }

  /** The buffers left waiting. */
  function TcpRest(bufs: seq<seq<byte>>, len: nat): seq<seq<byte>>
    requires bufs != []
  {
    if |bufs[0]| > len then [bufs[0][len..]] + bufs[1..]
    else if |bufs[0]| == len || |bufs| == 1 then bufs[1..]
    else TcpRest(bufs[1..], len)
  }

  /** A read splits the stream in two and loses nothing. */
  lemma {:induction false} TcpConserves(bufs: seq<seq<byte>>, len: nat)
    requires bufs != []
    ensures Flatten(bufs) == TcpBytes(bufs, len) + Flatten(TcpRest(bufs, len))
    decreases |bufs|
  {
    if |bufs[0]| > len {
      var r := TcpRest(bufs, len);
      assert r[1..] == bufs[1..];
      assert bufs[0] == bufs[0][..len] + bufs[0][len..];
    } else if |bufs[0]| == len || |bufs| == 1 {
      assert bufs[0][..|bufs[0]|] == bufs[0];
    } else {
      TcpConserves(bufs[1..], len);
    }
  }

  /** The first waiting buffer with at least `len` bytes. */
  function FirstLong(bufs: seq<seq<byte>>, len: nat): (r: nat)
    ensures r <= |bufs|
    ensures r < |bufs| ==> |bufs[r]| >= len
    ensures forall i :: 0 <= i < r ==> |bufs[i]| < len
  {
    if bufs == [] || |bufs[0]| >= len then 0 else 1 + FirstLong(bufs[1..], len)
  }

  lemma FlattenFirst(bufs: seq<seq<byte>>)
    requires bufs != []
    ensures Flatten(bufs) == bufs[0] + Flatten(bufs[1..])
  {
  }

  /** How far a read reaches: over all the short buffers and `len` bytes of the
    * first long one; over everything when there is none. */
  lemma {:induction false} TcpExtent(bufs: seq<seq<byte>>, len: nat)
    requires bufs != []
    ensures var i := FirstLong(bufs, len);
      TcpBytes(bufs, len) == Flatten(bufs[..i]) + if i < |bufs| then bufs[i][..len] else []
    decreases |bufs|
  {
    if |bufs[0]| >= len {
      assert bufs[..0] == [];
    } else if |bufs| == 1 {
      assert bufs[1..] == [] && bufs[..1] == bufs;
      assert bufs[0][..|bufs[0]|] == bufs[0] && Flatten(bufs) == bufs[0] + [];
    } else {
      TcpExtent(bufs[1..], len);
      ExtentOn(bufs, len);
    }
  }

  /** A short first buffer is read whole. */
  lemma ExtentOn(bufs: seq<seq<byte>>, len: nat)
    requires |bufs| > 1 && |bufs[0]| < len
    requires var rest := bufs[1..]; var i := FirstLong(rest, len);
      TcpBytes(rest, len) == Flatten(rest[..i]) + if i < |rest| then rest[i][..len] else []
    ensures var i := FirstLong(bufs, len);
      TcpBytes(bufs, len) == Flatten(bufs[..i]) + if i < |bufs| then bufs[i][..len] else []
  {
    hide Flatten, TcpBytes, FirstLong;
    var i, rest := FirstLong(bufs, len), bufs[1..];
    ShortFirst(bufs, len);
    assert bufs[..i][0] == bufs[0] && bufs[..i][1..] == rest[..i-1];
    FlattenFirst(bufs[..i]);
    var tail := if i < |bufs| then bufs[i][..len] else [];
    assert bufs[0] + (Flatten(rest[..i-1]) + tail) == (bufs[0] + Flatten(rest[..i-1])) + tail;
  }

  lemma ShortFirst(bufs: seq<seq<byte>>, len: nat)
    requires |bufs| > 1 && |bufs[0]| < len
    ensures FirstLong(bufs, len) == FirstLong(bufs[1..], len) + 1
    ensures TcpBytes(bufs, len) == bufs[0] + TcpBytes(bufs[1..], len)
  {
  }

  lemma {:induction false} FlattenShort(bufs: seq<seq<byte>>)
    ensures Flatten(bufs) == [] <==> forall i :: 0 <= i < |bufs| ==> bufs[i] == []
  {
    if bufs != [] {
      FlattenShort(bufs[1..]);
      assert forall i :: 0 < i < |bufs| ==> bufs[i] == bufs[1..][i-1];
    }
  }

  /** The loop compares every buffer with the whole request, so a read stays within
    * the request exactly when no bytes come before the first long buffer, or, with
    * no long buffer, when everything waiting fits. */
  lemma TcpWithinRequest(bufs: seq<seq<byte>>, len: nat)
    requires bufs != [] && len > 0
    ensures |TcpBytes(bufs, len)| <= len <==>
      var i := FirstLong(bufs, len);
      if i < |bufs| then forall k :: 0 <= k < i ==> bufs[k] == [] else |Flatten(bufs)| <= len
  {
    TcpExtent(bufs, len);
    var i := FirstLong(bufs, len);
    assert i == |bufs| ==> bufs[..i] == bufs;
    FlattenShort(bufs[..i]);
  }

  // ----- the socket -----

  class Socket {
    const tcp: bool
    const capacity: nat          // of the receive mailbox
    var nonblocking: bool
    var lastdata: Option<seq<byte>>
    var lastoffset: nat
    var rcvevent: int
    var mbox: seq<seq<byte>>
    ghost var Accepted: seq<byte>   // every payload ever put into the mailbox
    ghost var Delivered: seq<byte>  // every byte ever consumed by a TCP read

    /** The unread part of `lastdata`, then the mailbox. */
    ghost function Waiting(): seq<seq<byte>>
      reads this
    {
      (if lastdata.Some? && lastoffset <= |lastdata.value| then [lastdata.value[lastoffset..]] else []) + mbox
    }

    ghost predicate Shape()
      reads this
    {
      && capacity <= 32767
      && rcvevent == |mbox| <= capacity
      && (forall i :: 0 <= i < |mbox| ==> |mbox[i]| < 65536)
      && (lastdata.None? ==> lastoffset == 0)
      && (lastdata.Some? ==> |lastdata.value| < 65536)
      && (lastdata.Some? ==> lastoffset < |lastdata.value| || lastoffset == 0)
    }

    /** The counters agree with the queue, the offset lies inside the held buffer,
      * and for TCP what was accepted is what was delivered and what waits, in order. */
    ghost predicate Valid()
      reads this
    {
      Shape() && (tcp ==> Accepted == Delivered + Flatten(Waiting()))
    }

    constructor (tcp: bool, capacity: nat, nonblocking: bool)
      requires capacity <= 32767
      ensures Valid() && Waiting() == [] && this.tcp == tcp && this.capacity == capacity
      ensures Accepted == [] && Delivered == []
    {
      this.tcp, this.capacity, this.nonblocking := tcp, capacity, nonblocking;
      lastdata, lastoffset, rcvevent, mbox := None, 0, 0, [];
      Accepted, Delivered := [], [];
    }

    /** `sal_packet_input`: refuses empty packets and a full mailbox.  The 16-bit
      * length field of the buffer keeps the length modulo 65536. */
    method PacketInput(data: seq<byte>) returns (r: int)
      requires Valid()
      modifies this`mbox, this`rcvevent, this`Accepted
      ensures Valid()
      ensures r == -1 || r == 0
      ensures r == 0 <==> data != [] && old(|mbox|) < capacity
      ensures r == -1 ==> mbox == old(mbox) && Accepted == old(Accepted)
      ensures r == 0 ==> var kept := data[..|data| % 65536];
        mbox == old(mbox) + [kept] && Accepted == old(Accepted) + kept
    {
      if |data| == 0 {
        return -1;
      }
      if |mbox| >= capacity {
        return -1;
      }
      ghost var before := Waiting();
      ghost var buf := data[..|data| % 65536];
      mbox := mbox + [data[..|data| % 65536]];
      rcvevent := rcvevent + 1;
      Accepted := Accepted + buf;
      assert Waiting() == before + [buf];
      FlattenAppend(before, buf);
      assert tcp ==> Delivered + (Flatten(before) + buf) == Delivered + Flatten(before) + buf;
      return 0;
    }

    /** `salnetconn_recv_data`; None when the fetch times out. */
    method RecvData() returns (buf: Option<seq<byte>>)
      requires rcvevent == |mbox|
      modifies this`mbox, this`rcvevent
      ensures rcvevent == |mbox|
      ensures old(mbox) == [] ==> buf == None && mbox == []
      ensures old(mbox) != [] ==> buf == Some(old(mbox)[0]) && mbox == old(mbox)[1..]
    {
      if mbox == [] {
        return None;
      }
      buf := Some(mbox[0]);
      mbox := mbox[1..];
      rcvevent := rcvevent - 1;
    }

    /** The top of the read loop: go on with `lastdata`, or fetch a buffer. */
    method Hold(dontwait: bool) returns (ok: bool)
      requires Shape()
      modifies this`lastdata, this`rcvevent, this`mbox
      ensures Shape() && Waiting() == old(Waiting())
      ensures ok <==> Waiting() != []
      ensures ok ==> lastdata.Some?
    {
      if lastdata.Some? {
        return true;
      }
      if (dontwait || nonblocking) && rcvevent <= 0 {
        return false;
      }
      var buf := RecvData();
      if buf.None? {
        return false;
      }
      lastdata := buf;
      return true;
    }

    /** The rest of the loop body: copy out of the held buffer, decide whether the
      * read is over, and keep or drop the buffer. */
    method Copy(len: nat, peek: bool) returns (chunk: seq<byte>, done: bool)
      requires Shape() && lastdata.Some?
      modifies this`lastdata, this`lastoffset
      ensures Shape()
      ensures var bufs := old(Waiting());
        && bufs != [] && chunk == bufs[0][..Min(len, |bufs[0]|)]
        && (done <==> !tcp || peek || |bufs[0]| >= len || |bufs| == 1)
        && Waiting() == (if peek then bufs
                         else if tcp && |bufs[0]| > len then [bufs[0][len..]] + bufs[1..]
                         else bufs[1..])
    {
      ghost var bufs := Waiting();
      var buf := lastdata.value;
      assert bufs[0] == buf[lastoffset..] && bufs[1..] == mbox;
      var buflen := |buf| - lastoffset;
      var copylen := Min(len, buflen);
      chunk := buf[lastoffset..lastoffset + copylen];
      done := if tcp then len == copylen || rcvevent <= 0 || peek else true;
      if !peek {
        if tcp && buflen > copylen {
          lastoffset := lastoffset + copylen;
        } else {
          lastdata, lastoffset := None, 0;
        }
      }
    }

    /** `sal_recvfrom` with a destination that grows as needed.  A fetch from an
      * empty mailbox times out.
      * - It fails exactly when nothing is asked for or nothing waits.
      * - A TCP read takes what `TcpBytes` says and leaves what `TcpRest` says.
      * - A UDP read takes one datagram and returns a prefix of it.
      * - A read with MSG_PEEK returns bytes of the first buffer only and leaves
      *   everything waiting. */
    method RecvFrom(len: nat, dontwait: bool, peek: bool) returns (r: int, out: seq<byte>)
      requires Valid()
      modifies this`lastdata, this`lastoffset, this`rcvevent, this`mbox, this`Delivered
      ensures Valid() && Accepted == old(Accepted)
      ensures r == -1 <==> len == 0 || old(Waiting()) == []
      ensures r == -1 ==> out == [] && Waiting() == old(Waiting())
      ensures r != -1 ==> r == |out|
      ensures r != -1 && tcp && !peek ==>
        out == TcpBytes(old(Waiting()), len) && Waiting() == TcpRest(old(Waiting()), len)
        && Delivered == old(Delivered) + out
      ensures r != -1 && !tcp && !peek ==>
        Waiting() == old(Waiting())[1..] && out == old(Waiting())[0][..Min(len, |old(Waiting())[0]|)]
      ensures r != -1 && peek ==>
        Waiting() == old(Waiting()) && out == old(Waiting())[0][..Min(len, |old(Waiting())[0]|)]
        && Delivered == old(Delivered)
    {
      hide TcpBytes, TcpRest, Flatten, ReadDone;
      if len == 0 {
        return -1, [];
      }
      ghost var all := Waiting();
      var ok;
      ok, out := ReadLoop(len, dontwait, peek);
      if !ok {
        return -1, [];
      }
      ReadIs(tcp, peek, all, Waiting(), out, len);
      if tcp && !peek {
        TcpConserves(all, len);
        ghost var was := Delivered;
        Delivered := Delivered + out;
        assert was + (out + Flatten(Waiting())) == Delivered + Flatten(Waiting());
      }
      return |out|, out;
    }

    /** Its loop over the waiting buffers, up to the end of the read; not `ok` when
      * nothing waits. */
    method ReadLoop(len: nat, dontwait: bool, peek: bool) returns (ok: bool, out: seq<byte>)
      requires Shape()
      modifies this`lastdata, this`lastoffset, this`rcvevent, this`mbox
      ensures Shape()
      ensures ok <==> old(Waiting()) != []
      ensures if ok then ReadDone(tcp, peek, old(Waiting()), Waiting(), out, len)
              else Waiting() == old(Waiting()) && out == []
    {
      hide Reading, ReadDone;
      ghost var all := Waiting();
      ReadStarts(tcp, peek, all, len);
      out := [];
      var done := false;
      while !done
        invariant Shape()
        invariant done ==> all != []
        invariant if done then ReadDone(tcp, peek, all, Waiting(), out, len)
                  else Reading(tcp, peek, all, Waiting(), out, len)
        decreases !done, |Waiting()|
      {
        ghost var bufs := Waiting();
        ok := Hold(dontwait);
        if !ok {
          NothingWaits(tcp, peek, all, out, len);
          ok := |out| > 0;
          return;
        }
        var chunk;
        chunk, done := Copy(len, peek);
        Turn(tcp, peek, all, bufs, out, len, chunk, done);
        out := out + chunk;
      }
      ok := true;
    }
  }

  /** In the loop: what has been read so far and what is still to be read. */
  ghost predicate Reading(tcp: bool, peek: bool, all: seq<seq<byte>>, left: seq<seq<byte>>, out: seq<byte>, len: nat) {
    if !tcp || peek || all == [] then out == [] && left == all
    else left != [] && TcpBytes(all, len) == out + TcpBytes(left, len) && TcpRest(all, len) == TcpRest(left, len)
  }

  /** At its end. */
  ghost predicate ReadDone(tcp: bool, peek: bool, all: seq<seq<byte>>, left: seq<seq<byte>>, out: seq<byte>, len: nat) {
    && all != []
    && if tcp && !peek then out == TcpBytes(all, len) && left == TcpRest(all, len)
       else out == all[0][..Min(len, |all[0]|)] && left == if peek then all else all[1..]
  }

  lemma ReadStarts(tcp: bool, peek: bool, all: seq<seq<byte>>, len: nat)
    ensures Reading(tcp, peek, all, all, [], len)
  {
    assert all != [] ==> [] + TcpBytes(all, len) == TcpBytes(all, len);
  }

  lemma NothingWaits(tcp: bool, peek: bool, all: seq<seq<byte>>, out: seq<byte>, len: nat)
    requires Reading(tcp, peek, all, [], out, len)
    ensures all == [] && out == []
  {
  }

  lemma ReadIs(tcp: bool, peek: bool, all: seq<seq<byte>>, left: seq<seq<byte>>, out: seq<byte>, len: nat)
    requires ReadDone(tcp, peek, all, left, out, len)
    ensures all != []
    ensures tcp && !peek ==> out == TcpBytes(all, len) && left == TcpRest(all, len)
    ensures !tcp || peek ==> out == all[0][..Min(len, |all[0]|)] && left == if peek then all else all[1..]
  {
  }

  lemma Turn(tcp: bool, peek: bool, all: seq<seq<byte>>, bufs: seq<seq<byte>>, out: seq<byte>, len: nat,
             chunk: seq<byte>, done: bool)
    requires Reading(tcp, peek, all, bufs, out, len) && bufs != [] && chunk == bufs[0][..Min(len, |bufs[0]|)]
    requires done <==> !tcp || peek || |bufs[0]| >= len || |bufs| == 1
    ensures var left := if peek then bufs
                        else if tcp && |bufs[0]| > len then [bufs[0][len..]] + bufs[1..]
                        else bufs[1..];
      if done then all != [] && ReadDone(tcp, peek, all, left, out + chunk, len)
      else Reading(tcp, peek, all, left, out + chunk, len)
  {
    hide TcpBytes, TcpRest;
    if tcp && !peek {
      TcpStep(bufs, len, done, out, chunk);
    } else {
      assert [] + chunk == chunk;
    }
  }

  /** One turn of the loop against the two specification functions. */
  lemma TcpStep(bufs: seq<seq<byte>>, len: nat, done: bool, out: seq<byte>, chunk: seq<byte>)
    requires bufs != [] && chunk == bufs[0][..Min(len, |bufs[0]|)]
    requires done <==> |bufs[0]| >= len || |bufs| == 1
    ensures done ==> out + TcpBytes(bufs, len) == out + chunk
    ensures done ==> TcpRest(bufs, len) == if |bufs[0]| > len then [bufs[0][len..]] + bufs[1..] else bufs[1..]
    ensures !done ==> out + TcpBytes(bufs, len) == (out + chunk) + TcpBytes(bufs[1..], len)
    ensures !done ==> TcpRest(bufs, len) == TcpRest(bufs[1..], len) && |bufs[0]| < len
  {
    if !done { assert chunk == bufs[0]; }
  }
}
