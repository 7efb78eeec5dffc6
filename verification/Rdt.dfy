/// The rdt_t object: the methods of both worker threads, each of which does to
/// the object what the corresponding function of the state machine says.
module Rdt {
  import opened Basics
  import opened ReliableUdp
  import RingBuffer

  lemma SeqStep(l: seq<nat>, x: nat, i: nat)
    requires i < |l| && x >= l[i]
    ensures l[..i] + InsertSeq(l[i..], x) == l[..i + 1] + InsertSeq(l[i + 1..], x)
  {
    assert l[..i + 1] == l[..i] + [l[i]] && l[i..][1..] == l[i + 1..];
  }

  lemma SeqHere(l: seq<nat>, x: nat, i: nat)
    requires i <= |l| && (i < |l| ==> x < l[i])
    ensures l[..i] + InsertSeq(l[i..], x) == l[..i] + [x] + l[i..]
  {
  }

  lemma SeqAscends(l: seq<nat>, x: nat)
    ensures Ascending(l) && x !in l ==> Ascending(InsertSeq(l, x))
  {
    hide Ascending, InsertSeq;
    if Ascending(l) && x !in l { SeqInserted(l, x); }
  }

  /// seq_insert_to_list on a list of numbers.
  method InsertSeqInto(l: seq<nat>, x: nat) returns (r: seq<nat>)
    ensures r == InsertSeq(l, x)
    ensures Ascending(l) && x !in l ==> Ascending(r)
  {
    hide Ascending, InsertSeq;
    SeqAscends(l, x);
    var i := 0;
    assert l[..0] + InsertSeq(l[0..], x) == InsertSeq(l, x) by { assert l[0..] == l; }
    while i < |l|
      invariant 0 <= i <= |l| && InsertSeq(l, x) == l[..i] + InsertSeq(l[i..], x)
    {
      if x < l[i] {
        SeqHere(l, x, i);
        return l[..i] + [x] + l[i..];
      }
      SeqStep(l, x, i);
      i := i + 1;
    }
    SeqHere(l, x, i);
    assert l[..i] == l && l[i..] == [];
    return l + [x];
  }

  /// seq_insert_to_list on a list of packets.
  method InsertPacketInto(l: seq<Packet>, p: Packet) returns (r: seq<Packet>)
    ensures r == InsertPacket(l, p)
    ensures Ordered(l) ==> Ordered(r)
  {
    hide Ordered;
    if Ordered(l) { PacketInserted(l, p); }
    var i := 0;
    while i < |l|
      invariant 0 <= i <= |l| && InsertPacket(l, p) == l[..i] + InsertPacket(l[i..], p)
    {
      if p.seqno < l[i].seqno {
        return l[..i] + [p] + l[i..];
      }
      assert l[..i + 1] == l[..i] + [l[i]] && l[i..][1..] == l[i + 1..];
      i := i + 1;
    }
    assert l[..i] == l && l[i..] == [];
    return l + [p];
  }

  lemma NothingLeft()
    ensures Reverse([]) == []
  {
  }

  class Rdt {
    const sendBuffer: RingBuffer.Ringbuffer
    const recvBuffer: RingBuffer.Ringbuffer
    const wndSize: nat
    const mtu: nat
    var currentSendSeq: nat
    var sendWndBase: nat
    var recvWndBase: nat
    var sendQueue: seq<Packet>
    var flightSendQueue: seq<Packet>
    var unackList: seq<nat>
    var recvQueue: seq<Packet>
    /// The packets pushed so far, and whether one was cut short.
    ghost var pushed: seq<Packet>
    ghost var overflow: bool

    ghost predicate Valid()
      reads this, sendBuffer, recvBuffer
    {
      sendBuffer.Valid() && recvBuffer.Valid() && sendBuffer != recvBuffer && sendBuffer.buffer != recvBuffer.buffer &&
      mtu >= 1 && wndSize >= 1
    }

    ghost function Setup(first: nat): Config
      reads this, sendBuffer, recvBuffer
      requires Valid()
    {
      Config(first, wndSize, mtu, recvBuffer.buffer.Length - 1)
    }

    /// The object as the two halves of the state machine's state.
    ghost function Sending(): Sender
      reads this, sendBuffer, sendBuffer.buffer, recvBuffer
      requires Valid()
    {
      Sender(sendBuffer.Contents(), sendWndBase, currentSendSeq, sendQueue, flightSendQueue, unackList)
    }

    ghost function Receiving(): Receiver
      reads this, recvBuffer, recvBuffer.buffer, sendBuffer
      requires Valid()
    {
      Receiver(recvWndBase, recvQueue, recvBuffer.Contents(), overflow, pushed)
    }

    /// create_rdt, with the random first sequence number as a parameter.
    constructor (first: nat, wndSize: nat, mtu: nat, size: nat)
      requires first >= 1 && wndSize >= 1 && mtu >= 1 && size >= 1
      ensures Valid() && Setup(first) == Config(first, wndSize, mtu, size - 1)
      ensures Sending() == Init(Setup(first)).s && Receiving() == Init(Setup(first)).r
      ensures fresh(sendBuffer) && fresh(recvBuffer) && fresh(sendBuffer.buffer) && fresh(recvBuffer.buffer)
    {
      sendBuffer := new RingBuffer.Ringbuffer(size);
      recvBuffer := new RingBuffer.Ringbuffer(size);
      this.wndSize, this.mtu := wndSize, mtu;
      currentSendSeq, sendWndBase, recvWndBase := first, first, 0;
      sendQueue, flightSendQueue, unackList, recvQueue := [], [], [], [];
      pushed, overflow := [], false;
    }

    // -------------------------------------------------------------- the sending thread

    /// flush_buffer: packets are made until the window is full or the buffer empty.
    method FlushBuffer(ghost first: nat)
      requires Valid()
      modifies this`sendQueue, this`currentSendSeq, sendBuffer
      ensures Valid() && Sending() == ReliableUdp.FlushBuffer(Setup(first), old(Sending())) && Receiving() == old(Receiving())
    {
      ghost var c, s0, r0 := Setup(first), Sending(), Receiving();
      while true
        invariant Valid() && ReliableUdp.FlushBuffer(c, Sending()) == ReliableUdp.FlushBuffer(c, s0) && Receiving() == r0
        decreases |sendBuffer.Contents()|
      {
        ghost var s := Sending();
        var lastWnd := sendWndBase + wndSize - 1;
        if currentSendSeq > lastWnd {
          break;
        }
        var data := sendBuffer.Read(mtu);
        if data == [] {
          break;
        }
        sendQueue := [Packet(currentSendSeq, data)] + sendQueue;
        currentSendSeq := currentSendSeq + 1;
        assert Sending() == Pack(c, s);
      }
    }

    /// flush_queue: every packet goes out, oldest first, and awaits its acknowledgement.
    method FlushQueue() returns (out: seq<Packet>)
      requires Valid()
      modifies this`sendQueue, this`flightSendQueue, this`unackList
      ensures Valid() && Sending() == SendAll(old(Sending())) && Receiving() == old(Receiving())
      ensures out == Reverse(old(sendQueue))
    {
      hide Reverse, InsertSeq;
      ghost var s0, r0, q0 := Sending(), Receiving(), sendQueue;
      out := [];
      NothingLeft();
      while |sendQueue| > 0
        invariant Valid() && SendAll(Sending()) == SendAll(s0) && Receiving() == r0
        invariant Reverse(q0) == out + Reverse(sendQueue)
        decreases |sendQueue|
      {
        ghost var s := Sending();
        var k := |sendQueue| - 1;
        var packet := sendQueue[k];
        ReverseLast(sendQueue);
        sendQueue := sendQueue[..k];
        flightSendQueue := [packet] + flightSendQueue;
        unackList := InsertSeqInto(unackList, packet.seqno);
        out := out + [packet];
        assert Sending() == SendOne(s);
      }
      assert sendQueue == [];
    }

    // -------------------------------------------------------------- the receiving thread

    /// The ACK branch.
    method OnAck(ack: nat)
      requires Valid()
      modifies this`sendWndBase, this`flightSendQueue, this`unackList
      ensures Valid() && Sending() == GetAck(old(Sending()), ack) && Receiving() == old(Receiving())
    {
      if ack < sendWndBase {
        return;
      }
      var position := FindPacket(flightSendQueue, ack);
      if position < |flightSendQueue| {
        var unack := FindSeq(unackList, flightSendQueue[position].seqno);
        if unack < |unackList| {
          if unackList[unack] == sendWndBase {
            if unack + 1 < |unackList| {
              sendWndBase := unackList[unack + 1];
            } else {
              sendWndBase := sendWndBase + 1;
            }
          }
          unackList := Without(unackList, unack);
        }
        flightSendQueue := Without(flightSendQueue, position);
      }
    }

    /// push_to_recv_buff.
    method PushToRecvBuff(p: Packet, ghost first: nat) returns (n: nat)
      requires Valid()
      modifies recvBuffer`wr, recvBuffer.buffer, this`pushed, this`overflow
      ensures Valid() && Receiving() == Push(Setup(first), old(Receiving()), p) && Sending() == old(Sending())
      ensures n == Min(|p.data|, old(recvBuffer.FreeSize())) && recvBuffer.Contents() == old(recvBuffer.Contents()) + p.data[..n]
      ensures overflow == (old(overflow) || n < |p.data|) && pushed == old(pushed) + [p]
    {
      if 0 == recvBuffer.FreeSize() {
        assert p.data[..0] == [];
        pushed, overflow := pushed + [p], overflow || p.data != [];
        return 0;
      }
      n := recvBuffer.Write(p.data);
      pushed, overflow := pushed + [p], overflow || n < |p.data|;
    }

    /// The loop that hands on the packets that follow. It is called only when it
    /// comes to an end.
    method DrainQueue(ghost first: nat)
      requires Valid() && Drain(Setup(first), Receiving()).queue == []
      modifies recvBuffer`wr, recvBuffer.buffer, this`pushed, this`overflow, this`recvQueue, this`recvWndBase
      ensures Valid() && Receiving() == Drain(Setup(first), old(Receiving())) && Sending() == old(Sending())
    {
      ghost var c, r0, s0 := Setup(first), Receiving(), Sending();
      while |recvQueue| > 0
        invariant Valid() && Drain(c, Receiving()) == Drain(c, r0) && Sending() == s0
        decreases |recvQueue|
      {
        if recvQueue[0].seqno == recvWndBase {
          var _ := PushToRecvBuff(recvQueue[0], first);
          recvWndBase := recvWndBase + 1;
          recvQueue := recvQueue[1..];
        } else {
          assert false;
        }
      }
    }

    /// The data branch; the acknowledgement is returned.
    method OnData(p: Packet, ghost first: nat) returns (ack: nat)
      requires Valid() && !Hangs(Setup(first), Receiving(), p)
      modifies recvBuffer`wr, recvBuffer.buffer, this`pushed, this`overflow, this`recvQueue, this`recvWndBase
      ensures Valid() && Receiving() == GetData(Setup(first), old(Receiving()), p) && Sending() == old(Sending())
      ensures ack == p.seqno
    {
      hide Drain, InsertPacket, Flat, Ordered;
      ack := p.seqno;
      if 0 == recvWndBase {
        recvWndBase := p.seqno + 1;
        var _ := PushToRecvBuff(p, first);
        return;
      }
      if p.seqno < recvWndBase || recvWndBase + wndSize < p.seqno {
        return;
      }
      if p.seqno == recvWndBase {
        var _ := PushToRecvBuff(p, first);
        recvWndBase := recvWndBase + 1;
        DrainQueue(first);
      } else {
        recvQueue := InsertPacketInto(recvQueue, p);
      }
    }

    // -------------------------------------------------------------- the user's calls

    /// One turn of rdt_send: the data go into the buffer all together, and while there is no room
    /// for them packets are made from what is there. Data as long as the buffer never fit.
    method Send(data: Bytes, ghost first: nat) returns (done: bool)
      requires Valid()
      modifies this`sendQueue, this`currentSendSeq, sendBuffer, sendBuffer.buffer
      ensures Valid() && Receiving() == old(Receiving())
      ensures done <==> |data| <= old(sendBuffer.FreeSize())
      ensures Sending() == if done then old(Sending()).(buf := old(Sending()).buf + data) else ReliableUdp.FlushBuffer(Setup(first), old(Sending()))
      ensures |data| >= sendBuffer.buffer.Length ==> !done
    {
      if |data| > sendBuffer.FreeSize() {
        FlushBuffer(first);
        return false;
      }
      var n := sendBuffer.Write(data);
      assert data[..n] == data;
      return true;
    }

    /// rdt_recv; without data it is a turn of the wait for them.
    method Recv(len: nat) returns (data: Bytes)
      requires Valid()
      modifies recvBuffer`rd
      ensures Valid() && data + Receiving().ring == old(Receiving()).ring && |data| == Min(len, |old(Receiving()).ring|)
      ensures Receiving() == old(Receiving()).(ring := Receiving().ring) && Sending() == old(Sending())
    {
      data := recvBuffer.Read(len);
    }
  }
}
