/// The reliable-UDP protocol as a state machine: one sender, one receiver, and a
/// network that loses, duplicates and reorders. Every locked region of the
/// worker threads is one step. Sequence numbers do not wrap.
module ReliableUdp {
  import opened Basics

  type Bytes = seq<int>

  /// A data packet.
  datatype Packet = Packet(seqno: nat, data: Bytes)

  /// The first sequence number (random in create_rdt), wnd_size, mtu, and the
  /// number of bytes that the receive ring holds.
  datatype Config = Config(first: nat, wnd: nat, mtu: nat, cap: nat) {
    ghost predicate Ok() { first >= 1 && wnd >= 1 && mtu >= 1 }
  }

  // ---------------------------------------------------------------- the sender

  /// send_buffer, send_wnd_base, current_send_seq, send_queue and
  /// flight_send_queue (both newest first), and unack_list.
  datatype Sender = Sender(buf: Bytes, base: nat, cur: nat, queue: seq<Packet>, flight: seq<Packet>, unack: seq<nat>)

  /// flush_buffer's test: the window is not full and there is something to send.
  predicate CanPack(c: Config, s: Sender) { s.cur <= s.base + c.wnd - 1 && s.buf != [] && c.mtu >= 1 }

  /// One turn of flush_buffer that makes a packet.
  function Pack(c: Config, s: Sender): Sender
    requires CanPack(c, s)
  {
    var n := Min(c.mtu, |s.buf|);
    s.(buf := s.buf[n..], cur := s.cur + 1, queue := [Packet(s.cur, s.buf[..n])] + s.queue)
  }

  /// flush_buffer.
  function FlushBuffer(c: Config, s: Sender): Sender
    decreases |s.buf|
  {
    if CanPack(c, s) then FlushBuffer(c, Pack(c, s)) else s
  }

  /// seq_insert_to_list on unack_list: in front of the first greater number.
  function InsertSeq(l: seq<nat>, x: nat): seq<nat> {
    if l == [] then [x] else if x < l[0] then [x] + l else [l[0]] + InsertSeq(l[1..], x)
  }

  /// One turn of flush_queue: the oldest packet goes out.
  function SendOne(s: Sender): Sender
    requires s.queue != []
  {
    var k := |s.queue| - 1;
    var p := s.queue[k];
    s.(queue := s.queue[..k], flight := [p] + s.flight, unack := InsertSeq(s.unack, p.seqno))
  }

  /// flush_queue: all packets of the queue go out, oldest first.
  ghost function SendAll(s: Sender): Sender
    decreases |s.queue|
  {
    if s.queue == [] then s else SendAll(SendOne(s))
  }

  /// The first packet with this number, or the length of the list (find_packet).
  function FindPacket(l: seq<Packet>, x: nat): (i: nat)
    ensures i <= |l| && (i < |l| ==> l[i].seqno == x) && forall j | 0 <= j < i :: l[j].seqno != x
  {
    if l == [] || l[0].seqno == x then 0 else 1 + FindPacket(l[1..], x)
  }

  /// find_unack.
  function FindSeq(l: seq<nat>, x: nat): (i: nat)
    ensures i <= |l| && (i < |l| ==> l[i] == x) && forall j | 0 <= j < i :: l[j] != x
  {
    if l == [] || l[0] == x then 0 else 1 + FindSeq(l[1..], x)
  }

  function Without<T>(l: seq<T>, i: nat): seq<T>
    requires i < |l|
  {
    l[..i] + l[i + 1..]
  }

  /// send_wnd_base after the unacknowledged number at index i has been acknowledged.
  function NextBase(s: Sender, i: nat): nat
    requires i < |s.unack|
  {
    if s.unack[i] != s.base then s.base else if i + 1 < |s.unack| then s.unack[i + 1] else s.base + 1
  }

  /// The ACK branch of recv_worker_thread.
  function GetAck(s: Sender, ack: nat): Sender {
    if ack < s.base then s
    else
      var i := FindPacket(s.flight, ack);
      if i == |s.flight| then s
      else
        var j := FindSeq(s.unack, ack);
        var s1 := if j == |s.unack| then s else s.(base := NextBase(s, j), unack := Without(s.unack, j));
        s1.(flight := Without(s1.flight, i))
  }

  // ---------------------------------------------------------------- the receiver

  /// recv_wnd_base (0 until the first packet), recv_queue, recv_buffer, whether
  /// a push did not fit, and all packets pushed so far.
  datatype Receiver = Receiver(base: nat, queue: seq<Packet>, ring: Bytes, overflow: bool, pushed: seq<Packet>)

  /// push_to_recv_buff: what does not fit is dropped.
  function Push(c: Config, r: Receiver, p: Packet): Receiver {
    var n := if |r.ring| <= c.cap then Min(|p.data|, c.cap - |r.ring|) else 0;
    r.(ring := r.ring + p.data[..n], overflow := r.overflow || n < |p.data|, pushed := r.pushed + [p])
  }

  /// seq_insert_to_list on recv_queue.
  function InsertPacket(l: seq<Packet>, p: Packet): seq<Packet> {
    if l == [] then [p] else if p.seqno < l[0].seqno then [p] + l else [l[0]] + InsertPacket(l[1..], p)
  }

  /// The loop that hands on the packets that follow: it goes on as long as the
  /// head of the queue is the expected packet.
  function Drain(c: Config, r: Receiver): Receiver
    decreases |r.queue|
  {
    if r.queue == [] || r.queue[0].seqno != r.base then r
    else Drain(c, Push(c, r, r.queue[0]).(base := r.base + 1, queue := r.queue[1..]))
  }

  /// The data branch of recv_worker_thread, up to the point where the loop of
  /// Drain stops or stops advancing.
  function GetData(c: Config, r: Receiver, p: Packet): Receiver {
    if r.base == 0 then Push(c, r, p).(base := p.seqno + 1)
    else if p.seqno < r.base || r.base + c.wnd < p.seqno then r
    else if p.seqno == r.base then Drain(c, Push(c, r, p).(base := r.base + 1))
    else r.(queue := InsertPacket(r.queue, p))
  }

  /// The loop of Drain only leaves when the queue is empty; with another packet
  /// at the head it runs forever.
  predicate Hangs(c: Config, r: Receiver, p: Packet) {
    r.base != 0 && p.seqno == r.base && GetData(c, r, p).queue != []
  }

  // ---------------------------------------------------------------- the system

  /// net and acks are the packets ever sent and the acknowledgements ever
  /// queued, any of which may arrive any number of times, or never. sent,
  /// written and read are histories.
  datatype Sys = Sys(s: Sender, r: Receiver, net: set<Packet>, acks: set<nat>, hung: bool, sent: seq<Packet>, written: Bytes, read: Bytes)

  datatype Step = Write(data: Bytes) | PackOne | Flush | AckArrives(ack: nat) | DataArrives(p: Packet) | Read(n: nat)

  function Init(c: Config): Sys {
    Sys(Sender([], c.first, c.first, [], [], []), Receiver(0, [], [], false, []), {}, {}, false, [], [], [])
  }

  predicate Enabled(c: Config, x: Sys, st: Step) {
    match st
    case Write(_) => true
    case PackOne => CanPack(c, x.s)
    case Flush => x.s.queue != []
    case AckArrives(a) => a in x.acks
    case DataArrives(p) => p in x.net && !x.hung
    case Read(n) => n <= |x.r.ring|
  }

  function Apply(c: Config, x: Sys, st: Step): Sys
    requires Enabled(c, x, st)
  {
    match st
    case Write(d) => x.(s := x.s.(buf := x.s.buf + d), written := x.written + d)
    case PackOne => x.(s := Pack(c, x.s), sent := x.sent + [Pack(c, x.s).queue[0]])
    case Flush => x.(s := SendOne(x.s), net := x.net + {x.s.queue[|x.s.queue| - 1]})
    case AckArrives(a) => x.(s := GetAck(x.s, a))
    case DataArrives(p) => x.(r := GetData(c, x.r, p), acks := x.acks + {p.seqno}, hung := Hangs(c, x.r, p))
    case Read(n) => x.(r := x.r.(ring := x.r.ring[n..]), read := x.read + x.r.ring[..n])
  }

  /// A run: every step is enabled where it is taken.
  ghost predicate Run(c: Config, x: Sys, steps: seq<Step>, y: Sys)
    decreases |steps|
  {
    if steps == [] then x == y else Enabled(c, x, steps[0]) && Run(c, Apply(c, x, steps[0]), steps[1..], y)
  }

  // ---------------------------------------------------------------- what every step keeps

  /// The packets made so far carry consecutive numbers.
  ghost predicate Numbered(c: Config, sent: seq<Packet>) {
    forall i | 0 <= i < |sent| :: sent[i].seqno == c.first + i && sent[i].data != []
  }

  ghost predicate Ascending(l: seq<nat>) { forall i, j | 0 <= i < j < |l| :: l[i] < l[j] }

  ghost function Reverse(l: seq<Packet>): seq<Packet> { if l == [] then [] else Reverse(l[1..]) + [l[0]] }

  ghost function Flat(l: seq<Packet>): Bytes { if l == [] then [] else l[0].data + Flat(l[1..]) }

  /// The sender's window: k packets have gone out, and those that are not waiting
  /// for an acknowledgement have been acknowledged.
  ghost predicate WindowInv(first: nat, wnd: nat, s: Sender, acks: set<nat>, k: nat) {
    first <= s.base <= first + k && s.cur <= s.base + wnd &&
    Ascending(s.unack) && (forall x | x in s.unack :: s.base <= x < first + k) &&
    (forall x | first <= x < first + k && x !in s.unack :: x in acks)
  }

  /// The packets made: k have gone out, the others wait in the queue.
  ghost predicate SentInv(c: Config, s: Sender, net: set<Packet>, sent: seq<Packet>, written: Bytes, k: nat) {
    k <= |sent| && s.cur == c.first + |sent| && Numbered(c, sent) && Reverse(s.queue) == sent[k..] &&
    (forall p | p in net :: Sent(c, sent[..k], p)) && written == Flat(sent) + s.buf
  }

  /// p is the packet made with its number.
  ghost predicate Sent(c: Config, sent: seq<Packet>, p: Packet) {
    c.first <= p.seqno < c.first + |sent| && p == sent[p.seqno - c.first]
  }

  /// The packets pushed carry consecutive numbers, and are the ones made with them.
  ghost predicate PushedInv(c: Config, r: Receiver, sent: seq<Packet>) {
    (r.base == 0 ==> r.queue == [] && r.pushed == []) &&
    (r.base != 0 ==> r.pushed != [] && r.base == r.pushed[0].seqno + |r.pushed|) &&
    (forall i | 0 <= i < |r.pushed| :: r.pushed[i].seqno == r.pushed[0].seqno + i && Sent(c, sent, r.pushed[i])) &&
    (forall p | p in r.queue :: Sent(c, sent, p))
  }

  /// A packet that was received and not pushed waits in the queue; the expected one has not been received.
  ghost predicate ExpectInv(r: Receiver, acks: set<nat>) {
    (r.base == 0 ==> acks == {}) && r.base !in acks && (forall p | p in r.queue :: r.base < p.seqno && p.seqno in acks) &&
    (forall x | x in acks && x >= r.base :: Queued(r.queue, x))
  }

  ghost predicate Queued(q: seq<Packet>, x: nat) { exists p :: p in q && p.seqno == x }

  ghost function Gone(x: Sys): int { |x.sent| - |x.s.queue| }

  ghost predicate Inv(c: Config, x: Sys) {
    Gone(x) >= 0 && WindowInv(c.first, c.wnd, x.s, x.acks, Gone(x)) && SentInv(c, x.s, x.net, x.sent, x.written, Gone(x)) &&
    PushedInv(c, x.r, x.sent) && (!x.hung ==> ExpectInv(x.r, x.acks)) &&
    (!x.r.overflow ==> x.read + x.r.ring == Flat(x.r.pushed))
  }

  lemma InitInv(c: Config)
    requires c.Ok()
    ensures Inv(c, Init(c))
  {
  }

  // ---------------------------------------------------------------- the sender's steps

  lemma {:induction false} ReverseLast(l: seq<Packet>)
    requires l != []
    ensures Reverse(l) == [l[|l| - 1]] + Reverse(l[..|l| - 1])
    decreases |l|
  {
    if |l| > 1 {
      ReverseLast(l[1..]);
      assert l[1..][..|l| - 2] == l[..|l| - 1][1..];
    }
  }

  lemma {:induction false} FlatAppend(l: seq<Packet>, p: Packet)
    ensures Flat(l + [p]) == Flat(l) + p.data
    decreases |l|
  {
    if l != [] {
      FlatAppend(l[1..], p);
      assert (l + [p])[1..] == l[1..] + [p];
    }
  }

  lemma {:induction false} ReverseLength(l: seq<Packet>)
    ensures |Reverse(l)| == |l|
    decreases |l|
  {
    if l != [] {
      ReverseLength(l[1..]);
    }
  }

  lemma PackKeeps(c: Config, x: Sys)
    requires c.Ok() && Inv(c, x) && CanPack(c, x.s)
    ensures Inv(c, Apply(c, x, PackOne))
  {
    var y := Apply(c, x, PackOne);
    PackSent(c, x);
    hide Numbered, Sent, ExpectInv, Flat, Reverse, Ascending;
    forall p | Sent(c, x.sent, p)
      ensures Sent(c, y.sent, p)
    {
      StillSent(c, x.sent, y.sent[|x.sent|], p);
    }
  }

  lemma StillSent(c: Config, sent: seq<Packet>, q: Packet, p: Packet)
    requires Sent(c, sent, p)
    ensures Sent(c, sent + [q], p)
  {
  }

  lemma PackSent(c: Config, x: Sys)
    requires c.Ok() && Inv(c, x) && CanPack(c, x.s)
    ensures var y := Apply(c, x, PackOne); SentInv(c, y.s, y.net, y.sent, y.written, Gone(x)) && y.sent[..Gone(x)] == x.sent[..Gone(x)]
  {
    hide WindowInv, PushedInv, ExpectInv, Sent;
    var y := Apply(c, x, PackOne);
    var p := Pack(c, x.s).queue[0];
    FlatAppend(x.sent, p);
    assert x.s.buf == p.data + y.s.buf;
    assert y.s.queue[1..] == x.s.queue;
    assert y.sent[..Gone(x)] == x.sent[..Gone(x)];
    assert y.sent[Gone(x)..] == x.sent[Gone(x)..] + [p];
  }

  lemma {:induction false} InsertLast(l: seq<nat>, x: nat)
    requires forall y | y in l :: y < x
    ensures InsertSeq(l, x) == l + [x]
    decreases |l|
  {
    if l != [] {
      assert l[0] in l;
      assert forall y | y in l[1..] :: y in l;
      InsertLast(l[1..], x);
    }
  }

  lemma NumberAt(c: Config, sent: seq<Packet>, k: int)
    requires Numbered(c, sent)
    ensures 0 <= k < |sent| ==> sent[k].seqno == c.first + k
  {
  }

  lemma FlushKeeps(c: Config, x: Sys)
    requires c.Ok() && Inv(c, x) && x.s.queue != []
    ensures Inv(c, Apply(c, x, Flush))
  {
    hide Flat, Numbered;
    var y, k := Apply(c, x, Flush), Gone(x);
    var p := x.s.queue[|x.s.queue| - 1];
    NumberAt(c, x.sent, k);
    ReverseLast(x.s.queue);
    ReverseLength(x.s.queue);
    assert p == x.sent[k..][0] == x.sent[k] && p.seqno == c.first + k;
    assert Reverse(y.s.queue) == x.sent[k..][1..] == x.sent[k + 1..];
    InsertLast(x.s.unack, p.seqno);
    assert y.s.unack[|x.s.unack|] == p.seqno;
    assert forall q | q in x.net :: Sent(c, x.sent[..k + 1], q);
    assert Sent(c, x.sent[..k + 1], p);
    FlushWindow(c.first, c.wnd, x.s, y.s, x.acks, k);
  }

  lemma AscendingMore(l: seq<nat>, x: nat)
    requires Ascending(l) && forall y | y in l :: y < x
    ensures Ascending(l + [x])
  {
    assert forall i | 0 <= i < |l| :: l[i] in l;
  }

  lemma FlushWindow(first: nat, wnd: nat, s: Sender, s': Sender, acks: set<nat>, k: nat)
    requires WindowInv(first, wnd, s, acks, k) && s'.base == s.base && s'.cur == s.cur && s'.unack == s.unack + [first + k]
    ensures WindowInv(first, wnd, s', acks, k + 1)
  {
    AscendingMore(s.unack, first + k);
    assert forall x | x in s.unack :: x in s'.unack;
    assert first + k in s'.unack by { assert s'.unack[|s.unack|] == first + k; }
    forall x | first <= x < first + k + 1 && x !in s'.unack
      ensures x in acks
    {
      assert x !in s.unack && x != first + k;
    }
  }

  lemma WithoutMembers(l: seq<nat>, j: nat)
    requires j < |l|
    ensures forall x | x in l :: x == l[j] || x in Without(l, j)
    ensures forall x | x in Without(l, j) :: x in l
  {
    var r := Without(l, j);
    forall x | x in l
      ensures x == l[j] || x in r
    {
      var i :| 0 <= i < |l| && l[i] == x;
      assert i < j ==> r[i] == x;
      assert i > j ==> r[i - 1] == x;
    }
  }

  lemma WithoutAscending(l: seq<nat>, j: nat)
    requires j < |l| && Ascending(l)
    ensures Ascending(Without(l, j))
    ensures forall x | x in Without(l, j) :: x != l[j] && (j == 0 ==> |l| > 1 && l[1] <= x)
  {
    var r := Without(l, j);
    assert forall i | 0 <= i < |r| :: r[i] == l[if i < j then i else i + 1];
  }

  /// The base can only be the first unacknowledged number.
  lemma BaseFirst(l: seq<nat>, base: nat, j: nat)
    requires Ascending(l) && j < |l| && l[j] == base && forall x | x in l :: base <= x
    ensures j == 0
  {
    assert l[0] in l;
    assert l[0] <= l[j];
  }

  /// An acknowledgement moves the window to the next unacknowledged packet at most.
  lemma AckWindow(first: nat, wnd: nat, s: Sender, acks: set<nat>, k: nat, ack: nat)
    requires WindowInv(first, wnd, s, acks, k) && ack in acks
    ensures WindowInv(first, wnd, GetAck(s, ack), acks, k)
  {
    var j := FindSeq(s.unack, ack);
    if j < |s.unack| {
      WithoutMembers(s.unack, j);
      WithoutAscending(s.unack, j);
      assert s.unack[j] in s.unack;
      if s.unack[j] == s.base {
        BaseFirst(s.unack, s.base, j);
        if |s.unack| > 1 {
          assert s.unack[1] in s.unack;
        }
      }
    }
  }

  lemma AckKeeps(c: Config, x: Sys, ack: nat)
    requires c.Ok() && Inv(c, x) && ack in x.acks
    ensures Inv(c, Apply(c, x, AckArrives(ack)))
  {
    AckWindow(c.first, c.wnd, x.s, x.acks, Gone(x), ack);
  }

  lemma WriteKeeps(c: Config, x: Sys, d: Bytes)
    requires Inv(c, x)
    ensures Inv(c, Apply(c, x, Write(d)))
  {
  }

  // ---------------------------------------------------------------- the receiver's steps

  lemma PushKeeps(c: Config, r: Receiver, p: Packet, sent: seq<Packet>, base: nat)
    requires PushedInv(c, r, sent) && Sent(c, sent, p) && base == p.seqno + 1
    requires if r.base == 0 then true else p.seqno == r.base
    ensures PushedInv(c, Push(c, r, p).(base := base), sent)
  {
  }

  lemma PushRing(c: Config, r: Receiver, p: Packet, read: Bytes)
    requires !r.overflow ==> read + r.ring == Flat(r.pushed)
    ensures !Push(c, r, p).overflow ==> read + Push(c, r, p).ring == Flat(Push(c, r, p).pushed)
  {
    FlatAppend(r.pushed, p);
    var n := if |r.ring| <= c.cap then Min(|p.data|, c.cap - |r.ring|) else 0;
    if n == |p.data| {
      assert p.data[..n] == p.data;
    }
  }

  /// Handing on queued packets keeps the order, and when it empties the queue it
  /// has handed on all of it.
  lemma {:induction false} DrainKeeps(c: Config, r: Receiver, sent: seq<Packet>, read: Bytes)
    requires r.base != 0 && PushedInv(c, r, sent) && (!r.overflow ==> read + r.ring == Flat(r.pushed))
    ensures var d := Drain(c, r);
            PushedInv(c, d, sent) && r.base <= d.base && (!d.overflow ==> read + d.ring == Flat(d.pushed)) &&
            (d.queue == [] ==> forall p | p in r.queue :: p.seqno < d.base)
    decreases |r.queue|
  {
    if r.queue != [] && r.queue[0].seqno == r.base {
      var p := r.queue[0];
      var r1 := Push(c, r, p).(base := r.base + 1, queue := r.queue[1..]);
      PushKeeps(c, r, p, sent, r.base + 1);
      PushRing(c, r, p, read);
      assert forall q | q in r.queue[1..] :: q in r.queue;
      DrainKeeps(c, r1, sent, read);
      assert r.queue == [p] + r.queue[1..];
    }
  }

  lemma {:induction false} InsertMembers(l: seq<Packet>, p: Packet)
    ensures multiset(InsertPacket(l, p)) == multiset(l) + multiset{p}
    decreases |l|
  {
    if l != [] && p.seqno >= l[0].seqno {
      InsertMembers(l[1..], p);
      assert l == [l[0]] + l[1..];
    }
  }

  lemma InsertIn(l: seq<Packet>, p: Packet)
    ensures forall q :: q in InsertPacket(l, p) <==> q in l || q == p
  {
    InsertMembers(l, p);
    forall q
      ensures q in InsertPacket(l, p) <==> q in l || q == p
    {
      assert q in InsertPacket(l, p) <==> q in multiset(InsertPacket(l, p));
      assert q in l <==> q in multiset(l);
    }
  }

  /// The sender's window never runs ahead of the receiver's.
  lemma WindowsMeet(c: Config, x: Sys)
    requires Inv(c, x) && x.r.base != 0 && !x.hung
    ensures x.s.base <= x.r.base
  {
    assert Sent(c, x.sent, x.r.pushed[0]);
    assert c.first <= x.r.base;
    assert x.r.base in x.s.unack ==> x.s.base <= x.r.base;
  }

  /// Whatever packet arrives, it is not beyond the receiver's window.
  lemma NeverTooNew(c: Config, x: Sys, p: Packet)
    requires c.Ok() && Inv(c, x) && p in x.net && x.r.base != 0 && !x.hung
    ensures p.seqno < x.r.base + c.wnd
  {
    WindowsMeet(c, x);
    assert Sent(c, x.sent[..Gone(x)], p);
  }

  lemma ExpectFirst(c: Config, r: Receiver, p: Packet)
    requires r.base == 0 && r.queue == []
    ensures ExpectInv(Push(c, r, p).(base := p.seqno + 1), {p.seqno})
  {
  }

  lemma ExpectOld(r: Receiver, acks: set<nat>, x: nat)
    requires ExpectInv(r, acks) && x < r.base
    ensures ExpectInv(r, acks + {x})
  {
  }

  lemma ExpectNext(r: Receiver, d: Receiver, acks: set<nat>, x: nat)
    requires ExpectInv(r, acks) && x == r.base < d.base && d.queue == [] && forall p | p in r.queue :: p.seqno < d.base
    ensures ExpectInv(d, acks + {x})
  {
    forall y | y in acks + {x}
      ensures y < d.base
    {
      if y >= r.base && y != x {
        assert Queued(r.queue, y);
      }
    }
  }

  lemma ExpectLater(r: Receiver, acks: set<nat>, p: Packet)
    requires ExpectInv(r, acks) && r.base != 0 && p.seqno > r.base
    ensures ExpectInv(r.(queue := InsertPacket(r.queue, p)), acks + {p.seqno})
  {
    InsertIn(r.queue, p);
    forall y | y in acks + {p.seqno} && y >= r.base
      ensures Queued(InsertPacket(r.queue, p), y)
    {
      if y == p.seqno {
        assert p in InsertPacket(r.queue, p);
      } else {
        var q :| q in r.queue && q.seqno == y;
        assert q in InsertPacket(r.queue, p);
      }
    }
  }

  lemma AcksMore(first: nat, wnd: nat, s: Sender, acks: set<nat>, k: nat, x: nat)
    requires WindowInv(first, wnd, s, acks, k)
    ensures WindowInv(first, wnd, s, acks + {x}, k)
  {
  }

  lemma DataKeeps(c: Config, x: Sys, p: Packet)
    requires c.Ok() && Inv(c, x) && p in x.net && !x.hung
    ensures Inv(c, Apply(c, x, DataArrives(p)))
  {
    hide WindowInv, Flat, Reverse, Numbered, GetAck;
    var r := x.r;
    AcksMore(c.first, c.wnd, x.s, x.acks, Gone(x), p.seqno);
    assert Sent(c, x.sent[..Gone(x)], p) && Sent(c, x.sent, p);
    if r.base == 0 {
      PushKeeps(c, r, p, x.sent, p.seqno + 1);
      PushRing(c, r, p, x.read);
      ExpectFirst(c, r, p);
    } else {
      NeverTooNew(c, x, p);
      if p.seqno < r.base {
        ExpectOld(r, x.acks, p.seqno);
      } else if p.seqno == r.base {
        var r1 := Push(c, r, p).(base := r.base + 1);
        PushKeeps(c, r, p, x.sent, r.base + 1);
        PushRing(c, r, p, x.read);
        DrainKeeps(c, r1, x.sent, x.read);
        if Drain(c, r1).queue == [] {
          ExpectNext(r, Drain(c, r1), x.acks, p.seqno);
        }
      } else {
        InsertIn(r.queue, p);
        ExpectLater(r, x.acks, p);
      }
    }
  }

  lemma ReadKeeps(c: Config, x: Sys, n: nat)
    requires Inv(c, x) && n <= |x.r.ring|
    ensures Inv(c, Apply(c, x, Read(n)))
  {
    assert x.r.ring == x.r.ring[..n] + x.r.ring[n..];
  }

  lemma StepKeeps(c: Config, x: Sys, st: Step)
    requires c.Ok() && Inv(c, x) && Enabled(c, x, st)
    ensures Inv(c, Apply(c, x, st))
  {
    hide Inv;
    match st
    case Write(d) => WriteKeeps(c, x, d);
    case PackOne => PackKeeps(c, x);
    case Flush => FlushKeeps(c, x);
    case AckArrives(a) => AckKeeps(c, x, a);
    case DataArrives(p) => DataKeeps(c, x, p);
    case Read(n) => ReadKeeps(c, x, n);
  }

  lemma {:induction false} RunKeeps(c: Config, x: Sys, steps: seq<Step>, y: Sys)
    requires c.Ok() && Inv(c, x) && Run(c, x, steps, y)
    ensures Inv(c, y)
    decreases |steps|
  {
    hide Inv;
    if steps != [] {
      StepKeeps(c, x, steps[0]);
      RunKeeps(c, Apply(c, x, steps[0]), steps[1..], y);
    }
  }

  // ---------------------------------------------------------------- what holds in every run

  /// The packets pushed to the user have consecutive numbers, so each is pushed
  /// once, and each is the packet that was made with its number.
  lemma PushedInOrder(c: Config, steps: seq<Step>, y: Sys)
    requires c.Ok() && Run(c, Init(c), steps, y)
    ensures forall i | 0 <= i < |y.r.pushed| :: y.r.pushed[i].seqno == y.r.pushed[0].seqno + i && Sent(c, y.sent, y.r.pushed[i])
  {
    InitInv(c);
    RunKeeps(c, Init(c), steps, y);
  }

  /// Nothing that arrives is too new, whatever the network did before; so what
  /// has been acknowledged is below the receive window or waits in the queue.
  lemma NothingTooNew(c: Config, steps: seq<Step>, y: Sys)
    requires c.Ok() && Run(c, Init(c), steps, y) && y.r.base != 0 && !y.hung
    ensures y.s.base <= y.r.base && y.s.cur <= y.s.base + c.wnd
    ensures forall p | p in y.net :: p.seqno < y.r.base + c.wnd
    ensures forall x | x in y.acks :: x < y.r.base || Queued(y.r.queue, x)
  {
    InitInv(c);
    RunKeeps(c, Init(c), steps, y);
    WindowsMeet(c, y);
    forall p | p in y.net
      ensures p.seqno < y.r.base + c.wnd
    {
      NeverTooNew(c, y, p);
    }
  }

  /// The number that the first data packet to arrive carries, or -1 when none arrives.
  ghost function FirstData(steps: seq<Step>): int {
    if steps == [] then -1 else if steps[0].DataArrives? then steps[0].p.seqno else FirstData(steps[1..])
  }

  /// The first packet to arrive is the first one pushed.
  lemma {:induction false} FirstPushed(c: Config, x: Sys, steps: seq<Step>, y: Sys)
    requires c.Ok() && Inv(c, x) && Run(c, x, steps, y)
    ensures x.r.pushed != [] ==> x.r.pushed <= y.r.pushed
    ensures x.r.pushed == [] ==> if y.r.pushed == [] then FirstData(steps) == -1 else FirstData(steps) == y.r.pushed[0].seqno
    decreases |steps|
  {
    hide Inv, Apply, Enabled;
    if steps != [] {
      var st := steps[0];
      StepKeeps(c, x, st);
      StepPushes(c, x, st);
      FirstPushed(c, Apply(c, x, st), steps[1..], y);
    }
  }

  lemma StepPushes(c: Config, x: Sys, st: Step)
    requires Inv(c, x) && Enabled(c, x, st)
    ensures var y := Apply(c, x, st);
            x.r.pushed <= y.r.pushed && (x.r.pushed == [] ==> y.r.pushed == if st.DataArrives? then [st.p] else [])
  {
    if st.DataArrives? {
      NothingPushed(c, x);
      DataPushes(c, x.r, st.p);
    }
    hide Inv, GetData, GetAck, Hangs;
  }

  lemma NothingPushed(c: Config, x: Sys)
    requires Inv(c, x)
    ensures x.r.pushed == [] ==> x.r.base == 0
  {
  }

  lemma DataPushes(c: Config, r: Receiver, p: Packet)
    ensures r.pushed <= GetData(c, r, p).pushed
    ensures r.base == 0 && r.pushed == [] ==> GetData(c, r, p).pushed == [p]
  {
    if r.base != 0 && p.seqno == r.base {
      DrainPushes(c, Push(c, r, p).(base := r.base + 1));
    }
  }

  lemma {:induction false} DrainPushes(c: Config, r: Receiver)
    ensures r.pushed <= Drain(c, r).pushed
    decreases |r.queue|
  {
    if r.queue != [] && r.queue[0].seqno == r.base {
      DrainPushes(c, Push(c, r, r.queue[0]).(base := r.base + 1, queue := r.queue[1..]));
    }
  }

  /// The packets pushed are a prefix of the packets made if and only if the first
  /// one to arrive, if any, is the first one made.
  lemma PrefixIff(c: Config, steps: seq<Step>, y: Sys)
    requires c.Ok() && Run(c, Init(c), steps, y)
    ensures y.r.pushed <= y.sent <==> FirstData(steps) == -1 || FirstData(steps) == c.first
    ensures y.r.pushed == [] <==> FirstData(steps) == -1
    ensures y.r.pushed != [] ==> y.r.pushed[0].seqno == FirstData(steps)
  {
    InitInv(c);
    RunKeeps(c, Init(c), steps, y);
    FirstPushed(c, Init(c), steps, y);
    if y.r.pushed != [] {
      var k := |y.r.pushed| - 1;
      assert Sent(c, y.sent, y.r.pushed[0]) && Sent(c, y.sent, y.r.pushed[k]);
      if y.r.pushed[0].seqno == c.first {
        forall i | 0 <= i < |y.r.pushed|
          ensures y.r.pushed[i] == y.sent[i]
        {
          assert Sent(c, y.sent, y.r.pushed[i]);
        }
      } else {
        assert y.sent[0].seqno == c.first;
      }
    }
  }

  lemma {:induction false} FlatPrefix(a: seq<Packet>, b: seq<Packet>)
    requires a <= b
    ensures Flat(a) <= Flat(b)
    decreases |a|
  {
    if a != [] {
      FlatPrefix(a[1..], b[1..]);
    }
  }

  /// Then, and while no push was cut short, the bytes read are a prefix of the bytes written.
  lemma BytesPrefix(c: Config, steps: seq<Step>, y: Sys)
    requires c.Ok() && Run(c, Init(c), steps, y) && !y.r.overflow
    requires FirstData(steps) == -1 || FirstData(steps) == c.first
    ensures y.read <= y.written
  {
    InitInv(c);
    RunKeeps(c, Init(c), steps, y);
    PrefixIff(c, steps, y);
    FlatPrefix(y.r.pushed, y.sent);
    assert y.read <= y.read + y.r.ring;
  }

  /// And everything acknowledged has been pushed or is in the queue: nothing is
  /// acknowledged and lost.
  lemma NothingLost(c: Config, steps: seq<Step>, y: Sys, x: nat)
    requires c.Ok() && Run(c, Init(c), steps, y) && !y.hung && x in y.acks && FirstData(steps) == c.first
    ensures Queued(y.r.queue, x) || (c.first <= x < c.first + |y.r.pushed| && y.r.pushed[x - c.first].seqno == x)
  {
    InitInv(c);
    RunKeeps(c, Init(c), steps, y);
    PrefixIff(c, steps, y);
    NothingTooNew(c, steps, y);
    AcksSent(c, Init(c), steps, y);
  }

  lemma {:induction false} AcksSent(c: Config, x: Sys, steps: seq<Step>, y: Sys)
    requires c.Ok() && Inv(c, x) && Run(c, x, steps, y) && forall a | a in x.acks :: c.first <= a
    ensures forall a | a in y.acks :: c.first <= a
    decreases |steps|
  {
    if steps != [] {
      var st := steps[0];
      StepKeeps(c, x, st);
      if st.DataArrives? {
        assert Sent(c, x.sent[..Gone(x)], st.p);
      }
      AcksSent(c, Apply(c, x, st), steps[1..], y);
    }
  }

  /// Handing on the queue comes to an end if and only if the queue holds exactly
  /// the packets that follow, each once; otherwise the loop runs forever.
  lemma {:induction false} DrainEnds(c: Config, r: Receiver)
    ensures Drain(c, r).queue == [] <==> forall i | 0 <= i < |r.queue| :: r.queue[i].seqno == r.base + i
    decreases |r.queue|
  {
    if r.queue != [] && r.queue[0].seqno == r.base {
      var r1 := Push(c, r, r.queue[0]).(base := r.base + 1, queue := r.queue[1..]);
      DrainEnds(c, r1);
      assert forall i | 0 <= i < |r1.queue| :: r1.queue[i] == r.queue[i + 1];
      if forall i | 0 <= i < |r1.queue| :: r1.queue[i].seqno == r1.base + i {
        forall i | 0 <= i < |r.queue|
          ensures r.queue[i].seqno == r.base + i
        {
          assert i > 0 ==> r.queue[i] == r1.queue[i - 1];
        }
      }
    }
  }

  /// The receiver hangs exactly when the expected packet arrives while the queue
  /// does not hold just the packets that follow it.
  lemma HangsExactly(c: Config, r: Receiver, p: Packet)
    requires r.base != 0
    ensures Hangs(c, r, p) <==> p.seqno == r.base && !forall i | 0 <= i < |r.queue| :: r.queue[i].seqno == p.seqno + 1 + i
  {
    if p.seqno == r.base {
      DrainEnds(c, Push(c, r, p).(base := r.base + 1));
    }
  }

  // ---------------------------------------------------------------- lists in order

  lemma {:induction false} SeqMembers(l: seq<nat>, x: nat)
    ensures multiset(InsertSeq(l, x)) == multiset(l) + multiset{x}
    decreases |l|
  {
    if l != [] && x >= l[0] {
      SeqMembers(l[1..], x);
      assert l == [l[0]] + l[1..];
    }
  }

  lemma SeqIn(l: seq<nat>, x: nat, y: nat)
    requires y in InsertSeq(l, x)
    ensures y in l || y == x
  {
    SeqMembers(l, x);
    assert y in multiset(InsertSeq(l, x));
  }

  /// A number goes to its place in an ascending list.
  lemma {:induction false} SeqInserted(l: seq<nat>, x: nat)
    requires Ascending(l) && x !in l
    ensures Ascending(InsertSeq(l, x))
    decreases |l|
  {
    if l != [] && x >= l[0] {
      var a, r := l[0], l[1..];
      RestAscends(l);
      SeqInserted(r, x);
      var s := InsertSeq(r, x);
      forall i | 0 <= i < |s|
        ensures a < s[i]
      {
        SeqIn(r, x, s[i]);
      }
      hide InsertSeq;
    }
  }

  lemma RestAscends(l: seq<nat>)
    requires Ascending(l) && l != []
    ensures Ascending(l[1..]) && forall y | y in l[1..] :: l[0] < y && y in l
  {
  }

  /// A queue by ascending numbers; a number may stand in it more than once.
  ghost predicate Ordered(q: seq<Packet>) { forall i, j | 0 <= i < j < |q| :: q[i].seqno <= q[j].seqno }

  lemma {:induction false} PacketInserted(l: seq<Packet>, p: Packet)
    requires Ordered(l)
    ensures Ordered(InsertPacket(l, p))
    decreases |l|
  {
    if l != [] && l[0].seqno <= p.seqno {
      var r := l[1..];
      PacketInserted(r, p);
      InsertIn(r, p);
      var s := InsertPacket(r, p);
      forall i | 0 <= i < |s|
        ensures l[0].seqno <= s[i].seqno
      {
        assert s[i] in s;
      }
    }
  }

  lemma {:induction false} DrainOrdered(c: Config, r: Receiver)
    requires Ordered(r.queue)
    ensures Ordered(Drain(c, r).queue)
    decreases |r.queue|
  {
    if r.queue != [] && r.queue[0].seqno == r.base {
      DrainOrdered(c, Push(c, r, r.queue[0]).(base := r.base + 1, queue := r.queue[1..]));
    }
  }

  /// In every run the receive queue stays in order.
  lemma {:induction false} QueueOrdered(c: Config, x: Sys, steps: seq<Step>, y: Sys)
    requires Ordered(x.r.queue) && Run(c, x, steps, y)
    ensures Ordered(y.r.queue)
    decreases |steps|
  {
    if steps != [] {
      var x1 := Apply(c, x, steps[0]);
      if steps[0].DataArrives? { DataOrdered(c, x.r, steps[0].p); }
      hide Ordered;
      QueueOrdered(c, x1, steps[1..], y);
    }
  }

  lemma DataOrdered(c: Config, r: Receiver, p: Packet)
    requires Ordered(r.queue)
    ensures Ordered(GetData(c, r, p).queue)
  {
    PacketInserted(r.queue, p);
    DrainOrdered(c, Push(c, r, p).(base := r.base + 1));
  }
}
