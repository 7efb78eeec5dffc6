/// What each locked region of the sender and the receiver does, in terms of lists and bytes only.
module UdpRegions {
  import opened Basics
  import opened ReliableUdp
  import opened UdpStalls

  // ---------------------------------------------------------------- flush_buffer

  /// One packet: the next number, and as many bytes from the front of the buffer as the mtu allows.
  lemma PackTakes(c: Config, s: Sender)
    requires CanPack(c, s)
    ensures s.buf != [] && s.cur < s.base + c.wnd
    ensures var t := Pack(c, s);
            t.queue != [] && t.queue[1..] == s.queue && t.queue[0].seqno == s.cur && t.queue[0].data + t.buf == s.buf &&
            |t.queue[0].data| == Min(c.mtu, |s.buf|) && t.cur == s.cur + 1 &&
            t.base == s.base && t.flight == s.flight && t.unack == s.unack
  {
  }

  /// The packets of l carry consecutive numbers from x on, and all but the one that empties the buffer are full.
  ghost predicate Cut(mtu: nat, x: nat, l: seq<Packet>, left: Bytes) {
    forall i | 0 <= i < |l| ::
      l[i].seqno == x + i && 0 < |l[i].data| <= mtu && (i + 1 < |l| || left != [] ==> |l[i].data| == mtu)
  }

  lemma CutMore(mtu: nat, x: nat, p: Packet, l: seq<Packet>, left: Bytes)
    requires Cut(mtu, x + 1, l, left) && p.seqno == x && 0 < |p.data| <= mtu && (Flat(l) + left != [] ==> |p.data| == mtu)
    ensures Cut(mtu, x, [p] + l, left)
  {
    assert l != [] ==> |Flat(l)| >= |l[0].data| > 0;
    hide Flat;
    forall i | 0 < i < |[p] + l|
      ensures ([p] + l)[i] == l[i - 1]
    {
    }
  }

  lemma QueueMore(p: Packet, l: seq<Packet>, q: seq<Packet>, left: Bytes)
    ensures Reverse([p] + l) + q == Reverse(l) + ([p] + q)
    ensures Flat([p] + l) + left == p.data + (Flat(l) + left)
  {
    assert ([p] + l)[1..] == l;
  }

  /// The packets that flush_buffer makes, oldest first: their data and what is left in the buffer are what
  /// was in it, they are cut as the mtu says, and no more can be made.
  lemma {:induction false} FlushMakes(c: Config, s: Sender) returns (l: seq<Packet>)
    requires c.mtu >= 1
    ensures var t := FlushBuffer(c, s);
            t.queue == Reverse(l) + s.queue && Flat(l) + t.buf == s.buf && Cut(c.mtu, s.cur, l, t.buf) && t.cur == s.cur + |l| &&
            t.base == s.base && t.flight == s.flight && t.unack == s.unack
    ensures FlushBuffer(c, s).buf == [] || FlushBuffer(c, s).cur >= s.base + c.wnd
    ensures l != [] ==> s.cur + |l| <= s.base + c.wnd
    decreases |s.buf|
  {
    if CanPack(c, s) {
      PackTakes(c, s);
      var s1 := Pack(c, s);
      var p := s1.queue[0];
      var l1 := FlushMakes(c, s1);
      l := [p] + l1;
      hide Flat, Reverse, Cut, Pack, FlushBuffer;
      FlushTurn(c, s);
      assert s1.queue == [p] + s.queue;
      QueueMore(p, l1, s.queue, FlushBuffer(c, s1).buf);
      CutMore(c.mtu, s.cur, p, l1, FlushBuffer(c, s1).buf);
    } else {
      l := [];
    }
  }

  lemma FlushTurn(c: Config, s: Sender)
    requires CanPack(c, s)
    ensures FlushBuffer(c, s) == FlushBuffer(c, Pack(c, s))
  {
  }

  /// n packets, or sendings, one after the other.
  ghost function Times(n: nat, st: Step): seq<Step> { if n == 0 then [] else [st] + Times(n - 1, st) }

  /// In the state machine flush_buffer is a run of single packings.
  lemma {:induction false} FlushIsRun(c: Config, x: Sys) returns (n: nat, y: Sys)
    ensures Run(c, x, Times(n, PackOne), y) && y.s == FlushBuffer(c, x.s) && x.sent <= y.sent && y.(s := x.s, sent := x.sent) == x
    decreases |x.s.buf|
  {
    if CanPack(c, x.s) {
      var m;
      m, y := FlushIsRun(c, Apply(c, x, PackOne));
      n := m + 1;
      assert Times(n, PackOne)[1..] == Times(m, PackOne);
    } else {
      n, y := 0, x;
    }
  }

  /// So it keeps what every step keeps.
  lemma FlushInv(c: Config, x: Sys)
    requires c.Ok() && Inv(c, x)
    ensures exists sent :: Inv(c, x.(s := FlushBuffer(c, x.s), sent := sent))
  {
    var n, y := FlushIsRun(c, x);
    RunKeeps(c, x, Times(n, PackOne), y);
    hide Inv, Run, FlushBuffer;
    assert y == x.(s := FlushBuffer(c, x.s), sent := y.sent);
  }

  // ---------------------------------------------------------------- flush_queue

  lemma {:induction false} ReverseAt(l: seq<Packet>, i: nat)
    requires i < |l|
    ensures |Reverse(l)| == |l| && Reverse(l)[i] == l[|l| - 1 - i]
    decreases |l|
  {
    ReverseLength(l);
    ReverseLength(l[1..]);
    if i < |l| - 1 { ReverseAt(l[1..], i); }
  }

  lemma InsertedHas(l: seq<nat>, x: nat, y: nat)
    ensures y in InsertSeq(l, x) <==> y in l || y == x
  {
    SeqMembers(l, x);
    assert y in InsertSeq(l, x) <==> y in multiset(InsertSeq(l, x));
    assert y in l <==> y in multiset(l);
  }

  /// All queued packets are under way, in the same order, and their numbers await an acknowledgement.
  lemma {:induction false} AllSent(s: Sender, x: nat)
    ensures var t := SendAll(s);
            t.queue == [] && t.flight == s.queue + s.flight && t.buf == s.buf && t.base == s.base && t.cur == s.cur &&
            (x in t.unack <==> x in s.unack || InFlight(s.queue, x))
    decreases |s.queue|
  {
    if s.queue != [] {
      var k := |s.queue| - 1;
      var p := s.queue[k];
      AllSent(SendOne(s), x);
      InsertedHas(s.unack, p.seqno, x);
      assert s.queue == s.queue[..k] + [p];
      assert s.queue[..k] + ([p] + s.flight) == s.queue + s.flight;
      assert InFlight(s.queue, x) <==> InFlight(s.queue[..k], x) || p.seqno == x by { InFlightLast(s.queue[..k], p, x); }
    }
  }

  lemma InFlightLast(l: seq<Packet>, p: Packet, x: nat)
    ensures InFlight(l + [p], x) <==> InFlight(l, x) || p.seqno == x
  {
    assert (l + [p])[|l|] == p;
    if InFlight(l, x) {
      var q :| q in l && q.seqno == x;
      assert q in l + [p];
    }
  }

  /// In the state machine flush_queue is a run of single sendings, and the packets are in the network.
  lemma {:induction false} SendIsRun(c: Config, x: Sys) returns (y: Sys)
    ensures Run(c, x, Times(|x.s.queue|, Flush), y) && y.s == SendAll(x.s) && y.(s := x.s, net := x.net) == x
    ensures y.net == x.net + set p | p in x.s.queue
    decreases |x.s.queue|
  {
    if x.s.queue != [] {
      var k := |x.s.queue| - 1;
      y := SendIsRun(c, Apply(c, x, Flush));
      assert Times(k + 1, Flush)[1..] == Times(k, Flush);
      assert x.s.queue == x.s.queue[..k] + [x.s.queue[k]];
    } else {
      y := x;
    }
  }

  // ---------------------------------------------------------------- acknowledgements

  /// An acknowledgement for a packet under way takes exactly it out of both lists; the base moves on only
  /// if it was the packet at the base, to the next one that is awaited. Any other changes nothing.
  lemma AckTakes(s: Sender, ack: nat)
    requires Tracks(s) && Ascending(s.unack) && forall y | y in s.unack :: s.base <= y
    ensures ack !in s.unack ==> GetAck(s, ack) == s
    ensures var t := GetAck(s, ack);
            (forall y :: y in t.unack <==> y in s.unack && y != ack) && (forall y :: InFlight(t.flight, y) <==> InFlight(s.flight, y) && y != ack) &&
            t.buf == s.buf && t.cur == s.cur && t.queue == s.queue
    ensures ack in s.unack ==> GetAck(s, ack).base == if ack != s.base then s.base else if |s.unack| > 1 then s.unack[1] else s.base + 1
  {
    var i, j := FindPacket(s.flight, ack), FindSeq(s.unack, ack);
    Unacked(s.unack, ack);
    AckTracks(s, ack);
    if i < |s.flight| {
      FoundInFlight(s.flight, ack);
      WithoutMembers(s.unack, j);
      WithoutAscending(s.unack, j);
      BaseIsFirst(s, j);
    } else {
      NotInFlight(s.flight, ack);
    }
    hide FindPacket, FindSeq, Ascending;
  }

  lemma BaseIsFirst(s: Sender, j: nat)
    requires Ascending(s.unack) && j < |s.unack| && forall y | y in s.unack :: s.base <= y
    ensures s.unack[j] == s.base ==> j == 0
  {
    assert s.unack[0] in s.unack;
  }

  // ---------------------------------------------------------------- push_to_recv_buff

  /// A packet that fits is appended as a whole; otherwise as many of its bytes as there is room for.
  lemma PushRoom(c: Config, r: Receiver, p: Packet)
    requires |r.ring| <= c.cap
    ensures |r.ring| + |p.data| <= c.cap ==> Push(c, r, p).ring == r.ring + p.data
    ensures |r.ring| + |p.data| > c.cap ==> Push(c, r, p).ring == (r.ring + p.data)[..c.cap]
    ensures Push(c, r, p).overflow <==> r.overflow || |r.ring| + |p.data| > c.cap
    ensures Push(c, r, p).pushed == r.pushed + [p] && Push(c, r, p).base == r.base && Push(c, r, p).queue == r.queue
  {
    assert p.data[..|p.data|] == p.data;
  }

  // ---------------------------------------------------------------- the data branch

  /// The number of packets at the front of the queue that follow each other from b on.
  ghost function Following(q: seq<Packet>, b: nat): (k: nat)
    ensures k <= |q| && (forall i | 0 <= i < k :: q[i].seqno == b + i) && (k < |q| ==> q[k].seqno != b + k)
  {
    if q == [] || q[0].seqno != b then 0
    else
      var k := 1 + Following(q[1..], b + 1);
      assert forall i | 0 < i < |q| :: q[i] == q[1..][i - 1];
      k
  }

  lemma FollowingNext(q: seq<Packet>, b: nat)
    requires q != [] && q[0].seqno == b
    ensures var k := Following(q[1..], b + 1);
            Following(q, b) == 1 + k && q[1..][k..] == q[1 + k..] && k < |q|
  {
  }

  ghost function Handed(c: Config, r: Receiver): Receiver
    requires r.queue != []
  {
    Push(c, r, r.queue[0]).(base := r.base + 1, queue := r.queue[1..])
  }

  lemma DrainTurn(c: Config, r: Receiver)
    ensures r.queue != [] && r.queue[0].seqno == r.base ==>
              Drain(c, r) == Drain(c, Handed(c, r)) && Handed(c, r).pushed == r.pushed + [r.queue[0]] &&
              Handed(c, r).queue == r.queue[1..] && Handed(c, r).base == r.base + 1
    ensures r.queue == [] || r.queue[0].seqno != r.base ==> Drain(c, r) == r && Following(r.queue, r.base) == 0
  {
  }

  lemma Appended(a: seq<Packet>, p: Packet, q: seq<Packet>, k: nat)
    requires k < |q| && p == q[0]
    ensures (a + [p]) + q[1..][..k] == a + q[..1 + k]
  {
  }

  /// The loop that hands on takes exactly these packets.
  lemma {:induction false} DrainTakes(c: Config, r: Receiver)
    ensures var (d, k) := (Drain(c, r), Following(r.queue, r.base));
            d.queue == r.queue[k..] && d.pushed == r.pushed + r.queue[..k] && d.base == r.base + k
    decreases |r.queue|
  {
    hide Drain, Handed, Push, Following;
    DrainTurn(c, r);
    if r.queue != [] && r.queue[0].seqno == r.base {
      var r1 := Handed(c, r);
      DrainTakes(c, r1);
      FollowingNext(r.queue, r.base);
      Appended(r.pushed, r.queue[0], r.queue, Following(r1.queue, r1.base));
    }
  }

  /// The first packet of all is pushed whatever its number; the expected one is pushed with those that follow
  /// it in the queue; a later one within the window is queued; others change nothing.
  lemma DataCases(c: Config, r: Receiver, p: Packet)
    ensures var d := GetData(c, r, p);
            if r.base == 0 then d.pushed == r.pushed + [p] && d.base == p.seqno + 1 && d.queue == r.queue
            else if p.seqno == r.base then
              var k := Following(r.queue, r.base + 1);
              d.pushed == r.pushed + ([p] + r.queue[..k]) && d.queue == r.queue[k..] && d.base == r.base + 1 + k
            else if r.base < p.seqno <= r.base + c.wnd then
              multiset(d.queue) == multiset(r.queue) + multiset{p} && d == r.(queue := d.queue)
            else d == r
  {
    if r.base != 0 && p.seqno == r.base {
      DrainTakes(c, Push(c, r, p).(base := r.base + 1));
      var k := Following(r.queue, r.base + 1);
      assert (r.pushed + [p]) + r.queue[..k] == r.pushed + ([p] + r.queue[..k]);
    } else {
      InsertMembers(r.queue, p);
    }
  }

  // ---------------------------------------------------------------- when bytes are lost

  lemma {:induction false} DrainRing(c: Config, r: Receiver)
    requires |r.ring| <= c.cap
    ensures |Drain(c, r).ring| <= c.cap && (r.overflow ==> Drain(c, r).overflow)
    decreases |r.queue|
  {
    PushRingFits(c, r);
    if r.queue != [] && r.queue[0].seqno == r.base {
      DrainRing(c, Push(c, r, r.queue[0]).(base := r.base + 1, queue := r.queue[1..]));
    }
  }

  lemma PushRingFits(c: Config, r: Receiver)
    requires |r.ring| <= c.cap
    ensures forall p :: |Push(c, r, p).ring| <= c.cap && (r.overflow ==> Push(c, r, p).overflow)
  {
  }

  /// Nothing is lost while all that was ever pushed would fit the ring at once.
  lemma {:induction false} DrainFits(c: Config, r: Receiver, read: Bytes)
    requires |r.ring| <= c.cap && !r.overflow && read + r.ring == Flat(r.pushed) && |Flat(Drain(c, r).pushed)| <= c.cap
    ensures !Drain(c, r).overflow
    decreases |r.queue|
  {
    if r.queue != [] && r.queue[0].seqno == r.base {
      var p := r.queue[0];
      var r1 := Push(c, r, p).(base := r.base + 1, queue := r.queue[1..]);
      PushFits(c, r, p, read, Drain(c, r).pushed) by { DrainPushes(c, r1); }
      DrainFits(c, r1, read);
    }
  }

  lemma PushFits(c: Config, r: Receiver, p: Packet, read: Bytes, later: seq<Packet>)
    requires |r.ring| <= c.cap && !r.overflow && read + r.ring == Flat(r.pushed)
    requires r.pushed + [p] <= later && |Flat(later)| <= c.cap
    ensures var t := Push(c, r, p); !t.overflow && |t.ring| <= c.cap && read + t.ring == Flat(t.pushed)
  {
    FlatPrefix(r.pushed + [p], later);
    FlatAppend(r.pushed, p);
    PushRoom(c, r, p);
    assert read + (r.ring + p.data) == (read + r.ring) + p.data;
  }

  lemma DataFits(c: Config, r: Receiver, p: Packet, read: Bytes)
    requires |r.ring| <= c.cap && !r.overflow && read + r.ring == Flat(r.pushed) && |Flat(GetData(c, r, p).pushed)| <= c.cap
    ensures !GetData(c, r, p).overflow
  {
    if r.base == 0 {
      PushFits(c, r, p, read, r.pushed + [p]);
    } else if p.seqno == r.base {
      var r1 := Push(c, r, p).(base := r.base + 1);
      DrainPushes(c, r1);
      PushFits(c, r, p, read, Drain(c, r1).pushed);
      DrainFits(c, r1, read);
    }
  }

  /// In every run: the ring never holds more than it has room for.
  lemma {:induction false} RingFits(c: Config, x: Sys, steps: seq<Step>, y: Sys)
    requires |x.r.ring| <= c.cap && Run(c, x, steps, y)
    ensures |y.r.ring| <= c.cap
    decreases |steps|
  {
    if steps != [] {
      if steps[0].DataArrives? { DataRing(c, x.r, steps[0].p); }
      RingFits(c, Apply(c, x, steps[0]), steps[1..], y);
    }
  }

  lemma DataRing(c: Config, r: Receiver, p: Packet)
    requires |r.ring| <= c.cap
    ensures |GetData(c, r, p).ring| <= c.cap
  {
    PushRingFits(c, r);
    DrainRing(c, Push(c, r, p).(base := r.base + 1));
  }

  lemma {:induction false} FitsFrom(c: Config, x: Sys, steps: seq<Step>, y: Sys)
    requires c.Ok() && Inv(c, x) && |x.r.ring| <= c.cap && !x.r.overflow && Run(c, x, steps, y) && |Flat(y.r.pushed)| <= c.cap
    ensures !y.r.overflow
    decreases |steps|
  {
    if steps != [] {
      var st := steps[0];
      var x1 := Apply(c, x, st);
      StepKeeps(c, x, st);
      FirstPushed(c, x1, steps[1..], y);
      NeverFewer(c, x1, steps[1..], y);
      FlatPrefix(x1.r.pushed, y.r.pushed);
      if st.DataArrives? {
        DataRing(c, x.r, st.p);
        DataFits(c, x.r, st.p, x.read);
      }
      FitsFrom(c, x1, steps[1..], y);
    }
  }

  lemma {:induction false} NeverFewer(c: Config, x: Sys, steps: seq<Step>, y: Sys)
    requires Run(c, x, steps, y)
    ensures x.r.pushed <= y.r.pushed
    decreases |steps|
  {
    if steps != [] {
      if steps[0].DataArrives? { DataPushes(c, x.r, steps[0].p); }
      NeverFewer(c, Apply(c, x, steps[0]), steps[1..], y);
    }
  }

  /// In a run from the start no push is cut short as long as the bytes of all packets pushed would fit the ring.
  lemma NoOverflow(c: Config, steps: seq<Step>, y: Sys)
    requires c.Ok() && Run(c, Init(c), steps, y) && |Flat(y.r.pushed)| <= c.cap
    ensures !y.r.overflow
  {
    InitInv(c);
    FitsFrom(c, Init(c), steps, y);
  }
}
