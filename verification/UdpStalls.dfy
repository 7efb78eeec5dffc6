/// Where reliable UDP comes to a halt or loses data: exactly when the send window
/// falls behind, what follows from that, and runs that get there.
module UdpStalls {
  import opened ReliableUdp

  // ---------------------------------------------------------------- the send window falls behind

  /// The next number to go out.
  ghost function Top(s: Sender): int { s.cur - |s.queue| }

  /// The base is the first unacknowledged number, or the next to go out when there is none.
  ghost predicate InStep(s: Sender) {
    if s.unack == [] then s.base == Top(s) else s.base == s.unack[0]
  }

  ghost predicate InFlight(l: seq<Packet>, x: nat) { exists p :: p in l && p.seqno == x }

  /// The packets in flight are exactly the unacknowledged ones, each once.
  ghost predicate Tracks(s: Sender) {
    (forall x :: x in s.unack <==> InFlight(s.flight, x)) &&
    forall i, j | 0 <= i < j < |s.flight| :: s.flight[i].seqno != s.flight[j].seqno
  }

  /// The acknowledgement that leaves the base behind: that of the only unacknowledged
  /// packet, at the base, when later ones have gone out and been acknowledged before.
  predicate LeavesBehind(s: Sender, ack: nat) {
    ack == s.base && s.unack == [ack] && s.base + 1 < s.cur - |s.queue|
  }

  ghost predicate Good(c: Config, x: Sys) { c.Ok() && Inv(c, x) && Tracks(x.s) }

  lemma InitGood(c: Config)
    requires c.Ok()
    ensures Good(c, Init(c)) && InStep(Init(c).s)
  {
    InitInv(c);
  }

  lemma NotInFlight(l: seq<Packet>, x: nat)
    requires FindPacket(l, x) == |l|
    ensures !InFlight(l, x)
  {
  }

  lemma FoundInFlight(l: seq<Packet>, x: nat)
    requires FindPacket(l, x) < |l|
    ensures InFlight(l, x)
  {
    assert l[FindPacket(l, x)] in l;
  }

  lemma Unacked(l: seq<nat>, x: nat)
    ensures FindSeq(l, x) < |l| <==> x in l
  {
  }

  /// The i-th packet leaves a list in which no number stands twice.
  lemma FlightLess(l: seq<Packet>, i: nat)
    requires i < |l| && forall a, b | 0 <= a < b < |l| :: l[a].seqno != l[b].seqno
    ensures var f := Without(l, i);
            (forall a, b | 0 <= a < b < |f| :: f[a].seqno != f[b].seqno) &&
            forall x :: InFlight(f, x) <==> InFlight(l, x) && x != l[i].seqno
  {
    var f := Without(l, i);
    assert forall k | 0 <= k < |f| :: f[k] == l[if k < i then k else k + 1];
    forall x
      ensures InFlight(f, x) <==> InFlight(l, x) && x != l[i].seqno
    {
      FlightLessAt(l, i, f, x);
    }
  }

  lemma FlightLessAt(l: seq<Packet>, i: nat, f: seq<Packet>, x: nat)
    requires i < |l| && f == Without(l, i) && forall a, b | 0 <= a < b < |l| :: l[a].seqno != l[b].seqno
    ensures InFlight(f, x) <==> InFlight(l, x) && x != l[i].seqno
  {
    if InFlight(f, x) {
      var k :| 0 <= k < |f| && f[k].seqno == x;
      var k' := if k < i then k else k + 1;
      assert l[k'] == f[k] && l[k'] in l && (k' < i || i < k');
    }
    if InFlight(l, x) && x != l[i].seqno {
      var k :| 0 <= k < |l| && l[k].seqno == x;
      assert f[if k < i then k else k - 1] == l[k];
    }
  }

  /// What an acknowledgement leaves of the packets in flight, and of the unacknowledged numbers.
  lemma FlightWithout(s: Sender, i: nat, j: nat)
    requires Tracks(s) && Ascending(s.unack) && i < |s.flight| && j < |s.unack| && s.flight[i].seqno == s.unack[j]
    ensures Tracks(s.(flight := Without(s.flight, i), unack := Without(s.unack, j)))
  {
    FlightLess(s.flight, i);
    WithoutMembers(s.unack, j);
    WithoutAscending(s.unack, j);
    hide InFlight, Without, Ascending;
  }

  lemma AckTracks(s: Sender, ack: nat)
    requires Tracks(s) && Ascending(s.unack)
    ensures Tracks(GetAck(s, ack))
  {
    if ack >= s.base {
      var i := FindPacket(s.flight, ack);
      if i < |s.flight| {
        FoundInFlight(s.flight, ack);
        Unacked(s.unack, ack);
        FlightWithout(s, i, FindSeq(s.unack, ack));
      }
    }
  }

  /// p, with a new number, goes out.
  lemma SentTracks(s: Sender, p: Packet)
    requires Tracks(s) && p.seqno !in s.unack
    ensures Tracks(s.(flight := [p] + s.flight, unack := s.unack + [p.seqno]))
  {
    var f, u := [p] + s.flight, s.unack + [p.seqno];
    forall x
      ensures x in u <==> InFlight(f, x)
    {
      assert x in u <==> x in s.unack || x == p.seqno;
      assert f[0] == p;
      if InFlight(s.flight, x) {
        var q :| q in s.flight && q.seqno == x;
        assert q in f;
      }
      if InFlight(f, x) {
        var q :| q in f && q.seqno == x;
        assert q == p || q in s.flight;
      }
    }
    forall j | 0 <= j < |s.flight|
      ensures s.flight[j].seqno != p.seqno
    {
      assert s.flight[j] in s.flight && InFlight(s.flight, s.flight[j].seqno);
    }
  }

  /// The oldest packet in the queue has the next number.
  lemma Oldest(c: Config, x: Sys)
    requires Inv(c, x) && x.s.queue != []
    ensures x.s.queue[|x.s.queue| - 1].seqno == Top(x.s)
    ensures SendOne(x.s).unack == x.s.unack + [Top(x.s)] && Top(x.s) !in x.s.unack
  {
    ReverseLast(x.s.queue);
    ReverseLength(x.s.queue);
    assert x.s.queue[|x.s.queue| - 1] == x.sent[Gone(x)..][0];
    NumberAt(c, x.sent, Gone(x));
    InsertLast(x.s.unack, x.s.queue[|x.s.queue| - 1].seqno);
  }

  lemma StepGood(c: Config, x: Sys, st: Step)
    requires Good(c, x) && Enabled(c, x, st)
    ensures Good(c, Apply(c, x, st))
  {
    StepKeeps(c, x, st);
    UnackBounds(c, x);
    if st.Flush? {
      Oldest(c, x);
      SentTracks(x.s, x.s.queue[|x.s.queue| - 1]);
    }
    hide Inv, GetAck, GetData, Hangs;
    if st.AckArrives? {
      AckTracks(x.s, st.ack);
    }
  }

  /// What waits for its acknowledgement lies between the base and the next number to go out.
  lemma UnackBounds(c: Config, x: Sys)
    requires Inv(c, x)
    ensures Ascending(x.s.unack) && x.s.base <= Top(x.s) && forall y | y in x.s.unack :: x.s.base <= y < Top(x.s)
  {
  }

  /// When the base is in step, an acknowledgement leaves it in step if and only if it is not that one.
  lemma AckInStep(s: Sender, ack: nat)
    requires Tracks(s) && Ascending(s.unack) && InStep(s) && forall y | y in s.unack :: s.base <= y < Top(s)
    ensures InStep(GetAck(s, ack)) <==> !LeavesBehind(s, ack)
  {
    var i, j := FindPacket(s.flight, ack), FindSeq(s.unack, ack);
    Unacked(s.unack, ack);
    if i < |s.flight| {
      FoundInFlight(s.flight, ack);
    } else {
      NotInFlight(s.flight, ack);
    }
    hide Tracks, FindPacket, FindSeq;
    assert s.unack == [] || s.unack[0] in s.unack;
    if j == 0 && |s.unack| == 1 {
      assert s.unack == [s.unack[0]];
    }
  }

  /// Every step keeps the base in step, but for that acknowledgement.
  lemma StepInStep(c: Config, x: Sys, st: Step)
    requires Good(c, x) && Enabled(c, x, st) && InStep(x.s)
    ensures InStep(Apply(c, x, st).s) <==> !(st.AckArrives? && LeavesBehind(x.s, st.ack))
  {
    if st.AckArrives? {
      UnackBounds(c, x);
      AckInStep(x.s, st.ack);
    } else if st.Flush? {
      Oldest(c, x);
    }
    hide Inv, GetAck, GetData, Hangs, Tracks;
  }

  /// In the run every acknowledgement that arrives leaves the base in step.
  ghost predicate NeverBehind(c: Config, x: Sys, steps: seq<Step>)
    decreases |steps|
  {
    steps == [] ||
    (Enabled(c, x, steps[0]) && !(steps[0].AckArrives? && LeavesBehind(x.s, steps[0].ack)) && NeverBehind(c, Apply(c, x, steps[0]), steps[1..]))
  }

  // ---------------------------------------------------------------- what follows

  /// The base is behind: its packet has been acknowledged, and so will never move it again.
  ghost predicate Lagging(s: Sender) { s.base < Top(s) && s.base !in s.unack }

  /// A base that is not in step is behind.
  lemma BehindIsLagging(c: Config, x: Sys)
    requires Inv(c, x)
    ensures Lagging(x.s) <==> !InStep(x.s)
  {
    var s := x.s;
    if s.unack != [] {
      assert s.unack[0] in s.unack;
      forall y | y in s.unack
        ensures s.unack[0] <= y
      {
        var k :| 0 <= k < |s.unack| && s.unack[k] == y;
      }
    }
  }

  /// No step moves the base again.
  lemma StepLags(c: Config, x: Sys, st: Step)
    requires Good(c, x) && Enabled(c, x, st) && Lagging(x.s)
    ensures Lagging(Apply(c, x, st).s) && Apply(c, x, st).s.base == x.s.base
  {
    if st.Flush? {
      Oldest(c, x);
    } else if st.AckArrives? {
      var j := FindSeq(x.s.unack, st.ack);
      if j < |x.s.unack| {
        assert x.s.unack[j] in x.s.unack;
        WithoutMembers(x.s.unack, j);
      }
    }
    hide Inv, GetData, Hangs, Tracks;
  }

  /// What the sender can still do: make the packets the window has room for, send them, and see them acknowledged.
  ghost function Work(c: Config, s: Sender): int {
    3 * (s.base + c.wnd - s.cur) + 2 * |s.queue| + |s.flight|
  }

  /// Steps that change the sender's window or lists.
  ghost predicate SenderWorks(x: Sys, st: Step) {
    st.PackOne? || st.Flush? || (st.AckArrives? && st.ack >= x.s.base && InFlight(x.s.flight, st.ack))
  }

  lemma StepWorks(c: Config, x: Sys, st: Step)
    requires Good(c, x) && Enabled(c, x, st) && Lagging(x.s)
    ensures Work(c, Apply(c, x, st).s) == Work(c, x.s) - if SenderWorks(x, st) then 1 else 0
    ensures 0 <= Work(c, x.s)
  {
    StepLags(c, x, st);
    if st.AckArrives? {
      if FindPacket(x.s.flight, st.ack) < |x.s.flight| {
        FoundInFlight(x.s.flight, st.ack);
      } else {
        NotInFlight(x.s.flight, st.ack);
      }
    }
    hide GetData, Hangs, Tracks;
  }

  ghost function WorkSteps(c: Config, x: Sys, steps: seq<Step>): nat
    decreases |steps|
  {
    if steps == [] || !Enabled(c, x, steps[0]) then 0
    else (if SenderWorks(x, steps[0]) then 1 else 0) + WorkSteps(c, Apply(c, x, steps[0]), steps[1..])
  }

  /// Once behind, always behind: the base stands still, only as many packets are made as the
  /// window has room for, and the sender has only so many steps left.
  lemma {:induction false} LagsForever(c: Config, x: Sys, steps: seq<Step>, y: Sys)
    requires Good(c, x) && Run(c, x, steps, y) && Lagging(x.s)
    ensures Good(c, y) && Lagging(y.s) && y.s.base == x.s.base
    ensures y.s.cur <= x.s.base + c.wnd && |y.sent| - |x.sent| == y.s.cur - x.s.cur
    ensures WorkSteps(c, x, steps) == Work(c, x.s) - Work(c, y.s) && 0 <= Work(c, y.s)
    decreases |steps|
  {
    if steps == [] {
      LagRoom(c, x);
    } else {
      StepGood(c, x, steps[0]);
      StepLags(c, x, steps[0]);
      StepWorks(c, x, steps[0]);
      StepMakes(c, x, steps[0]);
      hide Good, Lagging, Work, Apply, Enabled, SenderWorks;
      LagsForever(c, Apply(c, x, steps[0]), steps[1..], y);
    }
  }

  lemma LagRoom(c: Config, x: Sys)
    requires Good(c, x)
    ensures x.s.cur <= x.s.base + c.wnd && 0 <= Work(c, x.s)
  {
  }

  lemma StepMakes(c: Config, x: Sys, st: Step)
    requires Enabled(c, x, st)
    ensures |Apply(c, x, st).sent| - |x.sent| == Apply(c, x, st).s.cur - x.s.cur
  {
    hide GetData, Hangs;
  }

  /// All packets have been acknowledged, but the base lags behind and the window looks full.
  predicate Stuck(c: Config, s: Sender) {
    s.flight == [] && s.queue == [] && s.cur > s.base + c.wnd - 1
  }

  /// From there no step lets the sender send again.
  lemma {:induction false} StuckForever(c: Config, x: Sys, steps: seq<Step>, y: Sys)
    requires c.Ok() && Stuck(c, x.s) && Run(c, x, steps, y)
    ensures Stuck(c, y.s) && y.s.cur == x.s.cur && y.net == x.net
    decreases |steps|
  {
    if steps != [] {
      StuckForever(c, Apply(c, x, steps[0]), steps[1..], y);
    }
  }

  /// A sender that has data and nothing queued or in flight makes a packet if its base is in
  /// step. If it is behind, it does so only while the window has room, and is stuck after that.
  lemma AtRest(c: Config, x: Sys)
    requires Good(c, x) && x.s.buf != [] && x.s.queue == [] && x.s.flight == []
    ensures InStep(x.s) ==> CanPack(c, x.s)
    ensures CanPack(c, x.s) <==> !Stuck(c, x.s)
    ensures Stuck(c, x.s) ==> Lagging(x.s)
  {
    assert forall y :: y !in x.s.unack;
    SomeMember(x.s.unack);
    BehindIsLagging(c, x);
  }

  lemma SomeMember(l: seq<nat>)
    ensures l == [] || exists y :: y in l
  {
    if l != [] { assert l[0] in l; }
  }

  /// In every run in which no acknowledgement leaves the base behind the sender never gets stuck;
  /// in every other run the base stands still from then on.
  lemma {:induction false} InStepForever(c: Config, x: Sys, steps: seq<Step>, y: Sys)
    requires Good(c, x) && Run(c, x, steps, y) && InStep(x.s)
    ensures InStep(y.s) <==> NeverBehind(c, x, steps)
    ensures Good(c, y)
    decreases |steps|
  {
    if steps != [] {
      var st := steps[0];
      var x1 := Apply(c, x, st);
      StepGood(c, x, st);
      StepInStep(c, x, st);
      if InStep(x1.s) {
        hide Good, InStep, Apply, Enabled, LeavesBehind;
        InStepForever(c, x1, steps[1..], y);
      } else {
        BehindIsLagging(c, x1);
        LagsForever(c, x1, steps[1..], y);
        BehindIsLagging(c, y);
      }
    }
  }

  /// In a run from the start the base is right at the end exactly if no acknowledgement left it
  /// behind, and otherwise it is behind at the end.
  lemma StartInStep(c: Config, steps: seq<Step>, y: Sys)
    requires c.Ok() && Run(c, Init(c), steps, y)
    ensures Good(c, y) && (InStep(y.s) <==> NeverBehind(c, Init(c), steps)) && (Lagging(y.s) <==> !NeverBehind(c, Init(c), steps))
  {
    InitGood(c);
    InStepForever(c, Init(c), steps, y);
    BehindIsLagging(c, y);
  }

  /// Once a run from the start has had such an acknowledgement, the base stands still, at most a window
  /// of packets is made after it, and the sender has only so many steps left.
  lemma StartLags(c: Config, before: seq<Step>, x: Sys, after: seq<Step>, y: Sys)
    requires c.Ok() && Run(c, Init(c), before, x) && !NeverBehind(c, Init(c), before) && Run(c, x, after, y)
    ensures y.s.base == x.s.base && |y.sent| - |x.sent| <= x.s.base + c.wnd - x.s.cur <= c.wnd
    ensures WorkSteps(c, x, after) <= Work(c, x.s)
  {
    StartInStep(c, before, x);
    LagsForever(c, x, after, y);
    hide Good, InStep, NeverBehind, Run, WorkSteps, Work;
  }

  // ---------------------------------------------------------------- runs that get there

  /// A run in which the second of two packets arrives first.
  ghost function EarlySteps(): seq<Step> {
    [Write([1, 2]), PackOne, PackOne, Flush, Flush, DataArrives(Packet(6, [2])), DataArrives(Packet(5, [1])), Read(1)]
  }

  ghost function EarlyState(i: nat): Sys {
    var c, p, q := Config(5, 2, 1, 10), Packet(5, [1]), Packet(6, [2]);
    var none := Receiver(0, [], [], false, []);
    var got := Receiver(7, [], [2], false, [q]);
    var sent := Sender([], 5, 7, [], [q, p], [5, 6]);
    if i == 0 then Init(c)
    else if i == 1 then Sys(Sender([1, 2], 5, 5, [], [], []), none, {}, {}, false, [], [1, 2], [])
    else if i == 2 then Sys(Sender([2], 5, 6, [p], [], []), none, {}, {}, false, [p], [1, 2], [])
    else if i == 3 then Sys(Sender([], 5, 7, [q, p], [], []), none, {}, {}, false, [p, q], [1, 2], [])
    else if i == 4 then Sys(Sender([], 5, 7, [q], [p], [5]), none, {p}, {}, false, [p, q], [1, 2], [])
    else if i == 5 then Sys(sent, none, {p, q}, {}, false, [p, q], [1, 2], [])
    else if i == 6 then Sys(sent, got, {p, q}, {6}, false, [p, q], [1, 2], [])
    else if i == 7 then Sys(sent, got, {p, q}, {5, 6}, false, [p, q], [1, 2], [])
    else Sys(sent, Receiver(7, [], [], false, [q]), {p, q}, {5, 6}, false, [p, q], [1, 2], [2])
  }

  lemma EarlyStep(i: nat)
    requires i < 8
    ensures Enabled(Config(5, 2, 1, 10), EarlyState(i), EarlySteps()[i])
    ensures Apply(Config(5, 2, 1, 10), EarlyState(i), EarlySteps()[i]) == EarlyState(i + 1)
  {
    var c, p, q := Config(5, 2, 1, 10), Packet(5, [1]), Packet(6, [2]);
    var x, y, st := EarlyState(i), EarlyState(i + 1), EarlySteps()[i];
    if i == 0 {
      assert Apply(c, x, st).s.buf == y.s.buf && Apply(c, x, st).written == y.written;
    } else if i == 1 || i == 2 {
      assert x.s.buf[..1] == if i == 1 then [1] else [2];
      assert Pack(c, x.s).buf == y.s.buf && Pack(c, x.s).queue == y.s.queue;
      assert Apply(c, x, st).sent == y.sent;
    } else if i == 3 || i == 4 {
      assert [5][1..] == [] && InsertSeq([], 6) == [6] && InsertSeq([], 5) == [5];
      assert InsertSeq([5], 6) == [5, 6];
      assert SendOne(x.s) == y.s;
      assert Apply(c, x, st).net == y.net;
    } else if i == 5 {
      assert Push(c, x.r, q).(base := 7) == y.r;
    } else if i == 6 {
      assert GetData(c, x.r, p) == y.r && x.acks + {5} == y.acks;
    } else {
      assert Apply(c, x, st).r.ring == y.r.ring && Apply(c, x, st).read == y.read;
    }
  }

  lemma {:induction false} EarlyRun(i: nat)
    requires i <= 8
    ensures Run(Config(5, 2, 1, 10), EarlyState(i), EarlySteps()[i..], EarlyState(8))
    decreases 8 - i
  {
    hide EarlyState;
    if i < 8 {
      EarlyStep(i);
      EarlyRun(i + 1);
      assert EarlySteps()[i..][1..] == EarlySteps()[i + 1..];
    }
  }

  /// Then the first packet is acknowledged and dropped as old, and the bytes read
  /// are not a prefix of the bytes written.
  lemma FirstLost()
    ensures Run(Config(5, 2, 1, 10), Init(Config(5, 2, 1, 10)), EarlySteps(), EarlyState(8))
    ensures var y := EarlyState(8);
            !y.r.overflow && !y.hung && !(y.read <= y.written) && 5 in y.acks && y.r.queue == [] && y.r.pushed == [Packet(6, [2])]
  {
    hide Run, EarlySteps;
    EarlyRun(0);
    assert EarlySteps()[0..] == EarlySteps();
    assert EarlyState(8).read[0] == 2 && EarlyState(8).written[0] == 1;
  }

  // A run is put together step by step.

  lemma {:induction false} OneMore(c: Config, x: Sys, steps: seq<Step>, y: Sys, st: Step)
    requires Run(c, x, steps, y) && Enabled(c, y, st)
    ensures Run(c, x, steps + [st], Apply(c, y, st))
    decreases |steps|
  {
    if steps != [] {
      OneMore(c, Apply(c, x, steps[0]), steps[1..], y, st);
      assert (steps + [st])[1..] == steps[1..] + [st];
    } else {
      assert [st][1..] == [];
    }
  }

  /// The i-th of the packets of one byte each.
  ghost function Nth(c: Config, data: Bytes, i: nat): Packet
    requires i < |data|
  {
    Packet(c.first + i, [data[i]])
  }

  /// The first n packets, newest first.
  ghost function Newest(c: Config, data: Bytes, n: nat): seq<Packet>
    requires n <= |data|
  {
    if n == 0 then [] else [Nth(c, data, n - 1)] + Newest(c, data, n - 1)
  }

  ghost function Numbers(first: nat, n: nat): seq<nat> { if n == 0 then [] else Numbers(first, n - 1) + [first + n - 1] }

  ghost function All(c: Config, data: Bytes, n: nat): set<Packet>
    requires n <= |data|
  {
    if n == 0 then {} else All(c, data, n - 1) + {Nth(c, data, n - 1)}
  }

  /// Bytes are written, and n of them are packed and queued one by one.
  lemma {:induction false} PackRun(c: Config, data: Bytes, n: nat) returns (steps: seq<Step>, x: Sys)
    requires c.Ok() && c.mtu == 1 && n <= c.wnd && n <= |data|
    ensures Run(c, Init(c), steps, x) && x.r == Init(c).r && x.net == {} && x.acks == {} && !x.hung && x.written == data && x.read == []
    ensures x.s == Sender(data[n..], c.first, c.first + n, Newest(c, data, n), [], [])
    decreases n
  {
    if n == 0 {
      steps, x := [Write(data)], Apply(c, Init(c), Write(data));
      assert steps[1..] == [];
      assert [] + data == data == data[0..];
    } else {
      var pre, x0 := PackRun(c, data, n - 1);
      OneMore(c, Init(c), pre, x0, PackOne);
      steps, x := pre + [PackOne], Apply(c, x0, PackOne);
      assert x0.s.buf[..1] == [data[n - 1]] && x0.s.buf[1..] == data[n..];
    }
  }

  lemma {:induction false} NewestSplit(c: Config, data: Bytes, n: nat, m: nat)
    requires m < n <= |data|
    ensures |Newest(c, data, n)| == n
    ensures Newest(c, data, n)[n - 1 - m] == Nth(c, data, m)
    decreases n
  {
    if n - 1 == m {
      NewestLength(c, data, n);
    } else {
      NewestSplit(c, data, n - 1, m);
    }
  }

  lemma {:induction false} NewestLength(c: Config, data: Bytes, n: nat)
    requires n <= |data|
    ensures |Newest(c, data, n)| == n
    decreases n
  {
    if n > 0 { NewestLength(c, data, n - 1); }
  }

  lemma {:induction false} NumbersBelow(first: nat, n: nat)
    ensures forall y | y in Numbers(first, n) :: y < first + n
    decreases n
  {
    if n > 0 { NumbersBelow(first, n - 1); }
  }

  /// The first m of the n packets in the queue have gone out.
  lemma {:induction false} SendRun(c: Config, data: Bytes, n: nat, m: nat) returns (steps: seq<Step>, x: Sys)
    requires c.Ok() && c.mtu == 1 && m <= n <= c.wnd && n <= |data|
    ensures n <= |Newest(c, data, n)|
    ensures Run(c, Init(c), steps, x) && x.r == Init(c).r && x.net == All(c, data, m) && x.acks == {} && !x.hung && x.written == data && x.read == []
    ensures x.s == Sender(data[n..], c.first, c.first + n, Newest(c, data, n)[..n - m], Newest(c, data, m), Numbers(c.first, m))
    decreases m
  {
    NewestLength(c, data, n);
    if m == 0 {
      steps, x := PackRun(c, data, n);
      assert Newest(c, data, n)[..n] == Newest(c, data, n);
    } else {
      var pre, x0 := SendRun(c, data, n, m - 1);
      OneMore(c, Init(c), pre, x0, Flush);
      steps, x := pre + [Flush], Apply(c, x0, Flush);
      NewestSplit(c, data, n, m - 1);
      var q := x0.s.queue;
      assert q[|q| - 1] == Nth(c, data, m - 1) && q[..|q| - 1] == Newest(c, data, n)[..n - m];
      NumbersBelow(c.first, m - 1);
      InsertLast(Numbers(c.first, m - 1), c.first + m - 1);
    }
  }

  /// Two acknowledgements in swapped order, and one more: three of four bytes have been received
  /// and acknowledged, nothing is in flight, and the fourth will never go out.
  lemma SwappedAcksStick() returns (steps: seq<Step>, y: Sys)
    ensures var c := Config(5, 2, 1, 10);
            Run(c, Init(c), steps, y) && Stuck(c, y.s) && y.s.buf == [4] && y.s.unack == [] && y.r.ring == [1, 2, 3] && !y.hung
  {
    var c, data := Config(5, 2, 1, 10), [1, 2, 3, 4];
    var x;
    steps, x := SendRun(c, data, 2, 2);
    var p, q := Packet(5, [1]), Packet(6, [2]);
    assert Nth(c, data, 0) == p && Nth(c, data, 1) == q;
    assert Newest(c, data, 2) == [q, p] && Numbers(5, 2) == [5, 6] && All(c, data, 2) == {p, q} by { TwoSent(c, data); }
    assert x.s.queue == [] && x.s.buf == [3, 4];
    hide Run, All, Newest, Numbers;
    steps, x := BothArrive(c, steps, x, p, q);
    steps, x := SwappedAcks(c, steps, x, p, q);
    steps, y := ThirdAcked(c, steps, x);
  }

  lemma TwoSent(c: Config, data: Bytes)
    requires |data| >= 2
    ensures Newest(c, data, 2) == [Nth(c, data, 1), Nth(c, data, 0)]
    ensures All(c, data, 2) == {Nth(c, data, 0), Nth(c, data, 1)}
    ensures Numbers(c.first, 2) == [c.first, c.first + 1]
  {
    assert Newest(c, data, 1) == [Nth(c, data, 0)] && All(c, data, 1) == {Nth(c, data, 0)} && Numbers(c.first, 1) == [c.first];
  }

  lemma BothArrive(c: Config, pre: seq<Step>, x: Sys, p: Packet, q: Packet) returns (steps: seq<Step>, y: Sys)
    requires c == Config(5, 2, 1, 10) && p == Packet(5, [1]) && q == Packet(6, [2])
    requires Run(c, Init(c), pre, x) && x.r == Init(c).r && x.net == {p, q} && !x.hung && x.acks == {}
    ensures Run(c, Init(c), steps, y) && y.r == Receiver(7, [], [1, 2], false, [p, q]) && y.acks == {5, 6} && !y.hung && y.s == x.s && y.net == x.net
  {
    hide Run;
    var x1 := Apply(c, x, DataArrives(p));
    OneMore(c, Init(c), pre, x, DataArrives(p));
    assert x1.r == Receiver(6, [], [1], false, [p]) by { assert [] + [1][..1] == [1]; }
    y := Apply(c, x1, DataArrives(q));
    OneMore(c, Init(c), pre + [DataArrives(p)], x1, DataArrives(q));
    steps := pre + [DataArrives(p)] + [DataArrives(q)];
    assert [1] + [2][..1] == [1, 2];
  }

  lemma SwappedAcks(c: Config, pre: seq<Step>, x: Sys, p: Packet, q: Packet) returns (steps: seq<Step>, y: Sys)
    requires c == Config(5, 2, 1, 10) && p == Packet(5, [1]) && q == Packet(6, [2]) && x.acks == {5, 6}
    requires Run(c, Init(c), pre, x) && x.s == Sender([3, 4], 5, 7, [], [q, p], [5, 6])
    ensures Run(c, Init(c), steps, y) && y.s == Sender([3, 4], 6, 7, [], [], []) && y.r == x.r && y.acks == x.acks && y.net == x.net && y.hung == x.hung
    ensures !InStep(y.s)
  {
    hide Run;
    var x1 := Apply(c, x, AckArrives(6));
    OneMore(c, Init(c), pre, x, AckArrives(6));
    assert FindPacket([q, p], 6) == 0 && FindSeq([5, 6], 6) == 1 by { assert [5, 6][1..] == [6]; }
    assert x1.s == Sender([3, 4], 5, 7, [], [p], [5]) by {
      assert Without([q, p], 0) == [p] && Without([5, 6], 1) == [5];
    }
    y := Apply(c, x1, AckArrives(5));
    OneMore(c, Init(c), pre + [AckArrives(6)], x1, AckArrives(5));
    steps := pre + [AckArrives(6)] + [AckArrives(5)];
    assert FindPacket([p], 5) == 0 && FindSeq([5], 5) == 0;
    assert Without([p], 0) == [] && Without([5], 0) == [];
  }

  lemma ThirdAcked(c: Config, pre: seq<Step>, x: Sys) returns (steps: seq<Step>, y: Sys)
    requires c == Config(5, 2, 1, 10) && Run(c, Init(c), pre, x) && x.s == Sender([3, 4], 6, 7, [], [], [])
    requires x.r.base == 7 && x.r.queue == [] && x.r.ring == [1, 2] && !x.hung
    ensures Run(c, Init(c), steps, y) && y.s == Sender([4], 6, 8, [], [], []) && y.r.ring == [1, 2, 3] && !y.hung
  {
    hide Run;
    var d := Packet(7, [3]);
    var x1 := Apply(c, x, PackOne);
    OneMore(c, Init(c), pre, x, PackOne);
    assert x1.s == Sender([4], 6, 8, [d], [], []) by { assert [3, 4][..1] == [3] && [3, 4][1..] == [4]; }
    var x2 := Apply(c, x1, Flush);
    OneMore(c, Init(c), pre + [PackOne], x1, Flush);
    assert x2.s == Sender([4], 6, 8, [], [d], [7]);
    var x3 := Apply(c, x2, DataArrives(d));
    OneMore(c, Init(c), pre + [PackOne] + [Flush], x2, DataArrives(d));
    assert x3.r.ring == [1, 2, 3] && x3.r.queue == [] by { assert [1, 2] + [3][..1] == [1, 2, 3]; }
    y := Apply(c, x3, AckArrives(7));
    OneMore(c, Init(c), pre + [PackOne] + [Flush] + [DataArrives(d)], x3, AckArrives(7));
    steps := pre + [PackOne] + [Flush] + [DataArrives(d)] + [AckArrives(7)];
    assert FindPacket([d], 7) == 0 && FindSeq([7], 7) == 0;
    assert Without([d], 0) == [] && Without([7], 0) == [];
  }

  /// A gap in the queue: of four packets the first, the fourth and the second arrive, and
  /// the receiver spins.
  lemma GapHangs() returns (steps: seq<Step>, y: Sys)
    ensures var c := Config(5, 4, 1, 10);
            Run(c, Init(c), steps, y) && y.hung && y.r.base == 7 && y.r.queue == [Packet(8, [4])] && y.r.ring == [1, 2] && y.acks == {5, 6, 8}
  {
    var c, data := Config(5, 4, 1, 10), [1, 2, 3, 4];
    var x;
    steps, x := SendRun(c, data, 4, 4);
    var p, q, u := Nth(c, data, 0), Nth(c, data, 1), Nth(c, data, 3);
    InAll(c, data, 4, 0);
    InAll(c, data, 4, 1);
    InAll(c, data, 4, 3);
    hide Run, All, Newest, Numbers;
    steps, x := TwoArrive(c, steps, x, p, u);
    steps, y := Overtaken(c, steps, x, p, q, u);
  }

  /// The first packet arrives, then the fourth, which waits.
  lemma TwoArrive(c: Config, pre: seq<Step>, x: Sys, p: Packet, u: Packet) returns (steps: seq<Step>, y: Sys)
    requires c == Config(5, 4, 1, 10) && p == Packet(5, [1]) && u == Packet(8, [4]) && {p, u} <= x.net
    requires Run(c, Init(c), pre, x) && x.r == Init(c).r && !x.hung && x.acks == {}
    ensures Run(c, Init(c), steps, y) && y.r == Receiver(6, [u], [1], false, [p]) && !y.hung && y.acks == {5, 8} && y.net == x.net
  {
    hide Run;
    var x1 := Apply(c, x, DataArrives(p));
    OneMore(c, Init(c), pre, x, DataArrives(p));
    assert x1.r == Receiver(6, [], [1], false, [p]) by { assert [] + [1][..1] == [1]; }
    y := Apply(c, x1, DataArrives(u));
    OneMore(c, Init(c), pre + [DataArrives(p)], x1, DataArrives(u));
    steps := pre + [DataArrives(p)] + [DataArrives(u)];
    assert InsertPacket([], u) == [u];
  }

  /// The second packet arrives while the fourth waits for the third.
  lemma Overtaken(c: Config, pre: seq<Step>, x: Sys, p: Packet, q: Packet, u: Packet) returns (steps: seq<Step>, y: Sys)
    requires c == Config(5, 4, 1, 10) && p == Packet(5, [1]) && q == Packet(6, [2]) && u == Packet(8, [4]) && q in x.net
    requires Run(c, Init(c), pre, x) && x.r == Receiver(6, [u], [1], false, [p]) && !x.hung && x.acks == {5, 8}
    ensures Run(c, Init(c), steps, y) && y.hung && y.r == Receiver(7, [u], [1, 2], false, [p, q]) && y.acks == {5, 6, 8}
  {
    hide Run;
    y := Apply(c, x, DataArrives(q));
    OneMore(c, Init(c), pre, x, DataArrives(q));
    steps := pre + [DataArrives(q)];
    var r := Push(c, x.r, q).(base := 7);
    assert r == Receiver(7, [u], [1, 2], false, [p, q]) by { assert [1] + [2][..1] == [1, 2] && [p] + [q] == [p, q]; }
    assert Drain(c, r) == r;
  }

  lemma {:induction false} InAll(c: Config, data: Bytes, n: nat, i: nat)
    requires i < n <= |data|
    ensures Nth(c, data, i) in All(c, data, n)
    decreases n
  {
    if i < n - 1 { InAll(c, data, n - 1, i); }
  }
}
