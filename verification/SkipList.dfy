/// The skip list as the program changes it, for any choice of the random levels.
module SkipList {
  import opened Basics
  import opened SkipTowers

  ghost function Keys(ts: seq<Tower>): set<int> { set t | t in ts :: t.key }

  /// How many towers have a smaller key.
  ghost function Place(ts: seq<Tower>, key: int): (k: nat)
    ensures k <= |ts|
  {
    if ts == [] || ts[0].key >= key then 0 else 1 + Place(ts[1..], key)
  }

  lemma {:induction false} PlaceSplits(ts: seq<Tower>, key: int)
    requires Ordered(ts)
    ensures forall p | 0 <= p < |ts| :: ts[p].key < key <==> p < Place(ts, key)
    decreases |ts|
  {
    if ts != [] && ts[0].key < key {
      assert forall i, j | 0 <= i < j < |ts| - 1 :: ts[1..][i] == ts[i + 1] && ts[1..][j] == ts[j + 1];
      PlaceSplits(ts[1..], key);
      forall p | 0 < p < |ts|
        ensures ts[p].key < key <==> p < Place(ts, key)
      {
        assert ts[1..][p - 1] == ts[p];
      }
    }
  }

  /// The key is present exactly if the tower at its place has it.
  lemma AtPlace(ts: seq<Tower>, key: int)
    requires Ordered(ts)
    ensures var k := Place(ts, key); key in Keys(ts) <==> k < |ts| && ts[k].key == key
  {
    PlaceSplits(ts, key);
    var k := Place(ts, key);
    if k < |ts| && ts[k].key == key { assert ts[k] in ts; }
    forall t | t in ts && t.key == key
      ensures k < |ts| && ts[k].key == key
    {
      var p :| 0 <= p < |ts| && ts[p] == t;
      assert k <= p;
    }
  }

  /// The list without the tower that has the key.
  ghost function Without(ts: seq<Tower>, key: int): seq<Tower> {
    var k := Place(ts, key);
    if k < |ts| && ts[k].key == key then Drop(ts, k) else ts
  }

  lemma Inserted(ts: seq<Tower>, t: Tower)
    requires Ordered(ts) && Heights(ts) && t.key !in Keys(ts) && 1 <= t.height <= MAX_LEVEL
    ensures var us := Ins(ts, Place(ts, t.key), t); Ordered(us) && Heights(us) && Keys(us) == Keys(ts) + {t.key}
  {
    var k := Place(ts, t.key);
    PlaceSplits(ts, t.key);
    forall p | k <= p < |ts|
      ensures ts[p].key > t.key
    {
      assert ts[p] in ts && ts[p].key in Keys(ts);
    }
    InsOrdered(ts, k, t);
    InsMembers(ts, k, t);
    hide Ordered, Ins, Place;
  }

  lemma InsOrdered(ts: seq<Tower>, k: int, t: Tower)
    requires Ordered(ts) && 0 <= k <= |ts| && (forall p | 0 <= p < k :: ts[p].key < t.key) && forall p | k <= p < |ts| :: ts[p].key > t.key
    ensures Ordered(Ins(ts, k, t))
  {
    var us := Ins(ts, k, t);
    forall i, j | 0 <= i < j < |us|
      ensures us[i].key < us[j].key
    {
      var i0, j0 := if i < k then i else i - 1, if j < k then j else j - 1;
      assert i != k ==> us[i] == ts[i0];
      assert j != k ==> us[j] == ts[j0];
    }
  }

  lemma InsMembers<T>(s: seq<T>, k: int, x: T)
    requires 0 <= k <= |s|
    ensures forall y :: y in Ins(s, k, x) <==> y in s || y == x
  {
    assert s == s[..k] + s[k..];
    assert Ins(s, k, x)[k] == x;
  }

  lemma Dropped(ts: seq<Tower>, k: int)
    requires Ordered(ts) && Heights(ts) && 0 <= k < |ts|
    ensures var us := Drop(ts, k); Ordered(us) && Heights(us) && Keys(us) == Keys(ts) - {ts[k].key}
  {
    var us := Drop(ts, k);
    InsDrop(ts, k);
    InsMembers(us, k, ts[k]);
    DropOrdered(ts, k);
    hide Ordered, Drop, Ins;
  }

  lemma DropOrdered(ts: seq<Tower>, k: int)
    requires Ordered(ts) && 0 <= k < |ts|
    ensures Ordered(Drop(ts, k)) && forall u | u in Drop(ts, k) :: u.key != ts[k].key
  {
    var us := Drop(ts, k);
    forall i, j | 0 <= i < j < |us|
      ensures us[i].key < us[j].key
    {
      var i0, j0 := if i < k then i else i + 1, if j < k then j else j + 1;
      assert us[i] == ts[i0] && us[j] == ts[j0];
    }
    forall u | u in us
      ensures u.key != ts[k].key
    {
      var i :| 0 <= i < |us| && us[i] == u;
      var i0 := if i < k then i else i + 1;
      assert u == ts[i0] && (i0 < k || k < i0);
    }
  }

  // ---------------------------------------------------------------- the object

  /// level is the lowest height that covers all towers, at least 1.
  ghost predicate Covers(ts: seq<Tower>, level: int) {
    1 <= level <= MAX_LEVEL && (forall t | t in ts :: t.height <= level) && (level == 1 || exists t :: t in ts && t.height == level)
  }

  lemma CoversMore(ts: seq<Tower>, level: int, k: int, t: Tower)
    requires Covers(ts, level) && 0 <= k <= |ts| && 1 <= t.height <= MAX_LEVEL
    ensures Covers(Ins(ts, k, t), Max(level, t.height))
  {
    InsMembers(ts, k, t);
    if level > 1 && t.height < level {
      var u :| u in ts && u.height == level;
      assert u in Ins(ts, k, t);
    }
    assert t in Ins(ts, k, t);
  }

  ghost function Set(ns: seq<SkipNode>): set<SkipNode> { set n | n in ns }

  ghost function Snap(S: set<SkipNode>): Mem
    reads S
  {
    map n | n in S :: Cell(n.key, n.forward)
  }

  /// All the levels that there are.
  ghost predicate Levels(m: Mem, h: SkipNode, ns: seq<SkipNode>, ts: seq<Tower>, from: int, to: int) {
    forall i | from <= i < to :: OnLevel(m, h, ns, ts, i)
  }

  ghost predicate Rep(m: Mem, h: SkipNode, ns: seq<SkipNode>, ts: seq<Tower>) {
    Ordered(ts) && Heights(ts) && Described(m, h, ns, ts) && Levels(m, h, ns, ts, 0, MAX_LEVEL)
  }

  lemma RepFacts(m: Mem, h: SkipNode, ns: seq<SkipNode>, ts: seq<Tower>)
    requires Rep(m, h, ns, ts)
    ensures Ordered(ts) && Heights(ts) && |ns| == |ts| && Levels(m, h, ns, ts, 0, MAX_LEVEL) && Described(m, h, ns, ts)
  {
  }

  lemma RepMade(m: Mem, h: SkipNode, ns: seq<SkipNode>, ts: seq<Tower>)
    requires Ordered(ts) && Heights(ts) && Levels(m, h, ns, ts, 0, MAX_LEVEL) && Described(m, h, ns, ts)
    ensures Rep(m, h, ns, ts)
  {
  }

  lemma LevelAt(m: Mem, h: SkipNode, ns: seq<SkipNode>, ts: seq<Tower>, i: int, p: int)
    requires Rep(m, h, ns, ts) && 0 <= i < MAX_LEVEL && -1 <= p < |ts| && Tall(ts, p, i)
    ensures LinkAt(m, h, ns, ts, i, p)
  {
    assert OnLevel(m, h, ns, ts, i);
  }

  lemma NodeOf(m: Mem, h: SkipNode, ns: seq<SkipNode>, ts: seq<Tower>, p: int)
    requires Described(m, h, ns, ts) && 0 <= p < |ts|
    ensures NodeIs(m, ns[p], ts[p]) && ns[p] in Set(ns)
  {
    assert NodeIs(m, ns[p], ts[p]);
  }

  /// While one more tower is linked in, or out, from the bottom: the levels below i have
  /// the lists us, ms, the others ts, ns.
  ghost predicate Between(m: Mem, h: SkipNode, ns: seq<SkipNode>, ts: seq<Tower>, ms: seq<SkipNode>, us: seq<Tower>, i: int) {
    Levels(m, h, ms, us, 0, i) && Levels(m, h, ns, ts, i, MAX_LEVEL)
  }

  lemma LinkStep(m: Mem, h: SkipNode, ns: seq<SkipNode>, ts: seq<Tower>, k: int, x: SkipNode, t: Tower, i: int)
    requires |ns| == |ts| && 0 <= k <= |ts| && Between(m, h, ns, ts, Ins(ns, k, x), Ins(ts, k, t), i) && 0 <= i < t.height <= MAX_LEVEL
    requires Described(m, h, Ins(ns, k, x), Ins(ts, k, t))
    ensures var u := From(h, ns, Pred(ts, k, i));
            u in m && x in m && i < |m[u].forward| && i < |m[x].forward| &&
            Between(Link(m, u, x, i), h, ns, ts, Ins(ns, k, x), Ins(ts, k, t), i + 1) &&
            Described(Link(m, u, x, i), h, Ins(ns, k, x), Ins(ts, k, t))
  {
    var ms, us, u := Ins(ns, k, x), Ins(ts, k, t), From(h, ns, Pred(ts, k, i));
    assert OnLevel(m, h, ns, ts, i);
    assert NodeIs(m, ms[k], us[k]) && ms[k] == x && us[k] == t;
    assert Open(m, h, ns, ts, k, x, t, i);
    hide OnLevel, Described, Ins, Names, Pred;
    LevelLinked(m, h, ns, ts, k, x, t, i);
    var m1 := SetForward(m, x, i, m[u].forward[i]);
    StillDescribed(m, h, ms, us, x, i, m[u].forward[i]);
    StillDescribed(m1, h, ms, us, u, i, x);
    forall j | 0 <= j < i
      ensures OnLevel(Link(m, u, x, i), h, ms, us, j)
    {
      OtherLevel(m, h, ms, us, x, i, m[u].forward[i], j);
      OtherLevel(m1, h, ms, us, u, i, x, j);
    }
    forall j | i + 1 <= j < MAX_LEVEL
      ensures OnLevel(Link(m, u, x, i), h, ns, ts, j)
    {
      OtherLevel(m, h, ns, ts, x, i, m[u].forward[i], j);
      OtherLevel(m1, h, ns, ts, u, i, x, j);
    }
  }

  lemma UnlinkStep(m: Mem, h: SkipNode, ns: seq<SkipNode>, ts: seq<Tower>, k: int, x: SkipNode, t: Tower, i: int)
    requires |ns| == |ts| && 0 <= k <= |ts| && Between(m, h, Ins(ns, k, x), Ins(ts, k, t), ns, ts, i) && 0 <= i < t.height <= MAX_LEVEL
    requires Described(m, h, Ins(ns, k, x), Ins(ts, k, t))
    ensures var u := From(h, ns, Pred(ts, k, i));
            u in m && x in m && i < |m[u].forward| && i < |m[x].forward| &&
            Between(SetForward(m, u, i, m[x].forward[i]), h, Ins(ns, k, x), Ins(ts, k, t), ns, ts, i + 1) &&
            Described(SetForward(m, u, i, m[x].forward[i]), h, Ins(ns, k, x), Ins(ts, k, t))
  {
    var ms, us, u := Ins(ns, k, x), Ins(ts, k, t), From(h, ns, Pred(ts, k, i));
    assert OnLevel(m, h, ms, us, i);
    assert Shut(m, h, ns, ts, k, x, t, i);
    hide OnLevel, Described, Ins, Names, Pred;
    LevelUnlinked(m, h, ns, ts, k, x, t, i);
    StillDescribed(m, h, ms, us, u, i, m[x].forward[i]);
    forall j | 0 <= j < i
      ensures OnLevel(SetForward(m, u, i, m[x].forward[i]), h, ns, ts, j)
    {
      OtherLevel(m, h, ns, ts, u, i, m[x].forward[i], j);
    }
    forall j | i + 1 <= j < MAX_LEVEL
      ensures OnLevel(SetForward(m, u, i, m[x].forward[i]), h, ms, us, j)
    {
      OtherLevel(m, h, ms, us, u, i, m[x].forward[i], j);
    }
  }

  /// Above its height the tower makes no difference.
  lemma AllLinked(m: Mem, h: SkipNode, ns: seq<SkipNode>, ts: seq<Tower>, k: int, x: SkipNode, t: Tower)
    requires |ns| == |ts| && 0 <= k <= |ts| && Between(m, h, ns, ts, Ins(ns, k, x), Ins(ts, k, t), t.height)
    ensures Levels(m, h, Ins(ns, k, x), Ins(ts, k, t), 0, MAX_LEVEL)
  {
    hide OnLevel, Ins;
    forall j | t.height <= j < MAX_LEVEL
      ensures OnLevel(m, h, Ins(ns, k, x), Ins(ts, k, t), j)
    {
      LevelPassed(m, h, ns, ts, k, x, t, j);
    }
  }

  lemma AllUnlinked(m: Mem, h: SkipNode, ns: seq<SkipNode>, ts: seq<Tower>, k: int, x: SkipNode, t: Tower)
    requires |ns| == |ts| && 0 <= k <= |ts| && Between(m, h, Ins(ns, k, x), Ins(ts, k, t), ns, ts, t.height)
    ensures Levels(m, h, ns, ts, 0, MAX_LEVEL)
  {
    hide OnLevel, Ins;
    forall j | t.height <= j < MAX_LEVEL
      ensures OnLevel(m, h, ns, ts, j)
    {
      LevelPassed(m, h, ns, ts, k, x, t, j);
    }
  }

  /// What one level shows: the towers that reach it, in order.
  ghost function Lane(ts: seq<Tower>, i: int): seq<Tower> {
    if ts == [] then [] else (if ts[0].height > i then [ts[0]] else []) + Lane(ts[1..], i)
  }

  ghost predicate Subsequence(a: seq<Tower>, b: seq<Tower>)
    decreases |b|
  {
    if a == [] then true else b != [] && if a[0] == b[0] then Subsequence(a[1..], b[1..]) else Subsequence(a, b[1..])
  }

  lemma OrderedTail(ts: seq<Tower>)
    requires Ordered(ts) && ts != []
    ensures Ordered(ts[1..]) && forall t | t in ts[1..] :: ts[0].key < t.key
  {
    var r := ts[1..];
    assert forall a | 0 <= a < |r| :: r[a] == ts[a + 1];
  }

  lemma OrderedFront(t: Tower, ts: seq<Tower>)
    requires Ordered(ts) && forall u | u in ts :: t.key < u.key
    ensures Ordered([t] + ts)
  {
    var w := [t] + ts;
    forall a, b | 0 <= a < b < |w|
      ensures w[a].key < w[b].key
    {
      assert w[b] == ts[b - 1] && ts[b - 1] in ts;
      assert a > 0 ==> w[a] == ts[a - 1];
    }
  }

  /// Every level is sorted strictly, and has exactly the towers that reach it.
  lemma {:induction false} LaneOrdered(ts: seq<Tower>, i: int)
    requires Ordered(ts)
    ensures Ordered(Lane(ts, i)) && (forall t :: t in Lane(ts, i) <==> t in ts && t.height > i)
    decreases |ts|
  {
    if ts != [] {
      OrderedTail(ts);
      hide Ordered;
      LaneOrdered(ts[1..], i);
      assert forall t :: t in ts <==> t == ts[0] || t in ts[1..];
      var l := Lane(ts[1..], i);
      if ts[0].height > i {
        OrderedFront(ts[0], l);
      } else {
        assert Lane(ts, i) == l;
      }
    }
  }

  lemma SubsequenceBoth(a: seq<Tower>, b: seq<Tower>, t: Tower)
    requires Subsequence(a, b)
    ensures Subsequence([t] + a, [t] + b)
  {
    assert ([t] + a)[1..] == a && ([t] + b)[1..] == b;
  }

  lemma SubsequenceMore(a: seq<Tower>, b: seq<Tower>, t: Tower)
    requires Subsequence(a, b) && t !in a
    ensures Subsequence(a, [t] + b)
  {
    if a != [] {
      assert a[0] in a && ([t] + b)[1..] == b;
    }
  }

  /// Every level is a subsequence of the level below it.
  lemma {:induction false} LaneBelow(ts: seq<Tower>, i: int)
    requires Ordered(ts)
    ensures Subsequence(Lane(ts, i + 1), Lane(ts, i))
    decreases |ts|
  {
    if ts != [] {
      OrderedTail(ts);
      LaneBelow(ts[1..], i);
      LaneOrdered(ts[1..], i + 1);
      var hi, lo := Lane(ts[1..], i + 1), Lane(ts[1..], i);
      hide Ordered, Subsequence;
      if ts[0].height > i + 1 {
        SubsequenceBoth(hi, lo, ts[0]);
      } else if ts[0].height > i {
        SubsequenceMore(hi, lo, ts[0]);
        assert Lane(ts, i + 1) == hi;
      } else {
        assert Lane(ts, i + 1) == hi && Lane(ts, i) == lo;
      }
    }
  }

  /// From tower p on, the level goes on at the next tower that reaches it.
  lemma {:induction false} LaneFrom(ts: seq<Tower>, p: int, i: int)
    requires -1 <= p < |ts|
    ensures var q := Next(ts, p, i); Lane(ts[p + 1..], i) == if q < |ts| then [ts[q]] + Lane(ts[q + 1..], i) else []
    decreases |ts| - p
  {
    if p + 1 < |ts| {
      assert ts[p + 1..][1..] == ts[p + 2..];
      if !Tall(ts, p + 1, i) { LaneFrom(ts, p + 1, i); }
    }
  }

  ghost function LaneTail(ts: seq<Tower>, q: int, i: int): seq<Tower>
    requires 0 <= q <= |ts|
  {
    if q < |ts| then [ts[q]] + Lane(ts[q + 1..], i) else []
  }

  lemma LaneStarts(ts: seq<Tower>, i: int)
    ensures Lane(ts, i) == [] + LaneTail(ts, Next(ts, -1, i), i)
  {
    LaneFrom(ts, -1, i);
    assert ts[0..] == ts;
  }

  lemma LaneNext(ts: seq<Tower>, q: int, i: int)
    requires 0 <= q < |ts|
    ensures LaneTail(ts, q, i) == [ts[q]] + LaneTail(ts, Next(ts, q, i), i)
  {
    LaneFrom(ts, q, i);
    hide Lane, Next;
  }

  lemma LaneGoesOn(ts: seq<Tower>, q: int, i: int, shown: seq<Tower>)
    requires 0 <= q < |ts|
    ensures shown + LaneTail(ts, q, i) == (shown + [ts[q]]) + LaneTail(ts, Next(ts, q, i), i)
  {
    hide LaneTail, Next;
    LaneNext(ts, q, i);
  }

  lemma LaneEnds(ts: seq<Tower>, q: int, i: int)
    requires q == |ts|
    ensures LaneTail(ts, q, i) == []
  {
  }

  /// Every tower reaches level 0, so that the successor of the last smaller one is at the key's place.
  lemma Bottom(ts: seq<Tower>, k: int)
    requires Heights(ts) && 0 <= k <= |ts|
    ensures Pred(ts, k, 0) == k - 1 && Next(ts, k - 1, 0) == k
  {
    if k > 0 { assert ts[k - 1] in ts && Tall(ts, k - 1, 0); }
    if k < |ts| { assert ts[k] in ts && Tall(ts, k, 0); }
  }

  lemma TooHigh(ts: seq<Tower>, level: int, k: int, i: int)
    requires Covers(ts, level) && i >= level && 0 <= k <= |ts|
    ensures Pred(ts, k, i) == -1 && Next(ts, -1, i) == |ts|
  {
    assert forall p | 0 <= p < |ts| :: ts[p] in ts && !Tall(ts, p, i);
  }

  class SkipList {
    var level: int
    const header: SkipNode
    ghost var nodes: seq<SkipNode>
    ghost var towers: seq<Tower>

    ghost function All(): set<SkipNode>
      reads this
    {
      Set(nodes) + {header}
    }

    ghost function Mem(): SkipTowers.Mem
      reads this, All()
    {
      Snap(All())
    }

    ghost predicate Valid()
      reads this, All()
    {
      Rep(Mem(), header, nodes, towers) && Covers(towers, level)
    }

    /// createSkipList
    constructor ()
      ensures Valid() && fresh(header) && towers == [] && level == 1
    {
      level := 1;
      header := new SkipNode(-1, MAX_LEVEL);
      nodes, towers := [], [];
      new;
      forall i | 0 <= i < MAX_LEVEL
        ensures OnLevel(Mem(), header, nodes, towers, i)
      {
      }
    }

    /// The way down that insert, deleteNode and search share: on every level to the last node with
    /// a smaller key. search does not keep the nodes it leaves.
    method Descend(key: int) returns (update: seq<SkipNode>)
      requires Valid()
      ensures |update| == level
      ensures forall j | 0 <= j < level :: update[j] == From(header, nodes, Pred(towers, Place(towers, key), j))
    {
      hide Next, Pred, OnLevel, Rep, Tall, Ordered;
      ghost var k := Place(towers, key);
      var current := header;
      ghost var p: int := -1;
      update := seq(level, _ => header);
      var i := level - 1;
      TallHeader(towers, i);
      while i >= 0
        invariant -1 <= i < level && |update| == level && -1 <= p < k && current == From(header, nodes, p) && Tall(towers, p, i)
        invariant forall j | i < j < level :: update[j] == From(header, nodes, Pred(towers, k, j))
      {
        current, p := Along(key, i, current, p);
        update := update[i := current];
        i := i - 1;
        TallLower(towers, p, i);
      }
    }

    /// Along one level, up to the last node with a smaller key.
    method Along(key: int, i: int, from: SkipNode, ghost p0: int) returns (current: SkipNode, ghost p: int)
      requires Valid() && 0 <= i < level && -1 <= p0 < Place(towers, key) && from == From(header, nodes, p0) && Tall(towers, p0, i)
      ensures p == Pred(towers, Place(towers, key), i) && current == From(header, nodes, p)
    {
      hide Pred, Next, Tall, Rep, Covers, Place;
      ghost var k := Place(towers, key);
      current, p := from, p0;
      ghost var q := Step(Mem(), header, nodes, towers, level, key, i, p);
      while current.forward[i] != null && current.forward[i].key < key
        invariant -1 <= p < k && current == From(header, nodes, p) && Tall(towers, p, i) && q == Next(towers, p, i)
        invariant current in All() && i < |current.forward| && current.forward[i] == NodeAt(nodes, q)
        invariant p < q <= |towers| == |nodes| && (q < |towers| ==> Tall(towers, q, i) && (nodes[q].key < key <==> q < k))
        decreases k - p
      {
        current, p := current.forward[i], q;
        q := Step(Mem(), header, nodes, towers, level, key, i, p);
      }
      PredIs(towers, k, i, p);
    }

    /// The loop of printSkipList on one level: the keys and heights it shows, in this order.
    method Shown(i: int) returns (shown: seq<Tower>)
      requires Valid() && 0 <= i < level
      ensures shown == Lane(towers, i)
    {
      hide Next, Tall, Rep, Covers, Lane, LaneTail;
      shown := [];
      TallHeader(towers, i);
      ghost var q := Step(Mem(), header, nodes, towers, level, 0, i, -1);
      LaneStarts(towers, i);
      var current := header.forward[i];
      while current != null
        invariant 0 <= q <= |towers| == |nodes| && current == NodeAt(nodes, q)
        invariant q < |towers| ==> Tall(towers, q, i) && NodeIs(Mem(), nodes[q], towers[q])
        invariant Lane(towers, i) == shown + LaneTail(towers, q, i)
        decreases |towers| - q
      {
        LaneGoesOn(towers, q, i, shown);
        shown := shown + [Tower(current.key, |current.forward|)];
        q := Step(Mem(), header, nodes, towers, level, 0, i, q);
        current := current.forward[i];
      }
      LaneEnds(towers, q, i);
    }

    /// search
    method Search(key: int) returns (found: SkipNode?)
      requires Valid()
      ensures found != null <==> key in Keys(towers)
      ensures found != null ==> found in nodes && found.key == key
    {
      var update := Descend(key);
      ghost var k := Place(towers, key);
      hide Pred, Next, OnLevel, Place;
      Arrived(Mem(), header, nodes, towers, level, key);
      AtPlace(towers, key);
      var current := update[0].forward[0];
      if current != null && current.key == key {
        return current;
      }
      return null;
    }

    /// On the levels that are new the header comes before the new node.
    method Raise(update: seq<SkipNode>, key: int, newLevel: int) returns (r: seq<SkipNode>)
      requires Valid() && newLevel <= MAX_LEVEL && |update| == level
      requires forall j | 0 <= j < level :: update[j] == From(header, nodes, Pred(towers, Place(towers, key), j))
      ensures |r| == Max(level, newLevel)
      ensures forall j | 0 <= j < |r| :: r[j] == From(header, nodes, Pred(towers, Place(towers, key), j))
    {
      hide Pred, Rep;
      r := update;
      if newLevel > level {
        var i := level;
        while i < newLevel
          invariant level <= i <= newLevel && |r| == i
          invariant forall j | 0 <= j < i :: r[j] == From(header, nodes, Pred(towers, Place(towers, key), j))
        {
          TooHigh(towers, level, Place(towers, key), i);
          r := r + [header];
          i := i + 1;
        }
      }
    }

    /// insert; newLevel is what randomLevel gives.
    method Insert(key: int, newLevel: int)
      requires Valid() && 1 <= newLevel <= MAX_LEVEL
      modifies this, All()
      ensures Valid() && fresh(All() - old(All()))
      ensures Keys(towers) == old(Keys(towers)) + {key}
      ensures towers == if key in old(Keys(towers)) then old(towers) else Ins(old(towers), Place(old(towers), key), Tower(key, newLevel))
    {
      hide Pred, Next, Place, Covers, Rep, Keys, Ins;
      var update := Descend(key);
      Arrived(Mem(), header, nodes, towers, level, key);
      RepFacts(Mem(), header, nodes, towers);
      AtPlace(towers, key);
      Ground(towers, level);
      var current := update[0].forward[0];
      if current != null && current.key == key {
        assert Keys(towers) + {key} == Keys(towers);
        return;
      }
      Inserted(towers, Tower(key, newLevel));
      update := Raise(update, key, newLevel);
      InsertAt(update, key, newLevel);
    }

    /// The second half of insert: the new node between the nodes of update and what is behind them.
    method InsertAt(update: seq<SkipNode>, key: int, newLevel: int)
      requires Valid() && 1 <= newLevel <= MAX_LEVEL && key !in Keys(towers) && |update| == Max(level, newLevel)
      requires forall j | 0 <= j < |update| :: update[j] == From(header, nodes, Pred(towers, Place(towers, key), j))
      modifies this, All()
      ensures Valid() && fresh(All() - old(All()))
      ensures towers == Ins(old(towers), Place(old(towers), key), Tower(key, newLevel))
    {
      ghost var k, ns, ts, m0, t := Place(towers, key), nodes, towers, Mem(), Tower(key, newLevel);
      hide Pred, Next, Place, Rep, Between, Levels, Described, Covers, Keys, Ins, Heights, Ordered;
      RepFacts(m0, header, ns, ts);
      CoversMore(ts, level, k, t);
      Inserted(ts, t);
      if newLevel > level {
        level := newLevel;
      }
      ghost var S := All();
      var newNode := NewNode(key, newLevel, S);
      ghost var ms, us := Ins(ns, k, newNode), Ins(ts, k, t);
      Extended(m0, Snap(S + {newNode}), header, ns, ts, k, newNode, t);
      LinkAll(header, update, newNode, S + {newNode}, ns, ts, k, t);
      SetIns(ns, k, newNode);
      RepMade(Snap(S + {newNode}), header, ms, us);
      Adopt(ms, us, S + {newNode});
    }

    /// deleteNode
    method DeleteNode(key: int) returns (r: int)
      requires Valid()
      modifies this, All()
      ensures Valid() && All() <= old(All())
      ensures r == if key in old(Keys(towers)) then 1 else 0
      ensures Keys(towers) == old(Keys(towers)) - {key}
      ensures towers == Without(old(towers), key)
    {
      hide Pred, Next, Place, Covers, Rep, Keys, Drop;
      var update := Descend(key);
      Arrived(Mem(), header, nodes, towers, level, key);
      RepFacts(Mem(), header, nodes, towers);
      AtPlace(towers, key);
      Ground(towers, level);
      var current := update[0].forward[0];
      if current == null || current.key != key {
        assert Keys(towers) - {key} == Keys(towers);
        return 0;
      }
      Dropped(towers, Place(towers, key));
      DeleteAt(update, current, key);
      return 1;
    }

    /// The second half of deleteNode: the node leaves all its levels, and level goes down.
    method DeleteAt(update: seq<SkipNode>, current: SkipNode, key: int)
      requires Valid() && Place(towers, key) < |towers| && NodeAt(nodes, Place(towers, key)) == current && |update| == level
      requires forall j | 0 <= j < level :: update[j] == From(header, nodes, Pred(towers, Place(towers, key), j))
      modifies this, All()
      ensures Valid() && All() <= old(All())
      ensures towers == Drop(old(towers), Place(old(towers), key))
    {
      hide Pred, Next, Place, Rep, Between, Levels, Described, Covers, Keys, Drop, Heights, Ordered;
      ghost var k, ns, ts, S := Place(towers, key), nodes, towers, All();
      RepFacts(Mem(), header, ns, ts);
      Dropped(ts, k);
      TowerLow(ts, level, k);
      UnlinkAll(header, update, level, current, S, ns, ts, k);
      ghost var ms, us := Drop(ns, k), Drop(ts, k);
      SetDrop(ns, k);
      DescribedDrop(Snap(S), header, ns, ts, k);
      RepMade(Snap(S), header, ms, us);
      SmallerRep(S, header, ms, us);
      Adopt(ms, us, Set(ms) + {header});
      LowerLevel(old(level));
    }

    /// level goes down to the highest tower.
    method LowerLevel(ghost bound: int)
      requires Rep(Mem(), header, nodes, towers) && level == bound && 1 <= level <= MAX_LEVEL && forall t | t in towers :: t.height <= level
      modifies this`level
      ensures Covers(towers, level) && Mem() == old(Mem())
    {
      hide OnLevel, Rep, Covers;
      ghost var m := Mem();
      while level > 1 && LevelEmpty(level)
        invariant 1 <= level <= MAX_LEVEL && Mem() == m
        invariant forall t | t in towers :: t.height <= level
        decreases level
      {
        EmptyLevel(m, header, nodes, towers, level);
        SetLevel(level - 1);
      }
      CoveredLevel(m, header, nodes, towers, level);
    }

    method SetLevel(l: int)
      modifies this`level
      ensures level == l && Mem() == old(Mem())
    {
      level := l;
    }

    /// The test of the last loop of deleteNode.
    predicate LevelEmpty(l: int)
      requires 1 <= l <= MAX_LEVEL && Rep(Mem(), header, nodes, towers)
      reads this, All()
    {
      assert header in Mem() && |Mem()[header].forward| == MAX_LEVEL;
      header.forward[l - 1] == null
    }

    /// The list is now this one.
    ghost method Adopt(ns: seq<SkipNode>, ts: seq<Tower>, S: set<SkipNode>)
      requires S == Set(ns) + {header}
      modifies this`nodes, this`towers
      ensures nodes == ns && towers == ts && All() == S && Mem() == old(Snap(S))
    {
      nodes, towers := ns, ts;
      assert All() == S;
    }
  }

  /// The node x, of height t.height, is linked in behind the nodes of update, from the bottom.
  method LinkAll(h: SkipNode, update: seq<SkipNode>, x: SkipNode, ghost S: set<SkipNode>, ghost ns: seq<SkipNode>, ghost ts: seq<Tower>, ghost k: int, ghost t: Tower)
    requires |ns| == |ts| && 0 <= k <= |ts| && 0 <= t.height <= MAX_LEVEL && |x.forward| == t.height <= |update|
    requires forall j | 0 <= j < t.height :: update[j] == From(h, ns, Pred(ts, k, j))
    requires Between(Snap(S), h, ns, ts, Ins(ns, k, x), Ins(ts, k, t), 0) && Described(Snap(S), h, Ins(ns, k, x), Ins(ts, k, t))
    modifies S
    ensures Levels(Snap(S), h, Ins(ns, k, x), Ins(ts, k, t), 0, MAX_LEVEL) && Described(Snap(S), h, Ins(ns, k, x), Ins(ts, k, t))
  {
    hide Pred, Next, OnLevel, Between, Levels, Described, Ins;
    var i := 0;
    while i < |x.forward|
      invariant 0 <= i <= t.height && |x.forward| == t.height
      invariant Between(Snap(S), h, ns, ts, Ins(ns, k, x), Ins(ts, k, t), i)
      invariant Described(Snap(S), h, Ins(ns, k, x), Ins(ts, k, t))
    {
      LinkStep(Snap(S), h, ns, ts, k, x, t, i);
      LinkIn(update[i], x, i, S);
      i := i + 1;
    }
    AllLinked(Snap(S), h, ns, ts, k, x, t);
  }

  /// The node x, the k-th, is taken out behind the nodes of update, from the bottom up to the
  /// first level on which its predecessor does not link to it.
  method UnlinkAll(h: SkipNode, update: seq<SkipNode>, level: int, x: SkipNode, ghost S: set<SkipNode>, ghost ns: seq<SkipNode>, ghost ts: seq<Tower>, ghost k: int)
    requires Rep(Snap(S), h, ns, ts) && 0 <= k < |ts| == |ns| && ns[k] == x && ts[k].height <= level <= MAX_LEVEL && |update| == level
    requires forall j | 0 <= j < level :: update[j] == From(h, ns, Pred(ts, k, j))
    modifies S
    ensures Levels(Snap(S), h, Drop(ns, k), Drop(ts, k), 0, MAX_LEVEL) && Described(Snap(S), h, ns, ts)
  {
    ghost var ms, us, t := Drop(ns, k), Drop(ts, k), ts[k];
    RepFacts(Snap(S), h, ns, ts);
    InsDrop(ns, k);
    InsDrop(ts, k);
    assert 0 <= t.height by { assert ts[k] in ts; }
    hide Pred, Next, OnLevel, Rep, Between, Levels, Described, Ins, Drop;
    NoneYet(Snap(S), h, ns, ts, ms, us);
    DropLengths(ns, ts, k);
    var i := 0;
    while i < level
      invariant 0 <= i <= t.height
      invariant Between(Snap(S), h, ns, ts, ms, us, i) && Described(Snap(S), h, ns, ts)
    {
      Cut(Snap(S), h, ns, ts, k, i);
      if update[i].forward[i] != x {
        break;
      }
      UnlinkStep(Snap(S), h, ms, us, k, x, t, i);
      LinkPast(update[i], x, i, S);
      i := i + 1;
    }
    AllUnlinked(Snap(S), h, ms, us, k, x, t);
  }

  lemma NoneYet(m: Mem, h: SkipNode, ns: seq<SkipNode>, ts: seq<Tower>, ms: seq<SkipNode>, us: seq<Tower>)
    requires Levels(m, h, ns, ts, 0, MAX_LEVEL)
    ensures Between(m, h, ns, ts, ms, us, 0)
  {
  }

  lemma DropLengths(ns: seq<SkipNode>, ts: seq<Tower>, k: int)
    requires 0 <= k < |ts| == |ns|
    ensures |Drop(ns, k)| == |Drop(ts, k)| == |ts| - 1
  {
  }

  /// What the loop finds on level i.
  lemma Cut(m: Mem, h: SkipNode, ns: seq<SkipNode>, ts: seq<Tower>, k: int, i: int)
    requires 0 <= k < |ts| == |ns| && Described(m, h, ns, ts) && 0 <= i < MAX_LEVEL && Between(m, h, ns, ts, Drop(ns, k), Drop(ts, k), i)
    ensures var u := From(h, ns, Pred(ts, k, i));
            u in m && i < |m[u].forward| && (m[u].forward[i] == ns[k] <==> ts[k].height > i) &&
            k <= |Drop(ts, k)| && u == From(h, Drop(ns, k), Pred(Drop(ts, k), k, i))
  {
    assert OnLevel(m, h, ns, ts, i);
    PredLink(m, h, ns, ts, k, i);
    InsDrop(ts, k);
    PredSame(Drop(ts, k), k, ts[k], i);
    hide OnLevel, Pred;
  }

  lemma TowerLow(ts: seq<Tower>, level: int, k: int)
    requires Covers(ts, level) && 0 <= k < |ts|
    ensures ts[k].height <= level <= MAX_LEVEL && 1 <= level && forall t | t in Drop(ts, k) :: t.height <= level
  {
    assert ts[k] in ts;
    InsDrop(ts, k);
    InsMembers(Drop(ts, k), k, ts[k]);
  }

  lemma EmptyLevel(m: Mem, h: SkipNode, ns: seq<SkipNode>, ts: seq<Tower>, level: int)
    requires Rep(m, h, ns, ts) && 1 < level <= MAX_LEVEL && m[h].forward[level - 1] == null
    ensures forall t | t in ts :: t.height <= level - 1
  {
    LevelAt(m, h, ns, ts, level - 1, -1);
    forall t | t in ts
      ensures t.height <= level - 1
    {
      var q :| 0 <= q < |ts| && ts[q] == t;
      assert !Tall(ts, q, level - 1);
    }
  }

  lemma CoveredLevel(m: Mem, h: SkipNode, ns: seq<SkipNode>, ts: seq<Tower>, level: int)
    requires Rep(m, h, ns, ts) && 1 <= level <= MAX_LEVEL && (level > 1 ==> m[h].forward[level - 1] != null) && forall t | t in ts :: t.height <= level
    ensures Covers(ts, level)
  {
    if level > 1 {
      LevelAt(m, h, ns, ts, level - 1, -1);
      var q := Next(ts, -1, level - 1);
      assert ts[q] in ts && ts[q].height == level;
    }
  }

  lemma DescribedDrop(m: Mem, h: SkipNode, ns: seq<SkipNode>, ts: seq<Tower>, k: int)
    requires Described(m, h, ns, ts) && 0 <= k < |ts|
    ensures Described(m, h, Drop(ns, k), Drop(ts, k))
  {
    var ms, us := Drop(ns, k), Drop(ts, k);
    InsDrop(ns, k);
    InsMembers(ms, k, ns[k]);
    forall p | 0 <= p < |us|
      ensures NodeIs(m, ms[p], us[p])
    {
      var q := if p < k then p else p + 1;
      assert NodeIs(m, ns[q], ts[q]);
    }
    forall i, j | 0 <= i < j < |ms|
      ensures ms[i] != ms[j]
    {
      var i0, j0 := if i < k then i else i + 1, if j < k then j else j + 1;
      assert ms[i] == ns[i0] && ms[j] == ns[j0];
    }
  }

  lemma SetDrop(ns: seq<SkipNode>, k: int)
    requires 0 <= k < |ns|
    ensures Set(Drop(ns, k)) <= Set(ns)
  {
    InsDrop(ns, k);
    InsMembers(Drop(ns, k), k, ns[k]);
  }

  /// Only the nodes of the list matter.
  lemma SmallerRep(S: set<SkipNode>, h: SkipNode, ns: seq<SkipNode>, ts: seq<Tower>)
    requires Rep(Snap(S), h, ns, ts) && Set(ns) + {h} <= S
    ensures Rep(Snap(Set(ns) + {h}), h, ns, ts)
  {
    var m, m' := Snap(S), Snap(Set(ns) + {h});
    forall i | 0 <= i < MAX_LEVEL
      ensures OnLevel(m', h, ns, ts, i)
    {
      assert OnLevel(m, h, ns, ts, i);
      forall p | -1 <= p < |ts| && Tall(ts, p, i)
        ensures LinkAt(m', h, ns, ts, i, p)
      {
        assert LinkAt(m, h, ns, ts, i, p);
        assert p >= 0 ==> ns[p] in Set(ns);
      }
    }
    forall p | 0 <= p < |ts|
      ensures NodeIs(m', ns[p], ts[p])
    {
      NodeOf(m, h, ns, ts, p);
    }
  }

  /// The heap has one more node, and the list has not changed.
  lemma Extended(m0: Mem, m: Mem, h: SkipNode, ns: seq<SkipNode>, ts: seq<Tower>, k: int, x: SkipNode, t: Tower)
    requires Rep(m0, h, ns, ts) && 0 <= k <= |ts| && x !in m0 && m0.Keys == Set(ns) + {h}
    requires x in m && m[x].key == t.key && |m[x].forward| == t.height && forall n | n in m0 :: n in m && m[n] == m0[n]
    ensures Between(m, h, ns, ts, Ins(ns, k, x), Ins(ts, k, t), 0) && Described(m, h, Ins(ns, k, x), Ins(ts, k, t))
  {
    var ms, us := Ins(ns, k, x), Ins(ts, k, t);
    forall i | 0 <= i < MAX_LEVEL
      ensures OnLevel(m, h, ns, ts, i)
    {
      assert OnLevel(m0, h, ns, ts, i);
      forall p | -1 <= p < |ts| && Tall(ts, p, i)
        ensures LinkAt(m, h, ns, ts, i, p)
      {
        assert LinkAt(m0, h, ns, ts, i, p);
      }
    }
    forall p | 0 <= p < |us|
      ensures NodeIs(m, ms[p], us[p])
    {
      if p != k {
        var r := if p < k then p else p - 1;
        assert ms[p] == ns[r] && us[p] == ts[r] && NodeIs(m0, ns[r], ts[r]);
      }
    }
    NewName(h, ns, k, x);
  }

  lemma NewName(h: SkipNode, ns: seq<SkipNode>, k: int, x: SkipNode)
    requires Names(h, ns) && 0 <= k <= |ns| && x != h && x !in ns
    ensures Names(h, Ins(ns, k, x))
  {
    var ms := Ins(ns, k, x);
    InsMembers(ns, k, x);
    forall i, j | 0 <= i < j < |ms|
      ensures ms[i] != ms[j]
    {
      var i0, j0 := if i < k then i else i - 1, if j < k then j else j - 1;
      assert i != k ==> ms[i] == ns[i0] && ns[i0] in ns;
      assert j != k ==> ms[j] == ns[j0] && ns[j0] in ns;
    }
  }

  lemma SetIns(ns: seq<SkipNode>, k: int, x: SkipNode)
    requires 0 <= k <= |ns|
    ensures Set(Ins(ns, k, x)) == Set(ns) + {x}
  {
    InsMembers(ns, k, x);
  }

  lemma Ground(ts: seq<Tower>, level: int)
    requires Covers(ts, level)
    ensures 1 <= level <= MAX_LEVEL
  {
  }

  method NewNode(key: int, level: nat, ghost S: set<SkipNode>) returns (n: SkipNode)
    ensures fresh(n) && n.key == key && n.forward == Nulls(level)
    ensures n !in S && Snap(S) == old(Snap(S)) && Snap(S + {n}) == old(Snap(S))[n := Cell(key, Nulls(level))]
  {
    n := new SkipNode(key, level);
  }

  /// The two stores on one level.
  method LinkIn(u: SkipNode, x: SkipNode, i: nat, ghost S: set<SkipNode>)
    requires u in S && x in S && i < |u.forward| && i < |x.forward|
    modifies u`forward, x`forward
    ensures Snap(S) == Link(old(Snap(S)), u, x, i) && |x.forward| == old(|x.forward|)
  {
    x.forward := x.forward[i := u.forward[i]];
    u.forward := u.forward[i := x];
  }

  lemma TallHeader(ts: seq<Tower>, i: int)
    ensures Tall(ts, -1, i)
  {
  }

  lemma TallLower(ts: seq<Tower>, p: int, i: int)
    requires Tall(ts, p, i + 1)
    ensures Tall(ts, p, i)
  {
  }

  /// The link of the tower at p on level i, and what a look at the key behind it tells.
  lemma Step(m: Mem, h: SkipNode, ns: seq<SkipNode>, ts: seq<Tower>, level: int, key: int, i: int, p: int) returns (q: int)
    requires Rep(m, h, ns, ts) && Covers(ts, level) && 0 <= i < level && -1 <= p < |ts| && Tall(ts, p, i)
    ensures q == Next(ts, p, i) && p < q <= |ts| == |ns|
    ensures var n := From(h, ns, p); n in m && i < |m[n].forward| && m[n].forward[i] == NodeAt(ns, q)
    ensures q < |ts| ==> Tall(ts, q, i) && NodeIs(m, ns[q], ts[q]) && (m[ns[q]].key < key <==> q < Place(ts, key))
  {
    LevelAt(m, h, ns, ts, i, p);
    PlaceSplits(ts, key);
    q := Next(ts, p, i);
    if q < |ts| { NodeOf(m, h, ns, ts, q); }
  }

  /// The node behind the last smaller one on the bottom level.
  lemma Arrived(m: Mem, h: SkipNode, ns: seq<SkipNode>, ts: seq<Tower>, level: int, key: int)
    requires Rep(m, h, ns, ts) && Covers(ts, level)
    ensures var k := Place(ts, key); var u := From(h, ns, Pred(ts, k, 0));
            u in m && 0 < |m[u].forward| && m[u].forward[0] == NodeAt(ns, k) && (k < |ts| ==> NodeIs(m, ns[k], ts[k]) && ns[k] in ns)
  {
    var k := Place(ts, key);
    Bottom(ts, k);
    LevelAt(m, h, ns, ts, 0, k - 1);
    if k < |ts| { NodeOf(m, h, ns, ts, k); }
  }

  /// The store on one level by which u skips x.
  method LinkPast(u: SkipNode, x: SkipNode, i: nat, ghost S: set<SkipNode>)
    requires u in S && x in S && i < |u.forward| && i < |x.forward|
    modifies u`forward
    ensures Snap(S) == SetForward(old(Snap(S)), u, i, old(x.forward[i]))
  {
    u.forward := u.forward[i := x.forward[i]];
  }
}
