/// The shape of the skip list: towers in key order, and on every level the links
/// from each tower that is tall enough to the next one that is.
module SkipTowers {

  /// SkipListNode; forward has one link per level of the node.
  class SkipNode {
    var key: int
    var level: int
    var forward: seq<SkipNode?>

    /// createNode
    constructor (key: int, level: nat)
      ensures this.key == key && this.level == level && forward == Nulls(level)
    {
      this.key := key;
      this.level := level;
      forward := Nulls(level);
    }
  }

  function Nulls(n: nat): (r: seq<SkipNode?>)
    ensures |r| == n && forall i | 0 <= i < n :: r[i] == null
  {
    if n == 0 then [] else Nulls(n - 1) + [null]
  }

  const MAX_LEVEL := 16

  // ---------------------------------------------------------------- towers

  datatype Tower = Tower(key: int, height: int)

  ghost predicate Ordered(ts: seq<Tower>) { forall i, j | 0 <= i < j < |ts| :: ts[i].key < ts[j].key }

  ghost predicate Heights(ts: seq<Tower>) { forall t | t in ts :: 1 <= t.height <= MAX_LEVEL }

  /// Tower p reaches level i; -1 is the header, which reaches every level.
  ghost predicate Tall(ts: seq<Tower>, p: int, i: int) { p == -1 || (0 <= p < |ts| && ts[p].height > i) }

  /// q is the first tower behind p that reaches level i, or the end.
  ghost predicate IsNext(ts: seq<Tower>, p: int, i: int, q: int) {
    p < q <= |ts| && (q < |ts| ==> Tall(ts, q, i)) && forall r | p < r < q :: !Tall(ts, r, i)
  }

  ghost function Next(ts: seq<Tower>, p: int, i: int): (q: int)
    requires -1 <= p < |ts|
    ensures IsNext(ts, p, i, q)
    decreases |ts| - p
  {
    if p + 1 == |ts| || Tall(ts, p + 1, i) then p + 1 else Next(ts, p + 1, i)
  }

  lemma OneNext(ts: seq<Tower>, p: int, i: int, q: int)
    requires -1 <= p < |ts| && IsNext(ts, p, i, q)
    ensures q == Next(ts, p, i)
  {
    var n := Next(ts, p, i);
    assert q < n ==> Tall(ts, q, i);
    assert n < q ==> Tall(ts, n, i);
  }

  /// The last tower before k that reaches level i, or the header.
  ghost function Pred(ts: seq<Tower>, k: int, i: int): (p: int)
    requires 0 <= k <= |ts|
    ensures -1 <= p < k && Tall(ts, p, i) && forall r | p < r < k :: !Tall(ts, r, i)
    decreases k
  {
    if k == 0 || Tall(ts, k - 1, i) then k - 1 else Pred(ts, k - 1, i)
  }

  /// Among the towers before k it is the one whose successor is not before k.
  lemma PredIs(ts: seq<Tower>, k: int, i: int, p: int)
    requires -1 <= p < k <= |ts| && Tall(ts, p, i)
    ensures p == Pred(ts, k, i) <==> Next(ts, p, i) >= k
  {
    var u, n := Pred(ts, k, i), Next(ts, p, i);
    if n < k { assert Tall(ts, n, i); }
    if p < u { assert n <= u; }
  }

  // ---------------------------------------------------------------- one tower more

  ghost function Ins<T>(s: seq<T>, k: int, x: T): seq<T>
    requires 0 <= k <= |s|
  {
    s[..k] + [x] + s[k..]
  }

  ghost function Drop<T>(s: seq<T>, k: int): seq<T>
    requires 0 <= k < |s|
  {
    s[..k] + s[k + 1..]
  }

  lemma InsDrop<T>(s: seq<T>, k: int)
    requires 0 <= k < |s|
    ensures Ins(Drop(s, k), k, s[k]) == s
  {
  }

  /// Where a tower of ts stands when one more stands at k.
  ghost function Moved(k: int, p: int): int { if p < k then p else p + 1 }

  lemma TallMoved(ts: seq<Tower>, k: int, t: Tower, p: int, i: int)
    requires 0 <= k <= |ts| && -1 <= p < |ts|
    ensures Tall(Ins(ts, k, t), Moved(k, p), i) == Tall(ts, p, i)
  {
  }

  lemma NextMoved(ts: seq<Tower>, k: int, t: Tower, p: int, i: int)
    requires 0 <= k <= |ts| && -1 <= p < |ts|
    ensures Next(Ins(ts, k, t), Moved(k, p), i) ==
            if p < k <= Next(ts, p, i) && t.height > i then k else Moved(k, Next(ts, p, i))
  {
    hide Next, Tall;
    var us, q := Ins(ts, k, t), Next(ts, p, i);
    var q' := if p < k <= q && t.height > i then k else Moved(k, q);
    assert Tall(us, k, i) == (t.height > i) by { TallAt(ts, k, t, i); }
    forall r | Moved(k, p) < r < q'
      ensures !Tall(us, r, i)
    {
      if r != k {
        var r0 := if r < k then r else r - 1;
        TallMoved(ts, k, t, r0, i);
      }
    }
    if q < |ts| { TallMoved(ts, k, t, q, i); }
    OneNext(us, Moved(k, p), i, q');
  }

  lemma TallAt(ts: seq<Tower>, k: int, t: Tower, i: int)
    requires 0 <= k <= |ts|
    ensures Tall(Ins(ts, k, t), k, i) == (t.height > i)
  {
  }

  lemma NextOfNew(ts: seq<Tower>, k: int, t: Tower, i: int)
    requires 0 <= k <= |ts|
    ensures Next(Ins(ts, k, t), k, i) == Next(ts, Pred(ts, k, i), i) + 1
  {
    hide Next, Pred, Tall;
    var us, u := Ins(ts, k, t), Pred(ts, k, i);
    var q := Next(ts, u, i);
    PredIs(ts, k, i, u);
    forall r | k < r < q + 1
      ensures !Tall(us, r, i)
    {
      TallMoved(ts, k, t, r - 1, i);
    }
    if q < |ts| { TallMoved(ts, k, t, q, i); }
    OneNext(us, k, i, q + 1);
  }

  lemma {:induction false} PredSame(ts: seq<Tower>, k: int, t: Tower, i: int)
    requires 0 <= k <= |ts|
    ensures Pred(Ins(ts, k, t), k, i) == Pred(ts, k, i)
  {
    hide Next, Pred, Tall;
    var us, u, v := Ins(ts, k, t), Pred(ts, k, i), Pred(Ins(ts, k, t), k, i);
    TallMoved(ts, k, t, u, i);
    TallMoved(ts, k, t, v, i);
  }

  // ---------------------------------------------------------------- the links

  datatype Cell = Cell(key: int, forward: seq<SkipNode?>)

  type Mem = map<SkipNode, Cell>

  ghost function NodeAt(ns: seq<SkipNode>, p: int): SkipNode? { if 0 <= p < |ns| then ns[p] else null }

  ghost function From(h: SkipNode, ns: seq<SkipNode>, p: int): SkipNode { if 0 <= p < |ns| then ns[p] else h }

  ghost predicate LinkAt(m: Mem, h: SkipNode, ns: seq<SkipNode>, ts: seq<Tower>, i: int, p: int)
    requires -1 <= p < |ts|
  {
    var n := From(h, ns, p);
    n in m && 0 <= i < |m[n].forward| && m[n].forward[i] == NodeAt(ns, Next(ts, p, i))
  }

  /// Level i links exactly the towers that reach it.
  ghost predicate OnLevel(m: Mem, h: SkipNode, ns: seq<SkipNode>, ts: seq<Tower>, i: int) {
    forall p | -1 <= p < |ts| && Tall(ts, p, i) :: LinkAt(m, h, ns, ts, i, p)
  }

  ghost predicate Names(h: SkipNode, ns: seq<SkipNode>) { h !in ns && forall i, j | 0 <= i < j < |ns| :: ns[i] != ns[j] }

  /// Every node stands for its tower and has as many links as its height.
  ghost predicate NodeIs(m: Mem, n: SkipNode, t: Tower) { n in m && m[n].key == t.key && |m[n].forward| == t.height }

  ghost predicate Described(m: Mem, h: SkipNode, ns: seq<SkipNode>, ts: seq<Tower>) {
    Names(h, ns) && |ns| == |ts| && h in m && |m[h].forward| == MAX_LEVEL && forall p | 0 <= p < |ts| :: NodeIs(m, ns[p], ts[p])
  }

  ghost function SetForward(m: Mem, n: SkipNode, i: int, y: SkipNode?): Mem
    requires n in m && 0 <= i < |m[n].forward|
  {
    m[n := m[n].(forward := m[n].forward[i := y])]
  }

  lemma Different(h: SkipNode, ns: seq<SkipNode>, p: int, q: int)
    requires Names(h, ns) && -1 <= p < |ns| && -1 <= q < |ns| && p != q
    ensures From(h, ns, p) != From(h, ns, q)
  {
    if 0 <= p && 0 <= q {
      assert p < q || q < p;
    } else if 0 <= p {
      assert ns[p] in ns;
    } else {
      assert ns[q] in ns;
    }
  }

  lemma StillDescribed(m: Mem, h: SkipNode, ns: seq<SkipNode>, ts: seq<Tower>, n: SkipNode, i: int, y: SkipNode?)
    requires Described(m, h, ns, ts) && n in m && 0 <= i < |m[n].forward|
    ensures Described(SetForward(m, n, i, y), h, ns, ts)
  {
    hide Names;
    var m' := SetForward(m, n, i, y);
    forall p | 0 <= p < |ts|
      ensures NodeIs(m', ns[p], ts[p])
    {
      assert NodeIs(m, ns[p], ts[p]);
    }
  }

  lemma OtherLevel(m: Mem, h: SkipNode, ns: seq<SkipNode>, ts: seq<Tower>, n: SkipNode, i: int, y: SkipNode?, j: int)
    requires OnLevel(m, h, ns, ts, j) && n in m && 0 <= i < |m[n].forward| && i != j
    ensures OnLevel(SetForward(m, n, i, y), h, ns, ts, j)
  {
    hide Next, Tall;
    var m' := SetForward(m, n, i, y);
    forall p | -1 <= p < |ts| && Tall(ts, p, j)
      ensures LinkAt(m', h, ns, ts, j, p)
    {
      assert LinkAt(m, h, ns, ts, j, p);
    }
  }

  /// Node p of ns in the longer list.
  lemma FromMoved(h: SkipNode, ns: seq<SkipNode>, k: int, x: SkipNode, p: int)
    requires 0 <= k <= |ns| && -1 <= p <= |ns|
    ensures From(h, Ins(ns, k, x), Moved(k, p)) == (if p < |ns| then From(h, ns, p) else h)
    ensures p >= 0 ==> NodeAt(Ins(ns, k, x), Moved(k, p)) == NodeAt(ns, p)
    ensures NodeAt(Ins(ns, k, x), k) == x && From(h, Ins(ns, k, x), k) == x
  {
  }

  /// A tower that does not reach the level does not change it.
  lemma LevelPassed(m: Mem, h: SkipNode, ns: seq<SkipNode>, ts: seq<Tower>, k: int, x: SkipNode, t: Tower, i: int)
    requires |ns| == |ts| && 0 <= k <= |ts| && t.height <= i
    ensures OnLevel(m, h, ns, ts, i) <==> OnLevel(m, h, Ins(ns, k, x), Ins(ts, k, t), i)
  {
    hide Next, Tall;
    var us, ms := Ins(ts, k, t), Ins(ns, k, x);
    forall p | -1 <= p < |ts|
      ensures Tall(us, Moved(k, p), i) == Tall(ts, p, i) && LinkAt(m, h, ms, us, i, Moved(k, p)) == LinkAt(m, h, ns, ts, i, p)
    {
      PassedAt(m, h, ns, ts, k, x, t, i, p);
    }
    if OnLevel(m, h, ns, ts, i) {
      forall r | -1 <= r < |us| && Tall(us, r, i)
        ensures LinkAt(m, h, ms, us, i, r)
      {
        TallAt(ts, k, t, i);
        var p := if r < k then r else r - 1;
        assert r == Moved(k, p) && LinkAt(m, h, ns, ts, i, p);
      }
    }
    if OnLevel(m, h, ms, us, i) {
      forall p | -1 <= p < |ts| && Tall(ts, p, i)
        ensures LinkAt(m, h, ns, ts, i, p)
      {
        assert LinkAt(m, h, ms, us, i, Moved(k, p));
      }
    }
  }

  lemma PassedAt(m: Mem, h: SkipNode, ns: seq<SkipNode>, ts: seq<Tower>, k: int, x: SkipNode, t: Tower, i: int, p: int)
    requires |ns| == |ts| && 0 <= k <= |ts| && t.height <= i && -1 <= p < |ts|
    ensures Tall(Ins(ts, k, t), Moved(k, p), i) == Tall(ts, p, i)
    ensures LinkAt(m, h, Ins(ns, k, x), Ins(ts, k, t), i, Moved(k, p)) == LinkAt(m, h, ns, ts, i, p)
  {
    hide Next, Tall, Ins;
    TallMoved(ts, k, t, p, i);
    NextMoved(ts, k, t, p, i);
    FromMoved(h, ns, k, x, p);
    FromMoved(h, ns, k, x, Next(ts, p, i));
    InsLength(ts, k, t);
  }

  lemma InsLength<T>(s: seq<T>, k: int, x: T)
    requires 0 <= k <= |s|
    ensures |Ins(s, k, x)| == |s| + 1
  {
  }

  /// The new tower's link on this level, then its predecessor's.
  ghost function Link(m: Mem, u: SkipNode, x: SkipNode, i: int): Mem
    requires u in m && x in m && 0 <= i < |m[u].forward| && i < |m[x].forward|
  {
    SetForward(SetForward(m, x, i, m[u].forward[i]), u, i, x)
  }

  /// Level i before tower t at k is linked in: what the lemmas below start from.
  ghost predicate Open(m: Mem, h: SkipNode, ns: seq<SkipNode>, ts: seq<Tower>, k: int, x: SkipNode, t: Tower, i: int) {
    |ns| == |ts| && 0 <= k <= |ts| && Names(h, Ins(ns, k, x)) && t.height > i &&
    OnLevel(m, h, ns, ts, i) && x in m && 0 <= i < |m[x].forward|
  }

  lemma PredInMem(m: Mem, h: SkipNode, ns: seq<SkipNode>, ts: seq<Tower>, k: int, i: int)
    requires |ns| == |ts| && 0 <= k <= |ts| && OnLevel(m, h, ns, ts, i)
    ensures LinkAt(m, h, ns, ts, i, Pred(ts, k, i)) && Next(ts, Pred(ts, k, i), i) >= k
  {
    PredIs(ts, k, i, Pred(ts, k, i));
  }

  lemma NotNew(h: SkipNode, ns: seq<SkipNode>, k: int, x: SkipNode, p: int, q: int)
    requires 0 <= k <= |ns| && Names(h, Ins(ns, k, x)) && -1 <= p < |ns| && -1 <= q < |ns|
    ensures From(h, ns, p) != x && (p != q ==> From(h, ns, p) != From(h, ns, q))
  {
    FromMoved(h, ns, k, x, p);
    FromMoved(h, ns, k, x, q);
    Different(h, Ins(ns, k, x), Moved(k, p), k);
    if p != q { Different(h, Ins(ns, k, x), Moved(k, p), Moved(k, q)); }
  }

  lemma LinkedNew(m: Mem, h: SkipNode, ns: seq<SkipNode>, ts: seq<Tower>, k: int, x: SkipNode, t: Tower, i: int)
    requires Open(m, h, ns, ts, k, x, t, i) && k < |Ins(ts, k, t)|
    ensures var u := From(h, ns, Pred(ts, k, i));
            u in m && i < |m[u].forward| && LinkAt(Link(m, u, x, i), h, Ins(ns, k, x), Ins(ts, k, t), i, k)
  {
    var v := Pred(ts, k, i);
    PredInMem(m, h, ns, ts, k, i);
    hide OnLevel, Names, Next, Tall, Ins;
    NotNew(h, ns, k, x, v, v);
    NextOfNew(ts, k, t, i);
    FromMoved(h, ns, k, x, Next(ts, v, i));
  }

  lemma LinkedOld(m: Mem, h: SkipNode, ns: seq<SkipNode>, ts: seq<Tower>, k: int, x: SkipNode, t: Tower, i: int, p: int)
    requires Open(m, h, ns, ts, k, x, t, i) && -1 <= p < |ts| && Tall(ts, p, i) && Moved(k, p) < |Ins(ts, k, t)|
    ensures var u := From(h, ns, Pred(ts, k, i));
            u in m && i < |m[u].forward| && LinkAt(Link(m, u, x, i), h, Ins(ns, k, x), Ins(ts, k, t), i, Moved(k, p))
  {
    var v := Pred(ts, k, i);
    PredInMem(m, h, ns, ts, k, i);
    assert LinkAt(m, h, ns, ts, i, p);
    hide OnLevel, Names, Next, Tall, Ins;
    NotNew(h, ns, k, x, p, v);
    NotNew(h, ns, k, x, v, v);
    NextMoved(ts, k, t, p, i);
    if p < k { PredIs(ts, k, i, p); }
    FromMoved(h, ns, k, x, p);
    FromMoved(h, ns, k, x, Next(ts, p, i));
  }

  lemma LevelLinked(m: Mem, h: SkipNode, ns: seq<SkipNode>, ts: seq<Tower>, k: int, x: SkipNode, t: Tower, i: int)
    requires Open(m, h, ns, ts, k, x, t, i)
    ensures var u := From(h, ns, Pred(ts, k, i)); u in m && i < |m[u].forward| && OnLevel(Link(m, u, x, i), h, Ins(ns, k, x), Ins(ts, k, t), i)
  {
    hide Next, Tall, Ins, Names, LinkAt;
    var us, u := Ins(ts, k, t), From(h, ns, Pred(ts, k, i));
    InsLength(ts, k, t);
    LinkedNew(m, h, ns, ts, k, x, t, i);
    var m' := Link(m, u, x, i);
    forall r | -1 <= r < |us| && Tall(us, r, i)
      ensures LinkAt(m', h, Ins(ns, k, x), us, i, r)
    {
      if r != k {
        var p := if r < k then r else r - 1;
        TallMoved(ts, k, t, p, i);
        LinkedOld(m, h, ns, ts, k, x, t, i, p);
      }
    }
  }

  /// Level i while tower t at k is linked in.
  ghost predicate Shut(m: Mem, h: SkipNode, ns: seq<SkipNode>, ts: seq<Tower>, k: int, x: SkipNode, t: Tower, i: int) {
    |ns| == |ts| && 0 <= k <= |ts| && Names(h, Ins(ns, k, x)) && t.height > i && OnLevel(m, h, Ins(ns, k, x), Ins(ts, k, t), i)
  }

  /// The predecessor of the tower at k links to it exactly on the levels it reaches.
  lemma PredLink(m: Mem, h: SkipNode, ns: seq<SkipNode>, ts: seq<Tower>, k: int, i: int)
    requires |ns| == |ts| && 0 <= k < |ts| && Names(h, ns) && OnLevel(m, h, ns, ts, i)
    ensures LinkAt(m, h, ns, ts, i, Pred(ts, k, i))
    ensures m[From(h, ns, Pred(ts, k, i))].forward[i] == ns[k] <==> ts[k].height > i
  {
    var v := Pred(ts, k, i);
    PredIs(ts, k, i, v);
    var q := Next(ts, v, i);
    assert ts[k].height > i <==> Tall(ts, k, i);
    assert Tall(ts, k, i) ==> q <= k;
    hide Next, Pred;
    if q != k && q < |ts| { Different(h, ns, q, k); }
  }

  lemma UnlinkedAt(m: Mem, h: SkipNode, ns: seq<SkipNode>, ts: seq<Tower>, k: int, x: SkipNode, t: Tower, i: int, p: int)
    requires Shut(m, h, ns, ts, k, x, t, i) && -1 <= p < |ts| && Tall(ts, p, i)
    ensures var u := From(h, ns, Pred(ts, k, i));
            u in m && x in m && 0 <= i < |m[u].forward| && i < |m[x].forward| && LinkAt(SetForward(m, u, i, m[x].forward[i]), h, ns, ts, i, p)
  {
    var us, ms, v := Ins(ts, k, t), Ins(ns, k, x), Pred(ts, k, i);
    InsLength(ts, k, t);
    TallAt(ts, k, t, i);
    assert LinkAt(m, h, ms, us, i, k);
    TallMoved(ts, k, t, v, i);
    assert LinkAt(m, h, ms, us, i, v);
    TallMoved(ts, k, t, p, i);
    assert LinkAt(m, h, ms, us, i, Moved(k, p));
    PredIs(ts, k, i, v);
    hide OnLevel, Names, Next, Tall, Ins;
    FromMoved(h, ns, k, x, v);
    FromMoved(h, ns, k, x, p);
    NotNew(h, ns, k, x, p, v);
    NextOfNew(ts, k, t, i);
    FromMoved(h, ns, k, x, Next(ts, v, i));
    NextMoved(ts, k, t, p, i);
    if p < k { PredIs(ts, k, i, p); }
    FromMoved(h, ns, k, x, Next(ts, p, i));
  }

  lemma LevelUnlinked(m: Mem, h: SkipNode, ns: seq<SkipNode>, ts: seq<Tower>, k: int, x: SkipNode, t: Tower, i: int)
    requires Shut(m, h, ns, ts, k, x, t, i)
    ensures var u := From(h, ns, Pred(ts, k, i));
            u in m && x in m && 0 <= i < |m[u].forward| && i < |m[x].forward| && OnLevel(SetForward(m, u, i, m[x].forward[i]), h, ns, ts, i)
  {
    hide Next, Ins, Names, LinkAt;
    UnlinkedAt(m, h, ns, ts, k, x, t, i, -1);
    var u := From(h, ns, Pred(ts, k, i));
    forall p | -1 <= p < |ts| && Tall(ts, p, i)
      ensures LinkAt(SetForward(m, u, i, m[x].forward[i]), h, ns, ts, i, p)
    {
      UnlinkedAt(m, h, ns, ts, k, x, t, i, p);
    }
  }
}
