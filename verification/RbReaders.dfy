/// A reader that walks down the tree without a lock while a writer changes it:
/// the reader follows child pointers, and between its moves the writer stores.
module RbReaders {
  import opened Basics
  import opened RbShape

  ghost predicate RankedOn(m: Mem, S: set<RbNode>, older rk: Rank) { rk.Keys == S && RankedMem(m, S, rk) }

  ghost predicate LoopFreeMem(m: Mem, S: set<RbNode>) {
    exists rk: Rank :: RankedOn(m, S, rk)
  }

  /// The child pointers in memory have no loop exactly when their snapshot has none.
  lemma SnapLoopFree(S: set<RbNode>)
    ensures LoopFree(S) <==> LoopFreeMem(Snap(S), S)
  {
    forall rk: Rank
      ensures Ranked(S, rk) <==> RankedOn(Snap(S), S, rk)
    {
      var m := Snap(S);
      assert forall x | x in S :: m[x].left == x.left && m[x].right == x.right;
    }
  }

  ghost function Above(rk: Rank, kid: RbNode?, r: real): real {
    if kid in rk && rk[kid] >= r then rk[kid] + 1.0 else r
  }

  /// A node that has been taken out of the tree, and still points into it, may be where a reader stands:
  /// as long as the others have no loop, there is none with it either.
  lemma LeavingNode(x: RbNode, S: set<RbNode>, rk: Rank)
    requires x in S && Ranked(S - {x}, rk)
    requires (x.left != null ==> x.left in S - {x}) && (x.right != null ==> x.right in S - {x})
    ensures LoopFree(S)
  {
    var rk' := rk[x := Above(rk, x.right, Above(rk, x.left, 0.0))];
    assert Ranked(S, rk');
  }

  /// An erased node keeps its child pointers. While the rest is rebalanced, with a ranking after each
  /// store, the graph of all nodes has no loop, so a reader that stands on the erased node ends too.
  lemma ErasedReadable(m: Mem, rn: RbNode?, c: Ctx, t: Tree, w: World, x: RbNode, rk: Rank)
    requires WorldOk(w) && At(m, rn, c, t, w) && m.Keys == w.S && x in w.S
    requires x.left == m[x].left && x.right == m[x].right && Ranked(w.S - {x}, rk)
    ensures LoopFree(w.S)
  {
    var rk0 := AtLinked(m, rn, c, t, w);
    hide At, WorldOk, OneParent;
    assert Below(rk0, m[x].left, x) && Below(rk0, m[x].right, x);
    LeavingNode(x, w.S, rk);
  }

  /// The child pointers at one moment, and the node the reader has reached.
  datatype Moment = Moment(mem: Mem, at: RbNode)

  ghost predicate Safe(a: Moment, S: set<RbNode>) {
    a.mem.Keys == S && a.at in S && LoopFreeMem(a.mem, S)
  }

  /// The reader goes on to a child.
  ghost predicate Moves(a: Moment, b: Moment) {
    a.at in a.mem && b.mem == a.mem && (a.mem[a.at].left == b.at || a.mem[a.at].right == b.at)
  }

  /// Every store leaves the child pointers without a loop; where the reader is, it stays.
  ghost predicate Readable(h: seq<Moment>, S: set<RbNode>) {
    h != [] &&
    (forall i | 0 <= i < |h| :: Safe(h[i], S)) &&
    (forall i | 0 < i < |h| :: Moves(h[i - 1], h[i]) || h[i].at == h[i - 1].at)
  }

  ghost function MovesIn(h: seq<Moment>): nat {
    if |h| < 2 then 0 else MovesIn(h[..|h| - 1]) + if Moves(h[|h| - 2], h[|h| - 1]) then 1 else 0
  }

  ghost function StoresIn(h: seq<Moment>): nat {
    if |h| < 2 then 0 else StoresIn(h[..|h| - 1]) + if Moves(h[|h| - 2], h[|h| - 1]) then 0 else 1
  }

  ghost function RankOf(m: Mem, S: set<RbNode>): (rk: Rank)
    requires LoopFreeMem(m, S)
    ensures rk.Keys == S && RankedMem(m, S, rk)
  {
    var rk: Rank :| RankedOn(m, S, rk);
    rk
  }

  ghost function Lower(rk: Rank, x: RbNode): set<RbNode>
    requires x in rk
  {
    set y | y in rk && rk[y] < rk[x]
  }

  /// The nodes that the reader may still come to while nothing is stored.
  ghost function Ahead(a: Moment, S: set<RbNode>): nat
    requires Safe(a, S)
  {
    |Lower(RankOf(a.mem, S), a.at)|
  }

  lemma FewAhead(a: Moment, S: set<RbNode>)
    requires Safe(a, S)
    ensures Ahead(a, S) <= |S| - 1
  {
    var rk := RankOf(a.mem, S);
    SmallerSet(Lower(rk, a.at), S, a.at);
  }

  lemma SmallerSet(a: set<RbNode>, b: set<RbNode>, x: RbNode)
    requires a <= b && x in b && x !in a
    ensures |a| < |b|
  {
    Within(a, b - {x});
  }

  lemma {:induction false} Within(a: set<RbNode>, b: set<RbNode>)
    requires a <= b
    ensures |a| <= |b|
  {
    if a != {} {
      var x :| x in a;
      Within(a - {x}, b - {x});
    }
  }

  lemma MoveGoesDown(a: Moment, b: Moment, S: set<RbNode>)
    requires Safe(a, S) && Safe(b, S) && Moves(a, b)
    ensures Ahead(b, S) < Ahead(a, S) && a.at != b.at
  {
    var rk := RankOf(a.mem, S);
    assert Below(rk, a.mem[a.at].left, a.at) && Below(rk, a.mem[a.at].right, a.at);
    SmallerSet(Lower(rk, b.at), Lower(rk, a.at), b.at);
  }

  lemma ReadableUpTo(h: seq<Moment>, S: set<RbNode>, n: nat)
    requires Readable(h, S) && 0 < n <= |h|
    ensures Readable(h[..n], S)
  {
  }

  /// However reader and writer take turns: with W stores in between, the reader makes at most
  /// (W + 1) * (|S| - 1) moves, so it ends once the writer pauses for as long as one walk down.
  lemma {:induction false} ReaderEnds(h: seq<Moment>, S: set<RbNode>)
    requires Readable(h, S)
    ensures MovesIn(h) + Ahead(h[|h| - 1], S) <= (StoresIn(h) + 1) * (|S| - 1)
    ensures MovesIn(h) <= (StoresIn(h) + 1) * (|S| - 1)
    decreases |h|
  {
    hide Moves, Safe, Ahead, MovesIn, StoresIn;
    var n := |h| - 1;
    FewAhead(h[n], S);
    Counts(h);
    if n > 0 {
      ReadableUpTo(h, S, n);
      ReaderEnds(h[..n], S);
      if Moves(h[n - 1], h[n]) {
        MoveGoesDown(h[n - 1], h[n], S);
      } else {
        OneMore(StoresIn(h[..n]) + 1, |S| - 1);
      }
    }
  }

  lemma Counts(h: seq<Moment>)
    ensures |h| < 2 ==> MovesIn(h) == StoresIn(h) == 0
    ensures |h| >= 2 ==> var (p, moved) := (h[..|h| - 1], Moves(h[|h| - 2], h[|h| - 1]));
                         MovesIn(h) == MovesIn(p) + (if moved then 1 else 0) && StoresIn(h) == StoresIn(p) + if moved then 0 else 1
  {
  }

  lemma OneMore(w: nat, n: int)
    ensures (w + 1) * n == w * n + n
  {
  }

  // ---------------------------------------------------------------- no loop, no endless walk

  /// A walk down in memory that stands still.
  ghost predicate WalkIn(m: Mem, w: seq<RbNode>) {
    (forall i | 0 <= i < |w| :: w[i] in m) &&
    (forall i | 0 < i < |w| :: ChildOf(m, w[i - 1], w[i]))
  }

  ghost predicate ChildOf(m: Mem, x: RbNode, y: RbNode) { x in m && (m[x].left == y || m[x].right == y) }

  ghost predicate Closed(m: Mem) {
    forall x | x in m :: (m[x].left == null || m[x].left in m) && (m[x].right == null || m[x].right in m)
  }

  /// The length of the longest walk from p, counted up to n.
  ghost function Depth(m: Mem, p: RbNode?, n: nat): (r: nat)
    ensures r <= n
  {
    if n == 0 || p == null || p !in m then 0
    else 1 + Max(Depth(m, m[p].left, n - 1), Depth(m, m[p].right, n - 1))
  }

  lemma {:induction false} DeepestWalk(m: Mem, p: RbNode?, n: nat) returns (w: seq<RbNode>)
    requires Depth(m, p, n) == n
    ensures WalkIn(m, w) && |w| == n && (n > 0 ==> w[0] == p)
  {
    if n == 0 {
      w := [];
    } else {
      var kid := if Depth(m, m[p].left, n - 1) == n - 1 then m[p].left else m[p].right;
      var v := DeepestWalk(m, kid, n - 1);
      w := [p] + v;
      assert forall i | 0 < i < |w| :: w[i] == v[i - 1];
      assert n > 1 ==> ChildOf(m, w[0], w[1]);
    }
  }

  lemma {:induction false} DepthStays(m: Mem, p: RbNode?, n: nat)
    requires Depth(m, p, n) < n
    ensures Depth(m, p, n + 1) == Depth(m, p, n)
  {
    if p != null && p in m {
      DepthStays(m, m[p].left, n - 1);
      DepthStays(m, m[p].right, n - 1);
    }
  }

  /// The nodes of a walk as moments without a store.
  ghost function Still(m: Mem, w: seq<RbNode>): (h: seq<Moment>)
    ensures |h| == |w| && forall i | 0 <= i < |w| :: h[i] == Moment(m, w[i])
  {
    seq(|w|, i requires 0 <= i < |w| => Moment(m, w[i]))
  }

  lemma {:induction false} NoStores(m: Mem, w: seq<RbNode>)
    requires WalkIn(m, w) && w != []
    ensures StoresIn(Still(m, w)) == 0 && MovesIn(Still(m, w)) == |w| - 1
    decreases |w|
  {
    hide StoresIn, MovesIn;
    var h, n := Still(m, w), |w| - 1;
    Counts(h);
    if n > 0 {
      NoStores(m, w[..n]);
      assert ChildOf(m, w[n - 1], w[n]);
      assert h[..n] == Still(m, w[..n]);
    }
  }

  lemma StillReadable(m: Mem, S: set<RbNode>, w: seq<RbNode>)
    requires m.Keys == S && LoopFreeMem(m, S) && WalkIn(m, w) && w != []
    ensures Readable(Still(m, w), S)
  {
    hide LoopFreeMem;
    forall i | 0 < i < |w|
      ensures Moves(Still(m, w)[i - 1], Still(m, w)[i])
    {
      assert ChildOf(m, w[i - 1], w[i]);
    }
  }

  lemma DepthRanks(m: Mem, S: set<RbNode>, n: nat)
    requires m.Keys == S && Closed(m) && forall x | x in S :: Depth(m, x, n) < n
    ensures LoopFreeMem(m, S)
  {
    var rk: Rank := map x | x in S :: Depth(m, x, n) as real;
    forall x | x in S
      ensures Below(rk, m[x].left, x) && Below(rk, m[x].right, x)
    {
      DepthStays(m, x, n);
    }
    assert RankedOn(m, S, rk);
  }

  /// A ranking exists exactly when every walk down ends within the nodes there are; a longer one meets a node twice.
  lemma LoopFreeExactly(m: Mem, S: set<RbNode>)
    requires m.Keys == S && Closed(m)
    ensures LoopFreeMem(m, S) <==> forall w | WalkIn(m, w) :: |w| <= |S|
  {
    if LoopFreeMem(m, S) {
      forall w | WalkIn(m, w) && w != []
        ensures |w| <= |S|
      {
        StillReadable(m, S, w);
        NoStores(m, w);
        ReaderEnds(Still(m, w), S);
      }
    }
    if forall w | WalkIn(m, w) :: |w| <= |S| {
      var n := |S| + 1;
      forall x | x in S
        ensures Depth(m, x, n) < n
      {
        if Depth(m, x, n) == n { var w := DeepestWalk(m, x, n); }
      }
      DepthRanks(m, S, n);
    }
  }
}
