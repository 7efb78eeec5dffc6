/// The whole tree in memory, as its users see it, and the lookups: rb_find, rb_find_first,
/// rb_next_match and rb_for_each.
module RbTree {
  import opened Basics
  import opened RbShape
  import opened RbColor
  import opened RbAugment
  import opened RbRotate
  import opened RbEraseColor
  import opened RbErase
  import opened RbWalk

  // ---------------------------------------------------------------- the whole tree

  /// A valid red-black tree in memory, with exactly the nodes of m.
  ghost predicate Holds(m: Mem, rn: RbNode?, cb: Callbacks, am: Augs, t: Tree) {
    Rep(m, t, rn, null) && m.Keys == Nodes(t) && NoDup(Inorder(t)) && Rb(t) && !IsRed(t) && AugTree(cb, am, t)
  }

  /// The index of every node of a sequence.
  ghost function Indices(s: seq<RbNode>): Pos {
    if s == [] then map[] else Indices(s[..|s| - 1])[s[|s| - 1] := |s| - 1]
  }

  lemma {:induction false} IndicesOk(s: seq<RbNode>)
    requires NoDup(s)
    ensures |Indices(s)| == |s| && forall i | 0 <= i < |s| :: s[i] in Indices(s) && Indices(s)[s[i]] == i
    ensures forall x | x in Indices(s) :: x in s
  {
    if s != [] {
      var k := |s| - 1;
      IndicesOk(s[..k]);
      assert s[k] !in Indices(s[..k]);
    }
  }

  lemma {:induction false} OrdByIndex(pos: Pos, t: Tree, base: int)
    requires forall i | 0 <= i < |Inorder(t)| :: Inorder(t)[i] in pos && pos[Inorder(t)[i]] == base + i
    ensures Ord(pos, t, base - 1, base + |Inorder(t)|)
  {
    match t
    case E =>
    case N(l, x, _, r) =>
      var s, k := Inorder(t), |Inorder(l)|;
      assert forall i | 0 <= i < k :: Inorder(l)[i] == s[i];
      assert s[k] == x;
      assert forall i | 0 <= i < |Inorder(r)| :: Inorder(r)[i] == s[k + 1 + i];
      OrdByIndex(pos, l, base);
      OrdByIndex(pos, r, base + k + 1);
  }

  lemma ListsNodes(t: Tree, pos: Pos)
    ensures WorldOk(World(Nodes(t), Inorder(t), pos))
  {
    InorderNodes(t);
  }

  lemma IndexOrd(t: Tree)
    requires NoDup(Inorder(t))
    ensures Ord(Indices(Inorder(t)), t, -1, |Indices(Inorder(t))|)
    ensures forall x | x in Indices(Inorder(t)) :: x in Inorder(t)
  {
    IndicesOk(Inorder(t));
    OrdByIndex(Indices(Inorder(t)), t, 0);
  }

  lemma TreeAt(m: Mem, rn: RbNode?, t: Tree, w: World)
    requires Rep(m, t, rn, null) && Ord(w.pos, t, -1, |w.pos|) && w.ord == Inorder(t)
    ensures At(m, rn, Top, t, w)
  {
    RepRoot(m, t, rn, null);
  }

  /// Entering: positions for the nodes of a valid tree.
  lemma Enter(m: Mem, rn: RbNode?, t: Tree) returns (w: World)
    requires Rep(m, t, rn, null) && m.Keys == Nodes(t) && NoDup(Inorder(t))
    ensures WorldOk(w) && w.S == m.Keys && w.ord == Inorder(t) && At(m, rn, Top, t, w)
    ensures forall x | x in w.pos :: x in w.S
  {
    w := World(Nodes(t), Inorder(t), Indices(Inorder(t)));
    ListsNodes(t, w.pos);
    IndexOrd(t);
    TreeAt(m, rn, t, w);
  }

  /// Leaving: what rebalancing ends with is a valid tree.
  lemma Leave(m: Mem, rn: RbNode?, cb: Callbacks, am: Augs, t: Tree, w: World)
    requires Repaired(m, rn, cb, am, t, w) && WorldOk(w) && m.Keys == w.S
    ensures Holds(m, rn, cb, am, t) && Inorder(t) == w.ord
  {
    InorderNodes(t);
    OrdSpread(w.pos, t, -1, |w.pos|);
    assert forall x | x in w.S :: x in Nodes(t);
    assert forall x | x in Nodes(t) :: x in w.S;
  }

  /// A valid tree is at most 2*log2(n+1) high, and no top-down reader can get lost in it.
  lemma Shallow(t: Tree, S: set<RbNode>, rn: RbNode?)
    requires Holds(Snap(S), rn, Dummy, map[], t)
    ensures Pow2(Height(t)) <= Square(|Inorder(t)| + 1)
    ensures LoopFree(S)
  {
    HeightBound(t);
    var w := Enter(Snap(S), rn, t);
    var rk := AtLinked(Snap(S), rn, Top, t, w);
    assert forall x | x in S :: Below(rk, Snap(S)[x].left, x) && Below(rk, Snap(S)[x].right, x);
    assert Ranked(S, rk);
  }

  // ---------------------------------------------------------------- lookups

  /// cmp(key, node) goes from positive through zero to negative along the tree.
  ghost predicate Falling(cmp: RbNode -> int, s: seq<RbNode>) {
    forall i, j | 0 <= i < j < |s| :: (cmp(s[i]) <= 0 ==> cmp(s[j]) <= 0) && (cmp(s[i]) < 0 ==> cmp(s[j]) < 0)
  }

  ghost predicate AllBelow(cmp: RbNode -> int, s: seq<RbNode>) { forall x | x in s :: cmp(x) > 0 }

  ghost predicate AllAbove(cmp: RbNode -> int, s: seq<RbNode>) { forall x | x in s :: cmp(x) < 0 }

  ghost predicate NoneBelow(cmp: RbNode -> int, s: seq<RbNode>) { forall x | x in s :: cmp(x) <= 0 }

  lemma FallingAround(cmp: RbNode -> int, a: seq<RbNode>, x: RbNode, b: seq<RbNode>)
    requires Falling(cmp, a + [x] + b)
    ensures cmp(x) > 0 ==> AllBelow(cmp, a)
    ensures cmp(x) <= 0 ==> NoneBelow(cmp, b)
    ensures cmp(x) < 0 ==> AllAbove(cmp, b)
  {
    var s := a + [x] + b;
    assert s[|a|] == x;
    forall y | y in a
      ensures cmp(x) > 0 ==> cmp(y) > 0
    {
      var i :| 0 <= i < |a| && a[i] == y;
      assert s[i] == y;
    }
    forall y | y in b
      ensures (cmp(x) <= 0 ==> cmp(y) <= 0) && (cmp(x) < 0 ==> cmp(y) < 0)
    {
      var i :| 0 <= i < |b| && b[i] == y;
      assert s[|a| + 1 + i] == y;
    }
  }

  /// The tree around the node that a search looks at.
  lemma SearchNow(rn: RbNode?, c: Ctx, t: Tree, w: World)
    requires At(Snap(w.S), rn, c, t, w) && t.N?
    ensures w.ord == (Before(c) + Inorder(t.l)) + [t.x] + (Inorder(t.r) + After(c))
    ensures t.x in w.S && t.x.left == RootOf(t.l) && t.x.right == RootOf(t.r)
    ensures At(Snap(w.S), rn, In(c, Left, t.x, t.red, t.r), t.l, w) && At(Snap(w.S), rn, In(c, Right, t.x, t.red, t.l), t.r, w)
  {
    LeftNow(rn, c, t, w);
    AtOrd(Snap(w.S), rn, c, t, w);
    Regroup(Before(c), Inorder(t.l), t.x, Inorder(t.r), After(c));
    AtUp(Snap(w.S), rn, In(c, Left, t.x, t.red, t.r), t.l, w);
    AtUp(Snap(w.S), rn, In(c, Right, t.x, t.red, t.l), t.r, w);
  }

  /// rb_find.
  method Find(cmp: RbNode -> int, root: RbRoot, ghost t0: Tree, ghost w: World) returns (node: RbNode?)
    requires At(Snap(w.S), root.node, Top, t0, w) && Falling(cmp, w.ord)
    ensures node != null ==> node in w.ord && cmp(node) == 0
    ensures node == null ==> forall x | x in w.ord :: cmp(x) != 0
  {
    node := root.node;
    ghost var c, t := Top, t0;
    while node != null
      invariant At(Snap(w.S), root.node, c, t, w) && RootOf(t) == node
      invariant AllBelow(cmp, Before(c)) && AllAbove(cmp, After(c))
      decreases t
    {
      SearchNow(root.node, c, t, w);
      FallingAround(cmp, Before(c) + Inorder(t.l), node, Inorder(t.r) + After(c));
      var order := cmp(node);
      if order < 0 {
        c, t, node := In(c, Left, node, t.red, t.r), t.l, node.left;
      } else if order > 0 {
        c, t, node := In(c, Right, node, t.red, t.l), t.r, node.right;
      } else {
        return node;
      }
    }
    AtOrd(Snap(w.S), root.node, c, t, w);
  }

  /// The first match among nodes that come after the key's place.
  ghost function Lead(cmp: RbNode -> int, s: seq<RbNode>): RbNode? {
    if s != [] && cmp(s[0]) == 0 then s[0] else null
  }

  /// rb_find_first: everything before index k is less than the key, and the node
  /// at k, if any, matches it or is greater.
  method FindFirst(cmp: RbNode -> int, root: RbRoot, ghost t0: Tree, ghost w: World) returns (match_: RbNode?, ghost k: nat)
    requires At(Snap(w.S), root.node, Top, t0, w) && Falling(cmp, w.ord)
    ensures k <= |w.ord| && (forall x | x in w.ord[..k] :: cmp(x) > 0) && forall x | x in w.ord[k..] :: cmp(x) <= 0
    ensures match_ == if k < |w.ord| && cmp(w.ord[k]) == 0 then w.ord[k] else null
  {
    var node := root.node;
    match_ := null;
    ghost var c, t := Top, t0;
    while node != null
      invariant At(Snap(w.S), root.node, c, t, w) && RootOf(t) == node
      invariant AllBelow(cmp, Before(c)) && NoneBelow(cmp, After(c)) && match_ == Lead(cmp, After(c))
      decreases t
    {
      SearchNow(root.node, c, t, w);
      FallingAround(cmp, Before(c) + Inorder(t.l), node, Inorder(t.r) + After(c));
      var order := cmp(node);
      if order <= 0 {
        assert order < 0 && After(c) != [] ==> After(c)[0] in Inorder(t.r) + After(c);
        if order == 0 {
          match_ := node;
        }
        c, t, node := In(c, Left, node, t.red, t.r), t.l, node.left;
      } else {
        c, t, node := In(c, Right, node, t.red, t.l), t.r, node.right;
      }
    }
    AtOrd(Snap(w.S), root.node, c, t, w);
    k := |Before(c)|;
    assert w.ord[..k] == Before(c) && w.ord[k..] == After(c);
    assert k < |w.ord| ==> w.ord[k] == After(c)[0];
  }

  /// rb_next_match.
  method NextMatch(cmp: RbNode -> int, node: RbNode, ghost rn: RbNode?, ghost t: Tree, ghost i: nat, ghost w: World) returns (next: RbNode?)
    requires At(Snap(w.S), rn, Top, t, w) && i < |w.ord| && w.ord[i] == node
    ensures next == if i + 1 < |w.ord| && cmp(w.ord[i + 1]) == 0 then w.ord[i + 1] else null
  {
    next := Next(Right, node, rn, t, i, w);
    if next != null && cmp(next) != 0 {
      next := null;
    }
  }

  /// The nodes equal to the key, in order.
  ghost function Matches(cmp: RbNode -> int, s: seq<RbNode>): seq<RbNode> {
    if s == [] then [] else (if cmp(s[0]) == 0 then [s[0]] else []) + Matches(cmp, s[1..])
  }

  lemma {:induction false} MatchesRange(cmp: RbNode -> int, s: seq<RbNode>, k: nat, j: nat)
    requires k <= j <= |s| && AllBelow(cmp, s[..k])
    requires forall i | k <= i < j :: cmp(s[i]) == 0
    requires forall i | j <= i < |s| :: cmp(s[i]) != 0
    ensures Matches(cmp, s) == s[k..j]
    decreases s
  {
    if s != [] {
      var r := s[1..];
      var k', j' := if k == 0 then 0 else k - 1, if j == 0 then 0 else j - 1;
      assert forall x | x in r[..k'] :: x in s[..k];
      if k > 0 { assert s[0] in s[..k]; }
      MatchesRange(cmp, r, k', j');
      if k == 0 && j > 0 {
        assert r[k'..j'] == s[1..j];
        assert s[k..j] == [s[0]] + s[1..j];
      } else {
        assert r[k'..j'] == s[k..j];
      }
    }
  }

  lemma RestDiffers(cmp: RbNode -> int, s: seq<RbNode>, j: nat)
    requires Falling(cmp, s) && j <= |s| && NoneBelow(cmp, s[j..]) && (j < |s| ==> cmp(s[j]) != 0)
    ensures forall i | j <= i < |s| :: cmp(s[i]) != 0
  {
    if j < |s| {
      assert s[j] in s[j..] && s[j] == s[j..][0];
    }
  }

  /// rb_for_each visits exactly the nodes equal to the key, in order.
  method ForEachMatch(cmp: RbNode -> int, root: RbRoot, ghost t: Tree, ghost w: World) returns (visited: seq<RbNode>)
    requires At(Snap(w.S), root.node, Top, t, w) && Falling(cmp, w.ord)
    ensures visited == Matches(cmp, w.ord)
  {
    hide At, Rep, Nodes, Inorder, NoDup, OrdHole, Ord, AllBelow, Falling;
    visited := [];
    var node;
    ghost var k;
    node, k := FindFirst(cmp, root, t, w);
    ghost var j := k;
    while node != null
      invariant k <= j <= |w.ord| && visited == w.ord[k..j]
      invariant NoneBelow(cmp, w.ord[j..]) && node == if j < |w.ord| && cmp(w.ord[j]) == 0 then w.ord[j] else null
      invariant forall i | k <= i < j :: cmp(w.ord[i]) == 0
      decreases |w.ord| - j
    {
      var next := NextMatch(cmp, node, root.node, t, j, w);
      visited := visited + [node];
      assert w.ord[j..] == [w.ord[j]] + w.ord[j + 1..];
      node, j := next, j + 1;
    }
    RestDiffers(cmp, w.ord, j);
    MatchesRange(cmp, w.ord, k, j);
  }
}
