/// The iterators: rb_first, rb_last, rb_next, rb_prev, and the post-order walk.
module RbWalk {
  import opened RbShape
  import opened RbRotate
  import opened RbErase

  /// The first or the last of a sequence, or null.
  ghost function End(d: Side, s: seq<RbNode>): RbNode? {
    if s == [] then null else if d.Left? then s[0] else s[|s| - 1]
  }

  /// What comes before or after the hole of a context.
  ghost function Beside(d: Side, c: Ctx): seq<RbNode> { if d.Left? then Before(c) else After(c) }

  ghost function Sub(d: Side, t: Tree): Tree { if t.E? then E else if d.Left? then t.l else t.r }

  lemma EndSub(d: Side, t: Tree)
    requires t.N?
    ensures End(d, Inorder(t)) == if Sub(d, t).E? then t.x else End(d, Inorder(Sub(d, t)))
  {
    assert Inorder(t) == Inorder(t.l) + [t.x] + Inorder(t.r);
  }

  /// rb_first (d is Left) and rb_last (d is Right), from any node down.
  method Outermost(d: Side, n0: RbNode, ghost t0: Tree, ghost up: RbNode?, ghost S: set<RbNode>) returns (n: RbNode)
    requires Rep(Snap(S), t0, n0, up)
    ensures n == End(d, Inorder(t0))
  {
    n := n0;
    ghost var t, p, m := t0, up, Snap(S);
    while n.Kid(d) != null
      invariant Rep(m, t, n, p) && End(d, Inorder(t)) == End(d, Inorder(t0))
      decreases t
    {
      EndSub(d, t);
      assert m[n] == CellOf(n);
      n, t, p := n.Kid(d), Sub(d, t), n;
    }
    EndSub(d, t);
    assert m[n] == CellOf(n);
  }

  /// rb_first (d is Left) and rb_last (d is Right).
  method First(d: Side, root: RbRoot, ghost t: Tree, ghost S: set<RbNode>) returns (n: RbNode?)
    requires Rep(Snap(S), t, root.node, null)
    ensures n == if Inorder(t) == [] then null else Inorder(t)[if d.Left? then 0 else |Inorder(t)| - 1]
  {
    n := root.node;
    if n == null {
      return;
    }
    n := Outermost(d, n, t, null, S);
  }

  /// What the fields of the node above the hole say.
  lemma UpNow(rn: RbNode?, c: Ctx, t: Tree, w: World)
    requires At(Snap(w.S), rn, c, t, w) && t.N?
    ensures t.x in w.S && t.x.parent == CNode(c)
    ensures c.In? ==> c.x.Kid(c.d) == t.x && c.x.Kid(c.d.Flip()) != t.x
  {
    var m := Snap(w.S);
    assert m[t.x] == CellOf(t.x);
    if c.In? {
      assert m[c.x] == CellOf(c.x);
      RepRoot(m, c.sib, m[c.x].Kid(c.d.Flip()), c.x);
    }
  }

  /// Up while node is the d-side child: the way to the neighbour when there is no subtree on that side.
  method Ascend(d: Side, node0: RbNode, ghost rn: RbNode?, ghost c0: Ctx, ghost t0: Tree, ghost w: World) returns (next: RbNode?)
    requires At(Snap(w.S), rn, c0, t0, w) && t0.N? && t0.x == node0
    ensures next == End(d.Flip(), Beside(d, c0))
  {
    var node := node0;
    ghost var c, t := c0, t0;
    UpNow(rn, c, t, w);
    next := node.parent;
    while next != null && node == next.Kid(d)
      invariant At(Snap(w.S), rn, c, t, w) && t.N? && t.x == node && next == CNode(c)
      invariant c.In? ==> c.x.Kid(c.d) == node && c.x.Kid(c.d.Flip()) != node
      invariant Beside(d, c) == Beside(d, c0)
      decreases c
    {
      AtUp(Snap(w.S), rn, c, t, w);
      c, t, node := c.up, Mk(c.d, t, c.x, c.red, c.sib), next;
      UpNow(rn, c, t, w);
      next := node.parent;
    }
  }

  /// rb_next (d is Right) and rb_prev (d is Left): the neighbour in the in-order sequence.
  method Step(d: Side, node: RbNode, ghost rn: RbNode?, ghost c: Ctx, ghost t: Tree, ghost w: World) returns (next: RbNode?)
    requires At(Snap(w.S), rn, c, t, w) && t.N? && t.x == node
    ensures next == End(d.Flip(), if d.Left? then Before(c) + Inorder(t.l) else Inorder(t.r) + After(c))
  {
    LeftNow(rn, c, t, w);
    if node.Kid(d) != null {
      AtUp(Snap(w.S), rn, In(c, d, node, t.red, Sub(d.Flip(), t)), Sub(d, t), w);
      next := Outermost(d.Flip(), node.Kid(d), Sub(d, t), node, w.S);
    } else {
      next := Ascend(d, node, rn, c, t, w);
    }
  }

  // ---------------------------------------------------------------- finding a node's place

  lemma {:induction false} Descend(m: Mem, rn: RbNode?, c: Ctx, t: Tree, x: RbNode, w: World) returns (c': Ctx, t': Tree)
    requires At(m, rn, c, t, w) && x in Inorder(t)
    ensures At(m, rn, c', t', w) && t'.N? && t'.x == x && Plug(c', t') == Plug(c, t)
    decreases t
  {
    if t.x == x {
      c', t' := c, t;
    } else if x in Inorder(t.l) {
      AtUp(m, rn, In(c, Left, t.x, t.red, t.r), t.l, w);
      c', t' := Descend(m, rn, In(c, Left, t.x, t.red, t.r), t.l, x, w);
    } else {
      AtUp(m, rn, In(c, Right, t.x, t.red, t.l), t.r, w);
      c', t' := Descend(m, rn, In(c, Right, t.x, t.red, t.l), t.r, x, w);
    }
  }

  /// Every node of the tree has a place in it, at its index of the in-order sequence.
  lemma Locate(m: Mem, rn: RbNode?, t: Tree, i: nat, w: World) returns (c': Ctx, t': Tree)
    requires At(m, rn, Top, t, w) && i < |w.ord|
    ensures At(m, rn, c', t', w) && t'.N? && t'.x == w.ord[i] && Plug(c', t') == t
    ensures Before(c') + Inorder(t'.l) == w.ord[..i] && Inorder(t'.r) + After(c') == w.ord[i + 1..]
  {
    c', t' := Descend(m, rn, Top, t, w.ord[i], w);
    AtOrd(m, rn, c', t', w);
    var a, b := Before(c') + Inorder(t'.l), Inorder(t'.r) + After(c');
    Regroup(Before(c'), Inorder(t'.l), t'.x, Inorder(t'.r), After(c'));
    assert w.ord == a + [t'.x] + b;
    assert w.ord[|a|] == t'.x;
    OrdSpread(w.pos, Plug(c', t'), -1, |w.pos|);
    assert i == |a|;
  }

  /// rb_next and rb_prev, said with indices.
  method Next(d: Side, node: RbNode, ghost rn: RbNode?, ghost t: Tree, ghost i: nat, ghost w: World) returns (next: RbNode?)
    requires At(Snap(w.S), rn, Top, t, w) && i < |w.ord| && w.ord[i] == node
    ensures next == if d.Right? then if i + 1 < |w.ord| then w.ord[i + 1] else null else if i > 0 then w.ord[i - 1] else null
  {
    ghost var c, s := Locate(Snap(w.S), rn, t, i, w);
    next := Step(d, node, rn, c, s, w);
  }

  /// for (n = rb_first(root); n; n = rb_next(n)) visits every node once, in order.
  method ForEach(root: RbRoot, ghost t: Tree, ghost w: World) returns (visited: seq<RbNode>)
    requires At(Snap(w.S), root.node, Top, t, w)
    ensures visited == w.ord
  {
    visited := [];
    var n := First(Left, root, t, w.S);
    while n != null
      invariant |visited| <= |w.ord| && visited == w.ord[..|visited|]
      invariant n == if |visited| < |w.ord| then w.ord[|visited|] else null
      decreases |w.ord| - |visited|
    {
      var next := Next(Right, n, root.node, t, |visited|, w);
      visited := visited + [n];
      n := next;
    }
  }

  // ---------------------------------------------------------------- post-order

  ghost function Postorder(t: Tree): seq<RbNode> {
    match t
    case E => []
    case N(l, x, _, r) => Postorder(l) + Postorder(r) + [x]
  }

  /// What a post-order walk has seen before it enters the hole of a context.
  ghost function PostBefore(c: Ctx): seq<RbNode> {
    match c
    case Top => []
    case In(up, d, _, _, sib) => if d.Left? then PostBefore(up) else PostBefore(up) + Postorder(sib)
  }

  /// What it has seen when it sits on the root of t in the context c.
  ghost function Seen(c: Ctx, t: Tree): seq<RbNode> { PostBefore(c) + Postorder(t) }

  /// The place of the node n that the walk sits on.
  ghost predicate Sits(rn: RbNode?, c: Ctx, t: Tree, n: RbNode, w: World) reads w.S {
    At(Snap(w.S), rn, c, t, w) && t.N? && t.x == n
  }

  lemma SeenUp(c: Ctx, t: Tree)
    requires c.In? && (c.d.Left? ==> c.sib.E?)
    ensures Seen(c.up, Mk(c.d, t, c.x, c.red, c.sib)) == Seen(c, t) + [c.x]
  {
    var t' := Mk(c.d, t, c.x, c.red, c.sib);
    if c.d.Left? {
      assert Postorder(t') == Postorder(t) + Postorder(c.sib) + [c.x];
      SeenLast(PostBefore(c.up), Postorder(t), c.x);
    } else {
      assert Postorder(t') == Postorder(c.sib) + Postorder(t) + [c.x];
      SeenMore(PostBefore(c.up), Postorder(c.sib), Postorder(t), c.x);
    }
  }

  lemma SeenLast(a: seq<RbNode>, b: seq<RbNode>, x: RbNode)
    ensures a + (b + [] + [x]) == a + b + [x]
  {
  }

  lemma SeenMore(a: seq<RbNode>, b: seq<RbNode>, c: seq<RbNode>, x: RbNode)
    ensures a + (b + c + [x]) == (a + b) + c + [x]
  {
  }

  /// rb_left_deepest_node: a leaf, before which nothing of t0 has been seen.
  method LeftDeepest(n0: RbNode, ghost rn: RbNode?, ghost c0: Ctx, ghost t0: Tree, ghost w: World) returns (n: RbNode, ghost c: Ctx, ghost t: Tree)
    requires Sits(rn, c0, t0, n0, w)
    ensures Sits(rn, c, t, n, w) && Seen(c, t) == PostBefore(c0) + [n] && Plug(c, t) == Plug(c0, t0)
  {
    n, c, t := n0, c0, t0;
    while true
      invariant Sits(rn, c, t, n, w) && PostBefore(c) == PostBefore(c0) && Plug(c, t) == Plug(c0, t0)
      decreases t
    {
      LeftNow(rn, c, t, w);
      if n.left != null {
        AtUp(Snap(w.S), rn, In(c, Left, n, t.red, t.r), t.l, w);
        n, c, t := n.left, In(c, Left, n, t.red, t.r), t.l;
      } else if n.right != null {
        AtUp(Snap(w.S), rn, In(c, Right, n, t.red, t.l), t.r, w);
        n, c, t := n.right, In(c, Right, n, t.red, t.l), t.r;
      } else {
        assert Postorder(t) == [n];
        return;
      }
    }
  }

  /// rb_first_postorder.
  method FirstPostorder(root: RbRoot, ghost t0: Tree, ghost w: World) returns (n: RbNode?, ghost c: Ctx, ghost t: Tree)
    requires At(Snap(w.S), root.node, Top, t0, w)
    ensures if n == null then t0.E? else Sits(root.node, c, t, n, w) && Seen(c, t) == [n] && Plug(c, t) == t0
  {
    if root.node == null {
      return null, Top, E;
    }
    n, c, t := LeftDeepest(root.node, root.node, Top, t0, w);
  }

  lemma SiblingNow(rn: RbNode?, c: Ctx, t: Tree, w: World)
    requires At(Snap(w.S), rn, c, t, w) && c.In? && t.N?
    ensures t.x.parent == c.x && c.x in w.S && c.x.Kid(c.d) == t.x && c.x.Kid(c.d.Flip()) == RootOf(c.sib) != t.x
    ensures At(Snap(w.S), rn, c.up, Mk(c.d, t, c.x, c.red, c.sib), w)
    ensures var c' := In(c.up, c.d.Flip(), c.x, c.red, t); At(Snap(w.S), rn, c', c.sib, w)
  {
    var m := Snap(w.S);
    AtUp(m, rn, c, t, w);
    AtUp(m, rn, In(c.up, c.d.Flip(), c.x, c.red, t), c.sib, w);
    assert m[c.x] == CellOf(c.x);
    assert m[t.x] == CellOf(t.x);
    RepRoot(m, c.sib, m[c.x].Kid(c.d.Flip()), c.x);
  }

  /// rb_next_postorder.
  method NextPostorder(node: RbNode, ghost rn: RbNode?, ghost c: Ctx, ghost t: Tree, ghost w: World)
    returns (next: RbNode?, ghost c': Ctx, ghost t': Tree)
    requires Sits(rn, c, t, node, w)
    ensures if next == null then c.Top? else Sits(rn, c', t', next, w) && Seen(c', t') == Seen(c, t) + [next] && Plug(c', t') == Plug(c, t)
  {
    UpNow(rn, c, t, w);
    if c.In? {
      SiblingNow(rn, c, t, w);
    }
    var parent := node.parent;
    if parent != null && node == parent.left && parent.right != null {
      next, c', t' := LeftDeepest(parent.right, rn, In(c.up, Right, parent, c.red, t), c.sib, w);
      return;
    }
    if parent != null {
      SeenUp(c, t);
      c', t' := c.up, Mk(c.d, t, c.x, c.red, c.sib);
    } else {
      c', t' := c, t;
    }
    next := parent;
  }

  /// rbtree_postorder_for_each_entry_safe visits every node once, children first.
  method ForEachPostorder(root: RbRoot, ghost t0: Tree, ghost w: World) returns (visited: seq<RbNode>)
    requires At(Snap(w.S), root.node, Top, t0, w)
    ensures visited == Postorder(t0)
  {
    visited := [];
    var pos;
    ghost var c, t;
    pos, c, t := FirstPostorder(root, t0, w);
    while pos != null
      invariant if pos == null then visited == Postorder(t0)
                else Sits(root.node, c, t, pos, w) && Seen(c, t) == visited + [pos] && Plug(c, t) == t0
      decreases |Postorder(t0)| - |visited|, pos != null
    {
      SeenLength(c, t);
      var n;
      ghost var c1, t1;
      n, c1, t1 := NextPostorder(pos, root.node, c, t, w);
      visited := visited + [pos];
      pos, c, t := n, c1, t1;
    }
  }

  lemma {:induction false} SeenLength(c: Ctx, t: Tree)
    ensures |Seen(c, t)| <= |Postorder(Plug(c, t))|
    decreases c
  {
    if c.In? {
      SeenLength(c.up, Mk(c.d, t, c.x, c.red, c.sib));
    }
  }

  /// Post-order lists the same nodes as in-order.
  lemma {:induction false} PostorderNodes(t: Tree)
    ensures multiset(Postorder(t)) == multiset(Inorder(t))
  {
    match t
    case E =>
    case N(l, _, _, r) =>
      PostorderNodes(l);
      PostorderNodes(r);
  }
  lemma {:induction false} PostorderPlug(c: Ctx, t: Tree) returns (a: seq<RbNode>, b: seq<RbNode>)
    ensures Postorder(Plug(c, t)) == a + Postorder(t) + b
    decreases c
  {
    match c
    case Top =>
      a, b := [], [];
    case In(up, d, x, red, sib) =>
      var a0, b0 := PostorderPlug(up, Mk(d, t, x, red, sib));
      a, b := if d.Left? then a0 else a0 + Postorder(sib), if d.Left? then Postorder(sib) + [x] + b0 else [x] + b0;
      hide Postorder, Plug;
      PostorderMk(d, t, x, red, sib, a0, b0);
  }

  lemma PostorderMk(d: Side, t: Tree, x: RbNode, red: bool, sib: Tree, a: seq<RbNode>, b: seq<RbNode>)
    ensures d.Left? ==> a + Postorder(Mk(d, t, x, red, sib)) + b == a + Postorder(t) + (Postorder(sib) + [x] + b)
    ensures d.Right? ==> a + Postorder(Mk(d, t, x, red, sib)) + b == (a + Postorder(sib)) + Postorder(t) + ([x] + b)
  {
  }

  lemma {:induction false} PostorderHas(t: Tree, y: RbNode)
    ensures y in Postorder(t) <==> y in Nodes(t)
  {
    match t
    case E =>
    case N(l, _, _, r) =>
      PostorderHas(l, y);
      PostorderHas(r, y);
  }

  /// In post-order a node comes behind all that is below it, wherever it stands in the tree.
  lemma KidsFirst(c: Ctx, t: Tree) returns (a: seq<RbNode>, b: seq<RbNode>)
    requires t.N?
    ensures Postorder(Plug(c, t)) == a + [t.x] + b && forall y | y in Nodes(t.l) + Nodes(t.r) :: y in a
  {
    a, b := PostorderPlug(c, t);
    var p, l, r := Postorder(t), Postorder(t.l), Postorder(t.r);
    assert p == l + r + [t.x];
    assert a + p + b == (a + (l + r)) + [t.x] + b;
    a := a + (l + r);
    forall y | y in Nodes(t.l) + Nodes(t.r)
      ensures y in a
    {
      PostorderHas(t.l, y);
      PostorderHas(t.r, y);
    }
  }
}
