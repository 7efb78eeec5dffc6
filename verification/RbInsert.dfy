/// Insertion: __rb_insert, with d standing for the side on which the parent
/// hangs under the grandparent, so that each mirrored pair of branches is one.
module RbInsert {
  import opened RbShape
  import opened RbColor
  import opened RbAugment
  import opened RbLinks
  import opened RbRotate

  // ---------------------------------------------------------------- case 1: recolour

  lemma Case1Spans(pos: Pos, c: Ctx, d: Side, a: Tree, gp: RbNode, u: Tree) returns (la: int, ha: int, lu: int, hu: int)
    requires OrdHole(pos, c, Mk(d, a, gp, false, u)) && a.N? && u.N?
    ensures Ord(pos, a, la, ha) && Ord(pos, u, lu, hu) && OrdHole(pos, c, Mk(d, Paint(a, false), gp, true, Paint(u, false)))
    ensures Outside(pos, {gp, u.x}, la, ha) && Outside(pos, {gp, a.x}, lu, hu)
    ensures Inside(pos, {a.x, gp, u.x}, Lo(pos, c), Hi(pos, c))
  {
    var lo, hi := Lo(pos, c), Hi(pos, c);
    OrdTree(pos, d, a, gp, false, u, lo, hi);
    OrdTree(pos, d, Paint(a, false), gp, true, Paint(u, false), lo, hi);
    la, ha := if d.Left? then lo else pos[gp], if d.Left? then pos[gp] else hi;
    lu, hu := if d.Left? then pos[gp] else lo, if d.Left? then hi else pos[gp];
  }

  lemma Case1Order(c: Ctx, d: Side, a: Tree, gp: RbNode, u: Tree)
    ensures Inorder(Plug(c, Mk(d, Paint(a, false), gp, true, Paint(u, false)))) == Inorder(Plug(c, Mk(d, a, gp, false, u)))
  {
    InorderPaint(a, false);
    InorderPaint(u, false);
    InorderRefill(c, Mk(d, a, gp, false, u), Mk(d, Paint(a, false), gp, true, Paint(u, false)));
  }

  lemma Case1Rep(m: Mem, m': Mem, rn: RbNode?, c: Ctx, d: Side, a: Tree, gp: RbNode, u: Tree, w: World)
    requires At(m, rn, c, Mk(d, a, gp, false, u), w) && u.N? && a.N?
    requires {a.x, gp, u.x} <= m.Keys && {a.x, gp, u.x} <= m'.Keys
    requires m'[a.x] == m[a.x].(parent := gp, red := false)
    requires m'[u.x] == m[u.x].(parent := gp, red := false)
    requires m'[gp] == m[gp].(red := true)
    requires AgreeBut(m, m', {a.x, gp, u.x})
    ensures At(m', rn, c, Mk(d, Paint(a, false), gp, true, Paint(u, false)), w)
  {
    var la, ha, lu, hu := Case1Spans(w.pos, c, d, a, gp, u);
    RepMk(m, d, a, gp, false, u, CNode(c));
    RepPaint(m, m', w.pos, a, la, ha, a.x, gp, gp, false, {gp, u.x});
    RepPaint(m, m', w.pos, u, lu, hu, u.x, gp, gp, false, {gp, a.x});
    CRepFrame(m, m', w.pos, c, rn, gp, {a.x, gp, u.x});
    RepMk(m', d, Paint(a, false), gp, true, Paint(u, false), CNode(c));
    Case1Order(c, d, a, gp, u);
  }

  lemma Case1Open(m: Mem, rn: RbNode?, c: Ctx, d: Side, a: Tree, gp: RbNode, u: Tree, w: World)
    requires At(m, rn, c, Mk(d, a, gp, false, u), w) && u.N? && a.N?
    ensures {a.x, gp, u.x} <= m.Keys && m[a.x].parent == gp && m[u.x].parent == gp && m[gp].parent == CNode(c)
    ensures a.x != gp && a.x != u.x && gp != u.x
  {
    RepMk(m, d, a, gp, false, u, CNode(c));
    OrdTree(w.pos, d, a, gp, false, u, Lo(w.pos, c), Hi(w.pos, c));
  }

  method Case1(gp: RbNode, p: RbNode, tmp: RbNode, ghost root: RbRoot, cb: Callbacks,
    ghost c: Ctx, ghost d: Side, ghost a: Tree, ghost u: Tree, ghost w: World)
    requires At(Snap(w.S), root.node, c, Mk(d, a, gp, false, u), w) && u.N? && u.x == tmp && a.N? && a.x == p
    requires AugAll(cb, AugSnap(w.S), c, Mk(d, a, gp, false, u))
    modifies w.S`parent, w.S`red
    ensures At(Snap(w.S), root.node, c, Mk(d, Paint(a, false), gp, true, Paint(u, false)), w)
    ensures AugAll(cb, AugSnap(w.S), c, Mk(d, Paint(a, false), gp, true, Paint(u, false)))
  {
    hide Rep, CRep, Ord, OrdHole, AugRep, AugCtx, AugSnap, WorldOk;
    ghost var m, am := Snap(w.S), AugSnap(w.S);
    Case1Open(m, root.node, c, d, a, gp, u, w);
    SetParentColor(tmp, gp, false);
    SetParentColor(p, gp, false);
    SetParentColor(gp, gp.parent, true);
    Case1Rep(m, Snap(w.S), root.node, c, d, a, gp, u, w);
    AugKept(w.S);
    if cb.Max? {
      Case1Aug(am, cb.compute, c, d, a, gp, u);
    }
  }

  lemma Case1Aug(am: Augs, f: RbNode -> int, c: Ctx, d: Side, a: Tree, gp: RbNode, u: Tree)
    requires var s := Mk(d, a, gp, false, u); AugRep(am, f, s) && AugCtx(am, f, c, MaxOf(f, s))
    ensures var s := Mk(d, Paint(a, false), gp, true, Paint(u, false)); AugRep(am, f, s) && AugCtx(am, f, c, MaxOf(f, s))
  {
    AugPaint(am, f, a, false);
    AugPaint(am, f, u, false);
    AugMk(am, f, d, a, gp, false, u);
    AugMk(am, f, d, Paint(a, false), gp, true, Paint(u, false));
    MaxMk(f, d, a, gp, false, u);
    MaxMk(f, d, Paint(a, false), gp, true, Paint(u, false));
  }

  // ---------------------------------------------------------------- cases 2 and 3

  /// Case 3: the red p goes up over the black gp, which turns red.
  ghost function Case3Rot(c: Ctx, d: Side, a: Tree, p: RbNode, b: Tree, gp: RbNode, u: Tree): Rot {
    Rot(c, d, a, p, true, b, gp, false, u, true)
  }

  /// Case 2: the node n goes up over its parent p first.
  ghost function Case2Low(c: Ctx, d: Side, a: Tree, p: RbNode, b1: Tree, n: RbNode, b2: Tree, gp: RbNode, u: Tree): Low {
    Low(c, d, d.Flip(), b2, n, true, b1, p, true, a, gp, false, u, true)
  }

  /// The colours after case 3: a valid subtree, one black node higher than its parts, with a black root.
  lemma FinishColors(c: Ctx, d: Side, a: Tree, p: RbNode, b: Tree, gp: RbNode, u: Tree)
    requires Rb(a) && Rb(b) && Rb(u) && Bh(a) == Bh(b) == Bh(u) && !IsRed(b) && !IsRed(u) && CRb(c, Bh(a) + 1)
    ensures var t := Mk(d, a, p, false, Mk(d, b, gp, true, u)); Rb(t) && !IsRed(t) && CRb(c, Bh(t))
  {
    RbMk(d, b, gp, true, u);
    RbMk(d, a, p, false, Mk(d, b, gp, true, u));
  }

  /// The node is on the far side of its parent: case 2, then case 3.
  method Inner(d: Side, gp: RbNode, p: RbNode, node: RbNode, root: RbRoot, cb: Callbacks,
    ghost c: Ctx, ghost a: Tree, ghost b1: Tree, ghost b2: Tree, ghost u: Tree, ghost w: World)
    requires WorldOk(w) && At(Snap(w.S), root.node, c, Mk(d, Mk(d, a, p, true, Mk(d, b1, node, true, b2)), gp, false, u), w)
    requires AugAll(cb, AugSnap(w.S), c, Mk(d, Mk(d, a, p, true, Mk(d, b1, node, true, b2)), gp, false, u))
    requires !IsRed(b1) && !IsRed(b2)
    modifies w.S, root
    ensures At(Snap(w.S), root.node, c, Mk(d, Mk(d, a, p, true, b1), node, false, Mk(d, b2, gp, true, u)), w)
    ensures AugAll(cb, AugSnap(w.S), c, Mk(d, Mk(d, a, p, true, b1), node, false, Mk(d, b2, gp, true, u)))
  {
    hide Rep, CRep, Ord, OrdHole, OrdParts, AugRep, AugCtx, AugSnap, At, WorldOk;
    ghost var l := Case2Low(c, d, a, p, b1, node, b2, gp, u);
    Up(Snap(w.S), root.node, cb, AugSnap(w.S), l.Hole(), l.From(), w);
    RotateTwice(d.Flip(), p, node, gp, d, false, true, root, true, false, cb, l, w);
  }

  /// Everything from line 152 (or 208) on: the parent is red and the uncle is
  /// not, so one or two rotations finish the job.
  method Finish(d: Side, gp: RbNode, p: RbNode, node: RbNode, root: RbRoot, cb: Callbacks,
    ghost c: Ctx, ghost dn: Side, ghost t: Tree, ghost sib: Tree, ghost u: Tree, ghost w: World) returns (ghost t': Tree)
    requires WorldOk(w) && At(Snap(w.S), root.node, c, Mk(d, Mk(dn, t, p, true, sib), gp, false, u), w)
    requires AugAll(cb, AugSnap(w.S), c, Mk(d, Mk(dn, t, p, true, sib), gp, false, u))
    requires t.N? && t.red && t.x == node && Rb(t) && CRb(In(In(c, d, gp, false, u), dn, p, true, sib), Bh(t)) && !IsRed(u)
    requires p.Kid(dn) == node && p.Kid(dn.Flip()) != node
    modifies w.S, root
    ensures At(Snap(w.S), root.node, c, t', w) && AugAll(cb, AugSnap(w.S), c, t')
    ensures Rb(t') && !IsRed(t') && CRb(c, Bh(t'))
  {
    var tmp := p.Kid(d.Flip());
    if node == tmp {
      ghost var b1, b2 := if d.Left? then t.l else t.r, if d.Left? then t.r else t.l;
      assert dn == d.Flip() && t == Mk(d, b1, node, true, b2) && Mk(dn, t, p, true, sib) == Mk(d, sib, p, true, t);
      RbMk(d, b1, node, true, b2);
      RbMk(d, sib, p, true, b1);
      FinishColors(c, d, Mk(d, sib, p, true, b1), node, b2, gp, u);
      t' := Mk(d, Mk(d, sib, p, true, b1), node, false, Mk(d, b2, gp, true, u));
      Inner(d, gp, p, node, root, cb, c, sib, b1, b2, u, w);
    } else {
      FinishColors(c, d, t, p, sib, gp, u);
      t' := Mk(d, t, p, false, Mk(d, sib, gp, true, u));
      RotateChild(d, gp, p, root, true, false, cb, Case3Rot(c, d, t, p, sib, gp, u), w);
    }
  }

  // ---------------------------------------------------------------- the loop

  /// The inserted node, or the grandparent it was moved up to, is the root: paint it black.
  method BlackenRoot(node: RbNode, ghost root: RbRoot, cb: Callbacks, ghost t: Tree, ghost w: World)
    requires At(Snap(w.S), root.node, Top, t, w) && AugAll(cb, AugSnap(w.S), Top, t) && t.N? && t.x == node && Rb(t)
    modifies w.S`parent, w.S`red
    ensures At(Snap(w.S), root.node, Top, Paint(t, false), w) && AugTree(cb, AugSnap(w.S), Paint(t, false))
    ensures Rb(Paint(t, false))
  {
    ghost var m, am := Snap(w.S), AugSnap(w.S);
    SetParentColor(node, null, false);
    RepPaint(m, Snap(w.S), w.pos, t, -1, |w.pos|, node, null, null, false, {});
    InorderPaint(t, false);
    assert AugSnap(w.S) == am;
    if cb.Max? {
      AugPaint(am, cb.compute, t, false);
    }
  }

  /// One level up, then another: the node together with its parent, sibling, grandparent and uncle.
  lemma TwoUp(m: Mem, rn: RbNode?, cb: Callbacks, am: Augs, c: Ctx, t: Tree, w: World)
    requires At(m, rn, c, t, w) && AugAll(cb, am, c, t) && c.In? && c.up.In?
    ensures var g := c.up; var s := Mk(g.d, Mk(c.d, t, c.x, c.red, c.sib), g.x, g.red, g.sib);
            At(m, rn, g.up, s, w) && AugAll(cb, am, g.up, s)
    ensures c.x in m && m[c.x].Kid(c.d) == RootOf(t) && (t.N? ==> m[c.x].Kid(c.d.Flip()) != RootOf(t)) && m[c.x].parent == c.up.x && m[c.x].red == c.red
    ensures c.up.x in m && m[c.up.x].Kid(c.up.d) == c.x && m[c.up.x].Kid(c.up.d.Flip()) == RootOf(c.up.sib) && RootOf(c.up.sib) != c.x
    ensures c.up.sib.N? ==> c.up.sib.x in m && m[c.up.sib.x].red == c.up.sib.red
    ensures m[c.up.x].parent == CNode(c.up.up)
  {
    var g := c.up;
    Up(m, rn, cb, am, c, t, w);
    Up(m, rn, cb, am, g, Mk(c.d, t, c.x, c.red, c.sib), w);
    RepRoot(m, g.sib, m[g.x].Kid(g.d.Flip()), g.x);
    RepRoot(m, c.sib, m[c.x].Kid(c.d.Flip()), c.x);
  }

  lemma Done(m: Mem, rn: RbNode?, cb: Callbacks, am: Augs, c: Ctx, t: Tree, w: World)
    requires At(m, rn, c, t, w) && AugAll(cb, am, c, t) && Rb(t) && CRb(c, Bh(t)) && (IsRed(t) ==> c.In? && !c.red)
    ensures At(m, rn, Top, Plug(c, t), w) && AugTree(cb, am, Plug(c, t)) && Rb(Plug(c, t)) && !IsRed(Plug(c, t))
  {
    AtPlug(m, rn, c, t, w);
    RbPlug(c, t);
    if cb.Max? {
      AugPlug(am, cb.compute, c, t);
    }
  }

  lemma Case1Colors(c: Ctx, d: Side, dn: Side, t: Tree, p: RbNode, sib: Tree, gp: RbNode, u: Tree)
    requires Rb(t) && CRb(In(In(c, d, gp, false, u), dn, p, true, sib), Bh(t)) && IsRed(u)
    ensures var t' := Mk(d, Mk(dn, t, p, false, sib), gp, true, Paint(u, false)); Rb(t') && CRb(c, Bh(t'))
  {
    RbMk(dn, t, p, false, sib);
    RbMk(d, Mk(dn, t, p, false, sib), gp, true, Paint(u, false));
  }

  /// The loop invariant of __rb_insert: node is red, and it is the only place
  /// where the tree may break a rule.
  ghost predicate Pending(m: Mem, rn: RbNode?, cb: Callbacks, am: Augs, c: Ctx, t: Tree, node: RbNode, w: World) {
    At(m, rn, c, t, w) && AugAll(cb, am, c, t) && t.N? && t.red && t.x == node && Rb(t) && CRb(c, Bh(t))
  }

  /// What the fields of parent and grandparent say about the context.
  lemma Family(root: RbRoot, cb: Callbacks, c: Ctx, t: Tree, node: RbNode, w: World)
    requires Pending(Snap(w.S), root.node, cb, AugSnap(w.S), c, t, node, w) && c.In?
    ensures c.x.red == c.red && c.x.parent == CNode(c.up)
    ensures c.red ==> c.up.In? && !c.up.red && c.up.x.Kid(c.up.d) == c.x && c.up.x.Kid(c.up.d.Flip()) == RootOf(c.up.sib) &&
                      RootOf(c.up.sib) != c.x && (c.up.sib.N? ==> c.up.sib.x.red == c.up.sib.red)
  {
    var m := Snap(w.S);
    assert m[c.x] == CellOf(c.x);
    if c.red {
      TwoUp(m, root.node, cb, AugSnap(w.S), c, t, w);
      assert m[c.up.x] == CellOf(c.up.x);
      assert c.up.sib.N? ==> m[c.up.sib.x] == CellOf(c.up.sib.x);
    }
  }

  /// node's parent pointer is the lowest node of the context.
  lemma ParentNow(root: RbRoot, cb: Callbacks, c: Ctx, t: Tree, node: RbNode, w: World)
    requires Pending(Snap(w.S), root.node, cb, AugSnap(w.S), c, t, node, w)
    ensures node.parent == CNode(c)
  {
    var m := Snap(w.S);
    assert m[node] == CellOf(node);
  }

  /// Case 1 as one turn of the loop.
  method Recolour(gparent: RbNode, parent: RbNode, tmp: RbNode, ghost root: RbRoot, cb: Callbacks, ghost node: RbNode, ghost c: Ctx, ghost t: Tree, ghost w: World)
    returns (ghost t': Tree)
    requires Pending(Snap(w.S), root.node, cb, AugSnap(w.S), c, t, node, w)
    requires c.In? && c.red && c.up.In? && parent == c.x && gparent == c.up.x && IsRed(c.up.sib) && tmp == c.up.sib.x
    modifies w.S`parent, w.S`red
    ensures Pending(Snap(w.S), root.node, cb, AugSnap(w.S), c.up.up, t', gparent, w)
  {
    ghost var g := c.up;
    TwoUp(Snap(w.S), root.node, cb, AugSnap(w.S), c, t, w);
    Case1Colors(g.up, g.d, c.d, t, parent, c.sib, gparent, g.sib);
    t' := Mk(g.d, Mk(c.d, t, c.x, false, c.sib), g.x, true, Paint(g.sib, false));
    Case1(gparent, parent, tmp, root, cb, g.up, g.d, Mk(c.d, t, parent, true, c.sib), g.sib, w);
  }

  /// Cases 2 and 3 as the last turn of the loop.
  method Rotations(d: Side, gparent: RbNode, parent: RbNode, node: RbNode, root: RbRoot, cb: Callbacks, ghost c: Ctx, ghost t: Tree, ghost w: World)
    returns (ghost t': Tree)
    requires WorldOk(w) && Pending(Snap(w.S), root.node, cb, AugSnap(w.S), c, t, node, w)
    requires c.In? && c.red && c.up.In? && parent == c.x && gparent == c.up.x && !IsRed(c.up.sib) && d == c.up.d
    modifies w.S, root
    ensures At(Snap(w.S), root.node, Top, t', w) && AugTree(cb, AugSnap(w.S), t') && Rb(t') && !IsRed(t')
  {
    ghost var g := c.up;
    TwoUp(Snap(w.S), root.node, cb, AugSnap(w.S), c, t, w);
    assert Snap(w.S)[parent].Kid(c.d) == parent.Kid(c.d);
    t' := Finish(d, gparent, parent, node, root, cb, g.up, c.d, t, c.sib, g.sib, w);
    Done(Snap(w.S), root.node, cb, AugSnap(w.S), g.up, t', w);
    t' := Plug(g.up, t');
  }

  /// One turn of the loop below a parent.
  method Turn(node: RbNode, parent: RbNode, root: RbRoot, cb: Callbacks, ghost c: Ctx, ghost t: Tree, ghost w: World)
    returns (next: RbNode?, ghost t': Tree)
    requires WorldOk(w) && Pending(Snap(w.S), root.node, cb, AugSnap(w.S), c, t, node, w) && c.In? && parent == c.x
    modifies w.S, root
    ensures next != null ==> c.up.In? && Pending(Snap(w.S), root.node, cb, AugSnap(w.S), c.up.up, t', next, w)
    ensures next == null ==> At(Snap(w.S), root.node, Top, t', w) && AugTree(cb, AugSnap(w.S), t') && Rb(t') && !IsRed(t')
  {
    Family(root, cb, c, t, node, w);
    if !parent.red {
      Done(Snap(w.S), root.node, cb, AugSnap(w.S), c, t, w);
      return null, Plug(c, t);
    }
    var gparent: RbNode := parent.parent;
    var d := if parent != gparent.right then Left else Right;
    var tmp := gparent.Kid(d.Flip());
    if tmp != null && tmp.red {
      t' := Recolour(gparent, parent, tmp, root, cb, node, c, t, w);
      next := gparent;
    } else {
      t' := Rotations(d, gparent, parent, node, root, cb, c, t, w);
      next := null;
    }
  }

  /// node has been linked into a valid tree as a red leaf (rb_link_node), and
  /// with callbacks the maxima on the path to it are up to date. The result is
  /// a valid red-black tree with the same in-order sequence.
  method Insert(node0: RbNode, root: RbRoot, cb: Callbacks, ghost c0: Ctx, ghost w: World) returns (ghost t': Tree)
    requires WorldOk(w) && At(Snap(w.S), root.node, c0, N(E, node0, true, E), w)
    requires CRb(c0, 0) && AugAll(cb, AugSnap(w.S), c0, N(E, node0, true, E))
    modifies w.S, root
    ensures At(Snap(w.S), root.node, Top, t', w) && AugTree(cb, AugSnap(w.S), t')
    ensures Rb(t') && !IsRed(t')
  {
    var node: RbNode := node0;
    ghost var c, t := c0, N(E, node0, true, E);
    ParentNow(root, cb, c, t, node, w);
    var parent := node.parent;
    while parent != null
      invariant Pending(Snap(w.S), root.node, cb, AugSnap(w.S), c, t, node, w) && parent == CNode(c)
      decreases c
    {
      var next;
      next, t' := Turn(node, parent, root, cb, c, t, w);
      if next == null {
        return;
      }
      c, t, node := c.up.up, t', next;
      ParentNow(root, cb, c, t, node, w);
      parent := node.parent;
    }
    BlackenRoot(node, root, cb, t, w);
    return Paint(t, false);
  }
}
