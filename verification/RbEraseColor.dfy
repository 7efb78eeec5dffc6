/// Rebalancing after an erasure: ____rb_erase_color, with d standing for the
/// side on which the short subtree hangs.
module RbEraseColor {
  import opened RbShape
  import opened RbColor
  import opened RbAugment
  import opened RbLinks
  import opened RbRotate

  /// The loop invariant: everything is in order, except that paths through the
  /// hole's black-rooted tree t lack one black node; the hole is not the root.
  ghost predicate Short(m: Mem, rn: RbNode?, cb: Callbacks, am: Augs, c: Ctx, t: Tree, w: World) {
    At(m, rn, c, t, w) && AugAll(cb, am, c, t) && c.In? && Rb(t) && !IsRed(t) && CRb(c, Bh(t) + 1)
  }

  /// A valid tree that ends the loop.
  ghost predicate Repaired(m: Mem, rn: RbNode?, cb: Callbacks, am: Augs, t: Tree, w: World) {
    At(m, rn, Top, t, w) && AugTree(cb, am, t) && Rb(t) && !IsRed(t)
  }

  lemma Finished(m: Mem, rn: RbNode?, cb: Callbacks, am: Augs, c: Ctx, t: Tree, w: World)
    requires At(m, rn, c, t, w) && AugAll(cb, am, c, t) && Rb(t) && CRb(c, Bh(t)) && (IsRed(t) ==> c.In? && !c.red)
    ensures Repaired(m, rn, cb, am, Plug(c, t), w)
  {
    AtPlug(m, rn, c, t, w);
    RbPlug(c, t);
    if cb.Max? {
      AugPlug(am, cb.compute, c, t);
    }
  }

  /// The node above the hole, seen from its other side: the sibling fills the hole.
  ghost function Across(c: Ctx, t: Tree): Ctx
    requires c.In?
  {
    In(c.up, c.d.Flip(), c.x, c.red, t)
  }

  lemma AcrossUp(m: Mem, rn: RbNode?, cb: Callbacks, am: Augs, c: Ctx, t: Tree, w: World)
    requires c.In?
    ensures (At(m, rn, c, t, w) && AugAll(cb, am, c, t)) <==>
            (At(m, rn, Across(c, t), c.sib, w) && AugAll(cb, am, Across(c, t), c.sib))
  {
    Up(m, rn, cb, am, c, t, w);
    Up(m, rn, cb, am, Across(c, t), c.sib, w);
    assert Mk(c.d, t, c.x, c.red, c.sib) == Mk(c.d.Flip(), c.sib, c.x, c.red, t);
  }

  ghost function Near(d: Side, t: Tree): Tree { if t.E? then E else if d.Left? then t.l else t.r }

  lemma MkSplit(d: Side, t: Tree)
    requires t.N?
    ensures t == Mk(d, Near(d, t), t.x, t.red, Near(d.Flip(), t))
    ensures t == Mk(d.Flip(), Near(d.Flip(), t), t.x, t.red, Near(d, t))
  {
  }

  // ---------------------------------------------------------------- case 1: red sibling

  ghost function Case1Rot(c: Ctx, t: Tree): Rot
    requires c.In? && c.sib.N?
  {
    Rot(c.up, c.d.Flip(), Near(c.d.Flip(), c.sib), c.sib.x, true, Near(c.d, c.sib), c.x, false, t, true)
  }

  /// The context of the hole after case 1.
  ghost function Case1Ctx(c: Ctx): Ctx
    requires c.In? && c.sib.N?
  {
    In(In(c.up, c.d, c.sib.x, false, Near(c.d.Flip(), c.sib)), c.d, c.x, true, Near(c.d, c.sib))
  }

  lemma Case1Shape(c: Ctx, t: Tree)
    requires c.In? && IsRed(c.sib) && !c.red
    ensures Case1Rot(c, t).From() == Mk(c.d, t, c.x, c.red, c.sib)
    ensures var c' := Case1Ctx(c); Case1Rot(c, t).To() == Mk(c'.up.d, Mk(c'.d, t, c'.x, c'.red, c'.sib), c'.up.x, c'.up.red, c'.up.sib)
  {
    MkSplit(c.d, c.sib);
  }

  lemma Case1Colors(c: Ctx, t: Tree)
    requires c.In? && Rb(t) && !IsRed(t) && CRb(c, Bh(t) + 1) && IsRed(c.sib)
    ensures !c.red && !IsRed(Near(c.d, c.sib)) && CRb(Case1Ctx(c), Bh(t) + 1)
  {
    MkSplit(c.d, c.sib);
    RbMk(c.d, Near(c.d, c.sib), c.sib.x, true, Near(c.d.Flip(), c.sib));
  }

  /// Afterwards the hole's sibling is black, and its parent is red.
  method Case1(d: Side, p: RbNode, s: RbNode, root: RbRoot, cb: Callbacks, ghost c: Ctx, ghost t: Tree, ghost w: World)
    requires WorldOk(w) && Short(Snap(w.S), root.node, cb, AugSnap(w.S), c, t, w)
    requires c.d == d && c.x == p && IsRed(c.sib) && c.sib.x == s
    modifies w.S, root
    ensures Short(Snap(w.S), root.node, cb, AugSnap(w.S), Case1Ctx(c), t, w)
  {
    hide Rep, CRep, Ord, OrdHole, AugRep, AugCtx, AugSnap, At;
    Case1Colors(c, t);
    Case1Shape(c, t);
    Up(Snap(w.S), root.node, cb, AugSnap(w.S), c, t, w);
    RotateChild(d.Flip(), p, s, root, true, false, cb, Case1Rot(c, t), w);
    ghost var c' := Case1Ctx(c);
    Up(Snap(w.S), root.node, cb, AugSnap(w.S), c'.up, Mk(c'.d, t, c'.x, c'.red, c'.sib), w);
    Up(Snap(w.S), root.node, cb, AugSnap(w.S), c', t, w);
  }

  // ---------------------------------------------------------------- case 2: sibling colour flip

  lemma PaintHole(m: Mem, m': Mem, rn: RbNode?, cb: Callbacks, am: Augs, c: Ctx, t: Tree, red: bool, w: World)
    requires At(m, rn, c, t, w) && AugAll(cb, am, c, t) && t.N?
    requires t.x in m && t.x in m' && m'[t.x] == m[t.x].(red := red) && AgreeBut(m, m', {t.x})
    ensures At(m', rn, c, Paint(t, red), w) && AugAll(cb, am, c, Paint(t, red))
  {
    RepPaint(m, m', w.pos, t, Lo(w.pos, c), Hi(w.pos, c), t.x, CNode(c), CNode(c), red, {});
    CRepFrame(m, m', w.pos, c, rn, t.x, {t.x});
    InorderPaint(t, red);
    InorderRefill(c, t, Paint(t, red));
    if cb.Max? {
      AugPaint(am, cb.compute, t, red);
    }
  }

  method SetColorAt(x: RbNode, red: bool, ghost root: RbRoot, cb: Callbacks, ghost c: Ctx, ghost t: Tree, ghost w: World)
    requires At(Snap(w.S), root.node, c, t, w) && AugAll(cb, AugSnap(w.S), c, t) && t.N? && t.x == x
    modifies x`parent, x`red
    ensures At(Snap(w.S), root.node, c, Paint(t, red), w) && AugAll(cb, AugSnap(w.S), c, Paint(t, red))
  {
    ghost var m, am := Snap(w.S), AugSnap(w.S);
    assert m[x] == CellOf(x);
    SetParentColor(x, x.parent, red);
    assert AugSnap(w.S) == am;
    PaintHole(m, Snap(w.S), root.node, cb, am, c, t, red, w);
  }

  lemma Case2Colors(c: Ctx, t: Tree)
    requires c.In? && Rb(t) && !IsRed(t) && CRb(c, Bh(t) + 1) && c.sib.N? && !c.sib.red && !IsRed(c.sib.l) && !IsRed(c.sib.r)
    ensures var t' := Mk(c.d, t, c.x, false, Paint(c.sib, true));
            Rb(t') && Bh(t') == Bh(t) + 1 && !IsRed(t') && CRb(c.up, if c.red then Bh(t') else Bh(t') + 1)
  {
    RbMk(c.d, t, c.x, false, Paint(c.sib, true));
  }

  /// Afterwards either the tree is repaired, or the parent's subtree is short.
  method Case2(p: RbNode, s: RbNode, root: RbRoot, cb: Callbacks, ghost c: Ctx, ghost t: Tree, ghost w: World)
    returns (done: bool, ghost t': Tree)
    requires Short(Snap(w.S), root.node, cb, AugSnap(w.S), c, t, w)
    requires c.x == p && c.sib.N? && c.sib.x == s && !c.sib.red && !IsRed(c.sib.l) && !IsRed(c.sib.r)
    modifies w.S
    ensures done ==> Repaired(Snap(w.S), root.node, cb, AugSnap(w.S), t', w)
    ensures !done ==> Short(Snap(w.S), root.node, cb, AugSnap(w.S), c.up, t', w) && t'.N? && t'.x == p
    ensures c.red ==> done
  {
    Case2Colors(c, t);
    AcrossUp(Snap(w.S), root.node, cb, AugSnap(w.S), c, t, w);
    SetColorAt(s, true, root, cb, Across(c, t), c.sib, w);
    ghost var c1 := c.(sib := Paint(c.sib, true));
    AcrossUp(Snap(w.S), root.node, cb, AugSnap(w.S), c1, t, w);
    Up(Snap(w.S), root.node, cb, AugSnap(w.S), c1, t, w);
    t' := Mk(c.d, t, p, false, Paint(c.sib, true));
    ParentColor(Snap(w.S), root.node, c.up, Mk(c.d, t, p, c.red, Paint(c.sib, true)), w);
    if p.red {
      SetColorAt(p, false, root, cb, c.up, Mk(c.d, t, p, true, Paint(c.sib, true)), w);
      Finished(Snap(w.S), root.node, cb, AugSnap(w.S), c.up, t', w);
      return true, Plug(c.up, t');
    }
    var parent := p.parent;
    if parent != null {
      return false, t';
    }
    return true, t';
  }

  lemma ParentColor(m: Mem, rn: RbNode?, c: Ctx, t: Tree, w: World)
    requires At(m, rn, c, t, w) && t.N?
    ensures t.x in m && m[t.x].red == t.red && m[t.x].parent == CNode(c)
  {
  }

  // ---------------------------------------------------------------- cases 3 and 4

  /// Case 4: the sibling s, whose far child is red and gets painted black, goes
  /// up over p, which turns black.
  ghost function Case4Rot(c: Ctx, t: Tree): Rot
    requires c.In? && c.sib.N?
  {
    Rot(c.up, c.d.Flip(), Paint(Near(c.d.Flip(), c.sib), false), c.sib.x, false, Near(c.d, c.sib), c.x, c.red, t, false)
  }

  /// Case 3: the sibling's near child, red, goes up over the sibling first.
  ghost function Case3Low(c: Ctx, t: Tree): Low
    requires c.In? && c.sib.N? && Near(c.d, c.sib).N?
  {
    var d, z := c.d, Near(c.d, c.sib);
    Low(c.up, d.Flip(), d, Near(d, z), z.x, true, Near(d.Flip(), z), c.sib.x, false, Near(d.Flip(), c.sib), c.x, c.red, t, false)
  }

  lemma Case4Colors(c: Ctx, t: Tree)
    requires c.In? && Rb(t) && !IsRed(t) && CRb(c, Bh(t) + 1) && c.sib.N? && !c.sib.red && IsRed(Near(c.d.Flip(), c.sib))
    ensures var t' := Case4Rot(c, t).To(); Rb(t') && CRb(c.up, Bh(t')) && (IsRed(t') ==> c.up.In? && !c.up.red)
  {
    var d, sl, sr := c.d, Near(c.d, c.sib), Near(c.d.Flip(), c.sib);
    MkSplit(d, c.sib);
    RbMk(d.Flip(), sr, c.sib.x, false, sl);
    RbMk(d.Flip(), sl, c.x, false, t);
    RbMk(d.Flip(), Paint(sr, false), c.sib.x, c.red, Mk(d.Flip(), sl, c.x, false, t));
  }

  lemma Case3Colors(c: Ctx, t: Tree)
    requires c.In? && Rb(t) && !IsRed(t) && CRb(c, Bh(t) + 1) && c.sib.N? && !c.sib.red
    requires IsRed(Near(c.d, c.sib)) && !IsRed(Near(c.d.Flip(), c.sib))
    ensures !IsRed(Case3Low(c, t).y)
    ensures var t' := Case3Low(c, t).Next(false).To(); Rb(t') && CRb(c.up, Bh(t')) && (IsRed(t') ==> c.up.In? && !c.up.red)
  {
    var l := Case3Low(c, t);
    var d, z := c.d, Near(c.d, c.sib);
    MkSplit(d, c.sib);
    MkSplit(d, z);
    RbMk(d, z, c.sib.x, false, l.v);
    RbMk(d, l.x, l.n, true, l.y);
    RbMk(d, l.y, l.q, false, l.v);
    RbMk(l.dg, l.x, c.x, false, t);
    RbMk(l.dg, Mk(d, l.y, l.q, false, l.v), l.n, c.red, Mk(l.dg, l.x, c.x, false, t));
  }

  /// Painting the sibling's far child black.
  method PaintFar(tmp1: RbNode, root: RbRoot, cb: Callbacks, ghost c: Ctx, ghost t: Tree, ghost w: World)
    requires At(Snap(w.S), root.node, c, t, w) && AugAll(cb, AugSnap(w.S), c, t)
    requires c.In? && c.sib.N? && !c.sib.red && Near(c.d.Flip(), c.sib).N? && Near(c.d.Flip(), c.sib).x == tmp1
    modifies w.S
    ensures At(Snap(w.S), root.node, c.up, Case4Rot(c, t).From(), w) && AugAll(cb, AugSnap(w.S), c.up, Case4Rot(c, t).From())
  {
    ghost var d, s, sl, sr := c.d, c.sib.x, Near(c.d, c.sib), Near(c.d.Flip(), c.sib);
    ghost var cs := In(Across(c, t), d.Flip(), s, false, sl);
    MkSplit(d, c.sib);
    AcrossUp(Snap(w.S), root.node, cb, AugSnap(w.S), c, t, w);
    Up(Snap(w.S), root.node, cb, AugSnap(w.S), cs, sr, w);
    SetColorAt(tmp1, false, root, cb, cs, sr, w);
    Up(Snap(w.S), root.node, cb, AugSnap(w.S), cs, Paint(sr, false), w);
    Up(Snap(w.S), root.node, cb, AugSnap(w.S), Across(c, t), Mk(d.Flip(), Paint(sr, false), s, false, sl), w);
  }

  method Case4(d: Side, p: RbNode, s: RbNode, tmp1: RbNode, root: RbRoot, cb: Callbacks, ghost c: Ctx, ghost t: Tree, ghost w: World) returns (ghost t': Tree)
    requires WorldOk(w) && Short(Snap(w.S), root.node, cb, AugSnap(w.S), c, t, w)
    requires c.d == d && c.x == p && c.sib.N? && c.sib.x == s && !c.sib.red && IsRed(Near(d.Flip(), c.sib)) && Near(d.Flip(), c.sib).x == tmp1
    modifies w.S, root
    ensures Repaired(Snap(w.S), root.node, cb, AugSnap(w.S), t', w)
  {
    Case4Colors(c, t);
    PaintFar(tmp1, root, cb, c, t, w);
    RotateChild(d.Flip(), p, s, root, false, true, cb, Case4Rot(c, t), w);
    Finished(Snap(w.S), root.node, cb, AugSnap(w.S), c.up, Case4Rot(c, t).To(), w);
    t' := Plug(c.up, Case4Rot(c, t).To());
  }

  /// The two rotations of cases 3 and 4. The sibling, which case 4 paints black
  /// and hangs under its former child, is moved there together with case 3.
  method Case3(d: Side, p: RbNode, s: RbNode, z: RbNode, root: RbRoot, cb: Callbacks, ghost c: Ctx, ghost t: Tree, ghost w: World) returns (ghost t': Tree)
    requires WorldOk(w) && Short(Snap(w.S), root.node, cb, AugSnap(w.S), c, t, w)
    requires c.d == d && c.x == p && c.sib.N? && c.sib.x == s && !c.sib.red
    requires IsRed(Near(d, c.sib)) && Near(d, c.sib).x == z && !IsRed(Near(d.Flip(), c.sib))
    modifies w.S, root
    ensures Repaired(Snap(w.S), root.node, cb, AugSnap(w.S), t', w)
  {
    ghost var l := Case3Low(c, t);
    MkSplit(d, c.sib);
    MkSplit(d, Near(d, c.sib));
    assert l.From() == c.sib && l.Hole() == Across(c, t);
    Case3Colors(c, t);
    AcrossUp(Snap(w.S), root.node, cb, AugSnap(w.S), c, t, w);
    RotateTwice(d, s, z, p, d.Flip(), true, false, root, false, true, cb, l, w);
    Finished(Snap(w.S), root.node, cb, AugSnap(w.S), c.up, l.Next(false).To(), w);
    t' := Plug(c.up, l.Next(false).To());
  }

  // ---------------------------------------------------------------- the loop

  /// What the fields around the hole say about the sibling and its children.
  lemma Around(root: RbRoot, cb: Callbacks, c: Ctx, t: Tree, w: World)
    requires Short(Snap(w.S), root.node, cb, AugSnap(w.S), c, t, w)
    ensures c.x.Kid(c.d) == RootOf(t) && c.sib.N? && c.x.Kid(c.d.Flip()) == c.sib.x && c.sib.x.red == c.sib.red && RootOf(t) != c.sib.x
    ensures forall d :: c.sib.x.Kid(d) == RootOf(Near(d, c.sib)) && (Near(d, c.sib).N? ==> Near(d, c.sib).x.red == Near(d, c.sib).red)
  {
    var m := Snap(w.S);
    var s := c.sib.x;
    assert m[c.x] == CellOf(c.x);
    RepRoot(m, t, m[c.x].Kid(c.d), c.x);
    RepRoot(m, c.sib, m[c.x].Kid(c.d.Flip()), c.x);
    assert m[s] == CellOf(s);
    RepRoot(m, c.sib.l, m[s].left, s);
    RepRoot(m, c.sib.r, m[s].right, s);
    assert c.sib.l.N? ==> m[c.sib.l.x] == CellOf(c.sib.l.x);
    assert c.sib.r.N? ==> m[c.sib.r.x] == CellOf(c.sib.r.x);
    forall d: Side
      ensures c.sib.x.Kid(d) == RootOf(Near(d, c.sib)) && (Near(d, c.sib).N? ==> Near(d, c.sib).x.red == Near(d, c.sib).red)
    {
    }
  }

  /// Cases 2, 3 and 4, once the sibling is black.
  method BlackSibling(d: Side, p: RbNode, s: RbNode, root: RbRoot, cb: Callbacks, ghost c: Ctx, ghost t: Tree, ghost w: World)
    returns (done: bool, ghost t': Tree)
    requires WorldOk(w) && Short(Snap(w.S), root.node, cb, AugSnap(w.S), c, t, w)
    requires c.d == d && c.x == p && c.sib.N? && c.sib.x == s && !c.sib.red
    modifies w.S, root
    ensures done ==> Repaired(Snap(w.S), root.node, cb, AugSnap(w.S), t', w)
    ensures !done ==> Short(Snap(w.S), root.node, cb, AugSnap(w.S), c.up, t', w) && t'.N? && t'.x == p
    ensures c.red ==> done
  {
    Around(root, cb, c, t, w);
    var tmp1 := s.Kid(d.Flip());
    if tmp1 == null || !tmp1.red {
      var tmp2 := s.Kid(d);
      if tmp2 == null || !tmp2.red {
        done, t' := Case2(p, s, root, cb, c, t, w);
      } else {
        t' := Case3(d, p, s, tmp2, root, cb, c, t, w);
        done := true;
      }
    } else {
      t' := Case4(d, p, s, tmp1, root, cb, c, t, w);
      done := true;
    }
  }

  /// One turn of the loop. Case 1 leaves a red parent, after which case 2 ends the loop.
  method Level(node: RbNode?, parent: RbNode, root: RbRoot, cb: Callbacks, ghost c: Ctx, ghost t: Tree, ghost w: World)
    returns (done: bool, ghost t': Tree)
    requires WorldOk(w) && Short(Snap(w.S), root.node, cb, AugSnap(w.S), c, t, w) && c.x == parent && RootOf(t) == node
    modifies w.S, root
    ensures done ==> Repaired(Snap(w.S), root.node, cb, AugSnap(w.S), t', w)
    ensures !done ==> Short(Snap(w.S), root.node, cb, AugSnap(w.S), c.up, t', w) && t'.N? && t'.x == parent
  {
    Around(root, cb, c, t, w);
    var d := if node != parent.right then Left else Right;
    var sibling: RbNode := parent.Kid(d.Flip());
    if sibling.red {
      ghost var c1 := Case1Ctx(c);
      var tmp1 := sibling.Kid(d);
      Case1(d, parent, sibling, root, cb, c, t, w);
      Around(root, cb, c1, t, w);
      sibling := tmp1;
      Case1Colors(c, t);
      done, t' := BlackSibling(d, parent, sibling, root, cb, c1, t, w);
    } else {
      done, t' := BlackSibling(d, parent, sibling, root, cb, c, t, w);
    }
  }

  lemma ParentNow(root: RbRoot, cb: Callbacks, c: Ctx, t: Tree, w: World)
    requires Short(Snap(w.S), root.node, cb, AugSnap(w.S), c, t, w) && t.N?
    ensures t.x.parent == c.x
  {
    assert Snap(w.S)[t.x] == CellOf(t.x);
  }

  /// parent0's empty child slot lacks a black node. The result is a valid
  /// red-black tree with the same in-order sequence.
  method EraseColor(parent0: RbNode, root: RbRoot, cb: Callbacks, ghost c0: Ctx, ghost w: World) returns (ghost t': Tree)
    requires WorldOk(w) && Short(Snap(w.S), root.node, cb, AugSnap(w.S), c0, E, w) && c0.x == parent0
    modifies w.S, root
    ensures Repaired(Snap(w.S), root.node, cb, AugSnap(w.S), t', w)
  {
    var node: RbNode? := null;
    var parent: RbNode := parent0;
    ghost var c, t := c0, E;
    while true
      invariant Short(Snap(w.S), root.node, cb, AugSnap(w.S), c, t, w) && c.x == parent && RootOf(t) == node
      decreases c
    {
      var done;
      done, t' := Level(node, parent, root, cb, c, t, w);
      if done {
        return;
      }
      node := parent;
      c, t := c.up, t';
      ParentNow(root, cb, c, t, w);
      parent := node.parent;
    }
  }
}
