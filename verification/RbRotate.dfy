/// The rotation at the root of a subtree, shared by case 3 of insertion and cases
/// 1 and 4 of erasure: first as stores, then as a change of memory, then as a
/// change of the tree.
module RbRotate {
  import opened RbShape
  import opened RbAugment
  import opened RbLinks

  /// p, with subtrees a and b, hangs on the d side of gp, whose other subtree is
  /// u. The rotation puts p in gp's place in the context c. p takes over gp's
  /// colour rg, gp gets the colour red, and b moves from p to gp.
  datatype Rot = Rot(c: Ctx, d: Side, a: Tree, p: RbNode, rp: bool, b: Tree, gp: RbNode, rg: bool, u: Tree, red: bool) {
    ghost function From(): Tree { Mk(d, Mk(d, a, p, rp, b), gp, rg, u) }

    ghost function To(): Tree { Mk(d, a, p, rg, Mk(d, b, gp, red, u)) }

    ghost predicate Ordered(pos: Pos) { OrdParts(pos, c, d, a, p, b, gp, u) }
  }

  /// The state in which the rotation starts. The link between gp and p is not
  /// asked for: after a rotation one level down it is out of date.
  ghost predicate Half(m: Mem, rn: RbNode?, r: Rot, pos: Pos) {
    r.Ordered(pos) && r.p in m && r.gp in m &&
    Rep(m, r.a, m[r.p].Kid(r.d), r.p) && Rep(m, r.b, m[r.p].Kid(r.d.Flip()), r.p) && Rep(m, r.u, m[r.gp].Kid(r.d.Flip()), r.gp) &&
    m[r.gp].parent == CNode(r.c) && m[r.gp].red == r.rg && CRep(m, r.c, rn, r.gp)
  }

  /// The ranking fits memory, and only gp may still point to p, which ranks lower.
  ghost predicate Ready(m: Mem, S: set<RbNode>, rk: Rank, p: RbNode, gp: RbNode) {
    m.Keys == S && rk.Keys == S && {p, gp} <= S && RankedMem(m, S, rk) && rk[p] < rk[gp] &&
    forall y | y in m && (m[y].left == p || m[y].right == p) :: y == gp
  }

  lemma RepRoot(m: Mem, t: Tree, p: RbNode?, up: RbNode?)
    requires Rep(m, t, p, up)
    ensures RootOf(t) == p && (p != null ==> p in m && m[p].parent == up && m[p].red == t.red)
  {
  }

  /// One level up, with the augmented data.
  lemma Up(m: Mem, rn: RbNode?, cb: Callbacks, am: Augs, c: Ctx, t: Tree, w: World)
    requires c.In?
    ensures var t' := Mk(c.d, t, c.x, c.red, c.sib);
            (At(m, rn, c, t, w) && AugAll(cb, am, c, t)) <==> (At(m, rn, c.up, t', w) && AugAll(cb, am, c.up, t'))
  {
    AtUp(m, rn, c, t, w);
    if cb.Max? {
      AugHole(am, cb.compute, c.up, c.d, t, c.x, c.red, c.sib);
    }
  }

  lemma AtIsHalf(m: Mem, rn: RbNode?, r: Rot, w: World)
    requires At(m, rn, r.c, r.From(), w)
    ensures Half(m, rn, r, w.pos) && m[r.gp].Kid(r.d) == r.p && m[r.p].parent == r.gp && m[r.p].red == r.rp
  {
    RepMk(m, r.d, Mk(r.d, r.a, r.p, r.rp, r.b), r.gp, r.rg, r.u, CNode(r.c));
    RepMk(m, r.d, r.a, r.p, r.rp, r.b, r.gp);
    OrdBefore(w.pos, r.c, r.d, r.a, r.p, r.rp, r.b, r.gp, r.rg, r.u);
  }

  // ---------------------------------------------------------------- stores

  /// keep tells whether the moved child keeps its colour (case 4 of erasure) or
  /// is painted black (the other cases, where it is black already).
  method MoveChild(tmp: RbNode?, gp: RbNode, keep: bool)
    requires tmp != null ==> keep || !tmp.red
    modifies Opt(tmp)`parent, Opt(tmp)`red
    ensures tmp != null ==> CellOf(tmp) == old(CellOf(tmp)).(parent := gp)
  {
    if tmp != null {
      if keep {
        SetParent(tmp, gp);
      } else {
        SetParentColor(tmp, gp, false);
      }
    }
  }

  /// The two child stores and the moved child's new parent.
  method TurnChild(d: Side, gp: RbNode, p: RbNode, tmp: RbNode?, keep: bool, ghost up: RbNode?, ghost S: set<RbNode>, ghost rk: Rank) returns (ghost rk': Rank)
    requires {gp, p} <= S && gp != p && gp.Kid(d.Flip()) != p && tmp == p.Kid(d.Flip())
    requires tmp != null ==> tmp in S && tmp != gp && tmp != p && (keep || !tmp.red)
    requires Ranked(S, rk) && rk[p] < rk[gp] && (up != null ==> up in S && up != p && rk[gp] < rk[up])
    requires forall y | y in S && (y.left == p || y.right == p) :: y == gp
    modifies {gp, p}`left, {gp, p}`right, Opt(tmp)`parent, Opt(tmp)`red
    ensures CellOf(gp) == old(CellOf(gp)).SetKid(d, tmp)
    ensures CellOf(p) == old(CellOf(p)).SetKid(d.Flip(), gp)
    ensures tmp != null ==> CellOf(tmp) == old(CellOf(tmp)).(parent := gp)
    ensures Ranked(S, rk') && (up != null ==> Below(rk', p, up))
  {
    assert Below(rk, p.left, p) && Below(rk, p.right, p);
    rk' := TurnStores(gp, p, d, tmp, up, S, rk);
    MoveChild(tmp, gp, keep);
  }

  method RotateStores(d: Side, gp: RbNode, p: RbNode, tmp: RbNode?, root: RbRoot, red: bool, keep: bool,
    ghost dd: Side, ghost S: set<RbNode>, ghost rk: Rank) returns (ghost rk': Rank)
    requires {gp, p} <= S && gp != p && gp.Kid(d.Flip()) != p && tmp == p.Kid(d.Flip())
    requires tmp != null ==> tmp in S && tmp != gp && tmp != p && tmp != gp.parent && (keep || !tmp.red)
    requires gp.parent != null ==>
               gp.parent in S && gp.parent != p && gp.parent != gp && gp.parent.Kid(dd) == gp && gp.parent.Kid(dd.Flip()) != gp
    requires Ranked(S, rk) && rk[p] < rk[gp]
    requires forall y | y in S && (y.left == p || y.right == p) :: y == gp
    modifies {gp, p}`left, {gp, p}`right, {gp, p}`parent, {gp, p}`red
    modifies Opt(tmp)`parent, Opt(tmp)`red, Opt(gp.parent)`left, Opt(gp.parent)`right, root
    ensures CellOf(gp) == old(CellOf(gp)).SetKid(d, tmp).(parent := p, red := red)
    ensures CellOf(p) == old(CellOf(p)).SetKid(d.Flip(), gp).(parent := old(gp.parent), red := old(gp.red))
    ensures tmp != null ==> CellOf(tmp) == old(CellOf(tmp)).(parent := gp)
    ensures p.parent != null ==> CellOf(p.parent) == old(CellOf(gp.parent)).SetKid(dd, p) && root.node == old(root.node)
    ensures p.parent == null ==> root.node == p
    ensures Ranked(S, rk')
  {
    assert gp.parent != null ==> Below(rk, gp.parent.left, gp.parent) && Below(rk, gp.parent.right, gp.parent);
    rk' := TurnChild(d, gp, p, tmp, keep, gp.parent, S, rk);
    RotateSetParents(gp, p, root, red, dd, S, rk');
  }

  /// What Ready says about the fields.
  lemma ReadyFields(p: RbNode, gp: RbNode, S: set<RbNode>, rk: Rank)
    requires Ready(Snap(S), S, rk, p, gp)
    ensures Ranked(S, rk) && rk[p] < rk[gp]
    ensures forall y | y in S && (y.left == p || y.right == p) :: y == gp
  {
    var m := Snap(S);
    forall y | y in S
      ensures Below(rk, y.left, y) && Below(rk, y.right, y) && (y.left == p || y.right == p ==> y == gp)
    {
      assert m[y] == CellOf(y);
      assert Below(rk, m[y].left, y) && Below(rk, m[y].right, y);
    }
  }

  /// The same as a change of memory.
  method RotateCells(d: Side, gp: RbNode, p: RbNode, tmp: RbNode?, root: RbRoot, red: bool, keep: bool,
    ghost cx: RbNode?, ghost dd: Side, ghost S: set<RbNode>, ghost rk: Rank)
    requires {gp, p} <= S && gp != p && tmp != gp && tmp != p && cx != p && cx != gp && (tmp != null ==> tmp in S && tmp != cx)
    requires var m := Snap(S);
             m[gp].Kid(d.Flip()) != p && m[p].Kid(d.Flip()) == tmp && m[gp].parent == cx &&
             (tmp != null ==> keep || !m[tmp].red) &&
             (cx != null ==> cx in S && m[cx].Kid(dd) == gp && m[cx].Kid(dd.Flip()) != gp)
    requires Ready(Snap(S), S, rk, p, gp)
    modifies S`left, S`right, S`parent, S`red, root
    ensures var m, m' := old(Snap(S)), Snap(S);
            m'[gp] == m[gp].SetKid(d, tmp).(parent := p, red := red) &&
            m'[p] == m[p].SetKid(d.Flip(), gp).(parent := cx, red := m[gp].red) &&
            (tmp != null ==> m'[tmp] == m[tmp].(parent := gp)) &&
            (if cx == null then root.node == p else root.node == old(root.node) && m'[cx] == m[cx].SetKid(dd, p)) &&
            AgreeBut(m, m', {p, gp} + Opt(tmp) + Opt(cx))
  {
    hide Ready, Ranked;
    ghost var m := Snap(S);
    ReadyFields(p, gp, S, rk);
    ghost var _ := RotateStores(d, gp, p, tmp, root, red, keep, dd, S, rk);
    assert forall x | x in S && x !in {p, gp} + Opt(tmp) + Opt(cx) :: CellOf(x) == old(CellOf(x));
  }

  /// The same, with the augmented data left alone.
  method RotateMem(d: Side, gp: RbNode, p: RbNode, tmp: RbNode?, root: RbRoot, red: bool, keep: bool,
    ghost cx: RbNode?, ghost dd: Side, ghost S: set<RbNode>, ghost rk: Rank)
    requires {gp, p} <= S && gp != p && tmp != gp && tmp != p && cx != p && cx != gp && (tmp != null ==> tmp in S && tmp != cx)
    requires var m := Snap(S);
             m[gp].Kid(d.Flip()) != p && m[p].Kid(d.Flip()) == tmp && m[gp].parent == cx &&
             (tmp != null ==> keep || !m[tmp].red) &&
             (cx != null ==> cx in S && m[cx].Kid(dd) == gp && m[cx].Kid(dd.Flip()) != gp)
    requires Ready(Snap(S), S, rk, p, gp)
    modifies S`left, S`right, S`parent, S`red, root
    ensures var m, m' := old(Snap(S)), Snap(S);
            m'[gp] == m[gp].SetKid(d, tmp).(parent := p, red := red) &&
            m'[p] == m[p].SetKid(d.Flip(), gp).(parent := cx, red := m[gp].red) &&
            (tmp != null ==> m'[tmp] == m[tmp].(parent := gp)) &&
            (if cx == null then root.node == p else root.node == old(root.node) && m'[cx] == m[cx].SetKid(dd, p)) &&
            AgreeBut(m, m', {p, gp} + Opt(tmp) + Opt(cx))
    ensures AugSnap(S) == old(AugSnap(S))
  {
    hide AgreeBut, Ready, AugSnap, Snap;
    RotateCells(d, gp, p, tmp, root, red, keep, cx, dd, S, rk);
    AugKept(S);
  }

  // ---------------------------------------------------------------- the tree

  lemma RotateOrder(r: Rot)
    ensures Inorder(Plug(r.c, r.To())) == Inorder(Plug(r.c, r.From()))
  {
    InorderTurn(r.d, r.a, r.p, r.b, r.gp, r.u, r.rp, r.rg, r.rg, r.red);
    InorderRefill(r.c, r.From(), r.To());
  }

  /// Subtrees and context are where the rotation wants them.
  lemma RotateParts(m: Mem, m': Mem, rn: RbNode?, rn': RbNode?, r: Rot, pos: Pos)
    requires Half(m, rn, r, pos)
    requires r.b.N? ==> r.b.x in m && r.b.x in m' && m'[r.b.x] == m[r.b.x].(parent := r.gp)
    requires Hung(m, m', r.c, rn, rn', r.p)
    requires AgreeBut(m, m', {r.p, r.gp} + Opt(RootOf(r.b)) + Opt(CNode(r.c)))
    ensures Rep(m', r.a, m[r.p].Kid(r.d), r.p) && Rep(m', r.u, m[r.gp].Kid(r.d.Flip()), r.gp) && Rep(m', r.b, m[r.p].Kid(r.d.Flip()), r.gp)
    ensures CRep(m', r.c, rn', r.p)
  {
    var pa, pb, pu := m[r.p].Kid(r.d), m[r.p].Kid(r.d.Flip()), m[r.gp].Kid(r.d.Flip());
    OrdTouched(pos, r.c, r.d, r.a, r.p, r.b, r.gp, r.u);
    RepRoot(m, r.b, pb, r.p);
    TurnParts(m, m', pos, r.c, r.d, r.a, r.p, r.b, r.gp, r.u, pa, pb, pu, IsRed(r.b));
    assert Paint(r.b, IsRed(r.b)) == r.b;
    CRepHang(m, m', pos, r.c, rn, rn', r.gp, r.p, {r.p, r.gp} + Opt(RootOf(r.b)));
  }

  lemma RotateRep(m: Mem, m': Mem, rn: RbNode?, rn': RbNode?, r: Rot, w: World)
    requires Half(m, rn, r, w.pos) && Inorder(Plug(r.c, r.From())) == w.ord
    requires r.p in m' && r.gp in m'
    requires m'[r.gp] == m[r.gp].SetKid(r.d, m[r.p].Kid(r.d.Flip())).(parent := r.p, red := r.red)
    requires m'[r.p] == m[r.p].SetKid(r.d.Flip(), r.gp).(parent := CNode(r.c), red := r.rg)
    requires r.b.N? ==> r.b.x in m && r.b.x in m' && m'[r.b.x] == m[r.b.x].(parent := r.gp)
    requires Hung(m, m', r.c, rn, rn', r.p)
    requires AgreeBut(m, m', {r.p, r.gp} + Opt(RootOf(r.b)) + Opt(CNode(r.c)))
    ensures At(m', rn', r.c, r.To(), w)
  {
    RotateParts(m, m', rn, rn', r, w.pos);
    RepMk(m', r.d, r.b, r.gp, r.red, r.u, r.p);
    RepMk(m', r.d, r.a, r.p, r.rg, Mk(r.d, r.b, r.gp, r.red, r.u), CNode(r.c));
    OrdAfter(w.pos, r.c, r.d, r.a, r.p, r.rg, r.b, r.gp, r.red, r.u);
    RotateOrder(r);
  }

  lemma HalfOpen(m: Mem, rn: RbNode?, r: Rot, pos: Pos)
    requires Half(m, rn, r, pos)
    ensures r.gp != r.p && m[r.p].Kid(r.d.Flip()) == RootOf(r.b) && m[r.gp].Kid(r.d.Flip()) == RootOf(r.u) && RootOf(r.u) != r.p
    ensures RootOf(r.b) != r.gp && RootOf(r.b) != r.p && CNode(r.c) != r.p && CNode(r.c) != r.gp
    ensures r.b.N? ==> RootOf(r.b) != CNode(r.c) && r.b.x in m && m[r.b.x].red == r.b.red
    ensures r.c.In? ==> r.c.x in m && m[r.c.x].Kid(r.c.d) == r.gp && m[r.c.x].Kid(r.c.d.Flip()) != r.gp
    ensures r.c.Top? ==> rn == r.gp
  {
    OrdRim(pos, r.c, r.d, r.a, r.p, r.b, r.gp, r.u);
    RepRoot(m, r.b, m[r.p].Kid(r.d.Flip()), r.p);
    RepRoot(m, r.u, m[r.gp].Kid(r.d.Flip()), r.gp);
    if r.c.In? {
      RepRoot(m, r.c.sib, m[r.c.x].Kid(r.c.d.Flip()), r.c.x);
    }
  }

  method RotateLink(d: Side, gp: RbNode, p: RbNode, tmp: RbNode?, root: RbRoot, red: bool, keep: bool, ghost r: Rot, ghost w: World, ghost rk: Rank)
    requires r.d == d && r.gp == gp && r.p == p && r.red == red
    requires Half(Snap(w.S), root.node, r, w.pos) && tmp == p.Kid(d.Flip()) && (keep || !IsRed(r.b))
    requires Inorder(Plug(r.c, r.From())) == w.ord
    requires Ready(Snap(w.S), w.S, rk, p, gp)
    modifies w.S`left, w.S`right, w.S`parent, w.S`red, root
    ensures At(Snap(w.S), root.node, r.c, r.To(), w)
    ensures AugSnap(w.S) == old(AugSnap(w.S))
  {
    ghost var m, rn := Snap(w.S), root.node;
    HalfOpen(m, rn, r, w.pos);
    RotateMem(d, gp, p, tmp, root, red, keep, CNode(r.c), CSide(r.c), w.S, rk);
    RotateRep(m, Snap(w.S), rn, root.node, r, w);
  }

  // ---------------------------------------------------------------- with the augmented data

  method RotateAll(d: Side, gp: RbNode, p: RbNode, tmp: RbNode?, root: RbRoot, red: bool, keep: bool, cb: Callbacks, ghost r: Rot, ghost w: World, ghost rk: Rank)
    requires r.d == d && r.gp == gp && r.p == p && r.red == red
    requires Half(Snap(w.S), root.node, r, w.pos) && tmp == p.Kid(d.Flip()) && (keep || !IsRed(r.b))
    requires Inorder(Plug(r.c, r.From())) == w.ord
    requires Ready(Snap(w.S), w.S, rk, p, gp)
    requires AugAll(cb, AugSnap(w.S), r.c, r.From())
    modifies w.S, root
    ensures At(Snap(w.S), root.node, r.c, r.To(), w)
    ensures AugAll(cb, AugSnap(w.S), r.c, r.To())
  {
    RotateLink(d, gp, p, tmp, root, red, keep, r, w, rk);
    RotateData(gp, p, root, cb, r, w);
  }

  /// augment_rotate(gp, p) after the stores.
  method RotateData(gp: RbNode, p: RbNode, ghost root: RbRoot, cb: Callbacks, ghost r: Rot, ghost w: World)
    requires r.gp == gp && r.p == p && {p, gp} <= w.S
    requires At(Snap(w.S), root.node, r.c, r.To(), w)
    requires AugAll(cb, AugSnap(w.S), r.c, r.From())
    modifies {p, gp}`aug
    ensures Snap(w.S) == old(Snap(w.S))
    ensures AugAll(cb, AugSnap(w.S), r.c, r.To())
  {
    ghost var m := Snap(w.S);
    RepMk(m, r.d, r.a, p, r.rg, Mk(r.d, r.b, gp, r.red, r.u), CNode(r.c));
    RepMk(m, r.d, r.b, gp, r.red, r.u, p);
    RepRoot(m, r.b, m[gp].Kid(r.d), gp);
    RepRoot(m, r.u, m[gp].Kid(r.d.Flip()), gp);
    OrdAfter(w.pos, r.c, r.d, r.a, p, r.rg, r.b, gp, r.red, r.u);
    OrdRim(w.pos, r.c, r.d, r.a, p, r.b, gp, r.u);
    RotateAt(gp, p, cb, w.pos, r.c, r.d, r.a, r.b, r.u, r.rp, r.rg, r.rg, r.red, w.S);
  }

  /// The rotation of a child of a subtree's root, when all links are up to date.
  method RotateChild(d: Side, gp: RbNode, p: RbNode, root: RbRoot, red: bool, keep: bool, cb: Callbacks, ghost r: Rot, ghost w: World)
    requires r.d == d && r.gp == gp && r.p == p && r.red == red && (keep || !IsRed(r.b))
    requires WorldOk(w) && At(Snap(w.S), root.node, r.c, r.From(), w)
    requires AugAll(cb, AugSnap(w.S), r.c, r.From())
    modifies w.S, root
    ensures At(Snap(w.S), root.node, r.c, r.To(), w)
    ensures AugAll(cb, AugSnap(w.S), r.c, r.To())
  {
    ghost var m := Snap(w.S);
    ghost var rk := AtLinked(m, root.node, r.c, r.From(), w);
    AtIsHalf(m, root.node, r, w);
    assert Below(rk, m[gp].left, gp) && Below(rk, m[gp].right, gp);
    assert m[p].Kid(d.Flip()) == p.Kid(d.Flip());
    RotateAll(d, gp, p, p.Kid(d.Flip()), root, red, keep, cb, r, w, rk);
  }

  // ---------------------------------------------------------------- the first of two rotations

  /// n, with subtrees x and y, hangs on the d side of q, whose other subtree is
  /// v, and q hangs on the dg side of g, whose other subtree is u. n goes up over
  /// q; n's parent pointer is left for the second rotation, which puts n over g.
  datatype Low = Low(c: Ctx, dg: Side, d: Side, x: Tree, n: RbNode, rn: bool, y: Tree, q: RbNode, rq: bool, v: Tree, g: RbNode, rg: bool, u: Tree, redq: bool) {
    ghost function Hole(): Ctx { In(c, dg, g, rg, u) }

    ghost function From(): Tree { Mk(d, Mk(d, x, n, rn, y), q, rq, v) }

    ghost function To(): Tree { Mk(d, x, n, rn, Mk(d, y, q, redq, v)) }

    /// The rotation that follows, which paints g with the colour red.
    ghost function Next(red: bool): Rot { Rot(c, dg, Mk(d, y, q, redq, v), n, rn, x, g, rg, u, red) }

    ghost predicate Ordered(pos: Pos) { OrdParts(pos, Hole(), d, x, n, y, q, v) }
  }

  lemma LowNext(l: Low, red: bool, pos: Pos)
    requires l.Ordered(pos) && l.d == l.dg.Flip()
    ensures l.Next(red).Ordered(pos)
    ensures l.Next(red).From() == Mk(l.dg, l.To(), l.g, l.rg, l.u)
    ensures Inorder(Plug(l.c, l.Next(red).From())) == Inorder(Plug(l.Hole(), l.From()))
  {
    OrdAfter(pos, l.Hole(), l.d, l.x, l.n, l.rn, l.y, l.q, l.redq, l.v);
    OrdMk(pos, l.c, l.dg, l.To(), l.g, l.rg, l.u);
    OrdBefore(pos, l.c, l.dg, Mk(l.d, l.y, l.q, l.redq, l.v), l.n, l.rn, l.x, l.g, l.rg, l.u);
    InorderTurn(l.d, l.x, l.n, l.y, l.q, l.v, l.rn, l.rq, l.rn, l.redq);
    InorderRefill(l.Hole(), l.From(), l.To());
  }

  /// The child stores. hang tells whether g's child pointer is moved on to n at
  /// once (case 3 of erasure) or left for the second rotation (case 2 of insertion).
  method LowTurn(d: Side, q: RbNode, n: RbNode, tmp: RbNode?, g: RbNode, dg: Side, hang: bool, ghost S: set<RbNode>, ghost rk: Rank) returns (ghost rk': Rank)
    requires {g, q, n} <= S && q != n && g != q && g != n && q.Kid(d) == n && q.Kid(d.Flip()) != n && tmp == n.Kid(d.Flip()) && tmp != n
    requires Ranked(S, rk) && rk[n] < rk[q] < rk[g] && Below(rk, tmp, q)
    requires forall y | y in S && (y.left == n || y.right == n) :: y == q
    modifies {q, n, g}`left, {q, n, g}`right
    ensures CellOf(q) == old(CellOf(q)).SetKid(d, tmp)
    ensures CellOf(n) == old(CellOf(n)).SetKid(d.Flip(), q)
    ensures CellOf(g) == if hang then old(CellOf(g)).SetKid(dg, n) else old(CellOf(g))
    ensures Ranked(S, rk') && rk'[n] < rk'[g]
    ensures forall y | y in S && (y.left == n || y.right == n) :: y == g
  {
    rk' := TurnStores(q, n, d, tmp, g, S, rk);
    if hang {
      WriteOnce(g, dg, n, S, rk');
    }
  }

  /// The child stores, then the parent and colour stores.
  method LowStores(d: Side, q: RbNode, n: RbNode, g: RbNode, dg: Side, hang: bool, redq: bool, ghost S: set<RbNode>, ghost rk: Rank) returns (ghost rk': Rank)
    requires {g, q, n} <= S && q != n && g != q && g != n && q.Kid(d) == n && q.Kid(d.Flip()) != n
    requires n.Kid(d.Flip()) != null ==> n.Kid(d.Flip()) in S && n.Kid(d.Flip()) != q && n.Kid(d.Flip()) != n && n.Kid(d.Flip()) != g
    requires Ranked(S, rk) && rk[n] < rk[q] < rk[g] && Below(rk, n.Kid(d.Flip()), q)
    requires forall y | y in S && (y.left == n || y.right == n) :: y == q
    modifies {q, n, g}`left, {q, n, g}`right, q`parent, q`red, Opt(n.Kid(d.Flip()))`parent, Opt(n.Kid(d.Flip()))`red
    ensures CellOf(q) == old(CellOf(q)).SetKid(d, old(n.Kid(d.Flip()))).(parent := n, red := redq)
    ensures CellOf(n) == old(CellOf(n)).SetKid(d.Flip(), q)
    ensures CellOf(g) == if hang then old(CellOf(g)).SetKid(dg, n) else old(CellOf(g))
    ensures old(n.Kid(d.Flip())) != null ==> CellOf(old(n.Kid(d.Flip()))) == old(CellOf(n.Kid(d.Flip()))).(parent := q, red := false)
    ensures Ranked(S, rk') && rk'[n] < rk'[g]
    ensures forall y | y in S && (y.left == n || y.right == n) :: y == g
  {
    var tmp := n.Kid(d.Flip());
    rk' := LowTurn(d, q, n, tmp, g, dg, hang, S, rk);
    if tmp != null {
      SetParentColor(tmp, q, false);
    }
    SetParentColor(q, n, redq);
  }

  lemma LowFields(q: RbNode, n: RbNode, g: RbNode, S: set<RbNode>, rk: Rank)
    requires {q, n, g} <= S && rk.Keys == S && RankedMem(Snap(S), S, rk) && OneParent(Snap(S), S)
    requires q.left == n || q.right == n
    requires g.left == q || g.right == q
    ensures Ranked(S, rk) && rk[n] < rk[q] < rk[g]
    ensures forall d: Side :: n.Kid(d) != null ==> n.Kid(d) in S && rk[n.Kid(d)] < rk[n]
    ensures n.parent == q ==> forall y | y in S && (y.left == n || y.right == n) :: y == q
  {
    var m := Snap(S);
    forall y | y in S
      ensures Below(rk, y.left, y) && Below(rk, y.right, y) && (y.left == n || y.right == n ==> n.parent == y)
    {
      assert m[y] == CellOf(y);
      assert Below(rk, m[y].left, y) && Below(rk, m[y].right, y);
    }
  }

  /// The same as a change of memory.
  method LowCells(d: Side, q: RbNode, n: RbNode, g: RbNode, dg: Side, hang: bool, redq: bool, ghost S: set<RbNode>, ghost rk: Rank, ghost y: RbNode?) returns (ghost rk': Rank)
    requires {g, q, n} <= S && q != n && g != q && g != n && y != q && y != n && y != g && (y != null ==> y in S)
    requires var m := Snap(S);
             m[q].Kid(d) == n && m[q].Kid(d.Flip()) != n && m[n].parent == q && m[n].Kid(d.Flip()) == y && m[q].parent == g && m[g].Kid(dg) == q &&
             OneParent(m, S) && RankedMem(m, S, rk) && rk.Keys == S
    modifies S`left, S`right, S`parent, S`red
    ensures var m, m' := old(Snap(S)), Snap(S);
            m'[q] == m[q].SetKid(d, y).(parent := n, red := redq) &&
            m'[n] == m[n].SetKid(d.Flip(), q) &&
            m'[g] == (if hang then m[g].SetKid(dg, n) else m[g]) &&
            (y != null ==> m'[y] == m[y].(parent := q, red := false)) &&
            AgreeBut(m, m', {n, q, g} + Opt(y)) && Ready(m', S, rk', n, g)
  {
    LowFields(q, n, g, S, rk);
    rk' := LowStores(d, q, n, g, dg, hang, redq, S, rk);
    assert forall x | x in S && x !in {n, q, g} + Opt(y) :: CellOf(x) == old(CellOf(x));
  }

  /// The same, with the augmented data left alone.
  method LowMem(d: Side, q: RbNode, n: RbNode, g: RbNode, dg: Side, hang: bool, redq: bool, ghost S: set<RbNode>, ghost rk: Rank, ghost y: RbNode?) returns (ghost rk': Rank)
    requires {g, q, n} <= S && q != n && g != q && g != n && y != q && y != n && y != g && (y != null ==> y in S)
    requires var m := Snap(S);
             m[q].Kid(d) == n && m[q].Kid(d.Flip()) != n && m[n].parent == q && m[n].Kid(d.Flip()) == y && m[q].parent == g && m[g].Kid(dg) == q &&
             OneParent(m, S) && RankedMem(m, S, rk) && rk.Keys == S
    modifies S`left, S`right, S`parent, S`red
    ensures var m, m' := old(Snap(S)), Snap(S);
            m'[q] == m[q].SetKid(d, y).(parent := n, red := redq) &&
            m'[n] == m[n].SetKid(d.Flip(), q) &&
            m'[g] == (if hang then m[g].SetKid(dg, n) else m[g]) &&
            (y != null ==> m'[y] == m[y].(parent := q, red := false)) &&
            AgreeBut(m, m', {n, q, g} + Opt(y)) && Ready(m', S, rk', n, g)
    ensures AugSnap(S) == old(AugSnap(S))
  {
    hide AgreeBut, Ready, OneParent, RankedMem, AugSnap, Snap;
    rk' := LowCells(d, q, n, g, dg, hang, redq, S, rk, y);
    AugKept(S);
  }

  /// Memory before the first rotation.
  lemma LowOpen(m: Mem, rn: RbNode?, l: Low, w: World)
    requires At(m, rn, l.Hole(), l.From(), w)
    ensures l.Ordered(w.pos) && {l.q, l.n, l.g} <= m.Keys
    ensures m[l.q].Kid(l.d) == l.n && m[l.n].parent == l.q && m[l.q].parent == l.g && m[l.g].Kid(l.dg) == l.q
    ensures Rep(m, l.x, m[l.n].Kid(l.d), l.n) && Rep(m, l.y, m[l.n].Kid(l.d.Flip()), l.n) && Rep(m, l.v, m[l.q].Kid(l.d.Flip()), l.q)
    ensures CRep(m, l.Hole(), rn, l.q)
  {
    RepMk(m, l.d, Mk(l.d, l.x, l.n, l.rn, l.y), l.q, l.rq, l.v, l.g);
    RepMk(m, l.d, l.x, l.n, l.rn, l.y, l.q);
    OrdBefore(w.pos, l.Hole(), l.d, l.x, l.n, l.rn, l.y, l.q, l.rq, l.v);
  }

  lemma LowDistinct(m: Mem, l: Low, pos: Pos)
    requires l.Ordered(pos) && {l.q, l.n} <= m.Keys
    requires Rep(m, l.y, m[l.n].Kid(l.d.Flip()), l.n) && Rep(m, l.v, m[l.q].Kid(l.d.Flip()), l.q)
    ensures l.q != l.n && l.g != l.q && l.g != l.n && RootOf(l.y) != l.q && RootOf(l.y) != l.n && RootOf(l.y) != l.g
    ensures m[l.n].Kid(l.d.Flip()) == RootOf(l.y) && m[l.q].Kid(l.d.Flip()) != l.n && (l.y.N? ==> l.y.x in m && m[l.y.x].red == l.y.red)
  {
    OrdRim(pos, l.Hole(), l.d, l.x, l.n, l.y, l.q, l.v);
    RepRoot(m, l.y, m[l.n].Kid(l.d.Flip()), l.n);
    RepRoot(m, l.v, m[l.q].Kid(l.d.Flip()), l.q);
  }

  lemma LowParts(m: Mem, m': Mem, rn: RbNode?, l: Low, hang: bool, w: World)
    requires At(m, rn, l.Hole(), l.From(), w) && {l.q, l.n, l.g} <= m.Keys && l.g in m'
    requires m'[l.g] == if hang then m[l.g].SetKid(l.dg, l.n) else m[l.g]
    requires l.y.N? ==> l.y.x in m && l.y.x in m' && m'[l.y.x] == m[l.y.x].(parent := l.q, red := false)
    requires AgreeBut(m, m', {l.n, l.q, l.g} + Opt(RootOf(l.y)))
    ensures Rep(m', l.x, m[l.n].Kid(l.d), l.n) && Rep(m', Paint(l.y, false), m[l.n].Kid(l.d.Flip()), l.q) && Rep(m', l.v, m[l.q].Kid(l.d.Flip()), l.q)
    ensures CRep(m', l.Hole(), rn, if hang then l.n else l.q)
  {
    LowOpen(m, rn, l, w);
    var D := {l.n, l.q} + Opt(RootOf(l.y));
    OrdTouched(w.pos, l.Hole(), l.d, l.x, l.n, l.y, l.q, l.v);
    TurnParts(m, m', w.pos, l.Hole(), l.d, l.x, l.n, l.y, l.q, l.v, m[l.n].Kid(l.d), m[l.n].Kid(l.d.Flip()), m[l.q].Kid(l.d.Flip()), false);
    if hang {
      CRepHang(m, m', w.pos, l.Hole(), rn, rn, l.q, l.n, D);
    } else {
      CRepFrame(m, m', w.pos, l.Hole(), rn, l.q, D);
    }
  }

  lemma LowRep(m: Mem, m': Mem, rn: RbNode?, l: Low, hang: bool, red: bool, w: World)
    requires At(m, rn, l.Hole(), l.From(), w) && {l.q, l.n, l.g} <= m.Keys && {l.q, l.n, l.g} <= m'.Keys
    requires !IsRed(l.y) && l.d == l.dg.Flip()
    requires m'[l.q] == m[l.q].SetKid(l.d, m[l.n].Kid(l.d.Flip())).(parent := l.n, red := l.redq)
    requires m'[l.n] == m[l.n].SetKid(l.d.Flip(), l.q)
    requires m'[l.g] == if hang then m[l.g].SetKid(l.dg, l.n) else m[l.g]
    requires l.y.N? ==> l.y.x in m && l.y.x in m' && m'[l.y.x] == m[l.y.x].(parent := l.q, red := false)
    requires AgreeBut(m, m', {l.n, l.q, l.g} + Opt(RootOf(l.y)))
    ensures Half(m', rn, l.Next(red), w.pos)
    ensures Rep(m', Mk(l.d, l.y, l.q, l.redq, l.v), l.q, l.n)
  {
    LowOpen(m, rn, l, w);
    LowParts(m, m', rn, l, hang, w);
    LowNext(l, red, w.pos);
    assert Paint(l.y, false) == l.y;
    RepMk(m', l.d, l.y, l.q, l.redq, l.v, l.n);
  }

  method LowLink(d: Side, q: RbNode, n: RbNode, g: RbNode, dg: Side, hang: bool, redq: bool, root: RbRoot, ghost l: Low, ghost red: bool, ghost w: World)
    returns (ghost rk: Rank)
    requires l.d == d && l.q == q && l.n == n && l.g == g && l.dg == dg && l.redq == redq && d == dg.Flip() && !IsRed(l.y)
    requires WorldOk(w) && At(Snap(w.S), root.node, l.Hole(), l.From(), w)
    modifies w.S`left, w.S`right, w.S`parent, w.S`red
    ensures Half(Snap(w.S), root.node, l.Next(red), w.pos)
    ensures Rep(Snap(w.S), Mk(d, l.y, q, redq, l.v), q, n) && {q, n} <= w.S
    ensures Ready(Snap(w.S), w.S, rk, n, g) && AugSnap(w.S) == old(AugSnap(w.S))
  {
    hide Rep, CRep, Ord, OrdParts, Ready, OneParent, RankedMem, AugSnap, AgreeBut, Half, WorldOk;
    ghost var m := Snap(w.S);
    rk := AtLinked(m, root.node, l.Hole(), l.From(), w);
    LowOpen(m, root.node, l, w);
    LowDistinct(m, l, w.pos);
    rk := LowMem(d, q, n, g, dg, hang, redq, w.S, rk, RootOf(l.y));
    LowRep(m, Snap(w.S), root.node, l, hang, red, w);
  }

  /// The first rotation, with the augmented data.
  method LowAll(d: Side, q: RbNode, n: RbNode, g: RbNode, dg: Side, hang: bool, redq: bool, root: RbRoot, cb: Callbacks, ghost l: Low, ghost red: bool, ghost w: World)
    returns (ghost rk: Rank)
    requires l.d == d && l.q == q && l.n == n && l.g == g && l.dg == dg && l.redq == redq && d == dg.Flip() && !IsRed(l.y)
    requires WorldOk(w) && At(Snap(w.S), root.node, l.Hole(), l.From(), w)
    requires AugAll(cb, AugSnap(w.S), l.Hole(), l.From())
    modifies w.S
    ensures Half(Snap(w.S), root.node, l.Next(red), w.pos)
    ensures AugAll(cb, AugSnap(w.S), l.Hole(), l.To())
    ensures Ready(Snap(w.S), w.S, rk, n, g)
  {
    hide Rep, CRep, Ord, OrdParts, Ready, RankedMem, AugSnap, AgreeBut, Half, WorldOk, At, AugAll;
    LowOpen(Snap(w.S), root.node, l, w);
    rk := LowLink(d, q, n, g, dg, hang, redq, root, l, red, w);
    LowData(q, n, cb, l, w);
  }

  /// augment_rotate(q, n) between the two rotations.
  method LowData(q: RbNode, n: RbNode, cb: Callbacks, ghost l: Low, ghost w: World)
    requires l.q == q && l.n == n && l.Ordered(w.pos) && {q, n} <= w.S
    requires Rep(Snap(w.S), Mk(l.d, l.y, q, l.redq, l.v), q, n)
    requires AugAll(cb, AugSnap(w.S), l.Hole(), l.From())
    modifies {q, n}`aug
    ensures Snap(w.S) == old(Snap(w.S))
    ensures AugAll(cb, AugSnap(w.S), l.Hole(), l.To())
  {
    ghost var m := Snap(w.S);
    RepMk(m, l.d, l.y, q, l.redq, l.v, n);
    RepRoot(m, l.y, m[q].Kid(l.d), q);
    RepRoot(m, l.v, m[q].Kid(l.d.Flip()), q);
    OrdRim(w.pos, l.Hole(), l.d, l.x, n, l.y, q, l.v);
    RotateAt(q, n, cb, w.pos, l.Hole(), l.d, l.x, l.y, l.v, l.rn, l.rq, l.rn, l.redq, w.S);
  }

  /// Both rotations: n ends up over q and g.
  method RotateTwice(d: Side, q: RbNode, n: RbNode, g: RbNode, dg: Side, hang: bool, redq: bool, root: RbRoot, red: bool, keep: bool, cb: Callbacks, ghost l: Low, ghost w: World)
    requires l.d == d && l.q == q && l.n == n && l.g == g && l.dg == dg && l.redq == redq && d == dg.Flip() && !IsRed(l.y) && (keep || !IsRed(l.x))
    requires WorldOk(w) && At(Snap(w.S), root.node, l.Hole(), l.From(), w)
    requires AugAll(cb, AugSnap(w.S), l.Hole(), l.From())
    modifies w.S, root
    ensures At(Snap(w.S), root.node, l.c, l.Next(red).To(), w)
    ensures AugAll(cb, AugSnap(w.S), l.c, l.Next(red).To())
  {
    hide Rep, CRep, Ord, OrdHole, OrdParts, AugRep, AugCtx, AugSnap, Half, Ready, WorldOk;
    LowOpen(Snap(w.S), root.node, l, w);
    LowNext(l, red, w.pos);
    ghost var rk := LowAll(d, q, n, g, dg, hang, redq, root, cb, l, red, w);
    if cb.Max? {
      AugHole(AugSnap(w.S), cb.compute, l.c, l.dg, l.To(), g, l.rg, l.u);
    }
    RotateAll(dg, g, n, n.Kid(dg.Flip()), root, red, keep, cb, l.Next(red), w, rk);
  }
}
