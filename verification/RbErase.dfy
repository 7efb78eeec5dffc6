/// Unlinking a node: __rb_erase_augmented, rb_erase_augmented and rb_erase.
module RbErase {
  import opened RbShape
  import opened RbColor
  import opened RbAugment
  import opened RbLinks
  import opened RbRotate
  import opened RbEraseColor

  // ---------------------------------------------------------------- taking out a node with one child

  /// A node x with at most one child, kid, is replaced by that child.
  lemma SpliceRep(m: Mem, m': Mem, rn: RbNode?, rn': RbNode?, c: Ctx, d: Side, kid: Tree, x: RbNode, xred: bool, red: bool, w: World, w': World)
    requires At(m, rn, c, Mk(d, kid, x, xred, E), w)
    requires kid.N? ==> kid.x in m && kid.x in m' && m'[kid.x] == m[kid.x].(parent := CNode(c), red := red)
    requires Hung(m, m', c, rn, rn', RootOf(kid))
    requires AgreeBut(m, m', {x} + Opt(RootOf(kid)) + Opt(CNode(c)))
    requires w'.pos == w.pos && w'.ord == Before(c) + Inorder(kid) + After(c)
    ensures At(m', rn', c, Paint(kid, red), w')
  {
    var pos, lo, hi := w.pos, Lo(w.pos, c), Hi(w.pos, c);
    RepMk(m, d, kid, x, xred, E, CNode(c));
    OrdTree(pos, d, kid, x, xred, E, lo, hi);
    OrdWiden(pos, kid, if d.Left? then lo else pos[x], if d.Left? then pos[x] else hi, lo, hi);
    SpliceTouched(pos, c, d, kid, x);
    RepPaint(m, m', pos, kid, if d.Left? then lo else pos[x], if d.Left? then pos[x] else hi, RootOf(kid), x, CNode(c), red, {x} + Opt(CNode(c)));
    CRepHang(m, m', pos, c, rn, rn', x, RootOf(kid), {x} + Opt(RootOf(kid)));
    InorderPaint(kid, red);
    InorderPlug(c, Paint(kid, red));
  }

  lemma SpliceTouched(pos: Pos, c: Ctx, d: Side, kid: Tree, x: RbNode)
    requires x in pos && Lo(pos, c) < pos[x] < Hi(pos, c) && COrd(pos, c)
    requires Ord(pos, kid, if d.Left? then Lo(pos, c) else pos[x], if d.Left? then pos[x] else Hi(pos, c))
    ensures Outside(pos, {x} + Opt(CNode(c)), if d.Left? then Lo(pos, c) else pos[x], if d.Left? then pos[x] else Hi(pos, c))
    ensures Inside(pos, {x} + Opt(RootOf(kid)), Lo(pos, c), Hi(pos, c))
  {
    assert c.In? ==> pos[c.x] == Lo(pos, c) || pos[c.x] == Hi(pos, c);
  }

  lemma {:induction false} OrdWiden(pos: Pos, t: Tree, lo: int, hi: int, lo': int, hi': int)
    requires Ord(pos, t, lo, hi) && lo' <= lo && hi <= hi'
    ensures Ord(pos, t, lo', hi')
  {
    match t
    case E =>
    case N(l, x, _, r) =>
      OrdWiden(pos, l, lo, pos[x], lo', pos[x]);
      OrdWiden(pos, r, pos[x], hi, pos[x], hi');
  }

  // ---------------------------------------------------------------- putting a node in another's place

  /// s takes over x's links and colour, and all who pointed to x point to s.
  lemma ReplaceRep(m: Mem, m': Mem, rn: RbNode?, rn': RbNode?, c: Ctx, l: Tree, x: RbNode, red: bool, r: Tree, s: RbNode, w: World, w': World)
    requires At(m, rn, c, N(l, x, red, r), w) && x in m
    requires OrdHole(w.pos, c, N(l, s, red, r)) && w.pos[x] <= w.pos[s]
    requires s in m' && m'[s] == m[x]
    requires l.N? ==> l.x in m && l.x in m' && m'[l.x] == m[l.x].(parent := s)
    requires r.N? ==> r.x in m && r.x in m' && m'[r.x] == m[r.x].(parent := s)
    requires Hung(m, m', c, rn, rn', s)
    requires AgreeBut(m, m', {x, s} + Opt(RootOf(l)) + Opt(RootOf(r)) + Opt(CNode(c)))
    requires w'.pos == w.pos && w'.ord == Inorder(Plug(c, N(l, s, red, r)))
    ensures At(m', rn', c, N(l, s, red, r), w')
  {
    var pos, lo, hi := w.pos, Lo(w.pos, c), Hi(w.pos, c);
    ReplaceTouched(pos, c, l, x, r, s);
    ReplaceKids(m, m', pos, c, l, x, r, s, lo, hi);
    CRepHang(m, m', pos, c, rn, rn', x, s, {x, s} + Opt(RootOf(l)) + Opt(RootOf(r)));
  }

  lemma ReplaceKids(m: Mem, m': Mem, pos: Pos, c: Ctx, l: Tree, x: RbNode, r: Tree, s: RbNode, lo: int, hi: int)
    requires x in m && Rep(m, l, m[x].left, x) && Rep(m, r, m[x].right, x) && x in pos && s in pos
    requires Ord(pos, l, lo, pos[x]) && Outside(pos, {x, s} + Opt(RootOf(r)) + Opt(CNode(c)), lo, pos[x])
    requires Ord(pos, r, pos[s], hi) && Outside(pos, {x, s} + Opt(RootOf(l)) + Opt(CNode(c)), pos[s], hi)
    requires l.N? ==> l.x in m && l.x in m' && m'[l.x] == m[l.x].(parent := s)
    requires r.N? ==> r.x in m && r.x in m' && m'[r.x] == m[r.x].(parent := s)
    requires AgreeBut(m, m', {x, s} + Opt(RootOf(l)) + Opt(RootOf(r)) + Opt(CNode(c)))
    ensures Rep(m', l, m[x].left, s) && Rep(m', r, m[x].right, s)
  {
    RepRoot(m, l, m[x].left, x);
    RepRoot(m, r, m[x].right, x);
    RepPaint(m, m', pos, l, lo, pos[x], RootOf(l), x, s, IsRed(l), {x, s} + Opt(RootOf(r)) + Opt(CNode(c)));
    RepPaint(m, m', pos, r, pos[s], hi, RootOf(r), x, s, IsRed(r), {x, s} + Opt(RootOf(l)) + Opt(CNode(c)));
    assert Paint(l, IsRed(l)) == l && Paint(r, IsRed(r)) == r;
  }

  lemma ReplaceTouched(pos: Pos, c: Ctx, l: Tree, x: RbNode, r: Tree, s: RbNode)
    requires COrd(pos, c) && x in pos && s in pos && Lo(pos, c) < pos[x] <= pos[s] < Hi(pos, c)
    requires Ord(pos, l, Lo(pos, c), pos[x]) && Ord(pos, r, pos[s], Hi(pos, c))
    ensures Outside(pos, {x, s} + Opt(RootOf(r)) + Opt(CNode(c)), Lo(pos, c), pos[x])
    ensures Outside(pos, {x, s} + Opt(RootOf(l)) + Opt(CNode(c)), pos[s], Hi(pos, c))
    ensures Inside(pos, {x, s} + Opt(RootOf(l)) + Opt(RootOf(r)), Lo(pos, c), Hi(pos, c))
  {
    assert c.In? ==> pos[c.x] == Lo(pos, c) || pos[c.x] == Hi(pos, c);
  }

  // ---------------------------------------------------------------- colours and order when a node is taken out

  /// What colour rules leave possible for a node with at most one child.
  lemma LeafColors(c: Ctx, d: Side, kid: Tree, x: RbNode, red: bool)
    requires Rb(Plug(c, Mk(d, kid, x, red, E))) && !IsRed(Plug(c, Mk(d, kid, x, red, E)))
    ensures kid.N? ==> !red && Rb(Paint(kid, false)) && CRb(c, Bh(Paint(kid, false)))
    ensures kid.E? ==> CRb(c, if red then 0 else 1)
    ensures red ==> c.In? && !c.red
  {
    RbUnplug(c, Mk(d, kid, x, red, E));
    RbMk(d, kid, x, red, E);
    if kid.N? {
      BlackHeightBounds(kid);
    }
  }

  /// The sequence without its first x.
  ghost function Without(s: seq<RbNode>, x: RbNode): seq<RbNode> {
    if s == [] then [] else if s[0] == x then s[1..] else [s[0]] + Without(s[1..], x)
  }

  lemma {:induction false} WithoutMiddle(a: seq<RbNode>, x: RbNode, b: seq<RbNode>)
    requires x !in a
    ensures Without(a + [x] + b, x) == a + b
    decreases a
  {
    var s := a + [x] + b;
    if a == [] {
      assert s[1..] == b;
      assert a + b == b;
    } else {
      WithoutMiddle(a[1..], x, b);
      assert s[1..] == a[1..] + [x] + b;
      assert [a[0]] + (a[1..] + b) == a + b;
    }
  }

  /// Positions that order the tree tell its nodes apart.
  lemma {:induction false} OrdSpread(pos: Pos, t: Tree, lo: int, hi: int)
    requires Ord(pos, t, lo, hi)
    ensures forall i | 0 <= i < |Inorder(t)| :: Inorder(t)[i] in pos && lo < pos[Inorder(t)[i]] < hi
    ensures forall i, j | 0 <= i < j < |Inorder(t)| :: pos[Inorder(t)[i]] < pos[Inorder(t)[j]]
  {
    match t
    case E =>
    case N(l, x, _, r) =>
      OrdSpread(pos, l, lo, pos[x]);
      OrdSpread(pos, r, pos[x], hi);
  }

  /// The world without x.
  ghost function Less(w: World, x: RbNode): World { World(w.S - {x}, Without(w.ord, x), w.pos) }

  /// x stands between what comes before it and what comes after it.
  lemma LessSplit(w: World, a: seq<RbNode>, x: RbNode, b: seq<RbNode>)
    requires WorldOk(w) && w.ord == a + [x] + b && x !in a && x !in b
    ensures WorldOk(Less(w, x)) && Less(w, x).ord == a + b
  {
    WithoutMiddle(a, x, b);
    forall y | y in w.S - {x}
      ensures y in a + b
    {
      assert y in w.ord;
    }
    forall y | y in a + b
      ensures y in w.S - {x}
    {
      assert y in w.ord;
    }
  }

  lemma OnlyOnce(pos: Pos, t: Tree, a: seq<RbNode>, x: RbNode, b: seq<RbNode>)
    requires Ord(pos, t, -1, |pos|) && Inorder(t) == a + [x] + b
    ensures x !in a && x !in b
  {
    var s := Inorder(t);
    OrdSpread(pos, t, -1, |pos|);
    assert s[|a|] == x;
    forall i | 0 <= i < |a|
      ensures a[i] != x
    {
      assert a[i] == s[i];
    }
    forall i | 0 <= i < |b|
      ensures b[i] != x
    {
      assert b[i] == s[|a| + 1 + i];
    }
  }

  lemma Regroup(a: seq<RbNode>, b: seq<RbNode>, x: RbNode, c: seq<RbNode>, d: seq<RbNode>)
    ensures a + (b + [x] + c) + d == (a + b) + [x] + (c + d)
  {
  }

  lemma AtOrd(m: Mem, rn: RbNode?, c: Ctx, t: Tree, w: World)
    requires At(m, rn, c, t, w)
    ensures Ord(w.pos, Plug(c, t), -1, |w.pos|) && Inorder(Plug(c, t)) == w.ord
    ensures w.ord == Before(c) + Inorder(t) + After(c)
  {
    OrdPlug(w.pos, c, t);
    InorderPlug(c, t);
  }

  lemma LessOk(m: Mem, rn: RbNode?, c: Ctx, l: Tree, x: RbNode, red: bool, r: Tree, w: World)
    requires WorldOk(w) && At(m, rn, c, N(l, x, red, r), w)
    ensures WorldOk(Less(w, x))
    ensures Less(w, x).ord == Before(c) + Inorder(l) + (Inorder(r) + After(c))
  {
    var t := N(l, x, red, r);
    var a, b := Before(c) + Inorder(l), Inorder(r) + After(c);
    AtOrd(m, rn, c, t, w);
    Regroup(Before(c), Inorder(l), x, Inorder(r), After(c));
    OnlyOnce(w.pos, Plug(c, t), a, x, b);
    LessSplit(w, a, x, b);
  }

  // ---------------------------------------------------------------- case 1: at most one child

  method SpliceStores(node: RbNode, kid: RbNode?, kidFirst: bool, root: RbRoot, ghost d: Side, ghost S: set<RbNode>, ghost rk: Rank)
    requires kid != null ==> kid in S && kid != node && kid != node.parent
    requires node.parent != null ==>
               node.parent in S && node.parent != node && node.parent.Kid(d) == node && node.parent.Kid(d.Flip()) != node && Below(rk, kid, node.parent)
    requires Ranked(S, rk)
    modifies root, Opt(kid)`parent, Opt(kid)`red, Opt(node.parent)`left, Opt(node.parent)`right
    ensures kid != null ==> CellOf(kid) == old(CellOf(kid)).(parent := old(node.parent), red := old(node.red))
    ensures node.parent == old(node.parent)
    ensures node.parent != null ==> CellOf(node.parent) == old(CellOf(node.parent)).SetKid(d, kid) && root.node == old(root.node)
    ensures node.parent == null ==> root.node == kid
    ensures Ranked(S, rk)
    ensures CellOf(node) == old(CellOf(node))
  {
    hide Ranked;
    var parent, red := node.parent, node.red;
    if kidFirst && kid != null {
      SetParentColor(kid, parent, red);
    }
    ChangeChild(node, kid, parent, root, d, S, rk);
    if !kidFirst && kid != null {
      SetParentColor(kid, parent, red);
    }
  }

  method SpliceCells(node: RbNode, kid: RbNode?, kidFirst: bool, root: RbRoot, ghost cx: RbNode?, ghost red: bool, ghost d: Side, ghost S: set<RbNode>, ghost rk: Rank)
    requires node in S && kid != node && cx != node && (kid != null ==> kid in S && kid != cx)
    requires var m := Snap(S);
             m[node].parent == cx && m[node].red == red && (m[node].left == kid || m[node].right == kid) &&
             (cx != null ==> cx in S && m[cx].Kid(d) == node && m[cx].Kid(d.Flip()) != node) && RankedMem(m, S, rk) && rk.Keys == S
    modifies S`left, S`right, S`parent, S`red, root
    ensures var m, m' := old(Snap(S)), Snap(S);
            (kid != null ==> m'[kid] == m[kid].(parent := cx, red := red)) &&
            (if cx == null then root.node == kid else root.node == old(root.node) && m'[cx] == m[cx].SetKid(d, kid)) &&
            AgreeBut(m, m', Opt(kid) + Opt(cx))
    ensures CellOf(node) == old(CellOf(node))
  {
    ghost var m := Snap(S);
    assert Below(rk, m[node].left, node) && Below(rk, m[node].right, node);
    assert cx != null ==> Below(rk, m[cx].left, cx) && Below(rk, m[cx].right, cx);
    SpliceStores(node, kid, kidFirst, root, d, S, rk);
  }

  /// The same, with the augmented data left alone.
  method SpliceMem(node: RbNode, kid: RbNode?, kidFirst: bool, root: RbRoot, ghost cx: RbNode?, ghost red: bool, ghost d: Side, ghost S: set<RbNode>, ghost rk: Rank)
    requires node in S && kid != node && cx != node && (kid != null ==> kid in S && kid != cx)
    requires var m := Snap(S);
             m[node].parent == cx && m[node].red == red && (m[node].left == kid || m[node].right == kid) &&
             (cx != null ==> cx in S && m[cx].Kid(d) == node && m[cx].Kid(d.Flip()) != node) && RankedMem(m, S, rk) && rk.Keys == S
    modifies S`left, S`right, S`parent, S`red, root
    ensures var m, m' := old(Snap(S)), Snap(S);
            (kid != null ==> m'[kid] == m[kid].(parent := cx, red := red)) &&
            (if cx == null then root.node == kid else root.node == old(root.node) && m'[cx] == m[cx].SetKid(d, kid)) &&
            AgreeBut(m, m', Opt(kid) + Opt(cx))
    ensures AugSnap(S) == old(AugSnap(S))
    ensures CellOf(node) == old(CellOf(node))
  {
    hide AgreeBut, RankedMem, AugSnap, Snap;
    SpliceCells(node, kid, kidFirst, root, cx, red, d, S, rk);
    AugKept(S);
  }

  lemma SpliceOpen(m: Mem, rn: RbNode?, c: Ctx, d: Side, kid: Tree, x: RbNode, red: bool, pos: Pos)
    requires Rep(m, Mk(d, kid, x, red, E), x, CNode(c)) && CRep(m, c, rn, x) && OrdHole(pos, c, Mk(d, kid, x, red, E))
    ensures x in m && m[x].parent == CNode(c) && m[x].red == red && m[x].Kid(d) == RootOf(kid)
    ensures RootOf(kid) != x && CNode(c) != x && (kid.N? ==> kid.x in m && kid.x != CNode(c))
    ensures c.In? ==> c.x in m && m[c.x].Kid(c.d) == x && m[c.x].Kid(c.d.Flip()) != x
    ensures c.Top? ==> rn == x
  {
    RepMk(m, d, kid, x, red, E, CNode(c));
    RepRoot(m, kid, m[x].Kid(d), x);
    OrdTree(pos, d, kid, x, red, E, Lo(pos, c), Hi(pos, c));
    if c.In? {
      RepRoot(m, c.sib, m[c.x].Kid(c.d.Flip()), c.x);
    }
  }

  /// The stores of case 1 take the node out of the tree.
  method SpliceLink(node: RbNode, kid: RbNode?, kidFirst: bool, root: RbRoot, ghost c: Ctx, ghost d: Side, ghost t: Tree, ghost red: bool, ghost w: World)
    requires WorldOk(w) && At(Snap(w.S), root.node, c, Mk(d, t, node, red, E), w) && kid == RootOf(t)
    modifies w.S`left, w.S`right, w.S`parent, w.S`red, root
    ensures At(Snap(w.S - {node}), root.node, c, Paint(t, red), Less(w, node))
    ensures AugSnap(w.S) == old(AugSnap(w.S))
    ensures CellOf(node) == old(CellOf(node))
  {
    hide Rep, CRep, Ord, OrdHole, WorldOk, RankedMem, OneParent, AugSnap;
    ghost var m, rn := Snap(w.S), root.node;
    ghost var rk := AtLinked(m, rn, c, Mk(d, t, node, red, E), w);
    SpliceOpen(m, rn, c, d, t, node, red, w.pos);
    SpliceMem(node, kid, kidFirst, root, CNode(c), red, CSide(c), w.S, rk);
    SpliceOrder(m, rn, c, d, t, node, red, w);
    SpliceRep(m, Snap(w.S - {node}), rn, root.node, c, d, t, node, red, red, w, Less(w, node));
  }

  lemma SpliceOrder(m: Mem, rn: RbNode?, c: Ctx, d: Side, t: Tree, x: RbNode, red: bool, w: World)
    requires WorldOk(w) && At(m, rn, c, Mk(d, t, x, red, E), w)
    ensures WorldOk(Less(w, x)) && Less(w, x).ord == Before(c) + Inorder(t) + After(c)
  {
    if d.Left? {
      LessOk(m, rn, c, t, x, red, E, w);
    } else {
      LessOk(m, rn, c, E, x, red, t, w);
    }
  }

  /// Without x, its kid's maxima stay right, and those above are right from the second node up.
  lemma SpliceAug(am: Augs, am': Augs, f: RbNode -> int, pos: Pos, c: Ctx, d: Side, t: Tree, x: RbNode, red: bool)
    requires OrdHole(pos, c, Mk(d, t, x, red, E)) && SameAug(am, am', {x})
    requires AugRep(am, f, Mk(d, t, x, red, E)) && AugCtx(am, f, c, MaxOf(f, Mk(d, t, x, red, E)))
    ensures AugRep(am', f, Paint(t, red)) && Stale(am', f, c)
  {
    var lo, hi := Lo(pos, c), Hi(pos, c);
    OrdTree(pos, d, t, x, red, E, lo, hi);
    AugMk(am, f, d, t, x, red, E);
    AugFrame(am, am', f, pos, t, if d.Left? then lo else pos[x], if d.Left? then pos[x] else hi, {x});
    AugPaint(am', f, t, red);
    AugCtxFrame(am, am', f, pos, c, MaxOf(f, Mk(d, t, x, red, E)), {x});
  }

  lemma NeverNull(c: Ctx)
    ensures NotIn(c, null)
  {
  }

  /// Case 1 with the augmented data.
  method EraseOne(node: RbNode, kid: RbNode?, kidFirst: bool, root: RbRoot, cb: Callbacks, ghost c: Ctx, ghost d: Side, ghost t: Tree, ghost red: bool, ghost w: World)
    requires WorldOk(w) && At(Snap(w.S), root.node, c, Mk(d, t, node, red, E), w) && kid == RootOf(t)
    requires AugAll(cb, AugSnap(w.S), c, Mk(d, t, node, red, E))
    modifies w.S, root
    ensures At(Snap(w.S - {node}), root.node, c, Paint(t, red), Less(w, node))
    ensures AugAll(cb, AugSnap(w.S - {node}), c, Paint(t, red))
    ensures CellOf(node) == old(CellOf(node))
  {
    hide Rep, CRep, Ord, OrdHole, WorldOk, AugRep, AugCtx, Stale;
    ghost var am, w' := AugSnap(w.S), Less(w, node);
    SpliceParent(Snap(w.S), root.node, c, d, t, node, red, w);
    var parent := node.parent;
    SpliceLink(node, kid, kidFirst, root, c, d, t, red, w);
    if cb.Max? {
      SpliceAug(am, AugSnap(w'.S), cb.compute, w.pos, c, d, t, node, red);
    }
    CRepIsPath(Snap(w'.S), c, root.node, kid);
    NeverNull(c);
    Propagate(parent, null, cb, w.pos, c, Paint(t, red), w'.S);
  }

  lemma SpliceParent(m: Mem, rn: RbNode?, c: Ctx, d: Side, t: Tree, x: RbNode, red: bool, w: World)
    requires At(m, rn, c, Mk(d, t, x, red, E), w)
    ensures x in m && m[x].parent == CNode(c)
  {
    RepMk(m, d, t, x, red, E, CNode(c));
  }

  // ---------------------------------------------------------------- cases 2 and 3: the successor

  /// The context cs standing in the hole of b.
  ghost function Compose(cs: Ctx, b: Ctx): Ctx {
    match cs
    case Top => b
    case In(up, d, x, red, sib) => In(Compose(up, b), d, x, red, sib)
  }

  lemma {:induction false} PlugCompose(cs: Ctx, b: Ctx, t: Tree)
    ensures Plug(Compose(cs, b), t) == Plug(b, Plug(cs, t))
    decreases cs
  {
    match cs
    case Top =>
    case In(up, d, x, red, sib) => PlugCompose(up, b, Mk(d, t, x, red, sib));
  }

  lemma {:induction false} UpAll(m: Mem, rn: RbNode?, cb: Callbacks, am: Augs, cs: Ctx, b: Ctx, t: Tree, w: World)
    ensures (At(m, rn, Compose(cs, b), t, w) && AugAll(cb, am, Compose(cs, b), t)) <==>
            (At(m, rn, b, Plug(cs, t), w) && AugAll(cb, am, b, Plug(cs, t)))
    decreases cs
  {
    match cs
    case Top =>
    case In(up, d, x, red, sib) =>
      Up(m, rn, cb, am, Compose(cs, b), t, w);
      UpAll(m, rn, cb, am, up, b, Mk(d, t, x, red, sib), w);
  }

  /// A leftmost path.
  ghost predicate Spined(cs: Ctx) { cs.In? ==> cs.d.Left? && Spined(cs.up) }

  /// The node x, with the subtree l on its left, and its successor s at the end
  /// of the leftmost path cs under its right child.
  datatype Succ = Succ(c: Ctx, l: Tree, x: RbNode, red: bool, cs: Ctx, s: RbNode, sred: bool, sr: Tree) {
    /// The context of the right subtree below the node y, and of the leftmost hole in there.
    ghost function Under(y: RbNode): Ctx { In(c, Right, y, red, l) }

    ghost function Deep(y: RbNode): Ctx { Compose(cs, Under(y)) }

    ghost function Leaf(): Tree { N(E, s, sred, sr) }

    ghost function From(): Tree { N(l, x, red, Plug(cs, Leaf())) }

    /// The right subtree without s, whose child is painted black.
    ghost function Rest(): Tree { Plug(cs, Paint(sr, false)) }

    ghost function To(): Tree { N(l, s, red, Rest()) }

    ghost predicate Ordered(pos: Pos) { Spined(cs) && l.N? && OrdHole(pos, Deep(x), Leaf()) }
  }

  lemma {:induction false} LoHi(pos: Pos, c: Ctx)
    requires COrd(pos, c)
    ensures -1 <= Lo(pos, c) < Hi(pos, c) <= |pos|
  {
    if c.In? {
      LoHi(pos, c.up);
    }
  }

  lemma {:induction false} SpineOrd(pos: Pos, cs: Ctx, b: Ctx)
    requires Spined(cs) && COrd(pos, Compose(cs, b))
    ensures COrd(pos, b) && COrd(pos, cs)
    ensures Lo(pos, Compose(cs, b)) == Lo(pos, b) && Hi(pos, Compose(cs, b)) <= Hi(pos, b)
    ensures Lo(pos, cs) == -1 && Hi(pos, Compose(cs, b)) <= Hi(pos, cs)
    ensures cs.In? ==> cs.x in pos && Hi(pos, Compose(cs, b)) == Hi(pos, cs) == pos[cs.x]
  {
    LoHi(pos, Compose(cs, b));
    match cs
    case Top =>
    case In(up, _, x, _, sib) =>
      SpineOrd(pos, up, b);
      OrdWiden(pos, sib, pos[x], Hi(pos, Compose(up, b)), pos[x], Hi(pos, up));
  }

  /// The leftmost path can be hung under s instead of x.
  lemma {:induction false} SpineRebase(pos: Pos, cs: Ctx, c: Ctx, x: RbNode, red: bool, l: Tree, s: RbNode)
    requires Spined(cs) && COrd(pos, Compose(cs, In(c, Right, x, red, l)))
    requires x in pos && s in pos && pos[x] <= pos[s] < Hi(pos, Compose(cs, In(c, Right, x, red, l)))
    ensures COrd(pos, Compose(cs, In(c, Right, s, red, l)))
    ensures Lo(pos, Compose(cs, In(c, Right, s, red, l))) == pos[s]
    ensures Hi(pos, Compose(cs, In(c, Right, s, red, l))) == Hi(pos, Compose(cs, In(c, Right, x, red, l)))
  {
    match cs
    case Top => OrdWiden(pos, l, Lo(pos, c), pos[x], Lo(pos, c), pos[s]);
    case In(up, _, y, _, sib) => SpineRebase(pos, up, c, x, red, l, s);
  }

  lemma {:induction false} OrdCompose(pos: Pos, cs: Ctx, b: Ctx, t: Tree)
    ensures OrdHole(pos, Compose(cs, b), t) <==> OrdHole(pos, b, Plug(cs, t))
    decreases cs
  {
    match cs
    case Top =>
    case In(up, d, x, red, sib) =>
      OrdMk(pos, Compose(up, b), d, t, x, red, sib);
      OrdCompose(pos, up, b, Mk(d, t, x, red, sib));
  }

  lemma SuccOpen(pos: Pos, u: Succ)
    requires u.Ordered(pos)
    ensures u.x in pos && u.s in pos && pos[u.x] < pos[u.s] < Hi(pos, u.Deep(u.x)) <= Hi(pos, u.c)
    ensures Lo(pos, u.c) < pos[u.x] && Ord(pos, u.sr, pos[u.s], Hi(pos, u.Deep(u.x)))
    ensures COrd(pos, u.Deep(u.x)) && COrd(pos, u.c) && Ord(pos, u.l, Lo(pos, u.c), pos[u.x])
  {
    SpineOrd(pos, u.cs, u.Under(u.x));
    assert Lo(pos, u.Deep(u.x)) == pos[u.x];
    assert Ord(pos, u.Leaf(), pos[u.x], Hi(pos, u.Deep(u.x)));
  }

  /// With s in x's place the order is right.
  lemma SuccOrd(pos: Pos, u: Succ)
    requires u.Ordered(pos)
    ensures OrdHole(pos, u.Deep(u.s), Paint(u.sr, false))
    ensures OrdHole(pos, u.c, u.To())
  {
    SuccOpen(pos, u);
    SpineRebase(pos, u.cs, u.c, u.x, u.red, u.l, u.s);
    assert Ord(pos, Paint(u.sr, false), pos[u.s], Hi(pos, u.Deep(u.x)));
    OrdCompose(pos, u.cs, u.Under(u.s), Paint(u.sr, false));
    OrdMk(pos, u.c, Right, u.Rest(), u.s, u.red, u.l);
  }

  /// The order of the nodes that cases 2 and 3 touch.
  lemma SuccSpots(pos: Pos, u: Succ)
    requires u.Ordered(pos)
    ensures {u.x, u.s, u.l.x} <= pos.Keys && Lo(pos, u.c) < pos[u.l.x] < pos[u.x] < pos[u.s] < Hi(pos, u.c)
    ensures u.c.In? ==> u.c.x in pos && (pos[u.c.x] == Lo(pos, u.c) || pos[u.c.x] == Hi(pos, u.c))
    ensures u.sr.N? ==> u.sr.x in pos && pos[u.s] < pos[u.sr.x] < Hi(pos, u.c)
    ensures u.cs.In? ==> u.cs.x in pos && pos[u.s] < pos[u.cs.x] < Hi(pos, u.c) && (u.sr.N? ==> pos[u.sr.x] < pos[u.cs.x])
  {
    SuccOpen(pos, u);
    if u.cs.In? {
      SpineOrd(pos, u.cs, u.Under(u.x));
      SpineOrd(pos, u.cs.up, u.Under(u.x));
    }
  }

  /// The root of a leftmost path's subtree, the child of x, comes after s.
  lemma {:induction false} SpineTop(pos: Pos, cs: Ctx, t: Tree, b: Ctx)
    requires Spined(cs) && cs.In? && OrdHole(pos, Compose(cs, b), t)
    ensures Plug(cs, t).N? && Plug(cs, t).x in pos && Hi(pos, Compose(cs, b)) <= pos[Plug(cs, t).x] < Hi(pos, b)
    decreases cs
  {
    var t' := Mk(cs.d, t, cs.x, cs.red, cs.sib);
    OrdMk(pos, Compose(cs.up, b), cs.d, t, cs.x, cs.red, cs.sib);
    if cs.up.In? {
      SpineTop(pos, cs.up, t', b);
    }
  }

  /// Memory as it would be with the leftmost node below q taken out first, kid in its place.
  ghost function Cut(m: Mem, q: RbNode, d: Side, kid: RbNode?): Mem
    requires q in m && (kid != null ==> kid in m)
  {
    var m1 := m[q := m[q].SetKid(d, kid)];
    if kid == null then m1 else m1[kid := m[kid].(parent := q, red := false)]
  }

  ghost function Slot(u: Succ): RbNode { if u.cs.Top? then u.x else u.cs.x }

  ghost function SlotSide(u: Succ): Side { if u.cs.Top? then Right else Left }

  /// Memory after cases 2 and 3, told apart from that intermediate memory.
  ghost predicate Moved(m: Mem, m': Mem, rn: RbNode?, rn': RbNode?, u: Succ) {
    Slot(u) in m && u.x in m && u.l.N? && (u.sr.N? ==> u.sr.x in m) &&
    var m1, top := Cut(m, Slot(u), SlotSide(u), RootOf(u.sr)), RootOf(u.Rest());
    u.s in m' && m'[u.s] == m1[u.x] &&
    u.l.x in m1 && u.l.x in m' && m'[u.l.x] == m1[u.l.x].(parent := u.s) &&
    (top != null ==> top in m1 && top in m' && m'[top] == m1[top].(parent := u.s)) &&
    Hung(m1, m', u.c, rn, rn', u.s) &&
    AgreeBut(m1, m', {u.x, u.s} + Opt(u.l.x) + Opt(top) + Opt(CNode(u.c)))
  }

  lemma AtSucc(m: Mem, rn: RbNode?, u: Succ, w: World)
    requires At(m, rn, u.c, u.From(), w) && u.l.N? && Spined(u.cs)
    ensures At(m, rn, u.Deep(u.x), u.Leaf(), w) && u.Ordered(w.pos)
  {
    AtUp(m, rn, u.Under(u.x), Plug(u.cs, u.Leaf()), w);
    UpAll(m, rn, Dummy, map[], u.cs, u.Under(u.x), u.Leaf(), w);
  }

  lemma CutRep(m: Mem, rn: RbNode?, u: Succ, w: World) returns (w1: World)
    requires At(m, rn, u.Deep(u.x), u.Leaf(), w) && u.Ordered(w.pos)
    ensures Slot(u) in m && u.x in m && (u.sr.N? ==> u.sr.x in m)
    ensures At(Cut(m, Slot(u), SlotSide(u), RootOf(u.sr)), rn, u.c, N(u.l, u.x, u.red, u.Rest()), w1)
    ensures w1.pos == w.pos
  {
    var c1 := u.Deep(u.x);
    w1 := World(w.S, Before(c1) + Inorder(u.sr) + After(c1), w.pos);
    SpliceOpen(m, rn, c1, Right, u.sr, u.s, u.sred, w.pos);
    var m1 := Cut(m, Slot(u), SlotSide(u), RootOf(u.sr));
    SpliceRep(m, m1, rn, rn, c1, Right, u.sr, u.s, u.sred, false, w, w1);
    UpAll(m1, rn, Dummy, map[], u.cs, u.Under(u.x), Paint(u.sr, false), w1);
    AtUp(m1, rn, u.Under(u.x), u.Rest(), w1);
    UpAll(m, rn, Dummy, map[], u.cs, u.Under(u.x), u.Leaf(), w);
  }

  lemma RegroupHead(a: seq<RbNode>, b: seq<RbNode>, x: RbNode, c: seq<RbNode>, d: seq<RbNode>)
    ensures a + b + (([x] + c) + d) == a + (b + [x] + c) + d
  {
  }

  /// The successor comes first in the right subtree.
  lemma SuccFirst(u: Succ)
    requires Spined(u.cs)
    ensures Inorder(Plug(u.cs, u.Leaf())) == [u.s] + Inorder(u.Rest())
  {
    SpineBefore(u.cs);
    InorderPlug(u.cs, u.Leaf());
    InorderPlug(u.cs, Paint(u.sr, false));
    InorderPaint(u.sr, false);
  }

  lemma SuccOrder(u: Succ)
    requires Spined(u.cs)
    ensures Before(u.c) + Inorder(u.l) + (Inorder(Plug(u.cs, u.Leaf())) + After(u.c)) == Inorder(Plug(u.c, u.To()))
  {
    SuccFirst(u);
    RegroupHead(Before(u.c), Inorder(u.l), u.s, Inorder(u.Rest()), After(u.c));
    InorderPlug(u.c, u.To());
  }

  lemma SpineBefore(cs: Ctx)
    requires Spined(cs)
    ensures Before(cs) == []
  {
  }

  /// The result of cases 2 and 3.
  lemma SuccRep(m: Mem, m': Mem, rn: RbNode?, rn': RbNode?, u: Succ, w: World, w': World)
    requires At(m, rn, u.c, u.From(), w) && u.l.N? && Spined(u.cs)
    requires Moved(m, m', rn, rn', u)
    requires w'.pos == w.pos && w'.ord == Before(u.c) + Inorder(u.l) + (Inorder(Plug(u.cs, u.Leaf())) + After(u.c))
    ensures At(m', rn', u.c, u.To(), w')
  {
    AtSucc(m, rn, u, w);
    var w1 := CutRep(m, rn, u, w);
    SuccOrd(w.pos, u);
    SuccSpots(w.pos, u);
    SuccOrder(u);
    ReplaceRep(Cut(m, Slot(u), SlotSide(u), RootOf(u.sr)), m', rn, rn', u.c, u.l, u.x, u.red, u.Rest(), u.s, w1, w');
  }

  // ---------------------------------------------------------------- the stores of cases 2 and 3

  /// Case 3 only: the successor leaves its place and takes node's right child. In
  /// between nothing points to it, so it can be given the rank r.
  method DetachStores(parent: RbNode, s: RbNode, child: RbNode, ghost S: set<RbNode>, ghost rk: Rank, ghost r: real)
    requires {parent, s, child} <= S && s != parent && s != child && parent.left == s && parent.right != s
    requires Ranked(S, rk) && Below(rk, s.right, parent) && s.right != s && rk[s] <= r && rk[child] < r
    requires forall y | y in S && (y.left == s || y.right == s) :: y == parent
    modifies {parent, s}`left, {parent, s}`right, child`parent
    ensures CellOf(s) == old(CellOf(s)).SetKid(Right, child)
    ensures CellOf(parent) == old(CellOf(parent)).SetKid(Left, old(s.right)).(parent := if parent == child then s else old(parent.parent))
    ensures parent != child ==> CellOf(child) == old(CellOf(child)).(parent := s)
    ensures Ranked(S, rk[s := r])
  {
    WriteOnce(parent, Left, s.right, S, rk);
    Raise(s, r, S, rk);
    WriteOnce(s, Right, child, S, rk[s := r]);
    SetParent(child, s);
  }

  method DetachMem(parent: RbNode, s: RbNode, child: RbNode, ghost node: RbNode, ghost S: set<RbNode>, ghost rk: Rank, ghost r: real)
    requires node !in {parent, s, child} && {parent, s, child} <= S && s != parent && s != child && rk.Keys == S
    requires var m := Snap(S); m[parent].left == s && m[parent].right != s && m[s].parent == parent && OneParent(m, S) && RankedMem(m, S, rk)
    requires Snap(S)[s].right != s && rk[s] <= r && rk[child] < r
    modifies S`left, S`right, S`parent
    ensures var m, m' := old(Snap(S)), Snap(S);
            m'[s] == m[s].SetKid(Right, child) &&
            m'[parent] == m[parent].SetKid(Left, m[s].right).(parent := if parent == child then s else m[parent].parent) &&
            (parent != child ==> m'[child] == m[child].(parent := s)) &&
            AgreeBut(m, m', {parent, s, child}) && RankedMem(m', S, rk[s := r])
    ensures AugSnap(S) == old(AugSnap(S))
    ensures CellOf(node) == old(CellOf(node))
  {
    ghost var m := Snap(S);
    assert Below(rk, m[parent].left, parent) && Below(rk, m[parent].right, parent);
    assert Below(rk, m[s].left, s) && Below(rk, m[s].right, s);
    DetachStores(parent, s, child, S, rk, r);
  }

  /// The successor takes node's left child, node's place below its parent, and node's colour.
  method AttachStores(node: RbNode, s: RbNode, left: RbNode, child2: RbNode?, parent: RbNode, root: RbRoot, ghost d: Side, ghost S: set<RbNode>, ghost rk: Rank)
    requires {s, left} <= S && left != s && node != s && node != left && child2 != s && child2 != left && child2 != node
    requires node.parent != s && node.parent != left && node.parent != node && (child2 != null ==> node.parent != child2)
    requires node.parent != null ==>
               node.parent in S && node.parent.Kid(d) == node && node.parent.Kid(d.Flip()) != node && Below(rk, s, node.parent)
    requires Ranked(S, rk) && Below(rk, left, s)
    modifies s`left, s`right, s`parent, s`red, left`parent, Opt(child2)`parent, Opt(child2)`red
    modifies root, Opt(node.parent)`left, Opt(node.parent)`right
    ensures CellOf(s) == old(CellOf(s)).(left := left, parent := old(node.parent), red := old(node.red))
    ensures CellOf(left) == old(CellOf(left)).(parent := s)
    ensures child2 != null ==> CellOf(child2) == old(CellOf(child2)).(parent := parent, red := false)
    ensures node.parent == old(node.parent)
    ensures node.parent != null ==> CellOf(node.parent) == old(CellOf(node.parent)).SetKid(d, s) && root.node == old(root.node)
    ensures node.parent == null ==> root.node == s
    ensures Ranked(S, rk)
    ensures CellOf(node) == old(CellOf(node))
  {
    WriteOnce(s, Left, left, S, rk);
    SetParent(left, s);
    var up, red := node.parent, node.red;
    ChangeChild(node, s, up, root, d, S, rk);
    if child2 != null {
      SetParentColor(child2, parent, false);
    }
    SetParentColor(s, up, red);
  }

  method AttachCells(node: RbNode, s: RbNode, left: RbNode, child2: RbNode?, parent: RbNode, root: RbRoot, ghost cx: RbNode?, ghost d: Side, ghost S: set<RbNode>, ghost rk: Rank)
    requires {node, s, left} <= S && left != s && node != s && node != left && child2 != s && child2 != left && child2 != node
    requires cx != s && cx != left && cx != node && (child2 != null ==> child2 in S && cx != child2) && rk.Keys == S
    requires var m := Snap(S);
             m[node].parent == cx && (cx != null ==> cx in S && m[cx].Kid(d) == node && m[cx].Kid(d.Flip()) != node) && RankedMem(m, S, rk)
    requires Below(rk, left, s) && (cx != null ==> Below(rk, s, cx))
    modifies S`left, S`right, S`parent, S`red, root
    ensures var m, m' := old(Snap(S)), Snap(S);
            m'[s] == m[s].(left := left, parent := cx, red := m[node].red) &&
            m'[left] == m[left].(parent := s) &&
            (child2 != null ==> m'[child2] == m[child2].(parent := parent, red := false)) &&
            (if cx == null then root.node == s else root.node == old(root.node) && m'[cx] == m[cx].SetKid(d, s)) &&
            AgreeBut(m, m', {s, left} + Opt(child2) + Opt(cx))
    ensures CellOf(node) == old(CellOf(node))
  {
    hide Ranked;
    ghost var m := Snap(S);
    AttachStores(node, s, left, child2, parent, root, d, S, rk);
  }

  /// The same, with the augmented data left alone.
  method AttachMem(node: RbNode, s: RbNode, left: RbNode, child2: RbNode?, parent: RbNode, root: RbRoot, ghost cx: RbNode?, ghost d: Side, ghost S: set<RbNode>, ghost rk: Rank)
    requires {node, s, left} <= S && left != s && node != s && node != left && child2 != s && child2 != left && child2 != node
    requires cx != s && cx != left && cx != node && (child2 != null ==> child2 in S && cx != child2) && rk.Keys == S
    requires var m := Snap(S);
             m[node].parent == cx && (cx != null ==> cx in S && m[cx].Kid(d) == node && m[cx].Kid(d.Flip()) != node) && RankedMem(m, S, rk)
    requires Below(rk, left, s) && (cx != null ==> Below(rk, s, cx))
    modifies S`left, S`right, S`parent, S`red, root
    ensures var m, m' := old(Snap(S)), Snap(S);
            m'[s] == m[s].(left := left, parent := cx, red := m[node].red) &&
            m'[left] == m[left].(parent := s) &&
            (child2 != null ==> m'[child2] == m[child2].(parent := parent, red := false)) &&
            (if cx == null then root.node == s else root.node == old(root.node) && m'[cx] == m[cx].SetKid(d, s)) &&
            AgreeBut(m, m', {s, left} + Opt(child2) + Opt(cx))
    ensures AugSnap(S) == old(AugSnap(S))
    ensures CellOf(node) == old(CellOf(node))
  {
    hide AgreeBut, RankedMem, AugSnap, Snap;
    AttachCells(node, s, left, child2, parent, root, cx, d, S, rk);
    AugKept(S);
  }

  // ---------------------------------------------------------------- cases 2 and 3 as a change of the tree

  /// The right child of x.
  ghost function Child(u: Succ): RbNode? { RootOf(Plug(u.cs, u.Leaf())) }

  /// Links and distinctness around the node and its successor.
  ghost predicate Facts(m: Mem, u: Succ) {
    u.l.N? && {u.x, u.s, u.l.x, Slot(u)} <= m.Keys && u.x != u.s && u.l.x != u.x && u.l.x != u.s &&
    m[u.x] == Cell(u.l.x, Child(u), CNode(u.c), u.red) && m[u.s] == Cell(null, RootOf(u.sr), Slot(u), u.sred) &&
    m[Slot(u)].Kid(SlotSide(u)) == u.s && m[Slot(u)].Kid(SlotSide(u).Flip()) != u.s && Slot(u) != u.s && Slot(u) != u.l.x &&
    (u.cs.In? ==> u.cs.x != u.x && Child(u) != u.s && Child(u) != u.l.x && Child(u) != u.x) &&
    (u.sr.N? ==> u.sr.x in m && u.sr.x != u.x && u.sr.x != u.s && u.sr.x != u.l.x && u.sr.x != Slot(u) && u.sr.x != Child(u))
  }

  /// And around the context of the node.
  ghost predicate Above(m: Mem, rn: RbNode?, u: Succ) {
    u.l.N? && var cx := CNode(u.c);
    cx != u.x && cx != u.s && cx != u.l.x && (u.sr.N? ==> cx != u.sr.x) && (u.cs.In? ==> cx != u.cs.x && cx != Child(u)) &&
    if cx == null then rn == u.x else cx in m && m[cx].Kid(CSide(u.c)) == u.x && m[cx].Kid(CSide(u.c).Flip()) != u.x
  }

  /// mA is memory after the first three stores of case 3.
  ghost predicate Detached(m: Mem, mA: Mem, u: Succ) {
    u.cs.In? && Child(u) != null && {u.cs.x, u.s, Child(u)} <= m.Keys && mA.Keys == m.Keys &&
    mA[u.s] == m[u.s].SetKid(Right, Child(u)) &&
    mA[u.cs.x] == m[u.cs.x].SetKid(Left, RootOf(u.sr)).(parent := if u.cs.x == Child(u) then u.s else m[u.cs.x].parent) &&
    (u.cs.x != Child(u) ==> mA[Child(u)] == m[Child(u)].(parent := u.s)) &&
    AgreeBut(m, mA, {u.cs.x, u.s, Child(u)})
  }

  lemma {:induction false} PlugRoot(cs: Ctx, t: Tree, t': Tree)
    requires cs.In?
    ensures Plug(cs, t).N? && RootOf(Plug(cs, t)) == RootOf(Plug(cs, t'))
    decreases cs
  {
    if cs.up.In? {
      PlugRoot(cs.up, Mk(cs.d, t, cs.x, cs.red, cs.sib), Mk(cs.d, t', cs.x, cs.red, cs.sib));
    }
  }

  /// The right child of x comes after s, and after s's child.
  lemma ChildSpot(pos: Pos, u: Succ)
    requires u.Ordered(pos)
    ensures Child(u) != null && Child(u) in pos && pos[u.s] <= pos[Child(u)] < Hi(pos, u.c)
    ensures u.cs.In? ==> pos[u.s] < pos[Child(u)] && (u.sr.N? ==> u.sr.x in pos && pos[u.sr.x] < pos[Child(u)])
    ensures u.cs.Top? ==> Child(u) == u.s
  {
    SuccOpen(pos, u);
    if u.cs.In? {
      SpineTop(pos, u.cs, u.Leaf(), u.Under(u.x));
    }
  }

  lemma SuccFacts(m: Mem, rn: RbNode?, u: Succ, w: World)
    requires At(m, rn, u.c, u.From(), w) && u.l.N? && Spined(u.cs)
    ensures Facts(m, u) && Above(m, rn, u) && Child(u) != null && Child(u) in m
  {
    AtSucc(m, rn, u, w);
    SuccSpots(w.pos, u);
    ChildSpot(w.pos, u);
    SuccLinks(m, rn, u, w);
    if u.c.In? {
      RepRoot(m, u.c.sib, m[u.c.x].Kid(u.c.d.Flip()), u.c.x);
    }
  }

  lemma SuccLinks(m: Mem, rn: RbNode?, u: Succ, w: World)
    requires At(m, rn, u.c, u.From(), w) && u.l.N? && At(m, rn, u.Deep(u.x), u.Leaf(), w) && u.Ordered(w.pos)
    ensures {u.x, u.s, u.l.x, Slot(u)} <= m.Keys && (u.sr.N? ==> u.sr.x in m) && (Child(u) != null ==> Child(u) in m)
    ensures m[u.x] == Cell(u.l.x, Child(u), CNode(u.c), u.red) && m[u.s] == Cell(null, RootOf(u.sr), Slot(u), u.sred)
    ensures m[Slot(u)].Kid(SlotSide(u)) == u.s && m[Slot(u)].Kid(SlotSide(u).Flip()) != u.s
  {
    RepRoot(m, u.l, m[u.x].left, u.x);
    RepRoot(m, Plug(u.cs, u.Leaf()), m[u.x].right, u.x);
    SpliceOpen(m, rn, u.Deep(u.x), Right, u.sr, u.s, u.sred, w.pos);
    RepMk(m, Right, u.sr, u.s, u.sred, E, Slot(u));
  }

  /// Case 2: the successor is x's right child.
  lemma MovedNear(m: Mem, m': Mem, rn: RbNode?, rn': RbNode?, u: Succ)
    requires u.cs.Top? && Facts(m, u) && Above(m, rn, u)
    requires {u.s, u.l.x} <= m'.Keys && m'[u.s] == m[u.s].(left := u.l.x, parent := CNode(u.c), red := u.red) && m'[u.l.x] == m[u.l.x].(parent := u.s)
    requires u.sr.N? ==> u.sr.x in m' && m'[u.sr.x] == m[u.sr.x].(parent := u.s, red := false)
    requires Hung(m, m', u.c, rn, rn', u.s)
    requires AgreeBut(m, m', {u.x, u.s, u.l.x} + Opt(RootOf(u.sr)) + Opt(CNode(u.c)))
    ensures Moved(m, m', rn, rn', u)
  {
    assert u.Rest() == Paint(u.sr, false);
  }

  /// Case 3: it is further down; mA is memory after the first three stores.
  lemma MovedFar(m: Mem, mA: Mem, m': Mem, rn: RbNode?, rn': RbNode?, u: Succ)
    requires Facts(m, u) && Above(m, rn, u) && Detached(m, mA, u)
    requires {u.s, u.l.x} <= m'.Keys && m'[u.s] == mA[u.s].(left := u.l.x, parent := CNode(u.c), red := u.red) && m'[u.l.x] == mA[u.l.x].(parent := u.s)
    requires u.sr.N? ==> u.sr.x in m' && m'[u.sr.x] == mA[u.sr.x].(parent := u.cs.x, red := false)
    requires Hung(mA, m', u.c, rn, rn', u.s)
    requires AgreeBut(mA, m', {u.x, u.s, u.l.x} + Opt(RootOf(u.sr)) + Opt(CNode(u.c)))
    ensures Moved(m, m', rn, rn', u)
  {
    PlugRoot(u.cs, u.Leaf(), Paint(u.sr, false));
    var m1 := Cut(m, u.cs.x, Left, RootOf(u.sr));
    assert m'[u.s] == m1[u.x];
  }

  // ---------------------------------------------------------------- the augmented data of cases 2 and 3

  /// The parts around s are right, and so are the nodes above for the value that s stores.
  ghost predicate HalfAug(am: Augs, f: RbNode -> int, u: Succ) {
    u.s in am && AugRep(am, f, u.l) && AugRep(am, f, u.Rest()) && AugCtx(am, f, u.c, Fin(am[u.s]))
  }

  lemma {:induction false} SpineSpots(pos: Pos, cs: Ctx, b: Ctx)
    requires Spined(cs) && COrd(pos, Compose(cs, b))
    ensures forall y | y in Spine(cs) :: y in pos && Hi(pos, Compose(cs, b)) <= pos[y] < Hi(pos, b)
  {
    if cs.In? {
      SpineSpots(pos, cs.up, b);
      SpineOrd(pos, cs.up, b);
    }
  }

  /// The leftmost path by itself is in order around s.
  lemma SuccAlone(pos: Pos, u: Succ)
    requires u.Ordered(pos)
    ensures COrd(pos, u.cs) && Inside(pos, {u.s}, Lo(pos, u.cs), Hi(pos, u.cs)) && OrdHole(pos, u.cs, u.sr)
    ensures u.s !in Spine(u.cs)
  {
    SuccOpen(pos, u);
    LoHi(pos, u.c);
    SpineOrd(pos, u.cs, u.Under(u.x));
    SpineSpots(pos, u.cs, u.Under(u.x));
    OrdWiden(pos, u.sr, pos[u.s], Hi(pos, u.Deep(u.x)), -1, Hi(pos, u.cs));
  }

  /// augment->copy gives s the value of x.
  lemma CopyAug(am: Augs, am1: Augs, f: RbNode -> int, pos: Pos, u: Succ)
    requires u.Ordered(pos) && AugRep(am, f, u.From()) && AugCtx(am, f, u.c, MaxOf(f, u.From()))
    requires SameAug(am, am1, {u.s}) && u.x in am && u.s in am1 && am1[u.s] == am[u.x]
    ensures AugRep(am1, f, u.l) && AugCtx(am1, f, u.c, Fin(am1[u.s]))
    ensures AugRep(am1, f, u.sr) && Stale(am1, f, u.cs)
  {
    SuccOpen(pos, u);
    SuccAlone(pos, u);
    AugPlug(am, f, u.cs, u.Leaf());
    AugFrame(am, am1, f, pos, u.l, Lo(pos, u.c), pos[u.x], {u.s});
    AugFrame(am, am1, f, pos, u.sr, pos[u.s], Hi(pos, u.Deep(u.x)), {u.s});
    AugCtxFrame(am, am1, f, pos, u.c, MaxOf(f, u.From()), {u.s});
    AugCtxFrame(am, am1, f, pos, u.cs, MaxOf(f, u.Leaf()), {u.s});
  }

  /// augment->propagate(parent, successor) makes the right subtree right.
  lemma PathAug(am1: Augs, am2: Augs, f: RbNode -> int, pos: Pos, u: Succ)
    requires u.Ordered(pos) && u.s in am1 && AugRep(am1, f, u.l) && AugCtx(am1, f, u.c, Fin(am1[u.s]))
    requires SameAug(am1, am2, Spine(u.cs)) && AugRep(am2, f, u.sr) && AugCtx(am2, f, u.cs, MaxOf(f, u.sr))
    ensures HalfAug(am2, f, u)
  {
    SuccOpen(pos, u);
    SpineSpots(pos, u.cs, u.Under(u.x));
    AugFrame(am1, am2, f, pos, u.l, Lo(pos, u.c), pos[u.x], Spine(u.cs));
    AugCtxFrame(am1, am2, f, pos, u.c, Fin(am1[u.s]), Spine(u.cs));
    AugPaint(am2, f, u.sr, false);
    AugPlug(am2, f, u.cs, Paint(u.sr, false));
  }

  /// All of this stays right when x is gone.
  lemma GoneAug(am2: Augs, am3: Augs, f: RbNode -> int, pos: Pos, u: Succ)
    requires u.Ordered(pos) && HalfAug(am2, f, u) && SameAug(am2, am3, {u.x})
    ensures HalfAug(am3, f, u)
  {
    SuccOpen(pos, u);
    SuccOrd(pos, u);
    OrdMk(pos, u.c, Right, u.Rest(), u.s, u.red, u.l);
    AugFrame(am2, am3, f, pos, u.l, Lo(pos, u.c), pos[u.x], {u.x});
    AugFrame(am2, am3, f, pos, u.Rest(), pos[u.s], Hi(pos, u.c), {u.x});
    AugCtxFrame(am2, am3, f, pos, u.c, Fin(am2[u.s]), {u.x});
  }

  // ---------------------------------------------------------------- the parent chain of case 3

  ghost function TopOf(cs: Ctx): RbNode? { if cs.Top? then null else if cs.up.Top? then cs.x else TopOf(cs.up) }

  lemma {:induction false} TopIsRoot(cs: Ctx, t: Tree)
    requires cs.In?
    ensures TopOf(cs) == RootOf(Plug(cs, t)) && TopOf(cs) in Spine(cs)
    decreases cs
  {
    if cs.up.In? {
      TopIsRoot(cs.up, Mk(cs.d, t, cs.x, cs.red, cs.sib));
    }
  }

  /// The path from s's place up to x.
  lemma {:induction false} PathBelow(m: Mem, rn: RbNode?, cs: Ctx, b: Ctx, h: RbNode?)
    requires CRep(m, Compose(cs, b), rn, h) && b.In?
    ensures Path(m, cs, h, b.x)
  {
    match cs
    case Top =>
    case In(up, d, x, _, sib) =>
      RepRoot(m, sib, m[x].Kid(d.Flip()), x);
      PathBelow(m, rn, up, b, x);
  }

  /// The topmost node of the path gets another parent.
  lemma {:induction false} PathMoved(m: Mem, mA: Mem, pos: Pos, cs: Ctx, b: Ctx, h: RbNode?, stop: RbNode, stop': RbNode)
    requires Path(m, cs, h, stop) && Spined(cs) && COrd(pos, Compose(cs, b))
    requires forall y | y in Spine(cs) && y in m ::
               y in mA && mA[y] == if y == TopOf(cs) then m[y].(parent := stop') else m[y]
    ensures Path(mA, cs, h, stop')
  {
    match cs
    case Top =>
    case In(up, _, x, _, _) =>
      SpineSpots(pos, up, b);
      if up.In? {
        TopIsRoot(up, E);
      }
      PathMoved(m, mA, pos, up, b, x, stop, stop');
  }

  lemma {:induction false} NotOnSpine(cs: Ctx, s: RbNode)
    requires s !in Spine(cs)
    ensures NotIn(cs, s)
  {
    if cs.In? {
      NotOnSpine(cs.up, s);
    }
  }

  lemma PathToSucc(m: Mem, mA: Mem, pos: Pos, u: Succ)
    requires Path(m, u.cs, u.s, u.x) && u.Ordered(pos) && Detached(m, mA, u)
    ensures Path(mA, u.cs, RootOf(u.sr), u.s)
  {
    var up, b := u.cs.up, u.Under(u.x);
    SuccAlone(pos, u);
    SpineSpots(pos, up, b);
    TopIsRoot(u.cs, u.Leaf());
    if up.In? {
      TopIsRoot(up, E);
    }
    PathMoved(m, mA, pos, up, b, u.cs.x, u.x, u.s);
  }

  /// After the first three stores of case 3 the way up from the former parent of s ends at s.
  lemma ClimbToSucc(m: Mem, mA: Mem, rn: RbNode?, u: Succ, w: World)
    requires At(m, rn, u.c, u.From(), w) && u.l.N? && Spined(u.cs) && Detached(m, mA, u)
    ensures Climb(mA, w.pos, u.cs, u.sr, u.s)
  {
    var b := u.Under(u.x);
    AtSucc(m, rn, u, w);
    SuccAlone(w.pos, u);
    NotOnSpine(u.cs, u.s);
    PathBelow(m, rn, u.cs, b, u.s);
    PathToSucc(m, mA, w.pos, u);
  }

  // ---------------------------------------------------------------- cases 2 and 3 put together

  /// A rank for s above the nodes that will hang below it and below the node whose place it takes.
  ghost function Lift(rk: Rank, u: Succ): real
    requires u.l.N? && Child(u) != null && {u.x, u.s, u.l.x, Child(u)} <= rk.Keys
  {
    var a := if rk[u.l.x] < rk[u.s] then rk[u.s] else rk[u.l.x];
    ((if a < rk[Child(u)] then rk[Child(u)] else a) + rk[u.x]) / 2.0
  }

  lemma LiftOk(m: Mem, rn: RbNode?, rk: Rank, u: Succ, w: World)
    requires At(m, rn, u.c, u.From(), w) && u.l.N? && Spined(u.cs) && m.Keys == w.S == rk.Keys && RankedMem(m, w.S, rk) && WorldOk(w)
    ensures Child(u) != null && {u.x, u.s, u.l.x, Child(u)} <= rk.Keys
    ensures rk[u.s] < Lift(rk, u) < rk[u.x] && rk[u.l.x] < Lift(rk, u) && (u.cs.In? ==> rk[Child(u)] < Lift(rk, u))
    ensures u.c.In? ==> u.c.x in rk && u.c.x != u.s && Lift(rk, u) < rk[u.c.x]
  {
    SuccFacts(m, rn, u, w);
    AtSucc(m, rn, u, w);
    RankDown(m, rn, rk, u.cs, u.Under(u.x), u.s, w.S);
    assert Below(rk, m[u.x].left, u.x) && Below(rk, m[u.x].right, u.x);
    if u.c.In? {
      assert Below(rk, m[u.c.x].left, u.c.x) && Below(rk, m[u.c.x].right, u.c.x);
    }
  }

  /// Down a context the rank falls.
  lemma {:induction false} RankDown(m: Mem, rn: RbNode?, rk: Rank, cs: Ctx, b: Ctx, h: RbNode, S: set<RbNode>)
    requires CRep(m, Compose(cs, b), rn, h) && b.In? && RankedMem(m, S, rk) && m.Keys == S == rk.Keys && h in rk
    ensures b.x in rk && rk[h] < rk[b.x]
  {
    var x := Compose(cs, b).x;
    assert Below(rk, m[x].left, x) && Below(rk, m[x].right, x);
    if cs.In? {
      RankDown(m, rn, rk, cs.up, b, x, S);
    }
  }

  /// The ranking fits memory, and leaves room for s between its new child and its new parent.
  ghost predicate Roomy(m: Mem, rk: Rank, u: Succ, S: set<RbNode>) {
    u.l.N? && m.Keys == S == rk.Keys && RankedMem(m, S, rk) && Below(rk, u.l.x, u.s) && (u.c.In? ==> Below(rk, u.s, u.c.x))
  }

  /// What the stores of case 3 start from.
  lemma DetachOpen(m: Mem, rn: RbNode?, u: Succ, w: World) returns (rk: Rank, r: real)
    requires WorldOk(w) && At(m, rn, u.c, u.From(), w) && u.l.N? && Spined(u.cs) && m.Keys == w.S && u.cs.In?
    ensures rk.Keys == w.S && RankedMem(m, w.S, rk) && OneParent(m, w.S) && Child(u) != null && {u.cs.x, u.s, Child(u)} <= w.S
    ensures u.s != u.cs.x && u.s != Child(u) && m[u.s].right != u.s && m[u.s].parent == u.cs.x
    ensures m[u.cs.x].left == u.s && m[u.cs.x].right != u.s && m[u.s].right == RootOf(u.sr)
    ensures rk[u.s] <= r && rk[Child(u)] < r
    ensures u.x in w.S && u.x != u.cs.x && u.x != u.s && u.x != Child(u)
    ensures u.l.x in w.S && u.l.x != u.s && rk[u.l.x] < r && (u.c.In? ==> u.c.x in w.S && u.c.x != u.s && r < rk[u.c.x])
  {
    rk := AtLinked(m, rn, u.c, u.From(), w);
    LiftOk(m, rn, rk, u, w);
    SuccFacts(m, rn, u, w);
    r := Lift(rk, u);
  }

  lemma DetachDone(m: Mem, m': Mem, rk: Rank, r: real, u: Succ, S: set<RbNode>)
    requires u.cs.In? && Child(u) != null && {u.cs.x, u.s, Child(u)} <= S && m.Keys == m'.Keys == S == rk.Keys
    requires u.l.N? && u.l.x in S && u.l.x != u.s && rk[u.l.x] < r && (u.c.In? ==> u.c.x in S && u.c.x != u.s && r < rk[u.c.x])
    requires m'[u.s] == m[u.s].SetKid(Right, Child(u)) && m[u.s].right == RootOf(u.sr)
    requires m'[u.cs.x] == m[u.cs.x].SetKid(Left, m[u.s].right).(parent := if u.cs.x == Child(u) then u.s else m[u.cs.x].parent)
    requires u.cs.x != Child(u) ==> m'[Child(u)] == m[Child(u)].(parent := u.s)
    requires AgreeBut(m, m', {u.cs.x, u.s, Child(u)}) && RankedMem(m', S, rk[u.s := r])
    ensures Detached(m, m', u) && Roomy(m', rk[u.s := r], u, S)
  {
  }

  /// The first three stores of case 3.
  method Detach(parent: RbNode, s: RbNode, child: RbNode, ghost root: RbRoot, ghost u: Succ, ghost w: World) returns (ghost rk: Rank)
    requires WorldOk(w) && At(Snap(w.S), root.node, u.c, u.From(), w) && u.l.N? && Spined(u.cs)
    requires u.cs.In? && u.cs.x == parent && u.s == s && Child(u) == child
    modifies w.S`left, w.S`right, w.S`parent
    ensures Detached(old(Snap(w.S)), Snap(w.S), u) && Roomy(Snap(w.S), rk, u, w.S)
    ensures AugSnap(w.S) == old(AugSnap(w.S))
    ensures u.x in w.S && CellOf(u.x) == old(CellOf(u.x))
  {
    ghost var r;
    rk, r := DetachOpen(Snap(w.S), root.node, u, w);
    ghost var m := Snap(w.S);
    DetachMem(parent, s, child, u.x, w.S, rk, r);
    DetachDone(m, Snap(w.S), rk, r, u, w.S);
    rk := rk[s := r];
  }

  lemma LiftNear(m: Mem, rn: RbNode?, u: Succ, w: World) returns (rk: Rank)
    requires WorldOk(w) && At(m, rn, u.c, u.From(), w) && u.l.N? && Spined(u.cs) && m.Keys == w.S && u.cs.Top?
    ensures Roomy(m, rk, u, w.S)
  {
    var rk0 := AtLinked(m, rn, u.c, u.From(), w);
    LiftOk(m, rn, rk0, u, w);
    SuccFacts(m, rn, u, w);
    rk := rk0[u.s := Lift(rk0, u)];
    forall y | y in w.S
      ensures Below(rk, m[y].left, y) && Below(rk, m[y].right, y)
    {
      assert Below(rk0, m[y].left, y) && Below(rk0, m[y].right, y);
      assert m[y].left == u.s || m[y].right == u.s ==> y == u.x;
    }
  }

  /// Memory from which the successor moves into node's place: in case 3, after
  /// the first three stores.
  ghost predicate Loose(m: Mem, mA: Mem, u: Succ) { if u.cs.Top? then mA == m else Detached(m, mA, u) }

  /// What the remaining stores start from.
  lemma AttachOpen(m: Mem, mA: Mem, rn: RbNode?, u: Succ, w: World, rk: Rank)
    requires At(m, rn, u.c, u.From(), w) && u.l.N? && Spined(u.cs) && Loose(m, mA, u) && Roomy(mA, rk, u, w.S) && m.Keys == w.S
    ensures {u.x, u.s, u.l.x} <= w.S && u.l.x != u.s && u.x != u.s && u.x != u.l.x
    ensures RootOf(u.sr) != u.s && RootOf(u.sr) != u.l.x && RootOf(u.sr) != u.x
    ensures CNode(u.c) != u.s && CNode(u.c) != u.l.x && CNode(u.c) != u.x && (u.sr.N? ==> u.sr.x in w.S && CNode(u.c) != u.sr.x)
    ensures mA[u.x].parent == CNode(u.c) && mA[u.x].red == u.red && rk.Keys == w.S && RankedMem(mA, w.S, rk) && Below(rk, u.l.x, u.s)
    ensures u.c.In? ==> u.c.x in w.S && mA[u.c.x].Kid(u.c.d) == u.x && mA[u.c.x].Kid(u.c.d.Flip()) != u.x && Below(rk, u.s, u.c.x)
    ensures u.c.Top? ==> rn == u.x
  {
    SuccFacts(m, rn, u, w);
  }

  lemma AttachDone(m: Mem, mA: Mem, m': Mem, rn: RbNode?, rn': RbNode?, u: Succ, w: World)
    requires WorldOk(w) && At(m, rn, u.c, u.From(), w) && u.l.N? && Spined(u.cs) && Loose(m, mA, u)
    requires {u.s, u.l.x} <= m'.Keys && {u.s, u.l.x} <= mA.Keys
    requires m'[u.s] == mA[u.s].(left := u.l.x, parent := CNode(u.c), red := u.red) && m'[u.l.x] == mA[u.l.x].(parent := u.s)
    requires u.sr.N? ==> u.sr.x in m' && u.sr.x in mA && m'[u.sr.x] == mA[u.sr.x].(parent := if u.cs.Top? then u.s else u.cs.x, red := false)
    requires Hung(mA, m', u.c, rn, rn', u.s)
    requires AgreeBut(mA, m', {u.x, u.s, u.l.x} + Opt(RootOf(u.sr)) + Opt(CNode(u.c)))
    ensures At(m', rn', u.c, u.To(), Less(w, u.x))
  {
    SuccFacts(m, rn, u, w);
    if u.cs.Top? {
      MovedNear(m, m', rn, rn', u);
    } else {
      MovedFar(m, mA, m', rn, rn', u);
    }
    LessOk(m, rn, u.c, u.l, u.x, u.red, Plug(u.cs, u.Leaf()), w);
    SuccRep(m, m', rn, rn', u, w, Less(w, u.x));
  }

  /// m2 is memory after the stores, and m' the same without the node that was taken out.
  lemma AttachLess(m: Mem, mA: Mem, m2: Mem, m': Mem, rn: RbNode?, rn': RbNode?, u: Succ, w: World)
    requires WorldOk(w) && At(m, rn, u.c, u.From(), w) && u.l.N? && Spined(u.cs) && Loose(m, mA, u)
    requires m2.Keys == mA.Keys == m.Keys == w.S && AgreeBut(m2, m', {u.x})
    requires {u.s, u.l.x} <= w.S && u.s != u.x && u.l.x != u.x && RootOf(u.sr) != u.x && CNode(u.c) != u.x
    requires m2[u.s] == mA[u.s].(left := u.l.x, parent := CNode(u.c), red := mA[u.x].red) && m2[u.l.x] == mA[u.l.x].(parent := u.s)
    requires u.sr.N? ==> u.sr.x in w.S && m2[u.sr.x] == mA[u.sr.x].(parent := if u.cs.Top? then u.s else u.cs.x, red := false)
    requires if u.c.Top? then rn' == u.s else rn' == rn && u.c.x in w.S && m2[u.c.x] == mA[u.c.x].SetKid(u.c.d, u.s)
    requires AgreeBut(mA, m2, {u.s, u.l.x} + Opt(RootOf(u.sr)) + Opt(CNode(u.c)))
    ensures At(m', rn', u.c, u.To(), Less(w, u.x))
  {
    SuccFacts(m, rn, u, w);
    AttachDone(m, mA, m', rn, rn', u, w);
  }

  /// The remaining stores of cases 2 and 3.
  method Attach(node: RbNode, s: RbNode, left: RbNode, child2: RbNode?, parent: RbNode, root: RbRoot, ghost m: Mem, ghost rk: Rank, ghost u: Succ, ghost w: World)
    requires WorldOk(w) && At(m, root.node, u.c, u.From(), w) && u.l.N? && Spined(u.cs) && m.Keys == w.S
    requires Loose(m, Snap(w.S), u) && Roomy(Snap(w.S), rk, u, w.S)
    requires u.x == node && u.s == s && u.l.x == left && RootOf(u.sr) == child2 && parent == if u.cs.Top? then s else u.cs.x
    modifies w.S`left, w.S`right, w.S`parent, w.S`red, root
    ensures At(Snap(w.S - {node}), root.node, u.c, u.To(), Less(w, node))
    ensures AugSnap(w.S) == old(AugSnap(w.S))
    ensures CellOf(node) == old(CellOf(node))
  {
    hide Rep, CRep, Ord, OrdHole, At, HalfAug, RankedMem;
    ghost var mA, rn := Snap(w.S), root.node;
    AttachOpen(m, mA, rn, u, w, rk);
    AttachMem(node, s, left, child2, parent, root, CNode(u.c), CSide(u.c), w.S, rk);
    AttachLess(m, mA, Snap(w.S), Snap(w.S - {node}), rn, root.node, u, w);
  }

  /// augment->copy(node, s).
  method CopyValue(node: RbNode, s: RbNode, cb: Callbacks, ghost S: set<RbNode>)
    requires {node, s} <= S
    modifies s`aug
    ensures cb.Max? ==> SameAug(old(AugSnap(S)), AugSnap(S), {s}) && AugSnap(S)[s] == old(AugSnap(S))[node]
    ensures Snap(S) == old(Snap(S))
  {
    Copy(node, s, cb);
  }

  /// Case 2 copies node's value.
  method CopyNear(node: RbNode, s: RbNode, cb: Callbacks, ghost rn: RbNode?, ghost u: Succ, ghost w: World)
    requires At(Snap(w.S), rn, u.c, u.From(), w) && u.l.N? && Spined(u.cs) && u.cs.Top? && u.x == node && u.s == s
    requires AugAll(cb, AugSnap(w.S), u.c, u.From()) && {node, s} <= w.S
    modifies s`aug
    ensures cb.Max? ==> HalfAug(AugSnap(w.S), cb.compute, u)
    ensures Snap(w.S) == old(Snap(w.S))
  {
    ghost var am := AugSnap(w.S);
    AtSucc(Snap(w.S), rn, u, w);
    CopyValue(node, s, cb, w.S);
    if cb.Max? {
      CopyAug(am, AugSnap(w.S), cb.compute, w.pos, u);
      PathAug(AugSnap(w.S), AugSnap(w.S), cb.compute, w.pos, u);
    }
  }

  /// Case 3 also updates the values between the successor's old place and its new one.
  method CopyFar(node: RbNode, s: RbNode, parent: RbNode, cb: Callbacks, ghost m: Mem, ghost rn: RbNode?, ghost u: Succ, ghost w: World)
    requires At(m, rn, u.c, u.From(), w) && u.l.N? && Spined(u.cs) && Detached(m, Snap(w.S), u) && u.x == node && u.s == s && u.cs.x == parent
    requires AugAll(cb, AugSnap(w.S), u.c, u.From()) && {node, s} <= w.S
    modifies w.S`aug
    ensures cb.Max? ==> HalfAug(AugSnap(w.S), cb.compute, u)
    ensures Snap(w.S) == old(Snap(w.S))
  {
    ghost var am := AugSnap(w.S);
    AtSucc(m, rn, u, w);
    CopyValue(node, s, cb, w.S);
    ghost var am1 := AugSnap(w.S);
    if cb.Max? {
      CopyAug(am, am1, cb.compute, w.pos, u);
    }
    ClimbToSucc(m, Snap(w.S), rn, u, w);
    Propagate(parent, s, cb, w.pos, u.cs, u.sr, w.S);
    if cb.Max? {
      PathAug(am1, AugSnap(w.S), cb.compute, w.pos, u);
    }
  }

  /// The final augment->propagate(successor, NULL).
  method Rise(s: RbNode, cb: Callbacks, ghost rn: RbNode?, ghost u: Succ, ghost w': World)
    requires At(Snap(w'.S), rn, u.c, u.To(), w') && u.s == s
    requires cb.Max? ==> HalfAug(AugSnap(w'.S), cb.compute, u)
    modifies w'.S`aug
    ensures Snap(w'.S) == old(Snap(w'.S)) && AugAll(cb, AugSnap(w'.S), u.c, u.To())
  {
    AtUp(Snap(w'.S), rn, u.Under(s), u.Rest(), w');
    CRepIsPath(Snap(w'.S), u.Under(s), rn, RootOf(u.Rest()));
    NeverNull(u.Under(s));
    Propagate(s, null, cb, w'.pos, u.Under(s), u.Rest(), w'.S);
    Up(Snap(w'.S), rn, cb, AugSnap(w'.S), u.Under(s), u.Rest(), w');
  }

  // ---------------------------------------------------------------- the colours of cases 2 and 3

  lemma {:induction false} CRbBase(cs: Ctx, c: Ctx, x: RbNode, y: RbNode, red: bool, l: Tree, h: nat)
    ensures CRb(Compose(cs, In(c, Right, x, red, l)), h) == CRb(Compose(cs, In(c, Right, y, red, l)), h)
  {
    if cs.In? {
      CRbBase(cs.up, c, x, y, red, l, if cs.red then h else h + 1);
    }
  }

  lemma SuccColors(u: Succ)
    requires Rb(Plug(u.c, u.From())) && !IsRed(Plug(u.c, u.From()))
    ensures u.sr.N? ==> !u.sred && Rb(Paint(u.sr, false)) && CRb(u.Deep(u.s), Bh(Paint(u.sr, false)))
    ensures u.sr.E? ==> CRb(u.Deep(u.s), if u.sred then 0 else 1)
  {
    PlugCompose(u.cs, u.Under(u.x), u.Leaf());
    assert Plug(u.Deep(u.x), Mk(Right, u.sr, u.s, u.sred, E)) == Plug(u.c, u.From());
    LeafColors(u.Deep(u.x), Right, u.sr, u.s, u.sred);
    CRbBase(u.cs, u.c, u.x, u.s, u.red, u.l, 0);
    CRbBase(u.cs, u.c, u.x, u.s, u.red, u.l, 1);
    CRbBase(u.cs, u.c, u.x, u.s, u.red, u.l, Bh(Paint(u.sr, false)));
  }

  /// What an erasure leaves to __rb_erase_color: nothing, or an empty slot that lacks a black node.
  ghost predicate Unlinked(m: Mem, rn: RbNode?, cb: Callbacks, am: Augs, rebalance: RbNode?, c: Ctx, t: Tree, w: World) {
    if rebalance == null then Repaired(m, rn, cb, am, Plug(c, t), w)
    else t.E? && Short(m, rn, cb, am, c, E, w) && c.x == rebalance
  }

  lemma SuccUnlinked(m: Mem, rn: RbNode?, cb: Callbacks, am: Augs, u: Succ, w': World)
    requires At(m, rn, u.c, u.To(), w') && AugAll(cb, am, u.c, u.To())
    requires Rb(Plug(u.c, u.From())) && !IsRed(Plug(u.c, u.From()))
    ensures Unlinked(m, rn, cb, am, if u.sr.E? && !u.sred then CNode(u.Deep(u.s)) else null, u.Deep(u.s), Paint(u.sr, false), w')
  {
    SuccColors(u);
    Up(m, rn, cb, am, u.Under(u.s), u.Rest(), w');
    UpAll(m, rn, cb, am, u.cs, u.Under(u.s), Paint(u.sr, false), w');
    if u.sr.N? || u.sred {
      Finished(m, rn, cb, am, u.Deep(u.s), Paint(u.sr, false), w');
    }
  }

  // ---------------------------------------------------------------- the search for the successor

  /// The loop of case 3: down the leftmost path under node's right child.
  method Leftmost(child: RbNode, ghost rn: RbNode?, ghost b: Ctx, ghost r: Tree, ghost w: World)
    returns (parent: RbNode, successor: RbNode, ghost cs: Ctx, ghost sred: bool, ghost sr: Tree)
    requires At(Snap(w.S), rn, b, r, w) && r.N? && r.x == child && r.l.N?
    ensures Spined(cs) && cs.In? && cs.x == parent && Plug(cs, N(E, successor, sred, sr)) == r
    ensures At(Snap(w.S), rn, Compose(cs, b), N(E, successor, sred, sr), w)
  {
    hide Rep, CRep, Ord, OrdHole, WorldOk, At;
    ghost var m, t := Snap(w.S), r.l;
    LeftNow(rn, b, r, w);
    AtUp(m, rn, In(b, Left, child, r.red, r.r), r.l, w);
    cs := In(Top, Left, child, r.red, r.r);
    assert Compose(Top, b) == b;
    LeftNow(rn, Compose(cs, b), t, w);
    var tmp := child.left;
    parent, successor := child, tmp;
    tmp := tmp.left;
    while tmp != null
      invariant Spined(cs) && cs.In? && cs.x == parent && t.N? && t.x == successor && Plug(cs, t) == r
      invariant At(m, rn, Compose(cs, b), t, w) && RootOf(t.l) == tmp
      decreases t
    {
      AtUp(m, rn, In(Compose(cs, b), Left, successor, t.red, t.r), t.l, w);
      cs, t := In(cs, Left, successor, t.red, t.r), t.l;
      LeftNow(rn, Compose(cs, b), t, w);
      parent, successor := successor, tmp;
      tmp := tmp.left;
    }
    sred, sr := t.red, t.r;
  }

  lemma LeftNow(rn: RbNode?, c: Ctx, t: Tree, w: World)
    requires At(Snap(w.S), rn, c, t, w) && t.N?
    ensures t.x in w.S && t.x.left == RootOf(t.l) && t.x.right == RootOf(t.r) && t.x.parent == CNode(c) && t.x.red == t.red
  {
    var m := Snap(w.S);
    assert m[t.x] == CellOf(t.x);
    RepRoot(m, t.l, m[t.x].left, t.x);
    RepRoot(m, t.r, m[t.x].right, t.x);
  }

  // ---------------------------------------------------------------- __rb_erase_augmented and rb_erase_augmented

  /// Where the node is, and what tree is expected there.
  ghost predicate Placed(m: Mem, rn: RbNode?, cb: Callbacks, am: Augs, c: Ctx, t: Tree, node: RbNode, w: World) {
    WorldOk(w) && At(m, rn, c, t, w) && AugAll(cb, am, c, t) && Rb(Plug(c, t)) && !IsRed(Plug(c, t)) && t.N? && t.x == node
  }

  /// The successor is ready to move into its new place; m is memory before.
  ghost predicate Poised(m: Mem, mA: Mem, rn: RbNode?, cb: Callbacks, am: Augs, rk: Rank, u: Succ, w: World) {
    At(m, rn, u.c, u.From(), w) && u.l.N? && Spined(u.cs) && Loose(m, mA, u) && Roomy(mA, rk, u, w.S) &&
    (cb.Max? ==> HalfAug(am, cb.compute, u))
  }

  /// Case 2 up to that point.
  method EraseNear(node: RbNode, child: RbNode, cb: Callbacks, ghost root: RbRoot, ghost c: Ctx, ghost t: Tree, ghost w: World)
    returns (child2: RbNode?, ghost rk: Rank, ghost u: Succ)
    requires Placed(Snap(w.S), root.node, cb, AugSnap(w.S), c, t, node, w) && t.l.N? && t.r.N? && t.r.x == child && t.r.l.E?
    modifies w.S`aug
    ensures Snap(w.S) == old(Snap(w.S)) && Poised(Snap(w.S), Snap(w.S), root.node, cb, AugSnap(w.S), rk, u, w)
    ensures u.c == c && u.From() == t && u.x == node && u.s == child && u.cs.Top? && RootOf(u.sr) == child2
  {
    u := Succ(c, t.l, node, t.red, Top, child, t.r.red, t.r.r);
    assert u.From() == t;
    SuccNow(root, u, w);
    child2 := child.right;
    rk := LiftNear(Snap(w.S), root.node, u, w);
    CopyNear(node, child, cb, root.node, u, w);
  }

  /// Case 3's search, with what it finds.
  method FindSuccessor(node: RbNode, child: RbNode, ghost root: RbRoot, ghost c: Ctx, ghost t: Tree, ghost w: World)
    returns (parent: RbNode, successor: RbNode, ghost u: Succ)
    requires At(Snap(w.S), root.node, c, t, w) && t.N? && t.x == node && t.l.N? && t.r.N? && t.r.x == child && t.r.l.N?
    ensures u.c == c && u.From() == t && u.x == node && u.l == t.l && u.s == successor && Spined(u.cs) && u.cs.In? && u.cs.x == parent
    ensures {node, successor} <= w.S && successor.right == RootOf(u.sr) && Child(u) == child
  {
    AtUp(Snap(w.S), root.node, In(c, Right, node, t.red, t.l), t.r, w);
    ghost var cs, sred, sr;
    parent, successor, cs, sred, sr := Leftmost(child, root.node, In(c, Right, node, t.red, t.l), t.r, w);
    u := Succ(c, t.l, node, t.red, cs, successor, sred, sr);
    SuccNow(root, u, w);
  }

  /// Case 3 up to that point.
  method EraseFar(node: RbNode, child: RbNode, cb: Callbacks, ghost root: RbRoot, ghost c: Ctx, ghost t: Tree, ghost w: World)
    returns (parent: RbNode, successor: RbNode, child2: RbNode?, ghost rk: Rank, ghost u: Succ)
    requires Placed(Snap(w.S), root.node, cb, AugSnap(w.S), c, t, node, w) && t.l.N? && t.r.N? && t.r.x == child && t.r.l.N?
    modifies w.S
    ensures Poised(old(Snap(w.S)), Snap(w.S), root.node, cb, AugSnap(w.S), rk, u, w)
    ensures u.c == c && u.From() == t && u.x == node && u.s == successor && u.cs.In? && u.cs.x == parent && RootOf(u.sr) == child2
    ensures CellOf(node) == old(CellOf(node))
  {
    ghost var m := Snap(w.S);
    parent, successor, u := FindSuccessor(node, child, root, c, t, w);
    child2 := successor.right;
    rk := Detach(parent, successor, child, root, u, w);
    CopyFar(node, successor, parent, cb, m, root.node, u, w);
  }

  /// Cases 2 and 3, for a node with two children.
  method EraseSucc(node: RbNode, child: RbNode, root: RbRoot, cb: Callbacks, ghost c: Ctx, ghost t: Tree, ghost w: World)
    returns (rebalance: RbNode?, ghost c': Ctx, ghost t': Tree)
    requires Placed(Snap(w.S), root.node, cb, AugSnap(w.S), c, t, node, w) && t.l.N? && t.r.N? && t.r.x == child
    requires child.left == RootOf(t.r.l)
    modifies w.S, root
    ensures Unlinked(Snap(w.S - {node}), root.node, cb, AugSnap(w.S - {node}), rebalance, c', t', Less(w, node))
    ensures CellOf(node) == old(CellOf(node))
  {
    hide Rep, CRep, Ord, OrdHole, WorldOk, At, AugAll, Rb, Poised, Unlinked;
    ghost var m, rk, u := Snap(w.S), map[], Succ(c, t, node, false, Top, node, false, E);
    var parent, successor, child2 := child, child, null;
    if child.left == null {
      child2, rk, u := EraseNear(node, child, cb, root, c, t, w);
    } else {
      parent, successor, child2, rk, u := EraseFar(node, child, cb, root, c, t, w);
    }
    rebalance := Settle(node, successor, child2, parent, root, cb, m, rk, u, w);
    c', t' := u.Deep(successor), Paint(u.sr, false);
  }

  /// The successor's fields.
  lemma SuccNow(root: RbRoot, u: Succ, w: World)
    requires At(Snap(w.S), root.node, u.c, u.From(), w) && u.l.N? && Spined(u.cs)
    ensures {u.x, u.s} <= w.S && u.s.right == RootOf(u.sr) && u.s.red == u.sred && u.x.left == u.l.x
  {
    SuccFacts(Snap(w.S), root.node, u, w);
    AtSucc(Snap(w.S), root.node, u, w);
    SpliceOpen(Snap(w.S), root.node, u.Deep(u.x), Right, u.sr, u.s, u.sred, w.pos);
    assert Snap(w.S)[u.s] == CellOf(u.s);
    assert Snap(w.S)[u.x] == CellOf(u.x);
  }

  lemma LooseFields(m: Mem, mA: Mem, rn: RbNode?, u: Succ, w: World)
    requires At(m, rn, u.c, u.From(), w) && u.l.N? && Spined(u.cs) && Loose(m, mA, u) && m.Keys == w.S
    ensures {u.x, u.s} <= mA.Keys && mA[u.x].left == u.l.x && mA[u.s].red == u.sred
  {
    SuccFacts(m, rn, u, w);
  }

  /// The remaining stores, with the augmented data.
  method Replace(node: RbNode, successor: RbNode, left: RbNode, child2: RbNode?, parent: RbNode, root: RbRoot, cb: Callbacks,
    ghost m: Mem, ghost rk: Rank, ghost u: Succ, ghost w: World)
    requires WorldOk(w) && m.Keys == w.S && Poised(m, Snap(w.S), root.node, cb, AugSnap(w.S), rk, u, w)
    requires u.x == node && u.s == successor && u.l.x == left && RootOf(u.sr) == child2 && parent == if u.cs.Top? then successor else u.cs.x
    modifies w.S, root
    ensures At(Snap(w.S - {node}), root.node, u.c, u.To(), Less(w, node))
    ensures cb.Max? ==> HalfAug(AugSnap(w.S - {node}), cb.compute, u)
    ensures CellOf(node) == old(CellOf(node))
  {
    ghost var am := AugSnap(w.S);
    AtSucc(m, root.node, u, w);
    Attach(node, successor, left, child2, parent, root, m, rk, u, w);
    if cb.Max? {
      GoneAug(am, AugSnap(w.S - {node}), cb.compute, w.pos, u);
    }
  }

  /// The end of cases 2 and 3.
  method Settle(node: RbNode, successor: RbNode, child2: RbNode?, parent: RbNode, root: RbRoot, cb: Callbacks,
    ghost m: Mem, ghost rk: Rank, ghost u: Succ, ghost w: World) returns (rebalance: RbNode?)
    requires WorldOk(w) && m.Keys == w.S && Poised(m, Snap(w.S), root.node, cb, AugSnap(w.S), rk, u, w)
    requires u.x == node && u.s == successor && RootOf(u.sr) == child2 && parent == if u.cs.Top? then successor else u.cs.x
    requires Rb(Plug(u.c, u.From())) && !IsRed(Plug(u.c, u.From()))
    modifies w.S, root
    ensures Unlinked(Snap(w.S - {node}), root.node, cb, AugSnap(w.S - {node}), rebalance, u.Deep(successor), Paint(u.sr, false), Less(w, node))
    ensures CellOf(node) == old(CellOf(node))
  {
    hide Rep, CRep, Ord, OrdHole, At, AugAll, HalfAug, Loose, Roomy, Rb, Unlinked;
    ghost var w' := Less(w, node);
    LooseFields(m, Snap(w.S), root.node, u, w);
    var left: RbNode := node.left;
    rebalance := if child2 == null && !successor.red then parent else null;
    Replace(node, successor, left, child2, parent, root, cb, m, rk, u, w);
    Rise(successor, cb, root.node, u, w');
    SuccUnlinked(Snap(w'.S), root.node, cb, AugSnap(w'.S), u, w');
  }

  lemma OneUnlinked(m: Mem, rn: RbNode?, cb: Callbacks, am: Augs, c: Ctx, d: Side, kid: Tree, x: RbNode, red: bool, w': World)
    requires At(m, rn, c, Paint(kid, red), w') && AugAll(cb, am, c, Paint(kid, red))
    requires Rb(Plug(c, Mk(d, kid, x, red, E))) && !IsRed(Plug(c, Mk(d, kid, x, red, E)))
    ensures Unlinked(m, rn, cb, am, if kid.E? && !red then CNode(c) else null, c, Paint(kid, red), w')
  {
    LeafColors(c, d, kid, x, red);
    if kid.N? || red || c.Top? {
      Finished(m, rn, cb, am, c, Paint(kid, red), w');
    }
  }

  lemma RightNow(rn: RbNode?, c: Ctx, t: Tree, w: World)
    requires At(Snap(w.S), rn, c, t, w) && t.N? && t.r.N?
    ensures t.r.x in w.S && t.r.x.left == RootOf(t.r.l)
  {
    AtUp(Snap(w.S), rn, In(c, Right, t.x, t.red, t.l), t.r, w);
    LeftNow(rn, In(c, Right, t.x, t.red, t.l), t.r, w);
  }

  /// __rb_erase_augmented: afterwards the tree no longer has node, and is valid
  /// unless a slot below rebalance lacks a black node.
  method EraseAugmented(node: RbNode, root: RbRoot, cb: Callbacks, ghost c: Ctx, ghost t: Tree, ghost w: World)
    returns (rebalance: RbNode?, ghost c': Ctx, ghost t': Tree)
    requires Placed(Snap(w.S), root.node, cb, AugSnap(w.S), c, t, node, w)
    modifies w.S, root
    ensures Unlinked(Snap(w.S - {node}), root.node, cb, AugSnap(w.S - {node}), rebalance, c', t', Less(w, node))
    ensures CellOf(node) == old(CellOf(node))
  {
    hide Rep, CRep, Ord, OrdHole, WorldOk, At, AugAll, Rb, Unlinked;
    LeftNow(root.node, c, t, w);
    var child, tmp := node.right, node.left;
    var parent, black := node.parent, !node.red;
    if tmp == null {
      assert t == Mk(Right, t.r, node, t.red, E);
      rebalance := if child == null && black then parent else null;
      EraseOne(node, child, false, root, cb, c, Right, t.r, t.red, w);
      OneUnlinked(Snap(w.S - {node}), root.node, cb, AugSnap(w.S - {node}), c, Right, t.r, node, t.red, Less(w, node));
      c', t' := c, Paint(t.r, t.red);
    } else if child == null {
      assert t == Mk(Left, t.l, node, t.red, E);
      rebalance := null;
      EraseOne(node, tmp, true, root, cb, c, Left, t.l, t.red, w);
      OneUnlinked(Snap(w.S - {node}), root.node, cb, AugSnap(w.S - {node}), c, Left, t.l, node, t.red, Less(w, node));
      c', t' := c, Paint(t.l, t.red);
    } else {
      RightNow(root.node, c, t, w);
      rebalance, c', t' := EraseSucc(node, child, root, cb, c, t, w);
    }
  }

  /// rb_erase and rb_erase_augmented: the tree loses exactly node, and is valid again.
  method Erase(node: RbNode, root: RbRoot, cb: Callbacks, ghost c: Ctx, ghost t: Tree, ghost w: World) returns (ghost t': Tree)
    requires Placed(Snap(w.S), root.node, cb, AugSnap(w.S), c, t, node, w)
    modifies w.S, root
    ensures Repaired(Snap(w.S - {node}), root.node, cb, AugSnap(w.S - {node}), t', Less(w, node)) && WorldOk(Less(w, node))
    ensures CellOf(node) == old(CellOf(node))
  {
    hide Rep, CRep, Ord, OrdHole, WorldOk, AugAll, Rb, Repaired, Short, At;
    LessOk(Snap(w.S), root.node, c, t.l, node, t.red, t.r, w);
    var rebalance;
    ghost var c';
    rebalance, c', t' := EraseAugmented(node, root, cb, c, t, w);
    if rebalance != null {
      t' := EraseColor(rebalance, root, cb, c', Less(w, node));
    } else {
      t' := Plug(c', t');
    }
  }
}
