/// The nodes of the red-black tree, the memory they make up, and the tree or
/// tree-with-a-hole that a piece of that memory represents.
module RbShape {
  import opened Basics

  datatype Side = Left | Right {
    function Flip(): Side { if Left? then Right else Left }
  }

  /// `struct rb_node`, with the parent pointer and the colour bit as separate
  /// fields, and the subtree datum that an augmented container keeps beside it.
  class RbNode {
    var left: RbNode?
    var right: RbNode?
    var parent: RbNode?
    var red: bool
    var aug: int

    constructor ()
    {
    }

    function Kid(d: Side): RbNode?
      reads this
    {
      if d.Left? then left else right
    }
  }

  class RbRoot {
    var node: RbNode?

    constructor ()
      ensures node == null
    {
      node := null;
    }
  }

  // ---------------------------------------------------------------- memory

  /// The link fields of one node, as a value.
  datatype Cell = Cell(left: RbNode?, right: RbNode?, parent: RbNode?, red: bool) {
    ghost function Kid(d: Side): RbNode? { if d.Left? then left else right }

    ghost function SetKid(d: Side, v: RbNode?): Cell {
      if d.Left? then this.(left := v) else this.(right := v)
    }
  }

  type Mem = map<RbNode, Cell>

  ghost function CellOf(x: RbNode): Cell
    reads x
  {
    Cell(x.left, x.right, x.parent, x.red)
  }

  ghost function Snap(S: set<RbNode>): (m: Mem)
    reads S
    ensures m.Keys == S
    ensures forall x | x in S :: m[x] == CellOf(x)
  {
    map x | x in S :: CellOf(x)
  }

  ghost function Opt(x: RbNode?): set<RbNode> { if x == null then {} else {x} }

  /// The two memories differ at most on the nodes of D.
  ghost predicate AgreeBut(m: Mem, m': Mem, D: set<RbNode>) {
    forall x | x in m && x !in D :: x in m' && m'[x] == m[x]
  }

  // ---------------------------------------------------------------- trees and contexts

  datatype Tree = E | N(l: Tree, x: RbNode, red: bool, r: Tree)

  /// A tree with one subtree taken out: the hole is the d-side child of x, and
  /// sib hangs on x's other side.
  datatype Ctx = Top | In(up: Ctx, d: Side, x: RbNode, red: bool, sib: Tree)

  ghost function Mk(d: Side, near: Tree, x: RbNode, red: bool, far: Tree): Tree {
    if d.Left? then N(near, x, red, far) else N(far, x, red, near)
  }

  ghost function Plug(c: Ctx, t: Tree): Tree
    decreases c
  {
    match c
    case Top => t
    case In(up, d, x, red, sib) => Plug(up, Mk(d, t, x, red, sib))
  }

  /// The tree with its root recoloured.
  ghost function Paint(t: Tree, red: bool): Tree {
    if t.E? then E else N(t.l, t.x, red, t.r)
  }

  ghost function RootOf(t: Tree): RbNode? { if t.E? then null else t.x }

  ghost predicate IsRed(t: Tree) { t.N? && t.red }

  ghost function CNode(c: Ctx): RbNode? { if c.Top? then null else c.x }

  ghost function CSide(c: Ctx): Side { if c.Top? then Left else c.d }

  ghost function Nodes(t: Tree): set<RbNode> {
    match t
    case E => {}
    case N(l, x, _, r) => Nodes(l) + {x} + Nodes(r)
  }

  ghost function Inorder(t: Tree): seq<RbNode> {
    match t
    case E => []
    case N(l, x, _, r) => Inorder(l) + [x] + Inorder(r)
  }

  ghost function Before(c: Ctx): seq<RbNode> {
    match c
    case Top => []
    case In(up, d, x, _, sib) => if d.Left? then Before(up) else Before(up) + Inorder(sib) + [x]
  }

  ghost function After(c: Ctx): seq<RbNode> {
    match c
    case Top => []
    case In(up, d, x, _, sib) => if d.Left? then [x] + Inorder(sib) + After(up) else After(up)
  }

  lemma InorderMk(d: Side, t: Tree, x: RbNode, red: bool, sib: Tree, before: seq<RbNode>, after: seq<RbNode>)
    ensures before + Inorder(Mk(d, t, x, red, sib)) + after ==
            (if d.Left? then before else before + Inorder(sib) + [x]) + Inorder(t) +
            (if d.Left? then [x] + Inorder(sib) + after else after)
  {
  }

  lemma {:induction false} InorderPlug(c: Ctx, t: Tree)
    ensures Inorder(Plug(c, t)) == Before(c) + Inorder(t) + After(c)
    decreases c
  {
    match c
    case Top =>
    case In(up, d, x, red, sib) =>
      InorderPlug(up, Mk(d, t, x, red, sib));
      InorderMk(d, t, x, red, sib, Before(up), After(up));
  }

  lemma InorderRefill(c: Ctx, t: Tree, t': Tree)
    requires Inorder(t) == Inorder(t')
    ensures Inorder(Plug(c, t)) == Inorder(Plug(c, t'))
  {
    InorderPlug(c, t);
    InorderPlug(c, t');
  }

  /// A rotation keeps the in-order sequence.
  lemma InorderTurn(d: Side, a: Tree, p: RbNode, b: Tree, gp: RbNode, u: Tree, r0: bool, r1: bool, r2: bool, r3: bool)
    ensures Inorder(Mk(d, a, p, r2, Mk(d, b, gp, r3, u))) == Inorder(Mk(d, Mk(d, a, p, r0, b), gp, r1, u))
  {
    if d.Left? {
      assert Inorder(a) + [p] + (Inorder(b) + [gp] + Inorder(u)) == Inorder(a) + [p] + Inorder(b) + [gp] + Inorder(u);
    } else {
      assert Inorder(u) + [gp] + Inorder(b) + [p] + Inorder(a) == Inorder(u) + [gp] + (Inorder(b) + [p] + Inorder(a));
    }
  }

  lemma InorderPaint(t: Tree, red: bool)
    ensures Inorder(Paint(t, red)) == Inorder(t)
  {
  }

  lemma {:induction false} InorderNodes(t: Tree)
    ensures forall x | x in Nodes(t) :: x in Inorder(t)
    ensures forall x | x in Inorder(t) :: x in Nodes(t)
  {
    match t
    case E =>
    case N(l, _, _, r) =>
      InorderNodes(l);
      InorderNodes(r);
  }

  /// Positions of the nodes in the in-order sequence. They stand still while
  /// the tree is being rebalanced, so they tell its parts from each other.
  type Pos = map<RbNode, int>

  /// The nodes of t have increasing positions strictly between lo and hi.
  ghost predicate Ord(pos: Pos, t: Tree, lo: int, hi: int) {
    match t
    case E => true
    case N(l, x, _, r) => x in pos && lo < pos[x] < hi && Ord(pos, l, lo, pos[x]) && Ord(pos, r, pos[x], hi)
  }

  ghost function Lo(pos: Pos, c: Ctx): int {
    match c
    case Top => -1
    case In(up, d, x, _, _) => if d.Right? && x in pos then pos[x] else Lo(pos, up)
  }

  ghost function Hi(pos: Pos, c: Ctx): int {
    match c
    case Top => |pos|
    case In(up, d, x, _, _) => if d.Left? && x in pos then pos[x] else Hi(pos, up)
  }

  ghost predicate COrd(pos: Pos, c: Ctx) {
    match c
    case Top => true
    case In(up, d, x, _, sib) =>
      x in pos && Lo(pos, up) < pos[x] < Hi(pos, up) && COrd(pos, up) &&
      if d.Left? then Ord(pos, sib, pos[x], Hi(pos, up)) else Ord(pos, sib, Lo(pos, up), pos[x])
  }

  ghost predicate OrdHole(pos: Pos, c: Ctx, t: Tree) { COrd(pos, c) && Ord(pos, t, Lo(pos, c), Hi(pos, c)) }

  lemma OrdMk(pos: Pos, c: Ctx, d: Side, t: Tree, x: RbNode, red: bool, sib: Tree)
    ensures OrdHole(pos, c, Mk(d, t, x, red, sib)) <==> OrdHole(pos, In(c, d, x, red, sib), t)
  {
  }

  /// The position intervals of the three subtrees around a rotation of p under gp.
  datatype Spans = Spans(la: int, ha: int, lb: int, hb: int, lu: int, hu: int)

  ghost function SpansOf(pos: Pos, c: Ctx, d: Side, p: RbNode, gp: RbNode): Spans
    requires p in pos && gp in pos
  {
    var lo, hi := Lo(pos, c), Hi(pos, c);
    if d.Left? then Spans(lo, pos[p], pos[p], pos[gp], pos[gp], hi)
    else Spans(pos[p], hi, pos[gp], pos[p], lo, pos[gp])
  }

  ghost predicate OrdParts(pos: Pos, c: Ctx, d: Side, a: Tree, p: RbNode, b: Tree, gp: RbNode, u: Tree) {
    p in pos && gp in pos && p != gp && COrd(pos, c) &&
    Inside(pos, {p, gp}, Lo(pos, c), Hi(pos, c)) &&
    var s := SpansOf(pos, c, d, p, gp);
    s.lb < s.hb && Ord(pos, a, s.la, s.ha) && Ord(pos, b, s.lb, s.hb) && Ord(pos, u, s.lu, s.hu)
  }

  lemma OrdTree(pos: Pos, d: Side, a: Tree, x: RbNode, red: bool, b: Tree, lo: int, hi: int)
    ensures Ord(pos, Mk(d, a, x, red, b), lo, hi) <==>
            x in pos && lo < pos[x] < hi &&
            if d.Left? then Ord(pos, a, lo, pos[x]) && Ord(pos, b, pos[x], hi)
            else Ord(pos, b, lo, pos[x]) && Ord(pos, a, pos[x], hi)
  {
  }

  lemma OrdBefore(pos: Pos, c: Ctx, d: Side, a: Tree, p: RbNode, r0: bool, b: Tree, gp: RbNode, r1: bool, u: Tree)
    ensures OrdHole(pos, c, Mk(d, Mk(d, a, p, r0, b), gp, r1, u)) <==> OrdParts(pos, c, d, a, p, b, gp, u)
  {
    var lo, hi := Lo(pos, c), Hi(pos, c);
    OrdTree(pos, d, Mk(d, a, p, r0, b), gp, r1, u, lo, hi);
    if gp in pos {
      OrdTree(pos, d, a, p, r0, b, if d.Left? then lo else pos[gp], if d.Left? then pos[gp] else hi);
    }
  }

  lemma OrdAfter(pos: Pos, c: Ctx, d: Side, a: Tree, p: RbNode, r0: bool, b: Tree, gp: RbNode, r1: bool, u: Tree)
    ensures OrdHole(pos, c, Mk(d, a, p, r0, Mk(d, b, gp, r1, u))) <==> OrdParts(pos, c, d, a, p, b, gp, u)
  {
    var lo, hi := Lo(pos, c), Hi(pos, c);
    OrdTree(pos, d, a, p, r0, Mk(d, b, gp, r1, u), lo, hi);
    if p in pos {
      OrdTree(pos, d, b, gp, r1, u, if d.Left? then pos[p] else lo, if d.Left? then hi else pos[p]);
    }
  }

  ghost predicate Outside(pos: Pos, D: set<RbNode>, lo: int, hi: int) {
    forall q | q in D && q in pos :: pos[q] <= lo || hi <= pos[q]
  }

  ghost predicate Inside(pos: Pos, D: set<RbNode>, lo: int, hi: int) {
    forall q | q in D :: q in pos && lo < pos[q] < hi
  }

  /// The nodes on the rim of a rotation are all different.
  lemma OrdRim(pos: Pos, c: Ctx, d: Side, a: Tree, p: RbNode, b: Tree, gp: RbNode, u: Tree)
    requires OrdParts(pos, c, d, a, p, b, gp, u)
    ensures p != gp && RootOf(a) != p && RootOf(a) != gp && RootOf(b) != p && RootOf(b) != gp && RootOf(u) != p && RootOf(u) != gp
    ensures CNode(c) != p && CNode(c) != gp
    ensures b.N? ==> RootOf(a) != RootOf(b) && RootOf(u) != RootOf(b) && CNode(c) != RootOf(b)
  {
  }

  /// The nodes that a rotation touches lie outside the subtrees it leaves alone.
  lemma OrdTouched(pos: Pos, c: Ctx, d: Side, a: Tree, p: RbNode, b: Tree, gp: RbNode, u: Tree)
    requires OrdParts(pos, c, d, a, p, b, gp, u)
    ensures var s := SpansOf(pos, c, d, p, gp); var D := {p, gp} + Opt(RootOf(b)) + Opt(CNode(c));
            Outside(pos, D, s.la, s.ha) && Outside(pos, D, s.lu, s.hu)
    ensures var s := SpansOf(pos, c, d, p, gp); Outside(pos, {p, gp} + Opt(CNode(c)), s.lb, s.hb)
    ensures Inside(pos, {p, gp} + Opt(RootOf(b)), Lo(pos, c), Hi(pos, c))
  {
    var s, lo, hi := SpansOf(pos, c, d, p, gp), Lo(pos, c), Hi(pos, c);
    OrdEdge(pos, c);
    OrdTop(pos, b, s.lb, s.hb);
    TouchedApart(pos, d, p, gp, RootOf(b), CNode(c), lo, hi);
  }

  lemma OrdEdge(pos: Pos, c: Ctx)
    requires COrd(pos, c)
    ensures c.In? ==> c.x in pos && (pos[c.x] == Lo(pos, c) || pos[c.x] == Hi(pos, c))
  {
  }

  lemma OrdTop(pos: Pos, t: Tree, lo: int, hi: int)
    requires Ord(pos, t, lo, hi)
    ensures t.N? ==> t.x in pos && lo < pos[t.x] < hi
  {
  }

  lemma TouchedApart(pos: Pos, d: Side, p: RbNode, gp: RbNode, b: RbNode?, cx: RbNode?, lo: int, hi: int)
    requires {p, gp} <= pos.Keys && lo < pos[p] < hi && lo < pos[gp] < hi && if d.Left? then pos[p] < pos[gp] else pos[gp] < pos[p]
    requires b != null ==> b in pos && if d.Left? then pos[p] < pos[b] < pos[gp] else pos[gp] < pos[b] < pos[p]
    requires cx != null ==> cx in pos && (pos[cx] == lo || pos[cx] == hi)
    ensures Outside(pos, {p, gp} + Opt(b) + Opt(cx), if d.Left? then lo else pos[p], if d.Left? then pos[p] else hi)
    ensures Outside(pos, {p, gp} + Opt(b) + Opt(cx), if d.Left? then pos[gp] else lo, if d.Left? then hi else pos[gp])
    ensures Outside(pos, {p, gp} + Opt(cx), if d.Left? then pos[p] else pos[gp], if d.Left? then pos[gp] else pos[p])
    ensures Inside(pos, {p, gp} + Opt(b), lo, hi)
  {
  }

  lemma {:induction false} OrdPlug(pos: Pos, c: Ctx, t: Tree)
    ensures OrdHole(pos, c, t) <==> OrdHole(pos, Top, Plug(c, t))
    decreases c
  {
    match c
    case Top =>
    case In(up, d, x, red, sib) =>
      OrdMk(pos, up, d, t, x, red, sib);
      OrdPlug(pos, up, Mk(d, t, x, red, sib));
  }

  // ---------------------------------------------------------------- representation

  /// Memory m holds the tree t: p is its root and up its root's parent.
  ghost predicate Rep(m: Mem, t: Tree, p: RbNode?, up: RbNode?) {
    match t
    case E => p == null
    case N(l, x, red, r) =>
      p == x && x in m && m[x].parent == up && m[x].red == red &&
      Rep(m, l, m[x].left, x) && Rep(m, r, m[x].right, x)
  }

  /// Memory m and root pointer rn hold the context c, whose hole is filled by h.
  ghost predicate CRep(m: Mem, c: Ctx, rn: RbNode?, h: RbNode?) {
    match c
    case Top => rn == h
    case In(up, d, x, red, sib) =>
      x in m && m[x].Kid(d) == h && m[x].red == red && m[x].parent == CNode(up) &&
      Rep(m, sib, m[x].Kid(d.Flip()), x) && CRep(m, up, rn, x)
  }

  lemma RepMk(m: Mem, d: Side, a: Tree, x: RbNode, red: bool, b: Tree, up: RbNode?)
    ensures Rep(m, Mk(d, a, x, red, b), x, up) <==>
            x in m && m[x].parent == up && m[x].red == red &&
            Rep(m, a, m[x].Kid(d), x) && Rep(m, b, m[x].Kid(d.Flip()), x)
  {
  }

  lemma {:induction false} RepFrame(m: Mem, m': Mem, pos: Pos, t: Tree, lo: int, hi: int, p: RbNode?, up: RbNode?, D: set<RbNode>)
    requires Rep(m, t, p, up) && Ord(pos, t, lo, hi)
    requires AgreeBut(m, m', D) && Outside(pos, D, lo, hi)
    ensures Rep(m', t, p, up)
  {
    match t
    case E =>
    case N(l, x, _, r) =>
      RepFrame(m, m', pos, l, lo, pos[x], m[x].left, x, D);
      RepFrame(m, m', pos, r, pos[x], hi, m[x].right, x, D);
  }

  lemma {:induction false} CRepFrame(m: Mem, m': Mem, pos: Pos, c: Ctx, rn: RbNode?, h: RbNode?, D: set<RbNode>)
    requires CRep(m, c, rn, h) && COrd(pos, c)
    requires AgreeBut(m, m', D) && Inside(pos, D, Lo(pos, c), Hi(pos, c))
    ensures CRep(m', c, rn, h)
  {
    match c
    case Top =>
    case In(up, d, x, _, sib) =>
      var lo, hi := if d.Left? then pos[x] else Lo(pos, up), if d.Left? then Hi(pos, up) else pos[x];
      RepFrame(m, m', pos, sib, lo, hi, m[x].Kid(d.Flip()), x, D);
      CRepFrame(m, m', pos, up, rn, x, D);
  }

  /// h' is stored into the slot of the context that held h, and nothing else in it changes.
  ghost predicate Hung(m: Mem, m': Mem, c: Ctx, rn: RbNode?, rn': RbNode?, h': RbNode?) {
    if c.Top? then rn' == h' else rn' == rn && c.x in m && c.x in m' && m'[c.x] == m[c.x].SetKid(c.d, h')
  }

  lemma CRepHang(m: Mem, m': Mem, pos: Pos, c: Ctx, rn: RbNode?, rn': RbNode?, h: RbNode?, h': RbNode?, D: set<RbNode>)
    requires CRep(m, c, rn, h) && COrd(pos, c) && Hung(m, m', c, rn, rn', h')
    requires AgreeBut(m, m', D + Opt(CNode(c))) && Inside(pos, D, Lo(pos, c), Hi(pos, c))
    ensures CRep(m', c, rn', h')
  {
    match c
    case Top =>
    case In(up, d, x, _, sib) =>
      var lo, hi := if d.Left? then pos[x] else Lo(pos, up), if d.Left? then Hi(pos, up) else pos[x];
      RepFrame(m, m', pos, sib, lo, hi, m[x].Kid(d.Flip()), x, D + {x});
      CRepFrame(m, m', pos, up, rn, x, D + {x});
  }

  lemma {:induction false} RepPlug(m: Mem, c: Ctx, rn: RbNode?, h: RbNode?, t: Tree)
    ensures CRep(m, c, rn, h) && Rep(m, t, h, CNode(c)) ==> Rep(m, Plug(c, t), rn, null)
    decreases c
  {
    match c
    case Top =>
    case In(up, d, x, red, sib) =>
      RepMk(m, d, t, x, red, sib, CNode(up));
      RepPlug(m, up, rn, x, Mk(d, t, x, red, sib));
  }

  /// The root of t is moved under up' and recoloured.
  lemma RepPaint(m: Mem, m': Mem, pos: Pos, t: Tree, lo: int, hi: int, p: RbNode?, up: RbNode?, up': RbNode?, red: bool, D: set<RbNode>)
    requires Rep(m, t, p, up) && Ord(pos, t, lo, hi)
    requires p != null ==> p in m && p in m' && m'[p] == m[p].(parent := up', red := red)
    requires AgreeBut(m, m', D + Opt(p)) && Outside(pos, D, lo, hi)
    ensures Rep(m', Paint(t, red), p, up')
  {
    if t.N? {
      RepFrame(m, m', pos, t.l, lo, pos[p], m[p].left, p, D + {p});
      RepFrame(m, m', pos, t.r, pos[p], hi, m[p].right, p, D + {p});
    }
  }

  /// The three subtrees around a rotation, b going from p to gp with its root recoloured.
  lemma TurnParts(m: Mem, m': Mem, pos: Pos, c: Ctx, d: Side, a: Tree, p: RbNode, b: Tree, gp: RbNode, u: Tree,
    pa: RbNode?, pb: RbNode?, pu: RbNode?, red: bool)
    requires OrdParts(pos, c, d, a, p, b, gp, u)
    requires Rep(m, a, pa, p) && Rep(m, b, pb, p) && Rep(m, u, pu, gp)
    requires b.N? ==> b.x in m && b.x in m' && m'[b.x] == m[b.x].(parent := gp, red := red)
    requires AgreeBut(m, m', {p, gp} + Opt(RootOf(b)) + Opt(CNode(c)))
    ensures Rep(m', a, pa, p) && Rep(m', u, pu, gp) && Rep(m', Paint(b, red), pb, gp)
  {
    var s := SpansOf(pos, c, d, p, gp);
    OrdTouched(pos, c, d, a, p, b, gp, u);
    RepFrame(m, m', pos, a, s.la, s.ha, pa, p, {p, gp} + Opt(RootOf(b)) + Opt(CNode(c)));
    RepFrame(m, m', pos, u, s.lu, s.hu, pu, gp, {p, gp} + Opt(RootOf(b)) + Opt(CNode(c)));
    RepPaint(m, m', pos, b, s.lb, s.hb, pb, p, gp, red, {p, gp} + Opt(CNode(c)));
  }

  // ---------------------------------------------------------------- loop freedom

  /// A ranking of the nodes: every child pointer leads to a lower rank. While
  /// one exists, no walk along child pointers can come back to where it was.
  type Rank = map<RbNode, real>

  ghost predicate Below(rk: Rank, kid: RbNode?, x: RbNode) {
    kid != null ==> kid in rk && x in rk && rk[kid] < rk[x]
  }

  ghost predicate Ranked(S: set<RbNode>, older rk: Rank)
    reads S`left, S`right
  {
    rk.Keys == S &&
    forall x | x in S :: Below(rk, x.left, x) && Below(rk, x.right, x)
  }

  /// The child-pointer graph of S has no loop.
  ghost predicate LoopFree(S: set<RbNode>)
    reads S`left, S`right
  {
    exists rk: Rank :: Ranked(S, rk)
  }

  /// A node may be given any higher rank that stays below all nodes that point to it.
  lemma Raise(x: RbNode, r: real, S: set<RbNode>, rk: Rank)
    requires Ranked(S, rk) && x in S && rk[x] <= r
    requires forall y | y in S && (y.left == x || y.right == x) :: r < rk[y]
    ensures Ranked(S, rk[x := r])
  {
  }

  /// A rank above x and, when up is given, below up.
  ghost function Amid(rk: Rank, x: RbNode, up: RbNode?): real {
    if x in rk then if up in rk then (rk[x] + rk[up]) / 2.0 else rk[x] + 1.0 else 0.0
  }

  ghost function Height(t: Tree): nat {
    match t
    case E => 0
    case N(l, _, _, r) => 1 + if Height(l) < Height(r) then Height(r) else Height(l)
  }

  ghost function HeightRank(t: Tree): Rank {
    match t
    case E => map[]
    case N(l, x, _, r) => HeightRank(l) + HeightRank(r) + map[x := Height(t) as real]
  }

  lemma {:induction false} HeightRankDomain(t: Tree)
    ensures HeightRank(t).Keys == Nodes(t)
  {
    match t
    case E =>
    case N(l, _, _, r) =>
      HeightRankDomain(l);
      HeightRankDomain(r);
  }

  lemma {:induction false} OrdNodes(pos: Pos, t: Tree, lo: int, hi: int)
    requires Ord(pos, t, lo, hi)
    ensures Inside(pos, Nodes(t), lo, hi)
  {
    match t
    case E =>
    case N(l, x, _, r) =>
      OrdNodes(pos, l, lo, pos[x]);
      OrdNodes(pos, r, pos[x], hi);
  }

  ghost predicate RankedMem(m: Mem, s: set<RbNode>, rk: Rank) {
    forall x | x in s && x in m :: Below(rk, m[x].left, x) && Below(rk, m[x].right, x)
  }

  lemma RankedExtend(m: Mem, s: set<RbNode>, rk: Rank, rk': Rank)
    requires RankedMem(m, s, rk)
    requires forall x | x in rk :: x in rk' && rk'[x] == rk[x]
    ensures RankedMem(m, s, rk')
  {
  }

  lemma {:induction false} TreeRanked(m: Mem, pos: Pos, t: Tree, lo: int, hi: int, p: RbNode?, up: RbNode?)
    requires Rep(m, t, p, up) && Ord(pos, t, lo, hi)
    ensures RankedMem(m, Nodes(t), HeightRank(t))
    ensures HeightRank(t).Keys == Nodes(t)
    ensures t.N? ==> HeightRank(t)[t.x] == Height(t) as real
  {
    HeightRankDomain(t);
    match t
    case E =>
    case N(l, x, _, r) =>
      TreeRanked(m, pos, l, lo, pos[x], m[x].left, x);
      TreeRanked(m, pos, r, pos[x], hi, m[x].right, x);
      OrdNodes(pos, l, lo, pos[x]);
      OrdNodes(pos, r, pos[x], hi);
      RankedExtend(m, Nodes(l), HeightRank(l), HeightRank(t));
      RankedExtend(m, Nodes(r), HeightRank(r), HeightRank(t));
      assert Below(HeightRank(t), m[x].left, x) && Below(HeightRank(t), m[x].right, x);
  }

  /// A child pointer to y is held by y's parent only.
  ghost predicate OneParent(m: Mem, s: set<RbNode>) {
    forall x, y | x in s && x in m && y in m && (m[x].left == y || m[x].right == y) :: m[y].parent == x
  }

  lemma {:induction false} TreeOneParent(m: Mem, t: Tree, p: RbNode?, up: RbNode?)
    requires Rep(m, t, p, up)
    ensures OneParent(m, Nodes(t))
    ensures forall x | x in Nodes(t) && x in m ::
              (m[x].left != null ==> m[x].left in Nodes(t)) && (m[x].right != null ==> m[x].right in Nodes(t))
  {
    match t
    case E =>
    case N(l, x, _, r) =>
      TreeOneParent(m, l, m[x].left, x);
      TreeOneParent(m, r, m[x].right, x);
  }

  // ---------------------------------------------------------------- the tree in memory

  /// The nodes of the tree, their in-order sequence and their positions in it.
  datatype World = World(S: set<RbNode>, ord: seq<RbNode>, pos: Pos)

  ghost predicate WorldOk(w: World) {
    (forall x | x in w.S :: x in w.ord) && (forall x | x in w.ord :: x in w.S)
  }

  /// Memory and root pointer hold the tree Plug(c, t), whose in-order sequence is w's.
  ghost predicate At(m: Mem, rn: RbNode?, c: Ctx, t: Tree, w: World) {
    Rep(m, t, RootOf(t), CNode(c)) && CRep(m, c, rn, RootOf(t)) &&
    OrdHole(w.pos, c, t) && Inorder(Plug(c, t)) == w.ord
  }

  lemma AtUp(m: Mem, rn: RbNode?, c: Ctx, t: Tree, w: World)
    requires c.In?
    ensures At(m, rn, c, t, w) <==> At(m, rn, c.up, Mk(c.d, t, c.x, c.red, c.sib), w)
  {
    RepMk(m, c.d, t, c.x, c.red, c.sib, CNode(c.up));
    OrdMk(w.pos, c.up, c.d, t, c.x, c.red, c.sib);
  }

  lemma {:induction false} AtPlug(m: Mem, rn: RbNode?, c: Ctx, t: Tree, w: World)
    ensures At(m, rn, c, t, w) <==> At(m, rn, Top, Plug(c, t), w)
    decreases c
  {
    match c
    case Top =>
    case In(up, d, x, red, sib) =>
      AtUp(m, rn, c, t, w);
      AtPlug(m, rn, up, Mk(d, t, x, red, sib), w);
  }

  /// In a tree the child pointers are loop free, and each is matched by a parent pointer.
  lemma AtLinked(m: Mem, rn: RbNode?, c: Ctx, t: Tree, w: World) returns (rk: Rank)
    requires At(m, rn, c, t, w) && WorldOk(w) && m.Keys == w.S
    ensures rk.Keys == w.S && RankedMem(m, w.S, rk) && OneParent(m, w.S)
    ensures forall x | x in w.S :: (m[x].left != null ==> m[x].left in w.S) && (m[x].right != null ==> m[x].right in w.S)
  {
    AtPlug(m, rn, c, t, w);
    var whole := Plug(c, t);
    InorderNodes(whole);
    var ns := Nodes(whole);
    assert forall x | x in ns :: x in w.S;
    assert forall x | x in w.S :: x in ns;
    assert ns == w.S;
    TreeRanked(m, w.pos, whole, -1, |w.pos|, rn, null);
    TreeOneParent(m, whole, rn, null);
    rk := HeightRank(whole);
  }
}
