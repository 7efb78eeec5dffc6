/// The augmented callbacks: what RB_DECLARE_CALLBACKS_MAX generates, and the
/// empty callbacks used by the plain tree.
module RbAugment {
  import opened RbShape

  /// Max carries the function that computes a node's own scalar.
  datatype Callbacks = Dummy | Max(compute: RbNode -> int)

  datatype MaxOpt = NegInf | Fin(v: int)

  ghost function Join(a: MaxOpt, b: MaxOpt): MaxOpt {
    if a.NegInf? then b
    else if b.NegInf? then a
    else if a.v < b.v then b else a
  }

  /// The maximum over a subtree.
  ghost function MaxOf(f: RbNode -> int, t: Tree): MaxOpt {
    match t
    case E => NegInf
    case N(l, x, _, r) => Join(Fin(f(x)), Join(MaxOf(f, l), MaxOf(f, r)))
  }

  /// MaxOf is an upper bound over the subtree, and one of its nodes attains it.
  lemma {:induction false} MaxOfIsMax(f: RbNode -> int, t: Tree)
    ensures MaxOf(f, t).NegInf? <==> t.E?
    ensures forall x | x in Nodes(t) :: MaxOf(f, t).Fin? && f(x) <= MaxOf(f, t).v
    ensures t.N? ==> exists x :: x in Nodes(t) && f(x) == MaxOf(f, t).v
  {
    match t
    case E =>
    case N(l, x, _, r) =>
      MaxOfIsMax(f, l);
      MaxOfIsMax(f, r);
  }

  type Augs = map<RbNode, int>

  ghost function AugSnap(S: set<RbNode>): (am: Augs)
    reads S`aug
    ensures am.Keys == S
    ensures forall x | x in S :: am[x] == x.aug
  {
    map x | x in S :: x.aug
  }

  twostate lemma AugKept(S: set<RbNode>)
    requires forall x | x in S :: x.aug == old(x.aug)
    ensures AugSnap(S) == old(AugSnap(S))
  {
  }

  /// Every node of t carries the maximum over its own subtree.
  ghost predicate AugRep(am: Augs, f: RbNode -> int, t: Tree) {
    match t
    case E => true
    case N(l, x, _, r) => x in am && Fin(am[x]) == MaxOf(f, t) && AugRep(am, f, l) && AugRep(am, f, r)
  }

  /// Every node of the context carries the right maximum, given that hm is the hole's.
  ghost predicate AugCtx(am: Augs, f: RbNode -> int, c: Ctx, hm: MaxOpt) {
    match c
    case Top => true
    case In(up, _, x, _, sib) =>
      x in am && Fin(am[x]) == Join(Fin(f(x)), Join(hm, MaxOf(f, sib))) &&
      AugRep(am, f, sib) && AugCtx(am, f, up, Fin(am[x]))
  }

  /// The augmented data are right everywhere, when there are any.
  ghost predicate AugTree(cb: Callbacks, am: Augs, t: Tree) {
    cb.Max? ==> AugRep(am, cb.compute, t)
  }

  ghost predicate AugAll(cb: Callbacks, am: Augs, c: Ctx, t: Tree) {
    cb.Max? ==> AugRep(am, cb.compute, t) && AugCtx(am, cb.compute, c, MaxOf(cb.compute, t))
  }

  lemma MaxMk(f: RbNode -> int, d: Side, a: Tree, x: RbNode, red: bool, b: Tree)
    ensures MaxOf(f, Mk(d, a, x, red, b)) == Join(Fin(f(x)), Join(MaxOf(f, a), MaxOf(f, b)))
  {
  }

  lemma AugMk(am: Augs, f: RbNode -> int, d: Side, a: Tree, x: RbNode, red: bool, b: Tree)
    ensures AugRep(am, f, Mk(d, a, x, red, b)) <==>
            x in am && Fin(am[x]) == Join(Fin(f(x)), Join(MaxOf(f, a), MaxOf(f, b))) &&
            AugRep(am, f, a) && AugRep(am, f, b)
  {
    MaxMk(f, d, a, x, red, b);
  }

  lemma {:induction false} AugPlug(am: Augs, f: RbNode -> int, c: Ctx, t: Tree)
    ensures AugRep(am, f, Plug(c, t)) <==> AugRep(am, f, t) && AugCtx(am, f, c, MaxOf(f, t))
    decreases c
  {
    match c
    case Top =>
    case In(up, d, x, red, sib) =>
      AugMk(am, f, d, t, x, red, sib);
      MaxMk(f, d, t, x, red, sib);
      AugPlug(am, f, up, Mk(d, t, x, red, sib));
  }

  ghost predicate SameAug(am: Augs, am': Augs, D: set<RbNode>) {
    forall x | x in am && x !in D :: x in am' && am'[x] == am[x]
  }

  lemma {:induction false} AugFrame(am: Augs, am': Augs, f: RbNode -> int, pos: Pos, t: Tree, lo: int, hi: int, D: set<RbNode>)
    requires AugRep(am, f, t) && Ord(pos, t, lo, hi) && SameAug(am, am', D) && Outside(pos, D, lo, hi)
    ensures AugRep(am', f, t)
  {
    match t
    case E =>
    case N(l, x, _, r) =>
      AugFrame(am, am', f, pos, l, lo, pos[x], D);
      AugFrame(am, am', f, pos, r, pos[x], hi, D);
  }

  lemma {:induction false} AugCtxFrame(am: Augs, am': Augs, f: RbNode -> int, pos: Pos, c: Ctx, hm: MaxOpt, D: set<RbNode>)
    requires AugCtx(am, f, c, hm) && COrd(pos, c) && SameAug(am, am', D) && Inside(pos, D, Lo(pos, c), Hi(pos, c))
    ensures AugCtx(am', f, c, hm)
  {
    match c
    case Top =>
    case In(up, d, x, _, sib) =>
      AugFrame(am, am', f, pos, sib, if d.Left? then pos[x] else Lo(pos, up), if d.Left? then Hi(pos, up) else pos[x], D);
      AugCtxFrame(am, am', f, pos, up, Fin(am[x]), D);
  }

  lemma AugPaint(am: Augs, f: RbNode -> int, t: Tree, red: bool)
    ensures AugRep(am, f, Paint(t, red)) == AugRep(am, f, t)
    ensures MaxOf(f, Paint(t, red)) == MaxOf(f, t)
  {
  }

  /// The maximum of a node's own scalar and its children's augmented fields.
  ghost function MaxHere(f: RbNode -> int, x: RbNode): int
    reads x, x.left, x.right
  {
    var a := if x.left != null && x.left.aug > f(x) then x.left.aug else f(x);
    if x.right != null && x.right.aug > a then x.right.aug else a
  }

  lemma MaxHereIsMax(am: Augs, f: RbNode -> int, x: RbNode, l: Tree, red: bool, r: Tree, S: set<RbNode>)
    requires x in S && am == AugSnap(S)
    requires x.left == RootOf(l) && x.right == RootOf(r) && AugRep(am, f, l) && AugRep(am, f, r)
    ensures Fin(MaxHere(f, x)) == MaxOf(f, N(l, x, red, r))
  {
    if l.N? { assert am[l.x] == l.x.aug; }
    if r.N? { assert am[r.x] == r.x.aug; }
  }

  method ComputeMax(x: RbNode, f: RbNode -> int, exit: bool) returns (stop: bool)
    requires x.left != x && x.right != x
    modifies x`aug
    ensures x.aug == old(MaxHere(f, x))
    ensures stop <==> exit && old(x.aug) == x.aug
  {
    var max := f(x);
    if x.left != null {
      if x.left.aug > max {
        max := x.left.aug;
      }
    }
    if x.right != null {
      if x.right.aug > max {
        max := x.right.aug;
      }
    }
    if exit && x.aug == max {
      return true;
    }
    x.aug := max;
    return false;
  }

  /// ComputeMax at a node whose two subtrees are right.
  method ComputeMaxIn(x: RbNode, f: RbNode -> int, exit: bool, ghost d: Side, ghost a: Tree, ghost b: Tree, ghost S: set<RbNode>)
    returns (stop: bool)
    requires x in S && x.left != x && x.right != x
    requires x.Kid(d) == RootOf(a) && x.Kid(d.Flip()) == RootOf(b)
    requires AugRep(AugSnap(S), f, a) && AugRep(AugSnap(S), f, b)
    modifies x`aug
    ensures Snap(S) == old(Snap(S))
    ensures Fin(x.aug) == Join(Fin(f(x)), Join(MaxOf(f, a), MaxOf(f, b)))
    ensures SameAug(old(AugSnap(S)), AugSnap(S), {x})
    ensures stop <==> exit && old(x.aug) == x.aug
  {
    MaxMk(f, d, a, x, x.red, b);
    MaxHereIsMax(AugSnap(S), f, x, if d.Left? then a else b, x.red, if d.Left? then b else a, S);
    stop := ComputeMax(x, f, exit);
  }

  method Copy(old_: RbNode, new_: RbNode, cb: Callbacks)
    modifies new_`aug
    ensures new_.aug == old(if cb.Max? then old_.aug else new_.aug)
  {
    if cb.Max? {
      new_.aug := old_.aug;
    }
  }

  // ---------------------------------------------------------------- rotate

  /// new_ has just been put above old_, whose subtrees are now a and b.
  method RotateMax(old_: RbNode, new_: RbNode, f: RbNode -> int, ghost d: Side, ghost a: Tree, ghost b: Tree,
    ghost pos: Pos, ghost la: int, ghost ha: int, ghost lb: int, ghost hb: int, ghost S: set<RbNode>)
    requires {old_, new_} <= S && old_ != new_ && old_.left != old_ && old_.right != old_
    requires Ord(pos, a, la, ha) && Outside(pos, {old_, new_}, la, ha) && Ord(pos, b, lb, hb) && Outside(pos, {old_, new_}, lb, hb)
    requires old_.Kid(d) == RootOf(a) && old_.Kid(d.Flip()) == RootOf(b)
    requires AugRep(AugSnap(S), f, a) && AugRep(AugSnap(S), f, b)
    modifies {old_, new_}`aug
    ensures Snap(S) == old(Snap(S))
    ensures new_.aug == old(old_.aug)
    ensures Fin(old_.aug) == Join(Fin(f(old_)), Join(MaxOf(f, a), MaxOf(f, b)))
    ensures SameAug(old(AugSnap(S)), AugSnap(S), {old_, new_})
  {
    ghost var am, m := AugSnap(S), Snap(S);
    new_.aug := old_.aug;
    assert Snap(S) == m;
    AugFrame(am, AugSnap(S), f, pos, a, la, ha, {old_, new_});
    AugFrame(am, AugSnap(S), f, pos, b, lb, hb, {old_, new_});
    var _ := ComputeMaxIn(old_, f, false, d, a, b, S);
  }

  /// A rotation does not change the maximum of the whole.
  lemma MaxTurn(f: RbNode -> int, d: Side, a: Tree, p: RbNode, b: Tree, gp: RbNode, u: Tree, r0: bool, r1: bool, r2: bool, r3: bool)
    ensures MaxOf(f, Mk(d, a, p, r2, Mk(d, b, gp, r3, u))) == MaxOf(f, Mk(d, Mk(d, a, p, r0, b), gp, r1, u))
  {
    MaxMk(f, d, a, p, r0, b);
    MaxMk(f, d, b, gp, r3, u);
    MaxMk(f, d, Mk(d, a, p, r0, b), gp, r1, u);
    MaxMk(f, d, a, p, r2, Mk(d, b, gp, r3, u));
  }

  lemma TurnFrames(am: Augs, am': Augs, f: RbNode -> int, pos: Pos, c: Ctx, d: Side, a: Tree, new_: RbNode, b: Tree, old_: RbNode, u: Tree,
    r0: bool, r1: bool)
    requires OrdParts(pos, c, d, a, new_, b, old_, u)
    requires var t := Mk(d, Mk(d, a, new_, r0, b), old_, r1, u); AugRep(am, f, t) && AugCtx(am, f, c, MaxOf(f, t))
    requires SameAug(am, am', {old_, new_})
    ensures AugRep(am', f, a) && AugRep(am', f, b) && AugRep(am', f, u)
    ensures AugCtx(am', f, c, MaxOf(f, Mk(d, Mk(d, a, new_, r0, b), old_, r1, u)))
  {
    hide Ord, COrd, SameAug, OrdHole, AugRep, AugCtx, MaxOf;
    var s, D := SpansOf(pos, c, d, new_, old_), {old_, new_};
    AugMk(am, f, d, Mk(d, a, new_, r0, b), old_, r1, u);
    AugMk(am, f, d, a, new_, r0, b);
    AugFrame(am, am', f, pos, a, s.la, s.ha, D);
    AugFrame(am, am', f, pos, b, s.lb, s.hb, D);
    AugFrame(am, am', f, pos, u, s.lu, s.hu, D);
    AugCtxFrame(am, am', f, pos, c, MaxOf(f, Mk(d, Mk(d, a, new_, r0, b), old_, r1, u)), D);
  }

  /// A rotation at old_: two of its subtrees stay, new_ comes out on top with
  /// the third, and the maxima are right again.
  lemma RotateAug(am: Augs, am': Augs, f: RbNode -> int, pos: Pos, c: Ctx, d: Side, a: Tree, new_: RbNode, b: Tree, old_: RbNode, u: Tree,
    r0: bool, r1: bool, r2: bool, r3: bool)
    requires OrdParts(pos, c, d, a, new_, b, old_, u)
    requires var t := Mk(d, Mk(d, a, new_, r0, b), old_, r1, u);
             AugRep(am, f, t) && AugCtx(am, f, c, MaxOf(f, t)) && old_ in am && Fin(am[old_]) == MaxOf(f, t)
    requires new_ in am' && am'[new_] == am[old_] && old_ in am'
    requires Fin(am'[old_]) == Join(Fin(f(old_)), Join(MaxOf(f, b), MaxOf(f, u)))
    requires SameAug(am, am', {old_, new_})
    ensures var t := Mk(d, a, new_, r2, Mk(d, b, old_, r3, u)); AugRep(am', f, t) && AugCtx(am', f, c, MaxOf(f, t))
  {
    TurnFrames(am, am', f, pos, c, d, a, new_, b, old_, u, r0, r1);
    MaxTurn(f, d, a, new_, b, old_, u, r0, r1, r2, r3);
    AugMk(am', f, d, b, old_, r3, u);
    MaxMk(f, d, a, new_, r2, Mk(d, b, old_, r3, u));
    AugMk(am', f, d, a, new_, r2, Mk(d, b, old_, r3, u));
  }

  /// augment->rotate(old_, new_), called once new_ has been put above old_.
  method RotateAt(old_: RbNode, new_: RbNode, cb: Callbacks, ghost pos: Pos, ghost c: Ctx, ghost d: Side, ghost a: Tree, ghost b: Tree, ghost u: Tree,
    ghost r0: bool, ghost r1: bool, ghost r2: bool, ghost r3: bool, ghost S: set<RbNode>)
    requires OrdParts(pos, c, d, a, new_, b, old_, u) && {old_, new_} <= S && old_.left != old_ && old_.right != old_
    requires AugAll(cb, AugSnap(S), c, Mk(d, Mk(d, a, new_, r0, b), old_, r1, u))
    requires old_.Kid(d) == RootOf(b) && old_.Kid(d.Flip()) == RootOf(u)
    modifies {old_, new_}`aug
    ensures Snap(S) == old(Snap(S))
    ensures AugAll(cb, AugSnap(S), c, Mk(d, a, new_, r2, Mk(d, b, old_, r3, u)))
  {
    if cb.Max? {
      var f := cb.compute;
      ghost var am, s := AugSnap(S), SpansOf(pos, c, d, new_, old_);
      AugMk(am, f, d, Mk(d, a, new_, r0, b), old_, r1, u);
      AugMk(am, f, d, a, new_, r0, b);
      RotateMax(old_, new_, f, d, b, u, pos, s.lb, s.hb, s.lu, s.hu, S);
      RotateAug(am, AugSnap(S), f, pos, c, d, a, new_, b, old_, u, r0, r1, r2, r3);
    }
  }

  /// Moving a subtree between the tree and its context.
  lemma AugHole(am: Augs, f: RbNode -> int, c: Ctx, d: Side, t: Tree, x: RbNode, red: bool, sib: Tree)
    ensures (AugRep(am, f, Mk(d, t, x, red, sib)) && AugCtx(am, f, c, MaxOf(f, Mk(d, t, x, red, sib)))) <==>
            (AugRep(am, f, t) && AugCtx(am, f, In(c, d, x, red, sib), MaxOf(f, t)))
  {
    AugMk(am, f, d, t, x, red, sib);
    MaxMk(f, d, t, x, red, sib);
  }

  // ---------------------------------------------------------------- propagate

  ghost function PathTop(c: Ctx, stop: RbNode?): RbNode? { if c.Top? then stop else c.x }

  /// The parent chain from the hole h up to the top of c, whose parent is stop.
  ghost predicate Path(m: Mem, c: Ctx, h: RbNode?, stop: RbNode?) {
    match c
    case Top => true
    case In(up, d, x, _, sib) =>
      x in m && m[x].Kid(d) == h && m[x].Kid(d.Flip()) == RootOf(sib) && m[x].parent == PathTop(up, stop) && Path(m, up, x, stop)
  }

  lemma {:induction false} CRepIsPath(m: Mem, c: Ctx, rn: RbNode?, h: RbNode?)
    requires CRep(m, c, rn, h)
    ensures Path(m, c, h, null)
  {
    match c
    case Top =>
    case In(up, _, x, _, _) => CRepIsPath(m, up, rn, x);
  }

  /// Memory holds the path up from the root of t to stop, through the context c.
  ghost predicate Climb(m: Mem, pos: Pos, c: Ctx, t: Tree, stop: RbNode?) {
    Path(m, c, RootOf(t), stop) && OrdHole(pos, c, t) && NotIn(c, stop)
  }

  ghost predicate NotIn(c: Ctx, stop: RbNode?) {
    c.In? ==> c.x != stop && NotIn(c.up, stop)
  }

  lemma ClimbStep(m: Mem, pos: Pos, c: Ctx, t: Tree, stop: RbNode?)
    requires Climb(m, pos, c, t, stop) && c.In?
    ensures var t' := Mk(c.d, t, c.x, c.red, c.sib); Climb(m, pos, c.up, t', stop) && Plug(c.up, t') == Plug(c, t)
    ensures c.x in m && m[c.x].parent == PathTop(c.up, stop)
    ensures m[c.x].Kid(c.d) == RootOf(t) && m[c.x].Kid(c.d.Flip()) == RootOf(c.sib)
    ensures m[c.x].left != c.x && m[c.x].right != c.x
  {
    OrdMk(pos, c.up, c.d, t, c.x, c.red, c.sib);
  }

  /// The context is right except for the stored value of its lowest node.
  ghost predicate Stale(am: Augs, f: RbNode -> int, c: Ctx) {
    c.In? ==> c.x in am && AugRep(am, f, c.sib) && AugCtx(am, f, c.up, Fin(am[c.x]))
  }

  lemma StaleStep(am: Augs, am': Augs, f: RbNode -> int, pos: Pos, c: Ctx, t: Tree)
    requires c.In? && OrdHole(pos, c, t) && Stale(am, f, c) && AugRep(am, f, t) && c.x in am'
    requires Fin(am'[c.x]) == Join(Fin(f(c.x)), Join(MaxOf(f, t), MaxOf(f, c.sib)))
    requires SameAug(am, am', {c.x})
    ensures AugRep(am', f, Mk(c.d, t, c.x, c.red, c.sib))
    ensures Stale(am', f, c.up)
    ensures am'[c.x] == am[c.x] ==> AugCtx(am', f, c, MaxOf(f, t)) && AugRep(am', f, t)
  {
    var lo, hi := Lo(pos, c.up), Hi(pos, c.up);
    AugFrame(am, am', f, pos, t, Lo(pos, c), Hi(pos, c), {c.x});
    AugFrame(am, am', f, pos, c.sib, if c.d.Left? then pos[c.x] else lo, if c.d.Left? then hi else pos[c.x], {c.x});
    AugMk(am', f, c.d, t, c.x, c.red, c.sib);
    AugCtxFrame(am, am', f, pos, c.up, Fin(am[c.x]), {c.x});
  }

  /// Before: the tree t in the hole is right, and the nodes above are right for
  /// the value that the lowest of them, rb0, still stores. After: everything up
  /// to stop is right, although the loop stops at the first node whose value
  /// does not change.
  method Propagate(rb0: RbNode?, stop: RbNode?, cb: Callbacks, ghost pos: Pos, ghost c0: Ctx, ghost t0: Tree, ghost S: set<RbNode>)
    requires Climb(Snap(S), pos, c0, t0, stop) && rb0 == PathTop(c0, stop)
    requires cb.Max? ==> AugRep(AugSnap(S), cb.compute, t0) && Stale(AugSnap(S), cb.compute, c0)
    modifies S`aug
    ensures AugAll(cb, AugSnap(S), c0, t0)
    ensures SameAug(old(AugSnap(S)), AugSnap(S), Spine(c0))
    ensures Snap(S) == old(Snap(S))
  {
    if cb.Max? {
      PropagateMax(rb0, stop, cb.compute, pos, c0, t0, S);
      AugPlug(AugSnap(S), cb.compute, c0, t0);
    }
  }

  /// The nodes on the way up from the hole.
  ghost function Spine(c: Ctx): set<RbNode> { if c.Top? then {} else Spine(c.up) + {c.x} }

  method PropagateMax(rb0: RbNode?, stop: RbNode?, f: RbNode -> int, ghost pos: Pos, ghost c0: Ctx, ghost t0: Tree, ghost S: set<RbNode>)
    requires Climb(Snap(S), pos, c0, t0, stop) && rb0 == PathTop(c0, stop)
    requires AugRep(AugSnap(S), f, t0) && Stale(AugSnap(S), f, c0)
    modifies S`aug
    ensures AugRep(AugSnap(S), f, Plug(c0, t0))
    ensures SameAug(old(AugSnap(S)), AugSnap(S), Spine(c0))
    ensures Snap(S) == old(Snap(S))
  {
    var rb := rb0;
    ghost var c, t := c0, t0;
    ghost var m, am0 := Snap(S), AugSnap(S);
    while rb != stop
      invariant rb == PathTop(c, stop) && Spine(c) <= Spine(c0)
      invariant Plug(c, t) == Plug(c0, t0)
      invariant Snap(S) == m && Climb(m, pos, c, t, stop)
      invariant AugRep(AugSnap(S), f, t) && Stale(AugSnap(S), f, c)
      invariant SameAug(am0, AugSnap(S), Spine(c0))
      decreases c
    {
      ghost var am := AugSnap(S);
      ClimbStep(m, pos, c, t, stop);
      var done := ComputeMaxIn(rb, f, true, c.d, t, c.sib, S);
      StaleStep(am, AugSnap(S), f, pos, c, t);
      if done {
        AugPlug(AugSnap(S), f, c, t);
        return;
      }
      rb := rb.parent;
      c, t := c.up, Mk(c.d, t, c.x, c.red, c.sib);
    }
    AugPlug(AugSnap(S), f, c, t);
  }
}
