/// Nodes in key order: rb_add, rb_find_add, rb_replace_node, and the tree that caches its
/// leftmost node.
module RbCached {
  import opened Basics
  import opened RbShape
  import opened RbColor
  import opened RbAugment
  import opened RbLinks
  import opened RbInsert
  import opened RbErase
  import opened RbWalk
  import opened RbTree

  // ---------------------------------------------------------------- order by less

  /// The order that rb_add asks for.
  ghost predicate StrictWeak(less: (RbNode, RbNode) -> bool, S: set<RbNode>) {
    (forall x, y | x in S && y in S && less(x, y) :: !less(y, x)) &&
    (forall x, y, z | x in S && y in S && z in S && less(x, y) :: less(x, z) || less(z, y))
  }

  ghost predicate Sorted(less: (RbNode, RbNode) -> bool, s: seq<RbNode>) {
    forall i, j | 0 <= i < j < |s| :: !less(s[j], s[i])
  }

  ghost predicate NoneMore(less: (RbNode, RbNode) -> bool, s: seq<RbNode>, x: RbNode) { forall y | y in s :: !less(x, y) }

  ghost predicate AllMore(less: (RbNode, RbNode) -> bool, x: RbNode, s: seq<RbNode>) { forall y | y in s :: less(x, y) }

  /// x goes behind all nodes that are not greater.
  ghost function Inserted(less: (RbNode, RbNode) -> bool, s: seq<RbNode>, x: RbNode): seq<RbNode> {
    if s == [] || less(x, s[0]) then [x] + s else [s[0]] + Inserted(less, s[1..], x)
  }

  lemma {:induction false} InsertedBetween(less: (RbNode, RbNode) -> bool, a: seq<RbNode>, x: RbNode, b: seq<RbNode>)
    requires NoneMore(less, a, x) && AllMore(less, x, b)
    ensures Inserted(less, a + b, x) == a + [x] + b
    decreases a
  {
    if a == [] {
      assert a + b == b;
    } else {
      assert (a + b)[0] == a[0] && (a + b)[1..] == a[1..] + b;
      InsertedBetween(less, a[1..], x, b);
      assert [a[0]] + (a[1..] + [x] + b) == a + [x] + b;
    }
  }

  /// Exactly x is gained.
  lemma {:induction false} InsertedGains(less: (RbNode, RbNode) -> bool, s: seq<RbNode>, x: RbNode)
    ensures multiset(Inserted(less, s, x)) == multiset(s) + multiset{x}
    decreases s
  {
    if s != [] && !less(x, s[0]) {
      InsertedGains(less, s[1..], x);
      assert s == [s[0]] + s[1..];
    }
  }

  lemma SortedCons(less: (RbNode, RbNode) -> bool, x: RbNode, s: seq<RbNode>)
    requires Sorted(less, s) && forall y | y in s :: !less(y, x)
    ensures Sorted(less, [x] + s)
  {
    var r := [x] + s;
    forall i, j | 0 <= i < j < |r|
      ensures !less(r[j], r[i])
    {
      assert r[j] == s[j - 1];
    }
  }

  lemma SortedTail(less: (RbNode, RbNode) -> bool, s: seq<RbNode>)
    requires s != [] && Sorted(less, s)
    ensures Sorted(less, s[1..]) && forall y | y in s[1..] :: !less(y, s[0])
  {
  }

  lemma NotBefore(less: (RbNode, RbNode) -> bool, x: RbNode, s: RbNode, y: RbNode, S: set<RbNode>)
    requires StrictWeak(less, S) && {x, s, y} <= S && less(x, s) && (y == s || !less(y, s))
    ensures !less(y, x)
  {
    assert less(y, x) ==> less(y, s) || less(s, x);
  }

  /// Sorted sequences stay sorted.
  lemma {:induction false} InsertedSorted(less: (RbNode, RbNode) -> bool, s: seq<RbNode>, x: RbNode, S: set<RbNode>)
    requires StrictWeak(less, S) && Sorted(less, s) && x in S && forall y | y in s :: y in S
    ensures Sorted(less, Inserted(less, s, x))
    decreases s
  {
    if s != [] {
      SortedTail(less, s);
      if less(x, s[0]) {
        forall y | y in s
          ensures !less(y, x)
        {
          assert y == s[0] || y in s[1..];
          NotBefore(less, x, s[0], y, S);
        }
        SortedCons(less, x, s);
      } else {
        InsertedSorted(less, s[1..], x, S);
        InsertedGains(less, s[1..], x);
        var t := Inserted(less, s[1..], x);
        forall y | y in t
          ensures !less(y, s[0])
        {
          assert y in multiset(t);
          assert y in s[1..] || y == x;
        }
        SortedCons(less, s[0], t);
      }
    }
  }

  /// What one comparison on the way down says about the nodes on the other side.
  lemma SortedAround(less: (RbNode, RbNode) -> bool, a: seq<RbNode>, p: RbNode, b: seq<RbNode>, x: RbNode, S: set<RbNode>)
    requires StrictWeak(less, S) && Sorted(less, a + [p] + b) && x in S && forall y | y in a + [p] + b :: y in S
    ensures less(x, p) ==> AllMore(less, x, [p] + b)
    ensures !less(x, p) ==> NoneMore(less, a + [p], x)
  {
    var s := a + [p] + b;
    assert s[|a|] == p;
    forall y | y in b
      ensures less(x, p) ==> less(x, y)
    {
      var i :| 0 <= i < |b| && b[i] == y;
      assert s[|a| + 1 + i] == y;
      assert y in s && p in s;
    }
    forall y | y in a
      ensures !less(x, p) ==> !less(x, y)
    {
      var i :| 0 <= i < |a| && a[i] == y;
      assert s[i] == y;
      assert y in s && p in s;
    }
  }

  // ---------------------------------------------------------------- linking a new node

  /// rb_link_node, with the link given as the parent's d side, or the root when there is no parent.
  method LinkStores(node: RbNode, parent: RbNode?, d: Side, root: RbRoot, ghost S: set<RbNode>, ghost rk: Rank) returns (ghost rk': Rank)
    requires node !in S && Ranked(S, rk) && (parent != null ==> parent in S)
    modifies node`left, node`right, node`parent, node`red, Opt(parent)`left, Opt(parent)`right, root
    ensures CellOf(node) == Cell(null, null, parent, true)
    ensures parent != null ==> CellOf(parent) == old(CellOf(parent)).SetKid(d, node) && root.node == old(root.node)
    ensures parent == null ==> root.node == node
    ensures Ranked(S + {node}, rk')
  {
    node.parent, node.red := parent, true;
    node.left := null;
    node.right := null;
    rk' := rk[node := if parent == null then 0.0 else rk[parent] - 1.0];
    assert forall x | x in S :: Below(rk, x.left, x) && Below(rk, x.right, x);
    assert Ranked(S + {node}, rk');
    if parent != null {
      WriteOnce(parent, d, node, S + {node}, rk');
    } else {
      root.node := node;
    }
  }

  method LinkMem(node: RbNode, parent: RbNode?, d: Side, root: RbRoot, ghost S: set<RbNode>, ghost rk: Rank)
    requires node !in S && RankedMem(Snap(S), S, rk) && rk.Keys == S && (parent != null ==> parent in S)
    modifies S`left, S`right, node, root
    ensures var m, m' := old(Snap(S)), Snap(S + {node});
            m'[node] == Cell(null, null, parent, true) && AgreeBut(m, m', Opt(parent)) &&
            if parent == null then root.node == node else root.node == old(root.node) && m'[parent] == m[parent].SetKid(d, node)
  {
    assert forall x | x in S :: Below(rk, Snap(S)[x].left, x) && Below(rk, Snap(S)[x].right, x);
    ghost var rk' := LinkStores(node, parent, d, root, S, rk);
  }

  lemma LinkPlug(m: Mem, m': Mem, rn: RbNode?, rn': RbNode?, c: Ctx, node: RbNode, w: World)
    requires At(m, rn, c, E, w) && node !in m && node in m'
    requires m'[node] == Cell(null, null, CNode(c), true) && AgreeBut(m, m', Opt(CNode(c))) && Hung(m, m', c, rn, rn', node)
    ensures Rep(m', Plug(c, N(E, node, true, E)), rn', null)
  {
    CRepHang(m, m', w.pos, c, rn, rn', null, node, {});
    assert Rep(m', N(E, node, true, E), node, CNode(c));
    RepPlug(m', c, rn', node, N(E, node, true, E));
  }

  lemma LinkEnter(m: Mem, rn: RbNode?, c: Ctx, t: Tree) returns (w: World)
    requires Rep(m, Plug(c, t), rn, null) && m.Keys == Nodes(Plug(c, t)) && NoDup(Inorder(Plug(c, t)))
    ensures WorldOk(w) && w.S == m.Keys && w.ord == Before(c) + Inorder(t) + After(c) && At(m, rn, c, t, w)
  {
    InorderPlug(c, t);
    w := Enter(m, rn, Plug(c, t));
    AtPlug(m, rn, c, t, w);
  }

  /// The tree with the new red leaf.
  lemma LinkRep(m: Mem, m': Mem, rn: RbNode?, rn': RbNode?, c: Ctx, node: RbNode, w: World) returns (w': World)
    requires At(m, rn, c, E, w) && WorldOk(w) && m.Keys == w.S && node !in w.S && m'.Keys == w.S + {node}
    requires m'[node] == Cell(null, null, CNode(c), true) && AgreeBut(m, m', Opt(CNode(c))) && Hung(m, m', c, rn, rn', node)
    ensures WorldOk(w') && w'.S == w.S + {node} && w'.ord == Before(c) + [node] + After(c)
    ensures At(m', rn', c, N(E, node, true, E), w')
  {
    var leaf := N(E, node, true, E);
    AtOrd(m, rn, c, E, w);
    LinkPlug(m, m', rn, rn', c, node, w);
    LinkNodes(c, node, w);
    LeafOrder(node);
    hide Inorder, Nodes, Plug, Rep, CRep, Before, After, WorldOk, At, NoDup, Hung, AgreeBut;
    w' := LinkEnter(m', rn', c, leaf);
  }

  lemma LeafOrder(node: RbNode)
    ensures Inorder(N(E, node, true, E)) == [node]
  {
  }

  lemma InsertNoDup(a: seq<RbNode>, x: RbNode, b: seq<RbNode>)
    requires NoDup(a + b) && x !in a + b
    ensures NoDup(a + [x] + b)
  {
    var r, s := a + b, a + [x] + b;
    assert forall i | 0 <= i < |r| :: r[i] in r;
    forall i, j | 0 <= i < j < |s|
      ensures s[i] != s[j]
    {
      assert i < |a| ==> s[i] == r[i];
      assert i > |a| ==> s[i] == r[i - 1];
      assert j < |a| ==> s[j] == r[j];
      assert j > |a| ==> s[j] == r[j - 1];
    }
  }

  lemma LinkNodes(c: Ctx, node: RbNode, w: World)
    requires WorldOk(w) && node !in w.S && Ord(w.pos, Plug(c, E), -1, |w.pos|)
    requires Inorder(Plug(c, E)) == w.ord == Before(c) + [] + After(c)
    ensures NoDup(Inorder(Plug(c, N(E, node, true, E)))) && Nodes(Plug(c, N(E, node, true, E))) == w.S + {node}
  {
    var t, a, b := Plug(c, N(E, node, true, E)), Before(c), After(c);
    InorderPlug(c, N(E, node, true, E));
    OrdSpread(w.pos, Plug(c, E), -1, |w.pos|);
    assert w.ord == a + b;
    assert Inorder(t) == a + [node] + b;
    InsertNoDup(a, node, b);
    ListsNodes(t, w.pos);
    forall x | x in Nodes(t)
      ensures x in w.S + {node}
    {
      assert x in Inorder(t);
    }
    forall x | x in w.S + {node}
      ensures x in Nodes(t)
    {
      assert x in w.ord || x == node;
      assert x in Inorder(t);
    }
  }

  /// rb_link_node and rb_insert_color.
  method LinkAndColor(node: RbNode, parent: RbNode?, d: Side, root: RbRoot, ghost c: Ctx, ghost w: World) returns (ghost t': Tree)
    requires WorldOk(w) && At(Snap(w.S), root.node, c, E, w) && Rb(Plug(c, E)) && !IsRed(Plug(c, E))
    requires node !in w.S && parent == CNode(c) && (c.In? ==> d == c.d)
    modifies w.S, node, root
    ensures Holds(Snap(w.S + {node}), root.node, Dummy, map[], t') && Inorder(t') == Before(c) + [node] + After(c)
  {
    hide Rep, CRep, Ord, OrdHole, OneParent, Inorder, Nodes, NoDup, RankedMem, AugSnap;
    ghost var m, rn := Snap(w.S), root.node;
    ghost var rk := AtLinked(m, rn, c, E, w);
    ParentKnown(m, rn, c, w);
    LinkMem(node, parent, d, root, w.S, rk);
    ghost var w' := LinkRep(m, Snap(w.S + {node}), rn, root.node, c, node, w);
    RbUnplug(c, E);
    t' := Insert(node, root, Dummy, c, w');
    Leave(Snap(w'.S), root.node, Dummy, map[], t', w');
  }

  lemma ParentKnown(m: Mem, rn: RbNode?, c: Ctx, w: World)
    requires At(m, rn, c, E, w)
    ensures c.In? ==> c.x in m
  {
  }

  // ---------------------------------------------------------------- rb_add and rb_find_add

  /// The descent of rb_add: parent and side under which the new node belongs.
  method FindSlot(node: RbNode, root: RbRoot, less: (RbNode, RbNode) -> bool, ghost t0: Tree, ghost w: World)
    returns (parent: RbNode?, d: Side, leftmost: bool, ghost c: Ctx)
    requires At(Snap(w.S), root.node, Top, t0, w) && WorldOk(w) && node !in w.S
    requires StrictWeak(less, w.S + {node}) && Sorted(less, w.ord)
    ensures At(Snap(w.S), root.node, c, E, w) && Plug(c, E) == t0 && parent == CNode(c) && (c.In? ==> d == c.d)
    ensures NoneMore(less, Before(c), node) && AllMore(less, node, After(c))
    ensures leftmost <==> Before(c) == []
  {
    var link := root.node;
    parent, d, leftmost := null, Left, true;
    c := Top;
    ghost var t := t0;
    while link != null
      invariant At(Snap(w.S), root.node, c, t, w) && RootOf(t) == link && parent == CNode(c) && (c.In? ==> d == c.d) && Plug(c, t) == t0
      invariant NoneMore(less, Before(c), node) && AllMore(less, node, After(c))
      invariant leftmost <==> Before(c) == []
      decreases t
    {
      parent := link;
      SearchNow(root.node, c, t, w);
      SortedAround(less, Before(c) + Inorder(t.l), parent, Inorder(t.r) + After(c), node, w.S + {node});
      if less(node, parent) {
        c, t, d, link := In(c, Left, parent, t.red, t.r), t.l, Left, parent.left;
      } else {
        c, t, d, link := In(c, Right, parent, t.red, t.l), t.r, Right, parent.right;
        leftmost := false;
      }
    }
  }

  lemma AddedBetween(cmp: RbNode -> int, c: Ctx, t0: Tree, node: RbNode)
    requires Plug(c, E) == t0 && AllBelow(cmp, Before(c)) && AllAbove(cmp, After(c))
    ensures var s, k := Inorder(t0), |Before(c)|;
            k <= |s| && Before(c) + [node] + After(c) == s[..k] + [node] + s[k..] && Before(c) == s[..k] && After(c) == s[k..]
  {
    InorderPlug(c, E);
    assert Inorder(t0) == Before(c) + After(c);
  }

  /// rb_find_add: returns a match, or adds the node and returns null. cmp is a
  /// three-way comparison of the new node with the others.
  method FindAdd(node: RbNode, root: RbRoot, cmp: RbNode -> int, ghost t0: Tree, ghost S: set<RbNode>) returns (found: RbNode?, ghost t': Tree, ghost k: nat)
    requires Holds(Snap(S), root.node, Dummy, map[], t0) && node !in S && Falling(cmp, Inorder(t0))
    modifies S, node, root
    ensures found != null ==> found in S && cmp(found) == 0 && t' == t0 && Holds(Snap(S), root.node, Dummy, map[], t')
    ensures found == null ==>
              var s := Inorder(t0);
              Holds(Snap(S + {node}), root.node, Dummy, map[], t') && k <= |s| && Inorder(t') == s[..k] + [node] + s[k..] &&
              (forall x | x in s[..k] :: cmp(x) > 0) && forall x | x in s[k..] :: cmp(x) < 0
  {
    hide Rep, Ord, OrdHole, Rb, Nodes, Inorder, NoDup, AugSnap;
    ghost var w := Enter(Snap(S), root.node, t0);
    var link := root.node;
    var parent, d := null, Left;
    ghost var c, t := Top, t0;
    while link != null
      invariant Snap(S) == old(Snap(S)) && root.node == old(root.node)
      invariant At(Snap(w.S), root.node, c, t, w) && RootOf(t) == link && parent == CNode(c) && (c.In? ==> d == c.d) && Plug(c, t) == t0
      invariant AllBelow(cmp, Before(c)) && AllAbove(cmp, After(c))
      decreases t
    {
      parent := link;
      SearchNow(root.node, c, t, w);
      FallingAround(cmp, Before(c) + Inorder(t.l), parent, Inorder(t.r) + After(c));
      var order := cmp(parent);
      if order < 0 {
        c, t, d, link := In(c, Left, parent, t.red, t.r), t.l, Left, parent.left;
      } else if order > 0 {
        c, t, d, link := In(c, Right, parent, t.red, t.l), t.r, Right, parent.right;
      } else {
        return parent, t0, 0;
      }
    }
    AddedBetween(cmp, c, t0, node);
    t' := LinkAndColor(node, parent, d, root, c, w);
    return null, t', |Before(c)|;
  }

  // ---------------------------------------------------------------- rb_replace_node

  lemma {:induction false} OrdExtend(pos: Pos, t: Tree, lo: int, hi: int, s: RbNode, p: int)
    requires Ord(pos, t, lo, hi) && s !in pos
    ensures Ord(pos[s := p], t, lo, hi)
  {
    match t
    case E =>
    case N(l, x, _, r) =>
      OrdExtend(pos, l, lo, pos[x], s, p);
      OrdExtend(pos, r, pos[x], hi, s, p);
  }

  lemma {:induction false} COrdExtend(pos: Pos, c: Ctx, s: RbNode, p: int)
    requires COrd(pos, c) && s !in pos
    ensures COrd(pos[s := p], c) && Lo(pos[s := p], c) == Lo(pos, c) && Hi(pos, c) <= Hi(pos[s := p], c)
  {
    match c
    case Top =>
    case In(up, d, x, _, sib) =>
      COrdExtend(pos, up, s, p);
      var lo, hi := if d.Left? then pos[x] else Lo(pos, up), if d.Left? then Hi(pos, up) else pos[x];
      OrdExtend(pos, sib, lo, hi, s, p);
      OrdWiden(pos[s := p], sib, lo, hi, lo, if d.Left? then Hi(pos[s := p], up) else pos[x]);
  }

  /// The replacement shares the position of the node it replaces.
  lemma ShareSpot(m: Mem, rn: RbNode?, c: Ctx, t: Tree, s: RbNode, w: World) returns (w1: World)
    requires At(m, rn, c, t, w) && t.N? && s !in w.pos
    ensures At(m, rn, c, t, w1) && OrdHole(w1.pos, c, N(t.l, s, t.red, t.r)) && w1.pos[t.x] == w1.pos[s]
  {
    var p := w.pos[t.x];
    w1 := World(w.S, w.ord, w.pos[s := p]);
    COrdExtend(w.pos, c, s, p);
    OrdExtend(w.pos, t, Lo(w.pos, c), Hi(w.pos, c), s, p);
    OrdWiden(w1.pos, t, Lo(w.pos, c), Hi(w.pos, c), Lo(w1.pos, c), Hi(w1.pos, c));
  }

  /// *new = *victim. The new node takes the victim's rank.
  method CopyLinks(victim: RbNode, new_: RbNode, ghost S: set<RbNode>, ghost rk: Rank)
    requires victim in S && new_ !in S && Ranked(S, rk)
    modifies new_`left, new_`right, new_`parent, new_`red
    ensures CellOf(new_) == CellOf(victim)
    ensures Ranked(S + {new_}, rk[new_ := rk[victim]])
  {
    assert forall x | x in S :: Below(rk, x.left, x) && Below(rk, x.right, x);
    new_.left, new_.right, new_.parent, new_.red := victim.left, victim.right, victim.parent, victim.red;
  }

  method Adopt(kid: RbNode?, p: RbNode)
    modifies Opt(kid)`parent
    ensures kid != null ==> CellOf(kid) == old(CellOf(kid)).(parent := p)
  {
    if kid != null {
      SetParent(kid, p);
    }
  }

  method TakeOver(victim: RbNode, new_: RbNode, left: RbNode?, right: RbNode?, ghost S: set<RbNode>, ghost rk: Rank)
    requires victim in S && new_ !in S && Ranked(S, rk) && left != victim && right != victim
    requires left != null ==> left in S && left != right
    requires right != null ==> right in S
    modifies new_`left, new_`right, new_`parent, new_`red, Opt(left)`parent, Opt(right)`parent
    ensures CellOf(new_) == old(CellOf(victim))
    ensures left != null ==> CellOf(left) == old(CellOf(left)).(parent := new_)
    ensures right != null ==> CellOf(right) == old(CellOf(right)).(parent := new_)
    ensures Ranked(S + {new_}, rk[new_ := rk[victim]])
  {
    CopyLinks(victim, new_, S, rk);
    Adopt(left, new_);
    Adopt(right, new_);
  }

  /// The stores of rb_replace_node.
  method ReplaceStores(victim: RbNode, new_: RbNode, left: RbNode?, right: RbNode?, parent: RbNode?, root: RbRoot, ghost d: Side, ghost S: set<RbNode>, ghost rk: Rank)
    requires victim in S && new_ !in S && Ranked(S, rk) && victim.left == left && victim.right == right && victim.parent == parent
    requires left != victim && right != victim && parent != victim
    requires left != null ==> left in S && left != right && left != parent
    requires right != null ==> right in S && right != parent
    requires parent != null ==> parent in S && parent.Kid(d) == victim && parent.Kid(d.Flip()) != victim
    modifies new_`left, new_`right, new_`parent, new_`red, Opt(left)`parent, Opt(right)`parent
    modifies root, Opt(parent)`left, Opt(parent)`right
    ensures CellOf(new_) == old(CellOf(victim))
    ensures left != null ==> CellOf(left) == old(CellOf(left)).(parent := new_)
    ensures right != null ==> CellOf(right) == old(CellOf(right)).(parent := new_)
    ensures parent != null ==> CellOf(parent) == old(CellOf(parent)).SetKid(d, new_) && root.node == old(root.node)
    ensures parent == null ==> root.node == new_
    ensures Ranked(S + {new_}, rk[new_ := rk[victim]])
  {
    assert parent != null ==> Below(rk, parent.left, parent) && Below(rk, parent.right, parent);
    TakeOver(victim, new_, left, right, S, rk);
    ChangeChild(victim, new_, parent, root, d, S + {new_}, rk[new_ := rk[victim]]);
  }

  /// The same as a change of memory.
  method ReplaceMem(victim: RbNode, new_: RbNode, root: RbRoot, ghost left: RbNode?, ghost right: RbNode?, ghost cx: RbNode?, ghost d: Side, ghost S: set<RbNode>, ghost rk: Rank)
    requires victim in S && new_ !in S && Ranked(S, rk) && victim.left == left && victim.right == right && victim.parent == cx
    requires left != victim && right != victim && cx != victim
    requires left != null ==> left in S && left != right && left != cx
    requires right != null ==> right in S && right != cx
    requires cx != null ==> cx in S && cx.Kid(d) == victim && cx.Kid(d.Flip()) != victim
    modifies S`left, S`right, S`parent, new_, root
    ensures var m, m' := old(Snap(S)), Snap(S + {new_});
            m'[new_] == m[victim] &&
            (left != null ==> m'[left] == m[left].(parent := new_)) && (right != null ==> m'[right] == m[right].(parent := new_)) &&
            (if cx == null then root.node == new_ else root.node == old(root.node) && m'[cx] == m[cx].SetKid(d, new_)) &&
            AgreeBut(m, m', Opt(left) + Opt(right) + Opt(cx))
  {
    ReplaceStores(victim, new_, victim.left, victim.right, victim.parent, root, d, S, rk);
  }

  /// m2 is memory after the stores, and m' the same without the victim.
  lemma ReplaceLess(m: Mem, m2: Mem, m': Mem, rn: RbNode?, rn': RbNode?, c: Ctx, t: Tree, s: RbNode, w1: World, w': World)
    requires At(m, rn, c, t, w1) && t.N? && OrdHole(w1.pos, c, N(t.l, s, t.red, t.r)) && w1.pos[t.x] == w1.pos[s]
    requires s !in m && AgreeBut(m2, m', {t.x}) && s in m2 && m2[s] == m[t.x] && m.Keys <= m2.Keys
    requires RootOf(t.l) != t.x && RootOf(t.r) != t.x && CNode(c) != t.x
    requires t.l.N? ==> t.l.x in m && m2[t.l.x] == m[t.l.x].(parent := s)
    requires t.r.N? ==> t.r.x in m && m2[t.r.x] == m[t.r.x].(parent := s)
    requires if c.Top? then rn' == s else rn' == rn && c.x in m && m2[c.x] == m[c.x].SetKid(c.d, s)
    requires AgreeBut(m, m2, Opt(RootOf(t.l)) + Opt(RootOf(t.r)) + Opt(CNode(c)))
    requires w'.pos == w1.pos && w'.ord == Inorder(Plug(c, N(t.l, s, t.red, t.r)))
    ensures At(m', rn', c, N(t.l, s, t.red, t.r), w')
  {
    assert t.x in m && t.x != s;
    ReplaceRep(m, m', rn, rn', c, t.l, t.x, t.red, t.r, s, w1, w');
  }

  lemma ReplaceOpen(root: RbRoot, c: Ctx, t: Tree, w: World) returns (rk: Rank)
    requires WorldOk(w) && At(Snap(w.S), root.node, c, t, w) && t.N?
    ensures Ranked(w.S, rk) && t.x in w.S && t.x.left == RootOf(t.l) && t.x.right == RootOf(t.r) && t.x.parent == CNode(c)
    ensures t.x.left != t.x && t.x.right != t.x && t.x.parent != t.x
    ensures t.x.left != null ==> t.x.left in w.S && t.x.left != t.x.right && t.x.left != t.x.parent
    ensures t.x.right != null ==> t.x.right in w.S && t.x.right != t.x.parent
    ensures c.In? ==> c.x in w.S && c.x.Kid(c.d) == t.x && c.x.Kid(c.d.Flip()) != t.x
    ensures c.Top? ==> root.node == t.x
  {
    var m := Snap(w.S);
    rk := AtLinked(m, root.node, c, t, w);
    assert forall x | x in w.S :: m[x] == CellOf(x) && Below(rk, m[x].left, x) && Below(rk, m[x].right, x);
    LeftNow(root.node, c, t, w);
    UpNow(root.node, c, t, w);
    OrdEdge(w.pos, c);
    OrdTop(w.pos, t, Lo(w.pos, c), Hi(w.pos, c));
    OrdTop(w.pos, t.l, Lo(w.pos, c), w.pos[t.x]);
    OrdTop(w.pos, t.r, w.pos[t.x], Hi(w.pos, c));
  }

  /// rb_replace_node: the sequence has new_ where it had victim.
  method ReplaceNode(victim: RbNode, new_: RbNode, root: RbRoot, ghost c: Ctx, ghost t: Tree, ghost w: World) returns (ghost w': World)
    requires WorldOk(w) && At(Snap(w.S), root.node, c, t, w) && t.N? && t.x == victim && new_ !in w.S && new_ !in w.pos
    modifies w.S, new_, root
    ensures At(Snap(w.S - {victim} + {new_}), root.node, c, N(t.l, new_, t.red, t.r), w')
  {
    ghost var m, rn := Snap(w.S), root.node;
    ghost var rk := ReplaceOpen(root, c, t, w);
    ghost var w1 := ShareSpot(m, rn, c, t, new_, w);
    w' := World(w.S - {victim} + {new_}, Inorder(Plug(c, N(t.l, new_, t.red, t.r))), w1.pos);
    ReplaceMem(victim, new_, root, RootOf(t.l), RootOf(t.r), CNode(c), CSide(c), w.S, rk);
    ReplaceLess(m, Snap(w.S + {new_}), Snap(w'.S), rn, root.node, c, t, new_, w1, w');
  }

  // ---------------------------------------------------------------- the cached tree

  lemma {:induction false} WithoutAt(s: seq<RbNode>, i: nat)
    requires i < |s| && NoDup(s)
    ensures Without(s, s[i]) == s[..i] + s[i + 1..]
  {
    assert s == s[..i] + [s[i]] + s[i + 1..];
    WithoutMiddle(s[..i], s[i], s[i + 1..]);
  }

  /// What is left of a sorted sequence is sorted.
  lemma {:induction false} EraseSorted(less: (RbNode, RbNode) -> bool, s: seq<RbNode>, x: RbNode)
    requires Sorted(less, s)
    ensures Sorted(less, Without(s, x)) && forall y | y in Without(s, x) :: y in s
    decreases s
  {
    if s != [] && s[0] != x {
      var r := s[1..];
      EraseSorted(less, r, x);
      forall j | 0 < j <= |Without(r, x)|
        ensures !less(Without(s, x)[j], s[0])
      {
        assert Without(s, x)[j] == Without(r, x)[j - 1] && Without(r, x)[j - 1] in r;
      }
    }
  }

  ghost function IndexOf(s: seq<RbNode>, x: RbNode): (i: nat)
    requires x in s
    ensures i < |s| && s[i] == x
  {
    var i :| 0 <= i < |s| && s[i] == x;
    i
  }

  /// The neighbours of x in the sequence s.
  ghost function After_(s: seq<RbNode>, x: RbNode): RbNode?
    requires x in s
  {
    var i := IndexOf(s, x) + 1;
    if i < |s| then s[i] else null
  }

  ghost function Before_(s: seq<RbNode>, x: RbNode): RbNode?
    requires x in s
  {
    var i := IndexOf(s, x);
    if i > 0 then s[i - 1] else null
  }

  /// A node that is not less than its predecessor and not greater than its successor is in order.
  lemma StaysSorted(less: (RbNode, RbNode) -> bool, a: seq<RbNode>, x: RbNode, b: seq<RbNode>, S: set<RbNode>)
    requires StrictWeak(less, S) && Sorted(less, a + b) && x in S && forall y | y in a + b :: y in S
    requires a != [] ==> !less(x, a[|a| - 1])
    requires b != [] ==> !less(b[0], x)
    ensures Sorted(less, a + [x] + b)
  {
    var s, r := a + b, a + [x] + b;
    forall i | 0 <= i < |a|
      ensures !less(x, a[i])
    {
      assert s[i] == a[i] && s[|a| - 1] == a[|a| - 1] && s[i] in s && s[|a| - 1] in s;
    }
    forall i | 0 <= i < |b|
      ensures !less(b[i], x)
    {
      assert s[|a| + i] == b[i] && s[|a|] == b[0] && s[|a| + i] in s && s[|a|] in s;
    }
    forall i, j | 0 <= i < j < |r|
      ensures !less(r[j], r[i])
    {
      assert r[i] == if i < |a| then s[i] else if i == |a| then x else s[i - 1];
      assert r[j] == if j < |a| then s[j] else if j == |a| then x else s[j - 1];
    }
  }

  /// rb_next (d is Right) and rb_prev (d is Left).
  method Neighbour(d: Side, node: RbNode, ghost rn: RbNode?, ghost t: Tree, ghost S: set<RbNode>) returns (n: RbNode?)
    requires Rep(Snap(S), t, rn, null) && S == Nodes(t) && NoDup(Inorder(t)) && node in Inorder(t)
    ensures n == if d.Left? then Before_(Inorder(t), node) else After_(Inorder(t), node)
    ensures Snap(S) == old(Snap(S)) && AugSnap(S) == old(AugSnap(S))
  {
    hide Rep, CRep, Ord, OrdHole, Inorder, Nodes, NoDup, WorldOk, IndexOf;
    ghost var w := Enter(Snap(S), rn, t);
    n := Next(d, node, rn, t, IndexOf(Inorder(t), node), w);
  }

  /// rb_erase and rb_erase_augmented on a whole tree.
  method EraseFrom(node: RbNode, root: RbRoot, cb: Callbacks, ghost t: Tree, ghost S: set<RbNode>) returns (ghost t': Tree)
    requires Holds(Snap(S), root.node, cb, AugSnap(S), t) && node in S
    modifies S, root
    ensures Holds(Snap(S - {node}), root.node, cb, AugSnap(S - {node}), t')
    ensures node in Inorder(t) && Inorder(t') == Without(Inorder(t), node) && Nodes(t') == S - {node}
  {
    ghost var w := Enter(Snap(S), root.node, t);
    ghost var c, t1 := Locate(Snap(S), root.node, t, IndexOf(w.ord, node), w);
    if cb.Max? {
      AugPlug(AugSnap(S), cb.compute, c, t1);
    }
    t' := Erase(node, root, cb, c, t1, w);
    Leave(Snap(S - {node}), root.node, cb, AugSnap(S - {node}), t', Less(w, node));
  }

  lemma SlotOrder(less: (RbNode, RbNode) -> bool, c: Ctx, t: Tree, node: RbNode)
    requires Plug(c, E) == t && NoneMore(less, Before(c), node) && AllMore(less, node, After(c))
    ensures var s := Before(c) + [node] + After(c);
            s == Inserted(less, Inorder(t), node) && End(Left, s) == if Before(c) == [] then node else End(Left, Inorder(t))
  {
    InorderPlug(c, E);
    assert Inorder(t) == Before(c) + After(c);
    InsertedBetween(less, Before(c), node, After(c));
  }

  /// rb_add on a whole tree; first tells whether the node came in front of all others.
  method AddTo(node: RbNode, root: RbRoot, less: (RbNode, RbNode) -> bool, ghost t: Tree, ghost S: set<RbNode>) returns (first: bool, ghost t': Tree)
    requires Holds(Snap(S), root.node, Dummy, map[], t) && node !in S
    requires StrictWeak(less, S + {node}) && Sorted(less, Inorder(t))
    modifies S, node, root
    ensures Holds(Snap(S + {node}), root.node, Dummy, map[], t') && Nodes(t') == S + {node}
    ensures Inorder(t') == Inserted(less, Inorder(t), node) && Sorted(less, Inorder(t'))
    ensures End(Left, Inorder(t')) == if first then node else End(Left, Inorder(t))
  {
    ghost var w := Enter(Snap(S), root.node, t);
    var parent, d;
    ghost var c;
    parent, d, first, c := FindSlot(node, root, less, t, w);
    SlotOrder(less, c, t, node);
    InsertedSorted(less, w.ord, node, S + {node});
    t' := LinkAndColor(node, parent, d, root, c, w);
  }

  lemma NodeListed(t: Tree, x: RbNode)
    requires x in Nodes(t)
    ensures x in Inorder(t)
  {
    InorderNodes(t);
  }

  /// Taking out another node than the first leaves the first in place.
  lemma FirstStays(s: seq<RbNode>, x: RbNode)
    requires NoDup(s) && x in s
    ensures End(Left, Without(s, x)) == if s[0] == x then After_(s, x) else End(Left, s)
  {
    WithoutAt(s, IndexOf(s, x));
  }

  /// The tree with new_ in victim's place.
  lemma ReplacedOk(m: Mem, rn: RbNode?, c: Ctx, t: Tree, s: RbNode, w: World, m': Mem, rn': RbNode?, w': World)
    requires WorldOk(w) && At(m, rn, c, t, w) && t.N? && Rb(Plug(c, t)) && !IsRed(Plug(c, t)) && s !in w.S
    requires At(m', rn', c, N(t.l, s, t.red, t.r), w') && m'.Keys == w.S - {t.x} + {s}
    ensures var t' := Plug(c, N(t.l, s, t.red, t.r));
            Holds(m', rn', Dummy, map[], t') &&
            t.x in w.ord && Inorder(t') == w.ord[IndexOf(w.ord, t.x) := s] && Nodes(t') == w.S - {t.x} + {s}
  {
    var v := N(t.l, s, t.red, t.r);
    RbUnplug(c, t);
    RbPlug(c, v);
    AtPlug(m', rn', c, v, w');
    AtOrd(m, rn, c, t, w);
    AtOrd(m', rn', c, v, w');
    OrdSpread(w'.pos, Plug(c, v), -1, |w'.pos|);
    OrdSpread(w.pos, Plug(c, t), -1, |w.pos|);
    SwapOne(Before(c) + Inorder(t.l), t.x, s, Inorder(t.r) + After(c), w.ord, w'.ord, Before(c), Inorder(t.l), Inorder(t.r), After(c));
    InorderNodes(Plug(c, v));
    SwapNodes(w.ord, IndexOf(w.ord, t.x), s, w.S, Nodes(Plug(c, v)));
  }

  lemma SwapOne(a: seq<RbNode>, x: RbNode, s: RbNode, b: seq<RbNode>, ord: seq<RbNode>, ord': seq<RbNode>,
    a1: seq<RbNode>, a2: seq<RbNode>, b1: seq<RbNode>, b2: seq<RbNode>)
    requires a == a1 + a2 && b == b1 + b2 && ord == a1 + (a2 + [x] + b1) + b2 && ord' == a1 + (a2 + [s] + b1) + b2 && NoDup(ord)
    ensures x in ord && ord' == ord[IndexOf(ord, x) := s]
  {
    assert ord == a + [x] + b && ord' == a + [s] + b;
    assert ord[|a|] == x;
  }

  lemma SwapNodes(ord: seq<RbNode>, i: nat, s: RbNode, S: set<RbNode>, S': set<RbNode>)
    requires i < |ord| && NoDup(ord) && (forall x | x in S :: x in ord) && (forall x | x in ord :: x in S)
    requires (forall x | x in S' :: x in ord[i := s]) && (forall x | x in ord[i := s] :: x in S')
    ensures S' == S - {ord[i]} + {s}
  {
    var ord' := ord[i := s];
    forall x | x in S - {ord[i]}
      ensures x in S'
    {
      var j :| 0 <= j < |ord| && ord[j] == x;
      assert ord'[j] == x;
    }
    assert ord'[i] == s;
    forall x | x in S'
      ensures x in S - {ord[i]} + {s}
    {
      var j :| 0 <= j < |ord'| && ord'[j] == x;
      assert j != i ==> ord[j] == x;
    }
  }

  /// rb_replace_node on a whole tree.
  method ReplaceIn(victim: RbNode, new_: RbNode, root: RbRoot, ghost t: Tree, ghost S: set<RbNode>) returns (ghost t': Tree)
    requires Holds(Snap(S), root.node, Dummy, map[], t) && victim in S && new_ !in S
    modifies S, new_, root
    ensures Holds(Snap(S - {victim} + {new_}), root.node, Dummy, map[], t') && Nodes(t') == S - {victim} + {new_}
    ensures victim in Inorder(t) && Inorder(t') == Inorder(t)[IndexOf(Inorder(t), victim) := new_]
  {
    ghost var m, rn := Snap(S), root.node;
    ghost var w := Enter(m, rn, t);
    ghost var c, t1 := Locate(m, rn, t, IndexOf(w.ord, victim), w);
    ghost var w' := ReplaceNode(victim, new_, root, c, t1, w);
    ReplacedOk(m, rn, c, t1, new_, w, Snap(S - {victim} + {new_}), root.node, w');
    t' := Plug(c, N(t1.l, new_, t1.red, t1.r));
  }

  /// `struct rb_root_cached`, together with the tree it holds.
  class CachedTree {
    const root: RbRoot
    const cb: Callbacks
    var leftmost: RbNode?
    ghost var tree: Tree

    /// A valid red-black tree, whose first node rb_leftmost is.
    ghost predicate Valid()
      reads this, root, Nodes(tree)
    {
      Holds(Snap(Nodes(tree)), root.node, cb, AugSnap(Nodes(tree)), tree) && leftmost == End(Left, Inorder(tree))
    }

    constructor (cb: Callbacks)
      ensures Valid() && fresh(root) && this.cb == cb && tree == E
    {
      root := new RbRoot();
      this.cb := cb;
      leftmost := null;
      tree := E;
    }

    /// rb_first_cached is rb_first.
    method First() returns (n: RbNode?)
      requires Valid()
      ensures n == if Inorder(tree) == [] then null else Inorder(tree)[0]
    {
      n := leftmost;
    }

    /// The first half of rb_erase_cached: if node is the leftmost node, its successor becomes that.
    method Advance(node: RbNode, ghost S: set<RbNode>) returns (r: RbNode?)
      requires Valid() && S == Nodes(tree) && node in S
      modifies `leftmost
      ensures Snap(S) == old(Snap(S)) && AugSnap(S) == old(AugSnap(S)) && node in Inorder(tree)
      ensures leftmost == End(Left, Without(Inorder(tree), node))
      ensures r == if old(leftmost) == node then leftmost else null
    {
      r := null;
      NodeListed(tree, node);
      FirstStays(Inorder(tree), node);
      if leftmost == node {
        r := Neighbour(Right, node, root.node, tree, S);
        leftmost := r;
      }
    }

    /// Note the new tree; the memory of its nodes stays.
    ghost method Keep(t': Tree, S: set<RbNode>)
      modifies `tree
      ensures tree == t' && Snap(S) == old(Snap(S)) && AugSnap(S) == old(AugSnap(S))
    {
      tree := t';
    }

    /// rb_erase_cached and rb_erase_augmented_cached.
    method Erase(node: RbNode) returns (r: RbNode?)
      requires Valid() && node in Nodes(tree)
      modifies this, root, Nodes(tree)
      ensures Valid() && Inorder(tree) == Without(old(Inorder(tree)), node) && Nodes(tree) == old(Nodes(tree)) - {node}
      ensures r == if old(leftmost) == node then leftmost else null
      ensures forall less: (RbNode, RbNode) -> bool | Sorted(less, old(Inorder(tree))) :: Sorted(less, Inorder(tree))
    {
      forall less: (RbNode, RbNode) -> bool | Sorted(less, Inorder(tree))
        ensures Sorted(less, Without(Inorder(tree), node))
      {
        EraseSorted(less, Inorder(tree), node);
      }
      ghost var S := Nodes(tree);
      r := Advance(node, S);
      ghost var t' := EraseFrom(node, root, cb, tree, S);
      Keep(t', S - {node});
    }

    method SetLeftmost(node: RbNode, ghost S: set<RbNode>)
      modifies `leftmost
      ensures leftmost == node && Snap(S) == old(Snap(S)) && AugSnap(S) == old(AugSnap(S))
    {
      leftmost := node;
    }

    /// rb_add_cached. The leftmost pointer is set after the insertion, not before the rebalancing.
    method Add(node: RbNode, less: (RbNode, RbNode) -> bool) returns (r: RbNode?)
      requires Valid() && cb.Dummy? && node !in Nodes(tree)
      requires StrictWeak(less, Nodes(tree) + {node}) && Sorted(less, Inorder(tree))
      modifies this, root, Nodes(tree), node
      ensures Valid() && Inorder(tree) == Inserted(less, old(Inorder(tree)), node) && Nodes(tree) == old(Nodes(tree)) + {node}
      ensures Sorted(less, Inorder(tree))
      ensures r == if leftmost == node then node else null
    {
      var first;
      ghost var t', S := tree, Nodes(tree);
      InorderNodes(tree);
      first, t' := AddTo(node, root, less, tree, S);
      Keep(t', S + {node});
      if first {
        SetLeftmost(node, S + {node});
      }
      r := if first then node else null;
    }

    /// rb_replace_node_cached.
    method Replace(victim: RbNode, new_: RbNode)
      requires Valid() && cb.Dummy? && victim in Nodes(tree) && new_ !in Nodes(tree)
      modifies this, root, Nodes(tree), new_
      ensures Valid() && Nodes(tree) == old(Nodes(tree)) - {victim} + {new_} && victim in old(Inorder(tree))
      ensures Inorder(tree) == old(Inorder(tree))[IndexOf(old(Inorder(tree)), victim) := new_]
    {
      ghost var S, s, s' := Nodes(tree), Inorder(tree), Nodes(tree) - {victim} + {new_};
      NodeListed(tree, victim);
      ghost var t' := ReplaceIn(victim, new_, root, tree, S);
      Keep(t', s');
      if leftmost == victim {
        SetLeftmost(new_, s');
      }
    }

    /// rb_move_cached, called after node's key has changed: less is the order with the new key.
    method Move(node: RbNode, less: (RbNode, RbNode) -> bool)
      requires Valid() && cb.Dummy? && node in Nodes(tree)
      requires StrictWeak(less, Nodes(tree)) && Sorted(less, Without(Inorder(tree), node))
      modifies this, root, Nodes(tree)
      ensures Valid() && Nodes(tree) == old(Nodes(tree)) && Sorted(less, Inorder(tree))
      ensures Sorted(less, old(Inorder(tree))) ==> Inorder(tree) == old(Inorder(tree))
      ensures !Sorted(less, old(Inorder(tree))) ==> Inorder(tree) == Inserted(less, Without(old(Inorder(tree)), node), node)
    {
      hide Rep, Ord, OrdHole, WorldOk, AugSnap, Without, Inserted, StrictWeak, Bh, Rb, IndexOf;
      NodeListed(tree, node);
      if Sorted(less, Inorder(tree)) { OutOfPlace(less, Inorder(tree), node); }
      var prev := Neighbour(Left, node, root.node, tree, Nodes(tree));
      var next := Neighbour(Right, node, root.node, tree, Nodes(tree));
      if (prev != null && less(node, prev)) || (next != null && less(next, node)) {
        ghost var S := Nodes(tree);
        var _ := Erase(node);
        assert Nodes(tree) + {node} == S;
        var _ := Add(node, less);
      } else {
        InorderNodes(tree);
        InPlace(less, Inorder(tree), node, Nodes(tree));
      }
    }
  }

  lemma InPlace(less: (RbNode, RbNode) -> bool, s: seq<RbNode>, x: RbNode, S: set<RbNode>)
    requires x in s && NoDup(s) && StrictWeak(less, S) && Sorted(less, Without(s, x)) && forall y | y in s :: y in S
    requires Before_(s, x) != null ==> !less(x, Before_(s, x))
    requires After_(s, x) != null ==> !less(After_(s, x), x)
    ensures Sorted(less, s)
  {
    var i := IndexOf(s, x);
    WithoutAt(s, i);
    StaysSorted(less, s[..i], x, s[i + 1..], S);
    assert s == s[..i] + [x] + s[i + 1..];
  }

  /// A neighbour can show that x is not in place.
  lemma OutOfPlace(less: (RbNode, RbNode) -> bool, s: seq<RbNode>, x: RbNode)
    requires x in s && Sorted(less, s)
    ensures Before_(s, x) != null ==> !less(x, Before_(s, x))
    ensures After_(s, x) != null ==> !less(After_(s, x), x)
  {
  }
}
