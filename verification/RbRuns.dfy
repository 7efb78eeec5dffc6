/// Whole runs of the cached tree: nodes are added and erased, and their keys change. A node's key is
/// what the comparison looks at.
module RbRuns {
  import opened Basics
  import opened RbShape
  import opened RbAugment
  import opened RbErase
  import opened RbWalk
  import opened RbTree
  import opened RbCached

  type Keys = RbNode -> int

  datatype Op = AddNode(x: RbNode, key: int) | EraseNode(x: RbNode) | ChangeKey(x: RbNode, key: int)

  /// The nodes in order, and all keys.
  datatype State = State(nodes: seq<RbNode>, keys: Keys)

  function Rekeyed(keys: Keys, x: RbNode, key: int): Keys { (y: RbNode) => if y == x then key else keys(y) }

  function ByKey(keys: Keys): (RbNode, RbNode) -> bool { (x: RbNode, y: RbNode) => keys(x) < keys(y) }

  ghost predicate Legal(s: State, op: Op) { op.AddNode? <==> op.x !in s.nodes }

  ghost function Step(s: State, op: Op): State {
    match op
    case AddNode(x, key) =>
      var keys := Rekeyed(s.keys, x, key);
      State(Inserted(ByKey(keys), s.nodes, x), keys)
    case EraseNode(x) => State(Without(s.nodes, x), s.keys)
    case ChangeKey(x, key) =>
      var keys := Rekeyed(s.keys, x, key);
      State(if Sorted(ByKey(keys), s.nodes) then s.nodes else Inserted(ByKey(keys), Without(s.nodes, x), x), keys)
  }

  ghost predicate LegalRun(s: State, ops: seq<Op>)
    decreases |ops|
  {
    ops == [] || (Legal(s, ops[0]) && LegalRun(Step(s, ops[0]), ops[1..]))
  }

  ghost function Steps(s: State, ops: seq<Op>): State
    decreases |ops|
  {
    if ops == [] then s else Steps(Step(s, ops[0]), ops[1..])
  }

  ghost predicate InOrder(s: State) { Sorted(ByKey(s.keys), s.nodes) }

  // ---------------------------------------------------------------- one operation

  lemma KeyOrder(keys: Keys, S: set<RbNode>)
    ensures StrictWeak(ByKey(keys), S)
  {
  }

  /// The other nodes do not notice a new key of x.
  lemma OtherKeys(keys: Keys, x: RbNode, key: int, s: seq<RbNode>)
    requires Sorted(ByKey(keys), s) && x !in s
    ensures Sorted(ByKey(Rekeyed(keys, x, key)), s)
  {
    assert forall i | 0 <= i < |s| :: s[i] in s && s[i] != x;
  }

  lemma {:induction false} Gone(s: seq<RbNode>, x: RbNode)
    requires NoDup(s)
    ensures x !in Without(s, x) && NoDup(Without(s, x))
    ensures forall y | y in Without(s, x) :: y in s
    decreases |s|
  {
    if s != [] {
      var r := s[1..];
      Gone(r, x);
      assert forall i | 0 <= i < |r| :: r[i] == s[i + 1];
      if s[0] != x {
        assert forall i | 0 <= i < |Without(r, x)| :: Without(r, x)[i] in r;
      }
    }
  }

  /// One operation as the object does it.
  method Perform(t: CachedTree, op: Op, keys: Keys) returns (keys': Keys)
    requires t.Valid() && t.cb.Dummy? && InOrder(State(Inorder(t.tree), keys)) && Legal(State(Inorder(t.tree), keys), op)
    modifies t, t.root, Nodes(t.tree), op.x
    ensures t.Valid() && State(Inorder(t.tree), keys') == Step(State(old(Inorder(t.tree)), keys), op)
    ensures InOrder(State(Inorder(t.tree), keys')) && Nodes(t.tree) <= old(Nodes(t.tree)) + {op.x}
    ensures op.ChangeKey? && Sorted(ByKey(keys'), old(Inorder(t.tree))) ==> Inorder(t.tree) == old(Inorder(t.tree))
  {
    hide StrictWeak, Inserted, Without;
    ghost var s := Inorder(t.tree);
    InorderNodes(t.tree);
    match op
    case AddNode(x, key) =>
      keys' := Rekeyed(keys, x, key);
      KeyOrder(keys', Nodes(t.tree) + {x});
      OtherKeys(keys, x, key, s);
      var _ := t.Add(x, ByKey(keys'));
    case EraseNode(x) =>
      keys' := keys;
      EraseSorted(ByKey(keys), s, x);
      var _ := t.Erase(x);
    case ChangeKey(x, key) =>
      keys' := Rekeyed(keys, x, key);
      KeyOrder(keys', Nodes(t.tree));
      EraseSorted(ByKey(keys), s, x);
      Gone(s, x);
      OtherKeys(keys, x, key, Without(s, x));
      t.Move(x, ByKey(keys'));
  }

  // ---------------------------------------------------------------- any run

  ghost function Touched(ops: seq<Op>): set<RbNode> { set op | op in ops :: op.x }

  /// Any sequence of operations: the tree stays a valid red-black tree, in the order of the keys of the
  /// moment, with the nodes that the run leaves, and rb_leftmost is a node with the smallest key.
  method Run(t: CachedTree, ops: seq<Op>, keys: Keys) returns (keys': Keys)
    requires t.Valid() && t.cb.Dummy? && InOrder(State(Inorder(t.tree), keys)) && LegalRun(State(Inorder(t.tree), keys), ops)
    modifies t, t.root, Nodes(t.tree), Touched(ops)
    ensures t.Valid() && State(Inorder(t.tree), keys') == Steps(State(old(Inorder(t.tree)), keys), ops)
    ensures InOrder(State(Inorder(t.tree), keys'))
    ensures t.leftmost == null <==> Nodes(t.tree) == {}
    ensures t.leftmost != null ==> t.leftmost in Nodes(t.tree) && forall x | x in Nodes(t.tree) :: keys'(t.leftmost) <= keys'(x)
  {
    hide Step, InOrder;
    keys' := keys;
    var i := 0;
    ghost var s, s0, S := State(Inorder(t.tree), keys), State(Inorder(t.tree), keys), Nodes(t.tree) + Touched(ops);
    assert ops[0..] == ops;
    while i < |ops|
      invariant 0 <= i <= |ops| && t.Valid() && Nodes(t.tree) <= S
      invariant s == State(Inorder(t.tree), keys') && InOrder(s)
      invariant LegalRun(s, ops[i..]) && Steps(s, ops[i..]) == Steps(s0, ops)
    {
      assert ops[i..][0] == ops[i] && ops[i..][1..] == ops[i + 1..];
      assert ops[i] in ops && ops[i].x in Touched(ops);
      keys' := Perform(t, ops[i], keys');
      s := State(Inorder(t.tree), keys');
      i := i + 1;
    }
    assert ops[i..] == [];
    FirstLeast(t.tree, keys');
  }

  lemma FirstLeast(t: Tree, keys: Keys)
    requires InOrder(State(Inorder(t), keys))
    ensures End(Left, Inorder(t)) == null <==> Nodes(t) == {}
    ensures End(Left, Inorder(t)) != null ==> End(Left, Inorder(t)) in Nodes(t) && forall x | x in Nodes(t) :: keys(End(Left, Inorder(t))) <= keys(x)
  {
    var s := Inorder(t);
    InorderNodes(t);
    if s != [] {
      assert s[0] in s;
      forall x | x in Nodes(t)
        ensures keys(s[0]) <= keys(x)
      {
        var i :| 0 <= i < |s| && s[i] == x;
      }
    }
  }

  // ---------------------------------------------------------------- what a run leaves

  /// Whether x is there after the operations.
  ghost function Present(ops: seq<Op>, x: RbNode, was: bool): bool
    decreases |ops|
  {
    if ops == [] then was else Present(ops[1..], x, if ops[0].x == x then !ops[0].EraseNode? else was)
  }

  /// The key that x was given last.
  ghost function LastKey(ops: seq<Op>, x: RbNode, key: int): int
    decreases |ops|
  {
    if ops == [] then key else LastKey(ops[1..], x, if ops[0].x == x && !ops[0].EraseNode? then ops[0].key else key)
  }

  lemma {:induction false} InsertedDistinct(less: (RbNode, RbNode) -> bool, s: seq<RbNode>, x: RbNode)
    requires NoDup(s) && x !in s
    ensures NoDup(Inserted(less, s, x)) && forall y :: y in Inserted(less, s, x) <==> y in s || y == x
    decreases |s|
  {
    if s != [] && !less(x, s[0]) {
      var r := s[1..];
      assert forall i | 0 <= i < |r| :: r[i] == s[i + 1];
      InsertedDistinct(less, r, x);
      assert forall y :: y in s <==> y == s[0] || y in r;
      assert forall i | 0 <= i < |Inserted(less, r, x)| :: Inserted(less, r, x)[i] in Inserted(less, r, x);
    }
  }

  lemma {:induction false} OthersStay(s: seq<RbNode>, x: RbNode)
    ensures forall y | y in s && y != x :: y in Without(s, x)
    decreases |s|
  {
    if s != [] { OthersStay(s[1..], x); }
  }

  lemma StepMembers(s: State, op: Op, y: RbNode)
    requires NoDup(s.nodes) && Legal(s, op)
    ensures NoDup(Step(s, op).nodes) && (y in Step(s, op).nodes <==> if y == op.x then !op.EraseNode? else y in s.nodes)
  {
    hide Inserted, Without;
    Gone(s.nodes, op.x);
    OthersStay(s.nodes, op.x);
    if op.AddNode? {
      InsertedDistinct(ByKey(Step(s, op).keys), s.nodes, op.x);
    } else {
      InsertedDistinct(ByKey(Step(s, op).keys), Without(s.nodes, op.x), op.x);
    }
  }

  /// A node is there exactly if it was added, or there from the start, and not erased since; and
  /// its key is the one that it was given last.
  lemma {:induction false} RunLeaves(s: State, ops: seq<Op>, x: RbNode)
    requires NoDup(s.nodes) && LegalRun(s, ops)
    ensures x in Steps(s, ops).nodes <==> Present(ops, x, x in s.nodes)
    ensures Steps(s, ops).keys(x) == LastKey(ops, x, s.keys(x)) && NoDup(Steps(s, ops).nodes)
    decreases |ops|
  {
    if ops != [] {
      StepMembers(s, ops[0], x);
      assert Step(s, ops[0]).keys(x) == if ops[0].x == x && !ops[0].EraseNode? then ops[0].key else s.keys(x);
      hide Step, NoDup;
      RunLeaves(Step(s, ops[0]), ops[1..], x);
    }
  }
}
