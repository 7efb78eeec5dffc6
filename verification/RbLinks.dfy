/// The pointer-setting helpers of the tree. Every store to a child pointer goes
/// through WriteOnce, whose contract is that it never closes a loop.
module RbLinks {
  import opened RbShape

  method WriteOnce(x: RbNode, d: Side, v: RbNode?, ghost S: set<RbNode>, ghost rk: Rank)
    requires x in S && Ranked(S, rk) && Below(rk, v, x)
    modifies x`left, x`right
    ensures CellOf(x) == old(CellOf(x)).SetKid(d, v)
    ensures Ranked(S, rk)
  {
    if d.Left? { x.left := v; } else { x.right := v; }
  }

  method SetParent(x: RbNode, p: RbNode?)
    modifies x`parent
    ensures CellOf(x) == old(CellOf(x)).(parent := p)
  {
    x.parent := p;
  }

  method SetParentColor(x: RbNode, p: RbNode?, red: bool)
    modifies x`parent, x`red
    ensures CellOf(x) == old(CellOf(x)).(parent := p, red := red)
  {
    x.parent := p;
    x.red := red;
  }

  method ChangeChild(old_: RbNode, new_: RbNode?, parent: RbNode?, root: RbRoot, ghost d: Side, ghost S: set<RbNode>, ghost rk: Rank)
    requires parent != null ==> parent in S && parent.Kid(d) == old_ && parent.Kid(d.Flip()) != old_ && Below(rk, new_, parent)
    requires Ranked(S, rk)
    modifies root, Opt(parent)`left, Opt(parent)`right
    ensures parent != null ==> CellOf(parent) == old(CellOf(parent)).SetKid(d, new_) && root.node == old(root.node)
    ensures parent == null ==> root.node == new_
    ensures Ranked(S, rk)
  {
    if parent != null {
      if parent.left == old_ {
        WriteOnce(parent, Left, new_, S, rk);
      } else {
        WriteOnce(parent, Right, new_, S, rk);
      }
    } else {
      root.node := new_;
    }
  }

  /// old_'s parent and colour go to new_; old_ gets new_ as parent and the given colour.
  method RotateSetParents(old_: RbNode, new_: RbNode, root: RbRoot, red: bool, ghost d: Side, ghost S: set<RbNode>, ghost rk: Rank)
    requires old_ != new_ && old_.parent != old_ && old_.parent != new_
    requires old_.parent != null ==>
               old_.parent in S && old_.parent.Kid(d) == old_ && old_.parent.Kid(d.Flip()) != old_ && Below(rk, new_, old_.parent)
    requires Ranked(S, rk)
    modifies {old_, new_}`parent, {old_, new_}`red, root, Opt(old_.parent)`left, Opt(old_.parent)`right
    ensures CellOf(new_) == old(CellOf(new_)).(parent := old(old_.parent), red := old(old_.red))
    ensures CellOf(old_) == old(CellOf(old_)).(parent := new_, red := red)
    ensures new_.parent != null ==> CellOf(new_.parent) == old(CellOf(old_.parent)).SetKid(d, new_) && root.node == old(root.node)
    ensures new_.parent == null ==> root.node == new_
    ensures Ranked(S, rk)
  {
    var parent := old_.parent;
    new_.parent := old_.parent;
    new_.red := old_.red;
    SetParentColor(old_, new_, red);
    ChangeChild(old_, new_, parent, root, d, S, rk);
  }

  /// The two stores common to every rotation: tmp takes new_'s place below
  /// old_, and old_ goes below new_. For a moment nothing points to new_, which
  /// is why it can be ranked above old_ again.
  method TurnStores(old_: RbNode, new_: RbNode, d: Side, tmp: RbNode?, ghost up: RbNode?, ghost S: set<RbNode>, ghost rk: Rank)
    returns (ghost rk': Rank)
    requires {old_, new_} <= S && old_ != new_ && old_.Kid(d.Flip()) != new_ && tmp == new_.Kid(d.Flip()) && tmp != new_
    requires Ranked(S, rk) && Below(rk, tmp, old_) && rk[new_] < rk[old_] && (up in rk ==> up != new_ && rk[old_] < rk[up])
    requires forall y | y in S && (y.left == new_ || y.right == new_) :: y == old_
    modifies {old_, new_}`left, {old_, new_}`right
    ensures CellOf(old_) == old(CellOf(old_)).SetKid(d, tmp)
    ensures CellOf(new_) == old(CellOf(new_)).SetKid(d.Flip(), old_)
    ensures Ranked(S, rk') && (up in rk ==> up in rk' && rk'[new_] < rk'[up])
    ensures forall y | y in S :: y.left != new_ && y.right != new_
  {
    WriteOnce(old_, d, tmp, S, rk);
    rk' := rk[new_ := Amid(rk, old_, up)];
    Raise(new_, rk'[new_], S, rk);
    WriteOnce(new_, d.Flip(), old_, S, rk');
  }
}
