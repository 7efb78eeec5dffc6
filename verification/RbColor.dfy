/// The five red-black rules, for trees and for trees with a hole, and the
/// height bound they give.
module RbColor {
  import opened Basics
  import opened RbShape

  /// Black nodes on the leftmost path.
  ghost function Bh(t: Tree): nat {
    match t
    case E => 0
    case N(l, _, red, _) => Bh(l) + if red then 0 else 1
  }

  /// Rules 4 and 5 in the whole of t.
  ghost predicate Rb(t: Tree) {
    match t
    case E => true
    case N(l, _, red, r) => Rb(l) && Rb(r) && Bh(l) == Bh(r) && (red ==> !IsRed(l) && !IsRed(r))
  }

  /// The context obeys the rules when its hole is filled by a black-rooted tree
  /// of black height h.
  ghost predicate CRb(c: Ctx, h: nat) {
    match c
    case Top => true
    case In(up, _, _, red, sib) =>
      Rb(sib) && Bh(sib) == h && (red ==> !IsRed(sib) && up.In? && !up.red) &&
      CRb(up, if red then h else h + 1)
  }

  lemma RbMk(d: Side, a: Tree, x: RbNode, red: bool, b: Tree)
    ensures Rb(Mk(d, a, x, red, b)) <==>
            Rb(a) && Rb(b) && Bh(a) == Bh(b) && (red ==> !IsRed(a) && !IsRed(b))
    ensures Bh(a) == Bh(b) ==> Bh(Mk(d, a, x, red, b)) == Bh(a) + if red then 0 else 1
  {
  }

  /// A valid tree in a matching context gives a valid tree with a black root.
  lemma {:induction false} RbPlug(c: Ctx, t: Tree)
    requires Rb(t) && CRb(c, Bh(t)) && (IsRed(t) ==> c.In? && !c.red)
    ensures Rb(Plug(c, t)) && !IsRed(Plug(c, t))
    decreases c
  {
    match c
    case Top =>
    case In(up, d, x, red, sib) =>
      RbMk(d, t, x, red, sib);
      RbPlug(up, Mk(d, t, x, red, sib));
  }

  /// And the other way round: wherever a valid tree is taken apart, both parts obey the rules.
  lemma {:induction false} RbUnplug(c: Ctx, t: Tree)
    requires Rb(Plug(c, t)) && !IsRed(Plug(c, t))
    ensures Rb(t) && CRb(c, Bh(t)) && (IsRed(t) ==> c.In? && !c.red)
    decreases c
  {
    match c
    case Top =>
    case In(up, d, x, red, sib) =>
      RbUnplug(up, Mk(d, t, x, red, sib));
      RbMk(d, t, x, red, sib);
  }

  /// Rule 4 bounds the height by twice the black height, rule 5 bounds the size from below.
  lemma {:induction false} BlackHeightBounds(t: Tree)
    requires Rb(t)
    ensures Height(t) <= 2 * Bh(t) + if IsRed(t) then 1 else 0
    ensures Pow2(Bh(t)) <= |Inorder(t)| + 1
  {
    match t
    case E =>
    case N(l, _, _, r) =>
      BlackHeightBounds(l);
      BlackHeightBounds(r);
  }

  ghost function Square(n: nat): nat { n * n }

  lemma SquareMono(p: nat, n: nat)
    requires p <= n
    ensures Square(p) <= Square(n)
  {
    assert p * p <= p * n;
    assert p * n <= n * n;
  }

  lemma DoubleSquare(p: nat)
    ensures Square(2 * p) == 4 * Square(p)
  {
  }

  lemma {:induction false} Pow2Double(b: nat)
    ensures Pow2(2 * b) == Square(Pow2(b))
  {
    if b == 0 {
      assert Pow2(b) == 1;
    } else {
      Pow2Double(b - 1);
      assert Pow2(2 * b) == 2 * Pow2(2 * b - 1);
      assert Pow2(2 * b - 1) == 2 * Pow2(2 * (b - 1));
      DoubleSquare(Pow2(b - 1));
    }
  }

  /// Height at most 2*log2(n+1): two to the height is at most (n+1) squared.
  lemma HeightBound(t: Tree)
    requires Rb(t) && !IsRed(t)
    ensures Pow2(Height(t)) <= Square(|Inorder(t)| + 1)
  {
    BlackHeightBounds(t);
    SquareMono(Pow2(Bh(t)), |Inorder(t)| + 1);
    Pow2Double(Bh(t));
    Pow2Mono(Height(t), 2 * Bh(t));
  }
}
