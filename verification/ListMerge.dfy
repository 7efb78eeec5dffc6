/// Stable merging of sequences, and the two merge loops over linked lists.
module ListMerge {
  import opened Basics

  /// `struct list_head`.
  class ListHead {
    var next: ListHead?
    var prev: ListHead?

    constructor ()
    {
    }
  }

  type Cmp = (ListHead, ListHead) -> int

  datatype Links = Links(next: ListHead?, prev: ListHead?)

  type Mem = map<ListHead, Links>

  ghost function Snap(S: set<ListHead>): (m: Mem)
    reads S
    ensures m.Keys == S
    ensures forall x | x in S :: m[x] == Links(x.next, x.prev)
  {
    map x | x in S :: Links(x.next, x.prev)
  }

  /// The positions of the nodes in the input.
  type Pos = map<ListHead, int>

  // ---------------------------------------------------------------- lists in memory

  /// What follows index i in a null-terminated list.
  ghost function After(s: seq<ListHead>, i: int): ListHead? {
    if 0 <= i < |s| - 1 then s[i + 1] else null
  }

  /// A singly linked, null-terminated list.
  ghost predicate Chain(m: Mem, p: ListHead?, s: seq<ListHead>) {
    p == (if s == [] then null else s[0]) &&
    forall i | 0 <= i < |s| :: s[i] in m && m[s[i]].next == After(s, i)
  }

  /// A circular doubly linked list with its head.
  ghost predicate Circular(m: Mem, head: ListHead, s: seq<ListHead>) {
    head in m && head !in s &&
    m[head].next == (if s == [] then head else s[0]) && m[head].prev == (if s == [] then head else s[|s| - 1]) &&
    forall i | 0 <= i < |s| :: s[i] in m &&
      m[s[i]].next == (if i + 1 < |s| then s[i + 1] else head) && m[s[i]].prev == if i > 0 then s[i - 1] else head
  }

  ghost predicate SameNext(m: Mem, m': Mem, s: seq<ListHead>) {
    forall x | x in s :: x in m && x in m' && m'[x].next == m[x].next
  }

  lemma ChainFrame(m: Mem, m': Mem, p: ListHead?, s: seq<ListHead>)
    requires Chain(m, p, s) && SameNext(m, m', s)
    ensures Chain(m', p, s)
  {
  }

  // ---------------------------------------------------------------- merging sequences

  /// On equality the first list gives its element.
  ghost function MergeSeq(cmp: Cmp, s: seq<ListHead>, t: seq<ListHead>): seq<ListHead>
    decreases |s| + |t|
  {
    if s == [] then t else if t == [] then s
    else if cmp(s[0], t[0]) <= 0 then [s[0]] + MergeSeq(cmp, s[1..], t)
    else [t[0]] + MergeSeq(cmp, s, t[1..])
  }

  lemma {:induction false} MergeElements(cmp: Cmp, s: seq<ListHead>, t: seq<ListHead>)
    ensures multiset(MergeSeq(cmp, s, t)) == multiset(s) + multiset(t)
    ensures |MergeSeq(cmp, s, t)| == |s| + |t|
    decreases |s| + |t|
  {
    if s != [] && t != [] {
      if cmp(s[0], t[0]) <= 0 {
        MergeElements(cmp, s[1..], t);
        assert s == [s[0]] + s[1..];
      } else {
        MergeElements(cmp, s, t[1..]);
        assert t == [t[0]] + t[1..];
      }
    }
  }

  /// The order that cmp asks for: cmp(a, b) <= 0 says that a may stay before b.
  ghost predicate Preorder(cmp: Cmp, S: set<ListHead>) {
    (forall a, b | a in S && b in S :: cmp(a, b) <= 0 || cmp(b, a) <= 0) &&
    (forall a, b, c | a in S && b in S && c in S && cmp(a, b) <= 0 && cmp(b, c) <= 0 :: cmp(a, c) <= 0)
  }

  /// x may stand before y in a stable sort: it is not greater, and if they are
  /// equal it came first in the input.
  ghost predicate Before(cmp: Cmp, pos: Pos, x: ListHead, y: ListHead) {
    x in pos && y in pos && cmp(x, y) <= 0 && (cmp(y, x) <= 0 ==> pos[x] < pos[y])
  }

  ghost predicate BeforeAll(cmp: Cmp, pos: Pos, x: ListHead, s: seq<ListHead>) {
    forall y | y in s :: Before(cmp, pos, x, y)
  }

  /// Sorted and stable.
  ghost predicate Stable(cmp: Cmp, pos: Pos, s: seq<ListHead>) {
    forall i, j | 0 <= i < j < |s| :: Before(cmp, pos, s[i], s[j])
  }

  /// The nodes of s come from the input range [lo, hi).
  ghost predicate Within(pos: Pos, s: seq<ListHead>, lo: int, hi: int) {
    forall x | x in s :: x in pos && lo <= pos[x] < hi
  }

  lemma StableCons(cmp: Cmp, pos: Pos, x: ListHead, s: seq<ListHead>)
    requires Stable(cmp, pos, s) && BeforeAll(cmp, pos, x, s)
    ensures Stable(cmp, pos, [x] + s)
  {
  }

  lemma StableTail(cmp: Cmp, pos: Pos, s: seq<ListHead>)
    requires s != [] && Stable(cmp, pos, s)
    ensures Stable(cmp, pos, s[1..]) && BeforeAll(cmp, pos, s[0], s[1..])
  {
  }

  /// s[0] is not greater than t[0], and older than all of t.
  lemma LeftFirst(cmp: Cmp, pos: Pos, s: seq<ListHead>, t: seq<ListHead>, lo: int, mid: int, hi: int, S: set<ListHead>)
    requires Preorder(cmp, S) && s != [] && t != [] && cmp(s[0], t[0]) <= 0
    requires Stable(cmp, pos, s) && Stable(cmp, pos, t) && Within(pos, s, lo, mid) && Within(pos, t, mid, hi)
    requires forall x | x in s + t :: x in S
    ensures BeforeAll(cmp, pos, s[0], s[1..]) && BeforeAll(cmp, pos, s[0], t)
  {
    StableTail(cmp, pos, s);
    StableTail(cmp, pos, t);
    assert s[0] in s + t && t[0] in s + t && t[0] in t;
    forall y | y in t
      ensures Before(cmp, pos, s[0], y)
    {
      assert y in s + t;
      assert y != t[0] ==> y in t[1..];
      assert cmp(t[0], y) <= 0;
    }
  }

  /// t[0] is less than s[0].
  lemma RightFirst(cmp: Cmp, pos: Pos, s: seq<ListHead>, t: seq<ListHead>, lo: int, mid: int, hi: int, S: set<ListHead>)
    requires Preorder(cmp, S) && s != [] && t != [] && cmp(s[0], t[0]) > 0
    requires Stable(cmp, pos, s) && Stable(cmp, pos, t) && Within(pos, s, lo, mid) && Within(pos, t, mid, hi)
    requires forall x | x in s + t :: x in S
    ensures BeforeAll(cmp, pos, t[0], t[1..]) && BeforeAll(cmp, pos, t[0], s)
  {
    StableTail(cmp, pos, s);
    StableTail(cmp, pos, t);
    assert s[0] in s + t && t[0] in s + t && t[0] in t;
    forall y | y in s
      ensures Before(cmp, pos, t[0], y)
    {
      assert y in s + t;
      assert y != s[0] ==> y in s[1..];
      assert cmp(s[0], y) <= 0;
      assert cmp(t[0], s[0]) <= 0;
    }
  }

  lemma BeforeMerge(cmp: Cmp, pos: Pos, x: ListHead, s: seq<ListHead>, t: seq<ListHead>)
    requires BeforeAll(cmp, pos, x, s) && BeforeAll(cmp, pos, x, t)
    ensures BeforeAll(cmp, pos, x, MergeSeq(cmp, s, t))
  {
    MergeElements(cmp, s, t);
    forall y | y in MergeSeq(cmp, s, t)
      ensures Before(cmp, pos, x, y)
    {
      assert y in multiset(MergeSeq(cmp, s, t));
      assert y in s || y in t;
    }
  }

  /// Merging two stable sorts of adjacent input ranges, the older one first,
  /// gives a stable sort of both.
  lemma {:induction false} MergeStable(cmp: Cmp, pos: Pos, s: seq<ListHead>, t: seq<ListHead>, lo: int, mid: int, hi: int, S: set<ListHead>)
    requires Preorder(cmp, S) && Stable(cmp, pos, s) && Stable(cmp, pos, t) && Within(pos, s, lo, mid) && Within(pos, t, mid, hi)
    requires forall x | x in s + t :: x in S
    ensures Stable(cmp, pos, MergeSeq(cmp, s, t))
    decreases |s| + |t|
  {
    if s != [] && t != [] {
      if cmp(s[0], t[0]) <= 0 {
        LeftFirst(cmp, pos, s, t, lo, mid, hi, S);
        StableTail(cmp, pos, s);
        MergeStable(cmp, pos, s[1..], t, lo, mid, hi, S);
        BeforeMerge(cmp, pos, s[0], s[1..], t);
        StableCons(cmp, pos, s[0], MergeSeq(cmp, s[1..], t));
      } else {
        RightFirst(cmp, pos, s, t, lo, mid, hi, S);
        StableTail(cmp, pos, t);
        MergeStable(cmp, pos, s, t[1..], lo, mid, hi, S);
        BeforeMerge(cmp, pos, t[0], s, t[1..]);
        StableCons(cmp, pos, t[0], MergeSeq(cmp, s, t[1..]));
      }
    }
  }

  lemma StableNoDup(cmp: Cmp, pos: Pos, s: seq<ListHead>, S: set<ListHead>)
    requires Preorder(cmp, S) && Stable(cmp, pos, s) && forall x | x in s :: x in S
    ensures NoDup(s)
  {
    forall i, j | 0 <= i < j < |s|
      ensures s[i] != s[j]
    {
      assert Before(cmp, pos, s[i], s[j]);
      assert s[i] in s;
    }
  }

  // ---------------------------------------------------------------- merge

  /// The loop of merge: out has been linked, and a and b hold what is left.
  ghost predicate Merging(cmp: Cmp, m: Mem, out: seq<ListHead>, a: ListHead?, ra: seq<ListHead>, b: ListHead?, rb: seq<ListHead>, all: seq<ListHead>) {
    ra != [] && rb != [] && Chain(m, a, ra) && Chain(m, b, rb) && NoDup(all) && all == out + MergeSeq(cmp, ra, rb) &&
    (forall i | 0 <= i < |out| :: out[i] in m) && (forall i | 0 <= i < |out| - 1 :: m[out[i]].next == out[i + 1])
  }

  /// Nodes not yet merged differ from those that are.
  lemma NotOut(cmp: Cmp, out: seq<ListHead>, ra: seq<ListHead>, rb: seq<ListHead>, all: seq<ListHead>, x: ListHead, i: nat)
    requires NoDup(all) && all == out + MergeSeq(cmp, ra, rb) && (x in ra || x in rb) && i < |out|
    ensures x != out[i]
  {
    MergeElements(cmp, ra, rb);
    assert x in multiset(MergeSeq(cmp, ra, rb));
    var j :| 0 <= j < |MergeSeq(cmp, ra, rb)| && MergeSeq(cmp, ra, rb)[j] == x;
    assert all[|out| + j] == x && all[i] == out[i];
  }

  /// `*tail = x`: x, which comes next, is linked behind out.
  lemma MergeLink(cmp: Cmp, m: Mem, m': Mem, out: seq<ListHead>, a: ListHead?, ra: seq<ListHead>, b: ListHead?, rb: seq<ListHead>, all: seq<ListHead>, x: ListHead)
    requires Merging(cmp, m, out, a, ra, b, rb, all) && Linked(m, m', out, x)
    ensures Chain(m', a, ra) && Chain(m', b, rb)
    ensures forall i | 0 <= i < |out| :: m'[out[i]].next == (out + [x])[i + 1]
  {
    if out != [] {
      var k := |out| - 1;
      forall y | y in ra || y in rb
        ensures y != out[k]
      {
        NotOut(cmp, out, ra, rb, all, y, k);
      }
      forall i | 0 <= i < k
        ensures out[i] != out[k]
      {
        assert all[i] == out[i] && all[k] == out[k];
      }
    }
    assert forall i | 0 <= i < |ra| :: ra[i] in m;
    assert forall i | 0 <= i < |rb| :: rb[i] in m;
    ChainFrame(m, m', a, ra);
    ChainFrame(m, m', b, rb);
  }

  lemma ChainTail(m: Mem, p: ListHead, s: seq<ListHead>)
    requires Chain(m, p, s)
    ensures s != [] && s[0] == p && p in m && Chain(m, m[p].next, s[1..]) && (m[p].next == null <==> |s| == 1)
  {
    assert m[s[0]].next == After(s, 0);
    forall i | 0 <= i < |s[1..]|
      ensures s[1..][i] in m && m[s[1..][i]].next == After(s[1..], i)
    {
      assert s[1..][i] == s[i + 1];
    }
  }

  /// Linking x extends what has been linked.
  lemma OutGrows(m: Mem, m': Mem, out: seq<ListHead>, x: ListHead)
    requires forall i | 0 <= i < |out| :: out[i] in m'
    requires x in m' && forall i | 0 <= i < |out| :: m'[out[i]].next == (out + [x])[i + 1]
    ensures var o := out + [x]; (forall i | 0 <= i < |o| :: o[i] in m') && (forall i | 0 <= i < |o| - 1 :: m'[o[i]].next == o[i + 1])
  {
  }

  lemma TakeLeft(cmp: Cmp, out: seq<ListHead>, ra: seq<ListHead>, rb: seq<ListHead>, all: seq<ListHead>)
    requires ra != [] && rb != [] && cmp(ra[0], rb[0]) <= 0 && all == out + MergeSeq(cmp, ra, rb)
    ensures all == (out + [ra[0]]) + MergeSeq(cmp, ra[1..], rb)
    ensures ra[1..] == [] ==> ra == [ra[0]] && all == out + [ra[0]] + rb
  {
    assert out + ([ra[0]] + MergeSeq(cmp, ra[1..], rb)) == (out + [ra[0]]) + MergeSeq(cmp, ra[1..], rb);
  }

  lemma TakeRight(cmp: Cmp, out: seq<ListHead>, ra: seq<ListHead>, rb: seq<ListHead>, all: seq<ListHead>)
    requires ra != [] && rb != [] && cmp(ra[0], rb[0]) > 0 && all == out + MergeSeq(cmp, ra, rb)
    ensures all == (out + [rb[0]]) + MergeSeq(cmp, ra, rb[1..])
    ensures rb[1..] == [] ==> rb == [rb[0]] && all == out + [rb[0]] + ra
  {
    assert out + ([rb[0]] + MergeSeq(cmp, ra, rb[1..])) == (out + [rb[0]]) + MergeSeq(cmp, ra, rb[1..]);
  }

  /// One more element has been taken from the first list, which has others left.
  lemma MergeTake(cmp: Cmp, m: Mem, m': Mem, out: seq<ListHead>, a: ListHead, ra: seq<ListHead>, b: ListHead, rb: seq<ListHead>, all: seq<ListHead>)
    requires Merging(cmp, m, out, a, ra, b, rb, all) && Linked(m, m', out, a) && cmp(a, b) <= 0
    ensures m'[a].next != null ==> |ra| > 1 && Merging(cmp, m', out + [a], m'[a].next, ra[1..], b, rb, all)
    ensures m'[a].next == null ==> ra == [a] && all == out + [a] + rb
    ensures NoDup(all) && all == out + MergeSeq(cmp, ra, rb) && a in ra && Chain(m', b, rb) && forall i | 0 <= i < |out| :: out[i] in m' && m'[out[i]].next == (out + [a])[i + 1]
  {
    MergeLink(cmp, m, m', out, a, ra, b, rb, all, a);
    ChainTail(m', a, ra);
    OutGrows(m, m', out, a);
    TakeLeft(cmp, out, ra, rb, all);
    hide NoDup, MergeSeq;
    assert ra[1..] == [] <==> |ra| == 1;
  }

  /// The same for the second list.
  lemma MergeTakeB(cmp: Cmp, m: Mem, m': Mem, out: seq<ListHead>, a: ListHead, ra: seq<ListHead>, b: ListHead, rb: seq<ListHead>, all: seq<ListHead>)
    requires Merging(cmp, m, out, a, ra, b, rb, all) && Linked(m, m', out, b) && cmp(a, b) > 0
    ensures m'[b].next != null ==> |rb| > 1 && Merging(cmp, m', out + [b], a, ra, m'[b].next, rb[1..], all)
    ensures m'[b].next == null ==> rb == [b] && all == out + [b] + ra
    ensures NoDup(all) && all == out + MergeSeq(cmp, ra, rb) && b in rb && Chain(m', a, ra) && forall i | 0 <= i < |out| :: out[i] in m' && m'[out[i]].next == (out + [b])[i + 1]
  {
    MergeLink(cmp, m, m', out, a, ra, b, rb, all, b);
    ChainTail(m', b, rb);
    OutGrows(m, m', out, b);
    TakeRight(cmp, out, ra, rb, all);
    hide NoDup, MergeSeq;
    assert rb[1..] == [] <==> |rb| == 1;
  }

  /// Only next pointers of the nodes of s may differ.
  ghost predicate NextOnly(m: Mem, m': Mem, s: seq<ListHead>) {
    m'.Keys == m.Keys && (forall x | x in m :: m'[x].prev == m[x].prev) && forall x | x in m && x !in s :: m'[x] == m[x]
  }

  /// The rest of the other list is linked behind the last node.
  lemma MergeDone(m: Mem, m': Mem, out: seq<ListHead>, b: ListHead, rb: seq<ListHead>)
    requires out != [] && rb != [] && Chain(m, b, rb) && NoDup(out + rb)
    requires (forall i | 0 <= i < |out| :: out[i] in m) && forall i | 0 <= i < |out| - 1 :: m[out[i]].next == out[i + 1]
    requires m'.Keys == m.Keys && m'[out[|out| - 1]].next == b
    requires forall y | y in m && y != out[|out| - 1] :: m'[y].next == m[y].next
    ensures Chain(m', out[0], out + rb)
  {
    var s, k := out + rb, |out| - 1;
    assert s[k] == out[k];
    forall i | 0 <= i < |s|
      ensures s[i] in m' && m'[s[i]].next == After(s, i)
    {
      if i < k {
        assert s[i] == out[i] != out[k];
      } else if i > k {
        assert s[i] == rb[i - k - 1] && s[i] != s[k];
      }
    }
  }

  ghost function Last(s: seq<ListHead>): ListHead? { if s == [] then null else s[|s| - 1] }

  ghost function Head(s: seq<ListHead>): ListHead? { if s == [] then null else s[0] }

  /// x has been stored into the next field of the last node of out, if there is one.
  ghost predicate Linked(m: Mem, m': Mem, out: seq<ListHead>, x: ListHead) {
    m'.Keys == m.Keys && (out != [] ==> out[|out| - 1] in m && m'[out[|out| - 1]] == m[out[|out| - 1]].(next := x)) &&
    forall y | y in m && (out == [] || y != out[|out| - 1]) :: m'[y] == m[y]
  }

  /// `*tail = x`, where tail is the next field of a node, or the variable head when it is null.
  method SetTail(tail: ListHead?, head: ListHead?, x: ListHead, ghost out: seq<ListHead>, ghost S: set<ListHead>) returns (head': ListHead)
    requires tail == Last(out) && head == Head(out) && (out != [] ==> out[|out| - 1] in S)
    modifies S`next
    ensures head' == Head(out + [x]) && Linked(old(Snap(S)), Snap(S), out, x)
  {
    if tail == null {
      return x;
    }
    tail.next := x;
    return head;
  }

  method SetNext(tail: ListHead, x: ListHead, ghost path: seq<ListHead>, ghost S: set<ListHead>)
    requires tail == Last(path) && tail in S
    modifies S`next
    ensures Linked(old(Snap(S)), Snap(S), path, x)
  {
    tail.next := x;
  }

  lemma LinkedOnly(m0: Mem, m: Mem, m': Mem, out: seq<ListHead>, x: ListHead, all: seq<ListHead>)
    requires NextOnly(m0, m, all) && Linked(m, m', out, x) && out <= all
    ensures NextOnly(m0, m', all)
  {
    assert out != [] ==> out[|out| - 1] in all;
  }

  lemma MergingNow(cmp: Cmp, m: Mem, out: seq<ListHead>, a: ListHead?, ra: seq<ListHead>, b: ListHead?, rb: seq<ListHead>, all: seq<ListHead>)
    requires Merging(cmp, m, out, a, ra, b, rb, all)
    ensures a != null && b != null && a in m && b in m && ra != [] && rb != [] && out <= all
    ensures out != [] ==> out[|out| - 1] in m
  {
    assert ra[0] in m && rb[0] in m;
  }

  /// The last element of one list has been linked: the other list follows.
  lemma MergeEnd(m: Mem, m1: Mem, m': Mem, out: seq<ListHead>, x: ListHead, y: ListHead, r: seq<ListHead>, all: seq<ListHead>)
    requires all == out + [x] + r && NoDup(all) && r != [] && Chain(m1, y, r) && x in m1
    requires forall i | 0 <= i < |out| :: out[i] in m1 && m1[out[i]].next == (out + [x])[i + 1]
    requires Linked(m1, m', out + [x], y)
    ensures Chain(m', (out + [x])[0], all) && out + [x] <= all
  {
    MergeDone(m1, m', out + [x], y, r);
  }

  /// a comes next; null is returned when its list is used up and the rest has been linked.
  method TakeA(cmp: Cmp, a: ListHead, b: ListHead, tail: ListHead?, first: ListHead?,
    ghost out: seq<ListHead>, ghost ra: seq<ListHead>, ghost rb: seq<ListHead>, ghost all: seq<ListHead>, ghost m0: Mem, ghost S: set<ListHead>)
    returns (next: ListHead?, first': ListHead)
    requires Merging(cmp, Snap(S), out, a, ra, b, rb, all) && NextOnly(m0, Snap(S), all) && cmp(a, b) <= 0
    requires tail == Last(out) && first == Head(out)
    modifies S`next
    ensures NextOnly(m0, Snap(S), all)
    ensures next == null ==> Chain(Snap(S), first', all)
    ensures next != null ==> |ra| > 1 && Merging(cmp, Snap(S), out + [a], next, ra[1..], b, rb, all) && first' == Head(out + [a])
  {
    hide NoDup, MergeSeq, Chain, NextOnly, Merging, Linked;
    ghost var m := Snap(S);
    MergingNow(cmp, m, out, a, ra, b, rb, all);
    first' := SetTail(tail, first, a, out, S);
    ghost var m1 := Snap(S);
    MergeTake(cmp, m, m1, out, a, ra, b, rb, all);
    LinkedOnly(m0, m, m1, out, a, all);
    next := a.next;
    assert m1[a].next == next;
    if next == null {
      first' := SetTail(a, first', b, out + [a], S);
      MergeEnd(m, m1, Snap(S), out, a, b, rb, all);
      LinkedOnly(m0, m1, Snap(S), out + [a], b, all);
    }
  }

  /// b comes next; null is returned when its list is used up and the rest has been linked.
  method TakeB(cmp: Cmp, a: ListHead, b: ListHead, tail: ListHead?, first: ListHead?,
    ghost out: seq<ListHead>, ghost ra: seq<ListHead>, ghost rb: seq<ListHead>, ghost all: seq<ListHead>, ghost m0: Mem, ghost S: set<ListHead>)
    returns (next: ListHead?, first': ListHead)
    requires Merging(cmp, Snap(S), out, a, ra, b, rb, all) && NextOnly(m0, Snap(S), all) && cmp(a, b) > 0
    requires tail == Last(out) && first == Head(out)
    modifies S`next
    ensures NextOnly(m0, Snap(S), all)
    ensures next == null ==> Chain(Snap(S), first', all)
    ensures next != null ==> |rb| > 1 && Merging(cmp, Snap(S), out + [b], a, ra, next, rb[1..], all) && first' == Head(out + [b])
  {
    hide NoDup, MergeSeq, Chain, NextOnly, Merging, Linked;
    ghost var m := Snap(S);
    MergingNow(cmp, m, out, a, ra, b, rb, all);
    first' := SetTail(tail, first, b, out, S);
    ghost var m1 := Snap(S);
    MergeTakeB(cmp, m, m1, out, a, ra, b, rb, all);
    LinkedOnly(m0, m, m1, out, b, all);
    next := b.next;
    assert m1[b].next == next;
    if next == null {
      first' := SetTail(b, first', a, out + [b], S);
      MergeEnd(m, m1, Snap(S), out, b, a, ra, all);
      LinkedOnly(m0, m1, Snap(S), out + [b], a, all);
    }
  }

  /// Every node of s came before every node of t in the input.
  ghost predicate Earlier(pos: Pos, s: seq<ListHead>, t: seq<ListHead>) {
    forall x, y | x in s && y in t :: x in pos && y in pos && pos[x] < pos[y]
  }

  /// The one way cmp is called: with the node that came first in the input as a.
  method Compare(cmp: Cmp, a: ListHead, b: ListHead, ghost pos: Pos) returns (r: int)
    requires Earlier(pos, [a], [b])
    ensures r == cmp(a, b)
  {
    r := cmp(a, b);
  }

  lemma EarlierTails(pos: Pos, s: seq<ListHead>, t: seq<ListHead>)
    requires Earlier(pos, s, t) && s != [] && t != []
    ensures Earlier(pos, [s[0]], [t[0]]) && Earlier(pos, s[1..], t) && Earlier(pos, s, t[1..])
  {
    assert forall x | x in s[1..] :: x in s;
    assert forall y | y in t[1..] :: y in t;
    assert s[0] in s && t[0] in t;
  }

  lemma FirstEarlier(cmp: Cmp, m: Mem, out: seq<ListHead>, a: ListHead, ra: seq<ListHead>, b: ListHead, rb: seq<ListHead>, all: seq<ListHead>, pos: Pos)
    requires Merging(cmp, m, out, a, ra, b, rb, all) && Earlier(pos, ra, rb)
    ensures Earlier(pos, [a], [b]) && ra != [] && rb != [] && Earlier(pos, ra[1..], rb) && Earlier(pos, ra, rb[1..])
  {
    hide Earlier, NoDup, MergeSeq;
    assert a == ra[0] && b == rb[0];
    EarlierTails(pos, ra, rb);
  }

  /// merge: the nodes of both lists, linked in the order of MergeSeq.
  method Merge(cmp: Cmp, a0: ListHead, b0: ListHead, ghost sa: seq<ListHead>, ghost sb: seq<ListHead>, ghost pos: Pos, ghost S: set<ListHead>) returns (head: ListHead)
    requires Earlier(pos, sa, sb)
    requires Chain(Snap(S), a0, sa) && Chain(Snap(S), b0, sb) && NoDup(MergeSeq(cmp, sa, sb))
    modifies S`next
    ensures Chain(Snap(S), head, MergeSeq(cmp, sa, sb)) && NextOnly(old(Snap(S)), Snap(S), MergeSeq(cmp, sa, sb))
  {
    var a: ListHead, b: ListHead := a0, b0;
    var tail: ListHead?, first: ListHead? := null, null;
    ghost var m0, all := Snap(S), MergeSeq(cmp, sa, sb);
    ghost var out: seq<ListHead>, ra, rb := [], sa, sb;
    assert all == [] + all;
    while true
      invariant Merging(cmp, Snap(S), out, a, ra, b, rb, all) && NextOnly(m0, Snap(S), all)
      invariant tail == Last(out) && first == Head(out) && Earlier(pos, ra, rb)
      decreases |ra| + |rb|
    {
      hide NoDup, MergeSeq, Chain, NextOnly, Merging, Linked, Earlier;
      FirstEarlier(cmp, Snap(S), out, a, ra, b, rb, all, pos);
      var next;
      var order := Compare(cmp, a, b, pos);
      if order <= 0 {
        next, first := TakeA(cmp, a, b, tail, first, out, ra, rb, all, m0, S);
        if next == null {
          return first;
        }
        out, ra, tail, a := out + [a], ra[1..], a, next;
      } else {
        next, first := TakeB(cmp, a, b, tail, first, out, ra, rb, all, m0, S);
        if next == null {
          return first;
        }
        out, rb, tail, b := out + [b], rb[1..], b, next;
      }
    }
  }

  // ---------------------------------------------------------------- merge_final

  /// The nodes of path are linked both ways.
  ghost predicate Strung(m: Mem, path: seq<ListHead>) {
    (forall i | 0 <= i < |path| :: path[i] in m) &&
    forall i | 0 <= i < |path| - 1 :: m[path[i]].next == path[i + 1] && m[path[i + 1]].prev == path[i]
  }

  /// Only the prev pointer of x may differ.
  ghost predicate PrevOnly(m: Mem, m': Mem, x: ListHead) {
    m'.Keys == m.Keys && (forall y | y in m :: m'[y].next == m[y].next) && forall y | y in m && y != x :: m'[y] == m[y]
  }

  lemma PrevOnlyChain(m: Mem, m': Mem, x: ListHead, p: ListHead?, s: seq<ListHead>)
    requires PrevOnly(m, m', x) && Chain(m, p, s)
    ensures Chain(m', p, s)
  {
  }

  lemma PrevOnlyMerging(cmp: Cmp, m: Mem, m': Mem, x: ListHead, out: seq<ListHead>, a: ListHead?, ra: seq<ListHead>, b: ListHead?, rb: seq<ListHead>, all: seq<ListHead>)
    requires PrevOnly(m, m', x) && Merging(cmp, m, out, a, ra, b, rb, all)
    ensures Merging(cmp, m', out, a, ra, b, rb, all)
  {
    PrevOnlyChain(m, m', x, a, ra);
    PrevOnlyChain(m, m', x, b, rb);
    hide Chain, NoDup, MergeSeq;
  }

  /// x, linked behind path in both directions.
  lemma StrungMore(cmp: Cmp, m: Mem, m1: Mem, m': Mem, path: seq<ListHead>, x: ListHead, ra: seq<ListHead>, rb: seq<ListHead>, all: seq<ListHead>)
    requires Strung(m, path) && path != [] && Linked(m, m1, path, x) && x in m && PrevOnly(m1, m', x) && m'[x].prev == path[|path| - 1]
    requires NoDup(all) && all == path + MergeSeq(cmp, ra, rb) && (x in ra || x in rb)
    ensures Strung(m', path + [x])
  {
    var k := |path| - 1;
    forall i | 0 <= i <= k
      ensures path[i] != x && (i < k ==> path[i] != path[k])
    {
      NotOut(cmp, path, ra, rb, all, x, i);
      assert all[i] == path[i] && all[k] == path[k];
    }
    var p := path + [x];
    forall i | 0 <= i < |p| - 1
      ensures m'[p[i]].next == p[i + 1] && m'[p[i + 1]].prev == p[i]
    {
      assert i < k ==> m[path[i]].next == path[i + 1] && m[path[i + 1]].prev == path[i];
    }
  }

  /// One turn of the loop of merge_final that takes a.
  method FinalA(cmp: Cmp, a: ListHead, b: ListHead, tail: ListHead,
    ghost path: seq<ListHead>, ghost ra: seq<ListHead>, ghost rb: seq<ListHead>, ghost all: seq<ListHead>, ghost S: set<ListHead>)
    returns (next: ListHead?)
    requires Merging(cmp, Snap(S), path, a, ra, b, rb, all) && Strung(Snap(S), path) && cmp(a, b) <= 0
    requires path != [] && tail == Last(path)
    modifies S
    ensures Strung(Snap(S), path + [a])
    ensures next == null ==> Chain(Snap(S), b, rb) && all == path + [a] + rb && NoDup(all)
    ensures next != null ==> |ra| > 1 && Merging(cmp, Snap(S), path + [a], next, ra[1..], b, rb, all)
  {
    hide NoDup, MergeSeq, Chain, Merging, Linked, Strung;
    ghost var m := Snap(S);
    MergingNow(cmp, m, path, a, ra, b, rb, all);
    SetNext(tail, a, path, S);
    ghost var m1 := Snap(S);
    MergeTake(cmp, m, m1, path, a, ra, b, rb, all);
    a.prev := tail;
    StrungMore(cmp, m, m1, Snap(S), path, a, ra, rb, all);
    next := a.next;
    assert m1[a].next == next;
    if next == null {
      PrevOnlyChain(m1, Snap(S), a, b, rb);
    } else {
      PrevOnlyMerging(cmp, m1, Snap(S), a, path + [a], next, ra[1..], b, rb, all);
    }
  }

  /// One turn of the loop of merge_final that takes b.
  method FinalB(cmp: Cmp, a: ListHead, b: ListHead, tail: ListHead,
    ghost path: seq<ListHead>, ghost ra: seq<ListHead>, ghost rb: seq<ListHead>, ghost all: seq<ListHead>, ghost S: set<ListHead>)
    returns (next: ListHead?)
    requires Merging(cmp, Snap(S), path, a, ra, b, rb, all) && Strung(Snap(S), path) && cmp(a, b) > 0
    requires path != [] && tail == Last(path)
    modifies S
    ensures Strung(Snap(S), path + [b])
    ensures next == null ==> Chain(Snap(S), a, ra) && all == path + [b] + ra && NoDup(all)
    ensures next != null ==> |rb| > 1 && Merging(cmp, Snap(S), path + [b], a, ra, next, rb[1..], all)
  {
    hide NoDup, MergeSeq, Chain, Merging, Linked, Strung;
    ghost var m := Snap(S);
    MergingNow(cmp, m, path, a, ra, b, rb, all);
    SetNext(tail, b, path, S);
    ghost var m1 := Snap(S);
    MergeTakeB(cmp, m, m1, path, a, ra, b, rb, all);
    b.prev := tail;
    StrungMore(cmp, m, m1, Snap(S), path, b, ra, rb, all);
    next := b.next;
    assert m1[b].next == next;
    if next == null {
      PrevOnlyChain(m1, Snap(S), b, a, ra);
    } else {
      PrevOnlyMerging(cmp, m1, Snap(S), b, path + [b], a, ra, next, rb[1..], all);
    }
  }

  /// The second loop of merge_final: the rest of the list gets its prev pointers.
  method LinkRest(b0: ListHead, tail0: ListHead, ghost path0: seq<ListHead>, ghost r0: seq<ListHead>, ghost all: seq<ListHead>, ghost S: set<ListHead>)
    returns (tail: ListHead)
    requires Strung(Snap(S), path0) && path0 != [] && tail0 == Last(path0) && Chain(Snap(S), b0, r0) && all == path0 + r0 && NoDup(all)
    modifies S
    ensures Strung(Snap(S), all) && tail == Last(all)
  {
    hide NoDup, Chain, Linked, Strung;
    ghost var m0 := Snap(S);
    ghost var path: seq<ListHead>, r: seq<ListHead> := path0, r0;
    tail := tail0;
    var b: ListHead? := b0;
    StrungNow(m0, path);
    SetNext(tail, b0, path, S);
    RestStart(m0, Snap(S), path, b0, r, all);
    while b != null
      invariant path != [] && tail == Last(path) && Chain(Snap(S), b, r) && all == path + r && NoDup(all)
      invariant Strung(Snap(S), path) && path[|path| - 1] in S && (b != null ==> tail.next == b)
      decreases |r|
    {
      ghost var m := Snap(S);
      ChainTail(m, b, r);
      b.prev := tail;
      RestStep(m, Snap(S), path, b, r, all);
      path, r := path + [b], r[1..];
      tail := b;
      b := b.next;
    }
    NoRest(Snap(S), r);
    assert path + [] == path;
  }

  lemma NoRest(m: Mem, r: seq<ListHead>)
    requires Chain(m, null, r)
    ensures r == []
  {
  }

  lemma StrungNow(m: Mem, path: seq<ListHead>)
    requires Strung(m, path) && path != []
    ensures path[|path| - 1] in m
  {
  }

  lemma RestStart(m: Mem, m': Mem, path: seq<ListHead>, b: ListHead, r: seq<ListHead>, all: seq<ListHead>)
    requires Strung(m, path) && path != [] && Chain(m, b, r) && all == path + r && NoDup(all) && Linked(m, m', path, b)
    ensures Strung(m', path) && Chain(m', b, r)
  {
    var k := |path| - 1;
    assert all[k] == path[k];
    forall i | 0 <= i < |r|
      ensures r[i] != path[k]
    {
      assert all[|path| + i] == r[i];
    }
    forall i | 0 <= i < k
      ensures path[i] != path[k]
    {
      assert all[i] == path[i];
    }
  }

  lemma RestStep(m: Mem, m': Mem, path: seq<ListHead>, b: ListHead, r: seq<ListHead>, all: seq<ListHead>)
    requires Strung(m, path) && path != [] && Chain(m, b, r) && all == path + r && NoDup(all)
    requires PrevOnly(m, m', b) && b in m && m'[b].prev == path[|path| - 1] && m[path[|path| - 1]].next == b
    ensures Strung(m', path + [b]) && Chain(m', m'[b].next, r[1..]) && all == (path + [b]) + r[1..]
    ensures m'[b].next != null ==> r != [] && b == r[0]
  {
    ChainTail(m, b, r);
    PrevOnlyChain(m, m', b, m[b].next, r[1..]);
    forall i | 0 <= i < |path|
      ensures path[i] != b
    {
      assert all[i] == path[i] && all[|path|] == b;
    }
    var p := path + [b];
    forall i | 0 <= i < |p| - 1
      ensures m'[p[i]].next == p[i + 1] && m'[p[i + 1]].prev == p[i]
    {
      assert i < |path| - 1 ==> m[path[i]].next == path[i + 1] && m[path[i + 1]].prev == path[i];
    }
  }

  /// The links of a strung list behind its head, one by one.
  lemma StrungAt(m: Mem, head: ListHead, s: seq<ListHead>, i: nat)
    requires Strung(m, [head] + s) && i < |s|
    ensures head in m && s[i] in m && m[s[i]].prev == (if i > 0 then s[i - 1] else head)
    ensures (i + 1 < |s| ==> m[s[i]].next == s[i + 1]) && m[head].next == s[0]
  {
    var p := [head] + s;
    assert p[0] == head && p[i + 1] == s[i] && p[i] == if i > 0 then s[i - 1] else head;
    assert p[0] in m && p[i + 1] in m;
    assert m[p[i]].next == p[i + 1] && m[p[i + 1]].prev == p[i];
    assert m[p[0]].next == p[1];
    if i + 1 < |s| {
      assert p[i + 2] == s[i + 1];
      assert m[p[i + 1]].next == p[i + 2];
    }
  }

  lemma Apart(head: ListHead, s: seq<ListHead>)
    requires NoDup([head] + s)
    ensures head !in s && NoDup(s)
  {
    var p := [head] + s;
    assert forall i | 0 <= i < |s| :: p[i + 1] == s[i] && p[0] == head;
  }

  /// The two stores that close the ring.
  lemma CloseRing(m: Mem, m': Mem, head: ListHead, s: seq<ListHead>)
    requires Strung(m, [head] + s) && s != [] && NoDup([head] + s) && m'.Keys == m.Keys && {head, s[|s| - 1]} <= m.Keys
    requires m'[s[|s| - 1]] == m[s[|s| - 1]].(next := head) && m'[head] == m[head].(prev := s[|s| - 1])
    requires forall y | y in m && y != head && y != s[|s| - 1] :: m'[y] == m[y]
    ensures Circular(m', head, s)
  {
    Apart(head, s);
    StrungAt(m, head, s, 0);
    forall i | 0 <= i < |s|
      ensures s[i] in m' && m'[s[i]].next == (if i + 1 < |s| then s[i + 1] else head) && m'[s[i]].prev == if i > 0 then s[i - 1] else head
    {
      hide Strung;
      StrungAt(m, head, s, i);
      assert s[i] in s;
    }
  }

  lemma FinalStart(cmp: Cmp, m: Mem, head: ListHead, a: ListHead, sa: seq<ListHead>, b: ListHead, sb: seq<ListHead>, all: seq<ListHead>)
    requires Chain(m, a, sa) && Chain(m, b, sb) && head in m && all == [head] + MergeSeq(cmp, sa, sb) && NoDup(all)
    ensures Merging(cmp, m, [head], a, sa, b, sb, all) && Strung(m, [head])
  {
  }

  /// The first loop of merge_final; what is left of the other list starts at rest.
  method FinalLoop(cmp: Cmp, head: ListHead, a0: ListHead, b0: ListHead, ghost sa: seq<ListHead>, ghost sb: seq<ListHead>, ghost all: seq<ListHead>, ghost pos: Pos, ghost S: set<ListHead>)
    returns (tail: ListHead, rest: ListHead, ghost path: seq<ListHead>, ghost r: seq<ListHead>)
    requires Chain(Snap(S), a0, sa) && Chain(Snap(S), b0, sb) && head in S && all == [head] + MergeSeq(cmp, sa, sb) && NoDup(all)
    requires Earlier(pos, sa, sb)
    modifies S
    ensures Strung(Snap(S), path) && path != [] && tail == Last(path) && Chain(Snap(S), rest, r) && all == path + r
  {
    hide NoDup, MergeSeq, Chain, Merging, Linked, Strung, Earlier;
    var a: ListHead, b: ListHead := a0, b0;
    tail := head;
    path := [head];
    ghost var ra, rb := sa, sb;
    FinalStart(cmp, Snap(S), head, a, sa, b, sb, all);
    while true
      invariant Merging(cmp, Snap(S), path, a, ra, b, rb, all) && Strung(Snap(S), path) && path != [] && tail == Last(path)
      invariant Earlier(pos, ra, rb)
      decreases |ra| + |rb|
    {
      FirstEarlier(cmp, Snap(S), path, a, ra, b, rb, all, pos);
      var next;
      var order := Compare(cmp, a, b, pos);
      if order <= 0 {
        next := FinalA(cmp, a, b, tail, path, ra, rb, all, S);
        path, tail := path + [a], a;
        if next == null {
          return tail, b, path, rb;
        }
        ra, a := ra[1..], next;
      } else {
        next := FinalB(cmp, a, b, tail, path, ra, rb, all, S);
        path, tail := path + [b], b;
        if next == null {
          return tail, a, path, ra;
        }
        rb, b := rb[1..], next;
      }
    }
  }

  /// merge_final: the merged list as a circular doubly linked list behind head.
  method MergeFinal(cmp: Cmp, head: ListHead, a: ListHead, b: ListHead, ghost sa: seq<ListHead>, ghost sb: seq<ListHead>, ghost pos: Pos, ghost S: set<ListHead>)
    requires Earlier(pos, sa, sb)
    requires Chain(Snap(S), a, sa) && Chain(Snap(S), b, sb) && head in S && NoDup([head] + MergeSeq(cmp, sa, sb))
    modifies S
    ensures Circular(Snap(S), head, MergeSeq(cmp, sa, sb))
  {
    hide NoDup, MergeSeq, Chain, Strung, Circular;
    var tail, rest;
    ghost var path, r;
    ghost var all := [head] + MergeSeq(cmp, sa, sb);
    NotNone(Snap(S), a, sa);
    tail, rest, path, r := FinalLoop(cmp, head, a, b, sa, sb, all, pos, S);
    tail := LinkRest(rest, tail, path, r, all, S);
    ghost var m := Snap(S);
    MergeElements(cmp, sa, sb);
    RingEnds(m, head, MergeSeq(cmp, sa, sb), tail);
    tail.next := head;
    head.prev := tail;
    CloseRing(m, Snap(S), head, MergeSeq(cmp, sa, sb));
  }

  lemma NotNone(m: Mem, p: ListHead, s: seq<ListHead>)
    requires Chain(m, p, s)
    ensures s != []
  {
  }

  lemma RingEnds(m: Mem, head: ListHead, s: seq<ListHead>, tail: ListHead)
    requires Strung(m, [head] + s) && NoDup([head] + s) && tail == Last([head] + s) && |s| >= 1
    ensures tail == s[|s| - 1] && tail in m && tail != head
  {
    var p := [head] + s;
    assert p[|s|] == tail && p[0] == head;
  }
}
