/// list_sort: the pending lists, how the bits of the counter fix their sizes,
/// and the sort as a whole.
module ListSort {
  import opened Basics
  import opened ListMerge

  // ---------------------------------------------------------------- the sizes of the pending lists

  /// The number of pending lists of size 2^k, where h is the counter without
  /// its k low bits and b is bit k-1 (true for k = 0).
  ghost function Num(h: nat, b: bool): nat {
    if h % 2 == 1 then (if b then 1 else 0) else if h == 0 then 0 else if b then 2 else 1
  }

  ghost function Copies(n: nat, w: nat): seq<nat> { if n == 0 then [] else [w] + Copies(n - 1, w) }

  /// The sizes of the pending lists, smallest first, from size w = 2^k up.
  ghost function Sizes(h: nat, b: bool, w: nat): seq<nat>
    decreases h
  {
    if h == 0 then [] else Copies(Num(h, b), w) + Sizes(h / 2, h % 2 == 1, 2 * w)
  }

  /// What one round merges: the lists behind one list for every trailing 1 bit.
  ghost function Merged(h: nat, l: seq<nat>): seq<nat>
    decreases h
  {
    if h % 2 == 1 then (if l == [] then [] else [l[0]] + Merged(h / 2, l[1..]))
    else if h == 0 || |l| < 2 then l else [l[0] + l[1]] + l[2..]
  }

  lemma TwoCopies(w: nat)
    ensures Copies(0, w) == [] && Copies(1, w) == [w] && Copies(2, w) == [w, w]
  {
    assert Copies(2, w) == [w] + Copies(1, w);
  }

  /// A new list of size w is what distinguishes the two states of bit k-1.
  lemma OneMore(h: nat, w: nat)
    requires h > 0
    ensures [w] + Sizes(h, false, w) == Sizes(h, true, w)
  {
    TwoCopies(w);
    assert Copies(Num(h, true), w) == [w] + Copies(Num(h, false), w);
  }

  /// A round that starts with counter h ends, one level at a time, in the state of counter h + 1.
  lemma {:induction false} RoundSizes(h: nat, w: nat)
    ensures Merged(h, Sizes(h, true, w)) == Sizes(h + 1, false, w)
    decreases h
  {
    TwoCopies(w);
    if h % 2 == 1 {
      var rest := Sizes(h / 2, true, 2 * w);
      assert Sizes(h, true, w) == [w] + rest;
      assert Sizes(h, true, w)[1..] == rest;
      RoundSizes(h / 2, 2 * w);
      assert (h + 1) / 2 == h / 2 + 1 && Num(h + 1, false) == 1;
    } else if h > 0 {
      var rest := Sizes(h / 2, false, 2 * w);
      assert Sizes(h, true, w) == [w, w] + rest;
      assert Merged(h, Sizes(h, true, w)) == [2 * w] + rest;
      OneMore(h / 2, 2 * w);
      assert (h + 1) / 2 == h / 2 && Num(h + 1, false) == 0;
    } else {
      assert Sizes(1, false, w) == Copies(0, w) + Sizes(0, true, 2 * w);
    }
  }

  /// After each round the bits of the counter determine the pending sizes again.
  lemma NextSizes(count: nat)
    ensures [1] + Merged(count, Sizes(count, true, 1)) == Sizes(count + 1, true, 1)
  {
    RoundSizes(count, 1);
    OneMore(count + 1, 1);
  }

  /// In a round only lists of equal size are merged, and there are two when they are needed.
  ghost predicate Ready(h: nat, l: seq<nat>)
    decreases h
  {
    if h % 2 == 1 then l != [] && Ready(h / 2, l[1..])
    else h == 0 || (|l| >= 2 && l[0] == l[1])
  }

  lemma {:induction false} RoundReady(h: nat, w: nat)
    ensures Ready(h, Sizes(h, true, w))
    decreases h
  {
    TwoCopies(w);
    if h % 2 == 1 {
      var rest := Sizes(h / 2, true, 2 * w);
      assert Sizes(h, true, w) == [w] + rest;
      assert Sizes(h, true, w)[1..] == rest;
      RoundReady(h / 2, 2 * w);
    } else if h > 0 {
      assert Sizes(h, true, w) == [w, w] + Sizes(h / 2, false, 2 * w);
    }
  }

  // ---------------------------------------------------------------- the final merges

  /// Every final merge takes an accumulated list of at least half and less than
  /// twice the size of the pending list.
  ghost predicate Balanced(a: nat, l: seq<nat>)
    decreases |l|
  {
    l == [] || (l[0] <= 2 * a && a < 2 * l[0] && Balanced(a + l[0], l[1..]))
  }

  /// From size w = 2^k up, when a elements of the smaller lists have been
  /// accumulated: between w/2 and w if bit k-1 is set, between w and 3w/2 if not.
  lemma {:induction false} FinalBalanced(h: nat, b: bool, w: nat, a: nat)
    requires w > 0 && if b then w <= 2 * a && a < w else w <= a && 2 * a < 3 * w
    ensures Balanced(a, Sizes(h, b, w))
    decreases h
  {
    if h > 0 {
      TwoCopies(w);
      var rest := Sizes(h / 2, h % 2 == 1, 2 * w);
      var l, n := Sizes(h, b, w), Num(h, b);
      assert l == Copies(n, w) + rest;
      FinalBalanced(h / 2, h % 2 == 1, 2 * w, if n == 0 then a else if n == 1 then a + w else a + 2 * w);
      if n == 0 {
        assert l == rest;
      } else if n == 1 {
        assert l == [w] + rest && l[1..] == rest;
      } else {
        assert l == [w, w] + rest && l[1..] == [w] + rest && l[1..][1..] == rest;
      }
    }
  }

  /// For every input of at least two elements all final merges are at worst 2:1.
  lemma SortBalanced(n: nat)
    requires n >= 2
    ensures var l := Sizes(n, true, 1); |l| >= 2 && l[0] == 1 && Balanced(1, l[1..])
  {
    TwoCopies(1);
    var l, rest := Sizes(n, true, 1), Sizes(n / 2, n % 2 == 1, 2);
    if n % 2 == 1 {
      assert l == [1] + rest && l[1..] == rest;
      FinalBalanced(n / 2, true, 2, 1);
      TwoCopies(2);
      assert Num(n / 2, true) >= 1;
    } else {
      assert l == [1, 1] + rest && l[1..] == [1] + rest && l[1..][1..] == rest;
      FinalBalanced(n / 2, false, 2, 2);
    }
  }

  // ---------------------------------------------------------------- the pending lists

  /// A sorted sublist: the stable sort of the input range [lo, hi).
  datatype Run = Run(s: seq<ListHead>, lo: int, hi: int)

  /// The pending lists, newest first.
  datatype Runs = Nil | Cons(run: Run, rest: Runs)

  ghost predicate RunOk(cmp: Cmp, pos: Pos, inp: seq<ListHead>, r: Run) {
    0 <= r.lo < r.hi <= |inp| && |r.s| == r.hi - r.lo && Within(pos, r.s, r.lo, r.hi) && Stable(cmp, pos, r.s) &&
    multiset(r.s) == multiset(inp[r.lo..r.hi])
  }

  /// The runs are sorts of adjacent input ranges that together make up [0, hi).
  ghost predicate RunsOk(cmp: Cmp, pos: Pos, inp: seq<ListHead>, l: Runs, hi: int) {
    match l
    case Nil => hi == 0
    case Cons(r, rest) => r.hi == hi && RunOk(cmp, pos, inp, r) && RunsOk(cmp, pos, inp, rest, r.lo)
  }

  ghost function SizesOf(l: Runs): seq<nat> {
    match l
    case Nil => []
    case Cons(r, rest) => [|r.s|] + SizesOf(rest)
  }

  /// A prev-linked list of null-terminated lists.
  ghost predicate Pending(m: Mem, p: ListHead?, l: Runs) {
    match l
    case Nil => p == null
    case Cons(r, rest) => r.s != [] && p == r.s[0] && p in m && Chain(m, p, r.s) && Pending(m, m[p].prev, rest)
  }

  /// Nodes before position hi have not changed.
  ghost predicate Kept(m: Mem, m': Mem, pos: Pos, hi: int) {
    forall x | x in m && x in pos && pos[x] < hi :: x in m' && m'[x] == m[x]
  }

  lemma KeptChain(m: Mem, m': Mem, pos: Pos, p: ListHead?, s: seq<ListHead>, lo: int, hi: int)
    requires Kept(m, m', pos, hi) && Chain(m, p, s) && Within(pos, s, lo, hi)
    ensures Chain(m', p, s)
  {
    forall i | 0 <= i < |s|
      ensures s[i] in m' && m'[s[i]].next == After(s, i)
    {
      assert s[i] in s;
    }
  }

  lemma KeptLess(m: Mem, m': Mem, pos: Pos, hi: int, lo: int)
    requires Kept(m, m', pos, hi) && lo <= hi
    ensures Kept(m, m', pos, lo)
  {
  }

  lemma {:induction false} PendingFrame(m: Mem, m': Mem, cmp: Cmp, pos: Pos, inp: seq<ListHead>, p: ListHead?, l: Runs, hi: int)
    requires Pending(m, p, l) && RunsOk(cmp, pos, inp, l, hi) && Kept(m, m', pos, hi)
    ensures Pending(m', p, l)
    decreases l
  {
    hide Kept, Chain, Stable, Within;
    match l
    case Nil =>
    case Cons(r, rest) =>
      KeptChain(m, m', pos, p, r.s, r.lo, r.hi);
      KeptLess(m, m', pos, hi, r.lo);
      KeptHead(m, m', pos, r.s, r.lo, r.hi);
      PendingFrame(m, m', cmp, pos, inp, m[p].prev, rest, r.lo);
  }

  lemma KeptHead(m: Mem, m': Mem, pos: Pos, s: seq<ListHead>, lo: int, hi: int)
    requires Kept(m, m', pos, hi) && Within(pos, s, lo, hi) && s != [] && s[0] in m
    ensures s[0] in m' && m'[s[0]] == m[s[0]]
  {
  }

  // ---------------------------------------------------------------- one round

  /// The runs after a round: those selected by the highest bit that flips are merged, the older one first.
  ghost function RoundRuns(cmp: Cmp, h: nat, l: Runs): Runs
    decreases h
  {
    if h % 2 == 1 then (if l.Nil? then Nil else Cons(l.run, RoundRuns(cmp, h / 2, l.rest)))
    else if h == 0 || l.Nil? || l.rest.Nil? then l
    else Cons(Run(MergeSeq(cmp, l.rest.run.s, l.run.s), l.rest.run.lo, l.run.hi), l.rest.rest)
  }

  lemma {:induction false} RoundRunsSizes(cmp: Cmp, h: nat, l: Runs)
    ensures SizesOf(RoundRuns(cmp, h, l)) == Merged(h, SizesOf(l))
    decreases h
  {
    if l.Cons? {
      assert SizesOf(l)[1..] == SizesOf(l.rest);
      if h % 2 == 1 {
        RoundRunsSizes(cmp, h / 2, l.rest);
      } else if h > 0 && l.rest.Cons? {
        MergeElements(cmp, l.rest.run.s, l.run.s);
        assert SizesOf(l.rest)[1..] == SizesOf(l.rest.rest);
        assert SizesOf(l)[2..] == SizesOf(l.rest.rest);
      }
    }
  }

  lemma MergeRange(a: multiset<ListHead>, inp: seq<ListHead>, lo: int, mid: int, hi: int)
    requires 0 <= lo <= mid <= hi <= |inp| && a == multiset(inp[lo..mid]) + multiset(inp[mid..hi])
    ensures a == multiset(inp[lo..hi])
  {
    assert inp[lo..hi] == inp[lo..mid] + inp[mid..hi];
  }

  lemma MergeWithin(cmp: Cmp, pos: Pos, s: seq<ListHead>, t: seq<ListHead>, lo: int, mid: int, hi: int)
    requires Within(pos, s, lo, mid) && Within(pos, t, mid, hi) && lo <= mid <= hi
    ensures Within(pos, MergeSeq(cmp, s, t), lo, hi)
  {
    MergeElements(cmp, s, t);
    forall x | x in MergeSeq(cmp, s, t)
      ensures x in pos && lo <= pos[x] < hi
    {
      assert x in multiset(MergeSeq(cmp, s, t));
      assert x in s || x in t;
    }
  }

  lemma RunNodes(cmp: Cmp, pos: Pos, inp: seq<ListHead>, r: Run)
    requires RunOk(cmp, pos, inp, r)
    ensures forall x | x in r.s :: x in inp
  {
    forall x | x in r.s
      ensures x in inp
    {
      assert x in multiset(r.s);
      assert x in inp[r.lo..r.hi];
    }
  }

  ghost function Elems(s: seq<ListHead>): set<ListHead> { set x | x in s }

  /// Two adjacent runs merge into one.
  lemma MergeRuns(cmp: Cmp, pos: Pos, inp: seq<ListHead>, older: Run, newer: Run)
    requires RunOk(cmp, pos, inp, older) && RunOk(cmp, pos, inp, newer) && older.hi == newer.lo
    requires Preorder(cmp, Elems(inp))
    ensures RunOk(cmp, pos, inp, Run(MergeSeq(cmp, older.s, newer.s), older.lo, newer.hi)) && NoDup(MergeSeq(cmp, older.s, newer.s))
    ensures Earlier(pos, older.s, newer.s)
  {
    var S, all := Elems(inp), MergeSeq(cmp, older.s, newer.s);
    RunNodes(cmp, pos, inp, older);
    RunNodes(cmp, pos, inp, newer);
    MergeElements(cmp, older.s, newer.s);
    MergeStable(cmp, pos, older.s, newer.s, older.lo, older.hi, newer.hi, S);
    MergeWithin(cmp, pos, older.s, newer.s, older.lo, older.hi, newer.hi);
    MergeRange(multiset(all), inp, older.lo, older.hi, newer.hi);
    RunNodes(cmp, pos, inp, Run(all, older.lo, newer.hi));
    StableNoDup(cmp, pos, all, S);
  }

  lemma {:induction false} RoundRunsOk(cmp: Cmp, pos: Pos, inp: seq<ListHead>, h: nat, l: Runs, hi: int)
    requires RunsOk(cmp, pos, inp, l, hi) && Preorder(cmp, Elems(inp))
    ensures RunsOk(cmp, pos, inp, RoundRuns(cmp, h, l), hi)
    decreases h
  {
    hide Preorder, RunOk;
    if l.Cons? {
      if h % 2 == 1 {
        RoundRunsOk(cmp, pos, inp, h / 2, l.rest, l.run.lo);
      } else if h > 0 && l.rest.Cons? {
        MergeRuns(cmp, pos, inp, l.rest.run, l.run);
      }
    }
  }

  /// The two runs that a round merges are the first two of this.
  ghost function Focus(h: nat, l: Runs): Runs
    decreases h
  {
    if h % 2 == 1 && l.Cons? then Focus(h / 2, l.rest) else l
  }

  /// The counter without its trailing ones.
  ghost function High(h: nat): nat
    decreases h
  {
    if h % 2 == 1 then High(h / 2) else h
  }

  /// The node whose prev field points to the first of the two, or null for the variable pending.
  ghost function TailNode(h: nat, l: Runs): ListHead?
    decreases h
  {
    if h % 2 == 0 || l.Nil? || l.run.s == [] then null
    else if (h / 2) % 2 == 1 then TailNode(h / 2, l.rest) else l.run.s[0]
  }

  /// In a round that merges there are two runs to merge.
  lemma {:induction false} FocusOk(cmp: Cmp, pos: Pos, inp: seq<ListHead>, h: nat, l: Runs, hi: int)
    requires RunsOk(cmp, pos, inp, l, hi) && Ready(h, SizesOf(l)) && High(h) > 0
    ensures var f := Focus(h, l); f.Cons? && f.rest.Cons? && f.run.hi <= hi && RunsOk(cmp, pos, inp, f, f.run.hi)
    ensures h % 2 == 1 ==> l.Cons? && Ready(h / 2, SizesOf(l.rest)) && High(h / 2) > 0 && Focus(h, l) == Focus(h / 2, l.rest)
    decreases h
  {
    hide RunOk;
    if h % 2 == 1 {
      assert SizesOf(l)[1..] == SizesOf(l.rest);
      FocusOk(cmp, pos, inp, h / 2, l.rest, l.run.lo);
      RunBounds(cmp, pos, inp, l.run);
    }
  }

  lemma RunBounds(cmp: Cmp, pos: Pos, inp: seq<ListHead>, r: Run)
    requires RunOk(cmp, pos, inp, r)
    ensures r.lo < r.hi && Within(pos, r.s, r.lo, r.hi) && r.s != []
  {
  }

  lemma {:induction false} TailWithin(cmp: Cmp, pos: Pos, inp: seq<ListHead>, h: nat, l: Runs, hi: int)
    requires RunsOk(cmp, pos, inp, l, hi) && TailNode(h, l) != null
    ensures TailNode(h, l) in pos && pos[TailNode(h, l)] < hi
    decreases h
  {
    hide RunOk;
    RunBounds(cmp, pos, inp, l.run);
    assert l.run.s[0] in l.run.s;
    if (h / 2) % 2 == 1 {
      TailWithin(cmp, pos, inp, h / 2, l.rest, l.run.lo);
    }
  }

  /// Nodes before position hi have not changed, but for the merged ones and the tail link.
  ghost predicate RoundKept(m: Mem, m': Mem, pos: Pos, hi: int, merged: seq<ListHead>, tail: ListHead?, first: ListHead) {
    m'.Keys == m.Keys && (forall x | x in m && x in pos && pos[x] < hi && x !in merged && x != tail :: m'[x] == m[x]) &&
    (tail != null ==> tail in m && m'[tail] == m[tail].(prev := first))
  }

  /// The memory that the merge of a round leaves.
  ghost predicate RoundDone(m: Mem, m': Mem, cmp: Cmp, pos: Pos, h: nat, l: Runs, hi: int, merged: seq<ListHead>) {
    var f := Focus(h, l);
    f.Cons? && f.rest.Cons? && merged == MergeSeq(cmp, f.rest.run.s, f.run.s) && merged != [] && f.rest.run.s != [] &&
    Chain(m', merged[0], merged) && merged[0] in m' && f.rest.run.s[0] in m &&
    m'[merged[0]].prev == m[f.rest.run.s[0]].prev && Within(pos, merged, f.rest.run.lo, f.run.hi) &&
    RoundKept(m, m', pos, hi, merged, TailNode(h, l), merged[0])
  }

  /// A skipped run keeps its next links; its prev link changes if it is the last one skipped.
  lemma SkippedRun(m: Mem, m': Mem, pos: Pos, p: ListHead, s: seq<ListHead>, lo: int, hi: int, merged: seq<ListHead>, tail: ListHead?, first: ListHead)
    requires Chain(m, p, s) && Within(pos, s, lo, hi) && s != [] && p == s[0]
    requires RoundKept(m, m', pos, hi, merged, tail, first) && forall x | x in merged :: x in pos && pos[x] < lo
    ensures Chain(m', p, s) && p in m && p in m' && m'[p].prev == if tail == p then first else m[p].prev
  {
    forall i | 0 <= i < |s|
      ensures s[i] in m' && m'[s[i]].next == After(s, i)
    {
      assert s[i] in s && s[i] in m;
    }
    assert s[0] in s && p in m;
  }

  lemma {:induction false} PendingRound(m: Mem, m': Mem, cmp: Cmp, pos: Pos, inp: seq<ListHead>, p: ListHead?, l: Runs, h: nat, hi: int, merged: seq<ListHead>)
    requires Pending(m, p, l) && RunsOk(cmp, pos, inp, l, hi) && Ready(h, SizesOf(l)) && High(h) > 0
    requires RoundDone(m, m', cmp, pos, h, l, hi, merged)
    ensures Pending(m', if h % 2 == 1 then p else merged[0], RoundRuns(cmp, h, l))
    decreases h
  {
    hide RunOk, Chain, RoundKept, Within;
    FocusOk(cmp, pos, inp, h, l, hi);
    var f := Focus(h, l);
    if h % 2 == 1 {
      var r, t := l.run, TailNode(h, l);
      RunBounds(cmp, pos, inp, r);
      FocusOk(cmp, pos, inp, h / 2, l.rest, r.lo);
      MergedBelow(pos, merged, f.rest.run.lo, f.run.hi, r.lo);
      SkippedRun(m, m', pos, p, r.s, r.lo, r.hi, merged, t, merged[0]);
      TailBelow(m, m', cmp, pos, inp, h, l, hi, merged);
      PendingRound(m, m', cmp, pos, inp, m[p].prev, l.rest, h / 2, r.lo, merged);
    } else {
      RunBounds(cmp, pos, inp, l.run);
      RunBounds(cmp, pos, inp, l.rest.run);
      KeptBelow(m, m', pos, hi, merged, l.rest.run.lo, l.run.hi);
      PendingFrame(m, m', cmp, pos, inp, m[l.rest.run.s[0]].prev, l.rest.rest, l.rest.run.lo);
    }
  }

  lemma MergedBelow(pos: Pos, merged: seq<ListHead>, lo: int, hi: int, bound: int)
    requires Within(pos, merged, lo, hi) && hi <= bound
    ensures forall x | x in merged :: x in pos && pos[x] < bound
  {
  }

  lemma KeptBelow(m: Mem, m': Mem, pos: Pos, hi: int, merged: seq<ListHead>, lo: int, top: int)
    requires merged != [] && RoundKept(m, m', pos, hi, merged, null, merged[0]) && Within(pos, merged, lo, top) && lo <= hi
    ensures Kept(m, m', pos, lo)
  {
  }

  /// For the runs behind the first one the same has been done.
  lemma TailBelow(m: Mem, m': Mem, cmp: Cmp, pos: Pos, inp: seq<ListHead>, h: nat, l: Runs, hi: int, merged: seq<ListHead>)
    requires h % 2 == 1 && l.Cons? && RunsOk(cmp, pos, inp, l, hi) && merged != [] && l.run.s != []
    requires RoundKept(m, m', pos, hi, merged, TailNode(h, l), merged[0])
    ensures RoundKept(m, m', pos, l.run.lo, merged, TailNode(h / 2, l.rest), merged[0])
    ensures TailNode(h, l) == l.run.s[0] <==> (h / 2) % 2 == 0
  {
    RunBounds(cmp, pos, inp, l.run);
    assert l.run.s[0] in l.run.s;
    if (h / 2) % 2 == 1 && TailNode(h / 2, l.rest) != null {
      TailWithin(cmp, pos, inp, h / 2, l.rest, l.run.lo);
    }
  }

  // ---------------------------------------------------------------- list_sort

  /// The search for the least significant clear bit of count, along the pending lists.
  method FindTail(pending: ListHead?, count: nat, ghost cmp: Cmp, ghost pos: Pos, ghost inp: seq<ListHead>, ghost l: Runs, ghost hi: int, ghost S: set<ListHead>)
    returns (bits: nat, tail: ListHead?, a: ListHead?)
    requires Pending(Snap(S), pending, l) && RunsOk(cmp, pos, inp, l, hi) && Ready(count, SizesOf(l))
    ensures bits == High(count) && tail == TailNode(count, l) && Pending(Snap(S), a, Focus(count, l))
    ensures count % 2 == 0 ==> a == pending
    ensures (tail != null <==> count % 2 == 1) && (tail != null ==> tail in S)
  {
    bits, tail, a := count, null, pending;
    ghost var cur, h := l, hi;
    while bits % 2 == 1
      invariant Pending(Snap(S), a, cur) && RunsOk(cmp, pos, inp, cur, h) && Ready(bits, SizesOf(cur))
      invariant High(bits) == High(count) && Focus(bits, cur) == Focus(count, l)
      invariant TailNode(count, l) == if bits % 2 == 1 then TailNode(bits, cur) else tail
      invariant (tail != null ==> tail in S) && (count % 2 == 0 ==> bits == count && a == pending && tail == null)
      invariant count % 2 == 1 ==> bits == count || tail != null
      decreases bits
    {
      assert SizesOf(cur)[1..] == SizesOf(cur.rest);
      tail := a;
      a, bits, cur, h := a.prev, bits / 2, cur.rest, cur.run.lo;
    }
  }

  lemma FocusNow(cmp: Cmp, pos: Pos, inp: seq<ListHead>, m: Mem, a: ListHead?, f: Runs, hi: int)
    requires Pending(m, a, f) && RunsOk(cmp, pos, inp, f, hi) && f.Cons? && f.rest.Cons? && Preorder(cmp, Elems(inp))
    ensures var b := f.rest.run.s;
            f.run.s != [] && b != [] && a == f.run.s[0] && a in m && b[0] in m && m[a].prev == b[0] &&
            Chain(m, a, f.run.s) && Chain(m, b[0], b) && NoDup(MergeSeq(cmp, b, f.run.s)) && MergeSeq(cmp, b, f.run.s) != [] &&
            Within(pos, MergeSeq(cmp, b, f.run.s), f.rest.run.lo, f.run.hi) && Earlier(pos, b, f.run.s)
  {
    MergeRuns(cmp, pos, inp, f.rest.run, f.run);
    RunBounds(cmp, pos, inp, f.run);
    RunBounds(cmp, pos, inp, f.rest.run);
    MergeElements(cmp, f.rest.run.s, f.run.s);
    RunBounds(cmp, pos, inp, Run(MergeSeq(cmp, f.rest.run.s, f.run.s), f.rest.run.lo, f.run.hi));
  }

  /// `a->prev = b->prev; *tail = a;`, where tail is a field of t unless that is null.
  ghost predicate Installed(m1: Mem, m': Mem, a: ListHead, b: ListHead, t: ListHead?) {
    m'.Keys == m1.Keys && {a, b} <= m1.Keys && m'[a] == m1[a].(prev := m1[b].prev) &&
    (t != null ==> t in m1 && m'[t] == m1[t].(prev := a)) && forall x | x in m1 && x != a && x != t :: m'[x] == m1[x]
  }

  lemma InstalledChain(m1: Mem, m': Mem, a: ListHead, b: ListHead, t: ListHead?, merged: seq<ListHead>)
    requires Chain(m1, a, merged) && Installed(m1, m', a, b, t)
    ensures Chain(m', a, merged)
  {
  }

  lemma InstalledKept(m: Mem, m1: Mem, m': Mem, pos: Pos, hi: int, a: ListHead, b: ListHead, t: ListHead?, merged: seq<ListHead>)
    requires NextOnly(m, m1, merged) && Installed(m1, m', a, b, t) && a in merged && (t != null ==> t !in merged)
    ensures RoundKept(m, m', pos, hi, merged, t, a)
  {
  }

  lemma InstalledDone(m: Mem, m1: Mem, m': Mem, cmp: Cmp, pos: Pos, h: nat, l: Runs, hi: int, merged: seq<ListHead>, a: ListHead)
    requires var f := Focus(h, l);
             f.Cons? && f.rest.Cons? && merged == MergeSeq(cmp, f.rest.run.s, f.run.s) && f.rest.run.s != [] && f.rest.run.s[0] in m &&
             Within(pos, merged, f.rest.run.lo, f.run.hi) && Installed(m1, m', a, f.rest.run.s[0], TailNode(h, l))
    requires Chain(m1, a, merged) && NextOnly(m, m1, merged) && (TailNode(h, l) != null ==> TailNode(h, l) !in merged)
    ensures RoundDone(m, m', cmp, pos, h, l, hi, merged)
  {
    var f, t := Focus(h, l), TailNode(h, l);
    hide Focus, TailNode, MergeSeq, Within;
    InstalledChain(m1, m', a, f.rest.run.s[0], t, merged);
    assert a in merged;
    InstalledKept(m, m1, m', pos, hi, a, f.rest.run.s[0], t, merged);
  }

  /// The tail link belongs to a newer run than those that are merged.
  lemma {:induction false} TailAbove(cmp: Cmp, pos: Pos, inp: seq<ListHead>, h: nat, l: Runs, hi: int)
    requires RunsOk(cmp, pos, inp, l, hi) && Ready(h, SizesOf(l)) && High(h) > 0 && TailNode(h, l) != null
    ensures Focus(h, l).Cons? && TailNode(h, l) in pos && pos[TailNode(h, l)] >= Focus(h, l).run.hi
    decreases h
  {
    hide RunOk;
    FocusOk(cmp, pos, inp, h, l, hi);
    RunBounds(cmp, pos, inp, l.run);
    assert l.run.s[0] in l.run.s;
    FocusOk(cmp, pos, inp, h / 2, l.rest, l.run.lo);
    if (h / 2) % 2 == 1 && TailNode(h / 2, l.rest) != null {
      TailAbove(cmp, pos, inp, h / 2, l.rest, l.run.lo);
    }
  }

  lemma TailApart(cmp: Cmp, pos: Pos, inp: seq<ListHead>, h: nat, l: Runs, hi: int, merged: seq<ListHead>, lo: int)
    requires RunsOk(cmp, pos, inp, l, hi) && Ready(h, SizesOf(l)) && High(h) > 0 && Focus(h, l).Cons?
    requires Within(pos, merged, lo, Focus(h, l).run.hi)
    ensures TailNode(h, l) != null ==> TailNode(h, l) !in merged
  {
    if TailNode(h, l) != null {
      TailAbove(cmp, pos, inp, h, l, hi);
    }
  }

  /// `a->prev = b->prev; *tail = a;`
  method Install(pending: ListHead?, tail: ListHead?, a: ListHead, b: ListHead, ghost S: set<ListHead>) returns (pending': ListHead?)
    requires {a, b} <= S && tail != a && (tail != null ==> tail in S)
    modifies S`prev
    ensures Installed(old(Snap(S)), Snap(S), a, b, tail) && pending' == if tail == null then a else pending
  {
    a.prev := b.prev;
    pending' := pending;
    if tail == null {
      pending' := a;
    } else {
      tail.prev := a;
    }
  }

  /// A round touches only nodes that have been taken from the input.
  ghost predicate OnlyOld(m: Mem, m': Mem, pos: Pos, bound: int) {
    m'.Keys == m.Keys && forall x | x in m && (x !in pos || pos[x] >= bound) :: m'[x] == m[x]
  }

  lemma RoundOld(m: Mem, m1: Mem, m': Mem, pos: Pos, bound: int, merged: seq<ListHead>, lo: int, hi: int, a: ListHead, b: ListHead, t: ListHead?)
    requires NextOnly(m, m1, merged) && Installed(m1, m', a, b, t) && a in merged && Within(pos, merged, lo, hi) && hi <= bound
    requires t != null ==> t in pos && pos[t] < bound
    ensures OnlyOld(m, m', pos, bound)
  {
  }

  /// Two pending lists have been found: they are merged.
  method MergePair(cmp: Cmp, pending: ListHead?, tail: ListHead?, a0: ListHead, count: nat, ghost pos: Pos, ghost inp: seq<ListHead>, ghost l: Runs, ghost S: set<ListHead>)
    returns (pending': ListHead?)
    requires Pending(Snap(S), pending, l) && RunsOk(cmp, pos, inp, l, count) && Ready(count, SizesOf(l)) && High(count) > 0
    requires Preorder(cmp, Elems(inp)) && tail == TailNode(count, l) && Pending(Snap(S), a0, Focus(count, l))
    requires (tail != null <==> count % 2 == 1) && (tail != null ==> tail in S)
    modifies S
    ensures Pending(Snap(S), pending', RoundRuns(cmp, count, l)) && OnlyOld(old(Snap(S)), Snap(S), pos, count)
  {
    hide Earlier, Pending, RunsOk, Ready, High, Preorder, Focus, TailNode, Chain, NoDup, Within, MergeSeq, NextOnly, Installed, RoundDone, RoundRuns, SizesOf, OnlyOld;
    ghost var m, f := Snap(S), Focus(count, l);
    FocusOk(cmp, pos, inp, count, l, count);
    FocusNow(cmp, pos, inp, m, a0, f, f.run.hi);
    ghost var merged := MergeSeq(cmp, f.rest.run.s, f.run.s);
    TailApart(cmp, pos, inp, count, l, count, merged, f.rest.run.lo);
    var b := a0.prev;
    var a := Merge(cmp, b, a0, f.rest.run.s, f.run.s, pos, S);
    ghost var m1 := Snap(S);
    FirstIn(m1, a, merged);
    pending' := Install(pending, tail, a, b, S);
    InstalledDone(m, m1, Snap(S), cmp, pos, count, l, count, merged, a);
    PendingRound(m, Snap(S), cmp, pos, inp, pending, l, count, count, merged);
    if tail != null {
      TailWithin(cmp, pos, inp, count, l, count);
      PendingFirst(m, pending, l, count);
    }
    RoundOld(m, m1, Snap(S), pos, count, merged, f.rest.run.lo, f.run.hi, a, b, tail);
  }

  lemma FirstIn(m: Mem, p: ListHead, s: seq<ListHead>)
    requires Chain(m, p, s)
    ensures s != [] && p == s[0] && p in s && p in m
  {
  }

  lemma PendingFirst(m: Mem, p: ListHead?, l: Runs, h: nat)
    requires Pending(m, p, l)
    ensures l.Cons? ==> l.run.s != [] && p == l.run.s[0]
  {
  }

  /// The merge of a round.
  method Round(cmp: Cmp, pending: ListHead?, count: nat, ghost pos: Pos, ghost inp: seq<ListHead>, ghost l: Runs, ghost S: set<ListHead>)
    returns (pending': ListHead?)
    requires Pending(Snap(S), pending, l) && RunsOk(cmp, pos, inp, l, count) && SizesOf(l) == Sizes(count, true, 1)
    requires Preorder(cmp, Elems(inp))
    modifies S
    ensures Pending(Snap(S), pending', RoundRuns(cmp, count, l)) && OnlyOld(old(Snap(S)), Snap(S), pos, count)
  {
    hide Pending, RunsOk, Ready, Preorder, Focus, TailNode, RoundRuns, SizesOf, Sizes;
    RoundReady(count, 1);
    var bits, tail, a := FindTail(pending, count, cmp, pos, inp, l, count, S);
    if bits != 0 {
      FocusOk(cmp, pos, inp, count, l, count);
      FocusNow(cmp, pos, inp, Snap(S), a, Focus(count, l), Focus(count, l).run.hi);
      pending' := MergePair(cmp, pending, tail, a, count, pos, inp, l, S);
    } else {
      NothingToMerge(cmp, count, l);
      pending' := pending;
    }
  }

  /// When all bits of the counter are set nothing is merged.
  lemma {:induction false} NothingToMerge(cmp: Cmp, h: nat, l: Runs)
    requires High(h) == 0 && Ready(h, SizesOf(l))
    ensures RoundRuns(cmp, h, l) == l
    decreases h
  {
    if h % 2 == 1 {
      assert SizesOf(l)[1..] == SizesOf(l.rest);
      NothingToMerge(cmp, h / 2, l.rest);
    }
  }

  /// The index of every node in the input.
  ghost function PosOf(s: seq<ListHead>): Pos {
    if s == [] then map[] else PosOf(s[..|s| - 1])[s[|s| - 1] := |s| - 1]
  }

  lemma {:induction false} PosOfOk(s: seq<ListHead>)
    requires NoDup(s)
    ensures forall i | 0 <= i < |s| :: s[i] in PosOf(s) && PosOf(s)[s[i]] == i
    ensures forall x | x in PosOf(s) :: x in s
  {
    if s != [] {
      PosOfOk(s[..|s| - 1]);
    }
  }

  /// Nodes from position lo on, and those that are not in the input, have not changed.
  lemma OldChain(m: Mem, m': Mem, pos: Pos, bound: int, p: ListHead?, s: seq<ListHead>)
    requires OnlyOld(m, m', pos, bound) && Chain(m, p, s) && forall i | 0 <= i < |s| :: s[i] in pos && pos[s[i]] >= bound
    ensures Chain(m', p, s)
  {
  }

  lemma SuffixPos(inp: seq<ListHead>, pos: Pos, count: nat)
    requires count <= |inp| && forall i | 0 <= i < |inp| :: inp[i] in pos && pos[inp[i]] == i
    ensures forall i | 0 <= i < |inp[count..]| :: inp[count..][i] in pos && pos[inp[count..][i]] == count + i
  {
  }

  /// `list->prev = pending; pending = list; list = list->next; pending->next = NULL;`
  lemma AddOne(m: Mem, m': Mem, cmp: Cmp, pos: Pos, inp: seq<ListHead>, pending: ListHead?, x: ListHead, l: Runs, count: nat)
    requires count <= |inp| && forall i | 0 <= i < |inp| :: inp[i] in pos && pos[inp[i]] == i
    requires Pending(m, pending, l) && RunsOk(cmp, pos, inp, l, count) && Chain(m, x, inp[count..])
    requires m'.Keys == m.Keys && x in m && m'[x] == Links(null, pending) && forall y | y in m && y != x :: m'[y] == m[y]
    ensures count < |inp| && x == inp[count]
    ensures Pending(m', x, Cons(Run([x], count, count + 1), l)) && RunsOk(cmp, pos, inp, Cons(Run([x], count, count + 1), l), count + 1)
    ensures Chain(m', m[x].next, inp[count + 1..])
    ensures SizesOf(Cons(Run([x], count, count + 1), l)) == [1] + SizesOf(l)
  {
    SuffixPos(inp, pos, count);
    ChainTail(m, x, inp[count..]);
    assert inp[count..][1..] == inp[count + 1..];
    assert inp[count..count + 1] == [x];
    SuffixPos(inp, pos, count + 1);
    assert Kept(m, m', pos, count);
    PendingFrame(m, m', cmp, pos, inp, pending, l, count);
    assert Chain(m', m[x].next, inp[count + 1..]) by {
      var r := inp[count + 1..];
      forall i | 0 <= i < |r|
        ensures r[i] != x
      {
        assert r[i] == inp[count + 1 + i];
      }
    }
  }

  /// The memory in which list_sort's main loop starts: the ring has been cut open.
  lemma CutOpen(m: Mem, m': Mem, head: ListHead, inp: seq<ListHead>)
    requires Circular(m, head, inp) && NoDup(inp) && inp != [] && m'.Keys == m.Keys
    requires m[head].prev in m && m'[m[head].prev] == m[m[head].prev].(next := null)
    requires forall y | y in m && y != m[head].prev :: m'[y] == m[y]
    ensures Chain(m', m[head].next, inp)
  {
    forall i | 0 <= i < |inp|
      ensures inp[i] in m' && m'[inp[i]].next == After(inp, i)
    {
    }
  }

  lemma OneOrNone(m: Mem, head: ListHead, inp: seq<ListHead>)
    requires Circular(m, head, inp) && NoDup(inp)
    ensures m[head].next == m[head].prev <==> |inp| <= 1
    ensures |inp| > 1 ==> m[head].next != null && m[head].prev != null && m[head].prev in m && m[head].next == inp[0]
  {
  }

  /// The main loop: the input goes into pending lists whose sizes the bits of the counter determine.
  method Pend(cmp: Cmp, list0: ListHead, ghost pos: Pos, ghost inp: seq<ListHead>, ghost S: set<ListHead>) returns (pending: ListHead?, ghost l: Runs)
    requires Chain(Snap(S), list0, inp) && Preorder(cmp, Elems(inp))
    requires forall i | 0 <= i < |inp| :: inp[i] in pos && pos[inp[i]] == i
    modifies S
    ensures Pending(Snap(S), pending, l) && RunsOk(cmp, pos, inp, l, |inp|) && SizesOf(l) == Sizes(|inp|, true, 1)
    ensures forall x | x in S && x !in pos :: Snap(S)[x] == old(Snap(S))[x]
  {
    hide Pending, RunsOk, SizesOf, Sizes, Chain, Preorder, RoundRuns, Merged;
    var list: ListHead? := list0;
    var count := 0;
    pending, l := null, Nil;
    ghost var m0 := Snap(S);
    StartPending(m0, cmp, pos, inp);
    assert inp[0..] == inp;
    while list != null
      invariant count <= |inp| && Chain(Snap(S), list, inp[count..])
      invariant Pending(Snap(S), pending, l) && RunsOk(cmp, pos, inp, l, count)
      invariant SizesOf(l) == Sizes(count, true, 1)
      invariant forall x | x in S && x !in pos :: Snap(S)[x] == m0[x]
      decreases |inp| - count
    {
      ghost var m := Snap(S);
      pending := Round(cmp, pending, count, pos, inp, l, S);
      RoundRunsSizes(cmp, count, l);
      RoundRunsOk(cmp, pos, inp, count, l, count);
      SuffixPos(inp, pos, count);
      OldChain(m, Snap(S), pos, count, list, inp[count..]);
      ChainTail(Snap(S), list, inp[count..]);
      l := RoundRuns(cmp, count, l);
      ghost var m1 := Snap(S);
      var x: ListHead := list;
      x.prev := pending;
      list := x.next;
      x.next := null;
      AddOne(m1, Snap(S), cmp, pos, inp, pending, x, l, count);
      NextSizes(count);
      pending := x;
      l := Cons(Run([x], count, count + 1), l);
      count := count + 1;
    }
    AllTaken(Snap(S), inp, count);
  }

  lemma StartPending(m: Mem, cmp: Cmp, pos: Pos, inp: seq<ListHead>)
    ensures Pending(m, null, Nil) && RunsOk(cmp, pos, inp, Nil, 0) && SizesOf(Nil) == Sizes(0, true, 1)
  {
  }

  lemma AllTaken(m: Mem, inp: seq<ListHead>, count: nat)
    requires count <= |inp| && Chain(m, null, inp[count..])
    ensures count == |inp|
  {
  }

  // ---------------------------------------------------------------- the final merges

  /// The accumulated list and the pending lists behind it.
  ghost predicate Collecting(m: Mem, cmp: Cmp, pos: Pos, inp: seq<ListHead>, list: ListHead, acc: Run, pending: ListHead?, l: Runs) {
    acc.hi == |inp| && RunOk(cmp, pos, inp, acc) && Chain(m, list, acc.s) && Pending(m, pending, l) && RunsOk(cmp, pos, inp, l, acc.lo)
  }

  lemma CollectStart(m: Mem, cmp: Cmp, pos: Pos, inp: seq<ListHead>, p: ListHead?, l: Runs)
    requires Pending(m, p, l) && RunsOk(cmp, pos, inp, l, |inp|) && SizesOf(l) == Sizes(|inp|, true, 1) && |inp| >= 2
    ensures l.Cons? && l.rest.Cons? && p != null && p in m && m[p].prev != null
    ensures Collecting(m, cmp, pos, inp, p, l.run, m[p].prev, l.rest)
    ensures Balanced(|l.run.s|, SizesOf(l.rest))
  {
    SortBalanced(|inp|);
    assert SizesOf(l)[1..] == SizesOf(l.rest);
    PendingNull(m, m[p].prev, l.rest);
  }

  lemma PendingNull(m: Mem, p: ListHead?, l: Runs)
    requires Pending(m, p, l)
    ensures p == null <==> l.Nil?
  {
  }

  lemma CollectNow(m: Mem, cmp: Cmp, pos: Pos, inp: seq<ListHead>, list: ListHead, acc: Run, pending: ListHead, l: Runs)
    requires Collecting(m, cmp, pos, inp, list, acc, pending, l) && Preorder(cmp, Elems(inp))
    ensures l.Cons? && pending in m && Chain(m, pending, l.run.s) && Chain(m, list, acc.s) && l.run.hi == acc.lo && Earlier(pos, l.run.s, acc.s)
    ensures NoDup(MergeSeq(cmp, l.run.s, acc.s)) && RunOk(cmp, pos, inp, Run(MergeSeq(cmp, l.run.s, acc.s), l.run.lo, acc.hi))
    ensures (m[pending].prev == null <==> l.rest.Nil?) && (l.rest.Nil? ==> l.run.lo == 0)
    ensures SizesOf(l) == [|l.run.s|] + SizesOf(l.rest) && |MergeSeq(cmp, l.run.s, acc.s)| == |l.run.s| + |acc.s|
  {
    MergeRuns(cmp, pos, inp, l.run, acc);
    MergeElements(cmp, l.run.s, acc.s);
    PendingNull(m, m[pending].prev, l.rest);
    Oldest(cmp, pos, inp, l.rest, l.run.lo);
    hide RunOk, NoDup, MergeSeq, Chain, Preorder;
  }

  lemma Oldest(cmp: Cmp, pos: Pos, inp: seq<ListHead>, l: Runs, hi: int)
    requires RunsOk(cmp, pos, inp, l, hi)
    ensures l.Nil? ==> hi == 0
  {
  }

  lemma CollectNext(m: Mem, m': Mem, cmp: Cmp, pos: Pos, inp: seq<ListHead>, list: ListHead, acc: Run, pending: ListHead, l: Runs, list': ListHead)
    requires Collecting(m, cmp, pos, inp, list, acc, pending, l) && l.Cons? && pending in m
    requires var all := MergeSeq(cmp, l.run.s, acc.s);
             RunOk(cmp, pos, inp, Run(all, l.run.lo, acc.hi)) && Chain(m', list', all) && NextOnly(m, m', all)
    ensures Collecting(m', cmp, pos, inp, list', Run(MergeSeq(cmp, l.run.s, acc.s), l.run.lo, acc.hi), m[pending].prev, l.rest)
  {
    var all := MergeSeq(cmp, l.run.s, acc.s);
    RunBounds(cmp, pos, inp, Run(all, l.run.lo, acc.hi));
    NewerOnly(m, m', pos, all, l.run.lo, acc.hi);
    PendingFrame(m, m', cmp, pos, inp, m[pending].prev, l.rest, l.run.lo);
  }

  lemma NewerOnly(m: Mem, m': Mem, pos: Pos, s: seq<ListHead>, lo: int, hi: int)
    requires NextOnly(m, m', s) && Within(pos, s, lo, hi)
    ensures Kept(m, m', pos, lo)
  {
  }

  /// One merge of the final phase: the pending list is at most twice as long as
  /// the accumulated one, which is less than twice as long as it.
  method FinalMerge(cmp: Cmp, pending: ListHead, list: ListHead, ghost older: seq<ListHead>, ghost newer: seq<ListHead>, ghost pos: Pos, ghost S: set<ListHead>) returns (r: ListHead)
    requires Earlier(pos, older, newer) && |older| <= 2 * |newer| && |newer| < 2 * |older|
    requires Chain(Snap(S), pending, older) && Chain(Snap(S), list, newer) && NoDup(MergeSeq(cmp, older, newer))
    modifies S`next
    ensures Chain(Snap(S), r, MergeSeq(cmp, older, newer)) && NextOnly(old(Snap(S)), Snap(S), MergeSeq(cmp, older, newer))
  {
    r := Merge(cmp, pending, list, older, newer, pos, S);
  }

  /// All pending lists but the oldest are merged, from smallest to largest.
  method Collect(cmp: Cmp, list0: ListHead, pending0: ListHead, ghost acc0: Run, ghost l0: Runs, ghost pos: Pos, ghost inp: seq<ListHead>, ghost S: set<ListHead>)
    returns (list: ListHead, pending: ListHead, ghost acc: Run, ghost l: Runs)
    requires Collecting(Snap(S), cmp, pos, inp, list0, acc0, pending0, l0) && Balanced(|acc0.s|, SizesOf(l0)) && Preorder(cmp, Elems(inp))
    modifies S`next
    ensures Collecting(Snap(S), cmp, pos, inp, list, acc, pending, l) && l.Cons? && l.rest.Nil? && Balanced(|acc.s|, SizesOf(l))
    ensures forall x | x in S && x !in pos :: Snap(S)[x] == old(Snap(S))[x]
  {
    hide Collecting, Preorder, Chain, NoDup, MergeSeq, RunOk, SizesOf, NextOnly, Earlier;
    list, pending, acc, l := list0, pending0, acc0, l0;
    ghost var m0 := Snap(S);
    while true
      invariant Collecting(Snap(S), cmp, pos, inp, list, acc, pending, l) && Balanced(|acc.s|, SizesOf(l))
      invariant forall x | x in S && x !in pos :: Snap(S)[x] == m0[x]
      decreases l
    {
      ghost var m := Snap(S);
      CollectNow(m, cmp, pos, inp, list, acc, pending, l);
      var next := pending.prev;
      if next == null {
        return;
      }
      assert SizesOf(l)[1..] == SizesOf(l.rest);
      ghost var all := MergeSeq(cmp, l.run.s, acc.s);
      var list' := FinalMerge(cmp, pending, list, l.run.s, acc.s, pos, S);
      CollectNext(m, Snap(S), cmp, pos, inp, list, acc, pending, l, list');
      OutsideKept(m, Snap(S), cmp, pos, inp, Run(all, l.run.lo, acc.hi));
      list, pending, acc, l := list', next, Run(all, l.run.lo, acc.hi), l.rest;
    }
  }

  lemma OutsideKept(m: Mem, m': Mem, cmp: Cmp, pos: Pos, inp: seq<ListHead>, r: Run)
    requires RunOk(cmp, pos, inp, r) && NextOnly(m, m', r.s)
    ensures forall x | x in m && x !in pos :: m'[x] == m[x]
  {
  }

  /// Sorted, and nodes that cmp does not tell apart keep their order.
  ghost predicate SortedStably(cmp: Cmp, inp: seq<ListHead>, out: seq<ListHead>) {
    multiset(out) == multiset(inp) && Stable(cmp, PosOf(inp), out)
  }

  lemma InFront(head: ListHead, s: seq<ListHead>)
    requires NoDup(s) && head !in s
    ensures NoDup([head] + s)
  {
  }

  lemma WholeRun(cmp: Cmp, inp: seq<ListHead>, r: Run)
    requires RunOk(cmp, PosOf(inp), inp, r) && r.lo == 0 && r.hi == |inp|
    ensures SortedStably(cmp, inp, r.s)
  {
    assert inp[0..|inp|] == inp;
  }

  /// What is left for merge_final.
  lemma LastRun(m: Mem, cmp: Cmp, inp: seq<ListHead>, list: ListHead, acc: Run, pending: ListHead, l: Runs, head: ListHead)
    requires Collecting(m, cmp, PosOf(inp), inp, list, acc, pending, l) && Preorder(cmp, Elems(inp)) && l.Cons? && l.rest.Nil? && head !in inp
    ensures Chain(m, pending, l.run.s) && Chain(m, list, acc.s)
    ensures SortedStably(cmp, inp, MergeSeq(cmp, l.run.s, acc.s)) && NoDup([head] + MergeSeq(cmp, l.run.s, acc.s))
    ensures Earlier(PosOf(inp), l.run.s, acc.s)
  {
    hide Preorder, NoDup, MergeSeq, RunOk, SortedStably, Chain;
    var r := Run(MergeSeq(cmp, l.run.s, acc.s), l.run.lo, acc.hi);
    CollectNow(m, cmp, PosOf(inp), inp, list, acc, pending, l);
    RunNodes(cmp, PosOf(inp), inp, r);
    WholeRun(cmp, inp, r);
    InFront(head, r.s);
  }

  lemma ShortIsSorted(cmp: Cmp, inp: seq<ListHead>)
    requires |inp| <= 1
    ensures SortedStably(cmp, inp, inp)
  {
  }

  /// list_sort: the ring behind head is sorted stably.
  method ListSort(head: ListHead, cmp: Cmp, ghost inp: seq<ListHead>, ghost S: set<ListHead>) returns (ghost out: seq<ListHead>)
    requires Circular(Snap(S), head, inp) && NoDup(inp) && Preorder(cmp, Elems(inp))
    modifies S
    ensures Circular(Snap(S), head, out) && SortedStably(cmp, inp, out)
  {
    hide Earlier, Preorder, Chain, SortedStably, MergeSeq, Collecting, Pending, RunsOk, SizesOf, Sizes, Balanced;
    ghost var m := Snap(S);
    OneOrNone(m, head, inp);
    var list := head.next;
    if list == head.prev {
      ShortIsSorted(cmp, inp);
      return inp;
    }
    head.prev.next := null;
    CutOpen(m, Snap(S), head, inp);
    hide NoDup, Circular;
    PosOfOk(inp);
    ghost var pos := PosOf(inp);
    var pending;
    ghost var l;
    pending, l := Pend(cmp, list, pos, inp, S);
    CollectStart(Snap(S), cmp, pos, inp, pending, l);
    ghost var acc;
    list, pending, acc, l := Collect(cmp, pending, pending.prev, l.run, l.rest, pos, inp, S);
    LastRun(Snap(S), cmp, inp, list, acc, pending, l, head);
    MergeFinal(cmp, head, pending, list, l.run.s, acc.s, pos, S);
    out := MergeSeq(cmp, l.run.s, acc.s);
  }
}
