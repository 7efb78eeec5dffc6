/// The boundary-tag allocator on one block: allocation with splitting, and
/// freeing with coalescing. auto_extend is 0.
module MemoryPool {
  import opened Basics
  import opened PoolChunks

  /// What lies in the block and in its descriptor: the chunk headers, the footers
  /// (the pointer in the last bytes of a chunk), and the two list heads.
  datatype Store = Store(h: Headers, foot: map<int, int>, freeList: int, allocList: int)

  /// The chunks in the order of their addresses, and the two lists.
  datatype View = View(ts: seq<Tile>, fl: seq<int>, al: seq<int>)

  /// The store holds the view. The footer of the tile at skip may be missing, and
  /// the tile at out may be in neither list.
  ghost predicate Shape(m: Store, v: View, total: int, skip: int, out: int) {
    Cover(v.ts, 0, total) && v.ts != [] && Described(m.h, v.ts) && Footed(m.foot, v.ts, total, skip) &&
    Linked(m.h, m.freeList, v.fl) && NoDup(v.fl) && Linked(m.h, m.allocList, v.al) && NoDup(v.al) &&
    Lists(v.ts, v.fl, true, out) && Lists(v.ts, v.al, false, out)
  }

  // ---------------------------------------------------------------- the lists and the tiles

  lemma SameTile(ts: seq<Tile>, total: int, t: Tile, u: Tile)
    requires Cover(ts, 0, total) && t in ts && u in ts && t.start == u.start
    ensures t == u
  {
    if t != u {
      TilesDiffer(ts, 0, total, t, u);
      CoverBounds(ts, 0, total);
      assert false;
    }
  }

  lemma ListsApart(ts: seq<Tile>, total: int, fl: seq<int>, al: seq<int>, out: int, free: bool)
    requires Cover(ts, 0, total) && Lists(ts, fl, free, out) && Lists(ts, al, !free, out)
    ensures forall x | x in fl :: x !in al
  {
    forall x | x in fl
      ensures x !in al
    {
      var t :| t in ts && t.start == x && t.free == free;
      if x in al {
        var u :| u in ts && u.start == x && u.free == !free;
        SameTile(ts, total, t, u);
        assert false;
      }
    }
  }

  lemma DescribedSame(h: Headers, h': Headers, ts: seq<Tile>)
    requires Described(h, ts) && SameBody(h, h')
    ensures Described(h', ts)
  {
    forall t | t in ts
      ensures DescAt(h', t)
    {
      assert DescAt(h, t);
    }
  }

  /// One tile changes its header body.
  lemma DescribedChange(h: Headers, h': Headers, ts: seq<Tile>, a: seq<Tile>, t: Tile, b: seq<Tile>, u: Tile, total: int)
    requires Cover(ts, 0, total) && ts == a + [t] + b && Described(h, ts) && DescAt(h', u) && u.start == t.start
    requires forall x | x in h && x != t.start :: x in h' && h'[x].size == h[x].size && h'[x].free == h[x].free
    ensures Described(h', a + [u] + b)
  {
    CoverAround(a, t, b, 0, total);
    forall s | s in a + [u] + b
      ensures DescAt(h', s)
    {
      if s != u {
        assert s in a || s in b;
        assert s in ts && DescAt(h, s);
      }
    }
  }

  // ---------------------------------------------------------------- allocating a whole chunk

  lemma FootedChange(foot: map<int, int>, ts: seq<Tile>, total: int, skip: int, a: seq<Tile>, t: Tile, b: seq<Tile>, u: Tile)
    requires ts == a + [t] + b && Footed(foot, ts, total, skip) && u.start == t.start && u.size == t.size
    ensures Footed(foot, a + [u] + b, total, skip)
  {
    forall s | s in a + [u] + b && s.End() < total && s.start != skip
      ensures FootAt(foot, s)
    {
      assert s != u ==> s in ts;
      assert s == u ==> t in ts && FootAt(foot, t);
    }
  }

  lemma CoverChange(ts: seq<Tile>, total: int, a: seq<Tile>, t: Tile, b: seq<Tile>, u: Tile)
    requires Cover(ts, 0, total) && ts == a + [t] + b && u.start == t.start && u.size == t.size
    ensures Cover(a + [u] + b, 0, total)
  {
    CoverAround(a, t, b, 0, total);
    CoverOne(u);
    CoverWith(a, [u], b, 0, t.start, t.End(), total);
  }

  /// The tile t, which leaves its list at k, gets the other flag: it is in neither list.
  lemma ListsLeave(ts: seq<Tile>, total: int, a: seq<Tile>, t: Tile, b: seq<Tile>, l: seq<int>, k: int)
    requires Cover(ts, 0, total) && ts == a + [t] + b && Lists(ts, l, t.free, NULL) && NoDup(l) && 0 <= k < |l| && l[k] == t.start
    ensures var us := a + [t.(free := !t.free)] + b; Lists(us, Drop(l, k), t.free, t.start)
  {
    var u := t.(free := !t.free);
    var us, r := a + [u] + b, Drop(l, k);
    DropNoDup(l, k);
    CoverAround(a, t, b, 0, total);
    CoverBounds(ts, 0, total);
    forall s | s in us && s.free == t.free && s.start != t.start
      ensures s.start in r
    {
      assert s in ts;
    }
    forall x | x in r
      ensures x != t.start && Starts(us, x, t.free)
    {
      var s :| s in ts && s.start == x && s.free == t.free;
      assert s in us;
    }
  }

  lemma ListsOther(ts: seq<Tile>, total: int, a: seq<Tile>, t: Tile, b: seq<Tile>, l: seq<int>)
    requires Cover(ts, 0, total) && ts == a + [t] + b && Lists(ts, l, !t.free, NULL)
    ensures var us := a + [t.(free := !t.free)] + b; Lists(us, l, !t.free, t.start)
  {
    var u := t.(free := !t.free);
    var us := a + [u] + b;
    CoverAround(a, t, b, 0, total);
    CoverBounds(ts, 0, total);
    forall s | s in us && s.free == !t.free && s.start != t.start
      ensures s.start in l
    {
      assert s in ts;
    }
    forall x | x in l
      ensures x != t.start && Starts(us, x, !t.free)
    {
      var s :| s in ts && s.start == x && s.free == !t.free;
      assert s != t ==> s in us;
      if s.start == t.start {
        SameTile(ts, total, s, t);
        assert false;
      }
    }
  }

  /// A tile leaves its list, and its flag is flipped.
  lemma LeaveShape(m: Store, v: View, total: int, a: seq<Tile>, t: Tile, b: seq<Tile>, k: int)
    requires Shape(m, v, total, NULL, NULL) && v.ts == a + [t] + b
    requires var l := if t.free then v.fl else v.al; 0 <= k < |l| && l[k] == t.start
    ensures t.start in m.h
    ensures var (h1, head) := Delete(m.h, if t.free then m.freeList else m.allocList, t.start);
            var us := a + [t.(free := !t.free)] + b;
            t.start in h1 &&
            Shape(Store(h1[t.start := h1[t.start].(free := !t.free)], m.foot, if t.free then head else m.freeList, if t.free then m.allocList else head),
                  View(us, if t.free then Drop(v.fl, k) else v.fl, if t.free then v.al else Drop(v.al, k)), total, NULL, t.start)
  {
    hide Cover, NoDup;
    var u := t.(free := !t.free);
    var l, l' := if t.free then v.fl else v.al, if t.free then v.al else v.fl;
    var head0 := if t.free then m.freeList else m.allocList;
    DeleteLinked(m.h, head0, l, k);
    var (h1, head) := Delete(m.h, head0, t.start);
    assert t in v.ts && DescAt(m.h, t);
    var h2 := h1[t.start := h1[t.start].(free := u.free)];
    ListsApart(v.ts, total, v.fl, v.al, NULL, true);
    FlippedLinks(m.h, h1, h2, t.start, u.free, l, Drop(l, k), head, l', if t.free then m.allocList else m.freeList, k);
    DescribedChange(m.h, h2, v.ts, a, t, b, u, total);
    FootedChange(m.foot, v.ts, total, NULL, a, t, b, u);
    CoverChange(v.ts, total, a, t, b, u);
    ListsLeave(v.ts, total, a, t, b, l, k);
    ListsOther(v.ts, total, a, t, b, l');
  }

  lemma FlippedLinks(h: Headers, h1: Headers, h2: Headers, x: int, free: bool, l: seq<int>, r: seq<int>, head: int, other: seq<int>, otherHead: int, k: int)
    requires 0 <= k < |l| && l[k] == x && Linked(h1, head, r) && x in h1 && Linked(h, otherHead, other)
    requires Elsewhere(h, h1, l) && h2 == h1[x := h1[x].(free := free)] && forall y | y in other :: y !in l
    ensures Linked(h2, head, r) && Linked(h2, otherHead, other)
  {
    LinkedFrame(h1, h2, head, r);
    forall y | y in other && y in h
      ensures y in h2 && h2[y].prev == h[y].prev && h2[y].next == h[y].next
    {
    }
    LinkedFrame(h, h2, otherHead, other);
  }

  /// A tile in neither list enters the list for its flag.
  lemma EnterShape(m: Store, v: View, total: int, t: Tile)
    requires Shape(m, v, total, NULL, t.start) && t in v.ts && t.start in m.h
    ensures var (h1, head) := InsertFront(m.h, if t.free then m.freeList else m.allocList, t.start);
            Shape(Store(h1, m.foot, if t.free then head else m.freeList, if t.free then m.allocList else head),
                  View(v.ts, if t.free then [t.start] + v.fl else v.fl, if t.free then v.al else [t.start] + v.al), total, NULL, NULL)
  {
    hide Cover, NoDup;
    var x, l, l' := t.start, if t.free then v.fl else v.al, if t.free then v.al else v.fl;
    var head0 := if t.free then m.freeList else m.allocList;
    CoverBounds(v.ts, 0, total);
    InsertLinked(m.h, head0, l, x);
    var (h1, head) := InsertFront(m.h, head0, x);
    ListsApart(v.ts, total, v.fl, v.al, x, true);
    LinkedFrame(m.h, h1, if t.free then m.allocList else m.freeList, l');
    DescribedSame(m.h, h1, v.ts);
    ListsEnter(v.ts, total, t, l, l');
  }

  lemma ListsEnter(ts: seq<Tile>, total: int, t: Tile, l: seq<int>, l': seq<int>)
    requires Cover(ts, 0, total) && t in ts && Lists(ts, l, t.free, t.start) && Lists(ts, l', !t.free, t.start)
    ensures Lists(ts, [t.start] + l, t.free, NULL) && Lists(ts, l', !t.free, NULL)
  {
    CoverBounds(ts, 0, total);
    assert Starts(ts, t.start, t.free);
    forall s | s in ts && s.free == !t.free
      ensures s.start != t.start
    {
      if s.start == t.start {
        SameTile(ts, total, s, t);
        assert false;
      }
    }
    forall x | x in [t.start] + l
      ensures x != NULL && Starts(ts, x, t.free)
    {
      if x in l {
        var s :| s in ts && s.start == x && s.free == t.free;
      }
    }
    forall x | x in l'
      ensures x != NULL && Starts(ts, x, !t.free)
    {
      var s :| s in ts && s.start == x && s.free == !t.free;
    }
  }

  /// Setting the flag and entering a list can be done in either order.
  lemma FlagCommutes(h: Headers, head: int, x: int, free: bool)
    requires x in h && head != x
    ensures var (h1, head1) := InsertFront(h, head, x); var (h2, head2) := InsertFront(h[x := h[x].(free := free)], head, x);
            x in h1 && head1 == head2 && h2 == h1[x := h1[x].(free := free)]
  {
  }

  // ---------------------------------------------------------------- splitting a free chunk

  /// The two parts of the free tile t, the first of which is to be allocated.
  ghost function First(t: Tile, need: int): Tile { Tile(t.start, need, false) }

  ghost function Rest(t: Tile, need: int): Tile { Tile(t.start + need, t.size - need, true) }

  ghost predicate Splits(ts: seq<Tile>, total: int, a: seq<Tile>, t: Tile, b: seq<Tile>, need: int) {
    Cover(ts, 0, total) && ts == a + [t] + b && t.free && need > OVERHEAD && t.size - need > OVERHEAD
  }

  lemma SplitCover(ts: seq<Tile>, total: int, a: seq<Tile>, t: Tile, b: seq<Tile>, need: int)
    requires Splits(ts, total, a, t, b, need)
    ensures Cover(a + [First(t, need), Rest(t, need)] + b, 0, total)
    ensures forall s | s in ts :: s.start != t.start + need
    ensures t.start >= 0
  {
    CoverAround(a, t, b, 0, total);
    CoverBounds(ts, 0, total);
    CoverTwo(First(t, need), Rest(t, need));
    CoverWith(a, [First(t, need), Rest(t, need)], b, 0, t.start, t.End(), total);
    assert t in ts;
    forall s | s in ts
      ensures s.start != t.start + need
    {
      assert s in a || s == t || s in b;
    }
  }

  lemma SplitDescribed(h: Headers, h': Headers, ts: seq<Tile>, total: int, a: seq<Tile>, t: Tile, b: seq<Tile>, need: int)
    requires Splits(ts, total, a, t, b, need) && Described(h, ts) && DescAt(h', First(t, need)) && DescAt(h', Rest(t, need))
    requires forall x | x in h && x != t.start && x != t.start + need :: x in h' && h'[x].size == h[x].size && h'[x].free == h[x].free
    ensures Described(h', a + [First(t, need), Rest(t, need)] + b)
  {
    SplitCover(ts, total, a, t, b, need);
    CoverAround(a, t, b, 0, total);
    forall s | s in a + [First(t, need), Rest(t, need)] + b
      ensures DescAt(h', s)
    {
      if s != First(t, need) && s != Rest(t, need) {
        assert s in a || s in b;
        assert s in ts && DescAt(h, s);
      }
    }
  }

  lemma SplitFooted(foot: map<int, int>, ts: seq<Tile>, total: int, a: seq<Tile>, t: Tile, b: seq<Tile>, need: int)
    requires Splits(ts, total, a, t, b, need) && Footed(foot, ts, total, NULL)
    ensures var f := foot[t.End() - FOOTER := t.start + need][t.start + need - FOOTER := t.start];
            Footed(f, a + [First(t, need), Rest(t, need)] + b, total, NULL)
  {
    var f := foot[t.End() - FOOTER := t.start + need][t.start + need - FOOTER := t.start];
    CoverAround(a, t, b, 0, total);
    forall s | s in a + [First(t, need), Rest(t, need)] + b && s.End() < total && s.start != NULL
      ensures FootAt(f, s)
    {
      if s != First(t, need) && s != Rest(t, need) {
        assert s in a || s in b;
        assert s in ts && FootAt(foot, s);
      }
    }
  }

  lemma Reindexed(l: seq<int>, k: int, y: int)
    requires NoDup(l) && 0 <= k < |l|
    ensures forall x | x in l && x != l[k] :: x in l[k := y]
    ensures forall x | x in l[k := y] :: x == y || (x in l && x != l[k])
    ensures y in l[k := y]
  {
    var r := l[k := y];
    assert r[k] == y;
    forall x | x in l && x != l[k]
      ensures x in r
    {
      var i :| 0 <= i < |l| && l[i] == x;
      assert r[i] == x;
    }
    forall x | x in r && x != y
      ensures x in l && x != l[k]
    {
      var i :| 0 <= i < |r| && r[i] == x;
      Distinct(l, i, k);
      assert l[i] in l;
    }
  }

  lemma SplitFree(ts: seq<Tile>, total: int, a: seq<Tile>, t: Tile, b: seq<Tile>, need: int, l: seq<int>, k: int)
    requires Splits(ts, total, a, t, b, need) && Lists(ts, l, true, NULL) && NoDup(l) && 0 <= k < |l| && l[k] == t.start
    ensures Lists(a + [First(t, need), Rest(t, need)] + b, l[k := t.start + need], true, t.start)
  {
    hide Described, Footed, Linked, NoDup, Cover;
    var y := t.start + need;
    var us, r := a + [First(t, need), Rest(t, need)] + b, l[k := y];
    SplitCover(ts, total, a, t, b, need);
    CoverBounds(ts, 0, total);
    CoverAround(a, t, b, 0, total);
    Reindexed(l, k, y);
    assert forall s | s in us && s.free && s.start != t.start :: s == Rest(t, need) || s in ts;
    forall s | s in us && s.free && s.start != t.start
      ensures s.start in r
    {
      assert s == Rest(t, need) || s in ts;
    }
    forall x | x in r
      ensures x != t.start && Starts(us, x, true)
    {
      if x == y {
        assert Rest(t, need) in us;
      } else {
        assert Starts(ts, x, true);
        var s :| s in ts && s.start == x && s.free;
        assert s in us;
      }
    }
  }

  lemma SplitUsed(ts: seq<Tile>, total: int, a: seq<Tile>, t: Tile, b: seq<Tile>, need: int, l: seq<int>)
    requires Splits(ts, total, a, t, b, need) && Lists(ts, l, false, NULL)
    ensures Lists(a + [First(t, need), Rest(t, need)] + b, l, false, t.start)
    ensures forall x | x in l :: x != t.start && x != t.start + need
  {
    var us := a + [First(t, need), Rest(t, need)] + b;
    SplitCover(ts, total, a, t, b, need);
    CoverBounds(ts, 0, total);
    CoverAround(a, t, b, 0, total);
    forall s | s in us && !s.free && s.start != t.start
      ensures s.start in l
    {
      assert s in ts;
    }
    forall x | x in l
      ensures x != t.start && x != t.start + need && Starts(us, x, false)
    {
      var s :| s in ts && s.start == x && !s.free;
      assert s != t;
      assert s in us;
      if x == t.start {
        assert t in ts;
        SameTile(ts, total, s, t);
        assert false;
      }
    }
  }

  /// The headers after the split of the free chunk at x: a copy of the header at
  /// y with the rest of the size, and the neighbours in the free list pointing to it.
  function SplitHeaders(h: Headers, x: int, y: int, need: int): Headers
    requires x in h
  {
    var c := h[x].(size := h[x].size - need);
    var h1 := h[y := c];
    var h2 := if c.prev == NULL then h1 else SetNext(h1, c.prev, y);
    var h3 := if c.next == NULL then h2 else SetPrev(h2, c.next, y);
    h3[x := h[x].(size := need, free := false)]
  }

  lemma SplitSwaps(h: Headers, head: int, l: seq<int>, k: int, y: int, need: int)
    requires Linked(h, head, l) && NoDup(l) && 0 <= k < |l| && y !in l && y != NULL
    ensures l[k] in h
    ensures var h' := SplitHeaders(h, l[k], y, need);
            Swapped(h, h', l, k, y) && (forall x | x in h && x !in l && x != y :: x in h' && h'[x] == h[x]) &&
            y in h' && h'[y].size == h[l[k]].size - need && h'[y].free == h[l[k]].free && h'[l[k]] == h[l[k]].(size := need, free := false) &&
            forall x | x in h && x != l[k] && x != y :: x in h' && h'[x].size == h[x].size && h'[x].free == h[x].free
  {
    LinkedAt(h, head, l, k);
    assert l[k] in l;
    if k > 0 {
      LinkedAt(h, head, l, k - 1);
      Distinct(l, k - 1, k);
      assert l[k - 1] in l;
    }
    if k + 1 < |l| {
      LinkedAt(h, head, l, k + 1);
      Distinct(l, k, k + 1);
      assert l[k + 1] in l;
    }
    if 0 < k < |l| - 1 { Distinct(l, k - 1, k + 1); }
    hide Linked, NoDup;
  }

  /// What the split does to the headers and to the two lists.
  lemma SplitLinks(m: Store, v: View, total: int, a: seq<Tile>, t: Tile, b: seq<Tile>, k: int, need: int)
    requires Shape(m, v, total, NULL, NULL) && Splits(v.ts, total, a, t, b, need) && 0 <= k < |v.fl| && v.fl[k] == t.start
    ensures t.start in m.h && m.h[t.start].prev == At(v.fl, k - 1)
    ensures var y := t.start + need; var h' := SplitHeaders(m.h, t.start, y, need);
            Linked(h', if m.h[t.start].prev == NULL then y else m.freeList, v.fl[k := y]) && NoDup(v.fl[k := y]) &&
            Linked(h', m.allocList, v.al) && DescAt(h', First(t, need)) && DescAt(h', Rest(t, need)) &&
            forall x | x in m.h && x != t.start && x != y :: x in h' && h'[x].size == m.h[x].size && h'[x].free == m.h[x].free
  {
    hide Cover, NoDup, Splits, Footed;
    var y := t.start + need;
    SplitCover(v.ts, total, a, t, b, need);
    SplitUsed(v.ts, total, a, t, b, need, v.al);
    NotListed(v.ts, v.fl, y);
    ListsApart(v.ts, total, v.fl, v.al, NULL, true);
    SplitTile(v.ts, total, a, t, b, need, m.h);
    SplitLinked(m.h, m.freeList, v.fl, k, y, need, m.allocList, v.al);
  }

  lemma SplitTile(ts: seq<Tile>, total: int, a: seq<Tile>, t: Tile, b: seq<Tile>, need: int, h: Headers)
    requires Splits(ts, total, a, t, b, need) && Described(h, ts)
    ensures DescAt(h, t) && t.free && need > OVERHEAD
  {
    assert t in ts;
  }

  lemma SplitLinked(h: Headers, head: int, l: seq<int>, k: int, y: int, need: int, otherHead: int, other: seq<int>)
    requires Linked(h, head, l) && NoDup(l) && 0 <= k < |l| && y !in l && y != NULL && l[k] != NULL
    requires Linked(h, otherHead, other) && forall x | x in other :: x !in l && x != y
    ensures l[k] in h && h[l[k]].prev == At(l, k - 1)
    ensures var h' := SplitHeaders(h, l[k], y, need);
            Linked(h', if h[l[k]].prev == NULL then y else head, l[k := y]) && NoDup(l[k := y]) && Linked(h', otherHead, other) &&
            l[k] in h' && h'[l[k]] == h[l[k]].(size := need, free := false) && y in h' && h'[y].size == h[l[k]].size - need && h'[y].free == h[l[k]].free &&
            forall x | x in h && x != l[k] && x != y :: x in h' && h'[x].size == h[x].size && h'[x].free == h[x].free
  {
    assert l[k] in l;
    LinkedAt(h, head, l, k);
    if k > 0 { LinkedAt(h, head, l, k - 1); }
    SplitSwaps(h, head, l, k, y, need);
    hide SplitHeaders, Linked, NoDup;
    ReplaceLinked(h, SplitHeaders(h, l[k], y, need), head, if h[l[k]].prev == NULL then y else head, l, k, y);
    LinkedFrame(h, SplitHeaders(h, l[k], y, need), otherHead, other);
  }

  /// The split leaves the first part in neither list.
  lemma SplitShape(m: Store, v: View, total: int, a: seq<Tile>, t: Tile, b: seq<Tile>, k: int, need: int)
    requires Shape(m, v, total, NULL, NULL) && Splits(v.ts, total, a, t, b, need) && 0 <= k < |v.fl| && v.fl[k] == t.start
    ensures t.start in m.h && m.h[t.start].prev == At(v.fl, k - 1)
    ensures var y := t.start + need;
            Shape(Store(SplitHeaders(m.h, t.start, y, need), m.foot[t.End() - FOOTER := y][y - FOOTER := t.start],
                        if m.h[t.start].prev == NULL then y else m.freeList, m.allocList),
                  View(a + [First(t, need), Rest(t, need)] + b, v.fl[k := y], v.al), total, NULL, t.start)
  {
    hide Cover, NoDup, Splits, Described, Footed, Linked, Lists, SplitHeaders, Rest, First, DescAt;
    var y := t.start + need;
    SplitLinks(m, v, total, a, t, b, k, need);
    SplitCover(v.ts, total, a, t, b, need);
    SplitUsed(v.ts, total, a, t, b, need, v.al);
    SplitDescribed(m.h, SplitHeaders(m.h, t.start, y, need), v.ts, total, a, t, b, need);
    SplitFooted(m.foot, v.ts, total, a, t, b, need);
    SplitFree(v.ts, total, a, t, b, need, v.fl, k);
    assert a + [First(t, need), Rest(t, need)] + b != [];
  }

  lemma TileIn(ts: seq<Tile>, a: seq<Tile>, t: Tile, b: seq<Tile>)
    requires ts == a + [t] + b
    ensures t in ts
  {
  }

  lemma NotListed(ts: seq<Tile>, l: seq<int>, y: int)
    requires Lists(ts, l, true, NULL) && forall s | s in ts :: s.start != y
    ensures y !in l
  {
    forall x | x in l
      ensures x != y
    {
      var s :| s in ts && s.start == x && s.free;
    }
  }

  // ---------------------------------------------------------------- coalescing

  ghost function Joined(s: Tile, t: Tile): Tile { Tile(s.start, s.size + t.size, true) }

  /// The free tile s is followed by the free tile t.
  ghost predicate Joins(ts: seq<Tile>, total: int, a: seq<Tile>, s: Tile, t: Tile, b: seq<Tile>) {
    Cover(ts, 0, total) && ts == a + [s, t] + b && s.free && t.free
  }

  lemma JoinCover(ts: seq<Tile>, total: int, a: seq<Tile>, s: Tile, t: Tile, b: seq<Tile>)
    requires Joins(ts, total, a, s, t, b)
    ensures Cover(a + [Joined(s, t)] + b, 0, total) && s in ts && t in ts && s.End() == t.start && s.size > OVERHEAD && t.size > OVERHEAD
    ensures forall u | u in a + b :: u in ts && u.start != s.start && u.start != t.start
    ensures forall u | u in ts :: u == s || u == t || u in a + b
    ensures s.start >= 0 && t.start >= 0
  {
    assert a + [s, t] + b == a + [s] + ([t] + b);
    CoverAround(a, s, [t] + b, 0, total);
    assert [t] + b == [] + [t] + b;
    CoverAround([], t, b, s.End(), total);
    CoverOne(Joined(s, t));
    CoverWith(a, [Joined(s, t)], b, 0, s.start, t.End(), total);
    assert s in ts && t in ts;
    CoverBounds(ts, 0, total);
  }

  lemma JoinDescribed(h: Headers, h': Headers, ts: seq<Tile>, total: int, a: seq<Tile>, s: Tile, t: Tile, b: seq<Tile>)
    requires Joins(ts, total, a, s, t, b) && Described(h, ts) && DescAt(h', Joined(s, t))
    requires forall x | x in h && x != s.start :: x in h' && h'[x].size == h[x].size && h'[x].free == h[x].free
    ensures Described(h', a + [Joined(s, t)] + b)
  {
    JoinCover(ts, total, a, s, t, b);
    forall u | u in a + [Joined(s, t)] + b
      ensures DescAt(h', u)
    {
      if u != Joined(s, t) {
        assert u in a + b;
        assert DescAt(h, u);
      }
    }
  }

  lemma JoinLists(ts: seq<Tile>, total: int, a: seq<Tile>, s: Tile, t: Tile, b: seq<Tile>, fl: seq<int>, k: int, al: seq<int>)
    requires Joins(ts, total, a, s, t, b) && Lists(ts, fl, true, NULL) && Lists(ts, al, false, NULL) && NoDup(fl) && 0 <= k < |fl| && fl[k] == t.start
    ensures var us := a + [Joined(s, t)] + b; Lists(us, Drop(fl, k), true, NULL) && Lists(us, al, false, NULL)
  {
    var us := a + [Joined(s, t)] + b;
    JoinCover(ts, total, a, s, t, b);
    DropNoDup(fl, k);
    hide NoDup, Cover;
    forall u | u in us && u.free && u.start != NULL
      ensures u.start in Drop(fl, k)
    {
      assert u == Joined(s, t) || u in a + b;
    }
    forall u | u in us && !u.free && u.start != NULL
      ensures u.start in al
    {
      assert u in a + b;
    }
    assert Joined(s, t) in us;
    forall x | x in Drop(fl, k)
      ensures Starts(us, x, true)
    {
      assert Starts(ts, x, true);
      var u :| u in ts && u.start == x && u.free;
      assert u == s || u in us;
    }
    forall x | x in al
      ensures Starts(us, x, false)
    {
      assert Starts(ts, x, false);
      var u :| u in ts && u.start == x && !u.free;
      assert u in us;
    }
  }

  lemma JoinFooted(foot: map<int, int>, ts: seq<Tile>, total: int, a: seq<Tile>, s: Tile, t: Tile, b: seq<Tile>, skip: int)
    requires Joins(ts, total, a, s, t, b) && Footed(foot, ts, total, skip) && (skip == NULL || skip == s.start)
    ensures Footed(foot, a + [Joined(s, t)] + b, total, s.start)
  {
    JoinCover(ts, total, a, s, t, b);
    forall u | u in a + [Joined(s, t)] + b && u.End() < total && u.start != s.start
      ensures FootAt(foot, u)
    {
      assert u in a + b;
      CoverBounds(ts, 0, total);
    }
  }

  lemma JoinLinks(h: Headers, head: int, l: seq<int>, k: int, x: int, size: int, otherHead: int, other: seq<int>)
    requires Linked(h, head, l) && NoDup(l) && 0 <= k < |l| && x in h && x != l[k]
    requires Linked(h, otherHead, other) && forall y | y in other :: y !in l
    ensures l[k] in h
    ensures var (h1, head1) := Delete(h, head, l[k]);
            x in h1 && var h2 := h1[x := h1[x].(size := size)];
            Linked(h2, head1, Drop(l, k)) && NoDup(Drop(l, k)) && Linked(h2, otherHead, other) && h2[x].size == size && h2[x].free == h[x].free &&
            forall y | y in h && y != x :: y in h2 && h2[y].size == h[y].size && h2[y].free == h[y].free
  {
    DeleteLinked(h, head, l, k);
    var (h1, head1) := Delete(h, head, l[k]);
    var h2 := h1[x := h1[x].(size := size)];
    hide NoDup, Delete, Linked;
    LinkedFrame(h1, h2, head1, Drop(l, k));
    LinkedFrame(h, h1, otherHead, other);
    LinkedFrame(h1, h2, otherHead, other);
  }

  /// One turn of the loop that absorbs the free chunks on the right.
  lemma JoinShape(m: Store, v: View, total: int, a: seq<Tile>, s: Tile, t: Tile, b: seq<Tile>, k: int, skip: int)
    requires Shape(m, v, total, skip, NULL) && Joins(v.ts, total, a, s, t, b) && (skip == NULL || skip == s.start)
    requires 0 <= k < |v.fl| && v.fl[k] == t.start
    ensures t.start in m.h
    ensures var (h1, head) := Delete(m.h, m.freeList, t.start);
            s.start in h1 &&
            Shape(Store(h1[s.start := h1[s.start].(size := s.size + t.size)], m.foot, head, m.allocList),
                  View(a + [Joined(s, t)] + b, Drop(v.fl, k), v.al), total, s.start, NULL)
  {
    hide Cover, NoDup;
    JoinCover(v.ts, total, a, s, t, b);
    assert DescAt(m.h, s) && DescAt(m.h, t);
    ListsApart(v.ts, total, v.fl, v.al, NULL, true);
    hide Lists, Footed, Linked, Joins;
    JoinLinks(m.h, m.freeList, v.fl, k, s.start, s.size + t.size, m.allocList, v.al);
    var (h1, head) := Delete(m.h, m.freeList, t.start);
    var h2 := h1[s.start := h1[s.start].(size := s.size + t.size)];
    hide Delete;
    assert DescAt(h2, Joined(s, t));
    JoinDescribed(m.h, h2, v.ts, total, a, s, t, b);
    JoinFooted(m.foot, v.ts, total, a, s, t, b, skip);
    JoinLists(v.ts, total, a, s, t, b, v.fl, k, v.al);
    hide Described;
    assert a + [Joined(s, t)] + b != [];
  }

  lemma FootFooted(foot: map<int, int>, ts: seq<Tile>, total: int, a: seq<Tile>, s: Tile, b: seq<Tile>, skip: int)
    requires Cover(ts, 0, total) && Footed(foot, ts, total, skip) && ts == a + [s] + b && (skip == NULL || skip == s.start)
    ensures Footed(foot[s.End() - FOOTER := s.start], ts, total, NULL)
  {
    var f := foot[s.End() - FOOTER := s.start];
    CoverAround(a, s, b, 0, total);
    CoverBounds(ts, 0, total);
    forall u | u in ts && u.End() < total && u.start != NULL
      ensures FootAt(f, u)
    {
      if u != s {
        assert u in a || u in b;
        assert FootAt(foot, u);
      }
    }
  }

  /// The final footer.
  lemma FootShape(m: Store, v: View, total: int, a: seq<Tile>, s: Tile, b: seq<Tile>, skip: int)
    requires Shape(m, v, total, skip, NULL) && v.ts == a + [s] + b && (skip == NULL || skip == s.start)
    ensures Shape(m.(foot := m.foot[s.End() - FOOTER := s.start]), v, total, NULL, NULL)
  {
    hide Linked, Lists, NoDup, Described, Cover, Footed;
    FootFooted(m.foot, v.ts, total, a, s, b, skip);
  }

  /// After the leading free tiles no two free ones are adjacent.
  ghost predicate Settled(ts: seq<Tile>) {
    ts == [] || (if ts[0].free then Settled(ts[1..]) else NoFreePair(ts))
  }

  lemma PairFreeSettled(ts: seq<Tile>)
    requires NoFreePair(ts)
    ensures Settled(ts)
  {
    if ts != [] && ts[0].free {
      PairsTail(ts);
      if ts[1..] != [] {
        assert ts[1..][0] == ts[1];
      }
    }
  }

  // ---------------------------------------------------------------- the pool

  /// MP_ALIGN_SIZE of the wanted size with header and footer.
  function Need(want: int): int { (want + OVERHEAD + 7) / 8 * 8 }

  lemma NeedFits(want: int)
    requires want > 0
    ensures OVERHEAD + want <= Need(want) < OVERHEAD + want + 8 && Need(want) % 8 == 0
  {
  }

  /// One chunk of full size.
  lemma FreshShape(size: int)
    requires size > OVERHEAD
    ensures Shape(Store(map[0 := Chunk(size, NULL, NULL, true)], map[], 0, NULL), View([Tile(0, size, true)], [0], []), size, NULL, NULL)
    ensures NoFreePair([Tile(0, size, true)]) && UsedBytes([Tile(0, size, true)]) == 0 && ProgramBytes([Tile(0, size, true)]) == 0
  {
    var t := Tile(0, size, true);
    CoverOne(t);
    BytesOfOne(t);
    var h := map[0 := Chunk(size, NULL, NULL, true)];
    assert LinkAt(h, [0], 0);
    assert t in [t] && DescAt(h, t);
    assert Starts([t], 0, true);
  }

  class MemoryPool {
    const size: int
    var hdr: Headers
    var foot: map<int, int>
    var freeList: int
    var allocList: int
    var allocMem: int
    var allocProgMem: int
    ghost var view: View

    ghost function Mem(): Store
      reads this
    {
      Store(hdr, foot, freeList, allocList)
    }

    /// The chunks tile the block, the lists are exactly the free and the allocated
    /// chunks, no two free chunks are adjacent, and the counters are right.
    ghost predicate Valid()
      reads this
    {
      size > OVERHEAD && Shape(Mem(), view, size, NULL, NULL) && NoFreePair(view.ts) &&
      allocMem == UsedBytes(view.ts) && allocProgMem == ProgramBytes(view.ts)
    }

    /// MemoryPoolInit with a maximum equal to the size, so that the pool does not grow.
    constructor (size: int)
      requires size > OVERHEAD
      ensures Valid() && this.size == size && view.ts == [Tile(0, size, true)]
    {
      this.size := size;
      hdr, foot := map[0 := Chunk(size, NULL, NULL, true)], map[];
      freeList, allocList, allocMem, allocProgMem := 0, NULL, 0, 0;
      view := View([Tile(0, size, true)], [0], []);
      new;
      FreshShape(size);
    }

    /// MemoryPoolClear.
    method Clear()
      requires Valid()
      modifies this
      ensures Valid() && view.ts == [Tile(0, size, true)]
    {
      hdr := hdr[0 := Chunk(size, NULL, NULL, true)];
      freeList, allocList, allocMem, allocProgMem := 0, NULL, 0, 0;
      view := View([Tile(0, size, true)], [0], []);
      FreshShape(size);
      ClearShape(hdr, foot, size);
    }

    /// The first chunk in the free list that is large enough.
    method FindFree(need: int) returns (p: int, ghost k: int)
      requires Valid()
      ensures p == NULL ==> forall t | t in view.ts && t.free :: t.size < need
      ensures p != NULL ==> 0 <= k < |view.fl| && view.fl[k] == p && p in hdr && hdr[p].size >= need
      ensures p != NULL ==> forall i | 0 <= i < k :: view.fl[i] in hdr && hdr[view.fl[i]].size < need
    {
      p, k := freeList, 0;
      while p != NULL
        invariant 0 <= k <= |view.fl| && p == At(view.fl, k)
        invariant forall i | 0 <= i < k :: view.fl[i] in hdr && hdr[view.fl[i]].size < need
        decreases |view.fl| - k
      {
        LinkedAt(hdr, freeList, view.fl, k);
        if hdr[p].size >= need {
          return;
        }
        p, k := hdr[p].next, k + 1;
      }
      NoneFree(hdr, view, size, need, freeList, k);
    }

    /// MemoryPoolAlloc: the first chunk of the free list that is large enough is
    /// taken, and split if what is left can be a chunk of its own. t is that
    /// chunk, the one at index k of the list, a and b are the chunks around it.
    method Alloc(want: int) returns (p: int, ghost a: seq<Tile>, ghost t: Tile, ghost b: seq<Tile>, ghost k: nat)
      requires Valid()
      modifies this
      ensures Valid()
      ensures p == NULL ==> unchanged(this) && (want <= 0 || forall t | t in view.ts && t.free :: t.size < Need(want))
      ensures p != NULL ==> want > 0 && p == t.start + HEADER && old(view).ts == a + [t] + b && t.free && t.size >= Need(want)
      ensures p != NULL ==> k < |old(view).fl| && old(view).fl[k] == t.start && view.al == [t.start] + old(view).al
      ensures p != NULL ==> forall u | u in old(view).ts && u.start in old(view).fl[..k] :: u.size < Need(want)
      ensures p != NULL && t.size - Need(want) > OVERHEAD ==>
        view.ts == a + [Tile(t.start, Need(want), false), Tile(t.start + Need(want), t.size - Need(want), true)] + b &&
        view.fl == old(view).fl[k := t.start + Need(want)]
      ensures p != NULL && t.size - Need(want) <= OVERHEAD ==>
        view.ts == a + [Tile(t.start, t.size, false)] + b && view.fl == old(view).fl[..k] + old(view).fl[k + 1..]
    {
      hide Cover, Described, Footed, Linked, NoDup, Lists, NoFreePair, UsedBytes, ProgramBytes;
      p, a, t, b, k := NULL, [], Tile(0, 0, true), [], 0;
      if want <= 0 {
        return;
      }
      NeedFits(want);
      var need := Need(want);
      UsedFits(view.ts, 0, size);
      if size - allocMem < need {
        return;
      }
      var x;
      ghost var j;
      x, j := FindFree(need);
      if x == NULL {
        return;
      }
      k := j;
      a, t, b := TileAt(hdr, view, size, k, freeList);
      Neighbours(Mem(), view, size, a, t, b);
      EarlierSmaller(hdr, view, k, need);
      if hdr[x].size - need > OVERHEAD {
        Split(x, need, a, t, b, k);
      } else {
        TakeWhole(x, a, t, b, k);
      }
      ghost var u := Taken(t, need)[0];
      TakenOk(a, t, b, need);
      Enlist(x, a, u, if t.size - need > OVERHEAD then [Rest(t, need)] + b else b);
      p := x + HEADER;
    }

    /// The chunk at x is split: its first part leaves the free list for the allocated chunks.
    method Split(x: int, need: int, ghost a: seq<Tile>, ghost t: Tile, ghost b: seq<Tile>, ghost k: int)
      requires Shape(Mem(), view, size, NULL, NULL) && Splits(view.ts, size, a, t, b, need) && t.start == x
      requires 0 <= k < |view.fl| && view.fl[k] == x
      modifies `hdr, `foot, `freeList, `view
      ensures Shape(Mem(), view, size, NULL, x) && view.ts == a + [First(t, need), Rest(t, need)] + b
      ensures view.fl == old(view).fl[k := x + need] && view.al == old(view).al
    {
      hide Cover, Described, Footed, Linked, NoDup, Lists;
      SplitShape(Mem(), view, size, a, t, b, k, need);
      SplitApart(Mem(), view, size, a, t, b, k, need);
      ghost var h0 := hdr;
      var y := x + need;
      hdr := hdr[y := hdr[x]];
      hdr := hdr[y := hdr[y].(size := hdr[y].size - need)];
      foot := foot[y + hdr[y].size - FOOTER := y];
      if hdr[y].prev == NULL {
        freeList := y;
      } else {
        hdr := SetNext(hdr, hdr[y].prev, y);
      }
      if hdr[y].next != NULL {
        hdr := SetPrev(hdr, hdr[y].next, y);
      }
      hdr := hdr[x := hdr[x].(free := false)];
      hdr := hdr[x := hdr[x].(size := need)];
      foot := foot[x + need - FOOTER := x];
      SplitSteps(h0, x, y, need);
      view := View(a + [First(t, need), Rest(t, need)] + b, view.fl[k := y], view.al);
    }

    /// The whole chunk at x leaves the free list.
    method TakeWhole(x: int, ghost a: seq<Tile>, ghost t: Tile, ghost b: seq<Tile>, ghost k: int)
      requires Shape(Mem(), view, size, NULL, NULL) && view.ts == a + [t] + b && t.free && t.start == x
      requires 0 <= k < |view.fl| && view.fl[k] == x
      modifies `hdr, `freeList, `view
      ensures Shape(Mem(), view, size, NULL, x) && view.ts == a + [t.(free := false)] + b
      ensures view.fl == Drop(old(view).fl, k) && view.al == old(view).al
    {
      LeaveShape(Mem(), view, size, a, t, b, k);
      var (h, head) := Delete(hdr, freeList, x);
      hdr, freeList := h, head;
      hdr := hdr[x := hdr[x].(free := false)];
      view := View(a + [t.(free := false)] + b, Drop(view.fl, k), view.al);
    }

    /// The chunk at x enters the list of allocated chunks and is counted.
    method Enlist(x: int, ghost a: seq<Tile>, ghost u: Tile, ghost b: seq<Tile>)
      requires Shape(Mem(), view, size, NULL, x) && view.ts == a + [u] + b && !u.free && u.start == x
      modifies `hdr, `allocList, `view, `allocMem, `allocProgMem
      ensures Shape(Mem(), view, size, NULL, NULL) && view == old(view).(al := [x] + old(view).al)
      ensures allocMem == old(allocMem) + u.size && allocProgMem == old(allocProgMem) + u.size - OVERHEAD
    {
      TileIn(view.ts, a, u, b);
      assert DescAt(hdr, u);
      EnterShape(Mem(), view, size, u);
      InsertSize(hdr, allocList, x);
      var (h, head) := InsertFront(hdr, allocList, x);
      hdr, allocList := h, head;
      allocMem := allocMem + hdr[x].size;
      allocProgMem := allocProgMem + (hdr[x].size - HEADER - FOOTER);
      view := view.(al := [x] + view.al);
    }

    /// MemoryPoolFree: the chunk t at p becomes free and is joined with its free
    /// neighbours; a and b are the chunks around it.
    method Free(p: int) returns (r: int, ghost a: seq<Tile>, ghost t: Tile, ghost b: seq<Tile>)
      requires Valid() && (p == NULL || Starts(view.ts, p - HEADER, false))
      modifies this
      ensures Valid()
      ensures p == NULL ==> r == 1 && unchanged(this)
      ensures p != NULL ==> r == 0 && old(view).ts == a + [t] + b && t.start == p - HEADER && !t.free
      ensures p != NULL ==> Used(view.ts) == Used(a) + Used(b)
      ensures p != NULL ==> exists k :: 0 <= k < |old(view).al| && old(view).al[k] == t.start && view.al == old(view).al[..k] + old(view).al[k + 1..]
      ensures p != NULL ==> view.fl == Kept([t.start] + old(view).fl, FreeStarts(view.ts))
    {
      hide Cover, Described, Footed, Linked, NoDup, Lists, NoFreePair, Used, UsedBytes, ProgramBytes;
      r, a, t, b := 1, [], Tile(0, 0, true), [];
      if p == NULL {
        return;
      }
      var ck := p - HEADER;
      ghost var k;
      a, t, b, k := UsedAt(hdr, view, size, ck);
      PairsAround(a, t, b);
      BytesAround(a, [t], b);
      BytesOfOne(t);
      Release(ck, a, t, b, k);
      allocMem := allocMem - hdr[ck].size;
      allocProgMem := allocProgMem - (hdr[ck].size - HEADER - FOOTER);
      ghost var u := t.(free := true);
      BytesAround(a, [u], b);
      BytesOfOne(u);
      MergeFreeChunk(ck, a, u, b);
      assert old(view).al[k] == t.start;
      r := 0;
    }

    /// The chunk at ck moves from the list of allocated chunks to the free list.
    method Release(ck: int, ghost a: seq<Tile>, ghost t: Tile, ghost b: seq<Tile>, ghost k: int)
      requires Shape(Mem(), view, size, NULL, NULL) && view.ts == a + [t] + b && !t.free && t.start == ck
      requires 0 <= k < |view.al| && view.al[k] == ck
      modifies `hdr, `freeList, `allocList, `view
      ensures Shape(Mem(), view, size, NULL, NULL) && view.ts == a + [t.(free := true)] + b && ck in hdr && hdr[ck].size == t.size
      ensures view.fl == [ck] + old(view).fl && view.al == Drop(old(view).al, k)
    {
      ghost var u := t.(free := true);
      LeaveShape(Mem(), view, size, a, t, b, k);
      var (h, head) := Delete(hdr, allocList, ck);
      ghost var m1 := Store(h[ck := h[ck].(free := true)], foot, freeList, head);
      ghost var v1 := View(a + [u] + b, view.fl, Drop(view.al, k));
      TileIn(v1.ts, a, u, b);
      HeadApart(m1, v1, size, u);
      EnterShape(m1, v1, size, u);
      FlagCommutes(h, freeList, ck, true);
      hdr, allocList := h, head;
      var (h2, head2) := InsertFront(hdr, freeList, ck);
      hdr, freeList := h2, head2;
      hdr := hdr[ck := hdr[ck].(free := true)];
      view := v1.(fl := [ck] + v1.fl);
      assert DescAt(hdr, u);
    }

    /// The first loop of merge_free_chunk: left along the footers to the first chunk of the free run.
    method FindLeft(c: int, ghost a0: seq<Tile>, ghost t0: Tile, ghost b0: seq<Tile>) returns (p1: int, ghost a: seq<Tile>, ghost s: Tile, ghost r: seq<Tile>)
      requires Shape(Mem(), view, size, NULL, NULL) && view.ts == a0 + [t0] + b0 && t0.free && t0.start == c
      requires NoFreePair(a0) && NoFreePair(b0)
      ensures view.ts == a + [s] + r && s.start == p1 && s.free && NoFreePair(a) && !EndsFree(a) && Settled(r)
      ensures Used(a) + Used(r) == Used(a0) + Used(b0)
    {
      hide Cover, Described, Footed, Linked, NoDup, Lists, NoFreePair, Settled, Used;
      var p0 := c;
      p1 := c;
      a, s, r := a0, t0, b0;
      PairFreeSettled(b0);
      Neighbours(Mem(), view, size, a, s, r);
      while hdr[p0].free
        invariant view.ts == a + [s] + r && s.start == p1 && s.free && NoFreePair(a) && Settled(r)
        invariant Used(a) + Used(r) == Used(a0) + Used(b0)
        invariant p0 in hdr && if p0 == p1 then hdr[p0].free else a != [] && p0 == a[|a| - 1].start && hdr[p0].free == a[|a| - 1].free
        decreases |a|, p0 == p1
      {
        if p0 != p1 {
          StepLeft(a, s, r);
          a, s, r := a[..|a| - 1], a[|a| - 1], [s] + r;
        }
        Neighbours(Mem(), view, size, a, s, r);
        p1 := p0;
        if p0 - FOOTER - HEADER <= 0 {
          return;
        }
        p0 := foot[p0 - FOOTER];
      }
    }

    /// merge_free_chunk: the free chunk t at c is joined with the free chunks on both sides.
    method MergeFreeChunk(c: int, ghost a0: seq<Tile>, ghost t0: Tile, ghost b0: seq<Tile>)
      requires Shape(Mem(), view, size, NULL, NULL) && view.ts == a0 + [t0] + b0 && t0.free && t0.start == c
      requires NoFreePair(a0) && NoFreePair(b0)
      modifies `hdr, `foot, `freeList, `view
      ensures Shape(Mem(), view, size, NULL, NULL) && NoFreePair(view.ts) && view.al == old(view).al
      ensures Used(view.ts) == Used(a0) + Used(b0) && view.fl == Kept(old(view).fl, FreeStarts(view.ts))
      ensures UsedBytes(view.ts) == old(UsedBytes(view.ts)) && ProgramBytes(view.ts) == old(ProgramBytes(view.ts))
    {
      hide Cover, Described, Footed, Linked, NoDup, Lists, NoFreePair, Settled, Used, UsedBytes, ProgramBytes;
      var p1;
      ghost var a, s, r;
      p1, a, s, r := FindLeft(c, a0, t0, b0);
      ghost var skip, used, prog, al, fl := NULL, UsedBytes(view.ts), ProgramBytes(view.ts), view.al, view.fl;
      AllKept(Mem(), view, size);
      Neighbours(Mem(), view, size, a, s, r);
      var p0 := p1 + hdr[p1].size;
      while p0 < size && hdr[p0].free
        invariant Shape(Mem(), view, size, skip, NULL) && (skip == NULL || skip == s.start)
        invariant view.ts == a + [s] + r && s.start == p1 && s.free && Settled(r) && p0 == s.End()
        invariant p1 in hdr && hdr[p1].size == s.size
        invariant if p0 < size then r != [] && r[0].start == p0 && p0 in hdr && hdr[p0].free == r[0].free else r == []
        invariant Used(a) + Used(r) == Used(a0) + Used(b0)
        invariant UsedBytes(view.ts) == used && ProgramBytes(view.ts) == prog && view.al == al
        invariant view.fl == Kept(fl, FreeStarts(view.ts))
        decreases |r|
      {
        ghost var t, b, X := r[0], r[1..], FreeStarts(view.ts);
        p0 := Absorb(p1, p0, a, s, t, b, skip);
        JoinBytes(a, s, t, b);
        SettledTail(r);
        KeptTwice(fl, X, FreeStarts(view.ts));
        assert r == [t] + b;
        s, r, skip := Joined(s, t), b, p1;
        Neighbours(Mem(), view, size, a, s, r);
      }
      FootShape(Mem(), view, size, a, s, r, skip);
      foot := foot[p1 + hdr[p1].size - FOOTER := p1];
      PairsAround(a, s, r);
      FreeUsed(a, s, r);
      EndSettled(r);
    }

    /// One turn of the second loop.
    method Absorb(p1: int, p0: int, ghost a: seq<Tile>, ghost s: Tile, ghost t: Tile, ghost b: seq<Tile>, ghost skip: int) returns (next: int)
      requires Shape(Mem(), view, size, skip, NULL) && view.ts == a + [s] + ([t] + b) && s.free && t.free
      requires s.start == p1 && t.start == p0 && (skip == NULL || skip == p1)
      modifies `hdr, `freeList, `view
      ensures Shape(Mem(), view, size, p1, NULL) && view.ts == a + [Joined(s, t)] + b && next == t.End() && view.al == old(view).al
      ensures view.fl == Kept(old(view).fl, FreeStarts(view.ts)) && FreeStarts(view.ts) <= FreeStarts(old(view).ts)
    {
      ghost var m, v := Mem(), view;
      hide Cover, Described, Footed, Linked, NoDup, Lists;
      assert a + [s] + ([t] + b) == a + [s, t] + b;
      ghost var k := ListedAt(view, size, a, s, t, b);
      JoinShape(Mem(), view, size, a, s, t, b, k, skip);
      JoinSizes(hdr, freeList, view, size, a, s, t, b, k);
      var (h, head) := Delete(hdr, freeList, p0);
      hdr, freeList := h, head;
      hdr := hdr[p1 := hdr[p1].(size := hdr[p1].size + hdr[p0].size)];
      next := p0 + hdr[p0].size;
      view := View(a + [Joined(s, t)] + b, Drop(view.fl, k), view.al);
      DropKept(m, v, Mem(), view, size, k, skip, p1);
    }
  }

  // ---------------------------------------------------------------- the order of the free list

  ghost function FreeStarts(ts: seq<Tile>): set<int> { set t | t in ts && t.free :: t.start }

  /// What of l is in Y, in the order of l.
  ghost function Kept(l: seq<int>, Y: set<int>): seq<int> {
    if l == [] then [] else (if l[0] in Y then [l[0]] else []) + Kept(l[1..], Y)
  }

  lemma {:induction false} KeptSame(l: seq<int>, Y: set<int>)
    requires forall i | 0 <= i < |l| :: l[i] in Y
    ensures Kept(l, Y) == l
  {
    if l != [] {
      KeptSame(l[1..], Y);
      assert Kept(l, Y) == [l[0]] + Kept(l[1..], Y);
      assert l == [l[0]] + l[1..];
    }
  }

  lemma {:induction false} KeptTwice(l: seq<int>, X: set<int>, Y: set<int>)
    requires Y <= X
    ensures Kept(Kept(l, X), Y) == Kept(l, Y)
  {
    if l != [] {
      var rest := Kept(l[1..], X);
      KeptTwice(l[1..], X, Y);
      assert ([l[0]] + rest)[1..] == rest && [] + rest == rest && [] + Kept(rest, Y) == Kept(rest, Y);
    }
  }

  lemma {:induction false} KeptDrop(l: seq<int>, k: int, Y: set<int>)
    requires 0 <= k < |l| && l[k] !in Y && forall i | 0 <= i < |l| && i != k :: l[i] in Y
    ensures Kept(l, Y) == Drop(l, k)
    decreases k
  {
    assert l == [l[0]] + l[1..];
    if k == 0 {
      assert Drop(l, k) == l[1..] && [] + l[1..] == l[1..];
      KeptSame(l[1..], Y);
    } else {
      assert Drop(l, k) == [l[0]] + Drop(l[1..], k - 1);
      KeptDrop(l[1..], k - 1, Y);
      assert Kept(l, Y) == [l[0]] + Kept(l[1..], Y);
    }
  }

  lemma FreeListed(m: Store, v: View, total: int, skip: int)
    requires Shape(m, v, total, skip, NULL)
    ensures forall i | 0 <= i < |v.fl| :: v.fl[i] in FreeStarts(v.ts)
    ensures forall x | x in FreeStarts(v.ts) :: x in v.fl
  {
    CoverBounds(v.ts, 0, total);
    forall i | 0 <= i < |v.fl|
      ensures v.fl[i] in FreeStarts(v.ts)
    {
      var x := v.fl[i];
      assert x in v.fl;
      assert Starts(v.ts, x, true);
    }
  }

  lemma AllKept(m: Store, v: View, total: int)
    requires Shape(m, v, total, NULL, NULL)
    ensures v.fl == Kept(v.fl, FreeStarts(v.ts))
  {
    FreeListed(m, v, total, NULL);
    KeptSame(v.fl, FreeStarts(v.ts));
  }

  lemma DropKept(m: Store, v: View, m': Store, v': View, total: int, k: int, skip: int, skip': int)
    requires Shape(m, v, total, skip, NULL) && Shape(m', v', total, skip', NULL)
    requires 0 <= k < |v.fl| && v'.fl == Drop(v.fl, k)
    ensures v'.fl == Kept(v.fl, FreeStarts(v'.ts)) && FreeStarts(v'.ts) <= FreeStarts(v.ts)
  {
    FreeListed(m, v, total, skip);
    FreeListed(m', v', total, skip');
    hide Cover, Described, Footed, Linked, Lists, FreeStarts;
    assert v.fl[k] !in Drop(v.fl, k);
    forall i | 0 <= i < |v.fl| && i != k
      ensures v.fl[i] in FreeStarts(v'.ts)
    {
      assert v.fl[i] == Drop(v.fl, k)[if i < k then i else i - 1];
    }
    KeptDrop(v.fl, k, FreeStarts(v'.ts));
  }

  // ---------------------------------------------------------------- what the methods use

  /// The chunks that take the place of a free chunk.
  ghost function Taken(t: Tile, need: int): seq<Tile> {
    if t.size - need > OVERHEAD then [First(t, need), Rest(t, need)] else [t.(free := false)]
  }

  lemma ClearShape(h: Headers, foot: map<int, int>, size: int)
    requires size > OVERHEAD && 0 in h && h[0] == Chunk(size, NULL, NULL, true)
    ensures Shape(Store(h, foot, 0, NULL), View([Tile(0, size, true)], [0], []), size, NULL, NULL)
  {
    var t := Tile(0, size, true);
    FreshShape(size);
    assert LinkAt(h, [0], 0);
    assert DescAt(h, t);
    assert t.End() == size;
  }

  lemma NoneFree(h: Headers, v: View, total: int, need: int, head: int, k: int)
    requires Cover(v.ts, 0, total) && Described(h, v.ts) && Linked(h, head, v.fl) && Lists(v.ts, v.fl, true, NULL)
    requires 0 <= k <= |v.fl| && At(v.fl, k) == NULL && forall i | 0 <= i < k :: v.fl[i] in h && h[v.fl[i]].size < need
    ensures forall t | t in v.ts && t.free :: t.size < need
  {
    CoverBounds(v.ts, 0, total);
    if k < |v.fl| {
      LinkedAt(h, head, v.fl, k);
      assert false;
    }
    forall t | t in v.ts && t.free
      ensures t.size < need
    {
      assert t.start in v.fl && DescAt(h, t);
    }
  }

  lemma TileAt(h: Headers, v: View, total: int, k: int, head: int) returns (a: seq<Tile>, t: Tile, b: seq<Tile>)
    requires Described(h, v.ts) && Lists(v.ts, v.fl, true, NULL) && 0 <= k < |v.fl|
    ensures v.ts == a + [t] + b && t.free && t.start == v.fl[k] && DescAt(h, t) && t in v.ts
  {
    assert v.fl[k] in v.fl;
    assert Starts(v.ts, v.fl[k], true);
    t :| t in v.ts && t.start == v.fl[k] && t.free;
    var i :| 0 <= i < |v.ts| && v.ts[i] == t;
    a, b := CutAt(v.ts, i);
  }

  lemma UsedAt(h: Headers, v: View, total: int, x: int) returns (a: seq<Tile>, t: Tile, b: seq<Tile>, k: int)
    requires Cover(v.ts, 0, total) && Described(h, v.ts) && Lists(v.ts, v.al, false, NULL) && Starts(v.ts, x, false)
    ensures v.ts == a + [t] + b && !t.free && t.start == x && 0 <= k < |v.al| && v.al[k] == x
  {
    CoverBounds(v.ts, 0, total);
    t :| t in v.ts && t.start == x && !t.free;
    var i :| 0 <= i < |v.ts| && v.ts[i] == t;
    a, b := CutAt(v.ts, i);
    k :| 0 <= k < |v.al| && v.al[k] == x;
  }

  lemma EarlierSmaller(h: Headers, v: View, k: int, need: int)
    requires Described(h, v.ts) && 0 <= k <= |v.fl|
    requires forall i | 0 <= i < k :: v.fl[i] in h && h[v.fl[i]].size < need
    ensures forall u | u in v.ts && u.start in v.fl[..k] :: u.size < need
  {
    forall u | u in v.ts && u.start in v.fl[..k]
      ensures u.size < need
    {
      var i :| 0 <= i < k && v.fl[..k][i] == u.start;
      assert v.fl[i] == u.start && DescAt(h, u);
    }
  }

  lemma SplitApart(m: Store, v: View, total: int, a: seq<Tile>, t: Tile, b: seq<Tile>, k: int, need: int)
    requires Shape(m, v, total, NULL, NULL) && Splits(v.ts, total, a, t, b, need) && 0 <= k < |v.fl| && v.fl[k] == t.start
    ensures var x := t.start; var y := x + need;
            x in m.h && x != y && m.h[x].size == t.size && m.h[x].prev != x && m.h[x].prev != y && m.h[x].next != x && m.h[x].next != y &&
            (m.h[x].prev != NULL ==> m.h[x].prev in m.h) && (m.h[x].next != NULL ==> m.h[x].next in m.h && m.h[x].next != m.h[x].prev)
  {
    hide Cover, Footed;
    SplitCover(v.ts, total, a, t, b, need);
    SplitTile(v.ts, total, a, t, b, need, m.h);
    NotListed(v.ts, v.fl, t.start + need);
    hide Lists, Described, Splits;
    LinkedAt(m.h, m.freeList, v.fl, k);
    if k > 0 {
      LinkedAt(m.h, m.freeList, v.fl, k - 1);
      Distinct(v.fl, k - 1, k);
      assert v.fl[k - 1] in v.fl;
    }
    if k + 1 < |v.fl| {
      LinkedAt(m.h, m.freeList, v.fl, k + 1);
      Distinct(v.fl, k, k + 1);
      assert v.fl[k + 1] in v.fl;
    }
    if 0 < k < |v.fl| - 1 { Distinct(v.fl, k - 1, k + 1); }
  }

  /// The stores of the split, one by one.
  lemma SplitSteps(h0: Headers, x: int, y: int, need: int)
    requires x in h0 && x != y && h0[x].prev != x && h0[x].prev != y && h0[x].next != x && h0[x].next != y
    requires (h0[x].prev != NULL ==> h0[x].prev in h0) && (h0[x].next != NULL ==> h0[x].next in h0 && h0[x].next != h0[x].prev)
    ensures var h1 := h0[y := h0[x]];
            var h2 := h1[y := h1[y].(size := h1[y].size - need)];
            var h3 := if h2[y].prev == NULL then h2 else SetNext(h2, h2[y].prev, y);
            y in h3 &&
            var h4 := if h3[y].next != NULL then SetPrev(h3, h3[y].next, y) else h3;
            x in h4 &&
            var h5 := h4[x := h4[x].(free := false)];
            h5[x := h5[x].(size := need)] == SplitHeaders(h0, x, y, need)
  {
  }

  lemma InsertSize(h: Headers, head: int, x: int)
    requires x in h
    ensures var (h1, head1) := InsertFront(h, head, x); x in h1 && h1[x].size == h[x].size
  {
  }

  lemma HeadApart(m: Store, v: View, total: int, u: Tile)
    requires Shape(m, v, total, NULL, u.start) && u in v.ts && u.free
    ensures m.freeList != u.start
  {
    CoverBounds(v.ts, 0, total);
    if v.fl != [] {
      assert v.fl[0] in v.fl;
    }
  }

  /// The headers and footers next to the tile s.
  lemma Neighbours(m: Store, v: View, total: int, a: seq<Tile>, s: Tile, r: seq<Tile>)
    requires Cover(v.ts, 0, total) && Described(m.h, v.ts) && v.ts == a + [s] + r
    ensures DescAt(m.h, s) && s.start >= 0 && (a == [] ==> s.start == 0) && (a != [] ==> s.start > OVERHEAD)
    ensures a != [] ==> DescAt(m.h, a[|a| - 1]) && a[|a| - 1].start != s.start
    ensures a != [] && Footed(m.foot, v.ts, total, NULL) ==> FootAt(m.foot, a[|a| - 1]) && a[|a| - 1].End() == s.start
    ensures if s.End() < total then r != [] && r[0].start == s.End() && DescAt(m.h, r[0]) else r == []
  {
    CoverBounds(v.ts, 0, total);
    CoverAround(a, s, r, 0, total);
    assert s in v.ts;
    CoverBounds(a, 0, s.start);
    CoverBounds(r, s.End(), total);
    if a != [] {
      var k := |a| - 1;
      assert a[k] in v.ts;
      assert a == a[..k] + [a[k]] + [];
      CoverAround(a[..k], a[k], [], 0, s.start);
    }
    if r != [] {
      assert r[0] in v.ts;
    }
  }

  lemma StepLeft(a: seq<Tile>, s: Tile, r: seq<Tile>)
    requires a != [] && a[|a| - 1].free && s.free && NoFreePair(a) && Settled(r)
    ensures var k := |a| - 1; a + [s] + r == a[..k] + [a[k]] + ([s] + r) && NoFreePair(a[..k]) && Settled([s] + r) && Used(a[..k]) + Used([s] + r) == Used(a) + Used(r)
  {
    hide NoFreePair, Settled, Used;
    var k := |a| - 1;
    assert a == a[..k] + [a[k]];
    StepPairs(a[..k], a[k]);
    SettledFront(s, r);
    UsedBack(a[..k], a[k]);
    UsedFront(s, r);
  }

  lemma StepPairs(a: seq<Tile>, t: Tile)
    requires NoFreePair(a + [t])
    ensures NoFreePair(a)
  {
    hide NoFreePair;
    assert a + [t] == a + [t] + [];
    PairsAround(a, t, []);
  }

  lemma SettledFront(s: Tile, r: seq<Tile>)
    requires s.free && Settled(r)
    ensures Settled([s] + r)
  {
    assert ([s] + r)[1..] == r;
  }

  lemma UsedFront(s: Tile, r: seq<Tile>)
    requires s.free
    ensures Used([s] + r) == Used(r)
  {
    assert ([s] + r)[1..] == r;
  }

  lemma UsedBack(a: seq<Tile>, t: Tile)
    requires t.free
    ensures Used(a + [t]) == Used(a)
  {
    UsedConcat(a, [t]);
    assert [t][1..] == [];
    assert Used([t]) == [];
  }

  lemma SettledTail(r: seq<Tile>)
    requires Settled(r) && r != [] && r[0].free
    ensures Settled(r[1..])
  {
  }

  lemma FreeUsed(a: seq<Tile>, s: Tile, r: seq<Tile>)
    requires s.free
    ensures Used(a + [s] + r) == Used(a) + Used(r)
  {
    UsedConcat(a, [s] + r);
    assert a + ([s] + r) == a + [s] + r && ([s] + r)[1..] == r;
  }

  /// An allocation leaves no two free chunks side by side, and takes the first part's bytes.
  lemma TakenOk(a: seq<Tile>, t: Tile, b: seq<Tile>, need: int)
    requires NoFreePair(a + [t] + b) && t.free
    ensures var m := Taken(t, need); var u := m[0];
            NoFreePair(a + m + b) && !u.free && u.start == t.start &&
            a + m + b == a + [u] + (if t.size - need > OVERHEAD then [Rest(t, need)] + b else b) &&
            UsedBytes(a + m + b) == UsedBytes(a + [t] + b) + u.size && ProgramBytes(a + m + b) == ProgramBytes(a + [t] + b) + u.size - OVERHEAD
  {
    var m := Taken(t, need);
    var u := m[0];
    PairsAround(a, t, b);
    BytesAround(a, [t], b);
    BytesAround(a, m, b);
    BytesOfOne(t);
    BytesOfOne(u);
    if t.size - need > OVERHEAD {
      var w := Rest(t, need);
      BytesOfOne(w);
      BytesOfTwo(u, w);
      PairsAround([], w, b);
      assert [] + [w] + b == [w] + b;
      PairsAround(a, u, [w] + b);
      assert a + m + b == a + [u] + ([w] + b);
    } else {
      PairsAround(a, u, b);
    }
  }

  lemma EndSettled(r: seq<Tile>)
    requires Settled(r) && !StartsFree(r)
    ensures NoFreePair(r)
  {
  }

  lemma ListedAt(v: View, total: int, a: seq<Tile>, s: Tile, t: Tile, b: seq<Tile>) returns (k: int)
    requires Cover(v.ts, 0, total) && Lists(v.ts, v.fl, true, NULL) && v.ts == a + [s, t] + b && t.free
    ensures 0 <= k < |v.fl| && v.fl[k] == t.start
  {
    CoverBounds(v.ts, 0, total);
    assert t in v.ts by { assert v.ts[|a| + 1] == t; }
    k :| 0 <= k < |v.fl| && v.fl[k] == t.start;
  }

  lemma JoinSizes(h: Headers, head: int, v: View, total: int, a: seq<Tile>, s: Tile, t: Tile, b: seq<Tile>, k: int)
    requires Joins(v.ts, total, a, s, t, b) && Described(h, v.ts) && Linked(h, head, v.fl) && NoDup(v.fl) && 0 <= k < |v.fl| && v.fl[k] == t.start
    ensures t.start in h
    ensures var (h1, head1) := Delete(h, head, t.start);
            s.start in h1 && t.start in h1 && h1[s.start].size == s.size && h1[t.start].size == t.size && s.start != t.start
  {
    JoinCover(v.ts, total, a, s, t, b);
    assert DescAt(h, s) && DescAt(h, t);
    DeleteLinked(h, head, v.fl, k);
  }

  lemma JoinBytes(a: seq<Tile>, s: Tile, t: Tile, b: seq<Tile>)
    requires s.free && t.free
    ensures UsedBytes(a + [Joined(s, t)] + b) == UsedBytes(a + [s] + ([t] + b))
    ensures ProgramBytes(a + [Joined(s, t)] + b) == ProgramBytes(a + [s] + ([t] + b))
    ensures Used([t] + b) == Used(b)
  {
    BytesAround(a, [Joined(s, t)], b);
    BytesAround(a, [s], [t] + b);
    BytesConcat([t], b);
    BytesOfOne(Joined(s, t));
    BytesOfOne(s);
    BytesOfOne(t);
    assert ([t] + b)[1..] == b;
  }
}
