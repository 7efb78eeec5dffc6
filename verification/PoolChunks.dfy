/// The chunks of the boundary-tag allocator: the two doubly linked lists through
/// the chunk headers, and the tiling of the block. Offsets stand for addresses.
module PoolChunks {
  import opened Basics

  /// `struct _mp_chunk`; NULL is -1.
  datatype Chunk = Chunk(size: int, prev: int, next: int, free: bool)

  const NULL: int := -1

  /// sizeof(struct _mp_chunk), sizeof(struct _mp_chunk*) and their sum.
  const HEADER: int := 32
  const FOOTER: int := 8
  const OVERHEAD: int := 40

  type Headers = map<int, Chunk>

  // ---------------------------------------------------------------- the linked lists

  ghost function At(l: seq<int>, i: int): int { if 0 <= i < |l| then l[i] else NULL }

  /// The headers link exactly the chunks of l, in this order, both ways.
  ghost predicate Linked(h: Headers, head: int, l: seq<int>) {
    head == At(l, 0) && forall i | 0 <= i < |l| :: LinkAt(h, l, i)
  }

  ghost predicate LinkAt(h: Headers, l: seq<int>, i: int)
    requires 0 <= i < |l|
  {
    l[i] in h && l[i] != NULL && h[l[i]].prev == At(l, i - 1) && h[l[i]].next == At(l, i + 1)
  }

  /// Sizes and flags have not changed.
  ghost predicate SameBody(h: Headers, h': Headers) {
    h'.Keys == h.Keys && forall x | x in h :: h'[x].size == h[x].size && h'[x].free == h[x].free
  }

  /// Chunks outside l have not changed.
  ghost predicate Elsewhere(h: Headers, h': Headers, l: seq<int>) {
    forall x | x in h && x !in l :: x in h' && h'[x] == h[x]
  }

  function SetPrev(h: Headers, x: int, p: int): Headers { if x in h then h[x := h[x].(prev := p)] else h }

  function SetNext(h: Headers, x: int, p: int): Headers { if x in h then h[x := h[x].(next := p)] else h }

  /// MP_DLINKLIST_INS_FRT.
  function InsertFront(h: Headers, head: int, x: int): (Headers, int)
    requires x in h
  {
    var h1 := h[x := h[x].(prev := NULL, next := head)];
    (if head != NULL then SetPrev(h1, head, x) else h1, x)
  }

  /// MP_DLINKLIST_DEL.
  function Delete(h: Headers, head: int, x: int): (Headers, int)
    requires x in h
  {
    var p, n := h[x].prev, h[x].next;
    if p == NULL then (if n != NULL then SetPrev(h, n, NULL) else h, n)
    else (var h1 := SetNext(h, p, n); if n != NULL then SetPrev(h1, n, p) else h1, head)
  }

  ghost function Drop(l: seq<int>, i: int): seq<int>
    requires 0 <= i < |l|
  {
    l[..i] + l[i + 1..]
  }

  lemma InsertLinked(h: Headers, head: int, l: seq<int>, x: int)
    requires Linked(h, head, l) && NoDup(l) && x in h && x !in l && x != NULL
    ensures var (h', head') := InsertFront(h, head, x);
            Linked(h', head', [x] + l) && NoDup([x] + l) && SameBody(h, h') && Elsewhere(h, h', [x] + l)
  {
    var (h', head') := InsertFront(h, head, x);
    var r := [x] + l;
    forall i | 0 <= i < |r|
      ensures LinkAt(h', r, i)
    {
      if i > 0 {
        assert LinkAt(h, l, i - 1);
        assert r[i] == l[i - 1] && l[i - 1] in l;
        assert i > 1 ==> l[i - 1] != l[0];
      }
    }
  }

  lemma Distinct(l: seq<int>, i: int, j: int)
    requires NoDup(l) && 0 <= i < |l| && 0 <= j < |l| && i != j
    ensures l[i] != l[j]
  {
    assert i < j || j < i;
  }

  lemma LinkedAt(h: Headers, head: int, l: seq<int>, i: int)
    requires Linked(h, head, l) && 0 <= i < |l|
    ensures l[i] in h && l[i] != NULL && h[l[i]].prev == At(l, i - 1) && h[l[i]].next == At(l, i + 1)
  {
    assert LinkAt(h, l, i);
  }

  /// The neighbours of l[k] point past it.
  ghost predicate Bypassed(h: Headers, h': Headers, l: seq<int>, k: int) {
    0 <= k < |l| && h'.Keys == h.Keys &&
    (k > 0 ==> l[k - 1] in h && h'[l[k - 1]] == h[l[k - 1]].(next := At(l, k + 1))) &&
    (k + 1 < |l| ==> l[k + 1] in h && h'[l[k + 1]] == h[l[k + 1]].(prev := At(l, k - 1))) &&
    forall x | x in h && x != At(l, k - 1) && x != At(l, k + 1) :: h'[x] == h[x]
  }

  lemma DeleteBypasses(h: Headers, head: int, l: seq<int>, k: int)
    requires Linked(h, head, l) && NoDup(l) && 0 <= k < |l|
    ensures l[k] in h
    ensures var (h', head') := Delete(h, head, l[k]); Bypassed(h, h', l, k) && head' == if k == 0 then At(l, 1) else head
  {
    LinkedAt(h, head, l, k);
    if k > 0 { LinkedAt(h, head, l, k - 1); }
    if k + 1 < |l| { LinkedAt(h, head, l, k + 1); }
    if 0 < k < |l| - 1 { Distinct(l, k - 1, k + 1); }
    hide Linked, NoDup;
  }

  lemma BypassedAt(h: Headers, h': Headers, head: int, l: seq<int>, k: int, j: int)
    requires Linked(h, head, l) && NoDup(l) && Bypassed(h, h', l, k) && 0 <= j < |l| && j != k
    ensures l[j] in h' && l[j] != NULL
    ensures h'[l[j]].next == (if j == k - 1 then At(l, k + 1) else At(l, j + 1))
    ensures h'[l[j]].prev == if j == k + 1 then At(l, k - 1) else At(l, j - 1)
  {
    LinkedAt(h, head, l, j);
    if k > 0 && j != k - 1 { Distinct(l, j, k - 1); }
    if k + 1 < |l| && j != k + 1 { Distinct(l, j, k + 1); }
    hide Linked, NoDup;
  }

  lemma DeleteLinked(h: Headers, head: int, l: seq<int>, k: int)
    requires Linked(h, head, l) && NoDup(l) && 0 <= k < |l|
    ensures l[k] in h
    ensures var (h', head') := Delete(h, head, l[k]);
            Linked(h', head', Drop(l, k)) && NoDup(Drop(l, k)) && SameBody(h, h') && Elsewhere(h, h', l)
  {
    DeleteBypasses(h, head, l, k);
    var (h', head') := Delete(h, head, l[k]);
    var r := Drop(l, k);
    forall i | 0 <= i < |r|
      ensures LinkAt(h', r, i)
    {
      BypassedAt(h, h', head, l, k, if i < k then i else i + 1);
    }
    DropNoDup(l, k);
    hide NoDup, Delete;
    assert k > 0 ==> l[k - 1] in l;
    assert k + 1 < |l| ==> l[k + 1] in l;
  }

  lemma DropNoDup(l: seq<int>, k: int)
    requires NoDup(l) && 0 <= k < |l|
    ensures NoDup(Drop(l, k)) && l[k] !in Drop(l, k)
    ensures forall x | x in l && x != l[k] :: x in Drop(l, k)
    ensures forall x | x in Drop(l, k) :: x in l
  {
    var r := Drop(l, k);
    assert forall i | 0 <= i < |r| :: r[i] == l[if i < k then i else i + 1];
    forall x | x in l && x != l[k]
      ensures x in r
    {
      var i :| 0 <= i < |l| && l[i] == x;
      assert r[if i < k then i else i - 1] == x;
    }
  }

  /// Before the split of l[k] the links of y are those of l[k]; its neighbours are made to point to y.
  ghost predicate Swapped(h: Headers, h': Headers, l: seq<int>, k: int, y: int) {
    0 <= k < |l| && l[k] in h && y in h' && h'[y].prev == h[l[k]].prev && h'[y].next == h[l[k]].next &&
    (k > 0 ==> l[k - 1] in h && l[k - 1] in h' && h'[l[k - 1]] == h[l[k - 1]].(next := y)) &&
    (k + 1 < |l| ==> l[k + 1] in h && l[k + 1] in h' && h'[l[k + 1]] == h[l[k + 1]].(prev := y)) &&
    forall x | x in h && x != l[k] && x != y && x != At(l, k - 1) && x != At(l, k + 1) :: x in h' && h'[x] == h[x]
  }

  lemma SwappedAt(h: Headers, h': Headers, head: int, l: seq<int>, k: int, y: int, j: int)
    requires Linked(h, head, l) && NoDup(l) && Swapped(h, h', l, k, y) && y !in l && 0 <= j < |l| && j != k
    ensures l[j] in h' && l[j] != NULL
    ensures h'[l[j]].next == (if j == k - 1 then y else At(l, j + 1))
    ensures h'[l[j]].prev == if j == k + 1 then y else At(l, j - 1)
  {
    LinkedAt(h, head, l, j);
    Distinct(l, j, k);
    assert l[j] in l;
    if k > 0 && j != k - 1 { Distinct(l, j, k - 1); }
    if k + 1 < |l| && j != k + 1 { Distinct(l, j, k + 1); }
    hide Linked, NoDup;
  }

  /// The split: y takes the place of l[k] in the list.
  lemma ReplaceLinked(h: Headers, h': Headers, head: int, head': int, l: seq<int>, k: int, y: int)
    requires Linked(h, head, l) && NoDup(l) && Swapped(h, h', l, k, y) && y !in l && y != NULL
    requires head' == if k == 0 then y else head
    ensures Linked(h', head', l[k := y]) && NoDup(l[k := y])
  {
    var r := l[k := y];
    LinkedAt(h, head, l, k);
    forall i | 0 <= i < |r|
      ensures LinkAt(h', r, i)
    {
      if i != k {
        SwappedAt(h, h', head, l, k, y, i);
      }
    }
    assert forall i | 0 <= i < |l| :: l[i] in l;
    hide Linked, Swapped;
  }

  /// A list none of whose chunks changed its links.
  lemma LinkedFrame(h: Headers, h': Headers, head: int, l: seq<int>)
    requires Linked(h, head, l) && forall x | x in l && x in h :: x in h' && h'[x].prev == h[x].prev && h'[x].next == h[x].next
    ensures Linked(h', head, l)
  {
    forall i | 0 <= i < |l|
      ensures LinkAt(h', l, i)
    {
      assert LinkAt(h, l, i) && l[i] in l;
    }
  }

  // ---------------------------------------------------------------- the tiling

  /// A chunk as part of the block.
  datatype Tile = Tile(start: int, size: int, free: bool) {
    ghost function End(): int { start + size }
  }

  /// The tiles cover the offsets from..to without gap or overlap.
  ghost predicate Cover(ts: seq<Tile>, from: int, to: int) {
    if ts == [] then from == to else ts[0].start == from && ts[0].size > OVERHEAD && Cover(ts[1..], ts[0].End(), to)
  }

  lemma {:induction false} CoverJoin(a: seq<Tile>, b: seq<Tile>, from: int, mid: int, to: int)
    requires Cover(a, from, mid) && Cover(b, mid, to)
    ensures Cover(a + b, from, to)
    decreases |a|
  {
    if a == [] {
      assert a + b == b;
    } else {
      CoverJoin(a[1..], b, a[0].End(), mid, to);
      assert (a + b)[1..] == a[1..] + b;
    }
  }

  lemma {:induction false} CoverCut(a: seq<Tile>, b: seq<Tile>, from: int, to: int) returns (mid: int)
    requires Cover(a + b, from, to)
    ensures Cover(a, from, mid) && Cover(b, mid, to)
    decreases |a|
  {
    if a == [] {
      assert a + b == b;
      mid := from;
    } else {
      assert (a + b)[1..] == a[1..] + b;
      mid := CoverCut(a[1..], b, a[0].End(), to);
    }
  }

  /// All tiles lie between the ends.
  lemma {:induction false} CoverBounds(ts: seq<Tile>, from: int, to: int)
    requires Cover(ts, from, to)
    ensures from <= to && (ts == [] <==> from == to)
    ensures forall t | t in ts :: from <= t.start && t.End() <= to && t.size > OVERHEAD && (t.start == from || t.start > from + OVERHEAD)
    decreases |ts|
  {
    if ts != [] {
      CoverBounds(ts[1..], ts[0].End(), to);
      assert forall t | t in ts :: t == ts[0] || t in ts[1..];
    }
  }

  /// Around one tile.
  lemma CoverAround(a: seq<Tile>, t: Tile, b: seq<Tile>, from: int, to: int)
    requires Cover(a + [t] + b, from, to)
    ensures Cover(a, from, t.start) && Cover(b, t.End(), to) && t.size > OVERHEAD
    ensures forall u | u in a :: u.End() <= t.start && u.size > OVERHEAD
    ensures forall u | u in b :: t.End() <= u.start && u.size > OVERHEAD
  {
    assert a + [t] + b == a + ([t] + b);
    var mid := CoverCut(a, [t] + b, from, to);
    assert ([t] + b)[1..] == b;
    CoverBounds(a, from, mid);
    CoverBounds(b, t.End(), to);
  }

  lemma CoverWith(a: seq<Tile>, m: seq<Tile>, b: seq<Tile>, from: int, x: int, y: int, to: int)
    requires Cover(a, from, x) && Cover(m, x, y) && Cover(b, y, to)
    ensures Cover(a + m + b, from, to)
  {
    CoverJoin(a, m, from, x, y);
    CoverJoin(a + m, b, from, y, to);
  }

  lemma CoverOne(t: Tile)
    requires t.size > OVERHEAD
    ensures Cover([t], t.start, t.End())
  {
    assert [t][1..] == [];
  }

  lemma CoverTwo(t: Tile, u: Tile)
    requires t.size > OVERHEAD && u.size > OVERHEAD && t.End() == u.start
    ensures Cover([t, u], t.start, u.End())
  {
    assert [t, u][1..] == [u] && [u][1..] == [];
  }

  /// The tile at a place, and what lies before and behind it.
  lemma CutAt(ts: seq<Tile>, i: nat) returns (a: seq<Tile>, b: seq<Tile>)
    requires i < |ts|
    ensures a == ts[..i] && b == ts[i + 1..] && ts == a + [ts[i]] + b
  {
    a, b := ts[..i], ts[i + 1..];
  }

  /// Tiles do not overlap, and no two start at the same place.
  lemma TilesDiffer(ts: seq<Tile>, from: int, to: int, t: Tile, u: Tile)
    requires Cover(ts, from, to) && t in ts && u in ts && t != u
    ensures t.End() <= u.start || u.End() <= t.start
  {
    var i :| 0 <= i < |ts| && ts[i] == t;
    var a, b := CutAt(ts, i);
    CoverAround(a, t, b, from, to);
    assert u in a || u in b;
  }

  ghost predicate FreePair(ts: seq<Tile>, i: int)
    requires 0 <= i < |ts| - 1
  {
    ts[i].free && ts[i + 1].free
  }

  ghost predicate NoFreePair(ts: seq<Tile>) {
    forall i | 0 <= i < |ts| - 1 :: !FreePair(ts, i)
  }

  ghost predicate StartsFree(ts: seq<Tile>) { ts != [] && ts[0].free }

  ghost predicate EndsFree(ts: seq<Tile>) { ts != [] && ts[|ts| - 1].free }

  lemma PairsAround(a: seq<Tile>, t: Tile, b: seq<Tile>)
    ensures NoFreePair(a + [t] + b) <==> NoFreePair(a) && NoFreePair(b) && (t.free ==> !EndsFree(a) && !StartsFree(b))
  {
    var ts, n := a + [t] + b, |a|;
    assert forall i | 0 <= i < n - 1 :: FreePair(ts, i) == FreePair(a, i);
    assert forall i | 0 <= i < |b| - 1 :: FreePair(ts, n + 1 + i) == FreePair(b, i);
    if n > 0 {
      assert FreePair(ts, n - 1) == (EndsFree(a) && t.free);
    }
    if |b| > 0 {
      assert FreePair(ts, n) == (t.free && StartsFree(b));
    }
    if NoFreePair(a) && NoFreePair(b) && (t.free ==> !EndsFree(a) && !StartsFree(b)) {
      forall i | 0 <= i < |ts| - 1
        ensures !FreePair(ts, i)
      {
        if i > n {
          assert FreePair(ts, n + 1 + (i - n - 1)) == FreePair(b, i - n - 1);
        }
      }
    }
    if NoFreePair(ts) {
      forall i | 0 <= i < |b| - 1
        ensures !FreePair(b, i)
      {
        assert FreePair(ts, n + 1 + i) == FreePair(b, i);
      }
    }
  }

  /// The header at the tile's start describes it.
  ghost predicate DescAt(h: Headers, t: Tile) {
    t.start in h && h[t.start].size == t.size && h[t.start].free == t.free
  }

  ghost predicate Described(h: Headers, ts: seq<Tile>) { forall t | t in ts :: DescAt(h, t) }

  /// The last bytes of the tile point to its start.
  ghost predicate FootAt(foot: map<int, int>, t: Tile) {
    t.End() - FOOTER in foot && foot[t.End() - FOOTER] == t.start
  }

  /// Every tile has a footer, but for the last one and perhaps the one that starts at skip.
  ghost predicate Footed(foot: map<int, int>, ts: seq<Tile>, total: int, skip: int) {
    forall t | t in ts && t.End() < total && t.start != skip :: FootAt(foot, t)
  }

  ghost predicate Starts(ts: seq<Tile>, x: int, free: bool) { exists t :: t in ts && t.start == x && t.free == free }

  /// The list l has exactly the tiles whose flag is free, but for the one that starts at out.
  ghost predicate Lists(ts: seq<Tile>, l: seq<int>, free: bool, out: int) {
    (forall t | t in ts && t.free == free && t.start != out :: t.start in l) &&
    forall x | x in l :: x != out && Starts(ts, x, free)
  }

  /// The bytes taken by allocated chunks, and those the program may use.
  ghost function UsedBytes(ts: seq<Tile>): int {
    if ts == [] then 0 else (if ts[0].free then 0 else ts[0].size) + UsedBytes(ts[1..])
  }

  ghost function ProgramBytes(ts: seq<Tile>): int {
    if ts == [] then 0 else (if ts[0].free then 0 else ts[0].size - OVERHEAD) + ProgramBytes(ts[1..])
  }

  lemma {:induction false} BytesConcat(a: seq<Tile>, b: seq<Tile>)
    ensures UsedBytes(a + b) == UsedBytes(a) + UsedBytes(b) && ProgramBytes(a + b) == ProgramBytes(a) + ProgramBytes(b)
    decreases |a|
  {
    if a == [] {
      assert a + b == b;
    } else {
      BytesConcat(a[1..], b);
      assert (a + b)[1..] == a[1..] + b;
    }
  }

  lemma BytesAround(a: seq<Tile>, m: seq<Tile>, b: seq<Tile>)
    ensures UsedBytes(a + m + b) == UsedBytes(a) + UsedBytes(m) + UsedBytes(b)
    ensures ProgramBytes(a + m + b) == ProgramBytes(a) + ProgramBytes(m) + ProgramBytes(b)
  {
    BytesConcat(a, m);
    BytesConcat(a + m, b);
  }

  lemma BytesOfOne(t: Tile)
    ensures UsedBytes([t]) == (if t.free then 0 else t.size) && ProgramBytes([t]) == if t.free then 0 else t.size - OVERHEAD
  {
    assert [t][1..] == [];
  }

  lemma BytesOfTwo(t: Tile, u: Tile)
    ensures UsedBytes([t, u]) == UsedBytes([t]) + UsedBytes([u]) && ProgramBytes([t, u]) == ProgramBytes([t]) + ProgramBytes([u])
  {
    assert [t, u] == [t] + [u];
    BytesConcat([t], [u]);
  }

  /// The allocated bytes fit into the block, with room for every free tile.
  lemma {:induction false} UsedFits(ts: seq<Tile>, from: int, to: int)
    requires Cover(ts, from, to)
    ensures UsedBytes(ts) <= to - from && forall t | t in ts && t.free :: t.size <= to - from - UsedBytes(ts)
    decreases |ts|
  {
    if ts != [] {
      UsedFits(ts[1..], ts[0].End(), to);
      assert forall t | t in ts :: t == ts[0] || t in ts[1..];
    }
  }

  lemma FirstPair(ts: seq<Tile>)
    requires |ts| > 1 && forall t | t in ts :: t.free
    ensures !NoFreePair(ts)
  {
    assert ts[0] in ts && ts[1] in ts;
    assert FreePair(ts, 0);
  }

  /// When nothing is allocated, the block is one free chunk.
  lemma AllFree(ts: seq<Tile>, total: int)
    requires Cover(ts, 0, total) && NoFreePair(ts) && ts != [] && forall t | t in ts :: t.free
    ensures ts == [Tile(0, total, true)]
  {
    if |ts| > 1 {
      FirstPair(ts);
      assert false;
    }
    assert ts[0] in ts && ts[1..] == [];
  }

  /// The allocated tiles.
  ghost function Used(ts: seq<Tile>): seq<Tile> {
    if ts == [] then [] else (if ts[0].free then [] else [ts[0]]) + Used(ts[1..])
  }

  lemma {:induction false} UsedConcat(a: seq<Tile>, b: seq<Tile>)
    ensures Used(a + b) == Used(a) + Used(b)
    decreases |a|
  {
    if a == [] {
      assert a + b == b;
    } else {
      UsedConcat(a[1..], b);
      assert (a + b)[0] == a[0] && (a + b)[1..] == a[1..] + b;
      var first := if a[0].free then [] else [a[0]];
      assert first + (Used(a[1..]) + Used(b)) == (first + Used(a[1..])) + Used(b);
    }
  }

  /// The free chunks are exactly the gaps: a tiling without adjacent free tiles
  /// is determined by its allocated tiles.
  lemma {:induction false} GapsOnly(ts: seq<Tile>, us: seq<Tile>, from: int, to: int)
    requires Cover(ts, from, to) && Cover(us, from, to) && NoFreePair(ts) && NoFreePair(us) && Used(ts) == Used(us)
    ensures ts == us
    decreases |ts|
  {
    CoverBounds(ts, from, to);
    CoverBounds(us, from, to);
    if ts != [] {
      PairsTail(ts);
      PairsTail(us);
      GapFirst(ts, us, from, to);
      assert ts == [ts[0]] + ts[1..] && us == [us[0]] + us[1..];
      GapsOnly(ts[1..], us[1..], ts[0].End(), to);
    }
  }

  lemma PairsTail(ts: seq<Tile>)
    requires ts != [] && NoFreePair(ts)
    ensures NoFreePair(ts[1..]) && (ts[0].free ==> !StartsFree(ts[1..]))
  {
    PairsAround([], ts[0], ts[1..]);
    assert ts == [] + [ts[0]] + ts[1..];
  }

  /// The first allocated tile says where the first gap ends.
  lemma GapEnd(ts: seq<Tile>, from: int, to: int)
    requires Cover(ts, from, to) && NoFreePair(ts) && ts != [] && ts[0].free
    ensures if Used(ts) == [] then ts[0].End() == to else ts[0].End() == Used(ts)[0].start && from < Used(ts)[0].start
  {
    PairsTail(ts);
    CoverBounds(ts, from, to);
    if |ts| > 1 {
      assert ts[1..][0] == ts[1] && !ts[1].free;
      assert Used(ts[1..]) == [ts[1]] + Used(ts[1..][1..]);
    } else {
      assert ts[1..] == [];
    }
  }

  lemma GapFirst(ts: seq<Tile>, us: seq<Tile>, from: int, to: int)
    requires Cover(ts, from, to) && Cover(us, from, to) && NoFreePair(ts) && NoFreePair(us) && Used(ts) == Used(us)
    requires ts != [] && us != []
    ensures ts[0] == us[0] && Used(ts[1..]) == Used(us[1..])
  {
    if ts[0].free {
      GapEnd(ts, from, to);
    }
    if us[0].free {
      GapEnd(us, from, to);
    }
    UsedFirst(ts);
    UsedFirst(us);
  }

  lemma UsedFirst(ts: seq<Tile>)
    requires ts != []
    ensures if ts[0].free then Used(ts) == Used(ts[1..]) else Used(ts) != [] && Used(ts)[0] == ts[0] && Used(ts)[1..] == Used(ts[1..])
  {
  }
}
