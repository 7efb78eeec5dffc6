/// Robin Hood tables: the ring of buckets, the probe-distance invariant, and
/// what one step of a probe loop keeps.
module HashTable {
  import opened Basics

  datatype Item = Item(key: int, val: int)

  /// `struct bucket` and the item behind it; dib is 0 in an empty bucket, and
  /// otherwise one more than the distance from the item's home bucket.
  datatype Bucket = Bucket(hash: nat, dib: nat, item: Item)

  const EMPTY := Bucket(0, 0, Item(0, 0))

  /// `hash:48`.
  const HASH_LIMIT: nat := 0x1_0000_0000_0000

  function ClipHash(h: nat): nat { h % HASH_LIMIT }

  // ---------------------------------------------------------------- hash & mask

  /// Bitwise and.
  function And(a: nat, b: nat): (r: nat)
    ensures r <= b
  {
    if a == 0 || b == 0 then 0 else (if a % 2 == 1 && b % 2 == 1 then 1 else 0) + 2 * And(a / 2, b / 2)
  }

  lemma HalfMod(a: nat, p: nat)
    requires p >= 1
    ensures a % (2 * p) == a % 2 + 2 * ((a / 2) % p)
  {
    var q, r := (a / 2) / p, (a / 2) % p;
    assert a == (2 * p) * q + (2 * r + a % 2);
    ModUnique(a, 2 * p, q, 2 * r + a % 2);
  }

  lemma SmallMultiple(n: int, x: int, y: int)
    requires n * x == y && -n < y < n
    ensures x == 0
  {
  }

  lemma ModUnique(a: nat, n: nat, q: nat, r: nat)
    requires 0 <= r < n && a == n * q + r
    ensures a % n == r
  {
    var q', r' := a / n, a % n;
    assert a == n * q' + r';
    SmallMultiple(n, q - q', r' - r);
  }

  /// With a power of two of buckets the mask picks the remainder.
  lemma {:induction false} MaskIsMod(a: nat, k: nat)
    ensures And(a, Pow2(k) - 1) == a % Pow2(k)
    decreases k
  {
    if k > 0 {
      var p := Pow2(k - 1);
      HalfMod(a, p);
      MaskIsMod(a / 2, k - 1);
      AndOdd(a, p);
    }
  }

  /// The lowest bit of the mask is set.
  lemma AndOdd(a: nat, p: nat)
    requires p >= 1
    ensures And(a, 2 * p - 1) == a % 2 + 2 * And(a / 2, p - 1)
  {
    assert (2 * p - 1) / 2 == p - 1 && (2 * p - 1) % 2 == 1;
  }

  /// The home bucket: `hash & mask`.
  function Home(h: nat, n: nat): (i: nat)
    requires n > 0
    ensures i < n
  {
    And(h, n - 1)
  }

  // ---------------------------------------------------------------- the ring

  /// `(i + 1) & mask`.
  function Next(i: nat, n: nat): (j: nat)
    requires i < n
    ensures j < n
  {
    if i + 1 == n then 0 else i + 1
  }

  function Prev(i: nat, n: nat): (j: nat)
    requires i < n
    ensures j < n
  {
    if i == 0 then n - 1 else i - 1
  }

  /// Steps from a to b going up.
  function Dist(a: nat, b: nat, n: nat): (d: nat)
    requires a < n && b < n
    ensures d < n && (d == 0 <==> a == b)
  {
    if a <= b then b - a else n - a + b
  }

  // ---------------------------------------------------------------- the invariant

  ghost predicate Homed(b: seq<Bucket>, hash: int -> nat) {
    forall i | 0 <= i < |b| && b[i].dib > 0 ::
      b[i].hash == ClipHash(hash(b[i].item.key)) && b[i].dib == Dist(Home(b[i].hash, |b|), i, |b|) + 1
  }

  /// A bucket that is not at home follows one whose item is at most one step nearer to its own home.
  ghost predicate Robin(b: seq<Bucket>) {
    forall i | 0 <= i < |b| && b[i].dib > 1 :: b[Prev(i, |b|)].dib >= b[i].dib - 1
  }

  ghost predicate KeysDiffer(b: seq<Bucket>) {
    forall i, j | 0 <= i < j < |b| && b[i].dib > 0 && b[j].dib > 0 :: b[i].item.key != b[j].item.key
  }

  ghost predicate At(b: seq<Bucket>, k: int, i: nat) { i < |b| && b[i].dib > 0 && b[i].item.key == k }

  /// The occupied buckets hold exactly the map m.
  ghost predicate Holds(b: seq<Bucket>, m: map<int, int>) {
    (forall i | 0 <= i < |b| && b[i].dib > 0 :: b[i].item.key in m && m[b[i].item.key] == b[i].item.val) &&
    (forall k | k in m :: exists i :: At(b, k, i))
  }

  ghost predicate Table(b: seq<Bucket>, hash: int -> nat, m: map<int, int>) {
    |b| >= 2 && Homed(b, hash) && Robin(b) && KeysDiffer(b) && Holds(b, m)
  }

  /// The number of occupied buckets.
  ghost function Occupied(b: seq<Bucket>): nat {
    if b == [] then 0 else Occupied(b[..|b| - 1]) + if b[|b| - 1].dib > 0 then 1 else 0
  }

  lemma {:induction false} OccupiedUpdate(b: seq<Bucket>, i: nat, x: Bucket)
    requires i < |b|
    ensures Occupied(b[i := x]) == Occupied(b) - (if b[i].dib > 0 then 1 else 0) + if x.dib > 0 then 1 else 0
    decreases |b|
  {
    var k := |b| - 1;
    if i < k {
      OccupiedUpdate(b[..k], i, x);
      assert b[i := x][..k] == b[..k][i := x];
    } else {
      assert b[i := x][..k] == b[..k];
    }
  }

  /// While not every bucket is taken there is an empty one, at which a probe ends.
  lemma {:induction false} EmptyBucket(b: seq<Bucket>) returns (f: nat)
    requires Occupied(b) < |b|
    ensures f < |b| && b[f].dib == 0
    decreases |b|
  {
    var k := |b| - 1;
    if b[k].dib == 0 {
      f := k;
    } else {
      f := EmptyBucket(b[..k]);
    }
  }

  ghost function KeySet(b: seq<Bucket>): set<int> { set i | 0 <= i < |b| && b[i].dib > 0 :: b[i].item.key }

  lemma KeySetStep(b: seq<Bucket>, k: nat)
    requires |b| == k + 1
    ensures KeySet(b) == KeySet(b[..k]) + if b[k].dib > 0 then {b[k].item.key} else {}
  {
    var p := b[..k];
    forall x | x in KeySet(b)
      ensures x in KeySet(p) || (b[k].dib > 0 && x == b[k].item.key)
    {
      var i :| 0 <= i < |b| && b[i].dib > 0 && b[i].item.key == x;
      assert i < k ==> p[i] == b[i];
    }
    forall x | x in KeySet(p)
      ensures x in KeySet(b)
    {
      var i :| 0 <= i < |p| && p[i].dib > 0 && p[i].item.key == x;
      assert b[i] == p[i];
    }
  }

  lemma {:induction false} KeySetSize(b: seq<Bucket>)
    requires KeysDiffer(b)
    ensures |KeySet(b)| == Occupied(b)
    decreases |b|
  {
    if b != [] {
      var k := |b| - 1;
      KeySetSize(b[..k]);
      KeySetStep(b, k);
      assert b[k].dib > 0 ==> b[k].item.key !in KeySet(b[..k]);
    }
  }

  /// The element count is the size of the map.
  lemma CountIsSize(b: seq<Bucket>, m: map<int, int>)
    requires KeysDiffer(b) && Holds(b, m)
    ensures Occupied(b) == |m|
  {
    KeySetSize(b);
    assert KeySet(b) == m.Keys by {
      forall k | k in m
        ensures k in KeySet(b)
      {
        var i :| At(b, k, i);
      }
    }
  }

  // ---------------------------------------------------------------- what the invariant says about a probe

  /// Between an item's home and the item all buckets are taken, with dibs that
  /// fall at most by one per step away from the item.
  lemma {:induction false} Arc(b: seq<Bucket>, j: nat, i: nat)
    requires Robin(b) && j < |b| && i < |b| && Dist(j, i, |b|) < b[i].dib
    ensures b[j].dib >= b[i].dib - Dist(j, i, |b|)
    decreases Dist(j, i, |b|)
  {
    if j != i {
      var n := |b|;
      assert Dist(Next(j, n), i, n) == Dist(j, i, n) - 1;
      Arc(b, Next(j, n), i);
      assert Prev(Next(j, n), n) == j;
    }
  }

  /// A probe for a stored key, on its way from the key's home to the key's
  /// bucket p, meets only buckets with a dib at least that of the probe.
  lemma OnTheWay(b: seq<Bucket>, hash: int -> nat, k: int, p: nat, i: nat)
    requires |b| >= 2 && Homed(b, hash) && Robin(b) && At(b, k, p) && i < |b|
    requires var h := Home(ClipHash(hash(k)), |b|); Dist(h, i, |b|) <= Dist(h, p, |b|)
    ensures b[i].dib >= Dist(Home(ClipHash(hash(k)), |b|), i, |b|) + 1
  {
    var n, h := |b|, Home(ClipHash(hash(k)), |b|);
    assert Dist(i, p, n) == Dist(h, p, n) - Dist(h, i, n);
    Arc(b, i, p);
  }

  /// No empty bucket lies between the home of a stored item and its bucket i.
  lemma NoGap(b: seq<Bucket>, hash: int -> nat, i: nat, f: nat)
    requires |b| >= 2 && Homed(b, hash) && Robin(b) && i < |b| && b[i].dib > 0 && f < |b| && b[f].dib == 0
    ensures var h := Home(b[i].hash, |b|); Dist(h, i, |b|) < Dist(h, f, |b|)
  {
    var n, h := |b|, Home(b[i].hash, |b|);
    if Dist(h, f, n) <= Dist(h, i, n) {
      assert Dist(f, i, n) == Dist(h, i, n) - Dist(h, f, n);
      Arc(b, f, i);
    }
  }

  // ---------------------------------------------------------------- carrying an entry

  /// The entry in hand: it belongs at home, is where its dib says, and may be put down here.
  ghost predicate InHand(b: seq<Bucket>, hash: int -> nat, e: Bucket, i: nat, f: nat) {
    i < |b| && f < |b| && b[f].dib == 0 && e.dib > 0 && e.hash == ClipHash(hash(e.item.key)) &&
    var n := |b|;
    var h := Home(e.hash, n);
    e.dib == Dist(h, i, n) + 1 && Dist(h, i, n) <= Dist(h, f, n) &&
    (e.dib > 1 ==> b[Prev(i, n)].dib >= e.dib - 1)
  }

  /// The table with the entry in hand is the map m.
  ghost predicate HoldsWith(b: seq<Bucket>, e: Item, m: map<int, int>) {
    e.key in m && m[e.key] == e.val &&
    (forall i | 0 <= i < |b| && b[i].dib > 0 :: b[i].item.key in m && m[b[i].item.key] == b[i].item.val && b[i].item.key != e.key) &&
    (forall k | k in m && k != e.key :: exists i :: At(b, k, i))
  }

  ghost predicate Carrying(b: seq<Bucket>, hash: int -> nat, e: Bucket, i: nat, f: nat, m: map<int, int>) {
    |b| >= 2 && Homed(b, hash) && Robin(b) && KeysDiffer(b) && InHand(b, hash, e, i, f) && HoldsWith(b, e.item, m)
  }

  /// Starting to carry an entry whose key is not stored.
  lemma PickUp(b: seq<Bucket>, hash: int -> nat, m: map<int, int>, e: Bucket, f: nat)
    requires Table(b, hash, m) && f < |b| && b[f].dib == 0
    requires e.item.key !in m && e.dib == 1 && e.hash == ClipHash(hash(e.item.key))
    ensures Carrying(b, hash, e, Home(e.hash, |b|), f, m[e.item.key := e.item.val])
  {
  }

  lemma SetHomed(b: seq<Bucket>, hash: int -> nat, i: nat, x: Bucket)
    requires Homed(b, hash) && i < |b|
    requires x.dib > 0 ==> x.hash == ClipHash(hash(x.item.key)) && x.dib == Dist(Home(x.hash, |b|), i, |b|) + 1
    ensures Homed(b[i := x], hash)
  {
  }

  lemma SetRobin(b: seq<Bucket>, i: nat, x: Bucket)
    requires |b| >= 2 && Robin(b) && i < |b|
    requires x.dib > 1 ==> b[Prev(i, |b|)].dib >= x.dib - 1
    requires b[Next(i, |b|)].dib > 1 ==> b[Next(i, |b|)].dib <= x.dib + 1
    ensures Robin(b[i := x])
  {
    var b', n := b[i := x], |b|;
    forall j | 0 <= j < n && b'[j].dib > 1
      ensures b'[Prev(j, n)].dib >= b'[j].dib - 1
    {
      assert Prev(j, n) == i ==> j == Next(i, n);
      assert j != i ==> b[Prev(j, n)].dib >= b[j].dib - 1;
    }
  }

  lemma RobinNext(b: seq<Bucket>, i: nat)
    requires Robin(b) && i < |b|
    ensures b[Next(i, |b|)].dib <= b[i].dib + 1
  {
    assert Prev(Next(i, |b|), |b|) == i;
  }

  lemma PutHolds(b: seq<Bucket>, e: Bucket, i: nat, m: map<int, int>)
    requires KeysDiffer(b) && HoldsWith(b, e.item, m) && i < |b| && b[i].dib == 0 && e.dib > 0
    ensures KeysDiffer(b[i := e]) && Holds(b[i := e], m)
  {
    var b' := b[i := e];
    forall k | k in m
      ensures exists j :: At(b', k, j)
    {
      if k == e.item.key {
        assert At(b', k, i);
      } else {
        var j :| At(b, k, j);
        assert At(b', k, j);
      }
    }
  }

  /// Putting the entry into an empty bucket ends the loop.
  lemma PutDown(b: seq<Bucket>, hash: int -> nat, e: Bucket, i: nat, f: nat, m: map<int, int>)
    requires Carrying(b, hash, e, i, f, m) && b[i].dib == 0
    ensures Table(b[i := e], hash, m) && Occupied(b[i := e]) == Occupied(b) + 1
  {
    var n := |b|;
    OccupiedUpdate(b, i, e);
    PutHolds(b, e, i, m);
    SetHomed(b, hash, i, e);
    RobinNext(b, i);
    SetRobin(b, i, e);
  }

  /// The bucket keeps its item, and the entry is carried on.
  lemma StepOver(b: seq<Bucket>, hash: int -> nat, e: Bucket, i: nat, f: nat, m: map<int, int>)
    requires Carrying(b, hash, e, i, f, m) && b[i].dib >= e.dib
    ensures Carrying(b, hash, e.(dib := e.dib + 1), Next(i, |b|), f, m)
    ensures Dist(Next(i, |b|), f, |b|) == Dist(i, f, |b|) - 1
  {
    hide Homed, Robin, KeysDiffer, HoldsWith, ClipHash;
    assert Prev(Next(i, |b|), |b|) == i;
  }

  /// The entry takes the bucket of an item that is nearer to its home, and that item is carried on.
  lemma SwapOver(b: seq<Bucket>, hash: int -> nat, e: Bucket, i: nat, f: nat, m: map<int, int>)
    requires Carrying(b, hash, e, i, f, m) && 0 < b[i].dib < e.dib
    ensures Carrying(b[i := e], hash, b[i].(dib := b[i].dib + 1), Next(i, |b|), f, m)
    ensures Dist(Next(i, |b|), f, |b|) == Dist(i, f, |b|) - 1 && Occupied(b[i := e]) == Occupied(b)
  {
    var n := |b|;
    OccupiedUpdate(b, i, e);
    NoGap(b, hash, i, f);
    SwapHolds(b, e, i, m);
    SetHomed(b, hash, i, e);
    RobinNext(b, i);
    SetRobin(b, i, e);
    SwapInHand(b, hash, e, i, f);
  }

  lemma SwapInHand(b: seq<Bucket>, hash: int -> nat, e: Bucket, i: nat, f: nat)
    requires |b| >= 2 && Homed(b, hash) && i < |b| && 0 < b[i].dib < e.dib && f < |b| && b[f].dib == 0
    requires Dist(Home(b[i].hash, |b|), i, |b|) < Dist(Home(b[i].hash, |b|), f, |b|)
    ensures InHand(b[i := e], hash, b[i].(dib := b[i].dib + 1), Next(i, |b|), f)
    ensures Dist(Next(i, |b|), f, |b|) == Dist(i, f, |b|) - 1
  {
    assert Prev(Next(i, |b|), |b|) == i;
  }

  lemma SwapHolds(b: seq<Bucket>, e: Bucket, i: nat, m: map<int, int>)
    requires KeysDiffer(b) && HoldsWith(b, e.item, m) && i < |b| && b[i].dib > 0 && e.dib > 0
    ensures KeysDiffer(b[i := e]) && HoldsWith(b[i := e], b[i].item, m)
  {
    var b' := b[i := e];
    forall k | k in m && k != b[i].item.key
      ensures exists j :: At(b', k, j)
    {
      if k == e.item.key {
        assert At(b', k, i);
      } else {
        var j :| At(b, k, j);
        assert At(b', k, j);
      }
    }
  }

  /// A stored key gets a new value in its bucket.
  lemma Overwrite(b: seq<Bucket>, hash: int -> nat, m: map<int, int>, p: nat, v: int)
    requires Table(b, hash, m) && p < |b| && b[p].dib > 0
    ensures var k := b[p].item.key; k in m && Table(b[p := b[p].(item := Item(k, v))], hash, m[k := v])
    ensures Occupied(b[p := b[p].(item := Item(b[p].item.key, v))]) == Occupied(b)
  {
    var x := b[p].(item := Item(b[p].item.key, v));
    OccupiedUpdate(b, p, x);
    SetHomed(b, hash, p, x);
    RobinNext(b, p);
    SetRobin(b, p, x);
    OverwriteHolds(b, m, p, v);
  }

  lemma OverwriteHolds(b: seq<Bucket>, m: map<int, int>, p: nat, v: int)
    requires KeysDiffer(b) && Holds(b, m) && p < |b| && b[p].dib > 0
    ensures var k := b[p].item.key; var b' := b[p := b[p].(item := Item(k, v))]; KeysDiffer(b') && Holds(b', m[k := v])
  {
    var k := b[p].item.key;
    var b' := b[p := b[p].(item := Item(k, v))];
    var m' := m[k := v];
    forall j | j in m'
      ensures exists i :: At(b', j, i)
    {
      if j == k {
        assert At(b', k, p);
      } else {
        var i :| At(b, j, i);
        assert At(b', j, i);
      }
    }
    forall i | 0 <= i < |b'| && b'[i].dib > 0
      ensures b'[i].item.key in m && m[k := v][b'[i].item.key] == b'[i].item.val
    {
      if i != p {
        assert b[i].item.key != k;
      }
    }
  }

  // ---------------------------------------------------------------- deleting with a backward shift

  /// The table with a hole at q. Only the bucket after the hole may break the
  /// rule, and it would keep it if it moved into the hole.
  ghost predicate Holed(b: seq<Bucket>, hash: int -> nat, q: nat, m: map<int, int>) {
    |b| >= 2 && q < |b| && b[q].dib == 0 && Homed(b, hash) && KeysDiffer(b) && Holds(b, m) &&
    (forall i | 0 <= i < |b| && b[i].dib > 1 && i != Next(q, |b|) :: b[Prev(i, |b|)].dib >= b[i].dib - 1) &&
    b[Next(q, |b|)].dib <= b[Prev(q, |b|)].dib + 2
  }

  function Vacated(x: Bucket): Bucket { x.(dib := 0) }

  lemma VacateHolds(b: seq<Bucket>, m: map<int, int>, p: nat)
    requires KeysDiffer(b) && Holds(b, m) && p < |b| && b[p].dib > 0
    ensures KeysDiffer(b[p := Vacated(b[p])]) && Holds(b[p := Vacated(b[p])], m - {b[p].item.key})
  {
    var k, b' := b[p].item.key, b[p := Vacated(b[p])];
    var m' := m - {k};
    forall j | j in m'
      ensures exists i :: At(b', j, i)
    {
      var i :| At(b, j, i);
      assert At(b', j, i);
    }
    forall i | 0 <= i < |b'| && b'[i].dib > 0
      ensures b'[i].item.key in m' && m'[b'[i].item.key] == b'[i].item.val
    {
      assert i != p && b[i].item.key != k;
    }
  }

  /// Taking an item out leaves a hole.
  lemma Vacate(b: seq<Bucket>, hash: int -> nat, m: map<int, int>, p: nat)
    requires Table(b, hash, m) && p < |b| && b[p].dib > 0
    ensures Holed(b[p := Vacated(b[p])], hash, p, m - {b[p].item.key})
    ensures Occupied(b[p := Vacated(b[p])]) == Occupied(b) - 1
  {
    OccupiedUpdate(b, p, Vacated(b[p]));
    SetHomed(b, hash, p, Vacated(b[p]));
    VacateHolds(b, m, p);
    VacateRobin(b, p);
  }

  lemma VacateRobin(b: seq<Bucket>, p: nat)
    requires |b| >= 2 && Robin(b) && p < |b|
    ensures var n, b' := |b|, b[p := Vacated(b[p])];
            (forall i | 0 <= i < n && b'[i].dib > 1 && i != Next(p, n) :: b'[Prev(i, n)].dib >= b'[i].dib - 1) &&
            b'[Next(p, n)].dib <= b'[Prev(p, n)].dib + 2
  {
    var n, b' := |b|, b[p := Vacated(b[p])];
    RobinNext(b, p);
    assert b[p].dib > 1 ==> b[Prev(p, n)].dib >= b[p].dib - 1;
    forall i | 0 <= i < n && b'[i].dib > 1 && i != Next(p, n)
      ensures b'[Prev(i, n)].dib >= b'[i].dib - 1
    {
      assert i != p && Prev(i, n) != p;
      assert b[Prev(i, n)].dib >= b[i].dib - 1;
    }
  }

  lemma ShiftHolds(b: seq<Bucket>, m: map<int, int>, q: nat, i: nat, x: Bucket)
    requires KeysDiffer(b) && Holds(b, m) && q < |b| && i < |b| && q != i && b[q].dib == 0 && b[i].dib > 0
    requires x.dib > 0 && x.item == b[i].item
    ensures KeysDiffer(b[q := x][i := Vacated(b[i])]) && Holds(b[q := x][i := Vacated(b[i])], m)
  {
    var b' := b[q := x][i := Vacated(b[i])];
    ShiftDiffers(b, b', q, i);
    hide KeysDiffer;
    forall k | k in m
      ensures exists j :: At(b', k, j)
    {
      var j :| At(b, k, j);
      if j == i {
        assert At(b', k, q);
      } else {
        assert At(b', k, j);
      }
    }
  }

  lemma ShiftDiffers(b: seq<Bucket>, b': seq<Bucket>, q: nat, i: nat)
    requires KeysDiffer(b) && |b'| == |b| && q < |b| && i < |b| && q != i && b[q].dib == 0 && b[i].dib > 0
    requires b'[q].item == b[i].item && b'[i].dib == 0
    requires forall j | 0 <= j < |b| && j != q && j != i :: b'[j] == b[j]
    ensures KeysDiffer(b')
  {
    forall j, k | 0 <= j < k < |b| && b'[j].dib > 0 && b'[k].dib > 0
      ensures b'[j].item.key != b'[k].item.key
    {
      assert b'[j].item == b[if j == q then i else j].item && b'[k].item == b[if k == q then i else k].item;
    }
  }

  lemma ShiftHome(b: seq<Bucket>, hash: int -> nat, q: nat)
    requires |b| >= 2 && Homed(b, hash) && q < |b| && b[Next(q, |b|)].dib > 1
    ensures var x := b[Next(q, |b|)]; x.hash == ClipHash(hash(x.item.key)) && x.dib - 1 == Dist(Home(x.hash, |b|), q, |b|) + 1
  {
  }

  /// The table after the item behind the hole q has moved into it.
  ghost function Shifted(b: seq<Bucket>, q: nat): seq<Bucket>
    requires q < |b| && b[Next(q, |b|)].dib > 0
  {
    var i := Next(q, |b|);
    b[q := b[i].(dib := b[i].dib - 1)][i := Vacated(b[i])]
  }

  lemma ShiftHomed(b: seq<Bucket>, hash: int -> nat, q: nat)
    requires |b| >= 2 && Homed(b, hash) && q < |b| && b[Next(q, |b|)].dib > 1
    ensures Homed(Shifted(b, q), hash)
  {
    var i := Next(q, |b|);
    var x := b[i].(dib := b[i].dib - 1);
    ShiftHome(b, hash, q);
    SetHomed(b, hash, q, x);
    SetHomed(b[q := x], hash, i, Vacated(b[i]));
  }

  lemma ShiftOccupied(b: seq<Bucket>, q: nat)
    requires |b| >= 2 && q < |b| && b[q].dib == 0 && b[Next(q, |b|)].dib > 1
    ensures Occupied(Shifted(b, q)) == Occupied(b)
  {
    var i := Next(q, |b|);
    var x := b[i].(dib := b[i].dib - 1);
    OccupiedUpdate(b, q, x);
    OccupiedUpdate(b[q := x], i, Vacated(b[i]));
  }

  /// The item after the hole moves into it, one step nearer to its home.
  lemma ShiftBack(b: seq<Bucket>, hash: int -> nat, q: nat, m: map<int, int>)
    requires Holed(b, hash, q, m) && b[Next(q, |b|)].dib > 1
    ensures Holed(Shifted(b, q), hash, Next(q, |b|), m) && Occupied(Shifted(b, q)) == Occupied(b)
  {
    hide Homed, KeysDiffer, Holds, Occupied;
    var i := Next(q, |b|);
    var x := b[i].(dib := b[i].dib - 1);
    ShiftHomed(b, hash, q);
    ShiftOccupied(b, q);
    ShiftHolds(b, m, q, i, x);
    ShiftRobin(b, q, x);
  }

  lemma ShiftRobin(b: seq<Bucket>, q: nat, x: Bucket)
    requires |b| >= 2 && q < |b| && b[q].dib == 0 && b[Next(q, |b|)].dib > 1 && x.dib == b[Next(q, |b|)].dib - 1
    requires forall i | 0 <= i < |b| && b[i].dib > 1 && i != Next(q, |b|) :: b[Prev(i, |b|)].dib >= b[i].dib - 1
    requires b[Next(q, |b|)].dib <= b[Prev(q, |b|)].dib + 2
    ensures var n := |b|; var i := Next(q, n); var b' := b[q := x][i := Vacated(b[i])];
            (forall j | 0 <= j < n && b'[j].dib > 1 && j != Next(i, n) :: b'[Prev(j, n)].dib >= b'[j].dib - 1) &&
            b'[Next(i, n)].dib <= b'[Prev(i, n)].dib + 2
  {
    var n, i := |b|, Next(q, |b|);
    var b' := b[q := x][i := Vacated(b[i])];
    assert Prev(i, n) == q && Prev(Next(i, n), n) == i;
    forall j | 0 <= j < n && b'[j].dib > 1 && j != Next(i, n)
      ensures b'[Prev(j, n)].dib >= b'[j].dib - 1
    {
      assert j != q ==> Prev(j, n) != i && Prev(j, n) != q;
    }
  }

  /// The shift ends at a bucket that is empty or holds an item at home.
  lemma CloseHole(b: seq<Bucket>, hash: int -> nat, q: nat, m: map<int, int>)
    requires Holed(b, hash, q, m) && b[Next(q, |b|)].dib <= 1
    ensures Table(b, hash, m)
  {
  }

  // ---------------------------------------------------------------- maps and prefixes

  /// A table holds one map only.
  lemma HoldsOne(b: seq<Bucket>, m: map<int, int>, m': map<int, int>)
    requires Holds(b, m) && Holds(b, m')
    ensures m == m'
  {
    assert m.Keys == m'.Keys by {
      forall k | k in m
        ensures k in m'
      {
        var i :| At(b, k, i);
      }
      forall k | k in m'
        ensures k in m
      {
        var i :| At(b, k, i);
      }
    }
    forall k | k in m
      ensures m[k] == m'[k]
    {
      var i :| At(b, k, i);
    }
  }

  lemma KeyIsNew(b: seq<Bucket>, i: nat, m: map<int, int>)
    requires i < |b| && KeysDiffer(b) && Holds(b[..i], m)
    ensures b[i].dib > 0 ==> b[i].item.key !in m
  {
    if b[i].dib > 0 {
      forall k | k in m
        ensures k != b[i].item.key
      {
        var j: nat :| At(b[..i], k, j);
        assert b[j].item.key == k;
      }
    }
  }

  /// The map of one bucket more.
  lemma OccupiedNext(b: seq<Bucket>, i: nat)
    requires i < |b|
    ensures Occupied(b[..i + 1]) == Occupied(b[..i]) + if b[i].dib > 0 then 1 else 0
  {
    assert b[..i + 1][..i] == b[..i];
  }

  lemma HoldsMore(b: seq<Bucket>, i: nat, m: map<int, int>)
    requires i < |b| && KeysDiffer(b) && Holds(b[..i], m)
    ensures b[i].dib == 0 ==> Holds(b[..i + 1], m)
    ensures b[i].dib > 0 ==> b[i].item.key !in m && Holds(b[..i + 1], m[b[i].item.key := b[i].item.val])
    ensures Occupied(b[..i + 1]) == Occupied(b[..i]) + if b[i].dib > 0 then 1 else 0
  {
    var p, r := b[..i], b[..i + 1];
    OccupiedNext(b, i);
    KeyIsNew(b, i, m);
    hide KeysDiffer, Occupied;
    var m' := if b[i].dib > 0 then m[b[i].item.key := b[i].item.val] else m;
    forall k | k in m'
      ensures exists j :: At(r, k, j)
    {
      if b[i].dib > 0 && k == b[i].item.key {
        assert At(r, k, i);
      } else {
        var j :| At(p, k, j);
        assert At(r, k, j);
      }
    }
  }

  lemma {:induction false} NoneOccupied(b: seq<Bucket>)
    requires forall i | 0 <= i < |b| :: b[i].dib == 0
    ensures Occupied(b) == 0
    decreases |b|
  {
    if b != [] {
      NoneOccupied(b[..|b| - 1]);
    }
  }

  lemma AllEmpty(b: seq<Bucket>, hash: int -> nat)
    requires |b| >= 2 && forall i | 0 <= i < |b| :: b[i].dib == 0
    ensures Table(b, hash, map[]) && Occupied(b) == 0
  {
    NoneOccupied(b);
  }

  // ---------------------------------------------------------------- sizes

  // ---------------------------------------------------------------- moving to another table

  lemma {:induction false} OccupiedPrefix(b: seq<Bucket>, i: nat)
    requires i <= |b|
    ensures Occupied(b[..i]) <= Occupied(b)
    decreases |b|
  {
    if i < |b| {
      OccupiedPrefix(b[..|b| - 1], i);
      assert b[..|b| - 1][..i] == b[..i];
    } else {
      assert b[..i] == b;
    }
  }

  /// The first i buckets of b have been moved to b2, which stands for the map m.
  ghost predicate Moving(b: seq<Bucket>, i: nat, hash: int -> nat, b2: seq<Bucket>, m: map<int, int>) {
    i <= |b| && Table(b2, hash, m) && Holds(b[..i], m) && Occupied(b2) == Occupied(b[..i])
  }

  lemma MoveStarts(b: seq<Bucket>, hash: int -> nat, b2: seq<Bucket>)
    requires Table(b2, hash, map[]) && Occupied(b2) == 0
    ensures Moving(b, 0, hash, b2, map[])
  {
    hide Table;
    assert b[..0] == [];
  }

  /// The next bucket: an empty one is passed over, and the item of another one is not in the new table.
  lemma MoveNext(b: seq<Bucket>, i: nat, hash: int -> nat, b2: seq<Bucket>, m: map<int, int>)
    requires Moving(b, i, hash, b2, m) && i < |b| && Homed(b, hash) && KeysDiffer(b)
    ensures b[i].dib == 0 ==> Moving(b, i + 1, hash, b2, m)
    ensures b[i].dib > 0 ==> b[i].item.key !in m && b[i].hash == ClipHash(hash(b[i].item.key))
    ensures Table(b2, hash, m) && Occupied(b2) + (if b[i].dib > 0 then 1 else 0) <= Occupied(b)
  {
    HoldsMore(b, i, m);
    OccupiedPrefix(b, i + 1);
    hide Table, Holds, KeysDiffer, Occupied;
  }

  lemma ItemMoved(b: seq<Bucket>, i: nat, hash: int -> nat, b2: seq<Bucket>, m: map<int, int>, b3: seq<Bucket>)
    requires Moving(b, i, hash, b2, m) && i < |b| && KeysDiffer(b) && b[i].dib > 0
    requires Table(b3, hash, m[b[i].item.key := b[i].item.val]) && Occupied(b3) == Occupied(b2) + 1
    ensures Moving(b, i + 1, hash, b3, m[b[i].item.key := b[i].item.val])
  {
    HoldsMore(b, i, m);
    hide Table, Holds, KeysDiffer, Occupied;
  }

  lemma AllMoved(b: seq<Bucket>, hash: int -> nat, b2: seq<Bucket>, m: map<int, int>, m0: map<int, int>)
    requires Moving(b, |b|, hash, b2, m) && Holds(b, m0)
    ensures Table(b2, hash, m0) && Occupied(b2) == Occupied(b)
  {
    hide Table, Holds, Occupied;
    assert b[..|b|] == b;
    HoldsOne(b, m, m0);
  }

  /// The numbers of buckets that hashmap_new_with_allocator gives.
  ghost predicate Rounded(n: nat) { exists k: nat :: n == 16 * Pow2(k) }

  lemma {:induction false} Pow2Plus(a: nat, b: nat)
    ensures Pow2(a + b) == Pow2(a) * Pow2(b)
    decreases b
  {
    if b > 0 {
      Pow2Plus(a, b - 1);
      Pow2Shift(Pow2(a), Pow2(b - 1));
    }
  }

  lemma Pow2Shift(x: nat, y: nat)
    ensures x * (2 * y) == 2 * (x * y)
  {
  }

  lemma Regroup(x: nat, y: nat)
    ensures (16 * x) * y == 16 * (x * y)
  {
  }

  lemma ScaleBy(n: nat, g: nat)
    requires Rounded(n)
    ensures Rounded(n * Pow2(g))
  {
    var k: nat :| n == 16 * Pow2(k);
    Pow2Plus(k, g);
    Regroup(Pow2(k), Pow2(g));
    assert n * Pow2(g) == 16 * Pow2(k + g);
  }

  lemma Grows(n: nat, g: nat)
    requires g >= 1
    ensures 2 * n <= n * Pow2(g)
  {
    assert Pow2(g) == 2 * Pow2(g - 1);
    Pow2Shift(n, Pow2(g - 1));
    assert n <= n * Pow2(g - 1);
  }

  lemma HalfRounded(n: nat, cap: nat)
    requires Rounded(n) && Rounded(cap) && cap < n
    ensures Rounded(n / 2) && cap <= n / 2
  {
    var k: nat :| n == 16 * Pow2(k);
    var j: nat :| cap == 16 * Pow2(j);
    if k == 0 {
      assert false;
    } else {
      assert n / 2 == 16 * Pow2(k - 1);
      if j >= k {
        if j > k { Pow2Mono(k, j); }
        assert false;
      }
      if j < k - 1 { Pow2Mono(j, k - 1); }
    }
  }

  /// Rounding up leaves a rounded number alone.
  lemma RoundedIsFixed(n: nat, r: nat)
    requires Rounded(n) && Rounded(r) && n <= r && (r == 16 || r < 2 * n)
    ensures r == n
  {
    var k: nat :| n == 16 * Pow2(k);
    var j: nat :| r == 16 * Pow2(j);
    if k < j {
      Pow2Mono(k, j);
    } else if j < k {
      Pow2Mono(j, k);
    }
  }

  /// With a rounded number of buckets, `hash & mask` is the hash modulo that number.
  lemma HomeIsMod(h: nat, n: nat)
    requires Rounded(n)
    ensures Home(h, n) == h % n
  {
    var k: nat :| n == 16 * Pow2(k);
    assert Pow2(4) == 16 by {
      assert Pow2(4) == 2 * Pow2(3) && Pow2(3) == 2 * Pow2(2);
    }
    Pow2Plus(4, k);
    MaskIsMod(h, 4 + k);
  }
  /// A stored item is dib - 1 steps behind the bucket that the lower 48 bits of its key's hash pick.
  lemma WhereStored(b: seq<Bucket>, hash: int -> nat, m: map<int, int>, i: nat)
    requires Table(b, hash, m) && Rounded(|b|) && i < |b| && b[i].dib > 0
    ensures var h := hash(b[i].item.key) % 0x1_0000_0000_0000 % |b|;
            b[i].dib - 1 == if h <= i then i - h else i + |b| - h
  {
    HomeIsMod(b[i].hash, |b|);
    hide Rounded, Robin, Holds, KeysDiffer, And, Home;
  }
}
