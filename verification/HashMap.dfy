/// The hash map object: set, get, delete, resize, clear. `hash` stands for the
/// user's hash function, and two items are the same when their keys are equal.
/// A `bool` parameter says whether an allocation succeeds.
module HashMap {
  import opened Basics
  import opened HashTable

  datatype Option<T> = None | Some(value: T)

  /// `GROW_AT` and `SHRINK_AT`, in percent.
  const GROW_AT: nat := 60
  const SHRINK_AT: nat := 10

  function Percent(n: nat, p: nat): nat { n * p / 100 }

  lemma PercentBelow(n: nat, p: nat)
    requires n > 0 && p < 100
    ensures Percent(n, p) < n
  {
    assert n * p < n * 100;
  }

  /// From 100 buckets on different percentages are different numbers.
  lemma PercentDiffers(n: nat, p: nat, q: nat)
    requires n >= 100
    ensures Percent(n, p) == Percent(n, q) <==> p == q
  {
    if p < q {
      PercentGrows(n, p, q);
    } else if q < p {
      PercentGrows(n, q, p);
    }
  }

  lemma PercentGrows(n: nat, p: nat, q: nat)
    requires n >= 100 && p < q
    ensures Percent(n, p) < Percent(n, q)
  {
    Times(n, p, q - p);
    Hundredths(n * p, n * q);
  }

  lemma Times(n: nat, p: nat, d: nat)
    requires d >= 1
    ensures n * (p + d) >= n * p + n
  {
    assert n * (p + d) == n * p + n * d && n * d == n * (d - 1) + n;
  }

  lemma Hundredths(a: nat, b: nat)
    requires a + 100 <= b
    ensures a / 100 < b / 100
  {
  }

  function ClampLoadFactor(factor: Option<real>, default: real): real {
    match factor
    case None => default
    case Some(f) => if f < 0.5 then 0.5 else if f > 0.95 then 0.95 else f
  }

  /// The capacity loop of hashmap_new_with_allocator.
  method RoundUp(cap: nat) returns (ncap: nat)
    ensures Rounded(ncap) && cap <= ncap && (ncap == 16 || ncap < 2 * cap)
  {
    ncap := 16;
    ghost var k: nat := 0;
    while ncap < cap
      invariant ncap == 16 * Pow2(k) && (ncap == 16 || ncap < 2 * cap)
      decreases cap - ncap
    {
      ncap, k := ncap * 2, k + 1;
    }
  }

  /// Writing one bucket.
  method Put(buckets: array<Bucket>, i: nat, x: Bucket, ghost n: nat)
    requires i < n <= buckets.Length
    modifies buckets
    ensures buckets[..n] == old(buckets[..n])[i := x]
  {
    buckets[i] := x;
  }

  /// The inner loop of resize0: the entry, whose key is not in the new table, goes into it.
  method Reinsert(buckets: array<Bucket>, n: nat, entry0: Bucket, ghost hash: int -> nat, ghost m: map<int, int>, ghost b0: seq<Bucket>)
    returns (ghost b: seq<Bucket>)
    requires n == buckets.Length && buckets[..n] == b0 && Table(b0, hash, m) && Occupied(b0) < n
    requires entry0.item.key !in m && entry0.hash == ClipHash(hash(entry0.item.key))
    modifies buckets
    ensures buckets[..n] == b && Table(b, hash, m[entry0.item.key := entry0.item.val])
    ensures Occupied(b) == Occupied(b0) + 1
  {
    hide Homed, Robin, KeysDiffer, Holds, Occupied;
    var entry := entry0.(dib := 1);
    var j: nat := Home(entry.hash, n);
    ghost var f: nat := EmptyBucket(b0);
    ghost var m' := m[entry.item.key := entry.item.val];
    PickUp(b0, hash, m, entry, f);
    b := b0;
    while true
      invariant |b| == n && buckets[..n] == b && j < n && f < n
      invariant Carrying(b, hash, entry, j, f, m')
      invariant Occupied(b) == Occupied(b0)
      decreases Dist(j, f, n)
    {
      var bucket := buckets[j];
      assert bucket == b[j];
      if bucket.dib == 0 {
        PutDown(b, hash, entry, j, f, m');
        Put(buckets, j, entry, n);
        b := b[j := entry];
        return;
      }
      if bucket.dib < entry.dib {
        SwapOver(b, hash, entry, j, f, m');
        Put(buckets, j, entry, n);
        b := b[j := entry];
        entry := bucket;
      } else {
        StepOver(b, hash, entry, j, f, m');
      }
      j := Next(j, n);
      entry := entry.(dib := entry.dib + 1);
    }
  }

  class HashMap {
    const hash: int -> nat
    var cap: nat
    var nbuckets: nat
    var count: nat
    var growat: nat
    var shrinkat: nat
    var loadfactor: nat
    var growpower: nat
    var oom: bool
    var buckets: array<Bucket>
    /// The map that this table stands for.
    ghost var contents: map<int, int>

    ghost predicate Valid()
      reads this, buckets
    {
      Sized() && nbuckets <= buckets.Length && Table(buckets[..nbuckets], hash, contents) &&
      count == Occupied(buckets[..nbuckets]) < nbuckets
    }

    /// The capacities and thresholds.
    ghost predicate Sized()
      reads this
    {
      Rounded(cap) && Rounded(nbuckets) && 16 <= cap <= nbuckets && growat < nbuckets && shrinkat == Percent(nbuckets, SHRINK_AT) &&
      50 <= loadfactor <= 95 && 1 <= growpower <= 16
    }

    /// The table grows when it is filled as far as the load factor says.
    ghost predicate Governed()
      reads this
    {
      growat == Percent(nbuckets, loadfactor)
    }

    /// hashmap_new, when both allocations succeed.
    constructor (hash: int -> nat, cap: nat)
      ensures Valid() && fresh(buckets) && this.hash == hash && contents == map[] && count == 0 && !oom
      ensures this.cap == nbuckets && cap <= nbuckets && (nbuckets == 16 || nbuckets < 2 * cap)
      ensures Governed() && growat == nbuckets * 60 / 100 && loadfactor == 60 && growpower == 1
    {
      var ncap := RoundUp(cap);
      var bs := new Bucket[ncap](_ => EMPTY);
      PercentBelow(ncap, GROW_AT);
      AllEmpty(bs[..ncap], hash);
      this.hash, this.cap, nbuckets, count, oom := hash, ncap, ncap, 0, false;
      growpower, loadfactor := 1, GROW_AT;
      growat, shrinkat := Percent(ncap, GROW_AT), Percent(ncap, SHRINK_AT);
      buckets, contents := bs, map[];
    }

    /// hashmap_set_grow_by_power.
    method SetGrowByPower(power: nat)
      requires Valid()
      modifies `growpower
      ensures Valid() && growpower == if power < 1 then 1 else if power > 16 then 16 else power
    {
      growpower := if power < 1 then 1 else if power > 16 then 16 else power;
    }

    /// hashmap_set_load_factor; None is what is not a number.
    method SetLoadFactor(factor: Option<real>)
      requires Valid()
      modifies `loadfactor, `growat
      ensures Valid() && Governed() && growat == nbuckets * loadfactor / 100
      ensures factor == None ==> loadfactor == old(loadfactor)
      ensures factor.Some? && factor.value <= 0.5 ==> loadfactor == 50
      ensures factor.Some? && factor.value >= 0.95 ==> loadfactor == 95
      ensures factor.Some? && 0.5 <= factor.value <= 0.95 ==> loadfactor as real <= factor.value * 100.0 < loadfactor as real + 1.0
    {
      var f := ClampLoadFactor(factor, loadfactor as real / 100.0);
      loadfactor := (f * 100.0).Floor;
      PercentBelow(nbuckets, loadfactor);
      growat := Percent(nbuckets, loadfactor);
    }

    /// hashmap_count is the size of the map.
    method Count() returns (n: nat)
      requires Valid()
      ensures n == |contents|
    {
      CountIsSize(buckets[..nbuckets], contents);
      n := count;
    }

    // -------------------------------------------------------------- resize

    /// resize0: the same map in another number of buckets. The new growat is
    /// the default percentage of it, whatever load factor had been set.
    method Resize(newCap: nat, alloc: bool) returns (ok: bool)
      requires Valid() && count < newCap && cap <= newCap && Rounded(newCap)
      modifies this
      ensures Valid() && ok == alloc && contents == old(contents) && count == old(count)
      ensures cap == old(cap) && loadfactor == old(loadfactor) && growpower == old(growpower) && oom == old(oom)
      ensures !ok ==> nbuckets == old(nbuckets) && buckets == old(buckets) && growat == old(growat)
      ensures ok ==> nbuckets == newCap == buckets.Length && growat == newCap * 60 / 100 && fresh(buckets)
    {
      hide Homed, Robin, KeysDiffer, Holds, Occupied;
      if !alloc {
        return false;
      }
      var n := RoundUp(newCap);
      RoundedIsFixed(newCap, n);
      var buckets2 := new Bucket[n](_ => EMPTY);
      AllEmpty(buckets2[..n], hash);
      MoveAll(buckets2, n);
      PercentBelow(n, GROW_AT);
      buckets, nbuckets, growat, shrinkat := buckets2, n, Percent(n, GROW_AT), Percent(n, SHRINK_AT);
      return true;
    }

    /// The outer loop of resize0.
    method MoveAll(buckets2: array<Bucket>, n: nat)
      requires Valid() && n == buckets2.Length && buckets2 != buckets && count < n
      requires Table(buckets2[..n], hash, map[]) && Occupied(buckets2[..n]) == 0
      modifies buckets2
      ensures Table(buckets2[..n], hash, contents) && Occupied(buckets2[..n]) == count
    {
      hide Homed, Robin, KeysDiffer, Holds, Occupied, Moving;
      var i := 0;
      ghost var b, m, b2 := buckets[..nbuckets], map[], buckets2[..n];
      MoveStarts(b, hash, b2);
      while i < nbuckets
        invariant 0 <= i <= nbuckets && buckets[..nbuckets] == b && buckets2[..n] == b2 && Moving(b, i, hash, b2, m)
      {
        var entry := buckets[i];
        assert entry == b[i];
        MoveNext(b, i, hash, b2, m);
        if entry.dib != 0 {
          ghost var b3 := Reinsert(buckets2, n, entry, hash, m, b2);
          ItemMoved(b, i, hash, b2, m, b3);
          b2, m := b3, m[entry.item.key := entry.item.val];
        }
        i := i + 1;
      }
      AllMoved(b, hash, b2, m, contents);
    }

    // -------------------------------------------------------------- get

    /// The probe loop of hashmap_get_with_hash and hashmap_delete_with_hash: the
    /// key's bucket, or null's counterpart at an empty bucket.
    method Probe(key: int) returns (found: bool, i: nat)
      requires Valid()
      ensures found == (key in contents) && i < nbuckets
      ensures found ==> At(buckets[..nbuckets], key, i)
    {
      hide Robin, KeysDiffer, Rounded, Occupied;
      ghost var b, n := buckets[..nbuckets], nbuckets;
      var h := ClipHash(hash(key));
      i := Home(h, nbuckets);
      ghost var f := EmptyBucket(b);
      ghost var p := if key in contents then Where(b, key, contents) else f;
      while true
        invariant i < n && buckets[..nbuckets] == b && p < n
        invariant key in contents ==> Dist(Home(h, n), i, n) <= Dist(Home(h, n), p, n)
        decreases Dist(i, p, n)
      {
        var bucket := buckets[i];
        assert bucket == b[i];
        if key in contents {
          OnTheWay(b, hash, key, p, i);
        }
        if bucket.dib == 0 {
          return false, i;
        }
        if bucket.hash == h && bucket.item.key == key {
          return true, i;
        }
        i := Next(i, nbuckets);
      }
    }

    /// hashmap_get.
    method Get(key: int) returns (r: Option<Item>)
      requires Valid()
      ensures r == if key in contents then Some(Item(key, contents[key])) else None
    {
      var found, i := Probe(key);
      if !found {
        return None;
      }
      assert buckets[i] == buckets[..nbuckets][i];
      return Some(buckets[i].item);
    }

    // -------------------------------------------------------------- set

    /// hashmap_set: the item is stored, and what it replaces is returned; when
    /// the table would have to grow and cannot, nothing happens.
    method Set(item: Item, alloc: bool) returns (r: Option<Item>)
      requires Valid()
      modifies this, buckets
      ensures Valid() && oom == (old(count) >= old(growat) && !alloc) && (buckets == old(buckets) || fresh(buckets))
      ensures oom ==> contents == old(contents) && r == None
      ensures !oom ==> contents == old(contents)[item.key := item.val]
      ensures !oom ==> r == if item.key in old(contents) then Some(Item(item.key, old(contents)[item.key])) else None
      ensures cap == old(cap) && loadfactor == old(loadfactor) && growpower == old(growpower)
      ensures nbuckets == if old(count) >= old(growat) && alloc then old(nbuckets) * Pow2(growpower) else old(nbuckets)
      ensures growat == if old(count) >= old(growat) && alloc then nbuckets * 60 / 100 else old(growat)
      ensures old(Governed()) ==> (Governed() <==> old(count) < old(growat) || !alloc || Percent(nbuckets, GROW_AT) == Percent(nbuckets, loadfactor))
    {
      hide Homed, Robin, KeysDiffer, Holds, Occupied;
      oom := false;
      if count >= growat {
        Grows(nbuckets, growpower);
        ScaleBy(nbuckets, growpower);
        var ok := Resize(nbuckets * Pow2(growpower), alloc);
        if !ok {
          oom := true;
          return None;
        }
      }
      r := Store(item);
    }

    /// The probe loop of hashmap_set_with_hash.
    method Store(item: Item) returns (r: Option<Item>)
      requires Valid() && count + 1 < nbuckets
      modifies this`count, this`contents, buckets
      ensures Valid() && contents == old(contents)[item.key := item.val]
      ensures r == if item.key in old(contents) then Some(Item(item.key, old(contents)[item.key])) else None
    {
      hide Homed, Robin, KeysDiffer, Holds, Occupied;
      ghost var m, n, b := contents, nbuckets, buckets[..nbuckets];
      var entry := Bucket(ClipHash(hash(item.key)), 1, item);
      var i := Home(entry.hash, nbuckets);
      ghost var t := StoreStart(b, hash, item, m);
      while true
        invariant |b| == n && buckets[..n] == b && i < n && t < n
        invariant Storing(b, hash, entry, i, t, item, m)
        invariant Occupied(b) == count
        invariant Sized() && nbuckets == n && count == old(count) && contents == m
        decreases Dist(i, t, n)
      {
        var bucket := buckets[i];
        assert bucket == b[i];
        if bucket.dib == 0 {
          StoreEmpty(b, hash, entry, i, t, item, m);
          Put(buckets, i, entry, n);
          count, contents := count + 1, m[item.key := item.val];
          return None;
        }
        if entry.hash == bucket.hash && entry.item.key == bucket.item.key {
          StoreMatch(b, hash, entry, i, t, item, m);
          Put(buckets, i, bucket.(item := entry.item), n);
          contents := m[item.key := item.val];
          return Some(bucket.item);
        }
        if bucket.dib < entry.dib {
          StoreSwap(b, hash, entry, i, t, item, m);
          Put(buckets, i, entry, n);
          b := b[i := entry];
          entry := bucket;
        } else {
          StoreOver(b, hash, entry, i, t, item, m);
        }
        i := Next(i, nbuckets);
        entry := entry.(dib := entry.dib + 1);
      }
    }

    // -------------------------------------------------------------- delete

    /// hashmap_delete. A failed shrink is ignored.
    method Delete(key: int, alloc: bool) returns (r: Option<Item>)
      requires Valid()
      modifies this, buckets
      ensures Valid() && contents == old(contents) - {key} && !oom
      ensures r == if key in old(contents) then Some(Item(key, old(contents)[key])) else None
      ensures buckets == old(buckets) || fresh(buckets)
      ensures cap == old(cap) && loadfactor == old(loadfactor) && growpower == old(growpower)
      ensures var shrinks := key in old(contents) && old(nbuckets) > cap && 10 * (old(count) - 1) <= old(nbuckets) && alloc;
              nbuckets == (if shrinks then old(nbuckets) / 2 else old(nbuckets)) && growat == if shrinks then nbuckets * 60 / 100 else old(growat)
      ensures old(Governed()) ==> (Governed() <==> nbuckets == old(nbuckets) || Percent(nbuckets, GROW_AT) == Percent(nbuckets, loadfactor))
    {
      hide Homed, Robin, KeysDiffer, Holds, Occupied;
      oom := false;
      var found, i := Probe(key);
      if !found {
        assert contents == contents - {key};
        return None;
      }
      assert buckets[i] == buckets[..nbuckets][i];
      FoundIs(buckets[..nbuckets], contents, key, i);
      r := Some(buckets[i].item);
      Remove(i);
      if nbuckets > cap && count <= shrinkat {
        HalfRounded(nbuckets, cap);
        var _ := Resize(nbuckets / 2, alloc);
      }
    }

    /// The backward shift.
    method Remove(p: nat)
      requires Valid() && p < nbuckets && buckets[p].dib > 0
      modifies this`count, this`contents, buckets
      ensures Valid() && contents == old(contents) - {old(buckets[p]).item.key} && count == old(count) - 1
    {
      hide Homed, Robin, KeysDiffer, Holds, Occupied;
      ghost var n, b, m := nbuckets, buckets[..nbuckets], contents - {buckets[p].item.key};
      assert buckets[p] == b[p];
      ghost var f := EmptyBucket(b);
      Vacate(b, hash, contents, p);
      var bucket := buckets[p];
      Put(buckets, p, Vacated(bucket), n);
      b := Shift(buckets, nbuckets, p, b[p := Vacated(bucket)], hash, f, m);
      assert nbuckets == n && buckets[..n] == b;
      count, contents := count - 1, m;
    }

    // -------------------------------------------------------------- clear and scan

    /// hashmap_clear. When the allocation fails, the first cap buckets are used.
    method Clear(updateCap: bool, alloc: bool)
      requires Valid()
      modifies this, buckets
      ensures Valid() && contents == map[] && count == 0 && cap == nbuckets
      ensures cap == if updateCap then old(nbuckets) else old(cap)
      ensures Governed() && growat == nbuckets * loadfactor / 100 && loadfactor == old(loadfactor) && growpower == old(growpower)
    {
      hide Homed, Robin, KeysDiffer, Holds, Occupied, Pow2, Rounded;
      count := 0;
      if updateCap {
        cap := nbuckets;
      } else if nbuckets != cap {
        if alloc {
          buckets := new Bucket[cap](_ => EMPTY);
        }
        nbuckets := cap;
      }
      forall i | 0 <= i < nbuckets {
        buckets[i] := EMPTY;
      }
      AllEmpty(buckets[..nbuckets], hash);
      PercentBelow(nbuckets, loadfactor);
      growat, shrinkat, contents := Percent(nbuckets, loadfactor), Percent(nbuckets, SHRINK_AT), map[];
    }

    /// hashmap_scan: the items that iter is called with, up to the first where it says stop;
    /// if there is none, every stored item once.
    method Scan(iter: Item -> bool) returns (done: bool, items: seq<Item>)
      requires Valid()
      ensures forall x | x in items :: x.key in contents && contents[x.key] == x.val
      ensures forall i, j | 0 <= i < j < |items| :: items[i].key != items[j].key
      ensures forall i | 0 <= i < |items| - 1 :: iter(items[i])
      ensures if done then |items| == |contents| && forall x | x in items :: iter(x) else items != [] && !iter(items[|items| - 1])
    {
      hide Homed, Robin, Rounded, HashMap.Sized;
      ghost var b := buckets[..nbuckets];
      items := [];
      var i := 0;
      assert b[..0] == [];
      while i < nbuckets
        invariant 0 <= i <= nbuckets && Scanned(b, i, items) && forall x | x in items :: iter(x)
      {
        var bucket := buckets[i];
        assert bucket == b[i];
        ScanStep(b, i, items);
        if bucket.dib > 0 {
          items := items + [bucket.item];
          if !iter(bucket.item) {
            return false, items;
          }
        }
        i := i + 1;
      }
      assert b[..nbuckets] == b;
      CountIsSize(b, contents);
      done := true;
    }
  }

  /// hashmap_new: null when one of its two allocations fails.
  method NewHashMap(hash: int -> nat, cap: nat, alloc: bool) returns (map_: HashMap?)
    ensures map_ == null <==> !alloc
    ensures map_ != null ==> fresh(map_) && fresh(map_.buckets) && map_.Valid() && map_.hash == hash && map_.contents == map[] && map_.count == 0 && !map_.oom
    ensures map_ != null ==> map_.cap == map_.nbuckets && cap <= map_.nbuckets && (map_.nbuckets == 16 || map_.nbuckets < 2 * cap)
  {
    if !alloc {
      return null;
    }
    map_ := new HashMap(hash, cap);
  }

  /// With a load factor of 95 percent 16 buckets take 15 items, and the next one makes the table grow;
  /// the 32 buckets then take 19, where 95 percent are 30.
  method LoadFactorLost(hash: int -> nat) returns (map_: HashMap)
    ensures fresh(map_) && map_.Valid() && map_.loadfactor == 95 && map_.nbuckets == 32 && map_.growat == 19 && !map_.Governed()
    ensures |map_.contents| == 16
  {
    hide Homed, Robin, KeysDiffer, Holds, Occupied;
    map_ := new HashMap(hash, 16);
    map_.SetLoadFactor(Some(0.95));
    var i := 0;
    while i < 16
      invariant 0 <= i <= 16 && fresh(map_) && fresh(map_.buckets) && map_.Valid() && |map_.contents| == i && forall k | k in map_.contents :: k < i
      invariant map_.loadfactor == 95 && map_.growpower == 1
      invariant if i < 16 then map_.nbuckets == 16 && map_.growat == 15 else map_.nbuckets == 32 && map_.growat == 19
    {
      CountIsSize(map_.buckets[..map_.nbuckets], map_.contents);
      var _ := map_.Set(Item(i, 0), true);
      i := i + 1;
    }
  }

  /// The inner loop of delete: items move back by one bucket until one is at
  /// home or the next bucket is empty. b0 is the table with a hole at p.
  method Shift(buckets: array<Bucket>, n: nat, p: nat, ghost b0: seq<Bucket>, ghost hash: int -> nat, ghost f: nat, ghost m: map<int, int>)
    returns (ghost b: seq<Bucket>)
    requires p < n <= buckets.Length && buckets[..n] == b0 && Holed(b0, hash, p, m)
    requires f < n && f != p && b0[f].dib == 0
    modifies buckets
    ensures buckets[..n] == b && Table(b, hash, m) && Occupied(b) == Occupied(b0)
  {
    hide Homed, Robin, KeysDiffer, Holds, Occupied;
    b := b0;
    var prev: nat, i: nat := p, Next(p, n);
    var bucket := buckets[i];
    ghost var stale := b[p];
    assert bucket == b[i] && b[p := stale] == b;
    while bucket.dib > 1
      invariant |b| == n && prev < n && i == Next(prev, n) && i != prev && bucket == b[i] && f < n && f != prev && b[f].dib == 0
      invariant buckets[..n] == b[prev := stale] && b[prev] == Vacated(stale)
      invariant Holed(b, hash, prev, m) && Occupied(b) == Occupied(b0)
      decreases Dist(i, f, n)
    {
      ShiftBack(b, hash, prev, m);
      ghost var x := bucket.(dib := bucket.dib - 1);
      Put(buckets, prev, bucket.(dib := bucket.dib - 1), n);
      Moved(b, prev, i, stale, x);
      b, stale := b[prev := x][i := Vacated(bucket)], bucket;
      prev, i := i, Next(i, n);
      bucket := buckets[i];
    }
    CloseHole(b, hash, prev, m);
    assert buckets[prev] == buckets[..n][prev];
    Put(buckets, prev, Vacated(buckets[prev]), n);
    assert b[prev := stale][prev := Vacated(stale)] == b;
  }

  /// The moved item's old bucket keeps stale contents.
  lemma Moved(b: seq<Bucket>, q: nat, i: nat, stale: Bucket, x: Bucket)
    requires q < |b| && i < |b| && q != i
    ensures b[q := stale][q := x] == b[q := x][i := Vacated(b[i])][i := b[i]]
  {
  }

  // ---------------------------------------------------------------- the steps of Store

  /// The loop of set: on the way to the stored key's bucket t, or carrying an
  /// entry towards the empty bucket t.
  ghost predicate Storing(b: seq<Bucket>, hash: int -> nat, e: Bucket, i: nat, t: nat, item: Item, m: map<int, int>) {
    |b| >= 2 && i < |b| && t < |b| &&
    if item.key in m then
      var h := ClipHash(hash(item.key));
      Table(b, hash, m) && At(b, item.key, t) && e == Bucket(h, Dist(Home(h, |b|), i, |b|) + 1, item) &&
      Dist(Home(h, |b|), i, |b|) <= Dist(Home(h, |b|), t, |b|)
    else Carrying(b, hash, e, i, t, m[item.key := item.val])
  }

  lemma StoreStart(b: seq<Bucket>, hash: int -> nat, item: Item, m: map<int, int>) returns (t: nat)
    requires Table(b, hash, m) && Occupied(b) < |b|
    ensures var h := ClipHash(hash(item.key)); Storing(b, hash, Bucket(h, 1, item), Home(h, |b|), t, item, m)
  {
    var h := ClipHash(hash(item.key));
    if item.key in m {
      t := Where(b, item.key, m);
    } else {
      t := EmptyBucket(b);
      PickUp(b, hash, m, Bucket(h, 1, item), t);
    }
  }

  lemma StoreEmpty(b: seq<Bucket>, hash: int -> nat, e: Bucket, i: nat, t: nat, item: Item, m: map<int, int>)
    requires Storing(b, hash, e, i, t, item, m) && b[i].dib == 0
    ensures item.key !in m && Table(b[i := e], hash, m[item.key := item.val]) && Occupied(b[i := e]) == Occupied(b) + 1
  {
    if item.key in m {
      OnTheWay(b, hash, item.key, t, i);
    } else {
      PutDown(b, hash, e, i, t, m[item.key := item.val]);
    }
  }

  lemma StoreMatch(b: seq<Bucket>, hash: int -> nat, e: Bucket, i: nat, t: nat, item: Item, m: map<int, int>)
    requires Storing(b, hash, e, i, t, item, m) && b[i].dib > 0 && e.item.key == b[i].item.key
    ensures item.key in m && e.item == item && b[i].item == Item(item.key, m[item.key])
    ensures Table(b[i := b[i].(item := item)], hash, m[item.key := item.val])
    ensures Occupied(b[i := b[i].(item := item)]) == Occupied(b)
  {
    if item.key in m {
      Overwrite(b, hash, m, i, item.val);
    }
  }

  lemma StoreSwap(b: seq<Bucket>, hash: int -> nat, e: Bucket, i: nat, t: nat, item: Item, m: map<int, int>)
    requires Storing(b, hash, e, i, t, item, m) && 0 < b[i].dib < e.dib
    ensures Storing(b[i := e], hash, b[i].(dib := b[i].dib + 1), Next(i, |b|), t, item, m)
    ensures Dist(Next(i, |b|), t, |b|) == Dist(i, t, |b|) - 1 && Occupied(b[i := e]) == Occupied(b)
  {
    if item.key in m {
      OnTheWay(b, hash, item.key, t, i);
    } else {
      SwapOver(b, hash, e, i, t, m[item.key := item.val]);
    }
  }

  lemma StoreOver(b: seq<Bucket>, hash: int -> nat, e: Bucket, i: nat, t: nat, item: Item, m: map<int, int>)
    requires Storing(b, hash, e, i, t, item, m) && b[i].dib >= e.dib && (e.hash != b[i].hash || e.item.key != b[i].item.key)
    ensures Storing(b, hash, e.(dib := e.dib + 1), Next(i, |b|), t, item, m)
    ensures Dist(Next(i, |b|), t, |b|) == Dist(i, t, |b|) - 1
  {
    if item.key in m {
      assert i != t;
    } else {
      StepOver(b, hash, e, i, t, m[item.key := item.val]);
    }
  }

  lemma FoundIs(b: seq<Bucket>, m: map<int, int>, key: int, i: nat)
    requires Holds(b, m) && At(b, key, i)
    ensures key in m && b[i].item == Item(key, m[key])
  {
  }

  /// The bucket of a stored key.
  ghost function Where(b: seq<Bucket>, key: int, m: map<int, int>): (p: nat)
    requires Holds(b, m) && key in m
    ensures At(b, key, p)
  {
    var p: nat :| At(b, key, p);
    p
  }

  /// The items of the first i buckets.
  ghost predicate Scanned(b: seq<Bucket>, i: nat, items: seq<Item>) {
    i <= |b| && |items| == Occupied(b[..i]) &&
    (forall x | x in items :: exists j :: 0 <= j < i && b[j].dib > 0 && b[j].item == x) &&
    forall j, k | 0 <= j < k < |items| :: items[j].key != items[k].key
  }

  lemma ScanStep(b: seq<Bucket>, i: nat, items: seq<Item>)
    requires Scanned(b, i, items) && i < |b| && KeysDiffer(b)
    ensures Scanned(b, i + 1, if b[i].dib > 0 then items + [b[i].item] else items)
  {
    assert b[..i + 1][..i] == b[..i];
    if b[i].dib > 0 {
      forall x | x in items
        ensures x.key != b[i].item.key
      {
        var j :| 0 <= j < i && b[j].dib > 0 && b[j].item == x;
      }
    }
  }
}
