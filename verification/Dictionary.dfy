/// The dictionary of the ini parser: keys and values in parallel arrays, found by
/// a scan, stored in the first free slot behind the n-th.
module Dictionary {

  /// A pointer to a string, perhaps NULL.
  datatype Text = Null | Str(s: string)

  const DICTMINSZ: nat := 128

  // ---------------------------------------------------------------- slots

  type Slots = seq<Text>

  ghost predicate KeysDiffer(ks: Slots) {
    forall i, j | 0 <= i < j < |ks| && ks[i].Str? :: ks[i] != ks[j]
  }

  ghost predicate Hashed(ks: Slots, hs: seq<int>, hash: string -> int) {
    |hs| == |ks| && forall i | 0 <= i < |ks| && ks[i].Str? :: hs[i] == hash(ks[i].s)
  }

  ghost function Used(ks: Slots): nat {
    if ks == [] then 0 else (if ks[0].Str? then 1 else 0) + Used(ks[1..])
  }

  ghost predicate HasKey(ks: Slots, key: string) { Str(key) in ks }

  ghost function Index(ks: Slots, key: string): (i: nat)
    requires HasKey(ks, key)
    ensures i < |ks| && ks[i] == Str(key)
  {
    var i: nat :| i < |ks| && ks[i] == Str(key);
    i
  }

  ghost function Strings(ks: Slots): set<string> {
    if ks == [] then {} else (if ks[0].Str? then {ks[0].s} else {}) + Strings(ks[1..])
  }

  lemma {:induction false} StringsAre(ks: Slots, key: string)
    ensures key in Strings(ks) <==> HasKey(ks, key)
    decreases |ks|
  {
    if ks != [] {
      StringsAre(ks[1..], key);
      assert Str(key) in ks <==> ks[0] == Str(key) || Str(key) in ks[1..];
    }
  }

  /// The stored pairs as a map; a value may be NULL.
  ghost function Contents(ks: Slots, vs: Slots): map<string, Text>
    requires |ks| == |vs|
  {
    map key | key in Strings(ks) && HasKey(ks, key) :: vs[Index(ks, key)]
  }

  lemma ContentsKeys(ks: Slots, vs: Slots, key: string)
    requires |ks| == |vs|
    ensures key in Contents(ks, vs) <==> HasKey(ks, key)
  {
    StringsAre(ks, key);
  }

  lemma SlotOf(ks: Slots, vs: Slots, i: nat)
    requires |ks| == |vs| && KeysDiffer(ks) && i < |ks| && ks[i].Str?
    ensures ks[i].s in Contents(ks, vs) && Contents(ks, vs)[ks[i].s] == vs[i]
  {
    ContentsKeys(ks, vs, ks[i].s);
    var j := Index(ks, ks[i].s);
    assert i == j || i < j || j < i;
  }

  /// A map that says what the slots say is the contents.
  lemma IsContents(ks: Slots, vs: Slots, m: map<string, Text>)
    requires |ks| == |vs|
    requires forall key | key in m :: HasKey(ks, key) && m[key] == vs[Index(ks, key)]
    requires forall key | HasKey(ks, key) :: key in m
    ensures m == Contents(ks, vs)
  {
    forall key
      ensures key in m <==> key in Contents(ks, vs)
    {
      ContentsKeys(ks, vs, key);
    }
  }

  lemma {:induction false} UsedUpdate(ks: Slots, i: nat, x: Text)
    requires i < |ks|
    ensures Used(ks[i := x]) == Used(ks) - (if ks[i].Str? then 1 else 0) + if x.Str? then 1 else 0
    decreases |ks|
  {
    var us := ks[i := x];
    if i == 0 {
      assert us[1..] == ks[1..];
    } else {
      assert us[1..] == ks[1..][i - 1 := x];
      UsedUpdate(ks[1..], i - 1, x);
    }
  }

  /// With fewer keys than slots there is a free one.
  lemma {:induction false} FreeSlot(ks: Slots) returns (i: nat)
    requires Used(ks) < |ks|
    ensures i < |ks| && ks[i] == Null
    decreases |ks|
  {
    if ks[0] == Null {
      i := 0;
    } else {
      i := FreeSlot(ks[1..]);
      i := i + 1;
    }
  }

  lemma {:induction false} UsedBound(ks: Slots)
    ensures Used(ks) <= |ks|
    decreases |ks|
  {
    if ks != [] { UsedBound(ks[1..]); }
  }

  /// A value replaced.
  lemma Replaced(ks: Slots, vs: Slots, i: nat, v: Text)
    requires |ks| == |vs| && KeysDiffer(ks) && i < |ks| && ks[i].Str?
    ensures Contents(ks, vs[i := v]) == Contents(ks, vs)[ks[i].s := v]
  {
    var m, us := Contents(ks, vs)[ks[i].s := v], vs[i := v];
    SlotOf(ks, us, i);
    forall key | key in m
      ensures HasKey(ks, key) && m[key] == us[Index(ks, key)]
    {
      ContentsKeys(ks, vs, key);
    }
    forall key | HasKey(ks, key) ensures key in m { ContentsKeys(ks, vs, key); }
    IsContents(ks, us, m);
  }

  /// A key stored in a free slot.
  lemma Stored(ks: Slots, vs: Slots, i: nat, key: string, v: Text)
    requires |ks| == |vs| && KeysDiffer(ks) && i < |ks| && ks[i] == Null && !HasKey(ks, key)
    ensures KeysDiffer(ks[i := Str(key)])
    ensures Contents(ks[i := Str(key)], vs[i := v]) == Contents(ks, vs)[key := v]
  {
    var js, us, m := ks[i := Str(key)], vs[i := v], Contents(ks, vs)[key := v];
    forall a, b | 0 <= a < b < |js| && js[a].Str?
      ensures js[a] != js[b]
    {
      assert ks[a] in ks && ks[b] in ks;
    }
    SlotOf(js, us, i);
    forall k
      ensures k in m ==> HasKey(js, k) && m[k] == us[Index(js, k)]
      ensures HasKey(js, k) ==> k in m
    {
      ContentsKeys(ks, vs, k);
      if k == key {
        assert js[i] in js;
      } else {
        KeyMoves(ks, js, i, k);
        if HasKey(ks, k) {
          var a := Index(js, k);
          assert js[a] == ks[a];
          SlotOf(ks, vs, a);
        }
      }
    }
    IsContents(js, us, m);
  }

  lemma KeyMoves(ks: Slots, js: Slots, i: nat, k: string)
    requires i < |ks| == |js| && js == ks[i := js[i]] && ks[i] != Str(k) && js[i] != Str(k)
    ensures HasKey(ks, k) <==> HasKey(js, k)
  {
    forall a | 0 <= a < |ks|
      ensures ks[a] == Str(k) <==> js[a] == Str(k)
    {
    }
    if HasKey(ks, k) { var a :| 0 <= a < |ks| && ks[a] == Str(k); assert js[a] == Str(k); }
    if HasKey(js, k) { var a :| 0 <= a < |js| && js[a] == Str(k); assert ks[a] == Str(k); }
  }

  /// A key taken out.
  lemma Removed(ks: Slots, vs: Slots, i: nat)
    requires |ks| == |vs| && KeysDiffer(ks) && i < |ks| && ks[i].Str?
    ensures KeysDiffer(ks[i := Null])
    ensures Contents(ks[i := Null], vs[i := Null]) == Contents(ks, vs) - {ks[i].s}
  {
    var js, us, m := ks[i := Null], vs[i := Null], Contents(ks, vs) - {ks[i].s};
    var key := ks[i].s;
    forall a | 0 <= a < |js|
      ensures js[a] != Str(key)
    {
      if a < i { assert ks[a] != ks[i]; }
      if i < a { assert ks[i] != ks[a]; }
    }
    forall k
      ensures k in m ==> HasKey(js, k) && m[k] == us[Index(js, k)]
      ensures HasKey(js, k) ==> k in m
    {
      ContentsKeys(ks, vs, k);
      if k != key {
        KeyMoves(ks, js, i, k);
        if HasKey(js, k) {
          var a := Index(js, k);
          assert js[a] == ks[a];
          SlotOf(ks, vs, a);
        }
      }
    }
    IsContents(js, us, m);
  }

  ghost function Nulls(n: nat): (r: Slots)
    ensures |r| == n && forall i | 0 <= i < n :: r[i] == Null
  {
    if n == 0 then [] else [Null] + Nulls(n - 1)
  }

  lemma {:induction false} UsedMore(ks: Slots, js: Slots)
    requires forall i | 0 <= i < |js| :: js[i] == Null
    ensures Used(ks + js) == Used(ks)
    decreases |ks| + |js|
  {
    if ks != [] {
      assert (ks + js)[1..] == ks[1..] + js;
      UsedMore(ks[1..], js);
    } else if js != [] {
      assert ks + js == js && js == [] + js;
      UsedMore([], js[1..]);
      assert [] + js[1..] == js[1..];
    } else {
      assert ks + js == [];
    }
  }

  /// More free slots.
  lemma Grown(ks: Slots, vs: Slots, js: Slots, us: Slots)
    requires |ks| == |vs| && KeysDiffer(ks) && |js| == |us| && forall i | 0 <= i < |js| :: js[i] == Null
    ensures KeysDiffer(ks + js) && Contents(ks + js, vs + us) == Contents(ks, vs) && Used(ks + js) == Used(ks)
  {
    UsedMore(ks, js);
    var m := Contents(ks, vs);
    forall k
      ensures k in m ==> HasKey(ks + js, k) && m[k] == (vs + us)[Index(ks + js, k)]
      ensures HasKey(ks + js, k) ==> k in m
    {
      ContentsKeys(ks, vs, k);
      if HasKey(ks + js, k) {
        var a := Index(ks + js, k);
        assert a < |ks|;
        SlotOf(ks, vs, a);
      }
      if HasKey(ks, k) { assert Str(k) in ks + js; }
    }
    IsContents(ks + js, vs + us, m);
  }

  lemma NothingStored(ks: Slots, vs: Slots)
    requires |ks| == |vs| && forall i | 0 <= i < |ks| :: ks[i] == Null
    ensures Used(ks) == 0 && Contents(ks, vs) == map[]
  {
    UsedMore([], ks);
    assert [] + ks == ks;
    forall key ensures !HasKey(ks, key) { }
    IsContents(ks, vs, map[]);
  }

  /// On the way from slot n to slot i, around the end, slot j has been passed.
  ghost predicate Passed(n: int, i: int, j: int) { if n <= i then n <= j < i else n <= j || j < i }

  /// The first free slot from n on, around the end.
  ghost predicate FirstFree(ks: Slots, n: int, i: int) {
    0 <= i < |ks| && ks[i] == Null && forall j | 0 <= j < |ks| && Passed(n, i, j) :: ks[j] != Null
  }

  // ---------------------------------------------------------------- the object

  class Dictionary {
    var n: nat
    var size: nat
    var key: array<Text>
    var val: array<Text>
    var hash: array<int>

    /// dictionary_hash
    const hashOf: string -> int

    ghost predicate Valid()
      reads this, key, val, hash
    {
      key != val && key.Length == val.Length == hash.Length == size > 0 &&
      KeysDiffer(key[..]) && Hashed(key[..], hash[..], hashOf) && n == Used(key[..])
    }

    /// The pairs stored.
    ghost function Map(): map<string, Text>
      requires Valid()
      reads this, key, val, hash
    {
      Contents(key[..], val[..])
    }

    /// dictionary_new
    constructor (size: nat, hashOf: string -> int)
      ensures Valid() && fresh(key) && fresh(val) && fresh(hash) && Map() == map[]
      ensures this.hashOf == hashOf && this.size == if size < DICTMINSZ then DICTMINSZ else size
    {
      var m := if size < DICTMINSZ then DICTMINSZ else size;
      this.size := m;
      this.hashOf := hashOf;
      n := 0;
      key := new Text[m](_ => Null);
      val := new Text[m](_ => Null);
      hash := new int[m](_ => 0);
      new;
      hide Contents;
      NothingStored(key[..], val[..]);
    }

    /// The scan for a key, the same in all three operations.
    method Find(k: string) returns (i: nat)
      requires Valid()
      ensures i <= size && (i < size <==> HasKey(key[..], k)) && (i < size ==> key[i] == Str(k))
    {
      var h := hashOf(k);
      i := 0;
      while i < size
        invariant i <= size && forall j | 0 <= j < i :: key[j] != Str(k)
      {
        if key[i] != Null && h == hash[i] && key[i] == Str(k) {
          assert key[i] in key[..];
          return;
        }
        i := i + 1;
      }
    }

    /// dictionary_get
    method Get(k: Text, def: Text) returns (r: Text)
      requires Valid()
      ensures r == if k.Str? && k.s in Map() then Map()[k.s] else def
    {
      if k == Null {
        return def;
      }
      var i := Find(k.s);
      ContentsKeys(key[..], val[..], k.s);
      if i < size {
        SlotOf(key[..], val[..], i);
        return val[i];
      }
      return def;
    }

    /// dictionary_set; memory tells whether a growth gets its memory.
    method Set(k: Text, v: Text, memory: bool) returns (ret: int)
      requires Valid()
      modifies this, key, val, hash
      ensures Valid() && (key == old(key) || fresh(key)) && (val == old(val) || fresh(val)) && (hash == old(hash) || fresh(hash))
      ensures ret == if k == Null || (k.s !in old(Map()) && old(n) == old(size) && !memory) then -1 else 0
      ensures Map() == if ret == 0 then old(Map())[k.s := v] else old(Map())
    {
      if k == Null {
        return -1;
      }
      ContentsKeys(key[..], val[..], k.s);
      if n > 0 {
        var i := Find(k.s);
        if i < size {
          Replaced(key[..], val[..], i, v);
          StoreValue(i, v);
          return 0;
        }
      } else {
        NoKeys(key[..], k.s);
      }
      if n == size {
        if !memory {
          return -1;
        }
        Grow();
        ContentsKeys(key[..], val[..], k.s);
      }
      UsedBound(key[..]);
      Insert(k.s, v);
      return 0;
    }

    method StoreValue(i: nat, v: Text)
      requires Valid() && i < size
      modifies val
      ensures Valid() && val[..] == old(val[..])[i := v]
    {
      ghost var ks := key[..];
      val[i] := v;
      assert key[..] == ks;
    }

    /// dictionary_grow
    method Grow()
      requires Valid()
      modifies this`size, this`key, this`val, this`hash
      ensures Valid() && fresh(key) && fresh(val) && fresh(hash) && size == 2 * old(size) && Map() == old(Map()) && n == old(n)
    {
      hide KeysDiffer, Used, Contents;
      ghost var ks, vs, hs := key[..], val[..], hash[..];
      var newVal := new Text[size * 2](_ => Null);
      var newKey := new Text[size * 2](_ => Null);
      var newHash := new int[size * 2](_ => 0);
      CopyTo(val, newVal);
      CopyTo(key, newKey);
      CopyTo(hash, newHash);
      Grown(ks, vs, newKey[size..], newVal[size..]);
      assert newHash[..] == hs + newHash[size..];
      assert Hashed(newKey[..], newHash[..], hashOf);
      size := size * 2;
      val, key, hash := newVal, newKey, newHash;
    }

    /// memcpy from the old array
    static method CopyTo<T>(src: array<T>, dst: array<T>)
      requires src != dst && src.Length <= dst.Length
      modifies dst
      ensures dst[..] == src[..] + dst[src.Length..] && dst[src.Length..] == old(dst[src.Length..])
    {
      forall i | 0 <= i < src.Length { dst[i] := src[i]; }
    }

    /// The rest of dictionary_set: the first free slot from n on, past the end from 0 on.
    method Insert(k: string, v: Text)
      requires Valid() && n < size && !HasKey(key[..], k)
      modifies this`n, key, val, hash
      ensures Valid() && Map() == old(Map())[k := v] && n == old(n) + 1
      ensures exists i :: FirstFree(old(key[..]), old(n), i) && key[..] == old(key[..])[i := Str(k)]
    {
      ghost var ks, vs := key[..], val[..];
      ghost var free := FreeSlot(ks);
      var i := n;
      while key[i] != Null
        invariant 0 <= i < size && key[..] == ks && val[..] == vs
        invariant forall j | 0 <= j < size && Passed(n, i, j) :: ks[j] != Null
        invariant i < n ==> forall j | n <= j < size :: ks[j] != Null
        decreases if i <= free then free - i else free - i + size
      {
        i := i + 1;
        if i == size {
          i := 0;
        }
      }
      assert FirstFree(ks, n, i);
      Stored(ks, vs, i, k, v);
      UsedUpdate(ks, i, Str(k));
      key[i] := Str(k);
      val[i] := v;
      hash[i] := hashOf(k);
      n := n + 1;
      assert key[..] == ks[i := Str(k)] && val[..] == vs[i := v];
    }

    /// dictionary_unset
    method Unset(k: Text)
      requires Valid()
      modifies this`n, key, val, hash
      ensures Valid() && Map() == old(Map()) - (if k == Null then {} else {k.s})
    {
      hide KeysDiffer, Used, Contents, HasKey;
      if k == Null {
        return;
      }
      var i := Find(k.s);
      ContentsKeys(key[..], val[..], k.s);
      if i >= size {
        return;
      }
      ghost var ks, vs := key[..], val[..];
      Removed(ks, vs, i);
      UsedUpdate(ks, i, Null);
      key[i] := Null;
      if val[i] != Null {
        val[i] := Null;
      }
      hash[i] := 0;
      n := n - 1;
      assert key[..] == ks[i := Null] && val[..] == vs[i := Null];
    }
  }

  lemma {:induction false} NoKeys(ks: Slots, k: string)
    requires Used(ks) == 0
    ensures !HasKey(ks, k)
    decreases |ks|
  {
    if ks != [] {
      NoKeys(ks[1..], k);
      assert Str(k) in ks <==> ks[0] == Str(k) || Str(k) in ks[1..];
    }
  }
}
