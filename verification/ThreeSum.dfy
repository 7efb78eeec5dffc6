/// Three-sum by two pointers moving towards each other over the sorted array.
module ThreeSum {
  import opened Basics

  type Triple = (int, int, int)

  ghost predicate Sorted(s: seq<int>) { forall i, j | 0 <= i < j < |s| :: s[i] <= s[j] }

  /// What is asked for: a value triple in ascending order, standing at three
  /// different indices, with sum zero.
  ghost predicate ZeroTriple(s: seq<int>, t: Triple) {
    t.0 + t.1 + t.2 == 0 && t.0 <= t.1 <= t.2 &&
    exists i, j, k :: At(s, t, i, j, k)
  }

  ghost predicate At(s: seq<int>, t: Triple, i: int, j: int, k: int) {
    0 <= i < |s| && 0 <= j < |s| && 0 <= k < |s| && i != j && j != k && i != k && s[i] == t.0 && s[j] == t.1 && s[k] == t.2
  }

  // ---------------------------------------------------------------- the order of the numbers does not matter

  ghost function Bag(t: Triple): multiset<int> { multiset{t.0, t.1, t.2} }

  lemma TakeOut(s: seq<int>, i: int) returns (r: seq<int>)
    requires 0 <= i < |s|
    ensures r == s[..i] + s[i + 1..] && multiset(s) == multiset(r) + multiset{s[i]}
  {
    r := s[..i] + s[i + 1..];
    assert s == s[..i] + [s[i]] + s[i + 1..];
  }

  lemma IndicesGiveBag(s: seq<int>, t: Triple, i: int, j: int, k: int)
    requires At(s, t, i, j, k)
    ensures Bag(t) <= multiset(s)
  {
    var r := TakeOut(s, i);
    var j' := if j < i then j else j - 1;
    var k' := if k < i then k else k - 1;
    var r' := TakeOut(r, j');
    assert r[j'] == t.1 && r[k'] == t.2;
    assert r'[if k' < j' then k' else k' - 1] == t.2;
    assert t.2 in multiset(r');
  }

  /// A number of the bag m stands somewhere in s; the rest of the bag lies in the rest of s.
  lemma Pick(s: seq<int>, x: int, m: multiset<int>) returns (i: int, r: seq<int>)
    requires multiset{x} + m <= multiset(s)
    ensures 0 <= i < |s| && s[i] == x && r == s[..i] + s[i + 1..] && m <= multiset(r)
  {
    assert x in multiset{x} + m && x in s;
    i :| 0 <= i < |s| && s[i] == x;
    r := TakeOut(s, i);
    forall y
      ensures m[y] <= multiset(r)[y]
    {
      assert (multiset{x} + m)[y] <= multiset(s)[y] == (multiset(r) + multiset{x})[y];
    }
  }

  lemma PairIndices(s: seq<int>, y: int, z: int) returns (j: int, k: int)
    requires multiset{y} + multiset{z} <= multiset(s)
    ensures 0 <= j < |s| && 0 <= k < |s| && j != k && s[j] == y && s[k] == z
  {
    var r, k';
    j, r := Pick(s, y, multiset{z});
    k' := Found(r, z);
    k := PutBack(s, j, k');
  }

  lemma BagGivesIndices(s: seq<int>, t: Triple) returns (i: int, j: int, k: int)
    requires Bag(t) <= multiset(s)
    ensures At(s, t, i, j, k)
  {
    var m := multiset{t.1} + multiset{t.2};
    assert Bag(t) == multiset{t.0} + m;
    var r, j', k';
    i, r := Pick(s, t.0, m);
    j', k' := PairIndices(r, t.1, t.2);
    j := PutBack(s, i, j');
    k := PutBack(s, i, k');
  }

  /// Where the k-th number of s without its i-th number stands in s.
  lemma PutBack(s: seq<int>, i: int, k: int) returns (k': int)
    requires 0 <= i < |s| && 0 <= k < |s| - 1
    ensures 0 <= k' < |s| && k' != i && s[k'] == (s[..i] + s[i + 1..])[k] && k' == if k < i then k else k + 1
  {
    k' := if k < i then k else k + 1;
  }

  lemma Found(s: seq<int>, x: int) returns (k: int)
    requires multiset{x} <= multiset(s)
    ensures 0 <= k < |s| && s[k] == x
  {
    assert x in multiset{x} && x in s;
    k :| 0 <= k < |s| && s[k] == x;
  }

  /// Sorting keeps the zero triples.
  lemma SameTriples(s: seq<int>, u: seq<int>, t: Triple)
    requires multiset(s) == multiset(u)
    ensures ZeroTriple(s, t) <==> ZeroTriple(u, t)
  {
    if ZeroTriple(s, t) {
      var i, j, k :| At(s, t, i, j, k);
      IndicesGiveBag(s, t, i, j, k);
      i, j, k := BagGivesIndices(u, t);
    }
    if ZeroTriple(u, t) {
      var i, j, k :| At(u, t, i, j, k);
      IndicesGiveBag(u, t, i, j, k);
      i, j, k := BagGivesIndices(s, t);
    }
  }

  // ---------------------------------------------------------------- the search over the sorted numbers

  /// t, completing the number at i, has its other two numbers between left and right.
  ghost predicate Between(s: seq<int>, i: int, left: int, right: int, t: Triple) {
    0 <= i < |s| && t.0 == s[i] && t.0 + t.1 + t.2 == 0 && exists b, c :: PairAt(s, t, left, right, b, c)
  }

  ghost predicate PairAt(s: seq<int>, t: Triple, left: int, right: int, b: int, c: int) {
    0 <= left <= b < c <= right < |s| && s[b] == t.1 && s[c] == t.2
  }

  /// In sorted order the indices can be taken in order, the first one as the first place of its number.
  lemma InOrder(s: seq<int>, t: Triple) returns (i: int, j: int, k: int)
    requires Sorted(s) && ZeroTriple(s, t)
    ensures 0 <= i < j < k < |s| && At(s, t, i, j, k)
  {
    var a, b, c :| At(s, t, a, b, c);
    i := if a < b && a < c then a else if b < c then b else c;
    k := if a > b && a > c then a else if b > c then b else c;
    j := a + b + c - i - k;
  }

  /// The triples whose first number stands at i and not before are those found between i + 1 and the end.
  lemma FirstAt(s: seq<int>, i: int, t: Triple)
    requires Sorted(s) && 0 <= i < |s| && s[i] !in s[..i]
    ensures t.0 == s[i] && ZeroTriple(s, t) <==> Between(s, i, i + 1, |s| - 1, t)
  {
    if t.0 == s[i] && ZeroTriple(s, t) {
      var a, b, c := InOrder(s, t);
      forall k | 0 <= k < i ensures s[k] != s[i] { assert s[..i][k] == s[k]; }
      assert PairAt(s, t, i + 1, |s| - 1, b, c);
    }
    if Between(s, i, i + 1, |s| - 1, t) {
      var b, c :| PairAt(s, t, i + 1, |s| - 1, b, c);
      assert At(s, t, i, b, c);
    }
  }

  /// No triple has its first number at the last two places only.
  lemma FirstEarly(s: seq<int>, t: Triple)
    requires Sorted(s) && ZeroTriple(s, t)
    ensures |s| >= 3 && t.0 in s[..|s| - 2]
  {
    var i, j, k := InOrder(s, t);
    assert s[..|s| - 2][i] == t.0;
  }

  lemma TooSmall(s: seq<int>, i: int, left: int, right: int, t: Triple)
    requires Sorted(s) && 0 <= i < left < right < |s| && s[i] + s[left] + s[right] < 0
    ensures Between(s, i, left, right, t) <==> Between(s, i, left + 1, right, t)
  {
    if Between(s, i, left, right, t) {
      var b, c :| PairAt(s, t, left, right, b, c);
      assert s[c] <= s[right];
      assert PairAt(s, t, left + 1, right, b, c);
    }
    if Between(s, i, left + 1, right, t) {
      var b, c :| PairAt(s, t, left + 1, right, b, c);
      assert PairAt(s, t, left, right, b, c);
    }
  }

  lemma TooLarge(s: seq<int>, i: int, left: int, right: int, t: Triple)
    requires Sorted(s) && 0 <= i < left < right < |s| && s[i] + s[left] + s[right] > 0
    ensures Between(s, i, left, right, t) <==> Between(s, i, left, right - 1, t)
  {
    if Between(s, i, left, right, t) {
      var b, c :| PairAt(s, t, left, right, b, c);
      assert s[b] >= s[left];
      assert PairAt(s, t, left, right - 1, b, c);
    }
    if Between(s, i, left, right - 1, t) {
      var b, c :| PairAt(s, t, left, right - 1, b, c);
      assert PairAt(s, t, left, right, b, c);
    }
  }

  /// The places from left to l hold the same number, and l is the last of them before right.
  ghost predicate LastEqual(s: seq<int>, left: int, l: int, right: int) {
    0 <= left <= l <= right < |s| && s[l] == s[left] && (l < right ==> s[l] != s[l + 1])
  }

  ghost predicate FirstEqual(s: seq<int>, left: int, r: int, right: int) {
    0 <= left <= r <= right < |s| && s[r] == s[right] && (left < r ==> s[r] != s[r - 1])
  }

  /// A hit at left and right: what remains between the next different numbers is everything but this triple.
  lemma Hit(s: seq<int>, i: int, left: int, right: int, l: int, r: int, t: Triple)
    requires Sorted(s) && 0 <= i < left < right < |s| && s[i] + s[left] + s[right] == 0
    requires LastEqual(s, left, l, right) && FirstEqual(s, l, r, right)
    ensures Between(s, i, left, right, t) <==> t == (s[i], s[left], s[right]) || Between(s, i, l + 1, r - 1, t)
    ensures !Between(s, i, l + 1, r - 1, (s[i], s[left], s[right]))
  {
    if Between(s, i, left, right, t) && t != (s[i], s[left], s[right]) {
      var b, c :| PairAt(s, t, left, right, b, c);
      assert s[left] < s[b] && s[c] < s[right];
      assert l < b && c < r;
      assert PairAt(s, t, l + 1, r - 1, b, c);
    }
    assert PairAt(s, (s[i], s[left], s[right]), left, right, left, right);
    if Between(s, i, l + 1, r - 1, t) {
      var b, c :| PairAt(s, t, l + 1, r - 1, b, c);
      assert PairAt(s, t, left, right, b, c);
      assert l < b <= right && s[b] >= s[l + 1] > s[l];
    }
  }

  // ---------------------------------------------------------------- the output buffer

  /// The k-th triple of the buffer.
  ghost function Slot(r: seq<int>, k: nat): Triple
    requires 3 * k + 2 < |r|
  {
    (r[3 * k], r[3 * k + 1], r[3 * k + 2])
  }

  /// The buffer holds exactly the triples of out, in this order.
  ghost predicate Written(r: seq<int>, out: seq<Triple>) {
    3 * |out| <= |r| && forall k: nat | k < |out| :: Slot(r, k) == out[k]
  }

  lemma Room(i: nat, n: nat, count: nat)
    requires i < n && count < i * n + n
    ensures count < n * n && 3 * count + 2 < n * n * 3
  {
    TimesStep(i, n);
    TimesLess(i + 1, n);
  }

  lemma Appended(out: seq<Triple>, t: Triple)
    requires NoDup(out) && t !in out
    ensures NoDup(out + [t]) && forall u :: u in out + [t] <==> u in out || u == t
  {
    assert forall u | u in out + [t] :: u in out || u == t;
    assert (out + [t])[|out|] == t;
    assert forall k | 0 <= k < |out| :: (out + [t])[k] == out[k];
  }

  /// threeSum; sorted is what qsort leaves in nums.
  method ThreeSum(nums: array<int>, sorted: seq<int>) returns (result: array<int>, returnSize: nat, ghost out: seq<Triple>)
    requires Sorted(sorted) && multiset(sorted) == multiset(nums[..])
    modifies nums
    ensures nums[..] == sorted
    ensures result.Length == nums.Length * nums.Length * 3 && returnSize <= nums.Length * nums.Length
    ensures |out| == returnSize && Written(result[..], out)
    ensures NoDup(out) && forall t :: t in out <==> ZeroTriple(old(nums[..]), t)
  {
    ghost var before := nums[..];
    SameLength(sorted, nums[..]);
    forall k | 0 <= k < nums.Length { nums[k] := sorted[k]; }
    assert nums[..] == sorted;
    var numsSize := nums.Length;
    result := new int[numsSize * numsSize * 3];
    returnSize, out := 0, [];
    var i := 0;
    while i < numsSize - 2
      invariant 0 <= i && (i <= numsSize - 2 || (i == 0 && numsSize < 2))
      invariant nums[..] == sorted && fresh(result) && result.Length == numsSize * numsSize * 3
      invariant returnSize <= i * numsSize && |out| == returnSize && Written(result[..], out) && NoDup(out)
      invariant forall t :: t in out <==> t.0 in sorted[..i] && ZeroTriple(sorted, t)
    {
      if i > 0 && nums[i] == nums[i - 1] {
        SkipSame(sorted, i);
        TimesStep(i, numsSize);
        i := i + 1;
        continue;
      }
      NewNumber(sorted, i);
      returnSize, out := Complete(nums, i, result, returnSize, out);
      ThisNumber(sorted, i, out);
      TimesStep(i, numsSize);
      i := i + 1;
    }
    forall t
      ensures t in out <==> ZeroTriple(before, t)
    {
      SameTriples(sorted, before, t);
      if ZeroTriple(sorted, t) { FirstEarly(sorted, t); }
    }
    if i <= numsSize { TimesLess(i, numsSize); }
  }

  lemma SameLength(s: seq<int>, u: seq<int>)
    requires multiset(s) == multiset(u)
    ensures |s| == |u|
  {
    assert |multiset(s)| == |s| && |multiset(u)| == |u|;
  }

  lemma TimesStep(i: nat, n: nat)
    ensures (i + 1) * n == i * n + n
  {
  }

  lemma TimesLess(i: nat, n: nat)
    requires i <= n
    ensures i * n <= n * n
  {
    var d: nat := n - i;
    assert n * n == (i + d) * n == i * n + d * n;
  }

  lemma SkipSame(s: seq<int>, i: int)
    requires 0 < i < |s| && s[i] == s[i - 1]
    ensures forall x :: x in s[..i + 1] <==> x in s[..i]
  {
    assert s[..i + 1] == s[..i] + [s[i]];
    assert s[..i][i - 1] == s[i];
  }

  lemma NewNumber(s: seq<int>, i: int)
    requires Sorted(s) && 0 <= i < |s| && (i > 0 ==> s[i] != s[i - 1])
    ensures s[i] !in s[..i]
  {
    forall k | 0 <= k < i
      ensures s[..i][k] != s[i]
    {
      assert s[k] <= s[i - 1] <= s[i];
    }
  }

  lemma ThisNumber(s: seq<int>, i: int, out: seq<Triple>)
    requires Sorted(s) && 0 <= i < |s| && s[i] !in s[..i]
    requires forall t :: t in out <==> (t.0 in s[..i] && ZeroTriple(s, t)) || Between(s, i, i + 1, |s| - 1, t)
    ensures forall t :: t in out <==> t.0 in s[..i + 1] && ZeroTriple(s, t)
  {
    forall t: Triple
      ensures t in out <==> t.0 in s[..i + 1] && ZeroTriple(s, t)
    {
      FirstAt(s, i, t);
      assert s[..i + 1] == s[..i] + [s[i]];
    }
  }

  /// The inner loop: every completion of the number at i, each once.
  method Complete(nums: array<int>, i: nat, result: array<int>, count: nat, ghost found: seq<Triple>) returns (returnSize: nat, ghost out: seq<Triple>)
    requires Sorted(nums[..]) && i < nums.Length - 2 && nums[i] !in nums[..i] && nums != result
    requires result.Length == nums.Length * nums.Length * 3 && count <= i * nums.Length
    requires |found| == count && Written(result[..], found) && NoDup(found) && forall t | t in found :: t.0 in nums[..i]
    modifies result
    ensures returnSize <= i * nums.Length + nums.Length
    ensures |out| == returnSize && Written(result[..], out) && NoDup(out)
    ensures forall t :: t in out <==> t in found || Between(nums[..], i, i + 1, nums.Length - 1, t)
  {
    hide ZeroTriple, Between, NoDup;
    returnSize, out := count, found;
    var left, right := i + 1, nums.Length - 1;
    ghost var s := nums[..];
    forall t | t in out ensures !Between(s, i, left, right, t) { StartsAt(s, i, left, right, t); }
    while left < right
      invariant i < left <= nums.Length && -1 <= right < nums.Length && nums[..] == s
      invariant returnSize <= i * nums.Length + left - i - 1 && |out| == returnSize && Written(result[..], out) && NoDup(out)
      invariant forall t :: t in out || Between(s, i, left, right, t) <==> t in found || Between(s, i, i + 1, nums.Length - 1, t)
      invariant forall t | t in out :: !Between(s, i, left, right, t)
      decreases right - left
    {
      var sum := nums[i] + nums[left] + nums[right];
      if sum == 0 {
        ghost var l0, r0, t0 := left, right, (nums[i], nums[left], nums[right]);
        Room(i, nums.Length, returnSize);
        Write(result, returnSize, nums[i], nums[left], nums[right], out);
        returnSize := returnSize + 1;
        while left < right && nums[left] == nums[left + 1]
          invariant l0 <= left <= right && s[left] == s[l0]
        {
          left := left + 1;
        }
        while left < right && nums[right] == nums[right - 1]
          invariant left <= right <= r0 && s[right] == s[r0]
        {
          right := right - 1;
        }
        HitFound(s, i, l0, r0, left, right, out, t0);
        out := out + [t0];
        left := left + 1;
        right := right - 1;
      } else if sum < 0 {
        forall t ensures Between(s, i, left, right, t) <==> Between(s, i, left + 1, right, t) { TooSmall(s, i, left, right, t); }
        left := left + 1;
      } else {
        forall t ensures Between(s, i, left, right, t) <==> Between(s, i, left, right - 1, t) { TooLarge(s, i, left, right, t); }
        right := right - 1;
      }
    }
    forall t ensures !Between(s, i, left, right, t) { NothingLeft(s, i, left, right, t); }
  }

  lemma StartsAt(s: seq<int>, i: int, left: int, right: int, t: Triple)
    requires 0 <= i < |s| && t.0 != s[i]
    ensures !Between(s, i, left, right, t)
  {
  }

  lemma NothingLeft(s: seq<int>, i: int, left: int, right: int, t: Triple)
    requires left >= right
    ensures !Between(s, i, left, right, t)
  {
  }

  /// A hit has not been written before, and it is all that the skipped places hold.
  lemma HitFound(s: seq<int>, i: int, left: int, right: int, l: int, r: int, out: seq<Triple>, t0: Triple)
    requires Sorted(s) && 0 <= i < left < right < |s| && t0 == (s[i], s[left], s[right]) && t0.0 + t0.1 + t0.2 == 0
    requires LastEqual(s, left, l, right) && FirstEqual(s, l, r, right)
    requires NoDup(out) && forall t | t in out :: !Between(s, i, left, right, t)
    ensures NoDup(out + [t0]) && forall t :: t in out + [t0] || Between(s, i, l + 1, r - 1, t) <==> t in out || Between(s, i, left, right, t)
    ensures forall t | t in out + [t0] :: !Between(s, i, l + 1, r - 1, t)
  {
    hide Between, NoDup;
    forall t: Triple
      ensures Between(s, i, left, right, t) <==> t == t0 || Between(s, i, l + 1, r - 1, t)
    {
      Hit(s, i, left, right, l, r, t);
    }
    Hit(s, i, left, right, l, r, t0);
    Appended(out, t0);
  }

  /// The three stores of one triple.
  method Write(result: array<int>, k: nat, x: int, y: int, z: int, ghost out: seq<Triple>)
    requires 3 * k + 2 < result.Length && k == |out| && Written(result[..], out)
    modifies result
    ensures Written(result[..], out + [(x, y, z)])
  {
    ghost var r := result[..];
    result[k * 3] := x;
    result[k * 3 + 1] := y;
    result[k * 3 + 2] := z;
    forall m: nat | m < |out| + 1
      ensures Slot(result[..], m) == (out + [(x, y, z)])[m]
    {
      if m < |out| { assert Slot(r, m) == out[m]; }
    }
  }
}
