/// Floyd's cycle detection over a linked structure that is only read.
module CycleCheck {
  import opened Basics

  class ListNode {
    var data: int
    var next: ListNode?

    constructor (data: int)
      ensures this.data == data && next == null
    {
      this.data := data;
      next := null;
    }
  }

  /// Following next never leaves the nodes of S.
  ghost predicate Closed(S: set<ListNode>, head: ListNode?)
    reads S
  {
    (head == null || head in S) && forall x | x in S :: x.next == null || x.next in S
  }

  /// The node reached from head in k steps, or null past the end.
  ghost function Walk(S: set<ListNode>, head: ListNode?, k: nat): (r: ListNode?)
    requires Closed(S, head)
    reads S
    ensures r == null || r in S
  {
    if k == 0 then head
    else
      var p := Walk(S, head, k - 1);
      if p == null then null else p.next
  }

  /// Following next from head comes back to a node.
  ghost predicate Revisits(S: set<ListNode>, head: ListNode?)
    requires Closed(S, head)
    reads S
  {
    exists i: nat, j: nat :: i < j && Walk(S, head, i) != null && Walk(S, head, i) == Walk(S, head, j)
  }

  lemma {:induction false} NullStays(S: set<ListNode>, head: ListNode?, i: nat, j: nat)
    requires Closed(S, head) && i <= j && Walk(S, head, i) == null
    ensures Walk(S, head, j) == null
    decreases j - i
  {
    if i < j {
      NullStays(S, head, i, j - 1);
    }
  }

  /// From a node that is met again on, the walk repeats with the same period.
  lemma {:induction false} Shifted(S: set<ListNode>, head: ListNode?, i: nat, j: nat, d: nat)
    requires Closed(S, head) && Walk(S, head, i) == Walk(S, head, j)
    ensures Walk(S, head, i + d) == Walk(S, head, j + d)
    decreases d
  {
    if d > 0 {
      Shifted(S, head, i, j, d - 1);
    }
  }

  lemma {:induction false} Periodic(S: set<ListNode>, head: ListNode?, i: nat, period: nat, turns: nat)
    requires Closed(S, head) && Walk(S, head, i) == Walk(S, head, i + period)
    ensures Walk(S, head, i) == Walk(S, head, i + turns * period)
    decreases turns
  {
    if turns > 0 {
      Periodic(S, head, i, period, turns - 1);
      Shifted(S, head, i, i + (turns - 1) * period, period);
      assert i + (turns - 1) * period + period == i + turns * period;
    }
  }

  /// A walk that comes back to a node never ends.
  lemma {:induction false} Endless(S: set<ListNode>, head: ListNode?, i: nat, j: nat, k: nat)
    requires Closed(S, head) && i < j && Walk(S, head, i) != null && Walk(S, head, i) == Walk(S, head, j)
    ensures Walk(S, head, k) != null
  {
    if Walk(S, head, k) == null {
      var period: nat := j - i;
      Periodic(S, head, i, period, k);
      var far := Far(i, period, k);
      NullStays(S, head, k, far);
      assert false;
    }
  }

  lemma Far(i: nat, period: nat, k: nat) returns (far: nat)
    requires period > 0
    ensures far == i + k * period && far >= k
  {
    assert k * period == k + k * (period - 1);
    far := i + k * period;
  }

  lemma {:induction false} Pigeons(s: seq<ListNode>, S: set<ListNode>)
    requires NoDup(s) && forall x | x in s :: x in S
    ensures |s| <= |S|
    decreases |s|
  {
    if s != [] {
      var k := |s| - 1;
      forall x | x in s[..k]
        ensures x in S - {s[k]}
      {
        var i :| 0 <= i < k && s[i] == x;
      }
      Pigeons(s[..k], S - {s[k]});
    }
  }

  /// Within |S| steps the walk ends or comes back to a node.
  lemma EndOrRevisit(S: set<ListNode>, head: ListNode?) returns (i: nat, j: nat)
    requires Closed(S, head)
    ensures i <= j <= |S|
    ensures if i < j then Walk(S, head, i) != null && Walk(S, head, i) == Walk(S, head, j) else Walk(S, head, j) == null
  {
    var seen: seq<ListNode>, k: nat := [], 0;
    while Walk(S, head, k) != null
      invariant |seen| == k <= |S| && NoDup(seen)
      invariant forall m: nat | m < k :: seen[m] in S && Walk(S, head, m) == seen[m]
      decreases |S| - k
    {
      var x: ListNode := Walk(S, head, k);
      if m: nat :| m < k && seen[m] == x {
        return m, k;
      }
      seen := seen + [x];
      k := k + 1;
      Pigeons(seen, S);
    }
    return k, k;
  }

  /// The round at which the two pointers meet at the latest, if the walk does not end before:
  /// the first round past the tail at which their distance is a multiple of the period.
  lemma Meeting(S: set<ListNode>, head: ListNode?) returns (n: nat)
    requires Closed(S, head)
    ensures n <= |S|
    ensures Walk(S, head, n) == null || (n < |S| && Walk(S, head, n) == Walk(S, head, 2 * n + 1))
  {
    var i, j := EndOrRevisit(S, head);
    if i == j {
      return i;
    }
    var period: nat := j - i;
    var turns: nat := i / period + 1;
    n := turns * period - 1;
    assert i <= n < i + period by { MultipleAbove(i, period); }
    Shifted(S, head, i, j, n - i);
    Periodic(S, head, n, period, turns);
    assert n + turns * period == 2 * n + 1;
  }

  lemma MultipleAbove(i: nat, period: nat)
    requires period > 0
    ensures i < (i / period + 1) * period <= i + period
  {
    assert i == i / period * period + i % period;
    assert (i / period + 1) * period == i / period * period + period;
  }

  /// hasCycle: after k rounds slow is k steps and fast 2k + 1 steps from head.
  method HasCycle(head: ListNode?, ghost S: set<ListNode>) returns (cyclic: bool, ghost rounds: nat)
    requires Closed(S, head)
    ensures cyclic <==> Revisits(S, head)
    ensures rounds <= |S|
  {
    rounds := 0;
    if head == null || head.next == null {
      assert Walk(S, head, 1) == null;
      EndsOnce(S, head, 1);
      return false, rounds;
    }
    var slow, fast := head, head.next;
    assert fast == Walk(S, head, 1);
    ghost var n: nat := Meeting(S, head);
    while slow != fast
      invariant slow == Walk(S, head, rounds) && fast == Walk(S, head, 2 * rounds + 1) && slow != null
      invariant rounds <= n
      decreases n - rounds
    {
      if fast == null || fast.next == null {
        assert Walk(S, head, 2 * rounds + 2) == null;
        EndsOnce(S, head, 2 * rounds + 2);
        return false, rounds;
      }
      ghost var k := rounds;
      assert Walk(S, head, 2 * k + 2) == fast.next;
      if Walk(S, head, n) == null && n <= 2 * k + 2 {
        NullStays(S, head, n, 2 * k + 2);
      }
      if Walk(S, head, k + 1) == null {
        NullStays(S, head, k + 1, 2 * k + 2);
      }
      slow := slow.next;
      fast := fast.next.next;
      rounds := rounds + 1;
      assert fast == Walk(S, head, 2 * k + 3);
    }
    return true, rounds;
  }

  /// A walk that ends never comes back to a node.
  lemma EndsOnce(S: set<ListNode>, head: ListNode?, k: nat)
    requires Closed(S, head) && Walk(S, head, k) == null
    ensures !Revisits(S, head)
  {
    if i: nat, j: nat :| i < j && Walk(S, head, i) != null && Walk(S, head, i) == Walk(S, head, j) {
      Endless(S, head, i, j, k);
      assert false;
    }
  }
}
