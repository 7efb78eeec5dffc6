/// The thread pool: every locked region is one step, and the steps of the creating
/// thread, of the workers and of the clients interleave in any way.
module ThreadPool {

  /// A task; the function 0 is NULL.
  datatype Task = Task(func: int, arg: int)

  datatype Mode = Open | Immediate | Graceful

  const MAX_THREADS := 16
  const MAX_QUEUE := 256

  // ---------------------------------------------------------------- the shared state and its locked regions

  datatype Pool = Pool(queue: seq<Task>, head: int, tail: int, count: int, shutdown: Mode, started: int)

  /// What a worker does when it leaves its region.
  datatype Turn = Sleep | Leave | Take(task: Task)

  ghost predicate Ring(p: Pool) {
    var n := |p.queue|;
    n > 0 && 0 <= p.head < n && 0 <= p.count <= n && p.tail == Wrap(p.head + p.count, n)
  }

  ghost function Wrap(x: int, n: int): int { if x < n then x else x - n }

  /// The k-th oldest task.
  ghost function Slot(p: Pool, k: int): Task
    requires Ring(p) && 0 <= k < p.count
  {
    p.queue[Wrap(p.head + k, |p.queue|)]
  }

  /// What waits in the circular queue, oldest first.
  ghost function Queued(p: Pool): seq<Task>
    requires Ring(p)
  {
    seq(p.count, k requires 0 <= k < p.count => Slot(p, k))
  }

  /// From the lock to the wait, to the unlock, or to the exit of the thread.
  ghost function Region(p: Pool): (Pool, Turn)
    requires Ring(p)
  {
    if p.count == 0 && p.shutdown == Open then (p, Sleep)
    else if p.shutdown == Immediate || (p.shutdown == Graceful && p.count == 0) then (p.(started := p.started - 1), Leave)
    else (p.(head := (p.head + 1) % |p.queue|, count := p.count - 1), Take(p.queue[p.head]))
  }

  const EINVAL := 22

  /// threadpool_add, without the signal.
  ghost function Put(p: Pool, t: Task): (Pool, int)
    requires Ring(p)
  {
    if t.func == 0 then (p, -EINVAL)
    else if p.count == |p.queue| then (p, -1)
    else if p.shutdown != Open then (p, -1)
    else (p.(queue := p.queue[p.tail := t], tail := (p.tail + 1) % |p.queue|, count := p.count + 1), 0)
  }

  lemma StepWraps(x: int, n: int)
    requires 0 <= x < n
    ensures (x + 1) % n == Wrap(x + 1, n)
  {
  }

  /// Taking removes the oldest task.
  lemma TakesFirst(p: Pool)
    requires Ring(p) && Region(p).1.Take?
    ensures Ring(Region(p).0) && Queued(p) == [Region(p).1.task] + Queued(Region(p).0)
  {
    StepWraps(p.head, |p.queue|);
    var p' := Region(p).0;
    assert Ring(p');
    forall k | 0 <= k < p'.count
      ensures Slot(p', k) == Slot(p, k + 1)
    {
    }
  }

  /// An accepted task becomes the youngest; no queued task is overwritten.
  lemma PutsLast(p: Pool, t: Task)
    requires Ring(p)
    ensures Ring(Put(p, t).0)
    ensures Put(p, t).1 == 0 <==> t.func != 0 && p.count < |p.queue| && p.shutdown == Open
    ensures Queued(Put(p, t).0) == if Put(p, t).1 == 0 then Queued(p) + [t] else Queued(p)
  {
    if Put(p, t).1 == 0 {
      StepWraps(p.tail, |p.queue|);
      var p' := Put(p, t).0;
      assert Ring(p');
      forall k | 0 <= k < p.count
        ensures Slot(p', k) == Slot(p, k)
      {
      }
      assert Slot(p', p.count) == t;
      assert Queued(p') == Queued(p) + [t];
    }
  }

  // ---------------------------------------------------------------- workers

  datatype Worker = NotCreated | AtLock | Waiting | Running(task: Task) | Exited

  ghost function Num(ws: seq<Worker>, like: Worker): nat {
    if ws == [] then 0 else (if Same(ws[0], like) then 1 else 0) + Num(ws[1..], like)
  }

  /// The same place in the thread function.
  ghost predicate Same(w: Worker, v: Worker) {
    w == v || (w.Running? && v.Running?)
  }

  lemma {:induction false} NumUpdate(ws: seq<Worker>, i: nat, w: Worker, like: Worker)
    requires i < |ws|
    ensures Num(ws[i := w], like) == Num(ws, like) - (if Same(ws[i], like) then 1 else 0) + if Same(w, like) then 1 else 0
    decreases |ws|
  {
    var us := ws[i := w];
    if i == 0 {
      assert us[1..] == ws[1..];
    } else {
      assert us[1..] == ws[1..][i - 1 := w];
      NumUpdate(ws[1..], i - 1, w, like);
    }
  }

  lemma {:induction false} NumZero(ws: seq<Worker>, like: Worker)
    ensures Num(ws, like) == 0 <==> forall i | 0 <= i < |ws| :: !Same(ws[i], like)
    ensures Num(ws, like) == |ws| <==> forall i | 0 <= i < |ws| :: Same(ws[i], like)
    ensures Num(ws, like) <= |ws|
    decreases |ws|
  {
    if ws != [] {
      NumZero(ws[1..], like);
      assert forall i | 0 < i < |ws| :: ws[i] == ws[1..][i - 1];
      assert forall i | 0 <= i < |ws| - 1 :: ws[1..][i] == ws[i + 1];
    }
  }

  /// What is being executed.
  ghost function InHand(ws: seq<Worker>): multiset<Task> {
    if ws == [] then multiset{} else Hand(ws[0]) + InHand(ws[1..])
  }

  ghost function Hand(w: Worker): multiset<Task> { if w.Running? then multiset{w.task} else multiset{} }

  lemma {:induction false} InHandUpdate(ws: seq<Worker>, i: nat, w: Worker)
    requires i < |ws|
    ensures InHand(ws[i := w]) + Hand(ws[i]) == InHand(ws) + Hand(w)
    decreases |ws|
  {
    var us := ws[i := w];
    if i == 0 {
      assert us[1..] == ws[1..];
    } else {
      assert us[1..] == ws[1..][i - 1 := w];
      InHandUpdate(ws[1..], i - 1, w);
      Regroup(Hand(ws[0]), InHand(us[1..]), Hand(ws[i]), InHand(ws[1..]), Hand(w));
    }
  }

  lemma Regroup(h: multiset<Task>, a: multiset<Task>, x: multiset<Task>, b: multiset<Task>, y: multiset<Task>)
    requires a + x == b + y
    ensures h + a + x == h + b + y
  {
    assert h + a + x == h + (a + x) && h + b + y == h + (b + y);
  }

  /// pthread_cond_broadcast.
  ghost function WakeAll(ws: seq<Worker>): (r: seq<Worker>)
    ensures |r| == |ws| && forall i | 0 <= i < |ws| :: r[i] == if ws[i] == Waiting then AtLock else ws[i]
  {
    if ws == [] then [] else [if ws[0] == Waiting then AtLock else ws[0]] + WakeAll(ws[1..])
  }

  lemma {:induction false} WokenAll(ws: seq<Worker>)
    ensures Num(WakeAll(ws), Waiting) == 0 && Num(WakeAll(ws), Exited) == Num(ws, Exited) && Num(WakeAll(ws), NotCreated) == Num(ws, NotCreated)
    ensures InHand(WakeAll(ws)) == InHand(ws)
    decreases |ws|
  {
    if ws != [] {
      WokenAll(ws[1..]);
      assert WakeAll(ws)[1..] == WakeAll(ws[1..]);
    }
  }

  // ---------------------------------------------------------------- the whole system

  /// counted is how many times the creating thread has incremented started. The last
  /// three are history: what was accepted, taken from the queue, and executed.
  datatype Sys = Sys(pool: Pool, workers: seq<Worker>, created: nat, counted: nat, accepted: seq<Task>, taken: seq<Task>, done: seq<Task>)

  datatype Step =
    | Create                          // pthread_create
    | Count                           // pool->started++ after it
    | Work(i: nat)                    // the locked region of worker i
    | Finish(i: nat)                  // worker i has executed its task
    | Wake(i: nat)                    // a wake-up without a signal, or a signal that wakes more than one
    | Add(task: Task, woken: int)     // threadpool_add; the signal wakes one waiting worker, if there is one
    | Destroy(mode: Mode)             // the locked region of threadpool_destroy

  ghost predicate IsWaiting(s: Sys, i: int) { 0 <= i < |s.workers| && s.workers[i] == Waiting }

  ghost predicate Created(s: Sys) { s.created == s.counted == |s.workers| }

  ghost predicate Enabled(s: Sys, a: Step) {
    match a
    case Create => s.created == s.counted < |s.workers| && s.workers[s.created] == NotCreated
    case Count => s.counted < s.created
    case Work(i) => i < |s.workers| && s.workers[i] == AtLock
    case Finish(i) => i < |s.workers| && s.workers[i].Running?
    case Wake(i) => IsWaiting(s, i)
    case Add(t, w) => Created(s) && (IsWaiting(s, w) || (w == -1 && forall i | 0 <= i < |s.workers| :: !IsWaiting(s, i)))
    case Destroy(m) => Created(s) && m != Open
  }

  ghost function After(turn: Turn): Worker {
    match turn
    case Sleep => Waiting
    case Leave => Exited
    case Take(t) => Running(t)
  }

  ghost function Apply(s: Sys, a: Step): Sys
    requires Ring(s.pool) && Enabled(s, a)
  {
    match a
    case Create => s.(workers := s.workers[s.created := AtLock], created := s.created + 1)
    case Count => s.(pool := s.pool.(started := s.pool.started + 1), counted := s.counted + 1)
    case Work(i) =>
      var (p, turn) := Region(s.pool);
      s.(pool := p, workers := s.workers[i := After(turn)], taken := if turn.Take? then s.taken + [turn.task] else s.taken)
    case Finish(i) => s.(workers := s.workers[i := AtLock], done := s.done + [s.workers[i].task])
    case Wake(i) => s.(workers := s.workers[i := AtLock])
    case Add(t, w) =>
      var (p, ret) := Put(s.pool, t);
      if ret != 0 then s
      else s.(pool := p, accepted := s.accepted + [t], workers := if w == -1 then s.workers else s.workers[w := AtLock])
    case Destroy(m) => s.(pool := s.pool.(shutdown := m), workers := WakeAll(s.workers))
  }

  /// threadpool_create before its loop.
  ghost predicate Init(s: Sys) {
    s.pool.queue != [] && s.pool.head == s.pool.tail == s.pool.count == s.pool.started == 0 && s.pool.shutdown == Open &&
    s.created == s.counted == 0 && s.accepted == s.taken == s.done == [] && forall i | 0 <= i < |s.workers| :: s.workers[i] == NotCreated
  }

  // ---------------------------------------------------------------- what every step keeps

  /// The queue holds what was accepted and not yet taken, in order.
  ghost predicate Fifo(s: Sys) { Ring(s.pool) && s.accepted == s.taken + Queued(s.pool) }

  /// Every task taken is being executed or has been, once.
  ghost predicate Once(s: Sys) { multiset(s.taken) == multiset(s.done) + InHand(s.workers) }

  /// If a worker sleeps, then for every queued task another worker is awake and on its way to the lock.
  ghost predicate Attended(s: Sys) { Num(s.workers, Waiting) > 0 ==> s.pool.count <= Num(s.workers, AtLock) }

  ghost predicate Closing(s: Sys) {
    (s.pool.shutdown != Open ==> Num(s.workers, Waiting) == 0) && (s.pool.shutdown == Open ==> Num(s.workers, Exited) == 0)
  }

  /// Nothing but sleeping happens before all the threads are created and counted,
  /// and started counts the living ones that the creating thread has counted.
  ghost predicate Counting(s: Sys) {
    s.counted <= s.created <= |s.workers| && Num(s.workers, NotCreated) == |s.workers| - s.created &&
    s.pool.started == s.counted - Num(s.workers, Exited) &&
    (forall i | s.created <= i < |s.workers| :: s.workers[i] == NotCreated) &&
    (!Created(s) ==> s.pool.shutdown == Open && s.pool.count == 0)
  }

  ghost predicate Inv(s: Sys) { Fifo(s) && Once(s) && Attended(s) && Closing(s) && Counting(s) }

  lemma InitInv(s: Sys)
    requires Init(s)
    ensures Inv(s)
  {
    NumZero(s.workers, Waiting);
    NumZero(s.workers, Exited);
    NumZero(s.workers, NotCreated);
    NoneInHand(s.workers);
    assert Queued(s.pool) == [];
  }

  lemma {:induction false} NoneInHand(ws: seq<Worker>)
    requires forall i | 0 <= i < |ws| :: !ws[i].Running?
    ensures InHand(ws) == multiset{}
    decreases |ws|
  {
    if ws != [] {
      NoneInHand(ws[1..]);
    }
  }

  /// How the counts change when worker i moves on from v to w.
  ghost predicate Changed(ws: seq<Worker>, us: seq<Worker>, v: Worker, w: Worker, like: Worker) {
    Num(us, like) == Num(ws, like) - (if Same(v, like) then 1 else 0) + if Same(w, like) then 1 else 0
  }

  const BUSY := Running(Task(0, 0))

  lemma Moves(ws: seq<Worker>, i: nat, w: Worker)
    requires i < |ws|
    ensures var us := ws[i := w];
            Changed(ws, us, ws[i], w, NotCreated) && Changed(ws, us, ws[i], w, AtLock) && Changed(ws, us, ws[i], w, Waiting) &&
            Changed(ws, us, ws[i], w, BUSY) && Changed(ws, us, ws[i], w, Exited)
    ensures !ws[i].Running? ==> InHand(ws[i := w]) == InHand(ws) + Hand(w)
  {
    NumUpdate(ws, i, w, NotCreated);
    NumUpdate(ws, i, w, AtLock);
    NumUpdate(ws, i, w, Waiting);
    NumUpdate(ws, i, w, BUSY);
    NumUpdate(ws, i, w, Exited);
    InHandUpdate(ws, i, w);
  }

  lemma WorkKeeps(s: Sys, i: nat)
    requires Inv(s) && Enabled(s, Work(i))
    ensures Inv(Apply(s, Work(i)))
  {
    hide Num, InHand, Queued;
    match Region(s.pool).1
    case Sleep => SleepKeeps(s, i);
    case Leave => LeaveKeeps(s, i);
    case Take(t) => TakeKeeps(s, i);
  }

  lemma SleepKeeps(s: Sys, i: nat)
    requires Inv(s) && Enabled(s, Work(i)) && Region(s.pool).1.Sleep?
    ensures Inv(Apply(s, Work(i)))
  {
    hide Num, InHand, Queued;
    Moves(s.workers, i, Waiting);
  }

  lemma LeaveKeeps(s: Sys, i: nat)
    requires Inv(s) && Enabled(s, Work(i)) && Region(s.pool).1.Leave?
    ensures Inv(Apply(s, Work(i)))
  {
    hide Num, InHand, Queued;
    Moves(s.workers, i, Exited);
    SameQueue(s.pool, Region(s.pool).0);
  }

  lemma TakeKeeps(s: Sys, i: nat)
    requires Inv(s) && Enabled(s, Work(i)) && Region(s.pool).1.Take?
    ensures Inv(Apply(s, Work(i)))
  {
    hide Num, InHand, Queued;
    var (p, turn) := Region(s.pool);
    Moves(s.workers, i, Running(turn.task));
    TakesFirst(s.pool);
    assert s.taken + ([turn.task] + Queued(p)) == (s.taken + [turn.task]) + Queued(p);
    assert Once(Apply(s, Work(i))) by {
      assert multiset(s.taken + [turn.task]) == multiset(s.taken) + multiset{turn.task};
    }
  }

  lemma SameQueue(p: Pool, q: Pool)
    requires Ring(p) && q.queue == p.queue && q.head == p.head && q.tail == p.tail && q.count == p.count
    ensures Ring(q) && Queued(q) == Queued(p)
  {
    assert forall k | 0 <= k < p.count :: Slot(q, k) == Slot(p, k);
  }

  lemma FinishKeeps(s: Sys, i: nat)
    requires Inv(s) && Enabled(s, Finish(i))
    ensures Inv(Apply(s, Finish(i)))
  {
    hide Num, InHand, Queued, Once;
    Moves(s.workers, i, AtLock);
    assert Once(Apply(s, Finish(i))) by { HandedOver(s, i); }
  }

  lemma HandedOver(s: Sys, i: nat)
    requires Once(s) && i < |s.workers| && s.workers[i].Running?
    ensures Once(s.(workers := s.workers[i := AtLock], done := s.done + [s.workers[i].task]))
  {
    hide InHand;
    InHandUpdate(s.workers, i, AtLock);
    var m, t := InHand(s.workers[i := AtLock]), s.workers[i].task;
    assert m + multiset{t} == InHand(s.workers);
    assert multiset(s.done + [t]) == multiset(s.done) + multiset{t};
    assert multiset(s.done) + multiset{t} + m == multiset(s.done) + (m + multiset{t});
  }

  lemma WakeKeeps(s: Sys, i: nat)
    requires Inv(s) && Enabled(s, Wake(i))
    ensures Inv(Apply(s, Wake(i)))
  {
    hide Num, InHand, Queued;
    Moves(s.workers, i, AtLock);
  }

  lemma AddKeeps(s: Sys, t: Task, w: int)
    requires Inv(s) && Enabled(s, Add(t, w))
    ensures Inv(Apply(s, Add(t, w)))
  {
    hide Num, InHand, Queued;
    PutsLast(s.pool, t);
    assert s.taken + (Queued(s.pool) + [t]) == (s.taken + Queued(s.pool)) + [t];
    if w != -1 {
      Moves(s.workers, w, AtLock);
    } else {
      assert forall i | 0 <= i < |s.workers| :: IsWaiting(s, i) == Same(s.workers[i], Waiting);
      NumZero(s.workers, Waiting);
    }
  }

  lemma DestroyKeeps(s: Sys, m: Mode)
    requires Inv(s) && Enabled(s, Destroy(m))
    ensures Inv(Apply(s, Destroy(m)))
  {
    hide Num, InHand, Queued;
    WokenAll(s.workers);
    SameQueue(s.pool, Apply(s, Destroy(m)).pool);
  }

  lemma CreateKeeps(s: Sys)
    requires Inv(s) && Enabled(s, Create)
    ensures Inv(Apply(s, Create))
  {
    hide Num, InHand, Queued;
    Moves(s.workers, s.created, AtLock);
  }

  lemma CountKeeps(s: Sys)
    requires Inv(s) && Enabled(s, Count)
    ensures Inv(Apply(s, Count))
  {
    hide Num, InHand, Queued;
    SameQueue(s.pool, Apply(s, Count).pool);
  }

  lemma StepKeeps(s: Sys, a: Step)
    requires Inv(s) && Enabled(s, a)
    ensures Inv(Apply(s, a))
  {
    hide Inv, Apply, Enabled;
    match a
    case Create => CreateKeeps(s);
    case Count => CountKeeps(s);
    case Work(i) => WorkKeeps(s, i);
    case Finish(i) => FinishKeeps(s, i);
    case Wake(i) => WakeKeeps(s, i);
    case Add(t, w) => AddKeeps(s, t, w);
    case Destroy(m) => DestroyKeeps(s, m);
  }

  /// The states after each prefix of the steps; every step is enabled.
  ghost predicate Run(s: Sys, steps: seq<Step>, end: Sys)
    decreases |steps|
  {
    if steps == [] then s == end
    else Ring(s.pool) && Enabled(s, steps[0]) && Run(Apply(s, steps[0]), steps[1..], end)
  }

  lemma {:induction false} RunKeeps(s: Sys, steps: seq<Step>, end: Sys)
    requires Inv(s) && Run(s, steps, end)
    ensures Inv(end)
    decreases |steps|
  {
    if steps != [] {
      StepKeeps(s, steps[0]);
      RunKeeps(Apply(s, steps[0]), steps[1..], end);
    }
  }

  ghost predicate Reachable(s: Sys, s0: Sys, steps: seq<Step>) { Init(s0) && Run(s0, steps, s) }

  // ---------------------------------------------------------------- the theorems

  /// Accepted tasks are taken in the order of acceptance, each once, and each task taken
  /// is executed once or being executed.
  lemma TakenInOrder(s: Sys, s0: Sys, steps: seq<Step>)
    requires Reachable(s, s0, steps)
    ensures s.taken <= s.accepted && |s.accepted| == |s.taken| + s.pool.count && 0 <= s.pool.count <= |s.pool.queue|
    ensures multiset(s.taken) == multiset(s.done) + InHand(s.workers)
  {
    InitInv(s0);
    RunKeeps(s0, steps, s);
  }

  /// While a task is queued and a worker lives, some living worker is not in the wait; more
  /// than that, as long as one sleeps there are as many on their way to the lock as tasks.
  lemma NeverAllAsleep(s: Sys, s0: Sys, steps: seq<Step>)
    requires Reachable(s, s0, steps) && s.pool.count > 0
    ensures Num(s.workers, Waiting) > 0 ==> Num(s.workers, AtLock) >= s.pool.count
    ensures (forall i | 0 <= i < |s.workers| :: s.workers[i] == Waiting || s.workers[i] == Exited) ==> Num(s.workers, Exited) == |s.workers|
  {
    InitInv(s0);
    RunKeeps(s0, steps, s);
    hide Fifo, Once;
    if forall i | 0 <= i < |s.workers| :: s.workers[i] == Waiting || s.workers[i] == Exited {
      NumZero(s.workers, AtLock);
      NumZero(s.workers, Waiting);
      NumZero(s.workers, Exited);
    }
  }

  /// started is the number of living workers, from the return of threadpool_create on.
  lemma StartedIsLiving(s: Sys, s0: Sys, steps: seq<Step>)
    requires Reachable(s, s0, steps) && Created(s)
    ensures s.pool.started == |s.workers| - Num(s.workers, Exited) >= 0
  {
    InitInv(s0);
    RunKeeps(s0, steps, s);
    hide Fifo, Once, Attended;
    NumZero(s.workers, Exited);
  }

  /// In runs without an immediate shutdown a worker that has left has left an empty queue.
  ghost predicate Drained(s: Sys) {
    s.pool.shutdown != Immediate && (Num(s.workers, Exited) > 0 ==> s.pool.count == 0)
  }

  ghost predicate NeverImmediate(steps: seq<Step>) {
    forall a | a in steps :: a.Destroy? ==> a.mode == Graceful
  }

  lemma DrainedKept(s: Sys, a: Step)
    requires Inv(s) && Drained(s) && Enabled(s, a) && (a.Destroy? ==> a.mode == Graceful)
    ensures Drained(Apply(s, a))
  {
    hide Num, InHand, Queued, Once;
    match a
    case Create => Moves(s.workers, s.created, AtLock);
    case Count =>
    case Work(i) => DrainedWork(s, i);
    case Finish(i) => Moves(s.workers, i, AtLock);
    case Wake(i) => Moves(s.workers, i, AtLock);
    case Add(t, w) => if w != -1 { Moves(s.workers, w, AtLock); }
    case Destroy(m) => WokenAll(s.workers);
  }

  lemma DrainedWork(s: Sys, i: nat)
    requires Inv(s) && Drained(s) && Enabled(s, Work(i))
    ensures Drained(Apply(s, Work(i)))
  {
    hide Num, InHand, Queued, Once;
    Moves(s.workers, i, After(Region(s.pool).1));
  }

  lemma {:induction false} DrainedRun(s: Sys, steps: seq<Step>, end: Sys)
    requires Inv(s) && Drained(s) && Run(s, steps, end) && NeverImmediate(steps)
    ensures Drained(end)
    decreases |steps|
  {
    if steps != [] {
      StepKeeps(s, steps[0]);
      DrainedKept(s, steps[0]);
      DrainedRun(Apply(s, steps[0]), steps[1..], end);
    }
  }

  /// With a graceful shutdown all accepted tasks are taken before the first worker leaves,
  /// and executed before the last one has left.
  lemma GracefulDrains(s: Sys, s0: Sys, steps: seq<Step>)
    requires Reachable(s, s0, steps) && NeverImmediate(steps)
    ensures Num(s.workers, Exited) > 0 ==> s.taken == s.accepted
    ensures s.workers != [] && Num(s.workers, Exited) == |s.workers| ==> multiset(s.done) == multiset(s.accepted)
  {
    InitInv(s0);
    assert Drained(s0) by { NumZero(s0.workers, Exited); }
    RunKeeps(s0, steps, s);
    DrainedRun(s0, steps, s);
    if Num(s.workers, Exited) > 0 {
      assert Queued(s.pool) == [];
    }
    if Num(s.workers, Exited) == |s.workers| {
      NumZero(s.workers, Exited);
      NoneInHand(s.workers);
    }
  }

  // ---------------------------------------------------------------- the end after a shutdown

  /// What the workers still have to do after a shutdown.
  ghost function Rest(s: Sys): int {
    2 * s.pool.count + Num(s.workers, AtLock) + 2 * Num(s.workers, BUSY)
  }

  ghost predicate WorkerStep(a: Step) { a.Work? || a.Finish? }

  /// After a shutdown nothing is accepted, and each step of a worker brings the end nearer.
  lemma StepsDown(s: Sys, a: Step)
    requires Inv(s) && s.pool.shutdown != Open && Enabled(s, a)
    ensures Apply(s, a).pool.shutdown != Open && Apply(s, a).accepted == s.accepted
    ensures 0 <= Rest(Apply(s, a)) <= Rest(s) - if WorkerStep(a) then 1 else 0
  {
    hide Num, InHand, Queued, Once;
    match a
    case Create =>
    case Count =>
    case Work(i) => Moves(s.workers, i, After(Region(s.pool).1));
    case Finish(i) => Moves(s.workers, i, AtLock);
    case Wake(i) => Asleep(s, i);
    case Add(t, w) =>
    case Destroy(m) => NoneAsleep(s.workers);
  }

  lemma Asleep(s: Sys, i: nat)
    requires IsWaiting(s, i)
    ensures Num(s.workers, Waiting) > 0
  {
    NumZero(s.workers, Waiting);
  }

  lemma {:induction false} NoneAsleep(ws: seq<Worker>)
    requires Num(ws, Waiting) == 0
    ensures WakeAll(ws) == ws
    decreases |ws|
  {
    if ws != [] {
      NoneAsleep(ws[1..]);
    }
  }

  ghost function WorkerSteps(steps: seq<Step>): nat {
    if steps == [] then 0 else (if WorkerStep(steps[0]) then 1 else 0) + WorkerSteps(steps[1..])
  }

  /// After a shutdown the workers take no more steps than this, whatever the clients do.
  lemma {:induction false} EndsSoon(s: Sys, steps: seq<Step>, end: Sys)
    requires Inv(s) && s.pool.shutdown != Open && Run(s, steps, end)
    ensures WorkerSteps(steps) <= Rest(s) - Rest(end) && 0 <= Rest(end) && end.accepted == s.accepted
    decreases |steps|
  {
    if steps != [] {
      StepsDown(s, steps[0]);
      StepKeeps(s, steps[0]);
      EndsSoon(Apply(s, steps[0]), steps[1..], end);
    } else {
      assert Rest(s) >= 0;
    }
  }

  /// From an immediate shutdown on nothing more is taken, as long as the mode stays: what is queued
  /// is never executed, and the next time a worker comes to the lock it leaves.
  lemma {:induction false} ImmediateStops(s: Sys, steps: seq<Step>, end: Sys)
    requires Inv(s) && s.pool.shutdown == Immediate && Run(s, steps, end) && forall a | a in steps :: a.Destroy? ==> a.mode == Immediate
    ensures Ring(end.pool) && end.pool.shutdown == Immediate && end.taken == s.taken && end.accepted == s.accepted && Queued(end.pool) == Queued(s.pool)
    decreases |steps|
  {
    if steps != [] {
      StepsDown(s, steps[0]);
      StepKeeps(s, steps[0]);
      ImmediateStep(s, steps[0]);
      hide Inv;
      ImmediateStops(Apply(s, steps[0]), steps[1..], end);
    }
  }

  lemma ImmediateStep(s: Sys, a: Step)
    requires Inv(s) && s.pool.shutdown == Immediate && Enabled(s, a) && (a.Destroy? ==> a.mode == Immediate)
    ensures Ring(Apply(s, a).pool) && Apply(s, a).pool.shutdown == Immediate && Apply(s, a).taken == s.taken
    ensures Queued(Apply(s, a).pool) == Queued(s.pool)
    ensures a.Work? ==> Apply(s, a).workers[a.i] == Exited
  {
    SameQueue(s.pool, Apply(s, a).pool);
    hide Num, InHand, Once;
  }

  /// After a shutdown a worker that has not left can always take its next step, so that
  /// the joins of threadpool_destroy return.
  lemma NobodyStuck(s: Sys, i: nat)
    requires Inv(s) && s.pool.shutdown != Open && i < |s.workers| && s.workers[i] != Exited
    ensures Enabled(s, Work(i)) || Enabled(s, Finish(i))
  {
    NumZero(s.workers, Waiting);
    NumZero(s.workers, NotCreated);
  }

  // ---------------------------------------------------------------- the object

  class Threadpool {
    var queue: array<Task>
    var head: int
    var tail: int
    var count: int
    var shutdown: Mode
    var started: int

    ghost function State(): Pool
      reads this, queue
    {
      Pool(queue[..], head, tail, count, shutdown, started)
    }

    ghost predicate Valid()
      reads this, queue
    {
      Ring(State())
    }

    constructor (queueSize: int)
      requires queueSize > 0
      ensures Valid() && fresh(queue) && queue.Length == queueSize
      ensures head == tail == count == started == 0 && shutdown == Open
    {
      queue := new Task[queueSize](_ => Task(0, 0));
      head, tail, count, started, shutdown := 0, 0, 0, 0, Open;
    }

    /// The worker's region. After Sleep the worker waits and comes back here.
    method WorkerRegion() returns (turn: Turn)
      requires Valid()
      modifies this
      ensures queue == old(queue) && Valid()
      ensures (State(), turn) == Region(old(State()))
      ensures turn == Sleep <==> old(count == 0 && shutdown == Open)
      ensures turn == Leave <==> old(shutdown == Immediate || (shutdown == Graceful && count == 0))
      ensures turn.Take? ==> turn.task == old(queue[head]) && count == old(count) - 1 && started == old(started)
      ensures !turn.Take? ==> count == old(count) && head == old(head) && started == old(started) - if turn == Leave then 1 else 0
    {
      if count == 0 && shutdown == Open {
        return Sleep;
      }
      if shutdown == Immediate || (shutdown == Graceful && count == 0) {
        started := started - 1;
        return Leave;
      }
      ghost var p := State();
      var task := queue[head];
      head := (head + 1) % queue.Length;
      count := count - 1;
      TakesFirst(p);
      return Take(task);
    }

    /// threadpool_add; a worker is signalled exactly when the result is 0.
    method Add(task: Task) returns (ret: int)
      requires Valid()
      modifies this, queue
      ensures queue == old(queue) && Valid()
      ensures (State(), ret) == Put(old(State()), task)
      ensures ret == if task.func == 0 then -22 else if old(count) == queue.Length || shutdown != Open then -1 else 0
      ensures ret != 0 ==> State() == old(State())
      ensures ret == 0 ==> queue[..] == old(queue[..])[old(tail) := task] && count == old(count) + 1 && head == old(head)
    {
      if task.func == 0 {
        return -EINVAL;
      }
      if count == queue.Length {
        return -1;
      }
      if shutdown != Open {
        return -1;
      }
      ghost var p := State();
      queue[tail] := task;
      tail := (tail + 1) % queue.Length;
      count := count + 1;
      PutsLast(p, task);
      return 0;
    }

    /// threadpool_destroy up to its joins; it wakes all workers when the result is true. The
    /// first test is outside the lock: steps of other threads may come between it and the store.
    method Destroy(mode: Mode) returns (done: bool)
      requires Valid() && mode != Open
      modifies this`shutdown
      ensures Valid() && done == (old(shutdown) == Open)
      ensures State() == if done then old(State()).(shutdown := mode) else old(State())
    {
      if shutdown != Open {
        return false;
      }
      shutdown := mode;
      return true;
    }
  }

  /// threadpool_create up to its loop.
  method NewPool(threadCount: int, queueSize: int) returns (pool: Threadpool?)
    ensures pool == null <==> !(1 <= threadCount <= MAX_THREADS && 1 <= queueSize <= MAX_QUEUE)
    ensures pool != null ==> fresh(pool) && pool.Valid() && |pool.State().queue| == queueSize
    ensures pool != null ==> Init(Sys(pool.State(), seq(threadCount, i => NotCreated), 0, 0, [], [], []))
  {
    if threadCount <= 0 || threadCount > MAX_THREADS || queueSize <= 0 || queueSize > MAX_QUEUE {
      return null;
    }
    pool := new Threadpool(queueSize);
  }
}
