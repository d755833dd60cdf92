/** Recursive mutexes with priority queues as a state machine: what every interleaving of lock, unlock, timeout and
    thread switch keeps. */
module Mutexes {
  import opened Folding
  import opened LinkedLists

  type Word = x: int | 0 <= x < 0x1_0000_0000

  datatype State = Free | Suspended | Ready | Running | Blocked | Defunct | DefunctAck
  datatype Block = NotBlocked | Sleep | OnMutex | OnWakeup

  const THREAD_OK := 0
  const THREAD_TIMEOUT := -1
  const TIMEOUT_NONE: Word := 0
  const TIMEOUT_BLOCK: Word := 0xffff_ffff     // -1 as an unsigned word
  const IDLE := 0                              // the idle thread is the head of the thread list

  datatype Thread = Thread(state: State, block: Block, blockedBy: int, timeout: Word, since: Word, priority: nat)
  datatype Mutex = Mutex(owner: int, count: int)

  /** Threads and mutexes by their numbers, the threads queued for each mutex, the mutexes each thread owns, the mutex
      each thread waits for inside mutex_lock, and the thread that has the processor. */
  datatype World = World(threads: seq<Thread>, mutexes: seq<Mutex>, queues: seq<seq<int>>, owned: seq<seq<int>>,
                         waiting: seq<int>, current: int)
  {
    ghost predicate Sized() {
      && |owned| == |waiting| == |threads| && |queues| == |mutexes|
      && 0 <= current < |threads|
    }

    predicate IsThread(t: int) {
      0 <= t < |threads|
    }

    predicate IsMutex(m: int) {
      0 <= m < |mutexes|
    }

    /** Thread `t` is blocked on mutex `m`. */
    predicate BlockedOn(t: int, m: int) {
      IsThread(t) && threads[t].state == Blocked && threads[t].block == OnMutex && threads[t].blockedBy == m
    }

    /** Thread `t` owns mutex `m`. */
    predicate Owns(t: int, m: int) {
      IsMutex(m) && mutexes[m].count > 0 && mutexes[m].owner == t
    }

    /** A mutex's queue holds distinct threads in order of priority; a free mutex has no waiters. */
    ghost predicate MutexOk(m: int)
      requires Sized() && IsMutex(m)
    {
      && mutexes[m].count >= 0
      && Distinct(queues[m]) && Sorted(threads, queues[m])
      && (mutexes[m].count == 0 ==> queues[m] == [])
      && (mutexes[m].count > 0 ==> IsThread(mutexes[m].owner) && m in owned[mutexes[m].owner])
    }

    ghost predicate ThreadOk(t: int)
      requires Sized() && IsThread(t)
    {
      && Distinct(owned[t])
      && (threads[t].state == Blocked && threads[t].block == OnMutex ==>
            IsMutex(threads[t].blockedBy) && t in queues[threads[t].blockedBy] && waiting[t] == threads[t].blockedBy)
      && (waiting[t] == NONE || IsMutex(waiting[t]))
      && (waiting[t] != NONE ==> mutexes[waiting[t]].owner == t ==> mutexes[waiting[t]].count > 0)
    }

    /** Queues hold blocked threads, none of which owns the mutex; owned lists hold owned mutexes. */
    ghost predicate QueueOk(m: int, t: int)
      requires Sized() && IsMutex(m)
    {
      t in queues[m] ==> BlockedOn(t, m) && mutexes[m].owner != t
    }

    ghost predicate OwnedOk(t: int, m: int)
      requires Sized() && IsThread(t)
    {
      m in owned[t] ==> Owns(t, m)
    }

    /** The parts fit together; all but the sizes is folded. */
    ghost predicate Inv() {
      Sized() && forall k {:trigger Unfold(k)} | Unfold(k) :: Sound()
    }

    ghost predicate Sound()
      requires Sized()
    {
      && (forall m {:trigger MutexOk(m)} | IsMutex(m) :: MutexOk(m))
      && (forall t {:trigger ThreadOk(t)} | IsThread(t) :: ThreadOk(t))
      && (forall m, t {:trigger QueueOk(m, t)} | IsMutex(m) :: QueueOk(m, t))
      && (forall t, m {:trigger OwnedOk(t, m)} | IsThread(t) :: OwnedOk(t, m))
      && (forall t | IsThread(t) && threads[t].state == Running :: t == current)
    }
  }

  ghost predicate Sorted(threads: seq<Thread>, q: seq<int>) {
    forall i, j | 0 <= i < j < |q| && 0 <= q[i] < |threads| && 0 <= q[j] < |threads| ::
      threads[q[i]].priority >= threads[q[j]].priority
  }

  /** What the invariant says about queues and owned lists, both ways. */
  lemma Meaning(w: World)
    requires w.Inv()
    ensures forall m, t | w.IsMutex(m) :: t in w.queues[m] <==> w.BlockedOn(t, m)
    ensures forall t, m | w.IsThread(t) :: m in w.owned[t] <==> w.Owns(t, m)
    ensures forall m | w.IsMutex(m) && w.mutexes[m].count == 0 :: w.queues[m] == []
  {
    assert Unfold(0);
    forall m, t | w.IsMutex(m)
      ensures t in w.queues[m] <==> w.BlockedOn(t, m)
    {
      assert w.QueueOk(m, t);
      assert w.IsThread(t) ==> w.ThreadOk(t);
    }
    forall t, m | w.IsThread(t)
      ensures m in w.owned[t] <==> w.Owns(t, m)
    {
      assert w.OwnedOk(t, m);
      assert w.IsMutex(m) ==> w.MutexOk(m);
    }
    forall m | w.IsMutex(m) && w.mutexes[m].count == 0
      ensures w.queues[m] == []
    {
      assert w.MutexOk(m);
    }
  }

  /** Where a thread of priority `p` is queued: before the first one of no higher priority. */
  function Place(threads: seq<Thread>, q: seq<int>, p: nat): (k: nat)
    ensures k <= |q|
    ensures forall i | 0 <= i < k :: 0 <= q[i] < |threads| && threads[q[i]].priority > p
    ensures k < |q| && 0 <= q[k] < |threads| ==> threads[q[k]].priority <= p
  {
    if q == [] || !(0 <= q[0] < |threads|) || threads[q[0]].priority <= p then 0
    else 1 + Place(threads, q[1..], p)
  }

  /** The first place at which `x` is found in a list. */
  function Find(q: seq<int>, x: int): (k: nat)
    requires x in q
    ensures k < |q| && q[k] == x
  {
    if q[0] == x then 0 else 1 + Find(q[1..], x)
  }

  /** The element is the last of several. */
  predicate LastOfSeveral(q: seq<int>, x: int) {
    x in q && 0 < Find(q, x) == |q| - 1
  }

  /** mutex_lock by the running thread, up to where it yields. */
  function Lock(w: World, m: int, timeout: Word, now: Word): World
    requires w.Sized() && w.IsMutex(m)
  {
    var t, mutex := w.current, w.mutexes[m];
    if mutex.count == 0 then
      w.(mutexes := w.mutexes[m := Mutex(t, 1)], owned := w.owned[t := [m] + w.owned[t]])
    else if mutex.owner == t then
      w.(mutexes := w.mutexes[m := mutex.(count := mutex.count + 1)])
    else if timeout != TIMEOUT_NONE then
      w.(threads := w.threads[t := w.threads[t].(state := Blocked, block := OnMutex, blockedBy := m,
                                                 timeout := timeout, since := now)],
         queues := w.queues[m := InsertedAt(w.queues[m], Place(w.threads, w.queues[m], w.threads[t].priority), t)],
         waiting := w.waiting[t := m])
    else w
  }

  /** Does the running thread have to wait for the mutex? */
  predicate MustWait(w: World, m: int)
    requires w.Sized() && w.IsMutex(m)
  {
    w.mutexes[m].count != 0 && w.mutexes[m].owner != w.current
  }

  /** The rest of mutex_lock, once a thread that had to wait runs again. */
  function Resume(w: World): World
    requires w.Sized()
  {
    w.(waiting := w.waiting[w.current := NONE])
  }

  function ResumeResult(w: World): int
    requires w.Sized() && w.IsMutex(w.waiting[w.current])
  {
    if w.mutexes[w.waiting[w.current]].owner == w.current then THREAD_OK else THREAD_TIMEOUT
  }

  /** A thread made ready. */
  function Woken(t: Thread): Thread {
    t.(state := Ready, block := NotBlocked, blockedBy := NONE, timeout := 0)
  }

  /** mutex_unlock by the owner. */
  function Unlock(w: World, m: int): World
    requires w.Sized() && w.IsMutex(m) && m in w.owned[w.current]
  {
    var t, count := w.current, w.mutexes[m].count - 1;
    if count != 0 then
      w.(mutexes := w.mutexes[m := w.mutexes[m].(count := count)])
    else
      var owned := w.owned[t := RemovedAt(w.owned[t], Find(w.owned[t], m))];
      if w.queues[m] == [] || !w.IsThread(w.queues[m][0]) then
        w.(mutexes := w.mutexes[m := w.mutexes[m].(count := 0)], owned := owned)
      else
        var next := w.queues[m][0];
        w.(mutexes := w.mutexes[m := Mutex(next, 1)], owned := owned[next := [m] + owned[next]],
           threads := w.threads[next := Woken(w.threads[next])], queues := w.queues[m := w.queues[m][1..]])
  }

  /** The timeout of a blocked thread has passed. */
  function TimeOut(w: World, t: int): World
    requires w.Sized() && w.IsThread(t)
  {
    var m := w.threads[t].blockedBy;
    var queues := if w.threads[t].block == OnMutex && w.IsMutex(m) && t in w.queues[m]
                  then w.queues[m := RemovedAt(w.queues[m], Find(w.queues[m], t))] else w.queues;
    w.(threads := w.threads[t := Woken(w.threads[t])], queues := queues)
  }

  /** scheduler_switch is entered: the running thread gives up the processor. */
  function Pause(w: World): World
    requires w.Sized()
  {
    var t := w.threads[w.current];
    if t.state == Running then w.(threads := w.threads[w.current := t.(state := Ready)]) else w
  }

  /** scheduler_switch is left: thread `to` gets the processor. */
  function Dispatch(w: World, to: int): World
    requires w.IsThread(to)
  {
    w.(threads := w.threads[to := w.threads[to].(state := Running)], current := to)
  }

  datatype Step =
    | LockStep(m: int, timeout: Word, now: Word)
    | ResumeStep
    | UnlockStep(m: int)
    | TimeOutStep(t: int)
    | PauseStep
    | DispatchStep(to: int)

  ghost predicate Enabled(w: World, s: Step) {
    w.Sized() &&
    match s
    case LockStep(m, timeout, _) =>
      w.IsMutex(m) && w.threads[w.current].state == Running && w.waiting[w.current] == NONE
    case ResumeStep =>
      w.threads[w.current].state == Running && w.waiting[w.current] != NONE
    case UnlockStep(m) =>
      w.IsMutex(m) && m in w.owned[w.current] && w.threads[w.current].state == Running && w.waiting[w.current] == NONE
    case TimeOutStep(t) =>
      w.IsThread(t) && w.threads[t].state == Blocked && w.threads[t].timeout != TIMEOUT_BLOCK
    case PauseStep => true
    case DispatchStep(to) =>
      w.IsThread(to) && w.threads[to].state == Ready && w.threads[w.current].state != Running
  }

  ghost function After(w: World, s: Step): World
    requires Enabled(w, s)
  {
    match s
    case LockStep(m, timeout, now) => Lock(w, m, timeout, now)
    case ResumeStep => Resume(w)
    case UnlockStep(m) => Unlock(w, m)
    case TimeOutStep(t) => TimeOut(w, t)
    case PauseStep => Pause(w)
    case DispatchStep(to) => Dispatch(w, to)
  }

  /** Taking a free mutex, or one's own once more, keeps the invariant. */
  lemma LockTakes(w: World, m: int, timeout: Word, now: Word)
    requires w.Inv() && Enabled(w, LockStep(m, timeout, now)) && !MustWait(w, m)
    ensures Lock(w, m, timeout, now).Inv()
  {
    assert Unfold(0);
    var w', t := Lock(w, m, timeout, now), w.current;
    assert w.MutexOk(m) && w.ThreadOk(t);
    assert m in w.owned[t] ==> w.OwnedOk(t, m);
    forall n | w'.IsMutex(n)
      ensures w'.MutexOk(n)
    {
      assert w.MutexOk(n);
    }
    forall u | w'.IsThread(u)
      ensures w'.ThreadOk(u)
    {
      assert w.ThreadOk(u);
    }
    forall n, u | w'.IsMutex(n)
      ensures w'.QueueOk(n, u)
    {
      assert w.QueueOk(n, u);
    }
    forall u, n | w'.IsThread(u)
      ensures w'.OwnedOk(u, n)
    {
      assert w.OwnedOk(u, n);
    }
  }

  lemma LockWaits(w: World, m: int, timeout: Word, now: Word)
    requires w.Inv() && Enabled(w, LockStep(m, timeout, now)) && MustWait(w, m)
    ensures Lock(w, m, timeout, now).Inv()
  {
    assert Unfold(0);
    var w', t, q := Lock(w, m, timeout, now), w.current, w.queues[m];
    if timeout != TIMEOUT_NONE {
      var k := Place(w.threads, q, w.threads[t].priority);
      assert w.QueueOk(m, t) && w.MutexOk(m);
      InsertDistinct(q, k, t);
      forall n | w'.IsMutex(n)
        ensures w'.MutexOk(n)
      {
        assert w.MutexOk(n);
        InsertSorted(w, w', n, m, k);
      }
      forall u | w'.IsThread(u)
        ensures w'.ThreadOk(u)
      {
        assert w.ThreadOk(u);
      }
      forall n, u | w'.IsMutex(n)
        ensures w'.QueueOk(n, u)
      {
        assert w.QueueOk(n, u);
      }
      forall u, n | w'.IsThread(u)
        ensures w'.OwnedOk(u, n)
      {
        assert w.OwnedOk(u, n);
      }
    }
  }

  /** Priorities do not change, and the newcomer is put where its priority belongs. */
  lemma InsertSorted(w: World, w': World, n: int, m: int, k: int)
    requires w.Inv() && w.IsMutex(n) && w.IsMutex(m) && |w'.threads| == |w.threads| && |w'.queues| == |w.queues|
    requires forall u | w.IsThread(u) :: w'.threads[u].priority == w.threads[u].priority
    requires k == Place(w.threads, w.queues[m], w.threads[w.current].priority)
    requires w'.queues == w.queues[m := InsertedAt(w.queues[m], k, w.current)]
    ensures Sorted(w'.threads, w'.queues[n])
  {
    assert Unfold(0);
    assert w.MutexOk(n);
    if n == m {
      forall i | 0 <= i < |w.queues[m]|
        ensures w.IsThread(w.queues[m][i])
      {
        assert w.QueueOk(m, w.queues[m][i]);
      }
      PlaceSorted(w.threads, w.queues[m], k, w.current);
    }
    SamePriorities(w.threads, w'.threads, w'.queues[n]);
  }

  lemma SamePriorities(threads: seq<Thread>, threads': seq<Thread>, q: seq<int>)
    requires Sorted(threads, q) && |threads'| == |threads|
    requires forall u | 0 <= u < |threads| :: threads'[u].priority == threads[u].priority
    ensures Sorted(threads', q)
  {
  }

  lemma PlaceSorted(threads: seq<Thread>, q: seq<int>, k: int, x: int)
    requires Sorted(threads, q) && 0 <= x < |threads| && k == Place(threads, q, threads[x].priority)
    requires forall i | 0 <= i < |q| :: 0 <= q[i] < |threads|
    ensures Sorted(threads, InsertedAt(q, k, x))
  {
    InsertKeepsSorted(threads, q, k, x);
  }

  lemma InsertedIs(q: seq<int>, k: int, x: int, i: int)
    requires 0 <= k <= |q| && 0 <= i <= |q|
    ensures InsertedAt(q, k, x)[i] == if i < k then q[i] else if i == k then x else q[i - 1]
  {
  }

  /** An element between those of higher and those of no higher priority. */
  lemma InsertKeepsSorted(threads: seq<Thread>, q: seq<int>, k: int, x: int)
    requires Sorted(threads, q) && 0 <= x < |threads| && 0 <= k <= |q|
    requires forall i | 0 <= i < |q| :: 0 <= q[i] < |threads|
    requires forall i | 0 <= i < k :: threads[q[i]].priority >= threads[x].priority
    requires k < |q| ==> threads[q[k]].priority <= threads[x].priority
    ensures Sorted(threads, InsertedAt(q, k, x))
  {
    var q' := InsertedAt(q, k, x);
    forall i, j | 0 <= i < j < |q'|
      ensures 0 <= q'[i] < |threads| && 0 <= q'[j] < |threads| && threads[q'[i]].priority >= threads[q'[j]].priority
    {
      InsertedIs(q, k, x, i);
      InsertedIs(q, k, x, j);
    }
  }

  lemma ResumeKeeps(w: World)
    requires w.Inv() && Enabled(w, ResumeStep)
    ensures Resume(w).Inv()
  {
    assert Unfold(0);
    var w', t := Resume(w), w.current;
    forall n | w'.IsMutex(n)
      ensures w'.MutexOk(n)
    {
      assert w.MutexOk(n);
    }
    forall u | w'.IsThread(u)
      ensures w'.ThreadOk(u)
    {
      assert w.ThreadOk(u);
    }
    forall n, u | w'.IsMutex(n)
      ensures w'.QueueOk(n, u)
    {
      assert w.QueueOk(n, u);
    }
    forall u, n | w'.IsThread(u)
      ensures w'.OwnedOk(u, n)
    {
      assert w.OwnedOk(u, n);
    }
  }

  lemma UnlockKeeps(w: World, m: int)
    requires w.Inv() && Enabled(w, UnlockStep(m))
    ensures Unlock(w, m).Inv()
  {
    if w.mutexes[m].count == 1 && w.queues[m] != [] {
      HandOver(w, m);
    } else {
      UnlockAlone(w, m);
    }
  }

  /** Unlocking a mutex that stays locked, or that nobody waits for. */
  lemma UnlockAlone(w: World, m: int)
    requires w.Inv() && Enabled(w, UnlockStep(m))
    requires w.mutexes[m].count != 1 || w.queues[m] == []
    ensures Unlock(w, m).Inv()
  {
    assert Unfold(0);
    var w', t := Unlock(w, m), w.current;
    assert w.OwnedOk(t, m) && w.ThreadOk(t);
    RemoveDistinct(w.owned[t], Find(w.owned[t], m));
    forall n | w'.IsMutex(n)
      ensures w'.MutexOk(n)
    {
      assert w.MutexOk(n);
    }
    forall u | w'.IsThread(u)
      ensures w'.ThreadOk(u)
    {
      assert w.ThreadOk(u);
    }
    forall n, u | w'.IsMutex(n)
      ensures w'.QueueOk(n, u)
    {
      assert w.QueueOk(n, u);
    }
    forall u, n | w'.IsThread(u)
      ensures w'.OwnedOk(u, n)
    {
      assert w.OwnedOk(u, n);
    }
  }

  /** Unlocking a mutex that others wait for makes the first of them its owner. */
  lemma HandOver(w: World, m: int)
    requires w.Inv() && Enabled(w, UnlockStep(m))
    requires w.mutexes[m].count == 1 && w.queues[m] != []
    ensures Unlock(w, m).Inv()
    ensures w.IsThread(w.queues[m][0]) && w.queues[m][0] != w.current
    ensures Unlock(w, m).Owns(w.queues[m][0], m)
    ensures forall t | w.BlockedOn(t, m) :: w.threads[t].priority <= w.threads[w.queues[m][0]].priority
  {
    assert w.Owns(w.current, m) by {
      assert Unfold(0) && w.OwnedOk(w.current, m);
    }
    FirstWaiter(w, m);
    HandOverKeeps(w, m);
  }

  /** The first of the waiters is another thread, and none of the others has a higher priority. */
  lemma FirstWaiter(w: World, m: int)
    requires w.Inv() && w.IsMutex(m) && w.Owns(w.current, m) && w.queues[m] != []
    ensures w.BlockedOn(w.queues[m][0], m) && w.queues[m][0] != w.current
    ensures w.waiting[w.queues[m][0]] == m && m !in w.owned[w.queues[m][0]]
    ensures forall t | w.BlockedOn(t, m) :: w.threads[t].priority <= w.threads[w.queues[m][0]].priority
    ensures m in w.owned[w.current] && Distinct(w.owned[w.current])
  {
    assert Unfold(0);
    var q, next := w.queues[m], w.queues[m][0];
    assert next in q && w.MutexOk(m) && w.QueueOk(m, next) && w.ThreadOk(next) && w.OwnedOk(next, m);
    assert w.ThreadOk(w.current);
    forall u | w.BlockedOn(u, m)
      ensures w.threads[u].priority <= w.threads[next].priority
    {
      assert w.ThreadOk(u) && w.QueueOk(m, u);
      var i :| 0 <= i < |q| && q[i] == u;
    }
  }

  /** What becomes of the mutexes, ... */
  lemma HandOverMutex(w: World, m: int, n: int)
    requires w.Inv() && Enabled(w, UnlockStep(m)) && w.Owns(w.current, m)
    requires w.mutexes[m].count == 1 && w.queues[m] != []
    requires w.IsMutex(n)
    ensures Unlock(w, m).Sized() && Unlock(w, m).MutexOk(n) && Unlock(w, m).Owns(w.queues[m][0], m)
  {
    FirstWaiter(w, m);
    RemoveDistinct(w.owned[w.current], Find(w.owned[w.current], m));
    assert w.MutexOk(n) && w.MutexOk(m) by { assert Unfold(0); }
    if n == m {
      TailSorted(w, Unlock(w, m), m);
    }
  }

  /** ... the threads, ... */
  lemma HandOverThread(w: World, m: int, u: int)
    requires w.Inv() && Enabled(w, UnlockStep(m)) && w.Owns(w.current, m)
    requires w.mutexes[m].count == 1 && w.queues[m] != []
    requires w.IsThread(u)
    ensures Unlock(w, m).ThreadOk(u)
  {
    FirstWaiter(w, m);
    RemoveDistinct(w.owned[w.current], Find(w.owned[w.current], m));
    assert w.ThreadOk(u) by { assert Unfold(0); }
    assert w.queues[m] == [w.queues[m][0]] + w.queues[m][1..];
  }

  /** ... and the lists. */
  lemma HandOverLists(w: World, m: int, n: int, u: int)
    requires w.Inv() && Enabled(w, UnlockStep(m)) && w.Owns(w.current, m)
    requires w.mutexes[m].count == 1 && w.queues[m] != []
    ensures w.IsMutex(n) ==> Unlock(w, m).QueueOk(n, u)
    ensures w.IsThread(u) ==> Unlock(w, m).OwnedOk(u, n)
  {
    FirstWaiter(w, m);
    RemoveDistinct(w.owned[w.current], Find(w.owned[w.current], m));
    assert w.IsMutex(n) ==> w.QueueOk(n, u) && w.MutexOk(n) by { assert Unfold(0); }
    assert w.IsThread(u) ==> w.OwnedOk(u, n) by { assert Unfold(0); }
  }

  lemma HandOverKeeps(w: World, m: int)
    requires w.Inv() && Enabled(w, UnlockStep(m)) && w.Owns(w.current, m)
    requires w.mutexes[m].count == 1 && w.queues[m] != []
    ensures Unlock(w, m).Inv() && Unlock(w, m).Owns(w.queues[m][0], m)
  {
    var w' := Unlock(w, m);
    FirstWaiter(w, m);
    HandOverMutex(w, m, m);
    forall n | w'.IsMutex(n)
      ensures w'.MutexOk(n)
    {
      HandOverMutex(w, m, n);
    }
    forall u | w'.IsThread(u)
      ensures w'.ThreadOk(u)
    {
      HandOverThread(w, m, u);
    }
    forall n, u | w'.IsMutex(n)
      ensures w'.QueueOk(n, u)
    {
      HandOverLists(w, m, n, u);
    }
    forall u, n | w'.IsThread(u)
      ensures w'.OwnedOk(u, n)
    {
      HandOverLists(w, m, n, u);
    }
    assert forall t | w.IsThread(t) && w.threads[t].state == Running :: t == w.current by { assert Unfold(0); }
  }

  lemma TailSorted(w: World, w': World, m: int)
    requires w.Sized() && w.IsMutex(m) && w.MutexOk(m) && w.queues[m] != []
    requires |w'.threads| == |w.threads|
    requires forall u | w.IsThread(u) :: w'.threads[u].priority == w.threads[u].priority
    ensures Distinct(w.queues[m][1..]) && Sorted(w'.threads, w.queues[m][1..])
  {
  }

  lemma RemoveSorted(threads: seq<Thread>, q: seq<int>, k: int)
    requires Sorted(threads, q) && 0 <= k < |q|
    ensures Sorted(threads, RemovedAt(q, k))
  {
    var q' := RemovedAt(q, k);
    forall i, j | 0 <= i < j < |q'| && 0 <= q'[i] < |threads| && 0 <= q'[j] < |threads|
      ensures threads[q'[i]].priority >= threads[q'[j]].priority
    {
      assert q'[i] == if i < k then q[i] else q[i + 1];
      assert q'[j] == if j < k then q[j] else q[j + 1];
    }
  }

  lemma TimeOutKeeps(w: World, t: int)
    requires w.Inv() && Enabled(w, TimeOutStep(t))
    ensures TimeOut(w, t).Inv()
  {
    assert Unfold(0);
    var w', m := TimeOut(w, t), w.threads[t].blockedBy;
    assert w.ThreadOk(t);
    if w.threads[t].block == OnMutex {
      assert w.QueueOk(m, t) && w.MutexOk(m);
      RemoveDistinct(w.queues[m], Find(w.queues[m], t));
      RemoveSorted(w.threads, w.queues[m], Find(w.queues[m], t));
    }
    forall n | w'.IsMutex(n)
      ensures w'.MutexOk(n)
    {
      assert w.MutexOk(n);
      SamePriorities(w.threads, w'.threads, w'.queues[n]);
    }
    forall u | w'.IsThread(u)
      ensures w'.ThreadOk(u)
    {
      assert w.ThreadOk(u);
    }
    forall n, u | w'.IsMutex(n)
      ensures w'.QueueOk(n, u)
    {
      assert w.QueueOk(n, u);
    }
    forall u, n | w'.IsThread(u)
      ensures w'.OwnedOk(u, n)
    {
      assert w.OwnedOk(u, n);
    }
  }

  lemma PauseKeeps(w: World)
    requires w.Inv()
    ensures Pause(w).Inv()
    ensures forall u | w.IsThread(u) :: Pause(w).threads[u].state != Running
  {
    assert Unfold(0);
    var w' := Pause(w);
    forall n | w'.IsMutex(n)
      ensures w'.MutexOk(n)
    {
      assert w.MutexOk(n);
    }
    forall u | w'.IsThread(u)
      ensures w'.ThreadOk(u)
    {
      assert w.ThreadOk(u);
    }
    forall n, u | w'.IsMutex(n)
      ensures w'.QueueOk(n, u)
    {
      assert w.QueueOk(n, u);
    }
    forall u, n | w'.IsThread(u)
      ensures w'.OwnedOk(u, n)
    {
      assert w.OwnedOk(u, n);
    }
  }

  lemma DispatchKeeps(w: World, to: int)
    requires w.Inv() && Enabled(w, DispatchStep(to))
    ensures Dispatch(w, to).Inv()
    ensures forall u | w.IsThread(u) :: Dispatch(w, to).threads[u].state == Running <==> u == to
  {
    assert Unfold(0);
    var w' := Dispatch(w, to);
    forall n | w'.IsMutex(n)
      ensures w'.MutexOk(n)
    {
      assert w.MutexOk(n);
    }
    forall u | w'.IsThread(u)
      ensures w'.ThreadOk(u)
    {
      assert w.ThreadOk(u);
    }
    forall n, u | w'.IsMutex(n)
      ensures w'.QueueOk(n, u)
    {
      assert w.QueueOk(n, u);
    }
    forall u, n | w'.IsThread(u)
      ensures w'.OwnedOk(u, n)
    {
      assert w.OwnedOk(u, n);
    }
  }

  /** Every step of every thread keeps the invariant. */
  lemma StepKeeps(w: World, s: Step)
    requires w.Inv() && Enabled(w, s)
    ensures After(w, s).Inv()
  {
    match s
    case LockStep(m, timeout, now) =>
      if MustWait(w, m) {
        LockWaits(w, m, timeout, now);
      } else {
        LockTakes(w, m, timeout, now);
      }
    case ResumeStep => ResumeKeeps(w);
    case UnlockStep(m) => UnlockKeeps(w, m);
    case TimeOutStep(t) => TimeOutKeeps(w, t);
    case PauseStep => PauseKeeps(w);
    case DispatchStep(to) => DispatchKeeps(w, to);
  }

  /** Before anything is locked. */
  ghost predicate Initial(w: World) {
    && w.Sized()
    && (forall m | w.IsMutex(m) :: w.mutexes[m] == Mutex(NONE, 0) && w.queues[m] == [])
    && (forall t | w.IsThread(t) :: w.threads[t].block != OnMutex && w.owned[t] == [] && w.waiting[t] == NONE)
    && (forall t | w.IsThread(t) && w.threads[t].state == Running :: t == w.current)
  }

  ghost predicate AllEnabled(w: World, steps: seq<Step>)
    decreases |steps|
  {
    steps == [] || (Enabled(w, steps[0]) && AllEnabled(After(w, steps[0]), steps[1..]))
  }

  ghost function AfterAll(w: World, steps: seq<Step>): World
    requires AllEnabled(w, steps)
    decreases |steps|
  {
    if steps == [] then w else AfterAll(After(w, steps[0]), steps[1..])
  }

  /** The invariant holds over every interleaving. */
  lemma {:induction false} RunKeeps(w: World, steps: seq<Step>)
    requires w.Inv() && AllEnabled(w, steps)
    ensures AfterAll(w, steps).Inv()
    decreases |steps|
  {
    if steps != [] {
      StepKeeps(w, steps[0]);
      RunKeeps(After(w, steps[0]), steps[1..]);
    }
  }

  lemma InitialIsOk(w: World)
    requires Initial(w)
    ensures w.Inv()
  {
    assert Unfold(0);
    forall m | w.IsMutex(m)
      ensures w.MutexOk(m)
    {
    }
    forall t | w.IsThread(t)
      ensures w.ThreadOk(t)
    {
    }
  }

  /** mutex_lock returns THREAD_OK exactly when its caller then owns the mutex, both when it returns at once ... */
  lemma LockTellsOwner(w: World, m: int, timeout: Word, now: Word)
    requires w.Inv() && Enabled(w, LockStep(m, timeout, now)) && (!MustWait(w, m) || timeout == TIMEOUT_NONE)
    ensures !MustWait(w, m) <==> Lock(w, m, timeout, now).Owns(w.current, m)
  {
    assert Unfold(0);
    assert w.MutexOk(m);
  }

  /** ... and when its caller had to wait, whatever has happened in between. */
  lemma ResumeTellsOwner(w: World)
    requires w.Inv() && Enabled(w, ResumeStep)
    ensures w.IsMutex(w.waiting[w.current])
    ensures ResumeResult(w) == THREAD_OK <==> w.Owns(w.current, w.waiting[w.current])
    ensures ResumeResult(w) == THREAD_TIMEOUT <==> !w.Owns(w.current, w.waiting[w.current])
  {
    assert Unfold(0);
    assert w.ThreadOk(w.current);
  }

  /** While it waits, a thread keeps being queued for the mutex it asked for until it owns it or times out; no step of
      another thread but these two makes it run. */
  lemma WaiterStays(w: World, s: Step, t: int)
    requires w.Inv() && Enabled(w, s) && w.IsThread(t) && w.IsMutex(w.waiting[t]) && w.BlockedOn(t, w.waiting[t])
    ensures After(w, s).waiting[t] == w.waiting[t]
    ensures After(w, s).BlockedOn(t, w.waiting[t]) || After(w, s).Owns(t, w.waiting[t]) || s == TimeOutStep(t)
  {
    assert Unfold(0);
    assert w.ThreadOk(t) && w.QueueOk(w.waiting[t], t);
    if s.UnlockStep? {
      assert w.OwnedOk(w.current, s.m);
      if w.queues[s.m] != [] {
        assert w.queues[s.m][0] in w.queues[s.m] && w.QueueOk(s.m, w.queues[s.m][0]);
      }
    }
  }

  /** Ownership of a mutex changes hands only by its owner's unlocking it. */
  lemma OwnerStays(w: World, s: Step, t: int, m: int)
    requires w.Inv() && Enabled(w, s) && w.Owns(t, m) && w.IsThread(t)
    ensures After(w, s).Owns(t, m) || (s == UnlockStep(m) && t == w.current && w.mutexes[m].count == 1)
  {
    assert Unfold(0);
    assert w.MutexOk(m);
    if s.UnlockStep? {
      assert w.OwnedOk(w.current, s.m);
    }
  }

  /** By how much a step makes thread `t` hold mutex `m` more often. */
  function Change(w: World, s: Step, t: int, m: int): int {
    if w.current != t then 0
    else match s
      case LockStep(n, _, _) => if n == m then 1 else 0
      case UnlockStep(n) => if n == m then -1 else 0
      case _ => 0
  }

  /** The owner holds a mutex once more after a lock and once less after an unlock; only its last unlock lets go of it. */
  lemma StepNests(w: World, s: Step, t: int, m: int)
    requires w.Inv() && Enabled(w, s) && w.Owns(t, m) && w.IsThread(t) && w.mutexes[m].count + Change(w, s, t, m) > 0
    ensures After(w, s).Owns(t, m) && After(w, s).mutexes[m].count == w.mutexes[m].count + Change(w, s, t, m)
  {
    assert Unfold(0);
    assert w.MutexOk(m);
    if s.UnlockStep? {
      assert w.OwnedOk(w.current, s.m);
    }
  }

  /** Whoever comes to own a mutex, by locking it or because it is handed over, holds it once. */
  lemma FirstHoldsOnce(w: World, s: Step, t: int, m: int)
    requires w.Inv() && Enabled(w, s) && w.IsThread(t) && w.IsMutex(m) && !w.Owns(t, m)
    requires After(w, s).Sized() && After(w, s).Owns(t, m)
    ensures After(w, s).mutexes[m].count == 1
  {
    assert Unfold(0);
    assert w.MutexOk(m);
    if s.UnlockStep? {
      assert w.OwnedOk(w.current, s.m);
    }
  }

  /** How often thread `t` has locked mutex `m` in a run, less how often it has unlocked it. */
  ghost function Nesting(w: World, steps: seq<Step>, t: int, m: int): int
    requires AllEnabled(w, steps)
    decreases |steps|
  {
    if steps == [] then 0 else Change(w, steps[0], t, m) + Nesting(After(w, steps[0]), steps[1..], t, m)
  }

  /** At no time in a run has thread `t`, which holds mutex `m` `held` times, unlocked it that often. */
  ghost predicate NeverLetsGo(w: World, steps: seq<Step>, t: int, m: int, held: int)
    requires AllEnabled(w, steps)
    decreases |steps|
  {
    held > 0 && (steps == [] || NeverLetsGo(After(w, steps[0]), steps[1..], t, m, held + Change(w, steps[0], t, m)))
  }

  /** Over every interleaving: as long as its owner has not unlocked a mutex as often as it has locked it, it stays the
      owner, and the count is the locks it still has. */
  lemma {:induction false} RunNests(w: World, steps: seq<Step>, t: int, m: int)
    requires w.Inv() && AllEnabled(w, steps) && w.Owns(t, m) && w.IsThread(t)
    requires NeverLetsGo(w, steps, t, m, w.mutexes[m].count)
    ensures AfterAll(w, steps).Owns(t, m)
    ensures AfterAll(w, steps).mutexes[m].count == w.mutexes[m].count + Nesting(w, steps, t, m)
    decreases |steps|
  {
    if steps != [] {
      StepNests(w, steps[0], t, m);
      StepKeeps(w, steps[0]);
      RunNests(After(w, steps[0]), steps[1..], t, m);
    }
  }

  /** What mutex_lock notes of a thread that has to wait, so that it can be woken in time; no other thread changes. */
  lemma LockNotes(w: World, m: int, timeout: Word, now: Word)
    requires w.Inv() && Enabled(w, LockStep(m, timeout, now)) && MustWait(w, m) && timeout != 0
    ensures var w' := Lock(w, m, timeout, now);
      && |w'.threads| == |w.threads|
      && w'.threads[w.current] == Thread(Blocked, OnMutex, m, timeout, now, w.threads[w.current].priority)
      && forall t | w.IsThread(t) && t != w.current :: w'.threads[t] == w.threads[t]
  {
  }

  /** What a timeout makes of a thread; no other thread changes. */
  lemma TimeOutNotes(w: World, t: int)
    requires w.Inv() && Enabled(w, TimeOutStep(t))
    ensures var w' := TimeOut(w, t);
      && |w'.threads| == |w.threads| && w'.mutexes == w.mutexes
      && w'.threads[t] == Thread(Ready, NotBlocked, -1, 0, w.threads[t].since, w.threads[t].priority)
      && forall u | w.IsThread(u) && u != t :: w'.threads[u] == w.threads[u]
  {
  }
}
