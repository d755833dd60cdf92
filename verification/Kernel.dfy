/** The mutexes and the scheduler of the kernel; pointers are the numbers of threads and mutexes. */
module Kernel {
  import opened Folding
  import opened LinkedLists
  import opened Mutexes
  import opened Options

  /** A place found by looking at priorities is the place. */
  lemma {:induction false} PlaceIs(threads: seq<Thread>, q: seq<int>, p: nat, k: nat)
    requires k <= |q| && forall i | 0 <= i < |q| :: 0 <= q[i] < |threads|
    requires forall i | 0 <= i < k :: threads[q[i]].priority > p
    requires k < |q| ==> threads[q[k]].priority <= p
    ensures Place(threads, q, p) == k
  {
    if k > 0 {
      PlaceIs(threads, q[1..], p, k - 1);
    }
  }

  /** In a sound world no thread is in two queues, and no mutex in two owned lists. */
  lemma ListsApart(w: World)
    requires w.Inv()
    ensures AllApart(w.queues) && AllApart(w.owned)
    ensures forall m, i | 0 <= m < |w.queues| && 0 <= i < |w.queues[m]| :: w.IsThread(w.queues[m][i])
  {
    forall m, n, x | 0 <= m < |w.queues| && 0 <= n < |w.queues| && m != n && x in w.queues[m]
      ensures x !in w.queues[n]
    {
      assert w.QueueOk(m, x) && w.QueueOk(n, x) by { assert Unfold(0); }
    }
    forall m, n, x | 0 <= m < |w.owned| && 0 <= n < |w.owned| && m != n && x in w.owned[m]
      ensures x !in w.owned[n]
    {
      assert w.OwnedOk(m, x) && w.OwnedOk(n, x) by { assert Unfold(0); }
    }
    forall m, i | 0 <= m < |w.queues| && 0 <= i < |w.queues[m]|
      ensures w.IsThread(w.queues[m][i])
    {
      assert w.queues[m][i] in w.queues[m] && w.QueueOk(m, w.queues[m][i]) by { assert Unfold(0); }
    }
  }

  /** The running thread is in no queue. */
  lemma RunningIsUnqueued(w: World)
    requires w.Inv() && w.threads[w.current].state == Running
    ensures forall m | w.IsMutex(m) :: w.current !in w.queues[m]
  {
    forall m | w.IsMutex(m)
      ensures w.current !in w.queues[m]
    {
      assert w.QueueOk(m, w.current) by { assert Unfold(0); }
    }
  }

  class Kernel {
    var threads: seq<Thread>
    var mutexes: seq<Mutex>
    var queueNext: seq<int>        // of a thread: the next one in the queue it is in
    var ownedMutexes: seq<int>     // of a thread: the first mutex it owns
    var waiters: seq<int>          // of a mutex: the first thread queued for it
    var ownedNext: seq<int>        // of a mutex: the next one its owner owns
    var current: int
    var cputime: seq<Word>         // of a thread: microseconds used since the last tick
    var cpuload: seq<int>          // of a thread: its share of the last tick, in 255ths
    var lastTick: Word
    var frozen: bool
    var waiting: seq<int>          // of a thread: the argument of the mutex_lock call it is suspended in
    ghost var queues: seq<seq<int>>
    ghost var owned: seq<seq<int>>

    ghost function Abs(): World
      reads this
    {
      World(threads, mutexes, queues, owned, waiting, current)
    }

    /** The linked lists represent a sound world. */
    ghost predicate Valid()
      reads this
    {
      && Abs().Inv()
      && |queueNext| == |threads| && |ownedNext| == |mutexes| && |cputime| == |cpuload| == |threads|
      && AllLinks(queueNext, waiters, queues) && AllLinks(ownedNext, ownedMutexes, owned)
    }

    /** The idle thread can always run, and is never chosen for its score. */
    ghost predicate IdleOk()
      reads this
    {
      && 0 <= IDLE < |threads| && threads[IDLE].priority == 0
      && (threads[IDLE].state == Ready || threads[IDLE].state == Running)
    }

    /** scheduler_init, with the threads that are created then, none of which has run yet, and mutexes as mutex_init
        leaves them. */
    constructor (created: seq<Thread>, mutexCount: nat, usec: Word)
      requires forall t | t in created :: (t.state == Ready || t.state == Suspended) && t.block == NotBlocked
      ensures Valid() && IdleOk() && Initial(Abs()) && current == IDLE && threads[IDLE].state == Running && !frozen
      ensures threads[1..] == created && |mutexes| == mutexCount && lastTick == usec
    {
      var n := 1 + |created|;
      threads := [Thread(Running, NotBlocked, NONE, 0, 0, 0)] + created;
      mutexes := seq(mutexCount, (m: int) => Mutex(NONE, 0));
      queueNext, ownedMutexes := seq(n, (t: int) => NONE), seq(n, (t: int) => NONE);
      waiters, ownedNext := seq(mutexCount, (m: int) => NONE), seq(mutexCount, (m: int) => NONE);
      cputime, cpuload := seq(n, (t: int) => 0), seq(n, (t: int) => 0);
      current, lastTick, frozen := IDLE, usec, false;
      waiting := seq(n, (t: int) => NONE);
      queues, owned := seq(mutexCount, (m: int) => []), seq(n, (t: int) => []);
      new;
      forall t | 0 < t < |threads|
        ensures threads[t].state != Running && threads[t].block == NotBlocked
      {
        assert threads[t] in created;
      }
      InitialIsOk(Abs());
    }

    /** The last waiter of higher priority. */
    method FindBefore(m: int, thread: int) returns (t: int, ghost k: nat)
      requires AllLinks(queueNext, waiters, queues) && 0 <= m < |queues| && |queueNext| == |threads|
      requires 0 <= thread < |threads| && queues[m] != []
      requires threads[queues[m][0]].priority > threads[thread].priority
      ensures k < |queues[m]| && t == queues[m][k]
      ensures forall i | 0 <= i <= k :: threads[queues[m][i]].priority > threads[thread].priority
      ensures k + 1 < |queues[m]| ==> threads[queues[m][k + 1]].priority <= threads[thread].priority
    {
      ghost var q := queues[m];
      assert Links(queueNext, waiters[m], q);
      t, k := waiters[m], 0;
      while queueNext[t] != NONE && threads[queueNext[t]].priority > threads[thread].priority
        invariant 0 <= k < |q| && t == q[k] && LinkAt(queueNext, q, k)
        invariant forall i | 0 <= i <= k :: threads[q[i]].priority > threads[thread].priority
        decreases |q| - k
      {
        t, k := queueNext[t], k + 1;
      }
    }

    /** mutex_add_to_queue: before the first waiter whose priority is no higher. */
    method AddToQueue(m: int, thread: int)
      requires AllLinks(queueNext, waiters, queues) && AllApart(queues) && 0 <= m < |queues| && Distinct(queues[m])
      requires |queueNext| == |threads| && 0 <= thread < |threads|
      requires forall n | 0 <= n < |queues| :: thread !in queues[n]
      requires forall i | 0 <= i < |queues[m]| :: 0 <= queues[m][i] < |threads|
      modifies this`queueNext, this`waiters, this`queues
      ensures AllLinks(queueNext, waiters, queues) && |queueNext| == |threads|
      ensures queues == old(queues)[m :=
        InsertedAt(old(queues)[m], Place(threads, old(queues)[m], threads[thread].priority), thread)]
    {
      ghost var q, k := queues[m], 0;
      assert Links(queueNext, waiters[m], q);
      if waiters[m] == NONE || threads[waiters[m]].priority <= threads[thread].priority {
        InsertAll(queueNext, waiters, queues, m, 0, thread);
        queueNext := queueNext[thread := waiters[m]];
        waiters := waiters[m := thread];
      } else {
        var t;
        t, k := FindBefore(m, thread);
        assert LinkAt(queueNext, q, k);
        k := k + 1;
        InsertAll(queueNext, waiters, queues, m, k, thread);
        queueNext := queueNext[thread := queueNext[t]];
        queueNext := queueNext[t := thread];
      }
      PlaceIs(threads, q, threads[thread].priority, k);
      queues := queues[m := InsertedAt(q, k, thread)];
    }

    /** mutex_remove_from_queue, stopping at the end of the queue; `pastEnd` tells that the original does not. */
    method RemoveFromQueue(m: int, thread: int) returns (pastEnd: bool)
      requires AllLinks(queueNext, waiters, queues) && AllApart(queues) && 0 <= m < |queues| && Distinct(queues[m])
      requires thread in queues[m]
      modifies this`queueNext, this`waiters, this`queues
      ensures AllLinks(queueNext, waiters, queues) && |queueNext| == |old(queueNext)|
      ensures queues == old(queues)[m := RemovedAt(old(queues)[m], Find(old(queues)[m], thread))]
      ensures pastEnd <==> LastOfSeveral(old(queues)[m], thread)
    {
      ghost var k := Find(queues[m], thread);
      var next, head;
      next, head, pastEnd := Unlink(queueNext, waiters[m], thread, queues[m], k);
      ChangeOne(queueNext, waiters, queues, m, next, head, RemovedAt(queues[m], k));
      queueNext, waiters := next, waiters[m := head];
      queues := queues[m := RemovedAt(queues[m], k)];
    }

    /** The mutex becomes the first one that thread `t` owns. */
    method PushOwned(m: int, t: int)
      requires AllLinks(ownedNext, ownedMutexes, owned) && AllApart(owned) && 0 <= t < |owned| && Distinct(owned[t])
      requires |ownedNext| == |mutexes| && 0 <= m < |mutexes| && forall u | 0 <= u < |owned| :: m !in owned[u]
      modifies this`ownedNext, this`ownedMutexes, this`owned
      ensures AllLinks(ownedNext, ownedMutexes, owned) && |ownedNext| == |mutexes|
      ensures owned == old(owned)[t := [m] + old(owned)[t]]
    {
      PushAll(ownedNext, ownedMutexes, owned, t, m);
      ownedNext := ownedNext[m := ownedMutexes[t]];
      ownedMutexes := ownedMutexes[t := m];
      owned := owned[t := [m] + owned[t]];
    }

    /** mutex_lock on a free mutex. */
    method Acquire(m: int, ghost timeout: Word, ghost now: Word)
      requires Valid() && Enabled(Abs(), LockStep(m, timeout, now)) && mutexes[m].count == 0
      modifies this`mutexes, this`ownedNext, this`ownedMutexes, this`owned
      ensures Valid() && Abs() == Lock(old(Abs()), m, timeout, now)
    {
      ghost var w := Abs();
      StepKeeps(w, LockStep(m, timeout, now));
      ListsApart(w);
      assert w.ThreadOk(current) by { assert Unfold(0); }
      forall u | 0 <= u < |owned|
        ensures m !in owned[u]
      {
        assert w.OwnedOk(u, m) by { assert Unfold(0); }
      }
      mutexes := mutexes[m := Mutex(current, 1)];
      PushOwned(m, current);
    }

    /** mutex_lock by the owner. */
    method Relock(m: int, ghost timeout: Word, ghost now: Word)
      requires Valid() && Enabled(Abs(), LockStep(m, timeout, now))
      requires mutexes[m].count != 0 && mutexes[m].owner == current
      modifies this`mutexes
      ensures Valid() && Abs() == Lock(old(Abs()), m, timeout, now)
    {
      StepKeeps(Abs(), LockStep(m, timeout, now));
      mutexes := mutexes[m := mutexes[m].(count := mutexes[m].count + 1)];
    }

    /** mutex_lock on a mutex of another thread. */
    method Wait(m: int, timeout: Word, now: Word)
      requires Valid() && Enabled(Abs(), LockStep(m, timeout, now)) && MustWait(Abs(), m) && timeout != TIMEOUT_NONE
      modifies this`threads, this`waiters, this`queueNext, this`queues, this`waiting
      ensures Valid() && Abs() == Lock(old(Abs()), m, timeout, now)
    {
      ghost var w := Abs();
      StepKeeps(w, LockStep(m, timeout, now));
      ListsApart(w);
      RunningIsUnqueued(w);
      assert w.MutexOk(m) by { assert Unfold(0); }
      AddToQueue(m, current);
      threads := threads[current := threads[current].(state := Blocked, block := OnMutex, blockedBy := m,
                                                      timeout := timeout, since := now)];
      waiting := waiting[current := m];
    }

    /** mutex_lock up to its yield: its result, or that the caller has to wait. */
    method LockOrWait(m: int, timeout: Word, now: Word) returns (ret: int, waits: bool)
      requires Valid() && Enabled(Abs(), LockStep(m, timeout, now))
      modifies this`threads, this`mutexes, this`waiters, this`queueNext, this`queues, this`waiting,
        this`ownedNext, this`ownedMutexes, this`owned
      ensures Valid() && Abs() == Lock(old(Abs()), m, timeout, now)
      ensures waits <==> MustWait(old(Abs()), m) && timeout != TIMEOUT_NONE
      ensures !waits ==> ret == if Abs().Owns(current, m) then 0 else -1
    {
      ghost var w := Abs();
      StepKeeps(w, LockStep(m, timeout, now));
      assert w.MutexOk(m) by { assert Unfold(0); }
      ret, waits := THREAD_OK, false;
      if mutexes[m].count == 0 {
        Acquire(m, timeout, now);
      } else if mutexes[m].owner == current {
        Relock(m, timeout, now);
      } else if timeout != TIMEOUT_NONE {
        Wait(m, timeout, now);
        waits := true;
      } else {
        ret := THREAD_TIMEOUT;
      }
    }

    /** The end of mutex_lock, when a thread that had to wait runs again. */
    method LockResumed() returns (ret: int)
      requires Valid() && Enabled(Abs(), ResumeStep)
      modifies this`waiting
      ensures Valid() && Abs() == Resume(old(Abs()))
      ensures ret == if Abs().Owns(current, old(waiting)[current]) then 0 else -1
    {
      StepKeeps(Abs(), ResumeStep);
      ResumeTellsOwner(Abs());
      var m := waiting[current];
      ret := if mutexes[m].owner != current then THREAD_TIMEOUT else THREAD_OK;
      waiting := waiting[current := NONE];
    }

    /** mutex_unlock_internal: take the mutex from its owner's list and give it to the first waiter, or free it. The walk
        through the list stops at its end; `pastEnd` tells that the original does not. */
    method UnlockInternal(m: int) returns (pastEnd: bool)
      requires Valid() && Enabled(Abs(), UnlockStep(m)) && 0 <= m < |mutexes| && mutexes[m].count == 1
      modifies this`threads, this`mutexes, this`waiters, this`queues, this`ownedNext, this`ownedMutexes, this`owned
      ensures Valid() && Abs() == Unlock(old(Abs()), m)
      ensures pastEnd <==> LastOfSeveral(old(owned)[current], m)
    {
      ghost var w := Abs();
      StepKeeps(w, UnlockStep(m));
      ListsApart(w);
      assert w.OwnedOk(current, m) && w.ThreadOk(current) && w.MutexOk(m) by { assert Unfold(0); }
      assert Links(queueNext, waiters[m], queues[m]);
      pastEnd := TakeOwned(m);
      if waiters[m] != NONE {
        HandOver(w, m);
        var next := waiters[m];
        GiveTo(m, next, w);
      } else {
        mutexes := mutexes[m := mutexes[m].(count := 0)];
      }
    }

    /** The mutex leaves the running thread's list. */
    method TakeOwned(m: int) returns (pastEnd: bool)
      requires AllLinks(ownedNext, ownedMutexes, owned) && AllApart(owned) && 0 <= current < |owned|
      requires Distinct(owned[current]) && m in owned[current]
      modifies this`ownedNext, this`ownedMutexes, this`owned
      ensures AllLinks(ownedNext, ownedMutexes, owned) && |ownedNext| == |old(ownedNext)| && AllApart(owned)
      ensures owned == old(owned)[current := RemovedAt(old(owned)[current], Find(old(owned)[current], m))]
      ensures forall u | 0 <= u < |owned| :: m !in owned[u]
      ensures pastEnd <==> LastOfSeveral(old(owned)[current], m)
    {
      ghost var k := Find(owned[current], m);
      RemoveDistinct(owned[current], k);
      var next, head;
      next, head, pastEnd := Unlink(ownedNext, ownedMutexes[current], m, owned[current], k);
      ChangeOne(ownedNext, ownedMutexes, owned, current, next, head, RemovedAt(owned[current], k));
      ownedNext, ownedMutexes := next, ownedMutexes[current := head];
      owned := owned[current := RemovedAt(owned[current], k)];
    }

    /** The first waiter becomes ready and the owner. */
    method GiveTo(m: int, next: int, ghost w: World)
      requires w.Inv() && Enabled(w, UnlockStep(m)) && w.mutexes[m].count == 1
      requires w.queues[m] != [] && next == w.queues[m][0] && w.IsThread(next) && next != w.current
      requires Abs() == w.(owned := w.owned[w.current := RemovedAt(w.owned[w.current], Find(w.owned[w.current], m))])
      requires |queueNext| == |threads| && |ownedNext| == |mutexes| && Unlock(w, m).Inv()
      requires |cputime| == |cpuload| == |threads|
      requires AllLinks(queueNext, waiters, queues) && AllLinks(ownedNext, ownedMutexes, owned) && AllApart(owned)
      requires forall u | 0 <= u < |owned| :: m !in owned[u]
      modifies this`threads, this`mutexes, this`waiters, this`queues, this`ownedNext, this`ownedMutexes, this`owned
      ensures Valid() && Abs() == Unlock(w, m)
    {
      assert w.ThreadOk(next) by { assert Unfold(0); }
      mutexes := mutexes[m := Mutex(next, 1)];
      threads := threads[next := Woken(threads[next])];
      PopQueue(m, next);
      PushOwned(m, next);
    }

    /** The first waiter leaves the queue. */
    method PopQueue(m: int, next: int)
      requires AllLinks(queueNext, waiters, queues) && 0 <= m < |queues| && queues[m] != [] && next == queues[m][0]
      modifies this`waiters, this`queues
      ensures AllLinks(queueNext, waiters, queues) && queues == old(queues)[m := old(queues)[m][1..]]
    {
      ghost var q := queues[m];
      assert Links(queueNext, waiters[m], q);
      waiters := waiters[m := queueNext[next]];
      queues := queues[m := q[1..]];
      TailLinks(queueNext, next, q);
    }

    /** mutex_unlock; a thread that does not own the mutex panics. `pastEnd` tells that the original reads on through the
        null pointer: at the last unlock of a mutex that is the last of several in its owner's list. */
    method UnlockMutex(m: int) returns (panics: bool, ret: int, pastEnd: bool)
      requires Valid() && 0 <= m < |mutexes| && threads[current].state == Running && waiting[current] == NONE
      modifies this`threads, this`mutexes, this`waiters, this`queues, this`ownedNext, this`ownedMutexes, this`owned
      ensures Valid() && (panics <==> !old(Abs()).Owns(current, m))
      ensures panics ==> Abs() == old(Abs())
      ensures !panics ==> Enabled(old(Abs()), UnlockStep(m)) && Abs() == After(old(Abs()), UnlockStep(m))
      ensures !panics ==> ret == old(mutexes)[m].count - 1
      ensures pastEnd <==> !panics && ret == 0 && LastOfSeveral(old(owned)[current], m)
    {
      ghost var w := Abs();
      panics, ret, pastEnd := false, THREAD_OK, false;
      assert w.MutexOk(m) by { assert Unfold(0); }
      if mutexes[m].count == 0 {
        panics := true;
        return;
      }
      if mutexes[m].owner != current {
        panics := true;
        return;
      }
      StepKeeps(w, UnlockStep(m));
      if mutexes[m].count - 1 != 0 {
        mutexes := mutexes[m := mutexes[m].(count := mutexes[m].count - 1)];
        ret := mutexes[m].count;
      } else {
        pastEnd := UnlockInternal(m);
      }
    }

    /** A blocked thread whose timeout has passed leaves its queue and becomes ready. */
    method Release(t: int) returns (pastEnd: bool)
      requires Valid() && Enabled(Abs(), TimeOutStep(t))
      modifies this`threads, this`waiters, this`queueNext, this`queues
      ensures Valid() && Abs() == TimeOut(old(Abs()), t)
      ensures pastEnd <==> LastWaiter(old(Abs()), t)
    {
      ghost var w := Abs();
      StepKeeps(w, TimeOutStep(t));
      ListsApart(w);
      assert w.ThreadOk(t) by { assert Unfold(0); }
      pastEnd := false;
      if threads[t].block == OnMutex {
        assert w.MutexOk(threads[t].blockedBy) by { assert Unfold(0); }
        pastEnd := RemoveFromQueue(threads[t].blockedBy, t);
      }
      threads := threads[t := Woken(threads[t])];
    }

    /** The running thread gives up the processor. */
    method PauseCurrent()
      requires Valid()
      modifies this`threads
      ensures Valid() && Abs() == Pause(old(Abs())) && forall t | 0 <= t < |threads| :: threads[t].state != Running
    {
      PauseKeeps(Abs());
      if threads[current].state == Running {
        threads := threads[current := threads[current].(state := Ready)];
      }
    }

    /** The times used have been turned into shares and start again if a tick is over; else they stay. */
    ghost predicate Accounted(cputime0: seq<Word>, cpuload0: seq<int>, lastTick0: Word, usec: Word)
      reads this
    {
      var diff := Wrap(usec - lastTick0);
      if diff > SCHEDULER_TICK then
        && lastTick == usec && |cputime| == |cpuload| == |cputime0|
        && forall t | 0 <= t < |cputime| :: cputime[t] == 0 && cpuload[t] == Load(cputime0[t], diff)
      else
        lastTick == lastTick0 && cputime == cputime0 && cpuload == cpuload0
    }

    /** At the end of a tick the processor shares are worked out and the times start again. */
    method Account(usec: Word)
      requires |cputime| == |cpuload|
      modifies this`cputime, this`cpuload, this`lastTick
      ensures Accounted(old(cputime), old(cpuload), old(lastTick), usec)
      ensures old(lastTick) <= usec <= old(lastTick) + 1048576 ==> cputime == old(cputime) && cpuload == old(cpuload)
      ensures usec > old(lastTick) + 1048576 ==> lastTick == usec && forall t | 0 <= t < |cputime| :: cputime[t] == 0
    {
      if Wrap(usec - lastTick) > SCHEDULER_TICK {
        var diff := Wrap(usec - lastTick);
        lastTick := usec;
        for t := 0 to |cputime|
          invariant |cputime| == |cpuload| == |old(cputime)| && lastTick == usec
          invariant forall u | 0 <= u < t :: cputime[u] == 0 && cpuload[u] == Load(old(cputime)[u], diff)
          invariant forall u | t <= u < |cputime| :: cputime[u] == old(cputime)[u]
        {
          cpuload := cpuload[t := Load(cputime[t], diff)];
          cputime := cputime[t := 0];
        }
      }
    }

    /** The threads below `t` have been looked at, in the world `w` that scheduler_switch has found; folded. */
    ghost predicate LookedAt(w: World, usec: Word, t: int, nextUnblock: Word, pastEnd: bool, steps: seq<Step>)
      reads this
    {
      && w.Inv() && 0 <= t <= |w.threads| == |threads|
      && forall k {:trigger Unfold(k)} | Unfold(k) ::
           && AllEnabled(w, steps) && Abs() == AfterAll(w, steps)
           && (forall u | 0 <= u < |threads| ::
                 threads[u] == if u < t && Expired(w.threads[u], usec) then Woken(w.threads[u]) else w.threads[u])
           && NextUnblock(w.threads, t, usec, nextUnblock)
           && StillQueued(w, usec, t, queues) && (pastEnd <==> exists u | 0 <= u < t :: ReadsPast(w, usec, u))
    }

    /** The timeout of thread `t` has passed. */
    method ReleaseNext(t: int, ghost w: World, usec: Word, nextUnblock: Word, past0: bool, ghost steps0: seq<Step>)
      returns (pastEnd: bool, ghost steps: seq<Step>)
      requires Valid() && LookedAt(w, usec, t, nextUnblock, past0, steps0) && t < |threads|
      requires Expired(threads[t], usec)
      modifies this`threads, this`waiters, this`queueNext, this`queues
      ensures Valid() && LookedAt(w, usec, t + 1, nextUnblock, pastEnd, steps)
    {
      assert Unfold(0);
      RunLonger(w, steps0, TimeOutStep(t));
      OneLeaves(w, usec, t, Abs());
      pastEnd := Release(t);
      pastEnd := past0 || pastEnd;
      steps := steps0 + [TimeOutStep(t)];
    }

    /** Thread `t` stays as it is; its timeout counts if it waits for one. */
    method LeaveBe(t: int, ghost w: World, usec: Word, next0: Word, ghost pastEnd: bool, ghost steps: seq<Step>)
      returns (nextUnblock: Word)
      requires LookedAt(w, usec, t, next0, pastEnd, steps) && t < |threads| && !Expired(threads[t], usec)
      ensures LookedAt(w, usec, t + 1, nextUnblock, pastEnd, steps)
    {
      assert Unfold(0);
      NoneLeaves(w, usec, t, queues);
      nextUnblock := next0;
      if threads[t].state == Blocked && threads[t].timeout != TIMEOUT_BLOCK {
        var left := Left(threads[t], usec);
        if left < nextUnblock {
          nextUnblock := left;
        }
      }
    }

    /** One round of the loop over the threads. */
    method LookNext(t: int, ghost w: World, usec: Word, next0: Word, past0: bool, ghost steps0: seq<Step>)
      returns (nextUnblock: Word, pastEnd: bool, ghost steps: seq<Step>)
      requires Valid() && LookedAt(w, usec, t, next0, past0, steps0) && t < |threads|
      modifies this`threads, this`waiters, this`queueNext, this`queues
      ensures Valid() && LookedAt(w, usec, t + 1, nextUnblock, pastEnd, steps)
    {
      nextUnblock, pastEnd, steps := next0, past0, steps0;
      if threads[t].state == Blocked && threads[t].timeout != TIMEOUT_BLOCK && TimeAfter(usec, Deadline(threads[t])) {
        pastEnd, steps := ReleaseNext(t, w, usec, next0, past0, steps0);
      } else {
        nextUnblock := LeaveBe(t, w, usec, next0, past0, steps0);
      }
    }

    lemma NoneLookedAt(usec: Word)
      requires Valid()
      ensures LookedAt(Abs(), usec, 0, NEVER, false, [])
    {
      NobodyLeft(Abs(), usec);
    }

    lemma AllLookedAt(w: World, usec: Word, nextUnblock: Word, pastEnd: bool, steps: seq<Step>)
      requires LookedAt(w, usec, |threads|, nextUnblock, pastEnd, steps)
      ensures AllEnabled(w, steps) && Abs() == AfterAll(w, steps)
      ensures threads == Released(w.threads, usec) && NextUnblock(w.threads, |w.threads|, usec, nextUnblock)
      ensures pastEnd <==> TimesOutPastEnd(w, usec)
    {
      assert Unfold(0);
    }

    /** Make the threads ready whose timeouts have passed, and find the time to the next one. `pastEnd` tells that the
        original reads on through the null pointer. */
    method ReleaseExpired(usec: Word) returns (nextUnblock: Word, pastEnd: bool, ghost steps: seq<Step>)
      requires Valid()
      modifies this`threads, this`waiters, this`queueNext, this`queues
      ensures Valid() && AllEnabled(old(Abs()), steps) && Abs() == AfterAll(old(Abs()), steps)
      ensures threads == Released(old(threads), usec)
      ensures NextUnblock(old(threads), |old(threads)|, usec, nextUnblock)
      ensures pastEnd <==> TimesOutPastEnd(old(Abs()), usec)
    {
      ghost var w := Abs();
      steps := [];
      nextUnblock, pastEnd := NEVER, false;
      NoneLookedAt(usec);
      for t := 0 to |threads|
        invariant Valid() && LookedAt(w, usec, t, nextUnblock, pastEnd, steps) && |threads| == |w.threads|
      {
        nextUnblock, pastEnd, steps := LookNext(t, w, usec, nextUnblock, pastEnd, steps);
      }
      AllLookedAt(w, usec, nextUnblock, pastEnd, steps);
    }

    /** The ready thread that has used the least processor time for its priority; the idle thread if there is none. */
    method Choose(block: int) returns (thread: int)
      requires |cputime| == |threads|
      ensures Best(threads, cputime, block, thread) && Fair(threads, cputime, block, thread)
    {
      thread := IDLE;
      var best: Word := NEVER;
      for t := 0 to |threads|
        invariant 0 <= best <= NEVER
        invariant forall u | 0 <= u < t && Candidate(threads[u]) :: Score(threads, cputime, block, u) >= best
        invariant if best == NEVER then thread == IDLE
          else 0 <= thread < t && Candidate(threads[thread]) && Score(threads, cputime, block, thread) == best &&
               forall u | 0 <= u < thread && Candidate(threads[u]) :: Score(threads, cputime, block, u) > best
      {
        if threads[t].state == Ready && threads[t].priority != 0 {
          var score := if t == block then LAST_RESORT else cputime[t] / threads[t].priority;
          if score < best {
            best := score;
            thread := t;
          }
        }
      }
      BestIsFair(threads, cputime, block, thread);
    }

    /** The chosen thread gets the processor. */
    method RunThread(thread: int)
      requires Valid() && Enabled(Abs(), DispatchStep(thread))
      modifies this`threads, this`current
      ensures Valid() && Abs() == Dispatch(old(Abs()), thread)
      ensures forall t | 0 <= t < |threads| :: threads[t].state == Running <==> t == current
    {
      DispatchKeeps(Abs(), thread);
      current := thread;
      threads := threads[current := threads[current].(state := Running)];
    }

    /** Release the threads whose timeouts have passed and choose one to run. */
    method Select(hint: int, block: int, usec: Word)
      returns (thread: int, wake: Word, pastEnd: bool, ghost steps: seq<Step>)
      requires Valid() && IdleOk() && threads[IDLE].state == Ready
      modifies this`threads, this`waiters, this`queueNext, this`queues
      ensures Valid() && AllEnabled(old(Abs()), steps) && Abs() == AfterAll(old(Abs()), steps)
      ensures threads == Released(old(threads), usec)
      ensures 0 <= thread < |threads| && threads[thread].state == Ready
      ensures if 0 <= hint < |threads| && threads[hint].state == Ready then thread == hint
              else Best(threads, cputime, block, thread)
      ensures if thread == IDLE then NextUnblock(old(threads), |threads|, usec, wake) else wake == SYSTEM_TICK
      ensures pastEnd <==> TimesOutPastEnd(old(Abs()), usec)
    {
      thread := hint;
      wake, pastEnd, steps := ReleaseExpired(usec);
      if !(0 <= thread < |threads|) || threads[thread].state != Ready {
        thread := Choose(block);
      }
      if thread != IDLE {
        wake := SYSTEM_TICK;
      }
    }

    /** The steps lead from world `w` to where the kernel is. */
    ghost predicate ReachedBy(w: World, steps: seq<Step>)
      reads this
    {
      w.Inv() && forall k {:trigger Unfold(k)} | Unfold(k) :: AllEnabled(w, steps) && Abs() == AfterAll(w, steps)
    }

    /** The first part of scheduler_switch: nobody runs any more. */
    method EnterSwitch(usec: Word) returns (ghost steps: seq<Step>)
      requires Valid() && IdleOk()
      modifies this`threads, this`cputime, this`cpuload, this`lastTick
      ensures Valid() && IdleOk() && ReachedBy(old(Abs()), steps)
      ensures Accounted(old(cputime), old(cpuload), old(lastTick), usec)
      ensures Abs() == Pause(old(Abs())) && forall t | 0 <= t < |threads| :: threads[t].state != Running
    {
      RunLonger(Abs(), [], PauseStep);
      PauseCurrent();
      steps := [PauseStep];
      Account(usec);
    }

    /** The second part: whose turn it is, and when the timer is to interrupt. */
    method Decide(hint: int, block: int, usec: Word, ghost w: World, ghost steps0: seq<Step>)
      returns (thread: int, wake: Option<Word>, pastEnd: bool, ghost steps: seq<Step>)
      requires Valid() && IdleOk() && ReachedBy(w, steps0)
      requires forall t | 0 <= t < |threads| :: threads[t].state != Running
      modifies this`threads, this`waiters, this`queueNext, this`queues
      ensures Valid() && IdleOk() && ReachedBy(w, steps)
      ensures 0 <= thread < |threads| && threads[thread].state == Ready
      ensures forall t | 0 <= t < |threads| :: threads[t].state != Running
      ensures frozen ==> thread == IDLE && wake == None && threads == old(threads)
      ensures !frozen ==>
        && threads == Released(old(threads), usec)
        && (if 0 <= hint < |threads| && threads[hint].state == Ready then thread == hint
            else Best(threads, cputime, block, thread))
        && wake.Some?
        && (if thread == IDLE then NextUnblock(old(threads), |threads|, usec, wake.value) else wake.value == SYSTEM_TICK)
      ensures pastEnd <==> !frozen && TimesOutPastEnd(old(Abs()), usec)
    {
      thread, wake, pastEnd, steps := IDLE, None, false, steps0;
      if !frozen {
        var time;
        ghost var more;
        thread, time, pastEnd, more := Select(hint, block, usec);
        wake := Some(time);
        assert Unfold(0);
        RunJoined(w, steps0, more);
        steps := steps0 + more;
      }
    }

    /** The last part: the chosen thread gets the processor. */
    method LeaveSwitch(thread: int, ghost w: World, ghost steps0: seq<Step>) returns (ghost steps: seq<Step>)
      requires Valid() && IdleOk() && ReachedBy(w, steps0)
      requires 0 <= thread < |threads| && threads[thread].state == Ready
      requires forall t | 0 <= t < |threads| :: threads[t].state != Running
      modifies this`threads, this`current
      ensures Valid() && IdleOk() && ReachedBy(w, steps)
      ensures current == thread && threads == Ran(old(threads), thread)
      ensures forall t | 0 <= t < |threads| :: threads[t].state == Running <==> t == current
    {
      assert AllEnabled(w, steps0) && Abs() == AfterAll(w, steps0) by { assert Unfold(0); }
      RunLonger(w, steps0, DispatchStep(thread));
      RunThread(thread);
      steps := steps0 + [DispatchStep(thread)];
    }

    /** scheduler_switch: `hint` is to run if it can, `block` is to run only if nothing else can. The result is the
        time after which the timer is to interrupt, if at all; `pastEnd` tells that the original reads on through the
        null pointer, at the timeout of a thread that is then the last of several waiters. */
    method SwitchThread(hint: int, block: int, usec: Word)
      returns (wake: Option<Word>, pastEnd: bool, ghost steps: seq<Step>)
      requires Valid() && IdleOk()
      modifies this`threads, this`waiters, this`queueNext, this`queues, this`current,
        this`cputime, this`cpuload, this`lastTick
      ensures Valid() && IdleOk()
      ensures AllEnabled(old(Abs()), steps) && Abs() == AfterAll(old(Abs()), steps)
      ensures Accounted(old(cputime), old(cpuload), old(lastTick), usec)
      ensures forall t | 0 <= t < |threads| :: threads[t].state == Running <==> t == current
      ensures frozen ==> current == IDLE && wake == None && threads == Ran(Pause(old(Abs())).threads, IDLE)
      ensures !frozen ==> var ready := Released(Pause(old(Abs())).threads, usec);
        && threads == Ran(ready, current)
        && (if 0 <= hint < |ready| && ready[hint].state == Ready then current == hint
            else Best(ready, cputime, block, current) && Fair(ready, cputime, block, current))
        && wake.Some?
        && (if current == 0 then NextUnblock(Pause(old(Abs())).threads, |ready|, usec, wake.value)
            else wake.value == 10000)
      ensures pastEnd <==> !frozen && TimesOutPastEnd(Pause(old(Abs())), usec)
    {
      ghost var w := Abs();
      var thread;
      steps := EnterSwitch(usec);
      thread, wake, pastEnd, steps := Decide(hint, block, usec, w, steps);
      steps := LeaveSwitch(thread, w, steps);
      assert Unfold(0);
      ghost var ready := Released(Pause(w).threads, usec);
      if !frozen && !(0 <= hint < |ready| && ready[hint].state == Ready) {
        BestIsFair(ready, cputime, block, current);
      }
    }
  }

  /** Locking a mutex once more and unlocking it undo each other. */
  method LockAgain(kernel: Kernel, m: int, timeout: Word, now: Word) returns (locked: int, unlocked: int)
    requires kernel.Valid() && kernel.Abs().Owns(kernel.current, m)
    requires kernel.threads[kernel.current].state == Running && kernel.waiting[kernel.current] == NONE
    modifies kernel
    ensures kernel.Valid() && kernel.Abs() == old(kernel.Abs())
    ensures locked == 0 && unlocked == old(kernel.mutexes)[m].count
  {
    var waits, panics, pastEnd;
    locked, waits := kernel.LockOrWait(m, timeout, now);
    panics, unlocked, pastEnd := kernel.UnlockMutex(m);
  }

  /** A thread locks a free mutex `k` times and unlocks it `k` times. Each unlock but the last returns how many locks are
      left, and leaves it the owner; after the last the mutex is free, and everything else as before. */
  method LockOver(kernel: Kernel, m: int, k: nat, timeout: Word, now: Word)
    returns (rets: seq<int>, ghost owns: seq<bool>)
    requires kernel.Valid() && kernel.Abs().IsMutex(m) && kernel.mutexes[m].count == 0 && k > 0
    requires kernel.threads[kernel.current].state == Running && kernel.waiting[kernel.current] == NONE
    modifies kernel
    ensures kernel.Valid() && kernel.Abs() == Freed(old(kernel.Abs()), m) && |rets| == |owns| == k
    ensures forall j | 0 <= j < k :: rets[j] == k - 1 - j && (owns[j] <==> j < k - 1)
  {
    ghost var w := kernel.Abs();
    FreeHasNoWaiters(w, m);
    for i := 0 to k
      invariant kernel.Valid() && LockedOver(w, kernel.Abs(), m, i)
    {
      var ret, waits := kernel.LockOrWait(m, timeout, now);
    }
    rets, owns := [], [];
    assert w.mutexes[m := Mutex(w.current, 0)][m := Mutex(w.current, k)] == w.mutexes[m := Mutex(w.current, k)];
    for j := 0 to k
      invariant kernel.Valid() && LockedOver(Freed(w, m), kernel.Abs(), m, k - j) && |rets| == |owns| == j
      invariant forall i | 0 <= i < j :: rets[i] == k - 1 - i && (owns[i] <==> i < k - 1)
    {
      UnlockOnce(Freed(w, m), kernel.Abs(), m, k - j);
      var panics, ret, pastEnd := kernel.UnlockMutex(m);
      rets, owns := rets + [ret], owns + [kernel.Abs().Owns(kernel.current, m)];
    }
  }

  /** World `w` with mutex `m` free, as its last owner leaves it. */
  function Freed(w: World, m: int): World
    requires w.IsMutex(m)
  {
    w.(mutexes := w.mutexes[m := Mutex(w.current, 0)])
  }

  /** World `w` with mutex `m` held `k` times by the running thread. */
  ghost predicate LockedOver(w: World, now: World, m: int, k: int)
  {
    && w.Sized() && w.IsMutex(m)
    && now == if k == 0 then w
              else w.(mutexes := w.mutexes[m := Mutex(w.current, k)], owned := w.owned[w.current := [m] + w.owned[w.current]])
  }

  lemma UnlockOnce(w: World, now: World, m: int, k: int)
    requires LockedOver(w, now, m, k) && k > 0 && w.queues[m] == [] && w.mutexes[m] == Mutex(w.current, 0)
    ensures now.IsMutex(m) && m in now.owned[now.current] && LockedOver(w, Unlock(now, m), m, k - 1)
  {
    var list := w.owned[w.current];
    assert now.owned[now.current] == [m] + list && RemovedAt([m] + list, 0) == list;
    assert w.mutexes[m := Mutex(w.current, k)][m := Mutex(w.current, k - 1)] == w.mutexes[m := Mutex(w.current, k - 1)];
    assert w.mutexes[m := Mutex(w.current, 0)] == w.mutexes;
    assert w.owned[w.current := [m] + list][w.current := list] == w.owned;
  }

  lemma FreeHasNoWaiters(w: World, m: int)
    requires w.Inv() && w.IsMutex(m) && w.mutexes[m].count == 0
    ensures w.queues[m] == []
  {
    Meaning(w);
  }

  /** It does happen: a thread that owns nothing locks two free mutexes and unlocks the first of them first. */
  method UnlockInOrder(kernel: Kernel, a: int, b: int, now: Word) returns (panics: bool, pastEnd: bool)
    requires kernel.Valid() && kernel.Abs().IsMutex(a) && kernel.Abs().IsMutex(b) && a != b
    requires kernel.mutexes[a].count == 0 && kernel.mutexes[b].count == 0 && kernel.owned[kernel.current] == []
    requires kernel.threads[kernel.current].state == Running && kernel.waiting[kernel.current] == NONE
    modifies kernel
    ensures kernel.Valid() && !panics && pastEnd
  {
    var ret, waits;
    ret, waits := kernel.LockOrWait(a, TIMEOUT_BLOCK, now);
    ret, waits := kernel.LockOrWait(b, TIMEOUT_BLOCK, now);
    assert kernel.owned[kernel.current] == [b, a];
    panics, ret, pastEnd := kernel.UnlockMutex(a);
  }

  /** The same for a queue: the second of two waiters times out. */
  lemma SecondTimesOut(w: World, m: int, first: int, second: int, usec: Word)
    requires w.Inv() && w.IsMutex(m) && w.queues[m] == [first, second] && w.IsThread(first) && w.IsThread(second)
    requires Expired(w.threads[second], usec) && !Expired(w.threads[first], usec)
    ensures TimesOutPastEnd(w, usec)
  {
    assert w.QueueOk(m, second) && w.MutexOk(m) && w.queues[m][1] == second by { assert Unfold(0); }
    assert w.queues[m][0] != w.queues[m][1] by { assert Unfold(0); }
    assert ReadsPast(w, usec, second);
  }

  const SCHEDULER_TICK := 1048576
  const SYSTEM_TICK: Word := 10000
  const NEVER: Word := 0xffff_ffff
  const LAST_RESORT: Word := 0xffff_fffe

  /** Arithmetic of unsigned 32-bit words. */
  function Wrap(x: int): Word {
    x % 0x1_0000_0000
  }

  /** A thread's share of a tick, as the byte that keeps it. */
  function Load(cputime: int, diff: int): int
    requires diff > 0
  {
    Wrap(255 * cputime) / diff % 256
  }

  /** TIME_AFTER: is time `a` after `b`, that is, is their difference as a signed word negative? */
  predicate TimeAfter(a: Word, b: Word) {
    Wrap(b - a) >= 0x8000_0000
  }

  function Deadline(t: Thread): Word {
    Wrap(t.since + t.timeout)
  }

  predicate Expired(t: Thread, usec: Word) {
    t.state == Blocked && t.timeout != TIMEOUT_BLOCK && TimeAfter(usec, Deadline(t))
  }

  function Left(t: Thread, usec: Word): Word {
    Wrap(t.since + t.timeout - usec)
  }

  /** Once its timeout has passed, and never before, a thread is released: for timeouts below 2^31 and as long as the
      scheduler looks at it within 2^31 microseconds after that, although the clock wraps around. */
  lemma TimeoutIsExact(t: Thread, start: nat, now: nat)
    requires t.state == Blocked && t.since == Wrap(start) && t.timeout < 0x8000_0000
    requires start <= now <= start + t.timeout + 0x8000_0000
    ensures Expired(t, Wrap(now)) <==> now > start + t.timeout
    ensures !Expired(t, Wrap(now)) ==> Left(t, Wrap(now)) == start + t.timeout - now
  {
    WrapDifference(t.since + t.timeout, start + t.timeout, now);
    WrapDifference(Deadline(t), start + t.timeout, now);
    WrapSmall(start + t.timeout - now);
  }

  lemma WrapSmall(d: int)
    requires -0x8000_0000 <= d < 0x8000_0000
    ensures Wrap(d) == if d < 0 then d + 0x1_0000_0000 else d
  {
  }

  lemma WrapDifference(d: int, deadline: nat, now: nat)
    requires Wrap(d) == Wrap(deadline)
    ensures Wrap(d - Wrap(now)) == Wrap(deadline - now)
  {
  }

  /** The threads after those whose timeouts have passed have been made ready. */
  function Released(threads: seq<Thread>, usec: Word): (r: seq<Thread>)
    ensures |r| == |threads|
  {
    seq(|threads|, (t: int) requires 0 <= t < |threads| => if Expired(threads[t], usec) then Woken(threads[t]) else threads[t])
  }

  function Ran(threads: seq<Thread>, t: int): seq<Thread> {
    if 0 <= t < |threads| then threads[t := threads[t].(state := Running)] else threads
  }

  /** Is the thread waiting for a timeout that has not passed? */
  predicate Pending(t: Thread, usec: Word) {
    t.state == Blocked && t.timeout != TIMEOUT_BLOCK && !Expired(t, usec)
  }

  /** `next` is the least time left of the first `n` threads, or `NEVER`. */
  ghost predicate NextUnblock(threads: seq<Thread>, n: int, usec: Word, next: Word)
    requires n <= |threads|
  {
    && (forall t | 0 <= t < n && Pending(threads[t], usec) :: next <= Left(threads[t], usec))
    && (next == NEVER || exists t | 0 <= t < n :: Pending(threads[t], usec) && next == Left(threads[t], usec))
  }

  /** Thread `t` waits for a mutex as the last of several. */
  ghost predicate LastWaiter(w: World, t: int)
    requires w.Sized() && w.IsThread(t)
  {
    && w.threads[t].block == OnMutex && w.IsMutex(w.threads[t].blockedBy)
    && LastOfSeveral(w.queues[w.threads[t].blockedBy], t)
  }

  /** Thread `u` has timed out before it is thread `t`'s turn to be looked at. */
  predicate Gone(threads: seq<Thread>, usec: Word, t: int, u: int) {
    0 <= u < t && u < |threads| && Expired(threads[u], usec)
  }

  /** Those of a queue that are left when it is thread `t`'s turn. */
  function Remaining(q: seq<int>, threads: seq<Thread>, usec: Word, t: int): seq<int> {
    if q == [] then []
    else (if Gone(threads, usec, t, q[0]) then [] else [q[0]]) + Remaining(q[1..], threads, usec, t)
  }

  /** All in this part of a queue time out before it is thread `t`'s turn. */
  ghost predicate AllGone(q: seq<int>, lo: int, hi: int, threads: seq<Thread>, usec: Word, t: int)
    requires 0 <= lo <= hi <= |q|
  {
    forall i | lo <= i < hi :: Gone(threads, usec, t, q[i])
  }

  /** All those queued behind thread `t` time out before it, but not all those in front of it. */
  ghost predicate BecomesLast(q: seq<int>, threads: seq<Thread>, usec: Word, t: int)
    requires t in q
  {
    AllGone(q, Find(q, t) + 1, |q|, threads, usec, t) && !AllGone(q, 0, Find(q, t), threads, usec, t)
  }

  /** The timeout of thread `t` takes it out of a queue in which it is the last of several by then. */
  ghost predicate ReadsPast(w: World, usec: Word, t: int)
    requires w.Sized()
  {
    && w.IsThread(t) && Expired(w.threads[t], usec) && w.threads[t].block == OnMutex && w.IsMutex(w.threads[t].blockedBy)
    && t in w.queues[w.threads[t].blockedBy]
    && BecomesLast(w.queues[w.threads[t].blockedBy], w.threads, usec, t)
  }

  ghost predicate TimesOutPastEnd(w: World, usec: Word)
    requires w.Sized()
  {
    exists t | 0 <= t < |w.threads| :: ReadsPast(w, usec, t)
  }

  /** The queues of world `w` when it is thread `t`'s turn; folded. */
  ghost predicate StillQueued(w: World, usec: Word, t: int, queues: seq<seq<int>>) {
    forall k {:trigger Unfold(k)} | Unfold(k) ::
      |queues| == |w.queues| && forall m | 0 <= m < |queues| :: queues[m] == Remaining(w.queues[m], w.threads, usec, t)
  }

  lemma {:induction false} AllRemain(q: seq<int>, threads: seq<Thread>, usec: Word)
    ensures Remaining(q, threads, usec, 0) == q
  {
    if q != [] {
      AllRemain(q[1..], threads, usec);
      assert q == [q[0]] + q[1..];
    }
  }

  lemma NobodyLeft(w: World, usec: Word)
    ensures StillQueued(w, usec, 0, w.queues)
  {
    forall m | 0 <= m < |w.queues|
      ensures w.queues[m] == Remaining(w.queues[m], w.threads, usec, 0)
    {
      AllRemain(w.queues[m], w.threads, usec);
    }
  }

  lemma {:induction false} SameRemain(q: seq<int>, threads: seq<Thread>, usec: Word, t: nat)
    requires t < |threads| && (t !in q || !Expired(threads[t], usec))
    ensures Remaining(q, threads, usec, t + 1) == Remaining(q, threads, usec, t)
  {
    if q != [] {
      SameRemain(q[1..], threads, usec, t);
      assert q[0] in q;
    }
  }

  lemma {:induction false} NoneRemain(q: seq<int>, threads: seq<Thread>, usec: Word, t: int)
    ensures Remaining(q, threads, usec, t) == [] <==> forall i | 0 <= i < |q| :: Gone(threads, usec, t, q[i])
  {
    if q != [] {
      NoneRemain(q[1..], threads, usec, t);
      assert forall i | 0 <= i < |q| :: q[i] == if i == 0 then q[0] else q[1..][i - 1];
    }
  }

  lemma NoneRemainIn(q: seq<int>, lo: nat, hi: nat, threads: seq<Thread>, usec: Word, t: int)
    requires lo <= hi <= |q|
    ensures Remaining(q[lo..hi], threads, usec, t) == [] <==> AllGone(q, lo, hi, threads, usec, t)
  {
    var s := q[lo..hi];
    NoneRemain(s, threads, usec, t);
    if forall i | 0 <= i < |s| :: Gone(threads, usec, t, s[i]) {
      forall i | lo <= i < hi
        ensures Gone(threads, usec, t, q[i])
      {
        assert q[i] == s[i - lo];
      }
    }
  }

  lemma Associative(a: seq<int>, b: seq<int>, c: seq<int>)
    ensures (a + b) + c == a + (b + c)
  {
  }

  lemma NothingBetween(a: seq<int>, b: seq<int>)
    ensures a + [] + b == a + b
  {
  }

  lemma {:induction false} RemainJoined(a: seq<int>, b: seq<int>, threads: seq<Thread>, usec: Word, t: int)
    ensures Remaining(a + b, threads, usec, t) == Remaining(a, threads, usec, t) + Remaining(b, threads, usec, t)
  {
    if a == [] {
      assert a + b == b;
    } else {
      RemainJoined(a[1..], b, threads, usec, t);
      var ab := a + b;
      assert ab[0] == a[0] && ab[1..] == a[1..] + b;
      var x := if Gone(threads, usec, t, a[0]) then [] else [a[0]];
      Associative(x, Remaining(a[1..], threads, usec, t), Remaining(b, threads, usec, t));
    }
  }

  lemma {:induction false} RemainIn(q: seq<int>, threads: seq<Thread>, usec: Word, t: int, x: int)
    requires x in Remaining(q, threads, usec, t)
    ensures x in q
  {
    if x != q[0] {
      RemainIn(q[1..], threads, usec, t, x);
    }
  }

  lemma {:induction false} FoundBehind(a: seq<int>, x: int, c: seq<int>, q: seq<int>)
    requires x !in a && q == a + [x] + c
    ensures x in q && Find(q, x) == |a|
  {
    assert q[|a|] == x;
    if a != [] {
      assert q[0] == a[0] && q[1..] == a[1..] + [x] + c;
      FoundBehind(a[1..], x, c, q[1..]);
    }
  }

  /** An element between two lists. */
  lemma Between(a: seq<int>, x: int, c: seq<int>, q: seq<int>)
    requires x !in a && q == a + [x] + c
    ensures x in q && RemovedAt(q, Find(q, x)) == a + c && (LastOfSeveral(q, x) <==> a != [] && c == [])
  {
    FoundBehind(a, x, c, q);
  }

  lemma RemainSplit(a: seq<int>, x: int, c: seq<int>, threads: seq<Thread>, usec: Word, turn: int)
    ensures Remaining(a + [x] + c, threads, usec, turn) == Remaining(a, threads, usec, turn)
      + (if Gone(threads, usec, turn, x) then [] else [x]) + Remaining(c, threads, usec, turn)
  {
    var b := [x] + c;
    var left, mine := Remaining(a, threads, usec, turn), if Gone(threads, usec, turn, x) then [] else [x];
    Associative(a, [x], c);
    RemainJoined(a, b, threads, usec, turn);
    assert b[0] == x && b[1..] == c;
    Associative(left, mine, Remaining(c, threads, usec, turn));
  }

  /** A queue at the turn of thread `t`: those left in front of it, itself, and those left behind it. */
  lemma RemainAround(q: seq<int>, threads: seq<Thread>, usec: Word, t: nat, turn: int)
    requires t in q
    ensures var k := Find(q, t);
      Remaining(q, threads, usec, turn) == Remaining(q[0..k], threads, usec, turn)
        + (if Gone(threads, usec, turn, t) then [] else [t]) + Remaining(q[k + 1..|q|], threads, usec, turn)
  {
    var k := Find(q, t);
    var a, c := q[0..k], q[k + 1..|q|];
    assert q == a + [t] + c;
    RemainSplit(a, t, c, threads, usec, turn);
  }

  /** Those that remain before and after thread `t` has timed out, by those left in front of it and behind it. */
  lemma RemainAtTurn(q: seq<int>, threads: seq<Thread>, usec: Word, t: nat, left: seq<int>, right: seq<int>)
    requires Distinct(q) && t in q && t < |threads| && Expired(threads[t], usec)
    requires left == Remaining(q[0..Find(q, t)], threads, usec, t)
    requires right == Remaining(q[Find(q, t) + 1..|q|], threads, usec, t)
    ensures Remaining(q, threads, usec, t) == left + [t] + right && t !in left
    ensures Remaining(q, threads, usec, t + 1) == left + right
  {
    var k := Find(q, t);
    RemainAround(q, threads, usec, t, t);
    RemainAround(q, threads, usec, t, t + 1);
    assert t !in q[0..k] && t !in q[k + 1..|q|];
    SameRemain(q[0..k], threads, usec, t);
    SameRemain(q[k + 1..|q|], threads, usec, t);
    if t in left {
      RemainIn(q[0..k], threads, usec, t, t);
    }
    NothingBetween(left, right);
  }

  /** A thread that times out is removed from those that remain, and is then the last of several just if it becomes so. */
  lemma OneFewer(q: seq<int>, threads: seq<Thread>, usec: Word, t: nat, r: seq<int>)
    requires Distinct(q) && t in q && t < |threads| && Expired(threads[t], usec) && r == Remaining(q, threads, usec, t)
    ensures t in r && RemovedAt(r, Find(r, t)) == Remaining(q, threads, usec, t + 1)
    ensures LastOfSeveral(r, t) <==> BecomesLast(q, threads, usec, t)
  {
    var k := Find(q, t);
    var left, right := Remaining(q[0..k], threads, usec, t), Remaining(q[k + 1..|q|], threads, usec, t);
    RemainAtTurn(q, threads, usec, t, left, right);
    Between(left, t, right, r);
    NoneRemainIn(q, 0, k, threads, usec, t);
    NoneRemainIn(q, k + 1, |q|, threads, usec, t);
  }

  /** A thread that has not timed out stays where it is. */
  lemma NoneLeaves(w: World, usec: Word, t: nat, queues: seq<seq<int>>)
    requires StillQueued(w, usec, t, queues) && t < |w.threads| && !Expired(w.threads[t], usec)
    ensures StillQueued(w, usec, t + 1, queues)
  {
    assert Unfold(0);
    forall m | 0 <= m < |queues|
      ensures queues[m] == Remaining(w.queues[m], w.threads, usec, t + 1)
    {
      SameRemain(w.queues[m], w.threads, usec, t);
    }
  }

  /** A thread that has timed out leaves the queue it is in, as the last of several just if it becomes so. */
  lemma OneLeaves(w: World, usec: Word, t: nat, now: World)
    requires w.Inv() && now.Inv() && StillQueued(w, usec, t, now.queues) && |now.threads| == |w.threads|
    requires t < |w.threads| && now.threads[t] == w.threads[t] && Expired(w.threads[t], usec)
    ensures StillQueued(w, usec, t + 1, TimeOut(now, t).queues)
    ensures LastWaiter(now, t) <==> ReadsPast(w, usec, t)
  {
    assert Unfold(0);
    assert now.ThreadOk(t) && w.ThreadOk(t);
    var m := w.threads[t].blockedBy;
    forall n | 0 <= n < |w.queues|
      ensures TimeOut(now, t).queues[n] == Remaining(w.queues[n], w.threads, usec, t + 1)
    {
      assert w.QueueOk(n, t) && w.MutexOk(n);
      if t in w.queues[n] {
        OneFewer(w.queues[n], w.threads, usec, t, now.queues[n]);
      } else {
        SameRemain(w.queues[n], w.threads, usec, t);
      }
    }
    if w.threads[t].block == OnMutex {
      assert w.MutexOk(m);
      OneFewer(w.queues[m], w.threads, usec, t, now.queues[m]);
    }
  }

  predicate Candidate(t: Thread) {
    t.state == Ready && t.priority != 0
  }

  function Score(threads: seq<Thread>, cputime: seq<Word>, block: int, t: int): int
    requires 0 <= t < |threads| == |cputime| && threads[t].priority != 0
  {
    if t == block then LAST_RESORT else cputime[t] / threads[t].priority
  }

  /** Thread `c` is the first ready thread of the least score; or it is the idle thread, and no ready thread has a score
      below the largest word. */
  ghost predicate Best(threads: seq<Thread>, cputime: seq<Word>, block: int, c: int)
    requires |cputime| == |threads|
  {
    || (c == IDLE && forall u | 0 <= u < |threads| && Candidate(threads[u]) :: Score(threads, cputime, block, u) >= NEVER)
    || (0 <= c < |threads| && Candidate(threads[c]) && FirstOfLeast(threads, cputime, block, c))
  }

  ghost predicate FirstOfLeast(threads: seq<Thread>, cputime: seq<Word>, block: int, c: int)
    requires 0 <= c < |threads| == |cputime| && threads[c].priority != 0
  {
    Score(threads, cputime, block, c) < NEVER &&
    forall u | 0 <= u < |threads| && Candidate(threads[u]) ::
      Score(threads, cputime, block, u) >= Score(threads, cputime, block, c) &&
      (u < c ==> Score(threads, cputime, block, u) > Score(threads, cputime, block, c))
  }

  /** Can the thread be chosen for its score? */
  predicate Eligible(threads: seq<Thread>, t: int) {
    0 <= t < |threads| && threads[t].state == Ready && threads[t].priority > 0
  }

  /** The choice goes by processor time for priority. Another eligible thread has had at least as much time for its
      priority as the chosen one, to the next whole number; more, if it comes before it. The thread `block` is chosen only
      if nobody else has had less than the two largest words, and the idle thread only if that leaves nobody. */
  ghost predicate Fair(threads: seq<Thread>, cputime: seq<Word>, block: int, c: int)
    requires |cputime| == |threads|
  {
    || (c == 0 && forall u | Eligible(threads, u) :: u != block && cputime[u] >= 0xffff_ffff * threads[u].priority)
    || (Eligible(threads, c) && forall u | Eligible(threads, u) && u != c :: NoBetter(threads, cputime, block, c, u))
  }

  /** Thread `u` has no better claim to the processor than thread `c`. */
  ghost predicate NoBetter(threads: seq<Thread>, cputime: seq<Word>, block: int, c: int, u: int)
    requires |cputime| == |threads| && Eligible(threads, c) && Eligible(threads, u)
  {
    if c == block then cputime[u] >= 0xffff_fffe * threads[u].priority
    else if u == block then cputime[c] < 0xffff_ffff * threads[c].priority
    else
      && cputime[c] < (cputime[u] / threads[u].priority + 1) * threads[c].priority
      && (u < c ==> cputime[u] >= (cputime[c] / threads[c].priority + 1) * threads[u].priority)
  }

  lemma Quotient(x: nat, p: nat, q: nat)
    requires 0 < p
    ensures x / p >= q <==> x >= q * p
    ensures x / p <= q <==> x < (q + 1) * p
  {
    var d := x / p;
    assert d * p <= x < (d + 1) * p;
    if d >= q {
      Times(q, d, p);
    } else {
      Times(d + 1, q, p);
    }
    if d <= q {
      Times(d + 1, q + 1, p);
    } else {
      Times(q + 1, d, p);
    }
  }

  lemma Times(a: nat, b: nat, p: nat)
    requires a <= b
    ensures a * p <= b * p
  {
  }

  lemma BestIsFair(threads: seq<Thread>, cputime: seq<Word>, block: int, c: int)
    requires |cputime| == |threads| && Best(threads, cputime, block, c)
    ensures Fair(threads, cputime, block, c)
  {
    if Eligible(threads, c) && FirstOfLeast(threads, cputime, block, c) {
      forall u | Eligible(threads, u) && u != c
        ensures NoBetter(threads, cputime, block, c, u)
      {
        assert Candidate(threads[u]);
        ScoreCompares(threads, cputime, block, c, u);
      }
    } else {
      forall u | Eligible(threads, u)
        ensures u != block && cputime[u] >= 0xffff_ffff * threads[u].priority
      {
        assert Candidate(threads[u]);
        Quotient(cputime[u], threads[u].priority, 0xffff_ffff);
      }
    }
  }

  lemma ScoreCompares(threads: seq<Thread>, cputime: seq<Word>, block: int, c: int, u: int)
    requires |cputime| == |threads| && Eligible(threads, c) && Eligible(threads, u) && u != c
    requires Score(threads, cputime, block, u) >= Score(threads, cputime, block, c)
    requires u < c ==> Score(threads, cputime, block, u) > Score(threads, cputime, block, c)
    ensures NoBetter(threads, cputime, block, c, u)
  {
    var p, q := threads[c].priority, threads[u].priority;
    if c == block {
      Quotient(cputime[u], q, 0xffff_fffe);
    } else if u == block {
      Quotient(cputime[c], p, 0xffff_fffe);
    } else {
      Quotient(cputime[c], p, cputime[u] / q);
      Quotient(cputime[u], q, cputime[c] / p + 1);
    }
  }

  /** A thread's share of a tick, in 255ths, is what is stored, if and only if 255 times its time is a word. */
  lemma LoadIsExact(cputime: Word, diff: Word)
    requires 0 < diff && cputime <= diff
    ensures Load(cputime, diff) == 255 * cputime / diff <==> 255 * cputime < 0x1_0000_0000
    ensures 255 * cputime < 0x1_0000_0000 ==> 0 <= Load(cputime, diff) <= 255
  {
    var x: nat := 255 * cputime;
    var w: nat := Wrap(x);
    Wraps(x, w);
    LoadOf(x, w, cputime, diff);
    if x >= 0x1_0000_0000 {
      Less(x, w, diff);
    }
  }

  lemma LoadOf(x: nat, w: nat, cputime: Word, diff: Word)
    requires x == 255 * cputime && w == Wrap(x) && 0 < diff && w <= 255 * diff
    ensures Load(cputime, diff) == w / diff && 0 <= w / diff <= 255
  {
    Quotient(w, diff, 255);
    Small(w / diff);
  }

  lemma Wraps(x: nat, w: nat)
    requires w == Wrap(x)
    ensures x < 0x1_0000_0000 ==> w == x
    ensures x >= 0x1_0000_0000 ==> w + 0x1_0000_0000 <= x
  {
  }

  lemma Small(x: nat)
    requires x < 256
    ensures x % 256 == x
  {
  }

  lemma Less(x: nat, w: nat, d: nat)
    requires 0 < d && w + d <= x
    ensures w / d < x / d
  {
    var k := w / d;
    Quotient(w, d, k);
    Quotient(x, d, k + 1);
  }

  /** Whoever waits for a mutex with a timeout times out when it has passed, and not before; with -1, never. */
  lemma WaiterTimesOut(w: World, m: int, timeout: Word, start: nat, later: nat)
    requires w.Inv() && Enabled(w, LockStep(m, timeout, Wrap(start))) && MustWait(w, m) && timeout != 0
    requires start <= later
    ensures var t := Lock(w, m, timeout, Wrap(start)).threads[w.current];
      && (timeout < 0x8000_0000 && later <= start + timeout + 0x8000_0000 ==>
            (Expired(t, Wrap(later)) <==> later > start + timeout))
      && (timeout == 0xffff_ffff ==> !Expired(t, Wrap(later)))
  {
    LockNotes(w, m, timeout, Wrap(start));
    var t := Lock(w, m, timeout, Wrap(start)).threads[w.current];
    if timeout < 0x8000_0000 && later <= start + timeout + 0x8000_0000 {
      TimeoutIsExact(t, start, later);
    }
  }

  lemma {:induction false} RunLonger(w: World, steps: seq<Step>, s: Step)
    requires w.Inv() && AllEnabled(w, steps) && Enabled(AfterAll(w, steps), s)
    ensures AfterAll(w, steps).Inv() && AllEnabled(w, steps + [s])
    ensures AfterAll(w, steps + [s]) == After(AfterAll(w, steps), s)
    decreases |steps|
  {
    RunKeeps(w, steps);
    if steps == [] {
      assert steps + [s] == [s];
    } else {
      StepKeeps(w, steps[0]);
      RunLonger(After(w, steps[0]), steps[1..], s);
      assert (steps + [s])[1..] == steps[1..] + [s];
    }
  }

  lemma {:induction false} RunJoined(w: World, a: seq<Step>, b: seq<Step>)
    requires w.Inv() && AllEnabled(w, a) && AllEnabled(AfterAll(w, a), b)
    ensures AllEnabled(w, a + b) && AfterAll(w, a + b) == AfterAll(AfterAll(w, a), b)
    decreases |a|
  {
    if a == [] {
      assert a + b == b;
    } else {
      StepKeeps(w, a[0]);
      RunJoined(After(w, a[0]), a[1..], b);
      assert (a + b)[1..] == a[1..] + b;
    }
  }

  lemma TailLinks(next: seq<int>, head: int, q: seq<int>)
    requires Links(next, head, q) && q != []
    ensures Links(next, next[head], q[1..])
  {
    assert LinkAt(next, q, 0);
    forall i | 0 <= i < |q[1..]|
      ensures LinkAt(next, q[1..], i)
    {
      assert LinkAt(next, q, i + 1);
    }
  }
}
