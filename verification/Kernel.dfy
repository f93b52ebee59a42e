/**
 The thread manager with its scheduler, semaphores, sleep locks and sleep queue
 (src/thread/manager.rs, src/thread.rs, src/sync/sema.rs, src/sync/sleep.rs,
 src/sbi/timer.rs). A method is one critical section; after it another thread may be
 current. A context switch is an atomic change of `current`.
 */
module Kernels {
  import opened Options
  import opened Schedulers
  import opened Threads
  import opened KernelSteps

  const PRI_DEFAULT: nat := 31
  const PRI_MIN: nat := 0

  /** Steps on semaphores and locks. */
  predicate Synchronizes(step: Step) {
    step.CreatesSemaphore? || step.CreatesLock? || step.Downs? || step.Ups? || step.RecordsHolder? || step.ClearsHolder?
  }

  /** The two assertions that can fail: waiters at a positive value, and a release by another thread. */
  predicate HaltsAt(semas: Semaphores, holder: map<nat, Option<Tid>>, current: Tid, step: Step) {
    || (step.Ups? && step.s in semas && semas[step.s].waiters != [] && semas[step.s].value > 0)
    || (step.ClearsHolder? && step.s in holder && holder[step.s] != Some(current))
  }

  lemma NoRunYet(idle: Tid, s: State)
    ensures IsRun(idle, [], [s], false)
  {
  }

  lemma TickEntries(q: seq<SleepData>, now: int)
    ensures forall d :: d in StillAsleep(q, now) <==> d in q && now < d.ticks
    ensures (forall i :: 0 <= i < |q| && q[i].ticks <= now ==> q[i].ticks == now) ==>
              forall d :: d in q && d.ticks <= now ==> d.ticks == now
  {
    forall d ensures d in StillAsleep(q, now) <==> d in q && now < d.ticks {
      StillAsleepMember(q, now, d);
    }
  }

  lemma IdsStay(ts: ThreadTable, ts': ThreadTable, next: Tid)
    requires ts'.Keys <= ts.Keys
    ensures IdsGrow(ts, next, ts', next)
  {
  }

  lemma IdsSpawn(ts: ThreadTable, next: Tid, ts': ThreadTable)
    requires ts'.Keys <= ts.Keys + {next}
    ensures IdsGrow(ts, next, ts', next + 1)
  {
  }

  lemma CountsNew(semas: Semaphores, h: map<nat, History>, s: nat, n: nat)
    requires CountsGrow(semas, h, h) && s !in semas
    ensures CountsGrow(semas, h, h[s := History(n, 0, 0)])
  {
  }

  lemma CountsRise(semas: Semaphores, h: map<nat, History>, s: nat, ups: nat, downs: nat)
    requires CountsGrow(semas, h, h) && s in h
    ensures CountsGrow(semas, h, h[s := History(h[s].init, h[s].ups + ups, h[s].downs + downs)])
  {
  }

  lemma WokeKeys(ts: ThreadTable, cur: Tid, w: Tid, ts': ThreadTable, cur': Tid)
    requires Woke(ts, cur, w, ts', cur')
    ensures ts'.Keys <= ts.Keys
  {
  }

  lemma UpWoke(s: State, k: nat, t: State, i: nat)
    requires k in s.semas && k in s.history && s.semas[k].waiters != [] && s.semas[k].value == 0
    requires IsMaxWaiter(s.threads, s.semas[k].waiters, i)
    requires t.semas == s.semas[k := Semaphore(s.semas[k].value + 1, Without(s.semas[k].waiters, i))]
    requires Woke(s.threads, s.current, s.semas[k].waiters[i], t.threads, t.current)
    requires t == s.(semas := t.semas, threads := t.threads, current := t.current, inside := t.inside,
              history := t.history)
    requires t.inside == LeaveLock(s.inside, k, s.current)
    requires t.history == s.history[k := s.history[k].(ups := s.history[k].ups + 1)]
    ensures UpTo(s, k, t, true) && t.threads.Keys <= s.threads.Keys
  {
    WokeKeys(s.threads, s.current, s.semas[k].waiters[i], t.threads, t.current);
    hide Woke;
  }

  lemma UpQuiet(s: State, k: nat, t: State, ok: bool)
    requires k in s.semas && k in s.history && (ok <==> s.semas[k].waiters == [] || s.semas[k].value == 0)
    requires !ok ==> t == s && k !in s.inside
    requires ok ==> s.semas[k].waiters == []
    requires ok ==> t == s.(semas := s.semas[k := Semaphore(s.semas[k].value + 1, [])],
                            inside := LeaveLock(s.inside, k, s.current),
                            history := s.history[k := s.history[k].(ups := s.history[k].ups + 1)])
    ensures UpTo(s, k, t, ok)
  {
  }

  class Kernel {
    const sched: PriorityScheduler
    const idle: Tid
    var threads: ThreadTable
    var current: Tid
    var nextTid: Tid
    var semas: Semaphores
    var holder: map<nat, Option<Tid>>      // of the semaphores that are sleep locks
    var sleepq: seq<SleepData>
    var now: int
    // Where the threads are in their code: inside `down` of which semaphore, and between
    // acquire and release of which lock.
    var inDown: map<Tid, nat>
    var inside: map<nat, set<Tid>>
    ghost var history: map<nat, History>
    var prioritySet: map<Tid, nat>         // priorities fixed by set_priority

    /** What holds whenever the scheduler may be called; the current thread may have stopped. */
    ghost predicate Core()
      reads this, sched.q
    {
      && sched.Valid()
      && StatusOk(threads, current, idle) && QueueOk(threads, sched.q[..])
      && WaitOk(threads, semas, inDown, sleepq) && SemaOk(threads, semas, inDown, history)
      && LockOk(semas, inside, holder) && AlarmOk(sleepq, now)
      && (forall t :: t in threads ==> t < nextTid)
    }

    /** What holds between any two steps of any run. */
    ghost predicate Inv()
      reads this, sched.q
    {
      Core() && threads[current].status == Running
    }

    constructor ()
      ensures Inv() && fresh(sched) && fresh(sched.q) && current == 0 && idle == 1
      ensures threads == map[0 := Thread(Running, PRI_DEFAULT), 1 := Thread(Ready, PRI_MIN)]
      ensures semas == map[] && inDown == map[] && inside == map[] && sleepq == [] && now == 0
    {
      idle := 1;
      threads := map[0 := Thread(Running, PRI_DEFAULT), 1 := Thread(Ready, PRI_MIN)];
      current, nextTid, now := 0, 2, 0;
      semas, holder, sleepq := map[], map[], [];
      inDown, inside, history, prioritySet := map[], map[], map[], map[];
      var s := new PriorityScheduler();
      sched := s;
      new;
      NothingQueued(sched.q[..]);
      sched.Register(1, PRI_MIN);
    }

    /**
     `Manager::schedule` and `schedule_tail`. The three assertions of the source and its
     `unreachable!` are proved here not to fire.
     */
    method Schedule()
      requires Core() && (threads[current].status == Dying ==> current !in inDown)
      modifies `threads, `current, sched.q
      ensures Inv() && TopRunning(threads, current)
      ensures Rescheduled(old(threads), old(current), threads, current)
    {
      hide StatusOk, QueueOk, WaitOk, SemaOk, LockOk, AlarmOk, OneMore, Times, AllRanked, Updated, SameBlocked,
        TopRunning;
      QueuedAreRanked(threads, current, idle, sched.q[..]);
      ghost var q, prev := sched.q[..], current;
      var running := threads[current].status == Running;
      var next := sched.Schedule(Priorities(threads), current, running);
      QueueAfterUpdate(threads, current, idle, q);
      if next.Some? {
        OneMoreIsReady(threads, sched.q[..], q, next.value);
      }
      TopAfterSwitch(threads, current, idle, q, next);
      if !running {
        SomebodyIsReady(threads, current, idle, q);
      }
      assert running || next.Some?;             // "no thread is ready"
      if next.Some? {
        var t := next.value;
        assert threads[t].status == Ready;      // assert_eq!(next.status(), Status::Ready)
        SwitchTo(t, q);
      }
    }

    /** The switch itself, with the finishing touches of `schedule_tail`. */
    method SwitchTo(t: Tid, ghost q: seq<seq<Tid>>)
      requires sched.Valid() && StatusOk(threads, current, idle) && QueueOk(threads, q)
      requires WaitOk(threads, semas, inDown, sleepq) && SemaOk(threads, semas, inDown, history)
      requires LockOk(semas, inside, holder) && AlarmOk(sleepq, now) && (forall u :: u in threads ==> u < nextTid)
      requires IsReady(threads, t) && OneMore(sched.q[..], q, t)
      requires current in threads && (threads[current].status == Dying ==> current !in inDown)
      modifies `threads, `current, sched.q
      ensures Inv() && current == t && current != old(current)
      ensures threads == Switched(old(threads), old(current), t)
    {
      hide StatusOk, QueueOk, WaitOk, SemaOk, LockOk, AlarmOk, OneMore, Times, AllRanked, SameBlocked;
      Basics(threads, current, idle, semas, inDown, sleepq);
      ghost var q1 := sched.q[..];
      var previous := current;
      threads := threads[t := threads[t].(status := Running)];
      current := t;
      match threads[previous].status {
        case Dying =>
          threads := threads - {previous};
        case Running =>
          threads := threads[previous := threads[previous].(status := Ready)];
          sched.Register(previous, threads[previous].priority);
        case Blocked =>
        case Ready =>
          assert false;                         // unreachable!()
      }
      SwitchedOk(old(threads), previous, idle, q, t, q1, sched.q[..], inDown);
      SameBlockedKeeps(old(threads), threads, semas, inDown, sleepq, history);
    }

    // ---- Threads come, go and change priority ----

    /** `Builder::spawn`: a new ready thread, and then the scheduler decides. */
    method Spawn(priority: nat) returns (t: Tid)
      requires Inv() && priority < LEVELS
      modifies `threads, `current, `nextTid, sched.q
      ensures Inv() && TopRunning(threads, current)
      ensures t == old(nextTid) && t !in old(threads) && nextTid == t + 1
      ensures Rescheduled(old(threads)[t := Thread(Ready, priority)], old(current), threads, current)
    {
      hide StatusOk, QueueOk, WaitOk, SemaOk, LockOk, AlarmOk, OneMore, Times, SameBlocked, TopRunning;
      t := nextTid;
      nextTid := nextTid + 1;
      ghost var q := sched.q[..];
      sched.Register(t, priority);
      Basics(threads, current, idle, semas, inDown, sleepq);
      NewThread(threads, current, idle, q, t, priority, sched.q[..], inDown);
      SameBlockedKeeps(threads, threads[t := Thread(Ready, priority)], semas, inDown, sleepq, history);
      threads := threads[t := Thread(Ready, priority)];
      Schedule();
    }

    /** `exit`: the current thread is gone for good. */
    method Exit()
      requires Inv() && current != idle && current !in inDown
      modifies `threads, `current, sched.q
      ensures Inv() && TopRunning(threads, current) && old(current) !in threads && old(current) in old(threads)
      ensures Rescheduled(WithStatus(old(threads), old(current), Dying), old(current), threads, current)
    {
      hide StatusOk, QueueOk, WaitOk, SemaOk, LockOk, AlarmOk, SameBlocked, TopRunning;
      Basics(threads, current, idle, semas, inDown, sleepq);
      DyingThread(threads, current, idle, sched.q[..], inDown);
      SameBlockedKeeps(threads, WithStatus(threads, current, Dying), semas, inDown, sleepq, history);
      threads := WithStatus(threads, current, Dying);
      Schedule();
    }

    /** Any change of a priority, as made by `set_priority` and by donations. */
    method ChangePriority(t: Tid, priority: nat)
      requires Inv() && t in threads && priority < LEVELS
      modifies `threads
      ensures Inv() && threads == WithPriority(old(threads), t, priority)
    {
      hide StatusOk, QueueOk, WaitOk, SemaOk, LockOk, AlarmOk, SameBlocked;
      var ts := threads[t := threads[t].(priority := priority)];
      Basics(threads, current, idle, semas, inDown, sleepq);
      NewPriority(threads, current, idle, sched.q[..], t, priority, inDown);
      SameBlockedKeeps(threads, ts, semas, inDown, sleepq, history);
      threads := ts;
    }

    /** `set_priority`: the current thread may lose the processor by lowering its priority. */
    method SetPriority(priority: nat)
      requires Inv() && priority < LEVELS
      modifies `threads, `current, `prioritySet, sched.q
      ensures Inv() && TopRunning(threads, current) && old(current) in old(threads)
      ensures Rescheduled(WithPriority(old(threads), old(current), priority), old(current), threads, current)
      ensures prioritySet == old(prioritySet)[old(current) := priority]
    {
      CurrentExists();
      prioritySet := prioritySet[current := priority];
      ChangePriority(current, priority);
      Schedule();
    }

    lemma CurrentExists()
      requires Inv()
      ensures current in threads && threads[current].status == Running
    {
    }

    lemma Known()
      requires Inv()
      ensures idle in threads && current in threads && threads[current].priority < LEVELS
      ensures forall t :: t in inDown ==> t in threads
    {
    }

    // ---- Semaphores and sleep locks ----

    method NewSemaphore(s: nat, n: nat)
      requires Inv() && s !in semas
      modifies `semas, `history
      ensures Inv() && semas == old(semas)[s := Semaphore(n, [])] && history == old(history)[s := History(n, 0, 0)]
    {
      hide StatusOk, QueueOk, WaitOk, SemaOk, LockOk, AlarmOk, OneMore, Times, SameBlocked, TopRunning;
      NewSema(threads, semas, inDown, sleepq, history, s, n);
      LockElsewhere(semas, inside, holder, s, n);
      semas := semas[s := Semaphore(n, [])];
      history := history[s := History(n, 0, 0)];
    }

    /** A sleep lock is a semaphore of value 1 with a holder. */
    method NewLock(l: nat)
      requires Inv() && l !in semas
      modifies `semas, `history, `holder, `inside
      ensures Inv() && semas == old(semas)[l := Semaphore(1, [])] && inside == old(inside)[l := {}]
      ensures holder == old(holder)[l := None] && history == old(history)[l := History(1, 0, 0)]
    {
      hide StatusOk, QueueOk, WaitOk, SemaOk, LockOk, AlarmOk, OneMore, Times, SameBlocked, TopRunning;
      LockElsewhere(semas, inside, holder, l, 1);
      NewSemaphore(l, 1);
      holder := holder[l := None];
      inside := inside[l := {}];
    }

    /**
     One round of `down` by the current thread: it takes one if it can, and else joins the
     waiters and blocks; when it runs again it tries again.
     */
    method Down(s: nat) returns (done: bool)
      requires Inv() && s in semas && current != idle && (current in inDown ==> inDown[current] == s)
      modifies `threads, `current, `semas, `inDown, `history, `inside, sched.q
      ensures Inv() && (done <==> old(semas[s].value) > 0)
      ensures s in old(history)
      ensures history ==
                if done then old(history)[s := old(history[s]).(downs := old(history[s].downs) + 1)] else old(history)
      ensures done ==>
                && current == old(current) && threads == old(threads) && inDown == old(inDown) - {current}
                && semas == old(semas)[s := old(semas[s]).(value := old(semas[s].value) - 1)]
                && inside == if s in old(inside) then old(inside)[s := old(inside[s]) + {current}] else old(inside)
      ensures !done ==>
                && inDown == old(inDown)[old(current) := s] && inside == old(inside) && old(current) in old(threads)
                && semas == old(semas)[s := Semaphore(0, [old(current)] + old(semas[s].waiters))]
                && Rescheduled(WithStatus(old(threads), old(current), Blocked), old(current), threads, current)
                && TopRunning(threads, current) && IsBlocked(threads, old(current))
    {
      hide StatusOk, QueueOk, WaitOk, SemaOk, LockOk, AlarmOk, OneMore, Times, SameBlocked, TopRunning;
      HistoryKnown(threads, semas, inDown, history, s);
      if semas[s].value == 0 {
        Wait(s);
        done := false;
      } else {
        Take(s);
        done := true;
      }
    }

    method Wait(s: nat)
      requires Inv() && s in semas && current != idle && (current in inDown ==> inDown[current] == s)
      requires semas[s].value == 0
      modifies `threads, `current, `semas, `inDown, sched.q
      ensures Inv() && TopRunning(threads, current)
      ensures inDown == old(inDown)[old(current) := s] && IsBlocked(threads, old(current))
      ensures old(current) in old(threads)
      ensures Rescheduled(WithStatus(old(threads), old(current), Blocked), old(current), threads, current)
      ensures semas == old(semas)[s := Semaphore(0, [old(current)] + old(semas[s].waiters))]
    {
      hide StatusOk, QueueOk, WaitOk, SemaOk, LockOk, AlarmOk, OneMore, Times, SameBlocked, TopRunning;
      Basics(threads, current, idle, semas, inDown, sleepq);
      WaitOnSema(threads, semas, inDown, sleepq, history, current, s);
      BlockStatus(threads, current, idle, sched.q[..]);
      LockWait(semas, inside, holder, s, [current] + semas[s].waiters);
      semas := semas[s := Semaphore(0, [current] + semas[s].waiters)];
      inDown := inDown[current := s];
      Block();
    }

    method Take(s: nat)
      requires Inv() && s in semas && (current in inDown ==> inDown[current] == s) && semas[s].value > 0
      modifies `semas, `inDown, `history, `inside
      ensures Inv() && inDown == old(inDown) - {current} && s in old(history)
      ensures history == old(history)[s := old(history[s]).(downs := old(history[s].downs) + 1)]
      ensures semas == old(semas)[s := old(semas[s]).(value := old(semas[s].value) - 1)]
      ensures inside == if s in old(inside) then old(inside)[s := old(inside[s]) + {current}] else old(inside)
    {
      hide StatusOk, QueueOk, WaitOk, SemaOk, LockOk, AlarmOk, OneMore, Times, SameBlocked, TopRunning;
      Basics(threads, current, idle, semas, inDown, sleepq);
      CompleteDown(threads, semas, inDown, sleepq, history, current, s);
      LockDown(semas, inside, holder, s, current);
      history := history[s := history[s].(downs := history[s].downs + 1)];
      semas := semas[s := semas[s].(value := semas[s].value - 1)];
      inDown := inDown - {current};
      inside := if s in inside then inside[s := inside[s] + {current}] else inside;
    }

    /** `block`: the current thread, already on a wait list, stops and another one runs. */
    method Block()
      requires current in threads
      requires var ts := WithStatus(threads, current, Blocked);
               && sched.Valid() && StatusOk(ts, current, idle) && QueueOk(ts, sched.q[..])
               && WaitOk(ts, semas, inDown, sleepq) && SemaOk(ts, semas, inDown, history)
      requires LockOk(semas, inside, holder) && AlarmOk(sleepq, now) && (forall t :: t in threads ==> t < nextTid)
      modifies `threads, `current, sched.q
      ensures Inv() && TopRunning(threads, current) && IsBlocked(threads, old(current))
      ensures Rescheduled(WithStatus(old(threads), old(current), Blocked), old(current), threads, current)
    {
      hide StatusOk, QueueOk, WaitOk, SemaOk, LockOk, AlarmOk, OneMore, Times, SameBlocked, TopRunning;
      threads := WithStatus(threads, current, Blocked);
      ghost var ts := threads;
      Schedule();
    }

    /** `get_maxpriority`: the longest waiting thread of the highest priority. */
    method MaxWaiter(waiters: seq<Tid>) returns (index: nat, priority: nat)
      requires waiters != [] && forall i :: 0 <= i < |waiters| ==> waiters[i] in threads
      ensures IsMaxWaiter(threads, waiters, index) && priority == threads[waiters[index]].priority
    {
      index, priority := 0, 0;
      var i := 0;
      while i < |waiters|
        invariant 0 <= i <= |waiters| && index < |waiters| && (i == 0 ==> index == 0 && priority == 0)
        invariant i > 0 ==> index < i && priority == threads[waiters[index]].priority
        invariant forall k :: 0 <= k < i ==> threads[waiters[k]].priority <= priority
        invariant forall k :: index < k < i ==> threads[waiters[k]].priority < priority
      {
        var p := threads[waiters[i]].priority;
        if p >= priority {
          index, priority := i, p;
        }
        i := i + 1;
      }
    }

    /**
     `up` by the current thread. It wakes the longest waiting thread of the highest
     priority, and gives way if that one outranks it. False stands for the assertion that
     the value was 0 while threads were waiting: the kernel halts.
     */
    method Up(s: nat) returns (ok: bool, ghost i: nat)
      requires Inv() && s in semas && (s in inside ==> current in inside[s] && holder[s] == None)
      modifies `threads, `current, `semas, `history, `inside, sched.q
      ensures Inv()
      ensures ok <==> old(semas[s].waiters) == [] || old(semas[s].value) == 0
      ensures s in old(inside) ==> ok
      ensures s in old(history)
      ensures history ==
                if ok then old(history)[s := old(history[s]).(ups := old(history[s].ups) + 1)] else old(history)
      ensures !ok ==> threads == old(threads) && current == old(current) && semas == old(semas) && inside == old(inside)
      ensures ok ==>
                inside == if s in old(inside) then old(inside)[s := old(inside[s]) - {old(current)}] else old(inside)
      ensures ok && old(semas[s].waiters) == [] ==>
                && semas == old(semas)[s := Semaphore(old(semas[s].value) + 1, [])]
                && threads == old(threads) && current == old(current)
      ensures ok && old(semas[s].waiters) != [] ==>
                && IsMaxWaiter(old(threads), old(semas[s].waiters), i)
                && semas == old(semas)[s := Semaphore(old(semas[s].value) + 1, Without(old(semas[s].waiters), i))]
                && Woke(old(threads), old(current), old(semas[s].waiters)[i], threads, current)
    {
      hide StatusOk, QueueOk, WaitOk, SemaOk, LockOk, AlarmOk, OneMore, Times, SameBlocked, TopRunning;
      i := 0;
      HistoryKnown(threads, semas, inDown, history, s);
      var waiters := semas[s].waiters;
      if s in inside {
        LockValue(semas, inside, holder, s, current);
      }
      if waiters != [] && semas[s].value != 0 {
        return false, i;
      }
      if waiters == [] {
        Raise(s);
      } else {
        var preempt;
        preempt, i := RaiseAndWake(s);
        if preempt {
          Schedule();
        }
      }
      ok := true;
    }

    method Raise(s: nat)
      requires Inv() && s in semas && (s in inside ==> current in inside[s] && holder[s] == None)
      requires semas[s].waiters == []
      modifies `semas, `history, `inside
      ensures Inv() && semas == old(semas)[s := Semaphore(old(semas[s].value) + 1, [])] && s in old(history)
      ensures history == old(history)[s := old(history[s]).(ups := old(history[s].ups) + 1)]
      ensures inside == if s in old(inside) then old(inside)[s := old(inside[s]) - {current}] else old(inside)
    {
      hide StatusOk, QueueOk, WaitOk, SemaOk, LockOk, AlarmOk, OneMore, Times, SameBlocked, TopRunning;
      UpPlain(threads, semas, inDown, sleepq, history, s);
      LockUp(semas, inside, holder, s, current, []);
      history := history[s := history[s].(ups := history[s].ups + 1)];
      semas := semas[s := Semaphore(semas[s].value + 1, [])];
      inside := if s in inside then inside[s := inside[s] - {current}] else inside;
    }

    /** Wakes a waiter; the assertion of `wake_up` that it is blocked cannot fail. */
    method RaiseAndWake(s: nat) returns (preempt: bool, ghost i: nat)
      requires Inv() && s in semas && (s in inside ==> current in inside[s] && holder[s] == None)
      requires semas[s].waiters != []
      modifies `threads, `semas, `history, `inside, sched.q
      ensures Inv() && IsMaxWaiter(old(threads), old(semas[s].waiters), i) && s in old(history)
      ensures history == old(history)[s := old(history[s]).(ups := old(history[s].ups) + 1)]
      ensures current in old(threads) && threads == WithStatus(old(threads), old(semas[s].waiters)[i], Ready)
      ensures preempt <==> old(threads)[current].priority < old(threads)[old(semas[s].waiters)[i]].priority
      ensures semas == old(semas)[s := Semaphore(old(semas[s].value) + 1, Without(old(semas[s].waiters), i))]
      ensures inside == if s in old(inside) then old(inside)[s := old(inside[s]) - {current}] else old(inside)
    {
      hide StatusOk, QueueOk, WaitOk, SemaOk, LockOk, AlarmOk, OneMore, Times, SameBlocked, TopRunning;
      Basics(threads, current, idle, semas, inDown, sleepq);
      var waiters := semas[s].waiters;
      WaitersExist(threads, semas, inDown, sleepq, s);
      var index, priority := MaxWaiter(waiters);
      i := index;
      var t := waiters[index];
      UpWakes(threads, semas, inDown, sleepq, history, s, index);
      LockUp(semas, inside, holder, s, current, Without(waiters, index));
      assert threads[t].status == Blocked;      // assert_eq!(thread.status(), Status::Blocked)
      ghost var q := sched.q[..];
      sched.Register(t, threads[t].priority);
      WakeStatus(threads, current, idle, q, t, sched.q[..]);
      threads := WithStatus(threads, t, Ready);
      history := history[s := history[s].(ups := history[s].ups + 1)];
      semas := semas[s := Semaphore(semas[s].value + 1, Without(waiters, index))];
      inside := if s in inside then inside[s := inside[s] - {current}] else inside;
      preempt := threads[current].priority < priority;
    }

    /** The end of `acquire`: the thread that got the lock records itself as the holder. */
    method TakeHolder(l: nat)
      requires Inv() && l in inside && current in inside[l]
      modifies `holder
      ensures Inv() && inside[l] == {current} && holder == old(holder)[l := Some(current)]
    {
      hide StatusOk, QueueOk, WaitOk, SemaOk, LockOk, AlarmOk, OneMore, Times, SameBlocked, TopRunning;
      HolderIsInside(semas, inside, holder, l, current);
      holder := holder[l := Some(current)];
    }

    /** The start of `release`: false stands for the failed assertion that the caller holds the lock. */
    method DropHolder(l: nat) returns (ok: bool)
      requires Inv() && l in inside
      modifies `holder
      ensures Inv() && l in old(holder) && (ok <==> old(holder)[l] == Some(current))
      ensures ok ==> inside[l] == {current} && holder == old(holder)[l := None]
      ensures !ok ==> holder == old(holder)
    {
      hide StatusOk, QueueOk, WaitOk, SemaOk, LockOk, AlarmOk, OneMore, Times, SameBlocked, TopRunning;
      LockKeys(semas, inside, holder);
      ok := holder[l] == Some(current);
      if ok {
        HolderAlone(semas, inside, holder, l);
        HolderIsInside(semas, inside, holder, l, current);
        holder := holder[l := None];
      }
    }

    // ---- Sleeping ----

    /** `sleep`, with enqueueing and blocking as one step. */
    method Sleep(ticks: int)
      requires Inv() && current != idle && current !in inDown
      modifies `threads, `current, `sleepq, sched.q
      ensures Inv()
      ensures ticks <= 0 ==> threads == old(threads) && current == old(current) && sleepq == old(sleepq)
      ensures ticks > 0 ==>
                && sleepq == old(sleepq) + [SleepData(now + ticks, old(current))]
                && IsBlocked(threads, old(current)) && TopRunning(threads, current) && old(current) in old(threads)
                && Rescheduled(WithStatus(old(threads), old(current), Blocked), old(current), threads, current)
    {
      if ticks <= 0 {
        return;
      }
      hide StatusOk, QueueOk, WaitOk, SemaOk, LockOk, OneMore, Times, SameBlocked, TopRunning;
      Basics(threads, current, idle, semas, inDown, sleepq);
      FallAsleep(threads, semas, inDown, sleepq, history, current, now + ticks);
      BlockStatus(threads, current, idle, sched.q[..]);
      sleepq := sleepq + [SleepData(now + ticks, current)];
      Block();
    }

    /** An entry of the sleep queue with the least wake-up time (`peek_time`, `pop`). */
    method Earliest() returns (i: nat)
      requires sleepq != []
      ensures i < |sleepq| && forall k :: 0 <= k < |sleepq| ==> sleepq[i].ticks <= sleepq[k].ticks
    {
      i := 0;
      var k := 1;
      while k < |sleepq|
        invariant 1 <= k <= |sleepq| && i < k
        invariant forall m :: 0 <= m < k ==> sleepq[i].ticks <= sleepq[m].ticks
      {
        if sleepq[k].ticks < sleepq[i].ticks {
          i := k;
        }
        k := k + 1;
      }
    }

    /**
     `tick`: every sleeper whose time has come becomes ready, in this tick and in no other,
     and all that stay asleep wake up strictly later.
     */
    method Tick()
      requires Inv()
      modifies `threads, `sleepq, `now, sched.q
      ensures Inv() && now == old(now) + 1
      ensures sleepq == StillAsleep(old(sleepq), now)
      ensures DueAwake(old(threads), threads, old(sleepq), now)
      ensures forall i :: 0 <= i < |old(sleepq)| && old(sleepq)[i].ticks <= now ==> old(sleepq)[i].ticks == now
    {
      now := now + 1;
      WakeDue();
    }

    /** The wake loop of `tick`. */
    method WakeDue()
      requires sched.Valid() && StatusOk(threads, current, idle) && QueueOk(threads, sched.q[..])
      requires WaitOk(threads, semas, inDown, sleepq) && SemaOk(threads, semas, inDown, history)
      requires current in threads && threads[current].status == Running
      modifies `threads, `sleepq, sched.q
      ensures StatusOk(threads, current, idle) && QueueOk(threads, sched.q[..])
      ensures current in threads && threads[current].status == Running && threads.Keys == old(threads.Keys)
      ensures WaitOk(threads, semas, inDown, sleepq) && SemaOk(threads, semas, inDown, history) && AlarmOk(sleepq, now)
      ensures sleepq == StillAsleep(old(sleepq), now) && DueAwake(old(threads), threads, old(sleepq), now)
    {
      hide StatusOk, QueueOk, WaitOk, SemaOk, StillAsleep, DueAwake, Leads, AlarmOk;
      LeadsItself(threads, sleepq, now);
      while |sleepq| != 0
        invariant StatusOk(threads, current, idle) && QueueOk(threads, sched.q[..])
        invariant WaitOk(threads, semas, inDown, sleepq) && SemaOk(threads, semas, inDown, history)
        invariant StillAsleep(sleepq, now) == StillAsleep(old(sleepq), now)
        invariant Leads(threads, sleepq, old(threads), old(sleepq), now)
        invariant current in threads && threads[current].status == Running && threads.Keys == old(threads.Keys)
        decreases |sleepq|
      {
        var i := Earliest();
        if now >= sleepq[i].ticks {
          AwakenDue(sleepq, i, now);
          WakeSleeper(threads, semas, inDown, sleepq, history, i);
          LeadsOn(threads, sleepq, old(threads), old(sleepq), now, i);
          WakeOne(i);
        } else {
          NobodyDue(threads, sleepq, old(threads), old(sleepq), now, i);
          return;
        }
      }
      NothingDue(threads, sleepq, old(threads), old(sleepq), now);
    }

    /** Pop one sleeper and wake it up; the assertion of `wake_up` that it is blocked cannot fail. */
    method WakeOne(i: nat)
      requires sched.Valid() && StatusOk(threads, current, idle) && QueueOk(threads, sched.q[..])
      requires i < |sleepq| && Asleep(threads, inDown, sleepq[i].thread) && threads[current].status == Running
      modifies `threads, `sleepq, sched.q
      ensures StatusOk(threads, current, idle) && QueueOk(threads, sched.q[..])
      ensures threads == WithStatus(old(threads), old(sleepq)[i].thread, Ready) && sleepq == Awaken(old(sleepq), i)
    {
      var t := sleepq[i].thread;
      sleepq := Awaken(sleepq, i);
      assert threads[t].status == Blocked;      // assert_eq!(thread.status(), Status::Blocked)
      ghost var q := sched.q[..];
      sched.Register(t, threads[t].priority);
      WakeStatus(threads, current, idle, q, t, sched.q[..]);
      threads := WithStatus(threads, t, Ready);
    }

    // ---- Runs ----

    predicate CanTake(step: Step)
      reads this
    {
      Possible(threads, current, idle, semas, holder, inside, inDown, step)
    }

    /** All of the state but the scheduler's queues, which follow from the threads. */
    ghost function Snap(): State
      reads this
    {
      State(threads, current, nextTid, semas, holder, inside, inDown, sleepq, now, prioritySet, history)
    }

    /** What is kept from one state of a run to every later one. */
    twostate predicate Onward()
      reads this
    {
      && old(now) <= now && old(semas).Keys <= semas.Keys
      && IdsGrow(old(threads), old(nextTid), threads, nextTid)
      && AlarmsKept(old(sleepq), sleepq, now)
      && CountsGrow(old(semas), old(history), history)
    }

    /** One step of a run; false if the kernel halted in one of its assertions. */
    method TakeStep(step: Step) returns (ok: bool)
      requires Inv() && CanTake(step)
      modifies this, sched.q
      ensures Inv() && Onward()
      ensures StepTo(old(Snap()), step, Snap(), ok)
      ensures !ok ==> HaltsAt(old(semas), old(holder), old(current), step)
      ensures !ok && step.Ups? ==> step.s !in old(inside)
    {
      hide Inv, CanTake, Onward, HaltsAt, StepTo, Snap;
      if Synchronizes(step) {
        ok := Synchronize(step);
      } else {
        Proceed(step);
        ok := true;
      }
    }

    /** The steps that concern threads and time. */
    method Proceed(step: Step)
      requires Inv() && CanTake(step) && !Synchronizes(step)
      modifies this, sched.q
      ensures Inv() && Onward() && StepTo(old(Snap()), step, Snap(), true)
    {
      hide StatusOk, QueueOk, WaitOk, SemaOk, LockOk, AlarmOk, TopRunning, Rescheduled, AlarmsKept, CountsGrow, IdsGrow;
      Quiet();
      match step
      case Yield =>
        CurrentExists();
        Schedule();
        RescheduledKeys(old(threads), old(current), threads, current);
        IdsStay(old(threads), threads, nextTid);
      case TimerTick =>
        TickStep();
      case Donates(t, p) =>
        ChangePriority(t, p);
        IdsStay(old(threads), threads, nextTid);
      case Spawns(p) =>
        var t := Spawn(p);
        RescheduledKeys(old(threads)[t := Thread(Ready, p)], old(current), threads, current);
        IdsSpawn(old(threads), old(nextTid), threads);
      case SetsPriority(p) =>
        SetPriority(p);
        RescheduledKeys(WithPriority(old(threads), old(current), p), old(current), threads, current);
        IdsStay(old(threads), threads, nextTid);
      case Exits =>
        Exit();
        RescheduledKeys(WithStatus(old(threads), old(current), Dying), old(current), threads, current);
        IdsStay(old(threads), threads, nextTid);
      case Sleeps(n) =>
        SleepStep(n);
    }

    /** `Tick` as a step. */
    method TickStep()
      requires Inv()
      modifies this, sched.q
      ensures Inv() && Onward() && StepTo(old(Snap()), TimerTick, Snap(), true)
    {
      hide StatusOk, QueueOk, WaitOk, SemaOk, LockOk, AlarmOk, TopRunning, AlarmsKept, CountsGrow, IdsGrow;
      Quiet();
      Tick();
      AlarmsAtTick(old(sleepq), now);
      TickEntries(old(sleepq), now);
      IdsStay(old(threads), threads, nextTid);
    }

    /** `Sleep` as a step. */
    method SleepStep(n: int)
      requires Inv() && CanTake(Sleeps(n))
      modifies this, sched.q
      ensures Inv() && Onward() && StepTo(old(Snap()), Sleeps(n), Snap(), true)
    {
      hide StatusOk, QueueOk, WaitOk, SemaOk, LockOk, AlarmOk, TopRunning, Rescheduled, AlarmsKept, CountsGrow, IdsGrow;
      Quiet();
      Sleep(n);
      AlarmsStay(old(sleepq), sleepq, now);
      if n > 0 {
        RescheduledKeys(WithStatus(old(threads), old(current), Blocked), old(current), threads, current);
      }
      IdsStay(old(threads), threads, nextTid);
    }

    /** The steps that concern semaphores and locks. */
    method Synchronize(step: Step) returns (ok: bool)
      requires Inv() && CanTake(step) && Synchronizes(step)
      modifies this, sched.q
      ensures Inv() && Onward()
      ensures StepTo(old(Snap()), step, Snap(), ok)
      ensures !ok ==> HaltsAt(old(semas), old(holder), old(current), step)
      ensures !ok && step.Ups? ==> step.s !in old(inside)
    {
      hide StatusOk, QueueOk, WaitOk, SemaOk, LockOk, AlarmOk, TopRunning, Rescheduled, AlarmsKept, CountsGrow, IdsGrow;
      ok := true;
      Quiet();
      match step
      case CreatesSemaphore(s, n) =>
        NewSemaphore(s, n);
        CountsNew(old(semas), old(history), s, n);
      case CreatesLock(s) =>
        NewLock(s);
        CountsNew(old(semas), old(history), s, 1);
      case Downs(s) =>
        DownStep(s);
      case Ups(s) =>
        ok := UpStep(s);
      case RecordsHolder(s) =>
        TakeHolder(s);
      case ClearsHolder(s) =>
        ok := DropHolder(s);
    }

    /** `Down` as a step. */
    method DownStep(s: nat)
      requires Inv() && CanTake(Downs(s))
      modifies this, sched.q
      ensures Inv() && Onward() && DownTo(old(Snap()), s, Snap())
    {
      hide StatusOk, QueueOk, WaitOk, SemaOk, LockOk, AlarmOk, TopRunning, Rescheduled, AlarmsKept, CountsGrow, IdsGrow;
      Quiet();
      var done := Down(s);
      CountsRise(old(semas), old(history), s, 0, 1);
      if !done {
        RescheduledKeys(WithStatus(old(threads), old(current), Blocked), old(current), threads, current);
      }
      IdsStay(old(threads), threads, nextTid);
    }

    /** `Up` as a step. */
    method UpStep(s: nat) returns (ok: bool)
      requires Inv() && s in semas && (s in inside ==> current in inside[s] && s in holder && holder[s] == None)
      modifies this, sched.q
      ensures Inv() && Onward() && UpTo(old(Snap()), s, Snap(), ok)
    {
      hide StatusOk, QueueOk, WaitOk, SemaOk, LockOk, AlarmOk, TopRunning, Woke, AlarmsKept, CountsGrow, IdsGrow, UpTo,
        IsMaxWaiter, Without;
      Quiet();
      ghost var i;
      ok, i := Up(s);
      CountsRise(old(semas), old(history), s, 1, 0);
      if ok && old(semas)[s].waiters != [] {
        UpWoke(old(Snap()), s, Snap(), i);
      } else {
        UpQuiet(old(Snap()), s, Snap(), ok);
      }
      IdsStay(old(threads), threads, nextTid);
    }

    /** A step that changes nothing leads onward. */
    lemma Quiet()
      requires Inv()
      ensures CountsGrow(semas, history, history) && AlarmsKept(sleepq, sleepq, now)
      ensures IdsGrow(threads, nextTid, threads, nextTid)
    {
      CountsStay(threads, semas, inDown, history);
      AlarmsStay(sleepq, sleepq, now);
    }

    /**
     After every run the invariant holds, every sleeper of the first state sleeps exactly
     until its time, threads that were gone are still gone, and semaphores have kept their
     initial value. Impossible steps are passed over.
     */
    method Run(steps: seq<Step>) returns (halted: bool, ghost states: seq<State>)
      requires Inv()
      modifies this, sched.q
      ensures Inv() && Onward()
      ensures IsRun(idle, steps, states, halted) && states[0] == old(Snap()) && states[|states| - 1] == Snap()
    {
      hide StatusOk, QueueOk, WaitOk, SemaOk, LockOk, AlarmOk, IdsGrow, AlarmsKept, CountsGrow, IsRun,
        StepTo, Possible;
      halted := false;
      Quiet();
      states := [Snap()];
      NoRunYet(idle, Snap());
      var i := 0;
      while i < |steps| && !halted
        invariant 0 <= i <= |steps| && Inv() && Onward()
        invariant IsRun(idle, steps[..i], states, halted)
        invariant |states| == i + 1 && states[0] == old(Snap()) && states[i] == Snap()
        decreases |steps| - i, !halted
      {
        ghost var before := Snap();
        var ok := true;
        if CanTake(steps[i]) {
          ghost var ts, next, q, past, sems, h := threads, nextTid, sleepq, now, semas, history;
          ok := TakeStep(steps[i]);
          IdsOn(old(threads), old(nextTid), ts, next, threads, nextTid);
          AlarmsOn(old(sleepq), q, past, sleepq, now);
          CountsOn(old(semas), old(history), sems, h, history);
        }
        RunMore(idle, steps, i, states, Snap(), ok);
        states := states + [Snap()];
        halted := !ok;
        i := i + 1;
      }
      assert steps[..|steps|] == steps;
      if halted {
        RunHalted(idle, steps, i, states);
      }
    }
  }

  /**
   The current thread, which outranks all ready ones, spawns a thread of higher priority.
   That one runs at once, finds the semaphore at 0, and waits.
   */
  method SpawnWaiter(k: Kernel, s: nat, priority: nat) returns (t: Tid)
    requires k.Inv() && k.current != k.idle && k.current !in k.inDown && s in k.semas && k.semas[s].value == 0
    requires StaysOn(k.threads, k.current) && k.threads[k.current].priority < priority < LEVELS
    modifies k, k.sched.q
    ensures k.Inv() && k.current == old(k.current) && k.current !in k.inDown && t !in old(k.threads)
    ensures k.threads == old(k.threads)[t := Thread(Blocked, priority)]
    ensures k.semas == old(k.semas)[s := Semaphore(0, [t] + old(k.semas[s].waiters))]
    ensures k.inside == old(k.inside)
  {
    hide StatusOk, QueueOk, WaitOk, SemaOk, LockOk, AlarmOk, TopRunning, Rescheduled, StaysOn;
    k.Known();
    ghost var ts, cur := k.threads, k.current;
    t := k.Spawn(priority);
    SpawnedRuns(ts, cur, t, priority, k.threads, k.current);
    ghost var ts1 := k.threads;
    var done := k.Down(s);
    BlockedReturns(ts, cur, t, priority, ts1, k.threads, k.current);
  }

  lemma SpawnedRuns(ts: ThreadTable, cur: Tid, t: Tid, priority: nat, ts': ThreadTable, cur': Tid)
    requires StaysOn(ts, cur) && ts[cur].priority < priority && t !in ts
    requires Rescheduled(ts[t := Thread(Ready, priority)], cur, ts', cur')
    ensures cur' == t && ts' == ts[cur := ts[cur].(status := Ready)][t := Thread(Running, priority)]
  {
    var ts1 := ts[t := Thread(Ready, priority)];
    assert IsReady(ts1, t);
    assert forall u :: IsReady(ts1, u) ==> u == t || IsReady(ts, u);
  }

  lemma BlockedReturns(ts: ThreadTable, cur: Tid, t: Tid, priority: nat, ts1: ThreadTable, ts': ThreadTable, cur': Tid)
    requires StaysOn(ts, cur) && t !in ts && ts1 == ts[cur := ts[cur].(status := Ready)][t := Thread(Running, priority)]
    requires Rescheduled(WithStatus(ts1, t, Blocked), t, ts', cur')
    ensures cur' == cur && ts' == ts[t := Thread(Blocked, priority)]
  {
    var ts2 := WithStatus(ts1, t, Blocked);
    assert IsReady(ts2, cur);
    assert forall u :: IsReady(ts2, u) ==> u == cur || IsReady(ts, u);
  }

  /** Two threads wait, and two ups before either of them runs: the kernel halts. */
  method TwoUpsHalt() returns (k: Kernel, ok: bool)
    ensures fresh(k) && k.Inv() && !ok
  {
    hide StatusOk, QueueOk, WaitOk, SemaOk, LockOk, AlarmOk, TopRunning, Rescheduled, StaysOn, Woke;
    k := new Kernel();
    k.NewSemaphore(0, 0);
    FirstStays(k.threads);
    var t := SpawnWaiter(k, 0, 40);
    WaiterChangesNothing(map[0 := Thread(Running, PRI_DEFAULT), 1 := Thread(Ready, PRI_MIN)], 0, t, 40);
    ghost var ts := k.threads;
    var u := SpawnWaiter(k, 0, 41);
    WaiterChangesNothing(ts, 0, u, 41);
    ok := RaiseTwice(k, 0, t, u);
  }

  /** The current thread raises its priority to the top and raises the semaphore twice. */
  method RaiseTwice(k: Kernel, s: nat, t: Tid, u: Tid) returns (ok: bool)
    requires k.Inv() && StaysOn(k.threads, k.current) && s in k.semas && s !in k.inside
    requires k.semas[s] == Semaphore(0, [u, t]) && t in k.threads && u in k.threads
    requires k.threads[t].priority < 63 && k.threads[u].priority < 63
    modifies k, k.sched.q
    ensures k.Inv() && k.current == old(k.current) && !ok
  {
    hide StatusOk, QueueOk, WaitOk, SemaOk, LockOk, AlarmOk, TopRunning, Rescheduled, StaysOn;
    k.Known();
    ghost var ts := k.threads;
    k.SetPriority(63);
    RaisedStays(ts, old(k.current), k.threads, k.current);
    ghost var i;
    ok, i := k.Up(s);
    assert |k.semas[s].waiters| == 1;
    ok, i := k.Up(s);
  }

  lemma RaisedStays(ts: ThreadTable, cur: Tid, ts': ThreadTable, cur': Tid)
    requires StaysOn(ts, cur) && ts[cur].priority < LEVELS
    requires Rescheduled(WithPriority(ts, cur, 63), cur, ts', cur')
    ensures cur' == cur && ts' == WithPriority(ts, cur, 63)
  {
    var ts1 := WithPriority(ts, cur, 63);
    assert forall u :: IsReady(ts1, u) ==> IsReady(ts, u);
  }

  lemma FirstStays(ts: ThreadTable)
    requires ts == map[0 := Thread(Running, PRI_DEFAULT), 1 := Thread(Ready, PRI_MIN)]
    ensures StaysOn(ts, 0)
  {
  }

  lemma WaiterChangesNothing(ts: ThreadTable, cur: Tid, t: Tid, priority: nat)
    requires StaysOn(ts, cur) && t !in ts
    ensures StaysOn(ts[t := Thread(Blocked, priority)], cur)
  {
    var ts' := ts[t := Thread(Blocked, priority)];
    assert forall u :: IsReady(ts', u) ==> IsReady(ts, u);
  }
}
