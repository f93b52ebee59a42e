/**
 Thread states and what the kernel keeps about them (src/thread/manager.rs, src/thread.rs,
 src/sync/sema.rs, src/sleepq.rs). Each step of the kernel is one critical section with
 interrupts off.
 */
module Threads {
  import opened Options
  import opened Schedulers

  datatype Status = Ready | Running | Blocked | Dying

  datatype Thread = Thread(status: Status, priority: nat)

  datatype Semaphore = Semaphore(value: nat, waiters: seq<Tid>)

  /** A sleeping thread and the tick at which it wakes up. */
  datatype SleepData = SleepData(ticks: int, thread: Tid)

  /** How a semaphore was used: its initial value, and how often it was upped and downed. */
  datatype History = History(init: nat, ups: nat, downs: nat)

  type ThreadTable = map<Tid, Thread>
  type Semaphores = map<nat, Semaphore>

  function Occurs(s: seq<Tid>, t: Tid): nat {
    multiset(s)[t]
  }

  function Sleeping(q: seq<SleepData>, t: Tid): nat {
    if q == [] then 0 else (if q[0].thread == t then 1 else 0) + Sleeping(q[1..], t)
  }

  predicate IsReady(ts: ThreadTable, t: Tid) {
    t in ts && ts[t].status == Ready
  }

  predicate IsBlocked(ts: ThreadTable, t: Tid) {
    t in ts && ts[t].status == Blocked
  }

  /** Blocked inside `down` of semaphore s. */
  ghost predicate BlockedOn(ts: ThreadTable, inDown: map<Tid, nat>, t: Tid, s: nat) {
    IsBlocked(ts, t) && t in inDown && inDown[t] == s
  }

  ghost predicate Asleep(ts: ThreadTable, inDown: map<Tid, nat>, t: Tid) {
    IsBlocked(ts, t) && t !in inDown
  }

  /** Threads woken by an `up` of s that have not yet completed their `down`. */
  ghost function Woken(ts: ThreadTable, inDown: map<Tid, nat>, s: nat): set<Tid> {
    set t | t in inDown && inDown[t] == s && !IsBlocked(ts, t)
  }

  // ---- The invariant ----

  /**
   Only the current thread is neither ready nor blocked, the idle thread is always ready
   or running, and every priority is a queue index.
   */
  ghost predicate StatusOk(ts: ThreadTable, cur: Tid, idle: Tid) {
    && cur in ts && idle in ts
    && (forall t :: t in ts ==> ts[t].priority < LEVELS)
    && (forall t :: t in ts && t != cur ==> ts[t].status == Ready || ts[t].status == Blocked)
    && ts[cur].status != Ready
    && ts[idle].status == (if idle == cur then Running else Ready)
  }

  /** The queues hold exactly the ready threads, once each. */
  ghost predicate QueueOk(ts: ThreadTable, q: seq<seq<Tid>>) {
    |q| == LEVELS && forall t :: Times(q, t) == if IsReady(ts, t) then 1 else 0
  }

  /** Every blocked thread is on exactly one wait list, once; nobody else is on any. */
  ghost predicate WaitOk(ts: ThreadTable, semas: Semaphores, inDown: map<Tid, nat>, sleepq: seq<SleepData>) {
    && (forall t :: t in inDown ==> t in ts && inDown[t] in semas)
    && (forall s, t :: s in semas ==> Occurs(semas[s].waiters, t) == if BlockedOn(ts, inDown, t, s) then 1 else 0)
    && (forall t :: Sleeping(sleepq, t) == if Asleep(ts, inDown, t) then 1 else 0)
  }

  /** No lost wake-up: while threads wait, at least as many as the value are on their way. */
  ghost predicate SemaOk(ts: ThreadTable, semas: Semaphores, inDown: map<Tid, nat>, history: map<nat, History>) {
    forall s :: s in semas ==>
      && s in history && semas[s].value + history[s].downs == history[s].init + history[s].ups
      && (semas[s].waiters != [] ==> |Woken(ts, inDown, s)| >= semas[s].value)
  }

  /** A lock is a semaphore of initial value 1: free, or with exactly one thread inside. */
  ghost predicate LockOk(semas: Semaphores, inside: map<nat, set<Tid>>, holder: map<nat, Option<Tid>>) {
    && inside.Keys == holder.Keys
    && forall l :: l in inside ==>
         && l in semas && semas[l].value + |inside[l]| == 1
         && (holder[l].Some? ==> inside[l] == {holder[l].value})
  }

  ghost predicate AlarmOk(sleepq: seq<SleepData>, now: int) {
    forall i :: 0 <= i < |sleepq| ==> sleepq[i].ticks > now
  }

  // ---- Changes that move no thread to or from a wait list ----

  /** The same threads are blocked, and the threads inside `down` are still there. */
  ghost predicate SameBlocked(ts: ThreadTable, ts': ThreadTable, inDown: map<Tid, nat>) {
    && (forall t :: IsBlocked(ts, t) <==> IsBlocked(ts', t))
    && (forall t :: t in inDown ==> t in ts')
  }

  lemma {:induction false} SameBlockedKeeps(ts: ThreadTable, ts': ThreadTable, semas: Semaphores, inDown: map<Tid, nat>,
                                            sleepq: seq<SleepData>, history: map<nat, History>)
    requires WaitOk(ts, semas, inDown, sleepq) && SemaOk(ts, semas, inDown, history) && SameBlocked(ts, ts', inDown)
    ensures WaitOk(ts', semas, inDown, sleepq) && SemaOk(ts', semas, inDown, history)
  {
    forall s, t | s in semas ensures Occurs(semas[s].waiters, t) == if BlockedOn(ts', inDown, t, s) then 1 else 0 {
      assert BlockedOn(ts, inDown, t, s) <==> BlockedOn(ts', inDown, t, s);
    }
    forall t ensures Sleeping(sleepq, t) == if Asleep(ts', inDown, t) then 1 else 0 {
      assert Asleep(ts, inDown, t) <==> Asleep(ts', inDown, t);
    }
    forall s | s in semas ensures Woken(ts', inDown, s) == Woken(ts, inDown, s) {
    }
  }

  // ---- Switching to the next thread ----

  /** The thread table after a switch: next runs, and previous is parked according to its status. */
  function Switched(ts: ThreadTable, prev: Tid, next: Tid): ThreadTable
    requires prev in ts && next in ts
  {
    var ts1 := ts[next := ts[next].(status := Running)];
    match ts[prev].status
    case Dying => ts1 - {prev}
    case Running => ts1[prev := ts[prev].(status := Ready)]
    case _ => ts1
  }

  lemma {:induction false} SwitchedOk(ts: ThreadTable, cur: Tid, idle: Tid, q: seq<seq<Tid>>, next: Tid,
                                      q1: seq<seq<Tid>>, q2: seq<seq<Tid>>, inDown: map<Tid, nat>)
    requires StatusOk(ts, cur, idle) && QueueOk(ts, q) && IsReady(ts, next) && OneMore(q1, q, next) && |q2| == LEVELS
    requires if ts[cur].status == Running then OneMore(q1, q2, cur) else q2 == q1
    requires ts[cur].status == Dying ==> cur !in inDown
    requires forall t :: t in inDown ==> t in ts
    ensures next != cur
    ensures var ts' := Switched(ts, cur, next);
            && StatusOk(ts', next, idle) && ts'[next].status == Running
            && QueueOk(ts', q2) && SameBlocked(ts, ts', inDown)
  {
    var ts' := Switched(ts, cur, next);
    forall t ensures Times(q2, t) == if IsReady(ts', t) then 1 else 0 {
      assert Times(q, t) == Times(q1, t) + (if t == next then 1 else 0);
      if ts[cur].status == Running {
        assert Times(q2, t) == Times(q1, t) + (if t == cur then 1 else 0);
      }
    }
  }

  /** No ready thread outranks the running one. */
  ghost predicate TopRunning(ts: ThreadTable, cur: Tid) {
    cur in ts && forall t :: IsReady(ts, t) ==> ts[t].priority <= ts[cur].priority
  }

  lemma {:induction false} TopAfterSwitch(ts: ThreadTable, cur: Tid, idle: Tid, q: seq<seq<Tid>>, next: Option<Tid>)
    requires StatusOk(ts, cur, idle) && QueueOk(ts, q)
    requires var pri := Priorities(ts);
             && (next == None <==>
               forall t :: Times(q, t) > 0 ==> ts[cur].status == Running && t in pri && pri[t] < pri[cur])
             && (next.Some? ==> IsReady(ts, next.value) && forall t :: Times(q, t) > 0 ==>
               t in pri && pri[t] <= pri[next.value])
    ensures next == None ==> TopRunning(ts, cur)
    ensures next.Some? ==> TopRunning(Switched(ts, cur, next.value), next.value)
    ensures next == None <==> StaysOn(ts, cur)
    ensures next.Some? ==> IsTopReady(ts, next.value)
  {
    assert forall t :: IsReady(ts, t) <==> Times(q, t) > 0;
    assert cur != idle ==> Times(q, idle) > 0;
    if next.Some? {
      var pri, n := Priorities(ts), next.value;
      var t: Tid :| Times(q, t) > 0 && !(ts[cur].status == Running && t in pri && pri[t] < pri[cur]);
      assert pri[t] <= pri[n];
      forall u | IsReady(Switched(ts, cur, n), u) ensures ts[u].priority <= ts[n].priority {
        if u != cur {
          assert IsReady(ts, u);
          assert pri[u] <= pri[n];
        }
      }
    }
  }

  lemma {:induction false} QueueAfterUpdate(ts: ThreadTable, cur: Tid, idle: Tid, q: seq<seq<Tid>>)
    requires StatusOk(ts, cur, idle) && QueueOk(ts, q)
    ensures QueueOk(ts, Updated(q, Priorities(ts)))
  {
    QueuedAreRanked(ts, cur, idle, q);
    UpdateConserves(q, Priorities(ts));
  }

  /** If the current thread cannot go on, the idle thread is queued. */
  lemma {:induction false} SomebodyIsReady(ts: ThreadTable, cur: Tid, idle: Tid, q: seq<seq<Tid>>)
    requires StatusOk(ts, cur, idle) && QueueOk(ts, q) && ts[cur].status != Running
    ensures Times(q, idle) > 0 && exists t :: Times(q, t) > 0
  {
    assert IsReady(ts, idle);
  }

  lemma {:induction false} OneMoreIsReady(ts: ThreadTable, q1: seq<seq<Tid>>, q: seq<seq<Tid>>, t: Tid)
    requires QueueOk(ts, q) && OneMore(q1, q, t)
    ensures IsReady(ts, t)
  {
    assert Times(q, t) == Times(q1, t) + 1;
  }

  /** Facts about the current thread that follow from the invariant. */
  lemma Basics(ts: ThreadTable, cur: Tid, idle: Tid, semas: Semaphores, inDown: map<Tid, nat>, sleepq: seq<SleepData>)
    requires StatusOk(ts, cur, idle) && WaitOk(ts, semas, inDown, sleepq)
    ensures cur in ts && idle in ts && ts[cur].status != Ready && (cur == idle ==> ts[cur].status == Running)
    ensures forall t :: t in ts ==> ts[t].priority < LEVELS
    ensures forall t :: t in inDown ==> t in ts
  {
  }

  function Priorities(ts: ThreadTable): map<Tid, nat> {
    map t | t in ts :: ts[t].priority
  }

  lemma {:induction false} QueuedAreRanked(ts: ThreadTable, cur: Tid, idle: Tid, q: seq<seq<Tid>>)
    requires StatusOk(ts, cur, idle) && QueueOk(ts, q)
    ensures AllRanked(q, Priorities(ts)) && cur in Priorities(ts) && cur in ts && idle in ts && |q| == LEVELS
    ensures forall t :: t in ts ==> ts[t].priority < LEVELS
    ensures forall t :: Times(q, t) > 0 ==> IsReady(ts, t)
  {
    forall j, t | 0 <= j < |q| && t in q[j] ensures t in Priorities(ts) && Priorities(ts)[t] < LEVELS {
      CountPositive(q, |q|, t);
      assert Times(q, t) > 0;
    }
  }

  // ---- Threads come, go and change priority ----

  lemma {:induction false} NewThread(ts: ThreadTable, cur: Tid, idle: Tid, q: seq<seq<Tid>>, t: Tid, priority: nat,
                                     q': seq<seq<Tid>>, inDown: map<Tid, nat>)
    requires StatusOk(ts, cur, idle) && QueueOk(ts, q) && t !in ts && priority < LEVELS && OneMore(q, q', t)
    requires |q'| == LEVELS
    requires forall u :: u in inDown ==> u in ts
    ensures var ts' := ts[t := Thread(Ready, priority)];
            StatusOk(ts', cur, idle) && QueueOk(ts', q') && SameBlocked(ts, ts', inDown) && ts'[cur] == ts[cur]
  {
    var ts' := ts[t := Thread(Ready, priority)];
    forall u ensures Times(q', u) == if IsReady(ts', u) then 1 else 0 {
      assert Times(q, u) == if IsReady(ts, u) then 1 else 0;
    }
  }

  lemma {:induction false} DyingThread(ts: ThreadTable, cur: Tid, idle: Tid, q: seq<seq<Tid>>, inDown: map<Tid, nat>)
    requires StatusOk(ts, cur, idle) && QueueOk(ts, q) && ts[cur].status == Running && cur != idle
    requires forall u :: u in inDown ==> u in ts
    ensures var ts' := WithStatus(ts, cur, Dying);
            StatusOk(ts', cur, idle) && QueueOk(ts', q) && SameBlocked(ts, ts', inDown) && cur in ts
  {
    var ts' := WithStatus(ts, cur, Dying);
    assert forall u :: IsReady(ts', u) <==> IsReady(ts, u);
  }

  lemma {:induction false} NewPriority(ts: ThreadTable, cur: Tid, idle: Tid, q: seq<seq<Tid>>, t: Tid, priority: nat,
                                       inDown: map<Tid, nat>)
    requires StatusOk(ts, cur, idle) && QueueOk(ts, q) && t in ts && priority < LEVELS
    requires forall u :: u in inDown ==> u in ts
    ensures var ts' := ts[t := ts[t].(priority := priority)];
            StatusOk(ts', cur, idle) && QueueOk(ts', q) && SameBlocked(ts, ts', inDown)
  {
    var ts' := ts[t := ts[t].(priority := priority)];
    assert forall u :: IsReady(ts', u) <==> IsReady(ts, u);
  }

  // ---- Blocking and waking ----

  /** A running thread that strictly outranks all ready ones. */
  ghost predicate StaysOn(ts: ThreadTable, t: Tid) {
    t in ts && ts[t].status == Running && forall u :: IsReady(ts, u) ==> ts[u].priority < ts[t].priority
  }

  /** A ready thread that no ready thread outranks. */
  ghost predicate IsTopReady(ts: ThreadTable, t: Tid) {
    IsReady(ts, t) && forall u :: IsReady(ts, u) ==> ts[u].priority <= ts[t].priority
  }

  /**
   The scheduler lets the previous thread run on exactly if it is running and strictly
   outranks all ready threads, and else switches to a ready thread of top priority.
   */
  ghost predicate Rescheduled(ts: ThreadTable, prev: Tid, ts': ThreadTable, cur: Tid) {
    && prev in ts && cur in ts
    && if StaysOn(ts, prev) then cur == prev && ts' == ts
       else cur != prev && IsTopReady(ts, cur) && ts' == Switched(ts, prev, cur)
  }

  lemma RescheduledKeys(ts: ThreadTable, prev: Tid, ts': ThreadTable, cur: Tid)
    requires Rescheduled(ts, prev, ts', cur)
    ensures ts'.Keys <= ts.Keys
  {
  }

  /** Thread w was made ready, and cur gave way exactly if w outranks it. */
  ghost predicate Woke(ts: ThreadTable, cur: Tid, w: Tid, ts': ThreadTable, cur': Tid) {
    && w in ts && cur in ts
    && var ts1 := WithStatus(ts, w, Ready);
       if ts[cur].priority < ts[w].priority then Rescheduled(ts1, cur, ts', cur') else ts' == ts1 && cur' == cur
  }

  function WithPriority(ts: ThreadTable, t: Tid, priority: nat): ThreadTable
    requires t in ts
  {
    ts[t := ts[t].(priority := priority)]
  }

  function WithStatus(ts: ThreadTable, t: Tid, st: Status): ThreadTable
    requires t in ts
  {
    ts[t := ts[t].(status := st)]
  }

  lemma {:induction false} BlockStatus(ts: ThreadTable, cur: Tid, idle: Tid, q: seq<seq<Tid>>)
    requires StatusOk(ts, cur, idle) && QueueOk(ts, q) && ts[cur].status == Running && cur != idle
    ensures StatusOk(WithStatus(ts, cur, Blocked), cur, idle) && QueueOk(WithStatus(ts, cur, Blocked), q)
  {
    var ts' := WithStatus(ts, cur, Blocked);
    assert forall t :: IsReady(ts', t) <==> IsReady(ts, t);
  }

  lemma {:induction false} WakeStatus(ts: ThreadTable, cur: Tid, idle: Tid, q: seq<seq<Tid>>, t: Tid, q': seq<seq<Tid>>)
    requires StatusOk(ts, cur, idle) && QueueOk(ts, q) && IsBlocked(ts, t) && t != cur && OneMore(q, q', t)
    requires |q'| == LEVELS
    ensures StatusOk(WithStatus(ts, t, Ready), cur, idle) && QueueOk(WithStatus(ts, t, Ready), q')
  {
    var ts' := WithStatus(ts, t, Ready);
    forall u ensures Times(q', u) == if IsReady(ts', u) then 1 else 0 {
      assert Times(q, u) == if IsReady(ts, u) then 1 else 0;
    }
  }

  /** The current thread, inside `down` of s, finds the value 0 and joins the waiters. */
  lemma {:induction false} WaitOnSema(ts: ThreadTable, semas: Semaphores, inDown: map<Tid, nat>, sleepq: seq<SleepData>,
                                      history: map<nat, History>, cur: Tid, s: nat)
    requires WaitOk(ts, semas, inDown, sleepq) && SemaOk(ts, semas, inDown, history)
    requires cur in ts && !IsBlocked(ts, cur) && s in semas && semas[s].value == 0
    requires (cur in inDown ==> inDown[cur] == s)
    ensures var ts', semas', inDown' :=
              WithStatus(ts, cur, Blocked), semas[s := Semaphore(0, [cur] + semas[s].waiters)], inDown[cur := s];
            WaitOk(ts', semas', inDown', sleepq) && SemaOk(ts', semas', inDown', history)
  {
    var ts', semas', inDown' :=
      WithStatus(ts, cur, Blocked), semas[s := Semaphore(0, [cur] + semas[s].waiters)], inDown[cur := s];
    JoinWaiters(ts, semas, inDown, sleepq, cur, s);
    hide WaitOk;
    forall r | r in semas' && r != s ensures Woken(ts', inDown', r) == Woken(ts, inDown, r) {
    }
  }

  lemma {:induction false} JoinWaiters(ts: ThreadTable, semas: Semaphores, inDown: map<Tid, nat>,
                                       sleepq: seq<SleepData>, cur: Tid, s: nat)
    requires WaitOk(ts, semas, inDown, sleepq)
    requires cur in ts && !IsBlocked(ts, cur) && s in semas && (cur in inDown ==> inDown[cur] == s)
    ensures WaitOk(WithStatus(ts, cur, Blocked), semas[s := Semaphore(0, [cur] + semas[s].waiters)],
              inDown[cur := s], sleepq)
  {
    hide Occurs, Sleeping;
    var ts', semas', inDown' :=
      WithStatus(ts, cur, Blocked), semas[s := Semaphore(0, [cur] + semas[s].waiters)], inDown[cur := s];
    forall r, t | r in semas' ensures Occurs(semas'[r].waiters, t) == if BlockedOn(ts', inDown', t, r) then 1 else 0 {
      assert Occurs(semas[r].waiters, t) == if BlockedOn(ts, inDown, t, r) then 1 else 0;
      OccursPush(semas[s].waiters, cur, t);
    }
    forall t ensures Sleeping(sleepq, t) == if Asleep(ts', inDown', t) then 1 else 0 {
      assert Sleeping(sleepq, t) == if Asleep(ts, inDown, t) then 1 else 0;
    }
  }

  lemma OccursPush(s: seq<Tid>, t: Tid, u: Tid)
    ensures Occurs([t] + s, u) == Occurs(s, u) + (if t == u then 1 else 0)
  {
  }

  /** The current thread finds a positive value, takes one and leaves `down`. */
  lemma {:induction false} CompleteDown(ts: ThreadTable, semas: Semaphores, inDown: map<Tid, nat>,
                                        sleepq: seq<SleepData>,
                                        history: map<nat, History>, cur: Tid, s: nat)
    requires WaitOk(ts, semas, inDown, sleepq) && SemaOk(ts, semas, inDown, history)
    requires cur in ts && !IsBlocked(ts, cur) && s in semas && semas[s].value > 0
    requires (cur in inDown ==> inDown[cur] == s)
    ensures s in history
    ensures var semas', inDown', history' := semas[s := semas[s].(value := semas[s].value - 1)], inDown - {cur},
                                             history[s := history[s].(downs := history[s].downs + 1)];
            WaitOk(ts, semas', inDown', sleepq) && SemaOk(ts, semas', inDown', history')
  {
    var semas', inDown' := semas[s := semas[s].(value := semas[s].value - 1)], inDown - {cur};
    forall r, t | r in semas' ensures Occurs(semas'[r].waiters, t) == if BlockedOn(ts, inDown', t, r) then 1 else 0 {
      assert Occurs(semas[r].waiters, t) == if BlockedOn(ts, inDown, t, r) then 1 else 0;
    }
    forall t ensures Sleeping(sleepq, t) == if Asleep(ts, inDown', t) then 1 else 0 {
      assert Sleeping(sleepq, t) == if Asleep(ts, inDown, t) then 1 else 0;
    }
    forall r | r in semas'
      ensures Woken(ts, inDown', r) == if r == s then Woken(ts, inDown, r) - {cur} else Woken(ts, inDown, r) {
    }
  }

  function Without(s: seq<Tid>, i: nat): seq<Tid>
    requires i < |s|
  {
    s[..i] + s[i + 1..]
  }

  lemma {:induction false} WithoutOccurs(s: seq<Tid>, i: nat, t: Tid)
    requires i < |s|
    ensures Occurs(s, t) == Occurs(Without(s, i), t) + (if t == s[i] then 1 else 0)
  {
    assert s == s[..i] + ([s[i]] + s[i + 1..]);
  }

  lemma {:induction false} WaitersExist(ts: ThreadTable, semas: Semaphores, inDown: map<Tid, nat>,
                                        sleepq: seq<SleepData>, s: nat)
    requires WaitOk(ts, semas, inDown, sleepq) && s in semas
    ensures forall i :: 0 <= i < |semas[s].waiters| ==> semas[s].waiters[i] in ts
  {
    forall i: nat | i < |semas[s].waiters| ensures semas[s].waiters[i] in ts {
      WithoutOccurs(semas[s].waiters, i, semas[s].waiters[i]);
    }
  }

  /** The i-th waiter has the highest priority, and every waiter behind it a lower one. */
  ghost predicate IsMaxWaiter(ts: ThreadTable, waiters: seq<Tid>, i: nat) {
    && i < |waiters| && (forall k :: 0 <= k < |waiters| ==> waiters[k] in ts)
    && (forall k :: 0 <= k < |waiters| ==> ts[waiters[k]].priority <= ts[waiters[i]].priority)
    && (forall k :: i < k < |waiters| ==> ts[waiters[k]].priority < ts[waiters[i]].priority)
  }

  /** An `up` of s that wakes the i-th waiter. */
  lemma {:induction false} UpWakes(ts: ThreadTable, semas: Semaphores, inDown: map<Tid, nat>, sleepq: seq<SleepData>,
                                   history: map<nat, History>, s: nat, i: nat)
    requires WaitOk(ts, semas, inDown, sleepq) && SemaOk(ts, semas, inDown, history)
    requires s in semas && i < |semas[s].waiters|
    ensures s in history && BlockedOn(ts, inDown, semas[s].waiters[i], s)
    ensures var w := semas[s].waiters[i];
            var ts', semas', history' :=
              WithStatus(ts, w, Ready), semas[s := Semaphore(semas[s].value + 1, Without(semas[s].waiters, i))],
              history[s := history[s].(ups := history[s].ups + 1)];
            WaitOk(ts', semas', inDown, sleepq) && SemaOk(ts', semas', inDown, history')
  {
    var w := semas[s].waiters[i];
    WithoutOccurs(semas[s].waiters, i, w);
    assert Occurs(semas[s].waiters, w) == if BlockedOn(ts, inDown, w, s) then 1 else 0;
    hide WaitOk, SemaOk, Without, Occurs;
    LeaveWaiters(ts, semas, inDown, sleepq, s, i);
    OneMoreWoken(ts, semas, inDown, history, s, w, Without(semas[s].waiters, i));
  }

  lemma {:induction false} OneMoreWoken(ts: ThreadTable, semas: Semaphores, inDown: map<Tid, nat>,
                                        history: map<nat, History>, s: nat, w: Tid, rest: seq<Tid>)
    requires SemaOk(ts, semas, inDown, history) && s in semas && semas[s].waiters != [] && BlockedOn(ts, inDown, w, s)
    ensures s in history
    ensures SemaOk(WithStatus(ts, w, Ready), semas[s := Semaphore(semas[s].value + 1, rest)], inDown,
                   history[s := history[s].(ups := history[s].ups + 1)])
  {
    var ts' := WithStatus(ts, w, Ready);
    forall r ensures Woken(ts', inDown, r) == if r == s then Woken(ts, inDown, r) + {w} else Woken(ts, inDown, r) {
    }
  }

  lemma {:induction false} LeaveWaiters(ts: ThreadTable, semas: Semaphores, inDown: map<Tid, nat>,
                                        sleepq: seq<SleepData>, s: nat, i: nat)
    requires WaitOk(ts, semas, inDown, sleepq) && s in semas && i < |semas[s].waiters|
    requires BlockedOn(ts, inDown, semas[s].waiters[i], s)
    ensures WaitOk(WithStatus(ts, semas[s].waiters[i], Ready),
                   semas[s := Semaphore(semas[s].value + 1, Without(semas[s].waiters, i))], inDown, sleepq)
  {
    hide Occurs, Sleeping, Without;
    var w := semas[s].waiters[i];
    var ts', semas' := WithStatus(ts, w, Ready),
      semas[s := Semaphore(semas[s].value + 1, Without(semas[s].waiters, i))];
    forall r, t | r in semas' ensures Occurs(semas'[r].waiters, t) == if BlockedOn(ts', inDown, t, r) then 1 else 0 {
      assert Occurs(semas[r].waiters, t) == if BlockedOn(ts, inDown, t, r) then 1 else 0;
      WithoutOccurs(semas[s].waiters, i, t);
    }
    forall t ensures Sleeping(sleepq, t) == if Asleep(ts', inDown, t) then 1 else 0 {
      assert Sleeping(sleepq, t) == if Asleep(ts, inDown, t) then 1 else 0;
    }
  }

  lemma {:induction false} UpPlain(ts: ThreadTable, semas: Semaphores, inDown: map<Tid, nat>, sleepq: seq<SleepData>,
                                   history: map<nat, History>, s: nat)
    requires WaitOk(ts, semas, inDown, sleepq) && SemaOk(ts, semas, inDown, history)
    requires s in semas && semas[s].waiters == []
    ensures s in history
    ensures var semas', history' := semas[s := Semaphore(semas[s].value + 1, [])],
              history[s := history[s].(ups := history[s].ups + 1)];
            WaitOk(ts, semas', inDown, sleepq) && SemaOk(ts, semas', inDown, history')
  {
  }

  lemma {:induction false} SleepingConcat(q: seq<SleepData>, r: seq<SleepData>, t: Tid)
    ensures Sleeping(q + r, t) == Sleeping(q, t) + Sleeping(r, t)
  {
    if q == [] {
      assert q + r == r;
    } else {
      SleepingConcat(q[1..], r, t);
      assert (q + r)[1..] == q[1..] + r;
    }
  }

  /** The current thread puts itself on the sleep queue and blocks. */
  lemma {:induction false} FallAsleep(ts: ThreadTable, semas: Semaphores, inDown: map<Tid, nat>, sleepq: seq<SleepData>,
                                      history: map<nat, History>, cur: Tid, ticks: int)
    requires WaitOk(ts, semas, inDown, sleepq) && SemaOk(ts, semas, inDown, history)
    requires cur in ts && !IsBlocked(ts, cur) && cur !in inDown
    ensures var ts', sleepq' := WithStatus(ts, cur, Blocked), sleepq + [SleepData(ticks, cur)];
            WaitOk(ts', semas, inDown, sleepq') && SemaOk(ts', semas, inDown, history)
  {
    var ts', sleepq' := WithStatus(ts, cur, Blocked), sleepq + [SleepData(ticks, cur)];
    forall r, t | r in semas ensures Occurs(semas[r].waiters, t) == if BlockedOn(ts', inDown, t, r) then 1 else 0 {
      assert BlockedOn(ts, inDown, t, r) <==> BlockedOn(ts', inDown, t, r);
    }
    forall t ensures Sleeping(sleepq', t) == if Asleep(ts', inDown, t) then 1 else 0 {
      SleepingConcat(sleepq, [SleepData(ticks, cur)], t);
      assert Sleeping(sleepq, t) == if Asleep(ts, inDown, t) then 1 else 0;
    }
    forall r | r in semas ensures Woken(ts', inDown, r) == Woken(ts, inDown, r) {
    }
  }

  function Awaken(q: seq<SleepData>, i: nat): seq<SleepData>
    requires i < |q|
  {
    q[..i] + q[i + 1..]
  }

  lemma {:induction false} AwakenCounts(q: seq<SleepData>, i: nat, t: Tid)
    requires i < |q|
    ensures Sleeping(q, t) == Sleeping(Awaken(q, i), t) + (if t == q[i].thread then 1 else 0)
  {
    assert q == q[..i] + ([q[i]] + q[i + 1..]);
    SleepingConcat(q[..i], [q[i]] + q[i + 1..], t);
    SleepingConcat([q[i]], q[i + 1..], t);
    SleepingConcat(q[..i], q[i + 1..], t);
  }

  /** The i-th sleeper is taken off the sleep queue and becomes ready. */
  lemma {:induction false} WakeSleeper(ts: ThreadTable, semas: Semaphores, inDown: map<Tid, nat>,
                                       sleepq: seq<SleepData>,
                                       history: map<nat, History>, i: nat)
    requires WaitOk(ts, semas, inDown, sleepq) && SemaOk(ts, semas, inDown, history) && i < |sleepq|
    ensures Asleep(ts, inDown, sleepq[i].thread)
    ensures var ts', sleepq' := WithStatus(ts, sleepq[i].thread, Ready), Awaken(sleepq, i);
            WaitOk(ts', semas, inDown, sleepq') && SemaOk(ts', semas, inDown, history)
  {
    var w := sleepq[i].thread;
    AwakenCounts(sleepq, i, w);
    assert Sleeping(sleepq, w) == if Asleep(ts, inDown, w) then 1 else 0;
    var ts', sleepq' := WithStatus(ts, w, Ready), Awaken(sleepq, i);
    forall r, t | r in semas ensures Occurs(semas[r].waiters, t) == if BlockedOn(ts', inDown, t, r) then 1 else 0 {
      assert BlockedOn(ts, inDown, t, r) <==> BlockedOn(ts', inDown, t, r);
    }
    forall t ensures Sleeping(sleepq', t) == if Asleep(ts', inDown, t) then 1 else 0 {
      AwakenCounts(sleepq, i, t);
      assert Sleeping(sleepq, t) == if Asleep(ts, inDown, t) then 1 else 0;
    }
    forall r | r in semas ensures Woken(ts', inDown, r) == Woken(ts, inDown, r) {
    }
  }

  // ---- Locks ----

  lemma {:induction false} LockDown(semas: Semaphores, inside: map<nat, set<Tid>>, holder: map<nat, Option<Tid>>,
                                    s: nat, cur: Tid)
    requires LockOk(semas, inside, holder) && s in semas && semas[s].value > 0
    ensures var semas' := semas[s := semas[s].(value := semas[s].value - 1)];
            LockOk(semas', if s in inside then inside[s := inside[s] + {cur}] else inside, holder)
  {
    if s in inside {
      assert inside[s] == {};
    }
  }

  lemma {:induction false} LockUp(semas: Semaphores, inside: map<nat, set<Tid>>, holder: map<nat, Option<Tid>>,
                                  s: nat, cur: Tid, waiters: seq<Tid>)
    requires LockOk(semas, inside, holder) && s in semas && (s in inside ==> cur in inside[s] && holder[s] == None)
    ensures LockOk(semas[s := Semaphore(semas[s].value + 1, waiters)], if s in inside
              then inside[s := inside[s] - {cur}] else inside, holder)
  {
  }

  lemma {:induction false} LockWait(semas: Semaphores, inside: map<nat, set<Tid>>, holder: map<nat, Option<Tid>>,
                                    s: nat, waiters: seq<Tid>)
    requires LockOk(semas, inside, holder) && s in semas
    ensures LockOk(semas[s := Semaphore(semas[s].value, waiters)], inside, holder)
  {
  }

  lemma LockElsewhere(semas: Semaphores, inside: map<nat, set<Tid>>, holder: map<nat, Option<Tid>>, s: nat, n: nat)
    requires LockOk(semas, inside, holder) && s !in semas
    ensures LockOk(semas[s := Semaphore(n, [])], inside, holder) && s !in inside
    ensures n == 1 ==> LockOk(semas[s := Semaphore(1, [])], inside[s := {}], holder[s := None])
  {
  }

  lemma LockValue(semas: Semaphores, inside: map<nat, set<Tid>>, holder: map<nat, Option<Tid>>, l: nat, cur: Tid)
    requires LockOk(semas, inside, holder) && l in inside && cur in inside[l]
    ensures l in semas && semas[l].value == 0
  {
    assert |inside[l]| > 0;
  }

  lemma LockKeys(semas: Semaphores, inside: map<nat, set<Tid>>, holder: map<nat, Option<Tid>>)
    requires LockOk(semas, inside, holder)
    ensures inside.Keys == holder.Keys && forall l :: l in inside ==> l in semas
  {
  }

  lemma HolderAlone(semas: Semaphores, inside: map<nat, set<Tid>>, holder: map<nat, Option<Tid>>, l: nat)
    requires LockOk(semas, inside, holder) && l in inside && l in holder && holder[l].Some?
    ensures inside[l] == {holder[l].value}
  {
  }

  lemma {:induction false} HolderIsInside(semas: Semaphores, inside: map<nat, set<Tid>>,
                                          holder: map<nat, Option<Tid>>, l: nat, cur: Tid)
    requires LockOk(semas, inside, holder) && l in inside && cur in inside[l]
    ensures inside[l] == {cur} && LockOk(semas, inside, holder[l := Some(cur)])
    ensures LockOk(semas, inside, holder[l := None])
  {
    forall t | t in inside[l] ensures t == cur {
      MutualExclusion(semas, inside, holder, l, t, cur);
    }
  }

  lemma {:induction false} NewSema(ts: ThreadTable, semas: Semaphores, inDown: map<Tid, nat>, sleepq: seq<SleepData>,
                                   history: map<nat, History>, s: nat, n: nat)
    requires WaitOk(ts, semas, inDown, sleepq) && SemaOk(ts, semas, inDown, history) && s !in semas
    ensures WaitOk(ts, semas[s := Semaphore(n, [])], inDown, sleepq)
    ensures SemaOk(ts, semas[s := Semaphore(n, [])], inDown, history[s := History(n, 0, 0)])
  {
    var semas' := semas[s := Semaphore(n, [])];
    forall r, t | r in semas' ensures Occurs(semas'[r].waiters, t) == if BlockedOn(ts, inDown, t, r) then 1 else 0 {
      if r in semas {
        assert Occurs(semas[r].waiters, t) == if BlockedOn(ts, inDown, t, r) then 1 else 0;
      }
    }
  }

  // ---- Waking sleepers ----

  /** The entries of the sleep queue that are still in the future. */
  function StillAsleep(q: seq<SleepData>, now: int): seq<SleepData> {
    if q == [] then []
    else if q[0].ticks > now then [q[0]] + StillAsleep(q[1..], now)
    else StillAsleep(q[1..], now)
  }

  lemma {:induction false} StillAsleepStep(q: seq<SleepData>, now: int)
    requires q != []
    ensures StillAsleep(q, now) ==
              (if q[0].ticks > now then [q[0]] + StillAsleep(q[1..], now) else StillAsleep(q[1..], now))
  {
  }

  lemma {:induction false} StillAsleepConcat(q: seq<SleepData>, r: seq<SleepData>, now: int)
    ensures StillAsleep(q + r, now) == StillAsleep(q, now) + StillAsleep(r, now)
  {
    if q == [] {
      assert q + r == r;
      assert StillAsleep(q, now) == [];
    } else {
      StillAsleepConcat(q[1..], r, now);
      StillAsleepFirst(q, r, now);
    }
  }

  lemma {:induction false} StillAsleepFirst(q: seq<SleepData>, r: seq<SleepData>, now: int)
    requires q != [] && StillAsleep(q[1..] + r, now) == StillAsleep(q[1..], now) + StillAsleep(r, now)
    ensures StillAsleep(q + r, now) == StillAsleep(q, now) + StillAsleep(r, now)
  {
    hide StillAsleep;
    TailOfConcat(q, r);
    StillAsleepStep(q + r, now);
    StillAsleepStep(q, now);
    if q[0].ticks > now {
      Associative([q[0]], StillAsleep(q[1..], now), StillAsleep(r, now));
    }
  }

  /** Taking a due entry off the queue does not change what is still to come. */
  lemma {:induction false} AwakenDue(q: seq<SleepData>, i: nat, now: int)
    requires i < |q| && q[i].ticks <= now
    ensures StillAsleep(Awaken(q, i), now) == StillAsleep(q, now)
  {
    assert q == q[..i] + ([q[i]] + q[i + 1..]);
    StillAsleepConcat(q[..i], [q[i]] + q[i + 1..], now);
    StillAsleepConcat([q[i]], q[i + 1..], now);
    StillAsleepConcat(q[..i], q[i + 1..], now);
  }

  lemma {:induction false} AllStillAsleep(q: seq<SleepData>, now: int)
    requires AlarmOk(q, now)
    ensures StillAsleep(q, now) == q
  {
    if q != [] {
      AllStillAsleep(q[1..], now);
    }
  }

  /** Thread t has an entry that is due. */
  ghost predicate Due(q: seq<SleepData>, now: int, t: Tid) {
    exists i :: 0 <= i < |q| && q[i].thread == t && q[i].ticks <= now
  }

  /** What waking the due sleepers makes of the threads. */
  ghost predicate DueAwake(before: ThreadTable, after: ThreadTable, q: seq<SleepData>, now: int) {
    && after.Keys == before.Keys
    && forall t :: t in before ==> after[t] == if Due(q, now, t) then before[t].(status := Ready) else before[t]
  }

  /** One more thread is woken: progress towards waking all that were due in q0. */
  lemma {:induction false} AwakenProgress(ts: ThreadTable, ts': ThreadTable, q: seq<SleepData>, now: int, i: nat)
    requires i < |q| && q[i].ticks <= now && q[i].thread in ts
    requires DueAwake(WithStatus(ts, q[i].thread, Ready), ts', Awaken(q, i), now)
    ensures DueAwake(ts, ts', q, now)
  {
    var w, r := q[i].thread, Awaken(q, i);
    forall t | t in ts && t != w ensures Due(q, now, t) <==> Due(r, now, t) {
      if k :| 0 <= k < |q| && q[k].thread == t && q[k].ticks <= now {
        assert r[if k < i then k else k - 1] == q[k];
      }
      if k :| 0 <= k < |r| && r[k].thread == t && r[k].ticks <= now {
        assert r[k] == q[if k < i then k else k + 1];
      }
    }
  }

  /** Finishing the wake-ups from here finishes those from the start. */
  ghost predicate Leads(ts: ThreadTable, q: seq<SleepData>, ts0: ThreadTable, q0: seq<SleepData>, now: int) {
    forall ts' :: DueAwake(ts, ts', q, now) ==> DueAwake(ts0, ts', q0, now)
  }

  lemma LeadsItself(ts: ThreadTable, q: seq<SleepData>, now: int)
    ensures Leads(ts, q, ts, q, now)
  {
  }

  lemma {:induction false} LeadsOn(ts: ThreadTable, q: seq<SleepData>, ts0: ThreadTable, q0: seq<SleepData>, now: int,
                                   i: nat)
    requires Leads(ts, q, ts0, q0, now) && i < |q| && q[i].ticks <= now && q[i].thread in ts
    ensures Leads(WithStatus(ts, q[i].thread, Ready), Awaken(q, i), ts0, q0, now)
  {
    hide DueAwake;
    forall ts' | DueAwake(WithStatus(ts, q[i].thread, Ready), ts', Awaken(q, i), now)
      ensures DueAwake(ts0, ts', q0, now) {
      AwakenProgress(ts, ts', q, now, i);
    }
  }

  lemma {:induction false} NothingDue(ts: ThreadTable, q: seq<SleepData>, ts0: ThreadTable, q0: seq<SleepData>,
                                      now: int)
    requires Leads(ts, q, ts0, q0, now) && AlarmOk(q, now)
    ensures DueAwake(ts0, ts, q0, now) && StillAsleep(q, now) == q && AlarmOk(q, now)
  {
    AllStillAsleep(q, now);
    assert DueAwake(ts, ts, q, now);
  }

  lemma {:induction false} NobodyDue(ts: ThreadTable, q: seq<SleepData>, ts0: ThreadTable, q0: seq<SleepData>,
                                     now: int, i: nat)
    requires Leads(ts, q, ts0, q0, now) && i < |q| && now < q[i].ticks && forall k :: 0 <= k < |q| ==>
              q[i].ticks <= q[k].ticks
    ensures DueAwake(ts0, ts, q0, now) && StillAsleep(q, now) == q && AlarmOk(q, now)
  {
    NothingDue(ts, q, ts0, q0, now);
  }

  // ---- Consequences ----

  /** If a thread waits although the semaphore is available, somebody is on the way to take it. */
  lemma {:induction false} NoLostWakeUp(ts: ThreadTable, semas: Semaphores, inDown: map<Tid, nat>,
                                        sleepq: seq<SleepData>,
                                        history: map<nat, History>, cur: Tid, idle: Tid, s: nat)
    requires StatusOk(ts, cur, idle) && WaitOk(ts, semas, inDown, sleepq) && SemaOk(ts, semas, inDown, history)
    requires s in semas && semas[s].waiters != [] && semas[s].value > 0
    ensures exists t :: t in inDown && inDown[t] == s && (t == cur || IsReady(ts, t))
  {
    var w := Woken(ts, inDown, s);
    assert |w| > 0;
    var t :| t in w;
  }

  /** A lock never has two threads between acquire and release. */
  lemma {:induction false} MutualExclusion(semas: Semaphores, inside: map<nat, set<Tid>>,
                                           holder: map<nat, Option<Tid>>, l: nat, t: Tid, u: Tid)
    requires LockOk(semas, inside, holder) && l in inside && t in inside[l] && u in inside[l]
    ensures t == u
  {
    if t != u {
      assert {t, u} <= inside[l];
      CardinalityMonotone({t, u}, inside[l]);
    }
  }

  lemma {:induction false} CardinalityMonotone(a: set<Tid>, b: set<Tid>)
    requires a <= b
    ensures |a| <= |b|
  {
    assert b == a + (b - a);
    assert |b| == |a| + |b - a|;
  }

  // ---- What a whole run keeps ----

  /** Ids are not reused: a thread that is gone never returns. */
  ghost predicate IdsGrow(ts: ThreadTable, next: Tid, ts': ThreadTable, next': Tid) {
    next <= next' && forall t :: t in ts' && t !in ts ==> next <= t
  }

  /** Each sleeper is still asleep exactly until the time it asked for. */
  ghost predicate AlarmsKept(q: seq<SleepData>, q': seq<SleepData>, now': int) {
    forall d :: d in q ==> (d in q' <==> now' < d.ticks)
  }

  /** Semaphores keep their initial value, and their counts of ups and completed downs only rise. */
  ghost predicate CountsGrow(semas: Semaphores, h: map<nat, History>, h': map<nat, History>) {
    forall s :: s in semas ==>
      && s in h && s in h' && h'[s].init == h[s].init
      && h[s].ups <= h'[s].ups && h[s].downs <= h'[s].downs
  }

  lemma {:induction false} AlarmsStay(q: seq<SleepData>, q': seq<SleepData>, now: int)
    requires AlarmOk(q, now) && forall d :: d in q ==> d in q'
    ensures AlarmsKept(q, q', now)
  {
    forall d | d in q ensures now < d.ticks {
      var i :| 0 <= i < |q| && q[i] == d;
    }
  }

  lemma {:induction false} AlarmsAtTick(q: seq<SleepData>, now: int)
    ensures AlarmsKept(q, StillAsleep(q, now), now)
  {
    forall d | d in q ensures d in StillAsleep(q, now) <==> now < d.ticks {
      StillAsleepMember(q, now, d);
    }
  }

  lemma {:induction false} StillAsleepMember(q: seq<SleepData>, now: int, d: SleepData)
    ensures d in StillAsleep(q, now) <==> d in q && now < d.ticks
  {
    if q != [] {
      StillAsleepMember(q[1..], now, d);
      assert q == [q[0]] + q[1..];
    }
  }

  lemma {:induction false} AlarmsOn(q: seq<SleepData>, q1: seq<SleepData>, now1: int, q2: seq<SleepData>, now2: int)
    requires AlarmsKept(q, q1, now1) && AlarmsKept(q1, q2, now2) && AlarmOk(q2, now2) && now1 <= now2
    ensures AlarmsKept(q, q2, now2)
  {
    forall d | d in q ensures d in q2 <==> now2 < d.ticks {
      if d in q2 {
        var i :| 0 <= i < |q2| && q2[i] == d;
      }
    }
  }

  lemma IdsOn(ts: ThreadTable, next: Tid, ts1: ThreadTable, next1: Tid, ts2: ThreadTable, next2: Tid)
    requires IdsGrow(ts, next, ts1, next1) && IdsGrow(ts1, next1, ts2, next2)
    ensures IdsGrow(ts, next, ts2, next2)
  {
  }

  lemma CountsOn(semas: Semaphores, h: map<nat, History>, semas1: Semaphores, h1: map<nat, History>,
                 h2: map<nat, History>)
    requires CountsGrow(semas, h, h1) && CountsGrow(semas1, h1, h2) && semas.Keys <= semas1.Keys
    ensures CountsGrow(semas, h, h2)
  {
  }

  lemma HistoryKnown(ts: ThreadTable, semas: Semaphores, inDown: map<Tid, nat>, history: map<nat, History>, s: nat)
    requires SemaOk(ts, semas, inDown, history) && s in semas
    ensures s in history
  {
  }

  lemma CountsStay(ts: ThreadTable, semas: Semaphores, inDown: map<Tid, nat>, history: map<nat, History>)
    requires SemaOk(ts, semas, inDown, history)
    ensures CountsGrow(semas, history, history)
  {
  }

  /** An id that is used up and not alive stays so. */
  lemma GoneForGood(ts: ThreadTable, next: Tid, ts': ThreadTable, next': Tid, t: Tid)
    requires IdsGrow(ts, next, ts', next') && t !in ts && t < next
    ensures t !in ts' && t < next'
  {
  }
}
