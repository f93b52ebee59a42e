/**
 The steps of the thread manager as a relation between states: what each of them does to
 every part of the state, and what makes a sequence of states a run.
 */
module KernelSteps {
  import opened Options
  import opened Schedulers
  import opened Threads

  /** What the current thread, or the timer, does next. */
  datatype Step =
    | Yield
    | Spawns(priority: nat)
    | Exits
    | SetsPriority(priority: nat)
    | Donates(to: Tid, priority: nat)
    | CreatesSemaphore(s: nat, n: nat)
    | CreatesLock(s: nat)
    | Downs(s: nat)
    | Ups(s: nat)
    | RecordsHolder(s: nat)
    | ClearsHolder(s: nat)
    | Sleeps(ticks: int)
    | TimerTick

  datatype State = State(threads: ThreadTable, current: Tid, nextTid: Tid, semas: Semaphores,
                         holder: map<nat, Option<Tid>>, inside: map<nat, set<Tid>>, inDown: map<Tid, nat>,
                         sleepq: seq<SleepData>, now: int, prioritySet: map<Tid, nat>, history: map<nat, History>)

  /** Can the current thread, being where it is in its code, take this step? */
  predicate Possible(threads: ThreadTable, current: Tid, idle: Tid, semas: Semaphores, holder: map<nat, Option<Tid>>,
                     inside: map<nat, set<Tid>>, inDown: map<Tid, nat>, step: Step)
  {
    match step
    case Yield => true
    case TimerTick => true
    case Donates(t, p) => t in threads && p < LEVELS
    case Spawns(p) => current !in inDown && p < LEVELS
    case SetsPriority(p) => current !in inDown && p < LEVELS
    case Exits => current !in inDown && current != idle
    case CreatesSemaphore(s, n) => current !in inDown && s !in semas
    case CreatesLock(s) => current !in inDown && s !in semas
    case Downs(s) => s in semas && current != idle && (current in inDown ==> inDown[current] == s)
    case Ups(s) =>
      current !in inDown && s in semas
      && (s in inside ==> current in inside[s] && s in holder && holder[s] == None)
    case RecordsHolder(s) => current !in inDown && s in inside && current in inside[s]
    case ClearsHolder(s) => current !in inDown && s in inside
    case Sleeps(n) => current !in inDown && current != idle
  }

  /** The threads are `ts` and the processor was given anew; the rest of t is as in s. */
  ghost predicate Gives(s: State, ts: ThreadTable, t: State) {
    && t == s.(threads := t.threads, current := t.current)
    && Rescheduled(ts, s.current, t.threads, t.current)
  }

  /** The current thread of s stops; everything else is as in s. */
  ghost predicate Stops(s: State, t: State) {
    s.current in s.threads && Gives(s, s.threads[s.current := Thread(Blocked, s.threads[s.current].priority)], t)
  }

  function EnterLock(inside: map<nat, set<Tid>>, k: nat, t: Tid): map<nat, set<Tid>> {
    if k in inside then inside[k := inside[k] + {t}] else inside
  }

  function LeaveLock(inside: map<nat, set<Tid>>, k: nat, t: Tid): map<nat, set<Tid>> {
    if k in inside then inside[k := inside[k] - {t}] else inside
  }

  /** What one step makes of state s; not ok stands for a failed assertion, which halts the kernel. */
  ghost predicate StepTo(s: State, step: Step, t: State, ok: bool) {
    match step
    case Yield => ok && Gives(s, s.threads, t)
    case Spawns(p) =>
      ok && Gives(s.(nextTid := s.nextTid + 1), s.threads[s.nextTid := Thread(Ready, p)], t)
    case Exits =>
      && ok && s.current in s.threads && s.current !in t.threads
      && Gives(s, s.threads[s.current := Thread(Dying, s.threads[s.current].priority)], t)
    case SetsPriority(p) =>
      && ok && s.current in s.threads
      && Gives(s.(prioritySet := s.prioritySet[s.current := p]),
               s.threads[s.current := Thread(s.threads[s.current].status, p)], t)
    case Donates(u, p) =>
      ok && u in s.threads && t == s.(threads := s.threads[u := Thread(s.threads[u].status, p)])
    case CreatesSemaphore(k, n) =>
      ok && t == s.(semas := s.semas[k := Semaphore(n, [])], history := s.history[k := History(n, 0, 0)])
    case CreatesLock(k) =>
      ok && t == s.(semas := s.semas[k := Semaphore(1, [])], history := s.history[k := History(1, 0, 0)],
                    holder := s.holder[k := None], inside := s.inside[k := {}])
    case Downs(k) => ok && DownTo(s, k, t)
    case Ups(k) => UpTo(s, k, t, ok)
    case RecordsHolder(k) => ok && t == s.(holder := s.holder[k := Some(s.current)])
    case ClearsHolder(k) =>
      && k in s.holder && (ok <==> s.holder[k] == Some(s.current))
      && t == if ok then s.(holder := s.holder[k := None]) else s
    case Sleeps(n) =>
      && ok
      && if n <= 0 then t == s else Stops(s.(sleepq := s.sleepq + [SleepData(s.now + n, s.current)]), t)
    case TimerTick =>
      && ok && t == s.(now := s.now + 1, sleepq := t.sleepq, threads := t.threads)
      && (forall d :: d in t.sleepq <==> d in s.sleepq && s.now + 1 < d.ticks)
      && (forall d :: d in s.sleepq && d.ticks <= s.now + 1 ==> d.ticks == s.now + 1)
      && DueAwake(s.threads, t.threads, s.sleepq, s.now + 1)
  }

  /** One round of `down`: the value is taken, or the current thread waits and stops. */
  ghost predicate DownTo(s: State, k: nat, t: State) {
    && k in s.semas && k in s.history
    && var v, w, h := s.semas[k].value, s.semas[k].waiters, s.history[k];
       if v > 0 then
         t == s.(semas := s.semas[k := Semaphore(v - 1, w)], inDown := s.inDown - {s.current},
                 inside := EnterLock(s.inside, k, s.current),
                   history := s.history[k := History(h.init, h.ups, h.downs + 1)])
       else
         Stops(s.(semas := s.semas[k := Semaphore(0, [s.current] + w)], inDown := s.inDown[s.current := k]), t)
  }

  /** `up`: the value rises, and the longest waiting thread of the highest priority becomes ready. */
  ghost predicate UpTo(s: State, k: nat, t: State, ok: bool) {
    && k in s.semas && k in s.history
    && var v, w, h := s.semas[k].value, s.semas[k].waiters, s.history[k];
       var s' := s.(inside := LeaveLock(s.inside, k, s.current),
         history := s.history[k := History(h.init, h.ups + 1, h.downs)]);
       && (ok <==> w == [] || v == 0)
       && (!ok ==> t == s && k !in s.inside)
       && (ok && w == [] ==> t == s'.(semas := s.semas[k := Semaphore(v + 1, [])]))
       && (ok && w != [] ==>
             && t == s'.(semas := t.semas, threads := t.threads, current := t.current)
             && exists i: nat :: IsMaxWaiter(s.threads, w, i)
                  && t.semas == s.semas[k := Semaphore(v + 1, w[..i] + w[i + 1..])]
                  && Woke(s.threads, s.current, w[i], t.threads, t.current))
  }

  /** What the scheduler did to each thread. */
  lemma RescheduledMeans(ts: ThreadTable, prev: Tid, ts': ThreadTable, cur: Tid)
    requires Rescheduled(ts, prev, ts', cur) && ts[prev].status != Ready
    ensures forall t :: t in ts' ==> t in ts && ts'[t].priority == ts[t].priority
    ensures forall t :: t in ts && t != prev && t != cur ==> t in ts' && ts'[t] == ts[t]
    ensures cur in ts' && ts'[cur].status == Running
    ensures cur != prev && ts[prev].status == Dying ==> prev !in ts'
    ensures cur != prev && ts[prev].status == Running ==> prev in ts' && ts'[prev].status == Ready
    ensures cur != prev && ts[prev].status == Blocked ==> prev in ts' && ts'[prev].status == Blocked
  {
  }

  lemma StoppedIsBlocked(s: State, t: State)
    requires Stops(s, t)
    ensures s.current in t.threads && t.threads[s.current].status == Blocked && t.current != s.current
  {
  }

  // ---- Runs ----

  /** Impossible steps are passed over. */
  ghost predicate StepOf(idle: Tid, s: State, step: Step, t: State, ok: bool) {
    if Possible(s.threads, s.current, idle, s.semas, s.holder, s.inside, s.inDown, step)
    then StepTo(s, step, t, ok)
    else ok && t == s
  }

  /**
   The states of a run of `steps`: each follows from the one before by its step, until all
   steps are done or one of them halts the kernel.
   */
  ghost predicate IsRun(idle: Tid, steps: seq<Step>, states: seq<State>, halted: bool) {
    && 1 <= |states| <= |steps| + 1
    && (!halted ==> |states| == |steps| + 1)
    && (halted ==> |states| >= 2)
    && forall i :: 0 <= i < |states| - 1 ==>
         StepOf(idle, states[i], steps[i], states[i + 1], !(halted && i == |states| - 2))
  }

  lemma {:induction false} RunMore(idle: Tid, steps: seq<Step>, i: nat, states: seq<State>, t: State, ok: bool)
    requires i < |steps| && IsRun(idle, steps[..i], states, false) && StepOf(idle, states[i], steps[i], t, ok)
    ensures IsRun(idle, steps[..i + 1], states + [t], !ok)
  {
    var states' := states + [t];
    forall j | 0 <= j < |states'| - 1
      ensures StepOf(idle, states'[j], steps[..i + 1][j], states'[j + 1], !(!ok && j == |states'| - 2))
    {
      if j < i {
        assert StepOf(idle, states[j], steps[..i][j], states[j + 1], true);
      }
    }
  }

  lemma RunHalted(idle: Tid, steps: seq<Step>, i: nat, states: seq<State>)
    requires i <= |steps| && IsRun(idle, steps[..i], states, true)
    ensures IsRun(idle, steps, states, true)
  {
    forall j | 0 <= j < |states| - 1
      ensures StepOf(idle, states[j], steps[j], states[j + 1], !(true && j == |states| - 2))
    {
      assert steps[..i][j] == steps[j];
    }
  }
}
