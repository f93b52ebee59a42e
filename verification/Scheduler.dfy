/**
 The priority scheduler (src/thread/scheduler/priority.rs): 64 queues of ready threads, one
 per priority. A thread's priority may change while it is queued; `update_priority` moves
 such threads before every choice.
 */
module Schedulers {
  import opened Options

  const LEVELS: nat := 64

  type Tid = nat

  // ---- What update_priority computes ----

  /** The threads of s whose priority is j, in order. */
  function Keep(s: seq<Tid>, pri: map<Tid, nat>, j: nat): seq<Tid> {
    if s == [] then []
    else if s[0] in pri && pri[s[0]] == j then [s[0]] + Keep(s[1..], pri, j)
    else Keep(s[1..], pri, j)
  }

  /** The threads that move to queue j from the first n queues, queue by queue. */
  function Moved(q: seq<seq<Tid>>, pri: map<Tid, nat>, j: nat, n: nat): seq<Tid>
    requires n <= |q|
  {
    if n == 0 then []
    else Moved(q, pri, j, n - 1) + (if n - 1 == j then [] else Keep(q[n - 1], pri, j))
  }

  /** Each queue keeps its own threads in order and appends those that move to it. */
  function Updated(q: seq<seq<Tid>>, pri: map<Tid, nat>): seq<seq<Tid>> {
    seq(|q|, j requires 0 <= j < |q| => Keep(q[j], pri, j) + Moved(q, pri, j, |q|))
  }

  predicate AllRanked(q: seq<seq<Tid>>, pri: map<Tid, nat>) {
    forall j, t :: 0 <= j < |q| && t in q[j] ==> t in pri && pri[t] < LEVELS
  }

  lemma Associative<T>(a: seq<T>, b: seq<T>, c: seq<T>)
    ensures a + (b + c) == (a + b) + c
  {
  }

  lemma KeepNothing(pri: map<Tid, nat>, j: nat)
    ensures Keep([], pri, j) == []
  {
  }

  lemma TailOfConcat<T>(s: seq<T>, t: seq<T>)
    requires s != []
    ensures (s + t)[0] == s[0] && (s + t)[1..] == s[1..] + t
  {
  }

  lemma {:induction false} KeepStep(s: seq<Tid>, pri: map<Tid, nat>, j: nat)
    requires s != []
    ensures Keep(s, pri, j) ==
              (if s[0] in pri && pri[s[0]] == j then [s[0]] + Keep(s[1..], pri, j) else Keep(s[1..], pri, j))
  {
  }

  lemma {:induction false} KeepConcat(s: seq<Tid>, t: seq<Tid>, pri: map<Tid, nat>, j: nat)
    ensures Keep(s + t, pri, j) == Keep(s, pri, j) + Keep(t, pri, j)
  {
    if s == [] {
      assert s + t == t;
    } else {
      hide Keep;
      KeepConcat(s[1..], t, pri, j);
      ghost var rest, last := Keep(s[1..], pri, j), Keep(t, pri, j);
      KeepStep(s + t, pri, j);
      KeepStep(s, pri, j);
      TailOfConcat(s, t);
      Associative([s[0]], rest, last);
    }
  }

  /** What is kept stays in order: two kept threads stood in the same order before. */
  lemma {:induction false} KeepOrder(s: seq<Tid>, pri: map<Tid, nat>, j: nat, a: nat, b: nat) returns (x: nat, y: nat)
    requires a < b < |Keep(s, pri, j)|
    ensures x < y < |s| && s[x] == Keep(s, pri, j)[a] && s[y] == Keep(s, pri, j)[b]
  {
    KeepStep(s, pri, j);
    hide Keep;
    if s[0] in pri && pri[s[0]] == j {
      if a == 0 {
        y := KeepSource(s[1..], pri, j, b - 1);
        x, y := 0, y + 1;
      } else {
        x, y := KeepOrder(s[1..], pri, j, a - 1, b - 1);
        x, y := x + 1, y + 1;
      }
    } else {
      x, y := KeepOrder(s[1..], pri, j, a, b);
      x, y := x + 1, y + 1;
    }
  }

  lemma {:induction false} KeepSource(s: seq<Tid>, pri: map<Tid, nat>, j: nat, b: nat) returns (y: nat)
    requires b < |Keep(s, pri, j)|
    ensures y < |s| && s[y] == Keep(s, pri, j)[b]
  {
    KeepStep(s, pri, j);
    hide Keep;
    if s[0] in pri && pri[s[0]] == j {
      if b == 0 {
        y := 0;
      } else {
        y := KeepSource(s[1..], pri, j, b - 1);
        y := y + 1;
      }
    } else {
      y := KeepSource(s[1..], pri, j, b);
      y := y + 1;
    }
  }

  lemma {:induction false} KeepAll(s: seq<Tid>, pri: map<Tid, nat>, i: nat, j: nat)
    requires forall t :: t in s ==> t in pri && pri[t] == i
    ensures Keep(s, pri, j) == if i == j then s else []
  {
    if s != [] {
      assert forall t :: t in s[1..] ==> t in s;
      KeepAll(s[1..], pri, i, j);
      assert s == [s[0]] + s[1..];
    }
  }

  /** Every thread is in the queue of its priority. */
  ghost predicate Settled(q: seq<seq<Tid>>, pri: map<Tid, nat>) {
    forall j, t :: 0 <= j < |q| && t in q[j] ==> t in pri && pri[t] == j
  }

  lemma {:induction false} NobodyMoves(q: seq<seq<Tid>>, pri: map<Tid, nat>, j: nat, n: nat)
    requires Settled(q, pri) && n <= |q|
    ensures Moved(q, pri, j, n) == []
  {
    if n > 0 {
      NobodyMoves(q, pri, j, n - 1);
      KeepAll(q[n - 1], pri, n - 1, j);
    }
  }

  /** If no priority changed, the queues stay as they are. */
  lemma {:induction false} SettledStays(q: seq<seq<Tid>>, pri: map<Tid, nat>)
    requires Settled(q, pri)
    ensures Updated(q, pri) == q
  {
    forall j: nat | j < |q| ensures Updated(q, pri)[j] == q[j] {
      KeepAll(q[j], pri, j, j);
      NobodyMoves(q, pri, j, |q|);
    }
  }

  /** A thread whose priority changed goes behind those that were in its new queue. */
  lemma {:induction false} UpdatedParts(q: seq<seq<Tid>>, pri: map<Tid, nat>, j: nat)
    requires j < |q|
    ensures var u := Updated(q, pri)[j];
            exists n: nat :: n <= |u| && (forall t :: t in u[..n] ==> t in q[j])
                             && forall t :: t in u[n..] ==> exists i :: 0 <= i < |q| && i != j && t in q[i]
  {
    var u, k := Updated(q, pri)[j], Keep(q[j], pri, j);
    assert u[..|k|] == k && u[|k|..] == Moved(q, pri, j, |q|);
    forall t | t in k ensures t in q[j] {
      KeepMember(q[j], pri, j, t);
    }
    forall t | t in Moved(q, pri, j, |q|) ensures exists i :: 0 <= i < |q| && i != j && t in q[i] {
      MovedSource(q, pri, j, |q|, t);
    }
  }

  lemma {:induction false} MovedSource(q: seq<seq<Tid>>, pri: map<Tid, nat>, j: nat, n: nat, t: Tid)
    requires n <= |q| && t in Moved(q, pri, j, n)
    ensures exists i :: 0 <= i < n && i != j && t in q[i]
  {
    if t in Moved(q, pri, j, n - 1) {
      MovedSource(q, pri, j, n - 1, t);
    } else {
      KeepMember(q[n - 1], pri, j, t);
    }
  }

  lemma {:induction false} KeepMember(s: seq<Tid>, pri: map<Tid, nat>, j: nat, t: Tid)
    ensures multiset(Keep(s, pri, j))[t] == if t in pri && pri[t] == j then multiset(s)[t] else 0
  {
    if s != [] {
      KeepMember(s[1..], pri, j, t);
      assert s == [s[0]] + s[1..];
    }
  }

  /** Threads that moved to queue i stay when queue i itself is processed. */
  lemma {:induction false} KeepOfMoved(q: seq<seq<Tid>>, pri: map<Tid, nat>, i: nat, n: nat, j: nat)
    requires n <= |q|
    ensures Keep(Moved(q, pri, i, n), pri, j) == if i == j then Moved(q, pri, i, n) else []
  {
    KeepNothing(pri, j);
    hide Keep;
    if n > 0 {
      KeepOfMoved(q, pri, i, n - 1, j);
      var last := if n - 1 == i then [] else Keep(q[n - 1], pri, i);
      KeepConcat(Moved(q, pri, i, n - 1), last, pri, j);
      KeepOfKeep(q[n - 1], pri, i, j);
      assert Keep(last, pri, j) == if i == j then last else [];
    }
  }

  lemma {:induction false} KeepOfKeep(s: seq<Tid>, pri: map<Tid, nat>, i: nat, j: nat)
    ensures Keep(Keep(s, pri, i), pri, j) == if i == j then Keep(s, pri, i) else []
  {
    if s != [] {
      KeepOfKeep(s[1..], pri, i, j);
      if s[0] in pri && pri[s[0]] == i {
        KeepConcat([s[0]], Keep(s[1..], pri, i), pri, j);
      }
    }
  }

  /** Draining queue i: it keeps its own threads, the others are appended to their queues. */
  function Drained(q: seq<seq<Tid>>, pri: map<Tid, nat>, i: nat): seq<seq<Tid>>
    requires i < |q|
  {
    seq(|q|, j requires 0 <= j < |q| => if j == i then Keep(q[i], pri, i) else q[j] + Keep(q[i], pri, j))
  }

  /** The queues when the first i of them have been drained. */
  function Partly(q: seq<seq<Tid>>, pri: map<Tid, nat>, i: nat): seq<seq<Tid>>
    requires i <= |q|
  {
    seq(|q|, j requires 0 <= j < |q| => (if j < i then Keep(q[j], pri, j) else q[j]) + Moved(q, pri, j, i))
  }

  lemma {:induction false} DrainOne(q: seq<seq<Tid>>, pri: map<Tid, nat>, i: nat)
    requires i < |q|
    ensures Drained(Partly(q, pri, i), pri, i) == Partly(q, pri, i + 1)
  {
    hide Keep;
    var p := Partly(q, pri, i);
    forall j: nat | j < |q| ensures Drained(p, pri, i)[j] == Partly(q, pri, i + 1)[j] {
      KeepConcat(q[i], Moved(q, pri, i, i), pri, j);
      KeepOfMoved(q, pri, i, i, j);
      assert p[i] == q[i] + Moved(q, pri, i, i);
    }
  }

  lemma {:induction false} PartlyRanked(q: seq<seq<Tid>>, pri: map<Tid, nat>, i: nat, t: Tid)
    requires i < |q| <= LEVELS && AllRanked(q, pri) && t in Partly(q, pri, i)[i]
    ensures t in pri && pri[t] < LEVELS
  {
    assert Partly(q, pri, i)[i] == q[i] + Moved(q, pri, i, i);
    if t !in q[i] {
      MovedInPri(q, pri, i, i, t);
    }
  }

  lemma {:induction false} PartlyEnds(q: seq<seq<Tid>>, pri: map<Tid, nat>)
    ensures Partly(q, pri, 0) == q && Partly(q, pri, |q|) == Updated(q, pri)
  {
    assert forall j: nat :: j < |q| ==> Partly(q, pri, 0)[j] == q[j];
  }

  // ---- Conservation ----

  /** How often thread t occurs in the first n queues. */
  ghost function Count(q: seq<seq<Tid>>, n: nat, t: Tid): nat
    requires n <= |q|
  {
    if n == 0 then 0 else Count(q, n - 1, t) + multiset(q[n - 1])[t]
  }

  /** How often thread t is queued. */
  ghost function Times(q: seq<seq<Tid>>, t: Tid): nat {
    Count(q, |q|, t)
  }

  lemma {:induction false} MovedMember(q: seq<seq<Tid>>, pri: map<Tid, nat>, j: nat, n: nat, t: Tid)
    requires n <= |q|
    ensures multiset(Moved(q, pri, j, n))[t] + (if t in pri && pri[t] == j && j < n then multiset(q[j])[t] else 0)
            == if t in pri && pri[t] == j then Count(q, n, t) else 0
  {
    hide Keep;
    if n > 0 {
      MovedMember(q, pri, j, n - 1, t);
      KeepMember(q[n - 1], pri, j, t);
      var rest: seq<Tid> := Moved(q, pri, j, n - 1);
      var last: seq<Tid> := if n - 1 == j then [] else Keep(q[n - 1], pri, j);
      assert Moved(q, pri, j, n) == rest + last;
      assert multiset(rest + last) == multiset(rest) + multiset(last);
    }
  }

  /** After the update a thread occurs in the queue of its priority only, as often as before. */
  lemma {:induction false} UpdatedMember(q: seq<seq<Tid>>, pri: map<Tid, nat>, j: nat, t: Tid)
    requires j < |q|
    ensures multiset(Updated(q, pri)[j])[t] == if t in pri && pri[t] == j then Times(q, t) else 0
  {
    MovedMember(q, pri, j, |q|, t);
    KeepMember(q[j], pri, j, t);
  }

  lemma {:induction false} CountUpdated(q: seq<seq<Tid>>, pri: map<Tid, nat>, n: nat, t: Tid)
    requires n <= |q|
    ensures Count(Updated(q, pri), n, t) == if t in pri && pri[t] < n then Times(q, t) else 0
  {
    hide Updated, Times;
    UpdatedLength(q, pri);
    if n > 0 {
      CountUpdated(q, pri, n - 1, t);
      UpdatedMember(q, pri, n - 1, t);
    }
  }

  lemma UpdatedLength(q: seq<seq<Tid>>, pri: map<Tid, nat>)
    ensures |Updated(q, pri)| == |q|
  {
  }

  lemma {:induction false} CountPositive(q: seq<seq<Tid>>, n: nat, t: Tid)
    requires n <= |q|
    ensures Count(q, n, t) > 0 <==> exists j :: 0 <= j < n && t in q[j]
  {
    if n > 0 {
      CountPositive(q, n - 1, t);
      assert t in multiset(q[n - 1]) <==> t in q[n - 1];
    }
  }

  /** The update loses and duplicates no thread, and puts each into the queue of its priority. */
  lemma {:induction false} UpdateConserves(q: seq<seq<Tid>>, pri: map<Tid, nat>)
    requires |q| == LEVELS && AllRanked(q, pri)
    ensures forall t :: Times(Updated(q, pri), t) == Times(q, t)
    ensures |Updated(q, pri)| == LEVELS
    ensures forall j, t :: 0 <= j < LEVELS && t in Updated(q, pri)[j] ==> t in pri && pri[t] == j
  {
    hide Updated;
    UpdatedLength(q, pri);
    forall t ensures Times(Updated(q, pri), t) == Times(q, t) {
      CountUpdated(q, pri, LEVELS, t);
      CountPositive(q, LEVELS, t);
    }
    forall j, t | 0 <= j < LEVELS && t in Updated(q, pri)[j] ensures t in pri && pri[t] == j {
      UpdatedMember(q, pri, j, t);
      assert t in multiset(Updated(q, pri)[j]);
    }
  }

  lemma {:induction false} CountChange(q: seq<seq<Tid>>, j: nat, s: seq<Tid>, n: nat, t: Tid)
    requires j < |q| && n <= |q|
    ensures Count(q[j := s], n, t) + (if j < n then multiset(q[j])[t] else 0) ==
              Count(q, n, t) + (if j < n then multiset(s)[t] else 0)
  {
    if n > 0 {
      CountChange(q, j, s, n - 1, t);
    }
  }

  /** One more occurrence of t, and no other change in any count. */
  ghost predicate OneMore(q: seq<seq<Tid>>, q': seq<seq<Tid>>, t: Tid) {
    forall u :: Times(q', u) == Times(q, u) + (if u == t then 1 else 0)
  }

  lemma {:induction false} PushCounts(q: seq<seq<Tid>>, j: nat, t: Tid)
    requires j < |q|
    ensures OneMore(q, q[j := [t] + q[j]], t)
  {
    forall u ensures Times(q[j := [t] + q[j]], u) == Times(q, u) + (if u == t then 1 else 0) {
      CountChange(q, j, [t] + q[j], |q|, u);
    }
  }

  lemma {:induction false} PopCounts(q: seq<seq<Tid>>, j: nat)
    requires j < |q| && q[j] != []
    ensures var n := |q[j]| - 1; OneMore(q[j := q[j][..n]], q, q[j][n])
  {
    var n := |q[j]| - 1;
    assert q[j] == q[j][..n] + [q[j][n]];
    forall u ensures Times(q, u) == Times(q[j := q[j][..n]], u) + (if u == q[j][n] then 1 else 0) {
      CountChange(q, j, q[j][..n], |q|, u);
    }
  }

  lemma {:induction false} MovedInPri(q: seq<seq<Tid>>, pri: map<Tid, nat>, i: nat, n: nat, t: Tid)
    requires n <= |q| && t in Moved(q, pri, i, n)
    ensures t in pri && pri[t] == i
  {
    MovedMember(q, pri, i, n, t);
    assert t in multiset(Moved(q, pri, i, n));
  }

  /** If i is the highest non-empty queue, its threads have the maximal priority. */
  lemma {:induction false} TopQueue(u: seq<seq<Tid>>, pri: map<Tid, nat>, i: nat)
    requires |u| == LEVELS && i < LEVELS && u[i] != [] && forall j :: i < j < LEVELS ==> u[j] == []
    requires forall j, t :: 0 <= j < LEVELS && t in u[j] ==> t in pri && pri[t] == j
    ensures var t := u[i][|u[i]| - 1]; t in pri && pri[t] == i && Times(u, t) > 0
    ensures forall t :: Times(u, t) > 0 ==> t in pri && pri[t] <= i
  {
    CountPositive(u, LEVELS, u[i][|u[i]| - 1]);
    forall t | Times(u, t) > 0 ensures t in pri && pri[t] <= i {
      CountPositive(u, LEVELS, t);
    }
  }

  lemma OneMoreFrom(q: seq<seq<Tid>>, u: seq<seq<Tid>>, before: seq<seq<Tid>>, t: Tid)
    requires OneMore(q, u, t) && forall x :: Times(u, x) == Times(before, x)
    ensures OneMore(q, before, t)
  {
  }

  lemma {:induction false} NothingQueued(u: seq<seq<Tid>>)
    requires forall j :: 0 <= j < |u| ==> u[j] == []
    ensures forall t :: Times(u, t) == 0
  {
    forall t ensures Times(u, t) == 0 {
      CountPositive(u, |u|, t);
    }
  }

  lemma TwoQueued(two: seq<seq<Tid>>, t: Tid, u: Tid, p: nat, pri: map<Tid, nat>)
    requires |two| == LEVELS && p < LEVELS && two[p] == [u, t] && forall j :: 0 <= j < LEVELS && j != p ==> two[j] == []
    requires t in pri && u in pri && pri[t] == p && pri[u] == p
    ensures AllRanked(two, pri) && Updated(two, pri) == two && Times(two, t) > 0
  {
    hide Updated, Count;
    forall j, x | 0 <= j < |two| && x in two[j] ensures x in pri && pri[x] == j {
      assert j == p;
    }
    assert Settled(two, pri);
    SettledStays(two, pri);
    assert two[p][1] == t;
    CountPositive(two, LEVELS, t);
  }

  class PriorityScheduler {
    const q: array<seq<Tid>>

    ghost predicate Valid() { q.Length == LEVELS }

    constructor ()
      ensures Valid() && fresh(q) && forall j :: 0 <= j < LEVELS ==> q[j] == []
    {
      q := new seq<Tid>[LEVELS](_ => []);
    }

    method Register(t: Tid, priority: nat)
      requires Valid() && priority < LEVELS
      modifies q
      ensures q[..] == old(q[..])[priority := [t] + old(q[priority])]
      ensures OneMore(old(q[..]), q[..], t)
    {
      PushCounts(q[..], priority, t);
      q[priority] := [t] + q[priority];
      assert q[..] == old(q[..])[priority := [t] + old(q[priority])];
    }

    /** Drains queue i: its own threads come back, the others go to their queues. */
    method Drain(i: nat, pri: map<Tid, nat>)
      requires Valid() && i < LEVELS
      requires forall t :: t in q[i] ==> t in pri && pri[t] < LEVELS
      modifies q
      ensures q[..] == Drained(old(q[..]), pri, i)
    {
      var temp: seq<Tid> := [];
      ghost var s, k := q[i], 0;
      while q[i] != []
        invariant 0 <= k <= |s| && q[i] == s[k..] && temp == Keep(s[..k], pri, i)
        invariant forall j :: 0 <= j < LEVELS && j != i ==> q[j] == old(q[j]) + Keep(s[..k], pri, j)
        decreases |q[i]|
      {
        var newitem := q[i][0];
        assert newitem in s;
        assert s[..k + 1] == s[..k] + [newitem];
        forall j
          ensures Keep(s[..k + 1], pri, j) == Keep(s[..k], pri, j) + (if pri[newitem] == j then [newitem] else [])
        {
          KeepConcat(s[..k], [newitem], pri, j);
        }
        q[i] := q[i][1..];
        if pri[newitem] == i {
          temp := temp + [newitem];
        } else {
          q[pri[newitem]] := q[pri[newitem]] + [newitem];
        }
        k := k + 1;
      }
      assert s[..k] == s;
      q[i] := temp;
    }

    /** `update_priority`: every thread goes to the queue of its current priority. */
    method UpdatePriority(pri: map<Tid, nat>)
      requires Valid() && AllRanked(q[..], pri)
      modifies q
      ensures q[..] == Updated(old(q[..]), pri)
    {
      hide Keep, Moved, Updated, Partly, Drained;
      ghost var before := q[..];
      PartlyEnds(before, pri);
      var i := 0;
      while i < LEVELS
        invariant 0 <= i <= LEVELS && q[..] == Partly(before, pri, i)
      {
        forall t | t in q[i] ensures t in pri && pri[t] < LEVELS {
          assert q[i] == q[..][i];
          PartlyRanked(before, pri, i, t);
        }
        DrainOne(before, pri, i);
        Drain(i, pri);
        i := i + 1;
      }
    }

    /** The highest non-empty queue, or LEVELS if all are empty. */
    method Highest() returns (i: nat)
      requires Valid()
      ensures i <= LEVELS && (i < LEVELS ==> q[i] != [])
      ensures forall j :: (if i == LEVELS then 0 else i + 1) <= j < LEVELS ==> q[j] == []
    {
      var k := LEVELS;
      while k > 0
        invariant 0 <= k <= LEVELS
        invariant forall j :: k <= j < LEVELS ==> q[j] == []
      {
        k := k - 1;
        if q[k] != [] {
          return k;
        }
      }
      i := LEVELS;
    }

    /**
     Chooses the next thread: the longest waiting one of the highest priority, unless the
     current thread is running and strictly outranks every ready thread.
     */
    method Schedule(pri: map<Tid, nat>, current: Tid, running: bool) returns (next: Option<Tid>)
      requires Valid() && AllRanked(q[..], pri) && current in pri
      modifies q
      ensures next == None ==> q[..] == Updated(old(q[..]), pri)
      ensures next == None <==> forall t :: Times(old(q[..]), t) > 0 ==> running && t in pri && pri[t] < pri[current]
      ensures next.Some? ==>
                var t, u := next.value, Updated(old(q[..]), pri);
                && t in pri && pri[t] < LEVELS && |u| == LEVELS && u[pri[t]] != [] && t == u[pri[t]][|u[pri[t]]| - 1]
                && q[..] == u[pri[t] := u[pri[t]][..|u[pri[t]]| - 1]]
      ensures next.Some? ==> forall t :: Times(old(q[..]), t) > 0 ==> t in pri && pri[t] <= pri[next.value]
      ensures next.Some? ==> OneMore(q[..], old(q[..]), next.value)
    {
      hide Updated, Times, AllRanked;
      UpdateConserves(old(q[..]), pri);
      UpdatePriority(pri);
      ghost var u := q[..];
      assert forall j :: 0 <= j < LEVELS ==> u[j] == q[j];
      var i := Highest();
      if i == LEVELS {
        NothingQueued(u);
        return None;
      }
      TopQueue(u, pri, i);
      PopCounts(u, i);
      var n := |q[i]| - 1;
      var chosen := q[i][n];
      q[i] := q[i][..n];
      if pri[chosen] < pri[current] && running {
        q[i] := q[i] + [chosen];
        assert u[i] == u[i][..n] + [chosen];
        assert q[..] == u;
        next := None;
      } else {
        assert q[..] == u[i := u[i][..n]];
        OneMoreFrom(q[..], u, old(q[..]), chosen);
        next := Some(chosen);
      }
    }

    /** Among equals the one registered first is chosen first. */
    method FirstComeFirstServed(t: Tid, u: Tid, p: nat, pri: map<Tid, nat>, current: Tid) returns (next: Option<Tid>)
      requires Valid() && p < LEVELS && (forall j :: 0 <= j < LEVELS ==> q[j] == [])
      requires t in pri && u in pri && pri[t] == p && pri[u] == p && current in pri
      modifies q
      ensures next == Some(t)
    {
      hide Updated, AllRanked, Times, OneMore;
      Register(t, p);
      Register(u, p);
      assert [u] + ([t] + []) == [u, t];
      TwoQueued(q[..], t, u, p, pri);
      next := Schedule(pri, current, false);
    }
  }
}
