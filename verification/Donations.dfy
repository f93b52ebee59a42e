/**
 Priority donation (src/sync/sleep.rs, src/thread/imp.rs). A thread that waits for a lock
 donates its priority to the holder, and on along the donations already recorded for
 other locks. The pass is taken as one step: the calls to the scheduler inside it are
 left out.
 */
module Donations {
  import opened Options
  import opened Bits
  import opened Schedulers

  const PRI_MAX: nat := 63
  const NO_LOCK: nat := 0xFFFF_FFFF

  datatype Donation =
    Donation(donner: Tid, acceptor: Tid, donnerPriority: nat, prevPriority: nat, isDonner: bool, lockid: nat)

  type Queues = map<Tid, seq<Donation>>

  /** The recorded donations a pass for `lock` follows: those made for other locks. */
  predicate Forwards(d: Donation, lock: nat) {
    d.isDonner && d.lockid != lock
  }

  ghost function Edges(q: Queues, lock: nat): set<(Tid, Tid)> {
    set u, i: nat | u in q && i < |q[u]| && Forwards(q[u][i], lock) :: (u, q[u][i].acceptor)
  }

  // ---- Paths ----

  ghost predicate IsPath(e: set<(Tid, Tid)>, p: seq<Tid>, u: Tid, t: Tid) {
    p != [] && p[0] == u && p[|p| - 1] == t && forall i :: 0 <= i < |p| - 1 ==> (p[i], p[i + 1]) in e
  }

  ghost predicate Reach(e: set<(Tid, Tid)>, u: Tid, t: Tid) {
    exists p :: IsPath(e, p, u, t)
  }

  lemma ReachSelf(e: set<(Tid, Tid)>, u: Tid)
    ensures Reach(e, u, u)
  {
    assert IsPath(e, [u], u, u);
  }

  lemma {:induction false} ReachTrans(e: set<(Tid, Tid)>, u: Tid, v: Tid, t: Tid)
    requires Reach(e, u, v) && Reach(e, v, t)
    ensures Reach(e, u, t)
  {
    var p :| IsPath(e, p, u, v);
    var r :| IsPath(e, r, v, t);
    var w := p + r[1..];
    forall i | 0 <= i < |w| - 1 ensures (w[i], w[i + 1]) in e {
      if i >= |p| - 1 {
        assert w[i] == r[i - (|p| - 1)] && w[i + 1] == r[i + 1 - (|p| - 1)];
      }
    }
    assert IsPath(e, w, u, t);
  }

  lemma {:induction false} ReachEdge(e: set<(Tid, Tid)>, u: Tid, v: Tid)
    requires (u, v) in e
    ensures Reach(e, u, v)
  {
    assert IsPath(e, [u, v], u, v);
  }

  /** A path is empty or begins with an edge. */
  lemma {:induction false} ReachFirst(e: set<(Tid, Tid)>, u: Tid, t: Tid) returns (v: Tid)
    requires Reach(e, u, t) && u != t
    ensures (u, v) in e && Reach(e, v, t)
  {
    var p :| IsPath(e, p, u, t);
    v := p[1];
    assert (p[0], p[1]) in e;
    var r := p[1..];
    forall i | 0 <= i < |r| - 1 ensures (r[i], r[i + 1]) in e {
      assert (p[i + 1], p[i + 2]) in e;
    }
    assert IsPath(e, r, v, t);
  }

  function Rank(rank: map<Tid, nat>, t: Tid): nat {
    if t in rank then rank[t] else 0
  }

  ghost predicate Descends(e: set<(Tid, Tid)>, rank: map<Tid, nat>) {
    forall u, v :: (u, v) in e ==> Rank(rank, v) < Rank(rank, u)
  }

  lemma {:induction false} PathDescends(e: set<(Tid, Tid)>, rank: map<Tid, nat>, p: seq<Tid>, u: Tid, t: Tid)
    requires Descends(e, rank) && IsPath(e, p, u, t)
    ensures Rank(rank, t) <= Rank(rank, u) && (|p| > 1 ==> Rank(rank, t) < Rank(rank, u))
    decreases |p|
  {
    if |p| > 1 {
      assert (p[0], p[1]) in e;
      var r := p[1..];
      forall i | 0 <= i < |r| - 1 ensures (r[i], r[i + 1]) in e {
        assert (p[i + 1], p[i + 2]) in e;
      }
      PathDescends(e, rank, r, p[1], t);
    }
  }

  lemma {:induction false} ReachDescends(e: set<(Tid, Tid)>, rank: map<Tid, nat>, u: Tid, t: Tid)
    requires Descends(e, rank) && Reach(e, u, t)
    ensures Rank(rank, t) <= Rank(rank, u) && (u != t ==> Rank(rank, t) < Rank(rank, u))
  {
    var p :| IsPath(e, p, u, t);
    PathDescends(e, rank, p, u, t);
  }

  /** No thread is reachable from one of its successors. */
  ghost predicate Acyclic(e: set<(Tid, Tid)>) {
    forall u, v :: (u, v) in e ==> !Reach(e, v, u)
  }

  ghost function Ends(e: set<(Tid, Tid)>): set<Tid> {
    (set p | p in e :: p.0) + (set p | p in e :: p.1)
  }

  ghost function ReachedFrom(e: set<(Tid, Tid)>, t: Tid): set<Tid> {
    set x | x in Ends(e) && Reach(e, t, x)
  }

  /** Ranking each thread by how many it reaches. */
  ghost function ReachRank(e: set<(Tid, Tid)>): map<Tid, nat> {
    map t | t in Ends(e) :: |ReachedFrom(e, t)|
  }

  /** Edges without a cycle can be ranked so that every edge descends, and only those. */
  lemma {:induction false} AcyclicDescends(e: set<(Tid, Tid)>)
    requires Acyclic(e)
    ensures Descends(e, ReachRank(e))
  {
    forall u, v | (u, v) in e ensures Rank(ReachRank(e), v) < Rank(ReachRank(e), u) {
      EdgeEnds(e, u, v);
      ReachSelf(e, u);
      ReachEdge(e, u, v);
      forall x | x in ReachedFrom(e, v) ensures x in ReachedFrom(e, u) {
        ReachTrans(e, u, v, x);
      }
      assert u in ReachedFrom(e, u) && u !in ReachedFrom(e, v);
      SmallerSubset(ReachedFrom(e, v), ReachedFrom(e, u), u);
    }
  }

  lemma {:induction false} DescendsAcyclic(e: set<(Tid, Tid)>, rank: map<Tid, nat>)
    requires Descends(e, rank)
    ensures Acyclic(e)
  {
    forall u, v | (u, v) in e ensures !Reach(e, v, u) {
      if Reach(e, v, u) {
        ReachDescends(e, rank, v, u);
      }
    }
  }

  lemma EdgeEnds(e: set<(Tid, Tid)>, u: Tid, v: Tid)
    requires (u, v) in e
    ensures u in Ends(e) && v in Ends(e)
  {
    var p := (u, v);
    assert p.0 == u && p.1 == v;
  }

  lemma SmallerSubset(a: set<Tid>, b: set<Tid>, x: Tid)
    requires a <= b && x in b && x !in a
    ensures |a| < |b|
  {
    var rest := b - a;
    assert x in rest;
    assert b == a + rest;
  }

  // ---- What a pass does to the priorities ----

  type Priorities = map<Tid, nat>

  ghost predicate Raises(pri: Priorities, pri': Priorities) {
    pri'.Keys == pri.Keys && forall t :: t in pri ==> pri[t] <= pri'[t]
  }

  /** Only threads reachable from w have a new priority. */
  ghost predicate ChangesBelow(e: set<(Tid, Tid)>, pri: Priorities, pri': Priorities, w: Tid) {
    forall t :: t in pri && t in pri' && pri'[t] != pri[t] ==> Reach(e, w, t)
  }

  /** Below w no edge leads to a lower priority. */
  ghost predicate Closed(e: set<(Tid, Tid)>, pri: Priorities, w: Tid) {
    forall x, y :: Reach(e, w, x) && (x, y) in e && x in pri && y in pri ==> pri[x] <= pri[y]
  }

  /** Every new priority is the old one of a thread on a path from w. */
  ghost predicate Inherited(e: set<(Tid, Tid)>, pri: Priorities, pri': Priorities, w: Tid) {
    forall t :: t in pri && t in pri' && pri'[t] != pri[t] ==> FromAbove(e, pri, w, t, pri'[t])
  }

  ghost predicate FromAbove(e: set<(Tid, Tid)>, pri: Priorities, w: Tid, t: Tid, p: nat) {
    exists x :: x in pri && Reach(e, w, x) && Reach(e, x, t) && pri[x] == p
  }

  /** A complete pass from w. */
  ghost predicate Passed(e: set<(Tid, Tid)>, pri: Priorities, pri': Priorities, w: Tid) {
    Raises(pri, pri') && ChangesBelow(e, pri, pri', w) && Closed(e, pri', w) && Inherited(e, pri, pri', w)
  }

  /** Raising things below w, with w closed afterwards, keeps v closed. */
  lemma {:induction false} StaysClosed(e: set<(Tid, Tid)>, pri: Priorities, pri': Priorities, w: Tid, v: Tid)
    requires Raises(pri, pri') && ChangesBelow(e, pri, pri', w) && Closed(e, pri', w) && Closed(e, pri, v)
    ensures Closed(e, pri', v)
  {
    forall x, y | Reach(e, v, x) && (x, y) in e && x in pri' && y in pri' ensures pri'[x] <= pri'[y] {
      if !Reach(e, w, x) {
        assert pri'[x] == pri[x];
      }
    }
  }

  /** A pass from u that has dealt with the successors in `done` so far. */
  ghost predicate PartlyPassed(e: set<(Tid, Tid)>, pri: Priorities, pri': Priorities, u: Tid, done: set<Tid>) {
    && Raises(pri, pri') && ChangesBelow(e, pri, pri', u) && Inherited(e, pri, pri', u)
    && u in pri && pri'[u] == pri[u]
    && forall v :: v in done ==> v in pri && Closed(e, pri', v) && pri'[u] <= pri'[v]
  }

  /** Donating to one more successor w and passing on from there. */
  lemma {:induction false} OneMoreSuccessor(e: set<(Tid, Tid)>, rank: map<Tid, nat>, pri: Priorities, now: Priorities,
                                            u: Tid, done: set<Tid>,
                                            w: Tid, given: Priorities, after: Priorities)
    requires Descends(e, rank) && PartlyPassed(e, pri, now, u, done) && (u, w) in e && w in pri
    requires given == now[w := Max(now[u], now[w])] && Passed(e, given, after, w)
    ensures PartlyPassed(e, pri, after, u, done + {w})
  {
    ReachEdge(e, u, w);
    ReachSelf(e, w);
    assert !Reach(e, w, u) by {
      if Reach(e, w, u) {
        ReachDescends(e, rank, w, u);
      }
    }
    BelowSuccessor(e, pri, now, u, w, given, after);
    InheritedOn(e, pri, now, u, w, given, after);
    assert Raises(now, after) && ChangesBelow(e, now, after, w);
    forall v | v in done ensures Closed(e, after, v) {
      StaysClosed(e, now, after, w, v);
    }
  }

  lemma {:induction false} BelowSuccessor(e: set<(Tid, Tid)>, pri: Priorities, now: Priorities, u: Tid, w: Tid,
                                          given: Priorities, after: Priorities)
    requires Raises(pri, now) && ChangesBelow(e, pri, now, u) && Reach(e, u, w) && Reach(e, w, w) && u in pri
    requires w in pri
    requires given == now[w := Max(now[u], now[w])] && Raises(given, after) && ChangesBelow(e, given, after, w)
    ensures Raises(pri, after) && ChangesBelow(e, pri, after, u) && Raises(now, after) && ChangesBelow(e, now, after, w)
  {
    forall t | t in now && t in after && after[t] != now[t] ensures Reach(e, w, t) {
      assert t != w ==> given[t] == now[t];
    }
    forall t | t in pri && t in after && after[t] != pri[t] ensures Reach(e, u, t) {
      if after[t] != now[t] {
        ReachTrans(e, u, w, t);
      }
    }
  }

  lemma {:induction false} InheritedOn(e: set<(Tid, Tid)>, pri: Priorities, now: Priorities, u: Tid, w: Tid,
                                       given: Priorities, after: Priorities)
    requires Raises(pri, now) && Inherited(e, pri, now, u) && Reach(e, u, w) && u in pri && w in pri && now[u] == pri[u]
    requires given == now[w := Max(now[u], now[w])] && Raises(given, after) && Inherited(e, given, after, w)
    ensures Inherited(e, pri, after, u)
  {
    forall t | t in pri && t in after && after[t] != pri[t] ensures FromAbove(e, pri, u, t, after[t]) {
      var x := t;
      if after[t] != given[t] {
        x :| x in given && Reach(e, w, x) && Reach(e, x, t) && given[x] == after[t];
        ReachTrans(e, u, w, x);
      } else {
        ReachSelf(e, t);
      }
      assert given[x] == after[t] && Reach(e, x, t);
      if given[x] == pri[x] {
        assert FromAbove(e, pri, u, t, after[t]);
      } else if x == w && given[w] == now[u] {
        ReachSelf(e, u);
        ReachTrans(e, u, w, t);
        assert pri[u] == after[t];
      } else {
        assert now[x] == given[x] && FromAbove(e, pri, u, x, now[x]);
        var y :| y in pri && Reach(e, u, y) && Reach(e, y, x) && pri[y] == now[x];
        ReachTrans(e, y, x, t);
      }
    }
  }

  lemma {:induction false} AllSuccessorsDone(e: set<(Tid, Tid)>, pri: Priorities, now: Priorities, u: Tid,
                                             done: set<Tid>)
    requires PartlyPassed(e, pri, now, u, done) && forall v :: (u, v) in e ==> v in done
    ensures Passed(e, pri, now, u)
  {
    forall x, y | Reach(e, u, x) && (x, y) in e && x in now && y in now ensures now[x] <= now[y] {
      if x != u {
        var v := ReachFirst(e, u, x);
        assert Closed(e, now, v);
      }
    }
  }

  // ---- The theorem ----

  /** Priorities never fall along a path below w. */
  lemma {:induction false} ClosedAlongPath(e: set<(Tid, Tid)>, pri: Priorities, w: Tid, x: Tid, t: Tid, p: seq<Tid>)
    requires Closed(e, pri, w) && Reach(e, w, x) && IsPath(e, p, x, t) && (forall i :: 0 <= i < |p| ==> p[i] in pri)
    ensures pri[x] <= pri[t]
    decreases |p|
  {
    if |p| > 1 {
      assert (p[0], p[1]) in e;
      var r := p[1..];
      forall i | 0 <= i < |r| - 1 ensures (r[i], r[i + 1]) in e {
        assert (p[i + 1], p[i + 2]) in e;
      }
      ReachEdge(e, x, p[1]);
      ReachTrans(e, w, x, p[1]);
      ClosedAlongPath(e, pri, w, p[1], t, r);
    }
  }

  ghost predicate EdgesKnown(e: set<(Tid, Tid)>, pri: Priorities) {
    forall u, v :: (u, v) in e ==> u in pri && v in pri
  }

  lemma {:induction false} ReachedAtLeast(e: set<(Tid, Tid)>, pri: Priorities, w: Tid, x: Tid, t: Tid)
    requires Closed(e, pri, w) && EdgesKnown(e, pri) && w in pri && x in pri && Reach(e, w, x) && Reach(e, x, t)
    ensures t in pri && pri[x] <= pri[t]
  {
    var p :| IsPath(e, p, x, t);
    forall i | 0 <= i < |p| ensures p[i] in pri {
      if i > 0 {
        assert (p[i - 1], p[i]) in e;
      }
    }
    ClosedAlongPath(e, pri, w, x, t, p);
  }

  /** p is the maximum of the old priorities of the acquirer and of the threads on the holder's paths to t. */
  ghost predicate IsPathMaximum(e: set<(Tid, Tid)>, pri: Priorities, acquirer: Tid, holder: Tid, t: Tid, p: nat) {
    && acquirer in pri && pri[acquirer] <= p
    && (forall x :: x in pri && Reach(e, holder, x) && Reach(e, x, t) ==> pri[x] <= p)
    && (pri[acquirer] == p || FromAbove(e, pri, holder, t, p))
  }

  /**
   The donation pass of an acquire: every thread reached ends up with the maximum of the
   old priorities on the recorded paths that lead to it, and nobody else changes.
   */
  lemma {:induction false} PassMaximum(e: set<(Tid, Tid)>, pri: Priorities, acquirer: Tid, holder: Tid,
                                       given: Priorities, after: Priorities, t: Tid)
    requires EdgesKnown(e, pri) && acquirer in pri && holder in pri && t in pri
    requires given == pri[holder := Max(pri[acquirer], pri[holder])] && Passed(e, given, after, holder)
    ensures Reach(e, holder, t) ==> IsPathMaximum(e, pri, acquirer, holder, t, after[t])
    ensures !Reach(e, holder, t) ==> after[t] == pri[t]
  {
    ReachSelf(e, holder);
    if Reach(e, holder, t) {
      ReachedAtLeast(e, after, holder, holder, t);
      forall x | x in pri && Reach(e, holder, x) && Reach(e, x, t) ensures pri[x] <= after[t] {
        ReachedAtLeast(e, after, holder, x, t);
      }
      ReachSelf(e, t);
      var x := t;
      if after[t] != given[t] {
        x :| x in given && Reach(e, holder, x) && Reach(e, x, t) && given[x] == after[t];
      }
      assert given[x] == after[t] && (given[x] == pri[x] || pri[acquirer] == after[t]);
    }
  }

  // ---- The bookkeeping ----

  predicate EntryOk(d: Donation, threads: set<Tid>) {
    d.donner in threads && d.acceptor in threads && d.donnerPriority <= PRI_MAX && d.prevPriority <= PRI_MAX
  }

  predicate QueueEntriesOk(s: seq<Donation>, threads: set<Tid>) {
    forall i :: 0 <= i < |s| ==> EntryOk(s[i], threads)
  }

  /** Recording a donation for `lock` adds no edge that a pass for `lock` would follow. */
  /** An edge is an entry of the donor's own, for another lock, that names the acceptor. */
  lemma EdgesMean(q: Queues, lock: nat, u: Tid, v: Tid)
    ensures (u, v) in Edges(q, lock) <==>
            u in q && exists d :: d in q[u] && d.isDonner && d.lockid != lock && d.acceptor == v
  {
  }

  lemma {:induction false} SameLockNoEdge(q: Queues, lock: nat, t: Tid, d: Donation)
    requires t in q && d.lockid == lock
    ensures Edges(q[t := q[t] + [d]], lock) == Edges(q, lock)
  {
    var q' := q[t := q[t] + [d]];
    forall u, v ensures (u, v) in Edges(q', lock) <==> (u, v) in Edges(q, lock) {
      if (u, v) in Edges(q, lock) {
        var i: nat :| u in q && i < |q[u]| && Forwards(q[u][i], lock) && q[u][i].acceptor == v;
        assert q'[u][i] == q[u][i];
      }
      if (u, v) in Edges(q', lock) {
        var i: nat :| u in q' && i < |q'[u]| && Forwards(q'[u][i], lock) && q'[u][i].acceptor == v;
        assert q'[u][i] == q[u][i];
      }
    }
  }

  function Retain(s: seq<Donation>, keep: Donation -> bool): seq<Donation> {
    if s == [] then [] else if keep(s[0]) then [s[0]] + Retain(s[1..], keep) else Retain(s[1..], keep)
  }

  lemma {:induction false} RetainOk(s: seq<Donation>, keep: Donation -> bool, threads: set<Tid>)
    requires QueueEntriesOk(s, threads)
    ensures QueueEntriesOk(Retain(s, keep), threads)
    ensures forall d :: d in Retain(s, keep) <==> d in s && keep(d)
  {
    if s != [] {
      RetainOk(s[1..], keep, threads);
    }
  }

  /** The first entry recorded for the lock. */
  function FirstFor(s: seq<Donation>, lock: nat): Option<Donation> {
    if s == [] then None else if s[0].lockid == lock then Some(s[0]) else FirstFor(s[1..], lock)
  }

  /** r is the first entry of s for the lock, or none if there is none. */
  ghost predicate IsFirstFor(s: seq<Donation>, lock: nat, r: Option<Donation>) {
    match r
    case None => forall i :: 0 <= i < |s| ==> s[i].lockid != lock
    case Some(d) =>
      d.lockid == lock && exists i :: 0 <= i < |s| && s[i] == d && forall j :: 0 <= j < i ==> s[j].lockid != lock
  }

  lemma {:induction false} FirstForExact(s: seq<Donation>, lock: nat)
    ensures IsFirstFor(s, lock, FirstFor(s, lock))
  {
    if s != [] && s[0].lockid != lock {
      var rest := s[1..];
      FirstForExact(rest, lock);
      if FirstFor(rest, lock).Some? {
        var d := FirstFor(rest, lock).value;
        var i :| 0 <= i < |rest| && rest[i] == d && forall j :: 0 <= j < i ==> rest[j].lockid != lock;
        assert s[i + 1] == d;
        forall j | 0 <= j < i + 1 ensures s[j].lockid != lock {
          if j > 0 {
            assert rest[j - 1].lockid != lock;
          }
        }
      } else {
        forall i | 0 <= i < |s| ensures s[i].lockid != lock {
          if i > 0 {
            assert rest[i - 1].lockid != lock;
          }
        }
      }
    }
  }

  lemma {:induction false} FirstForOk(s: seq<Donation>, lock: nat, threads: set<Tid>)
    requires QueueEntriesOk(s, threads)
    ensures FirstFor(s, lock).Some? ==> EntryOk(FirstFor(s, lock).value, threads) && FirstFor(s, lock).value in s
    ensures FirstFor(s, lock) == None <==> forall d :: d in s ==> d.lockid != lock
  {
    if s != [] {
      FirstForOk(s[1..], lock, threads);
    }
  }

  lemma {:induction false} TempEntries(q: Queues, u: Tid, lock: nat, threads: set<Tid>)
    requires u in q && QueueEntriesOk(q[u], threads)
    ensures forall i :: 0 <= i < |q[u]| && Forwards(q[u][i], lock) ==>
              (u, q[u][i].acceptor) in Edges(q, lock) && q[u][i].acceptor in threads
    ensures forall v :: (u, v) in Edges(q, lock) ==>
              exists i :: 0 <= i < |q[u]| && Forwards(q[u][i], lock) && q[u][i].acceptor == v
  {
  }

  lemma NothingPassed(e: set<(Tid, Tid)>, pri: Priorities, u: Tid)
    requires u in pri
    ensures PartlyPassed(e, pri, pri, u, {})
  {
  }

  lemma SameThreads(e: set<(Tid, Tid)>, pri: Priorities, pri': Priorities, w: Tid)
    requires Passed(e, pri, pri', w)
    ensures pri'.Keys == pri.Keys
  {
  }

  lemma KnownEdges(q: Queues, lock: nat, pri: Priorities)
    requires q.Keys == pri.Keys && forall t :: t in q ==> QueueEntriesOk(q[t], pri.Keys)
    ensures EdgesKnown(Edges(q, lock), pri)
  {
  }

  /** The queues once a donation that raises the acceptor is recorded on both sides. */
  ghost function Recorded(q: Queues, pri: Priorities, donner: Tid, acceptor: Tid, lock: nat): Queues
    requires q.Keys == pri.Keys && donner in pri && acceptor in pri
  {
    if pri[donner] <= pri[acceptor] then q else
      var d := Donation(donner, acceptor, pri[donner], pri[acceptor], true, lock);
      q[donner := q[donner] + [d]][acceptor := q[acceptor] + [d.(isDonner := false)]]
  }

  lemma RecordedOk(q: Queues, pri: Priorities, donner: Tid, acceptor: Tid, lock: nat)
    requires q.Keys == pri.Keys && donner in pri && acceptor in pri && forall t :: t in pri ==> pri[t] <= PRI_MAX
    requires forall t :: t in q ==> QueueEntriesOk(q[t], pri.Keys)
    ensures var r := Recorded(q, pri, donner, acceptor, lock);
            r.Keys == q.Keys && (forall t :: t in r ==> QueueEntriesOk(r[t], pri.Keys))
              && Edges(r, lock) == Edges(q, lock)
  {
    if pri[donner] > pri[acceptor] {
      var d := Donation(donner, acceptor, pri[donner], pri[acceptor], true, lock);
      SameLockNoEdge(q, lock, donner, d);
      SameLockNoEdge(q[donner := q[donner] + [d]], lock, acceptor, d.(isDonner := false));
      hide Edges;
    }
  }

  lemma RecordedQueue(q: Queues, pri: Priorities, donner: Tid, acceptor: Tid, lock: nat)
    requires q.Keys == pri.Keys && donner in pri && acceptor in pri && donner != acceptor
    ensures Recorded(q, pri, donner, acceptor, lock).Keys == q.Keys
    ensures Recorded(q, pri, donner, acceptor, lock)[acceptor] ==
            if pri[donner] > pri[acceptor]
            then q[acceptor] + [Donation(donner, acceptor, pri[donner], pri[acceptor], false, lock)]
            else q[acceptor]
  {
  }

  ghost function WithoutLock(q: Queues, t: Tid, lock: nat): Queues {
    if t in q then q[t := Retain(q[t], (d: Donation) => d.lockid != lock)] else q
  }

  lemma WithoutLockEntries(q: Queues, t: Tid, lock: nat)
    requires t in q
    ensures WithoutLock(q, t, lock).Keys == q.Keys
    ensures forall d :: d in WithoutLock(q, t, lock)[t] <==> d in q[t] && d.lockid != lock
  {
    forall d ensures d in WithoutLock(q, t, lock)[t] <==> d in q[t] && d.lockid != lock {
      RetainMember(q[t], (y: Donation) => y.lockid != lock, d);
    }
  }

  /** The queues once the donor and the current thread forgot what they recorded about each other. */
  ghost function Forgotten(q: Queues, current: Tid, donner: Tid, lock: nat): Queues {
    if current !in q || donner !in q then q else
      var q1 := WithoutLock(q, donner, lock);
      var q2 := q1[current := Retain(q1[current], (x: Donation) => x.donner != donner)];
      q2[donner := Retain(q2[donner], (x: Donation) => x.acceptor != current)]
  }

  /** Exactly the entries that tie the two to each other, or the donor to the lock, are gone. */
  lemma ForgottenEntries(q: Queues, current: Tid, donner: Tid, lock: nat, x: Donation)
    requires current in q && donner in q && current != donner
    ensures var f := Forgotten(q, current, donner, lock);
            && f.Keys == q.Keys && (forall t :: t in q && t != current && t != donner ==> f[t] == q[t])
            && (x in f[current] <==> x in q[current] && x.donner != donner)
            && (x in f[donner] <==> x in q[donner] && x.lockid != lock && x.acceptor != current)
  {
    var q1 := WithoutLock(q, donner, lock);
    var q2 := q1[current := Retain(q1[current], (y: Donation) => y.donner != donner)];
    RetainMember(q[donner], (y: Donation) => y.lockid != lock, x);
    RetainMember(q1[current], (y: Donation) => y.donner != donner, x);
    RetainMember(q2[donner], (y: Donation) => y.acceptor != current, x);
  }

  lemma {:induction false} RetainMember(s: seq<Donation>, keep: Donation -> bool, x: Donation)
    ensures x in Retain(s, keep) <==> x in s && keep(x)
  {
    if s != [] {
      RetainMember(s[1..], keep, x);
      assert s == [s[0]] + s[1..];
    }
  }

  /** The queues after the current thread released `lock`, for which r is its first entry. */
  ghost predicate QueuesReleased(q: Queues, q': Queues, current: Tid, lock: nat, r: Option<Donation>)
    requires current in q
  {
    && q'.Keys == q.Keys
    && match r
       case None => q' == q
       case Some(d) =>
         && (forall t :: t in q && t != current && t != d.donner ==> q'[t] == q[t])
         && (forall x :: x in q'[current] <==> x in q[current] && x.lockid != lock && x.donner != d.donner
                                               && (d.donner == current ==> x.acceptor != current))
         && (d.donner in q && d.donner != current ==>
               forall x :: x in q'[d.donner] <==> x in q[d.donner] && x.lockid != lock && x.acceptor != current)
  }

  lemma {:induction false} ReleasedNothing(q: Queues, current: Tid, lock: nat)
    requires current in q && IsFirstFor(q[current], lock, None)
    ensures QueuesReleased(q, WithoutLock(q, current, lock), current, lock, None)
  {
    RetainAll(q[current], (d: Donation) => d.lockid != lock);
  }

  lemma {:induction false} RetainAll(s: seq<Donation>, keep: Donation -> bool)
    requires forall i :: 0 <= i < |s| ==> keep(s[i])
    ensures Retain(s, keep) == s
  {
    if s != [] {
      assert keep(s[0]);
      RetainAll(s[1..], keep);
    }
  }

  lemma {:induction false} ReleasedEntries(q: Queues, current: Tid, lock: nat, d: Donation)
    requires current in q && d.donner in q
    ensures QueuesReleased(q, Forgotten(WithoutLock(q, current, lock), current, d.donner, lock), current, lock, Some(d))
  {
    var q0 := WithoutLock(q, current, lock);
    var q1 := WithoutLock(q0, d.donner, lock);
    var q2 := q1[current := Retain(q1[current], (y: Donation) => y.donner != d.donner)];
    forall x
      ensures x in q0[current] <==> x in q[current] && x.lockid != lock
      ensures x in q1[d.donner] <==> x in q0[d.donner] && x.lockid != lock
      ensures x in q2[current] <==> x in q1[current] && x.donner != d.donner
      ensures x in Retain(q2[d.donner], (y: Donation) => y.acceptor != current) <==>
              x in q2[d.donner] && x.acceptor != current
    {
      RetainMember(q[current], (y: Donation) => y.lockid != lock, x);
      RetainMember(q0[d.donner], (y: Donation) => y.lockid != lock, x);
      RetainMember(q1[current], (y: Donation) => y.donner != d.donner, x);
      RetainMember(q2[d.donner], (y: Donation) => y.acceptor != current, x);
    }
  }

  /** p is the greatest of `start` and the donations recorded in q. */
  ghost predicate IsHighest(q: seq<Donation>, start: nat, p: nat) {
    && start <= p && (forall i :: 0 <= i < |q| ==> q[i].donnerPriority <= p)
    && (p == start || exists i :: 0 <= i < |q| && q[i].donnerPriority == p)
  }

  class Donors {
    var priority: Priorities
    var donationq: Queues
    var prioritySet: map<Tid, nat>            // priorities fixed by set_priority
    var storedPrev: map<Tid, (nat, nat)>      // a lock and the priority to fall back to

    /** Every priority that is in force or recorded is a queue index. */
    ghost predicate Valid()
      reads this
    {
      && donationq.Keys == priority.Keys && storedPrev.Keys == priority.Keys
      && (forall t :: t in priority ==> priority[t] <= PRI_MAX && storedPrev[t].1 <= PRI_MAX)
      && (forall t :: t in donationq ==> QueueEntriesOk(donationq[t], priority.Keys))
      && (forall t :: t in prioritySet ==> prioritySet[t] <= PRI_MAX)
    }

    lemma Domains()
      requires Valid()
      ensures donationq.Keys == priority.Keys == storedPrev.Keys
    {
    }

    constructor ()
      ensures Valid() && priority == map[]
    {
      priority, donationq, prioritySet, storedPrev := map[], map[], map[], map[];
    }

    method AddThread(t: Tid, p: nat)
      requires Valid() && t !in priority && p <= PRI_MAX
      modifies this
      ensures Valid() && priority == old(priority)[t := p] && donationq == old(donationq)[t := []]
      ensures storedPrev == old(storedPrev)[t := (NO_LOCK, 0)] && prioritySet == old(prioritySet)
    {
      priority := priority[t := p];
      donationq := donationq[t := []];
      storedPrev := storedPrev[t := (NO_LOCK, 0)];
    }

    /** `donation_wrapped`: the acceptor never ends up below the donor. */
    method DonationWrapped(donner: Tid, acceptor: Tid, lock: nat)
      requires Valid() && donner in priority && acceptor in priority
      modifies `priority, `donationq
      ensures Valid() && priority == old(priority)[acceptor := Max(old(priority)[donner], old(priority)[acceptor])]
      ensures Edges(donationq, lock) == Edges(old(donationq), lock)
      ensures donationq == Recorded(old(donationq), old(priority), donner, acceptor, lock)
    {
      hide Edges, QueueEntriesOk;
      RecordedOk(donationq, priority, donner, acceptor, lock);
      var current, holder := priority[donner], priority[acceptor];
      if current > holder {
        StorePriority(acceptor, current);
        var d := Donation(donner, acceptor, current, holder, true, lock);
        donationq := donationq[donner := donationq[donner] + [d]];
        donationq := donationq[acceptor := donationq[acceptor] + [d.(isDonner := false)]];
      }
    }

    /** `find_and_donate`: pass the priority of `donner` on along its recorded donations. */
    method FindAndDonate(donner: Tid, lock: nat, ghost rank: map<Tid, nat>)
      requires Valid() && donner in priority && Descends(Edges(donationq, lock), rank)
      modifies `priority, `donationq
      ensures Valid() && Edges(donationq, lock) == Edges(old(donationq), lock)
      ensures Passed(Edges(old(donationq), lock), old(priority), priority, donner)
      decreases Rank(rank, donner)
    {
      hide Edges, Passed, PartlyPassed, QueueEntriesOk;
      ghost var e, done: set<Tid> := Edges(donationq, lock), {};
      var temp := donationq[donner];
      TempEntries(donationq, donner, lock, priority.Keys);
      NothingPassed(e, priority, donner);
      var k := 0;
      while k < |temp|
        invariant 0 <= k <= |temp| && Valid() && Edges(donationq, lock) == e && priority.Keys == old(priority.Keys)
        invariant PartlyPassed(e, old(priority), priority, donner, done)
        invariant forall i :: 0 <= i < k && Forwards(temp[i], lock) ==> temp[i].acceptor in done
      {
        var d := temp[k];
        if d.isDonner && d.lockid != lock {
          ghost var before := priority;
          DonationWrapped(donner, d.acceptor, lock);
          ghost var given := priority;
          FindAndDonate(d.acceptor, lock, rank);
          OneMoreSuccessor(e, rank, old(priority), before, donner, done, d.acceptor, given, priority);
          done := done + {d.acceptor};
        }
        k := k + 1;
      }
      AllSuccessorsDone(e, old(priority), priority, donner, done);
    }

    /**
     The donation pass of `acquire` by `acquirer` of a lock that `holder` holds: each thread
     reached gets the maximum of the old priorities on the recorded paths to it.
     */
    method AcquirePass(acquirer: Tid, holder: Tid, lock: nat)
      requires Valid() && acquirer in priority && holder in priority && Acyclic(Edges(donationq, lock))
      modifies `priority, `donationq
      ensures Valid() && priority.Keys == old(priority.Keys)
      ensures forall t :: t in priority ==>
                if Reach(Edges(old(donationq), lock), holder, t)
                then IsPathMaximum(Edges(old(donationq), lock), old(priority), acquirer, holder, t, priority[t])
                else priority[t] == old(priority)[t]
    {
      hide Edges, Passed, QueueEntriesOk, Reach, IsPathMaximum, Descends, ReachRank, Acyclic;
      KnownEdges(donationq, lock, priority);
      AcyclicDescends(Edges(donationq, lock));
      ghost var rank := ReachRank(Edges(donationq, lock));
      DonationWrapped(acquirer, holder, lock);
      ghost var given := priority;
      FindAndDonate(holder, lock, rank);
      SameThreads(Edges(old(donationq), lock), given, priority, holder);
      forall t | t in priority
        ensures if Reach(Edges(old(donationq), lock), holder, t)
                then IsPathMaximum(Edges(old(donationq), lock), old(priority), acquirer, holder, t, priority[t])
                else priority[t] == old(priority)[t]
      {
        PassMaximum(Edges(old(donationq), lock), old(priority), acquirer, holder, given, priority, t);
      }
    }

    /** `delete_donation`: the first entry for the lock, and the queue without all of them. */
    method DeleteDonation(t: Tid, lock: nat) returns (r: Option<Donation>)
      requires Valid() && t in priority
      modifies `donationq
      ensures Valid() && r == FirstFor(old(donationq)[t], lock) && donationq == WithoutLock(old(donationq), t, lock)
      ensures IsFirstFor(old(donationq)[t], lock, r)
      ensures forall d :: d in donationq[t] <==> d in old(donationq)[t] && d.lockid != lock
    {
      FirstForExact(donationq[t], lock);
      WithoutLockEntries(donationq, t, lock);
      r := FirstFor(donationq[t], lock);
      Prune(t, (d: Donation) => d.lockid != lock);
    }

    method Prune(t: Tid, keep: Donation -> bool)
      requires Valid() && t in priority
      modifies `donationq
      ensures Valid() && donationq == old(donationq)[t := Retain(old(donationq)[t], keep)]
    {
      RetainOk(donationq[t], keep, priority.Keys);
      donationq := donationq[t := Retain(donationq[t], keep)];
    }

    /** The greatest of `start` and the donations still recorded for t. */
    method Highest(t: Tid, start: nat) returns (p: nat)
      requires Valid() && t in priority && start <= PRI_MAX
      ensures p <= PRI_MAX && IsHighest(donationq[t], start, p)
    {
      p := start;
      var k := 0;
      while k < |donationq[t]|
        invariant 0 <= k <= |donationq[t]| && start <= p <= PRI_MAX
        invariant forall i :: 0 <= i < k ==> donationq[t][i].donnerPriority <= p
        invariant p == start || exists i :: 0 <= i < k && donationq[t][i].donnerPriority == p
      {
        assert EntryOk(donationq[t][k], priority.Keys);
        p := Max(p, donationq[t][k].donnerPriority);
        k := k + 1;
      }
    }

    /**
     What `release` of `lock` does to the priority of the current thread: donations made
     for the lock are forgotten, the rest still counts, and a priority that was set wins.
     */
    method ReleasePriority(current: Tid, lock: nat) returns (ghost r: Option<Donation>)
      requires Valid() && current in priority
      modifies this
      ensures Valid() && priority.Keys == old(priority.Keys) && prioritySet == old(prioritySet)
      ensures forall t :: t in priority && t != current ==> priority[t] == old(priority)[t]
      ensures IsFirstFor(old(donationq)[current], lock, r)
      ensures QueuesReleased(old(donationq), donationq, current, lock, r)
      ensures r == None || old(storedPrev)[current].0 <= lock ==> storedPrev == old(storedPrev)
      ensures r.Some? && old(storedPrev)[current].0 > lock ==>
                storedPrev == old(storedPrev)[current := (lock, r.value.prevPriority)]
      ensures current in prioritySet ==> priority[current] == prioritySet[current]
      ensures current !in prioritySet && r == None ==> priority == old(priority)
      ensures current !in prioritySet && r.Some? ==>
                IsHighest(donationq[current], storedPrev[current].1, priority[current])
    {
      hide QueueEntriesOk, IsHighest, QueuesReleased, IsFirstFor;
      r := Undonate(current, lock);
      if current in prioritySet {
        StorePriority(current, prioritySet[current]);
      }
    }

    method StorePriority(t: Tid, p: nat)
      requires Valid() && t in priority && p <= PRI_MAX
      modifies `priority
      ensures Valid() && priority == old(priority)[t := p]
    {
      hide QueueEntriesOk;
      priority := priority[t := p];
      assert priority.Keys == old(priority.Keys);
    }

    /** Forgets the donations made for `lock`; without one the priority stays. */
    method Undonate(current: Tid, lock: nat) returns (ret: Option<Donation>)
      requires Valid() && current in priority
      modifies `priority, `donationq, `storedPrev
      ensures Valid() && current in priority && priority == old(priority)[current := priority[current]]
      ensures IsFirstFor(old(donationq)[current], lock, ret)
      ensures QueuesReleased(old(donationq), donationq, current, lock, ret)
      ensures ret == None || old(storedPrev)[current].0 <= lock ==> storedPrev == old(storedPrev)
      ensures ret.Some? && old(storedPrev)[current].0 > lock ==>
                storedPrev == old(storedPrev)[current := (lock, ret.value.prevPriority)]
      ensures ret == None ==> priority == old(priority)
      ensures ret.Some? ==> IsHighest(donationq[current], storedPrev[current].1, priority[current])
    {
      hide QueueEntriesOk, Retain, FirstFor, IsHighest, WithoutLock, Forgotten, QueuesReleased, IsFirstFor;
      FirstForOk(donationq[current], lock, priority.Keys);
      WithoutLockEntries(donationq, current, lock);
      ret := DeleteDonation(current, lock);
      if ret.Some? {
        ReleasedEntries(old(donationq), current, lock, ret.value);
        Forget(current, ret.value, lock);
        FallBack(current, ret.value.prevPriority, lock);
      } else {
        ReleasedNothing(old(donationq), current, lock);
      }
    }

    /** The priority left once the donations for `lock` are forgotten. */
    method FallBack(current: Tid, prev: nat, lock: nat)
      requires Valid() && current in priority && prev <= PRI_MAX
      modifies `priority, `storedPrev
      ensures Valid() && current in priority && priority == old(priority)[current := priority[current]]
      ensures storedPrev ==
                if old(storedPrev)[current].0 > lock then old(storedPrev)[current := (lock, prev)] else old(storedPrev)
      ensures IsHighest(donationq[current], storedPrev[current].1, priority[current])
    {
      hide QueueEntriesOk, IsHighest;
      if storedPrev[current].0 > lock {
        storedPrev := storedPrev[current := (lock, prev)];
      }
      assert storedPrev.Keys == old(storedPrev.Keys);
      var p := Highest(current, storedPrev[current].1);
      StorePriority(current, p);
    }

    /** Drops what the donor and the current thread recorded about each other. */
    method Forget(current: Tid, d: Donation, lock: nat)
      requires Valid() && current in priority && EntryOk(d, priority.Keys)
      requires forall x :: x in donationq[current] ==> x.lockid != lock
      modifies `donationq
      ensures Valid() && donationq == Forgotten(old(donationq), current, d.donner, lock)
      ensures forall x :: x in donationq[current] ==> x.lockid != lock
    {
      var donner := d.donner;
      var gone := DeleteDonation(donner, lock);
      RetainOk(old(donationq)[donner], (x: Donation) => x.lockid != lock, priority.Keys);
      ghost var q := donationq[current];
      Prune(current, (x: Donation) => x.donner != donner);
      RetainOk(q, (x: Donation) => x.donner != donner, priority.Keys);
      q := donationq[donner];
      Prune(donner, (x: Donation) => x.acceptor != current);
      RetainOk(q, (x: Donation) => x.acceptor != current, priority.Keys);
    }

    /** `set_priority`: takes effect at once and is remembered. */
    method SetPriority(current: Tid, p: nat)
      requires Valid() && current in priority && p <= PRI_MAX
      modifies `priority, `prioritySet
      ensures Valid() && priority == old(priority)[current := p] && prioritySet == old(prioritySet)[current := p]
    {
      priority := priority[current := p];
      prioritySet := prioritySet[current := p];
    }

    /** A donation and its release give the holder back exactly the priority it had. */
    method DonateAndRelease(donner: Tid, holder: Tid, lock: nat)
      requires Valid() && donner in priority && holder in priority && donner != holder
      requires donationq[holder] == [] && storedPrev[holder].0 > lock && holder !in prioritySet
      modifies this
      ensures Valid() && priority == old(priority)
    {
      hide Valid, QueuesReleased, IsFirstFor, IsHighest, Edges, Recorded;
      Domains();
      RecordedQueue(donationq, priority, donner, holder, lock);
      ghost var h, p := priority[holder], priority[donner];
      DonationWrapped(donner, holder, lock);
      ghost var q := donationq;
      ghost var e := Donation(donner, holder, p, h, false, lock);
      assert q[holder] == if p > h then [e] else [];
      Domains();
      var r := ReleasePriority(holder, lock);
      Domains();
      if p > h {
        FirstAmong(q[holder], e, lock, r);
        LeftNone(q, donationq, holder, lock, e);
        HighestOfNone(h, priority[holder]);
      } else {
        FirstOfNone(lock, r);
      }
    }

    /**
     Two donations for different locks: releasing the later one leaves the earlier one's
     priority, and releasing that one restores the priority from before both if and only if
     its lock has the smaller number.
     */
    method DonateTwice(d1: Tid, d2: Tid, holder: Tid, a: nat, b: nat) returns (between: nat)
      requires Valid() && d1 in priority && d2 in priority && holder in priority
      requires d1 != d2 && d1 != holder && d2 != holder && a != b
      requires donationq[holder] == [] && holder !in prioritySet
      requires storedPrev[holder].0 > a && storedPrev[holder].0 > b
      requires priority[holder] < priority[d1] < priority[d2]
      modifies this
      ensures Valid() && between == old(priority)[d1] && holder in priority
      ensures priority == old(priority)[holder := priority[holder]]
      ensures priority[holder] == if a < b then old(priority)[holder] else old(priority)[d1]
    {
      hide Valid;
      ghost var h, p1, p2 := priority[holder], priority[d1], priority[d2];
      DonateBoth(d1, d2, holder, a, b);
      Domains();
      between := ReleaseTwo(holder, a, b, Donation(d1, holder, p1, h, false, a),
        Donation(d2, holder, p2, p1, false, b));
      assert priority == old(priority)[holder := priority[holder]];
    }

    method DonateBoth(d1: Tid, d2: Tid, holder: Tid, a: nat, b: nat)
      requires Valid() && d1 in priority && d2 in priority && holder in priority
      requires d1 != d2 && d1 != holder && d2 != holder && donationq[holder] == []
      requires priority[holder] < priority[d1] < priority[d2]
      modifies `priority, `donationq
      ensures Valid() && priority == old(priority)[holder := old(priority)[d2]] && holder in donationq
      ensures donationq[holder] ==
                [Donation(d1, holder, old(priority)[d1], old(priority)[holder], false, a),
                 Donation(d2, holder, old(priority)[d2], old(priority)[d1], false, b)]
    {
      hide Valid, Edges, Recorded;
      Domains();
      RecordedQueue(donationq, priority, d1, holder, a);
      DonationWrapped(d1, holder, a);
      Domains();
      RecordedQueue(donationq, priority, d2, holder, b);
      DonationWrapped(d2, holder, b);
      Domains();
    }

    /** The releases of two locks, in the reverse order of their donations. */
    method ReleaseTwo(holder: Tid, a: nat, b: nat, ghost e1: Donation, ghost e2: Donation) returns (between: nat)
      requires Valid() && holder in priority && holder in donationq && holder in storedPrev
      requires donationq[holder] == [e1, e2] && e2.prevPriority == e1.donnerPriority
      requires e1.lockid == a && e2.lockid == b && a != b
      requires e1.donner != e2.donner && e1.donner != holder && e2.donner != holder
      requires holder !in prioritySet && storedPrev[holder].0 > a && storedPrev[holder].0 > b
      modifies this
      ensures Valid() && between == e1.donnerPriority && holder in priority
      ensures priority.Keys == old(priority.Keys)
      ensures forall t :: t in priority && t != holder ==> priority[t] == old(priority)[t]
      ensures priority[holder] == if a < b then e1.prevPriority else e1.donnerPriority
    {
      hide Valid, QueuesReleased, IsFirstFor, IsHighest;
      Domains();
      ghost var q := donationq;
      var r := ReleasePriority(holder, b);
      Domains();
      FirstAmong(q[holder], e2, b, r);
      LeftOne(q, donationq, holder, b, e2, e1);
      HighestOfOne(donationq[holder], e1, e1.donnerPriority, priority[holder]);
      between := priority[holder];
      q := donationq;
      r := ReleasePriority(holder, a);
      Domains();
      FirstAmong(q[holder], e1, a, r);
      LeftNone(q, donationq, holder, a, e1);
      HighestOfNone(storedPrev[holder].1, priority[holder]);
    }
  }

  // ---- Queues with few entries ----

  lemma FirstAmong(s: seq<Donation>, e: Donation, lock: nat, r: Option<Donation>)
    requires IsFirstFor(s, lock, r) && e in s && e.lockid == lock && forall x :: x in s && x.lockid == lock ==> x == e
    ensures r == Some(e)
  {
  }

  lemma FirstOfNone(lock: nat, r: Option<Donation>)
    requires IsFirstFor([], lock, r)
    ensures r == None
  {
  }

  lemma LeftNone(q: Queues, q': Queues, holder: Tid, lock: nat, e: Donation)
    requires holder in q && QueuesReleased(q, q', holder, lock, Some(e)) && forall x :: x in q[holder] ==> x == e
    requires e.lockid == lock
    ensures q'[holder] == []
  {
    Inhabited(q'[holder]);
  }

  lemma LeftOne(q: Queues, q': Queues, holder: Tid, lock: nat, gone: Donation, e: Donation)
    requires holder in q && QueuesReleased(q, q', holder, lock, Some(gone)) && q[holder] == [e, gone]
    requires gone.lockid == lock != e.lockid && gone.donner != e.donner && gone.donner != holder
    ensures e in q'[holder] && forall x :: x in q'[holder] ==> x == e
  {
  }

  lemma Inhabited(s: seq<Donation>)
    ensures s == [] || exists x :: x in s
  {
    assert s != [] ==> s[0] in s;
  }

  lemma HighestOfNone(start: nat, p: nat)
    requires IsHighest([], start, p)
    ensures p == start
  {
  }

  lemma HighestOfOne(s: seq<Donation>, e: Donation, start: nat, p: nat)
    requires IsHighest(s, start, p) && e.donnerPriority == start && forall x :: x in s ==> x == e
    ensures p == start
  {
    if i :| 0 <= i < |s| && s[i].donnerPriority == p {
      assert s[i] in s;
    }
  }
}
