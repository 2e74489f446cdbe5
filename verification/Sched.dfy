/** The scheduler's data structures (kernel/sched.c, kernel/task.c): a circular doubly linked
    ready queue and a singly linked sleep list threaded through one task table.  Every method
    is the abstract step of the same name. */
module Sched {
  import opened Arith
  import opened SchedModel

  const NULL: int := -1

  // ----- Linked queues.  A task pointer is a slot number; nx and pv are the link fields. -----

  function Succ(q: seq<nat>, i: nat): nat
    requires i < |q|
  {
    if i + 1 < |q| then q[i + 1] else q[0]
  }

  function Pred(q: seq<nat>, i: nat): nat
    requires i < |q|
  {
    if i > 0 then q[i - 1] else q[|q| - 1]
  }

  function Head(q: seq<nat>): int { if q == [] then NULL else q[0] }

  ghost predicate RingAt(nx: seq<int>, pv: seq<int>, q: seq<nat>, i: nat)
    requires i < |q|
  {
    q[i] < |nx| && q[i] < |pv| && nx[q[i]] == Succ(q, i) && pv[q[i]] == Pred(q, i)
  }

  /** q is a ring under the link fields. */
  ghost predicate Ring(nx: seq<int>, pv: seq<int>, q: seq<nat>)
  {
    forall i: nat | i < |q| :: RingAt(nx, pv, q, i)
  }

  ghost predicate ChainAt(nx: seq<int>, q: seq<nat>, i: nat)
    requires i < |q|
  {
    q[i] < |nx| && nx[q[i]] == if i + 1 < |q| then q[i + 1] else NULL
  }

  /** q is a null-terminated list under the next field. */
  ghost predicate Chain(nx: seq<int>, q: seq<nat>)
  {
    forall i: nat | i < |q| :: ChainAt(nx, q, i)
  }

  ghost predicate Apart(ready: seq<nat>, sleeping: seq<nat>)
  {
    Distinct(ready) && Distinct(sleeping) && forall t | t in ready :: t !in sleeping
  }

  ghost predicate AgreeOn(a: seq<int>, b: seq<int>, q: seq<nat>)
  {
    |a| == |b| && forall t | t in q && t < |a| :: a[t] == b[t]
  }

  /** Writing links outside a queue does not disturb it. */
  lemma ChainStays(nx: seq<int>, nx': seq<int>, q: seq<nat>)
    requires Chain(nx, q) && AgreeOn(nx, nx', q)
    ensures Chain(nx', q)
  {
    forall i: nat | i < |q| ensures ChainAt(nx', q, i) {
      assert ChainAt(nx, q, i) && q[i] in q;
    }
  }

  lemma RingStays(nx: seq<int>, pv: seq<int>, nx': seq<int>, pv': seq<int>, q: seq<nat>)
    requires Ring(nx, pv, q) && AgreeOn(nx, nx', q) && AgreeOn(pv, pv', q)
    ensures Ring(nx', pv', q)
  {
    forall i: nat | i < |q| ensures RingAt(nx', pv', q, i) {
      assert RingAt(nx, pv, q, i) && q[i] in q;
    }
  }

  lemma RingEnds(nx: seq<int>, pv: seq<int>, q: seq<nat>)
    requires Ring(nx, pv, q) && q != []
    ensures q[0] < |nx| && q[0] < |pv| && q[|q| - 1] < |nx| && q[|q| - 1] < |pv|
    ensures pv[q[0]] == q[|q| - 1] && nx[q[0]] == Succ(q, 0)
    ensures q[0] in q && q[|q| - 1] in q && Succ(q, 0) in q && Succ(q, 0) < |nx| && Succ(q, 0) < |pv|
  {
    assert RingAt(nx, pv, q, 0) && RingAt(nx, pv, q, |q| - 1);
    assert |q| > 1 ==> RingAt(nx, pv, q, 1);
  }

  lemma ApartPush(ready: seq<nat>, sleeping: seq<nat>, t: nat)
    requires Apart(ready, sleeping) && t !in ready && t !in sleeping
    ensures Apart(ready + [t], sleeping) && Apart(ready, [t] + sleeping)
  {
  }

  /** The pointer writes of rq_push_back on a non-empty ring. */
  lemma PushExtendsRing(nx: seq<int>, pv: seq<int>, q: seq<nat>, t: nat)
    requires Ring(nx, pv, q) && q != [] && Distinct(q) && t !in q && t < |nx| == |pv|
    ensures q[0] < |nx| && q[|q| - 1] < |nx|
    ensures Ring(nx[q[|q| - 1] := t][t := q[0]], pv[t := q[|q| - 1]][q[0] := t], q + [t])
  {
    RingEnds(nx, pv, q);
    var p, nx', pv' := q + [t], nx[q[|q| - 1] := t][t := q[0]], pv[t := q[|q| - 1]][q[0] := t];
    forall i: nat | i < |p| ensures RingAt(nx', pv', p, i) {
      if i < |q| { assert RingAt(nx, pv, q, i) && q[i] in q; }
    }
  }

  /** The pointer writes of rq_remove at the head of a ring of several tasks. */
  lemma RemoveShrinksRing(nx: seq<int>, pv: seq<int>, q: seq<nat>)
    requires Ring(nx, pv, q) && |q| > 1 && Distinct(q) && |nx| == |pv|
    ensures q[0] < |nx| && q[1] < |nx| && q[|q| - 1] < |nx|
    ensures Ring(nx[q[|q| - 1] := q[1]][q[0] := NULL], pv[q[1] := q[|q| - 1]][q[0] := NULL], q[1..])
  {
    RingEnds(nx, pv, q);
    var p, nx', pv' := q[1..], nx[q[|q| - 1] := q[1]][q[0] := NULL], pv[q[1] := q[|q| - 1]][q[0] := NULL];
    forall i: nat | i < |p| ensures RingAt(nx', pv', p, i) {
      assert RingAt(nx, pv, q, i + 1) && p[i] == q[i + 1];
    }
  }

  lemma ApartPop(ready: seq<nat>, sleeping: seq<nat>)
    requires Apart(ready, sleeping) && ready != []
    ensures Apart(ready[1..], sleeping)
    ensures ready[0] !in ready[1..] && ready[0] !in sleeping && ready[0] in ready
    ensures Distinct(ready) && forall t | t in sleeping :: t !in ready
  {
  }

  lemma ApartParts(ready: seq<nat>, sleeping: seq<nat>)
    requires Apart(ready, sleeping)
    ensures Distinct(ready) && Distinct(sleeping)
    ensures (forall t | t in ready :: t !in sleeping) && (forall t | t in sleeping :: t !in ready)
  {
  }

  lemma RingOfOne(nx: seq<int>, pv: seq<int>, t: nat)
    requires t < |nx| && t < |pv| && nx[t] == t && pv[t] == t
    ensures Ring(nx, pv, [t])
  {
  }

  lemma RingOfNone(nx: seq<int>, pv: seq<int>)
    ensures Ring(nx, pv, [])
  {
  }

  lemma RingLonely(nx: seq<int>, pv: seq<int>, q: seq<nat>)
    requires Ring(nx, pv, q) && Distinct(q) && q != [] && q[0] < |nx| && nx[q[0]] == q[0]
    ensures |q| == 1
  {
    assert RingAt(nx, pv, q, 0);
  }

  ghost function Drop(q: seq<nat>, i: nat): seq<nat>
    requires i < |q|
  {
    q[..i] + q[i + 1..]
  }

  lemma DropAt(q: seq<nat>, i: nat)
    requires i < |q| && Distinct(q)
    ensures |Drop(q, i)| == |q| - 1
    ensures forall j | 0 <= j < |q| - 1 :: Drop(q, i)[j] == q[if j < i then j else j + 1]
    ensures q[i] !in Drop(q, i) && forall t | t in Drop(q, i) :: t in q
  {
  }

  function DropLinks(nx: seq<int>, q: seq<nat>, i: nat): seq<int>
    requires i < |q| && q[i] < |nx| && (i > 0 ==> q[i - 1] < |nx|)
  {
    if i > 0 then nx[q[i - 1] := nx[q[i]]] else nx
  }

  /** Writing *pp = t->next drops t from the sleep list. */
  lemma DropFromChain(nx: seq<int>, q: seq<nat>, i: nat)
    requires Chain(nx, q) && Distinct(q) && i < |q|
    ensures q[i] < |nx| && (i > 0 ==> q[i - 1] < |nx|)
    ensures nx[q[i]] == if i + 1 < |q| then q[i + 1] else NULL
    ensures Chain(DropLinks(nx, q, i), Drop(q, i))
    ensures q[i] !in Drop(q, i) && q[i] in q && forall t | t in Drop(q, i) :: t in q
  {
    hide Drop;
    assert ChainAt(nx, q, i) && (i > 0 ==> ChainAt(nx, q, i - 1));
    var p, nx' := Drop(q, i), DropLinks(nx, q, i);
    DropAt(q, i);
    forall j: nat | j < |p| ensures ChainAt(nx', p, j) {
      assert ChainAt(nx, q, if j < i then j else j + 1);
    }
  }

  lemma DropHead(q: seq<nat>, i: nat)
    requires i < |q|
    ensures Head(Drop(q, i)) == if i > 0 then q[0] else if |q| > 1 then q[1] else NULL
  {
  }

  lemma AgreeAfter(nx: seq<int>, t: nat, v: int, q: seq<nat>)
    requires t < |nx| && t !in q
    ensures AgreeOn(nx, nx[t := v], q)
  {
  }

  lemma ApartDrop(ready: seq<nat>, sleeping: seq<nat>, i: nat)
    requires Apart(ready, sleeping) && i < |sleeping|
    ensures Apart(ready, Drop(sleeping, i)) && sleeping[i] !in ready && sleeping[i] !in Drop(sleeping, i)
    ensures i > 0 ==> sleeping[i - 1] !in ready && sleeping[i - 1] != sleeping[i]
  {
    assert sleeping[i] in sleeping;
    if i > 0 { assert sleeping[i - 1] in sleeping; }
  }

  lemma PushChain(nx: seq<int>, q: seq<nat>, t: nat)
    requires Chain(nx, q) && t < |nx| && t !in q
    ensures Chain(nx[t := Head(q)], [t] + q)
  {
    var p, nx' := [t] + q, nx[t := Head(q)];
    forall i: nat | i < |p| ensures ChainAt(nx', p, i) {
      if i > 0 { assert ChainAt(nx, q, i - 1) && q[i - 1] in q; }
    }
  }

  /** Halfway through sq_wake_due: the first i sleepers have been kept, and waking the due ones
      among the others still gives the whole step. */
  ghost predicate WakesAs(s0: State, ready: seq<nat>, sleeping: seq<nat>, i: nat, infos: seq<Info>)
  {
    && i <= |sleeping| && |infos| == |s0.infos|
    && (forall t: nat | t < |infos| && t in sleeping[i..] :: infos[t] == s0.infos[t])
    && ready + Due(s0.infos, sleeping[i..], s0.ticks) == s0.ready + Due(s0.infos, s0.sleeping, s0.ticks)
    && sleeping[..i] + Kept(s0.infos, sleeping[i..], s0.ticks) == Kept(s0.infos, s0.sleeping, s0.ticks)
    && AllReady(infos, Due(s0.infos, sleeping[i..], s0.ticks))
    == AllReady(s0.infos, Due(s0.infos, s0.sleeping, s0.ticks))
  }

  lemma SleeperUntouched(s0: State, ready: seq<nat>, sleeping: seq<nat>, i: nat, infos: seq<Info>)
    requires WakesAs(s0, ready, sleeping, i, infos) && i < |sleeping| && sleeping[i] < |infos|
    ensures infos[sleeping[i]] == s0.infos[sleeping[i]]
  {
    assert sleeping[i..][0] == sleeping[i];
  }

  lemma WakesNone(s0: State)
    ensures WakesAs(s0, s0.ready, s0.sleeping, 0, s0.infos)
  {
    assert s0.sleeping[0..] == s0.sleeping;
  }

  lemma WakeOne(s0: State, ready: seq<nat>, sleeping: seq<nat>, i: nat, infos: seq<Info>)
    requires WakesAs(s0, ready, sleeping, i, infos) && i < |sleeping| && Distinct(sleeping)
    requires IsDue(s0.infos, sleeping[i], s0.ticks)
    ensures WakesAs(s0, ready + [sleeping[i]], Drop(sleeping, i), i, SetState(infos, sleeping[i], READY))
  {
    var t, q := sleeping[i], Drop(sleeping, i);
    assert sleeping[i..][0] == t && sleeping[i..][1..] == sleeping[i + 1..] == q[i..];
    assert q[..i] == sleeping[..i];
    var due := Due(s0.infos, q[i..], s0.ticks);
    assert Due(s0.infos, sleeping[i..], s0.ticks) == [t] + due;
    assert ([t] + due)[1..] == due;
    assert forall u | u in q[i..] :: u in sleeping[i..];
    assert ready + [t] + due == ready + ([t] + due);
  }

  lemma KeepOne(s0: State, ready: seq<nat>, sleeping: seq<nat>, i: nat, infos: seq<Info>)
    requires WakesAs(s0, ready, sleeping, i, infos) && i < |sleeping|
    requires !IsDue(s0.infos, sleeping[i], s0.ticks)
    ensures WakesAs(s0, ready, sleeping, i + 1, infos)
  {
    assert sleeping[i..][0] == sleeping[i] && sleeping[i..][1..] == sleeping[i + 1..];
    assert forall u | u in sleeping[i + 1..] :: u in sleeping[i..];
    var kept := Kept(s0.infos, sleeping[i + 1..], s0.ticks);
    assert Kept(s0.infos, sleeping[i..], s0.ticks) == [sleeping[i]] + kept;
    assert sleeping[..i + 1] + kept == sleeping[..i] + ([sleeping[i]] + kept);
    assert Due(s0.infos, sleeping[i..], s0.ticks) == [] + Due(s0.infos, sleeping[i + 1..], s0.ticks);
    assert [] + Due(s0.infos, sleeping[i + 1..], s0.ticks) == Due(s0.infos, sleeping[i + 1..], s0.ticks);
  }

  lemma WakesAll(s0: State, ready: seq<nat>, sleeping: seq<nat>, infos: seq<Info>)
    requires WakesAs(s0, ready, sleeping, |sleeping|, infos)
    ensures s0.(ready := ready, sleeping := sleeping, infos := infos) == WakeDue(s0)
  {
    assert sleeping[|sleeping|..] == [] && sleeping[..|sleeping|] == sleeping;
    var none := sleeping[|sleeping|..];
    assert Due(s0.infos, none, s0.ticks) == [] && Kept(s0.infos, none, s0.ticks) == [];
    assert AllReady(infos, Due(s0.infos, none, s0.ticks)) == infos;
    assert ready == s0.ready + Due(s0.infos, s0.sleeping, s0.ticks);
    assert sleeping == Kept(s0.infos, s0.sleeping, s0.ticks);
  }

  lemma SleeperIsTask(nx: seq<int>, q: seq<nat>, i: nat)
    requires Chain(nx, q) && i < |q|
    ensures q[i] < |nx|
  {
    assert ChainAt(nx, q, i);
  }

  lemma NextOf(nx: seq<int>, q: seq<nat>, i: nat)
    requires Chain(nx, q) && i <= |q|
    ensures i > 0 ==> q[i - 1] < |nx| && nx[q[i - 1]] == if i < |q| then q[i] else NULL
  {
    if i > 0 { assert ChainAt(nx, q, i - 1); }
  }

  lemma FrontIsTask(nx: seq<int>, pv: seq<int>, ready: seq<nat>, sleeping: seq<nat>)
    requires Ring(nx, pv, ready) && ready != [] && Apart(ready, sleeping)
    ensures ready[0] < |nx| && ready[0] !in ready[1..] && ready[0] !in sleeping
    ensures forall t | t !in ready :: t !in ready[1..]
  {
    RingEnds(nx, pv, ready);
    ApartPop(ready, sleeping);
  }

  lemma InRange(s: State)
    requires Safe(s)
    ensures |s.infos| == TASK_MAX && s.current < TASK_MAX
    ensures s.current !in s.ready && s.current !in s.sleeping && s.infos[s.current].state == RUNNING
    ensures |WakeDue(Count(s)).infos| == TASK_MAX && WakeDue(Count(s)).current == s.current
  {
  }

  lemma ReadyForSwitch(s: State)
    requires Safe(s)
    ensures s.current !in WakeDue(Count(s)).ready && s.current !in WakeDue(Count(s)).sleeping
  {
    var s1 := Count(s);
    DueHas(s1.infos, s1.sleeping, s1.ticks);
  }

  lemma DeadIsNowhere(s: State, t: nat)
    requires Safe(s) && t < TASK_MAX && s.infos[t].state == DEAD
    ensures t !in s.ready && t !in s.sleeping && t != s.current
  {
  }

  class Scheduler {
    /** The fields of g_tasks, one array each. */
    const infos: array<Info>
    const next: array<int>
    const prev: array<int>
    var nextPid: nat
    /** g_current. */
    var current: nat
    var readyHead: int
    var readyCount: nat
    var sleepHead: int
    var quantumLeft: nat
    var ticks: nat
    ghost var Ready: seq<nat>
    ghost var Sleeping: seq<nat>
    ghost var Idle: nat

    /** The two queues are well formed and share no task. */
    ghost predicate Linked()
      reads this, next, prev
    {
      && next != prev && infos.Length == next.Length == prev.Length == TASK_MAX
      && Ring(next[..], prev[..], Ready) && readyHead == Head(Ready) && readyCount == |Ready|
      && Chain(next[..], Sleeping) && sleepHead == Head(Sleeping)
      && Apart(Ready, Sleeping)
    }

    ghost function Abs(): State
      reads this, infos
    {
      State(current, Ready, Sleeping, quantumLeft, ticks, infos[..], nextPid, Idle)
    }

    /** The invariant of the running kernel. */
    ghost predicate Valid()
      reads this, infos, next, prev
    {
      Linked() && Safe(Abs())
    }

    /** The else-branch of rq_push_back. */
    method LinkLast(t: nat)
      requires next != prev && next.Length == prev.Length == TASK_MAX
      requires Ring(next[..], prev[..], Ready) && Ready != [] && readyHead == Ready[0]
      requires Distinct(Ready) && t < TASK_MAX && t !in Ready
      modifies next, prev
      ensures Ring(next[..], prev[..], Ready + [t])
      ensures forall u: nat | u < TASK_MAX && u !in Ready && u != t :: next[u] == old(next[u])
    {
      ghost var nx, pv := next[..], prev[..];
      RingEnds(nx, pv, Ready);
      PushExtendsRing(nx, pv, Ready, t);
      hide Ring;
      var tail := prev[readyHead];
      next[tail] := t;
      prev[t] := tail;
      next[t] := readyHead;
      prev[readyHead] := t;
      assert next[..] == nx[Ready[|Ready| - 1] := t][t := Ready[0]];
      assert prev[..] == pv[t := Ready[|Ready| - 1]][Ready[0] := t];
    }

    /** Append task at the tail of the circular list. */
    method RqPushBack(t: nat)
      requires Linked() && t < TASK_MAX && t !in Ready && t !in Sleeping
      modifies this`readyHead, this`readyCount, this`Ready, next, prev
      ensures Linked() && Ready == old(Ready) + [t]
    {
      ghost var nx, pv := next[..], prev[..];
      ApartPush(Ready, Sleeping, t);
      ApartParts(Ready, Sleeping);
      AgreeAfter(nx, t, NULL, Ready);
      AgreeAfter(pv, t, NULL, Ready);
      RingStays(nx, pv, nx[t := NULL], pv[t := NULL], Ready);
      hide Ring, Apart, Chain, Distinct;
      next[t], prev[t] := NULL, NULL;
      assert next[..] == nx[t := NULL] && prev[..] == pv[t := NULL];
      if readyHead == NULL {
        readyHead := t;
        next[t], prev[t] := t, t;
        RingOfOne(next[..], prev[..], t);
      } else {
        LinkLast(t);
      }
      readyCount := readyCount + 1;
      ChainStays(nx, next[..], Sleeping);
      Ready := Ready + [t];
    }

    /** The else-branch of rq_remove, for the head. */
    method UnlinkFirst(t: nat)
      requires next != prev && next.Length == prev.Length == TASK_MAX
      requires Ring(next[..], prev[..], Ready) && Distinct(Ready) && Ready != []
      requires t == Ready[0] == readyHead && t < TASK_MAX && next[t] != t
      modifies this`readyHead, next, prev
      ensures |Ready| > 1 && readyHead == Ready[1]
      ensures Ring(next[..], prev[..], Ready[1..])
      ensures next[t] == NULL && prev[t] == NULL
      ensures forall u: nat | u < TASK_MAX && u !in Ready :: next[u] == old(next[u])
    {
      ghost var nx, pv := next[..], prev[..];
      RingEnds(nx, pv, Ready);
      RemoveShrinksRing(nx, pv, Ready);
      hide Ring;
      next[prev[t]] := next[t];
      prev[next[t]] := prev[t];
      if readyHead == t { readyHead := next[t]; }
      next[t], prev[t] := NULL, NULL;
      assert next[..] == nx[Ready[|Ready| - 1] := Ready[1]][Ready[0] := NULL];
      assert prev[..] == pv[Ready[1] := Ready[|Ready| - 1]][Ready[0] := NULL];
    }

    /** Remove the head of the circular list. */
    method RqRemove(t: nat)
      requires Linked() && Ready != [] && t == Ready[0] && t < TASK_MAX
      modifies this`readyHead, this`readyCount, this`Ready, next, prev
      ensures Linked() && Ready == old(Ready)[1..]
      ensures next[t] == NULL && prev[t] == NULL
    {
      ghost var nx := next[..];
      RingEnds(nx, prev[..], Ready);
      ApartPop(Ready, Sleeping);
      hide Ring, Apart, Chain;
      if next[t] == t {
        RingLonely(nx, prev[..], Ready);
        readyHead := NULL;
        next[t], prev[t] := NULL, NULL;
        RingOfNone(next[..], prev[..]);
      } else {
        UnlinkFirst(t);
      }
      readyCount := readyCount - 1;
      ChainStays(nx, next[..], Sleeping);
      Ready := Ready[1..];
    }

    /** Put a task at the front of the sleep list; only `next` is written. */
    method SqPush(t: nat)
      requires Linked() && t < TASK_MAX && t !in Ready && t !in Sleeping
      modifies this`sleepHead, this`Sleeping, next
      ensures Linked() && Sleeping == [t] + old(Sleeping)
    {
      hide Ring, Chain, Apart;
      ghost var nx := next[..];
      PushChain(nx, Sleeping, t);
      ApartPush(Ready, Sleeping, t);
      next[t] := sleepHead;
      sleepHead := t;
      RingStays(nx, prev[..], next[..], prev[..], Ready);
      Sleeping := [t] + Sleeping;
    }

    /** *pp = t->next, and t's links are cleared; pp is the task before t, or NULL for the
        list head. */
    method UnlinkSleeper(pp: int, t: nat, ghost i: nat)
      requires Linked() && i < |Sleeping| && t == Sleeping[i] && pp == if i > 0 then Sleeping[i - 1] else NULL
      modifies this`sleepHead, this`Sleeping, next, prev
      ensures Linked() && Sleeping == Drop(old(Sleeping), i)
      ensures t < TASK_MAX && t !in Ready && t !in Sleeping
    {
      hide Ring, Chain, Apart, Distinct, AgreeOn, Drop;
      ghost var nx, pv := next[..], prev[..];
      ApartParts(Ready, Sleeping);
      DropFromChain(nx, Sleeping, i);
      ApartDrop(Ready, Sleeping, i);
      DropHead(Sleeping, i);
      ghost var nx1, rest := DropLinks(nx, Sleeping, i), Drop(Sleeping, i);
      AgreeAfter(nx1, t, NULL, rest);
      ChainStays(nx1, nx1[t := NULL], rest);
      if i > 0 { AgreeAfter(nx, pp, nx[t], Ready); RingStays(nx, pv, nx1, pv, Ready); }
      AgreeAfter(nx1, t, NULL, Ready);
      AgreeAfter(pv, t, NULL, Ready);
      RingStays(nx1, pv, nx1[t := NULL], pv[t := NULL], Ready);
      if pp == NULL { sleepHead := next[t]; } else { next[pp] := next[t]; }
      assert next[..] == nx1;
      next[t], prev[t] := NULL, NULL;
      assert next[..] == nx1[t := NULL] && prev[..] == pv[t := NULL];
      Sleeping := rest;
    }

    /** sq_wake_due. */
    method SqWakeDue()
      requires Linked()
      modifies this`readyHead, this`readyCount, this`sleepHead, this`Ready, this`Sleeping, infos, next, prev
      ensures Linked() && Abs() == WakeDue(old(Abs()))
    {
      ghost var s0, i := Abs(), 0;
      WakesNone(s0);
      hide Ring, Chain, Apart, WakesAs, Due, Kept, AllReady, WakeDue;
      var pp, t := NULL, sleepHead;
      while t != NULL
        invariant Linked() && i <= |Sleeping|
        invariant pp == if i > 0 then Sleeping[i - 1] else NULL
        invariant t == if i < |Sleeping| then Sleeping[i] else NULL
        invariant Abs() == s0.(ready := Ready, sleeping := Sleeping, infos := infos[..])
        invariant WakesAs(s0, Ready, Sleeping, i, infos[..])
        decreases |Sleeping| - i
      {
        SleeperIsTask(next[..], Sleeping, i);
        ApartParts(Ready, Sleeping);
        SleeperUntouched(s0, Ready, Sleeping, i, infos[..]);
        if ticks >= infos[t].wakeTick {
          ghost var r, q, fs := Ready, Sleeping, infos[..];
          UnlinkSleeper(pp, t, i);
          infos[t] := infos[t].(state := READY);
          assert infos[..] == SetState(fs, t, READY);
          RqPushBack(t);
          WakeOne(s0, r, q, i, fs);
        } else {
          KeepOne(s0, Ready, Sleeping, i, infos[..]);
          pp := t;
          i := i + 1;
        }
        NextOf(next[..], Sleeping, i);
        t := if pp == NULL then sleepHead else next[pp];
      }
      WakesAll(s0, Ready, Sleeping, infos[..]);
    }

    /** do_switch.  Pushing the current task back needs it to be in neither queue. */
    method DoSwitch()
      requires Linked() && infos.Length == TASK_MAX && current < TASK_MAX
      requires Ready != [] && Ready[0] != current && infos[current].state == RUNNING ==>
                 current !in Ready && current !in Sleeping
      modifies this`readyHead, this`readyCount, this`Ready, this`current, this`quantumLeft, infos, next, prev
      ensures Linked() && Abs() == SchedModel.DoSwitch(old(Abs()))
    {
      if readyCount == 0 { return; }
      var curr := current;
      FrontIsTask(next[..], prev[..], Ready, Sleeping);
      var nextTask := readyHead;
      hide Ring, Chain, Apart;
      RqRemove(nextTask);
      if nextTask == curr {
        RqPushBack(nextTask);
        return;
      }
      if infos[curr].state == RUNNING {
        infos[curr] := infos[curr].(state := READY);
        RqPushBack(curr);
      }
      infos[nextTask] := infos[nextTask].(state := RUNNING);
      current := nextTask;
      quantumLeft := QUANTUM;
    }

    method CountTick()
      requires Linked() && current < infos.Length
      modifies this`ticks, infos
      ensures Linked() && Abs() == Count(old(Abs()))
    {
      hide Ring, Chain, Apart;
      ticks := ticks + 1;
      infos[current] := infos[current].(ticksRun := infos[current].ticksRun + 1);
    }

    /** The timer interrupt: pit_tick and then sched_tick. */
    method SchedTick()
      requires Valid()
      modifies this, infos, next, prev
      ensures Valid() && Abs() == Tick(old(Abs()))
    {
      ghost var s0 := Abs();
      StepKeepsSafe(s0, TickE);
      ReadyForSwitch(s0);
      InRange(s0);
      hide Ring, Chain, Apart, Safe, SchedModel.DoSwitch, WakeDue, Linked;
      CountTick();
      assert Abs() == Count(s0);
      hide Count;
      SqWakeDue();
      if quantumLeft > 0 { quantumLeft := quantumLeft - 1; }
      assert Abs() == UseQuantum(WakeDue(Count(s0)));
      if quantumLeft == 0 { DoSwitch(); }
    }

    /** sched_yield. */
    method SchedYield()
      requires Valid()
      modifies this, infos, next, prev
      ensures Valid() && Abs() == Yield(old(Abs()))
    {
      hide Ring, Chain, Apart, SchedModel.DoSwitch;
      StepKeepsSafe(Abs(), YieldE);
      quantumLeft := 0;
      DoSwitch();
    }

    /** sched_sleep. */
    method SchedSleep(ms: nat)
      requires Valid() && current != Idle
      modifies this, infos, next, prev
      ensures Valid() && Abs() == Sleep(old(Abs()), ms)
    {
      hide Ring, Chain, Apart, SchedModel.DoSwitch, Safe;
      ghost var s0 := Abs();
      StepKeepsSafe(s0, SleepE(ms));
      InRange(s0);
      infos[current] := infos[current].(state := SLEEPING, wakeTick := ticks + ms);
      SqPush(current);
      quantumLeft := 0;
      assert Abs() == LieDown(s0, ms);
      hide LieDown;
      DoSwitch();
    }

    /** sched_exit. */
    method SchedExit()
      requires Valid() && current != Idle
      modifies this, infos, next, prev
      ensures Valid() && Abs() == Exit(old(Abs()))
    {
      hide Ring, Chain, Apart, SchedModel.DoSwitch;
      StepKeepsSafe(Abs(), ExitE);
      infos[current] := infos[current].(state := DEAD);
      quantumLeft := 0;
      DoSwitch();
    }

    /** sched_add; it must not be interrupted. */
    method SchedAdd(t: nat)
      requires Valid() && Enabled(Abs(), AddE(t))
      modifies this, infos, next, prev
      ensures Valid() && Abs() == Add(old(Abs()), t)
    {
      hide Ring, Chain, Apart;
      StepKeepsSafe(Abs(), AddE(t));
      infos[t] := infos[t].(state := READY);
      RqPushBack(t);
    }

    /** The search loop of task_create. */
    method FindSlot() returns (t: nat)
      requires infos.Length == TASK_MAX
      ensures t == FreeSlot(infos[..], 1)
    {
      t := 1;
      while t < TASK_MAX
        invariant 1 <= t <= TASK_MAX && FreeSlot(infos[..], t) == FreeSlot(infos[..], 1)
      {
        if infos[t].state == DEAD { return; }
        t := t + 1;
      }
    }

    /** The second half of task_create: the slot becomes a new task outside all queues. */
    method ClaimSlot(t: nat)
      requires Valid() && t < TASK_MAX && infos[t].state == DEAD
      modifies this, infos, next, prev
      ensures Valid() && Abs() == Claim(old(Abs()), t)
      ensures Enabled(Abs(), AddE(t)) && infos[t].pid == old(nextPid)
    {
      hide Ring, Chain, Apart;
      ClaimKeepsSafe(Abs(), t);
      DeadIsNowhere(Abs(), t);
      ghost var nx, pv := next[..], prev[..];
      infos[t] := Info(nextPid, READY, 0, 0);
      nextPid := nextPid + 1;
      next[t], prev[t] := NULL, NULL;
      assert next[..] == nx[t := NULL] && prev[..] == pv[t := NULL];
      AgreeAfter(nx, t, NULL, Ready);
      AgreeAfter(pv, t, NULL, Ready);
      AgreeAfter(nx, t, NULL, Sleeping);
      RingStays(nx, pv, next[..], prev[..], Ready);
      ChainStays(nx, next[..], Sleeping);
    }

    /** task_create without interruption; `stackOk` says whether the stack could be allocated.  The
        result is the new task's slot, or NULL. */
    method TaskCreate(stackOk: bool) returns (r: int)
      requires Valid()
      modifies this, infos, next, prev
      ensures Valid() && Abs() == Create(old(Abs()), stackOk)
      ensures r == NULL <==> !stackOk || FreeSlot(old(infos[..]), 1) == TASK_MAX
      ensures r != NULL ==> 0 <= r && Enabled(Abs(), AddE(r)) && infos[r].pid == old(nextPid)
    {
      hide Ring, Chain, Apart;
      var t := FindSlot();
      if t == TASK_MAX || !stackOk { return NULL; }
      ClaimSlot(t);
      r := t;
    }

    /** task_init followed by sched_init: the boot task runs and idle is the only ready task. */
    constructor ()
      ensures Valid() && fresh(infos) && fresh(next) && fresh(prev)
      ensures current == 0 && Ready == [1] && Sleeping == [] && Idle == 1
    {
      infos := new Info[TASK_MAX](
        i => Info(if i == 1 then 1 else 0, if i == 0 then RUNNING else if i == 1 then READY else DEAD, 0, 0));
      next := new int[TASK_MAX](i => if i == 1 then 1 else NULL);
      prev := new int[TASK_MAX](i => if i == 1 then 1 else NULL);
      nextPid, current := 2, 0;
      readyHead, readyCount, sleepHead := 1, 1, NULL;
      quantumLeft, ticks := QUANTUM, 0;
      Ready, Sleeping, Idle := [1], [], 1;
      new;
      assert RingAt(next[..], prev[..], Ready, 0);
    }
  }
}
