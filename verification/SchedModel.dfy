/** Round-robin scheduling (kernel/sched.c, kernel/task.c) as an abstract machine, and its
    safety and progress along every run. */
module SchedModel {
  import opened Arith

  const TASK_MAX: nat := 32
  const QUANTUM: nat := 10

  datatype TaskState = DEAD | READY | RUNNING | BLOCKED | SLEEPING

  /** The fields of task_t other than its links.  A task is named by its slot in g_tasks. */
  datatype Info = Info(pid: nat, state: TaskState, wakeTick: nat, ticksRun: nat)

  datatype State = State(
    current: nat,
    ready: seq<nat>,
    sleeping: seq<nat>,
    quantum: nat,
    ticks: nat,
    infos: seq<Info>,
    nextPid: nat,
    idle: nat)

  // ----- The steps -----

  function SetState(infos: seq<Info>, t: nat, st: TaskState): (r: seq<Info>)
    ensures |r| == |infos|
    ensures forall u | 0 <= u < |r| :: r[u] == if u == t then infos[u].(state := st) else infos[u]
  {
    if t < |infos| then infos[t := infos[t].(state := st)] else infos
  }

  predicate IsDue(infos: seq<Info>, t: nat, now: nat)
  {
    t < |infos| && now >= infos[t].wakeTick
  }

  /** The sleepers that wake, in the order of the sleep list. */
  function Due(infos: seq<Info>, q: seq<nat>, now: nat): seq<nat>
  {
    if q == [] then []
    else (if IsDue(infos, q[0], now) then [q[0]] else []) + Due(infos, q[1..], now)
  }

  /** The sleepers that stay asleep. */
  function Kept(infos: seq<Info>, q: seq<nat>, now: nat): seq<nat>
  {
    if q == [] then []
    else (if IsDue(infos, q[0], now) then [] else [q[0]]) + Kept(infos, q[1..], now)
  }

  function AllReady(infos: seq<Info>, q: seq<nat>): (r: seq<Info>)
    ensures |r| == |infos|
    decreases |q|
  {
    if q == [] then infos else AllReady(SetState(infos, q[0], READY), q[1..])
  }

  function WakeDue(s: State): State
  {
    var due := Due(s.infos, s.sleeping, s.ticks);
    s.(ready := s.ready + due, sleeping := Kept(s.infos, s.sleeping, s.ticks), infos := AllReady(s.infos, due))
  }

  /** do_switch, with both of its early returns. */
  function DoSwitch(s: State): State
    requires s.current < |s.infos|
  {
    if s.ready == [] then s
    else
      var next, rest := s.ready[0], s.ready[1..];
      if next == s.current then s.(ready := rest + [next])
      else
        var s1 := if s.infos[s.current].state == RUNNING
                  then s.(infos := SetState(s.infos, s.current, READY), ready := rest + [s.current])
                  else s.(ready := rest);
        s1.(infos := SetState(s1.infos, next, RUNNING), current := next, quantum := QUANTUM)
  }

  /** pit_tick, and the running task's own counter. */
  function Count(s: State): State
    requires s.current < |s.infos|
  {
    var c := s.infos[s.current];
    s.(ticks := s.ticks + 1, infos := s.infos[s.current := c.(ticksRun := c.ticksRun + 1)])
  }

  function UseQuantum(s: State): State { s.(quantum := if s.quantum > 0 then s.quantum - 1 else 0) }

  /** The timer interrupt: pit_tick, then sched_tick. */
  function Tick(s: State): State
    requires s.current < |s.infos|
  {
    var s1 := UseQuantum(WakeDue(Count(s)));
    if s1.quantum == 0 then DoSwitch(s1) else s1
  }

  /** sched_yield. */
  function Yield(s: State): State
    requires s.current < |s.infos|
  {
    DoSwitch(s.(quantum := 0))
  }

  /** sched_sleep up to its switch: the current task is on the sleep list. */
  function LieDown(s: State, ms: nat): State
    requires s.current < |s.infos|
  {
    var c := s.infos[s.current].(state := SLEEPING, wakeTick := s.ticks + ms);
    s.(infos := s.infos[s.current := c], sleeping := [s.current] + s.sleeping, quantum := 0)
  }

  /** sched_sleep. */
  function Sleep(s: State, ms: nat): State
    requires s.current < |s.infos|
  {
    DoSwitch(LieDown(s, ms))
  }

  /** sched_exit. */
  function Exit(s: State): State
    requires s.current < |s.infos|
  {
    DoSwitch(s.(infos := SetState(s.infos, s.current, DEAD), quantum := 0))
  }

  /** sched_add. */
  function Add(s: State, t: nat): State
  {
    s.(infos := SetState(s.infos, t, READY), ready := s.ready + [t])
  }

  /** The slot task_create reuses: the first DEAD one after slot 0. */
  function FreeSlot(infos: seq<Info>, from: nat): (t: nat)
    requires from <= |infos|
    ensures from <= t <= |infos| && (t < |infos| ==> infos[t].state == DEAD)
    ensures forall i | from <= i < t :: infos[i].state != DEAD
    decreases |infos| - from
  {
    if from == |infos| || infos[from].state == DEAD then from else FreeSlot(infos, from + 1)
  }

  /** The second half of task_create: slot t is overwritten with a new task. */
  function Claim(s: State, t: nat): State
    requires t < |s.infos|
  {
    s.(infos := s.infos[t := Info(s.nextPid, READY, 0, 0)], nextPid := s.nextPid + 1)
  }

  /** task_create without interruption; `stackOk` says whether the stack could be allocated. */
  function Create(s: State, stackOk: bool): State
    requires 1 <= |s.infos|
  {
    var t := FreeSlot(s.infos, 1);
    if t == |s.infos| || !stackOk then s else Claim(s, t)
  }

  datatype Event = TickE | YieldE | SleepE(ms: nat) | ExitE | AddE(t: nat) | CreateE(stackOk: bool)

  /** What the callers respect: the idle task never sleeps or exits, and only a freshly
      created task is added. */
  predicate Enabled(s: State, e: Event)
  {
    match e
    case SleepE(_) => s.current != s.idle
    case ExitE => s.current != s.idle
    case AddE(t) =>
      t < |s.infos| && s.infos[t].state == READY && t !in s.ready && t != s.current && t !in s.sleeping
    case _ => true
  }

  function Next(s: State, e: Event): State
    requires s.current < |s.infos|
  {
    match e
    case TickE => Tick(s)
    case YieldE => Yield(s)
    case SleepE(ms) => Sleep(s, ms)
    case ExitE => Exit(s)
    case AddE(t) => Add(s, t)
    case CreateE(ok) => Create(s, ok)
  }

  // ----- Safety -----

  /** The queues hold distinct slots and no slot twice. */
  ghost predicate Queues(s: State)
  {
    && |s.infos| == TASK_MAX && s.current < TASK_MAX && s.idle < TASK_MAX
    && Distinct(s.ready) && Distinct(s.sleeping)
    && (forall t | t in s.ready :: t < TASK_MAX && s.infos[t].state == READY && t !in s.sleeping)
    && (forall t | t in s.sleeping :: t < TASK_MAX && s.infos[t].state == SLEEPING)
  }

  /** A task that is neither current nor queued is dead, or created and not yet added. */
  ghost predicate Elsewhere(s: State)
    requires |s.infos| == TASK_MAX
  {
    forall t: nat | t < TASK_MAX && t != s.current && t !in s.ready && t !in s.sleeping ::
      s.infos[t].state == DEAD || s.infos[t].state == READY
  }

  ghost predicate IdleCanRun(s: State) { s.idle == s.current || s.idle in s.ready }

  /** Live tasks have different pids. */
  ghost predicate Pids(s: State)
  {
    && (forall t: nat | t < |s.infos| && s.infos[t].state != DEAD :: s.infos[t].pid < s.nextPid)
    && (forall t: nat, u: nat | t < u < |s.infos| && s.infos[t].state != DEAD && s.infos[u].state != DEAD ::
          s.infos[t].pid != s.infos[u].pid)
  }

  /** Every live task that has been added is in exactly one of: current, the ready queue, the
      sleep list; its state says which; and idle can always run. */
  ghost predicate Safe(s: State)
  {
    && Queues(s) && Pids(s) && Elsewhere(s) && IdleCanRun(s)
    && s.infos[s.current].state == RUNNING
    && s.current !in s.ready && s.current !in s.sleeping
  }

  lemma {:induction false} DueHas(infos: seq<Info>, q: seq<nat>, now: nat)
    requires Distinct(q)
    ensures forall t :: t in Due(infos, q, now) <==> t in q && IsDue(infos, t, now)
    ensures forall t :: t in Kept(infos, q, now) <==> t in q && !IsDue(infos, t, now)
    ensures Distinct(Due(infos, q, now)) && Distinct(Kept(infos, q, now))
  {
    if q != [] {
      assert q == [q[0]] + q[1..];
      DueHas(infos, q[1..], now);
    }
  }

  lemma {:induction false} AllReadyAt(infos: seq<Info>, q: seq<nat>, t: nat)
    requires t < |infos|
    ensures AllReady(infos, q)[t] == if t in q then infos[t].(state := READY) else infos[t]
    decreases |q|
  {
    if q != [] {
      assert q == [q[0]] + q[1..];
      AllReadyAt(SetState(infos, q[0], READY), q[1..], t);
    }
  }

  /** Pids stay apart as long as no task comes to life. */
  lemma PidsStay(s: State, s': State)
    requires Pids(s) && s'.nextPid == s.nextPid && |s'.infos| == |s.infos|
    requires forall t: nat | t < |s.infos| ::
               s'.infos[t].pid == s.infos[t].pid && (s.infos[t].state == DEAD ==> s'.infos[t].state == DEAD)
    ensures Pids(s')
  {
  }

  lemma WakeKeepsSafe(s: State)
    requires Safe(s)
    ensures Safe(WakeDue(s))
  {
    hide Pids;
    hide AllReady, Due, Kept;
    DueHas(s.infos, s.sleeping, s.ticks);
    var due := Due(s.infos, s.sleeping, s.ticks);
    var s' := WakeDue(s);
    forall t: nat | t < TASK_MAX
      ensures s'.infos[t] == if t in due then s.infos[t].(state := READY) else s.infos[t]
    {
      AllReadyAt(s.infos, due, t);
    }
    PidsStay(s, s');
    forall i, j | 0 <= i < j < |s'.ready| ensures s'.ready[i] != s'.ready[j] {
      if i < |s.ready| <= j { assert s'.ready[i] in s.ready && s'.ready[j] in due; }
    }
  }

  /** The state in which do_switch is called: the current task may just have gone to sleep or
      died, but then it is not idle. */
  ghost predicate Switchable(s: State)
  {
    && Queues(s) && Pids(s) && Elsewhere(s) && IdleCanRun(s)
    && s.current !in s.ready
    && match s.infos[s.current].state
       case RUNNING => s.current !in s.sleeping
       case SLEEPING => s.current in s.sleeping && s.current != s.idle
       case DEAD => s.current !in s.sleeping && s.current != s.idle
       case _ => false
  }

  lemma SwitchQueues(s: State)
    requires Switchable(s) && s.ready != []
    ensures Queues(DoSwitch(s)) && DoSwitch(s).current !in DoSwitch(s).ready
  {
    hide Pids, Elsewhere, IdleCanRun;
    var s', next, rest := DoSwitch(s), s.ready[0], s.ready[1..];
    assert next in s.ready;
    forall t | t in rest ensures t in s.ready && t != next {
      var i :| 0 <= i < |rest| && rest[i] == t;
      assert s.ready[i + 1] == t;
    }
    assert Distinct(rest);
  }

  /** No SLEEPING or DEAD task keeps the CPU, and the "next == curr" return is never taken. */
  lemma SwitchKeepsSafe(s: State)
    requires Switchable(s)
    ensures Safe(DoSwitch(s))
    ensures s.infos[s.current].state != RUNNING ==> s.ready != []
    ensures s.ready != [] ==> s.ready[0] != s.current && DoSwitch(s).current == s.ready[0]
  {
    if s.ready != [] {
      var s' := DoSwitch(s);
      assert s.ready[0] in s.ready;
      assert s.ready == [s.ready[0]] + s.ready[1..];
      PidsStay(s, s');
      hide Pids;
      SwitchQueues(s);
    }
  }

  lemma YieldKeepsSafe(s: State)
    requires Safe(s)
    ensures Safe(Yield(s))
  {
    hide DoSwitch;
    SwitchKeepsSafe(s.(quantum := 0));
  }

  lemma LieDownIsSwitchable(s: State, ms: nat)
    requires Safe(s) && s.current != s.idle
    ensures Switchable(LieDown(s, ms))
  {
    hide Pids;
    PidsStay(s, LieDown(s, ms));
  }

  lemma SleepKeepsSafe(s: State, ms: nat)
    requires Safe(s) && s.current != s.idle
    ensures Safe(Sleep(s, ms))
  {
    LieDownIsSwitchable(s, ms);
    hide DoSwitch, LieDown, Safe, Switchable;
    SwitchKeepsSafe(LieDown(s, ms));
  }

  lemma ExitKeepsSafe(s: State)
    requires Safe(s) && s.current != s.idle
    ensures Safe(Exit(s))
  {
    hide Pids, DoSwitch;
    var s1 := s.(infos := SetState(s.infos, s.current, DEAD), quantum := 0);
    PidsStay(s, s1);
    SwitchKeepsSafe(s1);
  }

  lemma AddKeepsSafe(s: State, t: nat)
    requires Safe(s) && Enabled(s, AddE(t))
    ensures Safe(Add(s, t))
  {
    PidsStay(s, Add(s, t));
    hide Pids;
  }

  lemma ClaimKeepsSafe(s: State, t: nat)
    requires Safe(s) && t < TASK_MAX && s.infos[t].state == DEAD
    ensures Safe(Claim(s, t))
  {
  }

  lemma CreateKeepsSafe(s: State, stackOk: bool)
    requires Safe(s)
    ensures Safe(Create(s, stackOk))
  {
    if FreeSlot(s.infos, 1) < TASK_MAX { ClaimKeepsSafe(s, FreeSlot(s.infos, 1)); }
  }

  lemma TickKeepsSafe(s: State)
    requires Safe(s)
    ensures Safe(Tick(s))
  {
    hide Pids;
    PidsStay(s, Count(s));
    assert Safe(Count(s));
    hide WakeDue, Count, DoSwitch;
    WakeKeepsSafe(Count(s));
    var s1 := UseQuantum(WakeDue(Count(s)));
    PidsStay(WakeDue(Count(s)), s1);
    SwitchKeepsSafe(s1);
  }

  /** Every step of the kernel keeps the scheduler safe. */
  lemma StepKeepsSafe(s: State, e: Event)
    requires Safe(s) && Enabled(s, e)
    ensures Safe(Next(s, e))
  {
    hide Safe, Sleep, Yield, Exit, Add, Create, Tick;
    match e
    case TickE => TickKeepsSafe(s);
    case YieldE => YieldKeepsSafe(s);
    case SleepE(ms) => SleepKeepsSafe(s, ms);
    case ExitE => ExitKeepsSafe(s);
    case AddE(t) => AddKeepsSafe(s, t);
    case CreateE(ok) => CreateKeepsSafe(s, ok);
  }

  // ----- Runs -----

  ghost predicate IsRun(ss: seq<State>, es: seq<Event>)
  {
    && |ss| == |es| + 1
    && Safe(ss[0])
    && forall i | 0 <= i < |es| ::
         ss[i].current < |ss[i].infos| && Enabled(ss[i], es[i]) && ss[i + 1] == Next(ss[i], es[i])
  }

  /** Every state of every run is safe. */
  lemma {:induction false} RunIsSafe(ss: seq<State>, es: seq<Event>, i: nat)
    requires IsRun(ss, es) && i <= |es|
    ensures Safe(ss[i])
  {
    if i > 0 {
      RunIsSafe(ss, es, i - 1);
      StepKeepsSafe(ss[i - 1], es[i - 1]);
    }
  }

  // ----- A creation interrupted between its search and its claim -----

  ghost predicate LivePid(s: State, pid: nat)
  {
    exists t: nat :: t < |s.infos| && s.infos[t].state != DEAD && s.infos[t].pid == pid
  }

  /** No live task is lost. */
  ghost predicate NoneLost(s: State, s': State)
  {
    forall t: nat | t < |s.infos| && s.infos[t].state != DEAD :: LivePid(s', s.infos[t].pid)
  }

  lemma Overwritten(s: State, t: nat)
    requires Pids(s) && t < |s.infos| && s.infos[t].state != DEAD
    ensures !LivePid(Claim(s, t), s.infos[t].pid)
  {
    var s' := Claim(s, t);
    forall u: nat | u < |s'.infos| ensures s'.infos[u].state == DEAD || s'.infos[u].pid != s.infos[t].pid {
      if u != t { assert s'.infos[u] == s.infos[u]; }
    }
  }

  /** The claim keeps the scheduler safe and loses no task exactly when the slot is still DEAD. */
  lemma ClaimIff(s: State, t: nat)
    requires Safe(s) && t < TASK_MAX
    ensures Safe(Claim(s, t)) && NoneLost(s, Claim(s, t)) <==> s.infos[t].state == DEAD
  {
    var s' := Claim(s, t);
    if s.infos[t].state == DEAD {
      ClaimKeepsSafe(s, t);
      forall u: nat | u < TASK_MAX && s.infos[u].state != DEAD ensures LivePid(s', s.infos[u].pid) {
        assert s'.infos[u] == s.infos[u];
      }
    } else {
      Overwritten(s, t);
    }
  }

  lemma TickKeepsDead(s: State, t: nat)
    requires Safe(s) && t < TASK_MAX && s.infos[t].state == DEAD
    ensures |Tick(s).infos| == TASK_MAX && Tick(s).infos[t].state == DEAD
  {
    hide Due, Kept, AllReady, Pids, Elsewhere;
    var s1 := Count(s);
    DueHas(s1.infos, s1.sleeping, s1.ticks);
    AllReadyAt(s1.infos, Due(s1.infos, s1.sleeping, s1.ticks), t);
    var s2 := UseQuantum(WakeDue(s1));
    if s2.ready != [] { assert s2.ready[0] in s2.ready; }
  }

  /** A DEAD slot comes to life only by a creation that takes it. */
  lemma DeadStays(s: State, e: Event, t: nat)
    requires Safe(s) && Enabled(s, e) && t < TASK_MAX && s.infos[t].state == DEAD
    ensures var s' := Next(s, e);
            && |s'.infos| == TASK_MAX
            && (s'.infos[t].state == DEAD <==> !(e.CreateE? && e.stackOk && FreeSlot(s.infos, 1) == t))
  {
    hide Pids, Elsewhere, Tick;
    TickKeepsDead(s, t);
    if s.ready != [] { assert s.ready[0] in s.ready; }
  }

  /** Whatever happens between search and claim, the slot is still DEAD at the claim unless another
      creation has taken it. */
  lemma {:induction false} StillDead(ss: seq<State>, es: seq<Event>, t: nat)
    requires IsRun(ss, es) && t < |ss[0].infos| && ss[0].infos[t].state == DEAD
    requires forall i | 0 <= i < |es| && es[i].CreateE? && es[i].stackOk ::
               1 <= |ss[i].infos| && FreeSlot(ss[i].infos, 1) != t
    ensures t < |ss[|es|].infos| && ss[|es|].infos[t].state == DEAD
    decreases |es|
  {
    if es != [] {
      var n := |es| - 1;
      StillDead(ss[..n + 1], es[..n], t);
      RunIsSafe(ss, es, n);
      DeadStays(ss[n], es[n], t);
    }
  }

  /** Two creations that search in the same state get the same slot: the first task is lost, and when
      both callers have added the slot, it is in the ready queue twice. */
  lemma SameSlotTwice(s: State)
    requires Safe(s) && FreeSlot(s.infos, 1) < TASK_MAX
    ensures var t := FreeSlot(s.infos, 1);
            var s1 := Claim(s, t);
            var s2 := Claim(s1, t);
            && LivePid(s1, s.nextPid) && !LivePid(s2, s.nextPid)
            && Enabled(s2, AddE(t)) && !Enabled(Add(s2, t), AddE(t)) && !Safe(Add(Add(s2, t), t))
  {
    var t := FreeSlot(s.infos, 1);
    var s1 := Claim(s, t);
    var s2 := Claim(s1, t);
    assert s1.infos[t].pid == s.nextPid;
    assert t !in s.ready && t !in s.sleeping && t != s.current;
    var n := |s.ready|;
    var q := s.ready + [t] + [t];
    assert Add(Add(s2, t), t).ready == q && q[n] == q[n + 1];
  }

  function Ticks(es: seq<Event>): nat
  {
    if es == [] then 0 else Ticks(es[..|es| - 1]) + if es[|es| - 1].TickE? then 1 else 0
  }

  /** How many timer ticks the task at index k of the ready queue can still be kept waiting. */
  function Wait(s: State, k: nat): nat { QUANTUM * k + Max(s.quantum, 1) }

  /** One event dispatches the waiting task or brings it closer, and a tick brings it one tick
      closer. */
  lemma StepBringsCloser(s: State, e: Event, k: nat) returns (k': nat)
    requires Safe(s) && Enabled(s, e) && k < |s.ready|
    ensures Next(s, e).current == s.ready[k]
            || (k' < |Next(s, e).ready| && Next(s, e).ready[k'] == s.ready[k]
                && Wait(Next(s, e), k') + (if e.TickE? then 1 else 0) <= Wait(s, k))
  {
    var s' := Next(s, e);
    assert s.ready[k] in s.ready;
    match e
    case TickE => k' := if s.quantum <= 1 && k > 0 then k - 1 else k;
    case AddE(t) => k' := k;
    case CreateE(ok) => k' := k;
    case _ => k' := if k > 0 then k - 1 else 0;
  }

  /** Bounded dispatch: in every run, whatever yields, sleeps, exits, wakes, creations and
      additions happen, the task at index k of the ready queue runs before
      10 k + max(quantum, 1) timer ticks have passed without it. */
  lemma {:induction false} BoundedDispatch(ss: seq<State>, es: seq<Event>, k: nat) returns (j: nat)
    requires IsRun(ss, es) && k < |ss[0].ready|
    requires forall i | 1 <= i <= |es| :: ss[i].current != ss[0].ready[k]
    ensures j < |ss[|es|].ready| && ss[|es|].ready[j] == ss[0].ready[k]
    ensures Ticks(es) + Wait(ss[|es|], j) <= Wait(ss[0], k)
    ensures Ticks(es) < QUANTUM * k + Max(ss[0].quantum, 1)
    decreases |es|
  {
    if es == [] {
      j := k;
    } else {
      var n := |es| - 1;
      var i := BoundedDispatch(ss[..n + 1], es[..n], k);
      RunIsSafe(ss, es, n);
      j := StepBringsCloser(ss[n], es[n], i);
    }
  }

  lemma SwitchSparesOthers(s: State, t: nat)
    requires s.current < |s.infos| && t < |s.infos|
    ensures DoSwitch(s).sleeping == s.sleeping && |DoSwitch(s).infos| == |s.infos|
    ensures DoSwitch(s).infos[t].wakeTick == s.infos[t].wakeTick
    ensures s.infos[t].state == READY ==> DoSwitch(s).infos[t].state in {READY, RUNNING}
  {
  }

  /** The task runs, waits for the processor or sleeps. */
  predicate Alive(s: State, t: nat) { t == s.current || t in s.ready || t in s.sleeping }

  lemma SwitchAlive(s: State, t: nat)
    requires s.current < |s.infos| && (s.ready != [] ==> s.ready[0] != s.current)
    ensures Alive(DoSwitch(s), t) <==>
            Alive(s, t) && !(s.ready != [] && t == s.current && s.infos[t].state != RUNNING
                             && t !in s.ready && t !in s.sleeping)
  {
    if s.ready != [] {
      var q := s.ready;
      assert q == [q[0]] + q[1..];
    }
  }

  lemma TickSteps(s: State)
    requires Safe(s)
    ensures Safe(Count(s)) && (forall t: nat :: Alive(Count(s), t) <==> Alive(s, t))
    ensures var s1 := UseQuantum(WakeDue(Count(s)));
            && s1.current < |s1.infos| && s1.infos[s1.current].state == RUNNING
            && (s1.ready != [] ==> s1.ready[0] != s1.current)
            && forall t: nat :: Alive(s1, t) <==> Alive(WakeDue(Count(s)), t)
  {
    hide Pids, WakeDue;
    PidsStay(s, Count(s));
    WakeKeepsSafe(Count(s));
    var s2 := WakeDue(Count(s));
    if s2.ready != [] { assert s2.ready[0] in s2.ready; }
  }

  lemma TickAndSleeper(s: State, t: nat)
    requires Safe(s) && t in s.sleeping
    ensures Tick(s).infos[t].wakeTick == s.infos[t].wakeTick
    ensures t in Tick(s).sleeping <==> s.ticks + 1 < s.infos[t].wakeTick
    ensures t !in Tick(s).sleeping ==>
              Tick(s).infos[t].state in {READY, RUNNING} && (t == Tick(s).current || t in Tick(s).ready)
  {
    hide Due, Kept, AllReady, Pids, Elsewhere, DoSwitch;
    var s1 := Count(s);
    DueHas(s1.infos, s1.sleeping, s1.ticks);
    AllReadyAt(s1.infos, Due(s1.infos, s1.sleeping, s1.ticks), t);
    SwitchSparesOthers(UseQuantum(WakeDue(s1)), t);
    TickSteps(s);
    SwitchAlive(UseQuantum(WakeDue(s1)), t);
  }

  /** A sleeper leaves the sleep list exactly at a tick that has reached its wake time, and
      then it is READY, or already RUNNING. */
  lemma StepAndSleeper(s: State, e: Event, t: nat)
    requires Safe(s) && Enabled(s, e) && t in s.sleeping
    ensures var s' := Next(s, e);
            && s'.infos[t].wakeTick == s.infos[t].wakeTick
            && (t in s'.sleeping <==> !(e.TickE? && s.ticks + 1 >= s.infos[t].wakeTick))
            && (t !in s'.sleeping ==> s'.infos[t].state in {READY, RUNNING} && (t == s'.current || t in s'.ready))
  {
    match e
    case TickE => TickAndSleeper(s, t);
    case _ =>
  }

  lemma SleeperInRange(s: State, t: nat)
    requires Safe(s) && t in s.sleeping
    ensures t < |s.infos|
  {
  }

  /** Along every run a sleeper sleeps through exactly the ticks before its wake time. */
  lemma {:induction false} SleepsUntilWake(ss: seq<State>, es: seq<Event>, t: nat)
    requires IsRun(ss, es) && t in ss[0].sleeping
    ensures (forall i | 0 <= i < |es| :: es[i].TickE? ==> ss[i].ticks + 1 < ss[0].infos[t].wakeTick)
            <==> (forall i | 0 <= i <= |es| :: t in ss[i].sleeping)
    ensures (forall i | 0 <= i <= |es| :: t in ss[i].sleeping) ==>
              t < |ss[|es|].infos| && ss[|es|].infos[t].wakeTick == ss[0].infos[t].wakeTick
    decreases |es|
  {
    hide Next, Enabled, Safe;
    SleeperInRange(ss[0], t);
    if es != [] {
      var n := |es| - 1;
      SleepsUntilWake(ss[..n + 1], es[..n], t);
      RunIsSafe(ss, es, n);
      RunIsSafe(ss, es, n + 1);
      if t in ss[n].sleeping { StepAndSleeper(ss[n], es[n], t); }
      if t in ss[n + 1].sleeping { SleeperInRange(ss[n + 1], t); }
    }
  }

  // ----- No task is lost, none appears -----

  lemma WakeAlive(s: State, t: nat)
    requires Safe(s)
    ensures Alive(WakeDue(s), t) <==> Alive(s, t)
  {
    hide AllReady;
    DueHas(s.infos, s.sleeping, s.ticks);
  }

  /** A task stays alive until it exits, and only an addition brings one to life. */
  lemma StepAlive(s: State, e: Event, t: nat)
    requires Safe(s) && Enabled(s, e)
    ensures Alive(Next(s, e), t) <==> (Alive(s, t) && !(e.ExitE? && t == s.current)) || e == AddE(t)
  {
    hide Pids, Elsewhere, WakeDue;
    if s.ready != [] { assert s.ready[0] in s.ready; }
    match e
    case TickE =>
      TickSteps(s);
      var s1 := UseQuantum(WakeDue(Count(s)));
      hide Safe, Count, UseQuantum;
      WakeAlive(Count(s), t);
      SwitchAlive(s1, t);
    case YieldE => SwitchAlive(s.(quantum := 0), t);
    case SleepE(ms) => SwitchAlive(LieDown(s, ms), t);
    case ExitE => SwitchAlive(s.(infos := SetState(s.infos, s.current, DEAD), quantum := 0), t);
    case _ =>
  }

  /** An exit leaves a DEAD slot in no queue. */
  lemma ExitKills(s: State)
    requires Safe(s) && s.current != s.idle
    ensures var s' := Next(s, ExitE);
            !Alive(s', s.current) && |s'.infos| == TASK_MAX && s'.infos[s.current].state == DEAD
  {
    StepAlive(s, ExitE, s.current);
    assert s.ready != [] && s.ready[0] in s.ready;
  }

  /** Each tick is charged to the task that was running, and to no other. */
  lemma StepCharges(s: State, e: Event, t: nat)
    requires Safe(s) && Enabled(s, e) && t < TASK_MAX && !(e.CreateE? && FreeSlot(s.infos, 1) == t)
    ensures var s' := Next(s, e);
            |s'.infos| == TASK_MAX
            && s'.infos[t].ticksRun == s.infos[t].ticksRun + if e.TickE? && t == s.current then 1 else 0
  {
    hide Pids, Elsewhere, Due, Kept, AllReady;
    if e.TickE? {
      var s1 := Count(s);
      AllReadyAt(s1.infos, Due(s1.infos, s1.sleeping, s1.ticks), t);
    }
  }

  /** An added task runs before 10 ticks for each waiting one, and those of the current slice, have passed. */
  lemma AddedRuns(ss: seq<State>, es: seq<Event>, t: nat)
    requires IsRun(ss, es) && es != [] && es[0] == AddE(t) && ss[0].current < |ss[0].infos|
    requires forall i | 1 <= i <= |es| :: ss[i].current != t
    ensures Ticks(es[1..]) < 10 * |ss[0].ready| + Max(ss[0].quantum, 1)
  {
    RunIsSafe(ss, es, 1);
    var r, k := ss[1..], |ss[0].ready|;
    assert r[0] == ss[1] == Add(ss[0], t);
    forall i | 0 <= i < |es| - 1 ensures r[i] == ss[i + 1] && es[1..][i] == es[i + 1] {}
    hide Next, Enabled, Safe;
    var j := BoundedDispatch(r, es[1..], k);
  }

  // ----- How long a sleep and a time slice last -----

  lemma {:induction false} TicksAdd(es: seq<Event>, i: nat)
    requires i < |es|
    ensures Ticks(es[..i + 1]) == Ticks(es[..i]) + if es[i].TickE? then 1 else 0
    ensures Ticks(es[..0]) == 0
  {
    assert es[..i + 1][..i] == es[..i];
  }

  lemma StepTicks(s: State, e: Event)
    requires Safe(s) && Enabled(s, e)
    ensures Next(s, e).ticks == s.ticks + if e.TickE? then 1 else 0
  {
  }

  lemma FallsAsleep(s: State, ms: nat)
    requires Safe(s) && s.current != s.idle
    ensures var s' := Next(s, SleepE(ms));
            && s.current in s'.sleeping && s'.ticks == s.ticks && s.current < |s'.infos|
            && s'.infos[s.current].wakeTick == s.ticks + ms
  {
    hide Pids, Elsewhere;
    LieDownIsSwitchable(s, ms);
    SwitchSparesOthers(LieDown(s, ms), s.current);
  }

  lemma NotIdle(s: State, ms: nat)
    requires Enabled(s, SleepE(ms))
    ensures s.current != s.idle
  {
  }

  lemma SleepersInRange(s: State, t: nat)
    requires Safe(s)
    ensures t in s.sleeping ==> t < |s.infos|
  {
  }

  /** The sleeper of the run's first event, i events later, if its time has not come. */
  lemma {:induction false} StillAsleep(ss: seq<State>, es: seq<Event>, ms: nat, i: nat)
    requires IsRun(ss, es) && es != [] && es[0] == SleepE(ms) && 1 <= i <= |es|
    requires Ticks(es[..i]) < Max(ms, 1)
    ensures Safe(ss[0]) && Safe(ss[i]) && ss[0].current in ss[i].sleeping
    ensures ss[i].infos[ss[0].current].wakeTick == ss[0].ticks + ms && ss[i].ticks == ss[0].ticks + Ticks(es[..i])
  {
    hide Safe, Next, Enabled;
    RunIsSafe(ss, es, 0);
    RunIsSafe(ss, es, i);
    TicksAdd(es, i - 1);
    if i == 1 {
      NotIdle(ss[0], ms);
      FallsAsleep(ss[0], ms);
    } else {
      StillAsleep(ss, es, ms, i - 1);
      StepAndSleeper(ss[i - 1], es[i - 1], ss[0].current);
      StepTicks(ss[i - 1], es[i - 1]);
      SleepersInRange(ss[i], ss[0].current);
    }
  }

  /** A task that sleeps for ms ticks is on the sleep list until that many ticks of the run have passed, or
      one for a sleep of 0, and the tick that completes them takes it off. */
  lemma SleepLasts(ss: seq<State>, es: seq<Event>, ms: nat, i: nat)
    requires IsRun(ss, es) && es != [] && es[0] == SleepE(ms) && 1 <= i <= |es|
    ensures Ticks(es[..i]) < Max(ms, 1) ==> ss[0].current in ss[i].sleeping
    ensures es[i - 1].TickE? && Ticks(es[..i]) == Max(ms, 1) ==> ss[0].current !in ss[i].sleeping
  {
    hide Next, Enabled;
    TicksAdd(es, i - 1);
    if Ticks(es[..i]) < Max(ms, 1) {
      StillAsleep(ss, es, ms, i);
    } else if es[i - 1].TickE? && Ticks(es[..i]) == Max(ms, 1) && i > 1 {
      StillAsleep(ss, es, ms, i - 1);
      StepAndSleeper(ss[i - 1], es[i - 1], ss[0].current);
    }
  }

  /** A yield hands the processor to the head of the ready queue and takes the caller to its tail. */
  lemma YieldDispatches(s: State)
    requires Safe(s) && s.ready != []
    ensures Next(s, YieldE).current == s.ready[0] && Next(s, YieldE).ready == s.ready[1..] + [s.current]
  {
    assert s.ready[0] in s.ready;
  }

  /** The running task gives the processor up by itself. */
  predicate GivesUp(e: Event) { e.YieldE? || e.SleepE? || e.ExitE? }

  lemma DispatchSetsQuantum(s: State, e: Event)
    requires Safe(s) && Enabled(s, e)
    ensures Next(s, e).current != s.current ==> Next(s, e).quantum == 10
  {
  }

  lemma SliceStep(s: State, e: Event)
    requires Safe(s) && Enabled(s, e) && !GivesUp(e) && s.quantum > 0
    ensures e.TickE? && s.quantum == 1 && s.current != s.idle ==> Next(s, e).current != s.current
    ensures !(e.TickE? && s.quantum == 1) ==>
              Next(s, e).current == s.current && Next(s, e).quantum == s.quantum - if e.TickE? then 1 else 0
    ensures Next(s, e).idle == s.idle
  {
    if e.TickE? {
      var s1 := UseQuantum(WakeDue(Count(s)));
      assert s.current != s.idle ==>
               s.idle in s.ready && s.ready[0] in s.ready && s1.ready != [] && s1.ready[0] == s.ready[0];
    }
  }

  /** A task that the first event of a run dispatches, and that does not give the processor up, keeps it
      for ten ticks; the tenth takes it away, unless it is the idle task. */
  lemma {:induction false} SliceLasts(ss: seq<State>, es: seq<Event>, i: nat)
    requires IsRun(ss, es) && es != [] && ss[1].current != ss[0].current && 1 <= i <= |es|
    requires forall j | 1 <= j < i :: !GivesUp(es[j])
    requires Ticks(es[..i]) - Ticks(es[..1]) <= 10
    ensures Ticks(es[..i]) - Ticks(es[..1]) < 10 ==>
              ss[i].current == ss[1].current && ss[i].quantum == 10 - (Ticks(es[..i]) - Ticks(es[..1]))
              && ss[i].idle == ss[1].idle
    ensures Ticks(es[..i]) - Ticks(es[..1]) == 10 && es[i - 1].TickE? && ss[1].current != ss[1].idle ==>
              ss[i].current != ss[1].current
  {
    hide Safe, Next, Enabled;
    RunIsSafe(ss, es, i - 1);
    TicksAdd(es, i - 1);
    if i == 1 {
      DispatchSetsQuantum(ss[0], es[0]);
    } else {
      SliceLasts(ss, es, i - 1);
      if Ticks(es[..i - 1]) - Ticks(es[..1]) < 10 { SliceStep(ss[i - 1], es[i - 1]); }
    }
  }
}
