/** The waiter list shared by the mutex and the semaphore (kernel/sync.c): a 16-entry array
    and a fill count, changed only inside guarded sections. */
module Waiters {
  const WAITER_MAX: nat := 16

  datatype Waiters = Waiters(slots: seq<nat>, n: nat)

  /** Duplicate-free, within 16 entries, zero past the fill count. */
  ghost predicate WellFormed(w: Waiters)
  {
    && |w.slots| == WAITER_MAX && w.n <= WAITER_MAX
    && (forall i: nat, j: nat | i < j < w.n :: w.slots[i] != w.slots[j])
    && (forall i: nat | w.n <= i < WAITER_MAX :: w.slots[i] == 0)
  }

  ghost predicate Has(w: Waiters, pid: nat)
  {
    exists i: nat :: i < w.n && i < |w.slots| && w.slots[i] == pid
  }

  /** The registration section. */
  function Register(w: Waiters, pid: nat): Waiters
  {
    if w.n < WAITER_MAX && w.n < |w.slots| then Waiters(w.slots[w.n := pid], w.n + 1) else w
  }

  /** The first entry holding pid, or n. */
  function IndexOf(w: Waiters, pid: nat, from: nat): (i: nat)
    requires w.n <= |w.slots| && from <= w.n
    ensures from <= i <= w.n && (i < w.n ==> w.slots[i] == pid)
    ensures forall j | from <= j < i :: w.slots[j] != pid
    decreases w.n - from
  {
    if from == w.n || w.slots[from] == pid then from else IndexOf(w, pid, from + 1)
  }

  /** The removal section: the last entry moves into the hole. */
  function Unregister(w: Waiters, pid: nat): Waiters
  {
    if w.n > |w.slots| then w
    else
      var i := IndexOf(w, pid, 0);
      if i == w.n then w else Waiters(w.slots[i := w.slots[w.n - 1]][w.n - 1 := 0], w.n - 1)
  }

  lemma RegisterAdds(w: Waiters, pid: nat)
    requires WellFormed(w) && !Has(w, pid)
    ensures WellFormed(Register(w, pid))
    ensures forall p :: Has(Register(w, pid), p) <==> Has(w, p) || (p == pid && w.n < 16)
  {
    var w' := Register(w, pid);
    if w.n < WAITER_MAX {
      forall p ensures Has(w', p) <==> Has(w, p) || p == pid {
        if Has(w, p) { var i: nat :| i < w.n && w.slots[i] == p; assert w'.slots[i] == p; }
        assert w'.slots[w.n] == pid;
        if Has(w', p) && p != pid { var i: nat :| i < w'.n && w'.slots[i] == p; assert w.slots[i] == p; }
      }
    }
  }

  lemma UnregisterRemoves(w: Waiters, pid: nat)
    requires WellFormed(w)
    ensures WellFormed(Unregister(w, pid))
    ensures forall p :: Has(Unregister(w, pid), p) <==> Has(w, p) && p != pid
  {
    var w', k := Unregister(w, pid), IndexOf(w, pid, 0);
    forall p ensures Has(w', p) <==> Has(w, p) && p != pid {
      if Has(w, p) && p != pid {
        var i: nat :| i < w.n && w.slots[i] == p;
        assert w'.slots[if i == w.n - 1 && k < w.n then k else i] == p;
      }
      if Has(w', p) {
        var i: nat :| i < w'.n && w'.slots[i] == p;
        assert w.slots[if i == k then w.n - 1 else i] == p;
      }
    }
  }

  /** The array itself. */
  class WaiterList {
    const slots: array<nat>
    var n: nat

    ghost function Abs(): Waiters
      reads this, slots
    {
      Waiters(slots[..], n)
    }

    constructor ()
      ensures fresh(slots) && WellFormed(Abs()) && n == 0
    {
      slots := new nat[WAITER_MAX](_ => 0);
      n := 0;
    }

    /** mutex_init and sem_init. */
    method Clear()
      requires slots.Length == WAITER_MAX
      modifies this, slots
      ensures WellFormed(Abs()) && n == 0
    {
      n := 0;
      var i := 0;
      while i < WAITER_MAX
        invariant i <= WAITER_MAX && n == 0 && forall j | 0 <= j < i :: slots[j] == 0
      {
        slots[i] := 0;
        i := i + 1;
      }
    }

    /** Register the caller while there is room. */
    method Add(pid: nat)
      requires WellFormed(Abs())
      modifies this, slots
      ensures Abs() == Register(old(Abs()), pid)
    {
      if n < WAITER_MAX {
        slots[n] := pid;
        n := n + 1;
      }
    }

    /** Remove the caller; the last entry fills the hole. */
    method Remove(pid: nat)
      requires WellFormed(Abs())
      modifies this, slots
      ensures Abs() == Unregister(old(Abs()), pid)
    {
      var i := 0;
      while i < n
        invariant i <= n && Abs() == old(Abs()) && IndexOf(Abs(), pid, i) == IndexOf(Abs(), pid, 0)
      {
        if slots[i] == pid {
          n := n - 1;
          slots[i] := slots[n];
          slots[n] := 0;
          return;
        }
        i := i + 1;
      }
    }
  }
}

/** Words used as locks: exclusion among the tasks between an exchange that returned 0 and the
    store of 0. */
module Exclusion {
  /** A lock word and the tasks it protects against each other: at most one is inside, and
      the word is set exactly while one is. */
  ghost predicate Exclusive<Pc>(pc: seq<Pc>, inside: Pc -> bool, word: bool)
  {
    && (forall t: nat, u: nat | t < |pc| && u < |pc| && inside(pc[t]) && inside(pc[u]) :: t == u)
    && (word <==> exists t: nat :: t < |pc| && inside(pc[t]))
  }

  /** How one task's move may treat a lock word: enter when it is clear, leave and clear it, or
      neither. */
  predicate Respects<Pc>(inside: Pc -> bool, p: Pc, p': Pc, word: bool, word': bool)
  {
    if inside(p) == inside(p') then word' == word
    else if inside(p') then !word && word'
    else !word'
  }

  lemma ExclusiveStays<Pc>(pc: seq<Pc>, inside: Pc -> bool, word: bool, t: nat, p': Pc, word': bool)
    requires Exclusive(pc, inside, word) && t < |pc|
    requires Respects(inside, pc[t], p', word, word')
    ensures Exclusive(pc[t := p'], inside, word')
  {
    var pc' := pc[t := p'];
    if word {
      var u: nat :| u < |pc| && inside(pc[u]);
      if u == t { assert inside(pc'[t]) <==> word'; } else { assert inside(pc'[u]) && pc'[u] == pc[u]; }
    } else {
      assert inside(pc'[t]) <==> word';
    }
  }
}

/** The mutex protocol: N tasks, each exchange, store and guarded section one step, in any
    interleaving. */
module Mutex {
  import opened Arith
  import opened Waiters
  import opened Exclusion

  /** Where a task is.  `reg` records whether its slow path found room in the waiter array. */
  datatype Pc =
    | Outside
    | TryOwner                    // mutex_try_lock: the exchange succeeded
    | FastOwner                   // mutex_lock: the first exchange succeeded
    | RegEnter                    // spinning on the guard, to register
    | RegBody                     // holding the guard
    | RegLeave(reg: bool)         // about to release the guard
    | Spin(reg: bool)             // yield-spinning on the lock
    | SlowOwner(reg: bool)        // the exchange succeeded
    | UnregEnter(reg: bool)
    | UnregBody(reg: bool)
    | UnregLeave
    | Holding
    | Unlocking                   // mutex_unlock: owner_pid cleared, locked still set
    | Stray                       // the same, called without holding the mutex

  datatype Call = CallTryLock | CallLock | CallUnlock

  datatype State = State(locked: bool, owner: nat, waiters: Waiters, guard: bool, pc: seq<Pc>)

  /** The task owns the lock word. */
  predicate InLock(p: Pc)
  {
    || p.TryOwner? || p.FastOwner? || p.SlowOwner? || p.UnregEnter? || p.UnregBody? || p.UnregLeave?
    || p.Holding? || p.Unlocking?
  }

  /** The task owns the guard. */
  predicate InGuard(p: Pc) { p.RegBody? || p.RegLeave? || p.UnregBody? || p.UnregLeave? }

  predicate Registered(p: Pc)
  {
    || (p.RegLeave? && p.reg) || (p.Spin? && p.reg) || (p.SlowOwner? && p.reg)
    || (p.UnregEnter? && p.reg) || (p.UnregBody? && p.reg)
  }

  function At(s: State, t: nat, p: Pc): State
    requires t < |s.pc|
  {
    s.(pc := s.pc[t := p])
  }

  /** One step of the two guarded sections, which register and remove the task as a waiter. */
  function GuardedStep(s: State, t: nat, pid: nat): (s': State)
    requires t < |s.pc|
    ensures |s'.pc| == |s.pc|
  {
    match s.pc[t]
    case RegEnter => if s.guard then s else At(s.(guard := true), t, RegBody)
    case RegBody => At(s.(waiters := Register(s.waiters, pid)), t, RegLeave(s.waiters.n < WAITER_MAX))
    case RegLeave(reg) => At(s.(guard := false), t, Spin(reg))
    case UnregEnter(reg) => if s.guard then s else At(s.(guard := true), t, UnregBody(reg))
    case UnregBody(reg) => At(s.(waiters := Unregister(s.waiters, pid)), t, UnregLeave)
    case UnregLeave => At(s.(guard := false), t, Holding)
    case _ => s
  }

  /** One step of task t, whose pid is `pid`.  `call` is the choice it makes when it has one. */
  function Step(s: State, t: nat, pid: nat, call: Call): (s': State)
    requires t < |s.pc|
    ensures |s'.pc| == |s.pc|
  {
    match s.pc[t]
    case Outside =>
      if call.CallTryLock? then if s.locked then s else At(s.(locked := true), t, TryOwner)
      else if call.CallLock? then if s.locked then At(s, t, RegEnter) else At(s.(locked := true), t, FastOwner)
      else At(s.(owner := 0), t, Stray)
    case TryOwner => At(s.(owner := pid), t, Holding)
    case FastOwner => At(s.(owner := pid), t, Holding)
    case Spin(reg) => if s.locked then s else At(s.(locked := true), t, SlowOwner(reg))
    case SlowOwner(reg) => At(s.(owner := pid), t, UnregEnter(reg))
    case Holding => if call.CallUnlock? then At(s.(owner := 0), t, Unlocking) else s
    case Unlocking => At(s.(locked := false), t, Outside)
    case Stray => At(s.(locked := false), t, Outside)
    case _ => GuardedStep(s, t, pid)
  }

  /** A task that unlocks without holding the mutex finds owner_pid zero at its first store and the
      lock word clear at its second. */
  predicate Careful(s: State, t: nat, call: Call)
    requires t < |s.pc|
  {
    && (s.pc[t].Outside? && call.CallUnlock? ==> s.owner == 0)
    && (s.pc[t].Stray? ==> !s.locked)
  }

  /** mutex_init: nobody is inside. */
  ghost predicate Start(s: State)
  {
    && !s.locked && s.owner == 0 && !s.guard
    && WellFormed(s.waiters) && s.waiters.n == 0
    && forall t: nat | t < |s.pc| :: s.pc[t] == Outside
  }

  /** The lock owner whose pid is in owner_pid. */
  predicate Named(p: Pc) { p.Holding? || p.UnregEnter? || p.UnregBody? || p.UnregLeave? }

  /** A nonzero owner_pid is the pid of the task that owns the lock; it is zero while the owner
      has yet to write it and once it has cleared it. */
  ghost predicate Owner(s: State, pids: seq<nat>)
  {
    && |pids| == |s.pc|
    && (s.owner != 0 ==> exists t: nat :: t < |s.pc| && Named(s.pc[t]) && pids[t] == s.owner)
    && (forall t: nat | t < |s.pc| && InLock(s.pc[t]) :: s.owner == if Named(s.pc[t]) then pids[t] else 0)
  }

  /** The waiter array holds exactly the pids of the registered slow-path tasks. */
  ghost predicate Waiting(s: State, pids: seq<nat>)
  {
    && |pids| == |s.pc| && WellFormed(s.waiters)
    && (forall t: nat | t < |s.pc| && Registered(s.pc[t]) :: Has(s.waiters, pids[t]))
    && (forall p: nat | Has(s.waiters, p) :: exists t: nat :: t < |s.pc| && Registered(s.pc[t]) && pids[t] == p)
  }

  ghost predicate Inv(s: State, pids: seq<nat>)
  {
    && Exclusive(s.pc, InLock, s.locked) && Exclusive(s.pc, InGuard, s.guard)
    && Owner(s, pids) && Waiting(s, pids)
  }

  lemma StartIsSafe(s: State, pids: seq<nat>)
    requires Start(s) && |pids| == |s.pc|
    ensures Inv(s, pids)
  {
  }

  lemma StepLocks(s: State, t: nat, pid: nat, call: Call)
    requires t < |s.pc| && Careful(s, t, call)
    ensures var s' := Step(s, t, pid, call);
            var p, p' := s.pc[t], s'.pc[t];
            s'.pc == s.pc[t := p'] && Respects(InLock, p, p', s.locked, s'.locked)
  {
    hide Register, Unregister, Registered, Named, InGuard;
  }

  lemma StepGuards(s: State, t: nat, pid: nat, call: Call)
    requires t < |s.pc|
    ensures Respects(InGuard, s.pc[t], Step(s, t, pid, call).pc[t], s.guard, Step(s, t, pid, call).guard)
  {
    hide Register, Unregister, Registered, Named, InLock;
  }

  lemma StepWaiters(s: State, t: nat, pid: nat, call: Call)
    requires t < |s.pc|
    ensures var s' := Step(s, t, pid, call);
            var p, p' := s.pc[t], s'.pc[t];
            if p.RegBody? then
              s'.waiters == Register(s.waiters, pid) && !Registered(p) && (Registered(p') <==> s.waiters.n < WAITER_MAX)
            else if p.UnregBody? then s'.waiters == Unregister(s.waiters, pid) && !Registered(p')
            else s'.waiters == s.waiters && (Registered(p') <==> Registered(p))
  {
    hide Register, Unregister, InLock, InGuard, Named;
  }

  lemma StepNames(s: State, t: nat, pid: nat, call: Call)
    requires t < |s.pc| && Careful(s, t, call)
    ensures var s' := Step(s, t, pid, call);
            var p, p' := s.pc[t], s'.pc[t];
            && (s'.owner != s.owner || Named(p') != Named(p) ==> InLock(p) && s'.owner == if Named(p') then pid else 0)
            && (InLock(p') && !InLock(p) ==> !Named(p'))
  {
    hide Register, Unregister, Registered, InGuard;
  }

  /** What a step does, seen from outside: it moves one task, and that task respects both lock
      words, owner_pid and the waiter array. */
  lemma StepEffect(s: State, t: nat, pid: nat, call: Call)
    requires t < |s.pc| && Careful(s, t, call)
    ensures var s' := Step(s, t, pid, call);
            var p, p' := s.pc[t], s'.pc[t];
            && s'.pc == s.pc[t := p']
            && Respects(InLock, p, p', s.locked, s'.locked)
            && Respects(InGuard, p, p', s.guard, s'.guard)
            && (s'.owner != s.owner || Named(p') != Named(p) ==> InLock(p) && s'.owner == if Named(p') then pid else 0)
            && (InLock(p') && !InLock(p) ==> !Named(p'))
            && (if p.RegBody? then
                  && s'.waiters == Register(s.waiters, pid) && !Registered(p)
                  && (Registered(p') <==> s.waiters.n < WAITER_MAX)
                else if p.UnregBody? then s'.waiters == Unregister(s.waiters, pid) && !Registered(p')
                else s'.waiters == s.waiters && (Registered(p') <==> Registered(p)))
  {
    hide Step, Register, Unregister, Registered, InLock, InGuard, Named, Respects;
    StepLocks(s, t, pid, call);
    StepGuards(s, t, pid, call);
    StepWaiters(s, t, pid, call);
    StepNames(s, t, pid, call);
  }

  lemma StepExclusive(s: State, pids: seq<nat>, t: nat, call: Call)
    requires Inv(s, pids) && t < |s.pc| && Careful(s, t, call)
    ensures var s' := Step(s, t, pids[t], call);
            Exclusive(s'.pc, InLock, s'.locked) && Exclusive(s'.pc, InGuard, s'.guard)
  {
    hide Step, InLock, InGuard, Registered, Waiting, Exclusive, Respects;
    StepEffect(s, t, pids[t], call);
    var s' := Step(s, t, pids[t], call);
    ExclusiveStays(s.pc, InLock, s.locked, t, s'.pc[t], s'.locked);
    ExclusiveStays(s.pc, InGuard, s.guard, t, s'.pc[t], s'.guard);
  }

  lemma NamedIsInLock()
    ensures forall p :: Named(p) ==> InLock(p)
  {
  }

  lemma StepOwner(s: State, pids: seq<nat>, t: nat, call: Call)
    requires Inv(s, pids) && t < |s.pc| && Careful(s, t, call)
    ensures Owner(Step(s, t, pids[t], call), pids)
  {
    hide Step, InLock, InGuard, Registered, Waiting, Named, Register, Unregister;
    NamedIsInLock();
    StepExclusive(s, pids, t, call);
    StepEffect(s, t, pids[t], call);
    var s' := Step(s, t, pids[t], call);
    if s'.owner != 0 {
      if s'.owner != s.owner || Named(s'.pc[t]) != Named(s.pc[t]) {
        assert Named(s'.pc[t]) && pids[t] == s'.owner;
      } else {
        var u: nat :| u < |s.pc| && Named(s.pc[u]) && pids[u] == s.owner;
        assert Named(s'.pc[u]);
      }
    }
  }

  lemma StepWaiting(s: State, pids: seq<nat>, t: nat, call: Call)
    requires Inv(s, pids) && Distinct(pids) && t < |s.pc| && Careful(s, t, call)
    ensures Waiting(Step(s, t, pids[t], call), pids)
  {
    hide Step, Exclusive, Owner, WellFormed, Has, Register, Unregister, Registered;
    StepEffect(s, t, pids[t], call);
    var s' := Step(s, t, pids[t], call);
    if s.pc[t].RegBody? {
      assert !Has(s.waiters, pids[t]);
      RegisterAdds(s.waiters, pids[t]);
    } else if s.pc[t].UnregBody? {
      UnregisterRemoves(s.waiters, pids[t]);
    }
    forall p: nat | Has(s'.waiters, p) ensures exists u: nat :: u < |s'.pc| && Registered(s'.pc[u]) && pids[u] == p {
      if Has(s.waiters, p) {
        var u: nat :| u < |s.pc| && Registered(s.pc[u]) && pids[u] == p;
        assert Registered(s'.pc[u]);
      } else {
        assert Registered(s'.pc[t]) && pids[t] == p;
      }
    }
  }

  lemma CarelessBreaks(s: State, pids: seq<nat>, t: nat, call: Call)
    requires Inv(s, pids) && t < |s.pc| && !Careful(s, t, call)
    ensures !Inv(Step(s, t, pids[t], call), pids)
  {
    hide InGuard, Registered, Waiting, Register, Unregister;
    var s' := Step(s, t, pids[t], call);
    NamedIsInLock();
    var u: nat :| u < |s.pc| && InLock(s.pc[u]) && (s.pc[t].Stray? || (Named(s.pc[u]) && pids[u] == s.owner));
    assert s'.pc[u] == s.pc[u] && InLock(s'.pc[u]);
  }

  /** A step keeps the invariant exactly when it is careful. */
  lemma StepInvIff(s: State, pids: seq<nat>, t: nat, call: Call)
    requires Inv(s, pids) && Distinct(pids) && t < |s.pc|
    ensures Inv(Step(s, t, pids[t], call), pids) <==> Careful(s, t, call)
  {
    if Careful(s, t, call) {
      StepExclusive(s, pids, t, call);
      StepOwner(s, pids, t, call);
      StepWaiting(s, pids, t, call);
    } else {
      CarelessBreaks(s, pids, t, call);
    }
  }

  datatype Move = Move(task: nat, call: Call)

  ghost predicate IsRun(ss: seq<State>, moves: seq<Move>, pids: seq<nat>)
  {
    && |ss| == |moves| + 1 && Start(ss[0]) && |pids| == |ss[0].pc| && Distinct(pids)
    && forall i | 0 <= i < |moves| ::
         && moves[i].task < |pids| == |ss[i].pc|
         && ss[i + 1] == Step(ss[i], moves[i].task, pids[moves[i].task], moves[i].call)
  }

  /** Every step before the i-th state is careful. */
  ghost predicate CarefulUntil(ss: seq<State>, moves: seq<Move>, pids: seq<nat>, i: nat)
    requires IsRun(ss, moves, pids) && i <= |moves|
  {
    forall j | 0 <= j < i :: Careful(ss[j], moves[j].task, moves[j].call)
  }

  /** Every state of every interleaving satisfies the invariant, stray unlocks included as long as
      they are careful. */
  lemma {:induction false} RunInv(ss: seq<State>, moves: seq<Move>, pids: seq<nat>, i: nat)
    requires IsRun(ss, moves, pids) && i <= |moves| && CarefulUntil(ss, moves, pids, i)
    ensures |ss[i].pc| == |pids| && Inv(ss[i], pids)
  {
    if i == 0 {
      StartIsSafe(ss[0], pids);
    } else {
      RunInv(ss, moves, pids, i - 1);
      StepInvIff(ss[i - 1], pids, moves[i - 1].task, moves[i - 1].call);
    }
  }

  /** A run keeps the invariant up to its i-th state exactly when every step until then is careful. */
  lemma RunInvIff(ss: seq<State>, moves: seq<Move>, pids: seq<nat>, i: nat)
    requires IsRun(ss, moves, pids) && i <= |moves|
    ensures (forall j | 0 <= j <= i :: Inv(ss[j], pids)) <==> CarefulUntil(ss, moves, pids, i)
  {
    hide Inv, Careful, Step;
    if forall j | 0 <= j <= i :: Inv(ss[j], pids) {
      forall j | 0 <= j < i ensures Careful(ss[j], moves[j].task, moves[j].call) {
        assert Inv(ss[j], pids) && Inv(ss[j + 1], pids);
        StepInvIff(ss[j], pids, moves[j].task, moves[j].call);
      }
    }
    if CarefulUntil(ss, moves, pids, i) {
      forall j: nat | j <= i ensures Inv(ss[j], pids) { RunInv(ss, moves, pids, j); }
    }
  }

  /** Only a task that holds the mutex calls mutex_unlock. */
  ghost predicate HoldersUnlock(ss: seq<State>, moves: seq<Move>, pids: seq<nat>)
    requires IsRun(ss, moves, pids)
  {
    forall j | 0 <= j < |moves| :: !(ss[j].pc[moves[j].task].Outside? && moves[j].call.CallUnlock?)
  }

  lemma NoNewStray(s: State, t: nat, pid: nat, call: Call)
    requires t < |s.pc| && !s.pc[t].Stray? && !(s.pc[t].Outside? && call.CallUnlock?)
    ensures var s' := Step(s, t, pid, call); s'.pc == s.pc[t := s'.pc[t]] && !s'.pc[t].Stray?
  {
    hide Register, Unregister;
  }

  /** Runs in which only holders unlock are careful. */
  lemma {:induction false} HoldersAreCareful(ss: seq<State>, moves: seq<Move>, pids: seq<nat>, i: nat)
    requires IsRun(ss, moves, pids) && HoldersUnlock(ss, moves, pids) && i <= |moves|
    ensures CarefulUntil(ss, moves, pids, i) && forall t: nat | t < |ss[i].pc| :: !ss[i].pc[t].Stray?
  {
    if i > 0 {
      HoldersAreCareful(ss, moves, pids, i - 1);
      var s, m := ss[i - 1], moves[i - 1];
      NoNewStray(s, m.task, pids[m.task], m.call);
    }
  }

  /** Mutual exclusion: in every interleaving at most one task holds the mutex, and owner_pid
      is its pid. */
  lemma MutualExclusion(ss: seq<State>, moves: seq<Move>, pids: seq<nat>, i: nat, t: nat, u: nat)
    requires IsRun(ss, moves, pids) && i <= |moves| && CarefulUntil(ss, moves, pids, i)
    requires t < |pids| && u < |pids|
    requires t < |ss[i].pc| && u < |ss[i].pc| && ss[i].pc[t].Holding? && ss[i].pc[u].Holding?
    ensures t == u && ss[i].owner == pids[t] && ss[i].locked
  {
    RunInv(ss, moves, pids, i);
  }

  // ----- An unlock by a task that does not hold the mutex -----

  /** Its first store is harmless exactly when owner_pid is zero, its second exactly when the lock word
      is clear.  Other tasks may run between the two. */
  lemma StrayIff(s: State, pids: seq<nat>, t: nat, call: Call)
    requires Inv(s, pids) && Distinct(pids) && t < |s.pc|
    ensures s.pc[t].Outside? ==> (Inv(Step(s, t, pids[t], CallUnlock), pids) <==> s.owner == 0)
    ensures s.pc[t].Stray? ==> (Inv(Step(s, t, pids[t], call), pids) <==> !s.locked)
  {
    StepInvIff(s, pids, t, CallUnlock);
    StepInvIff(s, pids, t, call);
  }

  /** Two steps of one task. */
  function Twice(s: State, t: nat, pid: nat, call: Call): (s': State)
    requires t < |s.pc|
    ensures |s'.pc| == |s.pc|
  {
    Step(Step(s, t, pid, call), t, pid, call)
  }

  /** While one task holds the mutex, a stray unlock lets the caller in beside it. */
  lemma StrayUnlockBreaksExclusion(s: State, pids: seq<nat>, t: nat, u: nat)
    requires Inv(s, pids) && t < |s.pc| && u < |s.pc| && s.pc[t].Holding? && s.pc[u].Outside?
    ensures t != u && !Careful(Step(s, u, pids[u], CallUnlock), u, CallUnlock)
    ensures var s' := Twice(Twice(s, u, pids[u], CallUnlock), u, pids[u], CallTryLock);
            s'.pc[t].Holding? && s'.pc[u].Holding?
  {
    assert InLock(s.pc[t]) && s.locked;
  }

  lemma OwnerMeansLocked(s: State, pids: seq<nat>)
    requires Inv(s, pids)
    ensures s.owner != 0 ==> s.locked
  {
    if s.owner != 0 {
      var t: nat :| t < |s.pc| && Named(s.pc[t]) && pids[t] == s.owner;
      assert InLock(s.pc[t]);
    }
  }

  /** That the mutex is free when the stray unlock is called does not help: another task may take it
      between the two stores. */
  lemma FreeAtCallIsNotEnough(s: State, pids: seq<nat>, t: nat, u: nat)
    requires Inv(s, pids) && !s.locked && t < |s.pc| && u < |s.pc| && t != u && s.pc[t].Outside? && s.pc[u].Outside?
    ensures Careful(s, u, CallUnlock)
    ensures var s1 := Step(s, u, pids[u], CallUnlock);
            var s2 := Twice(s1, t, pids[t], CallTryLock);
            var s3 := Step(s2, u, pids[u], CallUnlock);
            var s4 := Twice(s3, u, pids[u], CallTryLock);
            !Careful(s2, u, CallUnlock) && s4.pc[t].Holding? && s4.pc[u].Holding?
  {
    OwnerMeansLocked(s, pids);
  }

  /** A run of two tasks reaches a state with one holder and one task outside. */
  lemma HolderIsReachable(pids: seq<nat>) returns (ss: seq<State>, moves: seq<Move>)
    requires |pids| == 2 && Distinct(pids)
    ensures IsRun(ss, moves, pids) && |ss| == 3 && Inv(ss[2], pids)
    ensures |ss[2].pc| == 2 && ss[2].pc[0].Holding? && ss[2].pc[1].Outside?
  {
    var s0 := State(false, 0, Waiters(seq(WAITER_MAX, _ => 0), 0), false, [Outside, Outside]);
    var s1 := Step(s0, 0, pids[0], CallTryLock);
    var s2 := Step(s1, 0, pids[0], CallTryLock);
    moves := [Move(0, CallTryLock), Move(0, CallTryLock)];
    ss := [s0, s1, s2];
    RunInv(ss, moves, pids, 2);
  }

  /** A run of six steps, which begins with a stray unlock of the free mutex, reaches two holders. */
  lemma TwoHoldersReachable(pids: seq<nat>) returns (ss: seq<State>, moves: seq<Move>)
    requires |pids| == 2 && Distinct(pids)
    ensures IsRun(ss, moves, pids) && |ss| == 7 && !ss[0].locked && moves[0] == Move(1, CallUnlock)
    ensures |ss[6].pc| == 2 && ss[6].pc[0].Holding? && ss[6].pc[1].Holding?
  {
    hide Register, Unregister;
    var w := Waiters(seq(WAITER_MAX, _ => 0), 0);
    ss := [State(false, 0, w, false, [Outside, Outside]), State(false, 0, w, false, [Outside, Stray]),
           State(true, 0, w, false, [TryOwner, Stray]), State(true, pids[0], w, false, [Holding, Stray]),
           State(false, pids[0], w, false, [Holding, Outside]), State(true, pids[0], w, false, [Holding, TryOwner]),
           State(true, pids[1], w, false, [Holding, Holding])];
    moves := [Move(1, CallUnlock), Move(0, CallTryLock), Move(0, CallTryLock), Move(1, CallUnlock),
              Move(1, CallTryLock), Move(1, CallTryLock)];
  }

  // ----- The calls, undisturbed -----

  /** Task t alone for n steps. */
  function Alone(s: State, t: nat, pid: nat, call: Call, n: nat): (s': State)
    requires t < |s.pc|
    ensures |s'.pc| == |s.pc|
    decreases n
  {
    if n == 0 then s else Alone(Step(s, t, pid, call), t, pid, call, n - 1)
  }

  lemma AloneTwo(s: State, t: nat, pid: nat, call: Call)
    requires t < |s.pc|
    ensures Alone(s, t, pid, call, 2) == Twice(s, t, pid, call)
  {
    hide Step;
    var s1 := Step(s, t, pid, call);
    assert Alone(s, t, pid, call, 2) == Alone(s1, t, pid, call, 1);
  }

  /** A try and a lock take a free mutex; a try leaves a taken one alone; the holder's unlock frees it. */
  lemma CallsAlone(s: State, t: nat, pid: nat)
    requires t < |s.pc|
    ensures s.pc[t] == Outside && !s.locked ==>
              && Alone(s, t, pid, CallTryLock, 2) == State(true, pid, s.waiters, s.guard, s.pc[t := Holding])
              && Alone(s, t, pid, CallLock, 2) == State(true, pid, s.waiters, s.guard, s.pc[t := Holding])
    ensures s.pc[t] == Outside && s.locked ==> Step(s, t, pid, CallTryLock) == s
    ensures s.pc[t] == Holding ==>
              Alone(s, t, pid, CallUnlock, 2) == State(false, 0, s.waiters, s.guard, s.pc[t := Outside])
  {
    AloneTwo(s, t, pid, CallTryLock);
    AloneTwo(s, t, pid, CallLock);
    AloneTwo(s, t, pid, CallUnlock);
  }

  lemma RegisterSteps(s: State, t: nat, pid: nat)
    requires t < |s.pc| && !s.guard && s.pc[t] == RegEnter
    ensures Twice(s, t, pid, CallLock) ==
            State(s.locked, s.owner, Register(s.waiters, pid), true, s.pc[t := RegLeave(s.waiters.n < WAITER_MAX)])
    ensures Step(Twice(s, t, pid, CallLock), t, pid, CallLock) ==
            State(s.locked, s.owner, Register(s.waiters, pid), false, s.pc[t := Spin(s.waiters.n < WAITER_MAX)])
  {
    hide Register;
  }

  /** A lock of a taken mutex registers the caller, as far as there is room, and spins. */
  lemma SlowLockAlone(s: State, t: nat, pid: nat, call: Call)
    requires t < |s.pc| && !s.guard && WellFormed(s.waiters) && !Has(s.waiters, pid)
    ensures s.pc[t] == Outside && s.locked ==>
              var s' := Alone(s, t, pid, CallLock, 4);
              && s'.pc == s.pc[t := Spin(s.waiters.n < WAITER_MAX)] && s'.locked && s'.owner == s.owner && !s'.guard
              && forall p :: Has(s'.waiters, p) <==> Has(s.waiters, p) || (p == pid && s.waiters.n < WAITER_MAX)
  {
    hide Register, Unregister, Has, GuardedStep;
    RegisterAdds(s.waiters, pid);
    if s.pc[t] == Outside && s.locked {
      var s1 := Step(s, t, pid, CallLock);
      RegisterSteps(s1, t, pid);
      AloneTwo(s1, t, pid, CallLock);
      var s3 := Twice(s1, t, pid, CallLock);
      assert Alone(s, t, pid, CallLock, 4) == Step(s3, t, pid, CallLock);
    }
  }

  lemma AloneFive(s: State, t: nat, pid: nat, call: Call)
    requires t < |s.pc|
    ensures Alone(s, t, pid, call, 5) == Twice(Twice(Step(s, t, pid, call), t, pid, call), t, pid, call)
  {
    hide Step;
    var s1 := Step(s, t, pid, call);
    var s3 := Twice(s1, t, pid, call);
    AloneTwo(s3, t, pid, call);
    assert Alone(s, t, pid, call, 5) == Alone(s1, t, pid, call, 4);
    var s2 := Step(s1, t, pid, call);
    assert Alone(s1, t, pid, call, 4) == Alone(s2, t, pid, call, 3) == Alone(s3, t, pid, call, 2);
  }

  /** Once the mutex is free, five steps of the spinning caller take it and remove the caller from the
      waiters. */
  lemma SpinAlone(s: State, t: nat, pid: nat, reg: bool, call: Call)
    requires t < |s.pc| && !s.guard && !s.locked && s.pc[t] == Spin(reg) && WellFormed(s.waiters)
    ensures var s' := Alone(s, t, pid, call, 5);
            && s'.pc == s.pc[t := Holding] && s'.locked && s'.owner == pid && !s'.guard
            && forall p :: Has(s'.waiters, p) <==> Has(s.waiters, p) && p != pid
  {
    hide Register, Unregister, Has;
    UnregisterRemoves(s.waiters, pid);
    var s1 := Step(s, t, pid, call);
    var s2 := Step(s1, t, pid, call);
    var s3 := Step(s2, t, pid, call);
    var s4 := Step(s3, t, pid, call);
    var s5 := Step(s4, t, pid, call);
    assert s5 == State(true, pid, Unregister(s.waiters, pid), false, s.pc[t := Holding]);
    AloneFive(s, t, pid, call);
  }
}

/** The counting semaphore: N tasks, each exchange, store and guarded section one step, in any
    interleaving. */
module Semaphore {
  import opened Arith
  import opened Waiters
  import opened Exclusion

  /** Where a task is; Enter is spinning on the guard, Body and Leave hold it. */
  datatype Pc =
    | Outside
    | WaitEnter | WaitBody
    | WaitLeave(reg: bool)        // count was zero: about to release the guard, then retry
    | RetryEnter(reg: bool) | RetryBody(reg: bool) | RetryLeave(reg: bool)
    | TryEnter | TryBody
    | PostEnter | PostBody
    | Leave                       // about to release the guard and return
    | TryLeave(ok: bool)          // the same in sem_trywait, with its result

  datatype Call = CallWait | CallTryWait | CallPost

  datatype State = State(count: int, waiters: Waiters, guard: bool, pc: seq<Pc>)

  predicate InGuard(p: Pc)
  {
    p.WaitBody? || p.WaitLeave? || p.RetryBody? || p.RetryLeave? || p.TryBody? || p.PostBody? || p.Leave?
    || p.TryLeave?
  }

  predicate Registered(p: Pc)
  {
    (p.WaitLeave? || p.RetryEnter? || p.RetryBody? || p.RetryLeave?) && p.reg
  }

  function At(s: State, t: nat, p: Pc): State
    requires t < |s.pc|
  {
    s.(pc := s.pc[t := p])
  }

  function Enter(s: State, t: nat, p: Pc): State
    requires t < |s.pc|
  {
    if s.guard then s else At(s.(guard := true), t, p)
  }

  function Take(s: State): State { s.(count := s.count - 1) }

  function Step(s: State, t: nat, pid: nat, call: Call): State
    requires t < |s.pc|
  {
    match s.pc[t]
    case Outside => At(s, t, if call.CallWait? then WaitEnter else if call.CallTryWait? then TryEnter else PostEnter)
    case WaitEnter => Enter(s, t, WaitBody)
    case WaitBody =>
      if s.count > 0 then At(Take(s), t, Leave)
      else At(s.(waiters := Register(s.waiters, pid)), t, WaitLeave(s.waiters.n < WAITER_MAX))
    case WaitLeave(reg) => At(s.(guard := false), t, RetryEnter(reg))
    case RetryEnter(reg) => Enter(s, t, RetryBody(reg))
    case RetryBody(reg) =>
      if s.count > 0 then At(Take(s).(waiters := Unregister(s.waiters, pid)), t, Leave)
      else At(s, t, RetryLeave(reg))
    case RetryLeave(reg) => At(s.(guard := false), t, RetryEnter(reg))
    case TryEnter => Enter(s, t, TryBody)
    case TryBody => if s.count > 0 then At(Take(s), t, TryLeave(true)) else At(s, t, TryLeave(false))
    case PostEnter => Enter(s, t, PostBody)
    case PostBody => At(s.(count := s.count + 1), t, Leave)
    case Leave => At(s.(guard := false), t, Outside)
    case TryLeave(_) => At(s.(guard := false), t, Outside)
  }

  ghost predicate Start(s: State)
  {
    && !s.guard && WellFormed(s.waiters) && s.waiters.n == 0
    && forall t: nat | t < |s.pc| :: s.pc[t] == Outside
  }

  ghost predicate Waiting(s: State, pids: seq<nat>)
  {
    && |pids| == |s.pc| && WellFormed(s.waiters)
    && (forall t: nat | t < |s.pc| && Registered(s.pc[t]) :: Has(s.waiters, pids[t]))
    && (forall p: nat | Has(s.waiters, p) :: exists t: nat :: t < |s.pc| && Registered(s.pc[t]) && pids[t] == p)
  }

  // ----- What a step completes, told from where the task was and is -----

  /** A wait is over, or a try has succeeded. */
  predicate Obtains(p: Pc, p': Pc)
  {
    ((p.WaitBody? || p.RetryBody?) && p' == Leave) || (p.TryBody? && p' == TryLeave(true))
  }

  /** A post is done. */
  predicate Gives(p: Pc, p': Pc) { p.PostBody? && p' == Leave }

  ghost predicate Inv(s: State, pids: seq<nat>)
  {
    Exclusive(s.pc, InGuard, s.guard) && Waiting(s, pids)
  }

  lemma StepEffect(s: State, t: nat, pid: nat, call: Call)
    requires t < |s.pc|
    ensures var s' := Step(s, t, pid, call);
            var p, p' := s.pc[t], s'.pc[t];
            && s'.pc == s.pc[t := p']
            && Respects(InGuard, p, p', s.guard, s'.guard)
            && s'.count == s.count + (if Gives(p, p') then 1 else 0) - (if Obtains(p, p') then 1 else 0)
            && (Obtains(p, p') ==> s.count > 0)
            && (if p.WaitBody? && s.count <= 0 then
                  && s'.waiters == Register(s.waiters, pid) && !Registered(p)
                  && (Registered(p') <==> s.waiters.n < WAITER_MAX)
                else if p.RetryBody? && s.count > 0 then s'.waiters == Unregister(s.waiters, pid) && !Registered(p')
                else s'.waiters == s.waiters && (Registered(p') <==> Registered(p)))
  {
    hide Register, Unregister;
  }

  lemma StepInv(s: State, pids: seq<nat>, t: nat, call: Call)
    requires Inv(s, pids) && Distinct(pids) && t < |s.pc|
    ensures Inv(Step(s, t, pids[t], call), pids)
  {
    hide Step, Exclusive, WellFormed, Has, Register, Unregister, Registered, InGuard, Obtains, Gives;
    StepEffect(s, t, pids[t], call);
    var s' := Step(s, t, pids[t], call);
    ExclusiveStays(s.pc, InGuard, s.guard, t, s'.pc[t], s'.guard);
    if s.pc[t].WaitBody? && s.count <= 0 {
      assert !Has(s.waiters, pids[t]);
      RegisterAdds(s.waiters, pids[t]);
    } else if s.pc[t].RetryBody? && s.count > 0 {
      UnregisterRemoves(s.waiters, pids[t]);
    }
    forall p: nat | Has(s'.waiters, p) ensures exists u: nat :: u < |s'.pc| && Registered(s'.pc[u]) && pids[u] == p {
      if Has(s.waiters, p) {
        var u: nat :| u < |s.pc| && Registered(s.pc[u]) && pids[u] == p;
        assert Registered(s'.pc[u]);
      } else {
        assert Registered(s'.pc[t]) && pids[t] == p;
      }
    }
  }

  datatype Move = Move(task: nat, call: Call)

  ghost predicate IsRun(ss: seq<State>, moves: seq<Move>, pids: seq<nat>)
  {
    && |ss| == |moves| + 1 && Start(ss[0]) && |pids| == |ss[0].pc| && Distinct(pids)
    && forall i | 0 <= i < |moves| ::
         && moves[i].task < |pids| == |ss[i].pc|
         && ss[i + 1] == Step(ss[i], moves[i].task, pids[moves[i].task], moves[i].call)
  }

  /** The step of the i-th move. */
  ghost predicate ObtainsAt(ss: seq<State>, moves: seq<Move>, i: nat)
    requires i < |moves| && i + 1 < |ss|
  {
    var t := moves[i].task;
    t < |ss[i].pc| && t < |ss[i + 1].pc| && Obtains(ss[i].pc[t], ss[i + 1].pc[t])
  }

  ghost predicate GivesAt(ss: seq<State>, moves: seq<Move>, i: nat)
    requires i < |moves| && i + 1 < |ss|
  {
    var t := moves[i].task;
    t < |ss[i].pc| && t < |ss[i + 1].pc| && Gives(ss[i].pc[t], ss[i + 1].pc[t])
  }

  /** How many waits and successful tries the first n moves complete. */
  ghost function Waits(ss: seq<State>, moves: seq<Move>, n: nat): (w: nat)
    requires n <= |moves| && |moves| < |ss|
  {
    if n == 0 then 0 else Waits(ss, moves, n - 1) + if ObtainsAt(ss, moves, n - 1) then 1 else 0
  }

  /** How many posts they complete. */
  ghost function Posts(ss: seq<State>, moves: seq<Move>, n: nat): (w: nat)
    requires n <= |moves| && |moves| < |ss|
  {
    if n == 0 then 0 else Posts(ss, moves, n - 1) + if GivesAt(ss, moves, n - 1) then 1 else 0
  }

  /** In every interleaving count is the initial value plus the completed posts minus the completed
      waits, never negative after a non-negative start, and the waiter array holds exactly the
      registered tasks. */
  lemma {:induction false} RunInv(ss: seq<State>, moves: seq<Move>, pids: seq<nat>, i: nat)
    requires IsRun(ss, moves, pids) && i <= |moves|
    ensures |ss[i].pc| == |pids| && Inv(ss[i], pids)
    ensures ss[i].count == ss[0].count + Posts(ss, moves, i) - Waits(ss, moves, i)
    ensures ss[0].count >= 0 ==> ss[i].count >= 0
  {
    if i > 0 {
      RunInv(ss, moves, pids, i - 1);
      var s, m := ss[i - 1], moves[i - 1];
      StepInv(s, pids, m.task, m.call);
      StepEffect(s, m.task, pids[m.task], m.call);
    }
  }

  /** A semaphore never lets more callers through than its initial value and the posts allow. */
  lemma NeverOverdrawn(ss: seq<State>, moves: seq<Move>, pids: seq<nat>, i: nat)
    requires IsRun(ss, moves, pids) && i <= |moves| && ss[0].count >= 0
    ensures Waits(ss, moves, i) <= ss[0].count + Posts(ss, moves, i)
  {
    RunInv(ss, moves, pids, i);
  }

  /** A look at the count decides: with a unit there the caller is through, without one it is not. */
  lemma LookDecides(s: State, t: nat, pid: nat, call: Call)
    requires t < |s.pc|
    ensures var p' := Step(s, t, pid, call).pc;
            && |p'| == |s.pc|
            && (s.pc[t].WaitBody? ==> if s.count > 0 then p'[t] == Leave else p'[t].WaitLeave?)
            && (s.pc[t].RetryBody? ==> if s.count > 0 then p'[t] == Leave else p'[t].RetryLeave?)
            && (s.pc[t].TryBody? ==> p'[t] == TryLeave(s.count > 0))
  {
    hide Register, Unregister;
  }

  lemma StepSize(s: State, t: nat, pid: nat, call: Call)
    requires t < |s.pc|
    ensures |Step(s, t, pid, call).pc| == |s.pc|
  {
    hide Register, Unregister;
  }

  /** Task t alone for n steps. */
  function Alone(s: State, t: nat, pid: nat, call: Call, n: nat): (s': State)
    requires t < |s.pc|
    ensures |s'.pc| == |s.pc|
    decreases n
  {
    if n == 0 then s else StepSize(s, t, pid, call); Alone(Step(s, t, pid, call), t, pid, call, n - 1)
  }

  lemma AloneFour(s: State, t: nat, pid: nat, call: Call)
    requires t < |s.pc|
    ensures |Step(s, t, pid, call).pc| == |s.pc|
    ensures var s1 := Step(s, t, pid, call);
            && |Step(s1, t, pid, call).pc| == |s.pc|
            && var s2 := Step(s1, t, pid, call);
            && |Step(s2, t, pid, call).pc| == |s.pc|
            && Alone(s, t, pid, call, 4) == Step(Step(s2, t, pid, call), t, pid, call)
  {
    hide Step;
    var s1 := Step(s, t, pid, call);
    StepSize(s, t, pid, call);
    var s2 := Step(s1, t, pid, call);
    StepSize(s1, t, pid, call);
    StepSize(s2, t, pid, call);
  }

  /** The calls, undisturbed: a wait and a try with a unit there, a try without one, a post, and a waiter's
      next look after a post all return, and change the count as they should. */
  lemma CallsAlone(s: State, t: nat, pid: nat)
    requires t < |s.pc| && !s.guard && s.pc[t] == Outside
    ensures s.count > 0 ==> Alone(s, t, pid, CallWait, 4) == s.(count := s.count - 1)
    ensures s.count > 0 ==> Alone(s, t, pid, CallTryWait, 4) == s.(count := s.count - 1)
    ensures s.count <= 0 ==> Alone(s, t, pid, CallTryWait, 4) == s
    ensures Alone(s, t, pid, CallPost, 4) == s.(count := s.count + 1)
  {
    hide Register, Unregister;
    assert s.pc[t := Outside] == s.pc;
    AloneFour(s, t, pid, CallWait);
    AloneFour(s, t, pid, CallTryWait);
    AloneFour(s, t, pid, CallPost);
  }

  /** A registered waiter that looks while there is a unit returns, and leaves the waiter array. */
  lemma RetryAlone(s: State, t: nat, pid: nat, reg: bool, call: Call)
    requires t < |s.pc| && !s.guard && s.pc[t] == RetryEnter(reg) && s.count > 0 && WellFormed(s.waiters)
    ensures var s' := Alone(s, t, pid, call, 3);
            && s'.pc == s.pc[t := Outside] && s'.count == s.count - 1 && !s'.guard
            && forall p :: Has(s'.waiters, p) <==> Has(s.waiters, p) && p != pid
  {
    hide Unregister, Register, Has;
    UnregisterRemoves(s.waiters, pid);
    var s1 := Step(s, t, pid, call);
    var s2 := Step(s1, t, pid, call);
    var s3 := Step(s2, t, pid, call);
    assert Alone(s, t, pid, call, 3) == Alone(s1, t, pid, call, 2) == Alone(s2, t, pid, call, 1) == s3;
  }
}
