/** Guards for C++ static initialisation (cxx_guards.cpp), an implementation of the
    One-time Construction API, section 3.3.3 of the Itanium C++ ABI. Every operation on
    the mutex, the semaphore or the guard is one step, and tasks interleave freely. */
module CxxGuards {
  import opened Options

  type Task = nat
  type Guard = nat

  /** `INT_MAX`, the limit of the counting semaphore. */
  const SEM_MAX: nat := 0x7FFF_FFFF

  /** Where a task stands: `Running` program code, which may be the initialisers of guards it
      has won, or inside a guard call; `End*` is `__cxa_guard_release` when `ok`, else
      `__cxa_guard_abort`. */
  datatype Pc =
    | Running
    | AcqLock(g: Guard)               // about to take the mutex
    | AcqCheck(g: Guard)              // mutex taken, about to test `pending`
    | WaitGive(g: Guard)              // counted as waiting, about to give the mutex back
    | WaitSem(g: Guard)               // about to take the semaphore
    | WaitLock(g: Guard)              // woken, about to take the mutex again
    | WaitCheck(g: Guard)             // mutex taken, about to test the loop condition
    | AcqDecide(g: Guard)             // mutex taken, about to test `ready`
    | AcqUnlock(g: Guard, won: bool)  // about to give the mutex and return `won`
    | EndLock(g: Guard, ok: bool)
    | EndClear(g: Guard, ok: bool)
    | Signal(left: nat)               // mutex taken, `left` semaphore gives to go
    | EndUnlock

  predicate HoldsMutex(p: Pc)
  {
    match p
    case AcqCheck(_) | WaitGive(_) | WaitCheck(_) | AcqDecide(_) | AcqUnlock(_, _)
       | EndClear(_, _) | Signal(_) | EndUnlock => true
    case _ => false
  }

  predicate Claims(p: Pc) { (p.AcqUnlock? && p.won) || p.EndLock? || p.EndClear? }

  predicate InWait(p: Pc) { p.WaitGive? || p.WaitSem? || p.WaitLock? || p.WaitCheck? }

  /** Blocked in `wait_for_guard_obj`, or about to block there. */
  predicate AtSem(p: Pc) { p.WaitGive? || p.WaitSem? }

  /** The shared state, and for each task where it stands and the guards it is initialising:
      won in acquire and not yet released or aborted. Initialisers may nest. */
  datatype State = State(
    pc: map<Task, Pc>, held: map<Task, set<Guard>>, ready: set<Guard>, pending: set<Guard>,
    mutex: Option<Task>, tokens: nat, waiting: nat)
  {
    predicate Owns(t: Task, g: Guard) { t in held && g in held[t] }

    ghost function Waiters(): set<Task> { set t | t in pc && InWait(pc[t]) }
    ghost function Sleepers(): set<Task> { set t | t in pc && AtSem(pc[t]) }

    /** Semaphore gives still due from a releaser in the middle of signalling. */
    ghost function Due(): nat
    {
      if mutex.Some? && mutex.value in pc && pc[mutex.value].Signal? then pc[mutex.value].left else 0
    }

    /** Exactly the task recorded as holder stands where the mutex is held. */
    ghost predicate MutexInv() {
      && (forall t | t in pc :: HoldsMutex(pc[t]) <==> mutex == Some(t))
      && (mutex.Some? ==> mutex.value in pc)
    }

    /** A guard is pending exactly while one task, and only one, is initialising it. */
    ghost predicate OwnerInv() {
      && held.Keys == pc.Keys
      && (forall g | g in pending :: exists t :: Owns(t, g))
      && (forall t, g | Owns(t, g) :: g in pending)
      && (forall t, u, g | Owns(t, g) && Owns(u, g) :: t == u)
    }

    ghost predicate ReadyInv() {
      && pending !! ready
      && (forall t | t in pc && pc[t].AcqDecide? :: pc[t].g !in pending)
      && (forall t | t in pc && pc[t].AcqUnlock? && !pc[t].won :: pc[t].g in ready)
    }

    /** A task about to report a win, or ending an initialisation, owns the guard. */
    ghost predicate HeldInv() {
      forall t | t in pc && Claims(pc[t]) :: Owns(t, pc[t].g)
    }

    /** The waiting count is exact, and unless a guard is pending there is a token, given
        or due, for every task blocked on the semaphore. */
    ghost predicate CountInv() {
      && |pc| <= SEM_MAX
      && waiting == |Waiters()|
      && (pending == {} ==> tokens + Due() >= |Sleepers()|)
    }

    ghost predicate Inv() { MutexInv() && OwnerInv() && HeldInv() && ReadyInv() && CountInv() }
  }

  /** What a running task asks next: to acquire a guard, or to end an initialisation of its own. */
  datatype Choice = Acquire(guard: Guard) | End(guard: Guard, ok: bool)

  /** Take the mutex if it is free, moving on to `p`; blocked otherwise. */
  function Lock(s: State, t: Task, p: Pc): Option<State>
  {
    if s.mutex.None? then Some(s.(pc := s.pc[t := p], mutex := Some(t))) else None
  }

  /** One step of task `t`; `None` when it is blocked, or asks to end what it does not own. */
  function Step(s: State, t: Task, c: Choice): Option<State>
    requires t in s.pc && t in s.held
  {
    match s.pc[t]
    case Running =>
      if c.Acquire? then Some(s.(pc := s.pc[t := AcqLock(c.guard)]))
      else if s.Owns(t, c.guard) then Some(s.(pc := s.pc[t := EndLock(c.guard, c.ok)]))
      else None
    case AcqLock(g) => Lock(s, t, AcqCheck(g))
    case AcqCheck(g) =>
      if g in s.pending then Some(s.(pc := s.pc[t := WaitGive(g)], waiting := s.waiting + 1))
      else Some(s.(pc := s.pc[t := AcqDecide(g)]))
    case WaitGive(g) => Some(s.(pc := s.pc[t := WaitSem(g)], mutex := None))
    case WaitSem(g) =>
      if s.tokens == 0 then None
      else Some(s.(pc := s.pc[t := WaitLock(g)], tokens := s.tokens - 1))
    case WaitLock(g) => Lock(s, t, WaitCheck(g))
    case WaitCheck(g) =>
      if g in s.pending then Some(s.(pc := s.pc[t := WaitGive(g)]))
      else Some(s.(pc := s.pc[t := AcqDecide(g)], waiting := if s.waiting > 0 then s.waiting - 1 else 0))
    case AcqDecide(g) =>
      if g in s.ready then Some(s.(pc := s.pc[t := AcqUnlock(g, false)]))
      else Some(s.(pc := s.pc[t := AcqUnlock(g, true)], pending := s.pending + {g}, held := s.held[t := s.held[t] + {g}]))
    case AcqUnlock(g, won) => Some(s.(pc := s.pc[t := Running], mutex := None))
    case EndLock(g, ok) => Lock(s, t, EndClear(g, ok))
    case EndClear(g, ok) =>
      Some(s.(pc := s.pc[t := Signal(s.waiting)], pending := s.pending - {g}, held := s.held[t := s.held[t] - {g}],
              ready := if ok then s.ready + {g} else s.ready))
    case Signal(left) =>
      if left == 0 then Some(s.(pc := s.pc[t := EndUnlock]))
      else Some(s.(pc := s.pc[t := Signal(left - 1)], tokens := if s.tokens < SEM_MAX then s.tokens + 1 else s.tokens))
    case EndUnlock => Some(s.(pc := s.pc[t := Running], mutex := None))
  }

  /** The assertions of the source that guard the next step of `t`: a release or abort
      finds its guard pending, an abort finds it not ready, and a task gives the mutex
      only while it holds it. */
  predicate AssertsHold(s: State, t: Task)
    requires t in s.pc
  {
    var p := s.pc[t];
    && (p.EndClear? ==> p.g in s.pending && (!p.ok ==> p.g !in s.ready))
    && (p.WaitGive? || p.AcqUnlock? || p.EndUnlock? ==> s.mutex == Some(t))
    && (p.WaitCheck? ==> s.waiting > 0)
  }

  lemma {:induction false} SubsetSize<T>(a: set<T>, b: set<T>)
    requires a <= b
    ensures |a| <= |b|
  {
    if a == {} {
    } else {
      var x :| x in a;
      SubsetSize(a - {x}, b - {x});
    }
  }

  lemma SizeWithout<T>(a: set<T>, t: T)
    ensures |a| == |a - {t}| + (if t in a then 1 else 0)
  {
    if t in a { assert a == (a - {t}) + {t}; }
  }

  lemma WaitersAfter(s: State, t: Task, s': State)
    requires t in s.pc && t in s'.pc && s'.pc == s.pc[t := s'.pc[t]]
    ensures |s'.Waiters()| == |s.Waiters()| - (if InWait(s.pc[t]) then 1 else 0) + (if InWait(s'.pc[t]) then 1 else 0)
  {
    assert s'.Waiters() - {t} == s.Waiters() - {t};
    SizeWithout(s.Waiters(), t);
    SizeWithout(s'.Waiters(), t);
  }

  lemma SleepersAfter(s: State, t: Task, s': State)
    requires t in s.pc && t in s'.pc && s'.pc == s.pc[t := s'.pc[t]]
    ensures |s'.Sleepers()| == |s.Sleepers()| - (if AtSem(s.pc[t]) then 1 else 0) + (if AtSem(s'.pc[t]) then 1 else 0)
    ensures |s'.Sleepers()| <= |s'.Waiters()| <= |s.pc|
  {
    assert s'.Sleepers() - {t} == s.Sleepers() - {t};
    SizeWithout(s.Sleepers(), t);
    SizeWithout(s'.Sleepers(), t);
    SubsetSize(s'.Sleepers(), s'.Waiters());
    SubsetSize(s'.Waiters(), s'.pc.Keys);
    assert s'.pc.Keys == s.pc.Keys;
  }

  lemma DueAfter(s: State, t: Task, c: Choice)
    requires s.MutexInv() && t in s.pc && t in s.held && Step(s, t, c).Some?
    ensures Step(s, t, c).value.Due() ==
              if s.pc[t].EndClear? then s.waiting
              else if s.pc[t].Signal? && s.pc[t].left > 0 then s.pc[t].left - 1 else s.Due()
    ensures s.pc[t].Signal? ==> s.Due() == s.pc[t].left
  {
  }

  lemma StepKeepsCounts(s: State, t: Task, c: Choice)
    requires s.Inv() && t in s.pc && t in s.held && Step(s, t, c).Some?
    ensures Step(s, t, c).value.CountInv()
  {
    hide State.Waiters, State.Sleepers, State.OwnerInv, State.HeldInv, State.MutexInv, State.ReadyInv, State.Due, State.Owns;
    var s' := Step(s, t, c).value;
    WaitersAfter(s, t, s');
    SleepersAfter(s, t, s');
    DueAfter(s, t, c);
    assert s'.pc.Keys == s.pc.Keys;
  }

  lemma StepKeepsMutex(s: State, t: Task, c: Choice)
    requires s.MutexInv() && t in s.pc && t in s.held && Step(s, t, c).Some?
    ensures Step(s, t, c).value.MutexInv()
  {
  }

  /** One task gains or gives up ownership of guards; everything else stays. */
  lemma OwnersMove(s: State, t: Task, s': State, gained: set<Guard>, lost: set<Guard>)
    requires s.OwnerInv() && t in s.held && s'.pc.Keys == s.pc.Keys
    requires s'.held == s.held[t := s.held[t] - lost + gained] && lost <= s.held[t]
    requires gained !! s.pending && s'.pending == s.pending - lost + gained
    ensures s'.OwnerInv()
  {
    forall g | g in s'.pending
      ensures exists u :: s'.Owns(u, g)
    {
      if g in gained {
        assert s'.Owns(t, g);
      } else {
        var u :| s.Owns(u, g);
        assert s'.Owns(u, g);
      }
    }
    forall u, g | s'.Owns(u, g) ensures g in s'.pending && (g in gained ==> u == t) && (g !in gained ==> s.Owns(u, g)) {
      assert u != t || g !in gained ==> s.Owns(u, g);
      assert g in lost ==> s.Owns(t, g);
    }
    forall u, v, g | s'.Owns(u, g) && s'.Owns(v, g) ensures u == v {
      assert g in gained || (s.Owns(u, g) && s.Owns(v, g));
    }
  }

  lemma Untouched(m: map<Task, set<Guard>>, t: Task)
    requires t in m
    ensures m[t := m[t]] == m
  {}

  lemma Without(a: set<Guard>)
    ensures a - {} == a && a + {} == a
    ensures forall g :: a - {} + {g} == a + {g} && a - {g} + {} == a - {g}
  {}

  lemma HeldAfter(s: State, t: Task, c: Choice)
    requires s.ReadyInv() && s.HeldInv() && t in s.pc && t in s.held && Step(s, t, c).Some?
    ensures var p, s' := s.pc[t], Step(s, t, c).value;
            var gained := if p.AcqDecide? && p.g !in s.ready then {p.g} else {};
            var lost := if p.EndClear? then {p.g} else {};
            && s'.held == s.held[t := s.held[t] - lost + gained] && lost <= s.held[t]
            && gained !! s.pending && s'.pending == s.pending - lost + gained
  {
    if s.pc[t].EndClear? { assert s.Owns(t, s.pc[t].g); }
    Untouched(s.held, t);
    Without(s.pending);
    Without(s.held[t]);
  }

  lemma StepKeepsOwners(s: State, t: Task, c: Choice)
    requires s.Inv() && t in s.pc && t in s.held && Step(s, t, c).Some?
    ensures Step(s, t, c).value.OwnerInv()
  {
    hide State.CountInv, State.MutexInv, State.OwnerInv;
    var p, s' := s.pc[t], Step(s, t, c).value;
    var gained := if p.AcqDecide? && p.g !in s.ready then {p.g} else {};
    var lost := if p.EndClear? then {p.g} else {};
    HeldAfter(s, t, c);
    OwnersMove(s, t, s', gained, lost);
  }

  lemma StepKeepsHeld(s: State, t: Task, c: Choice)
    requires s.HeldInv() && t in s.pc && t in s.held && Step(s, t, c).Some?
    ensures Step(s, t, c).value.HeldInv()
  {
    var s' := Step(s, t, c).value;
    forall u | u in s'.pc && Claims(s'.pc[u]) ensures s'.Owns(u, s'.pc[u].g) {
      if u != t {
        assert s'.pc[u] == s.pc[u] && s.Owns(u, s.pc[u].g);
      }
    }
  }

  lemma StepKeepsReady(s: State, t: Task, c: Choice)
    requires s.Inv() && t in s.pc && t in s.held && Step(s, t, c).Some?
    ensures Step(s, t, c).value.ReadyInv()
  {
    hide State.CountInv, State.OwnerInv;
    if s.pc[t].EndClear? { assert s.Owns(t, s.pc[t].g); }
  }

  /** Every step of every task keeps the invariant and passes the source's assertions. */
  lemma StepKeepsInv(s: State, t: Task, c: Choice)
    requires s.Inv() && t in s.pc && t in s.held
    ensures AssertsHold(s, t)
    ensures Step(s, t, c).Some? ==> Step(s, t, c).value.Inv()
  {
    if s.pc[t].WaitCheck? { assert t in s.Waiters(); }
    if s.pc[t].EndClear? { assert s.Owns(t, s.pc[t].g); }
    if Step(s, t, c).Some? {
      StepKeepsCounts(s, t, c);
      StepKeepsMutex(s, t, c);
      StepKeepsOwners(s, t, c);
      StepKeepsHeld(s, t, c);
      StepKeepsReady(s, t, c);
    }
  }

  /** The semaphore never exceeds its limit, and a give below it adds one token. */
  lemma StepKeepsTokens(s: State, t: Task, c: Choice)
    requires t in s.pc && t in s.held && Step(s, t, c).Some? && s.tokens <= SEM_MAX
    ensures Step(s, t, c).value.tokens <= SEM_MAX
    ensures s.pc[t].Signal? && s.pc[t].left > 0 && s.tokens < SEM_MAX ==> Step(s, t, c).value.tokens == s.tokens + 1
  {}

  /** No step makes a ready guard unready, and a step that sets `ready` finds it clear. */
  lemma ReadySetOnce(s: State, t: Task, c: Choice)
    requires s.Inv() && t in s.pc && t in s.held && Step(s, t, c).Some?
    ensures s.ready <= Step(s, t, c).value.ready
    ensures s.pc[t].EndClear? && s.pc[t].ok ==> s.pc[t].g !in s.ready
    ensures Step(s, t, c).value.ready ==
            s.ready + if s.pc[t].EndClear? && s.pc[t].ok then {s.pc[t].g} else {}
  {
    if s.pc[t].EndClear? { assert s.Owns(t, s.pc[t].g); }
  }

  /** All tasks running, nothing initialised. */
  function Init(tasks: set<Task>): State
  {
    State(map t | t in tasks :: Running, map t | t in tasks :: {}, {}, {}, None, 0, 0)
  }

  datatype Move = Move(task: Task, choice: Choice)

  predicate Known(s: State, t: Task) { t in s.pc && t in s.held }

  predicate AllKnown(s: State, ms: seq<Move>) { forall i | 0 <= i < |ms| :: Known(s, ms[i].task) }

  /** A blocked task simply does not move. */
  function Next(s: State, m: Move): (s': State)
    requires Known(s, m.task)
    ensures s'.pc.Keys == s.pc.Keys && s'.held.Keys == s.held.Keys
  {
    var r := Step(s, m.task, m.choice);
    if r.Some? then r.value else s
  }

  /** A run under any scheduler. */
  function Run(s: State, ms: seq<Move>): (s': State)
    requires AllKnown(s, ms)
    ensures s'.pc.Keys == s.pc.Keys && s'.held.Keys == s.held.Keys
    decreases |ms|
  {
    if ms == [] then s else Run(Next(s, ms[0]), ms[1..])
  }

  lemma {:induction false} RunKeepsInv(s: State, ms: seq<Move>)
    requires s.Inv() && AllKnown(s, ms)
    ensures Run(s, ms).Inv() && s.ready <= Run(s, ms).ready
    decreases |ms|
  {
    hide State.Inv;
    if ms == [] {
    } else {
      StepKeepsInv(s, ms[0].task, ms[0].choice);
      if Step(s, ms[0].task, ms[0].choice).Some? { ReadySetOnce(s, ms[0].task, ms[0].choice); }
      RunKeepsInv(Next(s, ms[0]), ms[1..]);
    }
  }

  /** Over every interleaving: at most one task is initialising a guard, a ready guard is
      never initialised again, a task told 0 finds the guard ready, and when no guard is
      pending and no releaser is mid-signal there is a token for every blocked task. */
  lemma OneTimeConstruction(tasks: set<Task>, ms: seq<Move>)
    requires |tasks| <= SEM_MAX && forall i | 0 <= i < |ms| :: ms[i].task in tasks
    ensures var s := Run(Init(tasks), ms);
            && (forall t, u, g | s.Owns(t, g) && s.Owns(u, g) :: t == u)
            && (forall t, g | s.Owns(t, g) :: g !in s.ready)
            && (forall t | t in s.pc && s.pc[t].AcqUnlock? && !s.pc[t].won :: s.pc[t].g in s.ready)
            && (s.pending == {} && s.Due() == 0 ==> s.tokens >= |s.Sleepers()|)
  {
    InitInv(tasks);
    RunKeepsInv(Init(tasks), ms);
  }

  lemma InitInv(tasks: set<Task>)
    requires |tasks| <= SEM_MAX
    ensures Init(tasks).Inv() && Init(tasks).pc.Keys == tasks == Init(tasks).held.Keys
  {
    var s := Init(tasks);
    assert s.pc.Keys == tasks && s.held.Keys == tasks;
    assert s.Waiters() == {} && s.Sleepers() == {};
  }

  /** A task with business in the runtime: inside a guard call, or with a guard to end. */
  predicate Busy(s: State, t: Task)
  {
    t in s.pc && t in s.held && (!s.pc[t].Running? || s.held[t] != {})
  }

  ghost predicate SomeMoves(s: State) { exists t, c :: Busy(s, t) && Step(s, t, c).Some? }

  /** Exactly when the busy tasks can go on: none of them can if and only if the mutex is free,
      there is no token and all of them are blocked on the semaphore. */
  lemma MovesIff(s: State)
    requires s.Inv() && exists t :: Busy(s, t)
    ensures SomeMoves(s) <==> s.mutex.Some? || s.tokens > 0 || exists t :: Busy(s, t) && !s.pc[t].WaitSem?
  {
    if s.mutex.Some? {
      assert Busy(s, s.mutex.value) && Step(s, s.mutex.value, Acquire(0)).Some?;
    } else if t :| Busy(s, t) && !s.pc[t].WaitSem? {
      if s.pc[t].Running? {
        var g :| g in s.held[t];
        assert Step(s, t, End(g, true)).Some?;
      } else {
        assert Step(s, t, Acquire(0)).Some?;
      }
    } else if s.tokens > 0 {
      var t :| Busy(s, t);
      assert Step(s, t, Acquire(0)).Some?;
    }
  }

  /** When the busy tasks are stuck, some guard is pending whose initialiser is itself blocked
      on the semaphore. */
  lemma StuckOwnerWaits(s: State)
    requires s.Inv() && (exists t :: Busy(s, t)) && !SomeMoves(s)
    ensures exists t, g :: s.Owns(t, g) && g in s.pending && s.pc[t].WaitSem?
  {
    MovesIff(s);
    var t :| Busy(s, t);
    assert t in s.Sleepers();
    var g :| g in s.pending;
    var u :| s.Owns(u, g);
    assert Busy(s, u);
  }

  /** So nobody is stranded while no task waits for a guard in the middle of initialising
      another one. */
  lemma NoDeadlock(s: State)
    requires s.Inv() && exists t :: Busy(s, t)
    requires forall t | Known(s, t) && InWait(s.pc[t]) :: s.held[t] == {}
    ensures SomeMoves(s)
  {
    if !SomeMoves(s) {
      StuckOwnerWaits(s);
    }
  }

  // ---- a run that strands a task on a guard that is ready ----

  /** `k` steps of one task. */
  function Burst(t: Task, c: Choice, k: nat): (ms: seq<Move>) { seq(k, _ => Move(t, c)) }

  function Go(s: State, t: Task, c: Choice, k: nat): (s': State)
    requires Known(s, t)
    ensures s'.pc.Keys == s.pc.Keys && s'.held.Keys == s.held.Keys
    decreases k
  {
    if k == 0 then s else Go(Next(s, Move(t, c)), t, c, k - 1)
  }

  lemma {:induction false} RunBurst(s: State, t: Task, c: Choice, k: nat, ms: seq<Move>)
    requires Known(s, t) && AllKnown(Go(s, t, c, k), ms)
    ensures AllKnown(s, Burst(t, c, k) + ms)
    ensures Run(s, Burst(t, c, k) + ms) == Run(Go(s, t, c, k), ms)
    decreases k
  {
    var all := Burst(t, c, k) + ms;
    forall i | 0 <= i < |all| ensures Known(s, all[i].task) {
      assert i >= k ==> all[i] == ms[i - k];
    }
    if k == 0 {
      assert all == ms;
    } else {
      assert all[1..] == Burst(t, c, k - 1) + ms;
      RunBurst(Next(s, Move(t, c)), t, c, k - 1, ms);
    }
  }

  lemma {:induction false} GoOn(s: State, t: Task, c: Choice, k: nat, n: nat)
    requires Known(s, t)
    ensures Go(s, t, c, k + n) == Go(Go(s, t, c, k), t, c, n)
    decreases k
  {
    if k == 0 {
    } else {
      GoOn(Next(s, Move(t, c)), t, c, k - 1, n);
    }
  }

  lemma Walks(s: State, t: Task, c: Choice)
    requires Known(s, t)
    ensures var s2 := Next(Next(s, Move(t, c)), Move(t, c));
            && Go(s, t, c, 2) == s2
            && Go(s, t, c, 3) == Next(s2, Move(t, c))
            && Go(s, t, c, 4) == Next(Next(s2, Move(t, c)), Move(t, c))
            && Go(s, t, c, 5) == Next(Next(Next(s2, Move(t, c)), Move(t, c)), Move(t, c))
  {
    var s1 := Next(s, Move(t, c));
    var s2 := Next(s1, Move(t, c));
    var s3 := Next(s2, Move(t, c));
    var s4 := Next(s3, Move(t, c));
    var s5 := Next(s4, Move(t, c));
    assert Go(s4, t, c, 1) == Go(s5, t, c, 0) == s5;
    assert Go(s3, t, c, 1) == Go(s4, t, c, 0) == s4 && Go(s3, t, c, 2) == s5;
    assert Go(s2, t, c, 1) == Go(s3, t, c, 0) == s3 && Go(s2, t, c, 2) == s4 && Go(s2, t, c, 3) == s5;
    assert Go(s1, t, c, 1) == Go(s2, t, c, 0) == s2 && Go(s1, t, c, 2) == s3 && Go(s1, t, c, 3) == s4;
    assert Go(s1, t, c, 4) == s5;
  }

  /** Setting one task's position twice. */
  lemma Over(m: map<Task, Pc>, t: Task, p: Pc, q: Pc)
    ensures m[t := p][t := q] == m[t := q]
    ensures t in m && m[t] == q ==> m[t := q] == m
  {}

  predicate Free(s: State, t: Task) { Known(s, t) && s.mutex == None && s.pc[t] == Running }

  /** Five steps win a guard nobody has initialised. */
  lemma Wins(s: State, t: Task, g: Guard)
    requires Free(s, t) && g !in s.pending && g !in s.ready
    ensures Go(s, t, Acquire(g), 5) == s.(pending := s.pending + {g}, held := s.held[t := s.held[t] + {g}])
  {
    hide Go;
    Walks(s, t, Acquire(g));
    Over(s.pc, t, AcqLock(g), AcqCheck(g));
    Over(s.pc, t, AcqCheck(g), AcqDecide(g));
    Over(s.pc, t, AcqDecide(g), AcqUnlock(g, true));
    Over(s.pc, t, AcqUnlock(g, true), Running);
  }

  /** Four steps lead to the semaphore when the guard is pending. */
  lemma Blocks(s: State, t: Task, g: Guard)
    requires Free(s, t) && g in s.pending
    ensures Go(s, t, Acquire(g), 4) == s.(pc := s.pc[t := WaitSem(g)], waiting := s.waiting + 1)
  {
    hide Go;
    Walks(s, t, Acquire(g));
    Over(s.pc, t, AcqLock(g), AcqCheck(g));
    Over(s.pc, t, AcqCheck(g), WaitGive(g));
    Over(s.pc, t, WaitGive(g), WaitSem(g));
  }

  function Cleared(s: State, t: Task, g: Guard): State
    requires Known(s, t)
  {
    s.(mutex := Some(t), pending := s.pending - {g}, held := s.held[t := s.held[t] - {g}], ready := s.ready + {g})
  }

  lemma Clears(s: State, t: Task, g: Guard)
    requires Free(s, t) && s.Owns(t, g)
    ensures Go(s, t, End(g, true), 3) == Cleared(s, t, g).(pc := s.pc[t := Signal(s.waiting)])
  {
    hide Go;
    Walks(s, t, End(g, true));
    Over(s.pc, t, EndLock(g, true), EndClear(g, true));
    Over(s.pc, t, EndClear(g, true), Signal(s.waiting));
  }

  lemma SignalsTwo(s: State, t: Task, c: Choice)
    requires Known(s, t) && s.pc[t] == Signal(2) && s.tokens == 0
    ensures Go(s, t, c, 4) == s.(pc := s.pc[t := Running], mutex := None, tokens := 2)
  {
    hide Go;
    Walks(s, t, c);
    Over(s.pc, t, Signal(1), Signal(0));
    Over(s.pc, t, Signal(0), EndUnlock);
    Over(s.pc, t, EndUnlock, Running);
  }

  /** Seven steps release a guard and signal the two tasks counted as waiting. */
  lemma Releases(s: State, t: Task, g: Guard)
    requires Free(s, t) && s.Owns(t, g) && s.waiting == 2 && s.tokens == 0
    ensures Go(s, t, End(g, true), 7) ==
            s.(pending := s.pending - {g}, held := s.held[t := s.held[t] - {g}], ready := s.ready + {g}, tokens := 2)
  {
    hide Go, Step;
    GoOn(s, t, End(g, true), 3, 4);
    Clears(s, t, g);
    SignalsTwo(Go(s, t, End(g, true), 3), t, End(g, true));
    Over(s.pc, t, Signal(2), Running);
  }

  /** Four steps use up a token for nothing: the guard waited for is still pending. */
  lemma WakesInVain(s: State, t: Task, g: Guard, c: Choice)
    requires Known(s, t) && s.mutex == None && s.pc[t] == WaitSem(g) && s.tokens > 0 && g in s.pending
    ensures Go(s, t, c, 4) == s.(tokens := s.tokens - 1)
  {
    hide Go;
    Walks(s, t, c);
    Over(s.pc, t, WaitLock(g), WaitCheck(g));
    Over(s.pc, t, WaitCheck(g), WaitGive(g));
    Over(s.pc, t, WaitGive(g), WaitSem(g));
  }

  /** `a` initialises `h`; `b` initialises `g` and there needs `h`; `c` needs `g`. When `a`
      releases `h`, both tokens go to `c`. */
  function StealingRun(a: Task, b: Task, c: Task, g: Guard, h: Guard): seq<Move>
  {
    Burst(a, Acquire(h), 5) + (Burst(b, Acquire(g), 5) + (Burst(b, Acquire(h), 4) + (Burst(c, Acquire(g), 4) +
    (Burst(a, End(h, true), 7) + (Burst(c, Acquire(g), 4) + (Burst(c, Acquire(g), 4) + []))))))
  }

  function Stranded(a: Task, b: Task, c: Task, g: Guard, h: Guard): State
  {
    State(map[a := Running, b := WaitSem(h), c := WaitSem(g)], map[a := {}, b := {g}, c := {}], {h}, {g}, None, 0, 2)
  }

  /** `a` initialises `h` and `b` initialises `g`, `c` is idle. */
  function BothBusy(a: Task, b: Task, c: Task, g: Guard, h: Guard): State
  {
    State(map[a := Running, b := Running, c := Running], map[a := {h}, b := {g}, c := {}], {}, {h, g}, None, 0, 0)
  }

  /** Now `b` waits for `h` and `c` for `g`. */
  function BothWait(a: Task, b: Task, c: Task, g: Guard, h: Guard): State
  {
    State(map[a := Running, b := WaitSem(h), c := WaitSem(g)], map[a := {h}, b := {g}, c := {}], {}, {h, g}, None, 0, 2)
  }

  /** Now `h` is ready and two tokens are out. */
  function TokensOut(a: Task, b: Task, c: Task, g: Guard, h: Guard): State
  {
    Stranded(a, b, c, g, h).(tokens := 2)
  }

  lemma BothWin(a: Task, b: Task, c: Task, g: Guard, h: Guard)
    requires a != b && b != c && a != c && g != h
    ensures var s0 := Init({a, b, c});
            && Known(s0, a) && Known(s0, b)
            && Go(Go(s0, a, Acquire(h), 5), b, Acquire(g), 5) == BothBusy(a, b, c, g, h)
  {
    hide Go;
    OneWins(a, b, c, h);
    var s1 := OneBusy(a, b, c, h);
    Wins(s1, b, g);
    assert {} + {g} == {g} && {h} + {g} == {h, g};
    assert s1.held[b := {g}] == map[a := {h}, b := {g}, c := {}];
  }

  function OneBusy(a: Task, b: Task, c: Task, h: Guard): State
  {
    State(map[a := Running, b := Running, c := Running], map[a := {h}, b := {}, c := {}], {}, {h}, None, 0, 0)
  }

  lemma OneWins(a: Task, b: Task, c: Task, h: Guard)
    requires a != b && b != c && a != c
    ensures Known(Init({a, b, c}), a) && Known(Init({a, b, c}), b)
    ensures Go(Init({a, b, c}), a, Acquire(h), 5) == OneBusy(a, b, c, h)
  {
    hide Go;
    var s0 := Init({a, b, c});
    Wins(s0, a, h);
    assert {} + {h} == {h};
    assert s0.held[a := {h}] == map[a := {h}, b := {}, c := {}];
    assert s0.pc == map[a := Running, b := Running, c := Running];
  }

  lemma BothBlock(a: Task, b: Task, c: Task, g: Guard, h: Guard)
    requires a != b && b != c && a != c && g != h
    ensures Go(Go(BothBusy(a, b, c, g, h), b, Acquire(h), 4), c, Acquire(g), 4) == BothWait(a, b, c, g, h)
  {
    hide Go;
    var s2 := BothBusy(a, b, c, g, h);
    Blocks(s2, b, h);
    Blocks(Go(s2, b, Acquire(h), 4), c, g);
  }

  lemma TokensGoOut(a: Task, b: Task, c: Task, g: Guard, h: Guard)
    requires a != b && b != c && a != c && g != h
    ensures Go(BothWait(a, b, c, g, h), a, End(h, true), 7) == TokensOut(a, b, c, g, h)
  {
    hide Go;
    var s4 := BothWait(a, b, c, g, h);
    Releases(s4, a, h);
    assert s4.pending - {h} == {g} && s4.held[a] - {h} == {} && s4.ready + {h} == {h};
  }

  /** The states along the run. */
  lemma StealingStates(a: Task, b: Task, c: Task, g: Guard, h: Guard)
    requires a != b && b != c && a != c && g != h
    ensures Known(Init({a, b, c}), a) && Known(Init({a, b, c}), b) && Known(Init({a, b, c}), c)
    ensures var s1 := Go(Init({a, b, c}), a, Acquire(h), 5);
            var s2 := Go(s1, b, Acquire(g), 5);
            var s3 := Go(s2, b, Acquire(h), 4);
            var s4 := Go(s3, c, Acquire(g), 4);
            var s5 := Go(s4, a, End(h, true), 7);
            var s6 := Go(s5, c, Acquire(g), 4);
            Go(s6, c, Acquire(g), 4) == Stranded(a, b, c, g, h)
  {
    hide Go;
    BothWin(a, b, c, g, h);
    BothBlock(a, b, c, g, h);
    TokensGoOut(a, b, c, g, h);
    var s5 := TokensOut(a, b, c, g, h);
    WakesInVain(s5, c, g, Acquire(g));
    WakesInVain(Go(s5, c, Acquire(g), 4), c, g, Acquire(g));
  }

  lemma StealingRunStrands(a: Task, b: Task, c: Task, g: Guard, h: Guard)
    requires a != b && b != c && a != c && g != h
    ensures AllKnown(Init({a, b, c}), StealingRun(a, b, c, g, h))
    ensures Run(Init({a, b, c}), StealingRun(a, b, c, g, h)) == Stranded(a, b, c, g, h)
  {
    hide Run, Burst, Go, AllKnown, Init, Stranded;
    StealingStates(a, b, c, g, h);
    var s0 := Init({a, b, c});
    var s1 := Go(s0, a, Acquire(h), 5);
    var s2 := Go(s1, b, Acquire(g), 5);
    var s3 := Go(s2, b, Acquire(h), 4);
    var s4 := Go(s3, c, Acquire(g), 4);
    var s5 := Go(s4, a, End(h, true), 7);
    var s6 := Go(s5, c, Acquire(g), 4);
    NothingToRun(Go(s6, c, Acquire(g), 4));
    var r6 := Burst(c, Acquire(g), 4) + [];
    var r5 := Burst(c, Acquire(g), 4) + r6;
    var r4 := Burst(a, End(h, true), 7) + r5;
    var r3 := Burst(c, Acquire(g), 4) + r4;
    var r2 := Burst(b, Acquire(h), 4) + r3;
    var r1 := Burst(b, Acquire(g), 5) + r2;
    RunBurst(s6, c, Acquire(g), 4, []);
    RunBurst(s5, c, Acquire(g), 4, r6);
    RunBurst(s4, a, End(h, true), 7, r5);
    RunBurst(s3, c, Acquire(g), 4, r4);
    RunBurst(s2, b, Acquire(h), 4, r3);
    RunBurst(s1, b, Acquire(g), 5, r2);
    RunBurst(s0, a, Acquire(h), 5, r1);
  }

  lemma NothingToRun(s: State)
    ensures AllKnown(s, []) && Run(s, []) == s
  {}

  /** After that run `b` is blocked on `h`, which is ready and owned by nobody, `c` is blocked
      on `g`, which `b` will never finish, and no busy task can move. */
  lemma StrandedOnReadyGuard(a: Task, b: Task, c: Task, g: Guard, h: Guard)
    requires a != b && b != c && a != c && g != h
    ensures AllKnown(Init({a, b, c}), StealingRun(a, b, c, g, h))
    ensures var s := Run(Init({a, b, c}), StealingRun(a, b, c, g, h));
            && s.Inv() && Busy(s, b) && !SomeMoves(s)
            && s.pc[b] == WaitSem(h) && h in s.ready && forall t :: !s.Owns(t, h)
  {
    hide Run, StealingRun, AllKnown, State.Inv;
    StealingRunStrands(a, b, c, g, h);
    var s0 := Init({a, b, c});
    InitInv({a, b, c});
    RunKeepsInv(s0, StealingRun(a, b, c, g, h));
    assert Busy(Stranded(a, b, c, g, h), b);
    MovesIff(Stranded(a, b, c, g, h));
  }

  /** With no guard pending, a blocked task never has to wait for another one to give. */
  lemma SleeperCanWake(s: State, t: Task, c: Choice)
    requires s.Inv() && s.pending == {} && s.Due() == 0 && t in s.pc && t in s.held && s.pc[t].WaitSem?
    ensures Step(s, t, c).Some?
  {
    assert t in s.Sleepers();
  }

  // ---- the shared variables, updated in place ----

  /** The mutex, the semaphore and the guard bytes; each method is the code of one step. */
  class Runtime {
    var pc: map<Task, Pc>
    var held: map<Task, set<Guard>>
    var ready: set<Guard>
    var pending: set<Guard>
    var mutex: Option<Task>
    var waitSem: nat
    var waitingCount: nat

    constructor (tasks: set<Task>)
      ensures S() == Init(tasks)
    {
      pc, held := map t | t in tasks :: Running, map t | t in tasks :: {};
      ready, pending, mutex, waitSem, waitingCount := {}, {}, None, 0, 0;
    }

    function S(): State
      reads this
    {
      State(pc, held, ready, pending, mutex, waitSem, waitingCount)
    }

    ghost predicate Moved(s: State, t: Task, c: Choice, moved: bool)
      requires t in s.pc && t in s.held
      reads this
    {
      match Step(s, t, c)
      case None => !moved && S() == s
      case Some(s') => moved && S() == s'
    }

    /** `xSemaphoreTake` of the mutex, going on to `next`. */
    method TakeMutex(t: Task, next: Pc) returns (ok: bool)
      modifies this
      ensures ok <==> Lock(old(S()), t, next).Some?
      ensures S() == if ok then Lock(old(S()), t, next).value else old(S())
    {
      ok := mutex.None?;
      if ok {
        mutex := Some(t);
        pc := pc[t := next];
      }
    }

    /** The steps of `__cxa_guard_acquire` and `wait_for_guard_obj`. */
    method AcquireStep(t: Task, c: Choice) returns (moved: bool)
      requires t in pc && t in held && (pc[t].AcqLock? || pc[t].AcqCheck? || pc[t].AcqDecide? || pc[t].AcqUnlock?)
      modifies this
      ensures Moved(old(S()), t, c, moved)
    {
      moved := true;
      match pc[t]
      case AcqLock(g) => moved := TakeMutex(t, AcqCheck(g));
      case AcqCheck(g) =>
        if g in pending {
          waitingCount := waitingCount + 1;
          pc := pc[t := WaitGive(g)];
        } else {
          pc := pc[t := AcqDecide(g)];
        }
      case AcqDecide(g) =>
        var won := g !in ready;
        if won {
          pending := pending + {g};
          held := held[t := held[t] + {g}];
        }
        pc := pc[t := AcqUnlock(g, won)];
      case AcqUnlock(_, _) =>
        mutex := None;
        pc := pc[t := Running];
    }

    method WaitStep(t: Task, c: Choice) returns (moved: bool)
      requires t in pc && t in held && InWait(pc[t])
      modifies this
      ensures Moved(old(S()), t, c, moved)
    {
      moved := true;
      match pc[t]
      case WaitGive(g) =>
        mutex := None;
        pc := pc[t := WaitSem(g)];
      case WaitSem(g) =>
        if waitSem == 0 {
          return false;
        }
        waitSem := waitSem - 1;
        pc := pc[t := WaitLock(g)];
      case WaitLock(g) => moved := TakeMutex(t, WaitCheck(g));
      case WaitCheck(g) =>
        if g in pending {
          pc := pc[t := WaitGive(g)];
        } else {
          waitingCount := if waitingCount > 0 then waitingCount - 1 else 0;
          pc := pc[t := AcqDecide(g)];
        }
    }

    /** The steps of `__cxa_guard_release`, `__cxa_guard_abort` and `signal_waiting_tasks`. */
    method EndStep(t: Task, c: Choice) returns (moved: bool)
      requires t in pc && t in held && (pc[t].EndLock? || pc[t].EndClear? || pc[t].Signal? || pc[t].EndUnlock?)
      modifies this
      ensures Moved(old(S()), t, c, moved)
    {
      moved := true;
      match pc[t]
      case EndLock(g, ok) => moved := TakeMutex(t, EndClear(g, ok));
      case EndClear(g, ok) =>
        pending := pending - {g};
        held := held[t := held[t] - {g}];
        if ok {
          ready := ready + {g};
        }
        pc := pc[t := Signal(waitingCount)];
      case Signal(left) =>
        if left == 0 {
          pc := pc[t := EndUnlock];
        } else {
          if waitSem < SEM_MAX {
            waitSem := waitSem + 1;
          }
          pc := pc[t := Signal(left - 1)];
        }
      case EndUnlock =>
        mutex := None;
        pc := pc[t := Running];
    }

    /** One step of task `t`. */
    method Advance(t: Task, c: Choice) returns (moved: bool)
      requires t in pc && t in held
      modifies this
      ensures Moved(old(S()), t, c, moved)
    {
      var p := pc[t];
      if p.Running? {
        if c.Acquire? {
          pc := pc[t := AcqLock(c.guard)];
          moved := true;
        } else {
          moved := c.guard in held[t];
          if moved {
            pc := pc[t := EndLock(c.guard, c.ok)];
          }
        }
      } else if InWait(p) {
        moved := WaitStep(t, c);
      } else if p.EndLock? || p.EndClear? || p.Signal? || p.EndUnlock? {
        moved := EndStep(t, c);
      } else {
        moved := AcquireStep(t, c);
      }
    }
  }
}
