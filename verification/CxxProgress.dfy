/** Progress of the guards: without new acquisitions the tasks inside the runtime run out of steps
    after a bounded number of them, and then all of them are through. */
module CxxProgress {
  import opened CxxGuards

  /** What one guard to be ended is worth among `n` tasks: the release and a wake-up of everybody. */
  function Worth(n: nat): nat { 5 * n + 5 }

  const TOKEN: nat := 4

  /** Steps a task has ahead of it at `p`, wake-ups and guards to be ended not counted. */
  function Ahead(p: Pc, worth: nat): int
  {
    match p
    case Running => 0
    case AcqLock(_) | WaitLock(_) => worth + 4
    case AcqCheck(_) | WaitCheck(_) => worth + 3
    case WaitGive(_) | AcqDecide(_) => worth + 2
    case WaitSem(_) => worth + 1
    case AcqUnlock(_, _) | EndUnlock => 1
    case EndLock(_, _) => -1
    case EndClear(_, _) => -2
    case Signal(left) => 5 * left + 2
  }

  function TaskLoad(s: State, t: Task): int
    requires Known(s, t)
  {
    Worth(|s.pc|) * |s.held[t]| + Ahead(s.pc[t], Worth(|s.pc|))
  }

  ghost function Sum(s: State, ts: set<Task>): int
    requires forall t | t in ts :: Known(s, t)
    decreases |ts|
  {
    if ts == {} then 0
    else
      var t :| t in ts;
      TaskLoad(s, t) + Sum(s, ts - {t})
  }

  /** A bound on the steps the tasks can take without acquiring again. */
  ghost function Load(s: State): int
    requires s.held.Keys == s.pc.Keys
  {
    TOKEN * s.tokens + Sum(s, s.pc.Keys)
  }

  lemma {:induction false} SumWithout(s: State, ts: set<Task>, t: Task)
    requires t in ts && forall u | u in ts :: Known(s, u)
    ensures Sum(s, ts) == TaskLoad(s, t) + Sum(s, ts - {t})
    decreases |ts|
  {
    hide TaskLoad;
    var u :| u in ts && Sum(s, ts) == TaskLoad(s, u) + Sum(s, ts - {u});
    if u != t {
      SumWithout(s, ts - {u}, t);
      SumWithout(s, ts - {t}, u);
      assert ts - {u} - {t} == ts - {t} - {u};
    }
  }

  /** The sum looks only at the tasks in it. */
  lemma {:induction false} SumOfSame(s: State, s': State, ts: set<Task>)
    requires forall t | t in ts :: Known(s, t) && Known(s', t) && TaskLoad(s, t) == TaskLoad(s', t)
    ensures Sum(s, ts) == Sum(s', ts)
    decreases |ts|
  {
    hide TaskLoad;
    if ts == {} {
    } else {
      var t :| t in ts;
      SumOfSame(s, s', ts - {t});
      SumWithout(s, ts, t);
      SumWithout(s', ts, t);
    }
  }

  lemma {:induction false} SumIsNatural(s: State, ts: set<Task>)
    requires s.HeldInv() && forall t | t in ts :: Known(s, t)
    ensures Sum(s, ts) >= 0
    decreases |ts|
  {
    if ts == {} {
    } else {
      var t :| t in ts;
      SumIsNatural(s, ts - {t});
      SumWithout(s, ts, t);
      LoadIsNatural(s, t);
    }
  }

  lemma LoadIsNatural(s: State, t: Task)
    requires s.HeldInv() && Known(s, t)
    ensures TaskLoad(s, t) >= 0
  {
    var w, n := Worth(|s.pc|), |s.held[t]|;
    if Claims(s.pc[t]) {
      assert s.pc[t].g in s.held[t];
      assert n >= 1 && w * n >= w;
    }
  }

  // ---- every step but a new acquisition lowers the load ----

  lemma WaitingBound(s: State)
    requires s.Inv()
    ensures s.waiting <= |s.pc|
  {
    SubsetSize(s.Waiters(), s.pc.Keys);
    assert |s.pc| == |s.pc.Keys|;
  }

  /** How a step changes what the task holds. */
  lemma HeldSize(s: State, t: Task, c: Choice)
    requires s.Inv() && Known(s, t) && Step(s, t, c).Some?
    ensures var p, s' := s.pc[t], Step(s, t, c).value;
            |s'.held[t]| == |s.held[t]| + (if p.AcqDecide? && p.g !in s.ready then 1 else 0) - (if p.EndClear? then 1 else 0)
  {
    hide State.MutexInv, State.CountInv;
    var p, h := s.pc[t], s.held[t];
    if p.AcqDecide? {
      assert !s.Owns(t, p.g);
    } else if p.EndClear? {
      assert s.Owns(t, p.g);
      SizeWithout(h, p.g);
    }
  }

  lemma StepLowersTask(s: State, t: Task, c: Choice)
    requires s.Inv() && Known(s, t) && Step(s, t, c).Some? && !(s.pc[t].Running? && c.Acquire?)
    ensures var s' := Step(s, t, c).value;
            && Known(s', t)
            && TOKEN * s'.tokens + TaskLoad(s', t) < TOKEN * s.tokens + TaskLoad(s, t)
  {
    hide State.Inv, Worth;
    var s', w, n := Step(s, t, c).value, Worth(|s.pc|), |s.held[t]|;
    assert |s.pc.Keys| == |s.pc| && |s'.pc.Keys| == |s'.pc| && s'.pc.Keys == s.pc.Keys;
    HeldSize(s, t, c);
    OneMoreOrLess(w, n);
    WorthCovers(s);
  }

  lemma OneMoreOrLess(w: int, n: int)
    ensures w * (n + 1) == w * n + w && w * (n - 1) == w * n - w
  {}

  lemma WorthCovers(s: State)
    requires s.Inv()
    ensures Worth(|s.pc|) >= 5 * s.waiting + 5
  {
    WaitingBound(s);
  }

  lemma StepLowersLoad(s: State, t: Task, c: Choice)
    requires s.Inv() && Known(s, t) && Step(s, t, c).Some? && !(s.pc[t].Running? && c.Acquire?)
    ensures Step(s, t, c).value.Inv() && Load(Step(s, t, c).value) < Load(s)
  {
    hide State.Inv, TaskLoad;
    var s', rest := Step(s, t, c).value, s.pc.Keys - {t};
    StepKeepsInv(s, t, c);
    StepLowersTask(s, t, c);
    KeysMatch(s);
    KeysMatch(s');
    OthersSame(s, t, c);
    SumOfSame(s, s', rest);
    SumWithout(s, s.pc.Keys, t);
    SumWithout(s', s.pc.Keys, t);
  }

  lemma KeysMatch(s: State)
    requires s.Inv()
    ensures s.held.Keys == s.pc.Keys
  {}

  lemma OthersSame(s: State, t: Task, c: Choice)
    requires Known(s, t) && Step(s, t, c).Some? && s.held.Keys == s.pc.Keys
    ensures var s' := Step(s, t, c).value;
            && s'.pc.Keys == s.pc.Keys && s'.held.Keys == s.held.Keys
            && forall u | u in s.pc.Keys - {t} :: TaskLoad(s', u) == TaskLoad(s, u)
  {
    var s' := Step(s, t, c).value;
    assert s'.pc.Keys == s.pc.Keys && |s.pc.Keys| == |s.pc| && |s'.pc.Keys| == |s'.pc|;
  }

  /** The tasks only end initialisations, and every move does something. */
  ghost predicate Winding(s: State, ms: seq<Move>)
    decreases |ms|
  {
    ms == [] ||
    (Known(s, ms[0].task) && ms[0].choice.End? && Step(s, ms[0].task, ms[0].choice).Some? &&
     Winding(Next(s, ms[0]), ms[1..]))
  }

  /** However the tasks interleave, they make at most `Load(s)` steps without acquiring again. */
  lemma {:induction false} StepsBounded(s: State, ms: seq<Move>)
    requires s.Inv() && Winding(s, ms)
    ensures AllKnown(s, ms) && Run(s, ms).Inv()
    ensures s.held.Keys == s.pc.Keys && Run(s, ms).held.Keys == Run(s, ms).pc.Keys
    ensures |ms| <= Load(s) - Load(Run(s, ms)) <= Load(s)
    decreases |ms|
  {
    hide State.Inv, Step, Load;
    KeysMatch(s);
    if ms == [] {
      LoadBounded(s);
    } else {
      var m := ms[0];
      StepLowersLoad(s, m.task, m.choice);
      StepsBounded(Next(s, m), ms[1..]);
      forall i | 0 <= i < |ms| ensures Known(s, ms[i].task) {
        assert i > 0 ==> ms[1..][i - 1] == ms[i];
      }
    }
  }

  lemma LoadBounded(s: State)
    requires s.Inv() && s.held.Keys == s.pc.Keys
    ensures Load(s) >= 0
  {
    SumIsNatural(s, s.pc.Keys);
  }

  // ---- everybody gets through ----

  predicate Acquiring(p: Pc) { p.AcqLock? || p.AcqCheck? || InWait(p) }

  /** No task acquires a guard in the middle of initialising another one. */
  ghost predicate Unnested(s: State)
  {
    forall t | Known(s, t) && Acquiring(s.pc[t]) :: s.held[t] == {}
  }

  lemma StepKeepsUnnested(s: State, t: Task, c: Choice)
    requires Unnested(s) && Known(s, t) && Step(s, t, c).Some? && !(s.pc[t].Running? && c.Acquire?)
    ensures Unnested(Step(s, t, c).value)
  {}

  /** A busy task that can move can do so without acquiring. */
  lemma EndMoves(s: State) returns (m: Move)
    requires s.Inv() && Unnested(s) && exists t :: Busy(s, t)
    ensures Known(s, m.task) && m.choice.End? && Step(s, m.task, m.choice).Some?
  {
    hide State.Inv;
    NoDeadlock(s);
    var t, c :| Busy(s, t) && Step(s, t, c).Some?;
    if s.pc[t].Running? {
      var g :| g in s.held[t];
      m := Move(t, End(g, true));
    } else {
      m := Move(t, End(0, true));
    }
  }

  /** No task can move without acquiring. */
  ghost predicate AtRest(s: State)
  {
    forall t, g, ok | Known(s, t) :: Step(s, t, End(g, ok)).None?
  }

  lemma {:induction false} RunKeepsUnnested(s: State, ms: seq<Move>)
    requires s.Inv() && Unnested(s) && Winding(s, ms) && AllKnown(s, ms)
    ensures Unnested(Run(s, ms))
    decreases |ms|
  {
    hide State.Inv, Step, Unnested;
    if ms == [] {
    } else {
      StepKeepsUnnested(s, ms[0].task, ms[0].choice);
      StepKeepsInv(s, ms[0].task, ms[0].choice);
      assert AllKnown(Next(s, ms[0]), ms[1..]);
      RunKeepsUnnested(Next(s, ms[0]), ms[1..]);
    }
  }

  /** When no initialiser needs another guard, the tasks take at most `Load(s)` steps without
      acquiring again, in any order, and once they cannot go on all of them are through: nobody is
      inside a guard call or has a guard to end. */
  lemma AllThrough(s: State, ms: seq<Move>)
    requires s.Inv() && Unnested(s) && Winding(s, ms)
    ensures AllKnown(s, ms) && s.held.Keys == s.pc.Keys && |ms| <= Load(s)
    ensures AtRest(Run(s, ms)) ==> forall t :: !Busy(Run(s, ms), t)
  {
    hide State.Inv, Step, Load, Unnested;
    StepsBounded(s, ms);
    RunKeepsUnnested(s, ms);
    var last := Run(s, ms);
    if t :| Busy(last, t) {
      var m := EndMoves(last);
      assert Step(last, m.task, End(m.choice.guard, m.choice.ok)).Some?;
    }
  }

  /** And there is such a run from every such state. */
  lemma {:induction false} WindsDown(s: State) returns (ms: seq<Move>)
    requires s.Inv() && Unnested(s)
    ensures Winding(s, ms) && AllKnown(s, ms) && forall t :: !Busy(Run(s, ms), t)
    decreases LoadOf(s)
  {
    hide State.Inv, Step, Load;
    if t :| Busy(s, t) {
      var m := EndMoves(s);
      KeysMatch(s);
      StepKeepsUnnested(s, m.task, m.choice);
      StepLowersLoad(s, m.task, m.choice);
      LoadBounded(s);
      LoadBounded(Next(s, m));
      var rest := WindsDown(Next(s, m));
      ms := [m] + rest;
      assert ms[1..] == rest;
      StepsBounded(s, ms);
    } else {
      ms := [];
    }
  }

  ghost function LoadOf(s: State): nat
    requires s.Inv()
  {
    LoadBounded(s);
    Load(s)
  }
}
