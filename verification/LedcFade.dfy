/** LEDC fades (ledc.c): the interrupt handler programs the hardware with at most 1023 equal
    duty steps at a time until the target duty is reached. */
module LedcFade {
  import opened Arithmetic
  import opened Options

  const STEP_NUM_MAX := 1023

  /** The software record of a fade. */
  datatype Rec = Rec(target: nat, scale: nat, cycle: nat, increase: bool)

  /** The duty registers: `num` steps of `scale` from `start`. Both are ten bits wide. */
  datatype Prog = Prog(start: int, increase: bool, num: nat, cycle: nat, scale: nat)

  /** The duty after `j` steps of a program. */
  function DutyAt(p: Prog, j: nat): int
  {
    if p.increase then p.start + j * p.scale else p.start - j * p.scale
  }

  function DutyAtEnd(p: Prog): int { DutyAt(p, p.num) }

  function Abs(x: int): nat { if x >= 0 then x else -x }

  /** `ledc_duty_config`: the step count and scale are masked to their fields. */
  function Config(start: int, increase: bool, num: nat, cycle: nat, scale: nat): Prog
  {
    Prog(start, increase, num % 1024, cycle % 1024, scale % 1024)
  }

  /** A duty at full scale is lowered by one before a fade starts. */
  function StartDuty(max: nat, duty: nat): int { if duty == max then duty - 1 else duty }

  /** How many steps a program may take: whole ones only, and at most 1023. */
  function StepNum(delta: nat, scale: nat): (n: nat)
    requires 0 < scale
    ensures n <= STEP_NUM_MAX && n * scale <= delta && (n == 0 <==> delta < scale)
  {
    StepNumFits(delta, scale);
    Min(delta / scale, STEP_NUM_MAX)
  }

  lemma StepNumFits(delta: nat, scale: nat)
    requires 0 < scale
    ensures Min(delta / scale, STEP_NUM_MAX) * scale <= delta
    ensures delta / scale == 0 <==> delta < scale
  {
    var (q, r) := DivMod(delta, scale);
    Scaled(Min(q, STEP_NUM_MAX), q, scale);
    Multiples(q, scale);
  }

  /** `_ledc_set_fade_with_step`. */
  function SetFade(max: nat, duty: nat, target: nat, scale: nat, cycle: nat): (Rec, Prog)
    requires max > 0
  {
    var cur := StartDuty(max, duty);
    var increase := scale > 0 && cur <= target;
    var num := if scale > 0 then StepNum(Abs(target - cur), scale) else 0;
    (Rec(target, scale, cycle, increase),
     if num > 0 then Config(cur, increase, num, cycle, scale) else Config(target, increase, 0, 1, 0))
  }

  /** The timer cycles in `ms` milliseconds, computed in 32-bit unsigned arithmetic. */
  function TotalCycles(ms: int, freq: nat): (r: nat) { Uint32(ms * freq) / 1000 }

  /** The scale and cycle count that `_ledc_set_fade_with_time` chooses: single steps if the time
      allows, else one step per cycle; no steps at all for an empty fade or a time below a cycle. */
  function TimedScale(duty: nat, target: nat, total: nat): nat
  {
    var delta := Abs(target - duty);
    if delta == 0 || total == 0 then 0 else if total > delta then 1 else delta / total
  }

  function TimedCycle(duty: nat, target: nat, total: nat): nat
  {
    var delta := Abs(target - duty);
    if delta == 0 || total == 0 then 0 else if total > delta then Min(total / delta, STEP_NUM_MAX) else 1
  }

  /** What is left to go in the direction of the fade. */
  function Delta(r: Rec, duty: int): int
  {
    if r.increase then r.target - duty else duty - r.target
  }

  /** `ledc_fade_isr` for one channel: the next program, or none when the fade is complete. */
  function Isr(r: Rec, duty: int): Option<Prog>
    requires Delta(r, duty) >= 0
  {
    if duty == r.target || r.scale == 0 then None
    else
      var delta := Delta(r, duty);
      if delta > r.scale then Some(Config(duty, r.increase, StepNum(delta, r.scale), r.cycle, r.scale))
      else Some(Config(r.target, r.increase, 1, 1, 0))
  }

  /** `p` moves from `duty` towards the target of `r` without passing it. */
  ghost predicate Approaches(r: Rec, duty: int, p: Prog)
  {
    forall j | 0 <= j <= p.num :: 0 <= Delta(r, DutyAt(p, j)) <= Delta(r, duty)
  }

  lemma StepsFit(delta: nat, scale: nat, num: nat, j: nat, small: nat)
    requires j <= num && small <= scale && num * scale <= delta
    ensures 0 <= j * small <= delta
  {
    Scaled(j, num, small);
    Scaled(small, scale, num);
  }

  /** Where a program of whole steps leads. */
  lemma ProgramApproaches(r: Rec, duty: int, num: nat, cycle: nat)
    requires Delta(r, duty) >= 0 && num * r.scale <= Delta(r, duty)
    requires num <= STEP_NUM_MAX
    ensures Approaches(r, duty, Config(duty, r.increase, num, cycle, r.scale))
    ensures r.scale < 1024 ==>
              Delta(r, DutyAtEnd(Config(duty, r.increase, num, cycle, r.scale))) == Delta(r, duty) - num * r.scale
  {
    var p := Config(duty, r.increase, num, cycle, r.scale);
    forall j | 0 <= j <= p.num ensures 0 <= Delta(r, DutyAt(p, j)) <= Delta(r, duty) {
      StepsFit(Delta(r, duty), r.scale, num, j, p.scale);
      assert Delta(r, DutyAt(p, j)) == Delta(r, duty) - j * p.scale;
    }
  }

  /** Whatever the scale, the interrupt handler's programs never pass the target. */
  lemma IsrApproaches(r: Rec, duty: int)
    requires Delta(r, duty) >= 0 && Isr(r, duty).Some?
    ensures Approaches(r, duty, Isr(r, duty).value)
  {
    hide StepNum;
    if Delta(r, duty) > r.scale {
      ProgramApproaches(r, duty, StepNum(Delta(r, duty), r.scale), r.cycle);
    }
  }

  /** Nor does the first program, from the duty the fade starts at. */
  lemma SetFadeApproaches(max: nat, duty: nat, target: nat, scale: nat, cycle: nat)
    requires 0 < max && 0 < scale
    ensures var (r, p) := SetFade(max, duty, target, scale, cycle);
            && Delta(r, StartDuty(max, duty)) == Abs(target - StartDuty(max, duty))
            && Approaches(r, StartDuty(max, duty), p)
  {
    hide StepNum;
    var cur := StartDuty(max, duty);
    var r := SetFade(max, duty, target, scale, cycle).0;
    var num := StepNum(Abs(target - cur), scale);
    if num > 0 {
      ProgramApproaches(r, cur, num, cycle);
    }
  }

  // ---- whole fades ----

  /** The duty when the interrupt after the next program comes; unchanged if there is none. */
  function NextDuty(r: Rec, duty: int): (next: int)
    requires Delta(r, duty) >= 0
    ensures 0 <= Delta(r, next) <= Delta(r, duty)
  {
    match Isr(r, duty)
    case None => duty
    case Some(p) => IsrApproaches(r, duty); DutyAtEnd(p)
  }

  /** The duty after `k` interrupts. */
  function DutyAfter(r: Rec, duty: int, k: nat): (d: int)
    requires Delta(r, duty) >= 0
    ensures 0 <= Delta(r, d) <= Delta(r, duty)
    decreases k
  {
    if k == 0 then duty else DutyAfter(r, NextDuty(r, duty), k - 1)
  }

  function CeilDiv(a: nat, b: nat): nat
    requires 0 < b
  {
    (a + b - 1) / b
  }

  /** How many programs a distance takes: full ones of 1023 steps, a shorter one, and a jump over
      what is less than a step. */
  function Programs(delta: nat, scale: nat): nat
    requires 0 < scale
  {
    CeilDiv(delta / scale, STEP_NUM_MAX) + if delta % scale > 0 then 1 else 0
  }

  /** Taking `n` whole steps off a distance. */
  lemma StepsOff(delta: nat, scale: nat, n: nat)
    requires 0 < scale && n * scale <= delta && n <= delta / scale
    ensures (delta - n * scale) / scale == delta / scale - n && (delta - n * scale) % scale == delta % scale
  {
    var (q, r) := DivMod(delta, scale);
    ScaledDifference(q, n, scale);
    DivisionIs(delta - n * scale, q - n, r, scale);
  }

  lemma ProgramsStep(delta: nat, scale: nat)
    requires 0 < scale < delta
    ensures var n := StepNum(delta, scale);
            1 <= n && Programs(delta, scale) == 1 + Programs(delta - n * scale, scale)
  {
    var n := StepNum(delta, scale);
    StepsOff(delta, scale, n);
    CeilStep(delta / scale);
  }

  lemma CeilStep(q: nat)
    ensures 1 <= q ==> CeilDiv(q, STEP_NUM_MAX) == 1 + CeilDiv(q - Min(q, STEP_NUM_MAX), STEP_NUM_MAX)
  {
    assert CeilDiv(q, STEP_NUM_MAX) == (q + 1022) / 1023;
  }

  lemma DivisionAtLeast(delta: nat, scale: nat)
    requires 0 < scale <= delta
    ensures delta / scale >= 1
  {
    var (q, r) := DivMod(delta, scale);
    Multiples(q, scale);
  }

  /** A distance of at most one step takes one program, no distance takes none. */
  lemma ProgramsShort(delta: nat, scale: nat)
    requires 0 < scale && delta <= scale
    ensures Programs(delta, scale) == if delta == 0 then 0 else 1
  {
    if delta < scale {
      DivisionIs(delta, 0, delta, scale);
    } else {
      DivisionIs(delta, 1, 0, scale);
    }
  }

  /** What one interrupt does to the distance. */
  lemma NextDelta(r: Rec, duty: int)
    requires 0 < r.scale < 1024 && Delta(r, duty) >= 0
    ensures var delta, next := Delta(r, duty), Delta(r, NextDuty(r, duty));
            next == if delta <= r.scale then 0 else delta - StepNum(delta, r.scale) * r.scale
  {
    hide StepNum;
    if Delta(r, duty) > r.scale {
      ProgramApproaches(r, duty, StepNum(Delta(r, duty), r.scale), r.cycle);
    }
  }

  /** Each interrupt but the last one brings the duty strictly closer, and the number of
      interrupts is exactly the number of programs. */
  lemma {:induction false} IsrsReachTarget(r: Rec, duty: int)
    requires 0 < r.scale < 1024 && Delta(r, duty) >= 0
    ensures DutyAfter(r, duty, Programs(Delta(r, duty), r.scale)) == r.target
    ensures forall k | 0 <= k < Programs(Delta(r, duty), r.scale) ::
              Delta(r, DutyAfter(r, duty, k + 1)) < Delta(r, DutyAfter(r, duty, k))
    decreases Delta(r, duty)
  {
    hide Programs, NextDuty, StepNum;
    var delta, next := Delta(r, duty), NextDuty(r, duty);
    NextDelta(r, duty);
    if delta <= r.scale {
      ProgramsShort(delta, r.scale);
      if delta > 0 {
        assert DutyAfter(r, duty, 1) == DutyAfter(r, next, 0) == r.target;
      }
    } else {
      var n := Programs(delta, r.scale);
      ProgramsStep(delta, r.scale);
      StepBelow(StepNum(delta, r.scale), r.scale);
      IsrsReachTarget(r, next);
      forall k | 0 <= k < n ensures Delta(r, DutyAfter(r, duty, k + 1)) < Delta(r, DutyAfter(r, duty, k)) {
        if k == 0 {
          assert DutyAfter(r, duty, 1) == DutyAfter(r, next, 0);
        } else {
          assert DutyAfter(r, duty, k) == DutyAfter(r, next, k - 1);
        }
      }
    }
  }

  lemma StepBelow(n: int, scale: nat)
    requires 1 <= n && 0 < scale
    ensures n * scale > 0
  {}

  /** The interrupts of a whole fade, from `ledc_set_fade_with_step` on. */
  function Interrupts(delta: nat, scale: nat): nat
    requires 0 < scale
  {
    if delta == 0 then 1 else Programs(delta, scale)
  }

  /** The duty at the first interrupt of a fade. */
  function FirstDuty(max: nat, duty: nat, target: nat, scale: nat, cycle: nat): (d: int)
    requires 0 < max
    ensures 0 <= Delta(SetFade(max, duty, target, scale, cycle).0, d)
  {
    FirstIsShort(max, duty, target, scale, cycle);
    DutyAtEnd(SetFade(max, duty, target, scale, cycle).1)
  }

  lemma FirstIsShort(max: nat, duty: nat, target: nat, scale: nat, cycle: nat)
    requires 0 < max
    ensures var (r, p) := SetFade(max, duty, target, scale, cycle); 0 <= Delta(r, DutyAtEnd(p))
  {
    if scale > 0 {
      SetFadeApproaches(max, duty, target, scale, cycle);
      var (r, p) := SetFade(max, duty, target, scale, cycle);
      assert 0 <= Delta(r, DutyAt(p, p.num));
    }
  }

  lemma FirstProgIs(max: nat, duty: nat, target: nat, scale: nat, cycle: nat)
    requires 0 < max && 0 < scale < 1024
    ensures
      var cur := StartDuty(max, duty);
      var num := StepNum(Abs(target - cur), scale);
      var (r, p) := SetFade(max, duty, target, scale, cycle);
      && r == Rec(target, scale, cycle, cur <= target)
      && p == if num > 0 then Prog(cur, r.increase, num, cycle % 1024, scale) else Prog(target, r.increase, 0, 1, 0)
  {}

  lemma FirstDutyIs(max: nat, duty: nat, target: nat, scale: nat, cycle: nat)
    requires 0 < max && 0 < scale < 1024
    ensures
      var delta := Abs(target - StartDuty(max, duty));
      Delta(SetFade(max, duty, target, scale, cycle).0, FirstDuty(max, duty, target, scale, cycle)) ==
      if delta <= scale then 0 else delta - StepNum(delta, scale) * scale
  {
    hide SetFade, Programs;
    var delta := Abs(target - StartDuty(max, duty));
    FirstProgIs(max, duty, target, scale, cycle);
    if delta <= scale {
      DivisionIs(delta, if delta == scale then 1 else 0, if delta == scale then 0 else delta, scale);
    } else {
      ProgramsStep(delta, scale);
    }
  }

  /** A fade with a scale of at most 1023 ends exactly at its target, after exactly the number
      of interrupts computed from the distance, and not before. */
  lemma FadeReachesTarget(max: nat, duty: nat, target: nat, scale: nat, cycle: nat)
    requires 0 < max && 0 < scale < 1024
    ensures
      var r := SetFade(max, duty, target, scale, cycle).0;
      var first := FirstDuty(max, duty, target, scale, cycle);
      var n := Interrupts(Abs(target - StartDuty(max, duty)), scale);
      && n >= 1 && DutyAfter(r, first, n - 1) == target
      && forall k | 0 <= k < n - 1 :: DutyAfter(r, first, k) != target
  {
    hide SetFade, FirstDuty, Programs;
    var delta := Abs(target - StartDuty(max, duty));
    var r, first := SetFade(max, duty, target, scale, cycle).0, FirstDuty(max, duty, target, scale, cycle);
    FirstDutyIs(max, duty, target, scale, cycle);
    RecIs(max, duty, target, scale, cycle);
    if delta <= scale {
      ProgramsShort(delta, scale);
    } else {
      ProgramsStep(delta, scale);
    }
    IsrsReachTarget(r, first);
    StaysAbove(r, first);
    ProgramsShort(0, scale);
  }

  lemma RecIs(max: nat, duty: nat, target: nat, scale: nat, cycle: nat)
    requires 0 < max
    ensures SetFade(max, duty, target, scale, cycle).0.target == target
    ensures SetFade(max, duty, target, scale, cycle).0.scale == scale
  {}

  lemma StaysAbove(r: Rec, duty: int)
    requires 0 < r.scale < 1024 && Delta(r, duty) >= 0
    ensures forall k | 0 <= k < Programs(Delta(r, duty), r.scale) :: DutyAfter(r, duty, k) != r.target
  {
    IsrsReachTarget(r, duty);
    forall k | 0 <= k < Programs(Delta(r, duty), r.scale) ensures DutyAfter(r, duty, k) != r.target {
      assert 0 <= Delta(r, DutyAfter(r, duty, k + 1)) < Delta(r, DutyAfter(r, duty, k));
    }
  }

  // ---- how long a fade takes ----

  /** The timer cycles a program lasts. */
  function Lasts(p: Prog): nat { p.num * p.cycle }

  /** The timer cycles of the next `k` programs of the interrupt handler. */
  function IsrCycles(r: Rec, duty: int, k: nat): nat
    requires Delta(r, duty) >= 0
    decreases k
  {
    if k == 0 then 0
    else (match Isr(r, duty) case None => 0 case Some(p) => Lasts(p)) + IsrCycles(r, NextDuty(r, duty), k - 1)
  }

  /** The timer cycles from the start of a fade to its last interrupt. */
  function Duration(max: nat, duty: nat, target: nat, scale: nat, cycle: nat): nat
    requires 0 < max && 0 < scale
  {
    var (r, p) := SetFade(max, duty, target, scale, cycle);
    Lasts(p) + IsrCycles(r, FirstDuty(max, duty, target, scale, cycle),
                         Interrupts(Abs(target - StartDuty(max, duty)), scale) - 1)
  }

  /** `q` whole steps of `cycle` cycles, and one cycle for the jump over what is less than a step.
      A single step left behind full programs is jumped over, too. */
  function StepCycles(q: nat, rest: nat, cycle: nat): nat
  {
    if rest == 0 && q % 1023 == 1 then (q - 1) * cycle + 1
    else q * cycle + if rest > 0 then 1 else 0
  }

  /** How long a fade over `delta` lasts. It jumps at once if that is less than a step. */
  function FadeCycles(delta: nat, scale: nat, cycle: nat): nat
    requires 0 < scale
  {
    var (q, rest) := DivMod(delta, scale);
    if q == 0 then 0 else if q <= STEP_NUM_MAX then q * cycle + (if rest > 0 then 1 else 0) else StepCycles(q, rest, cycle)
  }

  lemma StepCyclesSplit(q: nat, rest: nat, cycle: nat, n: nat)
    requires n == Min(q, STEP_NUM_MAX) && (rest > 0 || q > 1)
    ensures StepCycles(q, rest, cycle) == n * cycle + StepCycles(q - n, rest, cycle)
  {
    ScaledDifference(q, n, cycle);
    ScaledDifference(q - 1, n, cycle);
    assert q > 1023 ==> (q - n) % 1023 == q % 1023;
  }

  /** What the programs for a distance last. */
  lemma {:induction false} IsrCyclesAre(r: Rec, duty: int)
    requires 0 < r.scale < 1024 && r.cycle < 1024 && Delta(r, duty) >= 0
    ensures var (q, rest) := DivMod(Delta(r, duty), r.scale);
            IsrCycles(r, duty, Programs(Delta(r, duty), r.scale)) == StepCycles(q, rest, r.cycle)
    decreases Delta(r, duty)
  {
    hide Programs, StepNum, StepCycles, Isr, NextDuty;
    var delta, next := Delta(r, duty), NextDuty(r, duty);
    NextDelta(r, duty);
    IsrLasts(r, duty);
    if delta <= r.scale {
      ProgramsShort(delta, r.scale);
      ShortCycles(delta, r.scale, r.cycle);
      assert IsrCycles(r, next, 0) == 0;
    } else {
      ProgramsStep(delta, r.scale);
      StepBelow(StepNum(delta, r.scale), r.scale);
      CyclesOff(delta, r.scale, r.cycle);
      IsrCyclesAre(r, next);
    }
  }

  lemma IsrLasts(r: Rec, duty: int)
    requires 0 < r.scale < 1024 && r.cycle < 1024 && Delta(r, duty) >= 0
    ensures match Isr(r, duty)
            case None => Delta(r, duty) == 0
            case Some(p) =>
              && Delta(r, duty) > 0
              && Lasts(p) == if Delta(r, duty) > r.scale then StepNum(Delta(r, duty), r.scale) * r.cycle else 1
  {
    hide StepNum;
  }

  lemma ShortCycles(delta: nat, scale: nat, cycle: nat)
    requires 0 < scale && delta <= scale
    ensures StepCycles(delta / scale, delta % scale, cycle) == if delta == 0 then 0 else 1
  {
    if delta < scale {
      DivisionIs(delta, 0, delta, scale);
    } else {
      DivisionIs(delta, 1, 0, scale);
    }
  }

  lemma CyclesOff(delta: nat, scale: nat, cycle: nat)
    requires 0 < scale < delta
    ensures var n := StepNum(delta, scale); var left := delta - n * scale;
            StepCycles(delta / scale, delta % scale, cycle) ==
            n * cycle + StepCycles(left / scale, left % scale, cycle)
  {
    hide StepCycles;
    var n := StepNum(delta, scale);
    var (q, rest) := DivMod(delta, scale);
    StepsOff(delta, scale, n);
    if rest == 0 && q <= 1 {
      Scaled(q, 1, scale);
    }
    StepCyclesSplit(q, rest, cycle, n);
  }

  /** The length of every fade with a scale and a cycle count that fit their registers. */
  lemma DurationIs(max: nat, duty: nat, target: nat, scale: nat, cycle: nat)
    requires 0 < max && 0 < scale < 1024 && cycle < 1024
    ensures Duration(max, duty, target, scale, cycle) == FadeCycles(Abs(target - StartDuty(max, duty)), scale, cycle)
  {
    hide SetFade, FirstDuty, Programs, StepNum, StepCycles, IsrCycles;
    var delta, n := Abs(target - StartDuty(max, duty)), StepNum(Abs(target - StartDuty(max, duty)), scale);
    var r, first := SetFade(max, duty, target, scale, cycle).0, FirstDuty(max, duty, target, scale, cycle);
    FirstProgIs(max, duty, target, scale, cycle);
    FirstDutyIs(max, duty, target, scale, cycle);
    var (q, rest) := DivMod(delta, scale);
    StepNumIs(delta, scale);
    NoIsrCycles(r, first);
    if delta <= scale {
      ProgramsShort(delta, scale);
      if delta < scale {
        DivisionIs(delta, 0, delta, scale);
      } else {
        DivisionIs(delta, 1, 0, scale);
      }
    } else {
      ProgramsStep(delta, scale);
      StepsOff(delta, scale, n);
      IsrCyclesAre(r, first);
      FirstCycles(q, rest, cycle, n);
    }
  }

  lemma StepNumIs(delta: nat, scale: nat)
    requires 0 < scale
    ensures StepNum(delta, scale) == Min(delta / scale, STEP_NUM_MAX)
  {}

  lemma NoIsrCycles(r: Rec, duty: int)
    requires Delta(r, duty) >= 0
    ensures IsrCycles(r, duty, 0) == 0
  {}

  lemma FirstCycles(q: nat, rest: nat, cycle: nat, n: nat)
    requires 1 <= q && n == Min(q, STEP_NUM_MAX)
    ensures n * cycle + StepCycles(q - n, rest, cycle) ==
            if q <= STEP_NUM_MAX then q * cycle + (if rest > 0 then 1 else 0) else StepCycles(q, rest, cycle)
  {
    if q > STEP_NUM_MAX {
      StepCyclesSplit(q, rest, cycle, n);
    }
  }

  // ---- fades with a time: the scale may not fit the ten-bit register ----

  lemma {:induction false} Reaches(r: Rec, duty: int) returns (k: nat)
    requires 0 < r.scale && Delta(r, duty) >= 0 && (r.scale % 1024 > 0 || Delta(r, duty) <= r.scale)
    ensures DutyAfter(r, duty, k) == r.target
    decreases Delta(r, duty)
  {
    if duty == r.target {
      return 0;
    }
    var next := NextDuty(r, duty);
    if Delta(r, duty) > r.scale {
      DivisionAtLeast(Delta(r, duty), r.scale);
      StepBelow(StepNum(Delta(r, duty), r.scale), r.scale % 1024);
    }
    var rest := Reaches(r, next);
    return rest + 1;
  }

  lemma {:induction false} Stuck(r: Rec, duty: int, k: nat)
    requires 0 < r.scale && r.scale % 1024 == 0 && Delta(r, duty) > r.scale
    ensures DutyAfter(r, duty, k) == duty
  {
    if k == 0 {
    } else {
      Stuck(r, NextDuty(r, duty), k - 1);
    }
  }

  /** The fade comes to its target after some number of interrupts. */
  ghost predicate Ends(max: nat, duty: nat, target: nat, scale: nat, cycle: nat)
    requires 0 < max
  {
    exists k: nat ::
      DutyAfter(SetFade(max, duty, target, scale, cycle).0, FirstDuty(max, duty, target, scale, cycle), k) == target
  }

  /** A fade comes to its target if and only if it has no steps, the scale keeps some of its bits
      in the register or a single step covers the distance. */
  lemma FadeEndsIff(max: nat, duty: nat, target: nat, scale: nat, cycle: nat)
    requires 0 < max
    ensures Ends(max, duty, target, scale, cycle) <==>
            (scale == 0 || scale % 1024 > 0 || Abs(target - StartDuty(max, duty)) <= scale)
  {
    var (r, p) := SetFade(max, duty, target, scale, cycle);
    var first := FirstDuty(max, duty, target, scale, cycle);
    if scale == 0 {
      assert DutyAfter(r, first, 0) == target;
    } else {
      SetFadeApproaches(max, duty, target, scale, cycle);
      assert 0 <= Delta(r, DutyAt(p, p.num)) <= Delta(r, StartDuty(max, duty));
      if scale % 1024 > 0 || Abs(target - StartDuty(max, duty)) <= scale {
        var k := Reaches(r, first);
      } else {
        FirstStays(max, duty, target, scale, cycle);
        forall k: nat ensures DutyAfter(r, first, k) != target {
          Stuck(r, first, k);
        }
      }
    }
  }

  /** In the caller's terms: a fade with a time reaches its target unless it has 2 to `delta`
      cycles and `delta / total` is a multiple of 1024. */
  lemma TimedFadeEndsIff(max: nat, duty: nat, target: nat, ms: int, freq: nat)
    requires 0 < max && target <= max
    ensures
      var total, delta := TotalCycles(ms, freq), Abs(target - duty);
      Ends(max, duty, target, TimedScale(duty, target, total), TimedCycle(duty, target, total)) <==>
      !(2 <= total <= delta && (delta / total) % 1024 == 0)
  {
    hide TotalCycles, Ends;
    var total, delta := TotalCycles(ms, freq), Abs(target - duty);
    var scale := TimedScale(duty, target, total);
    FadeEndsIff(max, duty, target, scale, TimedCycle(duty, target, total));
    if total == 1 {
      DivisionIs(delta, delta, 0, 1);
    } else if 2 <= total <= delta {
      AtMostHalf(delta, total);
    }
  }

  lemma AtMostHalf(delta: nat, total: nat)
    requires 2 <= total <= delta
    ensures 1 <= delta / total && 2 * (delta / total) <= delta
  {
    DivisionAtLeast(delta, total);
    assert delta == total * (delta / total) + delta % total;
    assert 2 * (delta / total) <= total * (delta / total);
  }

  // ---- how long a fade with a time takes ----

  /** A fade over `delta`, of which `left` is left from its start on, is given `total` cycles and
      lasts `time`. With more cycles than steps it stays within the time and wastes less than a cycle
      a step and two steps, as long as a step may last that long. With fewer, it may take up to twice
      the time, and keeps to it if and only if `left` is no more than `total` whole steps. */
  ghost predicate InTime(time: int, total: nat, delta: nat, left: nat)
    requires 0 < total && 0 < delta
  {
    if total > delta then
      && time <= total
      && (total / delta <= STEP_NUM_MAX ==> total < time + delta + 2 * (total / delta))
      && (total / delta > STEP_NUM_MAX ==> STEP_NUM_MAX * (delta - 2) <= time <= STEP_NUM_MAX * delta)
    else
      total - 1 <= time <= 2 * total && (time <= total <==> left <= (delta / total) * total)
  }

  /** The scale chosen for a time fits its register. */
  predicate ScaleFits(delta: nat, total: nat) { 0 < total <= delta ==> delta / total < 1024 }

  lemma TimedScaleFits(duty: nat, target: nat, total: nat)
    requires ScaleFits(Abs(target - duty), total)
    ensures TimedScale(duty, target, total) < 1024
  {}

  lemma TimedFadeLength(max: nat, duty: nat, target: nat, ms: int, freq: nat)
    requires 0 < max && target <= max
    ensures
      var total, delta := TotalCycles(ms, freq), Abs(target - duty);
      var scale, cycle := TimedScale(duty, target, total), TimedCycle(duty, target, total);
      && (scale == 0 <==> total == 0 || delta == 0)
      && (scale > 0 && ScaleFits(delta, total) ==>
            InTime(Duration(max, duty, target, scale, cycle), total, delta, Abs(target - StartDuty(max, duty))))
  {
    hide TotalCycles, Duration, InTime, FadeCycles;
    var total, delta, left := TotalCycles(ms, freq), Abs(target - duty), Abs(target - StartDuty(max, duty));
    var scale, cycle := TimedScale(duty, target, total), TimedCycle(duty, target, total);
    if 0 < total <= delta {
      DivisionAtLeast(delta, total);
    }
    if scale > 0 && ScaleFits(delta, total) {
      DurationIs(max, duty, target, scale, cycle);
      if total > delta {
        DivisionAtLeast(total, delta);
        SlowInTime(total, delta, left);
      } else {
        FastInTime(total, delta, left);
      }
    }
  }

  lemma SlowInTime(total: nat, delta: nat, left: nat)
    requires 0 < delta < total && delta - 1 <= left <= delta
    ensures InTime(FadeCycles(left, 1, Min(total / delta, STEP_NUM_MAX)), total, delta, left)
  {
    var (c, rest) := DivMod(total, delta);
    var cycle := Min(c, STEP_NUM_MAX);
    DivisionAtLeast(total, delta);
    SingleSteps(left, cycle);
    Scaled(left, delta, cycle);
    Scaled(cycle, c, delta);
    ScaledDifference(delta, 2, cycle);
    Scaled(delta - 2, left - 1, cycle);
  }

  lemma SingleSteps(left: nat, cycle: nat)
    requires 1 <= cycle
    ensures (left - 1) * cycle <= FadeCycles(left, 1, cycle) <= left * cycle
  {
    DivisionIs(left, left, 0, 1);
    ScaledDifference(left, 1, cycle);
  }

  lemma FastInTime(total: nat, delta: nat, left: nat)
    requires 0 < total <= delta && delta - 1 <= left <= delta
    ensures delta / total > 0 && InTime(FadeCycles(left, delta / total, 1), total, delta, left)
  {
    var (scale, more) := DivMod(delta, total);
    DivisionAtLeast(delta, total);
    var (q, rest) := DivMod(left, scale);
    WholeSteps(left, scale);
    StepsBetween(q, rest, scale, total, more, left);
  }

  lemma WholeSteps(left: nat, scale: nat)
    requires 0 < scale
    ensures FadeCycles(left, scale, 1) ==
            if left / scale == 0 then 0 else left / scale + if left % scale > 0 then 1 else 0
  {}

  /** The multiplications behind that. */
  lemma StepsBetween(q: nat, rest: nat, scale: nat, total: nat, more: nat, left: nat)
    requires 0 < scale && 0 < total && rest < scale && more < total
    requires left == q * scale + rest && scale * total + more - 1 <= left <= scale * total + more
    ensures total - 1 <= q <= 2 * total - 1
    ensures (if q == 0 then 0 else q + if rest > 0 then 1 else 0) <= total <==> left <= scale * total
  {
    if q <= total - 2 {
      Scaled(q + 1, total - 1, scale);
      ScaledDifference(q, -1, scale);
      ScaledDifference(total, 1, scale);
    }
    if q >= 2 * total {
      Scaled(2 * total, q, scale);
      Scaled(1, scale, total);
    }
    if q <= total - 1 {
      Scaled(q + 1, total, scale);
      ScaledDifference(q, -1, scale);
    }
    if q >= total + 1 {
      Scaled(total + 1, q, scale);
      ScaledDifference(total, -1, scale);
    }
  }

  /** The time is not a maximum: 7 steps in 4 cycles take 7 cycles. */
  lemma TimeExceeded()
    ensures TotalCycles(4, 1000) == 4
    ensures Duration(8192, 0, 7, TimedScale(0, 7, 4), TimedCycle(0, 7, 4)) == 7
  {
    DurationIs(8192, 0, 7, 1, 1);
  }

  /** Without overflow the cycles are those of the time, rounded down. */
  lemma TotalCyclesAre(ms: nat, freq: nat)
    requires ms * freq < U32
    ensures 1000 * TotalCycles(ms, freq) <= ms * freq < 1000 * (TotalCycles(ms, freq) + 1)
  {}

  /** On a 13-bit timer at 1 kHz a fade from 0 to 4096 in 4 ms has scale 1024: every program has
      scale 0 and the duty stays 0 for ever. */
  lemma TimedFadeNeverEnds(k: nat)
    ensures TotalCycles(4, 1000) == 4
    ensures (TimedScale(0, 4096, 4), TimedCycle(0, 4096, 4)) == (1024, 1)
    ensures DutyAfter(SetFade(8192, 0, 4096, 1024, 1).0, FirstDuty(8192, 0, 4096, 1024, 1), k) == 0
  {
    FirstStays(8192, 0, 4096, 1024, 1);
    Stuck(SetFade(8192, 0, 4096, 1024, 1).0, 0, k);
  }

  lemma FirstStays(max: nat, duty: nat, target: nat, scale: nat, cycle: nat)
    requires 0 < max && 0 < scale < Abs(target - StartDuty(max, duty)) && scale % 1024 == 0
    ensures FirstDuty(max, duty, target, scale, cycle) == StartDuty(max, duty)
    ensures Delta(SetFade(max, duty, target, scale, cycle).0, StartDuty(max, duty)) == Abs(target - StartDuty(max, duty))
  {
    DivisionAtLeast(Abs(target - StartDuty(max, duty)), scale);
    SetFadeApproaches(max, duty, target, scale, cycle);
  }

  // ---- the driver ----

  /** One channel: the fade record and the hardware registers. */
  class Channel {
    const max: nat
    var rec: Rec
    var conf: Prog
    var duty: int
    var done: bool
    // timer cycles gone by
    var clock: nat

    constructor (max: nat, duty: nat)
      requires 0 < max
      ensures this.max == max && this.duty == duty && !done
    {
      this.max, this.duty, done, clock := max, duty, false, 0;
      rec, conf := Rec(0, 0, 0, false), Prog(duty, false, 0, 0, 0);
    }

    /** `_ledc_set_fade_with_step`. */
    method SetFadeWithStep(target: nat, scale: nat, cycle: nat)
      requires 0 < max && 0 <= duty
      modifies this`rec, this`conf, this`done
      ensures !done && conf == SetFade(max, duty, target, scale, cycle).1
      ensures rec == if scale > 0 then SetFade(max, duty, target, scale, cycle).0
                     else Rec(target, 0, cycle, old(rec.increase))
    {
      var dutyCur := duty;
      if dutyCur == max {
        dutyCur := dutyCur - 1;
      }
      rec := Rec(target, scale, cycle, rec.increase);
      var stepNum, increase := 0, false;
      if scale > 0 {
        if dutyCur > target {
          rec := rec.(increase := false);
          stepNum := (dutyCur - target) / scale;
          stepNum := if stepNum > STEP_NUM_MAX then STEP_NUM_MAX else stepNum;
        } else {
          rec := rec.(increase := true);
          increase := true;
          stepNum := (target - dutyCur) / scale;
          stepNum := if stepNum > STEP_NUM_MAX then STEP_NUM_MAX else stepNum;
        }
      }
      if scale > 0 && stepNum > 0 {
        conf := Config(dutyCur, increase, stepNum, cycle, scale);
      } else {
        conf := Config(target, increase, 0, 1, 0);
      }
      done := false;
    }

    /** `_ledc_set_fade_with_time`. */
    method SetFadeWithTime(target: nat, ms: int, freq: nat)
      requires 0 < max && 0 <= duty
      modifies this`rec, this`conf, this`done
      ensures var total := TotalCycles(ms, freq);
              var scale, cycle := TimedScale(duty, target, total), TimedCycle(duty, target, total);
              && !done && conf == SetFade(max, duty, target, scale, cycle).1
              && rec == if scale > 0 then SetFade(max, duty, target, scale, cycle).0
                        else Rec(target, 0, 0, old(rec.increase))
    {
      hide SetFade, StepNum, Uint32;
      var dutyDelta := if target > duty then target - duty else duty - target;
      if dutyDelta == 0 {
        SetFadeWithStep(target, 0, 0);
        return;
      }
      var totalCycles := Uint32(ms * freq) / 1000;
      if totalCycles == 0 {
        SetFadeWithStep(target, 0, 0);
        return;
      }
      var scale, cycle := 1, 1;
      if totalCycles > dutyDelta {
        cycle := totalCycles / dutyDelta;
        if cycle > STEP_NUM_MAX {
          cycle := STEP_NUM_MAX;
        }
      } else {
        scale := dutyDelta / totalCycles;
        DivisionAtLeast(dutyDelta, totalCycles);
      }
      SetFadeWithStep(target, scale, cycle);
    }

    /** The hardware carries out the programmed steps and raises the interrupt. */
    method RunHardware()
      modifies this`duty, this`clock
      ensures duty == DutyAtEnd(conf) && clock == old(clock) + Lasts(conf)
    {
      duty := DutyAtEnd(conf);
      clock := clock + conf.num * conf.cycle;
    }

    /** `ledc_fade_isr`, one channel; `done` stands for the semaphore. */
    method FadeIsr()
      requires Delta(rec, duty) >= 0
      modifies this`conf, this`done
      ensures done <==> old(done) || Isr(rec, duty).None?
      ensures conf == match Isr(rec, duty) { case None => old(conf) case Some(p) => p }
    {
      var dutyCur := duty;
      if dutyCur == rec.target {
        done := true;
        return;
      }
      var scale := rec.scale;
      if scale == 0 {
        done := true;
        return;
      }
      var delta := if rec.increase then rec.target - dutyCur else dutyCur - rec.target;
      var step := if delta / scale > STEP_NUM_MAX then STEP_NUM_MAX else delta / scale;
      if delta > scale {
        conf := Config(dutyCur, rec.increase, step, rec.cycle, scale);
      } else {
        conf := Config(rec.target, rec.increase, 1, 1, 0);
      }
    }

    /** A fade from its start to the semaphore, counting the interrupts. */
    method Fade(target: nat, scale: nat, cycle: nat) returns (interrupts: nat)
      requires 0 < max && 0 <= duty && 0 < scale < 1024
      modifies this
      ensures done && duty == target
      ensures interrupts == Interrupts(Abs(target - StartDuty(max, old(duty))), scale)
      ensures clock == old(clock) + Duration(max, old(duty), target, scale, cycle)
    {
      hide SetFade, Duration;
      SetFadeWithStep(target, scale, cycle);
      interrupts := RunFade(target, scale, cycle);
    }

    /** The hardware and the interrupt handler, from a programmed fade on. */
    method RunFade(ghost target: nat, ghost scale: nat, ghost cycle: nat) returns (interrupts: nat)
      requires 0 < max && 0 <= duty && 0 < scale < 1024 && !done
      requires (rec, conf) == SetFade(max, duty, target, scale, cycle)
      modifies this`duty, this`clock, this`conf, this`done
      ensures done && duty == target
      ensures interrupts == Interrupts(Abs(target - StartDuty(max, old(duty))), scale)
      ensures clock == old(clock) + Duration(max, old(duty), target, scale, cycle)
    {
      hide SetFade, FirstDuty, Programs, NextDuty, Isr, IsrCycles, Lasts;
      ghost var n := Interrupts(Abs(target - StartDuty(max, duty)), scale);
      ghost var first := FirstDuty(max, duty, target, scale, cycle);
      FadeReachesTarget(max, duty, target, scale, cycle);
      FirstIs(max, duty, target, scale, cycle);
      RecIs(max, duty, target, scale, cycle);
      RunHardware();
      ghost var r, start := rec, clock;
      NoIsrCycles(r, first);
      interrupts := 1;
      FadeIsr();
      IsrDoneIff(r, duty);
      while !done
        invariant rec == r && r.target == target && 1 <= interrupts <= n
        invariant Delta(r, first) >= 0 && Delta(r, DutyAfter(r, first, interrupts - 1)) >= 0
        invariant duty == DutyAfter(r, first, interrupts - 1)
        invariant clock == start + IsrCycles(r, first, interrupts - 1)
        invariant done <==> duty == target
        invariant !done ==> Isr(r, duty).Some? && conf == Isr(r, duty).value
        invariant forall k | 0 <= k < n - 1 :: DutyAfter(r, first, k) != target
        invariant DutyAfter(r, first, n - 1) == target
        decreases n - interrupts
      {
        NextIs(r, first, interrupts - 1);
        CyclesNext(r, first, interrupts - 1);
        RunHardware();
        interrupts := interrupts + 1;
        FadeIsr();
        IsrDoneIff(r, duty);
      }
    }

    /** A fade with a time, from its start to the semaphore. */
    method FadeWithTime(target: nat, ms: int, freq: nat)
      requires 0 < max && 0 <= duty && target <= max
      requires ScaleFits(Abs(target - duty), TotalCycles(ms, freq))
      modifies this
      ensures done && duty == target
      ensures var total, delta := TotalCycles(ms, freq), Abs(target - old(duty));
              if total == 0 || delta == 0 then clock == old(clock)
              else InTime(clock - old(clock), total, delta, Abs(target - StartDuty(max, old(duty))))
    {
      hide SetFade, Duration, InTime, TimedScale, TimedCycle, TotalCycles, DutyAtEnd, Lasts;
      ghost var total := TotalCycles(ms, freq);
      ghost var scale, cycle := TimedScale(duty, target, total), TimedCycle(duty, target, total);
      TimedFadeLength(max, duty, target, ms, freq);
      TimedScaleFits(duty, target, total);
      RecIs(max, duty, target, scale, cycle);
      SetFadeWithTime(target, ms, freq);
      if rec.scale > 0 {
        var interrupts := RunFade(target, scale, cycle);
      } else {
        JumpsAtOnce(max, duty, target, cycle);
        RunHardware();
        assert duty == rec.target;
        FadeIsr();
      }
    }
  }

  lemma JumpsAtOnce(max: nat, duty: nat, target: nat, cycle: nat)
    requires 0 < max
    ensures var p := SetFade(max, duty, target, 0, cycle).1; DutyAtEnd(p) == target && Lasts(p) == 0
  {}

  lemma {:induction false} CyclesNext(r: Rec, duty: int, k: nat)
    requires Delta(r, duty) >= 0 && Isr(r, DutyAfter(r, duty, k)).Some?
    ensures IsrCycles(r, duty, k + 1) == IsrCycles(r, duty, k) + Lasts(Isr(r, DutyAfter(r, duty, k)).value)
    decreases k
  {
    hide Lasts, Isr;
    if k == 0 {
      NoIsrCycles(r, NextDuty(r, duty));
    } else {
      CyclesNext(r, NextDuty(r, duty), k - 1);
    }
  }

  lemma FirstIs(max: nat, duty: nat, target: nat, scale: nat, cycle: nat)
    requires 0 < max && 0 < scale
    ensures FirstDuty(max, duty, target, scale, cycle) == DutyAtEnd(SetFade(max, duty, target, scale, cycle).1)
  {}

  lemma IsrDoneIff(r: Rec, duty: int)
    requires Delta(r, duty) >= 0 && r.scale > 0
    ensures Isr(r, duty).None? <==> duty == r.target
  {}

  /** One more interrupt. */
  lemma {:induction false} NextIs(r: Rec, duty: int, k: nat)
    requires Delta(r, duty) >= 0
    ensures DutyAfter(r, duty, k + 1) == NextDuty(r, DutyAfter(r, duty, k))
    ensures Isr(r, DutyAfter(r, duty, k)).Some? ==>
              DutyAfter(r, duty, k + 1) == DutyAtEnd(Isr(r, DutyAfter(r, duty, k)).value)
    decreases k
  {
    if k == 0 {
    } else {
      NextIs(r, NextDuty(r, duty), k - 1);
    }
  }
}
