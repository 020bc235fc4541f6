/** The acceleration timers of the GPS task (hw_gps.c): for each speed threshold, the time from
    the last departure from standstill until the threshold is reached. */
module Triggers {
  import opened Arithmetic
  import opened Options


  /** A sample: speed in km/h, the tick count at which it is handled (not wrapped), and whether
      the fix is valid; an invalid fix clears the timers. */
  datatype Sample = Sample(speed: nat, time: nat, valid: bool)

  /** A timer record: `sys_ticks`, `trigged_ms` and `status`. */
  datatype Timer = Timer(ticks: nat, ms: nat, status: int)

  /** `_trig_one_limit`; `period` is the length of a tick in milliseconds. */
  function Step(t: Timer, s: Sample, limit: nat, period: nat): Timer
  {
    if !s.valid then Timer(0, 0, 0)
    else
      var u := if s.speed == 0 then Timer(0, t.ms, 0) else t;
      if u.status == 0 then if s.speed == 0 then u.(status := 1) else u
      else if u.status == 1 then if s.speed > 0 then Timer(Uint32(s.time), 0, 2) else u
      else if u.status == 2 then
        if s.speed >= limit then Timer(u.ticks, Uint32(Uint32(Uint32(s.time) - u.ticks) * period), 0) else u
      else u.(status := 0)
  }

  function Run(ss: seq<Sample>, limit: nat, period: nat): Timer
  {
    if ss == [] then Timer(0, 0, 0)
    else Step(Run(ss[..|ss| - 1], limit, period), ss[|ss| - 1], limit, period)
  }

  // ---- what the timer should show, from the history alone ----

  /** The samples after the last invalid one. */
  function SinceClear(ss: seq<Sample>): (h: seq<Sample>)
  {
    if ss == [] || !ss[|ss| - 1].valid then [] else SinceClear(ss[..|ss| - 1]) + [ss[|ss| - 1]]
  }

  predicate Departs(h: seq<Sample>, d: int) { 0 < d < |h| && h[d].speed > 0 && h[d - 1].speed == 0 }

  function Departure(h: seq<Sample>): (d: Option<nat>)
    ensures d.Some? ==> Departs(h, d.value) && forall e :: e > d.value ==> !Departs(h, e)
    ensures d.None? ==> forall e :: !Departs(h, e)
  {
    var n := |h| - 1;
    if h == [] then None
    else if Departs(h, n) then Some(n)
    else
      var d := Departure(h[..n]);
      assert forall e | e < n :: Departs(h, e) <==> Departs(h[..n], e);
      d
  }

  /** The first sample after `d` at or above the limit. */
  function Reach(h: seq<Sample>, d: nat, limit: nat): (j: Option<nat>)
    ensures j.Some? ==> d < j.value < |h| && h[j.value].speed >= limit
    ensures j.Some? ==> forall e | d < e < j.value :: h[e].speed < limit
    ensures j.None? ==> forall e | d < e < |h| :: h[e].speed < limit
  {
    var n := |h| - 1;
    if h == [] then None
    else
      match Reach(h[..n], d, limit)
      case Some(j) => Some(j)
      case None => if d < n && h[n].speed >= limit then Some(n) else None
  }

  /** Ticks from the latest departure to the first later sample at or above the limit. */
  function Elapsed(h: seq<Sample>, limit: nat): Option<int>
  {
    match Departure(h)
    case None => None
    case Some(d) =>
      match Reach(h, d, limit)
      case None => None
      case Some(j) => Some(h[j].time - h[d].time)
  }

  function Shown(h: seq<Sample>, limit: nat, period: nat): nat
  {
    match Elapsed(h, limit)
    case None => 0
    case Some(t) => Uint32(t * period)
  }

  /** The timer state that belongs to a history since the last clear. */
  predicate Matches(t: Timer, h: seq<Sample>, limit: nat, period: nat)
  {
    && t.ms == Shown(h, limit, period)
    && t.status in {0, 1, 2}
    && (t.status == 1 <==> h != [] && h[|h| - 1].speed == 0)
    && (t.status == 2 <==>
        Departure(h).Some? && Reach(h, Departure(h).value, limit).None? &&
        forall e | Departure(h).value < e < |h| :: h[e].speed > 0)
    && (t.status == 2 ==> t.ticks == Uint32(h[Departure(h).value].time))
    && (t.status == 0 && Departure(h).Some? ==> Reach(h, Departure(h).value, limit).Some?)
  }

  /** Tick wrap-around does not disturb a time span. */
  lemma WrapsAway(a: int, b: int, period: nat)
    ensures Uint32(Uint32(Uint32(a) - Uint32(b)) * period) == Uint32((a - b) * period)
  {
    WrappedTimes(Uint32(a) - Uint32(b), a - b, b / U32 - a / U32, period);
  }

  lemma WrappedTimes(x: int, y: int, k: int, period: nat)
    requires x == y + k * U32
    ensures Uint32(Uint32(x) * period) == Uint32(y * period)
  {
    var m := k - x / U32;
    assert Uint32(x) == y + m * U32;
    TimesShifted(y, m, period);
    Uint32Shift(y * period, m * period);
  }

  lemma TimesShifted(y: int, m: int, period: nat)
    ensures (y + m * U32) * period == y * period + (m * period) * U32
  {}

  lemma Appended(h: seq<Sample>, s: Sample, limit: nat)
    ensures var g := h + [s];
            && Departure(g) == (if Departs(g, |h|) then Some(|h|) else Departure(h))
            && forall d: nat :: Reach(g, d, limit) ==
                 match Reach(h, d, limit)
                 case Some(j) => Some(j)
                 case None => if d < |h| && s.speed >= limit then Some(|h|) else None
  {
    assert (h + [s])[..|h|] == h;
  }

  /** A stray status is reset, and a standing vehicle is ready to depart at once. */
  lemma StrayStatus(t: Timer, s: Sample, limit: nat, period: nat)
    requires s.valid && t.status !in {0, 1, 2}
    ensures Step(t, s, limit, period) == if s.speed == 0 then Timer(0, t.ms, 1) else t.(status := 0)
  {}

  /** One valid sample keeps the timer in step with the history. */
  lemma StepMatches(t: Timer, h: seq<Sample>, s: Sample, limit: nat, period: nat)
    requires Matches(t, h, limit, period) && s.valid && 0 < limit
    ensures Matches(Step(t, s, limit, period), h + [s], limit, period)
  {
    hide Departure, Reach, Uint32;
    var g, n := h + [s], |h|;
    Appended(h, s, limit);
    assert forall e | 0 <= e < n :: g[e] == h[e];
    if s.speed == 0 {
    } else if t.status == 1 {
      assert Departs(g, n);
    } else {
      assert !Departs(g, n);
      if t.status == 2 {
        WrapsAway(s.time, h[Departure(h).value].time, period);
      }
    }
  }

  /** For every sequence of samples, the value shown is that of the history. */
  lemma {:induction false} TimerShowsHistory(ss: seq<Sample>, limit: nat, period: nat)
    requires 0 < limit
    ensures Matches(Run(ss, limit, period), SinceClear(ss), limit, period)
    ensures Run(ss, limit, period).ms == Shown(SinceClear(ss), limit, period)
  {
    if ss == [] {
    } else {
      var init, last := ss[..|ss| - 1], ss[|ss| - 1];
      TimerShowsHistory(init, limit, period);
      if last.valid {
        StepMatches(Run(init, limit, period), SinceClear(init), last, limit, period);
      }
    }
  }

  // ---- several thresholds ----

  /** Ticks advance from sample to sample. */
  predicate Advancing(h: seq<Sample>) { forall i, j | 0 <= i < j < |h| :: h[i].time < h[j].time }

  /** If the higher limit has been reached, so has the lower one, and no later. */
  lemma LowerLimitFirst(h: seq<Sample>, low: nat, high: nat)
    requires low <= high && Advancing(h) && Elapsed(h, high).Some?
    ensures Elapsed(h, low).Some? && 0 < Elapsed(h, low).value <= Elapsed(h, high).value
  {
    var d := Departure(h).value;
    var j := Reach(h, d, high).value;
    assert h[j].speed >= low;
    var i := Reach(h, d, low).value;
    assert i <= j;
  }

  lemma Scaled(a: int, b: int, period: nat)
    requires 0 < a <= b && 0 < period
    ensures 0 < a * period <= b * period
  {}

  /** The timers on one stream of samples: a limit that shows a time implies that every lower
      one shows one, and none larger. Ticks must advance between samples and the whole span
      must fit 32 bits. */
  lemma LowerTimersShow(ss: seq<Sample>, low: nat, high: nat, period: nat)
    requires 0 < low <= high && 0 < period && Advancing(SinceClear(ss))
    requires var h := SinceClear(ss); h != [] ==> (h[|h| - 1].time - h[0].time) * period < U32
    ensures Run(ss, high, period).ms > 0 ==> 0 < Run(ss, low, period).ms <= Run(ss, high, period).ms
  {
    hide Run, Matches, Departure, Reach;
    var h := SinceClear(ss);
    TimerShowsHistory(ss, low, period);
    TimerShowsHistory(ss, high, period);
    if Elapsed(h, high).Some? {
      LowerLimitFirst(h, low, high);
      LowerLimitFirst(h, high, high);
      ElapsedWithin(h, low);
      ElapsedWithin(h, high);
      var a, b, span := Elapsed(h, low).value, Elapsed(h, high).value, h[|h| - 1].time - h[0].time;
      Scaled(a, b, period);
      Scaled(b, span, period);
    }
  }

  lemma ElapsedWithin(h: seq<Sample>, limit: nat)
    requires Advancing(h) && Elapsed(h, limit).Some?
    ensures h != [] && Elapsed(h, limit).value <= h[|h| - 1].time - h[0].time
  {
    var d := Departure(h).value;
    var j := Reach(h, d, limit).value;
    assert h[0].time < h[d].time && h[j].time <= h[|h| - 1].time;
  }

  // ---- the code ----

  /** `struct _trig_lim_str_t`. */
  class TrigLimit {
    var sysTicks: nat
    var triggedMs: nat
    var status: int

    constructor ()
      ensures State() == Timer(0, 0, 0)
    {
      sysTicks, triggedMs, status := 0, 0, 0;
    }

    function State(): Timer
      reads this
    {
      Timer(sysTicks, triggedMs, status)
    }

    /** `_trig_one_limit`; the sample carries the tick count the call reads. */
    method TrigOneLimit(s: Sample, limit: nat, period: nat)
      modifies this
      ensures State() == Step(old(State()), s, limit, period)
    {
      if !s.valid || s.speed == 0 {
        sysTicks := 0;
        status := 0;
        if !s.valid {
          triggedMs := 0;
          return;
        }
      }
      if status == 0 {
        if s.speed == 0 {
          status := 1;
        }
      } else if status == 1 {
        if s.speed > 0 {
          triggedMs := 0;
          sysTicks := Uint32(s.time);
          status := 2;
        }
      } else if status == 2 {
        if s.speed >= limit {
          triggedMs := Uint32(Uint32(Uint32(s.time) - sysTicks) * period);
          status := 0;
        }
      } else {
        status := 0;
      }
    }
  }

  /** The four timers and the values they publish. */
  class SpeedTimers {
    const limit40: TrigLimit
    const limit60: TrigLimit
    const limit80: TrigLimit
    const limit100: TrigLimit
    var shown: seq<nat>

    constructor ()
      ensures Valid() && fresh({limit40, limit60, limit80, limit100})
      ensures States() == seq(4, _ => Timer(0, 0, 0)) && shown == [0, 0, 0, 0]
    {
      limit40 := new TrigLimit();
      limit60 := new TrigLimit();
      limit80 := new TrigLimit();
      limit100 := new TrigLimit();
      shown := [0, 0, 0, 0];
    }

    predicate Valid()
    {
      limit40 != limit60 && limit40 != limit80 && limit40 != limit100 &&
      limit60 != limit80 && limit60 != limit100 && limit80 != limit100
    }

    function States(): seq<Timer>
      reads limit40, limit60, limit80, limit100
    {
      [limit40.State(), limit60.State(), limit80.State(), limit100.State()]
    }

    /** `_check_and_apply_trigers`, with one tick reading for the four calls. */
    method CheckAndApply(speedThousandths: nat, clear: bool, time: nat, period: nat)
      requires Valid()
      modifies this, limit40, limit60, limit80, limit100
      ensures var s := Sample(speedThousandths / 1000, time, !clear);
              var old4 := old(States());
              && States() == [Step(old4[0], s, 40, period), Step(old4[1], s, 60, period),
                              Step(old4[2], s, 80, period), Step(old4[3], s, 100, period)]
              && shown == [States()[0].ms, States()[1].ms, States()[2].ms, States()[3].ms]
    {
      var s := Sample(speedThousandths / 1000, time, !clear);
      limit40.TrigOneLimit(s, 40, period);
      limit60.TrigOneLimit(s, 60, period);
      limit80.TrigOneLimit(s, 80, period);
      limit100.TrigOneLimit(s, 100, period);
      shown := [limit40.triggedMs, limit60.triggedMs, limit80.triggedMs, limit100.triggedMs];
    }
  }
}
