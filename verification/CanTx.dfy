/** The transmit path of the CAN driver (can.c): any number of transmitting tasks and the
    interrupt handler share a message counter, an "occupied" flag and a queue, and the
    queue send happens outside the critical sections. */
module CanTx {
  import opened Options

  type Frame = seq<int>

  /** The driver object: control flags, `tx_msg_count` and the TX queue of capacity `cap`
      (no queue at all when `cap` is zero). */
  datatype Driver = Driver(
    listenOnly: bool, stopped: bool, busOff: bool, recovering: bool, occupied: bool,
    count: int, queue: seq<Frame>, cap: nat)
  {
    predicate Halted() { stopped || busOff }
  }

  datatype Begun = NotSupported | InvalidState | SentNow | TryQueue

  /** First critical section of `can_transmit`. */
  function TxBegin(d: Driver): (Driver, Begun)
  {
    if d.listenOnly then (d, NotSupported)
    else if d.Halted() then (d, InvalidState)
    else if d.count == 0 && !d.occupied then (d.(count := d.count + 1, occupied := true), SentNow)
    else (d, TryQueue)
  }

  /** How the second critical section ends; the frame is the one taken from the queue.
      `AssertFailed` is a failed `configASSERT` on the queue receive. */
  datatype Ended = Removed(frame: Frame) | Triggered(frame: Frame) | Queued | AssertFailed

  /** Second critical section of `can_transmit`, after a successful queue send. */
  function TxEnd(d: Driver): (Driver, Ended)
  {
    if d.Halted() then
      if d.queue == [] then (d, AssertFailed) else (d.(queue := d.queue[1..]), Removed(d.queue[0]))
    else if d.count == 0 && !d.occupied then
      if d.queue == [] then (d, AssertFailed)
      else (d.(queue := d.queue[1..], count := d.count + 1, occupied := true), Triggered(d.queue[0]))
    else (d.(count := d.count + 1), Queued)
  }

  datatype Handled = NextFrame(frame: Frame) | TxIdle | IsrAssertFailed

  /** `can_intr_handler_tx`. */
  function IsrTx(d: Driver): (Driver, Handled)
  {
    var n := d.count - 1;
    if n < 0 then (d.(count := n), IsrAssertFailed)
    else if n > 0 && d.cap > 0 then
      if d.queue == [] then (d.(count := n), IsrAssertFailed)
      else (d.(count := n, queue := d.queue[1..]), NextFrame(d.queue[0]))
    else (d.(count := n, occupied := false), TxIdle)
  }

  /** `can_stop`; refused when stopped or bus-off. */
  function Stop(d: Driver): Option<Driver>
  {
    if d.Halted() then None else Some(d.(occupied := false, stopped := true, queue := [], count := 0))
  }

  /** `can_initiate_recovery`; refused unless bus-off and not yet recovering. */
  function InitiateRecovery(d: Driver): Option<Driver>
  {
    if !d.busOff || d.recovering then None
    else Some(d.(queue := [], count := 0, occupied := false, recovering := true))
  }

  /** `can_intr_handler_err_warn`, bus-off and recovery-complete branches. */
  function EnterBusOff(d: Driver): Driver { d.(busOff := true) }

  function RecoveryComplete(d: Driver): Driver
  {
    if d.recovering then d.(recovering := false, busOff := false, occupied := false, stopped := true) else d
  }

  function Start(d: Driver): Option<Driver> { if d.stopped then Some(d.(stopped := false)) else None }

  /** The driver, the frames of tasks that are about to send to the queue (`sending`) or
      between the send and the second critical section (`window`), and what became of
      every frame: accepted (ESP_OK), rejected after the send, handed to the hardware,
      taken from the queue by a rejected task, dropped with a queue reset. */
  datatype System = System(
    d: Driver, sending: multiset<Frame>, window: multiset<Frame>,
    accepted: multiset<Frame>, rejected: multiset<Frame>,
    handed: multiset<Frame>, removed: multiset<Frame>, dropped: multiset<Frame>)
  {
    ghost predicate Inv() {
      && |d.queue| == d.count - (if d.occupied then 1 else 0) + |window|
      && (d.occupied <==> d.count > 0) && d.count >= 0
      && (d.recovering ==> d.busOff && d.count == 0)
      && (d.cap == 0 ==> d.count <= 1 && window == multiset{} && sending == multiset{})
    }

    /** Frames tasks have given away, by what they were told. */
    ghost function Given(): multiset<Frame> { accepted + window + rejected }

    /** Frames the driver has received, by where they are or went. */
    ghost function Got(): multiset<Frame> { handed + multiset(d.queue) + removed + dropped }

    ghost predicate Conserved() { Given() == Got() }
  }

  function Init(cap: nat, listenOnly: bool): System
  {
    System(Driver(listenOnly, true, false, false, false, 0, [], cap),
           multiset{}, multiset{}, multiset{}, multiset{}, multiset{}, multiset{}, multiset{})
  }

  datatype Event =
    | Begin(f: Frame)      // a task enters can_transmit
    | Send(f: Frame)       // its queue send succeeds
    | Timeout(f: Frame)    // its queue send times out
    | End(f: Frame)        // it runs the second critical section
    | TxInterrupt
    | DoStop | DoStart | BusOff | DoRecover | Recovered

  /** What can happen: an interrupt only while the buffer is occupied, a send only into
      free space, and a queue reset by stop or recovery at any time they are accepted. */
  ghost predicate Enabled(s: System, e: Event)
  {
    match e
    case Begin(_) => true
    case Send(f) => f in s.sending && |s.d.queue| < s.d.cap
    case Timeout(f) => f in s.sending
    case End(f) => f in s.window
    case TxInterrupt => s.d.occupied
    case DoStop => Stop(s.d).Some?
    case DoStart => Start(s.d).Some?
    case BusOff => !s.d.stopped
    case DoRecover => InitiateRecovery(s.d).Some?
    case Recovered => s.d.recovering
  }

  /** A queue reset hits no task between its queue send and its recount. */
  ghost predicate Calm(s: System, e: Event) { e.DoStop? || e.DoRecover? ==> s.window == multiset{} }

  ghost predicate AssertFails(s: System, e: Event)
  {
    (e.End? && TxEnd(s.d).1 == AssertFailed) || (e.TxInterrupt? && IsrTx(s.d).1 == IsrAssertFailed)
  }

  ghost function Step(s: System, e: Event): System
    requires Enabled(s, e) && !AssertFails(s, e)
  {
    match e
    case Begin(f) =>
      var (d, b) := TxBegin(s.d);
      if b == SentNow then s.(d := d, accepted := s.accepted + multiset{f}, handed := s.handed + multiset{f})
      else if b == TryQueue && s.d.cap > 0 then s.(sending := s.sending + multiset{f})
      else s
    case Send(f) =>
      s.(d := s.d.(queue := s.d.queue + [f]), sending := s.sending - multiset{f}, window := s.window + multiset{f})
    case Timeout(f) => s.(sending := s.sending - multiset{f})
    case End(f) =>
      var (d, r) := TxEnd(s.d);
      var t := s.(d := d, window := s.window - multiset{f});
      if r.Removed? then t.(rejected := s.rejected + multiset{f}, removed := s.removed + multiset{r.frame})
      else if r.Triggered? then t.(accepted := s.accepted + multiset{f}, handed := s.handed + multiset{r.frame})
      else t.(accepted := s.accepted + multiset{f})
    case TxInterrupt =>
      var (d, r) := IsrTx(s.d);
      if r.NextFrame? then s.(d := d, handed := s.handed + multiset{r.frame}) else s.(d := d)
    case DoStop => s.(d := Stop(s.d).value, dropped := s.dropped + multiset(s.d.queue))
    case DoStart => s.(d := Start(s.d).value)
    case BusOff => s.(d := EnterBusOff(s.d))
    case DoRecover => s.(d := InitiateRecovery(s.d).value, dropped := s.dropped + multiset(s.d.queue))
    case Recovered => s.(d := RecoveryComplete(s.d))
  }

  lemma HeadAndTail(q: seq<Frame>)
    requires q != []
    ensures multiset(q) == multiset{q[0]} + multiset(q[1..])
  {
    assert q == [q[0]] + q[1..];
  }

  lemma WindowShrinks(s: System, f: Frame)
    requires f in s.window
    ensures |s.window - multiset{f}| == |s.window| - 1
  {
    assert s.window == (s.window - multiset{f}) + multiset{f};
  }

  /** In the window there is a frame to receive; on an interrupt with more to send, too. */
  lemma NoAssertFails(s: System, e: Event)
    requires s.Inv() && Enabled(s, e)
    ensures !AssertFails(s, e)
  {
    if e.End? { WindowShrinks(s, e.f); }
  }

  lemma EndKeepsInv(s: System, f: Frame)
    requires s.Inv() && f in s.window && !AssertFails(s, End(f))
    ensures Step(s, End(f)).Inv()
  {
    hide TxBegin, IsrTx, Stop, InitiateRecovery;
    WindowShrinks(s, f);
  }

  lemma EntryKeepsInv(s: System, e: Event)
    requires s.Inv() && Enabled(s, e) && (e.Begin? || e.Send? || e.Timeout?)
    ensures Step(s, e).Inv()
  {
    hide TxEnd, IsrTx, Stop, InitiateRecovery;
  }

  lemma ControlKeepsInv(s: System, e: Event)
    requires s.Inv() && Enabled(s, e) && Calm(s, e) && !AssertFails(s, e)
    requires !(e.Begin? || e.Send? || e.Timeout? || e.End? || e.TxInterrupt?)
    ensures Step(s, e).Inv()
  {
    hide TxBegin, TxEnd, IsrTx;
  }

  lemma InterruptKeepsInv(s: System)
    requires s.Inv() && Enabled(s, TxInterrupt) && !AssertFails(s, TxInterrupt)
    ensures Step(s, TxInterrupt).Inv()
  {
    hide TxBegin, TxEnd;
  }

  /** No assertion of the driver fails, and every calm step keeps the count exact. */
  lemma StepKeepsInv(s: System, e: Event)
    requires s.Inv() && Enabled(s, e)
    ensures !AssertFails(s, e)
    ensures Calm(s, e) ==> Step(s, e).Inv()
  {
    hide Step, System.Inv;
    NoAssertFails(s, e);
    match e
    case End(f) => EndKeepsInv(s, f);
    case Begin(_) | Send(_) | Timeout(_) => EntryKeepsInv(s, e);
    case TxInterrupt => InterruptKeepsInv(s);
    case _ => if Calm(s, e) { ControlKeepsInv(s, e); }
  }

  /** The frame a step adds to the system, if any. */
  function Fresh(s: System, e: Event): multiset<Frame>
  {
    if e.Send? || (e.Begin? && TxBegin(s.d).1 == SentNow) then multiset{e.f} else multiset{}
  }

  lemma Told(a: multiset<Frame>, w: multiset<Frame>, r: multiset<Frame>, f: Frame)
    ensures (a + multiset{f}) + w + r == a + w + r + multiset{f}
    ensures a + (w + multiset{f}) + r == a + w + r + multiset{f}
    ensures f in w ==> (a + multiset{f}) + (w - multiset{f}) + r == a + w + r
    ensures f in w ==> a + (w - multiset{f}) + (r + multiset{f}) == a + w + r
  {
  }

  lemma GivenAfter(s: System, e: Event)
    requires Enabled(s, e) && !AssertFails(s, e)
    ensures Step(s, e).Given() == s.Given() + Fresh(s, e)
  {
    match e
    case Begin(f) => GivenAfterBegin(s, f);
    case Send(f) => GivenAfterSend(s, f);
    case End(f) => GivenAfterEnd(s, f);
    case _ => hide IsrTx, Stop, Start, InitiateRecovery, RecoveryComplete, EnterBusOff;
  }

  lemma GivenAfterBegin(s: System, f: Frame)
    ensures Step(s, Begin(f)).Given() == s.Given() + Fresh(s, Begin(f))
  {
    Told(s.accepted, s.window, s.rejected, f);
  }

  lemma GivenAfterSend(s: System, f: Frame)
    requires Enabled(s, Send(f))
    ensures Step(s, Send(f)).Given() == s.Given() + Fresh(s, Send(f))
  {
    Told(s.accepted, s.window, s.rejected, f);
  }

  lemma GivenAfterEnd(s: System, f: Frame)
    requires Enabled(s, End(f)) && !AssertFails(s, End(f))
    ensures Step(s, End(f)).Given() == s.Given() + Fresh(s, End(f))
  {
    Told(s.accepted, s.window, s.rejected, f);
  }

  lemma Adds(h: multiset<Frame>, q: seq<Frame>, r: multiset<Frame>, x: multiset<Frame>, f: Frame)
    ensures (h + multiset{f}) + multiset(q) + r + x == h + multiset(q) + r + x + multiset{f}
    ensures h + multiset(q + [f]) + r + x == h + multiset(q) + r + x + multiset{f}
  {
    assert multiset(q + [f]) == multiset(q) + multiset{f};
  }

  lemma Pops(h: multiset<Frame>, q: seq<Frame>, r: multiset<Frame>, x: multiset<Frame>)
    requires q != []
    ensures (h + multiset{q[0]}) + multiset(q[1..]) + r + x == h + multiset(q) + r + x
    ensures h + multiset(q[1..]) + (r + multiset{q[0]}) + x == h + multiset(q) + r + x
  {
    HeadAndTail(q);
  }

  lemma Drops(h: multiset<Frame>, q: seq<Frame>, r: multiset<Frame>, x: multiset<Frame>)
    ensures h + multiset([]) + r + (x + multiset(q)) == h + multiset(q) + r + x
  {
  }

  lemma GotAfterEnd(s: System, f: Frame)
    requires f in s.window && TxEnd(s.d).1 != AssertFailed
    ensures Step(s, End(f)).Got() == s.Got()
  {
    hide TxBegin, IsrTx, Stop, InitiateRecovery, TxEnd;
    TxEndTakesHead(s.d);
    if s.d.queue != [] { Pops(s.handed, s.d.queue, s.removed, s.dropped); }
  }

  lemma TxEndTakesHead(d: Driver)
    ensures var (d', r) := TxEnd(d);
            && (r.Removed? || r.Triggered? ==> d.queue != [] && r.frame == d.queue[0] && d'.queue == d.queue[1..])
            && (r.Queued? ==> d'.queue == d.queue)
  {}

  lemma GotAfterInterrupt(s: System, e: Event)
    requires e.TxInterrupt? && Enabled(s, e) && !AssertFails(s, e)
    ensures Step(s, e).Got() == s.Got()
  {
    hide TxBegin, TxEnd, Stop, InitiateRecovery;
    if s.d.queue != [] { Pops(s.handed, s.d.queue, s.removed, s.dropped); }
  }

  lemma GotAfterReset(s: System, e: Event)
    requires (e.DoStop? || e.DoRecover?) && Enabled(s, e)
    ensures Step(s, e).Got() == s.Got()
  {
    hide TxBegin, TxEnd, IsrTx;
    Drops(s.handed, s.d.queue, s.removed, s.dropped);
  }

  lemma GotAfterEntry(s: System, e: Event)
    requires (e.Begin? || e.Send?) && Enabled(s, e)
    ensures Step(s, e).Got() == s.Got() + Fresh(s, e)
  {
    hide TxEnd, IsrTx, Stop, InitiateRecovery;
    Adds(s.handed, s.d.queue, s.removed, s.dropped, e.f);
  }

  lemma GotAfter(s: System, e: Event)
    requires Enabled(s, e) && !AssertFails(s, e)
    ensures Step(s, e).Got() == s.Got() + Fresh(s, e)
  {
    match e
    case Begin(_) | Send(_) => GotAfterEntry(s, e);
    case End(f) => GotAfterEnd(s, f);
    case TxInterrupt => GotAfterInterrupt(s, e);
    case DoStop | DoRecover => GotAfterReset(s, e);
    case Timeout(_) | DoStart | BusOff | Recovered =>
      hide TxBegin, TxEnd, IsrTx, Stop, InitiateRecovery;
  }

  /** Every frame is accounted for exactly once, whatever the interleaving. */
  lemma StepConserves(s: System, e: Event)
    requires s.Conserved() && Enabled(s, e) && !AssertFails(s, e)
    ensures Step(s, e).Conserved()
  {
    hide System.Given, System.Got, Step, Fresh, TxEnd, IsrTx, TxBegin;
    GivenAfter(s, e);
    GotAfter(s, e);
  }

  /** A run of calm, enabled events. */
  ghost predicate Runs(s: System, es: seq<Event>)
    decreases |es|
  {
    es == [] ||
    (Enabled(s, es[0]) && Calm(s, es[0]) && !AssertFails(s, es[0]) && Runs(Step(s, es[0]), es[1..]))
  }

  ghost function After(s: System, es: seq<Event>): System
    requires Runs(s, es)
    decreases |es|
  {
    if es == [] then s else After(Step(s, es[0]), es[1..])
  }

  lemma {:induction false} RunKeepsInv(s: System, es: seq<Event>)
    requires s.Inv() && s.Conserved() && Runs(s, es)
    ensures After(s, es).Inv() && After(s, es).Conserved()
    decreases |es|
  {
    if es == [] {
    } else {
      StepKeepsInv(s, es[0]);
      StepConserves(s, es[0]);
      RunKeepsInv(Step(s, es[0]), es[1..]);
    }
  }

  /** From installation, over every calm run: the queue holds exactly the counted frames
      that are not in the hardware plus those in the window; whatever happens next, no
      assertion fails; accepted and windowed frames are exactly those handed over or
      queued, up to frames of rejected tasks and of queue resets; and an idle transmitter
      with no task in the window leaves nothing queued. */
  lemma TransmitPath(cap: nat, listenOnly: bool, es: seq<Event>, e: Event)
    requires Runs(Init(cap, listenOnly), es)
    ensures var s := After(Init(cap, listenOnly), es);
            && |s.d.queue| == s.d.count - (if s.d.occupied then 1 else 0) + |s.window|
            && s.d.count >= 0
            && (Enabled(s, e) ==> !AssertFails(s, e))
            && s.accepted + s.window + s.rejected == s.handed + multiset(s.d.queue) + s.removed + s.dropped
            && (!s.d.occupied && s.window == multiset{} ==> s.d.queue == [])
  {
    var s0 := Init(cap, listenOnly);
    assert s0.Inv() && s0.Conserved();
    RunKeepsInv(s0, es);
    var s := After(s0, es);
    if Enabled(s, e) { StepKeepsInv(s, e); }
  }

  /** Without stop, recovery or bus-off nothing is rejected or dropped, so accepted plus
      windowed frames are exactly the frames handed over or still queued. */
  lemma {:induction false} UndisturbedRun(s: System, es: seq<Event>)
    requires s.Inv() && !s.d.Halted() && Runs(s, es)
    requires forall i | 0 <= i < |es| :: !es[i].BusOff? && !es[i].DoStop?
    ensures After(s, es).removed == s.removed && After(s, es).rejected == s.rejected
    ensures After(s, es).dropped == s.dropped && !After(s, es).d.Halted()
    decreases |es|
  {
    if es == [] {
    } else {
      StepKeepsInv(s, es[0]);
      UndisturbedRun(Step(s, es[0]), es[1..]);
    }
  }

  // ---- who may send when ----

  /** A stopped driver has given up its frame, a recovering one too, and a listen-only one never had
      any. */
  ghost predicate Quiet(s: System)
  {
    && (s.d.stopped ==> !s.d.busOff && !s.d.occupied)
    && (s.d.recovering ==> s.d.busOff && !s.d.occupied)
    && (s.d.listenOnly ==> !s.d.occupied && s.sending == multiset{} && s.window == multiset{})
  }

  lemma StepKeepsQuiet(s: System, e: Event)
    requires Quiet(s) && Enabled(s, e) && !AssertFails(s, e)
    ensures Quiet(Step(s, e)) && Step(s, e).d.listenOnly == s.d.listenOnly
    ensures s.d.Halted() && !e.DoStart? ==> Step(s, e).d.Halted()
    ensures s.d.stopped && !e.DoStart? ==> Step(s, e).d.stopped
    ensures e.DoStop? ==> Step(s, e).d.stopped
  {
    match e
    case Begin(_) => BeginKeepsQuiet(s, e);
    case Send(_) | Timeout(_) => QueueKeepsQuiet(s, e);
    case End(f) => EndKeepsQuiet(s, f);
    case TxInterrupt => InterruptKeepsQuiet(s);
    case DoStop | DoStart | BusOff | DoRecover | Recovered => ControlKeepsQuiet(s, e);
  }

  lemma BeginKeepsQuiet(s: System, e: Event)
    requires Quiet(s) && Enabled(s, e) && e.Begin?
    ensures Quiet(Step(s, e)) && SameMode(s, Step(s, e))
  {}

  lemma QueueKeepsQuiet(s: System, e: Event)
    requires Quiet(s) && Enabled(s, e) && (e.Send? || e.Timeout?)
    ensures Quiet(Step(s, e)) && SameMode(s, Step(s, e))
  {
    hide TxBegin, TxEnd, IsrTx, Stop, Start, InitiateRecovery, RecoveryComplete, EnterBusOff;
  }

  lemma EndKeepsQuiet(s: System, f: Frame)
    requires Quiet(s) && Enabled(s, End(f)) && !AssertFails(s, End(f))
    ensures Quiet(Step(s, End(f))) && SameMode(s, Step(s, End(f)))
  {
    hide TxBegin, IsrTx, Stop, Start, InitiateRecovery, RecoveryComplete, EnterBusOff;
  }

  lemma InterruptKeepsQuiet(s: System)
    requires Quiet(s) && Enabled(s, TxInterrupt) && !AssertFails(s, TxInterrupt)
    ensures Quiet(Step(s, TxInterrupt)) && SameMode(s, Step(s, TxInterrupt))
  {
    hide TxBegin, TxEnd, Stop, Start, InitiateRecovery, RecoveryComplete, EnterBusOff;
  }

  predicate SameMode(s: System, t: System)
  {
    && t.d.listenOnly == s.d.listenOnly && t.d.stopped == s.d.stopped
    && t.d.busOff == s.d.busOff && t.d.recovering == s.d.recovering
  }

  lemma ControlKeepsQuiet(s: System, e: Event)
    requires Quiet(s) && Enabled(s, e) && (e.DoStop? || e.DoStart? || e.BusOff? || e.DoRecover? || e.Recovered?)
    ensures Quiet(Step(s, e)) && Step(s, e).d.listenOnly == s.d.listenOnly
    ensures s.d.Halted() && !e.DoStart? ==> Step(s, e).d.Halted()
    ensures s.d.stopped && !e.DoStart? ==> Step(s, e).d.stopped
    ensures e.DoStop? ==> Step(s, e).d.stopped
  {
    hide TxBegin, TxEnd, IsrTx;
  }

  /** Frames are handed to the hardware only by a driver that is started, not recovering and not
      listen-only; after bus-off only while the interrupt of the frame in the buffer is still to
      come and more are counted, and then they are. */
  lemma HandedOnlyWhenRunning(s: System, e: Event)
    requires Quiet(s) && Enabled(s, e) && !AssertFails(s, e)
    ensures Step(s, e).handed != s.handed ==> !s.d.stopped && !s.d.recovering && !s.d.listenOnly
    ensures s.d.busOff ==>
              (Step(s, e).handed != s.handed <==> e.TxInterrupt? && s.d.count > 1 && s.d.cap > 0)
    ensures Step(s, e).accepted != s.accepted ==> !s.d.Halted() && !s.d.listenOnly
  {
    if e.TxInterrupt? && IsrTx(s.d).1.NextFrame? {
      assert |Step(s, e).handed| == |s.handed| + 1;
    }
  }

  /** A driver that may not send leaves everything as it was; one that may and has nothing to send
      hands the frame over at once and reports it as accepted. */
  lemma TransmitAnswers(s: System, f: Frame)
    requires s.Inv()
    ensures s.d.Halted() || s.d.listenOnly ==> Step(s, Begin(f)) == s
    ensures !s.d.Halted() && !s.d.listenOnly && !s.d.occupied ==>
              && Step(s, Begin(f)).handed == s.handed + multiset{f}
              && Step(s, Begin(f)).accepted == s.accepted + multiset{f}
    ensures !s.d.Halted() && !s.d.listenOnly && s.d.occupied && s.d.cap > 0 ==>
              Step(s, Begin(f)).sending == s.sending + multiset{f}
  {}

  /** Until the next start a stopped or bus-off driver accepts nothing, and a stopped one hands
      nothing to the hardware. */
  lemma {:induction false} HaltedRun(s: System, es: seq<Event>)
    requires Quiet(s) && s.d.Halted() && Runs(s, es) && DoStart !in es
    ensures After(s, es).accepted == s.accepted && After(s, es).d.Halted()
    ensures s.d.stopped ==> After(s, es).handed == s.handed && After(s, es).d.stopped
    decreases |es|
  {
    if es == [] {
    } else {
      hide Step, Quiet, Enabled, AssertFails, Calm;
      assert es[0] in es;
      StepKeepsQuiet(s, es[0]);
      HandedOnlyWhenRunning(s, es[0]);
      HaltedRun(Step(s, es[0]), es[1..]);
    }
  }

  lemma {:induction false} ListenOnlyRun(s: System, es: seq<Event>)
    requires Quiet(s) && s.d.listenOnly && Runs(s, es)
    ensures After(s, es).accepted == s.accepted && After(s, es).handed == s.handed
    decreases |es|
  {
    if es == [] {
    } else {
      hide Step, Quiet, Enabled, AssertFails, Calm;
      StepKeepsQuiet(s, es[0]);
      HandedOnlyWhenRunning(s, es[0]);
      ListenOnlyRun(Step(s, es[0]), es[1..]);
    }
  }

  lemma {:induction false} RunKeepsQuiet(s: System, es: seq<Event>)
    requires Quiet(s) && Runs(s, es)
    ensures Quiet(After(s, es)) && After(s, es).d.listenOnly == s.d.listenOnly
    decreases |es|
  {
    if es == [] {
    } else {
      hide Step, Quiet, Enabled, AssertFails, Calm;
      StepKeepsQuiet(s, es[0]);
      RunKeepsQuiet(Step(s, es[0]), es[1..]);
    }
  }

  /** From installation: nothing is sent or accepted before the first start, nothing ever by a
      listen-only driver, and nothing from a stop to the next start. */
  lemma SilentUnlessStarted(cap: nat, listenOnly: bool, es: seq<Event>, more: seq<Event>)
    requires var s0 := Init(cap, listenOnly); Runs(s0, es)
    ensures var s0, s := Init(cap, listenOnly), After(Init(cap, listenOnly), es);
            && (DoStart !in es || listenOnly ==> s.handed == multiset{} && s.accepted == multiset{})
            && (Runs(s, more) && |more| > 0 && more[0] == DoStop && DoStart !in more ==>
                  After(s, more).handed == s.handed && After(s, more).accepted == s.accepted)
  {
    hide Step, Enabled, AssertFails, Calm, Quiet;
    var s0 := Init(cap, listenOnly);
    InitIsQuiet(cap, listenOnly);
    RunKeepsQuiet(s0, es);
    if DoStart !in es {
      HaltedRun(s0, es);
    }
    if listenOnly {
      ListenOnlyRun(s0, es);
    }
    var s := After(s0, es);
    if Runs(s, more) && |more| > 0 && more[0] == DoStop && DoStart !in more {
      StepKeepsQuiet(s, DoStop);
      StopSendsNothing(s);
      HaltedRun(Step(s, DoStop), more[1..]);
    }
  }

  lemma InitIsQuiet(cap: nat, listenOnly: bool)
    ensures Quiet(Init(cap, listenOnly))
  {}

  lemma StopSendsNothing(s: System)
    requires Enabled(s, DoStop)
    ensures !AssertFails(s, DoStop)
    ensures Step(s, DoStop).handed == s.handed && Step(s, DoStop).accepted == s.accepted
  {}

  /** When the control calls are accepted. */
  lemma ControlIff(s: System)
    ensures Enabled(s, DoStop) <==> !s.d.stopped && !s.d.busOff
    ensures Enabled(s, DoStart) <==> s.d.stopped
    ensures Enabled(s, DoRecover) <==> s.d.busOff && !s.d.recovering
  {}

  /** Recovery from bus-off ends in a stopped driver with nothing queued or counted, which can be
      started again; other changes of the error status leave the driver as it is. */
  lemma RecoveryRestores(s: System)
    requires s.Inv() && Quiet(s) && Enabled(s, DoRecover) && s.window == multiset{}
    ensures Enabled(Step(s, DoRecover), Recovered) && !Enabled(Step(s, DoRecover), DoRecover)
    ensures var t := Step(Step(s, DoRecover), Recovered);
            && t.d == Driver(s.d.listenOnly, true, false, false, false, 0, [], s.d.cap)
            && t.dropped == s.dropped + multiset(s.d.queue) && Enabled(t, DoStart)
            && Step(t, DoStart).d == t.d.(stopped := false)
    ensures forall d: Driver | !d.recovering :: RecoveryComplete(d) == d
  {}

  /** The calm condition is exact: a stop keeps the count right if and only if no task is
      in the window, and with one there the very next second critical section fails its
      assertion. */
  lemma StopNeedsEmptyWindow(s: System)
    requires s.Inv() && Enabled(s, DoStop)
    ensures Step(s, DoStop).Inv() <==> s.window == multiset{}
    ensures forall f | f in s.window ::
              Enabled(Step(s, DoStop), End(f)) && AssertFails(Step(s, DoStop), End(f))
  {
  }

  lemma RecoveryNeedsEmptyWindow(s: System)
    requires s.Inv() && Enabled(s, DoRecover)
    ensures Step(s, DoRecover).Inv() <==> s.window == multiset{}
    ensures forall f | f in s.window ::
              Enabled(Step(s, DoRecover), End(f)) && AssertFails(Step(s, DoRecover), End(f))
  {
  }

  lemma RunsBehind(s: System, e: Event, es: seq<Event>)
    requires Enabled(s, e) && Calm(s, e) && !AssertFails(s, e) && Runs(Step(s, e), es)
    ensures Runs(s, [e] + es) && After(s, [e] + es) == After(Step(s, e), es)
  {
    assert ([e] + es)[1..] == es;
  }

  /** One task transmits, another one has sent to the queue and not counted itself yet. */
  function WindowRun(f: Frame, g: Frame, tail: seq<Event>): seq<Event>
  {
    [DoStart] + ([Begin(f)] + ([Begin(g)] + ([Send(g)] + tail)))
  }

  /** The driver of one queue place after that run. */
  function InWindow(f: Frame, g: Frame): System
  {
    Init(1, false).(d := Driver(false, false, false, false, true, 1, [g], 1),
                    window := multiset{g}, accepted := multiset{f}, handed := multiset{f})
  }

  lemma WindowReached(f: Frame, g: Frame, tail: seq<Event>)
    requires Runs(InWindow(f, g), tail)
    ensures Runs(Init(1, false), WindowRun(f, g, tail))
    ensures After(Init(1, false), WindowRun(f, g, tail)) == After(InWindow(f, g), tail)
  {
    hide Runs, After, System.Inv;
    var s1 := Step(Init(1, false), DoStart);
    var s2 := Step(s1, Begin(f));
    var s3 := Step(s2, Begin(g));
    assert s2 == Init(1, false).(d := Driver(false, false, false, false, true, 1, [], 1),
                                 accepted := multiset{f}, handed := multiset{f});
    assert s3 == s2.(sending := multiset{g});
    assert Step(s3, Send(g)) == InWindow(f, g);
    RunsBehind(s3, Send(g), tail);
    RunsBehind(s2, Begin(g), [Send(g)] + tail);
    RunsBehind(s1, Begin(f), [Begin(g)] + ([Send(g)] + tail));
    RunsBehind(Init(1, false), DoStart, [Begin(f)] + ([Begin(g)] + ([Send(g)] + tail)));
  }

  /** So a stop, or a bus-off with the start of recovery, can hit a task in the window; its next
      section fails its assertion. */
  lemma WindowIsHit(f: Frame, g: Frame)
    ensures var s0, es := Init(1, false), WindowRun(f, g, []);
            && Runs(s0, es) && Enabled(After(s0, es), DoStop)
            && Enabled(Step(After(s0, es), DoStop), End(g)) && AssertFails(Step(After(s0, es), DoStop), End(g))
    ensures var s0, es := Init(1, false), WindowRun(f, g, [BusOff]);
            && Runs(s0, es) && Enabled(After(s0, es), DoRecover)
            && Enabled(Step(After(s0, es), DoRecover), End(g)) && AssertFails(Step(After(s0, es), DoRecover), End(g))
  {
    hide WindowRun, InWindow, Enabled, Step, AssertFails;
    InWindowFails(f, g);
    RunOfNone(InWindow(f, g));
    WindowReached(f, g, []);
    RunOfOne(InWindow(f, g), BusOff);
    WindowReached(f, g, [BusOff]);
  }

  lemma RunOfNone(s: System)
    ensures Runs(s, []) && After(s, []) == s
  {}

  lemma RunOfOne(s: System, e: Event)
    requires Enabled(s, e) && Calm(s, e) && !AssertFails(s, e)
    ensures Runs(s, [e]) && After(s, [e]) == Step(s, e)
  {
    assert [e][1..] == [];
    RunOfNone(Step(s, e));
  }

  lemma InWindowFails(f: Frame, g: Frame)
    ensures var s := InWindow(f, g);
            && Enabled(s, DoStop) && !AssertFails(s, DoStop)
            && Enabled(Step(s, DoStop), End(g)) && AssertFails(Step(s, DoStop), End(g))
    ensures var s := InWindow(f, g);
            && Enabled(s, BusOff) && Calm(s, BusOff) && !AssertFails(s, BusOff)
            && var t := Step(s, BusOff);
            && Enabled(t, DoRecover) && !AssertFails(t, DoRecover)
            && Enabled(Step(t, DoRecover), End(g)) && AssertFails(Step(t, DoRecover), End(g))
  {}

  /** `p_can_obj`: the fields the tasks and the interrupt handler update in place. Each
      method is one critical section (or one queue call) and does what the functions
      above say; a null result of a receive is the failed assertion. */
  class CanObject {
    var listenOnly: bool
    var stopped: bool
    var busOff: bool
    var recovering: bool
    var occupied: bool
    var txMsgCount: int
    var txQueue: seq<Frame>
    const cap: nat
    var txBuffer: Option<Frame>   // last frame given to the hardware

    constructor (cap: nat, listenOnly: bool)
      ensures D() == Init(cap, listenOnly).d
    {
      this.cap, this.listenOnly := cap, listenOnly;
      stopped, busOff, recovering, occupied := true, false, false, false;
      txMsgCount, txQueue, txBuffer := 0, [], None;
    }

    function D(): Driver
      reads this
    {
      Driver(listenOnly, stopped, busOff, recovering, occupied, txMsgCount, txQueue, cap)
    }

    method QueueReceive() returns (f: Option<Frame>)
      modifies this`txQueue
      ensures old(txQueue) == [] ==> f == None && txQueue == []
      ensures old(txQueue) != [] ==> f == Some(old(txQueue)[0]) && txQueue == old(txQueue)[1..]
    {
      if txQueue == [] {
        f := None;
      } else {
        f := Some(txQueue[0]);
        txQueue := txQueue[1..];
      }
    }

    method TransmitFirst(f: Frame) returns (r: Begun)
      modifies this
      ensures (D(), r) == TxBegin(old(D()))
      ensures txBuffer == if r == SentNow then Some(f) else old(txBuffer)
    {
      if listenOnly {
        return NotSupported;
      }
      if stopped || busOff {
        return InvalidState;
      }
      r := TryQueue;
      if txMsgCount == 0 && !occupied {
        txBuffer := Some(f);
        txMsgCount := txMsgCount + 1;
        occupied := true;
        r := SentNow;
      }
    }

    method TransmitSecond() returns (r: Ended)
      modifies this
      ensures (D(), r) == TxEnd(old(D()))
      ensures txBuffer == if r.Triggered? then Some(r.frame) else old(txBuffer)
    {
      if stopped || busOff {
        var f := QueueReceive();
        r := if f.None? then AssertFailed else Removed(f.value);
      } else if txMsgCount == 0 && !occupied {
        var f := QueueReceive();
        if f.None? {
          return AssertFailed;
        }
        txBuffer := f;
        txMsgCount := txMsgCount + 1;
        occupied := true;
        r := Triggered(f.value);
      } else {
        txMsgCount := txMsgCount + 1;
        r := Queued;
      }
    }

    method HandleTxInterrupt() returns (r: Handled)
      modifies this
      ensures (D(), r) == IsrTx(old(D()))
      ensures txBuffer == if r.NextFrame? then Some(r.frame) else old(txBuffer)
    {
      txMsgCount := txMsgCount - 1;
      if txMsgCount < 0 {
        return IsrAssertFailed;
      }
      if txMsgCount > 0 && cap > 0 {
        var f := QueueReceive();
        if f.None? {
          return IsrAssertFailed;
        }
        txBuffer := f;
        r := NextFrame(f.value);
      } else {
        occupied := false;
        r := TxIdle;
      }
    }

    method StopDriver() returns (ok: bool)
      modifies this
      ensures ok <==> Stop(old(D())).Some?
      ensures D() == if ok then Stop(old(D())).value else old(D())
    {
      if stopped || busOff {
        return false;
      }
      occupied := false;
      stopped := true;
      txQueue := [];
      txMsgCount := 0;
      ok := true;
    }

    method Recover() returns (ok: bool)
      modifies this
      ensures ok <==> InitiateRecovery(old(D())).Some?
      ensures D() == if ok then InitiateRecovery(old(D())).value else old(D())
    {
      if !busOff || recovering {
        return false;
      }
      txQueue := [];
      txMsgCount := 0;
      occupied := false;
      recovering := true;
      ok := true;
    }

    /** `can_intr_handler_err_warn`, as far as it touches the transmit path. */
    method HandleErrWarn(busStatus: bool, errorStatus: bool)
      modifies this
      ensures D() == if busStatus && errorStatus then EnterBusOff(old(D()))
                     else if !busStatus && !errorStatus then RecoveryComplete(old(D()))
                     else old(D())
    {
      if busStatus {
        if errorStatus {
          busOff := true;
        }
      } else if !errorStatus && recovering {
        recovering, busOff, occupied := false, false, false;
        stopped := true;
      }
    }
  }
}
