/** Every event of the trace transport is a sequence of four elementary moves, so what each of
    them keeps holds over every run. */
module TraceMoves {
  import opened Arithmetic
  import opened LittleEndian
  import opened Options
  import opened RingBuffer
  import opened Sequences
  import opened TraceSpec

  /** A block switch, an acknowledgement of a non-empty block, a block put into the current trace
      block or into the pending ring. */
  datatype Prim = Swap | Acked(msg: seq<byte>) | Direct(b: Block) | Pend(b: Block)

  ghost predicate CanDo(s: State, m: Prim)
  {
    && s.Inv()
    && match m
       case Swap => s.exposed == []
       case Acked(msg) => s.exposed != [] && |msg| + 2 <= BLOCK
       case Direct(b) => s.Pending() == [] && |Bytes(s.cur)| + |b| <= BLOCK
       case Pend(b) => s.cur != [] && AddPending(s, b).0 == Got
  }

  ghost function Do(s: State, m: Prim): (t: State)
    requires CanDo(s, m)
    ensures t.Inv()
  {
    match m
    case Swap => Switch(s).value
    case Acked(msg) => HostAck(s, msg)
    case Direct(b) => AddDirect(s, b)
    case Pend(b) => AddPending(s, b).1
  }

  /** The moves lead from `s` to `t`. */
  ghost predicate Leads(s: State, ms: seq<Prim>, t: State)
    decreases |ms|
  {
    if ms == [] then s == t else CanDo(s, ms[0]) && Leads(Do(s, ms[0]), ms[1..], t)
  }

  lemma LeadsOne(s: State, m: Prim)
    requires CanDo(s, m)
    ensures Leads(s, [m], Do(s, m))
  {
    assert [m][1..] == [];
  }

  lemma {:induction false} LeadsOn(s: State, ms: seq<Prim>, t: State, ns: seq<Prim>, u: State)
    requires Leads(s, ms, t) && Leads(t, ns, u)
    ensures Leads(s, ms + ns, u)
    decreases |ms|
  {
    hide CanDo, Do;
    if ms == [] {
      assert ms + ns == ns;
    } else {
      LeadsOn(Do(s, ms[0]), ms[1..], t, ns, u);
      LeadsStep(s, ms[0], ms[1..] + ns, u);
      assert ms + ns == [ms[0]] + (ms[1..] + ns);
    }
  }

  lemma LeadsStep(s: State, m: Prim, ms: seq<Prim>, t: State)
    requires CanDo(s, m) && Leads(Do(s, m), ms, t)
    ensures Leads(s, [m] + ms, t)
  {
    assert ([m] + ms)[1..] == ms;
  }

  /** The messages parked by a sequence of moves. */
  function Messages(ms: seq<Prim>): seq<seq<byte>>
  {
    if ms == [] then [] else (if ms[0].Acked? then [ms[0].msg] else []) + Messages(ms[1..])
  }

  /** The messages of the acknowledgements among the host's moves. */
  function Acks(env: seq<HostMove>): seq<seq<byte>>
  {
    if env == [] then [] else (if env[0].Ack? then [env[0].msg] else []) + Acks(env[1..])
  }

  lemma {:induction false} MessagesJoin(ms: seq<Prim>, ns: seq<Prim>)
    ensures Messages(ms + ns) == Messages(ms) + Messages(ns)
  {
    if ms == [] {
      assert ms + ns == ns;
    } else {
      MessagesJoin(ms[1..], ns);
      assert (ms + ns)[0] == ms[0] && (ms + ns)[1..] == ms[1..] + ns;
      Regroup(if ms[0].Acked? then [ms[0].msg] else [], Messages(ms[1..]), Messages(ns));
    }
  }

  lemma MessagesOfOne(m: Prim)
    ensures Messages([m]) == if m.Acked? then [m.msg] else []
  {
    assert [m][1..] == [];
  }

  lemma PrefixKept<T>(a: seq<T>, b: seq<T>)
    ensures a <= a + b && a + [] == a
    ensures forall c :: c <= b ==> a + c <= a + b
  {}

  // ---- the moves of every operation ----

  lemma HostMoves(s: State, m: HostMove) returns (ms: seq<Prim>)
    requires s.Inv() && m.Fits()
    ensures Leads(s, ms, HostStep(s, m))
    ensures Messages(ms) == if m.Ack? && s.exposed != [] then [m.msg] else []
  {
    if m.Busy? || s.exposed == [] {
      ms := [];
    } else {
      ms := [Acked(m.msg)];
      LeadsOne(s, ms[0]);
      MessagesOfOne(ms[0]);
    }
  }

  lemma {:induction false} WaitMoves(s: State, env: seq<HostMove>) returns (ms: seq<Prim>)
    requires s.Inv() && AllFit(env)
    ensures Leads(s, ms, WaitSwitch(s, env).1)
    ensures Acks(env) == Messages(ms) + Acks(WaitSwitch(s, env).2)
    decreases |env|
  {
    hide State.Inv, State.Pending, State.Stream, HostStep, Leads, Switched;
    if Switch(s).Some? {
      ms := [Swap];
      LeadsOne(s, Swap);
      MessagesOfOne(Swap);
    } else if env == [] {
      ms := [];
      LeadsNowhere(s);
    } else {
      var t := HostStep(s, env[0]);
      var first := HostMoves(s, env[0]);
      var rest := WaitMoves(t, env[1..]);
      LeadsOn(s, first, t, rest, WaitSwitch(s, env).1);
      ms := first + rest;
      MessagesJoin(first, rest);
      Regroup(Messages(first), Messages(rest), Acks(WaitSwitch(t, env[1..]).2));
    }
  }

  lemma LeadsNowhere(s: State)
    ensures Leads(s, [], s)
  {}

  lemma AddMoves(s: State, b: Block) returns (ms: seq<Prim>)
    requires s.Inv() && s.cur != []
    ensures AddPending(s, b).0 != SlotAssert ==> Leads(s, ms, AddPending(s, b).1)
    ensures Messages(ms) == []
  {
    hide State.Inv, PendInOpen, PendInNewChunk;
    ms := [];
    if AddPending(s, b).0 == Got {
      ms := [Pend(b)];
      LeadsOne(s, Pend(b));
      MessagesOfOne(Pend(b));
    }
  }

  lemma DirectMoves(s: State, b: Block) returns (ms: seq<Prim>)
    requires s.Inv() && s.Pending() == [] && |Bytes(s.cur)| + |b| <= BLOCK
    ensures Leads(s, ms, AddDirect(s, b)) && Messages(ms) == []
  {
    hide State.Inv, AddDirect;
    ms := [Direct(b)];
    LeadsOne(s, Direct(b));
    MessagesOfOne(Direct(b));
  }

  lemma WaitForBufMoves(s: State, b: Block, env: seq<HostMove>) returns (ms: seq<Prim>)
    requires s.Inv() && AllFit(env)
    ensures WaitForBuf(s, b, env).0 != SlotAssert ==> Leads(s, ms, WaitForBuf(s, b, env).1)
    ensures Messages(ms) <= Acks(env)
  {
    hide AddDirect, AddPending, Leads, Bytes, Concat, WaitSwitch;
    var (ok, t, _) := WaitSwitch(s, env);
    ms := WaitMoves(s, env);
    if ok {
      EmptyIffNoBytes(t.Pending());
      EmptyIffNoBytes(t.cur);
      var rest;
      if t.pend.ReadSize() > 0 || |Bytes(t.cur)| + |b| > BLOCK {
        rest := AddMoves(t, b);
      } else {
        rest := DirectMoves(t, b);
      }
      if WaitForBuf(s, b, env).0 != SlotAssert {
        LeadsOn(s, ms, t, rest, WaitForBuf(s, b, env).1);
      }
      MessagesJoin(ms, rest);
      ms := ms + rest;
    }
  }

  lemma TryMoves(s: State) returns (ms: seq<Prim>)
    requires s.Inv()
    ensures Leads(s, ms, TrySwitch(s)) && Messages(ms) == []
  {
    hide Leads, Switched;
    if s.pend.ReadSize() > 0 && Switch(s).Some? {
      ms := [Swap];
      LeadsOne(s, Swap);
      MessagesOfOne(Swap);
    } else {
      ms := [];
      LeadsNowhere(s);
    }
  }

  lemma GetMoves(s: State, b: Block, env: seq<HostMove>) returns (ms: seq<Prim>)
    requires s.Inv() && AllFit(env)
    ensures GetBuffer(s, b, env).0 != SlotAssert ==> Leads(s, ms, GetBuffer(s, b, env).1)
    ensures Messages(ms) <= Acks(env)
  {
    hide AddDirect, AddPending, Leads, Bytes, Concat, WaitForBuf, TrySwitch;
    var t := TrySwitch(s);
    ms := TryMoves(s);
    EmptyIffNoBytes(t.Pending());
    EmptyIffNoBytes(t.cur);
    var rest;
    if t.pend.ReadSize() > 0 || |Bytes(t.cur)| + |b| > BLOCK {
      if Produce(t.pend, |b|).0.Some? {
        rest := AddMoves(t, b);
      } else {
        rest := WaitForBufMoves(t, b, env);
      }
    } else {
      rest := DirectMoves(t, b);
    }
    if GetBuffer(s, b, env).0 != SlotAssert {
      LeadsOn(s, ms, t, rest, GetBuffer(s, b, env).1);
    }
    MessagesJoin(ms, rest);
    ms := ms + rest;
  }

  lemma {:induction false} FlushMoves(s: State, env: seq<HostMove>) returns (ms: seq<Prim>)
    requires s.Inv() && AllFit(env)
    ensures Leads(s, ms, FlushLoop(s, env).1) && Messages(ms) <= Acks(env)
    decreases Load(s)
  {
    hide Load, Leads, WaitSwitch;
    EmptyIffNoBytes(s.cur);
    if |Bytes(s.cur)| == 0 {
      ms := [];
      LeadsNowhere(s);
    } else {
      var (ok, t, rest) := WaitSwitch(s, env);
      ms := WaitMoves(s, env);
      if ok {
        var more := FlushMoves(t, rest);
        LeadsOn(s, ms, t, more, FlushLoop(t, rest).1);
        MessagesJoin(ms, more);
        PrefixKept(Messages(ms), Acks(rest));
        ms := ms + more;
      }
    }
  }

  lemma StepMoves(s: State, e: Event) returns (ms: seq<Prim>)
    requires s.Inv() && FitEvent(e)
    ensures Step(s, e).Some? ==> Leads(s, ms, Step(s, e).value.0)
    ensures Messages(ms) <= Acks(EnvOf(e))
    ensures e.Host? ==> Messages(ms) == if e.move.Ack? && s.exposed != [] then [e.move.msg] else []
  {
    hide State.Inv, GetBuffer, FlushLoop, WaitSwitch, Leads, HostStep;
    match e
    case Get(b, env) => ms := GetMoves(s, b, env);
    case DoFlush(minSz, env) =>
      if |Bytes(s.cur)| < minSz {
        ms := [];
        LeadsNowhere(s);
      } else {
        ms := FlushMoves(s, env);
      }
    case Force(env) => ms := WaitMoves(s, env);
    case Host(m) => ms := HostMoves(s, m);
  }

  /** What the host does during an event. */
  function EnvOf(e: Event): seq<HostMove>
  {
    match e
    case Get(_, env) => env
    case DoFlush(_, env) => env
    case Force(env) => env
    case Host(m) => [m]
  }

  /** A whole run is a sequence of moves. */
  lemma {:induction false} RunMoves(s: State, es: seq<Event>) returns (ms: seq<Prim>)
    requires s.Inv() && AllFitEvents(es) && Run(s, es).Some?
    ensures Leads(s, ms, Run(s, es).value.0)
    decreases |es|
  {
    hide Step, FitEvent, State.Stream, Leads;
    if es == [] {
      ms := [];
      LeadsNowhere(s);
    } else {
      StepKeeps(s, es[0]);
      var t := Step(s, es[0]).value.0;
      var first := StepMoves(s, es[0]);
      var rest := RunMoves(t, es[1..]);
      LeadsOn(s, first, t, rest, Run(s, es).value.0);
      ms := first + rest;
    }
  }
}
