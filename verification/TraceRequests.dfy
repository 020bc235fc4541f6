/** When a request for trace memory is granted, refused or waits, and when a flush succeeds. */
module TraceRequests {
  import opened Arithmetic
  import opened LittleEndian
  import opened Options
  import opened RingBuffer
  import opened Sequences
  import opened TraceDownlink
  import opened TraceMoves
  import opened TraceSpec

  /** There is room for `b`: in the current trace block, if nothing is pending, or in the ring. */
  ghost predicate Room(s: State, b: Block)
  {
    (s.Pending() == [] && |Bytes(s.cur)| + |b| <= BLOCK) || exists p :: Place(s.pend, |b|, p)
  }

  lemma PendingIffReadable(s: State)
    requires s.Inv()
    ensures s.pend.ReadSize() > 0 <==> s.Pending() != []
  {
    EmptyIffNoBytes(s.Pending());
  }

  lemma NoMemIffNoPlace(s: State, b: Block)
    requires s.Inv() && s.cur != []
    ensures AddPending(s, b).0 == NoMem <==> !exists p :: Place(s.pend, |b|, p)
  {
    hide Place, PendInOpen, PendInNewChunk;
    ProduceFindsPlace(s.pend, |b|);
  }

  /** The state a request starts from: pending data is switched to the host at once if it has
      caught up. */
  ghost function Started(s: State): State
    requires s.Inv()
  {
    if s.Pending() != [] && s.exposed == [] then Switch(s).value else s
  }

  /** A request is refused if and only if there is no room, and either the host never acknowledges
      during the wait or there is no room after the switch that follows; with room it does not wait. */
  lemma RefusedIff(s: State, b: Block, env: seq<HostMove>)
    requires s.Inv() && AllFit(env)
    ensures var t := Started(s);
            var (switched, u, _) := WaitSwitch(t, env);
            && (GetBuffer(s, b, env).0 == NoMem <==> !Room(t, b) && !(switched && Room(u, b)))
            && (GetBuffer(s, b, env).0 == Got && Room(t, b) ==>
                  GetBuffer(s, b, env).1.read == t.read && GetBuffer(s, b, env).1.exposed == t.exposed)
  {
    hide Bytes, Concat, Place, AddDirect, AddPending, WaitSwitch, Switched;
    PendingIffReadable(s);
    var t := Started(s);
    assert t == TrySwitch(s);
    PendingIffReadable(t);
    EmptyIffNoBytes(t.cur);
    var (switched, u, _) := WaitSwitch(t, env);
    PendingIffReadable(u);
    EmptyIffNoBytes(u.cur);
    if t.Pending() != [] || |Bytes(t.cur)| + |b| > BLOCK {
      NoMemIffNoPlace(t, b);
      AddStays(t, b);
      if switched && (u.Pending() != [] || |Bytes(u.cur)| + |b| > BLOCK) {
        NoMemIffNoPlace(u, b);
      }
    } else {
      DirectStays(t, b);
    }
  }

  lemma AddStays(s: State, b: Block)
    requires s.Inv() && s.cur != []
    ensures AddPending(s, b).0 == Got ==> AddPending(s, b).1.read == s.read && AddPending(s, b).1.exposed == s.exposed
    ensures AddPending(s, b).0 == NoMem <==> Produce(s.pend, |b|).0.None?
  {}

  lemma DirectStays(s: State, b: Block)
    requires s.Inv() && s.Pending() == [] && |Bytes(s.cur)| + |b| <= BLOCK
    ensures AddDirect(s, b).read == s.read && AddDirect(s, b).exposed == s.exposed
  {}

  /** With data pending and the host caught up, a request shows the host the current block at once. */
  lemma RequestShows(s: State, b: Block, env: seq<HostMove>)
    requires s.Inv() && Delivered(s) && AllFit(env) && s.Pending() != [] && s.exposed == []
    ensures GetBuffer(s, b, env).0 != SlotAssert ==>
              s.read + s.cur <= GetBuffer(s, b, env).1.read + GetBuffer(s, b, env).1.exposed
  {
    hide GetBuffer, Delivered, State.Inv;
    var t := Switch(s).value;
    assert CanDo(s, Swap) && Do(s, Swap) == t;
    MoveKeepsDelivered(s, Swap);
    RequestAfterSwitch(s, b, env);
    var ms := GetMoves(t, b, env);
    if GetBuffer(s, b, env).0 != SlotAssert {
      MovesKeepDelivered(t, ms, GetBuffer(t, b, env).1);
    }
  }

  /** What a request does after its own switch is what it would do from there. */
  lemma RequestAfterSwitch(s: State, b: Block, env: seq<HostMove>)
    requires s.Inv() && AllFit(env) && s.Pending() != [] && s.exposed == []
    ensures GetBuffer(s, b, env) == GetBuffer(Switch(s).value, b, env)
  {
    hide Bytes, AddDirect, AddPending, WaitSwitch;
    PendingIffReadable(s);
  }

  // ---- flushing ----

  /** Acknowledgements a flush needs: one for every switch, the first one only if the exposed block
      is not acknowledged yet. */
  ghost function AcksNeeded(s: State): int
  {
    if s.cur == [] then 0 else Load(s) - if s.exposed == [] then 1 else 0
  }

  lemma {:induction false} WaitUsesOneAck(s: State, env: seq<HostMove>)
    requires s.Inv() && AllFit(env)
    ensures var (ok, t, rest) := WaitSwitch(s, env);
            var used := if s.exposed == [] then 0 else 1;
            && (ok <==> |Acks(env)| >= used)
            && (ok ==> |Acks(rest)| == |Acks(env)| - used && t.exposed == s.cur)
            && (ok && s.cur != [] ==> Load(t) == Load(s) - 1)
    decreases |env|
  {
    hide State.Stream, State.Pending, Bytes;
    if s.exposed == [] || env == [] {
    } else {
      WaitUsesOneAck(HostStep(s, env[0]), env[1..]);
    }
  }

  lemma NothingLoaded(s: State)
    requires s.Inv()
    ensures s.cur == [] <==> Load(s) == 0
  {}

  /** A flush succeeds if and only if the host acknowledges often enough. */
  lemma {:induction false} FlushSucceedsIff(s: State, env: seq<HostMove>)
    requires s.Inv() && AllFit(env)
    ensures FlushLoop(s, env).0 <==> |Acks(env)| >= AcksNeeded(s)
    decreases Load(s)
  {
    hide State.Inv, State.Stream, State.Pending, WaitSwitch, Acks;
    EmptyIffNoBytes(s.cur);
    if s.cur == [] {
    } else {
      var (ok, t, rest) := WaitSwitch(s, env);
      WaitUsesOneAck(s, env);
      if ok {
        NothingLoaded(t);
        FlushSucceedsIff(t, rest);
      }
    }
  }

  /** A flush below its minimum does nothing; another one succeeds exactly with those
      acknowledgements and then leaves nothing to be flushed. */
  lemma FlushIs(s: State, minSz: nat, env: seq<HostMove>)
    requires s.Inv() && AllFit(env)
    ensures var (ok, t) := Flush(s, minSz, env);
            if |Bytes(s.cur)| < minSz then ok && t == s
            else (ok <==> |Acks(env)| >= AcksNeeded(s)) && (ok ==> t.cur == [] && t.Pending() == [])
  {
    hide FlushLoop, AcksNeeded;
    FlushSucceedsIff(s, env);
  }
}
