/** What the application trace transport of app_trace.c does in streaming mode, told in
    terms of whole user blocks: every part of the transport holds a list of blocks. */
module TraceSpec {
  import opened Arithmetic
  import opened LittleEndian
  import opened Options
  import opened RingBuffer
  import opened Sequences

  const BLOCK: nat := 0x4000
  const HEADER: nat := 4

  /** A user block as it sits in memory: the four header bytes, then the user's data. */
  type Block = b: seq<byte> | HEADER <= |b| <= BLOCK witness [0, 0, 0, 0]

  ghost function Bytes(bs: seq<Block>): seq<byte>
  {
    if bs == [] then [] else bs[0] + Bytes(bs[1..])
  }

  lemma {:induction false} BytesOfSum(a: seq<Block>, b: seq<Block>)
    ensures Bytes(a + b) == Bytes(a) + Bytes(b)
  {
    if a == [] {
      assert a + b == b;
    } else {
      BytesOfSum(a[1..], b);
      assert (a + b)[0] == a[0] && (a + b)[1..] == a[1..] + b;
      Regroup(a[0], Bytes(a[1..]), Bytes(b));
    }
  }

  lemma BytesOfOne(b: Block)
    ensures Bytes([b]) == b
  {
    assert Bytes([b]) == b + Bytes([]);
  }

  lemma EmptyIffNoBytes(bs: seq<Block>)
    ensures bs == [] <==> |Bytes(bs)| == 0
  {
  }

  /** Number of elements queued in a ring. */
  function QueueLen(l: Layout): int { if l.rd <= l.wr then l.wr - l.rd else l.cur - l.rd + l.wr }

  /** `read`: what the host has read. `exposed`: in the block shown to the host, not yet
      acknowledged. `cur`: in the block being filled. `chunks`, `open`: pending, in
      closed chunks and in the chunk still being accumulated. `pend`, `slots`: indices
      of the ring of pending bytes and of the ring of chunk sizes. `sent`:
      all messages the host has parked. `msg`: the last one, until the target takes it.
      `down`: bytes queued in the down buffer. */
  datatype State = State(
    read: seq<Block>, exposed: seq<Block>, cur: seq<Block>,
    chunks: seq<seq<Block>>, open: seq<Block>,
    pend: Layout, slots: Layout,
    sent: seq<seq<byte>>, msg: seq<byte>, down: seq<byte>, downSize: nat)
  {
    ghost function Pending(): seq<Block> { Concat(chunks) + open }

    /** Everything ever allocated, in the order in which the host will see it. */
    ghost function Stream(): seq<Block> { read + exposed + cur + Pending() }

    ghost predicate Inv() {
      && pend.Valid() && pend.size + BLOCK < U32
      && slots.Valid() && slots.cur == slots.size && slots.size + 1 < U32
      && |Bytes(exposed)| <= BLOCK && |Bytes(cur)| <= BLOCK && |Bytes(open)| <= BLOCK
      && (forall i | 0 <= i < |chunks| :: chunks[i] != [] && |Bytes(chunks[i])| <= BLOCK)
      && (chunks != [] ==> open != [])
      && (open != [] ==> cur != [])
      && QueueLen(pend) == |Bytes(Pending())|
      && QueueLen(slots) == |chunks|
      && |msg| + 2 <= BLOCK
    }
  }

  /** The state after `esp_apptrace_trax_dest_init` and a down buffer of `downSize` bytes. */
  ghost function Init(pendSize: nat, slotCount: nat, downSize: nat): (s: State)
    requires pendSize + BLOCK < U32 && slotCount + 1 < U32
    ensures s.Inv() && s.Stream() == []
  {
    State([], [], [], [], [], InitLayout(pendSize), InitLayout(slotCount), [], [], [], downSize)
  }

  /** The copy loop of the switch: consume up to `n` bytes, one contiguous piece at a time. */
  ghost function Drain(l: Layout, n: nat): Layout
    requires l.Valid() && l.size + n < U32
    decreases n
  {
    var piece := Min(l.ReadSize(), n);
    if piece == 0 then l else Drain(Consume(l, piece).1, n - piece)
  }

  lemma ConsumeShrinks(l: Layout, n: nat)
    requires l.Valid() && l.size + n < U32
    ensures n <= l.ReadSize() ==>
              && Consume(l, n).1.Valid() && Consume(l, n).1.size == l.size
              && QueueLen(Consume(l, n).1) == QueueLen(l) - n
    ensures l.ReadSize() == 0 <==> QueueLen(l) == 0
    ensures l.cur == l.size ==> Consume(l, n).1.cur == l.size
  {}

  lemma {:induction false} DrainTakesAll(l: Layout, n: nat)
    requires l.Valid() && l.size + n < U32 && n <= QueueLen(l)
    ensures Drain(l, n).Valid() && Drain(l, n).size == l.size
    ensures QueueLen(Drain(l, n)) == QueueLen(l) - n
    decreases n
  {
    hide Consume, QueueLen;
    var piece := Min(l.ReadSize(), n);
    ConsumeShrinks(l, piece);
    if piece == 0 {
    } else {
      DrainTakesAll(Consume(l, piece).1, n - piece);
    }
  }

  /** The chunk the next switch moves: the oldest closed one, else the open one. */
  ghost function NextChunk(s: State): seq<Block>
  {
    if s.chunks != [] then s.chunks[0] else s.open
  }

  ghost function DropChunk(s: State): State
    requires s.slots.Valid()
  {
    if s.chunks != [] then s.(chunks := s.chunks[1..], slots := Consume(s.slots, 1).1)
    else s.(open := [])
  }

  lemma NextChunkLeads(s: State)
    requires s.Inv()
    ensures s.Pending() == NextChunk(s) + DropChunk(s).Pending()
    ensures Bytes(s.Pending()) == Bytes(NextChunk(s)) + Bytes(DropChunk(s).Pending())
    ensures |Bytes(NextChunk(s))| <= BLOCK
  {
    hide Bytes, Consume;
    if s.chunks == [] {
      assert DropChunk(s).Pending() == [] && s.open + [] == s.open == s.Pending();
    } else {
      Regroup(s.chunks[0], Concat(s.chunks[1..]), s.open);
    }
    BytesOfSum(NextChunk(s), DropChunk(s).Pending());
  }

  ghost function Switched(s: State): State
    requires s.Inv()
  {
    NextChunkLeads(s);
    DropChunk(s).(
      exposed := s.cur, cur := NextChunk(s),
      pend := Drain(s.pend, |Bytes(NextChunk(s))|),
      msg := [], down := s.down + s.msg[..DownRoom(s.downSize, |s.down|, |s.msg|)])
  }

  lemma SwitchedStream(s: State)
    requires s.Inv() && s.exposed == []
    ensures Switched(s).Pending() == DropChunk(s).Pending()
    ensures Switched(s).cur + Switched(s).Pending() == s.Pending()
    ensures Switched(s).Stream() == s.Stream()
  {
    hide Bytes, Drain, Concat, Consume, DownRoom, NextChunk;
    NextChunkLeads(s);
    var t := Switched(s);
    Regroup(s.read + s.cur, t.cur, t.Pending());
    assert s.read + [] + s.cur == s.read + s.cur;
  }

  lemma SwitchedInv(s: State)
    requires s.Inv() && s.exposed == []
    ensures Switched(s).Inv()
  {
    hide Bytes, Drain, DownRoom;
    NextChunkLeads(s);
    SwitchedStream(s);
    DrainTakesAll(s.pend, |Bytes(NextChunk(s))|);
    ConsumeShrinks(s.slots, 1);
    EmptyIffNoBytes([]);
    if s.chunks != [] {
      var t := Switched(s);
      assert forall i | 0 <= i < |t.chunks| :: t.chunks[i] == s.chunks[i + 1];
    }
  }

  /** `esp_apptrace_trax_block_switch`: refused while the host has not acknowledged the
      exposed block; otherwise exposes the current block and moves exactly one chunk of
      pending data into the other one, wherever that chunk wraps in the ring. */
  ghost function Switch(s: State): (r: Option<State>)
    requires s.Inv()
    ensures r.Some? <==> s.exposed == []
    ensures r.Some? ==> r.value.Inv() && r.value.Stream() == s.Stream()
    ensures r.Some? ==> r.value.exposed == s.cur && r.value.cur + r.value.Pending() == s.Pending()
    ensures r.Some? && s.Pending() != [] ==> r.value.cur != []
    ensures r.Some? ==> Load(r.value) < Load(s) || s.cur == []
  {
    if s.exposed != [] then None
    else
      SwitchedStream(s);
      SwitchedInv(s);
      Some(Switched(s))
  }

  /** How many switches a flush still needs. */
  ghost function Load(s: State): nat
  {
    |s.chunks| + (if s.open != [] then 1 else 0) + (if s.cur != [] then 1 else 0)
  }

  /** The host reads the exposed block, parks `msg` for the target and clears the length. */
  ghost function HostAck(s: State, msg: seq<byte>): (t: State)
    requires s.Inv() && |msg| + 2 <= BLOCK
    ensures t.Inv() && t.Stream() == s.Stream() && t.exposed == []
    ensures Load(t) == Load(s)
  {
    if s.exposed == [] then s
    else
      var t := s.(read := s.read + s.exposed, exposed := [], sent := s.sent + [msg], msg := msg);
      assert t.Stream() == s.Stream();
      t
  }

  /** What the host does while the target polls: nothing, or an acknowledgement. */
  datatype HostMove = Busy | Ack(msg: seq<byte>) {
    predicate Fits() { Ack? ==> |msg| + 2 <= BLOCK }
  }

  ghost predicate AllFit(env: seq<HostMove>) { forall i | 0 <= i < |env| :: env[i].Fits() }

  ghost function HostStep(s: State, m: HostMove): (t: State)
    requires s.Inv() && m.Fits()
    ensures t.Inv() && t.Stream() == s.Stream() && Load(t) == Load(s)
    ensures t.cur == s.cur && t.Pending() == s.Pending()
  {
    match m
    case Busy => s
    case Ack(msg) => HostAck(s, msg)
  }

  /** `esp_apptrace_trax_block_switch_waitus`: poll; the timeout expires when `env`, the
      host's moves during the wait, is used up. Returns the moves not used. */
  ghost function WaitSwitch(s: State, env: seq<HostMove>): (r: (bool, State, seq<HostMove>))
    requires s.Inv() && AllFit(env)
    ensures r.1.Inv() && r.1.Stream() == s.Stream() && AllFit(r.2)
    ensures r.0 ==> r.1.cur + r.1.Pending() == s.Pending()
    ensures r.0 && s.Pending() != [] ==> r.1.cur != []
    ensures r.0 && s.cur != [] ==> Load(r.1) < Load(s)
    ensures !r.0 ==> r.2 == [] && r.1.exposed != [] && r.1.cur == s.cur
    decreases |env|
  {
    var w := Switch(s);
    if w.Some? then (true, w.value, env)
    else if env == [] then (false, s, [])
    else WaitSwitch(HostStep(s, env[0]), env[1..])
  }

  /** The wait fails only if the host never acknowledges. */
  lemma {:induction false} WaitFailsIffHostNeverAcks(s: State, env: seq<HostMove>)
    requires s.Inv() && AllFit(env)
    ensures WaitSwitch(s, env).0 <==> s.exposed == [] || exists i :: 0 <= i < |env| && env[i].Ack?
    decreases |env|
  {
    hide State.Inv, State.Stream, State.Pending, Load, HostAck, Switched;
    if s.exposed == [] || env == [] {
    } else {
      var t := HostStep(s, env[0]);
      WaitFailsIffHostNeverAcks(t, env[1..]);
      if env[0].Ack? {
      } else if i :| 0 <= i < |env| && env[i].Ack? {
        assert env[1..][i - 1].Ack?;
      } else {
        assert forall i | 0 <= i < |env[1..]| :: !env[1..][i].Ack? by {
          assert forall i | 0 <= i < |env[1..]| :: env[1..][i] == env[i + 1];
        }
      }
    }
  }

  /** Result of a request for a buffer. `SlotAssert` is the assertion on a chunk-size slot. */
  datatype Outcome = Got | NoMem | SlotAssert

  ghost function AddDirect(s: State, b: Block): (t: State)
    requires s.Inv() && s.Pending() == [] && |Bytes(s.cur)| + |b| <= BLOCK
    ensures t.Inv() && t.Stream() == s.Stream() + [b]
  {
    BytesOfSum(s.cur, [b]);
    BytesOfOne(b);
    var t := s.(cur := s.cur + [b]);
    assert t.Stream() == s.Stream() + [b];
    t
  }

  /** Accounting of an allocated pending block: `esp_apptrace_trax_pend_chunk_sz_update`. */
  ghost predicate OpensNewChunk(s: State, b: Block) { |Bytes(s.open)| + |b| > BLOCK }

  ghost predicate SlotsFull(s: State) { |s.chunks| + 1 >= s.slots.size }

  lemma ProduceGrows(l: Layout, n: nat)
    requires l.Valid() && l.size + n < U32 && Produce(l, n).0.Some?
    ensures Produce(l, n).1.Valid() && Produce(l, n).1.size == l.size
    ensures QueueLen(Produce(l, n).1) == QueueLen(l) + n
  {
  }

  ghost function PendInOpen(s: State, b: Block): (t: State)
    requires s.Inv() && s.cur != [] && !OpensNewChunk(s, b) && Produce(s.pend, |b|).0.Some?
    ensures t.Inv() && t.Stream() == s.Stream() + [b] && t.cur == s.cur
  {
    BytesOfOne(b);
    BytesOfSum(s.open, [b]);
    BytesOfSum(s.Pending(), [b]);
    ProduceGrows(s.pend, |b|);
    var t := s.(pend := Produce(s.pend, |b|).1, open := s.open + [b]);
    assert t.Pending() == s.Pending() + [b];
    assert t.Stream() == s.Stream() + [b];
    t
  }

  ghost function PendInNewChunk(s: State, b: Block): (t: State)
    requires s.Inv() && s.cur != [] && OpensNewChunk(s, b) && Produce(s.pend, |b|).0.Some?
    requires Produce(s.slots, 1).0.Some?
    ensures t.Inv() && t.Stream() == s.Stream() + [b] && t.cur == s.cur
  {
    NewChunkInv(s, b);
    s.(pend := Produce(s.pend, |b|).1, slots := Produce(s.slots, 1).1, chunks := s.chunks + [s.open], open := [b])
  }

  lemma NewChunkInv(s: State, b: Block)
    requires s.Inv() && s.cur != [] && OpensNewChunk(s, b) && Produce(s.pend, |b|).0.Some?
    requires Produce(s.slots, 1).0.Some?
    ensures var t := s.(pend := Produce(s.pend, |b|).1, slots := Produce(s.slots, 1).1,
                        chunks := s.chunks + [s.open], open := [b]);
            t.Inv() && t.Stream() == s.Stream() + [b]
  {
    hide Bytes, Concat, QueueLen;
    var t := s.(pend := Produce(s.pend, |b|).1, slots := Produce(s.slots, 1).1,
                chunks := s.chunks + [s.open], open := [b]);
    BytesOfOne(b);
    BytesOfSum(s.Pending(), [b]);
    EmptyIffNoBytes(s.open);
    ConcatSnoc(s.chunks, s.open);
    ProduceGrows(s.pend, |b|);
    ProduceGrows(s.slots, 1);
    assert t.Pending() == s.Pending() + [b];
    assert t.Stream() == s.Stream() + [b];
  }

  /** A block goes to the pending ring, if the ring can hold it contiguously. The slot
      assertion fails exactly when the block needs a new chunk and all slots are taken. */
  ghost function AddPending(s: State, b: Block): (r: (Outcome, State))
    requires s.Inv() && s.cur != []
    ensures r.0 == Got ==> r.1.Inv() && r.1.Stream() == s.Stream() + [b] && r.1.cur == s.cur
    ensures r.0 == NoMem <==> Produce(s.pend, |b|).0.None?
    ensures r.0 == NoMem ==> r.1 == s
    ensures r.0 == SlotAssert <==> Produce(s.pend, |b|).0.Some? && OpensNewChunk(s, b) && SlotsFull(s)
  {
    if Produce(s.pend, |b|).0.None? then (NoMem, s)
    else if !OpensNewChunk(s, b) then (Got, PendInOpen(s, b))
    else if Produce(s.slots, 1).0.None? then (SlotAssert, s)
    else (Got, PendInNewChunk(s, b))
  }

  /** `esp_apptrace_trax_wait4buf` together with the bookkeeping its callers do. */
  ghost function WaitForBuf(s: State, b: Block, env: seq<HostMove>): (r: (Outcome, State))
    requires s.Inv() && AllFit(env)
    ensures r.0 != SlotAssert ==> r.1.Inv()
    ensures r.0 == Got ==> r.1.Stream() == s.Stream() + [b]
    ensures r.0 == NoMem ==> r.1.Stream() == s.Stream()
    ensures !WaitSwitch(s, env).0 ==> r.0 == NoMem
  {
    var (ok, t, _) := WaitSwitch(s, env);
    if !ok then (NoMem, t)
    else if t.pend.ReadSize() > 0 then AddPending(t, b)
    else
      EmptyIffNoBytes(t.Pending());
      if |Bytes(t.cur)| + |b| > BLOCK then AddPending(t, b)
      else (Got, AddDirect(t, b))
  }

  /** Take a pending buffer, or wait for the host when the ring has no room. */
  ghost function PendingOrWait(s: State, b: Block, env: seq<HostMove>): (r: (Outcome, State))
    requires s.Inv() && s.cur != [] && AllFit(env)
    ensures r.0 != SlotAssert ==> r.1.Inv()
    ensures r.0 == Got ==> r.1.Stream() == s.Stream() + [b]
    ensures r.0 == NoMem ==> r.1.Stream() == s.Stream()
  {
    if Produce(s.pend, |b|).0.Some? then AddPending(s, b) else WaitForBuf(s, b, env)
  }

  /** With data pending, a request first tries to switch, without waiting. */
  ghost function TrySwitch(s: State): (t: State)
    requires s.Inv()
    ensures t.Inv() && t.Stream() == s.Stream()
    ensures t.Pending() != [] ==> t.cur != []
  {
    if s.pend.ReadSize() > 0 && Switch(s).Some? then Switch(s).value else s
  }

  /** `esp_apptrace_trax_get_buffer` for a raw block `b`, filled and put in one step. */
  ghost function GetBuffer(s: State, b: Block, env: seq<HostMove>): (r: (Outcome, State))
    requires s.Inv() && AllFit(env)
    ensures r.0 != SlotAssert ==> r.1.Inv()
    ensures r.0 == Got ==> r.1.Stream() == s.Stream() + [b]
    ensures r.0 == NoMem ==> r.1.Stream() == s.Stream()
  {
    var t := TrySwitch(s);
    EmptyIffNoBytes(t.Pending());
    EmptyIffNoBytes(t.cur);
    if t.pend.ReadSize() > 0 || |Bytes(t.cur)| + |b| > BLOCK then PendingOrWait(t, b, env)
    else (Got, AddDirect(t, b))
  }

  /** `esp_apptrace_trax_flush`: switch until the current block is empty. */
  ghost function FlushLoop(s: State, env: seq<HostMove>): (r: (bool, State))
    requires s.Inv() && AllFit(env)
    ensures r.1.Inv() && r.1.Stream() == s.Stream()
    ensures r.0 ==> r.1.cur == [] && r.1.Pending() == []
    decreases Load(s)
  {
    EmptyIffNoBytes(s.cur);
    EmptyIffNoBytes(s.Pending());
    if |Bytes(s.cur)| == 0 then (true, s)
    else
      var (ok, t, rest) := WaitSwitch(s, env);
      if !ok then (false, t) else FlushLoop(t, rest)
  }

  ghost function Flush(s: State, minSz: nat, env: seq<HostMove>): (r: (bool, State))
    requires s.Inv() && AllFit(env)
    ensures r.1.Inv() && r.1.Stream() == s.Stream()
    ensures r.0 && minSz == 0 ==> r.1.cur == [] && r.1.Pending() == []
  {
    if |Bytes(s.cur)| < minSz then (true, s) else FlushLoop(s, env)
  }

  /** One thing that can happen: a request for a buffer, a flush, a forced switch (as a
      reader of host data does), or a move of the host. */
  datatype Event =
    | Get(block: Block, env: seq<HostMove>)
    | DoFlush(minSz: nat, env: seq<HostMove>)
    | Force(env: seq<HostMove>)
    | Host(move: HostMove)

  ghost predicate FitEvent(e: Event)
  {
    match e
    case Get(_, env) => AllFit(env)
    case DoFlush(_, env) => AllFit(env)
    case Force(env) => AllFit(env)
    case Host(m) => m.Fits()
  }

  ghost predicate AllFitEvents(es: seq<Event>) { forall i | 0 <= i < |es| :: FitEvent(es[i]) }

  /** The state after an event and whether it allocated a block; `None` is the failed
      chunk-slot assertion, which stops the system. */
  ghost function Step(s: State, e: Event): (r: Option<(State, bool)>)
    requires s.Inv() && FitEvent(e)
    ensures r.Some? && r.value.1 ==> e.Get?
  {
    match e
    case Get(b, env) =>
      var (o, t) := GetBuffer(s, b, env);
      if o == SlotAssert then None else Some((t, o == Got))
    case DoFlush(m, env) => Some((Flush(s, m, env).1, false))
    case Force(env) => Some((WaitSwitch(s, env).1, false))
    case Host(m) => Some((HostStep(s, m), false))
  }

  function Granted(e: Event, got: bool): seq<Block>
    requires got ==> e.Get?
  {
    if got then [e.block] else []
  }

  lemma StepKeeps(s: State, e: Event)
    requires s.Inv() && FitEvent(e)
    ensures Step(s, e).Some? ==>
              && Step(s, e).value.0.Inv()
              && Step(s, e).value.0.Stream() == s.Stream() + Granted(e, Step(s, e).value.1)
  {
    assert s.Stream() + [] == s.Stream();
  }

  /** A run: the final state and the blocks whose allocation was granted, in order.
      Over every run that does not stop at the slot assertion: what the host has read,
      the exposed block, the current block and the pending data are, in this order,
      exactly the blocks that were granted, and pending chunks stay whole and bounded. */
  ghost function Run(s: State, es: seq<Event>): (q: Option<(State, seq<Block>)>)
    requires s.Inv() && AllFitEvents(es)
    ensures q.Some? ==> q.value.0.Inv() && q.value.0.Stream() == s.Stream() + q.value.1
    decreases |es|
  {
    if es == [] then
      assert s.Stream() + [] == s.Stream();
      Some((s, []))
    else
      StepKeeps(s, es[0]);
      var r := Step(s, es[0]);
      if r.None? then None
      else Prepend(s, Granted(es[0], r.value.1), r.value.0, Run(r.value.0, es[1..]))
  }

  ghost function Prepend(s: State, g: seq<Block>, t: State, q: Option<(State, seq<Block>)>): (r: Option<(State, seq<Block>)>)
    requires t.Stream() == s.Stream() + g
    requires q.Some? ==> q.value.0.Inv() && q.value.0.Stream() == t.Stream() + q.value.1
    ensures r.Some? ==> r.value.0.Inv() && r.value.0.Stream() == s.Stream() + r.value.1
  {
    if q.None? then None
    else
      assert (s.Stream() + g) + q.value.1 == s.Stream() + (g + q.value.1);
      Some((q.value.0, g + q.value.1))
  }

  lemma RunFromInit(pendSize: nat, slotCount: nat, downSize: nat, es: seq<Event>)
    requires pendSize + BLOCK < U32 && slotCount + 1 < U32
    requires AllFitEvents(es)
    ensures var r := Run(Init(pendSize, slotCount, downSize), es);
            r.Some? ==> r.value.0.read + r.value.0.exposed + r.value.0.cur + r.value.0.Pending() == r.value.1
  {
    assert Init(pendSize, slotCount, downSize).Stream() == [];
  }

  /** Flushing finishes within `Load(s)` switches once the host acknowledges each time. */
  lemma {:induction false} FlushSucceedsWithAcks(s: State, env: seq<HostMove>)
    requires s.Inv() && AllFit(env) && |env| >= Load(s)
    requires forall i | 0 <= i < |env| :: env[i].Ack?
    ensures FlushLoop(s, env).0
    decreases Load(s)
  {
    EmptyIffNoBytes(s.cur);
    if |Bytes(s.cur)| == 0 {
    } else {
      WaitFailsIffHostNeverAcks(s, env);
      assert env[0].Ack?;
      var (ok, t, rest) := WaitSwitch(s, env);
      assert rest == env || rest == env[1..] by {
        if s.exposed != [] { assert HostStep(s, env[0]).exposed == []; }
      }
      FlushSucceedsWithAcks(t, rest);
    }
  }

  /** A request is never refused while nothing is pending and the host has caught up. */
  lemma GrantedWhenCaughtUp(s: State, b: Block, env: seq<HostMove>)
    requires s.Inv() && AllFit(env) && s.exposed == [] && s.Pending() == []
    ensures GetBuffer(s, b, env).0 == Got
  {
    EmptyIffNoBytes(s.Pending());
    EmptyIffNoBytes(s.cur);
    if |Bytes(s.cur)| + |b| > BLOCK && Produce(s.pend, |b|).0.None? {
      var t := WaitSwitch(s, env).1;
      assert t.cur == [] && t.Pending() == [];
      EmptyIffNoBytes(t.Pending());
    }
  }
}
