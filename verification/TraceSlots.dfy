/** The slots for chunk sizes (app_trace.c): how many are needed so that their assertion never
    fails, and a run that fails it when there are fewer. */
module TraceSlots {
  import opened Arithmetic
  import opened LittleEndian
  import opened Options
  import opened RingBuffer
  import opened Sequences
  import opened TraceSpec

  // ---- chunks that follow one another do not fit one block together ----

  /** A chunk is closed only when the next block does not fit it. */
  ghost predicate Paired(cs: seq<seq<Block>>)
  {
    && (forall i | 0 <= i < |cs| :: cs[i] != [])
    && (forall i | 0 < i < |cs| :: |Bytes(cs[i - 1])| + |Bytes(cs[i])| > BLOCK)
  }

  /** The fewest bytes in `n` such chunks. */
  function Demand(n: nat): nat { n / 2 * (BLOCK + 1) + n % 2 * HEADER }

  lemma DemandStep(n: nat)
    ensures n >= 2 ==> Demand(n) == BLOCK + 1 + Demand(n - 2)
    ensures Demand(0) == 0 && Demand(1) == HEADER
  {
    assert n / 2 * 0x4001 + n % 2 * 4 == Demand(n);
  }

  lemma {:induction false} DemandGrows(n: nat, m: nat)
    requires n <= m
    ensures Demand(n) <= Demand(m)
    decreases m
  {
    hide Demand;
    DemandStep(m);
    DemandStep(n);
    if n >= 2 {
      DemandGrows(n - 2, m - 2);
    } else if m >= 2 {
      DemandGrows(0, m - 2);
    }
  }

  lemma ChunkHasHeader(c: seq<Block>)
    requires c != []
    ensures |Bytes(c)| >= HEADER
  {}

  lemma {:induction false} PairedDemand(cs: seq<seq<Block>>)
    requires Paired(cs)
    ensures |Bytes(Concat(cs))| >= Demand(|cs|)
    decreases |cs|
  {
    hide Bytes, Demand;
    DemandStep(|cs|);
    if cs == [] {
    } else if |cs| == 1 {
      ChunkHasHeader(cs[0]);
      BytesOfSum(cs[0], Concat(cs[1..]));
    } else {
      var rest := cs[2..];
      PairedDemand(rest);
      assert cs[1..][1..] == rest;
      BytesOfSum(cs[0], Concat(cs[1..]));
      BytesOfSum(cs[1], Concat(rest));
      assert |Bytes(cs[0])| + |Bytes(cs[1])| > BLOCK;
    }
  }

  // ---- what every event keeps ----

  /** The pending chunks, the one being accumulated included. */
  ghost function Parts(s: State): seq<seq<Block>> { if s.open == [] then [] else s.chunks + [s.open] }

  /** The closed chunks cannot have been merged, and the rings have their original sizes. */
  ghost predicate Packed(s: State, pendSize: nat, slotCount: nat)
  {
    s.Inv() && Paired(Parts(s)) && s.pend.size == pendSize && s.slots.size == slotCount
  }

  /** The slots hold all chunks that fit the pending ring. */
  predicate Roomy(pendSize: nat, slotCount: nat) { pendSize <= Demand(Max(slotCount, 1) + 1) }

  lemma SwitchedPacked(s: State, p: nat, n: nat)
    requires Packed(s, p, n) && s.exposed == []
    ensures Packed(Switched(s), p, n)
  {
    hide Bytes, Drain, Concat;
    SwitchedInv(s);
    NextChunkLeads(s);
    DrainTakesAll(s.pend, |Bytes(NextChunk(s))|);
    ConsumeShrinks(s.slots, 1);
    if s.chunks != [] {
      assert Parts(Switched(s)) == Parts(s)[1..];
    }
  }

  lemma {:induction false} WaitPacked(s: State, env: seq<HostMove>, p: nat, n: nat)
    requires Packed(s, p, n) && AllFit(env)
    ensures Packed(WaitSwitch(s, env).1, p, n)
    decreases |env|
  {
    hide Switched, State.Inv;
    if s.exposed == [] {
      SwitchedPacked(s, p, n);
    } else if env != [] {
      assert Parts(HostStep(s, env[0])) == Parts(s);
      WaitPacked(HostStep(s, env[0]), env[1..], p, n);
    }
  }

  /** The failed assertion would need more chunks than fit the pending ring. */
  lemma AddPacked(s: State, b: Block, p: nat, n: nat)
    requires Packed(s, p, n) && s.cur != []
    ensures var (o, t) := AddPending(s, b);
            && (o != SlotAssert ==> Packed(t, p, n))
            && (Roomy(p, n) ==> o != SlotAssert)
  {
    hide Bytes, Concat, Demand;
    BytesOfOne(b);
    EmptyIffNoBytes(s.open);
    if Produce(s.pend, |b|).0.Some? {
      ProduceFits(s.pend, |b|);
      if !OpensNewChunk(s, b) {
        OpenPacked(s, b, p, n);
      } else {
        var parts := Parts(s) + [[b]];
        assert s.open != [] && parts == s.chunks + [s.open] + [[b]];
        if Produce(s.slots, 1).0.Some? {
          ProduceGrows(s.slots, 1);
          assert Parts(PendInNewChunk(s, b)) == parts;
        }
        ConcatSnoc(s.chunks, s.open);
        ConcatSnoc(Parts(s), [b]);
        BytesOfSum(s.Pending(), [b]);
        PairedDemand(parts);
        if SlotsFull(s) {
          DemandGrows(Max(n, 1) + 1, |parts|);
        }
      }
    }
  }

  lemma OpenPacked(s: State, b: Block, p: nat, n: nat)
    requires Packed(s, p, n) && s.cur != [] && !OpensNewChunk(s, b) && Produce(s.pend, |b|).0.Some?
    ensures Packed(PendInOpen(s, b), p, n)
  {
    hide Bytes, Concat, Produce;
    BytesOfSum(s.open, [b]);
    ProduceGrows(s.pend, |b|);
    var parts := s.chunks + [s.open + [b]];
    assert Parts(PendInOpen(s, b)) == parts;
    if s.open != [] {
      forall i | 0 < i < |parts| ensures |Bytes(parts[i - 1])| + |Bytes(parts[i])| > BLOCK {
        assert |Bytes(Parts(s)[i - 1])| + |Bytes(Parts(s)[i])| > BLOCK;
      }
    }
  }

  lemma ProduceFits(l: Layout, n: nat)
    requires l.Valid() && l.size + n < U32 && Produce(l, n).0.Some?
    ensures Produce(l, n).1.Valid() && Produce(l, n).1.size == l.size
    ensures QueueLen(l) + n < l.size
  {}

  lemma DirectPacked(s: State, b: Block, p: nat, n: nat)
    requires Packed(s, p, n) && s.Pending() == [] && |Bytes(s.cur)| + |b| <= BLOCK
    ensures Packed(AddDirect(s, b), p, n)
  {}

  lemma WaitForBufPacked(s: State, b: Block, env: seq<HostMove>, p: nat, n: nat)
    requires Packed(s, p, n) && AllFit(env)
    ensures var (o, t) := WaitForBuf(s, b, env);
            && (o != SlotAssert ==> Packed(t, p, n))
            && (Roomy(p, n) ==> o != SlotAssert)
  {
    hide Paired, Parts, Roomy, AddDirect, AddPending, Bytes, Concat;
    var (ok, t, _) := WaitSwitch(s, env);
    WaitPacked(s, env, p, n);
    if ok {
      EmptyIffNoBytes(t.Pending());
      EmptyIffNoBytes(t.cur);
      if t.pend.ReadSize() > 0 || |Bytes(t.cur)| + |b| > BLOCK {
        AddPacked(t, b, p, n);
      } else {
        DirectPacked(t, b, p, n);
      }
    }
  }

  lemma GetPacked(s: State, b: Block, env: seq<HostMove>, p: nat, n: nat)
    requires Packed(s, p, n) && AllFit(env)
    ensures var (o, t) := GetBuffer(s, b, env);
            && (o != SlotAssert ==> Packed(t, p, n))
            && (Roomy(p, n) ==> o != SlotAssert)
  {
    hide Paired, Parts, Roomy, AddDirect, AddPending, WaitForBuf, Switched, Bytes, Concat;
    if s.exposed == [] {
      SwitchedPacked(s, p, n);
    }
    var t := TrySwitch(s);
    EmptyIffNoBytes(t.Pending());
    EmptyIffNoBytes(t.cur);
    if t.pend.ReadSize() > 0 || |Bytes(t.cur)| + |b| > BLOCK {
      AddPacked(t, b, p, n);
      WaitForBufPacked(t, b, env, p, n);
    } else {
      DirectPacked(t, b, p, n);
    }
  }

  lemma {:induction false} FlushPacked(s: State, env: seq<HostMove>, p: nat, n: nat)
    requires Packed(s, p, n) && AllFit(env)
    ensures Packed(FlushLoop(s, env).1, p, n)
    decreases Load(s)
  {
    hide Paired, Parts, Load;
    EmptyIffNoBytes(s.cur);
    if |Bytes(s.cur)| == 0 {
    } else {
      var (ok, t, rest) := WaitSwitch(s, env);
      WaitPacked(s, env, p, n);
      if ok {
        FlushPacked(t, rest, p, n);
      }
    }
  }

  lemma StepPacked(s: State, e: Event, p: nat, n: nat)
    requires Packed(s, p, n) && FitEvent(e)
    ensures Step(s, e).Some? ==> Packed(Step(s, e).value.0, p, n)
    ensures Roomy(p, n) ==> Step(s, e).Some?
  {
    hide Paired, Parts, Roomy, GetBuffer, FlushLoop, WaitSwitch;
    match e
    case Get(b, env) => GetPacked(s, b, env, p, n);
    case DoFlush(m, env) => FlushPacked(s, env, p, n);
    case Force(env) => WaitPacked(s, env, p, n);
    case Host(m) => HostPacked(s, m, p, n);
  }

  lemma HostPacked(s: State, m: HostMove, p: nat, n: nat)
    requires Packed(s, p, n) && m.Fits()
    ensures Packed(HostStep(s, m), p, n)
  {
    hide Paired;
    assert Parts(HostStep(s, m)) == Parts(s);
  }

  lemma {:induction false} RunPacked(s: State, es: seq<Event>, p: nat, n: nat)
    requires Packed(s, p, n) && Roomy(p, n) && AllFitEvents(es)
    ensures Run(s, es).Some?
    decreases |es|
  {
    hide Paired, Parts, Roomy, Step, FitEvent, State.Stream;
    if es == [] {
    } else {
      StepPacked(s, es[0], p, n);
      RunPacked(Step(s, es[0]).value.0, es[1..], p, n);
    }
  }

  // ---- a run that fails the assertion ----

  /** A block of `n` bytes. */
  function Filler(n: nat): (b: Block)
    requires HEADER <= n <= BLOCK
    ensures |b| == n
  {
    seq(n, _ => 0)
  }

  /** Sizes that alternate so that no two in a row fit one block; the last one is minimal. */
  function SizeAt(left: nat): (n: nat)
    ensures HEADER <= n <= BLOCK
  {
    if left % 2 == 1 then HEADER else BLOCK + 1 - HEADER
  }

  lemma SizesAdd(left: nat)
    ensures SizeAt(left) + SizeAt(left + 1) == BLOCK + 1
    ensures left > 0 ==> Demand(left) == SizeAt(left) + Demand(left - 1)
  {
    assert forall n: nat :: Demand(n) == n / 2 * 0x4001 + n % 2 * 4;
  }

  /** Requests for `k` such blocks, without waiting. */
  function Fill(k: nat): seq<Event>
  {
    if k == 0 then [] else [Get(Filler(SizeAt(k)), [])] + Fill(k - 1)
  }

  /** The host is silent, the current block is full, and `left` more chunks are wanted. */
  ghost predicate Filling(s: State, left: nat, p: nat, n: nat)
  {
    && s.Inv() && s.exposed != [] && |Bytes(s.cur)| == BLOCK && s.pend.size == p && s.slots.size == n
    && s.pend.rd == 0 && s.pend.wr + Demand(left) < p
    && |Parts(s)| + left == Max(n, 1) + 1
    && (s.open != [] ==> |Bytes(s.open)| == SizeAt(left + 1))
  }

  /** With the host silent a request goes to the pending ring. */
  lemma RequestPends(s: State, left: nat, p: nat, n: nat)
    requires Filling(s, left, p, n) && left > 0
    ensures s.cur != []
    ensures var b := Filler(SizeAt(left));
            Produce(s.pend, |b|).0.Some? && GetBuffer(s, b, []) == AddPending(s, b)
  {
    hide Bytes, Concat, Demand, Filler, SizeAt;
    EmptyIffNoBytes(s.cur);
    SizesAdd(left);
    assert TrySwitch(s) == s;
  }

  lemma FillStep(s: State, left: nat, p: nat, n: nat)
    requires Filling(s, left, p, n) && left > 0 && s.cur != []
    ensures var (o, t) := AddPending(s, Filler(SizeAt(left)));
            if left == 1 then o == SlotAssert else o == Got && Filling(t, left - 1, p, n)
  {
    hide Bytes, Concat, Demand, Filler, SizeAt;
    var b := Filler(SizeAt(left));
    RequestPends(s, left, p, n);
    SizesAdd(left);
    ProduceFits(s.pend, |b|);
    BytesOfOne(b);
    EmptyIffNoBytes(s.open);
    if s.open == [] {
      BytesOfSum(s.open, [b]);
      assert s.open + [b] == [b];
    }
  }

  lemma {:induction false} FillFails(s: State, left: nat, p: nat, n: nat)
    requires Filling(s, left, p, n) && left > 0
    ensures AllFitEvents(Fill(left)) && Run(s, Fill(left)).None?
    decreases left
  {
    hide AddPending, GetBuffer, Filler, State.Stream, SizeAt, Demand, Bytes;
    var e := Get(Filler(SizeAt(left)), []);
    assert Fill(left)[0] == e && Fill(left)[1..] == Fill(left - 1);
    RequestPends(s, left, p, n);
    FillStep(s, left, p, n);
    if left == 1 {
      assert Fill(left) == [e];
    } else {
      FillFails(AddPending(s, e.block).1, left - 1, p, n);
    }
  }

  /** A block for the host to ignore, a full block behind it, then the requests. */
  function FailingRun(slotCount: nat): seq<Event>
  {
    [Get(Filler(HEADER), [])] + ([Force([])] + ([Get(Filler(BLOCK), [])] + Fill(Max(slotCount, 1) + 1)))
  }

  lemma Started(pendSize: nat, slotCount: nat, downSize: nat) returns (s1: State, s2: State, s3: State)
    requires pendSize + BLOCK < U32 && slotCount + 1 < U32 && !Roomy(pendSize, slotCount)
    ensures var s0 := Init(pendSize, slotCount, downSize);
            && s1.Inv() && Step(s0, Get(Filler(HEADER), [])) == Some((s1, true))
            && s2.Inv() && Step(s1, Force([])) == Some((s2, false))
            && s3.Inv() && Step(s2, Get(Filler(BLOCK), [])) == Some((s3, true))
            && Filling(s3, Max(slotCount, 1) + 1, pendSize, slotCount)
  {
    hide Filler, Demand, SizeAt, State.Stream;
    var x, y := Filler(HEADER), Filler(BLOCK);
    var s0 := Init(pendSize, slotCount, downSize);
    BytesOfOne(x);
    BytesOfOne(y);
    s1 := AddDirect(s0, x);
    assert GetBuffer(s0, x, []) == (Got, s1) && s1.cur == [x];
    s2 := Switched(s1);
    assert WaitSwitch(s1, []) == (true, s2, []) && s2.exposed == [x] && s2.cur == [] && s2.pend == s0.pend;
    s3 := AddDirect(s2, y);
    assert GetBuffer(s2, y, []) == (Got, s3) && s3.cur == [y];
  }

  lemma FailingRunFails(pendSize: nat, slotCount: nat, downSize: nat)
    requires pendSize + BLOCK < U32 && slotCount + 1 < U32 && !Roomy(pendSize, slotCount)
    ensures AllFitEvents(FailingRun(slotCount))
    ensures Run(Init(pendSize, slotCount, downSize), FailingRun(slotCount)).None?
  {
    hide Filler, Fill, Demand, SizeAt, Step, Run, AllFitEvents;
    var left := Max(slotCount, 1) + 1;
    var s1, s2, s3 := Started(pendSize, slotCount, downSize);
    FillFails(s3, left, pendSize, slotCount);
    RunsOn(s2, Get(Filler(BLOCK), []), Fill(left));
    RunsOn(s1, Force([]), [Get(Filler(BLOCK), [])] + Fill(left));
    RunsOn(Init(pendSize, slotCount, downSize), Get(Filler(HEADER), []), [Force([])] + ([Get(Filler(BLOCK), [])] + Fill(left)));
  }

  lemma RunsOn(s: State, e: Event, es: seq<Event>)
    requires s.Inv() && FitEvent(e) && AllFitEvents(es) && Step(s, e).Some?
    ensures AllFitEvents([e] + es) && Step(s, e).value.0.Inv()
    ensures Run(s, [e] + es).None? <==> Run(Step(s, e).value.0, es).None?
  {
    StepKeeps(s, e);
    assert ([e] + es)[1..] == es;
  }

  // ---- exactly when the assertion can fail ----

  /** Some run stops at the assertion if and only if the size of the pending ring exceeds the least
      size of one more chunk than there are slots. */
  lemma SlotAssertIff(pendSize: nat, slotCount: nat, downSize: nat)
    requires pendSize + BLOCK < U32 && slotCount + 1 < U32
    ensures (exists es :: AllFitEvents(es) && Run(Init(pendSize, slotCount, downSize), es).None?) <==>
            Demand(Max(slotCount, 1) + 1) < pendSize
  {
    hide Run, Demand, FailingRun, FitEvent;
    var s := Init(pendSize, slotCount, downSize);
    if Roomy(pendSize, slotCount) {
      forall es | AllFitEvents(es) ensures Run(s, es).Some? {
        RunPacked(s, es, pendSize, slotCount);
      }
    } else {
      FailingRunFails(pendSize, slotCount, downSize);
    }
  }

  /** The arrays of the source, for `m` bytes of pending data: `m + 1` bytes and `m / BLOCK + 2`
      slots. The assertion can fail for all larger sizes but three. */
  lemma SourceSlotsIff(m: nat, downSize: nat)
    requires BLOCK < m && m + 1 + BLOCK < U32
    ensures m / BLOCK + 3 < U32
    ensures (exists es :: AllFitEvents(es) && Run(Init(m + 1, m / BLOCK + 2, downSize), es).None?) <==>
            m >= 2 * BLOCK + 6 && !(3 * BLOCK <= m < 3 * BLOCK + 3)
  {
    hide Run, Init, FitEvent, Demand;
    SourceDemand(m, m / BLOCK);
    SlotAssertIff(m + 1, m / BLOCK + 2, downSize);
  }

  lemma SourceDemand(m: nat, q: nat)
    requires BLOCK < m && q == m / BLOCK
    ensures q <= m
    ensures Demand(q + 3) <= m <==> m >= 2 * BLOCK + 6 && !(3 * BLOCK <= m < 3 * BLOCK + 3)
  {
    assert Demand(q + 3) == (q + 3) / 2 * 0x4001 + (q + 3) % 2 * 4 && q == m / 0x4000;
    assert q < 4 ==> Demand(4) == 2 * 0x4001 && Demand(5) == 2 * 0x4001 + 4 && Demand(6) == 3 * 0x4001;
  }

  /** Two slots for every block of pending data and two more are always enough. */
  lemma EnoughSlots(pendSize: nat, slotCount: nat)
    requires slotCount >= 2 * pendSize / BLOCK + 2
    ensures Roomy(pendSize, slotCount)
  {
    var k := slotCount + 1;
    assert Demand(k) == k / 2 * 0x4001 + k % 2 * 4 && 2 * pendSize / BLOCK == 2 * pendSize / 0x4000;
  }
}
