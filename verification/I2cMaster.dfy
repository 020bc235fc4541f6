/** The I2C master command engine (i2c.c): a list of commands is replayed by the interrupt
    handler in segments that fit the 32-byte FIFOs and the 16 command registers. */
module I2cMaster {
  import opened Arithmetic
  import opened LittleEndian
  import opened Sequences

  const FIFO_LEN: nat := 32
  const REGISTERS: nat := 16

  /** A link of the command list. `bytes` and `n` are what is still to be transferred and
      `dst` the address the next received byte goes to; `single` marks the one-byte form
      of a write, whose byte is kept in the command itself. */
  datatype Cmd =
    | Restart
    | Write(bytes: seq<byte>, ackEn: bool, single: bool)
    | Read(dst: nat, n: nat, ackVal: nat)
    | Stop

  /** A command register. */
  datatype Reg = RStart | RWrite(num: nat, ackEn: bool) | RRead(num: nat, ackVal: nat) | RStop | REnd

  datatype BusEvent = StartBit | Sent(b: byte, ackEn: bool) | Received(b: byte, ackVal: nat) | StopBit

  /** The bytes the slave sends, in order. */
  type Slave = nat -> byte

  function SentAll(bs: seq<byte>, ackEn: bool): seq<BusEvent>
  {
    seq(|bs|, i requires 0 <= i < |bs| => Sent(bs[i], ackEn))
  }

  function SlaveBytes(sl: Slave, pos: nat, n: nat): (r: seq<byte>)
    ensures |r| == n
  {
    seq(n, i requires 0 <= i => sl(pos + i))
  }

  function ReceivedAll(bs: seq<byte>, ackVal: nat): (r: seq<BusEvent>)
    ensures |r| == |bs|
  {
    seq(|bs|, i requires 0 <= i < |bs| => Received(bs[i], ackVal))
  }

  function StoredAt(dst: nat, bs: seq<byte>): (r: seq<(nat, byte)>)
    ensures |r| == |bs|
  {
    seq(|bs|, i requires 0 <= i < |bs| => (dst + i, bs[i]))
  }

  /** The bus trace a list denotes, the slave having sent `pos` bytes before. */
  function Flat(cs: seq<Cmd>, sl: Slave, pos: nat): seq<BusEvent>
  {
    if cs == [] then []
    else
      match cs[0]
      case Restart => [StartBit] + Flat(cs[1..], sl, pos)
      case Write(bs, ack, _) => SentAll(bs, ack) + Flat(cs[1..], sl, pos)
      case Read(_, n, ack) => ReceivedAll(SlaveBytes(sl, pos, n), ack) + Flat(cs[1..], sl, pos + n)
      case Stop => [StopBit] + Flat(cs[1..], sl, pos)
  }

  /** The memory writes a list denotes, in order. */
  function Stores(cs: seq<Cmd>, sl: Slave, pos: nat): seq<(nat, byte)>
  {
    if cs == [] then []
    else if cs[0].Read? then
      StoredAt(cs[0].dst, SlaveBytes(sl, pos, cs[0].n)) + Stores(cs[1..], sl, pos + cs[0].n)
    else Stores(cs[1..], sl, pos)
  }

  /** What the hardware does after `trans_start`: run the registers until END or STOP, and raise
      END_DETECT or, when `stopped`, TRANS_COMPLETE. A fault is an empty FIFO or a run past the
      last register. */
  datatype HwResult = Fault | Finished(events: seq<BusEvent>, rx: seq<byte>, tx: seq<byte>, stopped: bool)

  function Prefixed(ev: seq<BusEvent>, rx: seq<byte>, r: HwResult): HwResult
  {
    if r.Fault? then Fault else Finished(ev + r.events, rx + r.rx, r.tx, r.stopped)
  }

  function Exec(regs: seq<Reg>, i: nat, tx: seq<byte>, sl: Slave, pos: nat): HwResult
    decreases |regs| - i
  {
    if i >= |regs| then Fault
    else
      match regs[i]
      case RStart => Prefixed([StartBit], [], Exec(regs, i + 1, tx, sl, pos))
      case RWrite(n, ack) =>
        if |tx| < n then Fault
        else Prefixed(SentAll(tx[..n], ack), [], Exec(regs, i + 1, tx[n..], sl, pos))
      case RRead(n, ack) =>
        var bs := SlaveBytes(sl, pos, n);
        Prefixed(ReceivedAll(bs, ack), bs, Exec(regs, i + 1, tx, sl, pos + n))
      case RStop => Finished([StopBit], [], tx, true)
      case REnd => Finished([], [], tx, false)
  }

  function Starts(k: nat): seq<BusEvent> { seq(k, _ => StartBit) }

  lemma PrefixedTwice(a: seq<BusEvent>, b: seq<BusEvent>, r: HwResult)
    ensures Prefixed(a, [], Prefixed(b, [], r)) == Prefixed(a + b, [], r)
    ensures Prefixed([], [], r) == r
  {
    if r.Finished? {
      assert a + (b + r.events) == a + b + r.events && [] + r.events == r.events && [] + r.rx == r.rx;
    }
  }

  lemma {:induction false} ExecSkipsStarts(regs: seq<Reg>, i: nat, k: nat, tx: seq<byte>, sl: Slave, pos: nat)
    requires i <= k <= |regs| && forall j | i <= j < k :: regs[j] == RStart
    ensures Exec(regs, i, tx, sl, pos) == Prefixed(Starts(k - i), [], Exec(regs, k, tx, sl, pos))
    decreases k - i
  {
    hide Prefixed;
    if i == k {
      PrefixedTwice([], [], Exec(regs, k, tx, sl, pos));
    } else {
      ExecSkipsStarts(regs, i + 1, k, tx, sl, pos);
      PrefixedTwice([StartBit], Starts(k - i - 1), Exec(regs, k, tx, sl, pos));
      assert [StartBit] + Starts(k - i - 1) == Starts(k - i);
    }
  }

  // ---- what the engine puts on the bus ----

  /** The command index a READ leaves for the next segment: zero if it needed several segments,
      else where it stood, behind the STARTs loaded before it. */
  function LeftByRead(idx: nat, n: nat): nat { if n > FIFO_LEN then 0 else idx }

  /** The bus trace of `cs` when its first command is loaded into register `idx`, the registers
      before holding STARTs that have been seen already. */
  function Replayed(cs: seq<Cmd>, idx: nat, sl: Slave, pos: nat): seq<BusEvent>
    decreases |cs|, 0
  {
    if cs == [] then []
    else
      match cs[0]
      case Restart => [StartBit] + Replayed(cs[1..], idx + 1, sl, pos)
      case Write(bs, ack, _) => SentAll(bs, ack) + Replayed(cs[1..], 0, sl, pos)
      case Read(_, n, ack) =>
        ReceivedAll(SlaveBytes(sl, pos, n), ack) + Resumed(cs[1..], LeftByRead(idx, n), sl, pos + n)
      case Stop => [StopBit] + Replayed(cs[1..], 0, sl, pos)
  }

  /** The same from a new segment on: the hardware starts at register 0, so the `idx` STARTs
      left in front run again, if there is anything to run at all. */
  function Resumed(cs: seq<Cmd>, idx: nat, sl: Slave, pos: nat): seq<BusEvent>
    decreases |cs|, 1
  {
    if cs == [] then [] else Starts(idx) + Replayed(cs, idx, sl, pos)
  }

  /** Lists the engine can load: the command index stays below 15, a START is followed by
      another command, nothing follows a STOP and no transfer is empty. */
  predicate Loadable(cs: seq<Cmd>, idx: nat)
    decreases |cs|
  {
    idx < 15 &&
    (cs == [] ||
     match cs[0]
     case Restart => cs[1..] != [] && Loadable(cs[1..], idx + 1)
     case Write(bs, _, single) => bs != [] && (single ==> |bs| == 1) && Loadable(cs[1..], 0)
     case Read(_, n, _) => n > 0 && Loadable(cs[1..], LeftByRead(idx, n))
     case Stop => cs[1..] == [])
  }

  /** How many STARTs of the trace are repetitions. */
  function Repeated(cs: seq<Cmd>, idx: nat): nat
  {
    if cs == [] then 0
    else
      match cs[0]
      case Restart => Repeated(cs[1..], idx + 1)
      case Read(_, n, _) =>
        (if cs[1..] == [] then 0 else LeftByRead(idx, n)) + Repeated(cs[1..], LeftByRead(idx, n))
      case _ => Repeated(cs[1..], 0)
  }

  /** A READ directly after a START needs several segments or ends the list. */
  predicate ReadsRewind(cs: seq<Cmd>)
  {
    forall i | 0 < i < |cs| && cs[i].Read? && cs[i - 1].Restart? :: cs[i].n > FIFO_LEN || i == |cs| - 1
  }

  lemma {:induction false} ReplayedCounts(cs: seq<Cmd>, idx: nat, sl: Slave, pos: nat)
    ensures |Replayed(cs, idx, sl, pos)| == |Flat(cs, sl, pos)| + Repeated(cs, idx)
    ensures Repeated(cs, idx) == 0 ==> Replayed(cs, idx, sl, pos) == Flat(cs, sl, pos)
    decreases |cs|
  {
    if cs == [] {
    } else {
      match cs[0]
      case Restart => ReplayedCounts(cs[1..], idx + 1, sl, pos);
      case Read(_, n, _) =>
        ReplayedCounts(cs[1..], LeftByRead(idx, n), sl, pos + n);
        assert Starts(0) + Replayed(cs[1..], 0, sl, pos + n) == Replayed(cs[1..], 0, sl, pos + n);
      case _ => ReplayedCounts(cs[1..], 0, sl, pos);
    }
  }

  lemma ReadsRewindHead(cs: seq<Cmd>)
    requires cs != []
    ensures ReadsRewind(cs) <==>
            ReadsRewind(cs[1..]) && (cs[0].Restart? && |cs| > 2 && cs[1].Read? ==> cs[1].n > FIFO_LEN)
  {
    var tail := cs[1..];
    if ReadsRewind(cs) {
      forall i | 0 < i < |tail| && tail[i].Read? && tail[i - 1].Restart?
        ensures tail[i].n > FIFO_LEN || i == |tail| - 1
      {
        assert cs[i + 1] == tail[i] && cs[i] == tail[i - 1];
      }
    }
    if ReadsRewind(tail) {
      forall i | 1 < i < |cs| && cs[i].Read? && cs[i - 1].Restart?
        ensures cs[i].n > FIFO_LEN || i == |cs| - 1
      {
        assert tail[i - 1] == cs[i] && tail[i - 2] == cs[i - 1];
      }
    }
  }

  lemma {:induction false} RepeatedNoneIff(cs: seq<Cmd>, idx: nat)
    ensures Repeated(cs, idx) == 0 <==>
            ReadsRewind(cs) && (idx > 0 && |cs| > 1 && cs[0].Read? ==> cs[0].n > FIFO_LEN)
    decreases |cs|
  {
    if cs == [] {
    } else {
      match cs[0]
      case Restart => RepeatedNoneIff(cs[1..], idx + 1);
      case Read(_, n, _) => RepeatedNoneIff(cs[1..], LeftByRead(idx, n));
      case _ => RepeatedNoneIff(cs[1..], 0);
      ReadsRewindHead(cs);
    }
  }

  /** The bus trace is the flat one if and only if every READ directly after a START needs more
      than one segment or ends the list. */
  lemma ReplayedIsFlatIff(cs: seq<Cmd>, sl: Slave, pos: nat)
    ensures Replayed(cs, 0, sl, pos) == Flat(cs, sl, pos) <==> ReadsRewind(cs)
  {
    ReplayedCounts(cs, 0, sl, pos);
    RepeatedNoneIff(cs, 0);
  }

  // ---- skipping the STARTs in front ----

  lemma {:induction false} ReplayedSkipsStarts(cs: seq<Cmd>, idx: nat, k: nat, sl: Slave, pos: nat)
    requires k <= |cs| && forall j | 0 <= j < k :: cs[j] == Restart
    ensures Replayed(cs, idx, sl, pos) == Starts(k) + Replayed(cs[k..], idx + k, sl, pos)
    ensures Stores(cs, sl, pos) == Stores(cs[k..], sl, pos)
    decreases k
  {
    if k == 0 {
      assert cs[0..] == cs;
      assert Starts(0) + Replayed(cs, idx, sl, pos) == Replayed(cs, idx, sl, pos);
    } else {
      ReplayedSkipsStarts(cs[1..], idx + 1, k - 1, sl, pos);
      assert cs[1..][k - 1..] == cs[k..];
      var rest := Replayed(cs[k..], idx + k, sl, pos);
      assert [StartBit] + (Starts(k - 1) + rest) == Starts(k) + rest;
    }
  }

  lemma {:induction false} LoadableSkipsStarts(cs: seq<Cmd>, idx: nat, k: nat)
    requires Loadable(cs, idx) && k <= |cs| && forall j | 0 <= j < k :: cs[j] == Restart
    ensures Loadable(cs[k..], idx + k) && (k > 0 ==> cs[k..] != [])
    decreases k
  {
    if k == 0 {
      assert cs[0..] == cs;
    } else {
      LoadableSkipsStarts(cs[1..], idx + 1, k - 1);
      assert cs[1..][k - 1..] == cs[k..];
      if k == 1 {
        assert cs[k..] == cs[1..];
      }
    }
  }

  lemma ResumedSkipsStarts(cs: seq<Cmd>, idx: nat, k: nat, sl: Slave, pos: nat)
    requires k < |cs| && forall j | 0 <= j < k :: cs[j] == Restart
    ensures Resumed(cs, idx, sl, pos) == Starts(idx + k) + Replayed(cs[k..], idx + k, sl, pos)
    ensures Stores(cs, sl, pos) == Stores(cs[k..], sl, pos)
  {
    ReplayedSkipsStarts(cs, idx, k, sl, pos);
    Regroup(Starts(idx), Starts(k), Replayed(cs[k..], idx + k, sl, pos));
    assert Starts(idx) + Starts(k) == Starts(idx + k);
  }

  lemma ResumedFromZero(cs: seq<Cmd>, sl: Slave, pos: nat)
    ensures Resumed(cs, 0, sl, pos) == Replayed(cs, 0, sl, pos)
  {
    assert Starts(0) + Replayed(cs, 0, sl, pos) == Replayed(cs, 0, sl, pos);
  }

  /** How many FIFOs `n` bytes fill. */
  function Fifos(n: nat): nat { (n + FIFO_LEN - 1) / FIFO_LEN }

  lemma FifosStep(n: nat)
    ensures Fifos(0) == 0
    ensures 0 < n <= FIFO_LEN ==> Fifos(n) == 1
    ensures n > FIFO_LEN ==> Fifos(n) == 1 + Fifos(n - FIFO_LEN)
  {}

  /** The segments a list is cut into. */
  function Segments(cs: seq<Cmd>): nat
  {
    if cs == [] then 0
    else
      (match cs[0]
       case Restart => 0
       case Write(bs, _, _) => Fifos(|bs|)
       case Read(_, n, _) => Fifos(n)
       case Stop => 1) + Segments(cs[1..])
  }

  predicate IsTransfer(c: Cmd) { c.Write? || c.Read? }

  /** STARTs in front need no segment of their own. */
  lemma {:induction false} SegmentsOfTail(cs: seq<Cmd>, k: nat)
    requires k <= |cs| && forall j | 0 <= j < k :: cs[j] == Restart
    ensures Segments(cs[k..]) == Segments(cs)
  {
    if k == 0 {
      assert cs[0..] == cs;
    } else {
      SegmentsOfTail(cs[1..], k - 1);
      assert cs[1..][k - 1..] == cs[k..];
    }
  }

  lemma SentSplit(bs: seq<byte>, f: nat, ack: bool)
    requires f <= |bs|
    ensures SentAll(bs, ack) == SentAll(bs[..f], ack) + SentAll(bs[f..], ack)
  {
  }

  lemma SlaveSplit(sl: Slave, pos: nat, n: nat, m: nat)
    requires m <= n
    ensures SlaveBytes(sl, pos, n) == SlaveBytes(sl, pos, m) + SlaveBytes(sl, pos + m, n - m)
  {
  }

  lemma ReceivedSplit(a: seq<byte>, b: seq<byte>, ack: nat)
    ensures ReceivedAll(a + b, ack) == ReceivedAll(a, ack) + ReceivedAll(b, ack)
  {
  }

  lemma StoredSplit(dst: nat, a: seq<byte>, b: seq<byte>)
    ensures StoredAt(dst, a + b) == StoredAt(dst, a) + StoredAt(dst + |a|, b)
  {
  }

  /** What is left of `cs` once the STARTs before position `k` and the first `f` units of
      the transfer there are done. */
  function AfterPart(cs: seq<Cmd>, k: nat, f: nat): seq<Cmd>
    requires k < |cs| && (cs[k].Write? ==> f <= |cs[k].bytes|) && (cs[k].Read? ==> f <= cs[k].n)
  {
    var c, tail := cs[k], cs[k + 1..];
    if c.Write? && f < |c.bytes| then [c.(bytes := c.bytes[f..])] + tail
    else if c.Read? && f < c.n then [c.(dst := c.dst + f, n := c.n - f)] + tail
    else tail
  }

  lemma WriteCutShape(cs: seq<Cmd>, k: nat, f: nat)
    requires k < |cs| && cs[k].Write? && f <= |cs[k].bytes|
    ensures var c, rest := cs[k], AfterPart(cs, k, f);
            && cs[k..] != [] && cs[k..][0] == c && cs[k..][1..] == cs[k + 1..]
            && (f == |c.bytes| ==> rest == cs[k + 1..])
            && (f < |c.bytes| ==> rest != [] && rest[0] == c.(bytes := c.bytes[f..]) && rest[1..] == cs[k + 1..])
  {}

  /** Cutting a WRITE after `f` bytes changes neither the trace nor the memory writes. */
  lemma AfterWriteDenotes(cs: seq<Cmd>, k: nat, f: nat, idx: nat, sl: Slave, pos: nat)
    requires k < |cs| && cs[k].Write? && f <= |cs[k].bytes|
    ensures Replayed(cs[k..], idx, sl, pos) ==
            SentAll(cs[k].bytes[..f], cs[k].ackEn) + Replayed(AfterPart(cs, k, f), 0, sl, pos)
    ensures Stores(cs[k..], sl, pos) == Stores(AfterPart(cs, k, f), sl, pos)
  {
    hide SentAll, AfterPart;
    var c := cs[k];
    WriteCutShape(cs, k, f);
    SentSplit(c.bytes, f, c.ackEn);
    Regroup(SentAll(c.bytes[..f], c.ackEn), SentAll(c.bytes[f..], c.ackEn), Replayed(cs[k + 1..], 0, sl, pos));
    if f == |c.bytes| {
      assert c.bytes[..f] == c.bytes;
    }
  }

  lemma WriteHead(cs: seq<Cmd>, sl: Slave, pos: nat)
    requires cs != [] && cs[0].Write?
    ensures Flat(cs, sl, pos) == SentAll(cs[0].bytes, cs[0].ackEn) + Flat(cs[1..], sl, pos)
    ensures Stores(cs, sl, pos) == Stores(cs[1..], sl, pos)
  {
  }

  lemma ReadHead(cs: seq<Cmd>, sl: Slave, pos: nat)
    requires cs != [] && cs[0].Read?
    ensures var got := SlaveBytes(sl, pos, cs[0].n);
            && Flat(cs, sl, pos) == ReceivedAll(got, cs[0].ackVal) + Flat(cs[1..], sl, pos + cs[0].n)
            && Stores(cs, sl, pos) == StoredAt(cs[0].dst, got) + Stores(cs[1..], sl, pos + cs[0].n)
  {
  }

  lemma ReadCutShape(cs: seq<Cmd>, k: nat, f: nat)
    requires k < |cs| && cs[k].Read? && f <= cs[k].n
    ensures var c, rest := cs[k], AfterPart(cs, k, f);
            && cs[k..] != [] && cs[k..][0] == c && cs[k..][1..] == cs[k + 1..]
            && (f == c.n ==> rest == cs[k + 1..])
            && (f < c.n ==> rest != [] && rest[0] == c.(dst := c.dst + f, n := c.n - f) && rest[1..] == cs[k + 1..])
  {}

  lemma ReadReplayed(cs: seq<Cmd>, idx: nat, sl: Slave, pos: nat)
    requires cs != [] && cs[0].Read?
    ensures Replayed(cs, idx, sl, pos) ==
            ReceivedAll(SlaveBytes(sl, pos, cs[0].n), cs[0].ackVal) +
            Resumed(cs[1..], LeftByRead(idx, cs[0].n), sl, pos + cs[0].n)
  {}

  /** A READ is cut at the FIFO length; the index is rewound exactly if something is left of it. */
  lemma AfterReadTrace(cs: seq<Cmd>, k: nat, f: nat, idx: nat, sl: Slave, pos: nat)
    requires k < |cs| && cs[k].Read? && f == Min(FIFO_LEN, cs[k].n)
    ensures Replayed(cs[k..], idx, sl, pos) ==
            ReceivedAll(SlaveBytes(sl, pos, f), cs[k].ackVal) +
            Resumed(AfterPart(cs, k, f), if f < cs[k].n then 0 else idx, sl, pos + f)
  {
    hide SlaveBytes, ReceivedAll, Replayed, Resumed, AfterPart;
    var c := cs[k];
    ReadCutShape(cs, k, f);
    ReadReplayed(cs[k..], idx, sl, pos);
    if f < c.n {
      var got, later := SlaveBytes(sl, pos, f), SlaveBytes(sl, pos + f, c.n - f);
      SlaveSplit(sl, pos, c.n, f);
      ReceivedSplit(got, later, c.ackVal);
      ReadReplayed(AfterPart(cs, k, f), 0, sl, pos + f);
      ResumedFromZero(AfterPart(cs, k, f), sl, pos + f);
      Regroup(ReceivedAll(got, c.ackVal), ReceivedAll(later, c.ackVal), Resumed(cs[k + 1..], 0, sl, pos + c.n));
    }
  }

  lemma AfterReadMemory(cs: seq<Cmd>, k: nat, f: nat, sl: Slave, pos: nat)
    requires k < |cs| && cs[k].Read? && f <= cs[k].n
    ensures Stores(cs[k..], sl, pos) ==
            StoredAt(cs[k].dst, SlaveBytes(sl, pos, f)) + Stores(AfterPart(cs, k, f), sl, pos + f)
  {
    hide SlaveBytes, StoredAt, Flat, Stores, AfterPart;
    var c := cs[k];
    ReadCutShape(cs, k, f);
    ReadHead(cs[k..], sl, pos);
    if f < c.n {
      var got, later := SlaveBytes(sl, pos, f), SlaveBytes(sl, pos + f, c.n - f);
      SlaveSplit(sl, pos, c.n, f);
      StoredSplit(c.dst, got, later);
      ReadHead(AfterPart(cs, k, f), sl, pos + f);
      Regroup(StoredAt(c.dst, got), StoredAt(c.dst + f, later), Stores(cs[k + 1..], sl, pos + c.n));
    }
  }

  /** Loaded registers `regs` and FIFO `tx` carry out the front of `cs`, resumed at index `idx`:
      running them ends without fault, empties the FIFO and yields `n` received bytes; with
      `rest`, resumed at `restIdx`, this is exactly what `cs` denotes, `n` bytes being stored
      at `dst`. */
  ghost predicate Segment(cs: seq<Cmd>, idx: nat, regs: seq<Reg>, tx: seq<byte>, n: nat, dst: nat,
    rest: seq<Cmd>, restIdx: nat, sl: Slave, pos: nat)
  {
    var r := Exec(regs, 0, tx, sl, pos);
    && |tx| <= FIFO_LEN && n <= FIFO_LEN
    && r.Finished? && r.tx == [] && r.rx == SlaveBytes(sl, pos, n)
    && Resumed(cs, idx, sl, pos) == r.events + Resumed(rest, restIdx, sl, pos + n)
    && Stores(cs, sl, pos) == StoredAt(dst, r.rx) + Stores(rest, sl, pos + n)
    && Segments(cs) == 1 + Segments(rest) && Loadable(rest, restIdx)
    && (r.stopped ==> rest == [] && n == 0)
  }

  /** Registers holding `idx` old STARTs and the `k` STARTs in front of `cs`. */
  ghost predicate StartsIn(regs: seq<Reg>, cs: seq<Cmd>, idx: nat, k: nat)
  {
    && idx + k <= |regs| && k <= |cs|
    && (forall j | 0 <= j < idx + k :: regs[j] == RStart)
    && (forall j | 0 <= j < k :: cs[j] == Restart)
  }

  /** What a well-formed list has behind its first `k` STARTs. */
  lemma StartShape(cs: seq<Cmd>, idx: nat, k: nat)
    requires Loadable(cs, idx) && k < |cs| && forall j | 0 <= j < k :: cs[j] == Restart
    ensures idx + k < 15 && Loadable(cs[k..], idx + k) && cs[k..][0] == cs[k] && cs[k..][1..] == cs[k + 1..]
    ensures cs[k].Write? ==> cs[k].bytes != [] && (cs[k].single ==> |cs[k].bytes| == 1)
    ensures cs[k].Read? ==> cs[k].n > 0
    ensures cs[k].Stop? ==> k == |cs| - 1
    ensures cs[k].Restart? ==> k + 1 < |cs| && idx + k + 1 < 15
  {
    LoadableSkipsStarts(cs, idx, k);
  }

  lemma WriteRestShrinks(cs: seq<Cmd>, idx: nat, k: nat, f: nat)
    requires Loadable(cs, idx) && k < |cs| && cs[k].Write? && f == Min(FIFO_LEN, |cs[k].bytes|)
    requires forall j | 0 <= j < k :: cs[j] == Restart
    ensures Segments(cs) == 1 + Segments(AfterPart(cs, k, f)) && Loadable(AfterPart(cs, k, f), 0)
  {
    hide Fifos;
    SegmentsOfTail(cs, k);
    StartShape(cs, idx, k);
    WriteCutShape(cs, k, f);
    FifosStep(|cs[k].bytes|);
  }

  lemma ReadRestShrinks(cs: seq<Cmd>, idx: nat, k: nat, f: nat)
    requires Loadable(cs, idx) && k < |cs| && cs[k].Read? && f == Min(FIFO_LEN, cs[k].n)
    requires forall j | 0 <= j < k :: cs[j] == Restart
    ensures Segments(cs) == 1 + Segments(AfterPart(cs, k, f))
    ensures Loadable(AfterPart(cs, k, f), if f < cs[k].n then 0 else idx + k)
  {
    hide Fifos;
    SegmentsOfTail(cs, k);
    StartShape(cs, idx, k);
    ReadCutShape(cs, k, f);
    FifosStep(cs[k].n);
  }

  lemma WriteSegment(cs: seq<Cmd>, idx: nat, k: nat, f: nat, regs: seq<Reg>, sl: Slave, pos: nat)
    requires Loadable(cs, idx) && k < |cs| && cs[k].Write? && f == Min(FIFO_LEN, |cs[k].bytes|)
    requires StartsIn(regs, cs, idx, k) && idx + k + 1 < |regs|
    requires regs[idx + k] == RWrite(f, cs[k].ackEn) && regs[idx + k + 1] == REnd
    ensures Segment(cs, idx, regs, cs[k].bytes[..f], 0, 0, AfterPart(cs, k, f), 0, sl, pos)
  {
    hide SentAll, Replayed, Resumed, Stores, Segments, Loadable, AfterPart;
    var tx, rest := cs[k].bytes[..f], AfterPart(cs, k, f);
    ExecSkipsStarts(regs, 0, idx + k, tx, sl, pos);
    assert tx[..f] == tx && tx[f..] == [];
    assert SentAll(tx, cs[k].ackEn) + [] == SentAll(tx, cs[k].ackEn);
    assert Exec(regs, idx + k + 1, [], sl, pos) == Finished([], [], [], false);
    ResumedSkipsStarts(cs, idx, k, sl, pos);
    AfterWriteDenotes(cs, k, f, idx + k, sl, pos);
    ResumedFromZero(rest, sl, pos);
    WriteRestShrinks(cs, idx, k, f);
    Regroup(Starts(idx + k), SentAll(tx, cs[k].ackEn), Replayed(rest, 0, sl, pos));
    assert StoredAt(0, []) + Stores(rest, sl, pos) == Stores(rest, sl, pos);
  }

  lemma ReadSegment(cs: seq<Cmd>, idx: nat, k: nat, f: nat, regs: seq<Reg>, sl: Slave, pos: nat)
    requires Loadable(cs, idx) && k < |cs| && cs[k].Read? && f == Min(FIFO_LEN, cs[k].n)
    requires StartsIn(regs, cs, idx, k) && idx + k + 1 < |regs|
    requires regs[idx + k] == RRead(f, cs[k].ackVal) && regs[idx + k + 1] == REnd
    ensures Segment(cs, idx, regs, [], f, cs[k].dst, AfterPart(cs, k, f), if f < cs[k].n then 0 else idx + k, sl, pos)
  {
    hide ReceivedAll, SlaveBytes, StoredAt, Replayed, Resumed, Stores, Segments, Loadable, AfterPart;
    var got, rest := SlaveBytes(sl, pos, f), AfterPart(cs, k, f);
    var restIdx := if f < cs[k].n then 0 else idx + k;
    ExecSkipsStarts(regs, 0, idx + k, [], sl, pos);
    assert Exec(regs, idx + k + 1, [], sl, pos + f) == Finished([], [], [], false);
    assert ReceivedAll(got, cs[k].ackVal) + [] == ReceivedAll(got, cs[k].ackVal) && got + [] == got && [] + got == got;
    ResumedSkipsStarts(cs, idx, k, sl, pos);
    AfterReadTrace(cs, k, f, idx + k, sl, pos);
    AfterReadMemory(cs, k, f, sl, pos);
    ReadRestShrinks(cs, idx, k, f);
    Regroup(Starts(idx + k), ReceivedAll(got, cs[k].ackVal), Resumed(rest, restIdx, sl, pos + f));
  }

  lemma StopSegment(cs: seq<Cmd>, idx: nat, k: nat, regs: seq<Reg>, sl: Slave, pos: nat)
    requires Loadable(cs, idx) && k == |cs| - 1 && cs[k].Stop?
    requires StartsIn(regs, cs, idx, k) && idx + k < |regs| && regs[idx + k] == RStop
    ensures Segment(cs, idx, regs, [], 0, 0, [], 0, sl, pos) && Exec(regs, 0, [], sl, pos).stopped
    ensures forall c | c in cs :: !IsTransfer(c)
  {
    hide Stores, StoredAt, Starts, Replayed, Exec, Loadable, Segments;
    ExecSkipsStarts(regs, 0, idx + k, [], sl, pos);
    ExecStop(regs, idx + k, sl, pos);
    ResumedSkipsStarts(cs, idx, k, sl, pos);
    assert cs[k..] == [Stop];
    StopDenotes(idx + k, sl, pos);
    StoredNothing(0);
    NothingIsLoadable();
    SegmentsOfTail(cs, k);
  }

  lemma ExecStop(regs: seq<Reg>, i: nat, sl: Slave, pos: nat)
    requires i < |regs| && regs[i] == RStop
    ensures Exec(regs, i, [], sl, pos) == Finished([StopBit], [], [], true)
  {}

  lemma NothingIsLoadable()
    ensures Loadable([], 0) && Segments([]) == 0 && Segments([Stop]) == 1
  {
    assert [Stop][1..] == [];
  }

  lemma StopDenotes(idx: nat, sl: Slave, pos: nat)
    ensures Replayed([Stop], idx, sl, pos) == [StopBit] && Stores([Stop], sl, pos) == Stores([], sl, pos) == []
  {
    assert [Stop][1..] == [];
    assert Replayed([Stop], idx, sl, pos) == [StopBit] + Replayed([], 0, sl, pos);
  }

  lemma StoredNothing(dst: nat)
    ensures StoredAt(dst, []) == []
  {
  }

  lemma EmptyDenotesNothing(sl: Slave, pos: nat)
    ensures Resumed([], 0, sl, pos) == [] && Stores([], sl, pos) == [] && Segments([]) == 0
  {
  }

  datatype Status = StRead | StWrite | StIdle

  datatype Err = ESP_OK | ESP_ERR_INVALID_ARG | ESP_ERR_TIMEOUT

  /** `i2c_obj_t` with the registers and FIFOs it drives. `bus` and `mem` log what has
      happened on the bus and in user memory. */
  class Master {
    var list: seq<Cmd>
    var status: Status
    var cmdIdx: nat
    var rxCnt: nat
    var txRemain: nat
    var rxRemain: nat
    var done: bool
    const regs: array<Reg>
    var tx: seq<byte>
    var rx: seq<byte>
    const slave: Slave
    var pos: nat
    var bus: seq<BusEvent>
    var mem: seq<(nat, byte)>

    constructor (slave: Slave)
      ensures Ready() && this.slave == slave && pos == 0 && bus == [] && mem == [] && fresh(regs)
    {
      this.slave := slave;
      regs := new Reg[REGISTERS](_ => RStart);
      list, status, cmdIdx, rxCnt, done := [], StIdle, 0, 0, false;
      txRemain, rxRemain := FIFO_LEN, FIFO_LEN;
      tx, rx, pos, bus, mem := [], [], 0, [], [];
    }

    /** Between segments: FIFO counters reset, nothing left to send. */
    ghost predicate Ready()
      reads this
    {
      regs.Length == REGISTERS && txRemain == FIFO_LEN && rxRemain == FIFO_LEN && tx == []
    }

    /** Where the next segment is loaded: from register 0 if part of a READ is left, else where
        the last one stopped. The registers before hold STARTs. */
    function NextIdx(): nat
      reads this
    {
      if Storing() && list[0].Read? && list[0].n > 0 then 0 else cmdIdx
    }

    ghost predicate StartsBefore(idx: nat)
      reads this, regs
    {
      idx <= regs.Length && forall j | 0 <= j < idx :: regs[j] == RStart
    }

    /** Before an interrupt: a finished READ segment waits to be stored. */
    ghost predicate Waiting()
      reads this, regs
    {
      && Ready() && StartsBefore(NextIdx())
      && if Storing() then list[0].Read? && |rx| == rxCnt else rx == []
    }

    predicate Storing()
      reads this
    {
      status == StRead && list != []
    }

    /** The commands still to run, once received bytes are stored. */
    function Rest(): seq<Cmd>
      reads this
      requires Storing() ==> list[0].Read?
    {
      if !Storing() then list
      else if list[0].n > 0 then [list[0].(dst := list[0].dst + rxCnt)] + list[1..]
      else list[1..]
    }

    /** `while (rx_cnt-- > 0)`: received bytes go to the buffer of the head READ. */
    method StoreReceived()
      requires Waiting() && Storing()
      modifies this
      ensures Ready() && cmdIdx == old(NextIdx()) && rx == [] && list == old(Rest())
      ensures mem == old(mem) + old(StoredAt(list[0].dst, rx))
      ensures unchanged(`status, `done, `pos, `bus)
    {
      var dst := list[0].dst;
      ghost var got := rx;
      ghost var cnt := rxCnt;
      while rxCnt > 0
        invariant rxCnt <= cnt && rx == got[cnt - rxCnt..] && dst == old(list[0].dst) + (cnt - rxCnt)
        invariant mem == old(mem) + StoredAt(old(list[0].dst), got)[..cnt - rxCnt]
        invariant list == old(list) && status == old(status) && done == old(done) && pos == old(pos) && bus == old(bus)
        invariant Ready() && cmdIdx == old(cmdIdx)
      {
        mem := mem + [(dst, rx[0])];
        dst := dst + 1;
        rx := rx[1..];
        rxCnt := rxCnt - 1;
      }
      if list[0].n > 0 {
        list := list[0 := list[0].(dst := dst)];
        rxRemain := FIFO_LEN;
        cmdIdx := 0;
      } else {
        list := list[1..];
      }
    }

    /** Fill the TX FIFO from the head WRITE, as far as it fits. */
    method FillFifo() returns (filled: nat)
      requires Ready() && list != [] && list[0].Write? && (list[0].single ==> |list[0].bytes| == 1)
      modifies this
      ensures filled == |tx| <= FIFO_LEN && filled <= |old(list[0].bytes)| && tx == old(list[0].bytes)[..filled]
      ensures list == old(list)[0 := old(list[0]).(bytes := old(list[0].bytes)[filled..])]
      ensures filled == Min(FIFO_LEN, |old(list[0].bytes)|)
      ensures unchanged(`status, `cmdIdx, `rxCnt, `rxRemain, `done, `rx, `pos, `bus, `mem)
    {
      filled := 0;
      ghost var all := list[0].bytes;
      if !list[0].single {
        while txRemain > 0 && |list[0].bytes| > 0
          invariant filled == |tx| == FIFO_LEN - txRemain && filled <= FIFO_LEN && filled <= |all|
          invariant tx == all[..filled]
          invariant list == old(list)[0 := old(list[0]).(bytes := all[filled..])]
          invariant unchanged(`status, `cmdIdx, `rxCnt, `rxRemain, `done, `rx, `pos, `bus, `mem)
        {
          tx := tx + [list[0].bytes[0]];
          txRemain := txRemain - 1;
          list := list[0 := list[0].(bytes := list[0].bytes[1..])];
          filled := filled + 1;
        }
      } else {
        tx := tx + [list[0].bytes[0]];
        txRemain := txRemain - 1;
        list := list[0 := list[0].(bytes := list[0].bytes[1..])];
        filled := 1;
      }
    }

    /** Bytes the running segment will receive, and where the handler will put them. */
    function Expected(): nat
      reads this
    {
      if Storing() then rxCnt else 0
    }

    function Target(): nat
      reads this
      requires Storing() ==> list[0].Read?
    {
      if Storing() then list[0].dst else 0
    }

    /** Registers and TX FIFO are loaded to carry out the front of `cs`, resumed at index `idx`;
        `Rest` is left. */
    ghost predicate Armed(cs: seq<Cmd>, idx: nat)
      reads this, regs
    {
      && regs.Length == REGISTERS && txRemain == FIFO_LEN && rxRemain == FIFO_LEN && rx == []
      && (Storing() ==> list[0].Read?) && StartsBefore(NextIdx())
      && Segment(cs, idx, regs[..], tx, Expected(), Target(), Rest(), NextIdx(), slave, pos)
      && (status == StIdle ==> Exec(regs[..], 0, tx, slave, pos).stopped)
    }

    /** The STARTs before position `k` of `cs` are loaded behind `idx` old ones; `list` is what
        follows them. */
    ghost predicate Loaded(cs: seq<Cmd>, idx: nat, k: nat)
      reads this, regs
    {
      && regs.Length == REGISTERS && txRemain == FIFO_LEN && rxRemain == FIFO_LEN && tx == [] && rx == []
      && cmdIdx == idx + k < 15 && StartsIn(regs[..], cs, idx, k) && list == cs[k..]
    }

    method LoadWrite(ghost cs: seq<Cmd>, ghost idx: nat, ghost k: nat)
      requires Loaded(cs, idx, k) && Loadable(cs, idx) && k < |cs| && cs[k].Write?
      modifies this, regs
      ensures status != StIdle && Armed(cs, idx) && unchanged(`pos, `bus, `mem, `done)
    {
      hide Loadable, Segment;
      StartShape(cs, idx, k);
      var i, ackEn := cmdIdx, list[0].ackEn;
      cmdIdx := 0;
      var filled := FillFifo();
      regs[i] := RWrite(filled, ackEn);
      regs[i + 1] := REnd;
      txRemain := FIFO_LEN;
      if |list[0].bytes| == 0 {
        list := list[1..];
      }
      status := StWrite;
      assert filled < |cs[k].bytes| ==> list[1..] == cs[k + 1..] && list[0] == cs[k].(bytes := cs[k].bytes[filled..]);
      assert list == AfterPart(cs, k, filled) && StartsIn(regs[..], cs, idx, k);
      WriteSegment(cs, idx, k, filled, regs[..], slave, pos);
    }

    method LoadRead(ghost cs: seq<Cmd>, ghost idx: nat, ghost k: nat)
      requires Loaded(cs, idx, k) && Loadable(cs, idx) && k < |cs| && cs[k].Read?
      modifies this, regs
      ensures status != StIdle && Armed(cs, idx) && unchanged(`pos, `bus, `mem, `done)
    {
      hide Loadable, Segment;
      StartShape(cs, idx, k);
      var c := list[0];
      rxCnt := if c.n > rxRemain then rxRemain else c.n;
      list := list[0 := c.(n := c.n - rxCnt)];
      regs[cmdIdx] := RRead(rxCnt, c.ackVal);
      regs[cmdIdx + 1] := REnd;
      status := StRead;
      assert list[1..] == cs[k + 1..] && list[0] == c.(n := c.n - rxCnt);
      assert Rest() == AfterPart(cs, k, rxCnt) && Target() == c.dst && Expected() == rxCnt;
      assert NextIdx() == (if rxCnt < c.n then 0 else idx + k) && StartsIn(regs[..], cs, idx, k);
      ReadSegment(cs, idx, k, rxCnt, regs[..], slave, pos);
    }

    /** The loop of `i2c_master_cmd_begin_static`: load registers and FIFO for one segment. */
    method LoadSegment(ghost cs: seq<Cmd>, ghost idx: nat)
      requires list == cs != [] && Loaded(cs, idx, 0) && Loadable(cs, idx)
      modifies this, regs
      ensures Armed(cs, idx) && unchanged(`pos, `bus, `mem, `done)
      ensures status == StIdle <==> old(status) == StIdle && forall c | c in cs :: !IsTransfer(c)
    {
      hide Loadable, Segment;
      ghost var k := 0;
      while list != []
        invariant k <= |cs| && (k < |cs| ==> Loaded(cs, idx, k))
        invariant list == cs[k..] && list != []
        invariant unchanged(`pos, `bus, `mem, `done, `status)
        decreases |list|
      {
        StartShape(cs, idx, k);
        if list[0].Write? {
          assert cs[k] in cs;
          LoadWrite(cs, idx, k);
          break;
        } else if list[0].Read? {
          assert cs[k] in cs;
          LoadRead(cs, idx, k);
          break;
        }
        regs[cmdIdx] := if list[0].Stop? then RStop else RStart;
        cmdIdx := cmdIdx + 1;
        list := list[1..];
        if list == [] || cmdIdx >= 15 {
          txRemain := FIFO_LEN;
          cmdIdx := 0;
          StopSegment(cs, idx, k, regs[..], slave, pos);
          assert StoredAt(0, []) == [];
          break;
        }
        k := k + 1;
      }
    }

    /** `i2c_master_cmd_begin_static`, first called by the task and then on every interrupt. */
    method CmdBegin()
      requires Waiting() && Loadable(Rest(), NextIdx())
      modifies this, regs
      ensures unchanged(`pos, `bus)
      ensures mem == old(mem) + old(StoredAt(Target(), rx))
      ensures old(Rest()) == [] ==> done && Waiting() && Rest() == [] && rx == []
      ensures old(Rest()) != [] ==>
                && done == old(done) && Armed(old(Rest()), old(NextIdx()))
                && (status == StIdle <==> old(status == StIdle && forall c | c in Rest() :: !IsTransfer(c)))
    {
      hide Segment;
      ghost var cs, idx := Rest(), NextIdx();
      assert !Storing() ==> StoredAt(0, rx) == [];
      if list != [] && status == StRead {
        StoreReceived();
      }
      if list == [] {
        done := true;
        status := StIdle;
        return;
      }
      LoadSegment(cs, idx);
    }

    /** The hardware runs the loaded segment up to END or STOP and raises an interrupt. */
    method RunSegment(ghost cs: seq<Cmd>, ghost idx: nat) returns (stopped: bool)
      requires Armed(cs, idx)
      modifies this
      ensures Waiting() && unchanged(`list, `status, `rxCnt, `mem, `done)
      ensures Rest() == old(Rest()) && Target() == old(Target()) && NextIdx() == old(NextIdx())
      ensures rx == SlaveBytes(slave, old(pos), |rx|) && |rx| == Expected() && pos == old(pos) + |rx|
      ensures bus + Resumed(Rest(), NextIdx(), slave, pos) == old(bus) + Resumed(cs, idx, slave, old(pos))
      ensures StoredAt(Target(), rx) + Stores(Rest(), slave, pos) == Stores(cs, slave, old(pos))
      ensures Segments(cs) == 1 + Segments(Rest()) && Loadable(Rest(), NextIdx())
      ensures (stopped ==> Rest() == [] && rx == []) && (status == StIdle ==> stopped)
    {
      hide Loadable, Replayed, Resumed, Stores, StoredAt, SlaveBytes;
      var r := Exec(regs[..], 0, tx, slave, pos);
      Regroup(bus, r.events, Resumed(Rest(), NextIdx(), slave, pos + Expected()));
      bus := bus + r.events;
      rx := r.rx;
      tx := r.tx;
      pos := pos + |r.rx|;
      stopped := r.stopped;
    }

    /** The master's part of `i2c_isr_handler_default`: END_DETECT always goes on with the list,
        TRANS_COMPLETE only when some READ or WRITE was loaded. `alive` says whether a new segment
        was started. */
    method HandleInterrupt(stopped: bool) returns (alive: bool)
      requires Waiting() && !done && Loadable(Rest(), NextIdx())
      requires (stopped ==> Rest() == [] && rx == []) && (status == StIdle ==> stopped)
      modifies this, regs
      ensures unchanged(`pos, `bus)
      ensures mem == old(mem) + old(StoredAt(Target(), rx))
      ensures alive <==> old(Rest()) != []
      ensures alive ==> !done && status != StIdle && Armed(old(Rest()), old(NextIdx()))
      ensures !alive ==> Ready() && (done <==> old(status) != StIdle)
    {
      hide Loadable, Segment;
      alive := false;
      if !stopped || status != StIdle {
        alive := Rest() != [];
        CmdBegin();
      } else {
        StoredNothing(0);
      }
    }

    /** The hardware runs the armed segment and the interrupt is handled. */
    method RunAndInterrupt(ghost cs: seq<Cmd>, ghost idx: nat)
      returns (alive: bool, ghost rest: seq<Cmd>, ghost restIdx: nat)
      requires Armed(cs, idx) && !done
      modifies this, regs
      ensures alive ==> !done && status != StIdle && Armed(rest, restIdx)
      ensures !alive ==> Ready() && rest == [] && restIdx == 0 && (done <==> old(status) != StIdle)
      ensures bus + Resumed(rest, restIdx, slave, pos) == old(bus) + Resumed(cs, idx, slave, old(pos))
      ensures mem + Stores(rest, slave, pos) == old(mem) + Stores(cs, slave, old(pos))
      ensures Segments(cs) == 1 + Segments(rest)
      ensures alive ==> old(status) != StIdle
    {
      hide Loadable, Segment, Replayed, Resumed, Stores, StoredAt, SlaveBytes, Segments;
      var stopped := RunSegment(cs, idx);
      Regroup(mem, StoredAt(Target(), rx), Stores(Rest(), slave, pos));
      rest, restIdx := Rest(), NextIdx();
      alive := HandleInterrupt(stopped);
      if !alive {
        NothingLeft(restIdx, slave, pos);
        restIdx := 0;
      }
    }

    /** `i2c_master_cmd_begin` resets the driver's state. */
    method Reset(cs: seq<Cmd>)
      requires regs.Length == REGISTERS
      modifies this
      ensures Waiting() && !done && rx == [] && Target() == 0 && Rest() == cs && NextIdx() == 0 && status == StIdle
      ensures unchanged(`pos, `bus, `mem)
    {
      list, status, cmdIdx, rxCnt, done := cs, StIdle, 0, 0, false;
      txRemain, rxRemain, tx, rx := FIFO_LEN, FIFO_LEN, [], [];
    }

    /** A transfer of any list that can be loaded: whatever the segmentation, memory receives
        exactly the bytes of the list in order, and the bus sees its trace with the STARTs that a
        READ leaves behind repeated; there is one interrupt for each FIFO of data and for a STOP.
        The task is told so if and only if there was a READ or WRITE or nothing at all; else it
        waits until it times out. */
    method Transfer(cs: seq<Cmd>) returns (r: Err, interrupts: nat)
      requires regs.Length == REGISTERS && Loadable(cs, 0)
      modifies this, regs
      ensures Ready()
      ensures bus == old(bus) + Replayed(cs, 0, slave, old(pos))
      ensures mem == old(mem) + Stores(cs, slave, old(pos))
      ensures interrupts == Segments(cs)
      ensures r == (if done then ESP_OK else ESP_ERR_TIMEOUT)
      ensures done <==> cs == [] || exists c :: c in cs && IsTransfer(c)
    {
      hide Loadable, Segment, Replayed, Resumed, Stores, StoredAt, SlaveBytes, Segments, IsTransfer;
      interrupts := 0;
      ghost var rest, idx := cs, 0;
      ResumedFromZero(cs, slave, pos);
      Reset(cs);
      StoredNothing(0);
      CmdBegin();
      var alive := !done;
      while alive
        invariant if alive then !done && Armed(rest, idx) else Ready() && rest == [] && idx == 0
        invariant alive ==> (status != StIdle <==> exists c :: c in cs && IsTransfer(c))
        invariant !alive ==> (done <==> cs == [] || exists c :: c in cs && IsTransfer(c))
        invariant bus + Resumed(rest, idx, slave, pos) == old(bus) + Replayed(cs, 0, slave, old(pos))
        invariant mem + Stores(rest, slave, pos) == old(mem) + Stores(cs, slave, old(pos))
        invariant interrupts + Segments(rest) == Segments(cs)
        decreases Segments(rest) + (if alive then 1 else 0)
      {
        alive, rest, idx := RunAndInterrupt(rest, idx);
        interrupts := interrupts + 1;
      }
      EmptyDenotesNothing(slave, pos);
      r := if done then ESP_OK else ESP_ERR_TIMEOUT;
    }
  }

  lemma NothingLeft(idx: nat, sl: Slave, pos: nat)
    ensures Resumed([], idx, sl, pos) == Resumed([], 0, sl, pos)
  {
  }
}
