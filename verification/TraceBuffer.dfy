/** The trace transport itself: two trace memory blocks, the control register shared with
    the host, and three rings. Every method is proved to do what `TraceSpec` says. */
module TraceBuffer {
  import opened Arithmetic
  import opened LittleEndian
  import opened Options
  import opened RingBuffer
  import opened Sequences
  import opened TraceSpec

  /** The bytes an abstract state stands for, part by part. */
  datatype Image = Image(
    read: seq<byte>, exposed: seq<byte>, cur: seq<byte>, pending: seq<byte>, sizes: seq<nat>, open: nat,
    pend: Layout, slots: Layout, msg: seq<byte>, down: seq<byte>)
  {
    function NextSize(): nat { if sizes != [] then sizes[0] else open }

    ghost predicate Fits() {
      && pend.Valid() && pend.size + BLOCK < U32 && slots.Valid() && slots.size + 1 < U32
      && |exposed| <= BLOCK && |cur| <= BLOCK && NextSize() <= BLOCK && |msg| + 2 <= BLOCK
      && NextSize() <= |pending|
    }
  }

  ghost function Sizes(cs: seq<seq<Block>>): seq<nat>
  {
    seq(|cs|, i requires 0 <= i < |cs| => |Bytes(cs[i])|)
  }

  ghost function ImageOf(s: State): (i: Image)
    requires s.Inv()
    ensures i.Fits()
  {
    NextChunkLeads(s);
    Image(Bytes(s.read), Bytes(s.exposed), Bytes(s.cur), Bytes(s.Pending()), Sizes(s.chunks), |Bytes(s.open)|,
          s.pend, s.slots, s.msg, s.down)
  }

  ghost function PopSize(i: Image): Image
    requires i.slots.Valid()
  {
    if i.sizes != [] then i.(sizes := i.sizes[1..], slots := Consume(i.slots, 1).1) else i.(open := 0)
  }

  ghost function SwitchImage(i: Image, downSize: nat): Image
    requires i.Fits()
  {
    var n := i.NextSize();
    PopSize(i).(
      read := i.read, exposed := i.cur, cur := i.pending[..n], pending := i.pending[n..], pend := Drain(i.pend, n),
      msg := [], down := i.down + i.msg[..DownRoom(downSize, |i.down|, |i.msg|)])
  }

  lemma InitImage(pendSize: nat, slotCount: nat, downSize: nat)
    requires pendSize + BLOCK < U32 && slotCount + 1 < U32
    ensures Init(pendSize, slotCount, downSize).downSize == downSize
    ensures ImageOf(Init(pendSize, slotCount, downSize))
         == Image([], [], [], [], [], 0, InitLayout(pendSize), InitLayout(slotCount), [], [])
  {
  }

  lemma SwitchImageIsImage(s: State)
    requires s.Inv() && s.exposed == []
    ensures Switched(s).Inv() && Switched(s).downSize == s.downSize && ImageOf(Switched(s)) == SwitchImage(ImageOf(s), s.downSize)
  {
    SwitchedInv(s);
    SwitchedStream(s);
    NextChunkLeads(s);
    if s.chunks != [] {
      assert Sizes(s.chunks[1..]) == Sizes(s.chunks)[1..];
    }
  }

  lemma HostAckImage(s: State, msg: seq<byte>)
    requires s.Inv() && |msg| + 2 <= BLOCK
    ensures s.exposed == [] ==> HostAck(s, msg) == s
    ensures s.exposed != [] ==>
              ImageOf(HostAck(s, msg)) == ImageOf(s).(read := Bytes(s.read) + Bytes(s.exposed), exposed := [], msg := msg)
    ensures HostAck(s, msg).downSize == s.downSize
  {
    BytesOfSum(s.read, s.exposed);
    assert HostAck(s, msg).Pending() == s.Pending();
  }

  lemma AddDirectImage(s: State, b: Block)
    requires s.Inv() && s.Pending() == [] && |Bytes(s.cur)| + |b| <= BLOCK
    ensures ImageOf(AddDirect(s, b)) == ImageOf(s).(cur := Bytes(s.cur) + b)
    ensures AddDirect(s, b).downSize == s.downSize
  {
    BytesOfSum(s.cur, [b]);
    BytesOfOne(b);
  }

  /** The bytes of `b` go to the end of the pending ring. */
  ghost function PendImage(i: Image, b: Block): Image
    requires i.pend.Valid() && |b| < U32
  {
    i.(pend := Produce(i.pend, |b|).1, pending := i.pending + b)
  }

  lemma PendInOpenImage(s: State, b: Block)
    requires s.Inv() && s.cur != [] && !OpensNewChunk(s, b) && Produce(s.pend, |b|).0.Some?
    ensures ImageOf(PendInOpen(s, b)) == PendImage(ImageOf(s), b).(open := |Bytes(s.open)| + |b|)
    ensures PendInOpen(s, b).downSize == s.downSize
  {
    BytesOfOne(b);
    BytesOfSum(s.open, [b]);
    BytesOfSum(s.Pending(), [b]);
    assert PendInOpen(s, b).Pending() == s.Pending() + [b];
  }

  lemma PendInNewChunkImage(s: State, b: Block)
    requires s.Inv() && s.cur != [] && OpensNewChunk(s, b) && Produce(s.pend, |b|).0.Some?
    requires Produce(s.slots, 1).0.Some?
    ensures ImageOf(PendInNewChunk(s, b)) == PendImage(ImageOf(s), b).(
              slots := Produce(s.slots, 1).1, sizes := Sizes(s.chunks) + [|Bytes(s.open)|], open := |b|)
    ensures PendInNewChunk(s, b).downSize == s.downSize
  {
    BytesOfOne(b);
    BytesOfSum(s.Pending(), [b]);
    ConcatSnoc(s.chunks, s.open);
    assert PendInNewChunk(s, b).Pending() == s.Pending() + [b];
    assert Sizes(s.chunks + [s.open]) == Sizes(s.chunks) + [|Bytes(s.open)|];
  }

  /** Allocation in the pending ring with chunk accounting, on the image. */
  ghost function AddPendingImage(i: Image, b: Block): (Outcome, Image)
    requires i.Fits()
  {
    if Produce(i.pend, |b|).0.None? then (NoMem, i)
    else if i.open + |b| <= BLOCK then (Got, PendImage(i, b).(open := i.open + |b|))
    else if Produce(i.slots, 1).0.None? then (SlotAssert, i)
    else (Got, PendImage(i, b).(slots := Produce(i.slots, 1).1, sizes := i.sizes + [i.open], open := |b|))
  }

  lemma AddPendingIsImage(s: State, b: Block)
    requires s.Inv() && s.cur != []
    ensures var (o, i) := AddPendingImage(ImageOf(s), b);
            && o == AddPending(s, b).0
            && (o == NoMem ==> i == ImageOf(s))
            && (o == Got ==> i == ImageOf(AddPending(s, b).1) && AddPending(s, b).1.downSize == s.downSize)
  {
    hide State.Pending, Bytes, Sizes, Produce, PendInOpen, PendInNewChunk, PendImage, InitLayout;
    if Produce(s.pend, |b|).0.Some? {
      if !OpensNewChunk(s, b) {
        PendInOpenImage(s, b);
      } else if Produce(s.slots, 1).0.Some? {
        PendInNewChunkImage(s, b);
      }
    }
  }

  lemma MovePiece<T>(a: seq<T>, q: seq<T>, k: nat)
    requires k <= |q|
    ensures (a + q[..k]) + q[k..] == a + q
  {
  }

  lemma DrainStep(l: Layout, n: nat, piece: nat)
    requires l.Valid() && l.size + n < U32 && piece == Min(l.ReadSize(), n) > 0
    ensures Consume(l, piece).1.Valid() && Consume(l, piece).1.size == l.size
    ensures Drain(l, n) == Drain(Consume(l, piece).1, n - piece)
  {
  }

  lemma DrainNothing(l: Layout)
    requires l.Valid()
    ensures Drain(l, 0) == l
  {
  }

  /** Which of the two blocks the input block ID denotes. */
  function Parity(n: nat): (r: nat)
    ensures r < 2
  {
    n % 2
  }

  /** The 7-bit block ID of the control register. */
  function BlockId(n: nat): nat { n % 0x80 }

  lemma NextParity(n: nat)
    requires n < U32
    ensures Add32(n, 1) < U32 && Parity(Add32(n, 1)) == 1 - Parity(n)
  {
  }

  /** One piece of the copy loop: `n` readable bytes of the ring go to offset `marker`. */
  method CopyPiece(pend: Ring<byte>, b: array<byte>, marker: nat, n: nat)
    requires b != pend.data && pend.Valid() && pend.data.Length + n < U32
    requires n <= pend.L().ReadSize() && marker + n <= b.Length
    modifies b, pend
    ensures pend.Valid() && pend.L() == Consume(old(pend.L()), n).1
    ensures n <= |old(pend.Queue())| && pend.Queue() == old(pend.Queue())[n..]
    ensures b[..marker + n] == old(b[..marker]) + old(pend.Queue())[..n]
  {
    var r := pend.Take(n);
    assert r.Some?;
    CopyIn(b, marker, r.value);
  }

  /** One round of the copy loop: what is readable in one piece, as far as it is wanted. */
  method CopyRound(pend: Ring<byte>, b: array<byte>, marker: nat, n: nat) returns (next: nat)
    requires b != pend.data && marker < n <= b.Length
    requires pend.Valid() && pend.data.Length + n < U32
    modifies b, pend
    ensures marker <= next <= n && pend.Valid()
    ensures b[..next] + pend.Queue() == old(b[..marker] + pend.Queue())
    ensures Drain(pend.L(), n - next) == Drain(old(pend.L()), n - marker)
    ensures next == marker ==> old(pend.Queue()) == []
  {
    hide Contents, Consume, Drain, Layout.Valid, Layout.ReadSize, Ring.Queue;
    pend.Readable();
    var readSz := pend.L().ReadSize();
    if readSz == 0 {
      return marker;
    }
    if readSz > n - marker {
      readSz := n - marker;
    }
    DrainStep(pend.L(), n - marker, readSz);
    MovePiece(b[..marker], pend.Queue(), readSz);
    CopyPiece(pend, b, marker, readSz);
    next := marker + readSz;
  }

  /** Copy `n` pending bytes into the new input block, one contiguous piece of the ring at
      a time. */
  method CopyPending(pend: Ring<byte>, b: array<byte>, n: nat) returns (marker: nat)
    requires b != pend.data && n <= b.Length
    requires pend.Valid() && pend.data.Length + n < U32 && n <= |pend.Queue()|
    modifies b, pend
    ensures marker == n && b[..n] == old(pend.Queue())[..n]
    ensures pend.Valid() && pend.Queue() == old(pend.Queue())[n..]
    ensures pend.L() == Drain(old(pend.L()), n)
  {
    hide Contents, Consume, Drain, Layout.Valid, Layout.ReadSize, Ring.Queue;
    marker := 0;
    ghost var q := pend.Queue();
    while marker < n
      invariant marker <= n && pend.Valid()
      invariant b[..marker] + pend.Queue() == q
      invariant Drain(pend.L(), n - marker) == Drain(old(pend.L()), n)
    {
      ghost var left := |pend.Queue()|;
      var next := CopyRound(pend, b, marker, n);
      assert left > 0;
      if next == marker {
        break;
      }
      marker := next;
    }
    DrainNothing(pend.L());
    CutAt(b[..marker], pend.Queue());
    assert q == b[..marker] + pend.Queue();
  }

  lemma CutAt<T>(a: seq<T>, c: seq<T>)
    ensures (a + c)[..|a|] == a && (a + c)[|a|..] == c
  {}

  /** The host has left `msg` in block `b`, behind its 16-bit length. */
  ghost predicate Parked(b: array<byte>, msg: seq<byte>)
    reads b
  {
    |msg| + 2 <= b.Length && 2 <= b.Length && |msg| == Le16(b[0], b[1]) && b[2..2 + |msg|] == msg
  }

  /** The host writes a message to the start of block `b`. */
  method Park(b: array<byte>, msg: seq<byte>)
    requires |msg| + 2 <= b.Length && |msg| < 0x1_0000
    modifies b
    ensures Parked(b, msg)
  {
    CopyIn(b, 0, [|msg| % 256, |msg| / 256] + msg);
    assert b[..2 + |msg|] == [|msg| % 256, |msg| / 256] + msg;
  }

  /** The data the host parked in the block that has just become the input block. */
  method ReceiveFromHost(down: Ring<byte>, b: array<byte>, ghost msg: seq<byte>)
    requires b != down.data && down.Valid() && down.cur == down.data.Length
    requires Parked(b, msg) && down.data.Length + |msg| < U32
    modifies b, down, down.data
    ensures down.Valid() && down.cur == down.data.Length
    ensures down.Queue() == old(down.Queue()) + msg[..DownRoom(down.data.Length, |old(down.Queue())|, |msg|)]
  {
    var n := Le16(b[0], b[1]);
    if n > 0 {
      var sz := DownBufferWrite(down, b[2..2 + n]);
      b[0], b[1] := 0, 0;
    }
  }

  class Trax {
    const blk0: array<byte>
    const blk1: array<byte>
    const pend: Ring<byte>
    const slots: Ring<nat>
    const down: Ring<byte>
    var inBlock: nat
    var marker0: nat
    var marker1: nat
    var curPending: nat
    // control register: 15-bit length, 7-bit block ID, "host data present"
    var ctrlLen: nat
    var ctrlId: nat
    var hostData: bool

    ghost var g: State
    ghost var img: Image
    // all bytes the host has read
    ghost var heard: seq<byte>

    function Blk(i: nat): array<byte> { if i == 0 then blk0 else blk1 }

    function Marker(i: nat): nat
      reads this
    {
      if i == 0 then marker0 else marker1
    }

    method SetMarker(i: nat, v: nat)
      requires i < 2
      modifies this`marker0, this`marker1
      ensures Marker(i) == v && Marker(1 - i) == old(Marker(1 - i))
    {
      if i == 0 { marker0 := v; } else { marker1 := v; }
    }

    ghost predicate Shape() {
      && blk0.Length == blk1.Length == BLOCK && blk0 != blk1
      && pend != down && pend.data != down.data
      && blk0 != pend.data && blk0 != down.data && blk0 as object != slots.data
      && blk1 != pend.data && blk1 != down.data && blk1 as object != slots.data
      && slots.data as object != pend.data && slots.data as object != down.data
    }

    /** The three rings and the open chunk's size are as `i` says. */
    ghost predicate RingsAre(i: Image)
      reads this`curPending, pend, pend.data, slots, slots.data, down, down.data
    {
      && pend.Valid() && pend.L() == i.pend && pend.Queue() == i.pending
      && slots.Valid() && slots.L() == i.slots && slots.Queue() == i.sizes
      && curPending == i.open
      && down.Valid() && down.cur == down.data.Length && down.Queue() == i.down
      && down.data.Length + BLOCK < U32 && pend.data.Length + BLOCK < U32 && slots.data.Length + 1 < U32
    }

    /** The memory and the registers hold the bytes of `img`: the input block up to its
        marker, the other block up to the length the host sees, the rings; the rest the host
        has heard. */
    ghost predicate Holds()
      reads this, blk0, blk1, pend, pend.data, slots, slots.data, down, down.data
    {
      && Shape() && img.Fits() && inBlock < U32 && RingsAre(img) && heard == img.read
      && Marker(Parity(inBlock)) == |img.cur| && Blk(Parity(inBlock))[..|img.cur|] == img.cur
      && ctrlId == BlockId(inBlock) && ctrlLen == |img.exposed|
      && Blk(1 - Parity(inBlock))[..ctrlLen] == img.exposed
      && (img.msg != [] ==> hostData)
      && (hostData ==> ctrlLen == 0 && Parked(Blk(1 - Parity(inBlock)), img.msg))
    }

    ghost predicate Valid()
      reads this, blk0, blk1, pend, pend.data, slots, slots.data, down, down.data
    {
      && g.Inv() && img == ImageOf(g) && down.data.Length == g.downSize
      && Holds()
    }

    /** `esp_apptrace_trax_dest_init`, over rings that are empty and freshly initialised. */
    constructor (pend: Ring<byte>, slots: Ring<nat>, down: Ring<byte>)
      requires pend != down && pend.data != down.data
      requires slots.data as object != pend.data && slots.data as object != down.data
      requires pend.Valid() && slots.Valid() && down.Valid()
      requires pend.L() == InitLayout(pend.data.Length) && pend.data.Length + BLOCK < U32
      requires slots.L() == InitLayout(slots.data.Length) && slots.data.Length + 1 < U32
      requires down.L() == InitLayout(down.data.Length) && down.data.Length + BLOCK < U32
      ensures Valid() && g == Init(pend.data.Length, slots.data.Length, down.data.Length)
      ensures this.pend == pend && this.slots == slots && this.down == down && fresh(blk0) && fresh(blk1)
    {
      InitImage(pend.data.Length, slots.data.Length, down.data.Length);
      blk0 := new byte[BLOCK];
      blk1 := new byte[BLOCK];
      this.pend, this.slots, this.down := pend, slots, down;
      inBlock, marker0, marker1, curPending := 0, 0, 0, 0;
      ctrlLen, ctrlId, hostData := 0, 0, false;
      heard := [];
      g := Init(pend.data.Length, slots.data.Length, down.data.Length);
      img := ImageOf(Init(pend.data.Length, slots.data.Length, down.data.Length));
      new;
      assert RingsAre(img);
    }

    /** `esp_apptrace_trax_pend_chunk_sz_get`. */
    method ChunkGet() returns (n: nat)
      requires img.Fits() && slots.Valid() && slots.L() == img.slots && slots.Queue() == img.sizes
      requires curPending == img.open
      modifies slots, this`curPending
      ensures n == img.NextSize()
      ensures slots.Valid() && slots.L() == PopSize(img).slots && slots.Queue() == PopSize(img).sizes
      ensures curPending == PopSize(img).open
    {
      slots.Readable();
      var r := slots.Take(1);
      if r.None? {
        n := curPending;
        curPending := 0;
      } else {
        n := r.value[0];
      }
    }

    /** `esp_apptrace_trax_block_switch`. */
    method BlockSwitch() returns (ok: bool)
      requires Valid()
      modifies this, blk0, blk1, pend, pend.data, slots, slots.data, down, down.data
      ensures Valid()
      ensures ok <==> Switch(old(g)).Some?
      ensures g == if ok then Switch(old(g)).value else old(g)
    {
      hide Contents, Consume, Produce, Drain, DownRoom, Switched, SwitchImage, Layout.Valid, Ring.Valid, Ring.Queue, State.Inv;
      EmptyIffNoBytes(g.exposed);
      if ctrlLen != 0 || ctrlId != BlockId(inBlock) {
        return false;
      }
      SwitchImageIsImage(g);
      DoSwitch();
      g := Switched(g);
      ok := true;
    }

    method DoSwitch()
      requires Holds() && ctrlLen == 0 && SwitchImage(img, down.data.Length).Fits()
      modifies this, blk0, blk1, pend, pend.data, slots, slots.data, down, down.data
      ensures Holds() && g == old(g) && img == SwitchImage(old(img), down.data.Length)
    {
      hide DownRoom, Drain, Add32, Layout.Valid, PopSize, Image.NextSize, Parked, Trax.RingsAre, Parity, BlockId;
      NextParity(inBlock);
      var prev := Parity(inBlock);
      var next := 1 - prev;
      SetMarker(next, 0);
      inBlock := Add32(inBlock, 1);
      var m := FillNext(Blk(next));
      Expose(prev, m);
    }

    /** Publish the filled block `prev`; the other one, holding `m` bytes, takes its place. */
    method Expose(prev: nat, m: nat)
      requires prev < 2 && inBlock < U32 && Parity(inBlock) == 1 - prev
      requires Shape() && img.Fits() && SwitchImage(img, down.data.Length).Fits()
      requires RingsAre(SwitchImage(img, down.data.Length))
      requires Marker(prev) == |img.cur| && Blk(prev)[..|img.cur|] == img.cur && heard == img.read
      requires m == img.NextSize() && Blk(1 - prev)[..m] == img.pending[..m]
      modifies this`marker0, this`marker1, this`ctrlId, this`ctrlLen, this`hostData, this`img
      ensures Holds() && img == SwitchImage(old(img), down.data.Length)
    {
      hide DownRoom, Drain, Layout.Valid, PopSize, Parked, Trax.RingsAre, Parity, BlockId;
      SetMarker(1 - prev, m);
      ctrlId, ctrlLen, hostData := BlockId(inBlock), Marker(prev) % 0x8000, false;
      img := SwitchImage(img, down.data.Length);
    }

    /** Data the host left in the new input block goes to the down buffer. */
    method TakeMessage(b: array<byte>)
      requires b != down.data && down.Valid() && down.cur == down.data.Length
      requires down.data.Length + BLOCK < U32 && |img.msg| <= BLOCK
      requires if hostData then Parked(b, img.msg) else img.msg == []
      modifies b, down, down.data
      ensures down.Valid() && down.cur == down.data.Length
      ensures down.Queue() == old(down.Queue()) + img.msg[..DownRoom(down.data.Length, |old(down.Queue())|, |img.msg|)]
    {
      hide Contents, DownRoom, Layout.Valid, Ring.Valid, Ring.Queue, Ring.L, Parked, Le16;
      if hostData {
        ReceiveFromHost(down, b, img.msg);
      }
    }

    /** What goes into the new input block `b`: host data out, one pending chunk in. */
    method FillNext(b: array<byte>) returns (m: nat)
      requires Shape() && img.Fits() && (b == blk0 || b == blk1) && RingsAre(img)
      requires if hostData then Parked(b, img.msg) else img.msg == []
      modifies b, pend, slots, down, down.data, this`curPending
      ensures m == img.NextSize() && b[..m] == img.pending[..m]
      ensures RingsAre(SwitchImage(img, down.data.Length))
    {
      hide Contents, Consume, Produce, Drain, DownRoom, Add32, Layout.Valid, Ring.Valid, Ring.Queue, Ring.L, Parked;
      TakeMessage(b);
      m := ChunkGet();
      m := CopyPending(pend, b, m);
    }

    /** The host reads the exposed block, may park a message in it, and clears the length. */
    method HostReads(msg: seq<byte>) returns (bytes: seq<byte>)
      requires Valid() && |msg| + 2 <= BLOCK
      modifies this, blk0, blk1
      ensures Valid() && g == HostAck(old(g), msg)
      ensures bytes == Bytes(old(g).exposed)
    {
      hide Contents, Layout.Valid, Ring.Valid, Ring.Queue, NextChunk, Concat, Sizes, HostAck, State.Inv, State.Pending, State.Stream, Parked, Bytes;
      EmptyIffNoBytes(g.exposed);
      HostAckImage(g, msg);
      var b := Blk(1 - Parity(inBlock));
      bytes := b[..ctrlLen];
      heard := heard + bytes;
      if ctrlLen != 0 {
        if msg != [] {
          Park(b, msg);
          hostData := true;
        }
        ctrlLen := 0;
        g := HostAck(g, msg);
        img := img.(read := img.read + bytes, exposed := [], msg := msg);
      }
    }

    method HostActs(m: HostMove)
      requires Valid() && m.Fits()
      modifies this, blk0, blk1
      ensures Valid() && g == HostStep(old(g), m)
    {
      match m
      case Busy =>
      case Ack(msg) => var bytes := HostReads(msg);
    }

    /** `esp_apptrace_trax_block_switch_waitus`. */
    method BlockSwitchWait(env: seq<HostMove>) returns (ok: bool, rest: seq<HostMove>)
      requires Valid() && AllFit(env)
      modifies this, blk0, blk1, pend, pend.data, slots, slots.data, down, down.data
      ensures Valid() && (ok, g, rest) == WaitSwitch(old(g), env)
    {
      hide Contents, Layout.Valid, Switch, State.Inv, HostStep, Trax.Holds, Ring.Valid, Ring.Queue;
      rest := env;
      ok := BlockSwitch();
      while !ok && rest != []
        invariant Valid() && AllFit(rest)
        invariant WaitSwitch(old(g), env) == if ok then (true, g, rest) else WaitSwitch(g, rest)
        invariant !ok ==> Switch(g).None?
        decreases |rest|
      {
        HostActs(rest[0]);
        rest := rest[1..];
        ok := BlockSwitch();
      }
    }

    /** A buffer in the current block: room is taken at the marker and filled. */
    method PutDirect(b: Block)
      requires Valid() && g.Pending() == [] && |Bytes(g.cur)| + |b| <= BLOCK
      modifies this, blk0, blk1
      ensures Valid() && g == AddDirect(old(g), b)
    {
      hide Contents, Layout.Valid, Ring.Valid, Ring.Queue, State.Inv, NextChunk, AddDirect, State.Pending, Trax.Holds;
      AddDirectImage(g, b);
      FillDirect(b, AddDirect(g, b));
    }

    /** The bytes of that buffer; `next` is the state they make. */
    method FillDirect(b: Block, ghost next: State)
      requires Holds() && |img.cur| + |b| <= BLOCK
      modifies this`marker0, this`marker1, this`img, this`g, blk0, blk1
      ensures Holds() && img == old(img).(cur := old(img.cur) + b) && g == next
    {
      hide Contents, Layout.Valid, Ring.Valid, Ring.Queue;
      var i := Parity(inBlock);
      CopyIn(Blk(i), Marker(i), b);
      SetMarker(i, Marker(i) + |b|);
      img := img.(cur := img.cur + b);
      g := next;
    }

    /** A buffer in the pending ring, with the accounting of
        `esp_apptrace_trax_pend_chunk_sz_update`; `SlotAssert` is its failed assertion. */
    method PutPending(b: Block) returns (o: Outcome)
      requires Valid() && g.cur != []
      modifies this, pend, pend.data, slots, slots.data
      ensures o == AddPending(old(g), b).0
      ensures o != SlotAssert ==> Valid() && g == AddPending(old(g), b).1
    {
      hide Contents, Layout.Valid, Ring.Valid, Ring.Queue, State.Inv, AddPendingImage, Trax.Holds;
      AddPendingIsImage(g, b);
      o := FillPending(b, AddPending(g, b).1);
    }

    method FillPending(b: Block, ghost next: State) returns (o: Outcome)
      requires Holds() && (AddPendingImage(img, b).0 == Got ==> AddPendingImage(img, b).1.Fits())
      modifies this`img, this`g, this`curPending, pend, pend.data, slots, slots.data
      ensures o == AddPendingImage(old(img), b).0
      ensures o != SlotAssert ==>
                Holds() && img == AddPendingImage(old(img), b).1 && g == if o == Got then next else old(g)
    {
      hide Contents, Layout.Valid, Ring.Valid, Ring.Queue, Parked, Produce, Add32, Image.NextSize, InitLayout;
      ghost var i := AddPendingImage(img, b).1;
      var ok := pend.Append(b);
      if !ok {
        return NoMem;
      }
      var counted := ChunkUpdate(|b|);
      if !counted {
        return SlotAssert;
      }
      img, g := i, next;
      o := Got;
    }

    /** `esp_apptrace_trax_pend_chunk_sz_update`: the result is false when the assertion on
        a free slot fails. */
    method ChunkUpdate(n: nat) returns (ok: bool)
      requires slots.Valid() && slots.data.Length + 1 < U32
      modifies slots, slots.data, this`curPending
      ensures old(curPending) + n <= BLOCK ==>
                && ok && curPending == old(curPending) + n
                && slots.Valid() && slots.L() == old(slots.L()) && slots.Queue() == old(slots.Queue())
      ensures old(curPending) + n > BLOCK ==>
                && (ok <==> Produce(old(slots.L()), 1).0.Some?)
                && (ok ==>
                      && curPending == n
                      && slots.Valid() && slots.L() == Produce(old(slots.L()), 1).1
                      && slots.Queue() == old(slots.Queue()) + [old(curPending)])
    {
      if curPending + n <= BLOCK {
        curPending := curPending + n;
        ok := true;
      } else {
        ok := slots.Append([curPending]);
        if ok {
          curPending := n;
        }
      }
    }

    /** Something is pending: what the emptiness test of the pending ring finds out. */
    lemma PendingSeen()
      requires Valid()
      ensures pend.rd <= pend.wr || pend.rd <= pend.cur
      ensures pend.L() == g.pend && Marker(Parity(inBlock)) == |Bytes(g.cur)|
      ensures pend.L().ReadSize() == 0 <==> g.Pending() == []
    {
      pend.Readable();
      EmptyIffNoBytes(g.Pending());
    }

    /** `esp_apptrace_trax_wait4buf` with the bookkeeping of its callers. */
    method WaitForBuffer(b: Block, env: seq<HostMove>) returns (o: Outcome)
      requires Valid() && AllFit(env)
      modifies this, blk0, blk1, pend, pend.data, slots, slots.data, down, down.data
      ensures o == WaitForBuf(old(g), b, env).0
      ensures o != SlotAssert ==> Valid() && g == WaitForBuf(old(g), b, env).1
    {
      hide Contents, Layout.Valid, Ring.Valid, Ring.Queue, State.Inv, Trax.Holds, WaitSwitch, AddPending, AddDirect, Produce;
      var ok, rest := BlockSwitchWait(env);
      if !ok {
        return NoMem;
      }
      PendingSeen();
      EmptyIffNoBytes(g.cur);
      if pend.L().ReadSize() > 0 {
        o := PutPending(b);
      } else if Marker(Parity(inBlock)) + |b| > BLOCK {
        o := PutPending(b);
      } else {
        PutDirect(b);
        o := Got;
      }
    }

    /** The pending ring if it has room, else wait for the host. */
    method PendOrWait(b: Block, env: seq<HostMove>) returns (o: Outcome)
      requires Valid() && AllFit(env) && g.cur != []
      modifies this, blk0, blk1, pend, pend.data, slots, slots.data, down, down.data
      ensures o == PendingOrWait(old(g), b, env).0
      ensures o != SlotAssert ==> Valid() && g == PendingOrWait(old(g), b, env).1
    {
      hide Contents, Layout.Valid, Ring.Valid, Ring.Queue, State.Inv, Trax.Holds, WaitForBuf, AddPending, AddDirect, Produce;
      o := PutPending(b);
      if o == NoMem {
        o := WaitForBuffer(b, env);
      }
    }

    /** `esp_apptrace_trax_get_buffer`, the user filling the buffer and putting it back. */
    method Write(b: Block, env: seq<HostMove>) returns (o: Outcome)
      requires Valid() && AllFit(env)
      modifies this, blk0, blk1, pend, pend.data, slots, slots.data, down, down.data
      ensures o == GetBuffer(old(g), b, env).0
      ensures o != SlotAssert ==> Valid() && g == GetBuffer(old(g), b, env).1
    {
      hide Contents, Layout.Valid, Ring.Valid, Ring.Queue, State.Inv, Trax.Holds, Switch, PendingOrWait, AddDirect, Produce;
      PendingSeen();
      if pend.L().ReadSize() > 0 {
        var switched := BlockSwitch();
      }
      assert g == TrySwitch(old(g));
      PendingSeen();
      EmptyIffNoBytes(g.cur);
      if pend.L().ReadSize() > 0 {
        o := PendOrWait(b, env);
      } else if Marker(Parity(inBlock)) + |b| > BLOCK {
        o := PendOrWait(b, env);
      } else {
        PutDirect(b);
        o := Got;
      }
    }

    /** `esp_apptrace_trax_flush`; it terminates because every switch lowers the load. */
    method FlushBlocks(minSz: nat, env: seq<HostMove>) returns (ok: bool)
      requires Valid() && AllFit(env)
      modifies this, blk0, blk1, pend, pend.data, slots, slots.data, down, down.data
      ensures Valid() && (ok, g) == Flush(old(g), minSz, env)
    {
      hide Contents, Layout.Valid, Ring.Valid, Ring.Queue, State.Inv, Trax.Holds, WaitSwitch, Produce, Load;
      PendingSeen();
      if Marker(Parity(inBlock)) < minSz {
        return true;
      }
      var rest := env;
      ok := true;
      while Marker(Parity(inBlock)) > 0
        invariant Valid() && AllFit(rest) && ok
        invariant FlushLoop(g, rest) == FlushLoop(old(g), env)
        decreases Load(g)
      {
        PendingSeen();
        EmptyIffNoBytes(g.cur);
        ok, rest := BlockSwitchWait(rest);
        if !ok {
          return;
        }
      }
      PendingSeen();
    }

    lemma DownIsQueue()
      requires Valid()
      ensures down.Valid() && down.Queue() == g.down
    {}

    lemma HeardIsRead()
      requires Valid()
      ensures heard == Bytes(g.read)
    {}

    /** One event; the result is false if the slot assertion stops the system. */
    method Happens(e: Event) returns (ok: bool, got: bool)
      requires Valid() && FitEvent(e)
      modifies this, blk0, blk1, pend, pend.data, slots, slots.data, down, down.data
      ensures ok <==> Step(old(g), e).Some?
      ensures ok ==> Valid() && (g, got) == Step(old(g), e).value
    {
      hide Trax.Valid, State.Inv, GetBuffer, Flush, WaitSwitch, HostStep;
      ok, got := true, false;
      match e
      case Get(b, env) =>
        var o := Write(b, env);
        ok, got := o != SlotAssert, o == Got;
      case DoFlush(minSz, env) => var flushed := FlushBlocks(minSz, env);
      case Force(env) => var switched, rest := BlockSwitchWait(env);
      case Host(m) => HostActs(m);
    }

    /** A whole run in memory is the run of the protocol, and grants the same blocks. */
    method RunEvents(es: seq<Event>) returns (ok: bool, granted: seq<Block>)
      requires Valid() && AllFitEvents(es)
      modifies this, blk0, blk1, pend, pend.data, slots, slots.data, down, down.data
      ensures ok <==> Run(old(g), es).Some?
      ensures ok ==> Valid() && (g, granted) == Run(old(g), es).value
    {
      hide Trax.Holds, State.Inv, Step, FitEvent, State.Stream;
      granted := [];
      assert es[0..] == es;
      GrantedNone(Run(g, es));
      for i := 0 to |es|
        invariant Valid()
        invariant Run(old(g), es) == Resumed(granted, Run(g, es[i..]))
      {
        assert es[i..][0] == es[i] && es[i..][1..] == es[i + 1..];
        var got;
        ghost var s := g;
        ok, got := Happens(es[i]);
        if !ok {
          return;
        }
        RunSteps(s, es[i..]);
        Grouped(granted, Granted(es[i], got), Run(g, es[i + 1..]));
        granted := granted + Granted(es[i], got);
      }
      ok := true;
      assert granted + [] == granted;
    }
  }

  /** A run behind one that granted `before`. */
  ghost function Resumed(before: seq<Block>, q: Option<(State, seq<Block>)>): Option<(State, seq<Block>)>
  {
    match q
    case None => None
    case Some(r) => Some((r.0, before + r.1))
  }

  lemma RunSteps(s: State, es: seq<Event>)
    requires s.Inv() && es != [] && AllFitEvents(es) && Step(s, es[0]).Some?
    ensures var (t, got) := Step(s, es[0]).value;
            t.Inv() && Run(s, es) == Resumed(Granted(es[0], got), Run(t, es[1..]))
  {
    StepKeeps(s, es[0]);
  }

  lemma GrantedNone(q: Option<(State, seq<Block>)>)
    ensures Resumed([], q) == q
  {
    if q.Some? {
      assert [] + q.value.1 == q.value.1;
    }
  }

  lemma Grouped(a: seq<Block>, b: seq<Block>, q: Option<(State, seq<Block>)>)
    ensures Resumed(a, Resumed(b, q)) == Resumed(a + b, q)
  {
    if q.Some? {
      assert a + (b + q.value.1) == a + b + q.value.1;
    }
  }
}
