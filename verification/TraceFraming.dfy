/** The headers that app_trace.c puts before user data make the bytes the host reads
    self-delimiting. */
module TraceFraming {
  import opened Arithmetic
  import opened LittleEndian
  import opened Options
  import opened RingBuffer
  import opened TraceBuffer
  import opened TraceSpec

  const CORE_SHIFT := 0x8000

  /** What a trace user on a core wrote. */
  datatype UserData = UserData(core: nat, data: seq<byte>) {
    predicate Valid() { core < 2 && |data| <= BLOCK - HEADER }
  }

  /** `block_sz`: the core in the top bit, the length below. */
  function SizeWord(u: UserData): (v: nat)
    requires u.Valid()
    ensures v < 0x1_0000
  {
    u.core * CORE_SHIFT + |u.data|
  }

  /** A block after `esp_apptrace_trax_put_buffer`: `wr_sz` has become `block_sz`. */
  function Put(u: UserData): (b: Block)
    requires u.Valid()
  {
    Le16Bytes(SizeWord(u)) + Le16Bytes(SizeWord(u)) + u.data
  }

  /** A block that has been allocated, and perhaps filled, but not put. */
  function Unfinished(u: UserData): (b: Block)
    requires u.Valid()
  {
    Le16Bytes(SizeWord(u)) + [0, 0] + u.data
  }

  /** The four bytes of the header: twice the length, low byte first, with the core in the top bit. */
  lemma HeaderBytes(u: UserData)
    requires u.Valid()
    ensures Put(u)[0] == Put(u)[2] == |u.data| % 0x100
    ensures Put(u)[1] == Put(u)[3] == |u.data| / 0x100 + 0x80 * u.core
    ensures Put(u)[4..] == u.data && Unfinished(u)[..2] == Put(u)[..2] && Unfinished(u)[2..4] == [0, 0]
  {}

  datatype Parsed = Parsed(user: UserData, written: nat, rest: seq<byte>)

  /** The host's reading of one block: header, then as many bytes as it announces. */
  function ParseOne(s: seq<byte>): Option<Parsed>
  {
    if |s| < HEADER then None
    else
      var size := Le16(s[0], s[1]) % CORE_SHIFT;
      if HEADER + size > |s| then None
      else Some(Parsed(UserData(Le16(s[0], s[1]) / CORE_SHIFT, s[HEADER..HEADER + size]),
                       Le16(s[2], s[3]) % CORE_SHIFT, s[HEADER + size..]))
  }

  function Parse(s: seq<byte>): Option<seq<UserData>>
    decreases |s|
  {
    if s == [] then Some([])
    else match ParseOne(s)
      case None => None
      case Some(p) =>
        match Parse(p.rest)
        case None => None
        case Some(us) => Some([p.user] + us)
  }

  predicate AllValid(us: seq<UserData>) { forall i | 0 <= i < |us| :: us[i].Valid() }

  function PutAll(us: seq<UserData>): (bs: seq<Block>)
    requires AllValid(us)
    ensures |bs| == |us| && forall i | 0 <= i < |us| :: bs[i] == Put(us[i])
  {
    seq(|us|, i requires 0 <= i < |us| => Put(us[i]))
  }

  lemma SizeWordParts(u: UserData)
    requires u.Valid()
    ensures SizeWord(u) % CORE_SHIFT == |u.data| && SizeWord(u) / CORE_SHIFT == u.core
  {}

  /** A put block parses back; an unfinished one shows as such unless it has no data. */
  lemma BlockParses(u: UserData, rest: seq<byte>)
    requires u.Valid()
    ensures ParseOne(Put(u) + rest) == Some(Parsed(u, |u.data|, rest))
    ensures ParseOne(Unfinished(u) + rest) == Some(Parsed(u, 0, rest))
  {
    SizeWordParts(u);
    var s, t := Put(u) + rest, Unfinished(u) + rest;
    assert s[..2] == Le16Bytes(SizeWord(u)) == s[2..4] && t[..2] == Le16Bytes(SizeWord(u)) && t[2..4] == [0, 0];
    assert s[HEADER..HEADER + |u.data|] == u.data == t[HEADER..HEADER + |u.data|];
    assert s[HEADER + |u.data|..] == rest == t[HEADER + |u.data|..];
  }

  /** The bytes of any sequence of put blocks parse back to what the users wrote. */
  lemma {:induction false} StreamParses(us: seq<UserData>)
    requires AllValid(us)
    ensures Parse(Bytes(PutAll(us))) == Some(us)
    decreases |us|
  {
    if us == [] {
    } else {
      assert PutAll(us)[1..] == PutAll(us[1..]);
      StreamParses(us[1..]);
      BlockParses(us[0], Bytes(PutAll(us[1..])));
      assert us == [us[0]] + us[1..];
    }
  }

  lemma PrefixParses(read: seq<Block>, later: seq<Block>, us: seq<UserData>)
    requires AllValid(us) && read + later == PutAll(us)
    ensures |read| <= |us| && Parse(Bytes(read)) == Some(us[..|read|])
  {
    assert |read| <= |us|;
    assert read == PutAll(us[..|read|]) by {
      forall i | 0 <= i < |read| ensures read[i] == PutAll(us[..|read|])[i] {
        assert (read + later)[i] == PutAll(us)[i];
      }
    }
    StreamParses(us[..|read|]);
  }

  /** Whatever the run, the host decodes from the bytes it has read the first user blocks that
      were granted, complete and in order. */
  lemma HostDecodesPrefix(pendSize: nat, slotCount: nat, downSize: nat, es: seq<Event>, us: seq<UserData>)
    requires pendSize + BLOCK < U32 && slotCount + 1 < U32
    requires AllFitEvents(es)
    requires AllValid(us)
    ensures var r := Run(Init(pendSize, slotCount, downSize), es);
            r.Some? && r.value.1 == PutAll(us) ==>
              |r.value.0.read| <= |us| && Parse(Bytes(r.value.0.read)) == Some(us[..|r.value.0.read|])
  {
    hide Run, Init, Parse, PutAll, State.Inv, AllValid, Bytes, FitEvent;
    RunFromInit(pendSize, slotCount, downSize, es);
    var r := Run(Init(pendSize, slotCount, downSize), es);
    if r.Some? && r.value.1 == PutAll(us) {
      var s := r.value.0;
      var later := s.exposed + s.cur + s.Pending();
      assert s.read + s.exposed + s.cur + s.Pending() == s.read + later;
      PrefixParses(s.read, later, us);
    }
  }

  /** The same in memory: after any run of a fresh transport, the bytes the host has copied out
      of the two trace memory blocks decode to the first user blocks that were granted. */
  method HostDecodesMemory(pendSize: nat, slotCount: nat, downSize: nat, es: seq<Event>, ghost us: seq<UserData>)
    returns (t: Trax, ok: bool, granted: seq<Block>)
    requires pendSize + BLOCK < U32 && slotCount + 1 < U32 && downSize + BLOCK < U32
    requires AllFitEvents(es)
    requires AllValid(us)
    ensures ok <==> Run(Init(pendSize, slotCount, downSize), es).Some?
    ensures ok ==> t.Valid() && (t.g, granted) == Run(Init(pendSize, slotCount, downSize), es).value
    ensures ok && granted == PutAll(us) ==> exists k | 0 <= k <= |us| :: Parse(t.heard) == Some(us[..k])
  {
    hide Run, Init, Parse, PutAll, State.Inv, AllValid, Bytes, FitEvent;
    var pend := new Ring<byte>(pendSize);
    var slots := new Ring<nat>(slotCount);
    var down := new Ring<byte>(downSize);
    t := new Trax(pend, slots, down);
    ok, granted := t.RunEvents(es);
    HostDecodesPrefix(pendSize, slotCount, downSize, es, us);
    if ok {
      t.HeardIsRead();
    }
  }
}
