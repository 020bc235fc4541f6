/** The OTA selection data (esp_ota_ops.c): two flash sectors, each holding a sequence number
    with its CRC, decide which partition boots. Rewriting one of them must survive a power
    loss at any byte. */
module OtaSelect {
  import opened Arithmetic
  import Crc32
  import opened LittleEndian
  import opened Options

  /** One `ota_select` record: sequence number (4 bytes, little endian), label (24), CRC (4). */
  type Slot = s: seq<byte> | |s| == 32 witness seq(32, _ => 0)

  function Erased(): Slot { seq(32, _ => 0xFF) }

  /** The two sectors of the OTA data partition. */
  datatype Flash = Flash(first: Slot, second: Slot) {
    function Sector(id: nat): Slot
      requires id < 2
    {
      if id == 0 then first else second
    }

    function Put(id: nat, s: Slot): Flash
      requires id < 2
    {
      if id == 0 then Flash(s, second) else Flash(first, s)
    }
  }

  // ---- records ----

  function SeqOf(s: Slot): nat { Word(s[..4]) }

  /** `ota_select_valid`. */
  predicate IsValid(s: Slot) { SeqOf(s) != UINT32_MAX && s[28..] == Crc32.Crc(s[..4]) }

  /** The sequence number a sector offers, if it is valid. */
  function Offer(s: Slot): Option<nat> { if IsValid(s) then Some(SeqOf(s)) else None }

  function Encode(v: nat, tag: seq<byte>): Slot
    requires v <= UINT32_MAX && |tag| == 24
  {
    WordBytes(v) + tag + Crc32.Crc(WordBytes(v))
  }

  function Label(s: Slot): (l: seq<byte>)
    ensures |l| == 24
  {
    s[4..28]
  }

  lemma EncodeOffers(v: nat, tag: seq<byte>)
    requires v <= UINT32_MAX && |tag| == 24
    ensures Offer(Encode(v, tag)) == if v == UINT32_MAX then None else Some(v)
    ensures Label(Encode(v, tag)) == tag
  {
    hide Word, WordBytes, Crc32.Crc;
    var s := Encode(v, tag);
    assert s[..4] == WordBytes(v);
    assert s[28..] == Crc32.Crc(WordBytes(v));
    assert s[4..28] == tag;
  }

  /** An erased sector into which the first `k` bytes of a record have been written. */
  function Torn(e: Slot, k: nat): Slot
    requires k <= 32
  {
    e[..k] + Erased()[k..]
  }

  /** A record cut off at any byte is either invalid or already says what it will say. */
  lemma TornOffers(v: nat, tag: seq<byte>, k: nat)
    requires 1 <= v <= UINT32_MAX && |tag| == 24 && k <= 32
    ensures Offer(Torn(Encode(v, tag), k)) in [None, Offer(Encode(v, tag))]
    ensures k < 28 ==> Offer(Torn(Encode(v, tag), k)) == None
    ensures Torn(Encode(v, tag), 32) == Encode(v, tag)
  {
    hide Word, WordBytes, Crc32.Crc;
    var e := Encode(v, tag);
    var t := Torn(e, k);
    if k < 28 {
      assert t[28..] == [0xFF, 0xFF, 0xFF, 0xFF];
      if IsValid(t) {
        Crc32.CrcOfErased(t[..4]);
        assert t[3] == 0;
        assert k >= 4 && t[..4] == WordBytes(v);
        WordEnds(t[..4]);
        assert false;
      }
    } else {
      assert t[..4] == e[..4];
      EncodeOffers(v, tag);
      assert e[..4] == WordBytes(v) && e[28..] == Crc32.Crc(e[..4]);
    }
  }

  // ---- which partition boots ----

  datatype Boot = Ota(index: nat) | Default

  /** `(seq - 1) % count` in 32-bit unsigned arithmetic. */
  function Selected(v: nat, count: nat): Boot
    requires 0 < count
  {
    Ota((if v == 0 then UINT32_MAX else v - 1) % count)
  }

  /** `esp_ota_get_boot_partition`; `Default` is what `find_default_boot_partition` returns. */
  function BootOf(f: Flash, count: nat): Boot
    requires 0 < count
  {
    var s0, s1 := f.first, f.second;
    if SeqOf(s0) == UINT32_MAX && SeqOf(s1) == UINT32_MAX then Default
    else if IsValid(s0) && IsValid(s1) then Selected(Max(SeqOf(s0), SeqOf(s1)), count)
    else if IsValid(s0) then Selected(SeqOf(s0), count)
    else if IsValid(s1) then Selected(SeqOf(s1), count)
    else Default
  }

  /** Only the two offers matter. */
  function Choice(a: Option<nat>, b: Option<nat>, count: nat): Boot
    requires 0 < count
  {
    match (a, b)
    case (Some(v), Some(w)) => Selected(Max(v, w), count)
    case (Some(v), None) => Selected(v, count)
    case (None, Some(w)) => Selected(w, count)
    case (None, None) => Default
  }

  lemma BootIsChoice(f: Flash, count: nat)
    requires 0 < count
    ensures BootOf(f, count) == Choice(Offer(f.first), Offer(f.second), count)
  {}

  /** Every sequence number on offer is at least one. */
  predicate SeqsPositive(f: Flash)
  {
    Offer(f.first) != Some(0) && Offer(f.second) != Some(0)
  }

  /** The largest sequence number on offer, zero if there is none. */
  function TopSeq(f: Flash): nat
  {
    Max(match Offer(f.first) case Some(v) => v case None => 0,
        match Offer(f.second) case Some(v) => v case None => 0)
  }

  // ---- choosing the next sequence number ----

  /** The least number from `floor` on whose predecessor is `sub` modulo `count`. */
  function NextSeq(floor: nat, sub: nat, count: nat): (v: nat)
    requires 0 < count
    ensures floor <= v < floor + count
  {
    floor + ((sub + 1) % count - floor) % count
  }

  /** `NextSeq` is reached from the remainder in `n` whole steps of `count`. */
  lemma NextSeqStep(floor: nat, sub: nat, count: nat) returns (n: nat)
    requires 0 < count && sub < count
    ensures NextSeq(floor, sub, count) == (sub + 1) % count + n * count
  {
    var a := (sub + 1) % count;
    var q, r := (a - floor) / count, (a - floor) % count;
    RemainderFits(a - floor, q, r, count);
    n := -q;
  }

  lemma RemainderFits(x: int, q: int, r: int, count: nat)
    requires x == q * count + r && 0 <= r && x < count
    ensures q <= 0 && (-q) * count == r - x
  {
    Multiples(q, count);
    ScaledDifference(0, q, count);
  }

  /** Every number in whole steps of `count` from the remainder selects `sub`. */
  lemma StepsSelect(v: nat, sub: nat, count: nat, n: int)
    requires 0 < count && sub < count && 1 <= v && v == (sub + 1) % count + n * count
    ensures Selected(v, count) == Ota(sub)
  {
    if sub + 1 == count {
      DivisionIs(sub + 1, 1, 0, count);
      ScaledDifference(n, 1, count);
      DivisionIs(v - 1, n - 1, sub, count);
    } else {
      DivisionIs(sub + 1, 0, sub + 1, count);
      DivisionIs(v - 1, n, sub, count);
    }
  }

  /** What `NextSeq` is good for: it selects `sub`, and nothing from `floor` up to it does. */
  lemma NextSeqSelects(floor: nat, sub: nat, count: nat)
    requires 0 < count && sub < count && 1 <= floor
    ensures floor <= NextSeq(floor, sub, count) < floor + count
    ensures Selected(NextSeq(floor, sub, count), count) == Ota(sub)
    ensures forall w :: floor <= w < NextSeq(floor, sub, count) ==> Selected(w, count) != Ota(sub)
  {
    hide NextSeq, Selected;
    var n := NextSeqStep(floor, sub, count);
    var v := NextSeq(floor, sub, count);
    StepsSelect(v, sub, count, n);
    forall w | floor <= w < v ensures Selected(w, count) != Ota(sub) {
      SelectsApart(w, v, count);
    }
  }

  /** Two numbers less than `count` apart select different partitions. */
  lemma SelectsApart(w: nat, v: nat, count: nat)
    requires 0 < count && 1 <= w < v < w + count
    ensures Selected(w, count) != Selected(v, count)
  {
    var (j, r) := DivMod(w - 1, count);
    var (k, s) := DivMod(v - 1, count);
    ScaledDifference(k, j, count);
    Multiples(k - j, count);
  }

  /** A 32-bit number that selects `sub` and is not below `floor` exists if and only if `NextSeq`
      fits. */
  lemma NumberExistsIff(floor: nat, sub: nat, count: nat)
    requires 0 < count && sub < count && 1 <= floor
    ensures (exists v :: floor <= v <= UINT32_MAX && Selected(v, count) == Ota(sub)) <==>
            NextSeq(floor, sub, count) <= UINT32_MAX
  {
    hide NextSeq, Selected;
    NextSeqSelects(floor, sub, count);
  }

  /** The search expression in 32-bit arithmetic. */
  function Candidate(i: nat, sub: nat, count: nat): nat
    requires 0 < count
  {
    Uint32((sub + 1) % count + i * count)
  }

  /** When `count` divides 2^32 (1, 2, 4, 8 or 16 slots) the search ends under the same condition;
      beyond it the source loops for ever. */
  lemma SearchEndsIff(floor: nat, sub: nat, count: nat)
    requires 0 < count && sub < count && 1 <= floor && U32 % count == 0
    ensures (exists i :: floor <= Candidate(i, sub, count)) <==> NextSeq(floor, sub, count) <= UINT32_MAX
  {
    hide NextSeq, Selected;
    var n := NextSeqStep(floor, sub, count);
    NextSeqSelects(floor, sub, count);
    if NextSeq(floor, sub, count) <= UINT32_MAX {
      assert Candidate(n, sub, count) == NextSeq(floor, sub, count);
    } else {
      forall i: nat ensures Candidate(i, sub, count) < floor {
        if floor <= Candidate(i, sub, count) {
          CandidateSelects(i, sub, count);
        }
      }
    }
  }

  /** With four slots and 0xFFFFFFFE in charge no number selects the first slot, and the loop never
      ends. */
  lemma SearchWithoutEnd(i: nat)
    ensures NextSeq(0xFFFF_FFFE, 0, 4) > UINT32_MAX
    ensures Candidate(i, 0, 4) < 0xFFFF_FFFE
  {
    hide Candidate;
    SearchEndsIff(0xFFFF_FFFE, 0, 4);
  }

  /** Wrapping does not change what a candidate selects. */
  lemma CandidateSelects(i: nat, sub: nat, count: nat)
    requires 0 < count && sub < count && U32 % count == 0 && 1 <= Candidate(i, sub, count)
    ensures Selected(Candidate(i, sub, count), count) == Ota(sub)
  {
    hide Selected, Uint32;
    var a := (sub + 1) % count;
    var wraps := Uint32Rest(a + i * count);
    var (m, _) := DivMod(U32, count);
    WholeStepsOff(i, wraps, m, count);
    StepsSelect(Candidate(i, sub, count), sub, count, i - wraps * m);
  }

  lemma WholeStepsOff(i: int, wraps: int, m: int, count: int)
    ensures (i - wraps * m) * count == i * count - wraps * (m * count)
  {
    ScaledDifference(i, wraps * m, count);
  }

  // ---- setting the boot partition ----

  datatype Plan = Refused | Rewrite(id: nat, seqNo: nat)

  /** Which sector `esp_rewrite_ota_data` rewrites and with which number: never the one in charge. */
  function PlanOf(f: Flash, sub: nat, count: nat): (p: Plan)
    requires 0 < count
    ensures p.Rewrite? <==> sub < count
    ensures p.Rewrite? ==> p.id < 2 && p.seqNo <= TopSeq(f) + count
  {
    if sub >= count then Refused
    else
      match (Offer(f.first), Offer(f.second))
      case (Some(v), Some(w)) => Rewrite(if v >= w then 1 else 0, NextSeq(Max(v, w), sub, count))
      case (Some(v), None) => Rewrite(1, NextSeq(v, sub, count))
      case (None, Some(w)) => Rewrite(0, NextSeq(w, sub, count))
      case (None, None) => Rewrite(0, sub + 1)
  }

  /** The next sequence number fits 32 bits. */
  predicate Fits(f: Flash, sub: nat, count: nat)
    requires 0 < count
  {
    PlanOf(f, sub, count).Rewrite? ==> PlanOf(f, sub, count).seqNo <= UINT32_MAX
  }

  /** The flash after the rewrite was cut off with `k` bytes of the new record written;
      0 is right after the erase and 32 is completion. */
  function Cut(f: Flash, sub: nat, count: nat, k: nat): Flash
    requires 0 < count && k <= 32 && Fits(f, sub, count)
  {
    match PlanOf(f, sub, count)
    case Refused => f
    case Rewrite(id, v) => f.Put(id, Torn(Encode(v, Label(f.Sector(id))), k))
  }

  /** Switching to partition `sub` is atomic: whatever byte the power fails at, the old choice
      or the requested one boots, and nothing changes before the CRC is being written. Only a
      sequence number that has run into the erased pattern can make a completed switch fail. */
  lemma SwitchIsAtomic(f: Flash, sub: nat, count: nat, k: nat)
    requires sub < count && k <= 32 && SeqsPositive(f) && Fits(f, sub, count)
    ensures BootOf(Cut(f, sub, count, k), count) in {BootOf(f, count), Ota(sub)}
    ensures k < 28 ==> BootOf(Cut(f, sub, count, k), count) == BootOf(f, count)
    ensures BootOf(Cut(f, sub, count, 32), count) == Ota(sub) <==>
            PlanOf(f, sub, count).seqNo < UINT32_MAX || BootOf(f, count) == Ota(sub)
    ensures SeqsPositive(Cut(f, sub, count, k))
    ensures TopSeq(Cut(f, sub, count, k)) <= Max(TopSeq(f), PlanOf(f, sub, count).seqNo)
  {
    hide IsValid, SeqOf, Encode, Torn, BootOf, Selected, NextSeq;
    var Rewrite(id, v) := PlanOf(f, sub, count);
    var e := Encode(v, Label(f.Sector(id)));
    PlanSelects(f, sub, count);
    TornOffers(v, Label(f.Sector(id)), k);
    TornOffers(v, Label(f.Sector(id)), 32);
    EncodeOffers(v, Label(f.Sector(id)));
    BootIsChoice(f, count);
    BootIsChoice(f.Put(id, Torn(e, k)), count);
    BootIsChoice(f.Put(id, Torn(e, 32)), count);
  }

  lemma PlanSelects(f: Flash, sub: nat, count: nat)
    requires sub < count && SeqsPositive(f)
    ensures TopSeq(f) <= PlanOf(f, sub, count).seqNo && 1 <= PlanOf(f, sub, count).seqNo
    ensures Selected(PlanOf(f, sub, count).seqNo, count) == Ota(sub)
  {
    hide IsValid, SeqOf, NextSeq;
    if TopSeq(f) >= 1 {
      NextSeqSelects(TopSeq(f), sub, count);
    } else {
      DivisionIs(sub, 0, sub, count);
    }
  }

  /** The record in charge stays as it is, the first one on a tie; of the other one only number and
      CRC change. */
  lemma RewriteKeepsRest(f: Flash, sub: nat, count: nat)
    requires sub < count && Fits(f, sub, count)
    ensures var g := Cut(f, sub, count, 32);
            if IsValid(f.first) && (!IsValid(f.second) || SeqOf(f.first) >= SeqOf(f.second)) then
              g.first == f.first && Label(g.second) == Label(f.second)
            else g.second == f.second && Label(g.first) == Label(f.first)
  {
    hide IsValid, SeqOf, NextSeq;
    var Rewrite(id, v) := PlanOf(f, sub, count);
    var e := Encode(v, Label(f.Sector(id)));
    LabelOf(v, Label(f.Sector(id)));
    assert Torn(e, 32) == e;
  }

  lemma LabelOf(v: nat, tag: seq<byte>)
    requires v <= UINT32_MAX && |tag| == 24
    ensures Label(Encode(v, tag)) == tag
  {}

  /** The number minus one is taken in 32 bits. */
  lemma SelectedWraps(v: nat, count: nat)
    requires v <= UINT32_MAX && 0 < count
    ensures Selected(v, count) == Ota(Uint32(v - 1) % count)
  {}

  /** A request to boot `sub`, whose rewrite is cut off after `k` bytes (32 means it completes). */
  datatype Request = Request(sub: nat, k: nat)

  predicate Requests(rs: seq<Request>, count: nat)
  {
    forall r :: r in rs ==> r.sub < count && r.k <= 32
  }

  predicate NumbersLeft(f: Flash, requests: nat, count: nat)
  {
    SeqsPositive(f) && TopSeq(f) + requests * count < UINT32_MAX
  }

  lemma RequestUsesOne(f: Flash, r: Request, left: nat, count: nat)
    requires r.sub < count && r.k <= 32 && NumbersLeft(f, left + 1, count)
    ensures PlanOf(f, r.sub, count).seqNo < UINT32_MAX
    ensures NumbersLeft(Cut(f, r.sub, count, r.k), left, count)
  {
    hide IsValid, SeqOf, Encode, Torn, NextSeq, Cut, BootOf;
    assert (left + 1) * count == left * count + count;
    assert PlanOf(f, r.sub, count).seqNo <= TopSeq(f) + count;
    SwitchIsAtomic(f, r.sub, count, r.k);
  }

  lemma RequestBoots(f: Flash, r: Request, left: nat, count: nat)
    requires r.sub < count && r.k <= 32 && NumbersLeft(f, left + 1, count)
    ensures r.k == 32 ==> BootOf(Served(f, r, left, count), count) == Ota(r.sub)
    ensures r.k < 28 ==> BootOf(Served(f, r, left, count), count) == BootOf(f, count)
    ensures BootOf(Served(f, r, left, count), count) in {BootOf(f, count), Ota(r.sub)}
  {
    hide IsValid, SeqOf, Encode, Torn, NextSeq, Cut, BootOf;
    RequestUsesOne(f, r, left, count);
    SwitchIsAtomic(f, r.sub, count, r.k);
  }

  /** The flash after one request. */
  function Served(f: Flash, r: Request, left: nat, count: nat): (g: Flash)
    requires r.sub < count && r.k <= 32 && NumbersLeft(f, left + 1, count)
    ensures NumbersLeft(g, left, count)
  {
    RequestUsesOne(f, r, left, count);
    Cut(f, r.sub, count, r.k)
  }

  /** The flash after a run of requests. */
  function After(f: Flash, rs: seq<Request>, count: nat): Flash
    requires 0 < count && Requests(rs, count) && NumbersLeft(f, |rs|, count)
    decreases |rs|
  {
    if rs == [] then f else After(Served(f, rs[0], |rs| - 1, count), rs[1..], count)
  }

  /** `b` can boot after the run when `b0` booted before it: a completed request replaces the
      choice, one cut inside its CRC may, one cut earlier does not. */
  predicate Explained(b: Boot, b0: Boot, rs: seq<Request>)
    decreases |rs|
  {
    if rs == [] then b == b0
    else
      (rs[0].k < 32 && Explained(b, b0, rs[1..])) ||
      (rs[0].k >= 28 && Explained(b, Ota(rs[0].sub), rs[1..]))
  }

  /** Over any run of completed and interrupted requests that does not exhaust the numbers. */
  lemma {:induction false} RunBoots(f: Flash, rs: seq<Request>, count: nat)
    requires 0 < count && Requests(rs, count) && NumbersLeft(f, |rs|, count)
    ensures Explained(BootOf(After(f, rs, count), count), BootOf(f, count), rs)
    decreases |rs|
  {
    hide BootOf, Served, NumbersLeft;
    if rs == [] {
    } else {
      RequestBoots(f, rs[0], |rs| - 1, count);
      RunBoots(Served(f, rs[0], |rs| - 1, count), rs[1..], count);
    }
  }

  // ---- setting the factory partition: the whole data partition is erased ----

  lemma ErasedOffersNothing()
    ensures Offer(Erased()) == None && SeqOf(Erased()) == UINT32_MAX
  {
    hide Word;
    assert Erased()[..4] == [0xFF, 0xFF, 0xFF, 0xFF];
    WordEnds(Erased()[..4]);
  }

  /** Erasing goes sector by sector, so it is atomic exactly when the second sector cannot take
      over with another partition once the first is gone. */
  lemma FactoryIsAtomicIff(f: Flash, count: nat)
    requires 0 < count
    ensures BootOf(f.Put(0, Erased()), count) in {BootOf(f, count), Default} <==>
            !(IsValid(f.first) && IsValid(f.second) && SeqOf(f.first) > SeqOf(f.second) &&
              Selected(SeqOf(f.first), count) != Selected(SeqOf(f.second), count))
    ensures BootOf(f.Put(0, Erased()).Put(1, Erased()), count) == Default
  {
    hide IsValid, SeqOf, BootOf, Selected;
    ErasedOffersNothing();
    BootIsChoice(f, count);
    BootIsChoice(f.Put(0, Erased()), count);
    BootIsChoice(f.Put(0, Erased()).Put(1, Erased()), count);
    SelectsSome(SeqOf(f.first), SeqOf(f.second), count);
  }

  lemma SelectsSome(v: nat, w: nat, count: nat)
    requires 0 < count
    ensures Selected(v, count) != Default && Selected(w, count) != Default
  {}

  /** An older slot boots: number 2 of two partitions was in charge, number 1 takes over. */
  lemma FactoryCutBootsOlder()
    ensures exists f: Flash :: BootOf(f, 2) == Ota(1) && BootOf(f.Put(0, Erased()), 2) == Ota(0)
  {
    hide IsValid, SeqOf, BootOf, Encode;
    var tag := seq(24, _ => 0xFF);
    var f := Flash(Encode(2, tag), Encode(1, tag));
    EncodeOffers(2, tag);
    EncodeOffers(1, tag);
    ErasedOffersNothing();
    BootIsChoice(f, 2);
    BootIsChoice(f.Put(0, Erased()), 2);
    assert BootOf(f, 2) == Ota(1) && BootOf(f.Put(0, Erased()), 2) == Ota(0);
  }

  /** Sector `id` erased and then filled with `e`, byte by byte. */
  function Snapshots(f: Flash, id: nat, e: Slot): (fs: seq<Flash>)
    requires id < 2
    ensures |fs| == 33
  {
    seq(33, k requires 0 <= k < 33 => f.Put(id, Torn(e, k)))
  }

  lemma TornEnds(e: Slot)
    ensures Torn(e, 0) == Erased() && Torn(e, 32) == e
  {}

  lemma TornNext(e: Slot, k: nat)
    requires k < 32
    ensures Torn(e, k)[k := e[k]] == Torn(e, k + 1)
  {}

  lemma SnapshotsNext(f: Flash, id: nat, e: Slot, k: nat)
    requires id < 2 && k < 32
    ensures Snapshots(f, id, e)[1..k + 2] == Snapshots(f, id, e)[1..k + 1] + [f.Put(id, Torn(e, k + 1))]
  {}

  /** Every content a power loss during the switch to `sub` can leave behind. */
  function Cuts(f: Flash, sub: nat, count: nat): (fs: seq<Flash>)
    requires 0 < count && Fits(f, sub, count)
    ensures |fs| == 33 && forall k | 0 <= k <= 32 :: fs[k] == Cut(f, sub, count, k)
  {
    seq(33, k requires 0 <= k < 33 => Cut(f, sub, count, k))
  }

  lemma SnapshotsSplit(f: Flash, id: nat, e: Slot)
    requires id < 2
    ensures Snapshots(f, id, e) == [f.Put(id, Erased())] + Snapshots(f.Put(id, Erased()), id, e)[1..]
  {
    TornEnds(e);
  }

  /** The flash sectors and their RAM copies; `seen` collects every content a power loss could
      leave behind. */
  class OtaData {
    var flash: Flash
    var select: Flash
    ghost var seen: seq<Flash>

    constructor (f: Flash)
      ensures flash == f && seen == []
    {
      flash, select, seen := f, f, [];
    }

    method EraseSector(id: nat)
      requires id < 2
      modifies this`flash, this`seen
      ensures flash == old(flash).Put(id, Erased()) && seen == old(seen) + [flash]
    {
      flash := flash.Put(id, Erased());
      seen := seen + [flash];
    }

    /** Flash programming proceeds byte by byte. */
    method WriteSector(id: nat, e: Slot)
      requires id < 2 && flash.Sector(id) == Erased()
      modifies this`flash, this`seen
      ensures flash == old(flash).Put(id, e)
      ensures seen == old(seen) + Snapshots(old(flash), id, e)[1..]
    {
      hide Torn, Snapshots;
      ghost var all := Snapshots(flash, id, e);
      TornEnds(e);
      for k := 0 to 32
        invariant flash == old(flash).Put(id, Torn(e, k))
        invariant seen == old(seen) + all[1..k + 1]
      {
        var was := flash.Sector(id);
        TornNext(e, k);
        SnapshotsNext(old(flash), id, e, k);
        flash := flash.Put(id, was[k := e[k]]);
        seen := seen + [flash];
      }
    }

    /** `rewrite_ota_seq`. */
    method RewriteOtaSeq(seqNo: nat, id: nat)
      requires id < 2 && seqNo <= UINT32_MAX
      modifies this
      ensures flash == old(flash).Put(id, Encode(seqNo, Label(old(select).Sector(id))))
      ensures seen == old(seen) + Snapshots(old(flash), id, Encode(seqNo, Label(old(select).Sector(id))))
    {
      hide Encode, Label, Snapshots;
      var e := Encode(seqNo, Label(select.Sector(id)));
      SnapshotsSplit(flash, id, e);
      select := select.Put(id, e);
      EraseSector(id);
      WriteSector(id, e);
    }

    /** The search loop of `esp_rewrite_ota_data`, in numbers that fit 32 bits. */
    method FindSeq(floor: nat, sub: nat, count: nat) returns (v: nat)
      requires 0 < count && sub < count && NextSeq(floor, sub, count) <= UINT32_MAX
      ensures v == NextSeq(floor, sub, count)
    {
      hide NextSeq;
      var a := (sub + 1) % count;
      ghost var rounds := NextSeqStep(floor, sub, count);
      var i := 0;
      while floor > a + i * count
        invariant i <= rounds
        decreases rounds - i
      {
        RoundsLeft(floor, a, i, rounds, count);
        i := i + 1;
      }
      LastRound(floor, a, i, rounds, count);
      v := a + i * count;
    }

    lemma RoundsLeft(floor: nat, a: nat, i: nat, rounds: nat, count: nat)
      requires a + i * count < floor <= a + rounds * count
      ensures i < rounds
    {
      if rounds <= i {
        Scaled(rounds, i, count);
      }
    }

    lemma LastRound(floor: nat, a: nat, i: nat, rounds: nat, count: nat)
      requires i <= rounds && floor <= a + i * count && a + rounds * count < floor + count
      ensures i == rounds
    {
      ScaledDifference(rounds, i, count);
      Multiples(rounds - i, count);
    }

    /** `esp_rewrite_ota_data` for partition subtype `subtype`. */
    method SetBoot(subtype: nat, count: nat) returns (ok: bool)
      requires 0 < count <= 16 && Fits(flash, subtype % 16, count)
      modifies this
      ensures ok == (subtype % 16 < count)
      ensures !ok ==> flash == old(flash) && seen == old(seen)
      ensures ok ==> flash == Cut(old(flash), subtype % 16, count, 32)
      ensures ok ==> seen == old(seen) + Cuts(old(flash), subtype % 16, count)
    {
      hide IsValid, Encode, NextSeq, Label, Torn, Snapshots, Cut, Cuts;
      var sub := subtype % 16;
      if sub >= count {
        return false;
      }
      select := flash;
      TornWhole(flash, sub, count);
      if IsValid(select.first) && IsValid(select.second) {
        var top := Max(SeqOf(select.first), SeqOf(select.second));
        var v := FindSeq(top, sub, count);
        if SeqOf(select.first) >= SeqOf(select.second) {
          RewriteOtaSeq(v, 1);
        } else {
          RewriteOtaSeq(v, 0);
        }
      } else if IsValid(select.first) {
        var v := FindSeq(SeqOf(select.first), sub, count);
        RewriteOtaSeq(v, 1);
      } else if IsValid(select.second) {
        var v := FindSeq(SeqOf(select.second), sub, count);
        RewriteOtaSeq(v, 0);
      } else {
        RewriteOtaSeq(sub + 1, 0);
      }
      ok := true;
    }

    /** `esp_ota_set_boot_partition` for the factory partition. */
    method SetFactory()
      modifies this
      ensures flash == Flash(Erased(), Erased())
      ensures seen == old(seen) + [old(flash).Put(0, Erased()), flash]
    {
      EraseSector(0);
      EraseSector(1);
    }
  }

  lemma TornWhole(f: Flash, sub: nat, count: nat)
    requires sub < count && Fits(f, sub, count)
    ensures var p := PlanOf(f, sub, count);
            && Cut(f, sub, count, 32) == f.Put(p.id, Encode(p.seqNo, Label(f.Sector(p.id))))
            && Cuts(f, sub, count) == Snapshots(f, p.id, Encode(p.seqNo, Label(f.Sector(p.id))))
  {
    hide Encode, Label, PlanOf;
    var p := PlanOf(f, sub, count);
    TornEnds(Encode(p.seqNo, Label(f.Sector(p.id))));
  }
}
