/** Building a command list (i2c.c): transfers of any length are cut into links of at most
    255 bytes, and a "last NACK" read gets its last byte in a link of its own. */
module I2cCmdLink {
  import opened I2cMaster
  import opened LittleEndian
  import opened Sequences

  const LINK_MAX: nat := 255
  const ACK: nat := 0
  const NACK: nat := 1
  const LAST_NACK: nat := 2

  function WriteLinks(data: seq<byte>, ackEn: bool): seq<Cmd>
  {
    if data == [] then []
    else
      var n := if |data| > LINK_MAX then LINK_MAX else |data|;
      [Write(data[..n], ackEn, false)] + WriteLinks(data[n..], ackEn)
  }

  function ReadLinks(dst: nat, n: nat, ack: nat): seq<Cmd>
    decreases n
  {
    if n == 0 then []
    else
      var m := if n > LINK_MAX then LINK_MAX else n;
      [Read(dst, m, ack % 2)] + ReadLinks(dst + m, n - m, ack)
  }

  /** `i2c_master_read` for an accepted acknowledgement type. */
  function ReadRequest(dst: nat, n: nat, ack: nat): seq<Cmd>
    requires n > 0
  {
    if ack != LAST_NACK then ReadLinks(dst, n, ack)
    else if n == 1 then [Read(dst, 1, NACK)]
    else ReadLinks(dst, n - 1, ACK) + [Read(dst + n - 1, 1, NACK)]
  }

  lemma SentNothing(ackEn: bool)
    ensures SentAll([], ackEn) == []
  {
  }

  /** However it is cut, a write puts exactly its data on the bus. */
  lemma {:induction false} WriteLinksDenote(data: seq<byte>, ackEn: bool, tail: seq<Cmd>, sl: Slave, pos: nat)
    ensures Flat(WriteLinks(data, ackEn) + tail, sl, pos) == SentAll(data, ackEn) + Flat(tail, sl, pos)
    ensures Stores(WriteLinks(data, ackEn) + tail, sl, pos) == Stores(tail, sl, pos)
  {
    hide SentAll, Flat, Stores;
    var cs := WriteLinks(data, ackEn) + tail;
    if data == [] {
      assert cs == tail;
      SentNothing(ackEn);
    } else {
      var n := if |data| > LINK_MAX then LINK_MAX else |data|;
      assert cs[0] == Write(data[..n], ackEn, false) && cs[1..] == WriteLinks(data[n..], ackEn) + tail;
      WriteHead(cs, sl, pos);
      WriteLinksDenote(data[n..], ackEn, tail, sl, pos);
      SentSplit(data, n, ackEn);
      Regroup(SentAll(data[..n], ackEn), SentAll(data[n..], ackEn), Flat(tail, sl, pos));
    }
  }

  /** However it is cut, a read acknowledges and stores exactly `n` bytes, in order. */
  lemma {:induction false} ReadLinksDenote(dst: nat, n: nat, ack: nat, tail: seq<Cmd>, sl: Slave, pos: nat)
    ensures var got := SlaveBytes(sl, pos, n);
            && Flat(ReadLinks(dst, n, ack) + tail, sl, pos) == ReceivedAll(got, ack % 2) + Flat(tail, sl, pos + n)
            && Stores(ReadLinks(dst, n, ack) + tail, sl, pos) == StoredAt(dst, got) + Stores(tail, sl, pos + n)
    decreases n
  {
    hide SlaveBytes, ReceivedAll, StoredAt, Flat, Stores;
    var cs := ReadLinks(dst, n, ack) + tail;
    if n == 0 {
      assert cs == tail;
    } else {
      var m := if n > LINK_MAX then LINK_MAX else n;
      var got, later := SlaveBytes(sl, pos, m), SlaveBytes(sl, pos + m, n - m);
      assert cs[0] == Read(dst, m, ack % 2) && cs[1..] == ReadLinks(dst + m, n - m, ack) + tail;
      ReadHead(cs, sl, pos);
      ReadLinksDenote(dst + m, n - m, ack, tail, sl, pos + m);
      SlaveSplit(sl, pos, n, m);
      ReceivedSplit(got, later, ack % 2);
      StoredSplit(dst, got, later);
      Regroup(ReceivedAll(got, ack % 2), ReceivedAll(later, ack % 2), Flat(tail, sl, pos + n));
      Regroup(StoredAt(dst, got), StoredAt(dst + m, later), Stores(tail, sl, pos + n));
    }
  }

  /** A read with ACK or NACK answers every byte with it. */
  lemma PlainRead(dst: nat, n: nat, ack: nat, tail: seq<Cmd>, sl: Slave, pos: nat)
    requires n > 0 && ack in {ACK, NACK}
    ensures var got := SlaveBytes(sl, pos, n);
            && Flat(ReadRequest(dst, n, ack) + tail, sl, pos) == ReceivedAll(got, ack) + Flat(tail, sl, pos + n)
            && Stores(ReadRequest(dst, n, ack) + tail, sl, pos) == StoredAt(dst, got) + Stores(tail, sl, pos + n)
  {
    hide SlaveBytes, ReceivedAll, StoredAt, Flat, Stores;
    ReadLinksDenote(dst, n, ack, tail, sl, pos);
  }

  /** With "last NACK", all bytes but the last are acknowledged and the last one is not. */
  lemma LastNackRead(dst: nat, n: nat, tail: seq<Cmd>, sl: Slave, pos: nat)
    requires n > 0
    ensures var got := SlaveBytes(sl, pos, n);
            && Flat(ReadRequest(dst, n, LAST_NACK) + tail, sl, pos)
            == ReceivedAll(got[..n - 1], ACK) + [Received(got[n - 1], NACK)] + Flat(tail, sl, pos + n)
            && Stores(ReadRequest(dst, n, LAST_NACK) + tail, sl, pos) == StoredAt(dst, got) + Stores(tail, sl, pos + n)
  {
    hide SlaveBytes, ReceivedAll, StoredAt, Flat, Stores;
    var last := [Read(dst + n - 1, 1, NACK)] + tail;
    var got, first, final := SlaveBytes(sl, pos, n), SlaveBytes(sl, pos, n - 1), SlaveBytes(sl, pos + n - 1, 1);
    assert last[1..] == tail;
    ReadHead(last, sl, pos + n - 1);
    SlaveSplit(sl, pos, n, n - 1);
    StoredSplit(dst, first, final);
    ReceivedOne(final, NACK);
    assert final == [got[n - 1]] && got[..n - 1] == first;
    Regroup(ReceivedAll(first, ACK), ReceivedAll(final, NACK), Flat(tail, sl, pos + n));
    Regroup(StoredAt(dst, first), StoredAt(dst + n - 1, final), Stores(tail, sl, pos + n));
    if n == 1 {
      assert ReceivedAll(first, ACK) == [] && StoredAt(dst, first) == [];
      assert ReadRequest(dst, n, LAST_NACK) + tail == last;
    } else {
      assert ReadRequest(dst, n, LAST_NACK) + tail == ReadLinks(dst, n - 1, ACK) + last;
      ReadLinksDenote(dst, n - 1, ACK, last, sl, pos);
    }
  }

  /** The length of every link fits the 8-bit count of a command register, and links are not empty. */
  lemma {:induction false} WriteLinksShape(data: seq<byte>, ackEn: bool)
    ensures forall i | 0 <= i < |WriteLinks(data, ackEn)| ::
              var c := WriteLinks(data, ackEn)[i]; c.Write? && !c.single && 0 < |c.bytes| < 0x100
    ensures data != [] ==> WriteLinks(data, ackEn) != []
  {
    if data == [] {
    } else {
      WriteLinksShape(data[if |data| > LINK_MAX then LINK_MAX else |data|..], ackEn);
    }
  }

  lemma {:induction false} ReadLinksShape(dst: nat, n: nat, ack: nat)
    ensures forall i | 0 <= i < |ReadLinks(dst, n, ack)| ::
              var c := ReadLinks(dst, n, ack)[i]; c.Read? && 0 < c.n < 0x100
    decreases n
  {
    if n == 0 {
    } else {
      var m := if n > LINK_MAX then LINK_MAX else n;
      ReadLinksShape(dst + m, n - m, ack);
    }
  }

  /** Transfers in front leave the command index at zero. */
  lemma {:induction false} LoadableBehind(xs: seq<Cmd>, tail: seq<Cmd>)
    requires forall c | c in xs ::
               || (c.Write? && !c.single && c.bytes != [])
               || (c.Read? && c.n > 0)
    requires Loadable(tail, 0)
    ensures Loadable(xs + tail, 0)
  {
    if xs == [] {
      assert xs + tail == tail;
    } else {
      assert (xs + tail)[1..] == xs[1..] + tail && (xs + tail)[0] == xs[0] && xs[0] in xs;
      LoadableBehind(xs[1..], tail);
    }
  }

  /** START, a write of any length, a read of any length and STOP is a list the engine can load,
      and its trace is the flat one. */
  lemma WriteThenReadReplaysFlat(data: seq<byte>, ackEn: bool, dst: nat, n: nat, ack: nat, sl: Slave, pos: nat)
    requires data != [] && n > 0
    ensures var cs := [Restart] + WriteLinks(data, ackEn) + ReadRequest(dst, n, ack) + [Stop];
            Loadable(cs, 0) && Replayed(cs, 0, sl, pos) == Flat(cs, sl, pos)
  {
    var ws, rs := WriteLinks(data, ackEn), ReadRequest(dst, n, ack);
    var cs := [Restart] + ws + rs + [Stop];
    WriteLinksShape(data, ackEn);
    ReadLinksShape(dst, n, ack);
    ReadLinksShape(dst, n - 1, ACK);
    LoadableBehind(ws + rs, [Stop]);
    assert cs[1..] == ws + rs + [Stop];
    LoadedBehindStart(cs);
    assert forall i | 0 < i < |cs| :: cs[i] == (ws + rs + [Stop])[i - 1];
    assert cs[1] == ws[0];
    ReplayedIsFlatIff(cs, sl, pos);
  }

  /** One START in front of a list that begins with a WRITE. */
  lemma LoadedBehindStart(cs: seq<Cmd>)
    requires |cs| > 1 && cs[0] == Restart && cs[1].Write? && Loadable(cs[1..], 0)
    ensures Loadable(cs, 0)
  {
    assert cs[1..][0] == cs[1];
  }

  lemma ReceivedOne(bs: seq<byte>, ack: nat)
    requires |bs| == 1
    ensures ReceivedAll(bs, ack) == [Received(bs[0], ack)]
  {
  }

  /** `i2c_cmd_desc_t`: the list under construction. */
  class CmdLink {
    var cmds: seq<Cmd>

    constructor ()
      ensures cmds == []
    {
      cmds := [];
    }

    method MasterStart()
      modifies this
      ensures cmds == old(cmds) + [Restart]
    {
      cmds := cmds + [Restart];
    }

    method MasterStop()
      modifies this
      ensures cmds == old(cmds) + [Stop]
    {
      cmds := cmds + [Stop];
    }

    method MasterWriteByte(b: byte, ackEn: bool)
      modifies this
      ensures cmds == old(cmds) + [Write([b], ackEn, true)]
    {
      cmds := cmds + [Write([b], ackEn, true)];
    }

    method MasterWrite(data: seq<byte>, ackEn: bool)
      modifies this
      ensures cmds == old(cmds) + WriteLinks(data, ackEn)
    {
      var offset := 0;
      while offset < |data|
        invariant offset <= |data|
        invariant cmds + WriteLinks(data[offset..], ackEn) == old(cmds) + WriteLinks(data, ackEn)
      {
        var n := if |data| - offset > LINK_MAX then LINK_MAX else |data| - offset;
        cmds := cmds + [Write(data[offset..offset + n], ackEn, false)];
        assert data[offset..][..n] == data[offset..offset + n] && data[offset..][n..] == data[offset + n..];
        offset := offset + n;
      }
    }

    method ReadStatic(dst: nat, len: nat, ack: nat)
      modifies this
      ensures cmds == old(cmds) + ReadLinks(dst, len, ack)
    {
      var offset := 0;
      while offset < len
        invariant offset <= len
        invariant cmds + ReadLinks(dst + offset, len - offset, ack) == old(cmds) + ReadLinks(dst, len, ack)
      {
        var n := if len - offset > LINK_MAX then LINK_MAX else len - offset;
        cmds := cmds + [Read(dst + offset, n, ack % 2)];
        offset := offset + n;
      }
    }

    method MasterRead(dst: nat, len: nat, ack: nat) returns (r: Err)
      modifies this
      ensures r == ESP_OK <==> ack <= LAST_NACK && len > 0
      ensures cmds == if r == ESP_OK then old(cmds) + ReadRequest(dst, len, ack) else old(cmds)
    {
      if ack > LAST_NACK || len == 0 {
        return ESP_ERR_INVALID_ARG;
      }
      if ack != LAST_NACK {
        ReadStatic(dst, len, ack);
      } else if len == 1 {
        cmds := cmds + [Read(dst, 1, NACK)];
      } else {
        ReadStatic(dst, len - 1, ACK);
        cmds := cmds + [Read(dst + len - 1, 1, NACK)];
      }
      r := ESP_OK;
    }
  }

  // ---- a whole transaction ----

  /** What the bus sees of the usual transaction. */
  function WriteReadTrace(data: seq<byte>, ackEn: bool, n: nat, sl: Slave, pos: nat): seq<BusEvent>
    requires n > 0
  {
    var got := SlaveBytes(sl, pos, n);
    [StartBit] + (SentAll(data, ackEn) + (ReceivedAll(got[..n - 1], ACK) + [Received(got[n - 1], NACK)] + [StopBit]))
  }

  lemma WriteReadDenotes(data: seq<byte>, ackEn: bool, dst: nat, n: nat, sl: Slave, pos: nat)
    requires data != [] && n > 0
    ensures var cs := [Restart] + WriteLinks(data, ackEn) + ReadRequest(dst, n, LAST_NACK) + [Stop];
            && Loadable(cs, 0) && Replayed(cs, 0, sl, pos) == WriteReadTrace(data, ackEn, n, sl, pos)
            && Stores(cs, sl, pos) == StoredAt(dst, SlaveBytes(sl, pos, n))
  {
    hide SlaveBytes, ReceivedAll, StoredAt, SentAll, Replayed, ReadRequest, WriteLinks, Loadable, Flat, Stores;
    var ws, rs := WriteLinks(data, ackEn), ReadRequest(dst, n, LAST_NACK);
    var cs := [Restart] + ws + rs + [Stop];
    WriteThenReadReplaysFlat(data, ackEn, dst, n, LAST_NACK, sl, pos);
    assert cs == [Restart] + (ws + (rs + [Stop]));
    StartHead(ws + (rs + [Stop]), sl, pos);
    WriteLinksDenote(data, ackEn, rs + [Stop], sl, pos);
    LastNackRead(dst, n, [Stop], sl, pos);
    StopHead(sl, pos + n);
    assert StoredAt(dst, SlaveBytes(sl, pos, n)) + [] == StoredAt(dst, SlaveBytes(sl, pos, n));
  }

  lemma StartHead(cs: seq<Cmd>, sl: Slave, pos: nat)
    ensures Flat([Restart] + cs, sl, pos) == [StartBit] + Flat(cs, sl, pos)
    ensures Stores([Restart] + cs, sl, pos) == Stores(cs, sl, pos)
  {
    assert ([Restart] + cs)[1..] == cs;
  }

  lemma StopHead(sl: Slave, pos: nat)
    ensures Flat([Stop], sl, pos) == [StopBit] && Stores([Stop], sl, pos) == []
  {
    assert [Stop][1..] == [] && Flat([Stop], sl, pos) == [StopBit] + Flat([], sl, pos);
  }

  /** Reading all but the last byte with ACK and the last one with NACK is a "last NACK" read. */
  lemma AckThenNack(dst: nat, n: nat)
    requires n > 1
    ensures ReadRequest(dst, n - 1, ACK) + ReadRequest(dst + n - 1, 1, NACK) == ReadRequest(dst, n, LAST_NACK)
  {
    assert ReadLinks(dst + n - 1, 1, NACK) == [Read(dst + n - 1, 1, NACK)] + ReadLinks(dst + n, 0, NACK);
  }

  /** The list those calls build is the usual one, with a transfer in it. */
  lemma UsualList(data: seq<byte>, ackEn: bool, dst: nat, n: nat)
    requires data != [] && n > 1
    ensures var cs := [Restart] + WriteLinks(data, ackEn) + ReadRequest(dst, n - 1, ACK) +
                      ReadRequest(dst + n - 1, 1, NACK) + [Stop];
            && cs == [Restart] + WriteLinks(data, ackEn) + ReadRequest(dst, n, LAST_NACK) + [Stop]
            && exists c :: c in cs && IsTransfer(c)
  {
    hide ReadRequest, WriteLinks;
    var ws := WriteLinks(data, ackEn);
    AckThenNack(dst, n);
    Regroup([Restart] + ws, ReadRequest(dst, n - 1, ACK), ReadRequest(dst + n - 1, 1, NACK));
    WriteLinksShape(data, ackEn);
    assert IsTransfer(ws[0]) && ([Restart] + ws)[1] == ws[0];
  }

  /** START, a write, a read with ACK, a last byte with NACK and STOP: built by the public calls
      and run by the engine. */
  method WriteThenRead(m: Master, data: seq<byte>, ackEn: bool, dst: nat, n: nat) returns (r: Err)
    requires m.regs.Length == REGISTERS && data != [] && n > 1
    modifies m, m.regs
    ensures r == ESP_OK && m.bus == old(m.bus) + WriteReadTrace(data, ackEn, n, m.slave, old(m.pos))
    ensures m.mem == old(m.mem) + StoredAt(dst, SlaveBytes(m.slave, old(m.pos), n))
  {
    hide ReadRequest, WriteLinks, Loadable, Replayed, Stores, StoredAt, SlaveBytes, WriteReadTrace, IsTransfer, Segments;
    var link := new CmdLink();
    link.MasterStart();
    link.MasterWrite(data, ackEn);
    var _ := link.MasterRead(dst, n - 1, ACK);
    var _ := link.MasterRead(dst + n - 1, 1, NACK);
    link.MasterStop();
    assert [] + [Restart] == [Restart];
    UsualList(data, ackEn, dst, n);
    WriteReadDenotes(data, ackEn, dst, n, m.slave, m.pos);
    var interrupts;
    r, interrupts := m.Transfer(link.cmds);
  }

  // ---- a READ directly after STARTs ----

  function Restarts(k: nat): seq<Cmd> { seq(k, _ => Restart) }

  /** After `k` STARTs and a READ of one segment the command index still points behind the
      STARTs, so the bus sees them a second time in front of whatever comes next. */
  lemma LeftoverStartsReplay(k: nat, dst: nat, n: nat, ack: nat, rest: seq<Cmd>, sl: Slave, pos: nat)
    requires 0 < n <= FIFO_LEN && rest != []
    ensures Replayed(Restarts(k) + [Read(dst, n, ack)] + rest, 0, sl, pos) ==
            Starts(k) + ReceivedAll(SlaveBytes(sl, pos, n), ack) + Starts(k) + Replayed(rest, k, sl, pos + n)
  {
    hide ReceivedAll, SlaveBytes, Starts, Replayed;
    var cs := Restarts(k) + [Read(dst, n, ack)] + rest;
    var got, after := ReceivedAll(SlaveBytes(sl, pos, n), ack), Replayed(rest, k, sl, pos + n);
    ReplayedSkipsStarts(cs, 0, k, sl, pos);
    assert cs[k..] == [Read(dst, n, ack)] + rest && cs[k..][1..] == rest;
    ReadReplayed(cs[k..], k, sl, pos);
    assert Starts(k) + (got + (Starts(k) + after)) == Starts(k) + got + Starts(k) + after;
  }

  /** The smallest such list: START, a one-byte READ and STOP. Flat it has one START, the bus
      sees two. */
  lemma StartReadStopTrace(dst: nat, sl: Slave, pos: nat)
    ensures var cs := [Restart, Read(dst, 1, NACK), Stop];
            && Loadable(cs, 0)
            && Replayed(cs, 0, sl, pos) == [StartBit, Received(sl(pos), NACK), StartBit, StopBit]
            && Flat(cs, sl, pos) == [StartBit, Received(sl(pos), NACK), StopBit]
  {
    var cs := [Restart, Read(dst, 1, NACK), Stop];
    assert cs[1..] == [Read(dst, 1, NACK), Stop] && cs[1..][1..] == [Stop] && [Stop][1..] == [];
    assert SlaveBytes(sl, pos, 1) == [sl(pos)] && ReceivedAll([sl(pos)], NACK) == [Received(sl(pos), NACK)];
    LeftoverStartsReplay(1, dst, 1, NACK, [Stop], sl, pos);
    assert Restarts(1) + [Read(dst, 1, NACK)] + [Stop] == cs;
    assert Starts(1) == [StartBit];
    StopDenotes(1, sl, pos + 1);
    assert Flat([Stop], sl, pos + 1) == [StopBit] + Flat([], sl, pos + 1);
  }

  /** Built by the public calls and run on the engine, that list puts two STARTs on the bus. */
  method ReadOneByte(m: Master, dst: nat) returns (r: Err)
    requires m.regs.Length == REGISTERS
    modifies m, m.regs
    ensures m.bus == old(m.bus) + [StartBit, Received(m.slave(old(m.pos)), NACK), StartBit, StopBit]
    ensures m.mem == old(m.mem) + [(dst, m.slave(old(m.pos)))]
    ensures r == ESP_OK
  {
    var link := new CmdLink();
    link.MasterStart();
    var _ := link.MasterRead(dst, 1, NACK);
    link.MasterStop();
    ghost var cs, pos := link.cmds, m.pos;
    assert ReadLinks(dst, 1, NACK) == [Read(dst, 1, NACK)] + ReadLinks(dst + 1, 0, NACK);
    assert cs == [Restart, Read(dst, 1, NACK), Stop];
    assert cs[1] in cs && IsTransfer(cs[1]);
    StartReadStopTrace(dst, m.slave, pos);
    assert cs[1..] == [Read(dst, 1, NACK), Stop] && cs[1..][1..] == [Stop];
    StopDenotes(0, m.slave, pos + 1);
    assert Stores(cs, m.slave, pos) == [(dst, m.slave(pos))];
    var n;
    r, n := m.Transfer(link.cmds);
  }

  /** START and STOP alone: the bus sees both, but the handler ignores the interrupt of the STOP,
      nobody tells the task and it times out. */
  method StartStop(m: Master) returns (r: Err)
    requires m.regs.Length == REGISTERS
    modifies m, m.regs
    ensures m.bus == old(m.bus) + [StartBit, StopBit] && m.mem == old(m.mem)
    ensures r == ESP_ERR_TIMEOUT && !m.done
  {
    var link := new CmdLink();
    link.MasterStart();
    link.MasterStop();
    ghost var cs, pos := link.cmds, m.pos;
    assert cs == [Restart, Stop] && cs[1..] == [Stop] && [Stop][1..] == [];
    StopDenotes(1, m.slave, pos);
    assert Replayed(cs, 0, m.slave, pos) == [StartBit] + Replayed([Stop], 1, m.slave, pos);
    assert Stores(cs, m.slave, pos) == Stores([Stop], m.slave, pos);
    var n;
    r, n := m.Transfer(link.cmds);
  }
}
