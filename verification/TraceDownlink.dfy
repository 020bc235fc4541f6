/** The way from the host to the target: messages parked in acknowledged blocks reach the down
    buffer in order, whole as long as they fit. */
module TraceDownlink {
  import opened Arithmetic
  import opened LittleEndian
  import opened Options
  import opened RingBuffer
  import opened Sequences
  import opened TraceBuffer
  import opened TraceMoves
  import opened TraceSpec

  /** What a down buffer of `size` bytes keeps of messages that come one after the other. */
  function Kept(size: nat, sent: seq<seq<byte>>): seq<byte>
  {
    if sent == [] then []
    else
      var n := |sent| - 1;
      var before := Kept(size, sent[..n]);
      before + sent[n][..DownRoom(size, |before|, |sent[n]|)]
  }

  /** Everything sent has been kept, the last message perhaps still being parked. */
  ghost predicate Delivered(s: State)
  {
    && (s.exposed != [] ==> s.msg == [])
    && if s.msg == [] then s.down == Kept(s.downSize, s.sent)
       else s.sent != [] && s.msg == s.sent[|s.sent| - 1] && s.down == Kept(s.downSize, s.sent[..|s.sent| - 1])
  }

  lemma KeptNext(size: nat, sent: seq<seq<byte>>, m: seq<byte>)
    ensures Kept(size, sent + [m]) == Kept(size, sent) + m[..DownRoom(size, |Kept(size, sent)|, |m|)]
    ensures m == [] ==> Kept(size, sent + [m]) == Kept(size, sent)
  {
    assert (sent + [m])[..|sent|] == sent;
  }

  lemma MoveKeepsDelivered(s: State, m: Prim)
    requires CanDo(s, m) && Delivered(s)
    ensures Delivered(Do(s, m)) && Do(s, m).downSize == s.downSize
    ensures Do(s, m).sent == if m.Acked? then s.sent + [m.msg] else s.sent
    ensures s.read + s.exposed <= Do(s, m).read + Do(s, m).exposed
  {
    hide State.Inv, Kept, Drain, State.Pending, State.Stream;
    match m
    case Swap =>
      if s.msg != [] {
        KeptNext(s.downSize, s.sent[..|s.sent| - 1], s.msg);
        assert s.sent == s.sent[..|s.sent| - 1] + [s.msg];
      }
    case Acked(msg) => KeptNext(s.downSize, s.sent, msg);
    case Direct(b) =>
    case Pend(b) =>
  }

  /** Moves keep that, add exactly the acknowledged messages, and show the host nothing else than
      what follows what it has been shown. */
  lemma {:induction false} MovesKeepDelivered(s: State, ms: seq<Prim>, t: State)
    requires Leads(s, ms, t) && Delivered(s)
    ensures Delivered(t) && t.downSize == s.downSize && t.sent == s.sent + Messages(ms)
    ensures s.read + s.exposed <= t.read + t.exposed
    decreases |ms|
  {
    hide CanDo, Do, Delivered;
    if ms == [] {
      assert s.sent + Messages(ms) == s.sent;
    } else {
      var m, u := ms[0], Do(s, ms[0]);
      MoveKeepsDelivered(s, m);
      MovesKeepDelivered(u, ms[1..], t);
      Regroup(s.sent, if m.Acked? then [m.msg] else [], Messages(ms[1..]));
      assert s.sent + [] == s.sent;
      PrefixOfPrefix(s.read + s.exposed, u.read + u.exposed, t.read + t.exposed);
    }
  }

  lemma PrefixOfPrefix<T>(a: seq<T>, b: seq<T>, c: seq<T>)
    requires a <= b <= c
    ensures a <= c
  {}

  // ---- what is kept ----

  lemma {:induction false} KeptWhole(size: nat, sent: seq<seq<byte>>)
    requires |Concat(sent)| < size
    ensures Kept(size, sent) == Concat(sent)
    decreases |sent|
  {
    if sent == [] {
    } else {
      hide Kept, Concat;
      var init, last := sent[..|sent| - 1], sent[|sent| - 1];
      assert sent == init + [last];
      ConcatSnoc(init, last);
      KeptNext(size, init, last);
      KeptWhole(size, init);
      WholeSlice(last);
    }
  }

  lemma WholeSlice<T>(a: seq<T>)
    ensures a[..|a|] == a
  {}

  /** The first `ns[i]` bytes of each message. */
  function Cut(sent: seq<seq<byte>>, ns: seq<nat>): seq<seq<byte>>
    requires |ns| == |sent| && forall i | 0 <= i < |sent| :: ns[i] <= |sent[i]|
  {
    seq(|sent|, i requires 0 <= i < |sent| => sent[i][..ns[i]])
  }

  /** Messages are kept in order and from their beginning, and one is cut only when the buffer is
      full. */
  lemma {:induction false} KeptPrefixes(size: nat, sent: seq<seq<byte>>) returns (ns: seq<nat>)
    ensures |ns| == |sent| && forall i | 0 <= i < |sent| :: ns[i] <= |sent[i]|
    ensures Kept(size, sent) == Concat(Cut(sent, ns))
    ensures forall i | 0 <= i < |sent| && ns[i] < |sent[i]| :: |Kept(size, sent)| + 1 >= size
    decreases |sent|
  {
    if sent == [] {
      ns := [];
    } else {
      hide Kept, Concat;
      var n, init, last := |sent| - 1, sent[..|sent| - 1], sent[|sent| - 1];
      assert sent == init + [last];
      KeptNext(size, init, last);
      var before := KeptPrefixes(size, init);
      var room := DownRoom(size, |Kept(size, init)|, |last|);
      ns := before + [room];
      assert Cut(sent, ns) == Cut(init, before) + [last[..room]];
      ConcatSnoc(Cut(init, before), last[..room]);
      forall i | 0 <= i < |sent| && ns[i] < |sent[i]| ensures |Kept(size, sent)| + 1 >= size {
        if i < n {
          assert before[i] < |init[i]|;
        }
      }
    }
  }

  /** What has arrived: nothing is lost while all messages together fit the down buffer; else it
      holds a prefix of every message, in order, and none is cut while there is room. */
  ghost predicate Arrived(down: seq<byte>, msg: seq<byte>, size: nat, sent: seq<seq<byte>>)
  {
    && (|Concat(sent)| < size ==> down + msg == Concat(sent))
    && exists ns :: CutTo(down, size, sent, msg, ns)
  }

  ghost predicate CutTo(down: seq<byte>, size: nat, sent: seq<seq<byte>>, msg: seq<byte>, ns: seq<nat>)
  {
    var taken := |sent| - if msg == [] then 0 else 1;
    && 0 <= taken && |ns| == taken && (forall i | 0 <= i < taken :: ns[i] <= |sent[i]|)
    && down == Concat(Cut(sent[..taken], ns))
    && forall i | 0 <= i < taken && ns[i] < |sent[i]| :: |down| + 1 >= size
  }

  lemma DeliveredArrived(s: State)
    requires Delivered(s)
    ensures Arrived(s.down, s.msg, s.downSize, s.sent)
  {
    var taken := |s.sent| - if s.msg == [] then 0 else 1;
    var sent := s.sent[..taken];
    var ns := KeptPrefixes(s.downSize, sent);
    assert taken == |s.sent| ==> sent == s.sent;
    assert CutTo(s.down, s.downSize, s.sent, s.msg, ns);
    if |Concat(s.sent)| < s.downSize {
      if s.msg != [] {
        assert s.sent == sent + [s.msg];
        ConcatSnoc(sent, s.msg);
      }
      KeptWhole(s.downSize, sent);
    }
  }

  /** What an event adds to the messages sent: the first of the host's acknowledgements during it,
      and for an acknowledgement of a non-empty block exactly its message. */
  lemma StepSends(s: State, e: Event)
    requires s.Inv() && Delivered(s) && FitEvent(e) && Step(s, e).Some?
    ensures var t := Step(s, e).value.0;
            && Delivered(t) && s.sent <= t.sent && t.sent[|s.sent|..] <= Acks(EnvOf(e))
            && s.read + s.exposed <= t.read + t.exposed
            && (e.Host? ==> t.sent == s.sent + if e.move.Ack? && s.exposed != [] then [e.move.msg] else [])
  {
    hide Step, State.Inv, Delivered;
    var ms := StepMoves(s, e);
    MovesKeepDelivered(s, ms, Step(s, e).value.0);
  }

  /** Over every run the host's messages arrive. */
  lemma MessagesArrive(pendSize: nat, slotCount: nat, downSize: nat, es: seq<Event>)
    requires pendSize + BLOCK < U32 && slotCount + 1 < U32 && AllFitEvents(es)
    ensures var r := Run(Init(pendSize, slotCount, downSize), es);
            r.Some? ==> var s := r.value.0; Arrived(s.down, s.msg, downSize, s.sent)
  {
    hide Run, Arrived;
    var s := Init(pendSize, slotCount, downSize);
    var r := Run(s, es);
    if r.Some? {
      var ms := RunMoves(s, es);
      MovesKeepDelivered(s, ms, r.value.0);
      DeliveredArrived(r.value.0);
    }
  }

  /** The same in memory: what the host has written into acknowledged blocks is in the ring of the
      down buffer. */
  method MessagesInMemory(pendSize: nat, slotCount: nat, downSize: nat, es: seq<Event>)
    returns (t: Trax, ok: bool, granted: seq<Block>)
    requires pendSize + BLOCK < U32 && slotCount + 1 < U32 && downSize + BLOCK < U32 && AllFitEvents(es)
    ensures ok <==> Run(Init(pendSize, slotCount, downSize), es).Some?
    ensures ok ==> t.Valid() && (t.g, granted) == Run(Init(pendSize, slotCount, downSize), es).value
    ensures ok ==> t.down.Valid() && Arrived(t.down.Queue(), t.g.msg, downSize, t.g.sent)
  {
    hide Run, Init, Arrived, FitEvent;
    var pend := new Ring<byte>(pendSize);
    var slots := new Ring<nat>(slotCount);
    var down := new Ring<byte>(downSize);
    t := new Trax(pend, slots, down);
    ok, granted := t.RunEvents(es);
    MessagesArrive(pendSize, slotCount, downSize, es);
    if ok {
      t.DownIsQueue();
    }
  }
}
