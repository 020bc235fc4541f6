/** Releasing Bluetooth controller memory to the heap (bt.c): regions are tagged with the modes
    that still use them, and neighbouring released regions are handed over as one. */
module BtMem {
  /** A set of modes: bit 0 is BLE, bit 1 is Classic. */
  type Mode = bv2

  const IDLE: Mode := 0
  const BTDM: Mode := 3

  datatype Region = Region(mode: Mode, start: int, end: int)

  datatype Interval = Interval(lo: int, hi: int)

  predicate Inside(x: int, lo: int, hi: int) { lo <= x < hi }

  /** Releasing `mode` takes the last user of a region in use by `m`. */
  predicate Freed(m: Mode, mode: Mode) { m != IDLE && mode & m == m }

  function Clear(m: Mode, mode: Mode): Mode { m & !mode }

  function ClearAll(rs: seq<Region>, mode: Mode): (cs: seq<Region>)
    ensures |cs| == |rs| && forall i | 0 <= i < |rs| :: cs[i] == rs[i].(mode := Clear(rs[i].mode, mode))
  {
    seq(|rs|, i requires 0 <= i < |rs| => rs[i].(mode := Clear(rs[i].mode, mode)))
  }

  /** How many of the intervals contain byte `x`. */
  function Hits(given: seq<Interval>, x: int): nat
  {
    if given == [] then 0
    else Hits(given[..|given| - 1], x) + if Inside(x, given[|given| - 1].lo, given[|given| - 1].hi) then 1 else 0
  }

  /** How many of the regions that `mode` frees contain byte `x`. */
  function FreedHits(rs: seq<Region>, mode: Mode, x: int): nat
  {
    if rs == [] then 0
    else
      var r := rs[|rs| - 1];
      FreedHits(rs[..|rs| - 1], mode, x) + if Freed(r.mode, mode) && Inside(x, r.start, r.end) then 1 else 0
  }

  predicate WellFormed(rs: seq<Region>)
  {
    |rs| > 0 && forall r | r in rs :: r.start <= r.end
  }

  lemma HitsAppend(given: seq<Interval>, i: Interval, x: int)
    ensures Hits(given + [i], x) == Hits(given, x) + if Inside(x, i.lo, i.hi) then 1 else 0
  {
    assert (given + [i])[..|given|] == given;
  }

  lemma {:induction false} HitsJoin(a: seq<Interval>, b: seq<Interval>, x: int)
    ensures Hits(a + b, x) == Hits(a, x) + Hits(b, x)
    decreases |b|
  {
    if b == [] {
      assert a + b == a;
    } else {
      HitsJoin(a, b[..|b| - 1], x);
      assert a + b == (a + b[..|b| - 1]) + [b[|b| - 1]];
      HitsAppend(a + b[..|b| - 1], b[|b| - 1], x);
    }
  }

  /** The bytes given so far, plus those of the pending run, are those of the freed regions. */
  ghost predicate Accounts(given: seq<Interval>, pending: bool, lo: int, hi: int, rs: seq<Region>, mode: Mode)
  {
    forall x :: Hits(given, x) + (if pending && Inside(x, lo, hi) then 1 else 0) == FreedHits(rs, mode, x)
  }

  lemma RegionSkipped(given: seq<Interval>, lo: int, hi: int, rs: seq<Region>, i: nat, mode: Mode)
    requires i < |rs| && Accounts(given, false, lo, hi, rs[..i], mode) && !Freed(rs[i].mode, mode)
    ensures Accounts(given, false, lo, hi, rs[..i + 1], mode)
  {
    assert rs[..i + 1][..i] == rs[..i];
    forall x ensures Hits(given, x) == FreedHits(rs[..i + 1], mode, x) {
      assert Hits(given, x) + (if false && Inside(x, lo, hi) then 1 else 0) == FreedHits(rs[..i], mode, x);
    }
  }

  lemma RegionJoins(given: seq<Interval>, pending: bool, lo: int, hi: int, rs: seq<Region>, i: nat, mode: Mode)
    requires i < |rs| && Freed(rs[i].mode, mode) && rs[i].start <= rs[i].end
    requires Accounts(given, pending, lo, hi, rs[..i], mode)
    requires pending ==> lo <= hi == rs[i].start
    ensures Accounts(given, true, if pending then lo else rs[i].start, rs[i].end, rs[..i + 1], mode)
  {
    assert rs[..i + 1][..i] == rs[..i];
    var lo' := if pending then lo else rs[i].start;
    forall x
      ensures Hits(given, x) + (if Inside(x, lo', rs[i].end) then 1 else 0) == FreedHits(rs[..i + 1], mode, x)
    {
      assert Hits(given, x) + (if pending && Inside(x, lo, hi) then 1 else 0) == FreedHits(rs[..i], mode, x);
    }
  }

  lemma RunGiven(given: seq<Interval>, lo: int, hi: int, rs: seq<Region>, mode: Mode)
    requires Accounts(given, true, lo, hi, rs, mode)
    ensures Accounts(given + [Interval(lo, hi)], false, lo, hi, rs, mode)
  {
    forall x ensures Hits(given + [Interval(lo, hi)], x) == FreedHits(rs, mode, x) {
      HitsAppend(given, Interval(lo, hi), x);
      assert Hits(given, x) + (if true && Inside(x, lo, hi) then 1 else 0) == FreedHits(rs, mode, x);
    }
  }

  /** The loop over the region table in `esp_bt_controller_mem_release`. */
  method ReleaseRegions(regions: array<Region>, mode: Mode) returns (given: seq<Interval>)
    requires WellFormed(regions[..])
    modifies regions
    ensures regions[..] == ClearAll(old(regions[..]), mode)
    ensures forall x :: Hits(given, x) == FreedHits(old(regions[..]), mode, x)
  {
    hide Hits, FreedHits, Accounts, Freed;
    ghost var was := regions[..];
    var update := true;
    var memStart, memEnd := 0, 0;
    given := [];
    NothingYet(was, mode);
    for i := 0 to regions.Length
      invariant regions[..i] == ClearAll(was, mode)[..i] && regions[i..] == was[i..]
      invariant Accounts(given, !update, memStart, memEnd, was[..i], mode)
      invariant !update ==> i < regions.Length && Freed(was[i].mode, mode) && memStart <= memEnd == was[i].start
    {
      assert regions[i] == was[i] && was[i] in was;
      if !Freed(regions[i].mode, mode) {
        regions[i] := regions[i].(mode := Clear(regions[i].mode, mode));
        RegionSkipped(given, memStart, memEnd, was, i, mode);
        continue;
      }
      regions[i] := regions[i].(mode := Clear(regions[i].mode, mode));
      RegionJoins(given, !update, memStart, memEnd, was, i, mode);
      if update {
        memStart, memEnd, update := regions[i].start, regions[i].end, false;
      }
      memEnd := regions[i].end;
      if i < regions.Length - 1 {
        if Freed(regions[i + 1].mode, mode) && memEnd == regions[i + 1].start {
          continue;
        }
      }
      RunGiven(given, memStart, memEnd, was[..i + 1], mode);
      given := given + [Interval(memStart, memEnd)];
      update := true;
    }
    assert was[..|was|] == was;
    AllGiven(given, memStart, memEnd, was, mode);
  }

  lemma NothingYet(rs: seq<Region>, mode: Mode)
    ensures Accounts([], false, 0, 0, rs[..0], mode)
  {}

  lemma AllGiven(given: seq<Interval>, lo: int, hi: int, rs: seq<Region>, mode: Mode)
    requires Accounts(given, false, lo, hi, rs, mode)
    ensures forall x :: Hits(given, x) == FreedHits(rs, mode, x)
  {
    forall x ensures Hits(given, x) == FreedHits(rs, mode, x) {
      assert Hits(given, x) + (if false && Inside(x, lo, hi) then 1 else 0) == FreedHits(rs, mode, x);
    }
  }

  // ---- any sequence of calls ----

  /** A call of `esp_bt_controller_mem_release`, and whether the controller is idle then. */
  datatype Call = Call(mode: Mode, idle: bool)

  predicate Accepted(rs: seq<Region>, c: Call)
  {
    c.idle && |rs| > 0 && c.mode & rs[0].mode != IDLE
  }

  function AfterCall(rs: seq<Region>, c: Call): (after: seq<Region>)
    ensures |after| == |rs|
  {
    if Accepted(rs, c) then ClearAll(rs, c.mode) else rs
  }

  function AfterCalls(rs: seq<Region>, cs: seq<Call>): (after: seq<Region>)
    ensures |after| == |rs|
    decreases |cs|
  {
    if cs == [] then rs else AfterCalls(AfterCall(rs, cs[0]), cs[1..])
  }

  /** How many intervals given from the table by a sequence of calls contain byte `x`. */
  function GivenHits(rs: seq<Region>, cs: seq<Call>, x: int): nat
    decreases |cs|
  {
    if cs == [] then 0
    else
      (if Accepted(rs, cs[0]) then FreedHits(rs, cs[0].mode, x) else 0) +
      GivenHits(AfterCall(rs, cs[0]), cs[1..], x)
  }

  /** The union of the accepted modes. */
  function AcceptedModes(rs: seq<Region>, cs: seq<Call>): Mode
    decreases |cs|
  {
    if cs == [] then IDLE
    else (if Accepted(rs, cs[0]) then cs[0].mode else IDLE) | AcceptedModes(AfterCall(rs, cs[0]), cs[1..])
  }

  /** How many of the regions whose last mode was released between `rs` and `after` contain `x`. */
  function RetiredHits(rs: seq<Region>, after: seq<Region>, x: int): nat
    requires |rs| == |after|
  {
    if rs == [] then 0
    else
      var n := |rs| - 1;
      RetiredHits(rs[..n], after[..n], x) +
      if rs[n].mode != IDLE && after[n].mode == IDLE && Inside(x, rs[n].start, rs[n].end) then 1 else 0
  }

  lemma ClearFacts(m: Mode, mode: Mode, more: Mode)
    ensures Freed(m, mode) <==> m != IDLE && Clear(m, mode) == IDLE
    ensures Clear(Clear(m, mode), more) == Clear(m, mode | more)
    ensures Clear(m, IDLE) == m && Clear(IDLE, mode) == IDLE && IDLE | mode == mode
  {}

  /** Every region loses exactly the accepted modes. */
  lemma {:induction false} CallsClear(rs: seq<Region>, cs: seq<Call>)
    ensures AfterCalls(rs, cs) == ClearAll(rs, AcceptedModes(rs, cs))
    decreases |cs|
  {
    hide Clear, Accepted;
    forall i | 0 <= i < |rs|
      ensures AfterCalls(rs, cs)[i] == rs[i].(mode := Clear(rs[i].mode, AcceptedModes(rs, cs)))
    {
      if cs == [] {
        ClearFacts(rs[i].mode, IDLE, IDLE);
      } else {
        CallsClear(AfterCall(rs, cs[0]), cs[1..]);
        var rest := AcceptedModes(AfterCall(rs, cs[0]), cs[1..]);
        ClearFacts(rs[i].mode, cs[0].mode, rest);
        ClearFacts(rs[i].mode, rest, rest);
      }
    }
  }

  /** What one call frees is retired by it; what later calls retire was still in use after it. */
  lemma {:induction false} RetiredSplits(rs: seq<Region>, mode: Mode, more: Mode, x: int)
    ensures RetiredHits(rs, ClearAll(rs, mode | more), x) ==
            FreedHits(rs, mode, x) + RetiredHits(ClearAll(rs, mode), ClearAll(rs, mode | more), x)
  {
    hide Clear, Freed;
    if rs == [] {
    } else {
      var n := |rs| - 1;
      var m := rs[n].mode;
      RetiredSplits(rs[..n], mode, more, x);
      assert ClearAll(rs, mode)[..n] == ClearAll(rs[..n], mode);
      assert ClearAll(rs, mode | more)[..n] == ClearAll(rs[..n], mode | more);
      ClearFacts(m, mode, more);
      ClearFacts(m, more, more);
      ClearIdle(m, mode, more);
    }
  }

  lemma ClearIdle(m: Mode, mode: Mode, more: Mode)
    ensures Freed(m, mode) ==> m != IDLE && Clear(m, mode) == IDLE && Clear(m, mode | more) == IDLE
    ensures !Freed(m, mode) && m != IDLE ==> Clear(m, mode) != IDLE
    ensures m == IDLE ==> Clear(m, mode) == IDLE && Clear(m, mode | more) == IDLE
  {}

  /** Conservation over any sequence of calls: the intervals given from the table cover, with
      multiplicity, exactly the regions whose last mode has been released. */
  lemma {:induction false} CallsGiveRetired(rs: seq<Region>, cs: seq<Call>, x: int)
    ensures GivenHits(rs, cs, x) == RetiredHits(rs, AfterCalls(rs, cs), x)
    decreases |cs|
  {
    hide Clear, Freed, FreedHits, RetiredHits, Accepted;
    CallsClear(rs, cs);
    if cs == [] {
      NoneRetired(rs, x);
    } else {
      var next := AfterCall(rs, cs[0]);
      CallsGiveRetired(next, cs[1..], x);
      var more := AcceptedModes(next, cs[1..]);
      if Accepted(rs, cs[0]) {
        RetiredSplits(rs, cs[0].mode, more, x);
      }
      ClearFacts(IDLE, more, more);
    }
  }

  lemma {:induction false} NoneRetired(rs: seq<Region>, x: int)
    ensures RetiredHits(rs, rs, x) == 0
  {
    if rs == [] {
    } else {
      NoneRetired(rs[..|rs| - 1], x);
    }
  }

  /** Regions that do not overlap. */
  predicate Disjoint(rs: seq<Region>)
  {
    forall i, j | 0 <= i < j < |rs| :: rs[i].end <= rs[j].start || rs[j].end <= rs[i].start
  }

  lemma {:induction false} DisjointHits(rs: seq<Region>, after: seq<Region>, x: int)
    requires |rs| == |after| && Disjoint(rs)
    ensures RetiredHits(rs, after, x) <= 1
    ensures RetiredHits(rs, after, x) == 1 <==>
            exists i :: 0 <= i < |rs| && rs[i].mode != IDLE && after[i].mode == IDLE && Inside(x, rs[i].start, rs[i].end)
  {
    if rs == [] {
    } else {
      var n := |rs| - 1;
      DisjointHits(rs[..n], after[..n], x);
    }
  }

  /** No byte of the table is given twice, and once the region that both modes share has been
      given up, every byte of a region that was in use has been given exactly once. */
  lemma {:induction false} EachByteOnce(rs: seq<Region>, cs: seq<Call>, x: int)
    requires WellFormed(rs) && Disjoint(rs)
    ensures GivenHits(rs, cs, x) <= 1
    ensures rs[0].mode == BTDM && AfterCalls(rs, cs)[0].mode == IDLE ==>
              (GivenHits(rs, cs, x) == 1 <==>
               exists r :: r in rs && r.mode != IDLE && Inside(x, r.start, r.end))
  {
    CallsGiveRetired(rs, cs, x);
    DisjointHits(rs, AfterCalls(rs, cs), x);
    CallsClear(rs, cs);
    var after, all := AfterCalls(rs, cs), AcceptedModes(rs, cs);
    if rs[0].mode == BTDM && after[0].mode == IDLE {
      forall i | 0 <= i < |rs| ensures after[i].mode == IDLE {
        BothCleared(rs[i].mode, all);
      }
      if r :| r in rs && r.mode != IDLE && Inside(x, r.start, r.end) {
        var i :| 0 <= i < |rs| && rs[i] == r;
        assert after[i].mode == IDLE;
      }
    }
  }

  lemma BothCleared(m: Mode, mode: Mode)
    requires Clear(BTDM, mode) == IDLE
    ensures Clear(m, mode) == IDLE
  {}

  /** The union of the modes asked for while the controller is idle. */
  function Requested(cs: seq<Call>): Mode
  {
    if cs == [] then IDLE else (if cs[0].idle then cs[0].mode else IDLE) | Requested(cs[1..])
  }

  /** The first region is in use by every mode that uses any. */
  predicate SharedFirst(rs: seq<Region>)
  {
    |rs| > 0 && forall i | 0 <= i < |rs| :: rs[i].mode & rs[0].mode == rs[i].mode
  }

  lemma SharedModes(m: Mode, first: Mode, mode: Mode)
    requires m & first == m
    ensures Clear(m, mode) & Clear(first, mode) == Clear(m, mode)
    ensures mode & first == IDLE ==> Clear(m, mode) == m
  {}

  /** Calls made while the controller runs do nothing, and a refused one had nothing to release:
      every region loses exactly the modes asked for while idle. */
  lemma {:induction false} CallsClearRequested(rs: seq<Region>, cs: seq<Call>)
    requires SharedFirst(rs)
    ensures AfterCalls(rs, cs) == ClearAll(rs, Requested(cs))
    decreases |cs|
  {
    hide Clear;
    if cs == [] {
      forall i | 0 <= i < |rs| ensures Clear(rs[i].mode, IDLE) == rs[i].mode {
        ClearFacts(rs[i].mode, IDLE, IDLE);
      }
    } else {
      var c, next := cs[0], AfterCall(rs, cs[0]);
      forall i | 0 <= i < |rs|
        ensures next[i] == rs[i].(mode := Clear(rs[i].mode, if c.idle then c.mode else IDLE))
        ensures next[i].mode & next[0].mode == next[i].mode
      {
        SharedModes(rs[i].mode, rs[0].mode, c.mode);
        ClearFacts(rs[i].mode, IDLE, IDLE);
        ClearFacts(rs[0].mode, IDLE, IDLE);
      }
      CallsClearRequested(next, cs[1..]);
      forall i | 0 <= i < |rs| ensures AfterCalls(rs, cs)[i] == ClearAll(rs, Requested(cs))[i] {
        ClearFacts(rs[i].mode, if c.idle then c.mode else IDLE, Requested(cs[1..]));
      }
    }
  }

  // ---- the controller's own data ----

  /** How many accepted calls release both modes at once. */
  function WholeReleases(rs: seq<Region>, cs: seq<Call>): nat
    decreases |cs|
  {
    if cs == [] then 0
    else (if Accepted(rs, cs[0]) && cs[0].mode == BTDM then 1 else 0) + WholeReleases(AfterCall(rs, cs[0]), cs[1..])
  }

  /** The bss and data sections are given at most once. */
  lemma {:induction false} OneWholeRelease(rs: seq<Region>, cs: seq<Call>)
    ensures WholeReleases(rs, cs) <= 1
    ensures |rs| > 0 && rs[0].mode == IDLE ==> WholeReleases(rs, cs) == 0
    decreases |cs|
  {
    if cs == [] {
    } else {
      OneWholeRelease(AfterCall(rs, cs[0]), cs[1..]);
      if Accepted(rs, cs[0]) && cs[0].mode == BTDM {
        assert Clear(rs[0].mode, BTDM) == IDLE;
      }
    }
  }

  /** Releasing the modes one after the other, in either order, empties the table but never gives
      up bss and data. */
  lemma {:induction false} SeparateReleasesKeepData(rs: seq<Region>, first: Mode, second: Mode)
    requires |rs| > 0 && rs[0].mode == BTDM
    requires first != BTDM && second != BTDM && first | second == BTDM
    ensures var cs := [Call(first, true), Call(second, true)];
            WholeReleases(rs, cs) == 0 && forall r | r in AfterCalls(rs, cs) :: r.mode == IDLE
  {
    var cs := [Call(first, true), Call(second, true)];
    var rs1 := AfterCall(rs, cs[0]);
    var rs2 := AfterCall(rs1, cs[1]);
    assert cs[1..] == [Call(second, true)] && cs[1..][1..] == [];
    assert AfterCalls(rs, cs) == AfterCalls(rs1, [Call(second, true)]) == AfterCalls(rs2, []);
    assert WholeReleases(rs1, [Call(second, true)]) == 0;
    forall i | 0 <= i < |rs| ensures rs2[i].mode == IDLE {
      BothOneByOne(BTDM, first, second);
      assert rs1[0].mode == Clear(BTDM, first);
      BothOneByOne(rs[i].mode, first, second);
    }
  }

  lemma BothOneByOne(m: Mode, first: Mode, second: Mode)
    requires first != BTDM && second != BTDM && first | second == BTDM
    ensures Clear(Clear(m, first), second) == IDLE
    ensures first & BTDM != IDLE && second & Clear(BTDM, first) != IDLE
  {}

  /** The controller's memory: the region table and everything given to the heap so far. */
  class Controller {
    const regions: array<Region>
    const bss: Interval
    const data: Interval
    var idle: bool
    var heap: seq<Interval>

    constructor (regions: array<Region>, bss: Interval, data: Interval)
      ensures this.regions == regions && this.bss == bss && this.data == data && idle && heap == []
    {
      this.regions, this.bss, this.data, idle, heap := regions, bss, data, true, [];
    }

    /** Hits in the controller's own sections. */
    function SectionHits(x: int): nat
    {
      (if Inside(x, bss.lo, bss.hi) then 1 else 0) + if Inside(x, data.lo, data.hi) then 1 else 0
    }

    /** `esp_bt_controller_mem_release`. */
    method MemRelease(mode: Mode) returns (ok: bool)
      requires WellFormed(regions[..])
      modifies this`heap, regions
      ensures ok == Accepted(old(regions[..]), Call(mode, idle))
      ensures regions[..] == AfterCall(old(regions[..]), Call(mode, idle))
      ensures WellFormed(regions[..])
      ensures !ok ==> heap == old(heap)
      ensures ok ==> forall x ::
                Hits(heap, x) == Hits(old(heap), x) + FreedHits(old(regions[..]), mode, x) +
                                 if mode == BTDM then SectionHits(x) else 0
      ensures ok && mode == BTDM ==> forall x | Inside(x, bss.lo, bss.hi) || Inside(x, data.lo, data.hi) ::
                Hits(heap, x) > Hits(old(heap), x)
    {
      hide Hits, FreedHits;
      ghost var was, before := regions[..], heap;
      if !idle || mode & regions[0].mode == IDLE {
        return false;
      }
      var given := ReleaseRegions(regions, mode);
      if mode == BTDM {
        if bss.lo != bss.hi {
          given := Append(given, bss);
        }
        if data.lo != data.hi {
          given := Append(given, data);
        }
      }
      heap := heap + given;
      forall x ensures Hits(heap, x) == Hits(before, x) + Hits(given, x) {
        HitsJoin(before, given, x);
      }
      ok := true;
    }

    /** Any sequence of calls: the heap gains what `GivenHits` counts and, for each accepted
        release of both modes at once, the two sections. */
    method Calls(cs: seq<Call>)
      requires WellFormed(regions[..])
      modifies this`heap, this`idle, regions
      ensures regions[..] == AfterCalls(old(regions[..]), cs)
      ensures forall x ::
                Hits(heap, x) == Hits(old(heap), x) + GivenHits(old(regions[..]), cs, x) +
                                 WholeReleases(old(regions[..]), cs) * SectionHits(x)
    {
      hide Hits, FreedHits, Accepted, SectionHits, GivenHits, WholeReleases, AfterCalls;
      ghost var was, before := regions[..], heap;
      for i := 0 to |cs|
        invariant WellFormed(regions[..])
        invariant AfterCalls(regions[..], cs[i..]) == AfterCalls(was, cs)
        invariant forall x :: HeapAt(cs[i..], x) == Hits(before, x) + GivenHits(was, cs, x) +
                                                    WholeReleases(was, cs) * SectionHits(x)
      {
        assert cs[i..][0] == cs[i] && cs[i..][1..] == cs[i + 1..];
        assert Call(cs[i].mode, cs[i].idle) == cs[i];
        idle := cs[i].idle;
        ghost var rs, earlier := regions[..], heap;
        FirstOfCalls(rs, cs[i..]);
        var ok := MemRelease(cs[i].mode);
        forall x
          ensures HeapAt(cs[i + 1..], x) ==
                  Hits(earlier, x) + GivenHits(rs, cs[i..], x) + WholeReleases(rs, cs[i..]) * SectionHits(x)
        {
          OneMore(if ok && cs[i].mode == BTDM then 1 else 0, WholeReleases(regions[..], cs[i + 1..]), SectionHits(x));
        }
      }
      NoCalls(regions[..]);
    }

    /** What byte `x` will have been given once the calls `cs` are done. */
    ghost function HeapAt(cs: seq<Call>, x: int): nat
      reads this`heap, regions
    {
      Hits(heap, x) + GivenHits(regions[..], cs, x) + WholeReleases(regions[..], cs) * SectionHits(x)
    }
  }

  lemma FirstOfCalls(rs: seq<Region>, cs: seq<Call>)
    requires cs != []
    ensures var next := AfterCall(rs, cs[0]);
            && AfterCalls(rs, cs) == AfterCalls(next, cs[1..])
            && WholeReleases(rs, cs) ==
               (if Accepted(rs, cs[0]) && cs[0].mode == BTDM then 1 else 0) + WholeReleases(next, cs[1..])
            && forall x :: GivenHits(rs, cs, x) ==
                 (if Accepted(rs, cs[0]) then FreedHits(rs, cs[0].mode, x) else 0) + GivenHits(next, cs[1..], x)
  {}

  lemma NoCalls(rs: seq<Region>)
    ensures AfterCalls(rs, []) == rs && WholeReleases(rs, []) == 0 && forall x :: GivenHits(rs, [], x) == 0
  {}

  lemma OneMore(now: nat, later: nat, hits: nat)
    ensures (now + later) * hits == now * hits + later * hits
  {}

  method Append(given: seq<Interval>, i: Interval) returns (more: seq<Interval>)
    ensures forall x :: Hits(more, x) == Hits(given, x) + if Inside(x, i.lo, i.hi) then 1 else 0
  {
    more := given + [i];
    forall x ensures Hits(more, x) == Hits(given, x) + if Inside(x, i.lo, i.hi) then 1 else 0 {
      HitsAppend(given, i, x);
    }
  }
}
