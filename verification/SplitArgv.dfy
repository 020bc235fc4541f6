/** The console tokenizer (split_argv.c): it splits a command line in place, so its output
    overwrites its input while it is still reading. */
module SplitArgv {
  const NUL := '\0'
  const SPACE := ' '
  const QUOTE := '"'
  const ESCAPE := '\\'

  datatype Mode = InSpace | InArg | InQuoted

  predicate Special(c: char) { c == SPACE || c == QUOTE || c == ESCAPE }

  // ---- the tokens of a line ----

  /** The arguments of the rest `s` of a line, when `cur` has been read of the current one. */
  function Tokens(s: string, m: Mode, escaped: bool, cur: string): seq<string>
    decreases |s|
  {
    if s == [] then if m == InSpace then [] else [cur]
    else
      var c, rest := s[0], s[1..];
      match m
      case InSpace =>
        if c == SPACE then Tokens(rest, InSpace, false, "")
        else if c == QUOTE then Tokens(rest, InQuoted, false, "")
        else if c == ESCAPE then Tokens(rest, InArg, true, "")
        else Tokens(rest, InArg, false, [c])
      case InArg =>
        if escaped then Tokens(rest, m, false, if Special(c) then cur + [c] else cur)
        else if c == SPACE then [cur] + Tokens(rest, InSpace, false, "")
        else if c == ESCAPE then Tokens(rest, m, true, cur)
        else Tokens(rest, m, false, cur + [c])
      case InQuoted =>
        if escaped then Tokens(rest, m, false, if Special(c) then cur + [c] else cur)
        else if c == QUOTE then [cur] + Tokens(rest, InSpace, false, "")
        else if c == ESCAPE then Tokens(rest, m, true, cur)
        else Tokens(rest, m, false, cur + [c])
  }

  function Split(s: string): seq<string> { Tokens(s, InSpace, false, "") }

  // ---- quoting arguments so that they split back ----

  /** An argument, written bare or in quotes and followed by `gap` spaces. */
  datatype Item = Item(arg: string, quoted: bool, gap: nat)

  /** Backslash and quote are always escaped, a space only outside quotes. */
  function Escaped(arg: string, quoted: bool): string
  {
    if arg == [] then []
    else if arg[0] == ESCAPE || arg[0] == QUOTE || (arg[0] == SPACE && !quoted) then
      [ESCAPE, arg[0]] + Escaped(arg[1..], quoted)
    else [arg[0]] + Escaped(arg[1..], quoted)
  }

  function Spaces(n: nat): string { seq(n, _ => SPACE) }

  function Written(i: Item): string
  {
    (if i.quoted then [QUOTE] + Escaped(i.arg, true) + [QUOTE] else Escaped(i.arg, false)) + Spaces(i.gap)
  }

  function Line(items: seq<Item>): string
  {
    if items == [] then [] else Written(items[0]) + Line(items[1..])
  }

  function Args(items: seq<Item>): seq<string>
  {
    if items == [] then [] else [items[0].arg] + Args(items[1..])
  }

  /** A bare argument is not empty and, unless it is the last, is followed by a space. */
  predicate WellQuoted(items: seq<Item>)
  {
    forall k | 0 <= k < |items| && !items[k].quoted ::
      items[k].arg != [] && (k < |items| - 1 ==> items[k].gap > 0)
  }

  lemma {:induction false} SpacesSkipped(n: nat, s: string)
    ensures Split(Spaces(n) + s) == Split(s)
  {
    if n == 0 {
      assert Spaces(n) + s == s;
    } else {
      assert (Spaces(n) + s)[1..] == Spaces(n - 1) + s;
      SpacesSkipped(n - 1, s);
    }
  }

  /** Reading back one escape sequence. */
  lemma EscapeReads(c: char, m: Mode, cur: string, rest: string)
    requires Special(c)
    ensures m != InSpace ==> Tokens([ESCAPE, c] + rest, m, false, cur) == Tokens(rest, m, false, cur + [c])
    ensures Split([ESCAPE, c] + rest) == Tokens(rest, InArg, false, [c])
  {
    assert ([ESCAPE, c] + rest)[1..] == [c] + rest;
    assert ([c] + rest)[1..] == rest;
    if m != InSpace {
      assert Tokens([c] + rest, m, true, cur) == Tokens(rest, m, false, cur + [c]);
    }
    assert Tokens([c] + rest, InArg, true, []) == Tokens(rest, InArg, false, [] + [c]);
    assert [] + [c] == [c];
  }

  /** Which characters an escaped argument shields. */
  predicate Shielded(c: char, m: Mode)
  {
    c == ESCAPE || c == QUOTE || (c == SPACE && m != InQuoted)
  }

  lemma ShieldedIsSpecial(c: char, m: Mode)
    requires Shielded(c, m)
    ensures Special(c)
  {}

  lemma PlainReads(c: char, m: Mode, cur: string, rest: string)
    requires m != InSpace && !Shielded(c, m)
    ensures Tokens([c] + rest, m, false, cur) == Tokens(rest, m, false, cur + [c])
  {
    assert ([c] + rest)[1..] == rest;
  }

  lemma EscapedParts(arg: string, m: Mode, rest: string)
    requires arg != []
    ensures Escaped(arg, m == InQuoted) + rest ==
            (if Shielded(arg[0], m) then [ESCAPE, arg[0]] else [arg[0]]) + (Escaped(arg[1..], m == InQuoted) + rest)
  {}

  lemma MoveOver(cur: string, arg: string)
    requires arg != []
    ensures (cur + [arg[0]]) + arg[1..] == cur + arg
  {}

  /** Reading back an escaped argument. */
  lemma {:induction false} EscapedReads(arg: string, m: Mode, cur: string, rest: string)
    requires m != InSpace
    ensures Tokens(Escaped(arg, m == InQuoted) + rest, m, false, cur) == Tokens(rest, m, false, cur + arg)
    decreases |arg|
  {
    hide Tokens, Split;
    if arg == [] {
      assert Escaped(arg, m == InQuoted) + rest == rest;
      assert cur + arg == cur;
    } else {
      hide Escaped, Shielded;
      var c, tail := arg[0], Escaped(arg[1..], m == InQuoted) + rest;
      EscapedParts(arg, m, rest);
      EscapedReads(arg[1..], m, cur + [c], rest);
      MoveOver(cur, arg);
      if Shielded(c, m) {
        ShieldedIsSpecial(c, m);
        EscapeReads(c, m, cur, tail);
      } else {
        PlainReads(c, m, cur, tail);
      }
    }
  }

  /** A bare argument opens at its first character. */
  lemma BareReads(arg: string, rest: string)
    requires arg != []
    ensures Split(Escaped(arg, false) + rest) == Tokens(rest, InArg, false, arg)
  {
    var c, tail := arg[0], Escaped(arg[1..], false) + rest;
    EscapedReads(arg[1..], InArg, [c], rest);
    assert [c] + arg[1..] == arg;
    if Special(c) {
      assert Escaped(arg, false) + rest == [ESCAPE, c] + tail;
      EscapeReads(c, InSpace, [], tail);
    } else {
      assert Escaped(arg, false) + rest == [c] + tail;
    }
  }

  /** One written argument splits off. */
  lemma ItemSplits(i: Item, rest: string)
    requires !i.quoted ==> i.arg != [] && (i.gap > 0 || rest == [])
    ensures Split(Written(i) + rest) == [i.arg] + Split(rest)
  {
    hide Escaped;
    var after := Spaces(i.gap) + rest;
    SpacesSkipped(i.gap, rest);
    if i.quoted {
      EscapedReads(i.arg, InQuoted, [], [QUOTE] + after);
      assert [] + i.arg == i.arg;
      assert Written(i) + rest == [QUOTE] + (Escaped(i.arg, true) + ([QUOTE] + after));
      assert ([QUOTE] + after)[1..] == after;
    } else {
      BareReads(i.arg, after);
      assert Written(i) + rest == Escaped(i.arg, false) + after;
      if i.gap > 0 {
        assert after[1..] == Spaces(i.gap - 1) + rest;
        SpacesSkipped(i.gap - 1, rest);
      } else {
        assert after == [];
      }
    }
  }

  /** Any argument list, quoted and escaped by the documented rules, splits back to itself. */
  lemma {:induction false} QuotedArgsSplitBack(lead: nat, items: seq<Item>)
    requires WellQuoted(items)
    ensures Split(Spaces(lead) + Line(items)) == Args(items)
    decreases |items|
  {
    SpacesSkipped(lead, Line(items));
    if items == [] {
    } else {
      var rest := items[1..];
      assert WellQuoted(rest) by {
        forall k | 0 <= k < |rest| && !rest[k].quoted
          ensures rest[k].arg != [] && (k < |rest| - 1 ==> rest[k].gap > 0)
        {
          assert rest[k] == items[k + 1];
        }
      }
      QuotedArgsSplitBack(0, rest);
      SpacesSkipped(0, Line(rest));
      ItemSplits(items[0], Line(rest));
    }
  }

  // ---- the in-place algorithm ----

  /** A pointer into the line, or NULL. */
  datatype Ptr = Null | At(offset: nat)

  /** The C string at offset `o`. */
  function CString(buf: seq<char>, o: nat): (t: string)
    requires o <= |buf|
    ensures |t| <= |buf| - o
    decreases |buf| - o
  {
    if o == |buf| || buf[o] == NUL then [] else [buf[o]] + CString(buf, o + 1)
  }

  lemma {:induction false} CStringIs(buf: seq<char>, o: nat, t: string)
    requires o + |t| < |buf| && buf[o..o + |t|] == t && buf[o + |t|] == NUL && NUL !in t
    ensures CString(buf, o) == t
    decreases |t|
  {
    if t == [] {
    } else {
      assert buf[o] == t[0];
      assert buf[o + 1..o + 1 + |t[1..]|] == t[1..];
      CStringIs(buf, o + 1, t[1..]);
    }
  }

  lemma {:induction false} CStringSpan(buf: seq<char>, o: nat) returns (n: nat)
    requires o <= |buf| && NUL in buf[o..]
    ensures o <= n < |buf| && buf[n] == NUL && CString(buf, o) == buf[o..n] && NUL !in buf[o..n]
    decreases |buf| - o
  {
    n := o;
    if buf[o] == NUL {
    } else {
      assert buf[o..][1..] == buf[o + 1..];
      n := CStringSpan(buf, o + 1);
      assert buf[o..n] == [buf[o]] + buf[o + 1..n];
    }
  }

  /** The finished arguments `done` stand in the line below `limit`, each with its terminator. */
  ghost predicate Stand(buf: seq<char>, ptrs: seq<Ptr>, done: seq<string>, limit: nat)
  {
    && |done| <= |ptrs| && limit <= |buf|
    && forall i | 0 <= i < |done| :: Stands(buf, ptrs[i], done[i], limit)
  }

  ghost predicate Stands(buf: seq<char>, p: Ptr, t: string, limit: nat)
    requires limit <= |buf|
  {
    && p.At? && p.offset + |t| < limit && NUL !in t
    && buf[p.offset..p.offset + |t|] == t && buf[p.offset + |t|] == NUL
  }

  lemma StandKept(buf: seq<char>, ptrs: seq<Ptr>, done: seq<string>, limit: nat, c: char)
    requires Stand(buf, ptrs, done, limit) && limit < |buf|
    ensures Stand(buf[limit := c], ptrs, done, limit) && Stand(buf[limit := c], ptrs, done, limit + 1)
  {
    forall i | 0 <= i < |done|
      ensures Stands(buf[limit := c], ptrs[i], done[i], limit) && Stands(buf[limit := c], ptrs[i], done[i], limit + 1)
    {
      assert Stands(buf, ptrs[i], done[i], limit);
      assert buf[limit := c][ptrs[i].offset..ptrs[i].offset + |done[i]|] == done[i];
    }
  }

  lemma StandMore(buf: seq<char>, ptrs: seq<Ptr>, done: seq<string>, limit: nat, start: nat, cur: string)
    requires Stand(buf, ptrs, done, limit) && limit < |buf| && |done| < |ptrs|
    requires start + |cur| == limit && buf[start..limit] == cur && NUL !in cur
    ensures Stand(buf[limit := NUL], ptrs[|done| := At(start)], done + [cur], limit + 1)
  {
    var buf', ptrs', done' := buf[limit := NUL], ptrs[|done| := At(start)], done + [cur];
    StandKept(buf, ptrs, done, limit, NUL);
    forall i | 0 <= i < |done'| ensures Stands(buf', ptrs'[i], done'[i], limit + 1) {
      if i < |done| {
        assert Stands(buf', ptrs[i], done[i], limit + 1);
      } else {
        assert buf'[start..limit] == cur;
      }
    }
  }

  /** The effect of one character: the next mode, whether it opens an escape sequence, whether
      it is stored and whether it ends the argument. */
  datatype Effect = Effect(m: Mode, escaped: bool, emit: bool, ends: bool)

  function EffectOf(m: Mode, escaped: bool, c: char): Effect
  {
    if escaped then Effect(m, false, Special(c), false)
    else match m
      case InSpace =>
        if c == SPACE then Effect(InSpace, false, false, false)
        else Effect(if c == QUOTE then InQuoted else InArg, c == ESCAPE, c != QUOTE && c != ESCAPE, false)
      case InArg =>
        if c == SPACE then Effect(InSpace, false, false, true) else Effect(m, c == ESCAPE, c != ESCAPE, false)
      case InQuoted =>
        if c == QUOTE then Effect(InSpace, false, false, true) else Effect(m, c == ESCAPE, c != ESCAPE, false)
  }

  lemma TokensAdvance(s: string, input: nat, m: Mode, escaped: bool, cur: string, done: seq<string>)
    requires input < |s| && (m == InSpace ==> !escaped && cur == [])
    ensures var e := EffectOf(m, escaped, s[input]);
            done + Tokens(s[input..], m, escaped, cur) ==
            if e.ends then (done + [cur]) + Tokens(s[input + 1..], InSpace, false, [])
            else done + Tokens(s[input + 1..], e.m, e.escaped, if e.emit then cur + [s[input]] else cur)
  {
    assert s[input..][1..] == s[input + 1..];
    assert [] + [s[input]] == [s[input]];
    var tail := Tokens(s[input + 1..], InSpace, false, []);
    assert done + ([cur] + tail) == (done + [cur]) + tail;
  }

  /** What the loop knows: the tokens of the whole line are the finished ones followed by those
      of the unread part, and the current one stands below the write position. */
  ghost predicate Reading(buf: seq<char>, ptrs: seq<Ptr>, s: string, done: seq<string>,
    m: Mode, escaped: bool, cur: string, start: nat, input: nat, output: nat)
  {
    && output <= input <= |s| < |buf| && |done| < |ptrs|
    && Stand(buf, ptrs, done, output)
    && (m == InSpace ==> !escaped && cur == [])
    && (m != InSpace ==> start + |cur| == output && buf[start..output] == cur && NUL !in cur)
    && Split(s) == done + Tokens(s[input..], m, escaped, cur)
  }

  lemma ReadingStarts(buf: seq<char>, ptrs: seq<Ptr>, s: string)
    requires |s| < |buf| && |ptrs| > 0
    ensures Reading(buf, ptrs, s, [], InSpace, false, [], 0, 0, 0)
  {
    assert s[0..] == s;
  }

  /** One character, seen from the values in line and argv. */
  lemma ReadingAdvances(buf: seq<char>, ptrs: seq<Ptr>, s: string, done: seq<string>,
    m: Mode, escaped: bool, cur: string, start: nat, input: nat, output: nat)
    requires Reading(buf, ptrs, s, done, m, escaped, cur, start, input, output)
    requires input < |s| && s[input] != NUL && |done| < |ptrs| - 1
    ensures
      var e := EffectOf(m, escaped, s[input]);
      var start' := if m == InSpace && !escaped && s[input] != SPACE then output else start;
      if e.ends then
        Reading(buf[output := NUL], ptrs[|done| := At(start)], s, done + [cur],
          InSpace, false, [], start, input + 1, output + 1)
      else if e.emit then
        Reading(buf[output := s[input]], ptrs, s, done, e.m, e.escaped, cur + [s[input]], start', input + 1, output + 1)
      else Reading(buf, ptrs, s, done, e.m, e.escaped, cur, start', input + 1, output)
  {
    hide Tokens;
    TokensAdvance(s, input, m, escaped, cur, done);
    var e := EffectOf(m, escaped, s[input]);
    if e.ends {
      StandMore(buf, ptrs, done, output, start, cur);
    } else if e.emit {
      StandKept(buf, ptrs, done, output, s[input]);
      if m != InSpace {
        assert buf[output := s[input]][start..output + 1] == cur + [s[input]];
      }
    }
  }

  lemma FrameKept<T>(buf: seq<T>, was: seq<T>, input: nat, output: nat, c: T)
    requires output <= input < |buf| && |buf| == |was| && buf[input..] == was[input..]
    ensures buf[input + 1..] == was[input + 1..] && buf[output := c][input + 1..] == was[input + 1..]
  {
    assert buf[input..][1..] == buf[input + 1..] && was[input..][1..] == was[input + 1..];
  }

  lemma TailKept(buf: seq<char>, was: seq<char>, input: nat, output: nat, n: nat)
    requires output <= input <= n < |buf| && |buf| == |was| && buf[input..] == was[input..] && was[n] == NUL
    ensures buf[output := NUL][n..] == was[n..]
  {
    assert buf[n..] == buf[input..][n - input..] && was[n..] == was[input..][n - input..];
  }

  /** Closing the line: the last argument is finished if there is room for it. */
  lemma ReadingEnds(buf: seq<char>, ptrs: seq<Ptr>, s: string, done: seq<string>,
    m: Mode, escaped: bool, cur: string, start: nat, input: nat, output: nat)
    requires Reading(buf, ptrs, s, done, m, escaped, cur, start, input, output)
    requires input == |s| || |done| == |ptrs| - 1
    ensures
      var last := m != InSpace && |done| < |ptrs| - 1;
      var done' := if last then done + [cur] else done;
      var ptrs' := if last then ptrs[|done| := At(start)] else ptrs;
      Stand(buf[output := NUL], ptrs', done', |buf|) && done' <= Split(s) &&
      (|done'| == |Split(s)| || |done'| == |ptrs| - 1)
  {
    StandKept(buf, ptrs, done, output, NUL);
    if input == |s| {
      assert s[input..] == [];
    }
    if m != InSpace && |done| < |ptrs| - 1 {
      StandMore(buf, ptrs, done, output, start, cur);
      StandWider(buf[output := NUL], ptrs[|done| := At(start)], done + [cur], output + 1);
    } else {
      StandWider(buf[output := NUL], ptrs, done, output);
    }
  }

  lemma StandWider(buf: seq<char>, ptrs: seq<Ptr>, done: seq<string>, limit: nat)
    requires Stand(buf, ptrs, done, limit)
    ensures Stand(buf, ptrs, done, |buf|)
  {
    forall i | 0 <= i < |done| ensures Stands(buf, ptrs[i], done[i], |buf|) {
      assert Stands(buf, ptrs[i], done[i], limit);
    }
  }

  /** What the caller finds: the pointer leads to the argument. */
  ghost predicate Delivers(buf: seq<char>, p: Ptr, t: string)
  {
    p.At? && p.offset <= |buf| && CString(buf, p.offset) == t
  }

  lemma StandsDelivers(buf: seq<char>, p: Ptr, t: string)
    requires Stands(buf, p, t, |buf|)
    ensures Delivers(buf, p, t)
  {
    CStringIs(buf, p.offset, t);
  }

  lemma StandDelivers(buf: seq<char>, ptrs: seq<Ptr>, done: seq<string>)
    requires Stand(buf, ptrs, done, |buf|)
    ensures forall i | 0 <= i < |done| :: Delivers(buf, ptrs[i], done[i])
  {
    hide Delivers;
    forall i | 0 <= i < |done| ensures Delivers(buf, ptrs[i], done[i]) {
      StandsDelivers(buf, ptrs[i], done[i]);
    }
  }

  /** The end of `esp_console_split_argv`: terminate the line and finish the last argument. */
  method Finish(line: array<char>, argv: array<Ptr>, argc0: nat, mode: Mode, start: nat, output: nat,
    ghost s: string, ghost done: seq<string>, ghost escaped: bool, ghost cur: string, ghost input: nat)
    returns (argc: nat)
    requires Reading(line[..], argv[..], s, done, mode, escaped, cur, start, input, output)
    requires argc0 == |done| && (input == |s| || argc0 == argv.Length - 1)
    modifies line, argv
    ensures argc0 <= argc < argv.Length && argc <= |Split(s)|
    ensures argc == |Split(s)| || argc == argv.Length - 1
    ensures forall i | 0 <= i < argc :: Delivers(line[..], argv[i], Split(s)[i])
    ensures argv[argc] == Null && argv[argc + 1..] == old(argv[argc + 1..])
    ensures line[..] == old(line[..])[output := NUL]
  {
    hide Tokens, Split, Stand, Delivers;
    ghost var done' := done;
    ReadingEnds(line[..], argv[..], s, done, mode, escaped, cur, start, input, output);
    line[output] := NUL;
    assert line[..] == old(line[..])[output := NUL];
    argc := argc0;
    if mode != InSpace && argc < argv.Length - 1 {
      argv[argc] := At(start);
      argc := argc + 1;
      done' := done + [cur];
    }
    StandDelivers(line[..], argv[..], done');
    argv[argc] := Null;
  }

  /** `esp_console_split_argv`; `argv.Length` is `argv_size`. */
  method SplitInPlace(line: array<char>, argv: array<Ptr>) returns (argc: nat)
    requires NUL in line[..] && argv.Length > 0
    modifies line, argv
    ensures argc < argv.Length
    ensures argc == |Split(CString(old(line[..]), 0))| ||
            (argc == argv.Length - 1 && argc <= |Split(CString(old(line[..]), 0))|)
    ensures forall i | 0 <= i < argc :: Delivers(line[..], argv[i], Split(CString(old(line[..]), 0))[i])
    ensures argv[argc] == Null && argv[argc + 1..] == old(argv[..])[argc + 1..]
    ensures line[|CString(old(line[..]), 0)|..] == old(line[..])[|CString(old(line[..]), 0)|..]
  {
    hide Tokens, Split, Reading, Stand, Delivers, CString;
    ghost var was, slots := line[..], argv[..];
    assert was[0..] == was;
    ghost var n := CStringSpan(was, 0);
    ghost var s := was[0..n];
    ghost var done, cur: string := [], [];
    var mode, escaped := InSpace, false;
    argc := 0;
    var start, output, input := 0, 0, 0;
    ReadingStarts(was, slots, s);
    while argc < argv.Length - 1
      invariant argc == |done| < argv.Length && output <= input <= n
      invariant Reading(line[..], argv[..], s, done, mode, escaped, cur, start, input, output)
      invariant line[input..] == was[input..] && argv[argc..] == slots[argc..]
      decreases n - input
    {
      var c := line[input];
      assert c == was[input];
      if c == NUL {
        break;
      }
      assert input < n && s[input] == c;
      ghost var buf, ptrs, effect := line[..], argv[..], EffectOf(mode, escaped, c);
      ReadingAdvances(buf, ptrs, s, done, mode, escaped, cur, start, input, output);
      FrameKept(buf, was, input, output, if effect.ends then NUL else c);
      var emit, ends := false, false;
      if escaped {
        emit := Special(c);
        escaped := false;
      } else {
        match mode
        case InSpace =>
          if c != SPACE {
            start := output;
            mode := if c == QUOTE then InQuoted else InArg;
            escaped := c == ESCAPE;
            emit := c != QUOTE && c != ESCAPE;
          }
        case InQuoted =>
          ends := c == QUOTE;
          escaped := c == ESCAPE;
          emit := c != QUOTE && c != ESCAPE;
        case InArg =>
          ends := c == SPACE;
          escaped := c == ESCAPE;
          emit := c != SPACE && c != ESCAPE;
      }
      assert effect == Effect(if ends then InSpace else mode, escaped, emit, ends);
      if ends {
        FrameKept(ptrs, slots, argc, argc, At(start));
        argv[argc] := At(start);
        assert argv[..] == ptrs[argc := At(start)];
        argc := argc + 1;
        mode := InSpace;
        line[output] := NUL;
        assert line[..] == buf[output := NUL];
        output := output + 1;
        done, cur := done + [cur], [];
        assert Reading(line[..], argv[..], s, done, mode, escaped, cur, start, input + 1, output);
      } else if emit {
        line[output] := c;
        assert line[..] == buf[output := c];
        output := output + 1;
        cur := cur + [c];
        assert argv[..] == ptrs;
        assert Reading(line[..], argv[..], s, done, mode, escaped, cur, start, input + 1, output);
      } else {
        assert line[..] == buf;
        assert argv[..] == ptrs;
        assert Reading(line[..], argv[..], s, done, mode, escaped, cur, start, input + 1, output);
      }
      input := input + 1;
    }
    TailKept(line[..], was, input, output, n);
    argc := Finish(line, argv, argc, mode, start, output, s, done, escaped, cur, input);
  }
}
