/** What the tokenizer makes of any line at all: every line is a row of written arguments, and it
    splits into their values. */
module SplitGrammar {
  import opened Sequences
  import opened SplitArgv

  /** A character that stands for itself, or a backslash and what follows it. */
  datatype Piece = Plain(c: char) | Escape(c: char)

  /** How an argument ends: by a space or a quote, at the end of the line, or at the end of the line
      behind a lone backslash. */
  datatype Ending = Closed | Cut | CutEscape

  /** An argument as written, bare or in quotes, with the spaces behind it. */
  datatype Word = Word(pieces: seq<Piece>, quoted: bool, ending: Ending, gap: nat)

  /** Escaping another character than backslash, quote and space gives nothing. */
  function Meaning(p: Piece): string
  {
    match p
    case Plain(c) => [c]
    case Escape(c) => if Special(c) then [c] else []
  }

  function Value(ps: seq<Piece>): string { if ps == [] then [] else Meaning(ps[0]) + Value(ps[1..]) }

  function PieceText(p: Piece): string
  {
    match p
    case Plain(c) => [c]
    case Escape(c) => [ESCAPE, c]
  }

  function Text(ps: seq<Piece>): string { if ps == [] then [] else PieceText(ps[0]) + Text(ps[1..]) }

  /** What follows the pieces of a word. */
  function EndText(w: Word): string
  {
    match w.ending
    case Closed => if w.quoted then [QUOTE] + Spaces(w.gap) else Spaces(w.gap)
    case Cut => []
    case CutEscape => [ESCAPE]
  }

  function WordText(w: Word): string { (if w.quoted then [QUOTE] else []) + (Text(w.pieces) + EndText(w)) }

  function LineText(ws: seq<Word>): string { if ws == [] then [] else WordText(ws[0]) + LineText(ws[1..]) }

  function Values(ws: seq<Word>): seq<string> { if ws == [] then [] else [Value(ws[0].pieces)] + Values(ws[1..]) }

  /** In quotes everything but a quote and a backslash stands for itself, outside them everything but
      a space and a backslash. */
  predicate Fits(p: Piece, quoted: bool)
  {
    p.Plain? ==> p.c != ESCAPE && p.c != if quoted then QUOTE else SPACE
  }

  predicate AllFit(ps: seq<Piece>, quoted: bool) { forall i | 0 <= i < |ps| :: Fits(ps[i], quoted) }

  /** A word that can stand in a line, `last` if nothing follows it. A bare one does not begin with a
      quote and is closed by a space. */
  predicate WellWritten(w: Word, last: bool)
  {
    && AllFit(w.pieces, w.quoted)
    && (w.ending != Closed ==> last && w.gap == 0)
    && (!w.quoted ==>
          && (w.pieces != [] || w.ending == CutEscape)
          && (w.pieces != [] ==> w.pieces[0] != Plain(QUOTE))
          && (w.ending == Closed ==> w.gap > 0))
  }

  predicate AllWritten(ws: seq<Word>) { forall i | 0 <= i < |ws| :: WellWritten(ws[i], i == |ws| - 1) }

  // ---- a written line splits into its values ----

  lemma PieceReads(p: Piece, m: Mode, cur: string, rest: string)
    requires m != InSpace && Fits(p, m == InQuoted)
    ensures Tokens(PieceText(p) + rest, m, false, cur) == Tokens(rest, m, false, cur + Meaning(p))
  {
    match p
    case Plain(c) => assert ([c] + rest)[1..] == rest;
    case Escape(c) =>
      assert ([ESCAPE, c] + rest)[1..] == [c] + rest && ([c] + rest)[1..] == rest;
      assert Tokens([c] + rest, m, true, cur) == Tokens(rest, m, false, if Special(c) then cur + [c] else cur);
      assert cur + [] == cur;
  }

  lemma {:induction false} PiecesRead(ps: seq<Piece>, m: Mode, cur: string, rest: string)
    requires m != InSpace && AllFit(ps, m == InQuoted)
    ensures Tokens(Text(ps) + rest, m, false, cur) == Tokens(rest, m, false, cur + Value(ps))
    decreases |ps|
  {
    hide Tokens, Fits;
    if ps == [] {
      assert Text(ps) + rest == rest && cur + Value(ps) == cur;
    } else {
      Regroup(PieceText(ps[0]), Text(ps[1..]), rest);
      PieceReads(ps[0], m, cur, Text(ps[1..]) + rest);
      PiecesRead(ps[1..], m, cur + Meaning(ps[0]), rest);
      Regroup(cur, Meaning(ps[0]), Value(ps[1..]));
    }
  }

  /** A bare word opens with its first piece, a quoted one with its quote. */
  lemma WordOpens(w: Word, rest: string)
    requires WellWritten(w, true) || WellWritten(w, false)
    requires w.quoted || w.pieces != []
    ensures Split((if w.quoted then [QUOTE] else []) + (Text(w.pieces) + rest)) ==
            Tokens(rest, if w.quoted then InQuoted else InArg, false, Value(w.pieces))
  {
    if w.quoted {
      assert ([QUOTE] + (Text(w.pieces) + rest))[1..] == Text(w.pieces) + rest;
      PiecesRead(w.pieces, InQuoted, [], rest);
      assert [] + Value(w.pieces) == Value(w.pieces);
    } else {
      var p, tail := w.pieces[0], Text(w.pieces[1..]) + rest;
      Regroup(PieceText(p), Text(w.pieces[1..]), rest);
      assert [] + (Text(w.pieces) + rest) == PieceText(p) + tail;
      FirstPiece(p, tail);
      PiecesRead(w.pieces[1..], InArg, Meaning(p), rest);
    }
  }

  lemma FirstPiece(p: Piece, rest: string)
    requires Fits(p, false) && p != Plain(QUOTE)
    ensures Split(PieceText(p) + rest) == Tokens(rest, InArg, false, Meaning(p))
  {
    match p
    case Plain(c) => assert ([c] + rest)[1..] == rest;
    case Escape(c) =>
      assert ([ESCAPE, c] + rest)[1..] == [c] + rest && ([c] + rest)[1..] == rest;
      assert Tokens([c] + rest, InArg, true, []) == Tokens(rest, InArg, false, if Special(c) then [] + [c] else []);
      assert [] + [c] == [c];
  }

  lemma CharEnds(m: Mode, v: string, rest: string)
    requires m != InSpace
    ensures Tokens([if m == InQuoted then QUOTE else SPACE] + rest, m, false, v) == [v] + Split(rest)
  {
    assert ([if m == InQuoted then QUOTE else SPACE] + rest)[1..] == rest;
  }

  lemma LineEnds(m: Mode, v: string)
    requires m != InSpace
    ensures Tokens([], m, false, v) == [v] == Tokens([ESCAPE], m, false, v)
  {
    assert [ESCAPE][1..] == [];
    assert Tokens([], m, true, v) == [v];
  }

  /** What follows the pieces ends the word. */
  lemma EndReads(w: Word, rest: string, v: string)
    requires WellWritten(w, rest == [])
    ensures Tokens(EndText(w) + rest, if w.quoted then InQuoted else InArg, false, v) == [v] + Split(rest)
  {
    hide Text, Value, WordText, Tokens, Split;
    var m, after := if w.quoted then InQuoted else InArg, EndText(w) + rest;
    match w.ending
    case Closed =>
      SpacesSkipped(w.gap, rest);
      if w.quoted {
        assert after == [QUOTE] + (Spaces(w.gap) + rest);
        CharEnds(m, v, Spaces(w.gap) + rest);
      } else {
        SpacesSkipped(w.gap - 1, rest);
        assert after == [SPACE] + (Spaces(w.gap - 1) + rest);
        CharEnds(m, v, Spaces(w.gap - 1) + rest);
      }
    case Cut | CutEscape =>
      LoneEscape();
      LineEnds(m, v);
      assert after == (if w.ending == Cut then [] else [ESCAPE]) && [v] + [] == [v];
  }

  lemma WordSplits(w: Word, rest: string)
    requires WellWritten(w, rest == [])
    ensures Split(WordText(w) + rest) == [Value(w.pieces)] + Split(rest)
  {
    hide Text, Value, Tokens, Split;
    var open, after := if w.quoted then [QUOTE] else [], EndText(w) + rest;
    assert WordText(w) + rest == open + (Text(w.pieces) + after);
    if w.quoted || w.pieces != [] {
      WordOpens(w, after);
      EndReads(w, rest, Value(w.pieces));
    } else {
      LoneEscape();
      NothingWritten();
      assert open + (Text(w.pieces) + after) == [ESCAPE];
      assert [[]] + Split(rest) == [[]];
    }
  }

  lemma LoneEscape()
    ensures Split([ESCAPE]) == [[]] && Split([]) == []
  {
    assert [ESCAPE][1..] == [];
    assert Tokens([], InArg, true, []) == [[]];
    assert Tokens([ESCAPE], InSpace, false, []) == Tokens([], InArg, true, []);
  }

  lemma NothingWritten()
    ensures Text([]) == [] && Value([]) == []
  {}

  /** Any line of written words splits into their values. */
  lemma {:induction false} LineSplits(lead: nat, ws: seq<Word>)
    requires AllWritten(ws)
    ensures Split(Spaces(lead) + LineText(ws)) == Values(ws)
    decreases |ws|
  {
    hide WordText, Tokens;
    SpacesSkipped(lead, LineText(ws));
    if ws == [] {
      assert Split([]) == [] by { EmptySplits(); }
    } else {
      var rest := ws[1..];
      assert forall i | 0 <= i < |rest| :: rest[i] == ws[i + 1];
      LineSplits(0, rest);
      SpacesSkipped(0, LineText(rest));
      LineNotEmpty(rest);
      assert WellWritten(ws[0], |ws| == 1);
      WordSplits(ws[0], LineText(rest));
    }
  }

  lemma EmptySplits()
    ensures Split([]) == []
  {}

  lemma LineNotEmpty(ws: seq<Word>)
    requires AllWritten(ws)
    ensures LineText(ws) == [] <==> ws == []
  {
    if ws != [] {
      assert WellWritten(ws[0], |ws| == 1);
    }
  }

  // ---- every line is written like that ----

  /** The pieces up to the closing character, a lone backslash at the end, or the end. */
  lemma {:induction false} ReadPieces(s: string, quoted: bool) returns (ps: seq<Piece>, rest: string)
    ensures s == Text(ps) + rest && AllFit(ps, quoted)
    ensures rest == [] || rest == [ESCAPE] || rest[0] == if quoted then QUOTE else SPACE
    ensures |rest| <= |s|
    decreases |s|
  {
    var close := if quoted then QUOTE else SPACE;
    if s == [] || s == [ESCAPE] || s[0] == close {
      ps, rest := [], s;
    } else {
      var p, more := Plain(s[0]), s[1..];
      if s[0] == ESCAPE {
        p, more := Escape(s[1]), s[2..];
      }
      var qs;
      qs, rest := ReadPieces(more, quoted);
      ps := [p] + qs;
      assert ps[1..] == qs && s == PieceText(p) + more;
      Regroup(PieceText(p), Text(qs), rest);
    }
  }

  lemma {:induction false} CountSpaces(s: string) returns (n: nat, rest: string)
    ensures s == Spaces(n) + rest && (rest == [] || rest[0] != SPACE)
    ensures s != [] && s[0] == SPACE ==> n > 0
    decreases |s|
  {
    if s == [] || s[0] != SPACE {
      n, rest := 0, s;
    } else {
      n, rest := CountSpaces(s[1..]);
      assert s == [SPACE] + (Spaces(n) + rest) && [SPACE] + Spaces(n) == Spaces(n + 1);
      n := n + 1;
    }
  }

  /** Reading one word off a line that does not begin with a space. */
  lemma ReadWord(s: string) returns (w: Word, rest: string)
    requires s != [] && s[0] != SPACE
    ensures s == WordText(w) + rest && WellWritten(w, rest == []) && |rest| < |s|
    ensures rest == [] || rest[0] != SPACE
  {
    hide Text, Spaces;
    var quoted := s[0] == QUOTE;
    var open, body := if quoted then [QUOTE] else [], if quoted then s[1..] else s;
    var ps, tail := ReadPieces(body, quoted);
    assert s == open + (Text(ps) + tail);
    FirstChar(ps, tail);
    rest := [];
    if tail == [] {
      w := Word(ps, quoted, Cut, 0);
      assert tail + [] == tail == EndText(w) + [];
    } else if tail == [ESCAPE] {
      w := Word(ps, quoted, CutEscape, 0);
      assert tail == EndText(w) + [];
    } else {
      var n;
      n, rest := CountSpaces(if quoted then tail[1..] else tail);
      w := Word(ps, quoted, Closed, n);
      assert quoted ==> tail == [QUOTE] + tail[1..] && tail == [QUOTE] + Spaces(n) + rest;
    }
    Regroup(Text(ps), EndText(w), rest);
    Regroup(open, Text(ps) + EndText(w), rest);
    SpacesLength(w.gap);
    assert ps == [] ==> Text(ps) == [] by { NothingWritten(); }
  }

  lemma FirstChar(ps: seq<Piece>, rest: string)
    ensures ps != [] ==> Text(ps) != [] && (Text(ps) + rest)[0] == (if ps[0].Plain? then ps[0].c else ESCAPE)
    ensures ps == [] ==> Text(ps) + rest == rest
  {}

  lemma SpacesLength(n: nat)
    ensures |Spaces(n)| == n
  {}

  /** Every line is a row of written words. */
  lemma {:induction false} EveryLineIsWritten(s: string) returns (lead: nat, ws: seq<Word>)
    ensures s == Spaces(lead) + LineText(ws) && AllWritten(ws)
    ensures s != [] && s[0] != SPACE ==> lead == 0
    decreases |s|
  {
    hide WordText, WellWritten;
    var line;
    lead, line := CountSpaces(s);
    if line == [] {
      ws := [];
    } else {
      var w, rest := ReadWord(line);
      var n, more := EveryLineIsWritten(rest);
      ws := [w] + more;
      assert ws[1..] == more && Spaces(0) + LineText(more) == LineText(more);
      RestIsLast(rest, more);
      assert line == WordText(w) + LineText(more);
    }
  }

  lemma RestIsLast(rest: string, ws: seq<Word>)
    requires AllWritten(ws) && rest == Spaces(0) + LineText(ws)
    ensures rest == [] <==> ws == []
  {
    LineNotEmpty(ws);
  }

  /** So for any line at all the arguments are the values of its words. */
  lemma AnyLineSplits(s: string) returns (lead: nat, ws: seq<Word>)
    ensures s == Spaces(lead) + LineText(ws) && AllWritten(ws) && Split(s) == Values(ws)
  {
    lead, ws := EveryLineIsWritten(s);
    LineSplits(lead, ws);
  }
}
