/** Literals over several lines: the open quotation mark that ppinput keeps, and the continuation lines
    that hand on no text. */
module LiteralLines {
  import opened LineReader
  import opened Sequences

  /** One character further through text: the mark of the literal one is inside. */
  function Next(mark: char, c: char): char {
    if !IsMark(c) then mark else if mark == NONE then c else if mark == c then NONE else mark
  }

  function Open(mark: char, text: string): char
    decreases |text|
  {
    if text == "" then mark else Open(Next(mark, text[0]), text[1..])
  }

  lemma {:induction false} OpenConcat(mark: char, a: string, b: string)
    ensures Open(mark, a + b) == Open(Open(mark, a), b)
    decreases |a|
  {
    if a == "" {
      assert a + b == b;
    } else {
      OpenConcat(Next(mark, a[0]), a[1..], b);
      assert (a + b)[1..] == a[1..] + b;
    }
  }

  lemma {:induction false} OpenOverBlanks(mark: char, s: string)
    requires forall k :: 0 <= k < |s| ==> s[k] == ' '
    ensures Open(mark, s) == mark
    decreases |s|
  {
    if s != "" { OpenOverBlanks(mark, s[1..]); }
  }

  /** The literal one is inside at the end of the text so far. After a mark in the last column the
      statics keep it, but the literal counts as closed. */
  function Inside(lex: Lex): char {
    if lex.consecutiveQuotation then NONE else lex.quotationMark
  }

  ghost predicate Consistent(lex: Lex) {
    && (lex.quotationMark == NONE || IsMark(lex.quotationMark))
    && (lex.consecutiveQuotation ==> lex.quotationMark != NONE)
  }

  /** The loop over the marks follows the text, and remembers a mark that closes in the last column. */
  lemma {:induction false} ScanFollows(o: Options, buff: string, i: nat, mark: char)
    requires IsLine(buff) && |buff| <= o.textColumn + 1 && i < |buff| && (mark == NONE || IsMark(mark))
    ensures var (m, consecutive) := Scan(o, buff, i, mark, false);
            var open := Open(mark, buff[i..|buff| - 1]);
            && (m == NONE || IsMark(m))
            && if consecutive then
              m != NONE && open == NONE && |buff| == o.textColumn + 1 && i + 1 < |buff| && buff[|buff| - 2] == m
            else m == open
    ensures var (m, consecutive) := Scan(o, buff, i, mark, false);
            m == NONE && mark != NONE ==> exists k :: i <= k < |buff| - 1 && IsMark(buff[k])
    ensures |buff| == o.textColumn + 1 && i + 1 < |buff| && IsMark(buff[|buff| - 2]) && Open(mark, buff[i..|buff| - 1]) == NONE
         ==> Scan(o, buff, i, mark, false).1
    decreases |buff| - i
  {
    if i < |buff| - 1 {
      var rest := buff[i + 1..|buff| - 1];
      assert buff[i..|buff| - 1] == [buff[i]] + rest;
      if i + 1 == o.textColumn && IsMark(buff[i]) && mark == buff[i] {
        assert rest == "";
        assert Scan(o, buff, i, mark, false) == Scan(o, buff, i + 1, mark, true) == (mark, true);
      } else {
        ScanFollows(o, buff, i + 1, Next(mark, buff[i]));
      }
    }
  }

  /** The text handed on ends inside the same literal as the part of the line it is made from. */
  lemma {:induction false} PieceTextOpens(mark: char, from: char, buff: string, start: nat)
    requires IsLine(buff) && start < |buff|
    ensures Open(from, PieceText(mark, buff, start)) == Open(from, buff[start..|buff| - 1])
  {
    var area := buff[start..|buff| - 1];
    if mark != NONE {
      var pad := Repeat(' ', if |buff| - 1 < 72 then 72 - (|buff| - 1) else 0);
      OpenConcat(from, area, pad);
      OpenOverBlanks(Open(from, area), pad);
    } else {
      var s := Stripped(area);
      OpenConcat(from, s, area[|s|..]);
      OpenOverBlanks(Open(from, s), area[|s|..]);
      assert area == s + area[|s|..];
      OpenConcat(from, s, " ");
      OpenOverBlanks(Open(from, s), " ");
    }
  }

  lemma {:induction false} PieceFollows(o: Options, lex: Lex, continuation: bool, buff: string, start: nat)
    requires IsLine(buff) && |buff| <= o.textColumn + 1 && start < |buff| && !lex.consecutiveQuotation && Consistent(lex)
    ensures var out := Piece(o, lex, continuation, buff, start);
            out.Deliver? && out.continuation == continuation && Consistent(out.lex)
            && Inside(out.lex) == Open(lex.quotationMark, out.piece)
  {
    ScanFollows(o, buff, start, lex.quotationMark);
    var out := Piece(o, lex, continuation, buff, start);
    PieceTextOpens(out.lex.quotationMark, lex.quotationMark, buff, start);
  }

  /** A line handed on: where its text goes on from the text before, so does the literal, without the
      mark that reopens it; a line of its own starts outside any literal. */
  lemma {:induction false} LineFollows(o: Options, lex: Lex, continuation: bool, line: string)
    requires Usable(o) && IsLine(line) && Consistent(lex)
    ensures match LineOutcome(o, lex, continuation, line)
            case Skip(l, _) => l.quotationMark == lex.quotationMark && l.consecutiveQuotation == lex.consecutiveQuotation
            case Fail(l) => true
            case Deliver(piece, c, l) => Consistent(l) && Inside(l) == Open(if c then Inside(lex) else NONE, piece)
  {
    hide Piece, AreaABlank, Open;
    if |line| >= 8 {
      var l := lex.(withinComment := false);
      var none := l.(quotationMark := NONE, consecutiveQuotation := false);
      var buff := Truncated(o, line);
      assert |buff| <= o.textColumn + 1;
      PieceFollows(o, none, false, buff, 7);
      var start := SkipBlanks(buff, 7);
      if start < |buff| - 1 {
        PieceFollows(o, none, true, buff, start + 1);
        if !l.consecutiveQuotation {
          PieceFollows(o, l, true, buff, start + 1);
          PieceFollows(o, l, true, buff, start);
        }
      }
    }
  }

  /** What a call returns, without the newlines before it. */
  lemma {:induction false} CallFollows(o: Options, lex: Lex, continuation: bool, input: string)
    requires Usable(o) && Consistent(lex)
    ensures var call := NextCall(o, lex, continuation, input);
            !call.failed ==> Consistent(call.lex) && Inside(call.lex) == Open(if call.continued then Inside(lex) else NONE, call.text)
    decreases |input|
  {
    hide LineOutcome, ReadLine;
    var p := ReadLine(o, input);
    if p.Eof? {
      OpenOverNewlines(lex.newlineCount, Inside(lex));
    } else {
      LineFollows(o, lex, continuation, p.text);
      match LineOutcome(o, lex, continuation, p.text)
      case Skip(l, c) => CallFollows(o, l, c, p.rest);
      case Fail(l) =>
      case Deliver(piece, c, l) =>
        if c {
          assert "" + piece == piece;
        } else {
          OpenConcat(NONE, Repeat('\n', lex.newlineCount), piece);
          OpenOverNewlines(lex.newlineCount, NONE);
        }
    }
  }

  lemma {:induction false} OpenOverNewlines(n: nat, mark: char)
    ensures Open(mark, Repeat('\n', n)) == mark
    decreases n
  {
    if n > 0 {
      OpenOverNewlines(n - 1, mark);
      assert Repeat('\n', n)[1..] == Repeat('\n', n - 1);
    }
  }

  // --- Nothing to hand on --------------------------------------------------------------------------

  /** The literal is reopened by a mark that is the last character, at column 72 or beyond. */
  predicate LonelyMark(o: Options, lex: Lex, line: string)
    requires Usable(o) && IsLine(line) && |line| >= 8
  {
    var buff := Truncated(o, line);
    !lex.consecutiveQuotation && lex.quotationMark != NONE && SkipBlanks(buff, 7) == |buff| - 2 && |buff| > 72
  }

  lemma {:induction false} PieceTextEmpty(o: Options, lex: Lex, buff: string, start: nat)
    requires IsLine(buff) && |buff| <= o.textColumn + 1 && start < |buff| && !lex.consecutiveQuotation && Consistent(lex)
    requires lex.quotationMark != NONE || exists k :: start <= k < |buff| - 1 && buff[k] != ' '
    ensures Piece(o, lex, true, buff, start).piece == "" <==> start == |buff| - 1 && |buff| > 72
    ensures Piece(o, lex, false, buff, start).piece == Piece(o, lex, true, buff, start).piece
  {
    ScanFollows(o, buff, start, lex.quotationMark);
    var out := Piece(o, lex, true, buff, start);
    if out.lex.quotationMark == NONE {
      var k :| start <= k < |buff| - 1 && buff[k] != ' ';
      assert buff[start..|buff| - 1][k - start] != ' ';
    }
  }

  /** A line whose text is empty reads as the end of the file to the scanner. This happens exactly for a
      continuation line with nothing but the mark that reopens the literal, in the last column. */
  lemma {:induction false} EmptyIffLonelyMark(o: Options, lex: Lex, continuation: bool, line: string)
    requires Usable(o) && IsLine(line) && Consistent(lex)
    ensures match LineOutcome(o, lex, continuation, line)
            case Deliver(piece, c, _) => piece == "" <==> c && LonelyMark(o, lex, line)
            case _ => true
  {
    hide Piece, AreaABlank;
    if |line| >= 8 {
      var l := lex.(withinComment := false);
      var none := l.(quotationMark := NONE, consecutiveQuotation := false);
      var buff := Truncated(o, line);
      assert |buff| <= o.textColumn + 1;
      var start := SkipBlanks(buff, 7);
      PieceDelivers(o);
      if start < |buff| - 1 {
        PieceTextEmpty(o, none, buff, 7);
        if l.consecutiveQuotation {
          if buff[start + 1] == l.quotationMark { PieceTextEmpty(o, none, buff, start + 1); }
        } else {
          if l.quotationMark != NONE { PieceTextEmpty(o, l, buff, start + 1); }
          PieceTextEmpty(o, l, buff, start);
        }
      }
    }
  }

  lemma {:induction false} PieceDelivers(o: Options)
    ensures forall lex, c, buff, start: nat :: IsLine(buff) && start < |buff| ==>
      Piece(o, lex, c, buff, start).Deliver? && Piece(o, lex, c, buff, start).continuation == c
  {
  }

  /** Such a line: the mark in column 72, and nothing else, behind a line that left its literal open. */
  lemma {:induction false} LonelyMarkAt72()
    ensures var o := Options(72, 8, false, false);
            var lex := Lex(1, '\'', false, false);
            var line := "      -" + Repeat(' ', 64) + "'\n";
            && IsLine(line) && LonelyMark(o, lex, line)
            && LineOutcome(o, lex, false, line) == Deliver("", true, lex.(newlineCount := 2))
  {
    var o := Options(72, 8, false, false);
    var lex := Lex(1, '\'', false, false);
    var line := "      -" + Repeat(' ', 64) + "'\n";
    assert line[6] == '-' && line[71] == '\'' && line[72] == '\n';
    assert SkipBlanks(line, 7) == 71;
    assert Scan(o, line, 72, '\'', false) == ('\'', false);
    assert line[72..72] == "" && Repeat(' ', 0) == "";
  }
}
