/** Column 7, character by character: what becomes of a line, and what a line without text leaves behind. */
module Indicators {
  import opened LineReader
  import opened LiteralLines
  import opened LogicalLines
  import opened Sequences

  /** A line that is passed over for its length, its first column or column 7. */
  predicate WithoutText(o: Options, line: string) {
    || |line| < 8
    || (o.mfComment && line[0] in {'*', '/'})
    || line[6] in {'*', '/'}
    || (line[6] in {'d', 'D'} && !o.debuggingLines)
  }

  /** Columns 8 up to the text column. */
  function Area(o: Options, line: string): string
    requires |line| >= 8 && o.textColumn >= 7
  {
    line[7..if |line| - 1 < o.textColumn then |line| - 1 else o.textColumn]
  }

  predicate IsBlank(s: string) {
    forall k :: 0 <= k < |s| ==> s[k] == ' '
  }

  /** After AUTHOR and the like: area A is there, and blank. */
  predicate BlankAreaA(line: string)
    requires |line| >= 8
  {
    |line| >= 12 && IsBlank(line[7..11])
  }

  /** The first character of the text. */
  function FirstOf(area: string): (i: nat)
    requires !IsBlank(area)
    ensures i < |area| && area[i] != ' ' && IsBlank(area[..i])
    decreases |area|
  {
    if area[0] != ' ' then 0
    else
      assert area[1..] != [] && !IsBlank(area[1..]) by { NotBlankRest(area); }
      var i := FirstOf(area[1..]);
      assert IsBlank(area[..1 + i]) by { BlankFront(area, i); }
      1 + i
  }

  lemma {:induction false} NotBlankRest(area: string)
    requires !IsBlank(area) && area != "" && area[0] == ' '
    ensures !IsBlank(area[1..])
  {
    var k :| 0 <= k < |area| && area[k] != ' ';
    assert area[1..][k - 1] != ' ';
  }

  lemma {:induction false} BlankFront(area: string, i: nat)
    requires area != "" && area[0] == ' ' && i < |area| - 1 && IsBlank(area[1..][..i])
    ensures IsBlank(area[..1 + i])
  {
    var front, rest := area[..1 + i], area[1..][..i];
    forall k | 0 <= k < |front| ensures front[k] == ' ' {
      if k > 0 { assert rest[k - 1] == front[k]; }
    }
  }

  /** A continuation goes on an open literal with its mark, and one closed in the last column with two. */
  predicate Reopens(lex: Lex, area: string, first: nat)
    requires first < |area|
  {
    if lex.consecutiveQuotation then
      area[first] == lex.quotationMark && first + 1 < |area| && area[first + 1] == lex.quotationMark
    else lex.quotationMark == NONE || area[first] == lex.quotationMark
  }

  // --- One line --------------------------------------------------------------------------------------

  lemma {:induction false} AreaOfCut(o: Options, line: string)
    requires Usable(o) && IsLine(line) && |line| >= 8
    ensures var buff := Truncated(o, line);
            && buff[7..|buff| - 1] == Area(o, line) && |buff| <= o.textColumn + 1
            && (SkipBlanks(buff, 7) == |buff| - 1 <==> IsBlank(Area(o, line)))
  {
    var buff := Truncated(o, line);
    var area := Area(o, line);
    assert buff[7..|buff| - 1] == area;
    assert forall k :: 0 <= k < |area| ==> area[k] == buff[7 + k];
    var i := SkipBlanks(buff, 7);
    assert i < |buff| - 1 ==> area[i - 7] != ' ';
  }

  lemma {:induction false} AreaAByCharacters(line: string)
    requires IsLine(line) && |line| >= 8
    ensures AreaABlank(line) <==> BlankAreaA(line)
  {
    var i := SkipBlanks(line, 7);
    if |line| >= 12 {
      assert forall k :: 0 <= k < 4 ==> line[7..11][k] == line[7 + k];
      if i < 11 { assert line[7..11][i - 7] != ' '; }
    }
  }

  /** The text of the area, with blanks behind it or without. */
  ghost predicate TextOf(piece: string, area: string) {
    Stripped(piece) == Stripped(area)
  }

  lemma {:induction false} SameText(piece: string, area: string, blanks: string)
    requires IsBlank(blanks) && piece == area + blanks
    ensures TextOf(piece, area)
    decreases |blanks|
  {
    if blanks != "" {
      var n := |blanks| - 1;
      assert piece[..|piece| - 1] == area + blanks[..n];
      SameText(area + blanks[..n], area, blanks[..n]);
    } else {
      assert piece == area;
    }
  }

  lemma {:induction false} PieceIsText(mark: char, buff: string, start: nat)
    requires IsLine(buff) && start < |buff|
    ensures TextOf(PieceText(mark, buff, start), buff[start..|buff| - 1])
  {
    var area := buff[start..|buff| - 1];
    var piece := PieceText(mark, buff, start);
    if mark != NONE {
      SameText(piece, area, Repeat(' ', if |buff| - 1 < 72 then 72 - (|buff| - 1) else 0));
    } else {
      var s := Stripped(area);
      assert area == s + area[|s|..];
      SameText(area, s, area[|s|..]);
      SameText(piece, s, piece[|s|..]);
    }
  }

  /** What a line comes to, by its characters: passed over and counted; refused, for any character in
      column 7 that is no indicator; or its text. Only a continuation depends on the lines before it. */
  lemma {:induction false} LineByCharacters(o: Options, lex: Lex, continuation: bool, line: string)
    requires Usable(o) && IsLine(line)
    ensures var counted := lex.(newlineCount := lex.newlineCount + 1);
            var out := LineOutcome(o, lex, continuation, line);
            if WithoutText(o, line) then out == Skip(counted, continuation)
            else if line[6] !in {' ', '-', 'd', 'D'} then out == Fail(lex)
            else
              var c := continuation || line[6] == '-';
              if lex.withinComment && BlankAreaA(line) then out == Skip(counted, c)
              else if IsBlank(Area(o, line)) then out == Skip(counted.(withinComment := false), c)
              else if !c then
                && out.Deliver? && TextOf(out.piece, Area(o, line)) && !out.continuation
                && out.lex.newlineCount == 1 && !out.lex.withinComment
              else out.Skip? == false && (out.Deliver? ==> out.continuation && out.lex.newlineCount == lex.newlineCount + 1)
  {
    hide PieceText, Scan, AreaABlank, IsBlank, TextOf, Truncated;
    if !WithoutText(o, line) && line[6] in {' ', '-', 'd', 'D'} {
      AreaAByCharacters(line);
      AreaOfCut(o, line);
      var buff := Truncated(o, line);
      PieceIsText(Scan(o, buff, 7, NONE, false).0, buff, 7);
    }
  }

  /** A continuation: refused when it does not reopen the literal, or else its text from the first
      character on, or behind the mark that reopens the literal. */
  lemma {:induction false} ContinuationByCharacters(o: Options, lex: Lex, continuation: bool, line: string)
    requires Usable(o) && IsLine(line) && !WithoutText(o, line) && line[6] in {' ', '-', 'd', 'D'}
    requires (continuation || line[6] == '-') && !(lex.withinComment && BlankAreaA(line)) && !IsBlank(Area(o, line))
    requires lex.quotationMark != '\n'
    ensures var out, area, first := LineOutcome(o, lex, continuation, line), Area(o, line), FirstOf(Area(o, line));
            if !Reopens(lex, area, first) then out == Fail(lex.(withinComment := false))
            else
              && out.Deliver? && out.continuation && !out.lex.withinComment
              && TextOf(out.piece, area[if lex.consecutiveQuotation || lex.quotationMark != NONE then first + 1 else first..])
  {
    hide PieceText, Scan, AreaABlank, TextOf, Truncated, IsBlank, IsLine, FirstOf;
    AreaAByCharacters(line);
    AreaOfCut(o, line);
    var buff, area := Truncated(o, line), Area(o, line);
    var first := FirstOf(area);
    StartOfText(buff, area, first);
    var start := 7 + first;
    LastIsNewline(buff);
    assert buff[start] == area[first] && (first + 1 < |area| ==> buff[start + 1] == area[first + 1]);
    assert buff[start + 1..|buff| - 1] == area[first + 1..];
    PiecesAreText(buff, start);
    PiecesAreText(buff, start + 1);
  }

  lemma {:induction false} PiecesAreText(buff: string, start: nat)
    requires IsLine(buff) && start < |buff|
    ensures forall mark :: TextOf(PieceText(mark, buff, start), buff[start..|buff| - 1])
  {
    hide PieceText, TextOf;
    forall mark ensures TextOf(PieceText(mark, buff, start), buff[start..|buff| - 1]) { PieceIsText(mark, buff, start); }
  }

  lemma {:induction false} LastIsNewline(buff: string)
    requires IsLine(buff)
    ensures buff != "" && buff[|buff| - 1] == '\n'
  {
  }

  lemma {:induction false} StartOfText(buff: string, area: string, start: nat)
    requires IsLine(buff) && |buff| >= 8 && buff[7..|buff| - 1] == area
    requires start < |area| && area[start] != ' ' && IsBlank(area[..start])
    ensures SkipBlanks(buff, 7) == 7 + start && buff[7 + start..|buff| - 1] == area[start..]
  {
    assert forall k :: 0 <= k < |area| ==> area[k] == buff[7 + k];
    forall k | 7 <= k < 7 + start ensures buff[k] == ' ' { assert area[..start][k - 7] == ' '; }
    SkipsUpTo(buff, 7, 7 + start);
  }

  lemma {:induction false} SkipsUpTo(s: string, i: nat, r: nat)
    requires i <= r < |s| && s[r] != ' ' && forall k :: i <= k < r ==> s[k] == ' '
    ensures SkipBlanks(s, i) == r
  {
  }

  // --- A line more -----------------------------------------------------------------------------------

  /** The same but for one newline more, handed on or pending. */
  predicate OneNewlineMore(a: Call, b: Call) {
    && a.continued == b.continued && a.failed == b.failed && a.rest == b.rest
    && a.lex.(newlineCount := 0) == b.lex.(newlineCount := 0)
    && if a.text == b.text then b.lex.newlineCount == a.lex.newlineCount + 1
       else b.text == "\n" + a.text && b.lex.newlineCount == a.lex.newlineCount
  }

  function Counted(lex: Lex): Lex { lex.(newlineCount := lex.newlineCount + 1) }

  lemma {:induction false} OutcomeCounted(o: Options, lex: Lex, continuation: bool, line: string)
    requires Usable(o) && IsLine(line)
    ensures match LineOutcome(o, lex, continuation, line)
            case Skip(l, c) => LineOutcome(o, Counted(lex), continuation, line) == Skip(Counted(l), c)
            case Fail(l) => LineOutcome(o, Counted(lex), continuation, line) == Fail(Counted(l))
            case Deliver(piece, c, l) =>
              LineOutcome(o, Counted(lex), continuation, line) == Deliver(piece, c, if c then Counted(l) else l)
  {
    hide TextOutcome, IndicatorOf;
    if |line| >= 8 {
      TextCounted(o, lex, continuation, line);
      TextCounted(o, lex, true, line);
    }
  }

  lemma {:induction false} TextCounted(o: Options, lex: Lex, continuation: bool, line: string)
    requires Usable(o) && IsLine(line) && |line| >= 8
    ensures match TextOutcome(o, lex, continuation, line)
            case Skip(l, c) => TextOutcome(o, Counted(lex), continuation, line) == Skip(Counted(l), c)
            case Fail(l) => TextOutcome(o, Counted(lex), continuation, line) == Fail(Counted(l))
            case Deliver(piece, c, l) =>
              TextOutcome(o, Counted(lex), continuation, line) == Deliver(piece, c, if c then Counted(l) else l)
  {
    hide Piece, SkipBlanks, AreaABlank, Truncated;
    var buff, start := Truncated(o, line), SkipBlanks(Truncated(o, line), 7);
    var l := lex.(withinComment := false);
    var none := l.(quotationMark := NONE, consecutiveQuotation := false);
    PieceCounted(o, none, false, buff, 7);
    if start < |buff| - 1 {
      PieceCounted(o, none, true, buff, start + 1);
      PieceCounted(o, l, true, buff, start + 1);
      PieceCounted(o, l, true, buff, start);
    }
  }

  lemma {:induction false} PieceCounted(o: Options, lex: Lex, continuation: bool, buff: string, start: nat)
    requires IsLine(buff) && start < |buff|
    ensures var out := Piece(o, lex, continuation, buff, start);
            out.Deliver? && out.continuation == continuation
            && Piece(o, Counted(lex), continuation, buff, start) == out.(lex := if continuation then Counted(out.lex) else out.lex)
  {
    hide PieceText, Scan;
  }

  lemma {:induction false} OneMorePending(o: Options, lex: Lex, continuation: bool, input: string)
    requires Usable(o)
    ensures OneNewlineMore(NextCall(o, lex, continuation, input), NextCall(o, Counted(lex), continuation, input))
    decreases |input|
  {
    hide LineOutcome, ReadLine;
    var p := ReadLine(o, input);
    if p.Line? { OutcomeCounted(o, lex, continuation, p.text); }
    assert Repeat('\n', lex.newlineCount + 1) == "\n" + Repeat('\n', lex.newlineCount);
    if p.Line? {
      match LineOutcome(o, lex, continuation, p.text)
      case Skip(l, c) => OneMorePending(o, l, c, p.rest);
      case Fail(l) =>
      case Deliver(piece, c, l) =>
        assert "\n" + (Repeat('\n', lex.newlineCount) + piece) == ("\n" + Repeat('\n', lex.newlineCount)) + piece;
    }
  }

  /** The file b is the file a with the line put in before one of its lines, or at its end. */
  ghost predicate PutInto(o: Options, line: string, a: string, b: string)
    requires Usable(o)
    decreases |a|
  {
    b == line + a || (
      var p, r := ReadLine(o, a), ReadLine(o, b);
      p.Line? && r.Line? && p.text == r.text && PutInto(o, line, p.rest, r.rest))
  }

  /** A comment line, a debugging line that is not compiled and a short line add no text. Put anywhere
      into a file, one changes the call that reads it by one newline, and no other call. */
  lemma {:induction false} LineAddsNewline(o: Options, lex: Lex, continuation: bool, line: string, a: string, b: string)
    requires Usable(o) && Plain(line) && WithoutText(o, line) && PutInto(o, line, a, b)
    ensures var call, more := NextCall(o, lex, continuation, a), NextCall(o, lex, continuation, b);
            OneNewlineMore(call, more) || (more == call.(rest := more.rest) && PutInto(o, line, call.rest, more.rest))
    decreases |a|
  {
    hide LineOutcome, ReadLine, OneNewlineMore, WithoutText;
    if b == line + a {
      ReadPlain(o, line, a);
      LineByCharacters(o, lex, continuation, line);
      OneMorePending(o, lex, continuation, a);
    } else {
      var p, r := ReadLine(o, a), ReadLine(o, b);
      match LineOutcome(o, lex, continuation, p.text)
      case Skip(l, c) => LineAddsNewline(o, l, c, line, p.rest, r.rest);
      case Fail(_) =>
      case Deliver(_, _, _) =>
    }
  }

  /** Between two stretches of lines that are read as they stand this is the line put in between. */
  lemma {:induction false} PutBetween(o: Options, line: string, lines: seq<string>, rest: string)
    requires Usable(o) && forall k :: 0 <= k < |lines| ==> Plain(lines[k])
    ensures PutInto(o, line, Flat(lines) + rest, Flat(lines) + line + rest)
    decreases |lines|
  {
    if lines == [] {
      assert Flat(lines) + rest == rest && Flat(lines) + line + rest == line + rest;
    } else {
      var more := Flat(lines[1..]);
      PutBetween(o, line, lines[1..], rest);
      ReadPlain(o, lines[0], more + rest);
      ReadPlain(o, lines[0], more + line + rest);
      assert Flat(lines) + rest == lines[0] + (more + rest);
      assert Flat(lines) + line + rest == lines[0] + (more + line + rest);
    }
  }

  function Flat(lines: seq<string>): string {
    if lines == [] then "" else lines[0] + Flat(lines[1..])
  }
}
