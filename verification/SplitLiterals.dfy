/** Literals split over continuation lines, at any places and with any indentation: what comes out, and
    which splits break the literal. */
module SplitLiterals {
  import opened LineReader
  import opened LiteralLines
  import opened Optional
  import opened Sequences
  import LineBalance
  import LogicalLines
  import Indicators

  /** A literal of the mark q, with any mark q inside it doubled. */
  ghost predicate IsLiteral(q: char, t: string) {
    && IsMark(q) && |t| >= 2 && t[0] == q && t[|t| - 1] == q && Open(NONE, t) == NONE && LineBalance.NoNewline(t)
    && forall k :: 1 <= k < |t| ==> Splittable(q, t, k)
  }

  /** Between its characters k - 1 and k one is inside it, or between the two of a doubled mark. */
  ghost predicate Splittable(q: char, t: string, k: nat)
    requires 1 <= k < |t|
  {
    Open(NONE, t[..k]) == q || (t[k - 1] == q && t[k] == q && Open(NONE, t[..k]) == NONE)
  }

  lemma {:induction false} EndsInside(q: char, t: string, j: nat)
    requires IsLiteral(q, t) && 0 < j <= |t|
    ensures Open(NONE, t[..j]) == q || (Open(NONE, t[..j]) == NONE && t[j - 1] == q)
    ensures j == |t| ==> Open(NONE, t[..j]) == NONE
    ensures j < |t| && Open(NONE, t[..j]) == NONE ==> t[j] == q
  {
    if j < |t| { assert Splittable(q, t, j); } else { assert t[..j] == t; }
  }

  // --- Lines -------------------------------------------------------------------------------------------

  /** A part of the literal on a continuation line, behind lines that are passed over, blanks and the
      mark that reopens it. The last part has the text behind the literal as well. */
  datatype Part = Part(passed: seq<string>, indent: nat, text: string)

  function FirstLine(lead: string, text: string): string { "       " + lead + text + "\n" }

  function NextLine(q: char, p: Part): string { "      -" + Repeat(' ', p.indent) + [q] + p.text + "\n" }

  function NextLines(q: char, parts: seq<Part>): seq<string> {
    if parts == [] then [] else parts[0].passed + ([NextLine(q, parts[0])] + NextLines(q, parts[1..]))
  }

  /** Too short, a comment, or blank. */
  ghost predicate PassedOver(o: Options, line: string)
    requires Usable(o)
  {
    && Ended(line) && LineBalance.NoNewline(line[..|line| - 1])
    && (Indicators.WithoutText(o, line) || (line[6] in {' ', '-', 'd', 'D'} && Indicators.IsBlank(Indicators.Area(o, line))))
  }

  /** The column where a line ends. */
  function FirstEnd(lead: string, text: string): nat { 7 + |lead| + |text| }

  function NextEnd(p: Part): nat { 8 + p.indent + |p.text| }

  function Text(parts: seq<Part>): string {
    if parts == [] then "" else parts[0].text + Text(parts[1..])
  }

  /** No part is empty, and no line goes beyond the text column. */
  ghost predicate Fit(o: Options, parts: seq<Part>)
    requires Usable(o)
  {
    forall k :: 0 <= k < |parts| ==>
      && parts[k].text != "" && NextEnd(parts[k]) <= o.textColumn && LineBalance.NoNewline(parts[k].text)
      && forall i :: 0 <= i < |parts[k].passed| ==> PassedOver(o, parts[k].passed[i])
  }

  /** The literal begins on a line of its own, behind text that leaves no literal open. */
  ghost predicate Starts(o: Options, lead: string, first: string) {
    && first != "" && FirstEnd(lead, first) <= o.textColumn && LineBalance.NoNewline(lead + first) && Open(NONE, lead) == NONE
  }

  /** The texts of the lines that are handed on, joined; the others are passed over as by one call. */
  function Joined(o: Options, lex: Lex, continuation: bool, lines: seq<string>): Option<string>
    requires Usable(o) && forall k :: 0 <= k < |lines| ==> IsLine(lines[k])
    decreases |lines|
  {
    if lines == [] then Some("")
    else
      match LineOutcome(o, lex, continuation, lines[0])
      case Deliver(piece, _, l) =>
        var rest := Joined(o, l, false, lines[1..]);
        if rest.None? then None else Some(piece + rest.value)
      case Skip(l, c) => Joined(o, l, c, lines[1..])
      case Fail(_) => None
  }

  // --- What should come out ------------------------------------------------------------------------------

  /** Trailing columns, up to column `to`. */
  function Trail(end: nat, to: nat): string { Repeat(' ', if end < to then to - end else 0) }

  /** The text of the last line: a blank behind it when it ends with a mark, unless that is in the last
      column, and no other blanks. */
  function Finished(o: Options, to: nat, text: string, end: nat): string
    requires text != ""
  {
    if IsMark(text[|text| - 1]) && end == o.textColumn then text + Trail(end, to)
    else
      var s := Stripped(text);
      if s != "" && IsMark(s[|s| - 1]) then s + " " else s
  }

  /** The parts in order, each but the last with its trailing columns. */
  function PartsKept(o: Options, to: nat, parts: seq<Part>): string
    requires forall k :: 0 <= k < |parts| ==> parts[k].text != ""
  {
    if parts == [] then ""
    else if |parts| == 1 then Finished(o, to, parts[0].text, NextEnd(parts[0]))
    else parts[0].text + Trail(NextEnd(parts[0]), to) + PartsKept(o, to, parts[1..])
  }

  function Kept(o: Options, to: nat, lead: string, first: string, parts: seq<Part>): string
    requires first != "" && forall k :: 0 <= k < |parts| ==> parts[k].text != ""
  {
    if parts == [] then Finished(o, to, lead + first, FirstEnd(lead, first))
    else lead + first + Trail(FirstEnd(lead, first), to) + PartsKept(o, to, parts)
  }

  /** A split behind the first i characters, at the column `end`: inside the literal, or between the
      marks of a doubled one and in the last column. */
  predicate GoodSplit(o: Options, q: char, t: string, i: nat, end: nat)
    requires i <= |t|
  {
    Open(NONE, t[..i]) == q || end == o.textColumn
  }

  predicate GoodSplits(o: Options, q: char, t: string, i: nat, parts: seq<Part>)
    requires i + |Text(parts)| <= |t|
    decreases |parts|
  {
    |parts| <= 1 || (
      GoodSplit(o, q, t, i + |parts[0].text|, NextEnd(parts[0]))
      && GoodSplits(o, q, t, i + |parts[0].text|, parts[1..]))
  }

  /** No split falls between the marks of a doubled one before the last column. */
  predicate AllGood(o: Options, q: char, lead: string, first: string, parts: seq<Part>) {
    parts == [] || (
      GoodSplit(o, q, first + Text(parts), |first|, FirstEnd(lead, first))
      && GoodSplits(o, q, first + Text(parts), |first|, parts))
  }

  // --- One line ------------------------------------------------------------------------------------------

  /** The statics after the literal's first i characters: the mark is kept, also when the first of a
      doubled mark fell in the last column. */
  ghost predicate AtSplit(lex: Lex, q: char, t: string, i: nat)
    requires i <= |t|
  {
    !lex.withinComment && lex.quotationMark == q && (lex.consecutiveQuotation <==> Open(NONE, t[..i]) == NONE)
  }

  ghost predicate Closed(lex: Lex) {
    !lex.withinComment && lex.quotationMark == NONE && !lex.consecutiveQuotation
  }

  /** What becomes of the characters i to j at the end of a line: kept with the trailing columns, or
      closed when the mark before j is not in the last column. */
  ghost predicate PartRead(o: Options, out: Outcome, c: bool, pre: string, end: nat, q: char, t: string, i: nat, j: nat)
    requires i <= j <= |t|
  {
    && out.Deliver? && out.continuation == c
    && if GoodSplit(o, q, t, j, end) then AtSplit(out.lex, q, t, j) && out.piece == pre + t[i..j] + Trail(end, 72)
       else Closed(out.lex) && out.piece == pre + t[i..j] + " "
  }

  lemma {:induction false} NothingStripped(s: string)
    requires s != "" && s[|s| - 1] != ' '
    ensures Stripped(s) == s
  {
  }

  lemma {:induction false} PieceOfLiteral(o: Options, lex: Lex, c: bool, line: string, start: nat, pre: string,
                                          q: char, t: string, i: nat, j: nat)
    requires IsLiteral(q, t) && i < j <= |t| && IsLine(line) && |line| <= o.textColumn + 1
    requires start + |pre| + (j - i) + 1 == |line| && line[start..|line| - 1] == pre + t[i..j]
    requires !lex.withinComment && !lex.consecutiveQuotation && Consistent(lex)
    requires Open(lex.quotationMark, pre) == Open(NONE, t[..i])
    ensures PartRead(o, Piece(o, lex, c, line, start), c, pre, |line| - 1, q, t, i, j)
  {
    hide Scan, Open, Stripped, IsLiteral;
    ScanFollows(o, line, start, lex.quotationMark);
    OpenConcat(lex.quotationMark, pre, t[i..j]);
    OpenConcat(NONE, t[..i], t[i..j]);
    assert t[..j] == t[..i] + t[i..j];
    EndsInside(q, t, j);
    MarkOf(q, t);
    var area := line[start..|line| - 1];
    assert area[|area| - 1] == line[|line| - 2] && t[i..j][j - i - 1] == t[j - 1];
    if t[j - 1] == q { NothingStripped(area); }
  }

  /** The end of the literal, and the text behind it. */
  lemma {:induction false} PieceOfEnd(o: Options, lex: Lex, c: bool, line: string, start: nat, pre: string,
                                      q: char, t: string, i: nat, tail: string)
    requires IsLiteral(q, t) && i < |t| && IsLine(line) && |line| <= o.textColumn + 1 && Open(NONE, tail) == NONE
    requires var area := pre + (t[i..] + tail); start + |area| + 1 == |line| && line[start..|line| - 1] == area
    requires !lex.consecutiveQuotation && Consistent(lex)
    requires Open(lex.quotationMark, pre) == Open(NONE, t[..i])
    ensures var out := Piece(o, lex, c, line, start);
            out.Deliver? && out.continuation == c && out.piece == Finished(o, 72, pre + (t[i..] + tail), |line| - 1)
  {
    hide Scan, Open, Stripped, IsLiteral;
    var area := line[start..|line| - 1];
    ScanFollows(o, line, start, lex.quotationMark);
    OpenConcat(lex.quotationMark, pre, t[i..] + tail);
    OpenConcat(Open(NONE, t[..i]), t[i..], tail);
    OpenConcat(NONE, t[..i], t[i..]);
    assert t == t[..i] + t[i..];
    ClosedAtEnd(q, t);
    assert area[|area| - 1] == line[|line| - 2];
  }

  lemma {:induction false} ClosedAtEnd(q: char, t: string)
    requires IsLiteral(q, t)
    ensures Open(NONE, t) == NONE
  {
  }

  lemma {:induction false} MarkOf(q: char, t: string)
    requires IsLiteral(q, t)
    ensures IsMark(q) && q != NONE && q != ' ' && t != "" && t[0] == q
  {
  }

  lemma {:induction false} SkipsTo(s: string, i: nat, r: nat)
    requires i <= r < |s| && s[r] != ' ' && forall k :: i <= k < r ==> s[k] == ' '
    ensures SkipBlanks(s, i) == r
  {
  }

  lemma {:induction false} NextIsLine(q: char, p: Part)
    requires q != '\n' && LineBalance.NoNewline(p.text)
    ensures var line := NextLine(q, p);
            && IsLine(line) && |line| == NextEnd(p) + 1 && line[6] == '-' && line[0] == ' '
            && SkipBlanks(line, 7) == 7 + p.indent && line[7 + p.indent] == q
            && line[8 + p.indent..|line| - 1] == p.text && line[7 + p.indent..|line| - 1] == [q] + p.text
            && (p.text != "" ==> line[8 + p.indent] == p.text[0])
    requires q != ' '
  {
    var line, at := NextLine(q, p), 7 + p.indent;
    var area := [q] + p.text;
    assert forall k :: 0 <= k < |area| ==> line[at + k] == area[k];
    assert line[at + 1..|line| - 1] == area[1..] == p.text;
    SkipsTo(line, 7, at);
  }

  lemma {:induction false} FirstIsLine(lead: string, first: string)
    requires first != "" && LineBalance.NoNewline(lead + first)
    ensures var line := FirstLine(lead, first);
            && IsLine(line) && |line| == FirstEnd(lead, first) + 1 && line[6] == ' ' && line[0] == ' '
            && line[7..|line| - 1] == lead + first
  {
    var line := FirstLine(lead, first);
    var area := lead + first;
    assert line == "       " + area + "\n";
    assert line[7..|line| - 1] == area;
  }

  /** In front of the text on a continuation line. */
  function Reopened(lex: Lex): Lex {
    if lex.consecutiveQuotation then lex.(quotationMark := NONE, consecutiveQuotation := false) else lex
  }

  /** A continuation line in the state that the literal was left in. */
  lemma {:induction false} NextPiece(o: Options, lex: Lex, q: char, t: string, i: nat, p: Part)
    requires Usable(o) && IsLiteral(q, t) && 1 <= i < |t| && p.text != "" && p.text[0] == t[i]
    requires AtSplit(lex, q, t, i) && NextEnd(p) <= o.textColumn && LineBalance.NoNewline(p.text)
    ensures var line, start, l := NextLine(q, p), 8 + p.indent, Reopened(lex);
            && IsLine(line) && |line| == NextEnd(p) + 1 && line[start..|line| - 1] == p.text
            && LineOutcome(o, lex, false, line) == Piece(o, l, true, line, start)
            && !l.withinComment && !l.consecutiveQuotation && Consistent(l)
            && Open(l.quotationMark, "") == Open(NONE, t[..i])
  {
    hide Piece, Open, IsLiteral, NextLine, IsLine;
    MarkOf(q, t);
    MarkIsNoNewline(q);
    NextIsLine(q, p);
    EndsInside(q, t, i);
    OpenNothing(NONE);
    OpenNothing(q);
  }

  lemma {:induction false} NextRead(o: Options, lex: Lex, q: char, t: string, i: nat, p: Part)
    requires Usable(o) && IsLiteral(q, t) && 1 <= i < i + |p.text| <= |t| && p.text == t[i..i + |p.text|]
    requires AtSplit(lex, q, t, i) && NextEnd(p) <= o.textColumn && LineBalance.NoNewline(p.text)
    ensures IsLine(NextLine(q, p))
    ensures PartRead(o, LineOutcome(o, lex, false, NextLine(q, p)), true, "", NextEnd(p), q, t, i, i + |p.text|)
  {
    hide Piece, Open, IsLiteral, PartRead, NextLine, IsLine, LineOutcome;
    var line, j := NextLine(q, p), i + |p.text|;
    assert t[i..j][0] == t[i];
    NextPiece(o, lex, q, t, i, p);
    assert "" + t[i..j] == t[i..j];
    PieceOfLiteral(o, Reopened(lex), true, line, 8 + p.indent, "", q, t, i, j);
  }

  lemma {:induction false} NextEndRead(o: Options, lex: Lex, q: char, t: string, i: nat, p: Part, tail: string)
    requires Usable(o) && IsLiteral(q, t) && 1 <= i < |t| && p.text == t[i..] + tail && Open(NONE, tail) == NONE
    requires AtSplit(lex, q, t, i) && NextEnd(p) <= o.textColumn && LineBalance.NoNewline(p.text)
    ensures IsLine(NextLine(q, p))
    ensures var out := LineOutcome(o, lex, false, NextLine(q, p));
            out.Deliver? && out.piece == Finished(o, 72, p.text, NextEnd(p))
  {
    hide Piece, Open, IsLiteral, Finished, NextLine, IsLine, LineOutcome;
    assert p.text[0] == t[i];
    NextPiece(o, lex, q, t, i, p);
    assert "" + (t[i..] + tail) == p.text;
    PieceOfEnd(o, Reopened(lex), true, NextLine(q, p), 8 + p.indent, "", q, t, i, tail);
  }

  lemma {:induction false} MarkIsNoNewline(q: char)
    requires IsMark(q)
    ensures q != '\n' && q != ' ' && q != NONE
  {
  }

  lemma {:induction false} OpenNothing(mark: char)
    ensures Open(mark, "") == mark
  {
  }

  /** The line that the literal begins on. */
  lemma {:induction false} FirstPiece(o: Options, lex: Lex, lead: string, q: char, first: string)
    requires Usable(o) && !lex.withinComment && Starts(o, lead, first) && first[0] == q != ' '
    ensures var line, none := FirstLine(lead, first), lex.(quotationMark := NONE, consecutiveQuotation := false);
            && IsLine(line) && |line| == FirstEnd(lead, first) + 1 && line[7..|line| - 1] == lead + first
            && LineOutcome(o, lex, false, line) == Piece(o, none, false, line, 7)
  {
    hide Piece, Open, FirstLine, IsLine;
    FirstIsLine(lead, first);
    var line := FirstLine(lead, first);
    assert line[7..|line| - 1][|lead|] == q;
    assert line[7 + |lead|] == q;
    assert SkipBlanks(line, 7) <= 7 + |lead|;
  }

  lemma {:induction false} FirstRead(o: Options, lex: Lex, lead: string, q: char, t: string, first: string)
    requires Usable(o) && IsLiteral(q, t) && !lex.withinComment && Starts(o, lead, first) && first <= t
    ensures IsLine(FirstLine(lead, first))
    ensures PartRead(o, LineOutcome(o, lex, false, FirstLine(lead, first)), false, lead, FirstEnd(lead, first), q, t, 0, |first|)
  {
    hide Piece, Open, PartRead, FirstLine, IsLine, LineOutcome;
    MarkOf(q, t);
    FirstPiece(o, lex, lead, q, first);
    var none := lex.(quotationMark := NONE, consecutiveQuotation := false);
    assert first == t[0..|first|] && t[..0] == "";
    OpenNothing(NONE);
    PieceOfLiteral(o, none, false, FirstLine(lead, first), 7, lead, q, t, 0, |first|);
  }

  lemma {:induction false} WholeRead(o: Options, lex: Lex, lead: string, q: char, t: string, first: string, tail: string)
    requires Usable(o) && IsLiteral(q, t) && !lex.withinComment && Starts(o, lead, first)
    requires first == t + tail && Open(NONE, tail) == NONE
    ensures IsLine(FirstLine(lead, first))
    ensures var out := LineOutcome(o, lex, false, FirstLine(lead, first));
            out.Deliver? && out.piece == Finished(o, 72, lead + first, FirstEnd(lead, first))
  {
    hide Piece, Open, Finished, FirstLine, IsLine, LineOutcome;
    MarkOf(q, t);
    FirstPiece(o, lex, lead, q, first);
    var none := lex.(quotationMark := NONE, consecutiveQuotation := false);
    assert t[0..] == t && t[..0] == "";
    OpenNothing(NONE);
    PieceOfEnd(o, none, false, FirstLine(lead, first), 7, lead, q, t, 0, tail);
  }

  // --- Counting marks --------------------------------------------------------------------------------------

  function Marks(q: char, s: string): nat
    decreases |s|
  {
    if s == "" then 0 else (if s[0] == q then 1 else 0) + Marks(q, s[1..])
  }

  lemma {:induction false} MarksConcat(q: char, a: string, b: string)
    ensures Marks(q, a + b) == Marks(q, a) + Marks(q, b)
    decreases |a|
  {
    if a == "" {
      assert a + b == b;
    } else {
      MarksConcat(q, a[1..], b);
      assert (a + b)[1..] == a[1..] + b;
    }
  }

  lemma {:induction false} NoMarks(q: char, s: string)
    requires q != ' ' && forall k :: 0 <= k < |s| ==> s[k] == ' '
    ensures Marks(q, s) == 0
    decreases |s|
  {
    if s != "" { NoMarks(q, s[1..]); }
  }

  /** Stripping and padding leave the marks alone. */
  lemma {:induction false} PieceMarks(q: char, mark: char, buff: string, start: nat)
    requires IsLine(buff) && start < |buff| && q != ' '
    ensures Marks(q, PieceText(mark, buff, start)) == Marks(q, buff[start..|buff| - 1])
  {
    hide Marks;
    var area := buff[start..|buff| - 1];
    if mark != NONE {
      var pad := Repeat(' ', if |buff| - 1 < 72 then 72 - (|buff| - 1) else 0);
      MarksConcat(q, area, pad);
      NoMarks(q, pad);
    } else {
      var s := Stripped(area);
      assert area == s + area[|s|..];
      MarksConcat(q, s, area[|s|..]);
      NoMarks(q, area[|s|..]);
      MarksConcat(q, s, " ");
      NoMarks(q, " ");
    }
  }

  /** A continuation line in any state: all its marks are handed on, and the one that should reopen the
      literal as well when none is open. */
  lemma {:induction false} NextMarks(o: Options, lex: Lex, q: char, p: Part)
    requires Usable(o) && IsMark(q) && Consistent(lex) && !lex.withinComment
    requires NextEnd(p) <= o.textColumn && LineBalance.NoNewline(p.text) && p.text != ""
    ensures IsLine(NextLine(q, p))
    ensures match LineOutcome(o, lex, false, NextLine(q, p))
            case Deliver(piece, _, l) =>
              && Consistent(l) && !l.withinComment
              && Marks(q, piece) == Marks(q, p.text) + if Closed(lex) then 1 else 0
            case Fail(_) => true
            case Skip(_, _) => false
  {
    hide Piece, Marks, NextLine, IsLine;
    MarkIsNoNewline(q);
    NextIsLine(q, p);
    var line, start := NextLine(q, p), 7 + p.indent;
    LineFollows(o, lex, false, line);
    MarksConcat(q, [q], p.text);
    OneMark(q);
    var none := lex.(quotationMark := NONE, consecutiveQuotation := false);
    PieceGives(o, none, line, start + 1, q);
    PieceGives(o, lex, line, start + 1, q);
    PieceGives(o, lex, line, start, q);
  }

  lemma {:induction false} OneMark(q: char)
    ensures Marks(q, [q]) == 1
  {
    assert [q][1..] == "";
  }

  lemma {:induction false} PieceGives(o: Options, lex: Lex, line: string, start: nat, q: char)
    requires IsLine(line) && start < |line| && q != ' '
    ensures var out := Piece(o, lex, true, line, start);
            && out.Deliver? && out.lex.withinComment == lex.withinComment
            && Marks(q, out.piece) == Marks(q, line[start..|line| - 1])
  {
    hide Marks, PieceText;
    PieceMarks(q, Piece(o, lex, true, line, start).lex.quotationMark, line, start);
  }

  // --- The lines of a literal --------------------------------------------------------------------------------

  lemma {:induction false} NextAreLines(o: Options, q: char, parts: seq<Part>)
    requires Usable(o) && IsMark(q) && Fit(o, parts)
    ensures forall k :: 0 <= k < |NextLines(q, parts)| ==> IsLine(NextLines(q, parts)[k])
    decreases |parts|
  {
    hide NextLine;
    if parts != [] {
      NextIsLine(q, parts[0]);
      NextAreLines(o, q, parts[1..]);
    }
  }

  lemma {:induction false} PassedOutcome(o: Options, lex: Lex, continuation: bool, line: string)
    requires Usable(o) && PassedOver(o, line) && !lex.withinComment
    ensures IsLine(line)
    ensures LineOutcome(o, lex, continuation, line).Skip?
         && LineOutcome(o, lex, continuation, line).lex == lex.(newlineCount := lex.newlineCount + 1)
  {
    Indicators.LineByCharacters(o, lex, continuation, line);
  }

  function Counted(lex: Lex, n: nat): Lex { lex.(newlineCount := lex.newlineCount + n) }

  /** Lines that are passed over leave no trace, in front of a continuation line. */
  lemma {:induction false} JoinedPasses(o: Options, lex: Lex, continuation: bool, passed: seq<string>, more: seq<string>)
    requires Usable(o) && !lex.withinComment && forall k :: 0 <= k < |more| ==> IsLine(more[k])
    requires forall k :: 0 <= k < |passed| ==> PassedOver(o, passed[k])
    requires more != [] && LogicalLines.HasHyphen(o, more[0])
    ensures forall k :: 0 <= k < |passed| ==> IsLine(passed[k])
    ensures Joined(o, lex, continuation, passed + more) == Joined(o, Counted(lex, |passed|), false, more)
    decreases |passed|
  {
    hide LineOutcome, PassedOver, LogicalLines.HasHyphen, IsLine;
    forall k | 0 <= k < |passed| ensures IsLine(passed[k]) { PassedOutcome(o, lex, continuation, passed[k]); }
    if passed == [] {
      assert passed + more == more && Counted(lex, 0) == lex;
      LogicalLines.OutcomeByIndicator(o, lex, more[0]);
    } else {
      PassedOutcome(o, lex, continuation, passed[0]);
      var c := LineOutcome(o, lex, continuation, passed[0]).continuation;
      assert (passed + more)[1..] == passed[1..] + more && (passed + more)[0] == passed[0];
      JoinedPasses(o, Counted(lex, 1), c, passed[1..], more);
    }
  }

  /** The lines from a part on, without those that are passed over before it. */
  lemma {:induction false} PartJoined(o: Options, lex: Lex, q: char, parts: seq<Part>)
    requires Usable(o) && IsMark(q) && !lex.withinComment && Fit(o, parts) && parts != []
    ensures forall k :: 0 <= k < |NextLines(q, parts)| ==> IsLine(NextLines(q, parts)[k])
    ensures forall k :: 0 <= k < |NextLines(q, parts[1..])| ==> IsLine(NextLines(q, parts[1..])[k])
    ensures IsLine(NextLine(q, parts[0]))
    ensures var line := NextLine(q, parts[0]);
            var l := Counted(lex, |parts[0].passed|);
            Joined(o, lex, false, NextLines(q, parts)) ==
              match LineOutcome(o, l, false, line)
              case Deliver(piece, _, l2) =>
                var rest := Joined(o, l2, false, NextLines(q, parts[1..]));
                if rest.None? then None else Some(piece + rest.value)
              case Skip(l2, c) => Joined(o, l2, c, NextLines(q, parts[1..]))
              case Fail(_) => None
  {
    hide LineOutcome, PassedOver, NextLine, IsLine;
    NextAreLines(o, q, parts);
    NextAreLines(o, q, parts[1..]);
    NextIsLine(q, parts[0]);
    var line, rest := NextLine(q, parts[0]), NextLines(q, parts[1..]);
    HyphenOf(o, line);
    JoinedPasses(o, lex, false, parts[0].passed, [line] + rest);
    assert ([line] + rest)[1..] == rest;
  }

  lemma {:induction false} HyphenOf(o: Options, line: string)
    requires |line| >= 8 && line[6] == '-' && line[0] == ' '
    ensures LogicalLines.HasHyphen(o, line)
  {
  }

  /** Continuation lines in any state: refused, or all marks come out. */
  lemma {:induction false} AllMarks(o: Options, lex: Lex, q: char, parts: seq<Part>)
    requires Usable(o) && IsMark(q) && Consistent(lex) && !lex.withinComment && Fit(o, parts)
    ensures forall k :: 0 <= k < |NextLines(q, parts)| ==> IsLine(NextLines(q, parts)[k])
    ensures var joined := Joined(o, lex, false, NextLines(q, parts));
            joined.Some? ==> Marks(q, joined.value) >= Marks(q, Text(parts)) + if Closed(lex) && parts != [] then 1 else 0
    decreases |parts|
  {
    hide LineOutcome, Marks, NextLine, IsLine, PassedOver;
    NextAreLines(o, q, parts);
    if parts == [] {
      NoMarks(q, "");
    } else {
      PartJoined(o, lex, q, parts);
      var l := Counted(lex, |parts[0].passed|);
      NextMarks(o, l, q, parts[0]);
      match LineOutcome(o, l, false, NextLine(q, parts[0]))
      case Deliver(piece, _, l2) =>
        AllMarks(o, l2, q, parts[1..]);
        var rest := Joined(o, l2, false, NextLines(q, parts[1..]));
        if rest.Some? { MarksConcat(q, piece, rest.value); }
        MarksConcat(q, parts[0].text, Text(parts[1..]));
      case Fail(_) =>
      case Skip(_, _) =>
    }
  }

  lemma {:induction false} KeptMarks(o: Options, to: nat, q: char, parts: seq<Part>)
    requires q != ' ' && forall k :: 0 <= k < |parts| ==> parts[k].text != ""
    ensures Marks(q, PartsKept(o, to, parts)) == Marks(q, Text(parts))
    decreases |parts|
  {
    hide Marks, Finished;
    if parts != [] {
      var text, trail, rest := parts[0].text, Trail(NextEnd(parts[0]), to), PartsKept(o, to, parts[1..]);
      KeptMarks(o, to, q, parts[1..]);
      MarksConcat(q, text, Text(parts[1..]));
      MarksConcat(q, text + trail, rest);
      MarksConcat(q, text, trail);
      NoMarks(q, trail);
      FinishedMarks(o, to, q, text, NextEnd(parts[0]));
      NoMarks(q, "");
      if |parts| == 1 { assert parts[1..] == []; }
    }
  }

  lemma {:induction false} FinishedMarks(o: Options, to: nat, q: char, text: string, end: nat)
    requires q != ' ' && text != ""
    ensures Marks(q, Finished(o, to, text, end)) == Marks(q, text)
  {
    hide Marks;
    var s, trail := Stripped(text), Trail(end, to);
    assert text == s + text[|s|..];
    MarksConcat(q, s, text[|s|..]);
    NoMarks(q, text[|s|..]);
    MarksConcat(q, s, " ");
    NoMarks(q, " ");
    MarksConcat(q, text, trail);
    NoMarks(q, trail);
  }

  function LastText(first: string, parts: seq<Part>): string {
    if parts == [] then first else parts[|parts| - 1].text
  }

  /** The parts are the literal, and text behind it on the last line that leaves no literal open. */
  ghost predicate EndsLiteral(q: char, t: string, whole: string, last: string) {
    && IsLiteral(q, t) && t <= whole && |whole| - |t| < |last| && Open(NONE, whole[|t|..]) == NONE
  }

  /** The rest of a literal: its parts come out with their trailing columns, unless a split was no good;
      then it is refused or comes out with more marks. */
  lemma {:induction false} RestComesBack(o: Options, lex: Lex, q: char, t: string, whole: string, i: nat, parts: seq<Part>)
    requires Usable(o) && parts != [] && EndsLiteral(q, t, whole, LastText("", parts))
    requires 1 <= i <= |whole| && whole[i..] == Text(parts) && i < |t| && Fit(o, parts)
    requires AtSplit(lex, q, t, i)
    ensures forall k :: 0 <= k < |NextLines(q, parts)| ==> IsLine(NextLines(q, parts)[k])
    ensures var joined := Joined(o, lex, false, NextLines(q, parts));
            if GoodSplits(o, q, whole, i, parts) then joined == Some(PartsKept(o, 72, parts))
            else joined.Some? ==> Marks(q, joined.value) > Marks(q, Text(parts))
    decreases |parts|
  {
    hide LineOutcome, Marks, NextLine, IsLine, IsLiteral, Open, Consistent, Finished, PassedOver;
    MarkOf(q, t);
    PartJoined(o, lex, q, parts);
    var p, rest, l := parts[0], parts[1..], Counted(lex, |parts[0].passed|);
    var j := i + |p.text|;
    TextStarts(whole, i, parts);
    if rest == [] {
      LastTextAlone(t, whole, i, p);
      NextEndRead(o, l, q, t, i, p, whole[|t|..]);
      var piece := LineOutcome(o, l, false, NextLine(q, p)).piece;
      assert NextLines(q, rest) == [] && piece + "" == piece;
    } else {
      TextEnds(rest);
      assert j < |t| && t[i..j] == p.text && t[..j] == whole[..j];
      NextRead(o, l, q, t, i, p);
      assert "" + t[i..j] == p.text;
      var out := LineOutcome(o, l, false, NextLine(q, p));
      var more := Joined(o, out.lex, false, NextLines(q, rest));
      if GoodSplit(o, q, t, j, NextEnd(p)) {
        RestComesBack(o, out.lex, q, t, whole, j, rest);
        if more.Some? { AddMarks(q, p.text, Trail(NextEnd(p), 72), more.value, Text(rest)); }
      } else {
        ClosedConsistent(out.lex);
        AllMarks(o, out.lex, q, rest);
        if more.Some? { AddMarks(q, p.text, " ", more.value, Text(rest)); }
      }
    }
  }

  lemma {:induction false} LastTextAlone(t: string, whole: string, i: nat, p: Part)
    requires t <= whole && i < |t| && whole[i..] == p.text
    ensures p.text == t[i..] + whole[|t|..]
  {
  }

  lemma {:induction false} TextEnds(parts: seq<Part>)
    requires parts != []
    ensures |LastText("", parts)| <= |Text(parts)|
    decreases |parts|
  {
    if |parts| > 1 { TextEnds(parts[1..]); }
  }

  lemma {:induction false} ClosedConsistent(lex: Lex)
    requires Closed(lex)
    ensures Consistent(lex)
  {
  }

  lemma {:induction false} TextStarts(t: string, i: nat, parts: seq<Part>)
    requires i <= |t| && parts != [] && t[i..] == Text(parts)
    ensures var j := i + |parts[0].text|; j <= |t| && parts[0].text == t[i..j] && t[j..] == Text(parts[1..])
  {
    var n := |parts[0].text|;
    assert t[i..][..n] == parts[0].text && t[i..][n..] == Text(parts[1..]);
  }

  lemma {:induction false} AddMarks(q: char, text: string, blanks: string, more: string, rest: string)
    requires q != ' ' && forall k :: 0 <= k < |blanks| ==> blanks[k] == ' '
    ensures Marks(q, text + blanks + more) == Marks(q, text) + Marks(q, more)
    ensures Marks(q, text + rest) == Marks(q, text) + Marks(q, rest)
  {
    hide Marks;
    MarksConcat(q, text + blanks, more);
    MarksConcat(q, text, blanks);
    NoMarks(q, blanks);
    MarksConcat(q, text, rest);
  }

  /** The lines of a literal that is split into these parts. */
  function Lines(q: char, lead: string, first: string, parts: seq<Part>): seq<string> {
    [FirstLine(lead, first)] + NextLines(q, parts)
  }

  /** A literal t that is split into these parts, the last of which goes on behind it. */
  ghost predicate Split(o: Options, q: char, t: string, lead: string, first: string, parts: seq<Part>)
    requires Usable(o)
  {
    EndsLiteral(q, t, first + Text(parts), LastText(first, parts)) && Starts(o, lead, first) && Fit(o, parts)
  }

  lemma {:induction false} AreLines(o: Options, q: char, t: string, lead: string, first: string, parts: seq<Part>)
    requires Usable(o) && Split(o, q, t, lead, first, parts)
    ensures var lines := Lines(q, lead, first, parts); forall k :: 0 <= k < |lines| ==> IsLine(lines[k])
  {
    hide IsLine, FirstLine, NextLine, PassedOver;
    FirstIsLine(lead, first);
    NextAreLines(o, q, parts);
  }

  /** The split literal, read back. */
  ghost function Reassembled(o: Options, lex: Lex, q: char, t: string, lead: string, first: string, parts: seq<Part>): Option<string>
    requires Usable(o) && Split(o, q, t, lead, first, parts)
  {
    AreLines(o, q, t, lead, first, parts);
    Joined(o, lex, false, Lines(q, lead, first, parts))
  }

  /** A literal split over lines at any places, behind any text, with any indentation, with any lines
      between that are passed over and with any text behind it: its parts come out in order, each but the
      last with its trailing columns up to column 72 and without the mark that reopens it, exactly when no
      split falls between the marks of a doubled one before the last column. */
  lemma {:induction false} SplitComesBack(o: Options, lex: Lex, q: char, t: string, lead: string, first: string, parts: seq<Part>)
    requires Usable(o) && Split(o, q, t, lead, first, parts) && !lex.withinComment
    ensures Reassembled(o, lex, q, t, lead, first, parts) == Some(Kept(o, 72, lead, first, parts)) <==>
            AllGood(o, q, lead, first, parts)
  {
    hide LineOutcome, Marks, FirstLine, NextLine, IsLine, Open, IsLiteral, PartsKept, GoodSplits, Consistent, Finished, PassedOver;
    var whole := first + Text(parts);
    MarkOf(q, t);
    AreLines(o, q, t, lead, first, parts);
    NextAreLines(o, q, parts);
    var lines, end := Lines(q, lead, first, parts), FirstEnd(lead, first);
    assert lines[1..] == NextLines(q, parts) && lines[0] == FirstLine(lead, first);
    var out := LineOutcome(o, lex, false, lines[0]);
    if parts == [] {
      assert whole == first && first == t + whole[|t|..];
      WholeRead(o, lex, lead, q, t, first, whole[|t|..]);
      assert lines[1..] == [] && out.piece + "" == out.piece;
      assert Joined(o, lex, false, lines) == Some(out.piece);
    } else {
      TextEnds(parts);
      assert whole[|first|..] == Text(parts) && |first| < |t| && whole[..|first|] == t[..|first|] == t[0..|first|] == first;
      FirstRead(o, lex, lead, q, t, first);
      if GoodSplit(o, q, t, |first|, end) {
        RestComesBack(o, out.lex, q, t, whole, |first|, parts);
        assert out.piece == lead + first + Trail(end, 72);
      } else {
        assert !AllGood(o, q, lead, first, parts);
        ClosedConsistent(out.lex);
        AllMarks(o, out.lex, q, parts);
      }
      var more := Joined(o, out.lex, false, lines[1..]);
      KeptMarks(o, 72, q, parts);
      AddMarks(q, lead + first, Trail(end, 72), PartsKept(o, 72, parts), "");
      if more.Some? {
        AddMarks(q, lead + first, Trail(end, 72), more.value, "");
        AddMarks(q, lead + first, " ", more.value, "");
        assert Joined(o, lex, false, lines) == Some(out.piece + more.value);
      }
    }
  }

  lemma {:induction false} OpenPrefixes(t: string)
    ensures t[..0] == "" && t[..|t|] == t && Open(NONE, t[..0]) == NONE
    ensures forall k :: 0 <= k < |t| ==> Open(NONE, t[..k + 1]) == Next(Open(NONE, t[..k]), t[k])
  {
    forall k | 0 <= k < |t| ensures Open(NONE, t[..k + 1]) == Next(Open(NONE, t[..k]), t[k]) {
      assert t[..k + 1] == t[..k] + [t[k]];
      OpenConcat(NONE, t[..k], [t[k]]);
      assert [t[k]][1..] == "";
    }
  }

  /** 'a''b'. split between its two middle marks, behind column 10: it does not come back. */
  lemma {:induction false} DoubledMarkBroken(o: Options, lex: Lex)
    requires Usable(o) && o.textColumn > 11 && !lex.withinComment
    ensures var parts := [Part([], 0, "'b'.")];
            && Split(o, '\'', "'a''b'", "", "'a'", parts)
            && Reassembled(o, lex, '\'', "'a''b'", "", "'a'", parts) != Some(Kept(o, 72, "", "'a'", parts))
  {
    hide Reassembled, Kept, Open;
    var parts := [Part([], 0, "'b'.")];
    var t := "'a''b'";
    assert parts[1..] == [] && Text(parts) == "'b'." + "" == "'b'." && "'a'" + Text(parts) == t + ".";
    OpenPrefixes(t);
    assert t[0] == t[2] == t[3] == t[5] == '\'' && t[1] == 'a' && t[4] == 'b';
    assert Open(NONE, t[..1]) == Open(NONE, t[..2]) == '\'' && Open(NONE, t[..3]) == NONE;
    assert Open(NONE, t[..4]) == Open(NONE, t[..5]) == '\'' && Open(NONE, t[..6]) == NONE;
    assert Splittable('\'', t, 1) && Splittable('\'', t, 2) && Splittable('\'', t, 3) && Splittable('\'', t, 4) && Splittable('\'', t, 5);
    PeriodCloses();
    OpenNothing(NONE);
    assert IsLiteral('\'', t);
    assert (t + ".")[..6] == t && (t + ".")[6..] == ".";
    assert EndsLiteral('\'', t, t + ".", "'b'.");
    assert (t + ".")[..3] == t[..3];
    SplitComesBack(o, lex, '\'', t, "", "'a'", parts);
  }

  lemma {:induction false} PeriodCloses()
    ensures Open(NONE, ".") == NONE
  {
    assert "."[1..] == "";
  }

  // --- Full lines ----------------------------------------------------------------------------------------

  /** Every line but the last is filled to the text column. */
  predicate FullLines(o: Options, lead: string, first: string, parts: seq<Part>) {
    FirstEnd(lead, first) == o.textColumn && forall k :: 0 <= k < |parts| - 1 ==> NextEnd(parts[k]) == o.textColumn
  }

  lemma {:induction false} FullSplitsGood(o: Options, q: char, t: string, i: nat, parts: seq<Part>)
    requires i + |Text(parts)| <= |t| && forall k :: 0 <= k < |parts| - 1 ==> NextEnd(parts[k]) == o.textColumn
    ensures GoodSplits(o, q, t, i, parts)
    decreases |parts|
  {
    hide Open, NextEnd;
    if |parts| > 1 { FullSplitsGood(o, q, t, i + |parts[0].text|, parts[1..]); }
  }

  /** Text in front does not matter to the end. */
  lemma {:induction false} StrippedBehind(before: string, text: string)
    requires Stripped(text) != ""
    ensures Stripped(before + text) == before + Stripped(text)
    decreases |text|
  {
    var n := |text| - 1;
    assert (before + text)[..|before| + n] == before + text[..n];
    if text[n] == ' ' { StrippedBehind(before, text[..n]); }
  }

  lemma {:induction false} FinishedBehind(o: Options, before: string, text: string, end: nat)
    requires Stripped(text) != ""
    ensures text != "" && Finished(o, 72, before + text, end) == before + Finished(o, 72, text, end)
  {
    StrippedBehind(before, text);
    hide Stripped, IsMark;
    var s := Stripped(text);
    assert (before + s) + " " == before + (s + " ");
    assert (before + text) + Trail(end, 72) == before + (text + Trail(end, 72));
  }

  /** From column 72 on full lines have no trailing columns; before it each has some. */
  lemma {:induction false} FullPartsKept(o: Options, parts: seq<Part>)
    requires parts != [] && forall k :: 0 <= k < |parts| - 1 ==> NextEnd(parts[k]) == o.textColumn
    requires Stripped(LastText("", parts)) != "" && forall k :: 0 <= k < |parts| ==> parts[k].text != ""
    ensures Text(parts) != "" && Stripped(Text(parts)) != ""
    ensures var one := Finished(o, 72, Text(parts), NextEnd(parts[|parts| - 1]));
            && (o.textColumn >= 72 ==> PartsKept(o, 72, parts) == one)
            && |PartsKept(o, 72, parts)| >= |one|
    decreases |parts|
  {
    hide NextEnd, Stripped, Finished;
    var text, rest := parts[0].text, parts[1..];
    if rest == [] {
      assert Text(parts) == text + "" == text;
    } else {
      FullPartsKept(o, rest);
      StrippedBehind(text, Text(rest));
      FinishedBehind(o, text, Text(rest), NextEnd(parts[|parts| - 1]));
      var trail := Trail(NextEnd(parts[0]), 72);
      if o.textColumn >= 72 { assert trail == "" && text + trail == text; }
    }
  }

  lemma {:induction false} LastNotBlank(q: char, t: string, whole: string, parts: seq<Part>)
    requires EndsLiteral(q, t, whole, LastText("", parts)) && parts != []
    requires |Text(parts)| <= |whole| && whole[|whole| - |Text(parts)|..] == Text(parts)
    ensures Stripped(LastText("", parts)) != ""
  {
    MarkOf(q, t);
    var last := LastText("", parts);
    LastIsLast(parts);
    var k := |last| - (|whole| - |t|) - 1;
    assert last[k] == whole[|t| - 1] == t[|t| - 1] == q;
  }

  lemma {:induction false} LastIsLast(parts: seq<Part>)
    requires parts != []
    ensures |LastText("", parts)| <= |Text(parts)| && Text(parts)[|Text(parts)| - |LastText("", parts)|..] == LastText("", parts)
    decreases |parts|
  {
    if |parts| > 1 { LastIsLast(parts[1..]); } else { assert Text(parts) == parts[0].text; }
  }

  /** A literal on full lines comes back as it would from one line that ends where the last one does,
      exactly when the text column is at least 72: before it, blanks get into it. */
  lemma {:induction false} FullLinesIff(o: Options, lex: Lex, q: char, t: string, lead: string, first: string, parts: seq<Part>)
    requires Usable(o) && Split(o, q, t, lead, first, parts) && !lex.withinComment
    requires parts != [] && FullLines(o, lead, first, parts)
    ensures var one := Finished(o, 72, lead + first + Text(parts), NextEnd(parts[|parts| - 1]));
            Reassembled(o, lex, q, t, lead, first, parts) == Some(one) <==> o.textColumn >= 72
  {
    hide Reassembled, PartsKept, GoodSplits, NextEnd, FirstEnd, Text, Finished, Stripped, IsLiteral, Open, PassedOver;
    var whole := first + Text(parts);
    FullSplitsGood(o, q, whole, |first|, parts);
    SplitComesBack(o, lex, q, t, lead, first, parts);
    assert whole[|whole| - |Text(parts)|..] == Text(parts);
    LastNotBlank(q, t, whole, parts);
    FullPartsKept(o, parts);
    var before, trail, kept := lead + first, Trail(FirstEnd(lead, first), 72), PartsKept(o, 72, parts);
    FinishedBehind(o, before, Text(parts), NextEnd(parts[|parts| - 1]));
    assert Kept(o, 72, lead, first, parts) == before + trail + kept;
    if o.textColumn >= 72 {
      assert trail == "" && before + trail == before;
    } else {
      assert |trail| >= 1;
    }
  }

  // --- The text column -----------------------------------------------------------------------------------

  /** Every literal comes back with its trailing columns up to the text column. */
  ghost predicate ColumnsKept(o: Options)
    requires Usable(o)
  {
    forall lex: Lex, q, t, lead, first, parts ::
      !lex.withinComment && Split(o, q, t, lead, first, parts) && AllGood(o, q, lead, first, parts) ==>
        Reassembled(o, lex, q, t, lead, first, parts) == Some(Kept(o, o.textColumn, lead, first, parts))
  }

  lemma {:induction false} ShortLiteral(o: Options)
    requires Usable(o) && o.textColumn >= 10
    ensures var parts := [Part([], 0, "a'")];
            Split(o, '\'', "'aa'", "", "'a", parts) && AllGood(o, '\'', "", "'a", parts)
  {
    hide Open, PassedOver;
    var parts := [Part([], 0, "a'")];
    assert parts[1..] == [] && Text(parts) == "a'" + "" == "a'";
    var t := "'a" + Text(parts);
    assert t == "'aa'" && t[..4] == t && t[4..] == "";
    OpenNothing(NONE);
    OpenPrefixes(t);
    assert t[0] == t[3] == '\'' && t[1] == t[2] == 'a';
    assert Open(NONE, t[..1]) == Open(NONE, t[..2]) == Open(NONE, t[..3]) == '\'' && Open(NONE, t[..4]) == NONE;
    assert IsLiteral('\'', t);
  }

  lemma {:induction false} ShortKept(o: Options)
    requires o.textColumn >= 10 && o.textColumn != 72
    ensures var parts := [Part([], 0, "a'")];
            |Kept(o, 72, "", "'a", parts)| != |Kept(o, o.textColumn, "", "'a", parts)|
  {
    var parts := [Part([], 0, "a'")];
    assert Stripped("a'") == "a'";
    assert "" + "'a" == "'a";
  }

  /** The trailing columns that are kept are those up to the text column exactly when it is 72. */
  lemma {:induction false} SplitsComeBackIff(o: Options)
    requires Usable(o) && o.textColumn >= 10
    ensures ColumnsKept(o) <==> o.textColumn == 72
  {
    hide Reassembled, Kept, AllGood, EndsLiteral, PassedOver;
    if o.textColumn == 72 {
      forall lex: Lex, q, t, lead, first, parts |
        !lex.withinComment && Split(o, q, t, lead, first, parts) && AllGood(o, q, lead, first, parts)
        ensures Reassembled(o, lex, q, t, lead, first, parts) == Some(Kept(o, o.textColumn, lead, first, parts))
      {
        SplitComesBack(o, lex, q, t, lead, first, parts);
      }
    } else {
      var lex := Lex(0, NONE, false, false);
      var parts := [Part([], 0, "a'")];
      ShortLiteral(o);
      ShortKept(o);
      SplitComesBack(o, lex, '\'', "'aa'", "", "'a", parts);
      assert Reassembled(o, lex, '\'', "'aa'", "", "'a", parts) != Some(Kept(o, o.textColumn, "", "'a", parts));
    }
  }
}
