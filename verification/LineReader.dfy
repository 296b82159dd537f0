/** Reading fixed-form source (reference format): ppinput, line by line, with the state it keeps
    between calls, and the push-back of ppopen. */
module LineReader {
  import opened Modulus
  import opened Sequences

  /** Settings; columns are counted from 1, as in text-column: 72. */
  datatype Options = Options(textColumn: nat, tabWidth: nat, debuggingLines: bool, mfComment: bool)

  ghost predicate Usable(o: Options) { o.textColumn >= 7 && o.tabWidth >= 1 }

  const NONE := '\0'

  /** The statics of ppinput. */
  datatype Lex = Lex(newlineCount: nat, quotationMark: char, consecutiveQuotation: bool, withinComment: bool)

  // --- Physical lines ------------------------------------------------------------------------------

  datatype Physical = Eof | Line(text: string, rest: string)

  predicate Ended(buff: string) { buff != "" && buff[|buff| - 1] == '\n' }

  /** Blanks up to the next tab stop. */
  function ToStop(buff: string, width: nat): (r: string)
    requires width >= 1
    ensures buff <= r && forall k :: |buff| <= k < |r| ==> r[k] == ' '
    ensures |r| % width == 0
    decreases if |buff| % width == 0 then 0 else width - |buff| % width
  {
    if |buff| % width == 0 then buff
    else
      ModulusStep(|buff|, width);
      ToStop(buff + " ", width)
  }

  function Tab(buff: string, width: nat): (r: string)
    requires width >= 1
    ensures |r| > |buff| && r[|r| - 1] == ' '
  {
    assert (buff + " ")[|buff|] == ' ';
    ToStop(buff + " ", width)
  }

  /** Characters up to a newline or the 256th column; a carriage return before the newline is dropped,
      tabs are expanded, and a line cut off is given a newline. An end of file in mid-line loses it. */
  function ReadFrom(o: Options, input: string, buff: string, gotcr: bool): Physical
    requires Usable(o)
    decreases |input|
  {
    if Ended(buff) then Line(buff, input)
    else if |buff| >= 256 then Line(buff + "\n", input)
    else if input == "" then Eof
    else
      var b := if gotcr && input[0] != '\n' then buff + "\r" else buff;
      if input[0] == '\r' then ReadFrom(o, input[1..], b, true)
      else if input[0] == '\t' then ReadFrom(o, input[1..], Tab(b, o.tabWidth), false)
      else ReadFrom(o, input[1..], b + [input[0]], false)
  }

  /** One newline, at the end. */
  ghost predicate IsLine(line: string) {
    Ended(line) && forall k :: 0 <= k < |line| - 1 ==> line[k] != '\n'
  }

  lemma {:induction false} ReadFromLine(o: Options, input: string, buff: string, gotcr: bool)
    requires Usable(o) && (IsLine(buff) || forall k :: 0 <= k < |buff| ==> buff[k] != '\n')
    ensures var p := ReadFrom(o, input, buff, gotcr);
            p.Line? ==> IsLine(p.text) && |p.rest| <= |input| && (|buff| == 0 ==> |p.rest| < |input|)
    decreases |input|
  {
    if !Ended(buff) && |buff| < 256 && input != "" {
      var b := if gotcr && input[0] != '\n' then buff + "\r" else buff;
      if input[0] == '\r' {
        ReadFromLine(o, input[1..], b, true);
      } else if input[0] == '\t' {
        ReadFromLine(o, input[1..], Tab(b, o.tabWidth), false);
      } else {
        ReadFromLine(o, input[1..], b + [input[0]], false);
      }
    }
  }

  function ReadLine(o: Options, input: string): (p: Physical)
    requires Usable(o)
    ensures p.Line? ==> IsLine(p.text) && |p.rest| < |input|
  {
    ReadFromLine(o, input, "", false);
    ReadFrom(o, input, "", false)
  }

  /** How many physical lines a file still has. */
  function LineCount(o: Options, input: string): nat
    requires Usable(o)
    decreases |input|
  {
    var p := ReadLine(o, input);
    if p.Eof? then 0 else 1 + LineCount(o, p.rest)
  }

  // --- One line ------------------------------------------------------------------------------------

  /** What becomes of a line: passed over, an error, or text for the scanner. `continuation` stays set
      from one passed-over line to the next. */
  datatype Outcome =
    | Skip(lex: Lex, continuation: bool)
    | Fail(lex: Lex)
    | Deliver(piece: string, continuation: bool, lex: Lex)

  function Skipped(lex: Lex, continuation: bool): Outcome {
    Skip(lex.(newlineCount := lex.newlineCount + 1), continuation)
  }

  datatype Indicator = Normal | Continuation | Comment | Invalid

  function IndicatorOf(o: Options, c: char): Indicator {
    match c
    case ' ' => Normal
    case '-' => Continuation
    case 'd' => if o.debuggingLines then Normal else Comment
    case 'D' => if o.debuggingLines then Normal else Comment
    case '*' => Comment
    case '/' => Comment
    case _ => Invalid
  }

  function SkipBlanks(s: string, i: nat): (r: nat)
    requires i <= |s|
    ensures i <= r <= |s| && (r < |s| ==> s[r] != ' ') && forall k :: i <= k < r ==> s[k] == ' '
    decreases |s| - i
  {
    if i < |s| && s[i] == ' ' then SkipBlanks(s, i + 1) else i
  }

  /** Area A, as far as the line has it. */
  predicate AreaABlank(line: string)
    requires |line| >= 8
  {
    SkipBlanks(line, 7) >= (if |line| < 11 then |line| else 11)
  }

  function Truncated(o: Options, line: string): (r: string)
    requires Usable(o) && IsLine(line) && |line| >= 8
    ensures IsLine(r) && 8 <= |r| <= |line|
  {
    if |line| > o.textColumn + 1 then line[..o.textColumn] + "\n" else line
  }

  function LineOutcome(o: Options, lex: Lex, continuation: bool, line: string): Outcome
    requires Usable(o) && IsLine(line)
  {
    if |line| < 8 then Skipped(lex, continuation)
    else if o.mfComment && (line[0] == '*' || line[0] == '/') then Skipped(lex, continuation)
    else
      match IndicatorOf(o, line[6])
      case Comment => Skipped(lex, continuation)
      case Invalid => Fail(lex)
      case Normal => TextOutcome(o, lex, continuation, line)
      case Continuation => TextOutcome(o, lex, true, line)
  }

  function TextOutcome(o: Options, lex: Lex, continuation: bool, line: string): Outcome
    requires Usable(o) && IsLine(line) && |line| >= 8
  {
    if lex.withinComment && AreaABlank(line) then Skipped(lex, continuation)
    else
      var l := lex.(withinComment := false);
      var buff := Truncated(o, line);
      var start := SkipBlanks(buff, 7);
      if start == |buff| - 1 then Skipped(l, continuation)
      else if !continuation then Piece(o, l.(quotationMark := NONE, consecutiveQuotation := false), false, buff, 7)
      else if l.consecutiveQuotation then
        if buff[start] == l.quotationMark == buff[start + 1] then
          Piece(o, l.(quotationMark := NONE, consecutiveQuotation := false), true, buff, start + 1)
        else Fail(l)
      else if l.quotationMark != NONE then
        if buff[start] == l.quotationMark then Piece(o, l, true, buff, start + 1) else Fail(l)
      else Piece(o, l, true, buff, start)
  }

  /** The loop over the quotation marks of the line: the open literal, if any, and whether it was closed
      in the last column, where a second mark may follow on the next line. */
  function Scan(o: Options, buff: string, i: nat, mark: char, consecutive: bool): (char, bool)
    requires i <= |buff|
    decreases |buff| - i
  {
    if i == |buff| || buff[i] == '\n' then (mark, consecutive)
    else if buff[i] == '\'' || buff[i] == '\"' then
      if mark == NONE then Scan(o, buff, i + 1, buff[i], consecutive)
      else if mark == buff[i] then
        if i + 1 == o.textColumn then Scan(o, buff, i + 1, mark, true)
        else Scan(o, buff, i + 1, NONE, consecutive)
      else Scan(o, buff, i + 1, mark, consecutive)
    else Scan(o, buff, i + 1, mark, consecutive)
  }

  /** Without its trailing blanks. */
  function Stripped(s: string): (r: string)
    ensures r <= s && (r == "" || r[|r| - 1] != ' ')
    ensures forall k :: |r| <= k < |s| ==> s[k] == ' '
  {
    if s == "" || s[|s| - 1] != ' ' then s else Stripped(s[..|s| - 1])
  }

  predicate IsMark(c: char) { c == '\'' || c == '\"' }

  /** The text from `start` on: padded to column 72 when a literal is open at its end, otherwise
      stripped, and parted by a blank from a closing quotation mark. */
  function PieceText(mark: char, buff: string, start: nat): string
    requires IsLine(buff) && start < |buff|
  {
    var area := buff[start..|buff| - 1];
    if mark != NONE then area + Repeat(' ', if |buff| - 1 < 72 then 72 - (|buff| - 1) else 0)
    else
      var s := Stripped(area);
      if s != "" && IsMark(s[|s| - 1]) then s + " " else s
  }

  function Piece(o: Options, lex: Lex, continuation: bool, buff: string, start: nat): Outcome
    requires IsLine(buff) && start < |buff|
  {
    var (mark, consecutive) := Scan(o, buff, start, lex.quotationMark, lex.consecutiveQuotation);
    Deliver(PieceText(mark, buff, start), continuation,
      lex.(quotationMark := mark, consecutiveQuotation := consecutive,
           newlineCount := if continuation then lex.newlineCount + 1 else 1))
  }

  // --- One call ------------------------------------------------------------------------------------

  /** What a call hands to the scanner, whether that goes on from the text before, and the state and
      the file it leaves behind. */
  datatype Call = Call(text: string, continued: bool, lex: Lex, rest: string, failed: bool)

  function NextCall(o: Options, lex: Lex, continuation: bool, input: string): Call
    requires Usable(o)
    decreases |input|
  {
    var p := ReadLine(o, input);
    if p.Eof? then Call(Repeat('\n', lex.newlineCount), true, lex.(newlineCount := 0), "", false)
    else
      match LineOutcome(o, lex, continuation, p.text)
      case Skip(l, c) => NextCall(o, l, c, p.rest)
      case Fail(l) => Call("", true, l, p.rest, true)
      case Deliver(piece, c, l) =>
        Call((if c then "" else Repeat('\n', lex.newlineCount)) + piece, c, l, p.rest, false)
  }

  method ExpandTab(before: string, width: nat) returns (buff: string)
    requires width >= 1
    ensures buff == Tab(before, width)
  {
    buff := before + " ";
    while |buff| % width != 0
      invariant ToStop(buff, width) == Tab(before, width)
      decreases if |buff| % width == 0 then 0 else width - |buff| % width
    {
      ModulusStep(|buff|, width);
      buff := buff + " ";
    }
  }

  method StripText(area: string) returns (s: string)
    ensures s == Stripped(area)
  {
    s := area;
    while s != "" && s[|s| - 1] == ' '
      invariant Stripped(s) == Stripped(area)
      decreases |s|
    {
      s := s[..|s| - 1];
    }
  }

  // --- The reader ----------------------------------------------------------------------------------

  /** A file left for a COPY, and the quotation mark to go back to. */
  datatype Suspended = Suspended(input: string, quotationMark: char)

  datatype Taken = Passed | Failed | Delivered(piece: string)

  class Reader {
    const o: Options
    var newlineCount: nat
    var quotationMark: char
    var consecutiveQuotation: bool
    var withinComment: bool
    var input: string
    var copyStack: seq<Suspended>

    constructor (o: Options, input: string)
      ensures this.o == o && this.input == input && State() == Lex(0, NONE, false, false) && copyStack == []
    {
      this.o, this.input, copyStack := o, input, [];
      newlineCount, quotationMark, consecutiveQuotation, withinComment := 0, NONE, false, false;
    }

    function State(): Lex
      reads this
    {
      Lex(newlineCount, quotationMark, consecutiveQuotation, withinComment)
    }

    /** Reading characters into the buffer. */
    method GetLine() returns (line: string, eof: bool)
      requires Usable(o)
      modifies this`input
      ensures eof ==> ReadLine(o, old(input)) == Eof && input == ""
      ensures !eof ==> ReadLine(o, old(input)) == Line(line, input)
    {
      hide Tab;
      var buff, gotcr, ipchar := "", false, '\0';
      while |buff| < 256 && ipchar != '\n'
        invariant ipchar == '\n' <==> Ended(buff)
        invariant ReadFrom(o, input, buff, gotcr) == ReadFrom(o, old(input), "", false)
        decreases |input|
      {
        if input == "" {
          return "", true;
        }
        ipchar := input[0];
        input := input[1..];
        if gotcr {
          if ipchar != '\n' {
            buff := buff + "\r";
          }
          gotcr := false;
        }
        if ipchar == '\r' {
          gotcr := true;
        } else if ipchar == '\t' {
          buff := ExpandTab(buff, o.tabWidth);
        } else {
          buff := buff + [ipchar];
        }
      }
      if buff[|buff| - 1] != '\n' {
        buff := buff + "\n";
      }
      return buff, false;
    }

    /** The rest of a line that is not a comment. */
    method TakeText(continuation: bool, line: string) returns (taken: Taken)
      requires Usable(o) && IsLine(line) && |line| >= 8
      modifies this`quotationMark, this`consecutiveQuotation, this`withinComment
      ensures match TextOutcome(o, old(State()), continuation, line)
              case Skip(l, c) => taken == Passed && c == continuation && State() == l.(newlineCount := newlineCount)
              case Fail(l) => taken == Failed && State() == l
              case Deliver(piece, c, l) =>
                taken == Delivered(piece) && c == continuation && State() == l.(newlineCount := newlineCount)
      ensures match TextOutcome(o, old(State()), continuation, line)
              case Skip(l, _) => l.newlineCount == newlineCount + 1
              case Fail(l) => l.newlineCount == newlineCount
              case Deliver(_, c, l) => l.newlineCount == if c then newlineCount + 1 else 1
    {
      hide IsLine, AreaABlank, Truncated, PieceText, Scan;
      if withinComment {
        var blank := CheckAreaA(line);
        if blank {
          return Passed;
        }
        withinComment := false;
      }
      var buff, i := CutAndSkip(line);
      if i == |buff| - 1 {
        return Passed;
      }
      var bp := 7;
      if continuation {
        bp := i;
        if consecutiveQuotation {
          if buff[bp] == quotationMark && buff[bp + 1] == quotationMark {
            bp := bp + 1;
          } else {
            return Failed;
          }
          quotationMark, consecutiveQuotation := NONE, false;
        } else if quotationMark != NONE {
          if buff[bp] == quotationMark {
            bp := bp + 1;
          } else {
            return Failed;
          }
        }
      } else {
        quotationMark, consecutiveQuotation := NONE, false;
      }
      ScanMarks(buff, bp);
      var piece := FinishText(buff, bp);
      taken := Delivered(piece);
    }

    method CheckAreaA(line: string) returns (blank: bool)
      requires IsLine(line) && |line| >= 8
      ensures blank == AreaABlank(line)
    {
      var areaA := if |line| < 11 then |line| - 7 else 4;
      var area := line[7..7 + areaA];
      blank := area == Repeat(' ', areaA);
      if blank {
        forall k | 7 <= k < 7 + areaA ensures line[k] == ' ' { assert line[k] == area[k - 7]; }
      } else {
        ghost var k :| 0 <= k < areaA && area[k] != ' ';
        assert line[7 + k] != ' ';
      }
    }

    /** Removing what lies beyond the text column, and finding the first character of the text. */
    method CutAndSkip(line: string) returns (buff: string, i: nat)
      requires Usable(o) && IsLine(line) && |line| >= 8
      ensures buff == Truncated(o, line) && i == SkipBlanks(buff, 7) < |buff|
    {
      buff := line;
      if |buff| > o.textColumn + 1 {
        buff := buff[..o.textColumn] + "\n";
      }
      i := 7;
      while buff[i] == ' '
        invariant 7 <= i < |buff| && SkipBlanks(buff, i) == SkipBlanks(buff, 7)
        invariant IsLine(buff) && buff == Truncated(o, line)
        decreases |buff| - i
      {
        i := i + 1;
      }
    }

    method ScanMarks(buff: string, start: nat)
      requires IsLine(buff) && start < |buff|
      modifies this`quotationMark, this`consecutiveQuotation
      ensures (quotationMark, consecutiveQuotation) == Scan(o, buff, start, old(quotationMark), old(consecutiveQuotation))
    {
      var i := start;
      while buff[i] != '\n'
        invariant start <= i < |buff|
        invariant Scan(o, buff, i, quotationMark, consecutiveQuotation)
               == Scan(o, buff, start, old(quotationMark), old(consecutiveQuotation))
        decreases |buff| - i
      {
        if buff[i] == '\'' || buff[i] == '\"' {
          if quotationMark == NONE {
            quotationMark := buff[i];
          } else if quotationMark == buff[i] {
            if i == o.textColumn - 1 {
              consecutiveQuotation := true;
            } else {
              quotationMark := NONE;
            }
          }
        }
        i := i + 1;
      }
    }

    method FinishText(line: string, bp: nat) returns (piece: string)
      requires IsLine(line) && bp < |line|
      ensures piece == PieceText(quotationMark, line, bp)
    {
      if quotationMark != NONE {
        var i, buff := |line| - 1, line[..|line| - 1];
        while i < 72
          invariant |line| - 1 <= i && (i <= 72 || i == |line| - 1)
          invariant buff == line[..|line| - 1] + Repeat(' ', i - (|line| - 1))
          decreases 72 - i
        {
          buff := buff + " ";
          i := i + 1;
        }
        assert buff[bp..] == line[bp..|line| - 1] + Repeat(' ', i - (|line| - 1));
        piece := buff[bp..];
      } else {
        piece := StripText(line[bp..|line| - 1]);
        if piece != "" && IsMark(piece[|piece| - 1]) {
          piece := piece + " ";
        }
      }
    }

    /** One call of ppinput. */
    method Ppinput() returns (text: string, failed: bool)
      requires Usable(o)
      modifies this`newlineCount, this`quotationMark, this`consecutiveQuotation, this`withinComment, this`input
      ensures var call := NextCall(o, old(State()), false, old(input));
              text == call.text && failed == call.failed && State() == call.lex && input == call.rest
    {
      hide ReadLine, TextOutcome, IndicatorOf;
      var continuation := false;
      while true
        invariant NextCall(o, State(), continuation, input) == NextCall(o, old(State()), false, old(input))
        decreases |input|
      {
        var line, eof := GetLine();
        if eof {
          text := Repeat('\n', newlineCount);
          newlineCount := 0;
          return text, false;
        }
        if |line| < 8 || (o.mfComment && (line[0] == '*' || line[0] == '/')) {
          newlineCount := newlineCount + 1;
          continue;
        }
        var indicator := IndicatorOf(o, line[6]);
        if indicator == Invalid {
          return "", true;
        }
        if indicator == Comment {
          newlineCount := newlineCount + 1;
          continue;
        }
        if indicator == Continuation {
          continuation := true;
        }
        var taken := TakeText(continuation, line);
        match taken
        case Passed =>
          newlineCount := newlineCount + 1;
        case Failed =>
          return "", true;
        case Delivered(piece) =>
          if continuation {
            newlineCount := newlineCount + 1;
            return piece, false;
          }
          text := Repeat('\n', newlineCount) + piece;
          newlineCount := 1;
          return text, false;
      }
    }

    /** Leaving the file for a copy file: its pending newlines are pushed back. */
    method Ppopen(content: string)
      modifies this`newlineCount, this`input, this`copyStack
      ensures input == content && newlineCount == 0
      ensures copyStack == [Suspended(Repeat('\n', old(newlineCount)) + old(input), quotationMark)] + old(copyStack)
    {
      ghost var count := newlineCount;
      while newlineCount > 0
        invariant copyStack == old(copyStack)
        invariant newlineCount <= count && input == Repeat('\n', count - newlineCount) + old(input)
        decreases newlineCount
      {
        input := "\n" + input;
        newlineCount := newlineCount - 1;
      }
      copyStack := [Suspended(input, quotationMark)] + copyStack;
      input := content;
    }

    /** End of a copy file. */
    method Resume()
      requires copyStack != []
      modifies this`input, this`quotationMark, this`copyStack
      ensures input == old(copyStack)[0].input && quotationMark == old(copyStack)[0].quotationMark
      ensures copyStack == old(copyStack)[1..]
    {
      input, quotationMark := copyStack[0].input, copyStack[0].quotationMark;
      copyStack := copyStack[1..];
    }
  }
}
