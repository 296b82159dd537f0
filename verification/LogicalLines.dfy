/** Which lines belong together: the logical text by the indicators of the lines, what ppinput makes of
    it, and the literal it keeps track of, over runs with copy files. */
module LogicalLines {
  import opened LineReader
  import opened LiteralLines
  import opened Sequences
  import LineBalance

  // --- Lines by their indicators ---------------------------------------------------------------------

  /** A line with the continuation indicator in column 7. */
  predicate HasHyphen(o: Options, line: string) {
    |line| >= 8 && line[6] == '-' && !(o.mfComment && (line[0] == '*' || line[0] == '/'))
  }

  /** A call that takes every line by its own indicator: what is passed over before the line that is
      handed on has no part in how that one is read. */
  function MeantCall(o: Options, lex: Lex, input: string): Call
    requires Usable(o)
    decreases |input|
  {
    var p := ReadLine(o, input);
    if p.Eof? then Call(Repeat('\n', lex.newlineCount), true, lex.(newlineCount := 0), "", false)
    else
      match LineOutcome(o, lex, false, p.text)
      case Skip(l, _) => MeantCall(o, l, p.rest)
      case Fail(l) => Call("", true, l, p.rest, true)
      case Deliver(piece, c, l) =>
        Call((if c then "" else Repeat('\n', lex.newlineCount)) + piece, c, l, p.rest, false)
  }

  /** The call hands on a line without a hyphen, and has passed over one with a hyphen: there was one, or
      there is one still to come. */
  predicate Misjoined(o: Options, lex: Lex, hyphen: bool, input: string)
    requires Usable(o)
    decreases |input|
  {
    var p := ReadLine(o, input);
    p.Line? &&
    match LineOutcome(o, lex, false, p.text)
    case Skip(l, _) => Misjoined(o, l, hyphen || HasHyphen(o, p.text), p.rest)
    case Fail(_) => false
    case Deliver(_, _, _) => hyphen && !HasHyphen(o, p.text)
  }

  /** How a line is read, without and behind a hyphen. */
  lemma {:induction false} OutcomeByIndicator(o: Options, lex: Lex, line: string)
    requires Usable(o) && IsLine(line)
    ensures HasHyphen(o, line) ==> LineOutcome(o, lex, true, line) == LineOutcome(o, lex, false, line)
    ensures match LineOutcome(o, lex, false, line)
            case Skip(l, c) => c == HasHyphen(o, line) && LineOutcome(o, lex, true, line) == Skip(l, true)
            case Fail(l) => LineOutcome(o, lex, true, line) == Fail(l)
            case Deliver(piece, c, l) =>
              && c == HasHyphen(o, line)
              && (LineOutcome(o, lex, true, line).Deliver? ==> LineOutcome(o, lex, true, line).continuation)
              && !LineOutcome(o, lex, true, line).Skip?
  {
    hide AreaABlank, PieceText, Scan;
  }

  /** A call reads the file as its lines say, exactly when it does not hand on a line without a hyphen
      behind one with a hyphen that it passed over. Such a line is joined to the text before it, or
      refused. */
  lemma {:induction false} MeantIffNotMisjoined(o: Options, lex: Lex, continuation: bool, input: string)
    requires Usable(o)
    ensures NextCall(o, lex, continuation, input) == MeantCall(o, lex, input) <==> !Misjoined(o, lex, continuation, input)
    ensures Misjoined(o, lex, continuation, input) ==>
              var call := NextCall(o, lex, continuation, input);
              (call.failed || call.continued) && !MeantCall(o, lex, input).failed && !MeantCall(o, lex, input).continued
    decreases |input|
  {
    hide LineOutcome, ReadLine, HasHyphen;
    var p := ReadLine(o, input);
    if p.Line? {
      OutcomeByIndicator(o, lex, p.text);
      match LineOutcome(o, lex, false, p.text)
      case Skip(l, c) => MeantIffNotMisjoined(o, l, continuation || c, p.rest);
      case Fail(_) =>
      case Deliver(_, _, _) =>
    }
  }

  // --- Runs of calls ---------------------------------------------------------------------------------

  /** The first n calls, up to one that fails. */
  function Returned(o: Options, lex: Lex, input: string, n: nat): seq<Call>
    requires Usable(o)
    decreases n
  {
    if n == 0 then []
    else
      var call := NextCall(o, lex, false, input);
      [call] + if call.failed then [] else Returned(o, call.lex, call.rest, n - 1)
  }

  /** What the first n calls should be. */
  function Meant(o: Options, lex: Lex, input: string, n: nat): seq<Call>
    requires Usable(o)
    decreases n
  {
    if n == 0 then []
    else
      var call := MeantCall(o, lex, input);
      [call] + if call.failed then [] else Meant(o, call.lex, call.rest, n - 1)
  }

  predicate AnyMisjoined(o: Options, lex: Lex, input: string, n: nat)
    requires Usable(o)
    decreases n
  {
    n > 0 && (
      Misjoined(o, lex, false, input)
      || var call := NextCall(o, lex, false, input); !call.failed && AnyMisjoined(o, call.lex, call.rest, n - 1))
  }

  /** Over any number of calls, a file is read as its lines say exactly when none of them is misjoined. */
  lemma {:induction false} ReadAsMeantIff(o: Options, lex: Lex, input: string, n: nat)
    requires Usable(o)
    ensures Returned(o, lex, input, n) == Meant(o, lex, input, n) <==> !AnyMisjoined(o, lex, input, n)
    decreases n
  {
    hide NextCall, MeantCall, Misjoined;
    if n > 0 {
      MeantIffNotMisjoined(o, lex, false, input);
      var call, meant := NextCall(o, lex, false, input), MeantCall(o, lex, input);
      var r, m := Returned(o, lex, input, n), Meant(o, lex, input, n);
      assert r[0] == call && m[0] == meant;
      if call == meant && !call.failed {
        ReadAsMeantIff(o, call.lex, call.rest, n - 1);
        assert r[1..] == Returned(o, call.lex, call.rest, n - 1) && m[1..] == Meant(o, call.lex, call.rest, n - 1);
      }
    }
  }

  // --- The open literal ------------------------------------------------------------------------------

  /** A character permutes the literals one may be inside, and so does text. */
  lemma {:induction false} OpenInjective(a: char, b: char, text: string)
    requires Open(a, text) == Open(b, text) && (a == NONE || IsMark(a)) && (b == NONE || IsMark(b))
    ensures a == b
    decreases |text|
  {
    if text != "" { OpenInjective(Next(a, text[0]), Next(b, text[0]), text[1..]); }
  }

  /** The logical text after a call, by the indicator of the line: what a line without a hyphen starts. */
  function Logical(o: Options, lex: Lex, logical: string, input: string): string
    requires Usable(o)
  {
    var call := MeantCall(o, lex, input);
    if call.continued then logical + call.text else call.text
  }

  /** The statics are the literal that is open at the end of the text. */
  ghost predicate Agrees(lex: Lex, logical: string) {
    Consistent(lex) && Inside(lex) == Open(NONE, logical)
  }

  /** A line without a hyphen that is read as a continuation: the literal at its end is the right one,
      unless a literal had been closed in the last column. */
  lemma {:induction false} MisreadInside(o: Options, lex: Lex, line: string)
    requires Usable(o) && IsLine(line) && Consistent(lex)
    requires LineOutcome(o, lex, false, line).Deliver? && !HasHyphen(o, line) && LineOutcome(o, lex, true, line).Deliver?
    ensures Inside(LineOutcome(o, lex, true, line).lex) == Inside(LineOutcome(o, lex, false, line).lex)
            <==> !lex.consecutiveQuotation
  {
    hide Piece, AreaABlank, Open, Scan, PieceText;
    var l := lex.(withinComment := false);
    var none := l.(quotationMark := NONE, consecutiveQuotation := false);
    var buff := Truncated(o, line);
    var start := SkipBlanks(buff, 7);
    assert start < |buff| - 1;
    var blanks, area, rest := buff[7..start], buff[start..|buff| - 1], buff[start + 1..|buff| - 1];
    assert buff[7..|buff| - 1] == blanks + area && area == [buff[start]] + rest;
    OpenConcat(NONE, blanks, area);
    OpenOverBlanks(NONE, blanks);
    OpenFirst(NONE, buff[start], rest);
    PieceInside(o, none, false, buff, 7);
    if l.consecutiveQuotation {
      PieceInside(o, none, true, buff, start + 1);
      if Open(NONE, rest) == Open(l.quotationMark, rest) { OpenInjective(NONE, l.quotationMark, rest); }
    } else if l.quotationMark != NONE {
      PieceInside(o, l, true, buff, start + 1);
    } else {
      PieceInside(o, l, true, buff, start);
    }
  }

  lemma {:induction false} OpenFirst(mark: char, c: char, rest: string)
    ensures Open(mark, [c] + rest) == Open(Next(mark, c), rest)
  {
    assert ([c] + rest)[1..] == rest;
  }

  /** Inside what a piece leaves one. */
  lemma {:induction false} PieceInside(o: Options, lex: Lex, continuation: bool, buff: string, start: nat)
    requires IsLine(buff) && |buff| <= o.textColumn + 1 && start < |buff| && !lex.consecutiveQuotation && Consistent(lex)
    ensures var out := Piece(o, lex, continuation, buff, start);
            out.Deliver? && Inside(out.lex) == Open(lex.quotationMark, buff[start..|buff| - 1])
  {
    ScanFollows(o, buff, start, lex.quotationMark);
  }

  /** What a call leaves, as against what it should leave. */
  lemma {:induction false} CallInside(o: Options, lex: Lex, continuation: bool, input: string)
    requires Usable(o) && Consistent(lex) && !NextCall(o, lex, continuation, input).failed
    ensures !MeantCall(o, lex, input).failed
    ensures Inside(NextCall(o, lex, continuation, input).lex) == Inside(MeantCall(o, lex, input).lex) <==>
            !(lex.consecutiveQuotation && Misjoined(o, lex, continuation, input))
    decreases |input|
  {
    hide LineOutcome, ReadLine, HasHyphen;
    var p := ReadLine(o, input);
    if p.Line? {
      OutcomeByIndicator(o, lex, p.text);
      LineFollows(o, lex, false, p.text);
      match LineOutcome(o, lex, false, p.text)
      case Skip(l, c) => CallInside(o, l, continuation || c, p.rest);
      case Fail(_) =>
      case Deliver(_, c, _) => if continuation && !c { MisreadInside(o, lex, p.text); }
    }
  }

  /** One call: the statics are the literal that is open at the end of the logical text, exactly when the
      call does not misjoin a line after a literal that was closed in the last column. */
  lemma {:induction false} CallAgreesIff(o: Options, lex: Lex, logical: string, input: string)
    requires Usable(o) && Agrees(lex, logical) && !NextCall(o, lex, false, input).failed
    ensures Agrees(NextCall(o, lex, false, input).lex, Logical(o, lex, logical, input)) <==>
            !(lex.consecutiveQuotation && Misjoined(o, lex, false, input))
  {
    hide NextCall, MeantCall, Misjoined, Open;
    CallInside(o, lex, false, input);
    CallFollows(o, lex, false, input);
    MeantFollows(o, lex, input);
    OpenConcat(NONE, logical, MeantCall(o, lex, input).text);
  }

  lemma {:induction false} MeantFollows(o: Options, lex: Lex, input: string)
    requires Usable(o) && Consistent(lex)
    ensures var call := MeantCall(o, lex, input);
            !call.failed ==> Inside(call.lex) == Open(if call.continued then Inside(lex) else NONE, call.text)
    decreases |input|
  {
    hide LineOutcome, ReadLine;
    var p := ReadLine(o, input);
    if p.Eof? {
      OpenOverNewlines(lex.newlineCount, Inside(lex));
    } else {
      LineFollows(o, lex, false, p.text);
      match LineOutcome(o, lex, false, p.text)
      case Skip(l, _) => MeantFollows(o, l, p.rest);
      case Fail(_) =>
      case Deliver(piece, c, _) =>
        if c {
          assert "" + piece == piece;
        } else {
          OpenConcat(NONE, Repeat('\n', lex.newlineCount), piece);
          OpenOverNewlines(lex.newlineCount, NONE);
        }
    }
  }

  /** After each of the first n calls, up to one that fails. */
  ghost predicate KeepsAgreeing(o: Options, lex: Lex, logical: string, input: string, n: nat)
    requires Usable(o)
    decreases n
  {
    Agrees(lex, logical) && (n > 0 ==>
      var call := NextCall(o, lex, false, input);
      call.failed || KeepsAgreeing(o, call.lex, Logical(o, lex, logical, input), call.rest, n - 1))
  }

  /** A call misjoins a line after a literal that was closed in the last column. */
  predicate AnyMisread(o: Options, lex: Lex, input: string, n: nat)
    requires Usable(o)
    decreases n
  {
    n > 0 && (
      var call := NextCall(o, lex, false, input);
      !call.failed && (
        (lex.consecutiveQuotation && Misjoined(o, lex, false, input))
        || AnyMisread(o, call.lex, call.rest, n - 1)))
  }

  /** Over any sequence of normal, continuation and other lines, the statics are after every call the
      literal that is open at the end of the logical text, exactly when no call misreads a line. */
  lemma {:induction false} LiteralStateIff(o: Options, lex: Lex, logical: string, input: string, n: nat)
    requires Usable(o) && Agrees(lex, logical)
    ensures KeepsAgreeing(o, lex, logical, input, n) <==> !AnyMisread(o, lex, input, n)
    decreases n
  {
    hide NextCall, MeantCall, Misjoined, Open, Logical, Agrees;
    if n > 0 {
      var call, text := NextCall(o, lex, false, input), Logical(o, lex, logical, input);
      if !call.failed {
        CallAgreesIff(o, lex, logical, input);
        if Agrees(call.lex, text) { LiteralStateIff(o, call.lex, text, call.rest, n - 1); }
      }
    }
  }

  // --- With copy files -----------------------------------------------------------------------------

  /** A state, and the logical text of the current file and of the suspended ones. */
  datatype Tracked = Tracked(st: LineBalance.State, logical: string, left: seq<string>)

  predicate CanStep(o: Options, t: Tracked, e: LineBalance.Event)
    requires Usable(o)
  {
    LineBalance.Enabled(o, t.st, e) && |t.left| == |t.st.suspended|
  }

  /** A copy file goes on from the text before it, and its end goes back to that text. */
  function Track(o: Options, t: Tracked, e: LineBalance.Event): Tracked
    requires Usable(o) && CanStep(o, t, e)
  {
    var next := LineBalance.Step(o, t.st, e);
    match e
    case Read => Tracked(next, Logical(o, t.st.lex, t.logical, t.st.file.input), t.left)
    case Copy(_) => Tracked(next, t.logical, [t.logical] + t.left)
    case EndOfFile => Tracked(next, t.left[0], t.left[1..])
  }

  /** The statics are the literal that is open at the end of the logical text, and so were those of the
      files that were left. */
  ghost predicate InStep(t: Tracked) {
    && Agrees(t.st.lex, t.logical) && |t.left| == |t.st.suspended|
    && forall i :: 0 <= i < |t.left| ==>
         && (t.st.suspended[i].1 == NONE || IsMark(t.st.suspended[i].1))
         && Open(NONE, t.left[i]) in {NONE, t.st.suspended[i].1}
  }

  /** A call does not misread a line. At the end of a copy file the flag is what it was at the COPY, set
      just when a literal had been closed in the last column. */
  predicate Kept(o: Options, t: Tracked, e: LineBalance.Event)
    requires Usable(o) && CanStep(o, t, e)
  {
    match e
    case Read => !(t.st.lex.consecutiveQuotation && Misjoined(o, t.st.lex, false, t.st.file.input))
    case Copy(_) => true
    case EndOfFile => t.st.lex.consecutiveQuotation <==> Open(NONE, t.left[0]) != t.st.suspended[0].1
  }

  /** The end of a copy file restores the mark and not the flag. */
  lemma {:induction false} TrackInStep(o: Options, t: Tracked, e: LineBalance.Event)
    requires Usable(o) && CanStep(o, t, e) && InStep(t) && !Track(o, t, e).st.failed
    ensures InStep(Track(o, t, e)) <==> Kept(o, t, e)
  {
    hide NextCall, Open, Misjoined, Logical;
    if e.Read? { CallAgreesIff(o, t.st.lex, t.logical, t.st.file.input); }
  }

  /** Events that can follow each other, without an error. */
  predicate CanRun(o: Options, t: Tracked, events: seq<LineBalance.Event>)
    requires Usable(o)
    decreases |events|
  {
    events == [] || (
      CanStep(o, t, events[0]) && !Track(o, t, events[0]).st.failed && CanRun(o, Track(o, t, events[0]), events[1..]))
  }

  ghost predicate InStepThroughout(o: Options, t: Tracked, events: seq<LineBalance.Event>)
    requires Usable(o) && CanRun(o, t, events)
    decreases |events|
  {
    InStep(t) && (events != [] ==> InStepThroughout(o, Track(o, t, events[0]), events[1..]))
  }

  predicate KeptThroughout(o: Options, t: Tracked, events: seq<LineBalance.Event>)
    requires Usable(o) && CanRun(o, t, events)
    decreases |events|
  {
    events != [] ==> Kept(o, t, events[0]) && KeptThroughout(o, Track(o, t, events[0]), events[1..])
  }

  /** Over any run of calls, COPY statements and ends of copy files, the statics are always the literal
      that is open at the end of the logical text, exactly when no call misreads a line and no end of a
      copy file loses the flag. */
  lemma {:induction false} LiteralStateOverCopiesIff(o: Options, t: Tracked, events: seq<LineBalance.Event>)
    requires Usable(o) && InStep(t) && CanRun(o, t, events)
    ensures InStepThroughout(o, t, events) <==> KeptThroughout(o, t, events)
    decreases |events|
  {
    hide CanStep, Track, InStep, Kept;
    if events != [] {
      var next := Track(o, t, events[0]);
      TrackInStep(o, t, events[0]);
      if InStep(next) { LiteralStateOverCopiesIff(o, next, events[1..]); }
    }
  }

  // --- Files that are not read as they say -------------------------------------------------------------

  /** A line that is read as it stands. */
  predicate Plain(line: string) {
    |line| <= 256 && line != "" && line[|line| - 1] == '\n'
    && forall k :: 0 <= k < |line| - 1 ==> line[k] !in "\n\r\t"
  }

  lemma {:induction false} ReadPlainFrom(o: Options, line: string, rest: string, k: nat)
    requires Usable(o) && Plain(line) && k <= |line|
    ensures ReadFrom(o, line[k..] + rest, line[..k], false) == Line(line, rest)
    decreases |line| - k
  {
    var input := line[k..] + rest;
    if k == |line| {
      assert line[..k] == line && input == rest;
    } else {
      ReadPlainFrom(o, line, rest, k + 1);
      assert input[0] == line[k] && input[1..] == line[k + 1..] + rest;
      assert line[..k] + [line[k]] == line[..k + 1];
    }
  }

  lemma {:induction false} ReadPlain(o: Options, line: string, rest: string)
    requires Usable(o) && Plain(line)
    ensures IsLine(line) && ReadLine(o, line + rest) == Line(line, rest)
  {
    ReadPlainFrom(o, line, rest, 0);
    assert line[0..] == line && line[..0] == "";
  }

  const HYPHEN := "      -\n"

  /** Nothing but a hyphen, and a line behind it. */
  lemma {:induction false} BehindHyphen(o: Options, lex: Lex, line: string, rest: string)
    requires Usable(o) && Plain(line) && !lex.withinComment
    requires LineOutcome(o, lex.(newlineCount := lex.newlineCount + 1), false, line).Deliver? && !HasHyphen(o, line)
    ensures Misjoined(o, lex, false, HYPHEN + line + rest)
    ensures var l := lex.(newlineCount := lex.newlineCount + 1);
            match LineOutcome(o, l, true, line)
            case Deliver(piece, c, l2) => NextCall(o, lex, false, HYPHEN + line + rest) == Call(piece, true, l2, rest, false)
            case _ => true
  {
    hide LineOutcome, ReadLine, HasHyphen;
    var l := lex.(newlineCount := lex.newlineCount + 1);
    var input := HYPHEN + line + rest;
    assert input == HYPHEN + (line + rest);
    ReadPlain(o, HYPHEN, line + rest);
    ReadPlain(o, line, rest);
    HyphenPassed(o, lex);
    OutcomeByIndicator(o, l, line);
    assert NextCall(o, lex, false, input) == NextCall(o, l, true, line + rest);
    assert Misjoined(o, lex, false, input) == Misjoined(o, l, true, line + rest);
  }

  lemma {:induction false} HyphenPassed(o: Options, lex: Lex)
    requires Usable(o) && !lex.withinComment
    ensures IsLine(HYPHEN) && HasHyphen(o, HYPHEN)
    ensures LineOutcome(o, lex, false, HYPHEN) == Skip(lex.(newlineCount := lex.newlineCount + 1), true)
  {
    assert SkipBlanks(HYPHEN, 7) == 7;
  }

  /** A word on a line of its own is joined to the word before it. */
  lemma {:induction false} WordJoined(o: Options)
    requires Usable(o) && o.textColumn >= 8
    ensures var lex, input := Lex(1, NONE, false, false), HYPHEN + "       B\n" + "";
            && NextCall(o, lex, false, input) == Call("B", true, lex.(newlineCount := 3), "", false)
            && MeantCall(o, lex, input).text == "\n\nB" && !MeantCall(o, lex, input).continued
  {
    hide ReadLine;
    var lex, line := Lex(1, NONE, false, false), "       B\n";
    var l := lex.(newlineCount := 2);
    assert line[6] == ' ' && line[7..8] == "B" && SkipBlanks(line, 7) == 7;
    assert Stripped("B") == "B";
    assert Scan(o, line, 7, NONE, false) == Scan(o, line, 8, NONE, false) == (NONE, false);
    assert Piece(o, l, true, line, 7) == Deliver("B", true, l.(newlineCount := 3));
    assert Piece(o, l, false, line, 7) == Deliver("B", false, l.(newlineCount := 1));
    BehindHyphen(o, lex, line, "");
    MeantBehindHyphen(o, lex, line);
    assert Repeat('\n', 2) + "B" == "\n\nB";
  }

  lemma {:induction false} MeantBehindHyphen(o: Options, lex: Lex, line: string)
    requires Usable(o) && Plain(line) && !lex.withinComment
    ensures var l := lex.(newlineCount := lex.newlineCount + 1);
            match LineOutcome(o, l, false, line)
            case Deliver(piece, c, l2) =>
              MeantCall(o, lex, HYPHEN + line + "") == Call((if c then "" else Repeat('\n', l.newlineCount)) + piece, c, l2, "", false)
            case _ => true
  {
    hide LineOutcome, ReadLine;
    var l := lex.(newlineCount := lex.newlineCount + 1);
    ReadPlain(o, HYPHEN, line + "");
    ReadPlain(o, line, "");
    HyphenPassed(o, lex);
    assert HYPHEN + line + "" == HYPHEN + (line + "");
  }

  /** A line whose last columns are an empty literal. */
  function Closing(o: Options): string
    requires o.textColumn >= 9
  {
    Repeat(' ', o.textColumn - 2) + "''\n"
  }

  /** It leaves the flag set. */
  lemma {:induction false} ClosingRead(o: Options, lex: Lex, rest: string)
    requires Usable(o) && 9 <= o.textColumn < 256 && !lex.withinComment
    ensures Plain(Closing(o)) && !HasHyphen(o, Closing(o))
    ensures var call := NextCall(o, lex, false, Closing(o) + rest);
            call.lex == Lex(1, '\'', true, false) && call.rest == rest && !call.failed
    ensures !Misjoined(o, lex, false, Closing(o) + rest)
    ensures MeantCall(o, lex, Closing(o) + rest) == NextCall(o, lex, false, Closing(o) + rest)
  {
    hide ReadLine, Scan, PieceText;
    var line, n := Closing(o), o.textColumn;
    ReadPlain(o, line, rest);
    assert line[n] == '\n' && line[n - 1] == '\'' && line[n - 2] == '\'' && line[6] == ' ';
    assert SkipBlanks(line, 7) <= n - 2;
    var blanks := Repeat(' ', n - 9);
    assert line[7..n] == blanks + "''";
    OpenConcat(NONE, blanks, "''");
    OpenOverBlanks(NONE, blanks);
    EmptyLiteral();
    ScanFollows(o, line, 7, NONE);
  }

  lemma {:induction false} EmptyLiteral()
    ensures Open(NONE, "''") == NONE
  {
    assert "''"[1..] == "'" && "'"[1..] == "";
  }

  /** A literal on a line of its own, read without its first mark. */
  lemma {:induction false} LiteralMisread(o: Options)
    requires Usable(o) && 10 <= o.textColumn < 256
    ensures !KeepsAgreeing(o, Lex(0, NONE, false, false), "", Closing(o) + (HYPHEN + "       ''\n" + ""), 2)
  {
    hide ReadLine, Misjoined, NextCall, Open, MeantCall;
    var start, lex, line := Lex(0, NONE, false, false), Lex(1, '\'', true, false), "       ''\n";
    var rest := HYPHEN + line + "";
    assert Agrees(start, "") by { OpenNone(); }
    ClosingRead(o, start, rest);
    var l := lex.(newlineCount := 2);
    assert line[6] == ' ' && SkipBlanks(line, 7) == 7 && line[7] == line[8] == '\'';
    BehindHyphen(o, lex, line, "");
    assert AnyMisread(o, lex, rest, 1);
    assert AnyMisread(o, start, Closing(o) + rest, 2);
    LiteralStateIff(o, start, "", Closing(o) + rest, 2);
  }

  lemma {:induction false} OpenNone()
    ensures Open(NONE, "") == NONE
  {
  }

  lemma {:induction false} CopyLineRead(o: Options)
    requires Usable(o) && 14 <= o.textColumn
    ensures var call := NextCall(o, Lex(0, NONE, false, false), false, "       COPY X.\n" + "");
            call.lex == Lex(1, NONE, false, false) && call.rest == "" && !call.failed
  {
    hide ReadLine, PieceText;
    var line := "       COPY X.\n";
    ReadPlain(o, line, "");
    assert line[6] == ' ' && SkipBlanks(line, 7) == 7;
    assert line[7..14] == "COPY X.";
    ScanNoMarks(o, line, 7);
  }

  lemma {:induction false} ScanNoMarks(o: Options, buff: string, i: nat)
    requires i <= |buff| && forall k :: i <= k < |buff| ==> !IsMark(buff[k])
    ensures Scan(o, buff, i, NONE, false) == (NONE, false)
    decreases |buff| - i
  {
    if i < |buff| { ScanNoMarks(o, buff, i + 1); }
  }

  lemma {:induction false} ReadAtEnd(o: Options, lex: Lex)
    requires Usable(o)
    ensures NextCall(o, lex, false, "") == Call(Repeat('\n', lex.newlineCount), true, lex.(newlineCount := 0), "", false)
    ensures LineCount(o, "") == 0
  {
  }

  /** A copy file whose last line closes a literal in the last column: its lines, and its end. */
  lemma {:induction false} CopyFileRead(o: Options, t: Tracked)
    requires Usable(o) && 9 <= o.textColumn < 256 && InStep(t) && !t.st.failed
    requires !t.st.lex.withinComment && t.st.lex.quotationMark == NONE
    ensures var events := [LineBalance.Copy(Closing(o)), LineBalance.Read, LineBalance.Read, LineBalance.EndOfFile];
            CanRun(o, t, events) && !KeptThroughout(o, t, events)
  {
    hide NextCall, MeantCall, Misjoined, Logical, Open, LineCount;
    var t1 := Track(o, t, LineBalance.Copy(Closing(o)));
    assert t1.st.file.input == Closing(o) + "" && t1.left[0] == t.logical;
    ClosingRead(o, t1.st.lex, "");
    var t2 := Track(o, t1, LineBalance.Read);
    assert t2.st.lex == Lex(1, '\'', true, false) && t2.st.file.input == "";
    ReadAtEnd(o, t2.st.lex);
    var t3 := Track(o, t2, LineBalance.Read);
    assert t3.st.lex == Lex(0, '\'', true, false) && t3.st.file.input == "";
    ReadAtEnd(o, t3.st.lex);
    assert Repeat('\n', 0) == "";
    assert CanStep(o, t3, LineBalance.EndOfFile);
    assert t3.left[0] == t.logical && t3.st.suspended[0].1 == NONE;
    assert !Kept(o, t3, LineBalance.EndOfFile);
    OneMore(o, t3, LineBalance.EndOfFile, []);
    assert [LineBalance.EndOfFile] + [] == [LineBalance.EndOfFile];
    OneMore(o, t2, LineBalance.Read, [LineBalance.EndOfFile]);
    OneMore(o, t1, LineBalance.Read, [LineBalance.Read, LineBalance.EndOfFile]);
    OneMore(o, t, LineBalance.Copy(Closing(o)), [LineBalance.Read, LineBalance.Read, LineBalance.EndOfFile]);
  }

  /** From the start of a file: a COPY outside any literal, and the flag stays set behind it. */
  lemma {:induction false} FlagLeftSet(o: Options)
    requires Usable(o) && 14 <= o.textColumn < 256
    ensures var events := [LineBalance.Read, LineBalance.Copy(Closing(o)), LineBalance.Read, LineBalance.Read, LineBalance.EndOfFile];
            var t := Tracked(LineBalance.Start(o, "       COPY X.\n" + ""), "", []);
            InStep(t) && CanRun(o, t, events) && !InStepThroughout(o, t, events)
  {
    hide NextCall, MeantCall, Misjoined, Logical, Open, LineCount, CanRun, InStepThroughout, KeptThroughout;
    var t := Tracked(LineBalance.Start(o, "       COPY X.\n" + ""), "", []);
    assert InStep(t) by { OpenNone(); }
    CopyLineRead(o);
    TrackInStep(o, t, LineBalance.Read);
    var t1 := Track(o, t, LineBalance.Read);
    CopyFileRead(o, t1);
    var rest := [LineBalance.Copy(Closing(o)), LineBalance.Read, LineBalance.Read, LineBalance.EndOfFile];
    var events := [LineBalance.Read] + rest;
    OneMore(o, t, LineBalance.Read, rest);
    LiteralStateOverCopiesIff(o, t, events);
    assert events == [LineBalance.Read, LineBalance.Copy(Closing(o)), LineBalance.Read, LineBalance.Read, LineBalance.EndOfFile];
  }

  lemma {:induction false} OneMore(o: Options, t: Tracked, e: LineBalance.Event, rest: seq<LineBalance.Event>)
    requires Usable(o) && CanStep(o, t, e) && !Track(o, t, e).st.failed && CanRun(o, Track(o, t, e), rest)
    ensures CanRun(o, t, [e] + rest)
    ensures KeptThroughout(o, t, [e] + rest) <==> Kept(o, t, e) && KeptThroughout(o, Track(o, t, e), rest)
  {
    hide CanStep, Track, Kept;
    assert ([e] + rest)[1..] == rest;
  }
}
