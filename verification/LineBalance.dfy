/** Every physical line comes out as one newline: line numbers through comments, blank lines,
    continuations and COPY. */
module LineBalance {
  import opened LineReader
  import opened Sequences

  function Newlines(s: string): nat {
    if s == "" then 0 else (if s[0] == '\n' then 1 else 0) + Newlines(s[1..])
  }

  ghost predicate NoNewline(s: string) { forall k :: 0 <= k < |s| ==> s[k] != '\n' }

  lemma {:induction false} NewlinesConcat(a: string, b: string)
    ensures Newlines(a + b) == Newlines(a) + Newlines(b)
    decreases |a|
  {
    if a == "" {
      assert a + b == b;
    } else {
      NewlinesConcat(a[1..], b);
      assert (a + b)[1..] == a[1..] + b;
    }
  }

  lemma {:induction false} NewlinesRepeat(n: nat)
    ensures Newlines(Repeat('\n', n)) == n
    decreases n
  {
    if n > 0 {
      NewlinesRepeat(n - 1);
      assert Repeat('\n', n)[1..] == Repeat('\n', n - 1);
    }
  }

  lemma {:induction false} NewlinesNone(s: string)
    requires NoNewline(s)
    ensures Newlines(s) == 0
    decreases |s|
  {
    if s != "" { NewlinesNone(s[1..]); }
  }

  // --- Physical lines and newlines -------------------------------------------------------------------

  /** Lines that the reader ended itself, at the 256th character. */
  function Breaks(o: Options, input: string): nat
    requires Usable(o)
    decreases |input|
  {
    var p := ReadLine(o, input);
    if p.Eof? then 0
    else (if input[|input| - |p.rest| - 1] == '\n' then 0 else 1) + Breaks(o, p.rest)
  }

  /** A read takes a beginning of the file with no newline but at its end, or finds none before the end
      of the file. */
  ghost predicate Takes(input: string, p: Physical) {
    match p
    case Eof => NoNewline(input)
    case Line(_, rest) =>
      && |rest| <= |input| && input == input[..|input| - |rest|] + rest
      && forall k :: 0 <= k < |input| - |rest| - 1 ==> input[k] != '\n'
  }

  lemma {:induction false} ReadFromTakes(o: Options, input: string, buff: string, gotcr: bool)
    requires Usable(o) && NoNewline(buff)
    ensures Takes(input, ReadFrom(o, input, buff, gotcr))
    decreases |input|
  {
    if !Ended(buff) && |buff| < 256 && input != "" {
      var b := if gotcr && input[0] != '\n' then buff + "\r" else buff;
      if input[0] == '\n' {
        assert input[1..] == input[|input| - |input[1..]|..];
      } else {
        var next := if input[0] == '\r' then b else if input[0] == '\t' then Tab(b, o.tabWidth) else b + [input[0]];
        ReadFromTakes(o, input[1..], next, input[0] == '\r');
        hide ReadFrom, Tab;
        TakesFirst(input, ReadFrom(o, input[1..], next, input[0] == '\r'));
      }
    }
  }

  lemma {:induction false} TakesFirst(input: string, p: Physical)
    requires input != "" && input[0] != '\n' && Takes(input[1..], p)
    ensures Takes(input, p)
  {
    if p.Line? {
      var n := |input| - |p.rest|;
      assert input == input[..n] + p.rest by { assert input[1..] == input[1..][..n - 1] + p.rest; }
      forall k | 0 <= k < n - 1 ensures input[k] != '\n' {
        if k > 0 { assert input[k] == input[1..][k - 1]; }
      }
    }
  }

  /** The physical lines are the newlines of the file and the breaks in lines that are too long. */
  lemma {:induction false} LinesAreNewlines(o: Options, input: string)
    requires Usable(o)
    ensures LineCount(o, input) == Newlines(input) + Breaks(o, input)
    decreases |input|
  {
    ReadFromTakes(o, input, "", false);
    var p := ReadLine(o, input);
    if p.Eof? {
      NewlinesNone(input);
    } else {
      LinesAreNewlines(o, p.rest);
      var n := |input| - |p.rest| - 1;
      NewlinesConcat(input[..n + 1], p.rest);
      NewlinesConcat(input[..n], [input[n]]);
      NewlinesNone(input[..n]);
      assert input[..n + 1] == input[..n] + [input[n]];
    }
  }

  // --- One call --------------------------------------------------------------------------------------

  lemma {:induction false} PieceTextPlain(mark: char, buff: string, start: nat)
    requires IsLine(buff) && start < |buff|
    ensures NoNewline(PieceText(mark, buff, start))
  {
  }

  /** A line adds one to what is pending, either passed over or joined on; or else it starts the count
      again, behind the newlines that go before it. */
  lemma {:induction false} OutcomeCounts(o: Options, lex: Lex, continuation: bool, line: string)
    requires Usable(o) && IsLine(line)
    ensures match LineOutcome(o, lex, continuation, line)
            case Skip(l, _) => l.newlineCount == lex.newlineCount + 1
            case Fail(l) => l.newlineCount == lex.newlineCount
            case Deliver(piece, c, l) => NoNewline(piece) && l.newlineCount == if c then lex.newlineCount + 1 else 1
  {
    hide NoNewline, PieceText, Scan, AreaABlank;
    forall mark, buff, start: nat | IsLine(buff) && start < |buff| ensures NoNewline(PieceText(mark, buff, start)) {
      PieceTextPlain(mark, buff, start);
    }
  }

  /** Newlines returned, pending and still to be read: a call only moves lines from one to the other.
      The line of an error is lost. */
  lemma {:induction false} CallBalances(o: Options, lex: Lex, continuation: bool, input: string)
    requires Usable(o)
    ensures var call := NextCall(o, lex, continuation, input);
            var after := Newlines(call.text) + call.lex.newlineCount + LineCount(o, call.rest);
            (if call.failed then after + 1 else after) == lex.newlineCount + LineCount(o, input)
    decreases |input|
  {
    hide ReadLine, LineOutcome, NoNewline;
    var p := ReadLine(o, input);
    if p.Eof? {
      NewlinesRepeat(lex.newlineCount);
      assert LineCount(o, "") == 0 by { NothingLeft(o); }
    } else {
      OutcomeCounts(o, lex, continuation, p.text);
      match LineOutcome(o, lex, continuation, p.text)
      case Skip(l, c) => CallBalances(o, l, c, p.rest);
      case Fail(l) =>
      case Deliver(piece, c, l) =>
        var before := if c then "" else Repeat('\n', lex.newlineCount);
        NewlinesConcat(before, piece);
        NewlinesRepeat(lex.newlineCount);
        NewlinesNone(piece);
    }
  }

  lemma {:induction false} NothingLeft(o: Options)
    requires Usable(o)
    ensures LineCount(o, "") == 0
  {
  }

  /** The newlines pushed back for a COPY are lines again. */
  lemma {:induction false} PushBackBalances(o: Options, n: nat, input: string)
    requires Usable(o)
    ensures LineCount(o, Repeat('\n', n) + input) == n + LineCount(o, input)
    decreases n
  {
    var s := Repeat('\n', n) + input;
    if n == 0 {
      assert s == input;
    } else {
      PushBackBalances(o, n - 1, input);
      assert s[1..] == Repeat('\n', n - 1) + input;
      assert ReadFrom(o, s, "", false) == ReadFrom(o, s[1..], "\n", false);
      assert ReadLine(o, s) == Line("\n", s[1..]);
    }
  }

  // --- Whole runs ------------------------------------------------------------------------------------

  /** A file being read, what has been returned from it, and how many lines it had. */
  datatype File = File(input: string, returned: string, lines: nat)

  datatype State = State(lex: Lex, file: File, suspended: seq<(File, char)>, failed: bool)

  datatype Event = Read | Copy(content: string) | EndOfFile

  function Opened(o: Options, content: string): File
    requires Usable(o)
  {
    File(content, "", LineCount(o, content))
  }

  /** The next event can be the end of a copy file only when a call has found nothing more in it. */
  predicate Enabled(o: Options, st: State, e: Event)
    requires Usable(o)
  {
    e.EndOfFile? ==> st.suspended != [] && NextCall(o, st.lex, false, st.file.input).text == ""
                     && LineCount(o, st.file.input) == 0
  }

  function Step(o: Options, st: State, e: Event): State
    requires Usable(o) && Enabled(o, st, e)
  {
    match e
    case Read =>
      var call := NextCall(o, st.lex, false, st.file.input);
      State(call.lex, st.file.(input := call.rest, returned := st.file.returned + call.text), st.suspended,
            st.failed || call.failed)
    case Copy(content) =>
      var left := st.file.(input := Repeat('\n', st.lex.newlineCount) + st.file.input);
      State(st.lex.(newlineCount := 0), Opened(o, content), [(left, st.lex.quotationMark)] + st.suspended, st.failed)
    case EndOfFile =>
      State(st.lex.(quotationMark := st.suspended[0].1), st.suspended[0].0, st.suspended[1..], st.failed)
  }

  ghost predicate Reaches(o: Options, st: State, events: seq<Event>, last: State)
    requires Usable(o)
    decreases |events|
  {
    if events == [] then st == last
    else Enabled(o, st, events[0]) && Reaches(o, Step(o, st, events[0]), events[1..], last)
  }

  /** Of every open file, the lines read are the newlines returned, but for those pending in the
      current one. */
  predicate Balanced(o: Options, st: State)
    requires Usable(o)
  {
    && Newlines(st.file.returned) + st.lex.newlineCount + LineCount(o, st.file.input) == st.file.lines
    && forall i :: 0 <= i < |st.suspended| ==>
         var f := st.suspended[i].0; Newlines(f.returned) + LineCount(o, f.input) == f.lines
  }

  lemma {:induction false} StepBalances(o: Options, st: State, e: Event)
    requires Usable(o) && Enabled(o, st, e) && Balanced(o, st) && !Step(o, st, e).failed
    ensures Balanced(o, Step(o, st, e))
    ensures e.EndOfFile? ==> Newlines(st.file.returned) == st.file.lines
  {
    hide LineCount, Newlines, NextCall;
    CallBalances(o, st.lex, false, st.file.input);
    match e
    case Read =>
      NewlinesConcat(st.file.returned, NextCall(o, st.lex, false, st.file.input).text);
    case Copy(content) =>
      PushBackBalances(o, st.lex.newlineCount, st.file.input);
      NewlinesNone("");
    case EndOfFile =>
      NothingAtEnd(o, st.lex, st.file.input);
  }

  lemma {:induction false} NothingAtEnd(o: Options, lex: Lex, input: string)
    requires Usable(o) && LineCount(o, input) == 0 && NextCall(o, lex, false, input).text == ""
    ensures lex.newlineCount == 0
  {
    assert Repeat('\n', lex.newlineCount) == "";
  }

  /** Over any run of calls, COPY statements and ends of copy files without an error: the newlines
      returned from each open file, those pending and the lines still in it are the lines it had. */
  lemma {:induction false} RunBalances(o: Options, st: State, events: seq<Event>, last: State)
    requires Usable(o) && Balanced(o, st) && Reaches(o, st, events, last) && !last.failed
    ensures Balanced(o, last) && !st.failed
    decreases |events|
  {
    hide Balanced, Step, Enabled;
    if events != [] {
      var next := Step(o, st, events[0]);
      StaysFailed(o, next, events[1..], last);
      StepKeepsFailure(o, st, events[0]);
      StepBalances(o, st, events[0]);
      RunBalances(o, next, events[1..], last);
    }
  }

  lemma {:induction false} StepKeepsFailure(o: Options, st: State, e: Event)
    requires Usable(o) && Enabled(o, st, e)
    ensures st.failed ==> Step(o, st, e).failed
  {
  }

  lemma {:induction false} StaysFailed(o: Options, st: State, events: seq<Event>, last: State)
    requires Usable(o) && Reaches(o, st, events, last)
    ensures st.failed ==> last.failed
    decreases |events|
  {
    hide Step, Enabled;
    if events != [] {
      StepKeepsFailure(o, st, events[0]);
      StaysFailed(o, Step(o, st, events[0]), events[1..], last);
    }
  }

  function Start(o: Options, content: string): State
    requires Usable(o)
  {
    State(Lex(0, NONE, false, false), Opened(o, content), [], false)
  }

  /** From the start of a main file: at the end of any file, with nothing pending, as many newlines have
      been returned from it as it has lines; for the main file these are its own newlines, and one for
      each break in a line that is too long. */
  lemma {:induction false} EndOfFileBalances(o: Options, content: string, events: seq<Event>, last: State)
    requires Usable(o) && Reaches(o, Start(o, content), events, last) && !last.failed
    requires last.file.input == "" && last.lex.newlineCount == 0
    ensures Newlines(last.file.returned) == last.file.lines
    ensures last.suspended == [] ==> last.file.lines == Newlines(content) + Breaks(o, content)
  {
    hide Step, Enabled, NextCall, Breaks;
    NewlinesNone("");
    NothingLeft(o);
    RunBalances(o, Start(o, content), events, last);
    LinesAreNewlines(o, content);
    OutermostKept(o, Start(o, content), events, last);
  }

  /** The file at the bottom, current or suspended. */
  function Outermost(st: State): File {
    if st.suspended == [] then st.file else st.suspended[|st.suspended| - 1].0
  }

  lemma {:induction false} OutermostKept(o: Options, st: State, events: seq<Event>, last: State)
    requires Usable(o) && Reaches(o, st, events, last)
    ensures Outermost(last).lines == Outermost(st).lines
    decreases |events|
  {
    hide NextCall;
    if events != [] { OutermostKept(o, Step(o, st, events[0]), events[1..], last); }
  }
}
