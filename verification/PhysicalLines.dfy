/** What a physical line is read as: its tabs as blanks up to the next stop, without the carriage return
    before its newline, and cut off at 256 columns. */
module PhysicalLines {
  import opened LineReader
  import opened Modulus
  import opened Sequences

  /** The columns that characters fill: a tab is one blank at least, up to the first column that is a
      multiple of the width. */
  function Columns(s: string, width: nat): string
    requires width >= 1
    decreases |s|
  {
    if s == "" then ""
    else
      var before := Columns(s[..|s| - 1], width);
      if s[|s| - 1] == '\t' then before + Repeat(' ', width - |before| % width) else before + [s[|s| - 1]]
  }

  /** Without the carriage return before the newline; others are kept. */
  function Cleaned(line: string): string {
    if |line| >= 2 && line[|line| - 2] == '\r' && line[|line| - 1] == '\n' then line[..|line| - 2] + "\n" else line
  }

  lemma {:induction false} ToStopBlanks(s: string, width: nat)
    requires width >= 1
    ensures ToStop(s, width) == s + Repeat(' ', if |s| % width == 0 then 0 else width - |s| % width)
    decreases if |s| % width == 0 then 0 else width - |s| % width
  {
    if |s| % width != 0 {
      ModulusStep(|s|, width);
      ToStopBlanks(s + " ", width);
    }
  }

  lemma {:induction false} TabBlanks(s: string, width: nat)
    requires width >= 1
    ensures Tab(s, width) == s + Repeat(' ', width - |s| % width)
  {
    ModulusStep(|s|, width);
    ToStopBlanks(s + " ", width);
  }

  lemma {:induction false} ColumnsNext(s: string, k: nat, width: nat)
    requires width >= 1 && k < |s|
    ensures Columns(s[..k + 1], width) ==
              if s[k] == '\t' then Tab(Columns(s[..k], width), width) else Columns(s[..k], width) + [s[k]]
  {
    assert s[..k + 1][..k] == s[..k];
    TabBlanks(Columns(s[..k], width), width);
  }

  lemma {:induction false} ColumnsGrow(s: string, k: nat, width: nat)
    requires width >= 1 && k <= |s|
    ensures k < |s| ==> |Columns(s[..k], width)| < |Columns(s, width)|
    ensures (forall i :: 0 <= i < k ==> s[i] != '\n') ==> forall i :: 0 <= i < |Columns(s[..k], width)| ==> Columns(s[..k], width)[i] != '\n'
    decreases |s| + 1 - k, k
  {
    hide Columns;
    if k < |s| {
      ColumnsNext(s, k, width);
      if k + 1 == |s| { assert s[..k + 1] == s; } else { ColumnsGrow(s, k + 1, width); }
    }
    NoNewlineColumns(s[..k], width);
  }

  lemma {:induction false} NoNewlineColumns(s: string, width: nat)
    requires width >= 1
    ensures (forall i :: 0 <= i < |s| ==> s[i] != '\n') ==> forall i :: 0 <= i < |Columns(s, width)| ==> Columns(s, width)[i] != '\n'
    decreases |s|
  {
    if s != "" { NoNewlineColumns(s[..|s| - 1], width); }
  }

  /** A line and its one newline. */
  ghost predicate WholeLine(line: string) {
    line != "" && line[|line| - 1] == '\n' && forall k :: 0 <= k < |line| - 1 ==> line[k] != '\n'
  }

  /** Reading from character k on; a carriage return just before it is still pending. */
  lemma {:induction false} ReadsFrom(o: Options, line: string, rest: string, k: nat, gotcr: bool)
    requires Usable(o) && WholeLine(line) && k < |line| && |Columns(Cleaned(line), o.tabWidth)| <= 256
    requires gotcr <==> k >= 1 && line[k - 1] == '\r'
    ensures ReadFrom(o, line[k..] + rest, Columns(line[..if gotcr then k - 1 else k], o.tabWidth), gotcr)
         == Line(Columns(Cleaned(line), o.tabWidth), rest)
    decreases |line| - k
  {
    hide Columns, Tab;
    var w, from := o.tabWidth, if gotcr then k - 1 else k;
    var input, buff := line[k..] + rest, Columns(line[..from], o.tabWidth);
    assert input[0] == line[k] && input[1..] == line[k + 1..] + rest;
    Below(line, from, k, w);
    if gotcr { ColumnsNext(line, k - 1, w); }
    ColumnsNext(line, k, w);
    if k == |line| - 1 {
      LastColumns(line, w);
      assert input[1..] == rest;
      assert ReadFrom(o, rest, Columns(Cleaned(line), w), false) == Line(Columns(Cleaned(line), w), rest);
    } else {
      ReadsFrom(o, line, rest, k + 1, line[k] == '\r');
    }
  }

  lemma {:induction false} Below(line: string, from: nat, k: nat, width: nat)
    requires width >= 1 && WholeLine(line) && k < |line| && |Columns(Cleaned(line), width)| <= 256
    requires from == if k >= 1 && line[k - 1] == '\r' then k - 1 else k
    ensures |Columns(line[..from], width)| < 256 && !Ended(Columns(line[..from], width))
  {
    hide Columns;
    var c := Cleaned(line);
    assert from < |c| && line[..from] == c[..from];
    ColumnsGrow(c, from, width);
  }

  lemma {:induction false} LastColumns(line: string, width: nat)
    requires width >= 1 && WholeLine(line)
    ensures var n := |line| - 1; var from := if n >= 1 && line[n - 1] == '\r' then n - 1 else n;
            Columns(Cleaned(line), width) == Columns(line[..from], width) + "\n"
  {
    var c := Cleaned(line);
    assert c[..|c| - 1] == line[..|c| - 1];
  }

  /** A line of at most 256 columns, whatever characters it has. */
  lemma {:induction false} ReadAsColumns(o: Options, line: string, rest: string)
    requires Usable(o) && WholeLine(line) && |Columns(Cleaned(line), o.tabWidth)| <= 256
    ensures IsLine(Columns(Cleaned(line), o.tabWidth))
    ensures ReadLine(o, line + rest) == Line(Columns(Cleaned(line), o.tabWidth), rest)
  {
    ReadsFrom(o, line, rest, 0, false);
    assert line[0..] == line && line[..0] == "";
    ReadFromLine(o, line + rest, "", false);
  }

  /** Characters without a newline or a carriage return that do not yet fill the line. */
  lemma {:induction false} ReadsInto(o: Options, s: string, rest: string, k: nat)
    requires Usable(o) && k <= |s| && forall i :: 0 <= i < |s| ==> s[i] !in {'\n', '\r'}
    requires |s| > 0 ==> |Columns(s[..|s| - 1], o.tabWidth)| < 256
    ensures ReadFrom(o, s[k..] + rest, Columns(s[..k], o.tabWidth), false) == ReadFrom(o, rest, Columns(s, o.tabWidth), false)
    decreases |s| - k
  {
    hide Columns, Tab;
    if k == |s| {
      assert s[k..] + rest == rest && s[..k] == s;
    } else {
      var input, init := s[k..] + rest, s[..|s| - 1];
      assert input[0] == s[k] && input[1..] == s[k + 1..] + rest && init[..k] == s[..k];
      ColumnsGrow(init, k, o.tabWidth);
      if k == |init| { assert s[..k] == init; }
      ColumnsNext(s, k, o.tabWidth);
      ReadsInto(o, s, rest, k + 1);
    }
  }

  /** A line that reaches column 256 is cut off there, and what follows is another line; a file that ends
      before that has no more lines. */
  lemma {:induction false} CutOffOrLost(o: Options, s: string, rest: string)
    requires Usable(o) && s != "" && forall i :: 0 <= i < |s| ==> s[i] !in {'\n', '\r'}
    requires |Columns(s[..|s| - 1], o.tabWidth)| < 256
    ensures var columns := Columns(s, o.tabWidth);
            && (|columns| >= 256 ==> ReadLine(o, s + rest) == Line(columns + "\n", rest))
            && (|columns| < 256 && rest == "" ==> ReadLine(o, s + rest) == Eof)
  {
    hide Columns;
    ReadsInto(o, s, rest, 0);
    assert s[0..] == s && s[..0] == "";
    EmptyColumns(o.tabWidth);
    ColumnsGrow(s, |s|, o.tabWidth);
    assert s[..|s|] == s;
  }

  lemma {:induction false} EmptyColumns(width: nat)
    requires width >= 1
    ensures Columns("", width) == ""
  {
  }
}
