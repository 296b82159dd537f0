/** ppecho against the replacement the standard describes: for which old texts the two agree. */
module ReplaceStandard {
  import opened StrCase
  import opened ReplaceText

  /** The text begins with the words of oldText, on its first n tokens. */
  predicate Occurs(oldText: seq<Token>, ts: seq<Token>, n: nat) {
    0 < n <= |ts| && !Blank(ts[0]) && !Blank(ts[n - 1]) && Words(ts[..n]) == Words(oldText)
  }

  /** Rule r is the first one to occur here. */
  ghost predicate FirstAt(rules: seq<Rule>, ts: seq<Token>, r: nat, n: nat) {
    r < |rules| && Occurs(rules[r].oldText, ts, n) && forall q, m :: 0 <= q < r ==> !Occurs(rules[q].oldText, ts, m)
  }

  /** From left to right: where a rule occurs it replaces, and the text goes on behind it; where none
      does, one token is copied. */
  ghost function Leftmost(rules: seq<Rule>, ts: seq<Token>): seq<Token>
    decreases |ts|
  {
    if ts == [] then []
    else if exists r: nat, n: nat :: FirstAt(rules, ts, r, n) then
      var r: nat, n: nat :| FirstAt(rules, ts, r, n);
      rules[r].newText + Leftmost(rules, ts[n..])
    else [ts[0]] + Leftmost(rules, ts[1..])
  }

  /** What has gone out after these calls, and what would go out unchanged if no more came. */
  function Final(rules: seq<Rule>, queue: seq<Token>, ts: seq<Token>): seq<Token> {
    Output(Feed(rules, queue, ts).log) + Feed(rules, queue, ts).queue
  }

  lemma {:induction false} FinalStep(rules: seq<Rule>, queue: seq<Token>, ts: seq<Token>)
    requires ts != []
    ensures var s := Step(rules, queue, ts[0]);
            Final(rules, queue, ts) == Output(s.log) + Final(rules, s.queue, ts[1..])
  {
    hide Step;
    var s := Step(rules, queue, ts[0]);
    OutputConcat(s.log, Feed(rules, s.queue, ts[1..]).log);
  }

  lemma {:induction false} WordsConcat(a: seq<Token>, b: seq<Token>)
    ensures Words(a + b) == Words(a) + Words(b)
    decreases |a|
  {
    hide Words;
    WordsHead(a);
    if a == [] {
      assert a + b == b;
    } else {
      WordsConcat(a[1..], b);
      WordsHead(a + b);
      assert (a + b)[1..] == a[1..] + b;
    }
  }

  lemma {:induction false} WordsSplit(ts: seq<Token>, n: nat)
    requires n <= |ts|
    ensures Words(ts) == Words(ts[..n]) + Words(ts[n..])
  {
    WordsConcat(ts[..n], ts[n..]);
    assert ts == ts[..n] + ts[n..];
  }

  lemma {:induction false} MoreWords(ts: seq<Token>, m: nat, n: nat)
    requires m < n <= |ts| && !Blank(ts[n - 1])
    ensures |Words(ts[..m])| < |Words(ts[..n])|
  {
    WordsSplit(ts[..n], m);
    WordsSplit(ts[m..n], n - 1 - m);
    WordsHead(ts[n - 1..n]);
    assert ts[..n][..m] == ts[..m] && ts[..n][m..] == ts[m..n] && ts[m..n][n - 1 - m..] == ts[n - 1..n];
  }

  /** An occurrence ends on its last word, so there is only one here. */
  lemma {:induction false} OccursOnce(oldText: seq<Token>, ts: seq<Token>, m: nat, n: nat)
    requires Occurs(oldText, ts, m) && Occurs(oldText, ts, n) && m <= n
    ensures m == n
  {
    if m < n { MoreWords(ts, m, n); }
  }

  lemma {:induction false} LeftmostReplaces(rule: Rule, ts: seq<Token>, n: nat)
    requires Occurs(rule.oldText, ts, n)
    ensures Leftmost([rule], ts) == rule.newText + Leftmost([rule], ts[n..])
  {
    assert FirstAt([rule], ts, 0, n);
    forall r: nat, m: nat | FirstAt([rule], ts, r, m) ensures r == 0 && m == n {
      if m <= n { OccursOnce(rule.oldText, ts, m, n); } else { OccursOnce(rule.oldText, ts, n, m); }
    }
  }

  lemma {:induction false} LeftmostCopies(rule: Rule, ts: seq<Token>)
    requires ts != [] && forall n :: !Occurs(rule.oldText, ts, n)
    ensures Leftmost([rule], ts) == [ts[0]] + Leftmost([rule], ts[1..])
  {
    forall r: nat, n: nat ensures !FirstAt([rule], ts, r, n) {
    }
  }

  // --- Old texts of one word repeated --------------------------------------------------------------

  /** All words of the text are the same. */
  predicate OneWord(oldText: seq<Token>) {
    forall k :: 0 <= k < |Words(oldText)| ==> Words(oldText)[k] == Words(oldText)[0]
  }

  lemma {:induction false} TooFew(rule: Rule, ts: seq<Token>)
    requires |Words(ts)| < |Words(rule.oldText)|
    ensures Leftmost([rule], ts) == ts
    decreases |ts|
  {
    if ts != [] {
      forall n: nat ensures !Occurs(rule.oldText, ts, n) {
        if n <= |ts| { WordsSplit(ts, n); }
      }
      LeftmostCopies(rule, ts);
      WordsHead(ts);
      TooFew(rule, ts[1..]);
    }
  }

  /** Fewer than enough of the word, and then another word: nothing of it can be replaced. */
  lemma {:induction false} Broken(rule: Rule, queue: seq<Token>, t: Token, ts: seq<Token>)
    requires OneWord(rule.oldText) && Words(queue) < Words(rule.oldText)
    requires !Blank(t) && Fold(t) != Words(rule.oldText)[0]
    ensures Leftmost([rule], queue + [t] + ts) == queue + [t] + Leftmost([rule], ts)
    decreases |queue|
  {
    var all := queue + [t] + ts;
    forall n: nat ensures !Occurs(rule.oldText, all, n) { BrokenNot(rule.oldText, queue, t, ts, n); }
    LeftmostCopies(rule, all);
    if queue == [] {
      assert all[1..] == ts;
    } else {
      assert all[1..] == queue[1..] + [t] + ts;
      WordsTail(rule.oldText, queue);
      Broken(rule, queue[1..], t, ts);
    }
  }

  lemma {:induction false} WordsTail(oldText: seq<Token>, queue: seq<Token>)
    requires queue != [] && OneWord(oldText) && Words(queue) < Words(oldText)
    ensures Words(queue[1..]) < Words(oldText)
  {
    WordsHead(queue);
    var w := Words(queue[1..]);
    forall k | 0 <= k < |w| ensures w[k] == Words(oldText)[k] {
      assert Words(queue)[k] == Words(oldText)[k];
      assert Words(queue)[|Words(queue)| - |w| + k] == w[k];
    }
  }

  lemma {:induction false} BrokenNot(oldText: seq<Token>, queue: seq<Token>, t: Token, ts: seq<Token>, n: nat)
    requires OneWord(oldText) && Words(queue) < Words(oldText) && !Blank(t) && Fold(t) != Words(oldText)[0]
    ensures !Occurs(oldText, queue + [t] + ts, n)
  {
    var all := queue + [t] + ts;
    if n <= |queue| {
      WordsSplit(queue, n);
      assert all[..n] == queue[..n];
    } else if n <= |all| {
      WordsSplit(all[..n], |queue|);
      assert all[..n][..|queue|] == queue;
      WordsHead(all[..n][|queue|..]);
      assert Words(all[..n])[|Words(queue)|] == Fold(t);
    }
  }

  /** With one rule whose old text is one word, once or repeated, what ppecho makes of any text is the
      replacement from left to right. */
  lemma {:induction false} OneWordLeftmost(rule: Rule, queue: seq<Token>, ts: seq<Token>)
    requires OneWord(rule.oldText) && Words(queue) < Words(rule.oldText) && (queue != [] ==> !Blank(queue[0]))
    ensures Final([rule], queue, ts) == Leftmost([rule], queue + ts)
    decreases |ts|
  {
    hide Step, OneWord, Words, Blank, Leftmost, Final;
    if ts == [] {
      FinalNothing([rule], queue);
      assert queue + ts == queue;
      TooFew(rule, queue);
    } else {
      StepLeftmost(rule, queue, ts[0], ts[1..]);
      var first := Step([rule], queue, ts[0]);
      OneWordLeftmost(rule, first.queue, ts[1..]);
      FinalStep([rule], queue, ts);
      assert queue + ts == queue + [ts[0]] + ts[1..];
    }
  }

  lemma {:induction false} SingleSweep(rule: Rule, queue: seq<Token>)
    ensures var s := SweepRules([rule], queue);
            match Try(rule.oldText, queue)
            case Partial => s == Sweep([], queue)
            case Mismatch => s == Sweep([Echoed(queue)], []) && Output(s.log) == queue
            case Match(rest) =>
              && |rest| <= |queue| && s.queue == [] && Output(s.log) == rule.newText + rest
              && s.log == [Replaced(queue[..|queue| - |rest|], rule), Echoed(rest)]
  {
    assert [rule][1..] == [];
    TryOutcome(rule.oldText, queue);
    if Try(rule.oldText, queue).Match? {
      var rest := Try(rule.oldText, queue).rest;
      OutputConcat([Replaced(queue[..|queue| - |rest|], rule)], [Echoed(rest)]);
    }
  }

  lemma {:induction false} StepLeftmost(rule: Rule, queue: seq<Token>, t: Token, ts: seq<Token>)
    requires OneWord(rule.oldText) && Words(queue) < Words(rule.oldText) && (queue != [] ==> !Blank(queue[0]))
    ensures var s := Step([rule], queue, t);
            && Words(s.queue) < Words(rule.oldText) && (s.queue != [] ==> !Blank(s.queue[0]))
            && Leftmost([rule], queue + [t] + ts) == Output(s.log) + Leftmost([rule], s.queue + ts)
  {
    hide Try, SweepRules, Leftmost, OneWord, Words;
    var s := Step([rule], queue, t);
    var all := queue + [t] + ts;
    if queue == [] && Blank(t) {
      assert all == [t] + ts;
      LeftmostCopies(rule, [t] + ts);
      assert ([t] + ts)[1..] == ts && [] + ts == ts;
    } else {
      SingleSweep(rule, queue + [t]);
      TryOutcome(rule.oldText, queue + [t]);
      match Try(rule.oldText, queue + [t])
      case Partial =>
      case Mismatch =>
        NextWordDiffers(rule.oldText, queue, t);
        Broken(rule, queue, t, ts);
        assert [] + ts == ts;
      case Match(rest) =>
        MatchUsesAll(rule, queue, t, rest);
        LeftmostReplaces(rule, all, |queue| + 1);
        assert all[|queue| + 1..] == ts && [] + ts == ts;
    }
  }

  lemma {:induction false} NextWordDiffers(oldText: seq<Token>, queue: seq<Token>, t: Token)
    requires OneWord(oldText) && Words(queue) < Words(oldText)
    requires !(Words(oldText) <= Words(queue + [t])) && !(Words(queue + [t]) < Words(oldText))
    ensures !Blank(t) && Fold(t) != Words(oldText)[0]
  {
    WordsConcat(queue, [t]);
    WordsHead([t]);
    var n := |Words(queue)|;
    assert Words(queue) + [Words(oldText)[n]] == Words(oldText)[..n + 1];
  }

  lemma {:induction false} MatchUsesAll(rule: Rule, queue: seq<Token>, t: Token, rest: seq<Token>)
    requires Words(queue) < Words(rule.oldText) && (queue != [] ==> !Blank(queue[0])) && (queue == [] ==> !Blank(t))
    requires Takes(rule.oldText, queue + [t], rest)
    ensures rest == [] && forall ts :: Occurs(rule.oldText, queue + [t] + ts, |queue| + 1)
  {
    var all := queue + [t];
    var n := |all| - |rest|;
    forall m: nat | m <= |queue| ensures |Words(all[..m])| <= |Words(queue)| {
      assert all[..m] == queue[..m];
      WordsSplit(queue, m);
    }
    assert all[..|all|] == all;
    forall ts ensures Occurs(rule.oldText, all + ts, |queue| + 1) {
      assert (all + ts)[..|queue| + 1] == all;
    }
  }

  // --- Other old texts -----------------------------------------------------------------------------

  /** Words as they are compared: not blank, and folded already. */
  predicate Plain(ts: seq<Token>) {
    forall k :: 0 <= k < |ts| ==> !Blank(ts[k]) && Fold(ts[k]) == ts[k]
  }

  lemma {:induction false} WordsPlain(ts: seq<Token>)
    ensures Plain(Words(ts))
    decreases |ts|
  {
    if ts != [] {
      WordsPlain(ts[1..]);
      assert Fold(Fold(ts[0])) == Fold(ts[0]);
    }
  }

  lemma {:induction false} PlainWords(ts: seq<Token>)
    requires Plain(ts)
    ensures Words(ts) == ts
    decreases |ts|
  {
    if ts != [] { PlainWords(ts[1..]); }
  }

  /** Too few words to match: everything goes through unchanged. */
  lemma {:induction false} TooFewPass(rule: Rule, queue: seq<Token>, ts: seq<Token>)
    requires |Words(queue)| + |Words(ts)| < |Words(rule.oldText)|
    ensures Final([rule], queue, ts) == queue + ts
    decreases |ts|
  {
    hide Step, Words, Final;
    if ts == [] {
      FinalNothing([rule], queue);
    } else {
      var s := Step([rule], queue, ts[0]);
      assert ts == [ts[0]] + ts[1..];
      TooFewStep(rule, queue, ts[0], ts[1..]);
      FinalStep([rule], queue, ts);
      TooFewPass(rule, s.queue, ts[1..]);
      assert queue + ts == queue + [ts[0]] + ts[1..];
    }
  }

  lemma {:induction false} FinalNothing(rules: seq<Rule>, queue: seq<Token>)
    ensures Final(rules, queue, []) == queue
  {
  }

  lemma {:induction false} TooFewStep(rule: Rule, queue: seq<Token>, t: Token, ts: seq<Token>)
    requires |Words(queue)| + |Words([t] + ts)| < |Words(rule.oldText)|
    ensures var s := Step([rule], queue, t);
            Output(s.log) + s.queue == queue + [t] && |Words(s.queue)| + |Words(ts)| < |Words(rule.oldText)|
  {
    hide Try, SweepRules;
    SingleSweep(rule, queue + [t]);
    TryOutcome(rule.oldText, queue + [t]);
    WordsConcat(queue, [t]);
    WordsConcat([t], ts);
  }

  /** The first word twice, then the rest of the old text: an occurrence from the second token on. */
  function Stutter(oldText: seq<Token>): (ts: seq<Token>)
    requires Words(oldText) != []
  {
    [Words(oldText)[0]] + Words(oldText)
  }

  lemma {:induction false} StutterLeftmost(rule: Rule)
    requires !OneWord(rule.oldText)
    ensures Leftmost([rule], Stutter(rule.oldText)) == [Words(rule.oldText)[0]] + rule.newText
  {
    var w := Words(rule.oldText);
    var ts := Stutter(rule.oldText);
    StutterHead(rule.oldText);
    LeftmostCopies(rule, ts);
    assert ts[1..] == w;
    StutterTail(rule.oldText);
    LeftmostReplaces(rule, w, |w|);
    assert w[|w|..] == [];
  }

  lemma {:induction false} StutterTail(oldText: seq<Token>)
    requires Words(oldText) != []
    ensures Occurs(oldText, Words(oldText), |Words(oldText)|)
  {
    var w := Words(oldText);
    WordsPlain(oldText);
    PlainWords(w);
    assert w[..|w|] == w;
  }

  lemma {:induction false} StutterHead(oldText: seq<Token>)
    requires !OneWord(oldText)
    ensures forall n: nat :: !Occurs(oldText, Stutter(oldText), n)
  {
    var w := Words(oldText);
    var ts := Stutter(oldText);
    WordsPlain(oldText);
    var k :| 0 <= k < |w| && w[k] != w[0];
    forall n: nat ensures !Occurs(oldText, ts, n) {
      if n <= |ts| {
        PlainWords(ts[..n]);
        if ts[..n] == w { AllAsFirst(w, k); }
      }
    }
  }

  lemma {:induction false} AllAsFirst(w: seq<Token>, k: nat)
    requires k < |w| && ([w[0]] + w)[..|w|] == w
    ensures w[k] == w[0]
    decreases k
  {
    if k > 0 {
      AllAsFirst(w, k - 1);
      assert w[k] == ([w[0]] + w)[k];
    }
  }

  lemma {:induction false} FirstOther(w: seq<Token>, k: nat) returns (j: nat)
    requires k < |w| && w[k] != w[0]
    ensures 0 < j < |w| && w[j] != w[0] && forall i :: 0 <= i < j ==> w[i] == w[0]
  {
    j := 0;
    while w[j] == w[0]
      invariant j <= k && forall i :: 0 <= i < j ==> w[i] == w[0]
      decreases k - j
    {
      j := j + 1;
    }
  }

  /** While the words so far begin the old text, everything waits. */
  lemma {:induction false} Waits(rule: Rule, queue: seq<Token>, a: seq<Token>, b: seq<Token>)
    requires Plain(queue + a) && queue + a < Words(rule.oldText)
    ensures Final([rule], queue, a + b) == Final([rule], queue + a, b)
    decreases |a|
  {
    hide Feed, Output;
    if a == [] {
      assert a + b == b && queue + a == queue;
    } else {
      var q := queue + [a[0]];
      assert queue + a == q + a[1..] && (a + b)[0] == a[0] && (a + b)[1..] == a[1..] + b;
      assert q == (queue + a)[..|q|];
      WaitsStep(rule, queue, a[0]);
      FinalStep([rule], queue, a + b);
      Waits(rule, q, a[1..], b);
    }
  }

  lemma {:induction false} WaitsStep(rule: Rule, queue: seq<Token>, t: Token)
    requires Plain(queue + [t]) && queue + [t] < Words(rule.oldText)
    ensures Step([rule], queue, t).queue == queue + [t] && Output(Step([rule], queue, t).log) == []
  {
    assert (queue + [t])[|queue|] == t;
    PlainWords(queue + [t]);
    SingleSweep(rule, queue + [t]);
    TryOutcome(rule.oldText, queue + [t]);
  }

  lemma {:induction false} FlushStep(rule: Rule, queue: seq<Token>, t: Token)
    requires Plain(queue + [t])
    requires !(queue + [t] <= Words(rule.oldText)) && !(Words(rule.oldText) <= queue + [t])
    ensures Step([rule], queue, t).queue == [] && Output(Step([rule], queue, t).log) == queue + [t]
  {
    assert (queue + [t])[|queue|] == t;
    PlainWords(queue + [t]);
    SingleSweep(rule, queue + [t]);
    TryOutcome(rule.oldText, queue + [t]);
  }

  /** The occurrence is missed: the second first-word does not go on with what waits, and everything
      is let go, the start of the occurrence included. */
  lemma {:induction false} StutterMissed(rule: Rule)
    requires !OneWord(rule.oldText)
    ensures Final([rule], [], Stutter(rule.oldText)) == Stutter(rule.oldText)
  {
    hide Words, Final, Step, Blank, Fold;
    var j := NotOneWord(rule.oldText);
    hide OneWord;
    var w := Words(rule.oldText);
    WordsPlain(rule.oldText);
    StutterParts(w, j);
    assert [] + w[..j] == w[..j];
    Waits(rule, [], w[..j], [w[0]] + w[j..]);
    LetGo(rule, j, w);
  }

  lemma {:induction false} NotOneWord(oldText: seq<Token>) returns (j: nat)
    requires !OneWord(oldText)
    ensures 0 < j < |Words(oldText)| && Words(oldText)[j] != Words(oldText)[0]
    ensures forall i :: 0 <= i < j ==> Words(oldText)[i] == Words(oldText)[0]
  {
    var w := Words(oldText);
    var k :| 0 <= k < |w| && w[k] != w[0];
    j := FirstOther(w, k);
  }

  lemma {:induction false} StutterParts(w: seq<Token>, j: nat)
    requires j < |w| && forall i :: 0 <= i < j ==> w[i] == w[0]
    ensures [w[0]] + w == w[..j] + ([w[0]] + w[j..]) == w[..j] + [w[0]] + w[j..]
  {
  }

  lemma {:induction false} LetGo(rule: Rule, j: nat, w: seq<Token>)
    requires w == Words(rule.oldText) && Plain(w) && 0 < j < |w| && w[j] != w[0]
    ensures Final([rule], w[..j], [w[0]] + w[j..]) == w[..j] + [w[0]] + w[j..]
  {
    hide Words, Final, Step;
    var a, t, b := w[..j], w[0], w[j..];
    assert (a + [t])[j] != w[j];
    FlushStep(rule, a, t);
    FinalStep([rule], a, [t] + b);
    assert ([t] + b)[1..] == b;
    PlainWords(b);
    PlainWords([]);
    TooFewPass(rule, [], b);
    assert [] + b == b;
  }

  // --- When the two agree --------------------------------------------------------------------------

  ghost predicate AlwaysLeftmost(oldText: seq<Token>) {
    forall newText, ts :: Final([Rule(oldText, newText)], [], ts) == Leftmost([Rule(oldText, newText)], ts)
  }

  /** A rule without words puts its new text before every word. */
  lemma {:induction false} WordlessNot(oldText: seq<Token>)
    requires Words(oldText) == []
    ensures !AlwaysLeftmost(oldText)
  {
    var word: Token := [65];
    var rule := Rule(oldText, [word]);
    forall n: nat ensures !Occurs(oldText, [word], n) {
      if n == 1 { WordsHead([word][..1]); }
    }
    LeftmostCopies(rule, [word]);
    assert [word][1..] == [];
    SingleSweep(rule, [word]);
    TryOutcome(oldText, [word]);
    FinalStep([rule], [], [word]);
    assert [] + [word] == [word];
    FinalNothing([rule], []);
    assert |Final([rule], [], [word])| >= 2;
  }

  /** One rule alone: on every text, and for every new text, ppecho replaces from left to right as the
      standard describes exactly when the words of the old text are one word, once or repeated. */
  lemma {:induction false} LeftmostIffOneWord(oldText: seq<Token>)
    ensures AlwaysLeftmost(oldText) <==> Words(oldText) != [] && OneWord(oldText)
  {
    if Words(oldText) == [] {
      WordlessNot(oldText);
    } else if OneWord(oldText) {
      forall newText, ts ensures Final([Rule(oldText, newText)], [], ts) == Leftmost([Rule(oldText, newText)], ts) {
        OneWordLeftmost(Rule(oldText, newText), [], ts);
        assert [] + ts == ts;
      }
    } else {
      var rule := Rule(oldText, []);
      StutterMissed(rule);
      StutterLeftmost(rule);
      assert |Stutter(oldText)| == 1 + |Words(oldText)|;
    }
  }

  // --- Lists of single words -------------------------------------------------------------------------

  predicate SingleWords(rules: seq<Rule>) {
    forall r :: 0 <= r < |rules| ==> |Words(rules[r].oldText)| == 1
  }

  /** The new text for a word: that of the first rule for it, or else the word. */
  function Replacement(rules: seq<Rule>, t: Token): seq<Token> {
    if rules == [] then [t]
    else if Words(rules[0].oldText) == [Fold(t)] then rules[0].newText
    else Replacement(rules[1..], t)
  }

  lemma {:induction false} SweepNothing(rules: seq<Rule>)
    requires SingleWords(rules)
    ensures SweepRules(rules, []).queue == [] && Output(SweepRules(rules, []).log) == []
  {
    if rules != [] { TryOutcome(rules[0].oldText, []); }
  }

  lemma {:induction false} SweepWord(rules: seq<Rule>, t: Token)
    requires SingleWords(rules) && !Blank(t)
    ensures SweepRules(rules, [t]).queue == [] && Output(SweepRules(rules, [t]).log) == Replacement(rules, t)
    decreases |rules|
  {
    hide Try;
    if rules != [] {
      var l := rules[0].oldText;
      TryOutcome(l, [t]);
      WordsHead([t]);
      match Try(l, [t])
      case Partial =>
      case Mismatch => SweepWord(rules[1..], t);
      case Match(rest) =>
        WordTaken(l, t, rest);
        SweepNothing(rules[1..]);
        OutputConcat([Replaced([t][..|[t]| - |rest|], rules[0])], SweepRules(rules[1..], rest).log);
    }
  }

  lemma {:induction false} WordTaken(l: seq<Token>, t: Token, rest: seq<Token>)
    requires |Words(l)| == 1 && !Blank(t) && Words(l) <= Words([t]) && Takes(l, [t], rest)
    ensures rest == [] && Words(l) == [Fold(t)]
  {
    WordsHead([t]);
    assert [t][..0] == [];
  }

  /** An occurrence of a single word is that word. */
  lemma {:induction false} OccursWord(oldText: seq<Token>, ts: seq<Token>, n: nat)
    requires |Words(oldText)| == 1 && ts != []
    ensures Occurs(oldText, ts, n) <==> n == 1 && !Blank(ts[0]) && Words(oldText) == [Fold(ts[0])]
  {
    WordsHead(ts[..1]);
    assert ts[..1][0] == ts[0] && ts[..1][1..] == [];
    if 1 < n <= |ts| && !Blank(ts[n - 1]) { MoreWords(ts, 1, n); }
  }

  lemma {:induction false} LeftmostWord(rules: seq<Rule>, ts: seq<Token>)
    requires SingleWords(rules) && ts != []
    ensures Leftmost(rules, ts) == (if Blank(ts[0]) then [ts[0]] else Replacement(rules, ts[0])) + Leftmost(rules, ts[1..])
  {
    forall r: nat, n: nat ensures FirstAt(rules, ts, r, n) <==>
      n == 1 && !Blank(ts[0]) && r < |rules| && FirstFor(rules, ts[0], r)
    {
      forall q: nat, m: nat | q < |rules| ensures Occurs(rules[q].oldText, ts, m) <==>
        m == 1 && !Blank(ts[0]) && Words(rules[q].oldText) == [Fold(ts[0])]
      {
        OccursWord(rules[q].oldText, ts, m);
      }
      if FirstAt(rules, ts, r, n) {
        forall q | 0 <= q < r ensures Words(rules[q].oldText) != [Fold(ts[0])] { assert !Occurs(rules[q].oldText, ts, 1); }
      }
    }
    if !Blank(ts[0]) {
      var r := ReplacementFirst(rules, ts[0]);
      if r < |rules| { assert FirstAt(rules, ts, r, 1); }
    }
  }

  predicate FirstFor(rules: seq<Rule>, t: Token, r: nat)
    requires r < |rules|
  {
    Words(rules[r].oldText) == [Fold(t)] && forall q :: 0 <= q < r ==> Words(rules[q].oldText) != [Fold(t)]
  }

  lemma {:induction false} ReplacementFirst(rules: seq<Rule>, t: Token) returns (r: nat)
    ensures r <= |rules|
    ensures r < |rules| ==> FirstFor(rules, t, r) && Replacement(rules, t) == rules[r].newText
    ensures r == |rules| ==> Replacement(rules, t) == [t] && forall q :: 0 <= q < r ==> Words(rules[q].oldText) != [Fold(t)]
    decreases |rules|
  {
    if rules == [] || Words(rules[0].oldText) == [Fold(t)] {
      r := 0;
    } else {
      var q := ReplacementFirst(rules[1..], t);
      r := q + 1;
      assert forall i :: 0 < i < |rules| ==> rules[i] == rules[1..][i - 1];
    }
  }

  /** Any list of rules whose old texts are single words: what ppecho makes of any text is the
      replacement from left to right, each word by the first rule for it. */
  lemma {:induction false} SingleWordsLeftmost(rules: seq<Rule>, ts: seq<Token>)
    requires rules != [] && SingleWords(rules)
    ensures Final(rules, [], ts) == Leftmost(rules, ts)
    decreases |ts|
  {
    hide Leftmost, Final, SweepRules, Replacement, SingleWords;
    if ts == [] {
      FinalNothing(rules, []);
      NothingToReplace(rules);
    } else {
      var t := ts[0];
      FinalStep(rules, [], ts);
      LeftmostWord(rules, ts);
      SingleWordsLeftmost(rules, ts[1..]);
      assert [] + [t] == [t];
      if !Blank(t) { SweepWord(rules, t); }
    }
  }

  lemma {:induction false} NothingToReplace(rules: seq<Rule>)
    ensures Leftmost(rules, []) == []
  {
  }
}
