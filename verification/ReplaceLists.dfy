/** COPY REPLACING with any list of rules: when one of them replaces, and when nothing goes out. */
module ReplaceLists {
  import opened ReplaceText
  import opened ReplaceStandard

  /** One has another word than the other, at the same place. */
  ghost predicate Differ(a: seq<Token>, b: seq<Token>) {
    exists k :: 0 <= k < |a| && k < |b| && a[k] != b[k]
  }

  ghost predicate HaveWords(rules: seq<Rule>) {
    forall i :: 0 <= i < |rules| ==> Words(rules[i].oldText) != []
  }

  /** Texts that do not differ begin one with the other. */
  lemma {:induction false} DifferIff(a: seq<Token>, b: seq<Token>)
    ensures Differ(a, b) <==> !(a <= b) && !(b < a)
  {
    if !Differ(a, b) {
      if |a| <= |b| { assert a == b[..|a|]; } else { assert b == a[..|b|]; }
    }
  }

  // --- One sweep -------------------------------------------------------------------------------------

  /** Rules that differ let the queue pass on to the rules behind them. */
  lemma {:induction false} SweepPasses(rules: seq<Rule>, r: nat, queue: seq<Token>)
    requires r <= |rules| && forall i :: 0 <= i < r ==> Differ(Words(rules[i].oldText), Words(queue))
    ensures SweepRules(rules, queue) == SweepRules(rules[r..], queue)
    decreases r
  {
    hide Words, Differ, Try;
    if r == 0 {
      assert rules[0..] == rules;
    } else {
      DifferIff(Words(rules[0].oldText), Words(queue));
      TryOutcome(rules[0].oldText, queue);
      SweepPasses(rules[1..], r - 1, queue);
      assert rules[1..][r - 1..] == rules[r..];
    }
  }

  /** Nothing is left to go out once all has been replaced. */
  lemma {:induction false} SweepNothingLeft(rules: seq<Rule>)
    requires HaveWords(rules)
    ensures Output(SweepRules(rules, []).log) == [] && SweepRules(rules, []).queue == []
  {
    if rules == [] {
      SweepEnd([]);
    } else {
      TryOutcome(rules[0].oldText, []);
    }
  }

  /** A rule that the words make up takes all, up to the last of them. */
  lemma {:induction false} MatchesAll(l: seq<Token>, queue: seq<Token>, text: Token)
    requires Words(queue + [text]) == Words(l) && !Blank(text) && Words(l) != []
    ensures Try(l, queue + [text]) == Match([])
  {
    hide Words, Try;
    var all := queue + [text];
    TryOutcome(l, all);
    var n := |all| - |Try(l, all).rest|;
    assert all[|all| - 1] == text && all[..|all|] == all;
    if n < |all| { MoreWords(all, n, |all|); }
  }

  /** When the words that have come are those of a rule, and no rule before it fits them, its new text
      goes out and nothing waits any more. */
  lemma {:induction false} StepReplaces(rules: seq<Rule>, r: nat, queue: seq<Token>, text: Token)
    requires HaveWords(rules) && r < |rules| && !Blank(text) && Words(queue + [text]) == Words(rules[r].oldText)
    requires forall i :: 0 <= i < r ==> Differ(Words(rules[i].oldText), Words(queue + [text]))
    ensures Output(Step(rules, queue, text).log) == rules[r].newText && Step(rules, queue, text).queue == []
  {
    hide Words, Try, Differ, SweepRules, Output;
    var all := queue + [text];
    SweepPasses(rules, r, all);
    SweepTurn(rules, r, all);
    MatchesAll(rules[r].oldText, queue, text);
    SweepNothingLeft(rules[r + 1..]);
    assert rules[r].newText + [] == rules[r].newText;
  }

  /** While they are a proper beginning of its words, and no rule before it matches, nothing goes out and
      all of it waits. */
  lemma {:induction false} StepWaits(rules: seq<Rule>, r: nat, queue: seq<Token>, text: Token)
    requires r < |rules| && (queue != [] || !Blank(text)) && Words(queue + [text]) < Words(rules[r].oldText)
    requires forall i :: 0 <= i < r ==> !(Words(rules[i].oldText) <= Words(queue + [text]))
    ensures Output(Step(rules, queue, text).log) == [] && Step(rules, queue, text).queue == queue + [text]
  {
    hide Words, Try, SweepRules, Output, Differ;
    var all := queue + [text];
    var k := FirstFitting(rules, r, all);
    SweepPasses(rules, k, all);
    SweepTurn(rules, k, all);
    TryOutcome(rules[k].oldText, all);
  }

  /** The first rule that does not differ. */
  lemma {:induction false} FirstFitting(rules: seq<Rule>, r: nat, queue: seq<Token>) returns (k: nat)
    requires r < |rules| && Words(queue) < Words(rules[r].oldText)
    requires forall i :: 0 <= i < r ==> !(Words(rules[i].oldText) <= Words(queue))
    ensures k <= r && forall i :: 0 <= i < k ==> Differ(Words(rules[i].oldText), Words(queue))
    ensures Words(queue) < Words(rules[k].oldText)
    decreases r
  {
    hide Words, Differ;
    k := 0;
    while k < r && Differ(Words(rules[k].oldText), Words(queue))
      invariant k <= r && forall i :: 0 <= i < k ==> Differ(Words(rules[i].oldText), Words(queue))
    {
      k := k + 1;
    }
    if k < r { DifferIff(Words(rules[k].oldText), Words(queue)); }
  }

  /** When no rule fits, all of it goes out as it is. */
  lemma {:induction false} StepEchoes(rules: seq<Rule>, queue: seq<Token>, text: Token)
    requires forall i :: 0 <= i < |rules| ==> Differ(Words(rules[i].oldText), Words(queue + [text]))
    ensures Output(Step(rules, queue, text).log) == queue + [text] && Step(rules, queue, text).queue == []
  {
    hide Words, Differ, SweepRules;
    var all := queue + [text];
    SweepPasses(rules, |rules|, all);
    assert rules[|rules|..] == [];
    SweepEnd(all);
    if rules == [] || (queue == [] && Blank(text)) { assert [] + [text] == [text]; EchoedOnly(all); }
  }

  lemma {:induction false} EchoedOnly(tokens: seq<Token>)
    ensures Output([Echoed(tokens)]) == tokens
  {
    assert Output([Echoed(tokens)]) == tokens + Output([]);
  }

  /** Words that a rule leaves over are for the rules behind it: the new texts of both go out. */
  lemma {:induction false} StepReplacesTwo(rules: seq<Rule>, r: nat, s: nat, queue: seq<Token>, text: Token)
    requires HaveWords(rules) && r < s < |rules| && !Blank(text)
    requires Words(queue + [text]) == Words(rules[r].oldText) + Words(rules[s].oldText)
    requires forall i :: 0 <= i < r ==> Differ(Words(rules[i].oldText), Words(queue + [text]))
    requires forall i :: r < i < s ==> Differ(Words(rules[i].oldText), Words(rules[s].oldText))
    ensures Output(Step(rules, queue, text).log) == rules[r].newText + rules[s].newText
    ensures Step(rules, queue, text).queue == []
  {
    hide Words, Try, Differ, SweepRules, Output;
    var all, behind := queue + [text], rules[r + 1..];
    SweepPasses(rules, r, all);
    SweepTurn(rules, r, all);
    TryOutcome(rules[r].oldText, all);
    var rest := Try(rules[r].oldText, all).rest;
    LeftOver(rules[r].oldText, all, rest, Words(rules[s].oldText));
    var k := s - r - 1;
    SweepPasses(behind, k, rest);
    SweepTurn(behind, k, rest);
    var init := rest[..|rest| - 1];
    assert rest == init + [text];
    MatchesAll(rules[s].oldText, init, text);
    SweepNothingLeft(behind[k + 1..]);
    assert rules[s].newText + [] == rules[s].newText;
  }

  lemma {:induction false} LeftOver(l: seq<Token>, all: seq<Token>, rest: seq<Token>, more: seq<Token>)
    requires Takes(l, all, rest) && Words(all) == Words(l) + more && more != []
    ensures Words(rest) == more && rest != [] && |rest| <= |all| && rest == all[|all| - |rest|..]
    ensures rest[|rest| - 1] == all[|all| - 1]
  {
    WordsSplit(all, |all| - |rest|);
    var used := Words(l);
    assert (used + Words(rest))[|used|..] == Words(rest) && (used + more)[|used|..] == more;
    WordsHead(rest);
  }

  // --- A whole old text ------------------------------------------------------------------------------

  /** An old text of any number of words, with any blanks between them: exactly its new text comes out,
      for the first rule of the list that does not differ from it. */
  lemma {:induction false} OldTextReplaced(rules: seq<Rule>, r: nat, queue: seq<Token>, texts: seq<Token>)
    requires HaveWords(rules) && r < |rules| && Words(queue + texts) == Words(rules[r].oldText)
    requires texts != [] && !Blank(texts[|texts| - 1]) && (queue != [] || !Blank(texts[0]))
    requires forall i :: 0 <= i < r ==> Differ(Words(rules[i].oldText), Words(rules[r].oldText))
    ensures Output(Feed(rules, queue, texts).log) == rules[r].newText && Feed(rules, queue, texts).queue == []
    decreases |texts|
  {
    hide Words, Differ, Step, Output;
    var text, rest := texts[0], texts[1..];
    var first := Step(rules, queue, text);
    var w := Words(rules[r].oldText);
    if rest == [] {
      assert texts == [text];
      StepReplaces(rules, r, queue, text);
      assert Feed(rules, first.queue, rest) == Sweep([], first.queue);
      assert first.log + [] == first.log;
    } else {
      var all := queue + texts;
      assert (queue + [text]) + rest == all && all[|queue| + 1..] == rest && all[..|queue| + 1] == queue + [text];
      WordsSplit(all, |queue| + 1);
      MoreWords(all, |queue| + 1, |all|);
      assert all[..|all|] == all;
      forall i | 0 <= i < r ensures !(Words(rules[i].oldText) <= Words(queue + [text])) {
        StillDiffers(Words(rules[i].oldText), w, Words(queue + [text]));
      }
      StepWaits(rules, r, queue, text);
      OldTextReplaced(rules, r, queue + [text], rest);
      OutputConcat(first.log, Feed(rules, first.queue, rest).log);
      assert [] + rules[r].newText == rules[r].newText;
    }
  }

  lemma {:induction false} StillDiffers(a: seq<Token>, w: seq<Token>, part: seq<Token>)
    requires Differ(a, w) && part <= w
    ensures !(a <= part)
  {
    DifferIff(a, w);
    assert a <= part ==> a <= w;
  }

  /** Behind and before any other text that leaves nothing waiting, the rest is as without it. */
  lemma {:induction false} ReplacedInText(rules: seq<Rule>, r: nat, before: seq<Token>, texts: seq<Token>, behind: seq<Token>)
    requires HaveWords(rules) && r < |rules| && Words(texts) == Words(rules[r].oldText)
    requires texts != [] && !Blank(texts[|texts| - 1]) && !Blank(texts[0])
    requires forall i :: 0 <= i < r ==> Differ(Words(rules[i].oldText), Words(rules[r].oldText))
    requires Feed(rules, [], before).queue == []
    ensures Output(Feed(rules, [], before + texts + behind).log)
         == Output(Feed(rules, [], before).log) + rules[r].newText + Output(Feed(rules, [], behind).log)
    ensures Feed(rules, [], before + texts + behind).queue == Feed(rules, [], behind).queue
  {
    hide Words, Differ, Output, Feed;
    assert [] + texts == texts && before + texts + behind == before + (texts + behind);
    OldTextReplaced(rules, r, [], texts);
    FeedConcat(rules, [], before, texts + behind);
    FeedConcat(rules, [], texts, behind);
    OutputConcat(Feed(rules, [], before).log, Feed(rules, [], texts + behind).log);
    OutputConcat(Feed(rules, [], texts).log, Feed(rules, [], behind).log);
  }

  lemma {:induction false} FeedConcat(rules: seq<Rule>, queue: seq<Token>, a: seq<Token>, b: seq<Token>)
    ensures var first := Feed(rules, queue, a);
            var later := Feed(rules, first.queue, b);
            Feed(rules, queue, a + b) == Sweep(first.log + later.log, later.queue)
    decreases |a|
  {
    hide Step;
    if a == [] {
      assert a + b == b;
      assert [] + Feed(rules, queue, b).log == Feed(rules, queue, b).log;
    } else {
      assert (a + b)[0] == a[0] && (a + b)[1..] == a[1..] + b;
      var s := Step(rules, queue, a[0]);
      FeedConcat(rules, s.queue, a[1..], b);
      var x, y := Feed(rules, s.queue, a[1..]), Feed(rules, Feed(rules, s.queue, a[1..]).queue, b);
      assert s.log + (x.log + y.log) == (s.log + x.log) + y.log;
    }
  }

  /** Tokens that begin with a blank or a newline, and no others, do not count. */
  lemma {:induction false} BlankByCharacter(a: seq<Token>, t: Token, b: seq<Token>)
    ensures Words(a + [t] + b) == Words(a + b) <==> t != [] && (t[0] == 32 || t[0] == 10)
  {
    assert a + [t] + b == a + ([t] + b);
    WordsConcat(a, [t] + b);
    WordsConcat([t], b);
    WordsConcat(a, b);
    assert [t][1..] == [];
    WordsHead([t]);
    assert |Words([t])| == 0 <==> Blank(t);
  }
}
