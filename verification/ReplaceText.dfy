/** COPY REPLACING and REPLACE: the token stream through ppecho, with its queue of pending tokens. */
module ReplaceText {
  import opened StrCase

  type Token = seq<Byte>

  predicate Blank(t: Token) { t != [] && (t[0] == ' ' as nat || t[0] == '\n' as nat) }

  datatype Rule = Rule(oldText: seq<Token>, newText: seq<Token>)

  /** The words of a text: its non-blank tokens, case folded. */
  function Words(ts: seq<Token>): (ws: seq<Token>)
    ensures |ws| <= |ts|
  {
    if ts == [] then []
    else (if Blank(ts[0]) then [] else [Fold(ts[0])]) + Words(ts[1..])
  }

  // --- One rule against the queue ------------------------------------------------------------------

  datatype Attempt = Partial | Mismatch | Match(rest: seq<Token>)

  function Try(l: seq<Token>, queue: seq<Token>): Attempt
    decreases |l| + |queue|
  {
    if l == [] then Match(queue)
    else if Blank(l[0]) then Try(l[1..], queue)
    else if queue == [] then Partial
    else if Blank(queue[0]) then Try(l, queue[1..])
    else if StrCaseCmp(l[0], queue[0]) != 0 then Mismatch
    else Try(l[1..], queue[1..])
  }

  method Compare(oldText: seq<Token>, pending: seq<Token>) returns (attempt: Attempt)
    ensures attempt == Try(oldText, pending)
  {
    var l, queue := oldText, pending;
    while l != []
      invariant Try(l, queue) == Try(oldText, pending)
      decreases |l|
    {
      while l != [] && Blank(l[0])
        invariant Try(l, queue) == Try(oldText, pending)
        decreases |l|
      {
        l := l[1..];
      }
      if l == [] {
        break;
      }
      while queue != [] && Blank(queue[0])
        invariant Try(l, queue) == Try(oldText, pending)
        decreases |queue|
      {
        queue := queue[1..];
      }
      if queue == [] {
        return Partial;
      }
      if StrCaseCmp(l[0], queue[0]) != 0 {
        return Mismatch;
      }
      l, queue := l[1..], queue[1..];
    }
    attempt := Match(queue);
  }

  // --- One call of ppecho --------------------------------------------------------------------------

  /** What became of a stretch of the input. */
  datatype Stretch = Echoed(tokens: seq<Token>) | Replaced(tokens: seq<Token>, rule: Rule)

  function Input(log: seq<Stretch>): seq<Token> {
    if log == [] then [] else log[0].tokens + Input(log[1..])
  }

  function Emitted(s: Stretch): seq<Token> {
    match s
    case Echoed(tokens) => tokens
    case Replaced(_, rule) => rule.newText
  }

  function Output(log: seq<Stretch>): seq<Token> {
    if log == [] then [] else Emitted(log[0]) + Output(log[1..])
  }

  datatype Sweep = Sweep(log: seq<Stretch>, queue: seq<Token>)

  /** The rules in order, each on what the ones before it have left of the queue; after the last one
      the rest of the queue goes out unchanged. */
  function SweepRules(rules: seq<Rule>, queue: seq<Token>): Sweep
    decreases |rules|
  {
    if rules == [] then Sweep([Echoed(queue)], [])
    else
      match Try(rules[0].oldText, queue)
      case Partial => Sweep([], queue)
      case Mismatch => SweepRules(rules[1..], queue)
      case Match(rest) =>
        TryOutcome(rules[0].oldText, queue);
        var later := SweepRules(rules[1..], rest);
        Sweep([Replaced(queue[..|queue| - |rest|], rules[0])] + later.log, later.queue)
  }

  function Step(rules: seq<Rule>, queue: seq<Token>, text: Token): Sweep {
    if queue == [] && Blank(text) then Sweep([Echoed([text])], [])
    else if rules == [] then Sweep([Echoed(queue + [text])], [])
    else SweepRules(rules, queue + [text])
  }

  /** The statics of the preprocessor that ppecho keeps between calls, and its output. An empty rule
      list stands for no replacement in force. */
  class Preprocessor {
    var replaceList: seq<Rule>
    var textQueue: seq<Token>
    var output: seq<Token>

    constructor ()
      ensures replaceList == [] && textQueue == [] && output == []
    {
      replaceList, textQueue, output := [], [], [];
    }

    /** Another list in force; what waits in the queue stays. */
    method SetReplaceList(list: seq<Rule>)
      modifies this`replaceList
      ensures replaceList == list
    {
      replaceList := list;
    }

    method Flush()
      modifies this`textQueue, this`output
      ensures textQueue == [] && output == old(output) + old(textQueue)
    {
      while textQueue != []
        invariant output + textQueue == old(output) + old(textQueue)
        decreases |textQueue|
      {
        output := output + [textQueue[0]];
        textQueue := textQueue[1..];
      }
    }

    method PutAll(texts: seq<Token>)
      modifies this`output
      ensures output == old(output) + texts
    {
      for i := 0 to |texts|
        invariant output == old(output) + texts[..i]
      {
        output := output + [texts[i]];
      }
    }

    method Echo(text: Token)
      modifies this`textQueue, this`output
      ensures var sweep := Step(replaceList, old(textQueue), text);
              textQueue == sweep.queue && output == old(output) + Output(sweep.log)
    {
      if textQueue == [] && Blank(text) {
        output := output + [text];
      } else if replaceList == [] {
        Flush();
        output := output + [text];
      } else {
        textQueue := textQueue + [text];
        Replace();
      }
    }

    method Replace()
      modifies this`textQueue, this`output
      ensures var sweep := SweepRules(replaceList, old(textQueue));
              textQueue == sweep.queue && output == old(output) + Output(sweep.log)
    {
      hide SweepRules, Output, Try;
      ghost var before, whole := output, SweepRules(replaceList, textQueue);
      assert replaceList[0..] == replaceList;
      for r := 0 to |replaceList|
        invariant before + Output(whole.log) == output + Output(SweepRules(replaceList[r..], textQueue).log)
        invariant SweepRules(replaceList[r..], textQueue).queue == whole.queue
      {
        SweepTurn(replaceList, r, textQueue);
        var attempt := Compare(replaceList[r].oldText, textQueue);
        if attempt.Partial? {
          return;
        } else if attempt.Match? {
          PutAll(replaceList[r].newText);
          textQueue := attempt.rest;
        }
      }
      assert replaceList[|replaceList|..] == [];
      SweepEnd(textQueue);
      Flush();
    }
  }

  lemma {:induction false} SweepTurn(rules: seq<Rule>, r: nat, queue: seq<Token>)
    requires r < |rules|
    ensures var s := SweepRules(rules[r..], queue);
            match Try(rules[r].oldText, queue)
            case Partial => Output(s.log) == [] && s.queue == queue
            case Mismatch => s == SweepRules(rules[r + 1..], queue)
            case Match(rest) =>
              var later := SweepRules(rules[r + 1..], rest);
              Output(s.log) == rules[r].newText + Output(later.log) && s.queue == later.queue
  {
    assert rules[r..][0] == rules[r] && rules[r..][1..] == rules[r + 1..];
  }

  lemma {:induction false} SweepEnd(queue: seq<Token>)
    ensures Output(SweepRules([], queue).log) == queue && SweepRules([], queue).queue == []
  {
  }

  // --- What one attempt means ----------------------------------------------------------------------

  /** A rule matches just when its words begin the words of the queue, and waits just when the queue's
      words begin the rule's and are fewer. A match takes the queue up to its last word and no blank
      after it; a rule without words takes nothing. */
  lemma {:induction false} TryOutcome(l: seq<Token>, queue: seq<Token>)
    ensures Try(l, queue).Match? <==> Words(l) <= Words(queue)
    ensures Try(l, queue).Partial? <==> Words(queue) < Words(l)
    ensures Try(l, queue).Match? ==> Takes(l, queue, Try(l, queue).rest)
    decreases |l| + |queue|, 1
  {
    hide Words, Takes;
    WordsHead(l);
    WordsHead(queue);
    if l == [] {
      TakesNothing(queue);
    } else if Blank(l[0]) {
      TryOutcome(l[1..], queue);
      TakesSame(l[1..], l, queue);
    } else if queue == [] {
    } else if Blank(queue[0]) {
      TryOutcome(l, queue[1..]);
      TakesMore(l, l, queue);
    } else {
      TryWord(l, queue);
    }
  }

  lemma {:induction false} WordsHead(ts: seq<Token>)
    ensures ts == [] ==> Words(ts) == []
    ensures ts != [] && Blank(ts[0]) ==> Words(ts) == Words(ts[1..])
    ensures ts != [] && !Blank(ts[0]) ==> Words(ts) == [Fold(ts[0])] + Words(ts[1..])
  {
  }

  lemma {:induction false} TakesNothing(queue: seq<Token>)
    ensures Takes([], queue, queue)
  {
    assert queue[..0] == [];
  }

  lemma {:induction false} TakesSame(m: seq<Token>, l: seq<Token>, queue: seq<Token>)
    requires Words(m) == Words(l)
    ensures forall rest :: Takes(m, queue, rest) ==> Takes(l, queue, rest)
  {
  }

  lemma {:induction false} TryWord(l: seq<Token>, queue: seq<Token>)
    requires l != [] && queue != [] && !Blank(l[0]) && !Blank(queue[0])
    ensures Try(l, queue).Match? <==> Words(l) <= Words(queue)
    ensures Try(l, queue).Partial? <==> Words(queue) < Words(l)
    ensures Try(l, queue).Match? ==> Takes(l, queue, Try(l, queue).rest)
    decreases |l| + |queue|, 0
  {
    hide Takes;
    var v, w := Words(l[1..]), Words(queue[1..]);
    StrCaseCmpZero(l[0], queue[0]);
    assert Words(l) == [Fold(l[0])] + v && Words(queue) == [Fold(queue[0])] + w;
    hide Words;
    if StrCaseCmp(l[0], queue[0]) == 0 {
      ConsPrefix(Fold(l[0]), v, w);
      ConsPrefix(Fold(l[0]), w, v);
      TryOutcome(l[1..], queue[1..]);
      TakesMore(l, l[1..], queue);
    } else {
      assert Words(l)[0] != Words(queue)[0];
    }
  }

  lemma {:induction false} TakesMore(l: seq<Token>, m: seq<Token>, queue: seq<Token>)
    requires queue != [] && (if Blank(queue[0]) then Words(m) == Words(l) != [] else [Fold(queue[0])] + Words(m) == Words(l))
    ensures forall rest :: Takes(m, queue[1..], rest) ==> Takes(l, queue, rest)
  {
    forall rest | Takes(m, queue[1..], rest) ensures Takes(l, queue, rest) {
      TakeOneMore(l, m, queue, rest);
    }
  }

  lemma {:induction false} TakeOneMore(l: seq<Token>, m: seq<Token>, queue: seq<Token>, rest: seq<Token>)
    requires queue != [] && Takes(m, queue[1..], rest)
    requires if Blank(queue[0]) then Words(m) == Words(l) != [] else [Fold(queue[0])] + Words(m) == Words(l)
    ensures Takes(l, queue, rest)
  {
    var used := queue[1..][..|queue| - 1 - |rest|];
    var more := queue[..|used| + 1];
    assert more == [queue[0]] + used;
    assert more[0] == queue[0] && more[1..] == used;
    WordsHead(more);
    assert used == [] ==> Words(used) == [];
    hide Words, Fold, Blank;
    assert queue == more + rest;
  }

  lemma {:induction false} ConsPrefix<T>(x: T, a: seq<T>, b: seq<T>)
    ensures [x] + a <= [x] + b <==> a <= b
    ensures [x] + a < [x] + b <==> a < b
  {
    assert a <= b ==> b[..|a|] == a;
    assert ([x] + a)[1..] == a && ([x] + b)[1..] == b;
  }

  ghost predicate Takes(l: seq<Token>, queue: seq<Token>, rest: seq<Token>) {
    && |rest| <= |queue|
    && var used := queue[..|queue| - |rest|];
       queue == used + rest && Words(used) == Words(l) && (used != [] ==> !Blank(used[|used| - 1]))
  }

  // --- Whole runs ----------------------------------------------------------------------------------

  /** Successive calls under one rule list. */
  function Feed(rules: seq<Rule>, queue: seq<Token>, texts: seq<Token>): Sweep
    decreases |texts|
  {
    if texts == [] then Sweep([], queue)
    else
      var first := Step(rules, queue, texts[0]);
      var later := Feed(rules, first.queue, texts[1..]);
      Sweep(first.log + later.log, later.queue)
  }

  /** The calls made between two changes of the rule list. */
  datatype Batch = Batch(rules: seq<Rule>, texts: seq<Token>)

  function Play(queue: seq<Token>, batches: seq<Batch>): Sweep
    decreases |batches|
  {
    if batches == [] then Sweep([], queue)
    else
      var first := Feed(batches[0].rules, queue, batches[0].texts);
      var later := Play(first.queue, batches[1..]);
      Sweep(first.log + later.log, later.queue)
  }

  function Texts(batches: seq<Batch>): seq<Token> {
    if batches == [] then [] else batches[0].texts + Texts(batches[1..])
  }

  function Rules(batches: seq<Batch>): seq<Rule> {
    if batches == [] then [] else batches[0].rules + Rules(batches[1..])
  }

  /** Every replaced stretch has exactly the words of one of the rules, and ends on its last word. */
  ghost predicate Sound(log: seq<Stretch>, rules: seq<Rule>) {
    forall i :: 0 <= i < |log| && log[i].Replaced? ==>
      && log[i].rule in rules && Words(log[i].tokens) == Words(log[i].rule.oldText)
      && (log[i].tokens != [] ==> !Blank(log[i].tokens[|log[i].tokens| - 1]))
  }

  /** The words of the queue begin the words of some rule, and are fewer. */
  ghost predicate Pending(rules: seq<Rule>, queue: seq<Token>) {
    queue == [] || exists r :: 0 <= r < |rules| && Words(queue) < Words(rules[r].oldText)
  }

  lemma {:induction false} InputConcat(a: seq<Stretch>, b: seq<Stretch>)
    ensures Input(a + b) == Input(a) + Input(b)
    decreases |a|
  {
    if a == [] {
      assert a + b == b;
    } else {
      InputConcat(a[1..], b);
      assert (a + b)[1..] == a[1..] + b;
    }
  }

  lemma {:induction false} OutputConcat(a: seq<Stretch>, b: seq<Stretch>)
    ensures Output(a + b) == Output(a) + Output(b)
    decreases |a|
  {
    if a == [] {
      assert a + b == b;
    } else {
      OutputConcat(a[1..], b);
      assert (a + b)[1..] == a[1..] + b;
    }
  }

  lemma {:induction false} SoundConcat(a: seq<Stretch>, b: seq<Stretch>, rules: seq<Rule>, more: seq<Rule>, all: seq<Rule>)
    requires Sound(a, rules) && Sound(b, more)
    requires forall r :: r in rules || r in more ==> r in all
    ensures Sound(a + b, all)
  {
    hide Words;
  }

  lemma {:induction false} NothingSound(rules: seq<Rule>)
    ensures Sound([], rules)
  {
  }

  lemma {:induction false} PendingTail(rules: seq<Rule>, queue: seq<Token>)
    requires rules != [] && Pending(rules[1..], queue)
    ensures Pending(rules, queue)
  {
    if queue != [] {
      var r :| 0 <= r < |rules[1..]| && Words(queue) < Words(rules[1..][r].oldText);
      assert rules[1..][r] == rules[r + 1];
    }
  }

  lemma {:induction false} SweepInput(rules: seq<Rule>, queue: seq<Token>)
    ensures var s := SweepRules(rules, queue); Input(s.log) + s.queue == queue
    decreases |rules|
  {
    hide Try, Words;
    if rules != [] {
      TryOutcome(rules[0].oldText, queue);
      match Try(rules[0].oldText, queue)
      case Partial =>
      case Mismatch => SweepInput(rules[1..], queue);
      case Match(rest) =>
        SweepInput(rules[1..], rest);
        var later := SweepRules(rules[1..], rest);
        InputConcat([Replaced(queue[..|queue| - |rest|], rules[0])], later.log);
    }
  }

  lemma {:induction false} SweepSound(rules: seq<Rule>, queue: seq<Token>)
    ensures Sound(SweepRules(rules, queue).log, rules)
    decreases |rules|
  {
    hide Try, Words;
    if rules != [] {
      TryOutcome(rules[0].oldText, queue);
      match Try(rules[0].oldText, queue)
      case Partial =>
      case Mismatch => SweepSound(rules[1..], queue);
      case Match(rest) => SweepSound(rules[1..], rest);
    }
  }

  lemma {:induction false} SweepPends(rules: seq<Rule>, queue: seq<Token>)
    ensures Pending(rules, SweepRules(rules, queue).queue)
    decreases |rules|
  {
    hide Try, Words;
    if rules != [] {
      TryOutcome(rules[0].oldText, queue);
      match Try(rules[0].oldText, queue)
      case Partial =>
      case Mismatch =>
        SweepPends(rules[1..], queue);
        PendingTail(rules, SweepRules(rules, queue).queue);
      case Match(rest) =>
        SweepPends(rules[1..], rest);
        PendingTail(rules, SweepRules(rules, queue).queue);
    }
  }

  /** One call: the queue and the new token are shared out, in order, between what is emitted and what
      is kept; and whatever is kept waits for more of some rule now in force. */
  lemma {:induction false} StepAccounts(rules: seq<Rule>, queue: seq<Token>, text: Token)
    ensures var s := Step(rules, queue, text);
            Input(s.log) + s.queue == queue + [text] && Sound(s.log, rules) && Pending(rules, s.queue)
  {
    hide SweepRules, Words;
    if !(queue == [] && Blank(text)) && rules != [] {
      SweepInput(rules, queue + [text]);
      SweepSound(rules, queue + [text]);
      SweepPends(rules, queue + [text]);
    }
  }

  lemma {:induction false} FeedAccounts(rules: seq<Rule>, queue: seq<Token>, texts: seq<Token>)
    ensures var s := Feed(rules, queue, texts);
            && Input(s.log) + s.queue == queue + texts && Sound(s.log, rules)
            && (texts != [] || Pending(rules, queue) ==> Pending(rules, s.queue))
    decreases |texts|
  {
    hide Step, Words, Sound, Pending;
    if texts == [] {
      NothingSound(rules);
    } else {
      StepAccounts(rules, queue, texts[0]);
      var first := Step(rules, queue, texts[0]);
      FeedAccounts(rules, first.queue, texts[1..]);
      var later := Feed(rules, first.queue, texts[1..]);
      InputConcat(first.log, later.log);
      SoundConcat(first.log, later.log, rules, rules, rules);
      Regroup(Input(first.log), first.queue, Input(later.log), later.queue, queue, [texts[0]], texts[1..]);
      assert texts == [texts[0]] + texts[1..];
    }
  }

  /** Over any run, with any changes of the rule list: the tokens passed in are, in order, the echoed
      stretches, the replaced stretches and the queue. */
  lemma {:induction false} RunAccounts(queue: seq<Token>, batches: seq<Batch>)
    ensures var s := Play(queue, batches);
            Input(s.log) + s.queue == queue + Texts(batches) && Sound(s.log, Rules(batches))
    decreases |batches|
  {
    hide Feed, Words, Sound, Pending;
    if batches == [] {
      NothingSound([]);
    } else {
      var texts := batches[0].texts;
      var first := Feed(batches[0].rules, queue, texts);
      FeedAccounts(batches[0].rules, queue, texts);
      RunAccounts(first.queue, batches[1..]);
      var later := Play(first.queue, batches[1..]);
      InputConcat(first.log, later.log);
      SoundConcat(first.log, later.log, batches[0].rules, Rules(batches[1..]), Rules(batches));
      Regroup(Input(first.log), first.queue, Input(later.log), later.queue, queue, texts, Texts(batches[1..]));
    }
  }

  lemma {:induction false} Regroup(a: seq<Token>, q: seq<Token>, b: seq<Token>, r: seq<Token>,
                                   queue: seq<Token>, texts: seq<Token>, more: seq<Token>)
    requires a + q == queue + texts && b + r == q + more
    ensures (a + b) + r == queue + (texts + more)
  {
    assert (a + b) + r == a + (b + r) == (a + q) + more == queue + (texts + more);
  }
}
