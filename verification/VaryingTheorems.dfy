/** The nested loops of a PERFORM VARYING run as its flowchart does, and what setting every variable
    first would change. */
module VaryingTheorems {
  import opened Varying

  /** Where control is behind the inner part of phrase k. */
  function Behind(test: Test, k: nat): Point { if test == Before then Step(k) else Ask(k) }

  // --- From the code to the flowchart ------------------------------------------------------------------

  lemma {:induction false} InnerRuns<S>(ps: seq<Phrase<S>>, test: Test, body: S -> S, k: nat, m: Memory<S>, fuel: nat) returns (n: nat)
    requires k < |ps| && Inner(ps, test, body, k, m, fuel).Done?
    ensures Run(ps, test, body, Config(Inward(ps, k), m), n) == Config(Behind(test, k), Inner(ps, test, body, k, m, fuel).m)
    decreases fuel, |ps| - k, 0
  {
    if k + 1 == |ps| {
      n := 1;
      assert Run(ps, test, body, Config(AtBody, m), 1) == Move(ps, test, body, Config(AtBody, m));
    } else {
      n := LoopRuns(ps, test, body, k + 1, m, fuel);
    }
  }

  /** A loop that ends takes the flowchart from setting its next variable to where the loop around it
      goes on. */
  lemma {:induction false} LoopRuns<S>(ps: seq<Phrase<S>>, test: Test, body: S -> S, k: nat, m: Memory<S>, fuel: nat) returns (n: nat)
    requires k < |ps| && Loop(Block(ps, test, k), body, m, fuel).Done?
    ensures Run(ps, test, body, Config(Enter(k), m), n) == Config(Outward(test, k), Loop(Block(ps, test, k), body, m, fuel).m)
    decreases fuel, |ps| - k, 1
  {
    hide Exec, Inner, Run, Loop, Block;
    LoopTurn(Block(ps, test, k), body, m, fuel);
    Turn(ps, test, body, k, m, fuel - 1);
    var s := SetNext(ps, k, m);
    var enter := Config(Enter(k), m);
    OneMore(ps, test, body, enter, 0);
    OneMore(ps, test, body, enter, 1);
    if test == Before && ps[k].until(s.store) {
      n := 2;
    } else {
      var r := Inner(ps, test, body, k, s, fuel - 1);
      var first := if test == Before then 2 else 1;
      var a := InnerRuns(ps, test, body, k, s, fuel - 1);
      RunAdds(ps, test, body, enter, first, a);
      if test == After && ps[k].until(r.m.store) {
        OneMore(ps, test, body, enter, 1 + a);
        n := 1 + a + 1;
      } else {
        var b := LoopRuns(ps, test, body, k, Stepped(ps[k], r.m), fuel - 1);
        n := GoesOn(ps, test, body, enter, k, r.m, first + a, b);
      }
    }
  }

  /** Behind the inner part, and the condition when it comes after: the step, and the next turns. */
  lemma {:induction false} GoesOn<S>(ps: seq<Phrase<S>>, test: Test, body: S -> S, c: Config<S>, k: nat, m: Memory<S>, a: nat, b: nat)
    returns (n: nat)
    requires k < |ps| && Run(ps, test, body, c, a) == Config(Behind(test, k), m)
    requires test == After ==> !ps[k].until(m.store)
    ensures Run(ps, test, body, c, n) == Run(ps, test, body, Config(Enter(k), Stepped(ps[k], m)), b)
  {
    hide Run;
    OneMore(ps, test, body, c, a);
    OneMore(ps, test, body, c, a + 1);
    var steps := if test == Before then a + 1 else a + 2;
    RunAdds(ps, test, body, c, steps, b);
    n := steps + b;
  }

  lemma {:induction false} OneMore<S>(ps: seq<Phrase<S>>, test: Test, body: S -> S, c: Config<S>, n: nat)
    ensures Run(ps, test, body, c, 0) == c
    ensures Run(ps, test, body, c, n + 1) == Move(ps, test, body, Run(ps, test, body, c, n))
  {
    RunAdds(ps, test, body, c, n, 1);
    var d := Run(ps, test, body, c, n);
    assert Run(ps, test, body, d, 1) == Run(ps, test, body, Move(ps, test, body, d), 0);
  }

  // --- From the flowchart to the code ------------------------------------------------------------------

  ghost predicate Leaves<S>(ps: seq<Phrase<S>>, test: Test, body: S -> S, c: Config<S>, n: nat) {
    Run(ps, test, body, c, n).at == Out
  }

  /** A run that gets out from c has made the moves up to d. */
  lemma {:induction false} LeavesLater<S>(ps: seq<Phrase<S>>, test: Test, body: S -> S, c: Config<S>, n: nat, d: Config<S>, a: nat)
    requires Leaves(ps, test, body, c, n) && a <= n && Run(ps, test, body, c, a) == d
    ensures Leaves(ps, test, body, d, n - a)
  {
    RunAdds(ps, test, body, c, a, n - a);
  }

  lemma {:induction false} InnerEnds<S>(ps: seq<Phrase<S>>, test: Test, body: S -> S, k: nat, m: Memory<S>, n: nat) returns (fuel: nat, used: nat)
    requires k < |ps| && Leaves(ps, test, body, Config(Inward(ps, k), m), n)
    ensures Inner(ps, test, body, k, m, fuel).Done? && used <= n
    ensures Run(ps, test, body, Config(Inward(ps, k), m), used) == Config(Behind(test, k), Inner(ps, test, body, k, m, fuel).m)
    decreases n, |ps| - k, 0
  {
    if k + 1 == |ps| {
      fuel, used := 0, 1;
      assert Run(ps, test, body, Config(AtBody, m), 1) == Move(ps, test, body, Config(AtBody, m));
    } else {
      fuel, used := LoopEnds(ps, test, body, k + 1, m, n);
    }
  }

  /** When the flowchart gets out, every loop on the way ends. */
  lemma {:induction false} LoopEnds<S>(ps: seq<Phrase<S>>, test: Test, body: S -> S, k: nat, m: Memory<S>, n: nat) returns (fuel: nat, used: nat)
    requires k < |ps| && Leaves(ps, test, body, Config(Enter(k), m), n)
    ensures Loop(Block(ps, test, k), body, m, fuel).Done? && used <= n
    ensures Run(ps, test, body, Config(Enter(k), m), used) == Config(Outward(test, k), Loop(Block(ps, test, k), body, m, fuel).m)
    decreases n, |ps| - k, 1
  {
    hide Exec, Inner, Run, Loop, Leaves, Block;
    var s := SetNext(ps, k, m);
    var enter, inward := Config(Enter(k), m), Config(Inward(ps, k), s);
    OneMore(ps, test, body, enter, 0);
    NotYet(ps, test, body, enter, n, 0);
    if test == Before {
      NotYet(ps, test, body, enter, n, 1);
      OneMore(ps, test, body, enter, 1);
      if ps[k].until(s.store) {
        fuel, used := 1, 2;
        Turn(ps, test, body, k, m, 0);
        LoopTurn(Block(ps, test, k), body, m, 1);
      } else {
        LeavesLater(ps, test, body, enter, n, inward, 2);
        var f, a := InnerEnds(ps, test, body, k, s, n - 2);
        fuel, used := TurnAgain(ps, test, body, k, m, n, f, a);
      }
    } else {
      LeavesLater(ps, test, body, enter, n, inward, 1);
      var f, a := InnerEnds(ps, test, body, k, s, n - 1);
      fuel, used := TurnAgain(ps, test, body, k, m, n, f, a);
    }
  }

  lemma {:induction false} NotYet<S>(ps: seq<Phrase<S>>, test: Test, body: S -> S, c: Config<S>, n: nat, a: nat)
    requires Leaves(ps, test, body, c, n) && a <= n && Run(ps, test, body, c, a).at != Out
    ensures a < n
  {
  }

  lemma {:induction false} LoopTurn<S>(block: seq<Code<S>>, body: S -> S, m: Memory<S>, fuel: nat)
    ensures Loop(block, body, m, fuel)
         == if fuel == 0 then NoFuel
            else match Exec(block, body, m, fuel - 1)
                 case NoFuel => NoFuel
                 case Broke(x) => Done(x)
                 case Done(x) => Loop(block, body, x, fuel - 1)
  {
  }

  /** The rest of a turn, behind its inner part, and the turns after it. */
  lemma {:induction false} TurnAgain<S>(ps: seq<Phrase<S>>, test: Test, body: S -> S, k: nat, m: Memory<S>, n: nat, f: nat, a: nat)
    returns (fuel: nat, used: nat)
    requires k < |ps| && Leaves(ps, test, body, Config(Enter(k), m), n)
    requires var s := SetNext(ps, k, m); var first := if test == Before then 2 else 1;
             && (test == Before ==> !ps[k].until(s.store))
             && first + a <= n && Run(ps, test, body, Config(Enter(k), m), first) == Config(Inward(ps, k), s)
             && Inner(ps, test, body, k, s, f).Done?
             && Run(ps, test, body, Config(Inward(ps, k), s), a) == Config(Behind(test, k), Inner(ps, test, body, k, s, f).m)
    ensures Loop(Block(ps, test, k), body, m, fuel).Done? && used <= n
    ensures Run(ps, test, body, Config(Enter(k), m), used) == Config(Outward(test, k), Loop(Block(ps, test, k), body, m, fuel).m)
    decreases n, |ps| - k, 0
  {
    hide Exec, Inner, Run, Loop, Leaves, Block;
    var s := SetNext(ps, k, m);
    var enter := Config(Enter(k), m);
    var first := if test == Before then 2 else 1;
    var x := Inner(ps, test, body, k, s, f).m;
    RunAdds(ps, test, body, enter, first, a);
    var at := first + a;
    Turn(ps, test, body, k, m, f);
    NotYet(ps, test, body, enter, n, at);
    OneMore(ps, test, body, enter, at);
    if test == After && ps[k].until(x.store) {
      fuel, used := f + 1, at + 1;
      LoopTurn(Block(ps, test, k), body, m, fuel);
    } else {
      if test == After {
        NotYet(ps, test, body, enter, n, at + 1);
        OneMore(ps, test, body, enter, at + 1);
        at := at + 1;
      }
      var again := Config(Enter(k), Stepped(ps[k], x));
      LeavesLater(ps, test, body, enter, n, again, at + 1);
      var g, b := LoopEnds(ps, test, body, k, Stepped(ps[k], x), n - (at + 1));
      RunAdds(ps, test, body, enter, at + 1, b);
      fuel, used := (if f < g then g else f) + 1, at + 1 + b;
      InnerMoreFuel(ps, test, body, k, s, f, fuel - 1);
      Turn(ps, test, body, k, m, fuel - 1);
      LoopMoreFuel(Block(ps, test, k), body, Stepped(ps[k], x), g, fuel - 1);
      LoopTurn(Block(ps, test, k), body, m, fuel);
    }
  }

  lemma {:induction false} InnerMoreFuel<S>(ps: seq<Phrase<S>>, test: Test, body: S -> S, k: nat, m: Memory<S>, fuel: nat, more: nat)
    requires k < |ps| && fuel <= more && Inner(ps, test, body, k, m, fuel).Done?
    ensures Inner(ps, test, body, k, m, more) == Inner(ps, test, body, k, m, fuel)
  {
    if k + 1 < |ps| { LoopMoreFuel(Block(ps, test, k + 1), body, m, fuel, more); }
  }

  // --- The statement -----------------------------------------------------------------------------------

  ghost predicate CodeEnds<S>(ps: seq<Phrase<S>>, test: Test, body: S -> S, m: Memory<S>, last: Memory<S>)
    requires ps != []
  {
    exists fuel: nat :: Exec(EmitPerform(ps, test), body, m, fuel) == Done(last)
  }

  ghost predicate FlowEnds<S>(ps: seq<Phrase<S>>, test: Test, body: S -> S, m: Memory<S>, last: Memory<S>)
    requires ps != []
  {
    exists n: nat :: Run(ps, test, body, Start(ps, m), n) == Config(Out, last)
  }

  lemma {:induction false} StatementIsLoop<S>(ps: seq<Phrase<S>>, test: Test, body: S -> S, m: Memory<S>, fuel: nat)
    requires ps != []
    ensures Exec(EmitPerform(ps, test), body, m, fuel) == Loop(Block(ps, test, 0), body, Start(ps, m).m, fuel)
  {
    hide Exec;
    ExecConcat(Set(ps[0]), EmitUntil(ps, test, 0), body, m, fuel);
    ExecSet(ps[0], body, m, fuel);
    ExecForever(Block(ps, test, 0), body, Start(ps, m).m, fuel);
  }

  lemma {:induction false} ExecForever<S>(block: seq<Code<S>>, body: S -> S, m: Memory<S>, fuel: nat)
    ensures Exec([Forever(block)], body, m, fuel) == Loop(block, body, m, fuel)
  {
    assert [Forever(block)][1..] == [];
  }

  /** For phrases to any depth and both kinds of test: the emitted loops end with a store, after running
      the body on certain stores, exactly when the flowchart does. */
  lemma {:induction false} LoopsAreFlowchart<S>(ps: seq<Phrase<S>>, test: Test, body: S -> S, m: Memory<S>, last: Memory<S>)
    requires ps != []
    ensures CodeEnds(ps, test, body, m, last) <==> FlowEnds(ps, test, body, m, last)
  {
    hide Exec, Loop, Run, Block;
    var s := Start(ps, m).m;
    if CodeEnds(ps, test, body, m, last) {
      var fuel: nat :| Exec(EmitPerform(ps, test), body, m, fuel) == Done(last);
      StatementIsLoop(ps, test, body, m, fuel);
      var n := LoopRuns(ps, test, body, 0, s, fuel);
    }
    if FlowEnds(ps, test, body, m, last) {
      var n: nat :| Run(ps, test, body, Start(ps, m), n) == Config(Out, last);
      assert Leaves(ps, test, body, Config(Enter(0), s), n);
      var fuel, used := LoopEnds(ps, test, body, 0, s, n);
      RunAdds(ps, test, body, Start(ps, m), used, n - used);
      StaysOut(ps, test, body, Run(ps, test, body, Start(ps, m), used), n - used);
      StatementIsLoop(ps, test, body, m, fuel);
    }
  }

  lemma {:induction false} StaysOut<S>(ps: seq<Phrase<S>>, test: Test, body: S -> S, c: Config<S>, n: nat)
    requires c.at == Out
    ensures Run(ps, test, body, c, n) == c
    decreases n
  {
    if n > 0 { StaysOut(ps, test, body, c, n - 1); }
  }

  // --- Setting every variable first ----------------------------------------------------------------------

  function SetFrom<S>(ps: seq<Phrase<S>>, k: nat, m: Memory<S>): Memory<S>
    decreases |ps| - k
  {
    if k >= |ps| then m else SetFrom(ps, k + 1, if ps[k].named then Apply(ps[k].init, m) else m)
  }

  /** TEST BEFORE with all variables set before the first condition; after that a variable is set again
      when the one before it has been stepped. */
  function MoveSetFirst<S>(ps: seq<Phrase<S>>, body: S -> S, c: Config<S>): Config<S> {
    match c.at
    case Enter(_) => c
    case Ask(k) =>
      if k >= |ps| then c
      else if ps[k].until(c.m.store) then Config(Outward(Before, k), c.m)
      else Config(if k + 1 < |ps| then Ask(k + 1) else AtBody, c.m)
    case AtBody => if |ps| == 0 then c else Config(Step(|ps| - 1), Perform(body, c.m))
    case Step(k) => if k >= |ps| then c else Config(Ask(k), SetNext(ps, k, Stepped(ps[k], c.m)))
    case Out => c
  }

  function RunSetFirst<S>(ps: seq<Phrase<S>>, body: S -> S, c: Config<S>, n: nat): Config<S>
    decreases n
  {
    if n == 0 then c else RunSetFirst(ps, body, MoveSetFirst(ps, body, c), n - 1)
  }

  ghost predicate SetFirstEnds<S>(ps: seq<Phrase<S>>, body: S -> S, m: Memory<S>, last: Memory<S>) {
    exists n: nat :: RunSetFirst(ps, body, Config(Ask(0), SetFrom(ps, 0, m)), n) == Config(Out, last)
  }

  /** Behind the setting of the inner variable. */
  function Past<S>(ps: seq<Phrase<S>>, c: Config<S>): Config<S> {
    if c.at.Enter? then Config(Ask(c.at.k), SetNext(ps, c.at.k, c.m)) else c
  }

  lemma {:induction false} PastRuns<S>(ps: seq<Phrase<S>>, body: S -> S, c: Config<S>, n: nat) returns (u: nat)
    requires 0 < |ps| <= 2 && Run(ps, Before, body, c, n).at == Out
    ensures RunSetFirst(ps, body, Past(ps, c), u) == Run(ps, Before, body, c, n)
    decreases n
  {
    if n == 0 {
      u := 0;
    } else {
      var next := Move(ps, Before, body, c);
      u := PastRuns(ps, body, next, n - 1);
      if !c.at.Enter? {
        assert MoveSetFirst(ps, body, c) == Past(ps, next);
        u := u + 1;
      }
    }
  }

  lemma {:induction false} RunsPast<S>(ps: seq<Phrase<S>>, body: S -> S, c: Config<S>, u: nat) returns (n: nat)
    requires 0 < |ps| <= 2 && RunSetFirst(ps, body, Past(ps, c), u).at == Out
    ensures Run(ps, Before, body, c, n) == RunSetFirst(ps, body, Past(ps, c), u)
    decreases u, if c.at.Enter? then 1 else 0
  {
    if c.at == Out {
      n := 0;
      OutSetFirst(ps, body, c, u);
    } else if c.at.Enter? {
      n := RunsPast(ps, body, Past(ps, c), u);
      n := n + 1;
    } else {
      var next := Move(ps, Before, body, c);
      assert MoveSetFirst(ps, body, c) == Past(ps, next);
      n := RunsPast(ps, body, next, u - 1);
      n := n + 1;
    }
  }

  lemma {:induction false} OutSetFirst<S>(ps: seq<Phrase<S>>, body: S -> S, c: Config<S>, n: nat)
    requires c.at == Out
    ensures RunSetFirst(ps, body, c, n) == c
    decreases n
  {
    if n > 0 { OutSetFirst(ps, body, c, n - 1); }
  }

  /** With stores that hold a value for each variable: setting all of them first makes no difference. */
  ghost predicate OrderNeverMatters(depth: nat)
    requires depth > 0
  {
    forall ps: seq<Phrase<seq<int>>>, body: seq<int> -> seq<int>, m, last :: |ps| == depth ==>
      (FlowEnds(ps, Before, body, m, last) <==> SetFirstEnds(ps, body, m, last))
  }

  lemma {:induction false} UpToTwo<S>(ps: seq<Phrase<S>>, body: S -> S, m: Memory<S>, last: Memory<S>)
    requires 0 < |ps| <= 2
    ensures FlowEnds(ps, Before, body, m, last) <==> SetFirstEnds(ps, body, m, last)
  {
    hide Run, RunSetFirst;
    var c := Start(ps, m);
    assert SetFrom(ps, 0, m) == SetFrom(ps, 1, c.m);
    assert SetFrom(ps, |ps|, SetNext(ps, 0, c.m)) == SetNext(ps, 0, c.m);
    assert Past(ps, c) == Config(Ask(0), SetFrom(ps, 0, m));
    if FlowEnds(ps, Before, body, m, last) {
      var n: nat :| Run(ps, Before, body, c, n) == Config(Out, last);
      var u := PastRuns(ps, body, c, n);
    }
    if SetFirstEnds(ps, body, m, last) {
      var u: nat :| RunSetFirst(ps, body, Config(Ask(0), SetFrom(ps, 0, m)), u) == Config(Out, last);
      var n := RunsPast(ps, body, c, u);
    }
  }

  /** A statement whose first condition holds at once, and which would set the variable of a third
      phrase to 1. */
  function Idle(depth: nat): seq<Phrase<seq<int>>> {
    seq(depth, k => Phrase(true, (s: seq<int>) => if k == 2 then [1] else s, (s: seq<int>) => true, true, (s: seq<int>) => s))
  }

  lemma {:induction false} IdleSets(depth: nat, k: nat, m: Memory<seq<int>>)
    requires k <= depth
    ensures SetFrom(Idle(depth), k, m).store == if k <= 2 < depth then [1] else m.store
    decreases depth - k
  {
    if k < depth { IdleSets(depth, k + 1, Apply(Idle(depth)[k].init, m)); }
  }

  /** The emitted code differs from setting every variable first exactly from three phrases on: the third
      variable is set only when the second loop is entered. */
  lemma {:induction false} OrderMattersFromThree(depth: nat)
    requires depth > 0
    ensures OrderNeverMatters(depth) <==> depth <= 2
  {
    if depth <= 2 {
      forall ps: seq<Phrase<seq<int>>>, body: seq<int> -> seq<int>, m, last | |ps| == depth
        ensures FlowEnds(ps, Before, body, m, last) <==> SetFirstEnds(ps, body, m, last)
      {
        UpToTwo(ps, body, m, last);
      }
    } else {
      IdleDiffers(depth);
    }
  }

  lemma {:induction false} IdleDiffers(depth: nat)
    requires depth >= 3
    ensures !OrderNeverMatters(depth)
  {
    var ps := Idle(depth);
    var m: Memory<seq<int>> := Memory([], []);
    var body := (s: seq<int>) => s;
    var c := Start(ps, m);
    assert Run(ps, Before, body, c, 2) == Run(ps, Before, body, Move(ps, Before, body, c), 1) == Config(Out, m);
    assert FlowEnds(ps, Before, body, m, m);
    IdleSets(depth, 0, m);
    var s := Config(Ask(0), SetFrom(ps, 0, m));
    forall n: nat ensures RunSetFirst(ps, body, s, n) != Config(Out, m) {
      if n > 0 { OutSetFirst(ps, body, MoveSetFirst(ps, body, s), n - 1); }
    }
    assert !SetFirstEnds(ps, body, m, m);
  }
}
