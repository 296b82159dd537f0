/** PERFORM compilation over whole runs: correctness against the big-step meaning, the base frame,
    the two optimisations, and what OSVS exits change. */
module PerformTheorems {
  import opened PerformSource
  import opened PerformCode
  import opened PerformProof

  // --- Whole runs ----------------------------------------------------------------------------

  lemma {:induction false} SimulateRun<S>(prog: seq<Stmt<S>>, o: Options, e0: Emitter, limit: nat, src: State<S>, m: Machine<S>, n: nat)
    returns (k: nat)
    requires Ready(prog, o, e0) && Rel(prog, o, e0, limit, src, m)
    ensures Rel(prog, o, e0, limit, Run(prog, o.dialect, limit, src, n), ExecN(Compiled(prog, o, e0), limit, m, k))
    decreases n
  {
    k := 0;
    if n > 0 {
      var j := SimulateStep(prog, o, e0, limit, src, m);
      var rest := SimulateRun(prog, o, e0, limit, Step(prog, o.dialect, limit, src),
                              ExecN(Compiled(prog, o, e0), limit, m, j), n - 1);
      ExecSplit(Compiled(prog, o, e0), limit, m, j, rest);
      k := j + rest;
    }
  }

  lemma {:induction false} StoppedStays<S>(code: Code<S>, limit: nat, m: Machine<S>, k: nat)
    requires !m.At?
    ensures ExecN(code, limit, m, k) == m
    decreases k
  {
    if k > 0 { StoppedStays(code, limit, m, k - 1); }
  }

  /** The other direction: however far the emitted code runs, it runs on to a state related to the
      source run, because only finitely many statements in a row emit nothing. */
  lemma {:induction false} CoverRun<S>(prog: seq<Stmt<S>>, o: Options, e0: Emitter, limit: nat, src: State<S>, m: Machine<S>, least: nat)
    returns (n: nat, k: nat)
    requires Ready(prog, o, e0) && Rel(prog, o, e0, limit, src, m)
    ensures k >= least
    ensures Rel(prog, o, e0, limit, Run(prog, o.dialect, limit, src, n), ExecN(Compiled(prog, o, e0), limit, m, k))
    decreases least, if src.Running? then |prog| - src.pc else 0
  {
    n, k := 0, 0;
    if least > 0 {
      if !src.Running? {
        k := least;
        StoppedStays(Compiled(prog, o, e0), limit, m, k);
      } else {
        var j := SimulateStep(prog, o, e0, limit, src, m);
        var n', k' := CoverRun(prog, o, e0, limit, Step(prog, o.dialect, limit, src),
                               ExecN(Compiled(prog, o, e0), limit, m, j), if j >= least then 0 else least - j);
        ExecSplit(Compiled(prog, o, e0), limit, m, j, k');
        n, k := n' + 1, j + k';
      }
    }
  }

  /** How the generated function starts: frame_ptr at frame_stack[0], whose perform_through is 0;
      the other cells hold anything. */
  ghost predicate Start<S>(limit: nat, s: S, m: Machine<S>) {
    m.At? && m.pc == 0 && m.fp == 0 && m.store == s && |m.frames| == limit + 1 && m.frames[0].through == 0
  }

  ghost function Entry<S>(s: S): State<S> {
    Running(0, [Activation(0, 0)], s)
  }

  lemma {:induction false} StartRelated<S>(prog: seq<Stmt<S>>, o: Options, e0: Emitter, limit: nat, s: S, m: Machine<S>)
    requires limit > 0 && Start(limit, s, m)
    ensures Rel(prog, o, e0, limit, Entry(s), m)
  {
    assert prog[..0] == [];
  }

  /** Over any run of the generated code: no jump is ever undefined, no return address unknown, and
      the base frame is never popped. */
  lemma {:induction false} NeverBroken<S>(prog: seq<Stmt<S>>, o: Options, e0: Emitter, limit: nat, s: S, m: Machine<S>, k: nat)
    requires Ready(prog, o, e0) && limit > 0 && Start(limit, s, m)
    ensures !ExecN(Compiled(prog, o, e0), limit, m, k).Broken?
  {
    StartRelated(prog, o, e0, limit, s, m);
    var n, k' := CoverRun(prog, o, e0, limit, Entry(s), m, k);
    var code := Compiled(prog, o, e0);
    ExecSplit(code, limit, m, k, k' - k);
    if ExecN(code, limit, m, k).Broken? { StoppedStays(code, limit, ExecN(code, limit, m, k), k' - k); }
  }

  // --- PERFORM against its big-step meaning --------------------------------------------------

  ghost function Inside<S>(prog: seq<Stmt<S>>, pc: nat, ctl: seq<Activation>, s: S): State<S>
    requires pc < |prog| && prog[pc].Perform?
  {
    Running(Pos(prog, prog[pc].lb), ctl + [Activation(prog[pc].le, pc + 1)], s)
  }

  lemma {:induction false} EnterCall<S>(prog: seq<Stmt<S>>, o: Options, e0: Emitter, limit: nat,
                     pc: nat, ctl: seq<Activation>, s: S, m: Machine<S>)
    returns (j: nat)
    requires Ready(prog, o, e0) && pc < |prog| && prog[pc].Perform? && |ctl| < limit
    requires Rel(prog, o, e0, limit, Running(pc, ctl, s), m)
    ensures ctl != [] && Reachable(prog, limit, Inside(prog, pc, ctl, s).ctl)
    ensures Rel(prog, o, e0, limit, Inside(prog, pc, ctl, s), ExecN(Compiled(prog, o, e0), limit, m, j))
  {
    var src := Running(pc, ctl, s);
    assert Step(prog, o.dialect, limit, src) == Inside(prog, pc, ctl, s);
    StepKeepsReachable(prog, o.dialect, limit, src);
    j := SimulateStep(prog, o, e0, limit, src, m);
  }

  lemma {:induction false} SameFrames<S>(prog: seq<Stmt<S>>, o: Options, e0: Emitter,
                      c1: seq<Activation>, f1: seq<Activation>, c2: seq<Activation>, f2: seq<Activation>, n: nat)
    requires FramesHold(prog, o, e0, c1, f1) && FramesHold(prog, o, e0, c2, f2)
    requires n <= |c1| && n <= |c2| && forall i :: 0 <= i < n ==> c1[i] == c2[i]
    ensures forall i :: 1 <= i < n ==> f1[i] == f2[i]
  {
  }

  /** The emitted code for a PERFORM that its meaning says returns: control comes to just after the
      call, frame_ptr is back, every frame up to it is unchanged, and the store is the one the body
      leaves. A body that ends the program or overflows the stack does so in the code as well. */
  lemma {:induction false} PerformCorrect<S>(prog: seq<Stmt<S>>, o: Options, e0: Emitter, limit: nat,
                          pc: nat, ctl: seq<Activation>, s: S, m: Machine<S>, fuel: nat)
    returns (k: nat)
    requires Ready(prog, o, e0) && o.dialect == Default
    requires pc < |prog| && prog[pc].Perform? && |ctl| < limit
    requires Rel(prog, o, e0, limit, Running(pc, ctl, s), m)
    requires !Eval(prog, limit, Pos(prog, prog[pc].lb), prog[pc].le, |ctl|, s, fuel).OutOfFuel?
    ensures var end := ExecN(Compiled(prog, o, e0), limit, m, k);
            match Eval(prog, limit, Pos(prog, prog[pc].lb), prog[pc].le, |ctl|, s, fuel)
            case Returned(s') =>
              && end.At? && end.pc == Addr(prog, o, e0, pc + 1) && end.fp == m.fp && end.store == s'
              && |end.frames| == |m.frames| && end.frames[0].through == m.frames[0].through
              && forall j :: 1 <= j <= m.fp ==> end.frames[j] == m.frames[j]
            case Ends(s') => end == Left(s')
            case Overflows(s') => end == StackOverflow(s')
            case OutOfFuel => false
  {
    hide Exec, ExecN, Run, RunAbove, Step, Eval, WellFormed, Emit, Pos;
    var b := Activation(prog[pc].le, pc + 1);
    var inner := Inside(prog, pc, ctl, s);
    var j := EnterCall(prog, o, e0, limit, pc, ctl, s, m);
    var n := EvalIsRun(prog, limit, inner.pc, ctl, b, s, fuel);
    RunAboveIsRun(prog, limit, |ctl|, inner, n);
    var r := RunAbove(prog, limit, |ctl|, inner, n);
    var k1 := SimulateRun(prog, o, e0, limit, inner, ExecN(Compiled(prog, o, e0), limit, m, j), r.1);
    ExecSplit(Compiled(prog, o, e0), limit, m, j, k1);
    k := j + k1;
  }

  ghost predicate NoOutcome<S>(prog: seq<Stmt<S>>, limit: nat, pc: nat, through: nat, depth: nat, s: S) {
    forall fuel :: Eval(prog, limit, pc, through, depth, s, fuel).OutOfFuel?
  }

  /** And when the meaning gives no outcome at all, the code never comes back: arbitrarily late it is
      still above the frame of the caller, whose frames are all unchanged. */
  lemma {:induction false} PerformDiverges<S>(prog: seq<Stmt<S>>, o: Options, e0: Emitter, limit: nat,
                           pc: nat, ctl: seq<Activation>, s: S, m: Machine<S>, least: nat)
    returns (k: nat)
    requires Ready(prog, o, e0) && o.dialect == Default
    requires pc < |prog| && prog[pc].Perform? && |ctl| < limit
    requires Rel(prog, o, e0, limit, Running(pc, ctl, s), m)
    requires NoOutcome(prog, limit, Pos(prog, prog[pc].lb), prog[pc].le, |ctl|, s)
    ensures k >= least
    ensures var end := ExecN(Compiled(prog, o, e0), limit, m, k);
            end.At? && end.fp > m.fp && |end.frames| == |m.frames| && forall j :: 1 <= j <= m.fp ==> end.frames[j] == m.frames[j]
  {
    hide Exec, ExecN, Run, RunAbove, Step, Eval, WellFormed, Emit, Pos, NoOutcome;
    var b := Activation(prog[pc].le, pc + 1);
    var inner := Inside(prog, pc, ctl, s);
    var j := EnterCall(prog, o, e0, limit, pc, ctl, s, m);
    var n, k1 := CoverRun(prog, o, e0, limit, inner, ExecN(Compiled(prog, o, e0), limit, m, j), least);
    ExecSplit(Compiled(prog, o, e0), limit, m, j, k1);
    k := j + k1;
    StaysAbove(prog, limit, inner.pc, ctl, b, s, n);
    var end := Run(prog, Default, limit, inner, n);
    SameFrames(prog, o, e0, end.ctl, ExecN(Compiled(prog, o, e0), limit, m, k).frames, ctl, m.frames, |ctl|);
  }

  /** An activation without an outcome keeps the machine above its caller for ever. */
  lemma {:induction false} StaysAbove<S>(prog: seq<Stmt<S>>, limit: nat, pc: nat, ctl: seq<Activation>, b: Activation, s: S, n: nat)
    requires WellFormed(prog) && ctl != [] && Reachable(prog, limit, ctl + [b])
    requires NoOutcome(prog, limit, pc, b.through, |ctl|, s)
    ensures var end := Run(prog, Default, limit, Running(pc, ctl + [b], s), n);
            end.Running? && |end.ctl| > |ctl| && forall i :: 0 <= i < |ctl| ==> end.ctl[i] == ctl[i]
  {
    var st := Running(pc, ctl + [b], s);
    var r := RunAbove(prog, limit, |ctl|, st, n);
    var outcome := Eval(prog, limit, pc, b.through, |ctl|, s, n);
    if !r.0.Running? || |r.0.ctl| <= |ctl| {
      RunIsEval(prog, limit, pc, ctl, b, s, n);
      assert false;
    }
    RunAboveFrame(prog, limit, |ctl|, st, n);
    RunAboveIsRun(prog, limit, |ctl|, st, n);
    assert forall i :: 0 <= i < |ctl| ==> r.0.ctl[i] == r.0.ctl[..|ctl|][i] && st.ctl[..|ctl|][i] == ctl[i];
  }

  // --- The two optimisations -----------------------------------------------------------------

  /** Nothing but code addresses tells the two apart. */
  ghost predicate SameView<S>(m1: Machine<S>, m2: Machine<S>) {
    match m1
    case At(_, fp, frames, s) =>
      && m2.At? && m2.fp == fp < |frames| && |m2.frames| == |frames| && m2.store == s
      && forall k :: 0 <= k <= fp ==> frames[k].through == m2.frames[k].through
    case Left(s) => m2 == Left(s)
    case StackOverflow(s) => m2 == StackOverflow(s)
    case Broken(_) => false
  }

  /** Exit tests only for labels that end a THRU, C labels only for labels referred to, and integer
      return codes through P_switch instead of computed gotos: any two such choices run alike,
      however long, from the entry of the program. */
  lemma {:induction false} OptionsRunAlike<S>(prog: seq<Stmt<S>>, o1: Options, o2: Options, e1: Emitter, e2: Emitter, limit: nat, s: S,
                           m1: Machine<S>, m2: Machine<S>, least: nat)
    returns (k1: nat, k2: nat)
    requires o1.dialect == o2.dialect && Ready(prog, o1, e1) && Ready(prog, o2, e2)
    requires limit > 0 && Start(limit, s, m1) && Start(limit, s, m2)
    ensures k1 >= least
    ensures SameView(ExecN(Compiled(prog, o1, e1), limit, m1, k1), ExecN(Compiled(prog, o2, e2), limit, m2, k2))
  {
    StartRelated(prog, o1, e1, limit, s, m1);
    StartRelated(prog, o2, e2, limit, s, m2);
    var n, k := CoverRun(prog, o1, e1, limit, Entry(s), m1, least);
    k1 := k;
    k2 := SimulateRun(prog, o2, e2, limit, Entry(s), m2, n);
    var end := Run(prog, o1.dialect, limit, Entry(s), n);
    if end.Running? {
      var f1 := ExecN(Compiled(prog, o1, e1), limit, m1, k1).frames;
      var f2 := ExecN(Compiled(prog, o2, e2), limit, m2, k2).frames;
      assert FramesHold(prog, o1, e1, end.ctl, f1) && FramesHold(prog, o2, e2, end.ctl, f2);
      forall j | 0 <= j < |end.ctl| ensures f1[j].through == f2[j].through {
        if j > 0 { assert f1[j].through == end.ctl[j].through == f2[j].through; }
      }
    }
  }

  // --- OSVS ----------------------------------------------------------------------------------

  /** The next statement is an exit of a label held by an older activation but not by the newest. */
  ghost predicate CrossesOlder<S>(prog: seq<Stmt<S>>, st: State<S>) {
    && st.Running? && st.pc < |prog| && prog[st.pc].Exit? && st.ctl != []
    && st.ctl[|st.ctl| - 1].through != prog[st.pc].id
    && exists k :: 1 <= k < |st.ctl| && st.ctl[k].through == prog[st.pc].id
  }

  /** In every state a run can reach, an OSVS exit scans down to the base frame at most: it leaves
      frame_ptr alone, or moves it to the topmost frame that ends at the label. */
  lemma {:induction false} OsvsScan<S>(prog: seq<Stmt<S>>, limit: nat, s: S, n: nat, id: nat)
    requires WellFormed(prog) && limit > 0 && id > 0
    ensures var st := Run(prog, Osvs, limit, Entry(s), n);
            st.Running? ==>
              && st.ctl != [] && st.ctl[0].through == 0
              && var k := Ended(Osvs, st.ctl, id);
                 && (k > 0 ==> st.ctl[k].through == id && forall j :: k < j < |st.ctl| ==> st.ctl[j].through != id)
                 && (k == 0 <==> forall j :: 0 <= j < |st.ctl| ==> st.ctl[j].through != id)
  {
    hide Run, Step, WellFormed;
    RunKeepsBase(prog, Osvs, limit, Entry(s), n);
    var st := Run(prog, Osvs, limit, Entry(s), n);
    if st.Running? {
      PushedEndPositive(prog, limit, st.ctl);
      ScanTopmost(st.ctl, |st.ctl| - 1, id);
    }
  }

  lemma {:induction false} PushedEndPositive<S>(prog: seq<Stmt<S>>, limit: nat, ctl: seq<Activation>)
    requires WellFormed(prog) && Reachable(prog, limit, ctl)
    ensures forall k :: 1 <= k < |ctl| ==> ctl[k].through > 0
  {
  }

  /** One step: the dialects differ on exactly these states. */
  lemma {:induction false} DialectsDiffer<S>(prog: seq<Stmt<S>>, limit: nat, st: State<S>)
    requires WellFormed(prog) && st.Running? && Reachable(prog, limit, st.ctl)
    ensures Step(prog, Osvs, limit, st) == Step(prog, Default, limit, st) <==> !CrossesOlder(prog, st)
  {
    hide Ended, Reachable;
    if st.pc < |prog| && prog[st.pc].Exit? {
      ExitsDiffer(prog, limit, st.ctl, prog[st.pc].id);
    }
  }

  lemma {:induction false} ExitsDiffer<S>(prog: seq<Stmt<S>>, limit: nat, ctl: seq<Activation>, id: nat)
    requires WellFormed(prog) && Reachable(prog, limit, ctl) && id > 0
    ensures ctl != [] && Ended(Osvs, ctl, id) < |ctl| && Ended(Default, ctl, id) < |ctl|
    ensures Ended(Osvs, ctl, id) == Ended(Default, ctl, id) <==>
            !(ctl[|ctl| - 1].through != id && exists k :: 1 <= k < |ctl| && ctl[k].through == id)
  {
    PushedEndPositive(prog, limit, ctl);
    hide WellFormed;
    ScanTopmost(ctl, |ctl| - 1, id);
  }

  /** Every run that never crosses the exit of a label held by an older activation is the same run
      in both dialects. */
  lemma {:induction false} DialectsAgree<S>(prog: seq<Stmt<S>>, limit: nat, st: State<S>, n: nat)
    requires WellFormed(prog) && (st.Running? ==> Reachable(prog, limit, st.ctl))
    requires forall i :: 0 <= i < n ==> !CrossesOlder(prog, Run(prog, Osvs, limit, st, i))
    ensures Run(prog, Osvs, limit, st, n) == Run(prog, Default, limit, st, n)
    decreases n
  {
    if n > 0 {
      assert Run(prog, Osvs, limit, st, 0) == st;
      var next := Step(prog, Osvs, limit, st);
      if st.Running? {
        DialectsDiffer(prog, limit, st);
        StepKeepsReachable(prog, Osvs, limit, st);
      }
      forall i | 0 <= i < n - 1 ensures !CrossesOlder(prog, Run(prog, Osvs, limit, next, i)) {
        assert Run(prog, Osvs, limit, next, i) == Run(prog, Osvs, limit, st, i + 1);
      }
      DialectsAgree(prog, limit, next, n - 1);
    }
  }
}
