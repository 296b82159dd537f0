/** The control part of a PROCEDURE DIVISION, and what PERFORM means.

    A program is the flat statement list the parser leaves in exec_list: section and paragraph
    labels, CB_PERFORM_EXIT markers, PERFORM lb THRU le, conditional and unconditional GO TO, and
    everything else as an opaque change of the store.

    Two independent semantics are given and proved to agree: a small-step machine with a control
    stack, and a big-step evaluator in which PERFORM simply runs from its first label until the
    exit of its last label is met at its own activation. */
module PerformSource {

  datatype Stmt<!S> =
    | Act(f: S -> S)
    | Branch(c: S -> bool, target: nat)   // IF c GO TO target; GO TO is the constant-true case
    | Begin(id: nat)                      // section or paragraph label
    | Perform(lb: nat, le: nat)           // PERFORM lb THRU le
    | Exit(id: nat)                       // end of the section or paragraph
    | Stop

  /** cb_perform_osvs: whether an exit also looks at the older activations. */
  datatype Dialect = Default | Osvs

  /** One pending PERFORM: the label whose exit ends it, and the statement to resume at. */
  datatype Activation = Activation(through: nat, ret: nat)

  datatype State<S> =
    | Running(pc: nat, ctl: seq<Activation>, store: S)
    | Halted(store: S)
    | Overflow(store: S)

  /** Index of the label in the program, or its length when there is none. */
  function Pos<S>(prog: seq<Stmt<S>>, id: nat): (p: nat)
    ensures p <= |prog|
    ensures p < |prog| ==> prog[p].Begin? && prog[p].id == id
  {
    if prog == [] then 0
    else if prog[0].Begin? && prog[0].id == id then 0
    else 1 + Pos(prog[1..], id)
  }

  /** What name resolution and cb_id guarantee: identifiers are positive, no label is defined
      twice, and every referenced label exists. */
  ghost predicate WellFormed<S>(prog: seq<Stmt<S>>) {
    && (forall i, j :: 0 <= i < j < |prog| && prog[i].Begin? && prog[j].Begin? ==> prog[i].id != prog[j].id)
    && (forall i :: 0 <= i < |prog| && prog[i].Begin? ==> prog[i].id > 0)
    && (forall i :: 0 <= i < |prog| && prog[i].Exit? ==> prog[i].id > 0)
    && (forall i :: 0 <= i < |prog| && prog[i].Branch? ==> Pos(prog, prog[i].target) < |prog|)
    && (forall i :: 0 <= i < |prog| && prog[i].Perform? ==> Pos(prog, prog[i].lb) < |prog| && prog[i].le > 0)
  }

  // --- Small-step machine ------------------------------------------------------------------

  /** The downward scan of an OSVS exit: the topmost activation at or below t that ends at id,
      or 0 when the scan meets the base activation first. */
  function Scan(ctl: seq<Activation>, t: nat, id: nat): (k: nat)
    requires t < |ctl|
    ensures k <= t
  {
    if ctl[t].through == 0 then 0
    else if ctl[t].through == id then t
    else if t == 0 then 0
    else Scan(ctl, t - 1, id)
  }

  /** The activation that an exit of id ends, 0 for none. */
  function Ended(dialect: Dialect, ctl: seq<Activation>, id: nat): (k: nat)
    requires |ctl| > 0
    ensures k < |ctl|
  {
    var top := |ctl| - 1;
    if dialect == Osvs then Scan(ctl, top, id)
    else if ctl[top].through == id then top else 0
  }

  /** Where a statement that neither starts nor ends an activation leads, and what it stores. */
  function Next<S>(prog: seq<Stmt<S>>, pc: nat, s: S): (nat, S)
    requires pc < |prog|
  {
    match prog[pc]
    case Act(f) => (pc + 1, f(s))
    case Branch(c, target) => (if c(s) then Pos(prog, target) else pc + 1, s)
    case _ => (pc + 1, s)
  }

  function Step<S>(prog: seq<Stmt<S>>, dialect: Dialect, limit: nat, st: State<S>): State<S> {
    if !st.Running? || st.ctl == [] then st
    else if st.pc >= |prog| || prog[st.pc].Stop? then Halted(st.store)
    else if prog[st.pc].Perform? then
      if |st.ctl| >= limit then Overflow(st.store)
      else Running(Pos(prog, prog[st.pc].lb), st.ctl + [Activation(prog[st.pc].le, st.pc + 1)], st.store)
    else
      var k := if prog[st.pc].Exit? then Ended(dialect, st.ctl, prog[st.pc].id) else 0;
      if k > 0 then Running(st.ctl[k].ret, st.ctl[..k], st.store)
      else var next := Next(prog, st.pc, st.store); Running(next.0, st.ctl, next.1)
  }

  function Run<S>(prog: seq<Stmt<S>>, dialect: Dialect, limit: nat, st: State<S>, n: nat): State<S>
    decreases n
  {
    if n == 0 then st else Run(prog, dialect, limit, Step(prog, dialect, limit, st), n - 1)
  }

  /** Every control stack that a run can build: the base activation ends at no label, and each
      activation above it was pushed by the PERFORM just before its resume point. */
  ghost predicate Reachable<S>(prog: seq<Stmt<S>>, limit: nat, ctl: seq<Activation>) {
    && 1 <= |ctl| && (|ctl| <= limit || |ctl| == 1)
    && ctl[0].through == 0
    && forall k :: 1 <= k < |ctl| ==>
         && 1 <= ctl[k].ret <= |prog|
         && prog[ctl[k].ret - 1].Perform?
         && prog[ctl[k].ret - 1].le == ctl[k].through
  }

  lemma {:induction false} StepKeepsReachable<S>(prog: seq<Stmt<S>>, dialect: Dialect, limit: nat, st: State<S>)
    requires st.Running? && Reachable(prog, limit, st.ctl)
    ensures var next := Step(prog, dialect, limit, st); next.Running? ==> Reachable(prog, limit, next.ctl)
  {
    var next := Step(prog, dialect, limit, st);
    if next.Running? {
      forall k | 1 <= k < |next.ctl|
        ensures 1 <= next.ctl[k].ret <= |prog| && prog[next.ctl[k].ret - 1].Perform?
                && prog[next.ctl[k].ret - 1].le == next.ctl[k].through
      {
        if k < |st.ctl| { assert next.ctl[k] == st.ctl[k]; }
      }
    }
  }

  /** Whole runs: the base activation is never popped, in either dialect. */
  lemma {:induction false} RunKeepsBase<S>(prog: seq<Stmt<S>>, dialect: Dialect, limit: nat, st: State<S>, n: nat)
    requires st.Running? ==> Reachable(prog, limit, st.ctl)
    ensures var end := Run(prog, dialect, limit, st, n);
            if st.Running? then end.Running? ==> Reachable(prog, limit, end.ctl) && end.ctl[0] == st.ctl[0]
            else end == st
    decreases n
  {
    if n > 0 {
      var next := Step(prog, dialect, limit, st);
      if st.Running? { StepKeepsReachable(prog, dialect, limit, st); }
      RunKeepsBase(prog, dialect, limit, next, n - 1);
    }
  }

  lemma {:induction false} RunSplit<S>(prog: seq<Stmt<S>>, dialect: Dialect, limit: nat, st: State<S>, m: nat, n: nat)
    ensures Run(prog, dialect, limit, st, m + n) == Run(prog, dialect, limit, Run(prog, dialect, limit, st, m), n)
    decreases m
  {
    if m > 0 { RunSplit(prog, dialect, limit, Step(prog, dialect, limit, st), m - 1, n); }
  }

  // --- Big-step meaning --------------------------------------------------------------------

  datatype Outcome<S> = Returned(store: S) | Ends(store: S) | Overflows(store: S) | OutOfFuel

  /** Runs from pc inside an activation that the exit of `through` ends, with `depth` activations
      below it. The exit of any other label is passed over. */
  function Eval<S>(prog: seq<Stmt<S>>, limit: nat, pc: nat, through: nat, depth: nat, s: S, fuel: nat): Outcome<S>
    decreases fuel
  {
    if fuel == 0 then OutOfFuel
    else if pc >= |prog| || prog[pc].Stop? then Ends(s)
    else if prog[pc].Perform? then
      if depth + 1 >= limit then Overflows(s)
      else
        var body := Eval(prog, limit, Pos(prog, prog[pc].lb), prog[pc].le, depth + 1, s, fuel - 1);
        if body.Returned? then Eval(prog, limit, pc + 1, through, depth, body.store, fuel - 1) else body
    else if prog[pc].Exit? && prog[pc].id == through then Returned(s)
    else
      var next := Next(prog, pc, s);
      Eval(prog, limit, next.0, through, depth, next.1, fuel - 1)
  }

  lemma {:induction false} EvalMonotone<S>(prog: seq<Stmt<S>>, limit: nat, pc: nat, through: nat, depth: nat, s: S,
                        fuel: nat, more: nat)
    requires fuel <= more
    requires !Eval(prog, limit, pc, through, depth, s, fuel).OutOfFuel?
    ensures Eval(prog, limit, pc, through, depth, s, more) == Eval(prog, limit, pc, through, depth, s, fuel)
    decreases fuel
  {
    if pc >= |prog| || prog[pc].Stop? || (prog[pc].Exit? && prog[pc].id == through) {
    } else if prog[pc].Perform? {
      if depth + 1 < limit {
        EvalMonotone(prog, limit, Pos(prog, prog[pc].lb), prog[pc].le, depth + 1, s, fuel - 1, more - 1);
        var body := Eval(prog, limit, Pos(prog, prog[pc].lb), prog[pc].le, depth + 1, s, fuel - 1);
        if body.Returned? { EvalMonotone(prog, limit, pc + 1, through, depth, body.store, fuel - 1, more - 1); }
      }
    } else {
      var next := Next(prog, pc, s);
      EvalMonotone(prog, limit, next.0, through, depth, next.1, fuel - 1, more - 1);
    }
  }

  // --- Agreement of the two ----------------------------------------------------------------

  /** The machine, stopped as soon as at most d activations are left: the state it stops in after
      at most n steps, and how many it took. */
  function RunAbove<S>(prog: seq<Stmt<S>>, limit: nat, d: nat, st: State<S>, n: nat): (r: (State<S>, nat))
    ensures r.1 <= n
    ensures r.0.Running? && |r.0.ctl| > d ==> r.1 == n
    decreases n
  {
    if n == 0 || !st.Running? || |st.ctl| <= d then (st, 0)
    else
      var rest := RunAbove(prog, limit, d, Step(prog, Default, limit, st), n - 1);
      (rest.0, rest.1 + 1)
  }

  lemma {:induction false} RunAboveIsRun<S>(prog: seq<Stmt<S>>, limit: nat, d: nat, st: State<S>, n: nat)
    ensures var r := RunAbove(prog, limit, d, st, n); r.0 == Run(prog, Default, limit, st, r.1)
    decreases n
  {
    if n > 0 && st.Running? && |st.ctl| > d {
      RunAboveIsRun(prog, limit, d, Step(prog, Default, limit, st), n - 1);
    }
  }

  /** Stopping one activation earlier and going on is the same run. */
  lemma {:induction false} RunAboveVia<S>(prog: seq<Stmt<S>>, limit: nat, d: nat, e: nat, st: State<S>, n: nat)
    requires d <= e
    ensures var inner := RunAbove(prog, limit, e, st, n);
            var outer := RunAbove(prog, limit, d, inner.0, n - inner.1);
            RunAbove(prog, limit, d, st, n) == (outer.0, inner.1 + outer.1)
    decreases n
  {
    if n > 0 && st.Running? && |st.ctl| > e {
      RunAboveVia(prog, limit, d, e, Step(prog, Default, limit, st), n - 1);
    }
  }

  /** While more than d activations are left the lowest d are untouched, and the step that leaves
      exactly d of them resumes where activation d says. */
  lemma {:induction false} RunAboveFrame<S>(prog: seq<Stmt<S>>, limit: nat, d: nat, st: State<S>, n: nat)
    requires st.Running? && d >= 1 && |st.ctl| > d && Reachable(prog, limit, st.ctl)
    ensures var end := RunAbove(prog, limit, d, st, n).0;
            end.Running? ==>
              && d <= |end.ctl| && end.ctl[..d] == st.ctl[..d]
              && (|end.ctl| > d ==> end.ctl[d] == st.ctl[d])
              && (|end.ctl| == d ==> end.pc == st.ctl[d].ret)
    decreases n
  {
    if n > 0 {
      var next := Step(prog, Default, limit, st);
      StepKeepsReachable(prog, Default, limit, st);
      if next.Running? {
        assert next.ctl[..d] == st.ctl[..d];
        if |next.ctl| > d { RunAboveFrame(prog, limit, d, next, n - 1); }
      }
    }
  }

  /** The statement at pc stays inside the activation that `through` ends. */
  predicate Moves<S>(prog: seq<Stmt<S>>, pc: nat, through: nat) {
    pc < |prog| && !prog[pc].Stop? && !prog[pc].Perform? && !(prog[pc].Exit? && prog[pc].id == through)
  }

  /** How a stopped run reads as an outcome of the activation above `rest`. */
  ghost predicate Reads<S>(end: State<S>, rest: seq<Activation>, ret: nat, o: Outcome<S>) {
    match o
    case Returned(s) => end == Running(ret, rest, s)
    case Ends(s) => end == Halted(s)
    case Overflows(s) => end == Overflow(s)
    case OutOfFuel => false
  }

  /** Big-step to small-step: whenever the evaluator has an outcome, the machine reaches it. */
  lemma {:induction false} EvalIsRun<S>(prog: seq<Stmt<S>>, limit: nat, pc: nat, rest: seq<Activation>, a: Activation, s: S, fuel: nat)
    returns (n: nat)
    requires WellFormed(prog) && rest != [] && Reachable(prog, limit, rest + [a])
    requires !Eval(prog, limit, pc, a.through, |rest|, s, fuel).OutOfFuel?
    ensures Reads(RunAbove(prog, limit, |rest|, Running(pc, rest + [a], s), n).0, rest, a.ret,
                  Eval(prog, limit, pc, a.through, |rest|, s, fuel))
    decreases fuel
  {
    var st := Running(pc, rest + [a], s);
    var d := |rest|;
    if pc < |prog| && prog[pc].Perform? && d + 1 < limit {
      n := PerformIsRun(prog, limit, pc, rest, a, s, fuel);
    } else if Moves(prog, pc, a.through) {
      var next := Next(prog, pc, s);
      assert Step(prog, Default, limit, st) == Running(next.0, rest + [a], next.1);
      var m := EvalIsRun(prog, limit, next.0, rest, a, next.1, fuel - 1);
      n := m + 1;
    } else {
      assert (rest + [a])[..d] == rest;
      n := 1;
      var next := Step(prog, Default, limit, st);
      assert RunAbove(prog, limit, d, next, 0) == (next, 0);
    }
  }

  lemma {:induction false} PerformIsRun<S>(prog: seq<Stmt<S>>, limit: nat, pc: nat, rest: seq<Activation>, a: Activation, s: S, fuel: nat)
    returns (n: nat)
    requires WellFormed(prog) && rest != [] && Reachable(prog, limit, rest + [a])
    requires pc < |prog| && prog[pc].Perform? && |rest| + 1 < limit && fuel > 0
    requires !Eval(prog, limit, pc, a.through, |rest|, s, fuel).OutOfFuel?
    ensures Reads(RunAbove(prog, limit, |rest|, Running(pc, rest + [a], s), n).0, rest, a.ret,
                  Eval(prog, limit, pc, a.through, |rest|, s, fuel))
    decreases fuel, 0
  {
    hide Reachable, WellFormed, Pos, Next, Scan, Ended;
    var d := |rest|;
    var st := Running(pc, rest + [a], s);
    var b := Activation(prog[pc].le, pc + 1);
    var start := Running(Pos(prog, prog[pc].lb), rest + [a] + [b], s);
    StepKeepsReachable(prog, Default, limit, st);
    assert Step(prog, Default, limit, st) == start;
    var body := Eval(prog, limit, start.pc, b.through, d + 1, s, fuel - 1);
    var m1 := EvalIsRun(prog, limit, start.pc, rest + [a], b, s, fuel - 1);
    var mid := RunAbove(prog, limit, d + 1, start, m1);
    if body.Returned? {
      var m2 := EvalIsRun(prog, limit, pc + 1, rest, a, body.store, fuel - 1);
      RunAboveEnough(prog, limit, d + 1, start, m1, mid.1 + m2);
      RunAboveVia(prog, limit, d, d + 1, start, mid.1 + m2);
      n := mid.1 + m2 + 1;
    } else {
      RunAboveVia(prog, limit, d, d + 1, start, m1);
      n := m1 + 1;
    }
  }

  /** A run that has stopped does not change when it is given more steps, or only those it took. */
  lemma {:induction false} RunAboveEnough<S>(prog: seq<Stmt<S>>, limit: nat, d: nat, st: State<S>, n: nat, m: nat)
    requires var end := RunAbove(prog, limit, d, st, n); m >= end.1 && (!end.0.Running? || |end.0.ctl| <= d)
    ensures RunAbove(prog, limit, d, st, m) == RunAbove(prog, limit, d, st, n)
    decreases n
  {
    if n > 0 && st.Running? && |st.ctl| > d {
      RunAboveEnough(prog, limit, d, Step(prog, Default, limit, st), n - 1, m - 1);
    }
  }

  /** Small-step to big-step: whenever the machine leaves the activation or stops within n steps,
      the evaluator with that much fuel (and one more) has just that outcome. */
  lemma {:induction false} RunIsEval<S>(prog: seq<Stmt<S>>, limit: nat, pc: nat, rest: seq<Activation>, a: Activation, s: S, n: nat)
    requires WellFormed(prog) && rest != [] && Reachable(prog, limit, rest + [a])
    requires var end := RunAbove(prog, limit, |rest|, Running(pc, rest + [a], s), n).0;
             !end.Running? || |end.ctl| <= |rest|
    ensures Reads(RunAbove(prog, limit, |rest|, Running(pc, rest + [a], s), n).0, rest, a.ret,
                  Eval(prog, limit, pc, a.through, |rest|, s, n))
    decreases n
  {
    var st := Running(pc, rest + [a], s);
    var d := |rest|;
    if pc < |prog| && prog[pc].Perform? && d + 1 < limit {
      RunIsPerform(prog, limit, pc, rest, a, s, n);
    } else if Moves(prog, pc, a.through) {
      var next := Next(prog, pc, s);
      assert Step(prog, Default, limit, st) == Running(next.0, rest + [a], next.1);
      RunIsEval(prog, limit, next.0, rest, a, next.1, n - 1);
    } else {
      assert (rest + [a])[..d] == rest;
      var next := Step(prog, Default, limit, st);
      assert RunAbove(prog, limit, d, next, n - 1) == (next, 0);
    }
  }

  /** A PERFORM splits the rest of the run at the point where its own activation is gone. */
  lemma {:induction false} RunThroughBody<S>(prog: seq<Stmt<S>>, limit: nat, d: nat, st: State<S>, start: State<S>, n: nat)
    requires n > 0 && st.Running? && d < |st.ctl| && start == Step(prog, Default, limit, st)
    ensures var inner := RunAbove(prog, limit, d + 1, start, n - 1);
            var outer := RunAbove(prog, limit, d, inner.0, n - 1 - inner.1);
            && RunAbove(prog, limit, d, st, n).0 == outer.0
            && (!outer.0.Running? || |outer.0.ctl| <= d ==> !inner.0.Running? || |inner.0.ctl| <= d + 1)
  {
    RunAboveVia(prog, limit, d, d + 1, start, n - 1);
  }

  lemma {:induction false} RunIsPerform<S>(prog: seq<Stmt<S>>, limit: nat, pc: nat, rest: seq<Activation>, a: Activation, s: S, n: nat)
    requires WellFormed(prog) && rest != [] && Reachable(prog, limit, rest + [a])
    requires pc < |prog| && prog[pc].Perform? && |rest| + 1 < limit && n > 0
    requires var end := RunAbove(prog, limit, |rest|, Running(pc, rest + [a], s), n).0;
             !end.Running? || |end.ctl| <= |rest|
    ensures Reads(RunAbove(prog, limit, |rest|, Running(pc, rest + [a], s), n).0, rest, a.ret,
                  Eval(prog, limit, pc, a.through, |rest|, s, n))
    decreases n, 0
  {
    hide Reachable, WellFormed, Pos, Next;
    var d := |rest|;
    var up := rest + [a];
    var st := Running(pc, up, s);
    var b := Activation(prog[pc].le, pc + 1);
    var start := Running(Pos(prog, prog[pc].lb), up + [b], s);
    assert Step(prog, Default, limit, st) == start;
    StepKeepsReachable(prog, Default, limit, st);
    RunThroughBody(prog, limit, d, st, start, n);
    var inner := RunAbove(prog, limit, |up|, start, n - 1);
    RunIsEval(prog, limit, start.pc, up, b, s, n - 1);
    var body := Eval(prog, limit, start.pc, b.through, d + 1, s, n - 1);
    if body.Returned? {
      var resumed := Running(pc + 1, up, body.store);
      assert inner.0 == resumed;
      assert inner.1 > 0;
      RunIsEval(prog, limit, pc + 1, rest, a, body.store, n - 1 - inner.1);
      EvalMonotone(prog, limit, pc + 1, a.through, d, body.store, n - 1 - inner.1, n - 1);
    }
  }
}
