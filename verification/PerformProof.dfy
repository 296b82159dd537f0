/** The emitted frame-stack code simulates the control-stack machine, statement by statement,
    in both dialects, under both dispatch schemes, and for every choice of labels and exit tests
    that covers the labels referred to. */
module PerformProof {
  import opened PerformSource
  import opened PerformCode

  ghost function EmitterAt<S>(prog: seq<Stmt<S>>, o: Options, e0: Emitter, i: nat): Emitter
    requires i <= |prog|
  {
    Emit(prog[..i], o, e0).1
  }

  /** Where the code of statement i starts. */
  ghost function Addr<S>(prog: seq<Stmt<S>>, o: Options, e0: Emitter, i: nat): nat
    requires i <= |prog|
  {
    |Emit(prog[..i], o, e0).0|
  }

  /** What the parser hands to code generation: label identifiers come from the same counter and
      are older than every call's, and need_begin and need_return cover what is referred to. */
  ghost predicate Ready<S>(prog: seq<Stmt<S>>, o: Options, e0: Emitter) {
    && WellFormed(prog) && e0.cache == [] && e0.cbId > 0
    && (forall i :: 0 <= i < |prog| && prog[i].Begin? ==> prog[i].id < e0.cbId)
    && (forall i :: 0 <= i < |prog| && prog[i].Branch? ==> prog[i].target in o.needBegin)
    && (forall i :: 0 <= i < |prog| && prog[i].Perform? ==> prog[i].lb in o.needBegin && prog[i].le in o.needReturn)
  }

  ghost function Compiled<S>(prog: seq<Stmt<S>>, o: Options, e0: Emitter): Code<S> {
    var r := Emit(prog, o, e0);
    Code(r.0, o.dialect, o.dispatch, r.1.cache)
  }

  // --- Where things are in the emitted code --------------------------------------------------

  lemma {:induction false} EmitPrefix<S>(prog: seq<Stmt<S>>, o: Options, e0: Emitter, i: nat)
    requires i <= |prog|
    ensures Addr(prog, o, e0, i) <= |Emit(prog, o, e0).0|
    ensures Emit(prog, o, e0).0[..Addr(prog, o, e0, i)] == Emit(prog[..i], o, e0).0
    decreases |prog|
  {
    if i == |prog| {
      assert prog[..i] == prog;
    } else {
      var init := prog[..|prog| - 1];
      EmitPrefix(init, o, e0, i);
      assert init[..i] == prog[..i];
    }
  }

  lemma {:induction false} BlockAt<S>(prog: seq<Stmt<S>>, o: Options, e0: Emitter, i: nat)
    requires i < |prog|
    ensures var block := EmitStmt(prog[i], o, EmitterAt(prog, o, e0, i)).0;
            var code := Emit(prog, o, e0).0;
            var a := Addr(prog, o, e0, i);
            && Addr(prog, o, e0, i + 1) == a + |block| <= |code|
            && (forall j :: 0 <= j < |block| ==> code[a + j] == block[j])
            && (block != [] ==> code[a] == block[0])
  {
    hide EmitStmt;
    EmitPrefix(prog, o, e0, i + 1);
    EmitNext(prog, o, e0, i);
    hide Emit;
    var code := Emit(prog, o, e0).0;
    var a := Addr(prog, o, e0, i);
    var block := EmitStmt(prog[i], o, EmitterAt(prog, o, e0, i)).0;
    var upto := Emit(prog[..i + 1], o, e0).0;
    forall j | 0 <= j < |block| ensures code[a + j] == block[j] {
      assert code[..|upto|][a + j] == upto[a + j];
    }
    if block != [] { assert code[a + 0] == block[0]; }
  }

  lemma {:induction false} EmitNext<S>(prog: seq<Stmt<S>>, o: Options, e0: Emitter, i: nat)
    requires i < |prog|
    ensures Emit(prog[..i + 1], o, e0).0 == Emit(prog[..i], o, e0).0 + EmitStmt(prog[i], o, EmitterAt(prog, o, e0, i)).0
  {
    hide EmitStmt;
    assert prog[..i + 1][..i] == prog[..i];
  }

  ghost predicate LabelsFresh<S>(code: seq<Instr<S>>, prog: seq<Stmt<S>>, lo: nat, hi: nat) {
    forall a :: 0 <= a < |code| && code[a].Label? ==>
      || lo <= code[a].n < hi
      || (code[a].n < lo && exists i :: 0 <= i < |prog| && prog[i].Begin? && prog[i].id == code[a].n)
  }

  ghost predicate LabelsDistinct<S>(code: seq<Instr<S>>) {
    forall a, b :: 0 <= a < b < |code| && code[a].Label? && code[b].Label? ==> code[a].n != code[b].n
  }

  /** No C label is defined twice: statement labels and call labels share one counter. */
  lemma {:induction false} LabelsOnce<S>(prog: seq<Stmt<S>>, o: Options, e0: Emitter)
    requires forall i, j :: 0 <= i < j < |prog| && prog[i].Begin? && prog[j].Begin? ==> prog[i].id != prog[j].id
    requires forall i :: 0 <= i < |prog| && prog[i].Begin? ==> prog[i].id < e0.cbId
    ensures var r := Emit(prog, o, e0);
            e0.cbId <= r.1.cbId && LabelsFresh(r.0, prog, e0.cbId, r.1.cbId) && LabelsDistinct(r.0)
    decreases |prog|
  {
    if prog != [] {
      hide LabelsFresh, LabelsDistinct;
      var init, x := prog[..|prog| - 1], prog[|prog| - 1];
      LabelsOnce(init, o, e0);
      var before := Emit(init, o, e0);
      var last := EmitStmt(x, o, before.1);
      assert prog == init + [x];
      StmtLabels(x, o, before.1);
      FreshNext(before.0, last.0, init, x, e0.cbId, before.1.cbId, last.1.cbId);
      DistinctNext(before.0, last.0, init, x, e0.cbId, before.1.cbId, last.1.cbId);
    } else {
      assert Emit(prog, o, e0).0 == [];
    }
  }

  /** The labels of one statement: its own, or numbers from the counter. */
  ghost predicate NewLabels<S>(code: seq<Instr<S>>, x: Stmt<S>, lo: nat, hi: nat) {
    LabelsDistinct(code) && forall a :: 0 <= a < |code| && code[a].Label? ==> (x.Begin? && code[a].n == x.id) || lo <= code[a].n < hi
  }

  lemma {:induction false} StmtLabels<S>(x: Stmt<S>, o: Options, e: Emitter)
    ensures var r := EmitStmt(x, o, e); e.cbId <= r.1.cbId && NewLabels(r.0, x, e.cbId, r.1.cbId)
  {
  }

  lemma {:induction false} FreshNext<S>(before: seq<Instr<S>>, last: seq<Instr<S>>, init: seq<Stmt<S>>, x: Stmt<S>, lo: nat, mid: nat, hi: nat)
    requires LabelsFresh(before, init, lo, mid) && NewLabels(last, x, mid, hi) && lo <= mid <= hi && (x.Begin? ==> x.id < lo)
    ensures LabelsFresh(before + last, init + [x], lo, hi)
  {
    hide LabelsDistinct;
    var code, prog := before + last, init + [x];
    forall a | 0 <= a < |code| && code[a].Label?
      ensures lo <= code[a].n < hi || (code[a].n < lo && exists i :: 0 <= i < |prog| && prog[i].Begin? && prog[i].id == code[a].n)
    {
      if a < |before| {
        if code[a].n < lo {
          var i :| 0 <= i < |init| && init[i].Begin? && init[i].id == before[a].n;
          assert prog[i] == init[i];
        }
      } else {
        assert code[a] == last[a - |before|];
        if code[a].n < mid { assert prog[|init|] == x; }
      }
    }
  }

  lemma {:induction false} DistinctNext<S>(before: seq<Instr<S>>, last: seq<Instr<S>>, init: seq<Stmt<S>>, x: Stmt<S>, lo: nat, mid: nat, hi: nat)
    requires LabelsFresh(before, init, lo, mid) && LabelsDistinct(before) && NewLabels(last, x, mid, hi) && lo <= mid
    requires x.Begin? ==> x.id < lo && forall i :: 0 <= i < |init| && init[i].Begin? ==> init[i].id != x.id
    ensures LabelsDistinct(before + last)
  {
    var code := before + last;
    forall a, b | 0 <= a < b < |code| && code[a].Label? && code[b].Label? ensures code[a].n != code[b].n {
      if b >= |before| {
        assert code[b] == last[b - |before|];
        if a < |before| {
          assert code[a] == before[a];
        } else {
          assert code[a] == last[a - |before|];
        }
      }
    }
  }

  lemma {:induction false} FindsLabel<S>(prog: seq<Stmt<S>>, o: Options, e0: Emitter, a: nat)
    requires Ready(prog, o, e0)
    requires a < |Emit(prog, o, e0).0| && Emit(prog, o, e0).0[a].Label?
    ensures FindLabel(Emit(prog, o, e0).0, Emit(prog, o, e0).0[a].n) == a
  {
    LabelsOnce(prog, o, e0);
    var code := Emit(prog, o, e0).0;
    var b := FindLabel(code, code[a].n);
  }

  lemma {:induction false} FindsBegin<S>(prog: seq<Stmt<S>>, o: Options, e0: Emitter, id: nat)
    requires Ready(prog, o, e0) && id in o.needBegin && Pos(prog, id) < |prog|
    ensures FindLabel(Emit(prog, o, e0).0, id) == Addr(prog, o, e0, Pos(prog, id)) < |Emit(prog, o, e0).0|
  {
    var i := Pos(prog, id);
    BlockAt(prog, o, e0, i);
    assert EmitStmt(prog[i], o, EmitterAt(prog, o, e0, i)).0 == [Label(id)];
    assert Emit(prog, o, e0).0[Addr(prog, o, e0, i)] == Label(id);
    FindsLabel(prog, o, e0, Addr(prog, o, e0, i));
  }

  lemma {:induction false} CallNumbersGrow<S>(prog: seq<Stmt<S>>, o: Options, e0: Emitter, i: nat, j: nat)
    requires i <= j <= |prog|
    ensures NextCall(EmitterAt(prog, o, e0, i).cache) <= NextCall(EmitterAt(prog, o, e0, j).cache)
    decreases j
  {
    if i < j {
      assert prog[..j][..j - 1] == prog[..j - 1];
      CallNumbersGrow(prog, o, e0, i, j - 1);
    }
  }

  /** P_switch takes the call number of statement i to statement i's own label. */
  lemma {:induction false} SwitchFinds<S>(prog: seq<Stmt<S>>, o: Options, e0: Emitter, i: nat, j: nat)
    requires o.dispatch == Switch && i < j <= |prog| && prog[i].Perform?
    ensures SwitchTarget(EmitterAt(prog, o, e0, j).cache, NextCall(EmitterAt(prog, o, e0, i).cache))
         == EmitterAt(prog, o, e0, i).cbId
    decreases j
  {
    assert prog[..j][..j - 1] == prog[..j - 1];
    var e := EmitterAt(prog, o, e0, j - 1);
    assert EmitterAt(prog, o, e0, j) == EmitStmt(prog[j - 1], o, e).1;
    if i < j - 1 {
      SwitchFinds(prog, o, e0, i, j - 1);
      assert prog[..i + 1][..i] == prog[..i];
      CallNumbersGrow(prog, o, e0, i + 1, j - 1);
      if prog[j - 1].Perform? {
        var now := EmitterAt(prog, o, e0, j).cache;
        assert now[1..] == e.cache;
      }
    }
  }

  /** The return address stored by the call at statement i leads back into it, to its label. */
  lemma {:induction false} FindsReturn<S>(prog: seq<Stmt<S>>, o: Options, e0: Emitter, i: nat)
    requires Ready(prog, o, e0) && i < |prog| && prog[i].Perform?
    ensures var code := Compiled(prog, o, e0);
            var e := EmitterAt(prog, o, e0, i);
            && ReturnLabel(code, ReturnCode(o.dispatch, e)) == e.cbId
            && FindLabel(code.instrs, e.cbId) == Addr(prog, o, e0, i) + 4 < |code.instrs|
  {
    hide Emit, EmitStmt, Ready, FindLabel, SwitchTarget;
    if o.dispatch == Switch {
      assert prog[..|prog|] == prog;
      SwitchFinds(prog, o, e0, i, |prog|);
    }
    CallReturns(prog, o, e0, i);
    FindsLabel(prog, o, e0, Addr(prog, o, e0, i) + 4);
  }

  /** The last two instructions of a call. */
  lemma {:induction false} CallReturns<S>(prog: seq<Stmt<S>>, o: Options, e0: Emitter, i: nat)
    requires i < |prog| && prog[i].Perform?
    ensures var code := Emit(prog, o, e0).0; var a := Addr(prog, o, e0, i);
            && a + 6 == Addr(prog, o, e0, i + 1) <= |code|
            && code[a + 4] == Label(EmitterAt(prog, o, e0, i).cbId) && code[a + 5] == PopFrame
  {
    hide Emit;
    BlockAt(prog, o, e0, i);
    var block := EmitStmt(prog[i], o, EmitterAt(prog, o, e0, i)).0;
    assert |block| == 6;
    var code := Emit(prog, o, e0).0;
    var a := Addr(prog, o, e0, i);
    assert code[a + 4] == block[4] && code[a + 5] == block[5];
  }

  // --- Simulation ----------------------------------------------------------------------------

  /** frame_stack[0 .. |ctl|) holds exactly the control stack. */
  ghost predicate FramesHold<S>(prog: seq<Stmt<S>>, o: Options, e0: Emitter, ctl: seq<Activation>, frames: seq<Activation>) {
    && 1 <= |ctl| <= |frames|
    && ctl[0].through == frames[0].through == 0
    && forall k :: 1 <= k < |ctl| ==>
         && 1 <= ctl[k].ret <= |prog|
         && frames[k] == Activation(ctl[k].through, ReturnCode(o.dispatch, EmitterAt(prog, o, e0, ctl[k].ret - 1)))
  }

  ghost predicate Rel<S>(prog: seq<Stmt<S>>, o: Options, e0: Emitter, limit: nat, src: State<S>, m: Machine<S>) {
    match src
    case Running(pc, ctl, s) =>
      && m.At? && m.store == s
      && pc <= |prog| && m.pc == Addr(prog, o, e0, pc)
      && Reachable(prog, limit, ctl) && |ctl| <= limit
      && m.fp == |ctl| - 1 && |m.frames| == limit + 1
      && FramesHold(prog, o, e0, ctl, m.frames)
    case Halted(s) => m == Left(s)
    case Overflow(s) => m == StackOverflow(s)
  }

  /** A scan sees only perform_through, so it finds the same activation in the frame stack. */
  lemma {:induction false} ScanSame(a: seq<Activation>, b: seq<Activation>, t: nat, id: nat)
    requires t < |a| <= |b| && forall k :: 0 <= k < |a| ==> a[k].through == b[k].through
    ensures Scan(a, t, id) == Scan(b, t, id)
    decreases t
  {
    if t > 0 { ScanSame(a, b, t - 1, id); }
  }

  lemma {:induction false} EndedSame<S>(prog: seq<Stmt<S>>, o: Options, e0: Emitter, ctl: seq<Activation>, frames: seq<Activation>, id: nat)
    requires FramesHold(prog, o, e0, ctl, frames)
    ensures Ended(o.dialect, frames[..|ctl|], id) == Ended(o.dialect, ctl, id)
  {
    var top := frames[..|ctl|];
    forall k | 0 <= k < |ctl| ensures ctl[k].through == top[k].through {
      if k > 0 { assert frames[k].through == ctl[k].through; }
    }
    ScanSame(ctl, top, |ctl| - 1, id);
  }

  /** Every activation an exit can end is one that some PERFORM pushed, so its label has an exit
      test: leaving out the others changes nothing. */
  lemma {:induction false} EndedIsNeeded<S>(prog: seq<Stmt<S>>, o: Options, e0: Emitter, limit: nat, ctl: seq<Activation>, id: nat)
    requires Ready(prog, o, e0) && Reachable(prog, limit, ctl) && id > 0
    requires Ended(o.dialect, ctl, id) > 0
    ensures id in o.needReturn
    ensures ctl[Ended(o.dialect, ctl, id)].through == id
  {
    ScanTopmost(ctl, |ctl| - 1, id);
  }

  /** The OSVS scan from t: it stops at the base, or at the topmost frame that ends at id. */
  lemma {:induction false} ScanTopmost(ctl: seq<Activation>, t: nat, id: nat)
    requires t < |ctl| && id > 0 && ctl[0].through == 0
    requires forall k :: 1 <= k <= t ==> ctl[k].through > 0
    ensures var k := Scan(ctl, t, id);
            && (k > 0 ==> ctl[k].through == id)
            && (forall j :: k < j <= t ==> ctl[j].through != id)
            && (k == 0 <==> forall j :: 0 <= j <= t ==> ctl[j].through != id)
    decreases t
  {
    if t > 0 && ctl[t].through != id { ScanTopmost(ctl, t - 1, id); }
  }

  lemma {:induction false} StraightStep<S>(prog: seq<Stmt<S>>, o: Options, e0: Emitter, limit: nat, src: State<S>, m: Machine<S>)
    requires Ready(prog, o, e0) && Rel(prog, o, e0, limit, src, m) && src.Running?
    requires src.pc >= |prog| || prog[src.pc].Act? || prog[src.pc].Branch? || prog[src.pc].Stop?
    ensures Rel(prog, o, e0, limit, Step(prog, o.dialect, limit, src), Exec(Compiled(prog, o, e0), limit, m))
  {
    hide Emit, Reachable, FramesHold, Ended, Scan;
    if src.pc >= |prog| {
      assert prog[..|prog|] == prog;
    } else {
      var x := prog[src.pc];
      BlockAt(prog, o, e0, src.pc);
      var block := EmitStmt(x, o, EmitterAt(prog, o, e0, src.pc)).0;
      assert |block| == 1 && Emit(prog, o, e0).0[m.pc] == block[0];
      if x.Branch? { FindsBegin(prog, o, e0, x.target); }
    }
  }

  lemma {:induction false} CallStep<S>(prog: seq<Stmt<S>>, o: Options, e0: Emitter, limit: nat, src: State<S>, m: Machine<S>)
    returns (k: nat)
    requires Ready(prog, o, e0) && Rel(prog, o, e0, limit, src, m) && src.Running?
    requires src.pc < |prog| && prog[src.pc].Perform?
    ensures k > 0
    ensures Rel(prog, o, e0, limit, Step(prog, o.dialect, limit, src), ExecN(Compiled(prog, o, e0), limit, m, k))
  {
    hide Emit, Reachable, Ended, Scan, Exec, ExecN, Ready, WellFormed;
    var code := Compiled(prog, o, e0);
    var x := prog[src.pc];
    var e := EmitterAt(prog, o, e0, src.pc);
    CallAt(prog, o, e0, src.pc);
    if |src.ctl| >= limit {
      k := 1;
      CallOverflows(code, limit, m);
    } else {
      CallTarget(prog, o, e0, src.pc);
      CallEnters(code, limit, m, x.lb, x.le, ReturnCode(o.dispatch, e));
      StepKeepsReachable(prog, o.dialect, limit, src);
      var next := Step(prog, o.dialect, limit, src);
      k := 4;
      assert forall j :: 0 <= j < |src.ctl| ==> next.ctl[j] == src.ctl[j];
    }
  }

  /** The first four instructions of a call. */
  lemma {:induction false} CallAt<S>(prog: seq<Stmt<S>>, o: Options, e0: Emitter, i: nat)
    requires i < |prog| && prog[i].Perform?
    ensures var code := Compiled(prog, o, e0).instrs; var a := Addr(prog, o, e0, i);
            && a + 3 < |code| && code[a] == PushFrame && code[a + 1] == SetThrough(prog[i].le)
            && code[a + 2] == SetReturn(ReturnCode(o.dispatch, EmitterAt(prog, o, e0, i))) && code[a + 3] == Goto(prog[i].lb)
  {
    hide Emit;
    BlockAt(prog, o, e0, i);
    var e := EmitterAt(prog, o, e0, i);
    var block: seq<Instr<S>> := CallCode(o.dispatch, e, prog[i].lb, prog[i].le);
    assert EmitStmt(prog[i], o, e).0 == block && |block| == 6;
    var code := Emit(prog, o, e0).0;
    var a := Addr(prog, o, e0, i);
    assert code[a + 0] == block[0] && code[a + 1] == block[1] && code[a + 2] == block[2] && code[a + 3] == block[3];
  }

  lemma {:induction false} CallTarget<S>(prog: seq<Stmt<S>>, o: Options, e0: Emitter, i: nat)
    requires Ready(prog, o, e0) && i < |prog| && prog[i].Perform?
    ensures var code := Compiled(prog, o, e0).instrs;
            Pos(prog, prog[i].lb) < |prog| && FindLabel(code, prog[i].lb) == Addr(prog, o, e0, Pos(prog, prog[i].lb)) < |code|
  {
    hide Emit;
    FindsBegin(prog, o, e0, prog[i].lb);
  }

  lemma {:induction false} CallOverflows<S>(code: Code<S>, limit: nat, m: Machine<S>)
    requires m.At? && m.fp < |m.frames| && m.pc < |code.instrs| && code.instrs[m.pc] == PushFrame && m.fp + 1 == limit
    ensures ExecN(code, limit, m, 1) == StackOverflow(m.store)
  {
    assert ExecN(code, limit, m, 1) == ExecN(code, limit, Exec(code, limit, m), 0);
  }

  /** Entering a call: a new frame with the end and the return address, and on to the first label. */
  lemma {:induction false} CallEnters<S>(code: Code<S>, limit: nat, m: Machine<S>, lb: nat, le: nat, ret: nat)
    requires m.At? && m.fp + 1 < |m.frames| && m.fp + 1 != limit && m.pc + 3 < |code.instrs|
    requires code.instrs[m.pc] == PushFrame && code.instrs[m.pc + 1] == SetThrough(le)
    requires code.instrs[m.pc + 2] == SetReturn(ret) && code.instrs[m.pc + 3] == Goto(lb)
    requires FindLabel(code.instrs, lb) < |code.instrs|
    ensures ExecN(code, limit, m, 4) == At(FindLabel(code.instrs, lb), m.fp + 1, m.frames[m.fp + 1 := Activation(le, ret)], m.store)
  {
    hide ExecN, Exec, FindLabel;
    FourSteps(code, limit, m);
    var fp := m.fp + 1;
    var m2 := At(m.pc + 2, fp, m.frames[fp := m.frames[fp].(through := le)], m.store);
    CallSetsUp(code, limit, m, le);
    CallJumps(code, limit, m2, ret, lb);
    assert m2.frames[fp := Activation(le, ret)] == m.frames[fp := Activation(le, ret)];
  }

  lemma {:induction false} CallSetsUp<S>(code: Code<S>, limit: nat, m: Machine<S>, le: nat)
    requires m.At? && m.fp + 1 < |m.frames| && m.fp + 1 != limit && m.pc + 1 < |code.instrs|
    requires code.instrs[m.pc] == PushFrame && code.instrs[m.pc + 1] == SetThrough(le)
    ensures var fp := m.fp + 1;
            Exec(code, limit, Exec(code, limit, m)) == At(m.pc + 2, fp, m.frames[fp := m.frames[fp].(through := le)], m.store)
  {
    hide FindLabel, Ended;
    assert Exec(code, limit, m) == At(m.pc + 1, m.fp + 1, m.frames, m.store);
  }

  lemma {:induction false} CallJumps<S>(code: Code<S>, limit: nat, m: Machine<S>, ret: nat, lb: nat)
    requires m.At? && m.fp < |m.frames| && m.pc + 1 < |code.instrs|
    requires code.instrs[m.pc] == SetReturn(ret) && code.instrs[m.pc + 1] == Goto(lb) && FindLabel(code.instrs, lb) < |code.instrs|
    ensures Exec(code, limit, Exec(code, limit, m))
         == At(FindLabel(code.instrs, lb), m.fp, m.frames[m.fp := m.frames[m.fp].(ret := ret)], m.store)
  {
    hide FindLabel, Ended;
    assert Exec(code, limit, m) == At(m.pc + 1, m.fp, m.frames[m.fp := m.frames[m.fp].(ret := ret)], m.store);
  }

  lemma {:induction false} FourSteps<S>(code: Code<S>, limit: nat, m: Machine<S>)
    ensures ExecN(code, limit, m, 4) == Exec(code, limit, Exec(code, limit, Exec(code, limit, Exec(code, limit, m))))
  {
    hide Exec;
    var m2 := Exec(code, limit, Exec(code, limit, m));
    assert ExecN(code, limit, m2, 2) == Exec(code, limit, Exec(code, limit, m2));
  }

  lemma {:induction false} ExitStep<S>(prog: seq<Stmt<S>>, o: Options, e0: Emitter, limit: nat, src: State<S>, m: Machine<S>)
    returns (k: nat)
    requires Ready(prog, o, e0) && Rel(prog, o, e0, limit, src, m) && src.Running?
    requires src.pc < |prog| && prog[src.pc].Exit?
    ensures k == 0 ==> Step(prog, o.dialect, limit, src) == src.(pc := src.pc + 1)
    ensures Rel(prog, o, e0, limit, Step(prog, o.dialect, limit, src), ExecN(Compiled(prog, o, e0), limit, m, k))
  {
    var id := prog[src.pc].id;
    if Ended(o.dialect, src.ctl, id) == 0 {
      k := PassExit(prog, o, e0, limit, src, m);
    } else {
      EndedSame(prog, o, e0, src.ctl, m.frames, id);
      EndedIsNeeded(prog, o, e0, limit, src.ctl, id);
      BlockAt(prog, o, e0, src.pc);
      assert EmitStmt(prog[src.pc], o, EmitterAt(prog, o, e0, src.pc)).0 == [CheckExit(id)];
      ReturnStep(prog, o, e0, limit, src, m, Ended(o.dialect, src.ctl, id));
      k := 3;
    }
  }

  /** An exit that ends nothing falls through, whether or not its test was emitted. */
  lemma {:induction false} PassExit<S>(prog: seq<Stmt<S>>, o: Options, e0: Emitter, limit: nat, src: State<S>, m: Machine<S>)
    returns (k: nat)
    requires Ready(prog, o, e0) && Rel(prog, o, e0, limit, src, m) && src.Running?
    requires src.pc < |prog| && prog[src.pc].Exit? && Ended(o.dialect, src.ctl, prog[src.pc].id) == 0
    ensures Step(prog, o.dialect, limit, src) == src.(pc := src.pc + 1)
    ensures Rel(prog, o, e0, limit, src.(pc := src.pc + 1), ExecN(Compiled(prog, o, e0), limit, m, k))
  {
    hide Emit, Reachable, FramesHold, WellFormed, Ready, Scan;
    var code := Compiled(prog, o, e0);
    var id := prog[src.pc].id;
    BlockAt(prog, o, e0, src.pc);
    k := 0;
    if id in o.needReturn {
      EndedSame(prog, o, e0, src.ctl, m.frames, id);
      assert EmitStmt(prog[src.pc], o, EmitterAt(prog, o, e0, src.pc)).0 == [CheckExit(id)];
      var m1 := Exec(code, limit, m);
      assert m1 == m.(pc := m.pc + 1);
      assert ExecN(code, limit, m, 1) == ExecN(code, limit, m1, 0);
      k := 1;
    }
  }

  lemma {:induction false} ReturnStep<S>(prog: seq<Stmt<S>>, o: Options, e0: Emitter, limit: nat, src: State<S>, m: Machine<S>, j: nat)
    requires Ready(prog, o, e0) && Rel(prog, o, e0, limit, src, m) && src.Running?
    requires src.pc < |prog| && prog[src.pc].Exit? && m.pc < |Compiled(prog, o, e0).instrs|
    requires Compiled(prog, o, e0).instrs[m.pc] == CheckExit(prog[src.pc].id)
    requires 0 < j == Ended(o.dialect, src.ctl, prog[src.pc].id) == Ended(o.dialect, m.frames[..m.fp + 1], prog[src.pc].id)
    ensures Rel(prog, o, e0, limit, Step(prog, o.dialect, limit, src), ExecN(Compiled(prog, o, e0), limit, m, 3))
  {
    hide Emit, EmitStmt, Scan, Ended, Ready, WellFormed, FindLabel, Exec, ExecN, SwitchTarget, ReturnLabel;
    var code := Compiled(prog, o, e0);
    var call := src.ctl[j].ret - 1;
    FindsReturn(prog, o, e0, call);
    var a := Addr(prog, o, e0, call);
    var m1 := At(a + 4, j, m.frames, m.store);
    ExitJumps(code, limit, m, prog[src.pc].id, EmitterAt(prog, o, e0, call).cbId);
    LeaveCall(prog, o, e0, limit, call, m1);
    ExecSplit(code, limit, m, 1, 2);
    StepKeepsReachable(prog, o.dialect, limit, src);
    var next := Step(prog, o.dialect, limit, src);
    assert next == Running(call + 1, src.ctl[..j], src.store);
    assert forall i :: 0 <= i < j ==> next.ctl[i] == src.ctl[i];
  }

  /** An exit test that succeeds: frame_ptr moves to the frame found, and control to its label. */
  lemma {:induction false} ExitJumps<S>(code: Code<S>, limit: nat, m: Machine<S>, id: nat, label0: nat)
    requires m.At? && m.fp < |m.frames| && m.pc < |code.instrs| && code.instrs[m.pc] == CheckExit(id)
    requires var k := Ended(code.dialect, m.frames[..m.fp + 1], id);
             k > 0 && ReturnLabel(code, m.frames[k].ret) == label0
    requires FindLabel(code.instrs, label0) < |code.instrs|
    ensures ExecN(code, limit, m, 1)
         == At(FindLabel(code.instrs, label0), Ended(code.dialect, m.frames[..m.fp + 1], id), m.frames, m.store)
  {
    assert ExecN(code, limit, m, 1) == ExecN(code, limit, Exec(code, limit, m), 0);
  }

  /** From the return label of a call: frame_ptr-- and on to the next statement. */
  lemma {:induction false} LeaveCall<S>(prog: seq<Stmt<S>>, o: Options, e0: Emitter, limit: nat, call: nat, m: Machine<S>)
    requires call < |prog| && prog[call].Perform?
    requires m.At? && m.pc == Addr(prog, o, e0, call) + 4 && 0 < m.fp < |m.frames|
    ensures ExecN(Compiled(prog, o, e0), limit, m, 2) == m.(pc := Addr(prog, o, e0, call + 1), fp := m.fp - 1)
  {
    hide Emit, EmitStmt;
    var code := Compiled(prog, o, e0);
    CallReturns(prog, o, e0, call);
    var m2 := Exec(code, limit, m);
    var m3 := Exec(code, limit, m2);
    assert ExecN(code, limit, m2, 1) == ExecN(code, limit, m3, 0);
  }

  /** One statement: the emitted code reaches the related state in k steps, and k is 0 only where
      a label or an exit test was left out, which just falls through to the next statement. */
  lemma {:induction false} SimulateStep<S>(prog: seq<Stmt<S>>, o: Options, e0: Emitter, limit: nat, src: State<S>, m: Machine<S>)
    returns (k: nat)
    requires Ready(prog, o, e0) && Rel(prog, o, e0, limit, src, m)
    ensures k == 0 && src.Running? ==> Step(prog, o.dialect, limit, src) == src.(pc := src.pc + 1) && src.pc < |prog|
    ensures Rel(prog, o, e0, limit, Step(prog, o.dialect, limit, src), ExecN(Compiled(prog, o, e0), limit, m, k))
  {
    var code := Compiled(prog, o, e0);
    if !src.Running? {
      k := 0;
    } else if src.pc < |prog| && prog[src.pc].Perform? {
      k := CallStep(prog, o, e0, limit, src, m);
    } else if src.pc < |prog| && prog[src.pc].Exit? {
      k := ExitStep(prog, o, e0, limit, src, m);
    } else if src.pc < |prog| && prog[src.pc].Begin? {
      BlockAt(prog, o, e0, src.pc);
      var block := EmitStmt(prog[src.pc], o, EmitterAt(prog, o, e0, src.pc)).0;
      k := |block|;
      if k == 1 {
        assert code.instrs[m.pc] == block[0];
        assert ExecN(code, limit, m, 1) == ExecN(code, limit, Exec(code, limit, m), 0);
      }
    } else {
      StraightStep(prog, o, e0, limit, src, m);
      k := 1;
      assert ExecN(code, limit, m, 1) == ExecN(code, limit, Exec(code, limit, m), 0);
    }
  }
}
