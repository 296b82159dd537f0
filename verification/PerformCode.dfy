/** The C that output_perform_call, output_perform_exit and the label case of output_stmt emit,
    and a machine for it: a flat instruction list with labels, and the explicit frame stack
    frame_stack[0 .. COB_STACK_SIZE) indexed by frame_ptr. */
module PerformCode {
  import opened PerformSource

  datatype Instr<!S> =
    | DoAct(f: S -> S)
    | IfGoto(c: S -> bool, target: nat)
    | Label(n: nat)               // l_n:
    | PushFrame                   // frame_ptr++; and the overflow check
    | SetThrough(id: nat)         // frame_ptr->perform_through = id
    | SetReturn(code: nat)        // frame_ptr->return_address = &&l_code, or = code
    | Goto(target: nat)
    | PopFrame                    // frame_ptr--
    | CheckExit(id: nat)          // the exit test of label id, in either dialect
    | LeaveProgram

  /** Computed goto stores the label itself; P_switch stores a call number. */
  datatype Dispatch = Computed | Switch

  /** A label_cache entry. */
  datatype Call = Call(id: nat, callNum: nat)

  /** need_begin and need_return are the labels that get a C label and an exit test. */
  datatype Options = Options(dialect: Dialect, dispatch: Dispatch, needBegin: set<nat>, needReturn: set<nat>)

  /** The emitter state that outlives one statement: cb_id and label_cache, newest entry first. */
  datatype Emitter = Emitter(cbId: nat, cache: seq<Call>)

  function NextCall(cache: seq<Call>): nat {
    if cache == [] then 0 else cache[0].callNum + 1
  }

  /** What the call at emitter state e stores as its return address. */
  function ReturnCode(dispatch: Dispatch, e: Emitter): nat {
    if dispatch == Computed then e.cbId else NextCall(e.cache)
  }

  function CallCode<S>(dispatch: Dispatch, e: Emitter, lb: nat, le: nat): seq<Instr<S>> {
    [PushFrame, SetThrough(le), SetReturn(ReturnCode(dispatch, e)), Goto(lb), Label(e.cbId), PopFrame]
  }

  function AfterCall(dispatch: Dispatch, e: Emitter): Emitter {
    Emitter(e.cbId + 1, if dispatch == Computed then e.cache else [Call(e.cbId, NextCall(e.cache))] + e.cache)
  }

  function EmitStmt<S>(x: Stmt<S>, o: Options, e: Emitter): (seq<Instr<S>>, Emitter) {
    match x
    case Act(f) => ([DoAct(f)], e)
    case Branch(c, target) => ([IfGoto(c, target)], e)
    case Begin(id) => (if id in o.needBegin then [Label(id)] else [], e)
    case Perform(lb, le) => (CallCode(o.dispatch, e, lb, le), AfterCall(o.dispatch, e))
    case Exit(id) => (if id in o.needReturn then [CheckExit(id)] else [], e)
    case Stop => ([LeaveProgram], e)
  }

  /** The whole statement list, in order. */
  function Emit<S>(prog: seq<Stmt<S>>, o: Options, e: Emitter): (seq<Instr<S>>, Emitter) {
    if prog == [] then ([], e)
    else
      var before := Emit(prog[..|prog| - 1], o, e);
      var last := EmitStmt(prog[|prog| - 1], o, before.1);
      (before.0 + last.0, last.1)
  }

  // --- The emitter as the source writes it: state updated in place ---------------------------

  class Codegen<!S> {
    const o: Options
    var cbId: nat
    var cache: seq<Call>
    var out: seq<Instr<S>>

    constructor (o: Options, cbId: nat)
      ensures this.o == o && this.cbId == cbId && cache == [] && out == []
    {
      this.o := o;
      this.cbId := cbId;
      cache := [];
      out := [];
    }

    ghost function State(): Emitter
      reads this
    {
      Emitter(cbId, cache)
    }

    method OutputPerformCall(lb: nat, le: nat)
      modifies this
      ensures out == old(out) + CallCode(o.dispatch, old(State()), lb, le)
      ensures State() == AfterCall(o.dispatch, old(State()))
    {
      out := out + [PushFrame, SetThrough(le)];
      var code := cbId;
      if o.dispatch == Switch {
        var callNum := 0;
        if cache != [] { callNum := cache[0].callNum + 1; }
        cache := [Call(cbId, callNum)] + cache;
        code := callNum;
      }
      out := out + [SetReturn(code), Goto(lb), Label(cbId)];
      cbId := cbId + 1;
      out := out + [PopFrame];
    }

    method OutputStmt(x: Stmt<S>)
      modifies this
      ensures out == old(out) + EmitStmt(x, o, old(State())).0
      ensures State() == EmitStmt(x, o, old(State())).1
    {
      match x
      case Act(f) => out := out + [DoAct(f)];
      case Branch(c, target) => out := out + [IfGoto(c, target)];
      case Begin(id) => if id in o.needBegin { out := out + [Label(id)]; }
      case Perform(lb, le) => OutputPerformCall(lb, le);
      case Exit(id) => if id in o.needReturn { out := out + [CheckExit(id)]; }
      case Stop => out := out + [LeaveProgram];
    }

    method OutputProgram(prog: seq<Stmt<S>>)
      modifies this
      ensures out == old(out) + Emit(prog, o, old(State())).0
      ensures State() == Emit(prog, o, old(State())).1
    {
      for i := 0 to |prog|
        invariant out == old(out) + Emit(prog[..i], o, old(State())).0
        invariant State() == Emit(prog[..i], o, old(State())).1
      {
        assert prog[..i + 1][..i] == prog[..i];
        OutputStmt(prog[i]);
      }
      assert prog[..|prog|] == prog;
    }
  }

  // --- The machine ---------------------------------------------------------------------------

  datatype Code<!S> = Code(instrs: seq<Instr<S>>, dialect: Dialect, dispatch: Dispatch, cache: seq<Call>)

  datatype Machine<S> =
    | At(pc: nat, fp: nat, frames: seq<Activation>, store: S)
    | Left(store: S)
    | StackOverflow(store: S)
    | Broken(store: S)            // undefined label, unknown call number, or the base frame popped

  function FindLabel<S>(instrs: seq<Instr<S>>, n: nat): (a: nat)
    ensures a <= |instrs|
    ensures a < |instrs| ==> instrs[a].Label? && instrs[a].n == n
    ensures forall b :: 0 <= b < a ==> !(instrs[b].Label? && instrs[b].n == n)
  {
    if instrs == [] then 0
    else if instrs[0].Label? && instrs[0].n == n then 0
    else 1 + FindLabel(instrs[1..], n)
  }

  /** The case of P_switch that takes a call number; 0, which is no label, when there is none. */
  function SwitchTarget(cache: seq<Call>, callNum: nat): nat {
    if cache == [] then 0
    else if cache[0].callNum == callNum then cache[0].id
    else SwitchTarget(cache[1..], callNum)
  }

  function Jump<S>(code: Code<S>, target: nat, fp: nat, frames: seq<Activation>, s: S): Machine<S> {
    var a := FindLabel(code.instrs, target);
    if a < |code.instrs| then At(a, fp, frames, s) else Broken(s)
  }

  function ReturnLabel<S>(code: Code<S>, ret: nat): nat {
    if code.dispatch == Computed then ret else SwitchTarget(code.cache, ret)
  }

  function Exec<S>(code: Code<S>, limit: nat, m: Machine<S>): Machine<S> {
    if !m.At? then m
    else if m.fp >= |m.frames| then Broken(m.store)
    else if m.pc >= |code.instrs| then Left(m.store)
    else
      match code.instrs[m.pc]
      case DoAct(f) => m.(pc := m.pc + 1, store := f(m.store))
      case IfGoto(c, target) => if c(m.store) then Jump(code, target, m.fp, m.frames, m.store) else m.(pc := m.pc + 1)
      case Label(_) => m.(pc := m.pc + 1)
      case PushFrame => if m.fp + 1 == limit then StackOverflow(m.store) else m.(pc := m.pc + 1, fp := m.fp + 1)
      case SetThrough(id) => m.(pc := m.pc + 1, frames := m.frames[m.fp := m.frames[m.fp].(through := id)])
      case SetReturn(ret) => m.(pc := m.pc + 1, frames := m.frames[m.fp := m.frames[m.fp].(ret := ret)])
      case Goto(target) => Jump(code, target, m.fp, m.frames, m.store)
      case PopFrame => if m.fp == 0 then Broken(m.store) else m.(pc := m.pc + 1, fp := m.fp - 1)
      case CheckExit(id) =>
        var k := Ended(code.dialect, m.frames[..m.fp + 1], id);
        if k > 0 then Jump(code, ReturnLabel(code, m.frames[k].ret), k, m.frames, m.store) else m.(pc := m.pc + 1)
      case LeaveProgram => Left(m.store)
  }

  function ExecN<S>(code: Code<S>, limit: nat, m: Machine<S>, n: nat): Machine<S>
    decreases n
  {
    if n == 0 then m else ExecN(code, limit, Exec(code, limit, m), n - 1)
  }

  lemma {:induction false} ExecSplit<S>(code: Code<S>, limit: nat, m: Machine<S>, j: nat, k: nat)
    ensures ExecN(code, limit, m, j + k) == ExecN(code, limit, ExecN(code, limit, m, j), k)
    decreases j
  {
    if j > 0 { ExecSplit(code, limit, Exec(code, limit, m), j - 1, k); }
  }
}
