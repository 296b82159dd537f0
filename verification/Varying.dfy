/** PERFORM UNTIL and PERFORM VARYING ... AFTER, compiled to nested loops, against the flowchart of the
    statement. Conditions, moves and the body are functions on a store; the trace keeps the store at
    each execution of the body. */
module Varying {

  /** One VARYING or AFTER phrase. A plain UNTIL has no name to set and nothing to step. */
  datatype Phrase<!S> = Phrase(named: bool, init: S -> S, until: S -> bool, stepped: bool, step: S -> S)

  datatype Test = Before | After

  datatype Memory<S> = Memory(store: S, trace: seq<S>)

  function Apply<S>(f: S -> S, m: Memory<S>): Memory<S> { m.(store := f(m.store)) }

  function Perform<S>(body: S -> S, m: Memory<S>): Memory<S> {
    Memory(body(m.store), m.trace + [m.store])
  }

  // --- The emitted code ------------------------------------------------------------------------------

  datatype Code<!S> =
    | Do(f: S -> S)
    | BreakIf(c: S -> bool)
    | Body
    | Forever(block: seq<Code<S>>)

  function Set<S>(p: Phrase<S>): seq<Code<S>> { if p.named then [Do(p.init)] else [] }

  function Advance<S>(p: Phrase<S>): seq<Code<S>> { if p.stepped then [Do(p.step)] else [] }

  /** output_perform_until, from phrase k on. */
  function EmitUntil<S>(ps: seq<Phrase<S>>, test: Test, k: nat): seq<Code<S>>
    requires k <= |ps|
    decreases |ps| - k, 1
  {
    if k == |ps| then [Body] else [Forever(Block(ps, test, k))]
  }

  function Block<S>(ps: seq<Phrase<S>>, test: Test, k: nat): seq<Code<S>>
    requires k < |ps|
    decreases |ps| - k, 0
  {
    (if k + 1 < |ps| then Set(ps[k + 1]) else [])
    + (if test == After then EmitUntil(ps, test, k + 1) else [])
    + [BreakIf(ps[k].until)]
    + (if test == Before then EmitUntil(ps, test, k + 1) else [])
    + Advance(ps[k])
  }

  function EmitPerform<S>(ps: seq<Phrase<S>>, test: Test): seq<Code<S>>
    requires ps != []
  {
    Set(ps[0]) + EmitUntil(ps, test, 0)
  }

  datatype Outcome<S> = Done(m: Memory<S>) | Broke(m: Memory<S>) | NoFuel

  /** C statements in sequence; `fuel` bounds the turns of loops. */
  function Exec<S>(block: seq<Code<S>>, body: S -> S, m: Memory<S>, fuel: nat): Outcome<S>
    decreases fuel, block
  {
    if block == [] then Done(m)
    else
      match block[0]
      case Do(f) => Exec(block[1..], body, Apply(f, m), fuel)
      case BreakIf(c) => if c(m.store) then Broke(m) else Exec(block[1..], body, m, fuel)
      case Body => Exec(block[1..], body, Perform(body, m), fuel)
      case Forever(inner) =>
        var r := Loop(inner, body, m, fuel);
        if r.Done? then Exec(block[1..], body, r.m, fuel) else r
  }

  function Loop<S>(block: seq<Code<S>>, body: S -> S, m: Memory<S>, fuel: nat): (r: Outcome<S>)
    ensures !r.Broke?
    decreases fuel, block
  {
    if fuel == 0 then NoFuel
    else
      match Exec(block, body, m, fuel - 1)
      case NoFuel => NoFuel
      case Broke(n) => Done(n)
      case Done(n) => Loop(block, body, n, fuel - 1)
  }

  // --- The flowchart ---------------------------------------------------------------------------------

  /** Where control is: about to set the variable of phrase k + 1, to test condition k, to run the body,
      to step variable k, or out. */
  datatype Point = Enter(k: nat) | Ask(k: nat) | AtBody | Step(k: nat) | Out

  datatype Config<S> = Config(at: Point, m: Memory<S>)

  function Inward<S>(ps: seq<Phrase<S>>, k: nat): Point {
    if k + 1 < |ps| then Enter(k + 1) else AtBody
  }

  /** Where the loop of phrase k goes on when it ends. */
  function Outward(test: Test, k: nat): Point {
    if k == 0 then Out else if test == Before then Step(k - 1) else Ask(k - 1)
  }

  function SetNext<S>(ps: seq<Phrase<S>>, k: nat, m: Memory<S>): Memory<S> {
    if k + 1 < |ps| && ps[k + 1].named then Apply(ps[k + 1].init, m) else m
  }

  /** TEST BEFORE: inner variable set, outer condition tested, then the inner loop; the outer variable is
      stepped after the inner loop ends. TEST AFTER: the same with the condition behind the inner loop. */
  function Move<S>(ps: seq<Phrase<S>>, test: Test, body: S -> S, c: Config<S>): Config<S> {
    match c.at
    case Enter(k) => Config(if test == Before then Ask(k) else Inward(ps, k), SetNext(ps, k, c.m))
    case Ask(k) =>
      if k >= |ps| then c
      else if ps[k].until(c.m.store) then Config(Outward(test, k), c.m)
      else Config(if test == Before then Inward(ps, k) else Step(k), c.m)
    case AtBody =>
      if |ps| == 0 then c
      else Config(if test == Before then Step(|ps| - 1) else Ask(|ps| - 1), Perform(body, c.m))
    case Step(k) =>
      if k >= |ps| then c
      else Config(Enter(k), if ps[k].stepped then Apply(ps[k].step, c.m) else c.m)
    case Out => c
  }

  function Run<S>(ps: seq<Phrase<S>>, test: Test, body: S -> S, c: Config<S>, n: nat): Config<S>
    decreases n
  {
    if n == 0 then c else Run(ps, test, body, Move(ps, test, body, c), n - 1)
  }

  function Start<S>(ps: seq<Phrase<S>>, m: Memory<S>): Config<S>
    requires ps != []
  {
    Config(Enter(0), if ps[0].named then Apply(ps[0].init, m) else m)
  }

  // --- Fuel, sequences and runs ------------------------------------------------------------------------

  lemma {:induction false} MoreFuel<S>(block: seq<Code<S>>, body: S -> S, m: Memory<S>, fuel: nat, more: nat)
    requires fuel <= more && !Exec(block, body, m, fuel).NoFuel?
    ensures Exec(block, body, m, more) == Exec(block, body, m, fuel)
    decreases fuel, block
  {
    if block != [] {
      match block[0]
      case Do(f) => MoreFuel(block[1..], body, Apply(f, m), fuel, more);
      case BreakIf(c) => if !c(m.store) { MoreFuel(block[1..], body, m, fuel, more); }
      case Body => MoreFuel(block[1..], body, Perform(body, m), fuel, more);
      case Forever(inner) =>
        LoopMoreFuel(inner, body, m, fuel, more);
        MoreFuel(block[1..], body, Loop(inner, body, m, fuel).m, fuel, more);
    }
  }

  lemma {:induction false} LoopMoreFuel<S>(block: seq<Code<S>>, body: S -> S, m: Memory<S>, fuel: nat, more: nat)
    requires fuel <= more && !Loop(block, body, m, fuel).NoFuel?
    ensures Loop(block, body, m, more) == Loop(block, body, m, fuel)
    decreases fuel, block
  {
    MoreFuel(block, body, m, fuel - 1, more - 1);
    var r := Exec(block, body, m, fuel - 1);
    if r.Done? { LoopMoreFuel(block, body, r.m, fuel - 1, more - 1); }
  }

  lemma {:induction false} ExecConcat<S>(a: seq<Code<S>>, b: seq<Code<S>>, body: S -> S, m: Memory<S>, fuel: nat)
    ensures Exec(a + b, body, m, fuel)
         == var r := Exec(a, body, m, fuel); if r.Done? then Exec(b, body, r.m, fuel) else r
    decreases |a|
  {
    if a == [] {
      assert a + b == b;
    } else {
      var rest := a[1..];
      assert (a + b)[0] == a[0] && (a + b)[1..] == rest + b;
      match a[0]
      case Do(f) => ExecConcat(rest, b, body, Apply(f, m), fuel);
      case BreakIf(c) => ExecConcat(rest, b, body, m, fuel);
      case Body => ExecConcat(rest, b, body, Perform(body, m), fuel);
      case Forever(inner) =>
        var r := Loop(inner, body, m, fuel);
        if r.Done? { ExecConcat(rest, b, body, r.m, fuel); }
    }
  }

  lemma {:induction false} RunAdds<S>(ps: seq<Phrase<S>>, test: Test, body: S -> S, c: Config<S>, a: nat, b: nat)
    ensures Run(ps, test, body, c, a + b) == Run(ps, test, body, Run(ps, test, body, c, a), b)
    decreases a
  {
    if a > 0 { RunAdds(ps, test, body, Move(ps, test, body, c), a - 1, b); }
  }

  // --- One turn of a loop --------------------------------------------------------------------------------

  /** The inner part: the body, or the loop of the next phrase. */
  function Inner<S>(ps: seq<Phrase<S>>, test: Test, body: S -> S, k: nat, m: Memory<S>, fuel: nat): (r: Outcome<S>)
    requires k < |ps|
    ensures !r.Broke?
  {
    if k + 1 == |ps| then Done(Perform(body, m)) else Loop(Block(ps, test, k + 1), body, m, fuel)
  }

  function Stepped<S>(p: Phrase<S>, m: Memory<S>): Memory<S> {
    if p.stepped then Apply(p.step, m) else m
  }

  lemma {:induction false} ExecSet<S>(p: Phrase<S>, body: S -> S, m: Memory<S>, fuel: nat)
    ensures Exec(Set(p), body, m, fuel) == Done(if p.named then Apply(p.init, m) else m)
    ensures Exec(Advance(p), body, m, fuel) == Done(Stepped(p, m))
  {
    assert [Do(p.init)][1..] == [] && [Do(p.step)][1..] == [];
  }

  lemma {:induction false} ExecInner<S>(ps: seq<Phrase<S>>, test: Test, body: S -> S, k: nat, m: Memory<S>, fuel: nat)
    requires k < |ps|
    ensures Exec(EmitUntil(ps, test, k + 1), body, m, fuel) == Inner(ps, test, body, k, m, fuel)
  {
    if k + 1 < |ps| {
      var code := EmitUntil(ps, test, k + 1);
      assert code == [Forever(Block(ps, test, k + 1))] && code[1..] == [];
    } else {
      var code: seq<Code<S>> := [Body];
      assert EmitUntil(ps, test, k + 1) == code && code[1..] == [];
    }
  }

  lemma {:induction false} ExecBreak<S>(c: S -> bool, body: S -> S, m: Memory<S>, fuel: nat)
    ensures Exec([BreakIf(c)], body, m, fuel) == if c(m.store) then Broke(m) else Done(m)
  {
    assert [BreakIf(c)][1..] == [];
  }

  /** What a turn of the emitted loop does. */
  lemma {:induction false} Turn<S>(ps: seq<Phrase<S>>, test: Test, body: S -> S, k: nat, m: Memory<S>, fuel: nat)
    requires k < |ps|
    ensures var n := SetNext(ps, k, m);
            Exec(Block(ps, test, k), body, m, fuel)
            == if test == Before then
                 if ps[k].until(n.store) then Broke(n)
                 else var r := Inner(ps, test, body, k, n, fuel); if r.Done? then Done(Stepped(ps[k], r.m)) else r
               else
                 var r := Inner(ps, test, body, k, n, fuel);
                 if !r.Done? then r else if ps[k].until(r.m.store) then Broke(r.m) else Done(Stepped(ps[k], r.m))
  {
    hide Exec, Inner;
    var n := SetNext(ps, k, m);
    var reset: seq<Code<S>> := if k + 1 < |ps| then Set(ps[k + 1]) else [];
    var inner := EmitUntil(ps, test, k + 1);
    var ask := [BreakIf(ps[k].until)];
    var advance := Advance(ps[k]);
    assert Exec(reset, body, m, fuel) == Done(n) by {
      if k + 1 < |ps| { ExecSet(ps[k + 1], body, m, fuel); } else { ExecNothing(body, m, fuel); }
    }
    ExecInner(ps, test, body, k, n, fuel);
    ExecBreak(ps[k].until, body, n, fuel);
    if test == Before {
      assert Block(ps, test, k) == reset + (ask + (inner + advance));
      ExecConcat(reset, ask + (inner + advance), body, m, fuel);
      ExecConcat(ask, inner + advance, body, n, fuel);
      ExecConcat(inner, advance, body, n, fuel);
      var r := Inner(ps, test, body, k, n, fuel);
      if r.Done? { ExecSet(ps[k], body, r.m, fuel); }
    } else {
      assert Block(ps, test, k) == reset + (inner + (ask + advance));
      ExecConcat(reset, inner + (ask + advance), body, m, fuel);
      ExecConcat(inner, ask + advance, body, n, fuel);
      var r := Inner(ps, test, body, k, n, fuel);
      if r.Done? {
        ExecConcat(ask, advance, body, r.m, fuel);
        ExecBreak(ps[k].until, body, r.m, fuel);
        ExecSet(ps[k], body, r.m, fuel);
      }
    }
  }

  lemma {:induction false} ExecNothing<S>(body: S -> S, m: Memory<S>, fuel: nat)
    ensures Exec([], body, m, fuel) == Done(m)
  {
  }
}
