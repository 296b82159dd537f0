/** Where the initialisation of an OCCURS item falls short: its initial state at level 01 or 77, and
    INITIALIZE WITH FILLER ... TO VALUE. */
module InitializeOccurs {
  import opened Optional
  import opened Records
  import opened RecordLayout
  import opened Initialize
  import opened InitializeProof
  import opened InitializeTheorems

  // --- Initial state of a record that OCCURS ---------------------------------------------------------

  /** Initialising the item writes some byte. */
  ghost predicate HasBytes(p: Init, item: Item, laid: Laid) {
    if item.children == [] || KindOf(p, item, false) != Default then laid.size > 0
    else |laid.kids| == |item.children| && exists i :: 0 <= i < |item.children| && HasBytes(p, item.children[i], laid.kids[i])
  }

  ghost predicate InitialState(p: Init, one: OneBytes, item: Item, laid: Laid, env: Env, m: Mem)
    requires |laid.kids| == |item.children|
  {
    CorrectEach(p, one, item, laid, 0, m, ExecAll(EmitInitialize(p, one, true, item, laid, []), env, m))
  }

  lemma {:induction false} NoBytesRight(p: Init, one: OneBytes, item: Item, laid: Laid, cfg: Config, at: int, m: Mem, m2: Mem)
    requires Sound(item, laid, cfg) && Sized(one) && !HasBytes(p, item, laid)
    requires KindOf(p, item, false) == One || KindOf(p, item, false) == Default
    ensures Correct(p, one, item, laid, at, m, m2, false)
    decreases item
  {
    hide KindOf, UniformChar, Occurrence;
    if KindOf(p, item, false) == Default {
      if item.children == [] {
        DefaultHasChar(p, item, false);
      } else {
        forall i | 0 <= i < |item.children| && item.children[i].c.redefines.None?
          ensures CorrectEach(p, one, item.children[i], laid.kids[i], at - laid.offset, m, m2)
        {
          var x, l, shift := item.children[i], laid.kids[i], at - laid.offset;
          DefaultKids(p, item, false, i);
          KidSound(item, laid, cfg, i);
          forall s | 1 <= s <= x.c.occursMax ensures CorrectOccurrence(p, one, x, l, shift, s, m, m2) {
            NoBytesRight(p, one, x, l, cfg, Occurrence(l, shift, s), m, m2);
          }
        }
      }
    }
  }

  /** Where an item is filled right, its character is found. */
  lemma {:induction false} CharFound(p: Init, one: OneBytes, item: Item, laid: Laid, cfg: Config, at: int, m: Mem, m2: Mem)
    returns (a: int)
    requires Sound(item, laid, cfg) && WellFormed(item) && HasBytes(p, item, laid)
    requires KindOf(p, item, false) == Default && UniformChar(item).Some?
    requires 0 <= at && at + laid.size <= |m2| && Correct(p, one, item, laid, at, m, m2, false)
    ensures at <= a < at + laid.size && m2[a] == UniformChar(item).value
    decreases item, 1
  {
    hide KindOf, UniformChar, Occurrence;
    if item.children == [] {
      a := at;
    } else {
      hide Sound, WellFormed, Correct, HasBytes;
      a := CharInKid(p, one, item, laid, cfg, at, m, m2);
    }
  }

  lemma {:induction false} CharInKid(p: Init, one: OneBytes, item: Item, laid: Laid, cfg: Config, at: int, m: Mem, m2: Mem)
    returns (a: int)
    requires Sound(item, laid, cfg) && WellFormed(item) && HasBytes(p, item, laid) && item.children != []
    requires KindOf(p, item, false) == Default && UniformChar(item).Some?
    requires 0 <= at && at + laid.size <= |m2| && Correct(p, one, item, laid, at, m, m2, false)
    ensures at <= a < at + laid.size && m2[a] == UniformChar(item).value
    decreases item, 0
  {
    hide KindOf, UniformChar, Occurrence;
    var i: nat :| i < |item.children| && HasBytes(p, item.children[i], laid.kids[i]);
    hide Sound, WellFormed, HasBytes;
    var x, l, shift := item.children[i], laid.kids[i], at - laid.offset;
    DefaultKids(p, item, false, i);
    KidSound(item, laid, cfg, i);
    OccursFacts(x);
    KidInside(item, laid, cfg, i, at, 1);
    assert CorrectEach(p, one, x, l, shift, m, m2);
    assert CorrectOccurrence(p, one, x, l, shift, 1, m, m2);
    a := CharFound(p, one, x, l, cfg, Occurrence(l, shift, 1), m, m2);
  }

  /** The second occurrence is not written. */
  lemma {:induction false} SecondMissed(p: Init, item: Item, laid: Laid, cfg: Config, env: Env)
    requires Sound(item, laid, cfg) && WellFormed(item) && laid.offset == 0
    requires !p.isStatement && item.c.redefines.None? && item.c.occursMax >= 2 && HasBytes(p, item, laid)
    requires KindOf(p, item, true) == One || (KindOf(p, item, true) == Default && UniformChar(item).Some?)
    ensures |laid.kids| == |item.children|
    ensures exists one, m :: Sized(one) && !InitialState(p, one, item, laid, env, m)
  {
    hide KindOf, UniformChar, WellFormed, Sound, Correct;
    SoundKids(item, laid, cfg);
    SameKind(p, item);
    var n := laid.size;
    var one: OneBytes := (x: Item, k: nat) => seq(k, _ => 1);
    var base := if KindOf(p, item, true) == Default then UniformChar(item).value + 1 else 0;
    var m := seq(2 * n, _ => base);
    OneInitialised(p, one, true, item, laid, cfg, [], env, m);
    var m2 := ExecAll(EmitInitialize(p, one, true, item, laid, []), env, m);
    SecondKept(p, one, item, laid, cfg, m, m2, base);
    assert !CorrectOccurrence(p, one, item, laid, 0, 2, m, m2);
    assert !InitialState(p, one, item, laid, env, m);
  }

  lemma {:induction false} SecondKept(p: Init, one: OneBytes, item: Item, laid: Laid, cfg: Config, m: Mem, m2: Mem, base: nat)
    requires Sound(item, laid, cfg) && WellFormed(item) && HasBytes(p, item, laid)
    requires one(item, laid.size) == seq(laid.size, _ => 1)
    requires |m2| == 2 * laid.size && forall a :: laid.size <= a < 2 * laid.size ==> m2[a] == base
    requires (KindOf(p, item, false) == One && base == 0)
          || (KindOf(p, item, false) == Default && UniformChar(item).Some? && base == UniformChar(item).value + 1)
    ensures !Correct(p, one, item, laid, laid.size, m, m2, false)
  {
    hide KindOf, UniformChar;
    if KindOf(p, item, false) == Default {
      if Correct(p, one, item, laid, laid.size, m, m2, false) {
        var a := CharFound(p, one, item, laid, cfg, laid.size, m, m2);
      }
    } else {
      assert m2[laid.size] == 0 && one(item, laid.size)[0] == 1;
    }
  }

  /** The initial state of a record that OCCURS: all its occurrences get it exactly when it is initialised
      part by part, or there is only one, or nothing to write. Otherwise only the first one is written. */
  lemma {:induction false} InitialStateIff(p: Init, item: Item, laid: Laid, cfg: Config, env: Env)
    requires Sound(item, laid, cfg) && WellFormed(item) && laid.offset == 0
    requires !p.isStatement && item.c.redefines.None?
    ensures |laid.kids| == |item.children|
    ensures (forall one, m :: Sized(one) ==> InitialState(p, one, item, laid, env, m)) <==>
            item.c.occursMax == 1 || AllOccurrences(p, true, item) || KindOf(p, item, true) == Nothing
            || !HasBytes(p, item, laid)
  {
    hide KindOf, UniformChar, WellFormed, Sound, Correct, EmitInitialize, HasBytes, Initialised;
    SoundKids(item, laid, cfg);
    OccursFacts(item);
    SameKind(p, item);
    if item.c.occursMax == 1 || AllOccurrences(p, true, item) || KindOf(p, item, true) == Nothing || !HasBytes(p, item, laid) {
      forall one, m | Sized(one) ensures InitialState(p, one, item, laid, env, m) {
        InitialStateRight(p, one, item, laid, cfg, env, m);
      }
    } else {
      SecondMissed(p, item, laid, cfg, env);
    }
  }

  lemma {:induction false} OccursFacts(item: Item)
    requires WellFormed(item)
    ensures item.c.occursMax >= 1 && (!item.c.occurs ==> item.c.occursMax == 1)
  {
  }

  lemma {:induction false} InitialStateRight(p: Init, one: OneBytes, item: Item, laid: Laid, cfg: Config, env: Env, m: Mem)
    requires Sound(item, laid, cfg) && WellFormed(item) && laid.offset == 0 && Sized(one)
    requires !p.isStatement && item.c.redefines.None?
    requires item.c.occursMax == 1 || AllOccurrences(p, true, item) || KindOf(p, item, true) == Nothing || !HasBytes(p, item, laid)
    ensures |laid.kids| == |item.children| && InitialState(p, one, item, laid, env, m)
  {
    hide KindOf, UniformChar, WellFormed, Sound, Correct, EmitInitialize, HasBytes;
    SoundKids(item, laid, cfg);
    SameKind(p, item);
    var m2 := ExecAll(EmitInitialize(p, one, true, item, laid, []), env, m);
    if AllOccurrences(p, true, item) {
      AllInitialised(p, one, item, laid, cfg, [], env, m);
    } else if KindOf(p, item, true) == Nothing {
      assert EmitInitialize(p, one, true, item, laid, []) == [] by { NothingEmitted(p, one, item, laid); }
      NothingIsRight(p, one, item, laid, cfg, 0, m);
    } else {
      assert Occurrence(laid, 0, 1) == 0 == Value(Ref(laid.offset, []), env);
      forall s | 1 <= s <= item.c.occursMax ensures CorrectOccurrence(p, one, item, laid, 0, s, m, m2) {
        if item.c.occursMax == 1 {
          InitializeCorrect(p, one, true, item, laid, cfg, [], env, m);
        } else {
          OccursFacts(item);
          NoBytesRight(p, one, item, laid, cfg, Occurrence(laid, 0, s), m, m2);
        }
      }
      assert CorrectEach(p, one, item, laid, 0, m, m2);
    }
  }

  lemma {:induction false} NothingEmitted(p: Init, one: OneBytes, item: Item, laid: Laid)
    requires KindOf(p, item, true) == Nothing && |laid.kids| == |item.children|
    ensures EmitInitialize(p, one, true, item, laid, []) == []
  {
  }

  /** 77 X PIC X OCCURS 2, initialised by default: a blank goes into the first occurrence only. */
  lemma {:induction false} FirstOccurrenceOnly(one: OneBytes, env: Env, a: nat, b: nat)
    ensures var p := Init(false, true, {}, true);
            var c := Clauses(Display, Pic(1, Alphanumeric, false), false, false, false, true, 2, None, false, None, false);
            ExecAll(EmitInitialize(p, one, true, Item(c, []), Laid(0, 1, []), []), env, [a, b]) == [' ' as nat, b]
  {
    ExecOne(Memset(Ref(0, []), ' ' as nat, 1), env, [a, b]);
  }

  // --- A VALUE that is not set -----------------------------------------------------------------------

  function Nodes(item: Item): nat { 1 + NodesAll(item.children) }

  function NodesAll(kids: seq<Item>): nat {
    if kids == [] then 0 else Nodes(kids[0]) + NodesAll(kids[1..])
  }

  lemma {:induction false} KidNodes(kids: seq<Item>, i: nat)
    requires i < |kids|
    ensures Nodes(kids[i]) <= NodesAll(kids)
    decreases |kids|
  {
    if i > 0 { KidNodes(kids[1..], i - 1); }
  }

  /** Both give the same to every item smaller than top. */
  ghost predicate SameBelow(one1: OneBytes, one2: OneBytes, top: Item) {
    forall x, n :: Nodes(x) < Nodes(top) ==> one1(x, n) == one2(x, n)
  }

  lemma {:induction false} SameParts(p: Init, one1: OneBytes, one2: OneBytes, top: Item, item: Item, laid: Laid,
                                     terms: seq<SubTerm>, depth: nat, j: nat)
    requires SameBelow(one1, one2, top) && Nodes(item) <= Nodes(top)
    requires |laid.kids| == |item.children| && j <= |item.children|
    ensures EmitFrom(p, one1, item, laid, terms, depth, j) == EmitFrom(p, one2, item, laid, terms, depth, j)
    decreases item, 1, |item.children| - j
  {
    hide KindOf, UniformChar, Nodes, SameBelow, EmitChild;
    if j < |item.children| {
      var f, c := item.children[j], UniformChar(item.children[j]);
      SmallerKid(item, j);
      if KindOf(p, f, false) == Nothing {
        SameParts(p, one1, one2, top, item, laid, terms, depth, j + 1);
      } else if KindOf(p, f, false) == Default && c.Some? {
        SameParts(p, one1, one2, top, item, laid, terms, depth, RunEnd(p, item.children, c, j + 1));
      } else {
        SameChild(p, one1, one2, top, f, laid.kids[j], terms, depth);
        SameParts(p, one1, one2, top, item, laid, terms, depth, j + 1);
      }
    }
  }

  lemma {:induction false} SmallerKid(item: Item, j: nat)
    requires j < |item.children|
    ensures Nodes(item.children[j]) < Nodes(item)
  {
    KidNodes(item.children, j);
  }

  lemma {:induction false} SameChild(p: Init, one1: OneBytes, one2: OneBytes, top: Item, f: Item, l: Laid,
                                     terms: seq<SubTerm>, depth: nat)
    requires SameBelow(one1, one2, top) && Nodes(f) < Nodes(top)
    ensures EmitChild(p, one1, f, l, terms, depth) == EmitChild(p, one2, f, l, terms, depth)
    decreases f, 4
  {
    hide KindOf, UniformChar, Nodes, EmitBody;
    SameBody(p, one1, one2, top, f, l, terms, depth);
    SameBody(p, one1, one2, top, f, l, terms + [SubTerm(l.size, Counter(depth + 1))], depth + 1);
  }

  lemma {:induction false} SameBody(p: Init, one1: OneBytes, one2: OneBytes, top: Item, f: Item, l: Laid,
                                    terms: seq<SubTerm>, depth: nat)
    requires SameBelow(one1, one2, top) && Nodes(f) < Nodes(top)
    ensures EmitBody(p, one1, f, l, terms, depth) == EmitBody(p, one2, f, l, terms, depth)
    decreases f, 3
  {
    hide KindOf, UniformChar, Nodes, EmitFrom;
    assert one1(f, l.size) == one2(f, l.size);
    if |l.kids| == |f.children| { SameParts(p, one1, one2, top, f, l, terms, depth, 0); }
  }

  /** The item, referenced with its subscripts, is left as its own initialisation says. */
  ghost predicate Initialises(p: Init, one: OneBytes, root: bool, item: Item, laid: Laid, terms: seq<SubTerm>, env: Env, m: Mem)
    requires |laid.kids| == |item.children|
  {
    var at := Value(Ref(laid.offset, terms), env);
    Correct(p, one, item, laid, at, m, ExecAll(EmitInitialize(p, one, root, item, laid, terms), env, m), p.isStatement)
  }

  /** INITIALIZE, with or without FILLER, and the initial state: the referenced item always ends up as
      its own initialisation says, except for a VALUE of an OCCURS item below level 01, which
      INITIALIZE WITH FILLER ... TO VALUE does not set. */
  lemma {:induction false} InitializeIff(p: Init, root: bool, item: Item, laid: Laid, cfg: Config, terms: seq<SubTerm>, env: Env)
    requires Sound(item, laid, cfg) && WellFormed(item) && Within(terms, 0)
    requires Value(Ref(laid.offset, terms), env) >= 0 && Selects(root, item, laid, Value(Ref(laid.offset, terms), env))
    ensures |laid.kids| == |item.children|
    ensures (forall one, m :: Sized(one) ==> Initialises(p, one, root, item, laid, terms, env, m)) <==>
            !ValueMissed(p, root, item) || laid.size == 0
  {
    hide KindOf, UniformChar, WellFormed, Sound, Correct, EmitInitialize, ValueMissed, Selects, Value;
    SoundKids(item, laid, cfg);
    if ValueMissed(p, root, item) {
      if laid.size == 0 {
        forall one, m | Sized(one) ensures Initialises(p, one, root, item, laid, terms, env, m) {
          NoValueRight(p, one, root, item, laid, terms, env, m);
        }
      } else {
        ValueNotSet(p, root, item, laid, terms, env);
      }
    } else {
      forall one, m | Sized(one) ensures Initialises(p, one, root, item, laid, terms, env, m) {
        InitializeCorrect(p, one, root, item, laid, cfg, terms, env, m);
      }
    }
  }

  lemma {:induction false} NoValueRight(p: Init, one: OneBytes, root: bool, item: Item, laid: Laid, terms: seq<SubTerm>, env: Env, m: Mem)
    requires ValueMissed(p, root, item) && Sized(one) && |laid.kids| == |item.children| && laid.size == 0
    ensures Initialises(p, one, root, item, laid, terms, env, m)
  {
    hide KindOf, UniformChar, Value;
    SameKind(p, item);
  }

  lemma {:induction false} ValueNotSet(p: Init, root: bool, item: Item, laid: Laid, terms: seq<SubTerm>, env: Env)
    requires ValueMissed(p, root, item) && |laid.kids| == |item.children| && laid.size > 0
    requires Value(Ref(laid.offset, terms), env) >= 0
    ensures exists one, m :: Sized(one) && !Initialises(p, one, root, item, laid, terms, env, m)
  {
    hide KindOf, UniformChar, Value, Nodes, EmitCompound, EmitInitialize, ExecAll, ValueMissed, Initialises, Marking, Sized, SameBelow;
    var one1, one2 := Marking(item, 1), Marking(item, 0);
    var m := seq(Value(Ref(laid.offset, terms), env) + laid.size, _ => 0);
    MarkingFacts(item);
    SameCompound(p, one1, one2, item, laid, terms);
    SetAlike(p, one1, root, item, laid, terms, env, m);
    SetAlike(p, one2, root, item, laid, terms, env, m);
    assert one1(item, laid.size)[0] == 1 && one2(item, laid.size)[0] == 0;
    assert !Initialises(p, one1, root, item, laid, terms, env, m) || !Initialises(p, one2, root, item, laid, terms, env, m);
  }

  /** Bytes v for this item, and zeros for all others. */
  function Marking(top: Item, v: nat): OneBytes {
    (x: Item, n: nat) => seq(n, _ => if x == top then v else 0)
  }

  lemma {:induction false} MarkingFacts(top: Item)
    ensures forall v :: Sized(Marking(top, v))
    ensures forall v, n: nat :: |Marking(top, v)(top, n)| == n && forall k :: 0 <= k < n ==> Marking(top, v)(top, n)[k] == v
    ensures forall v, w :: SameBelow(Marking(top, v), Marking(top, w), top)
  {
  }

  /** The item is treated as a group, but should have got its own value. */
  lemma {:induction false} SetAlike(p: Init, one: OneBytes, root: bool, item: Item, laid: Laid, terms: seq<SubTerm>, env: Env, m: Mem)
    requires ValueMissed(p, root, item) && |laid.kids| == |item.children| && laid.size > 0 && Sized(one)
    requires 0 <= Value(Ref(laid.offset, terms), env) < |m|
    ensures var m2 := ExecAll(EmitCompound(p, one, item, laid, terms, 0), env, m);
            && |m2| == |m|
            && (Initialises(p, one, root, item, laid, terms, env, m) ==>
                  m2[Value(Ref(laid.offset, terms), env)] == one(item, laid.size)[0])
  {
    hide KindOf, UniformChar, Value, EmitCompound, ExecAll;
    SameKind(p, item);
    ExecKeepsSize(EmitCompound(p, one, item, laid, terms, 0), env, m);
  }

  lemma {:induction false} SameCompound(p: Init, one1: OneBytes, one2: OneBytes, item: Item, laid: Laid, terms: seq<SubTerm>)
    requires SameBelow(one1, one2, item) && |laid.kids| == |item.children|
    ensures EmitCompound(p, one1, item, laid, terms, 0) == EmitCompound(p, one2, item, laid, terms, 0)
  {
    SameParts(p, one1, one2, item, item, laid, terms, 0, 0);
  }

  /** 05 X PIC X OCCURS 2 VALUE "A": INITIALIZE X (1) WITH FILLER ALL TO VALUE has no code at all. */
  lemma {:induction false} NoCodeForValue(one: OneBytes, terms: seq<SubTerm>)
    ensures var p := Init(false, true, {}, false);
            var c := Clauses(Display, Pic(1, Alphanumeric, false), false, false, false, true, 2, None, false, Some("A"), false);
            ValueMissed(p, false, Item(c, [])) && EmitInitialize(p, one, false, Item(c, []), Laid(0, 1, []), terms) == []
  {
    var p := Init(false, true, {}, false);
    var c := Clauses(Display, Pic(1, Alphanumeric, false), false, false, false, true, 2, None, false, Some("A"), false);
    assert EmitCompound(p, one, Item(c, []), Laid(0, 1, []), terms, 0) == [];
  }

  lemma {:induction false} ExecKeepsSize(xs: seq<Stmt>, env: Env, m: Mem)
    ensures |ExecAll(xs, env, m)| == |m|
    decreases xs, 0
  {
    if xs != [] {
      StmtKeepsSize(xs[0], env, m);
      ExecKeepsSize(xs[1..], env, Exec(xs[0], env, m));
    }
  }

  lemma {:induction false} StmtKeepsSize(x: Stmt, env: Env, m: Mem)
    ensures |Exec(x, env, m)| == |m|
    decreases x
  {
    if x.Loop? { LoopKeepsSize(x.i, 1, x.count, x.body, env, m); }
  }

  lemma {:induction false} LoopKeepsSize(i: nat, k: nat, count: nat, body: seq<Stmt>, env: Env, m: Mem)
    ensures |ExecLoop(i, k, count, body, env, m)| == |m|
    decreases body, 1, if k <= count then count - k + 1 else 0
  {
    if k <= count {
      ExecKeepsSize(body, env[i := k], m);
      LoopKeepsSize(i, k + 1, count, body, env, ExecAll(body, env[i := k], m));
    }
  }
}
