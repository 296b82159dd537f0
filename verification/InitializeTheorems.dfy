/** INITIALIZE as a whole: the emitted code refines leaf-by-leaf initialisation. */
module InitializeTheorems {
  import opened Records
  import opened RecordLayout
  import opened Initialize
  import opened InitializeProof
  import opened Addressing

  /** Outside INITIALIZE statements without FILLER, the part by part initialisation of an OCCURS item at
      level 01 or 77 is that of all its occurrences. */
  predicate AllOccurrences(p: Init, root: bool, item: Item) {
    !p.isStatement && root && item.c.occurs && match KindOf(p, item, true)
    case Compound => true
    case Default => UniformChar(item).None?
    case _ => false
  }

  /** INITIALIZE WITH FILLER ... TO VALUE for an OCCURS item below level 01 that has a VALUE. */
  predicate ValueMissed(p: Init, root: bool, item: Item) {
    !p.isStatement && !root && item.c.occurs && item.c.redefines.None? && p.val && item.c.value.Some?
  }

  /** A reference to an item at level 01 or 77 selects one of its occurrences. */
  ghost predicate Selects(root: bool, item: Item, laid: Laid, at: int) {
    root ==> exists s :: 1 <= s <= item.c.occursMax && at == Occurrence(laid, 0, s)
  }

  /** output_initialize, for an item in a record laid out by compute_size and referenced with fixed
      subscripts: every part of it that is no redefinition ends up as its own initialisation says,
      and nothing outside it is written. */
  lemma {:induction false} InitializeCorrect(p: Init, one: OneBytes, root: bool, item: Item, laid: Laid, cfg: Config,
                                             terms: seq<SubTerm>, env: Env, m: Mem)
    requires Sound(item, laid, cfg) && WellFormed(item) && Sized(one) && Within(terms, 0)
    requires Selects(root, item, laid, Value(Ref(laid.offset, terms), env)) && !ValueMissed(p, root, item)
    ensures |laid.kids| == |item.children|
    ensures var at := Value(Ref(laid.offset, terms), env);
            var m2 := ExecAll(EmitInitialize(p, one, root, item, laid, terms), env, m);
            && Correct(p, one, item, laid, at, m, m2, p.isStatement)
            && if AllOccurrences(p, root, item) then Initialised(p, one, item, laid, 0, m, m2)
               else SameOutside(m, m2, at, at + laid.size)
  {
    hide KindOf, UniformChar, EmitCompound, EmitChild, WellFormed, Sound, Correct;
    var at := Value(Ref(laid.offset, terms), env);
    SameKind(p, item);
    if AllOccurrences(p, root, item) {
      AllInitialised(p, one, item, laid, cfg, terms, env, m);
      var m2 := ExecAll(EmitInitialize(p, one, root, item, laid, terms), env, m);
      var s :| 1 <= s <= item.c.occursMax && at == Occurrence(laid, 0, s);
      assert CorrectOccurrence(p, one, item, laid, 0, s, m, m2);
    } else {
      OneInitialised(p, one, root, item, laid, cfg, terms, env, m);
    }
  }

  /** How the item is to be initialised, and how output_initialize classifies it. */
  lemma {:induction false} SameKind(p: Init, item: Item)
    ensures !p.isStatement && item.c.occurs && item.c.redefines.None? && p.val && item.c.value.Some? ==>
      KindOf(p, item, true) == Compound && KindOf(p, item, p.isStatement) == One
    ensures p.isStatement || !item.c.occurs || item.c.redefines.Some? || !p.val || item.c.value.None? ==>
      KindOf(p, item, true) == KindOf(p, item, p.isStatement)
  {
  }

  lemma {:induction false} AllInitialised(p: Init, one: OneBytes, item: Item, laid: Laid, cfg: Config, terms: seq<SubTerm>,
                                          env: Env, m: Mem)
    requires Sound(item, laid, cfg) && WellFormed(item) && Sized(one) && AllOccurrences(p, true, item)
    ensures |laid.kids| == |item.children|
    ensures Initialised(p, one, item, laid, 0, m, ExecAll(EmitInitialize(p, one, true, item, laid, terms), env, m))
  {
    hide KindOf, UniformChar, EmitChild, WellFormed, CorrectEach;
    SameKind(p, item);
    ChildInitialises(p, one, item, laid, cfg, [], 0, env, m);
  }

  lemma {:induction false} OneInitialised(p: Init, one: OneBytes, root: bool, item: Item, laid: Laid, cfg: Config,
                                          terms: seq<SubTerm>, env: Env, m: Mem)
    requires Sound(item, laid, cfg) && WellFormed(item) && Sized(one) && Within(terms, 0)
    requires !AllOccurrences(p, root, item) && KindOf(p, item, true) == KindOf(p, item, p.isStatement)
    ensures |laid.kids| == |item.children|
    ensures var at := Value(Ref(laid.offset, terms), env);
            var m2 := ExecAll(EmitInitialize(p, one, root, item, laid, terms), env, m);
            Correct(p, one, item, laid, at, m, m2, p.isStatement) && SameOutside(m, m2, at, at + laid.size)
  {
    hide KindOf, UniformChar, EmitCompound, WellFormed;
    var at := Value(Ref(laid.offset, terms), env);
    var c := UniformChar(item);
    match KindOf(p, item, true)
    case Nothing =>
    case One => ExecOne(InitOne(Ref(laid.offset, terms), one(item, laid.size)), env, m);
    case Default =>
      if item.children == [] { DefaultHasChar(p, item, true); }
      if c.Some? {
        ExecOne(Memset(Ref(laid.offset, terms), c.value, laid.size), env, m);
        UniformFill(p, one, item, laid, cfg, at, m, Fill(m, at, c.value, laid.size), p.isStatement);
      } else {
        CompoundInitialises(p, one, item, laid, cfg, terms, 0, env, m);
      }
    case Compound =>
      if item.children == [] { CompoundHasChildren(p, item); }
      CompoundInitialises(p, one, item, laid, cfg, terms, 0, env, m);
  }

  lemma {:induction false} CompoundHasChildren(p: Init, item: Item)
    requires KindOf(p, item, p.isStatement) == Compound
    ensures item.children != []
  {
  }

  /** One item initialised by itself at address `at`: left alone, given its value, or filled. */
  function Alone(p: Init, one: OneBytes, item: Item, laid: Laid, at: int, m: Mem): Mem {
    match KindOf(p, item, false)
    case Nothing => m
    case One => Write(m, at, one(item, laid.size))
    case _ => if UniformChar(item).Some? then Fill(m, at, UniformChar(item).value, laid.size) else m
  }

  /** No group on the way down to the last level gets a VALUE of its own. A redefinition can be the first
      of them in a statement only. */
  ghost predicate ByItem(p: Init, levels: seq<Level>)
    requires levels != []
  {
    && (levels[0].item.c.redefines.None? || p.isStatement)
    && forall k :: 0 <= k < |levels| - 1 ==> !(p.val && levels[k].item.c.value.Some?)
  }

  lemma {:induction false} AddressStep(levels: seq<Level>)
    requires |levels| >= 2
    ensures var up := levels[..|levels| - 1];
            var down := levels[|levels| - 1];
            Address(levels) == Occurrence(down.laid, Address(up) - up[|up| - 1].laid.offset, down.sub)
  {
  }

  /** A group without a VALUE of its own is left alone only when everything in it is. */
  lemma {:induction false} GroupKind(p: Init, item: Item, top: bool, i: nat)
    requires i < |item.children| && !(p.val && item.c.value.Some?)
    requires item.c.redefines.None? || (top && p.isStatement)
    ensures KindOf(p, item, top) != One
    ensures KindOf(p, item, top) == Nothing ==> KindOf(p, item.children[i], false) == Nothing
  {
  }

  lemma {:induction false} CorrectBelow(p: Init, one: OneBytes, up: Level, down: Level, cfg: Config, at: int, m: Mem, m2: Mem, top: bool)
    requires Below(up, down) && down.item.c.redefines.None? && 1 <= down.sub <= down.item.c.occursMax
    requires Sound(up.item, up.laid, cfg) && !(p.val && up.item.c.value.Some?)
    requires up.item.c.redefines.None? || (top && p.isStatement)
    requires Correct(p, one, up.item, up.laid, at, m, m2, top)
    ensures Correct(p, one, down.item, down.laid, Occurrence(down.laid, at - up.laid.offset, down.sub), m, m2, false)
  {
    hide KindOf, UniformChar, Occurrence, Sound;
    var shift := at - up.laid.offset;
    GroupKind(p, up.item, top, down.pos);
    KidInside(up.item, up.laid, cfg, down.pos, at, down.sub);
    if KindOf(p, up.item, top) != Nothing {
      assert CorrectAll(p, one, up.item.children, up.laid.kids, shift, m, m2);
      assert CorrectEach(p, one, down.item, down.laid, shift, m, m2);
      assert CorrectOccurrence(p, one, down.item, down.laid, shift, down.sub, m, m2);
    }
  }

  /** What holds of the initialised item holds of every item in it that a reference reaches. */
  lemma {:induction false} CorrectReaches(p: Init, one: OneBytes, levels: seq<Level>, cfg: Config, shift: int, m: Mem, m2: Mem)
    requires Chain(levels, cfg) && NoRedefines(levels) && ByItem(p, levels)
    requires Correct(p, one, levels[0].item, levels[0].laid, shift + Address(levels[..1]), m, m2, p.isStatement)
    ensures var top := |levels| == 1 && p.isStatement;
            Correct(p, one, levels[|levels| - 1].item, levels[|levels| - 1].laid, shift + Address(levels), m, m2, top)
    decreases |levels|
  {
    hide KindOf, UniformChar, Occurrence, Correct, Sound, WellFormed, Address;
    var n := |levels| - 1;
    if n == 0 {
      assert levels[..1] == levels;
    } else {
      var up := levels[..n];
      ChainPrefix(levels, cfg, n);
      ChainSound(levels, cfg, n - 1);
      assert up[..1] == levels[..1];
      CorrectReaches(p, one, up, cfg, shift, m, m2);
      AddressStep(levels);
      ShiftOccurrence(levels[n].laid, Address(up) - up[n - 1].laid.offset, levels[n].sub, shift);
      assert Below(levels[n - 1], levels[n]);
      CorrectBelow(p, one, levels[n - 1], levels[n], cfg, shift + Address(up), m, m2, n == 1 && p.isStatement);
    }
  }

  lemma {:induction false} ShiftOccurrence(l: Laid, shift: int, s: int, more: int)
    ensures Occurrence(l, more + shift, s) == more + Occurrence(l, shift, s)
  {
  }

  /** The item that a reference with fixed subscripts initialises, and the one in it that `levels` reach.
      `shift` is where the occurrences that enclose the initialised item put it. */
  ghost predicate Reached(p: Init, root: bool, levels: seq<Level>, cfg: Config, shift: int, terms: seq<SubTerm>, env: Env) {
    && Chain(levels, cfg) && NoRedefines(levels) && ByItem(p, levels) && Within(terms, 0) && (root ==> shift == 0)
    && (AllOccurrences(p, root, levels[0].item)
        || Value(Ref(levels[0].laid.offset, terms), env) == shift + Address(levels[..1]))
  }

  lemma {:induction false} ReachedCorrect(p: Init, one: OneBytes, root: bool, levels: seq<Level>, cfg: Config, shift: int,
                                          terms: seq<SubTerm>, env: Env, m: Mem)
    requires Reached(p, root, levels, cfg, shift, terms, env) && Sized(one) && !ValueMissed(p, root, levels[0].item)
    ensures |levels[0].laid.kids| == |levels[0].item.children|
    ensures var last, top := levels[|levels| - 1], |levels| == 1 && p.isStatement;
            var m2 := ExecAll(EmitInitialize(p, one, root, levels[0].item, levels[0].laid, terms), env, m);
            |m2| == |m| && Correct(p, one, last.item, last.laid, shift + Address(levels), m, m2, top)
  {
    hide KindOf, UniformChar, EmitInitialize, Value, WellFormed, Sound, Occurrence, Correct, Address;
    var item, laid := levels[0].item, levels[0].laid;
    FirstAddress(levels);
    SoundKids(item, laid, cfg);
    SameKind(p, item);
    var m2 := ExecAll(EmitInitialize(p, one, root, item, laid, terms), env, m);
    if AllOccurrences(p, root, item) {
      AllInitialised(p, one, item, laid, cfg, terms, env, m);
      assert CorrectOccurrence(p, one, item, laid, 0, levels[0].sub, m, m2);
    } else {
      InitializeCorrect(p, one, root, item, laid, cfg, terms, env, m);
    }
    CorrectReaches(p, one, levels, cfg, shift, m, m2);
  }

  /** The fast form refines the simple one: after INITIALIZE, and in the initial state, the bytes of every
      elementary item that is under no redefinition, in every occurrence, are what initialising that item
      alone gives. */
  lemma {:induction false} LeafInitialised(p: Init, one: OneBytes, root: bool, levels: seq<Level>, cfg: Config, shift: int,
                                           terms: seq<SubTerm>, env: Env, m: Mem)
    requires Reached(p, root, levels, cfg, shift, terms, env) && Sized(one) && |levels| >= 2
    requires levels[|levels| - 1].item.children == []
    ensures |levels[0].laid.kids| == |levels[0].item.children|
    ensures var leaf, at := levels[|levels| - 1], shift + Address(levels);
            var m2 := ExecAll(EmitInitialize(p, one, root, levels[0].item, levels[0].laid, terms), env, m);
            Same(m2, Alone(p, one, leaf.item, leaf.laid, at, m), at, at + leaf.laid.size)
  {
    hide KindOf, UniformChar, EmitInitialize, Value, WellFormed, Sound, Occurrence, Correct, Address;
    ReachedCorrect(p, one, root, levels, cfg, shift, terms, env, m);
    var m2 := ExecAll(EmitInitialize(p, one, root, levels[0].item, levels[0].laid, terms), env, m);
    LeafAlone(p, one, levels[|levels| - 1].item, levels[|levels| - 1].laid, shift + Address(levels), m, m2);
  }

  lemma {:induction false} FirstAddress(levels: seq<Level>)
    requires levels != []
    ensures Address(levels[..1]) == Occurrence(levels[0].laid, 0, levels[0].sub)
  {
    var top := levels[..1];
    assert top[..0] == [];
    assert Shift(top) == Shift([]) + (levels[0].sub - 1) * levels[0].laid.size;
  }

  lemma {:induction false} SoundKids(item: Item, laid: Laid, cfg: Config)
    requires Sound(item, laid, cfg)
    ensures |laid.kids| == |item.children|
  {
  }

  lemma {:induction false} LeafAlone(p: Init, one: OneBytes, leaf: Item, l: Laid, at: int, m: Mem, m2: Mem)
    requires leaf.children == [] && |m| == |m2| && Correct(p, one, leaf, l, at, m, m2, false)
    ensures Same(m2, Alone(p, one, leaf, l, at, m), at, at + l.size)
  {
    hide KindOf, UniformChar;
  }
}
