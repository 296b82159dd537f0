/** The merged INITIALIZE code does to every item what initialising that item by itself would do,
    and touches nothing outside the initialised item. */
module InitializeProof {
  import opened Optional
  import opened Records
  import opened RecordLayout
  import opened Initialize

  /** What the parts of an item should hold at its occurrence at address `at`, item by item: an item
      that is left alone keeps its bytes, one that is initialised by itself holds its own value, any
      other elementary item is filled with its own character. Redefinitions are passed over. */
  ghost predicate Correct(p: Init, one: OneBytes, item: Item, laid: Laid, at: int, before: Mem, after: Mem, top: bool)
    decreases item, 0
  {
    match KindOf(p, item, top)
    case Nothing => Same(before, after, at, at + laid.size)
    case One => Holds(after, at, laid.size, one(item, laid.size))
    case _ =>
      if item.children == [] then
        UniformChar(item).Some? && Holds(after, at, laid.size, seq(laid.size, _ => UniformChar(item).value))
      else CorrectAll(p, one, item.children, laid.kids, at - laid.offset, before, after)
  }

  ghost predicate CorrectAll(p: Init, one: OneBytes, kids: seq<Item>, laid: seq<Laid>, shift: int, before: Mem, after: Mem)
    decreases kids
  {
    |laid| == |kids| && forall i :: 0 <= i < |kids| && kids[i].c.redefines.None? ==>
      CorrectEach(p, one, kids[i], laid[i], shift, before, after)
  }

  /** Every occurrence. */
  ghost predicate CorrectEach(p: Init, one: OneBytes, x: Item, l: Laid, shift: int, before: Mem, after: Mem)
    decreases x, 2
  {
    forall s :: 1 <= s <= x.c.occursMax ==> CorrectOccurrence(p, one, x, l, shift, s, before, after)
  }

  ghost predicate CorrectOccurrence(p: Init, one: OneBytes, x: Item, l: Laid, shift: int, s: int, before: Mem, after: Mem)
    decreases x, 1
  {
    Correct(p, one, x, l, Occurrence(l, shift, s), before, after, false)
  }

  /** Address of occurrence s of an item, when the enclosing occurrences shift it by `shift`. */
  function Occurrence(l: Laid, shift: int, s: int): int {
    shift + l.offset + (s - 1) * l.size
  }

  ghost predicate Same(m1: Mem, m2: Mem, lo: int, hi: int) {
    |m1| == |m2| && forall a :: lo <= a < hi && 0 <= a < |m1| ==> m1[a] == m2[a]
  }

  ghost predicate SameOutside(m1: Mem, m2: Mem, lo: int, hi: int) {
    |m1| == |m2| && forall a :: 0 <= a < |m1| && (a < lo || hi <= a) ==> m1[a] == m2[a]
  }

  ghost predicate Holds(m: Mem, at: int, size: nat, bytes: seq<nat>) {
    |bytes| == size && forall a :: at <= a < at + size && 0 <= a < |m| ==> m[a] == bytes[a - at]
  }

  ghost predicate Sized(one: OneBytes) {
    forall x, n :: |one(x, n)| == n
  }

  // --- Addresses of occurrences ------------------------------------------------------------------

  lemma {:induction false} OccurrenceInside(x: Item, l: Laid, shift: int, s: int)
    requires 1 <= s <= x.c.occursMax
    ensures shift + l.offset <= Occurrence(l, shift, s)
    ensures Occurrence(l, shift, s) + l.size <= shift + End(x, l)
  {
    var before: nat := s - 1;
    var after: nat := x.c.occursMax - s;
    assert before * l.size >= 0 && after * l.size >= 0;
    assert before * l.size + l.size + after * l.size == l.size * x.c.occursMax;
  }

  lemma {:induction false} KidInside(item: Item, laid: Laid, cfg: Config, i: nat, at: int, s: int)
    requires Sound(item, laid, cfg) && i < |item.children| && 1 <= s <= item.children[i].c.occursMax
    ensures |laid.kids| == |item.children| && Sound(item.children[i], laid.kids[i], cfg)
    ensures var o := Occurrence(laid.kids[i], at - laid.offset, s); at <= o && o + laid.kids[i].size <= at + laid.size
  {
    OccurrenceInside(item.children[i], laid.kids[i], at - laid.offset, s);
  }

  /** Correct speaks only of the item's own bytes. */
  lemma {:induction false} CorrectLocal(p: Init, one: OneBytes, item: Item, laid: Laid, cfg: Config, at: int,
                     old1: Mem, new1: Mem, old2: Mem, new2: Mem, top: bool)
    requires Sound(item, laid, cfg) && |old1| == |new1|
    requires Same(old1, old2, at, at + laid.size) && Same(new1, new2, at, at + laid.size)
    requires Correct(p, one, item, laid, at, old1, new1, top)
    ensures Correct(p, one, item, laid, at, old2, new2, top)
    decreases item
  {
    hide KindOf, UniformChar, Occurrence;
    var kind := KindOf(p, item, top);
    if kind != Nothing && kind != One && item.children != [] {
      forall i | 0 <= i < |item.children| && item.children[i].c.redefines.None?
        ensures CorrectEach(p, one, item.children[i], laid.kids[i], at - laid.offset, old2, new2)
      {
        var x, l, shift := item.children[i], laid.kids[i], at - laid.offset;
        assert CorrectEach(p, one, x, l, shift, old1, new1);
        forall s | 1 <= s <= x.c.occursMax
          ensures CorrectOccurrence(p, one, x, l, shift, s, old2, new2)
        {
          KidInside(item, laid, cfg, i, at, s);
          assert CorrectOccurrence(p, one, x, l, shift, s, old1, new1);
          CorrectLocal(p, one, x, l, cfg, Occurrence(l, shift, s), old1, new1, old2, new2, false);
        }
      }
    }
  }

  // --- Uniform items -----------------------------------------------------------------------------

  /** An elementary item that gets its default by class always has a fill character. */
  lemma {:induction false} DefaultHasChar(p: Init, item: Item, top: bool)
    requires item.children == [] && KindOf(p, item, top) == Default
    ensures UniformChar(item).Some?
  {
  }

  lemma {:induction false} DefaultKids(p: Init, item: Item, top: bool, i: nat)
    requires KindOf(p, item, top) == Default && i < |item.children|
    ensures KindOf(p, item.children[i], false) == Default && item.children[i].c.redefines.None?
    ensures UniformChar(item).Some? ==> UniformChar(item.children[i]) == UniformChar(item)
  {
  }

  /** One fill of a uniform item is right for everything in it. */
  lemma {:induction false} UniformFill(p: Init, one: OneBytes, item: Item, laid: Laid, cfg: Config, at: int, before: Mem, after: Mem, top: bool)
    requires Sound(item, laid, cfg) && KindOf(p, item, top) == Default && UniformChar(item).Some?
    requires Holds(after, at, laid.size, seq(laid.size, _ => UniformChar(item).value))
    ensures Correct(p, one, item, laid, at, before, after, top)
    decreases item
  {
    hide KindOf, UniformChar, Occurrence;
    if item.children != [] {
      var c := UniformChar(item).value;
      forall i | 0 <= i < |item.children| && item.children[i].c.redefines.None?
        ensures CorrectEach(p, one, item.children[i], laid.kids[i], at - laid.offset, before, after)
      {
        var x, l, shift := item.children[i], laid.kids[i], at - laid.offset;
        DefaultKids(p, item, top, i);
        forall s | 1 <= s <= x.c.occursMax
          ensures CorrectOccurrence(p, one, x, l, shift, s, before, after)
        {
          KidInside(item, laid, cfg, i, at, s);
          UniformFill(p, one, x, l, cfg, Occurrence(l, shift, s), before, after, false);
        }
      }
    }
  }

  // --- Running emitted code ----------------------------------------------------------------------

  lemma {:induction false} ExecConcat(xs: seq<Stmt>, ys: seq<Stmt>, env: Env, m: Mem)
    ensures ExecAll(xs + ys, env, m) == ExecAll(ys, env, ExecAll(xs, env, m))
    decreases |xs|
  {
    if xs == [] {
      assert xs + ys == ys;
    } else {
      assert (xs + ys)[1..] == xs[1..] + ys;
      ExecConcat(xs[1..], ys, env, Exec(xs[0], env, m));
    }
  }

  lemma {:induction false} ExecOne(x: Stmt, env: Env, m: Mem)
    ensures ExecAll([x], env, m) == Exec(x, env, m)
  {
    assert ExecAll([], env, Exec(x, env, m)) == Exec(x, env, m);
  }

  /** No counter beyond depth is used. */
  ghost predicate Within(terms: seq<SubTerm>, depth: nat) {
    forall k :: 0 <= k < |terms| && terms[k].index.Counter? ==> terms[k].index.n <= depth
  }

  lemma {:induction false} CounterUnused(terms: seq<SubTerm>, depth: nat, env: Env, i: nat, v: int)
    requires Within(terms, depth) && i > depth
    ensures TermsValue(terms, env[i := v]) == TermsValue(terms, env)
    decreases |terms|
  {
    if terms != [] { CounterUnused(terms[..|terms| - 1], depth, env, i, v); }
  }

  lemma {:induction false} TermsSnoc(terms: seq<SubTerm>, x: SubTerm, env: Env)
    ensures TermsValue(terms + [x], env) == TermsValue(terms, env) + x.size * (IndexValue(x.index, env) - 1)
  {
    assert (terms + [x])[..|terms|] == terms;
  }

  // --- One child, with its loop ------------------------------------------------------------------

  /** What running code m -> m2 must do for item x placed as l, in every occurrence. */
  ghost predicate Initialised(p: Init, one: OneBytes, x: Item, l: Laid, shift: int, m: Mem, m2: Mem) {
    CorrectEach(p, one, x, l, shift, m, m2) && SameOutside(m, m2, shift + l.offset, shift + End(x, l))
  }

  /** The loop around a child, from its k-th turn on: occurrences before k are done, those from k on
      are still as at the start. */
  lemma {:induction false} LoopInitialises(p: Init, one: OneBytes, x: Item, l: Laid, cfg: Config, terms: seq<SubTerm>, depth: nat,
                        env: Env, k: nat, m: Mem)
    requires Sound(x, l, cfg) && WellFormed(x) && Sized(one) && Within(terms, depth) && 1 <= k <= x.c.occursMax + 1
    requires KindOf(p, x, false) != Nothing && (KindOf(p, x, false) == Default ==> UniformChar(x).None?)
    ensures var shift := TermsValue(terms, env);
            var body := EmitBody(p, one, x, l, terms + [SubTerm(l.size, Counter(depth + 1))], depth + 1);
            var m2 := ExecLoop(depth + 1, k, x.c.occursMax, body, env, m);
            && SameOutside(m, m2, Occurrence(l, shift, k), shift + End(x, l))
            && forall s :: k <= s <= x.c.occursMax ==> CorrectOccurrence(p, one, x, l, shift, s, m, m2)
    decreases x, 3, x.c.occursMax + 1 - k
  {
    hide KindOf, UniformChar, Correct, Sound, EmitBody;
    var shift := TermsValue(terms, env);
    var inner := terms + [SubTerm(l.size, Counter(depth + 1))];
    var body := EmitBody(p, one, x, l, inner, depth + 1);
    var m2 := ExecLoop(depth + 1, k, x.c.occursMax, body, env, m);
    if k > x.c.occursMax {
    } else {
      var env1 := env[depth + 1 := k];
      TermsSnoc(terms, SubTerm(l.size, Counter(depth + 1)), env1);
      CounterUnused(terms, depth, env, depth + 1, k);
      assert Value(Ref(l.offset, inner), env1) == Occurrence(l, shift, k);
      assert Within(inner, depth + 1);
      BodyInitialises(p, one, x, l, cfg, inner, depth + 1, env1, m);
      var m1 := ExecAll(body, env1, m);
      LoopInitialises(p, one, x, l, cfg, terms, depth, env, k + 1, m1);
      LoopTurn(p, one, x, l, cfg, shift, k, m, m1, m2);
    }
  }

  lemma {:induction false} OccurrencesOrdered(x: Item, l: Laid, shift: int, s: int, t: int)
    requires s < t
    ensures Occurrence(l, shift, s) + l.size <= Occurrence(l, shift, t)
  {
    var gap: nat := t - s - 1;
    assert gap * l.size >= 0;
    assert (t - 1) * l.size == (s - 1) * l.size + l.size + gap * l.size;
  }

  /** The turn for occurrence k (m to m1) and the turns after it (m1 to m2), together. */
  lemma {:induction false} LoopTurn(p: Init, one: OneBytes, x: Item, l: Laid, cfg: Config, shift: int, k: nat, m: Mem, m1: Mem, m2: Mem)
    requires Sound(x, l, cfg) && 1 <= k <= x.c.occursMax
    requires Correct(p, one, x, l, Occurrence(l, shift, k), m, m1, false)
    requires SameOutside(m, m1, Occurrence(l, shift, k), Occurrence(l, shift, k) + l.size)
    requires SameOutside(m1, m2, Occurrence(l, shift, k + 1), shift + End(x, l))
    requires forall s :: k + 1 <= s <= x.c.occursMax ==> CorrectOccurrence(p, one, x, l, shift, s, m1, m2)
    ensures SameOutside(m, m2, Occurrence(l, shift, k), shift + End(x, l))
    ensures forall s :: k <= s <= x.c.occursMax ==> CorrectOccurrence(p, one, x, l, shift, s, m, m2)
  {
    hide Correct, Sound, Occurrence;
    OccurrenceInside(x, l, shift, k);
    OccurrencesOrdered(x, l, shift, k, k + 1);
    forall s | k <= s <= x.c.occursMax ensures CorrectOccurrence(p, one, x, l, shift, s, m, m2) {
      var o := Occurrence(l, shift, s);
      if s == k {
        CorrectLocal(p, one, x, l, cfg, o, m, m1, m, m2, false);
      } else {
        OccurrencesOrdered(x, l, shift, k, s);
        assert CorrectOccurrence(p, one, x, l, shift, s, m1, m2);
        CorrectLocal(p, one, x, l, cfg, o, m1, m2, m, m2, false);
      }
    }
  }

  lemma {:induction false} ChildInitialises(p: Init, one: OneBytes, x: Item, l: Laid, cfg: Config, terms: seq<SubTerm>, depth: nat,
                         env: Env, m: Mem)
    requires Sound(x, l, cfg) && WellFormed(x) && Sized(one) && Within(terms, depth)
    requires KindOf(p, x, false) != Nothing && (KindOf(p, x, false) == Default ==> UniformChar(x).None?)
    ensures Initialised(p, one, x, l, TermsValue(terms, env), m, ExecAll(EmitChild(p, one, x, l, terms, depth), env, m))
    decreases x, 4
  {
    hide KindOf, UniformChar, Correct, Sound, EmitBody;
    var shift := TermsValue(terms, env);
    if x.c.occurs {
      var inner := terms + [SubTerm(l.size, Counter(depth + 1))];
      var body := EmitBody(p, one, x, l, inner, depth + 1);
      ExecOne(Loop(depth + 1, x.c.occursMax, body), env, m);
      LoopInitialises(p, one, x, l, cfg, terms, depth, env, 1, m);
      assert Occurrence(l, shift, 1) == shift + l.offset;
      assert EmitChild(p, one, x, l, terms, depth) == [Loop(depth + 1, x.c.occursMax, body)];
      var m2 := ExecAll(EmitChild(p, one, x, l, terms, depth), env, m);
      assert m2 == ExecLoop(depth + 1, 1, x.c.occursMax, body, env, m);
      assert CorrectEach(p, one, x, l, shift, m, m2);
    } else {
      assert x.c.occursMax == 1;
      BodyInitialises(p, one, x, l, cfg, terms, depth, env, m);
      var m2 := ExecAll(EmitChild(p, one, x, l, terms, depth), env, m);
      assert Occurrence(l, shift, 1) == Value(Ref(l.offset, terms), env);
      assert CorrectOccurrence(p, one, x, l, shift, 1, m, m2);
      assert Extent(x, l) == l.size;
    }
  }

  lemma {:induction false} BodyInitialises(p: Init, one: OneBytes, x: Item, l: Laid, cfg: Config, terms: seq<SubTerm>, depth: nat,
                        env: Env, m: Mem)
    requires Sound(x, l, cfg) && WellFormed(x) && Sized(one) && Within(terms, depth)
    requires KindOf(p, x, false) != Nothing && (KindOf(p, x, false) == Default ==> UniformChar(x).None?)
    ensures var at := Value(Ref(l.offset, terms), env);
            var m2 := ExecAll(EmitBody(p, one, x, l, terms, depth), env, m);
            Correct(p, one, x, l, at, m, m2, false) && SameOutside(m, m2, at, at + l.size)
    decreases x, 2
  {
    hide UniformChar, EmitFrom;
    if KindOf(p, x, false) == One {
      ExecOne(InitOne(Ref(l.offset, terms), one(x, l.size)), env, m);
    } else {
      if x.children == [] && KindOf(p, x, false) == Default { DefaultHasChar(p, x, false); }
      CompoundInitialises(p, one, x, l, cfg, terms, depth, env, m);
    }
  }

  /** output_initialize_compound: right for every child, and confined to the occurrence. */
  lemma {:induction false} CompoundInitialises(p: Init, one: OneBytes, item: Item, laid: Laid, cfg: Config, terms: seq<SubTerm>, depth: nat,
                            env: Env, m: Mem)
    requires Sound(item, laid, cfg) && WellFormed(item) && Sized(one) && Within(terms, depth)
    ensures var shift := TermsValue(terms, env);
            var m2 := ExecAll(EmitCompound(p, one, item, laid, terms, depth), env, m);
            && CorrectAll(p, one, item.children, laid.kids, shift, m, m2)
            && SameOutside(m, m2, shift + laid.offset, shift + laid.offset + laid.size)
    decreases item, 1
  {
    hide KindOf, UniformChar, EmitFrom, CorrectEach, WellFormed;
    FromInitialises(p, one, item, laid, cfg, terms, depth, 0, env, m);
    var k := NextItem(item.children, 0);
    assert laid.offset <= Start(laid, k);
    var m2 := ExecAll(EmitCompound(p, one, item, laid, terms, depth), env, m);
    forall i | 0 <= i < |item.children| && item.children[i].c.redefines.None?
      ensures CorrectEach(p, one, item.children[i], laid.kids[i], TermsValue(terms, env), m, m2)
    {
      assert i >= 0;
    }
  }

  // --- The children, from position j on ------------------------------------------------------------

  /** From child j on: everything before the next item of its own is as it was, and every later child
      is right. */
  ghost predicate RightFrom(p: Init, one: OneBytes, item: Item, laid: Laid, shift: int, j: nat, m: Mem, m2: Mem)
    requires |laid.kids| == |item.children| && j <= |item.children|
  {
    && SameOutside(m, m2, shift + Start(laid, NextItem(item.children, j)), shift + laid.offset + laid.size)
    && forall i :: j <= i < |item.children| && item.children[i].c.redefines.None? ==>
         CorrectEach(p, one, item.children[i], laid.kids[i], shift, m, m2)
  }

  /** Positions that are no redefinitions start in order, and what is declared before one ends
      before it. */
  lemma {:induction false} StartsOrdered(item: Item, laid: Laid, cfg: Config, i: nat, k: nat)
    requires Sound(item, laid, cfg) && i < k <= |item.children|
    requires k < |item.children| ==> item.children[k].c.redefines.None?
    ensures |laid.kids| == |item.children|
    ensures laid.offset <= laid.kids[i].offset && End(item.children[i], laid.kids[i]) <= Start(laid, k) <= laid.offset + laid.size
  {
  }

  /** Changes outside the extent of a child do not matter to it. */
  lemma {:induction false} EachLocal(p: Init, one: OneBytes, x: Item, l: Laid, cfg: Config, shift: int,
                  old1: Mem, new1: Mem, old2: Mem, new2: Mem)
    requires Sound(x, l, cfg) && |old1| == |new1| && CorrectEach(p, one, x, l, shift, old1, new1)
    requires Same(old1, old2, shift + l.offset, shift + End(x, l)) && Same(new1, new2, shift + l.offset, shift + End(x, l))
    ensures CorrectEach(p, one, x, l, shift, old2, new2)
  {
    hide Correct, Sound, Occurrence;
    forall s | 1 <= s <= x.c.occursMax ensures CorrectOccurrence(p, one, x, l, shift, s, old2, new2) {
      assert CorrectOccurrence(p, one, x, l, shift, s, old1, new1);
      OccurrenceInside(x, l, shift, s);
      CorrectLocal(p, one, x, l, cfg, Occurrence(l, shift, s), old1, new1, old2, new2, false);
    }
  }

  /** The code for positions j .. e (m to m1) wrote only in their extents; the code for the rest
      (m1 to m2) is right from e on. Together they are right from j on. */
  lemma {:induction false} Join(p: Init, one: OneBytes, item: Item, laid: Laid, cfg: Config, shift: int, j: nat, e: nat,
             m: Mem, m1: Mem, m2: Mem)
    requires Sound(item, laid, cfg) && |laid.kids| == |item.children| && j < e <= |item.children|
    requires item.children[j].c.redefines.None?
    requires SameOutside(m, m1, shift + laid.kids[j].offset, shift + Start(laid, NextItem(item.children, e)))
    requires forall i :: j <= i < e && item.children[i].c.redefines.None? ==>
               CorrectEach(p, one, item.children[i], laid.kids[i], shift, m, m1)
    requires RightFrom(p, one, item, laid, shift, e, m1, m2)
    ensures RightFrom(p, one, item, laid, shift, j, m, m2)
  {
    hide CorrectEach, KindOf, UniformChar, Sound;
    var k := NextItem(item.children, e);
    StartsOrdered(item, laid, cfg, j, k);
    forall i | j <= i < |item.children| && item.children[i].c.redefines.None?
      ensures CorrectEach(p, one, item.children[i], laid.kids[i], shift, m, m2)
    {
      KidSound(item, laid, cfg, i);
      if i < e {
        StartsOrdered(item, laid, cfg, i, k);
        EachLocal(p, one, item.children[i], laid.kids[i], cfg, shift, m, m1, m, m2);
      } else {
        BehindNext(item, laid, cfg, e, i);
        EachLocal(p, one, item.children[i], laid.kids[i], cfg, shift, m1, m2, m, m2);
      }
    }
  }

  lemma {:induction false} BehindNext(item: Item, laid: Laid, cfg: Config, e: nat, i: nat)
    requires Sound(item, laid, cfg) && e <= i < |item.children| && item.children[i].c.redefines.None?
    ensures |laid.kids| == |item.children|
    ensures Start(laid, NextItem(item.children, e)) <= laid.kids[i].offset
  {
    hide Sound;
    var k := NextItem(item.children, e);
    KidSound(item, laid, cfg, i);
    if k < i { StartsOrdered(item, laid, cfg, k, i); }
  }

  lemma {:induction false} KidSound(item: Item, laid: Laid, cfg: Config, i: nat)
    requires Sound(item, laid, cfg) && i < |item.children|
    ensures |laid.kids| == |item.children| && Sound(item.children[i], laid.kids[i], cfg)
    ensures WellFormed(item) ==> WellFormed(item.children[i])
  {
    assert SoundAll(item.children, laid.kids, cfg);
    assert WellFormed(item) ==> WellFormedSiblings(item.children);
  }

  lemma {:induction false} PassRedefinition(p: Init, one: OneBytes, item: Item, laid: Laid, shift: int, j: nat, m: Mem, m2: Mem)
    requires |laid.kids| == |item.children| && j < |item.children| && item.children[j].c.redefines.Some?
    requires RightFrom(p, one, item, laid, shift, j + 1, m, m2)
    ensures RightFrom(p, one, item, laid, shift, j, m, m2)
  {
    hide CorrectEach;
  }

  lemma {:induction false} FromInitialises(p: Init, one: OneBytes, item: Item, laid: Laid, cfg: Config, terms: seq<SubTerm>, depth: nat,
                        j: nat, env: Env, m: Mem)
    requires Sound(item, laid, cfg) && WellFormed(item) && Sized(one) && Within(terms, depth) && j <= |item.children|
    ensures |laid.kids| == |item.children|
    ensures RightFrom(p, one, item, laid, TermsValue(terms, env), j, m,
                      ExecAll(EmitFrom(p, one, item, laid, terms, depth, j), env, m))
    decreases item, 0, |item.children| - j
  {
    hide KindOf, UniformChar, CorrectEach, Correct, EmitChild;
    assert |laid.kids| == |item.children|;
    if j < |item.children| {
      hide RightFrom, Sound, WellFormed, Sized, Within, TermsValue, Exec, Inside, InOrder, NextItem, RunEnd;
      var x, l := item.children[j], laid.kids[j];
      var shift := TermsValue(terms, env);
      KidSound(item, laid, cfg, j);
      if KindOf(p, x, false) == Nothing {
        FromInitialises(p, one, item, laid, cfg, terms, depth, j + 1, env, m);
        var m2 := ExecAll(EmitFrom(p, one, item, laid, terms, depth, j), env, m);
        if x.c.redefines.None? {
          SkipIsRight(p, one, item, laid, cfg, shift, j, m, m2);
        } else {
          PassRedefinition(p, one, item, laid, shift, j, m, m2);
        }
      } else {
        NotRedefined(p, x);
        if KindOf(p, x, false) == Default && UniformChar(x).Some? {
          RunInitialises(p, one, item, laid, cfg, terms, depth, j, env, m);
        } else {
          var code := EmitChild(p, one, x, l, terms, depth);
          ChildInitialises(p, one, x, l, cfg, terms, depth, env, m);
          FromInitialises(p, one, item, laid, cfg, terms, depth, j + 1, env, ExecAll(code, env, m));
          ExecConcat(code, EmitFrom(p, one, item, laid, terms, depth, j + 1), env, m);
          ChildThenRest(p, one, item, laid, cfg, shift, j, m, ExecAll(code, env, m),
                        ExecAll(EmitFrom(p, one, item, laid, terms, depth, j + 1), env, ExecAll(code, env, m)));
        }
      }
    }
  }

  lemma {:induction false} SkipIsRight(p: Init, one: OneBytes, item: Item, laid: Laid, cfg: Config, shift: int, j: nat, m: Mem, m2: Mem)
    requires Sound(item, laid, cfg) && |laid.kids| == |item.children| && j < |item.children|
    requires KindOf(p, item.children[j], false) == Nothing && item.children[j].c.redefines.None?
    requires RightFrom(p, one, item, laid, shift, j + 1, m, m2)
    ensures RightFrom(p, one, item, laid, shift, j, m, m2)
  {
    hide CorrectEach, KindOf, UniformChar, RightFrom;
    NothingIsRight(p, one, item.children[j], laid.kids[j], cfg, shift, m);
    Join(p, one, item, laid, cfg, shift, j, j + 1, m, m, m2);
  }

  lemma {:induction false} ChildThenRest(p: Init, one: OneBytes, item: Item, laid: Laid, cfg: Config, shift: int, j: nat,
                      m: Mem, m1: Mem, m2: Mem)
    requires Sound(item, laid, cfg) && |laid.kids| == |item.children| && j < |item.children|
    requires item.children[j].c.redefines.None?
    requires Initialised(p, one, item.children[j], laid.kids[j], shift, m, m1)
    requires RightFrom(p, one, item, laid, shift, j + 1, m1, m2)
    ensures RightFrom(p, one, item, laid, shift, j, m, m2)
  {
    hide CorrectEach, KindOf, UniformChar, RightFrom;
    StartsOrdered(item, laid, cfg, j, NextItem(item.children, j + 1));
    Join(p, one, item, laid, cfg, shift, j, j + 1, m, m1, m2);
  }

  lemma {:induction false} NotRedefined(p: Init, x: Item)
    requires KindOf(p, x, false) != Nothing
    ensures x.c.redefines.None?
  {
  }

  lemma {:induction false} NothingIsRight(p: Init, one: OneBytes, x: Item, l: Laid, cfg: Config, shift: int, m: Mem)
    requires KindOf(p, x, false) == Nothing
    ensures CorrectEach(p, one, x, l, shift, m, m)
  {
    hide KindOf;
    forall s | 1 <= s <= x.c.occursMax ensures CorrectOccurrence(p, one, x, l, shift, s, m, m) {
    }
  }

  /** One memset for a run of items is right for each of them, and ends where the next item starts. */
  lemma {:induction false} RunInitialises(p: Init, one: OneBytes, item: Item, laid: Laid, cfg: Config, terms: seq<SubTerm>, depth: nat,
                       j: nat, env: Env, m: Mem)
    requires Sound(item, laid, cfg) && WellFormed(item) && Sized(one) && Within(terms, depth) && j < |item.children|
    requires var x := item.children[j];
             x.c.redefines.None? && KindOf(p, x, false) == Default && UniformChar(x).Some?
    ensures |laid.kids| == |item.children|
    ensures RightFrom(p, one, item, laid, TermsValue(terms, env), j, m,
                      ExecAll(EmitFrom(p, one, item, laid, terms, depth, j), env, m))
    decreases item, 0, |item.children| - j, 0
  {
    hide KindOf, UniformChar, CorrectEach, Correct, EmitChild, EmitFrom, WellFormed, Sized, RightFrom, Sound, Within, TermsValue, RunEnd, NextItem, SameOutside, ExecAll;
    KidSound(item, laid, cfg, j);
    var x, l := item.children[j], laid.kids[j];
    var shift := TermsValue(terms, env);
    var c := UniformChar(x);
    var first := if x.c.occurs then [SubTerm(l.size, Fixed(1))] else [];
    var e := RunEnd(p, item.children, c, j + 1);
    var fill := Memset(Ref(l.offset, terms + first), c.value, AsSize(Start(laid, e) - l.offset));
    StartsOrdered(item, laid, cfg, j, e);
    FirstOccurrence(terms, l.size, env);
    assert terms + [] == terms;
    assert Value(Ref(l.offset, terms + first), env) == shift + l.offset;
    var m1 := Exec(fill, env, m);
    ExecOne(fill, env, m);
    var rest := EmitFrom(p, one, item, laid, terms, depth, e);
    ExecConcat([fill], rest, env, m);
    RunEmits(p, one, item, laid, terms, depth, j);
    FromInitialises(p, one, item, laid, cfg, terms, depth, e, env, m1);
    RunFilled(p, one, item, laid, cfg, shift, j, e, c.value, m, m1);
    Join(p, one, item, laid, cfg, shift, j, e, m, m1, ExecAll(rest, env, m1));
  }

  lemma {:induction false} RunEmits(p: Init, one: OneBytes, item: Item, laid: Laid, terms: seq<SubTerm>, depth: nat, j: nat)
    requires |laid.kids| == |item.children| && j < |item.children|
    requires var x := item.children[j]; KindOf(p, x, false) == Default && UniformChar(x).Some?
    ensures var x, l, c := item.children[j], laid.kids[j], UniformChar(item.children[j]);
            var first := if x.c.occurs then [SubTerm(l.size, Fixed(1))] else [];
            var e := RunEnd(p, item.children, c, j + 1);
            EmitFrom(p, one, item, laid, terms, depth, j) ==
              [Memset(Ref(l.offset, terms + first), c.value, AsSize(Start(laid, e) - l.offset))]
              + EmitFrom(p, one, item, laid, terms, depth, e)
  {
    hide KindOf, UniformChar;
  }

  lemma {:induction false} RunFilled(p: Init, one: OneBytes, item: Item, laid: Laid, cfg: Config, shift: int, j: nat, e: nat, c: nat,
                  m: Mem, m1: Mem)
    requires Sound(item, laid, cfg) && |laid.kids| == |item.children| && j < e <= |item.children|
    requires item.children[j].c.redefines.None? && (e < |item.children| ==> item.children[e].c.redefines.None?)
    requires forall i :: j <= i < e && item.children[i].c.redefines.None? ==>
               KindOf(p, item.children[i], false) == Default && UniformChar(item.children[i]) == Some(c)
    requires m1 == Fill(m, shift + laid.kids[j].offset, c, AsSize(Start(laid, e) - laid.kids[j].offset))
    ensures NextItem(item.children, e) == e
    ensures SameOutside(m, m1, shift + laid.kids[j].offset, shift + Start(laid, e))
    ensures forall i :: j <= i < e && item.children[i].c.redefines.None? ==>
              CorrectEach(p, one, item.children[i], laid.kids[i], shift, m, m1)
  {
    hide KindOf, UniformChar, CorrectEach;
    StartsOrdered(item, laid, cfg, j, e);
    forall i | j <= i < e && item.children[i].c.redefines.None?
      ensures CorrectEach(p, one, item.children[i], laid.kids[i], shift, m, m1)
    {
      KidSound(item, laid, cfg, i);
      StartsOrdered(item, laid, cfg, i, e);
      if j < i { StartsOrdered(item, laid, cfg, j, i); }
      EachFilled(p, one, item.children[i], laid.kids[i], cfg, shift, m, m1, c);
    }
  }

  lemma {:induction false} FirstOccurrence(terms: seq<SubTerm>, size: nat, env: Env)
    ensures TermsValue(terms + [SubTerm(size, Fixed(1))], env) == TermsValue(terms, env)
  {
    TermsSnoc(terms, SubTerm(size, Fixed(1)), env);
  }

  lemma {:induction false} EachFilled(p: Init, one: OneBytes, x: Item, l: Laid, cfg: Config, shift: int, m: Mem, m1: Mem, c: nat)
    requires Sound(x, l, cfg) && KindOf(p, x, false) == Default && UniformChar(x) == Some(c)
    requires forall a :: shift + l.offset <= a < shift + End(x, l) && 0 <= a < |m1| ==> m1[a] == c
    ensures CorrectEach(p, one, x, l, shift, m, m1)
  {
    hide Correct, Sound, Occurrence, KindOf, UniformChar;
    forall s | 1 <= s <= x.c.occursMax ensures CorrectOccurrence(p, one, x, l, shift, s, m, m1) {
      OccurrenceInside(x, l, shift, s);
      UniformFill(p, one, x, l, cfg, Occurrence(l, shift, s), m, m1, false);
    }
  }
}
