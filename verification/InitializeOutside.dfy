/** What the initialisation of one occurrence does to the other ones. */
module InitializeOutside {
  import opened Optional
  import opened Records
  import opened RecordLayout
  import opened Initialize
  import opened InitializeProof
  import opened InitializeTheorems
  import opened InitializeOccurs

  // --- Whether anything is written -------------------------------------------------------------------

  /** The item as one to initialise by itself: something in it has a byte that is written. */
  predicate Touches(p: Init, item: Item, laid: Laid)
    decreases item, 1
  {
    match KindOf(p, item, false)
    case Nothing => false
    case One => laid.size > 0
    case _ => |laid.kids| == |item.children| && TouchesFrom(p, item, laid, 0)
  }

  /** From child j on: an item that is initialised by itself, or a run of items that are filled. */
  predicate TouchesFrom(p: Init, item: Item, laid: Laid, j: nat)
    requires |laid.kids| == |item.children| && j <= |item.children|
    decreases item, 0, |item.children| - j
  {
    j < |item.children| && (
      var f, c := item.children[j], UniformChar(item.children[j]);
      if KindOf(p, f, false) == Default && c.Some? then
        var e := RunEnd(p, item.children, c, j + 1);
        Start(laid, e) > laid.kids[j].offset || TouchesFrom(p, item, laid, e)
      else Touches(p, f, laid.kids[j]) || TouchesFrom(p, item, laid, j + 1))
  }

  // --- Nothing is written ----------------------------------------------------------------------------

  lemma {:induction false} UntouchedFrom(p: Init, one: OneBytes, item: Item, laid: Laid, terms: seq<SubTerm>, depth: nat, j: nat,
                                         env: Env, m: Mem)
    requires Sized(one) && |laid.kids| == |item.children| && j <= |item.children| && !TouchesFrom(p, item, laid, j)
    ensures ExecAll(EmitFrom(p, one, item, laid, terms, depth, j), env, m) == m
    decreases item, 0, |item.children| - j
  {
    hide KindOf, UniformChar, EmitChild, Touches, Exec;
    if j < |item.children| {
      var f, c := item.children[j], UniformChar(item.children[j]);
      if KindOf(p, f, false) == Nothing {
        UntouchedFrom(p, one, item, laid, terms, depth, j + 1, env, m);
      } else if KindOf(p, f, false) == Default && c.Some? {
        var e := RunEnd(p, item.children, c, j + 1);
        UntouchedFrom(p, one, item, laid, terms, depth, e, env, m);
        RunEmits(p, one, item, laid, terms, depth, j);
        var fill := EmitFrom(p, one, item, laid, terms, depth, j)[0];
        FillNothing(fill, env, m);
        ExecOne(fill, env, m);
        ExecConcat([fill], EmitFrom(p, one, item, laid, terms, depth, e), env, m);
      } else {
        UntouchedChild(p, one, f, laid.kids[j], terms, depth, env, m);
        UntouchedFrom(p, one, item, laid, terms, depth, j + 1, env, m);
        ExecConcat(EmitChild(p, one, f, laid.kids[j], terms, depth), EmitFrom(p, one, item, laid, terms, depth, j + 1), env, m);
      }
    }
  }

  lemma {:induction false} FillNothing(fill: Stmt, env: Env, m: Mem)
    requires fill.Memset? && fill.size == 0
    ensures Exec(fill, env, m) == m
  {
  }

  lemma {:induction false} UntouchedChild(p: Init, one: OneBytes, f: Item, l: Laid, terms: seq<SubTerm>, depth: nat, env: Env, m: Mem)
    requires Sized(one) && !Touches(p, f, l) && KindOf(p, f, false) != Nothing
    ensures ExecAll(EmitChild(p, one, f, l, terms, depth), env, m) == m
    decreases f, 4
  {
    hide KindOf, UniformChar, EmitBody, Touches, ExecLoop;
    if f.c.occurs {
      var inner := terms + [SubTerm(l.size, Counter(depth + 1))];
      var body := EmitBody(p, one, f, l, inner, depth + 1);
      ExecOne(Loop(depth + 1, f.c.occursMax, body), env, m);
      UntouchedLoop(p, one, f, l, inner, depth + 1, 1, env, m);
    } else {
      UntouchedBody(p, one, f, l, terms, depth, env, m);
    }
  }

  lemma {:induction false} UntouchedLoop(p: Init, one: OneBytes, f: Item, l: Laid, inner: seq<SubTerm>, i: nat, k: nat, env: Env, m: Mem)
    requires Sized(one) && !Touches(p, f, l) && KindOf(p, f, false) != Nothing
    ensures ExecLoop(i, k, f.c.occursMax, EmitBody(p, one, f, l, inner, i), env, m) == m
    decreases f, 3, if k <= f.c.occursMax then f.c.occursMax - k + 1 else 0
  {
    hide KindOf, UniformChar, EmitBody, Touches;
    if k <= f.c.occursMax {
      UntouchedBody(p, one, f, l, inner, i, env[i := k], m);
      UntouchedLoop(p, one, f, l, inner, i, k + 1, env, m);
    }
  }

  lemma {:induction false} UntouchedBody(p: Init, one: OneBytes, f: Item, l: Laid, terms: seq<SubTerm>, depth: nat, env: Env, m: Mem)
    requires Sized(one) && !Touches(p, f, l) && KindOf(p, f, false) != Nothing
    ensures ExecAll(EmitBody(p, one, f, l, terms, depth), env, m) == m
    decreases f, 2
  {
    hide KindOf, UniformChar, EmitFrom, TouchesFrom;
    if KindOf(p, f, false) == One {
      ExecOne(InitOne(Ref(l.offset, terms), one(f, l.size)), env, m);
    } else if |l.kids| == |f.children| {
      UntouchedFrom(p, one, f, l, terms, depth, 0, env, m);
    }
  }

  // --- Something is written --------------------------------------------------------------------------

  /** Values that no byte of these programs is set to. */
  ghost predicate NeverOne(xs: seq<Stmt>)
    decreases xs
  {
    forall i :: 0 <= i < |xs| ==>
      match xs[i]
      case Memset(_, c, _) => c != 1
      case InitOne(_, bytes) => forall k :: 0 <= k < |bytes| ==> bytes[k] != 1
      case Loop(_, _, body) => NeverOne(body)
  }

  /** Bytes that are not 1 stay so. */
  ghost predicate StaysSet(m: Mem, m2: Mem) {
    |m| == |m2| && forall a :: 0 <= a < |m| && m[a] != 1 ==> m2[a] != 1
  }

  lemma {:induction false} AllStaySet(xs: seq<Stmt>, env: Env, m: Mem)
    requires NeverOne(xs)
    ensures StaysSet(m, ExecAll(xs, env, m))
    decreases xs, 0
  {
    if xs != [] {
      var m1 := Exec(xs[0], env, m);
      if xs[0].Loop? { LoopStaysSet(xs[0].i, 1, xs[0].count, xs[0].body, env, m); }
      assert NeverOne(xs[1..]) by { assert forall i :: 0 <= i < |xs| - 1 ==> xs[1..][i] == xs[i + 1]; }
      AllStaySet(xs[1..], env, m1);
    }
  }

  lemma {:induction false} LoopStaysSet(i: nat, k: nat, count: nat, body: seq<Stmt>, env: Env, m: Mem)
    requires NeverOne(body)
    ensures StaysSet(m, ExecLoop(i, k, count, body, env, m))
    decreases body, 1, if k <= count then count - k + 1 else 0
  {
    if k <= count {
      AllStaySet(body, env[i := k], m);
      LoopStaysSet(i, k + 1, count, body, env, ExecAll(body, env[i := k], m));
    }
  }

  /** Items that are initialised by themselves get bytes of 2. */
  function Twos(): OneBytes { (x: Item, n: nat) => seq(n, _ => 2) }

  lemma {:induction false} TwosSized()
    ensures Sized(Twos())
  {
  }

  lemma {:induction false} NeverOneConcat(xs: seq<Stmt>, ys: seq<Stmt>)
    requires NeverOne(xs) && NeverOne(ys)
    ensures NeverOne(xs + ys)
  {
  }

  lemma {:induction false} NeverOneFrom(p: Init, item: Item, laid: Laid, terms: seq<SubTerm>, depth: nat, j: nat)
    requires |laid.kids| == |item.children| && j <= |item.children|
    ensures NeverOne(EmitFrom(p, Twos(), item, laid, terms, depth, j))
    decreases item, 1, |item.children| - j
  {
    hide KindOf, EmitChild, NeverOne;
    if j == |item.children| {
      assert NeverOne([]) by { NeverOneNone(); }
    } else {
      var f, c := item.children[j], UniformChar(item.children[j]);
      if KindOf(p, f, false) == Nothing {
        NeverOneFrom(p, item, laid, terms, depth, j + 1);
      } else if KindOf(p, f, false) == Default && c.Some? {
        var e := RunEnd(p, item.children, c, j + 1);
        NeverOneFrom(p, item, laid, terms, depth, e);
        RunEmits(p, Twos(), item, laid, terms, depth, j);
        CharNotOne(f);
        var fill := EmitFrom(p, Twos(), item, laid, terms, depth, j)[0];
        NeverOneFill(fill);
        NeverOneConcat([fill], EmitFrom(p, Twos(), item, laid, terms, depth, e));
      } else {
        NeverOneChild(p, f, laid.kids[j], terms, depth);
        NeverOneFrom(p, item, laid, terms, depth, j + 1);
        NeverOneConcat(EmitChild(p, Twos(), f, laid.kids[j], terms, depth), EmitFrom(p, Twos(), item, laid, terms, depth, j + 1));
      }
    }
  }

  lemma {:induction false} NeverOneNone()
    ensures NeverOne([])
  {
  }

  lemma {:induction false} NeverOneFill(fill: Stmt)
    requires fill.Memset? && fill.c != 1
    ensures NeverOne([fill])
  {
  }

  lemma {:induction false} CharNotOne(item: Item)
    ensures UniformChar(item) != Some(1)
    decreases item
  {
    if item.children != [] { CharNotOne(item.children[0]); }
  }

  lemma {:induction false} NeverOneChild(p: Init, f: Item, l: Laid, terms: seq<SubTerm>, depth: nat)
    ensures NeverOne(EmitChild(p, Twos(), f, l, terms, depth))
    decreases f, 4
  {
    hide KindOf, EmitBody;
    NeverOneBody(p, f, l, terms, depth);
    NeverOneBody(p, f, l, terms + [SubTerm(l.size, Counter(depth + 1))], depth + 1);
  }

  lemma {:induction false} NeverOneBody(p: Init, f: Item, l: Laid, terms: seq<SubTerm>, depth: nat)
    ensures NeverOne(EmitBody(p, Twos(), f, l, terms, depth))
    decreases f, 3
  {
    hide KindOf, EmitFrom;
    if KindOf(p, f, false) != One && |l.kids| == |f.children| { NeverOneFrom(p, f, l, terms, depth, 0); }
  }

  /** Some byte from lo to hi is not 1. */
  ghost predicate SetWithin(m: Mem, lo: int, hi: int) {
    exists a :: lo <= a < hi && 0 <= a < |m| && m[a] != 1
  }

  lemma {:induction false} StillSet(m: Mem, m2: Mem, lo: int, hi: int, lo2: int, hi2: int)
    requires SetWithin(m, lo, hi) && StaysSet(m, m2) && lo2 <= lo && hi <= hi2
    ensures SetWithin(m2, lo2, hi2)
  {
    var a :| lo <= a < hi && 0 <= a < |m| && m[a] != 1;
    assert m2[a] != 1;
  }

  lemma {:induction false} TouchedFrom(p: Init, item: Item, laid: Laid, cfg: Config, terms: seq<SubTerm>, depth: nat, j: nat,
                                       env: Env, m: Mem)
    requires Sound(item, laid, cfg) && WellFormed(item) && |laid.kids| == |item.children| && j <= |item.children|
    requires TouchesFrom(p, item, laid, j) && Within(terms, depth)
    requires var at := Value(Ref(laid.offset, terms), env); 0 <= at && at + laid.size <= |m|
    ensures var at := Value(Ref(laid.offset, terms), env);
            SetWithin(ExecAll(EmitFrom(p, Twos(), item, laid, terms, depth, j), env, m), at, at + laid.size)
    decreases item, 0, |item.children| - j, 1
  {
    hide KindOf, UniformChar, EmitChild, Touches, Sound, WellFormed, SetWithin, ExecAll, Within, Value;
    var f, l, c := item.children[j], laid.kids[j], UniformChar(item.children[j]);
    if KindOf(p, f, false) == Nothing {
      NothingUntouched(p, f, l);
      TouchedFrom(p, item, laid, cfg, terms, depth, j + 1, env, m);
    } else if KindOf(p, f, false) == Default && c.Some? {
      TouchedRun(p, item, laid, cfg, terms, depth, j, env, m);
    } else {
      TouchedItem(p, item, laid, cfg, terms, depth, j, env, m);
    }
  }

  lemma {:induction false} TouchedItem(p: Init, item: Item, laid: Laid, cfg: Config, terms: seq<SubTerm>, depth: nat, j: nat,
                                       env: Env, m: Mem)
    requires Sound(item, laid, cfg) && WellFormed(item) && |laid.kids| == |item.children| && j < |item.children|
    requires Touches(p, item.children[j], laid.kids[j]) || TouchesFrom(p, item, laid, j + 1)
    requires Within(terms, depth) && KindOf(p, item.children[j], false) != Nothing
    requires var at := Value(Ref(laid.offset, terms), env); 0 <= at && at + laid.size <= |m|
    ensures var at := Value(Ref(laid.offset, terms), env);
            var code := EmitChild(p, Twos(), item.children[j], laid.kids[j], terms, depth);
            SetWithin(ExecAll(code + EmitFrom(p, Twos(), item, laid, terms, depth, j + 1), env, m), at, at + laid.size)
    decreases item, 0, |item.children| - j, 0
  {
    hide KindOf, UniformChar, EmitChild, EmitFrom, Touches, TouchesFrom, Sound, WellFormed, SetWithin, NeverOne, TermsValue,
         ExecAll, Within;
    var f, l := item.children[j], laid.kids[j];
    var at, shift := Value(Ref(laid.offset, terms), env), TermsValue(terms, env);
    KidSound(item, laid, cfg, j);
    var code, rest := EmitChild(p, Twos(), f, l, terms, depth), EmitFrom(p, Twos(), item, laid, terms, depth, j + 1);
    ExecConcat(code, rest, env, m);
    var m1 := ExecAll(code, env, m);
    NeverOneChild(p, f, l, terms, depth);
    AllStaySet(code, env, m);
    if Touches(p, f, l) {
      StartsOrdered(item, laid, cfg, j, |item.children|);
      TouchedChild(p, f, l, cfg, terms, depth, env, m);
      NeverOneFrom(p, item, laid, terms, depth, j + 1);
      AllStaySet(rest, env, m1);
      StillSet(m1, ExecAll(rest, env, m1), shift + l.offset, shift + End(f, l), at, at + laid.size);
    } else {
      TouchedFrom(p, item, laid, cfg, terms, depth, j + 1, env, m1);
    }
  }

  lemma {:induction false} NothingUntouched(p: Init, f: Item, l: Laid)
    requires KindOf(p, f, false) == Nothing
    ensures !Touches(p, f, l)
  {
    hide KindOf;
  }

  lemma {:induction false} TouchedRun(p: Init, item: Item, laid: Laid, cfg: Config, terms: seq<SubTerm>, depth: nat, j: nat,
                                      env: Env, m: Mem)
    requires Sound(item, laid, cfg) && WellFormed(item) && |laid.kids| == |item.children| && j < |item.children|
    requires TouchesFrom(p, item, laid, j) && Within(terms, depth)
    requires KindOf(p, item.children[j], false) == Default && UniformChar(item.children[j]).Some?
    requires var at := Value(Ref(laid.offset, terms), env); 0 <= at && at + laid.size <= |m|
    ensures var at := Value(Ref(laid.offset, terms), env);
            SetWithin(ExecAll(EmitFrom(p, Twos(), item, laid, terms, depth, j), env, m), at, at + laid.size)
    decreases item, 0, |item.children| - j, 0
  {
    hide KindOf, UniformChar, EmitFrom, Touches, Sound, WellFormed, NeverOne, TermsValue, SetWithin, ExecAll, Exec, RunEnd, Within;
    var f, l, c := item.children[j], laid.kids[j], UniformChar(item.children[j]);
    var e := RunEnd(p, item.children, c, j + 1);
    var at, shift := Value(Ref(laid.offset, terms), env), TermsValue(terms, env);
    RunEmits(p, Twos(), item, laid, terms, depth, j);
    var fill, rest := EmitFrom(p, Twos(), item, laid, terms, depth, j)[0], EmitFrom(p, Twos(), item, laid, terms, depth, e);
    ExecConcat([fill], rest, env, m);
    ExecOne(fill, env, m);
    StmtKeepsSize(fill, env, m);
    var m1 := Exec(fill, env, m);
    NotRedefined(p, f);
    StartsOrdered(item, laid, cfg, j, e);
    if Start(laid, e) > l.offset {
      FirstOccurrence(terms, l.size, env);
      assert terms + [] == terms;
      CharNotOne(f);
      assert Value(fill.at, env) == shift + l.offset;
      FillSets(fill, env, m, at, at + laid.size);
      NeverOneFrom(p, item, laid, terms, depth, e);
      AllStaySet(rest, env, m1);
      StillSet(m1, ExecAll(rest, env, m1), at, at + laid.size, at, at + laid.size);
    } else {
      TouchedFrom(p, item, laid, cfg, terms, depth, e, env, m1);
    }
  }

  lemma {:induction false} FillSets(fill: Stmt, env: Env, m: Mem, lo: int, hi: int)
    requires fill.Memset? && fill.c != 1 && fill.size > 0 && 0 <= lo <= Value(fill.at, env) && hi <= |m|
    requires Value(fill.at, env) + fill.size <= hi
    ensures SetWithin(Exec(fill, env, m), lo, hi)
  {
    assert Exec(fill, env, m)[Value(fill.at, env)] == fill.c;
  }

  lemma {:induction false} TouchedChild(p: Init, f: Item, l: Laid, cfg: Config, terms: seq<SubTerm>, depth: nat, env: Env, m: Mem)
    requires Sound(f, l, cfg) && WellFormed(f) && Touches(p, f, l) && Within(terms, depth)
    requires var at := TermsValue(terms, env) + l.offset; 0 <= at && at + Extent(f, l) <= |m|
    ensures var shift := TermsValue(terms, env);
            SetWithin(ExecAll(EmitChild(p, Twos(), f, l, terms, depth), env, m), shift + l.offset, shift + End(f, l))
    decreases f, 4
  {
    hide KindOf, UniformChar, EmitBody, Touches, Sound, SetWithin, TermsValue, ExecLoop;
    if f.c.occurs {
      var body := EmitBody(p, Twos(), f, l, terms + [SubTerm(l.size, Counter(depth + 1))], depth + 1);
      ExecOne(Loop(depth + 1, f.c.occursMax, body), env, m);
      var shift := TermsValue(terms, env);
      OccurrenceInside(f, l, shift, 1);
      TouchedLoop(p, f, l, cfg, terms, depth, env, 1, 1, m);
      var m2 := ExecAll(EmitChild(p, Twos(), f, l, terms, depth), env, m);
      StillSet(m2, m2, Occurrence(l, shift, 1), Occurrence(l, shift, 1) + l.size, shift + l.offset, shift + End(f, l));
    } else {
      assert Extent(f, l) == l.size;
      TouchedBody(p, f, l, cfg, terms, depth, env, m);
    }
  }

  /** From turn k on, the loop writes into occurrence s. */
  lemma {:induction false} TouchedLoop(p: Init, f: Item, l: Laid, cfg: Config, terms: seq<SubTerm>, depth: nat, env: Env,
                                       k: nat, s: nat, m: Mem)
    requires Sound(f, l, cfg) && WellFormed(f) && Touches(p, f, l) && Within(terms, depth) && 1 <= k <= s <= f.c.occursMax
    requires var o := Occurrence(l, TermsValue(terms, env), s); 0 <= o && o + l.size <= |m|
    ensures var body := EmitBody(p, Twos(), f, l, terms + [SubTerm(l.size, Counter(depth + 1))], depth + 1);
            var o := Occurrence(l, TermsValue(terms, env), s);
            SetWithin(ExecLoop(depth + 1, k, f.c.occursMax, body, env, m), o, o + l.size)
    decreases f, 3, s - k + 1
  {
    hide KindOf, UniformChar, EmitBody, Touches, Sound, SetWithin, NeverOne, WellFormed, Occurrence, TermsValue;
    var inner := terms + [SubTerm(l.size, Counter(depth + 1))];
    var body := EmitBody(p, Twos(), f, l, inner, depth + 1);
    var o, env1 := Occurrence(l, TermsValue(terms, env), s), env[depth + 1 := k];
    NeverOneBody(p, f, l, inner, depth + 1);
    AllStaySet(body, env1, m);
    var m1 := ExecAll(body, env1, m);
    if k < s {
      TouchedLoop(p, f, l, cfg, terms, depth, env, k + 1, s, m1);
    } else {
      TouchedTurn(p, f, l, cfg, terms, depth, env, s, m);
      LoopStaysSet(depth + 1, k + 1, f.c.occursMax, body, env, m1);
      StillSet(m1, ExecLoop(depth + 1, k + 1, f.c.occursMax, body, env, m1), o, o + l.size, o, o + l.size);
    }
  }

  lemma {:induction false} TouchedTurn(p: Init, f: Item, l: Laid, cfg: Config, terms: seq<SubTerm>, depth: nat, env: Env,
                                       s: nat, m: Mem)
    requires Sound(f, l, cfg) && WellFormed(f) && Touches(p, f, l) && Within(terms, depth)
    requires var o := Occurrence(l, TermsValue(terms, env), s); 0 <= o && o + l.size <= |m|
    ensures var body := EmitBody(p, Twos(), f, l, terms + [SubTerm(l.size, Counter(depth + 1))], depth + 1);
            var o := Occurrence(l, TermsValue(terms, env), s);
            SetWithin(ExecAll(body, env[depth + 1 := s], m), o, o + l.size)
    decreases f, 3, 0
  {
    hide KindOf, UniformChar, EmitBody, Touches, Sound, SetWithin, WellFormed, TermsValue, ExecAll;
    var inner, env1 := terms + [SubTerm(l.size, Counter(depth + 1))], env[depth + 1 := s];
    TermsSnoc(terms, SubTerm(l.size, Counter(depth + 1)), env1);
    CounterUnused(terms, depth, env, depth + 1, s);
    assert Value(Ref(l.offset, inner), env1) == Occurrence(l, TermsValue(terms, env), s);
    TouchedBody(p, f, l, cfg, inner, depth + 1, env1, m);
  }

  lemma {:induction false} TouchedBody(p: Init, f: Item, l: Laid, cfg: Config, terms: seq<SubTerm>, depth: nat, env: Env, m: Mem)
    requires Sound(f, l, cfg) && WellFormed(f) && Touches(p, f, l) && Within(terms, depth)
    requires var at := Value(Ref(l.offset, terms), env); 0 <= at && at + l.size <= |m|
    ensures var at := Value(Ref(l.offset, terms), env);
            SetWithin(ExecAll(EmitBody(p, Twos(), f, l, terms, depth), env, m), at, at + l.size)
    decreases f, 2
  {
    hide KindOf, UniformChar, EmitFrom, TouchesFrom, Sound, WellFormed;
    if KindOf(p, f, false) == One {
      var at := Value(Ref(l.offset, terms), env);
      ExecOne(InitOne(Ref(l.offset, terms), Twos()(f, l.size)), env, m);
      assert Write(m, at, Twos()(f, l.size))[at] == 2;
    } else {
      TouchedFrom(p, f, l, cfg, terms, depth, 0, env, m);
    }
  }

  // --- The occurrence that is referenced -------------------------------------------------------------

  /** Nothing outside the referenced occurrence is written. */
  ghost predicate Confined(p: Init, one: OneBytes, root: bool, item: Item, laid: Laid, terms: seq<SubTerm>, env: Env, m: Mem)
    requires |laid.kids| == |item.children|
  {
    var at := Value(Ref(laid.offset, terms), env);
    SameOutside(m, ExecAll(EmitInitialize(p, one, root, item, laid, terms), env, m), at, at + laid.size)
  }

  /** INITIALIZE, with or without FILLER, and the initial state: nothing outside the referenced
      occurrence is written, exactly when it is not a record with several occurrences that is initialised
      part by part, or nothing in it is written. Such a record is overwritten in all its occurrences. */
  lemma {:induction false} ConfinedIff(p: Init, root: bool, item: Item, laid: Laid, cfg: Config, terms: seq<SubTerm>, env: Env)
    requires Sound(item, laid, cfg) && WellFormed(item) && Within(terms, 0)
    requires Selects(root, item, laid, Value(Ref(laid.offset, terms), env))
    ensures |laid.kids| == |item.children|
    ensures (forall one, m :: Sized(one) ==> Confined(p, one, root, item, laid, terms, env, m)) <==>
            !AllOccurrences(p, root, item) || item.c.occursMax == 1 || !Touches(p, item, laid)
  {
    hide KindOf, UniformChar, Sound, WellFormed, EmitInitialize, Selects, Value, AllOccurrences, Touches;
    SoundKids(item, laid, cfg);
    if !AllOccurrences(p, root, item) || item.c.occursMax == 1 || !Touches(p, item, laid) {
      forall one, m | Sized(one) ensures Confined(p, one, root, item, laid, terms, env, m) {
        if AllOccurrences(p, root, item) {
          AllConfined(p, one, root, item, laid, cfg, terms, env, m);
        } else {
          PartConfined(p, one, root, item, laid, cfg, terms, env, m);
        }
      }
    } else {
      OccursFacts(item);
      OthersWritten(p, root, item, laid, cfg, terms, env);
    }
  }

  lemma {:induction false} AllConfined(p: Init, one: OneBytes, root: bool, item: Item, laid: Laid, cfg: Config,
                                       terms: seq<SubTerm>, env: Env, m: Mem)
    requires Sound(item, laid, cfg) && WellFormed(item) && Sized(one) && |laid.kids| == |item.children|
    requires Selects(root, item, laid, Value(Ref(laid.offset, terms), env)) && AllOccurrences(p, root, item)
    requires item.c.occursMax == 1 || !Touches(p, item, laid)
    ensures Confined(p, one, root, item, laid, terms, env, m)
  {
    hide KindOf, UniformChar, Sound, WellFormed, Value, Touches, EmitChild, CorrectEach;
    SameKind(p, item);
    if Touches(p, item, laid) {
      AllInitialised(p, one, item, laid, cfg, terms, env, m);
      assert Occurrence(laid, 0, 1) == laid.offset && Extent(item, laid) == laid.size;
    } else {
      UntouchedChild(p, one, item, laid, [], 0, env, m);
    }
  }

  lemma {:induction false} PartConfined(p: Init, one: OneBytes, root: bool, item: Item, laid: Laid, cfg: Config,
                                        terms: seq<SubTerm>, env: Env, m: Mem)
    requires Sound(item, laid, cfg) && WellFormed(item) && Sized(one) && Within(terms, 0) && |laid.kids| == |item.children|
    requires !AllOccurrences(p, root, item)
    ensures Confined(p, one, root, item, laid, terms, env, m)
  {
    hide KindOf, UniformChar, Sound, WellFormed, EmitCompound;
    SameKind(p, item);
    if KindOf(p, item, true) == KindOf(p, item, p.isStatement) {
      OneInitialised(p, one, root, item, laid, cfg, terms, env, m);
    } else {
      CompoundInitialises(p, one, item, laid, cfg, terms, 0, env, m);
    }
  }

  lemma {:induction false} OthersWritten(p: Init, root: bool, item: Item, laid: Laid, cfg: Config, terms: seq<SubTerm>, env: Env)
    requires Sound(item, laid, cfg) && WellFormed(item) && |laid.kids| == |item.children|
    requires Selects(root, item, laid, Value(Ref(laid.offset, terms), env)) && AllOccurrences(p, root, item)
    requires item.c.occursMax > 1 && Touches(p, item, laid)
    ensures exists one, m :: Sized(one) && !Confined(p, one, root, item, laid, terms, env, m)
  {
    hide KindOf, UniformChar, Sound, WellFormed, Value, Touches, EmitBody, ExecLoop, ExecAll;
    var at, n := Value(Ref(laid.offset, terms), env), item.c.occursMax;
    var s: int :| 1 <= s <= n && at == Occurrence(laid, 0, s);
    var other: nat := if s == 1 then 2 else 1;
    var m := seq(End(item, laid), _ => 1);
    var o := Occurrence(laid, 0, other);
    OccurrenceInside(item, laid, 0, other);
    if other < s { OccurrencesOrdered(item, laid, 0, other, s); } else { OccurrencesOrdered(item, laid, 0, s, other); }
    TwosSized();
    var body := EmitBody(p, Twos(), item, laid, [] + [SubTerm(laid.size, Counter(1))], 1);
    ExecOne(Loop(1, n, body), env, m);
    TouchedLoop(p, item, laid, cfg, [], 0, env, 1, other, m);
    var m2 := ExecAll(EmitInitialize(p, Twos(), root, item, laid, terms), env, m);
    assert m2 == ExecLoop(1, 1, n, body, env, m);
    var a :| o <= a < o + laid.size && 0 <= a < |m2| && m2[a] != 1;
    assert !Confined(p, Twos(), root, item, laid, terms, env, m);
  }

  const CHAR := Clauses(Display, Pic(1, Alphanumeric, false), false, false, false, false, 1, None, false, None, false)
  const DIGIT := CHAR.(pic := Pic(1, Numeric, false))

  function CharAndDigit(): Item { Item(CHAR.(occurs := true, occursMax := 2), [Item(CHAR, []), Item(DIGIT, [])]) }

  const BLANKS_AND_ZEROS := Init(false, false, {}, true)

  lemma {:induction false} CharAndDigitKinds()
    ensures var p, item := BLANKS_AND_ZEROS, CharAndDigit();
            var x, y := item.children[0], item.children[1];
            && KindOf(p, x, false) == KindOf(p, y, false) == KindOf(p, item, true) == KindOf(p, item, false) == Default
            && UniformChar(x) == Some(' ' as nat) && UniformChar(y) == Some('0' as nat) && UniformChar(item) == None
  {
    var p, item := BLANKS_AND_ZEROS, CharAndDigit();
    assert UniformChar(item.children[0]) == Some(' ' as nat) && UniformChar(item.children[1]) == Some('0' as nat);
    assert KindOf(p, item.children[0], false) == KindOf(p, item.children[1], false) == Default;
  }

  lemma {:induction false} CharAndDigitCompound(one: OneBytes, inner: seq<SubTerm>)
    ensures var l := Laid(0, 2, [Laid(0, 1, []), Laid(1, 1, [])]);
            EmitCompound(BLANKS_AND_ZEROS, one, CharAndDigit(), l, inner, 1) ==
              [Memset(Ref(0, inner), ' ' as nat, 1), Memset(Ref(1, inner), '0' as nat, 1)]
  {
    hide KindOf, UniformChar;
    var p, item, l := BLANKS_AND_ZEROS, CharAndDigit(), Laid(0, 2, [Laid(0, 1, []), Laid(1, 1, [])]);
    CharAndDigitKinds();
    assert inner + [] == inner;
    assert RunEnd(p, item.children, Some(' ' as nat), 1) == 1 && RunEnd(p, item.children, Some('0' as nat), 2) == 2;
    RunEmits(p, one, item, l, inner, 1, 0);
    RunEmits(p, one, item, l, inner, 1, 1);
    assert EmitFrom(p, one, item, l, inner, 1, 2) == [];
  }

  lemma {:induction false} CharAndDigitCode(one: OneBytes, terms: seq<SubTerm>)
    ensures var l := Laid(0, 2, [Laid(0, 1, []), Laid(1, 1, [])]);
            EmitInitialize(BLANKS_AND_ZEROS, one, true, CharAndDigit(), l, terms) == [Loop(1, 2, CharAndDigitBody())]
  {
    hide KindOf, UniformChar, EmitCompound;
    CharAndDigitKinds();
    CharAndDigitCompound(one, [SubTerm(2, Counter(1))]);
    assert [] + [SubTerm(2, Counter(1))] == [SubTerm(2, Counter(1))];
  }

  function CharAndDigitBody(): seq<Stmt> {
    var inner := [SubTerm(2, Counter(1))];
    [Memset(Ref(0, inner), ' ' as nat, 1), Memset(Ref(1, inner), '0' as nat, 1)]
  }

  lemma {:induction false} CharAndDigitTurn(env: Env, k: nat, m: Mem)
    requires 1 in env && env[1] == k && 1 <= k && 2 * k <= |m|
    ensures ExecAll(CharAndDigitBody(), env, m) == m[2 * (k - 1) := ' ' as nat][2 * (k - 1) + 1 := '0' as nat]
  {
    hide ExecAll;
    var a, b := CharAndDigitBody()[0], CharAndDigitBody()[1];
    assert [a] + [b] == CharAndDigitBody();
    ExecConcat([a], [b], env, m);
    ExecOne(a, env, m);
    ExecOne(b, env, Exec(a, env, m));
    TermsSnoc([], SubTerm(2, Counter(1)), env);
    assert [] + [SubTerm(2, Counter(1))] == [SubTerm(2, Counter(1))];
    FillOne(m, 2 * (k - 1), ' ' as nat);
    FillOne(m[2 * (k - 1) := ' ' as nat], 2 * (k - 1) + 1, '0' as nat);
  }

  lemma {:induction false} FillOne(m: Mem, at: nat, c: nat)
    requires at < |m|
    ensures Fill(m, at, c, 1) == m[at := c]
  {
  }

  /** 01 G OCCURS 2 with a PIC X and a PIC 9: INITIALIZE G (2) WITH FILLER overwrites G (1). */
  lemma {:induction false} FirstOverwritten(one: OneBytes, env: Env)
    ensures var l, terms := Laid(0, 2, [Laid(0, 1, []), Laid(1, 1, [])]), [SubTerm(2, Fixed(2))];
            && Value(Ref(0, terms), env) == Occurrence(l, 0, 2) == 2
            && ExecAll(EmitInitialize(BLANKS_AND_ZEROS, one, true, CharAndDigit(), l, terms), env, [1, 1, 1, 1])
               == [' ' as nat, '0' as nat, ' ' as nat, '0' as nat]
  {
    hide EmitInitialize, ExecAll, CharAndDigitBody;
    var terms, body := [SubTerm(2, Fixed(2))], CharAndDigitBody();
    CharAndDigitCode(one, terms);
    TermsSnoc([], SubTerm(2, Fixed(2)), env);
    assert [] + terms == terms;
    var m: Mem, m1: Mem := [1, 1, 1, 1], [' ' as nat, '0' as nat, 1, 1];
    ExecOne(Loop(1, 2, body), env, m);
    CharAndDigitTurn(env[1 := 1], 1, m);
    assert m[0 := ' ' as nat][1 := '0' as nat] == m1;
    CharAndDigitTurn(env[1 := 2], 2, m1);
    assert ExecLoop(1, 1, 2, body, env, m) == ExecLoop(1, 2, 2, body, env, m1)
        == ExecLoop(1, 3, 2, body, env, ExecAll(body, env[1 := 2], m1)) == ExecAll(body, env[1 := 2], m1);
  }
}
