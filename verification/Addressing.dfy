/** Static addresses of subscripted data references: what output_base and output_data emit, and why
    every reference with subscripts in range stays in the record's storage and off every other item. */
module Addressing {
  import opened Records
  import opened RecordLayout

  /** One level of a reference, from the record down: the item, its position among its siblings, and
      its subscript (1 when it does not OCCUR). */
  datatype Level = Level(item: Item, laid: Laid, pos: nat, sub: int)

  ghost predicate Chain(levels: seq<Level>, cfg: Config) {
    && levels != []
    && Sound(levels[0].item, levels[0].laid, cfg) && WellFormed(levels[0].item)
    && (forall k :: 0 <= k < |levels| ==> 1 <= levels[k].sub <= levels[k].item.c.occursMax)
    && (forall k :: 0 <= k < |levels| - 1 ==> Below(levels[k], levels[k + 1]))
  }

  ghost predicate Below(up: Level, down: Level) {
    && down.pos < |up.item.children| == |up.laid.kids|
    && down.item == up.item.children[down.pos]
    && down.laid == up.laid.kids[down.pos]
  }

  // --- What is emitted ---------------------------------------------------------------------------

  /** A term " + size * (sub - 1)" of the emitted address. */
  datatype Term = Term(size: nat, index: int)

  function TermValue(x: Term): int {
    x.size * x.index
  }

  function SumTerms(terms: seq<Term>): int {
    if terms == [] then 0 else SumTerms(terms[..|terms| - 1]) + TermValue(terms[|terms| - 1])
  }

  /** The subscript list of a reference, innermost first. */
  function Subscripts(levels: seq<Level>): seq<int> {
    if levels == [] then []
    else
      var n := |levels| - 1;
      (if levels[n].item.c.occurs then [levels[n].sub] else []) + Subscripts(levels[..n])
  }

  /** Offset of the occurrence that the reference selects. */
  function Address(levels: seq<Level>): int
    requires levels != []
  {
    levels[|levels| - 1].laid.offset + Shift(levels)
  }

  function Shift(levels: seq<Level>): int {
    if levels == [] then 0
    else
      var n := |levels| - 1;
      Shift(levels[..n]) + (levels[n].sub - 1) * levels[n].laid.size
  }

  lemma {:induction false} LevelTurn(levels: seq<Level>, f: nat)
    requires f < |levels| && (!levels[f].item.c.occurs ==> levels[f].sub == 1)
    ensures Shift(levels[..f + 1])
         == Shift(levels[..f]) + if levels[f].item.c.occurs then TermValue(Term(levels[f].laid.size, levels[f].sub - 1)) else 0
    ensures Subscripts(levels[..f + 1])
         == (if levels[f].item.c.occurs then [levels[f].sub] else []) + Subscripts(levels[..f])
  {
    assert levels[..f + 1][..f] == levels[..f];
  }

  lemma {:induction false} TermTurn(terms: seq<Term>, x: Term)
    ensures SumTerms(terms + [x]) == SumTerms(terms) + TermValue(x)
  {
    assert (terms + [x])[..|terms|] == terms;
  }

  /** The subscript loop of output_data: from the referenced field up through its parents, one
      subscript for each field that OCCURS. */
  method OutputData(levels: seq<Level>, subs: seq<int>) returns (offset: nat, terms: seq<Term>)
    requires levels != [] && subs == Subscripts(levels)
    requires forall k :: 0 <= k < |levels| && !levels[k].item.c.occurs ==> levels[k].sub == 1
    ensures offset + SumTerms(terms) == Address(levels)
    ensures |terms| == |subs|
  {
    offset := levels[|levels| - 1].laid.offset;
    terms := [];
    var lsub := 0;
    var f := |levels|;
    assert levels[..f] == levels && subs[lsub..] == subs;
    assert Shift(levels[..0]) == 0 && SumTerms(terms) == 0;
    hide Shift, SumTerms, Subscripts, TermValue;
    while f > 0
      invariant 0 <= f <= |levels| && 0 <= lsub <= |subs|
      invariant subs[lsub..] == Subscripts(levels[..f])
      invariant |terms| == lsub
      invariant SumTerms(terms) + Shift(levels[..f]) == Shift(levels)
    {
      f := f - 1;
      LevelTurn(levels, f);
      if levels[f].item.c.occurs {
        assert subs[lsub..][0] == levels[f].sub && subs[lsub..][1..] == subs[lsub + 1..];
        TermTurn(terms, Term(levels[f].laid.size, subs[lsub] - 1));
        terms := terms + [Term(levels[f].laid.size, subs[lsub] - 1)];
        lsub := lsub + 1;
      }
    }
    assert levels[..0] == [];
    assert Subscripts([]) == [] by { NoSubscripts(); }
  }

  lemma {:induction false} NoSubscripts()
    ensures Subscripts([]) == []
  {
  }

  // --- In bounds ---------------------------------------------------------------------------------

  lemma {:induction false} OccurrenceFits(size: nat, sub: int, occurs: nat)
    requires 1 <= sub <= occurs
    ensures 0 <= (sub - 1) * size && (sub - 1) * size + size <= size * occurs
  {
    assert (sub - 1) * size + size == sub * size;
    assert (occurs - sub) * size >= 0;
  }

  lemma {:induction false} ChainSound(levels: seq<Level>, cfg: Config, k: nat)
    requires Chain(levels, cfg) && k < |levels|
    ensures Sound(levels[k].item, levels[k].laid, cfg) && WellFormed(levels[k].item)
    decreases k
  {
    if k > 0 {
      ChainSound(levels, cfg, k - 1);
      assert Below(levels[k - 1], levels[k]);
    }
  }

  lemma {:induction false} ChainPrefix(levels: seq<Level>, cfg: Config, k: nat)
    requires Chain(levels, cfg) && 0 < k <= |levels|
    ensures Chain(levels[..k], cfg)
  {
    hide Sound, WellFormed;
    forall i | 0 <= i < k - 1 ensures Below(levels[..k][i], levels[..k][i + 1]) {
      assert Below(levels[i], levels[i + 1]);
    }
  }

  /** One level down stays inside the selected occurrence of the level above. */
  lemma {:induction false} StepInside(levels: seq<Level>, cfg: Config)
    requires Chain(levels, cfg) && |levels| >= 2
    ensures var up := levels[..|levels| - 1];
            && Address(up) <= Address(levels)
            && Address(levels) + levels[|levels| - 1].laid.size <= Address(up) + up[|up| - 1].laid.size
  {
    hide WellFormed, Aligned, InOrder, OnOriginals, SoundAll;
    var n := |levels| - 1;
    ChainSound(levels, cfg, n - 1);
    assert Below(levels[n - 1], levels[n]);
    OccurrenceFits(levels[n].laid.size, levels[n].sub, levels[n].item.c.occursMax);
  }

  /** A reference stays inside the occurrence that any prefix of its levels selects. */
  lemma {:induction false} PrefixInside(levels: seq<Level>, cfg: Config, k: nat)
    requires Chain(levels, cfg) && 0 < k <= |levels|
    ensures Address(levels[..k]) <= Address(levels)
    ensures Address(levels) + levels[|levels| - 1].laid.size <= Address(levels[..k]) + levels[k - 1].laid.size
    decreases |levels|
  {
    hide Sound, WellFormed;
    if k == |levels| {
      assert levels[..k] == levels;
    } else {
      var up := levels[..|levels| - 1];
      StepInside(levels, cfg);
      ChainPrefix(levels, cfg, |up|);
      PrefixInside(up, cfg, k);
      assert up[..k] == levels[..k];
    }
  }

  /** With every subscript in range, a reference addresses bytes of the record only, hence bytes of
      the storage that memory_size reserves for it. REDEFINES at any level are included. */
  lemma {:induction false} InBounds(levels: seq<Level>, cfg: Config, memorySize: nat)
    requires Chain(levels, cfg) && levels[0].laid.offset == 0
    requires Extent(levels[0].item, levels[0].laid) <= memorySize
    ensures 0 <= Address(levels) && Address(levels) + levels[|levels| - 1].laid.size <= memorySize
  {
    hide Sound, WellFormed;
    PrefixInside(levels, cfg, 1);
    var top := levels[..1];
    assert top[..0] == [];
    OccurrenceFits(levels[0].laid.size, levels[0].sub, levels[0].item.c.occursMax);
    assert Shift(top) == Shift([]) + (levels[0].sub - 1) * levels[0].laid.size;
  }

  // --- Disjoint ----------------------------------------------------------------------------------

  /** No entry below the record on the way to the item redefines another. */
  ghost predicate NoRedefines(levels: seq<Level>) {
    forall k :: 1 <= k < |levels| ==> levels[k].item.c.redefines.None?
  }

  ghost predicate Disjoint(a: int, sizeA: nat, b: int, sizeB: nat) {
    a + sizeA <= b || b + sizeB <= a
  }

  lemma {:induction false} OccurrencesApart(size: nat, s: int, t: int)
    requires s < t
    ensures (s - 1) * size + size <= (t - 1) * size
  {
    var gap: nat := t - s - 1;
    assert gap * size >= 0;
    assert (t - 1) * size == (s - 1) * size + size + gap * size;
  }

  /** Where two references part, they are already apart. */
  lemma {:induction false} PartingApart(a: seq<Level>, b: seq<Level>, cfg: Config)
    requires Chain(a, cfg) && Chain(b, cfg) && NoRedefines(a) && NoRedefines(b)
    requires |a| == |b| && a[..|a| - 1] == b[..|b| - 1] && a[|a| - 1] != b[|b| - 1]
    requires |a| == 1 ==> a[0].(sub := 0) == b[0].(sub := 0)
    ensures Disjoint(Address(a), a[|a| - 1].laid.size, Address(b), b[|b| - 1].laid.size)
  {
    hide WellFormed, Inside, Aligned, OnOriginals, SoundAll;
    var n := |a| - 1;
    var x, y := a[n], b[n];
    if n > 0 {
      assert a[n - 1] == a[..n][n - 1] == b[..n][n - 1] == b[n - 1];
      assert Below(a[n - 1], x) && Below(b[n - 1], y);
    }
    if n == 0 || x.pos == y.pos {
      assert x.laid == y.laid && x.item == y.item;
      if x.sub < y.sub { OccurrencesApart(x.laid.size, x.sub, y.sub); } else { OccurrencesApart(x.laid.size, y.sub, x.sub); }
    } else {
      ChainSound(a, cfg, n - 1);
      OccurrenceFits(x.laid.size, x.sub, x.item.c.occursMax);
      OccurrenceFits(y.laid.size, y.sub, y.item.c.occursMax);
      var up := a[n - 1];
      assert InOrder(up.item.children, up.laid.kids);
      if x.pos < y.pos {
        assert End(x.item, x.laid) <= y.laid.offset;
      } else {
        assert End(y.item, y.laid) <= x.laid.offset;
      }
    }
  }

  /** Two references into one record that select different occurrences, or different items, address
      disjoint bytes, unless one selects something inside the other or a REDEFINES is involved. */
  lemma {:induction false} References(a: seq<Level>, b: seq<Level>, cfg: Config, k: nat)
    requires Chain(a, cfg) && Chain(b, cfg) && NoRedefines(a) && NoRedefines(b)
    requires k < |a| && k < |b| && a[..k] == b[..k] && a[k] != b[k]
    requires a[0].(sub := 0) == b[0].(sub := 0)
    ensures Disjoint(Address(a), a[|a| - 1].laid.size, Address(b), b[|b| - 1].laid.size)
  {
    hide Sound, WellFormed;
    var a', b' := a[..k + 1], b[..k + 1];
    ChainPrefix(a, cfg, k + 1);
    ChainPrefix(b, cfg, k + 1);
    assert a'[..k] == a[..k] && b'[..k] == b[..k];
    PartingApart(a', b', cfg);
    PrefixInside(a, cfg, k + 1);
    PrefixInside(b, cfg, k + 1);
  }

  /** Two different references to elementary items of one record do part. */
  lemma {:induction false} LeavesPart(a: seq<Level>, b: seq<Level>, cfg: Config) returns (k: nat)
    requires Chain(a, cfg) && Chain(b, cfg) && a != b
    requires a[|a| - 1].item.children == [] && b[|b| - 1].item.children == []
    ensures k < |a| && k < |b| && a[..k] == b[..k] && a[k] != b[k]
  {
    hide Sound, WellFormed;
    k := 0;
    while k < |a| && k < |b| && a[k] == b[k]
      invariant 0 <= k <= |a| && k <= |b| && a[..k] == b[..k]
    {
      k := k + 1;
    }
    if k == |a| && k < |b| {
      LeafEnds(a, b, cfg);
    } else if k == |b| && k < |a| {
      LeafEnds(b, a, cfg);
    }
    assert a[..|a|] == a && b[..|b|] == b;
  }

  lemma {:induction false} LeafEnds(a: seq<Level>, b: seq<Level>, cfg: Config)
    requires Chain(b, cfg) && 0 < |a| < |b| && a[|a| - 1].item.children == []
    ensures b[..|a|] != a
  {
    hide Sound, WellFormed;
    var n := |a| - 1;
    assert Below(b[n], b[n + 1]);
    assert b[..|a|][n] == b[n];
  }

  /** The address is injective on elementary items: different leaves or different occurrences never
      share a byte. */
  lemma {:induction false} LeavesDisjoint(a: seq<Level>, b: seq<Level>, cfg: Config)
    requires Chain(a, cfg) && Chain(b, cfg) && NoRedefines(a) && NoRedefines(b) && a != b
    requires a[0].(sub := 0) == b[0].(sub := 0)
    requires a[|a| - 1].item.children == [] && b[|b| - 1].item.children == []
    ensures Disjoint(Address(a), a[|a| - 1].laid.size, Address(b), b[|b| - 1].laid.size)
  {
    var k := LeavesPart(a, b, cfg);
    References(a, b, cfg, k);
  }
}
