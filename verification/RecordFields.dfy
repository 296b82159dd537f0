/** compute_size and the memory_size part of cb_validate_field on linked field structures: sizes and
    offsets are written in place while the sister chain is walked, and come out as Records.Layout. */
module RecordFields {
  import opened Records

  /** The part of struct cb_field that layout reads and writes. */
  class Field {
    const c: Clauses
    var children: Field?
    var sister: Field?
    var redefines: Field?
    var size: nat
    var offset: nat
    var memorySize: nat

    constructor (c: Clauses)
      ensures this.c == c && children == null && sister == null && redefines == null
      ensures size == 0 && offset == 0 && memorySize == 0
    {
      this.c := c;
      children, sister, redefines := null, null, null;
      size, offset, memorySize := 0, 0, 0;
    }
  }

  /** A field with the fields below it, as the links should have them. */
  datatype Tree = Tree(f: Field, kids: seq<Tree>)

  ghost function Nodes(t: Tree): set<Field>
    decreases t
  {
    {t.f} + NodesAll(t.kids)
  }

  ghost function NodesAll(ts: seq<Tree>): set<Field>
    decreases ts
  {
    if ts == [] then {} else NodesAll(ts[..|ts| - 1]) + Nodes(ts[|ts| - 1])
  }

  ghost function ItemOf(t: Tree): (item: Item)
    ensures |item.children| == |t.kids| && item.c == t.f.c
    decreases t
  {
    Item(t.f.c, ItemsOf(t.kids))
  }

  ghost function ItemsOf(ts: seq<Tree>): (items: seq<Item>)
    ensures |items| == |ts|
    decreases ts
  {
    if ts == [] then [] else ItemsOf(ts[..|ts| - 1]) + [ItemOf(ts[|ts| - 1])]
  }

  /** No field occurs twice. */
  ghost predicate Distinct(t: Tree)
    decreases t
  {
    t.f !in NodesAll(t.kids) && DistinctAll(t.kids)
  }

  ghost predicate DistinctAll(ts: seq<Tree>)
    decreases ts
  {
    ts == [] || (
      var n := |ts| - 1;
      DistinctAll(ts[..n]) && Distinct(ts[n]) && NodesAll(ts[..n]) !! Nodes(ts[n]))
  }

  // --- What the heap holds, as flat sets of facts ----------------------------------------------

  /** The links a tree asks for; redefines points to the sibling that the clause names. */
  ghost predicate Linked(t: Tree)
    reads Nodes(t)`children, Nodes(t)`sister, Nodes(t)`redefines
    decreases t
  {
    && t.f.children == (if t.kids == [] then null else t.kids[0].f)
    && (forall i :: 0 <= i < |t.kids| ==> t.kids[i].f in NodesAll(t.kids) && SisterLinked(t.kids, i))
    && LinkedAll(t.kids)
  }

  ghost predicate SisterLinked(ts: seq<Tree>, i: nat)
    requires i < |ts|
    reads ts[i].f`sister, ts[i].f`redefines
  {
    var r := ts[i].f.c.redefines;
    && ts[i].f.sister == (if i + 1 < |ts| then ts[i + 1].f else null)
    && ts[i].f.redefines == (if r.Some? && r.value < i then ts[r.value].f else null)
  }

  ghost predicate LinkedAll(ts: seq<Tree>)
    reads NodesAll(ts)`children, NodesAll(ts)`sister, NodesAll(ts)`redefines
    decreases ts
  {
    ts == [] || (LinkedAll(ts[..|ts| - 1]) && Linked(ts[|ts| - 1]))
  }

  datatype Fact = Fact(f: Field, size: nat, offset: nat)

  /** What a layout says of the fields of a tree. */
  ghost function Facts(t: Tree, l: Laid): (s: set<Fact>)
    ensures forall x :: x in s ==> x.f in Nodes(t)
    decreases t
  {
    {Fact(t.f, l.size, l.offset)} + FactsAll(t.kids, l.kids)
  }

  ghost function FactsAll(ts: seq<Tree>, ls: seq<Laid>): (s: set<Fact>)
    ensures forall x :: x in s ==> x.f in NodesAll(ts)
    decreases ts
  {
    if ts == [] || |ls| != |ts| then {}
    else FactsAll(ts[..|ts| - 1], ls[..|ts| - 1]) + Facts(ts[|ts| - 1], ls[|ts| - 1])
  }

  ghost predicate Holds(s: set<Fact>)
    reads (set x | x in s :: x.f)`size, (set x | x in s :: x.f)`offset
  {
    forall x :: x in s ==> x.f.size == x.size && x.f.offset == x.offset
  }

  // --- The methods -----------------------------------------------------------------------------

  /** A child that redefines an earlier sibling: placed on it, growing the group by what it exceeds
      it by. */
  method PlaceRedefinition(c: Field, cfg: Config, ghost t: Tree) returns (ok: bool, grown: nat)
    requires t.f == c && Linked(t) && Distinct(t) && WellFormed(ItemOf(t))
    requires c.redefines != null && c.redefines !in Nodes(t)
    modifies Nodes(t)`size, Nodes(t)`offset
    ensures var l := Layout(ItemOf(t), c.redefines.offset, cfg);
            var excess := Extent(ItemOf(t), l) - c.redefines.size * c.redefines.c.occursMax;
            && Holds(Facts(t, l))
            && grown == (if excess > 0 && cfg.largerRedefinesOk then excess else 0)
            && (ok <==> Accepted(ItemOf(t), l, cfg) && (excess > 0 ==> cfg.largerRedefinesOk))
    decreases t, 3
  {
    hide Layout, Accepted, Alignment, Padding, WellFormed, Linked, ElementarySize;
    grown := 0;
    c.offset := c.redefines.offset;
    ghost var l := Layout(ItemOf(t), c.offset, cfg);
    ok := ComputeSize(c, cfg, t);
    assert Fact(c, l.size, l.offset) in Facts(t, l);
    if c.size * c.c.occursMax > c.redefines.size * c.redefines.c.occursMax {
      if cfg.largerRedefinesOk {
        grown := c.size * c.c.occursMax - c.redefines.size * c.redefines.c.occursMax;
      } else {
        ok := false;
      }
    }
  }

  method Shift(c: Field, pad: nat, ghost t: Tree, ghost l: Laid)
    requires t.f == c && Distinct(t) && Holds(Facts(t, l))
    modifies c`offset
    ensures Holds(Facts(t, l.(offset := l.offset + pad)))
  {
    ghost var below := FactsAll(t.kids, l.kids);
    assert Fact(c, l.size, l.offset) in Facts(t, l);
    assert forall x :: x in below ==> x in Facts(t, l) && x.f != c;
    c.offset := c.offset + pad;
    assert Holds(below);
    assert Facts(t, l.(offset := l.offset + pad)) == {Fact(c, l.size, l.offset + pad)} + below;
  }

  /** Any other child: placed at start, then moved by its padding. */
  method PlaceItem(c: Field, cfg: Config, start: nat, ghost t: Tree) returns (ok: bool, grown: nat)
    requires t.f == c && Linked(t) && Distinct(t) && WellFormed(ItemOf(t)) && c.redefines == null
    modifies Nodes(t)`size, Nodes(t)`offset
    ensures var l := Layout(ItemOf(t), start, cfg);
            var pad := Padding(c.c, start, l.size, cfg);
            && Holds(Facts(t, l.(offset := start + pad))) && grown == Extent(ItemOf(t), l) + pad
            && (ok <==> Accepted(ItemOf(t), l, cfg))
    decreases t, 3
  {
    hide Padding, Accepted, Alignment, WellFormed, Linked, Layout, ElementarySize;
    c.offset := start;
    ghost var l := Layout(ItemOf(t), start, cfg);
    ok := ComputeSize(c, cfg, t);
    assert Fact(c, l.size, l.offset) in Facts(t, l);
    var pad := Padding(c.c, c.offset, c.size, cfg);
    grown := c.size * c.c.occursMax + pad;
    Shift(c, pad, t, l);
  }

  /** An item that redefines an EXTERNAL one is no larger, unless that is allowed. */
  predicate FitsExternal(f: Field, extent: nat, cfg: Config)
    reads f`redefines, (if f.redefines == null then {} else {f.redefines})`size
  {
    f.redefines == null || !f.redefines.c.external || cfg.largerRedefinesOk
    || extent <= f.redefines.size * f.redefines.c.occursMax
  }

  method ComputeSize(f: Field, cfg: Config, ghost t: Tree) returns (ok: bool)
    requires t.f == f && Linked(t) && Distinct(t) && WellFormed(ItemOf(t))
    requires f.redefines != null ==> f.redefines !in Nodes(t)
    modifies Nodes(t)`size, NodesAll(t.kids)`offset
    ensures var l := Layout(ItemOf(t), f.offset, cfg);
            Holds(Facts(t, l)) && (ok <==> Accepted(ItemOf(t), l, cfg) && FitsExternal(f, Extent(ItemOf(t), l), cfg))
    decreases t, 2
  {
    ok := SizeOf(f, cfg, t);
    HoldsTop(t, Layout(ItemOf(t), f.offset, cfg));
    if f.redefines != null && f.redefines.c.external {
      if f.size * f.c.occursMax > f.redefines.size * f.redefines.c.occursMax {
        if !cfg.largerRedefinesOk {
          ok := false;
        }
      }
    }
  }

  /** The two cases of compute_size: the items of a group, or the size of an elementary item. */
  method SizeOf(f: Field, cfg: Config, ghost t: Tree) returns (ok: bool)
    requires t.f == f && Linked(t) && Distinct(t) && WellFormed(ItemOf(t))
    modifies Nodes(t)`size, NodesAll(t.kids)`offset
    ensures var l := Layout(ItemOf(t), f.offset, cfg);
            Holds(Facts(t, l)) && (ok <==> Accepted(ItemOf(t), l, cfg))
    decreases t, 1
  {
    hide Place, DistinctAll, AcceptedSiblings, Holds, Facts, FactsAll, ItemsOf, Linked, LinkedAll, WellFormed, WellFormedSiblings, Layout;
    ghost var l := Layout(ItemOf(t), f.offset, cfg);
    GroupFacts(t, cfg, f.offset);
    if f.children != null {
      var size;
      ok, size := PlaceChildren(f, cfg, t);
      if size > INT_MAX { ok := false; }
      f.size := size;
    } else {
      ok := !TooManyDigits(f.c);
      f.size := ElementarySize(f.c, cfg);
      NoFacts(l.kids);
    }
    TopFact(t, l);
  }

  /** The layout of a field is that of its items, or an elementary size. */
  lemma {:induction false} GroupFacts(t: Tree, cfg: Config, base: nat)
    requires Linked(t) && Distinct(t) && WellFormed(ItemOf(t))
    ensures t.f.children == null <==> t.kids == []
    ensures WellFormedSiblings(ItemsOf(t.kids)) && t.f !in NodesAll(t.kids)
    ensures var l := Layout(ItemOf(t), base, cfg); var p := Place(ItemsOf(t.kids), base, cfg);
            if t.kids == [] then l == Laid(base, ElementarySize(t.f.c, cfg), []) else l == Laid(base, p.size, p.kids)
    ensures var l := Layout(ItemOf(t), base, cfg); var p := Place(ItemsOf(t.kids), base, cfg);
            Accepted(ItemOf(t), l, cfg) <==>
              if t.kids == [] then !TooManyDigits(t.f.c) else l.size <= INT_MAX && AcceptedSiblings(ItemsOf(t.kids), p.kids, cfg)
  {
    hide Place, Distinct, DistinctAll, NodesAll;
    assert Distinct(t) ==> t.f !in NodesAll(t.kids) by { NotBelow(t); }
  }

  lemma {:induction false} NotBelow(t: Tree)
    requires Distinct(t)
    ensures t.f !in NodesAll(t.kids)
  {
  }

  lemma {:induction false} NoFacts(ls: seq<Laid>)
    ensures Holds(FactsAll([], ls))
  {
  }

  lemma {:induction false} TopFact(t: Tree, l: Laid)
    requires t.f.size == l.size && t.f.offset == l.offset && Holds(FactsAll(t.kids, l.kids))
    ensures Holds(Facts(t, l))
  {
    hide FactsAll;
  }

  lemma {:induction false} AcceptedNext(kids: seq<Item>, before: seq<Laid>, after: seq<Laid>, cfg: Config)
    requires |after| == |kids| > 0 && after[..|kids| - 1] == before
    ensures AcceptedSiblings(kids, after, cfg) <==>
              && AcceptedSiblings(kids[..|kids| - 1], before, cfg)
              && Accepted(kids[|kids| - 1], after[|kids| - 1], cfg) && NotLarger(kids, after, |kids| - 1, cfg)
  {
    var n := |kids| - 1;
    forall i | 0 <= i < n
      ensures Accepted(kids[i], after[i], cfg) <==> Accepted(kids[..n][i], before[i], cfg)
      ensures NotLarger(kids, after, i, cfg) <==> NotLarger(kids[..n], before, i, cfg)
    {
      assert after[i] == before[i];
    }
  }

  /** Everything the trees ask for, they ask of each sibling. */
  lemma {:induction false} Sibling(ts: seq<Tree>, i: nat)
    requires i < |ts|
    ensures ts[i].f in NodesAll(ts) && Nodes(ts[i]) <= NodesAll(ts)
    ensures DistinctAll(ts) ==> Distinct(ts[i]) && NodesAll(ts[..i]) !! Nodes(ts[i])
    ensures LinkedAll(ts) ==> Linked(ts[i])
    ensures ItemsOf(ts)[i] == ItemOf(ts[i])
    decreases |ts|
  {
    var n := |ts| - 1;
    if i < n {
      Sibling(ts[..n], i);
      assert ts[..n][..i] == ts[..i];
    }
  }

  lemma {:induction false} SiblingFact(ts: seq<Tree>, ls: seq<Laid>, i: nat)
    requires i < |ts| == |ls|
    ensures Facts(ts[i], ls[i]) <= FactsAll(ts, ls)
    decreases |ts|
  {
    var n := |ts| - 1;
    if i < n { SiblingFact(ts[..n], ls[..n], i); }
  }

  lemma {:induction false} ItemsPrefix(ts: seq<Tree>, i: nat)
    requires i <= |ts|
    ensures ItemsOf(ts)[..i] == ItemsOf(ts[..i])
    decreases |ts|
  {
    if i < |ts| {
      var n := |ts| - 1;
      ItemsPrefix(ts[..n], i);
      assert ts[..n][..i] == ts[..i];
    } else {
      assert ts[..i] == ts;
    }
  }

  /** What redefines points to, in terms of the layout so far. */
  lemma {:induction false} RedefinedSibling(ts: seq<Tree>, i: nat, before: seq<Laid>)
    requires i < |ts| && SisterLinked(ts, i) && DistinctAll(ts) && |before| == i
    requires Holds(FactsAll(ts[..i], before)) && ts[i].f.c.redefines.Some? && ts[i].f.c.redefines.value < i
    ensures var r := ts[i].f.c.redefines.value;
            && ts[i].f.redefines == ts[r].f && ts[r].f !in Nodes(ts[i])
            && ts[r].f.size == before[r].size && ts[r].f.offset == before[r].offset
  {
    var r := ts[i].f.c.redefines.value;
    assert ts[..i][r] == ts[r];
    SiblingFact(ts[..i], before, r);
    assert Fact(ts[r].f, before[r].size, before[r].offset) in Facts(ts[r], before[r]);
    Sibling(ts, i);
    Sibling(ts[..i], r);
  }

  lemma {:induction false} NextItem(kids: seq<Item>, l: Laid, before: Placed, cfg: Config)
    requires WellFormedSiblings(kids) && |kids| == |before.kids| + 1 && kids[|before.kids|].c.redefines.None?
    ensures var i := |before.kids|;
            var pad := Padding(kids[i].c, l.offset, l.size, cfg);
            var p := PlaceNext(kids, l, before, cfg);
            && p.kids[i] == l.(offset := l.offset + pad) && p.size == before.size + (Extent(kids[i], l) + pad)
            && NotLarger(kids, p.kids, i, cfg)
            && (Accepted(kids[i], p.kids[i], cfg) <==> Accepted(kids[i], l, cfg))
  {
  }

  lemma {:induction false} NextRedefinition(kids: seq<Item>, l: Laid, before: Placed, cfg: Config)
    requires WellFormedSiblings(kids) && |kids| == |before.kids| + 1 && kids[|before.kids|].c.redefines.Some?
    ensures var i := |before.kids|;
            var r := kids[i].c.redefines.value;
            var excess := Extent(kids[i], l) - before.kids[r].size * kids[r].c.occursMax;
            var p := PlaceNext(kids, l, before, cfg);
            && p.kids[i] == l && p.size == before.size + (if excess > 0 && cfg.largerRedefinesOk then excess else 0)
            && (NotLarger(kids, p.kids, i, cfg) <==> (excess > 0 ==> cfg.largerRedefinesOk))
  {
    var i := |before.kids|;
    var r := kids[i].c.redefines.value;
    var p := PlaceNext(kids, l, before, cfg);
    assert p.kids[r] == before.kids[r];
  }

  /** One turn of the loop over the sisters. */
  method PlaceChild(c: Field, cfg: Config, base: nat, size: nat, ghost ts: seq<Tree>, ghost i: nat, ghost before: Placed)
    returns (ok: bool, newSize: nat, ghost l: Laid)
    requires i < |ts| && c == ts[i].f && SisterLinked(ts, i) && LinkedAll(ts) && DistinctAll(ts)
    requires WellFormedSiblings(ItemsOf(ts)) && |before.kids| == i && size == before.size
    requires Holds(FactsAll(ts[..i], before.kids))
    modifies Nodes(ts[i])`size, Nodes(ts[i])`offset
    ensures var items := ItemsOf(ts)[..i + 1];
            var p := PlaceNext(items, l, before, cfg);
            && l == Layout(items[i], StartOf(items, before, base), cfg)
            && Holds(Facts(ts[i], p.kids[i])) && newSize == p.size
            && (ok <==> Accepted(items[i], p.kids[i], cfg) && NotLarger(items, p.kids, i, cfg))
    decreases ts, 0
  {
    hide Layout, Accepted, Alignment, Padding, Linked, LinkedAll, NotLarger, PlaceNext, ElementarySize,
         Facts, FactsAll, WellFormed, Distinct, DistinctAll;
    Sibling(ts, i);
    ghost var items := ItemsOf(ts)[..i + 1];
    ghost var start := StartOf(items, before, base);
    l := Layout(items[i], start, cfg);
    assert items[i] == ItemOf(ts[i]);
    var grown;
    if c.redefines != null {
      RedefinedSibling(ts, i, before.kids);
      Sibling(ts, c.c.redefines.value);
      assert start == c.redefines.offset;
      NextRedefinition(items, l, before, cfg);
      ok, grown := PlaceRedefinition(c, cfg, ts[i]);
    } else {
      assert start == base + size;
      NextItem(items, l, before, cfg);
      ok, grown := PlaceItem(c, cfg, base + size, ts[i]);
    }
    newSize := size + grown;
  }

  lemma {:induction false} PlaceNextPrefix(items: seq<Item>, i: nat, base: nat, cfg: Config)
    requires WellFormedSiblings(items) && i < |items|
    ensures var before := Place(items[..i], base, cfg);
            && items[..i + 1][i] == items[i]
            && Place(items[..i + 1], base, cfg)
               == PlaceNext(items[..i + 1], Layout(items[i], StartOf(items[..i + 1], before, base), cfg), before, cfg)
    ensures Place(items[..i + 1], base, cfg).kids[..i] == Place(items[..i], base, cfg).kids
  {
    hide Layout, Alignment, Padding;
    assert items[..i + 1][..i] == items[..i];
  }

  lemma {:induction false} FactsNext(ts: seq<Tree>, i: nat, before: seq<Laid>, after: seq<Laid>)
    requires i < |ts| && |after| == i + 1 && after[..i] == before
    requires Holds(FactsAll(ts[..i], before)) && Holds(Facts(ts[i], after[i]))
    ensures Holds(FactsAll(ts[..i + 1], after))
  {
    assert ts[..i + 1][..i] == ts[..i];
  }

  /** What the loop over the sisters knows when it comes to position i, at field c. */
  ghost predicate PlacedUpTo(ts: seq<Tree>, i: nat, c: Field?, base: nat, cfg: Config, size: nat, ok: bool)
    reads NodesAll(ts)
    reads set x | i <= |ts| && WellFormedSiblings(ItemsOf(ts)) && x in FactsAll(ts[..i], Place(ItemsOf(ts)[..i], base, cfg).kids) :: x.f
    reads set j | 0 <= j < |ts| :: ts[j].f
  {
    && i <= |ts| && c == (if i < |ts| then ts[i].f else null)
    && WellFormedSiblings(ItemsOf(ts)) && DistinctAll(ts)
    && LinkedAll(ts) && (forall j :: 0 <= j < |ts| ==> SisterLinked(ts, j))
    && var p := Place(ItemsOf(ts)[..i], base, cfg);
       && size == p.size && Holds(FactsAll(ts[..i], p.kids))
       && (ok <==> AcceptedSiblings(ItemsOf(ts)[..i], p.kids, cfg))
  }

  method PlaceTurn(c: Field, cfg: Config, base: nat, size: nat, ok: bool, ghost ts: seq<Tree>, ghost i: nat)
    returns (next: Field?, newOk: bool, newSize: nat)
    requires PlacedUpTo(ts, i, c, base, cfg, size, ok)
    modifies NodesAll(ts)`size, NodesAll(ts)`offset
    ensures i < |ts| && PlacedUpTo(ts, i + 1, next, base, cfg, newSize, newOk)
    decreases ts, 1
  {
    hide Layout, Accepted, AcceptedSiblings, NotLarger, PlaceNext, Place, StartOf, WellFormed,
         Linked, LinkedAll, Distinct, DistinctAll, ItemOf, ItemsOf, Nodes, NodesAll, Facts, FactsAll, Holds;
    ghost var items := ItemsOf(ts);
    ghost var before := Place(items[..i], base, cfg);
    Sibling(ts, i);
    PlaceNextPrefix(items, i, base, cfg);
    assert allocated(FactsAll(ts[..i], before.kids)) && allocated(NodesAll(ts));
    assert forall x :: x in FactsAll(ts[..i], before.kids) ==> x.f !in Nodes(ts[i]);
    assert (set x | x in FactsAll(ts[..i], before.kids) :: x.f) !! Nodes(ts[i]);
    var okChild;
    ghost var l;
    okChild, newSize, l := PlaceChild(c, cfg, base, size, ts, i, before);
    newOk := ok && okChild;
    ghost var p := Place(items[..i + 1], base, cfg);
    assert p == PlaceNext(items[..i + 1], l, before, cfg);
    assert p.kids[..i] == before.kids && items[..i + 1][..i] == items[..i];
    AcceptedNext(items[..i + 1], before.kids, p.kids, cfg);
    FactsNext(ts, i, before.kids, p.kids);
    assert SisterLinked(ts, i);
    next := c.sister;
  }

  lemma {:induction false} NonePlaced(t: Tree, base: nat, cfg: Config)
    requires Linked(t) && Distinct(t) && WellFormed(ItemOf(t))
    ensures t.f !in NodesAll(t.kids) && PlacedUpTo(t.kids, 0, t.f.children, base, cfg, 0, true)
  {
    hide Layout, Padding, Accepted;
    assert ItemsOf(t.kids)[..0] == [] && t.kids[..0] == [];
  }

  lemma {:induction false} AllPlaced(ts: seq<Tree>, i: nat, base: nat, cfg: Config, size: nat, ok: bool)
    requires PlacedUpTo(ts, i, null, base, cfg, size, ok)
    ensures var p := Place(ItemsOf(ts), base, cfg);
            && size == p.size && Holds(FactsAll(ts, p.kids))
            && (ok <==> AcceptedSiblings(ItemsOf(ts), p.kids, cfg))
  {
    hide Place, Holds, AcceptedSiblings, FactsAll, LinkedAll, ItemsOf;
    assert i == |ts| && ItemsOf(ts)[..|ts|] == ItemsOf(ts) && ts[..|ts|] == ts;
  }

  /** The loop of compute_size over the sisters. */
  method PlaceChildren(f: Field, cfg: Config, ghost t: Tree) returns (ok: bool, size: nat)
    requires t.f == f && Linked(t) && Distinct(t) && WellFormed(ItemOf(t))
    modifies NodesAll(t.kids)`size, NodesAll(t.kids)`offset
    ensures var p := Place(ItemsOf(t.kids), f.offset, cfg);
            && size == p.size && Holds(FactsAll(t.kids, p.kids))
            && (ok <==> AcceptedSiblings(ItemsOf(t.kids), p.kids, cfg))
    decreases t, 0
  {
    hide Place, AcceptedSiblings, FactsAll, Facts, Layout, Linked, LinkedAll, Distinct, DistinctAll, Nodes, NodesAll,
         WellFormed, WellFormedSiblings, ItemOf, ItemsOf, Holds, PlacedUpTo, SisterLinked;
    NonePlaced(t, f.offset, cfg);
    ghost var ts := t.kids;
    var c := f.children;
    ok, size := true, 0;
    ghost var i := 0;
    while c != null
      invariant PlacedUpTo(ts, i, c, f.offset, cfg, size, ok)
      decreases |ts| - i
    {
      c, ok, size := PlaceTurn(c, cfg, f.offset, size, ok, ts, i);
      i := i + 1;
    }
    AllPlaced(ts, i, f.offset, cfg, size, ok);
  }

  // --- Storage of the 01 records -----------------------------------------------------------------

  /** The storage sizes written so far. */
  ghost predicate Memory(records: seq<Tree>, ms: seq<nat>)
    reads (set i | 0 <= i < |records| :: records[i].f)`memorySize
  {
    |ms| == |records| && forall i :: 0 <= i < |ms| ==> records[i].f.memorySize == ms[i]
  }

  /** The storage a redefining record enlarges is that of its original. */
  ghost predicate OnOriginal(records: seq<Tree>, i: nat)
    requires i < |records|
    reads records[i].f`redefines
  {
    var r := records[i].f.c.redefines;
    records[i].f.redefines == (if r.Some? && r.value < i then records[r.value].f else null)
  }

  method SetMemory(f: Field, ghost records: seq<Tree>, ghost i: nat, ghost ms: seq<nat>)
    requires i < |records| && f == records[i].f && Memory(records, ms) && OnOriginal(records, i)
    requires forall j, k :: 0 <= j < k < |records| ==> records[j].f != records[k].f
    modifies f`memorySize, (if f.redefines == null then {} else {f.redefines})`memorySize
    ensures Memory(records, NextMemory(ms, i, f.c.redefines, f.size * f.c.occursMax))
  {
    if f.redefines == null {
      f.memorySize := f.size * f.c.occursMax;
    } else if f.redefines.memorySize < f.size * f.c.occursMax {
      f.redefines.memorySize := f.size * f.c.occursMax;
    }
  }

  /** cb_validate_field for record i: its layout from offset 0, and its storage. */
  method ValidateField(f: Field, cfg: Config, ghost records: seq<Tree>, ghost i: nat, ghost ms: seq<nat>) returns (ok: bool)
    requires i < |records| && f == records[i].f && DistinctAll(records) && Memory(records, ms) && OnOriginal(records, i)
    requires Linked(records[i]) && WellFormed(ItemOf(records[i])) && f.offset == 0
    modifies Nodes(records[i])`size, NodesAll(records[i].kids)`offset
    modifies f`memorySize, (if f.redefines == null then {} else {f.redefines})`memorySize
    ensures var l := Layout(ItemOf(records[i]), 0, cfg);
            && Holds(Facts(records[i], l))
            && (ok <==> Accepted(ItemOf(records[i]), l, cfg) && old(FitsExternal(f, Extent(ItemOf(records[i]), l), cfg)))
            && Memory(records, NextMemory(ms, i, f.c.redefines, Extent(ItemOf(records[i]), l)))
  {
    hide Layout, Accepted, Linked, WellFormed, Facts, FactsAll, Nodes, NodesAll, DistinctAll, Distinct,
         Memory, NextMemory;
    ghost var l := Layout(ItemOf(records[i]), 0, cfg);
    RecordsApart(records);
    Sibling(records, i);
    if f.redefines != null { RecordOutside(records, f.c.redefines.value, i); }
    ok := ComputeSize(f, cfg, records[i]);
    HoldsTop(records[i], l);
    assert allocated(Facts(records[i], l));
    SetMemory(f, records, i, ms);
  }

  lemma {:induction false} HoldsTop(t: Tree, l: Laid)
    requires Holds(Facts(t, l))
    ensures t.f.size == l.size && t.f.offset == l.offset
  {
    assert Fact(t.f, l.size, l.offset) in Facts(t, l);
  }

  lemma {:induction false} RecordOutside(records: seq<Tree>, r: nat, i: nat)
    requires DistinctAll(records) && r < i < |records|
    ensures records[r].f !in Nodes(records[i])
  {
    Sibling(records, i);
    Sibling(records[..i], r);
  }

  lemma {:induction false} RecordsApart(records: seq<Tree>)
    requires DistinctAll(records)
    ensures forall i, j :: 0 <= i < j < |records| ==> records[i].f != records[j].f
  {
    forall i, j | 0 <= i < j < |records| ensures records[i].f != records[j].f {
      Sibling(records, j);
      assert records[..j][i] == records[i];
      Sibling(records[..j], i);
    }
  }
}
