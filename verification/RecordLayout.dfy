/** What compute_size guarantees about a record: items that do not redefine one another are
    disjoint and in order, everything lies inside its group, redefinitions fit before the next
    item, and synchronized items are aligned. */
module RecordLayout {
  import opened Optional
  import opened Records

  /** Exclusive end of all occurrences of an item. */
  function End(item: Item, laid: Laid): nat {
    laid.offset + Extent(item, laid)
  }

  /** Inside the group. */
  ghost predicate Inside(kids: seq<Item>, laid: seq<Laid>, lo: nat, hi: nat)
    requires |laid| == |kids|
  {
    forall i :: 0 <= i < |kids| ==> lo <= laid[i].offset && End(kids[i], laid[i]) <= hi
  }

  /** An item that is no redefinition starts after everything declared before it, larger
      redefinitions included. */
  ghost predicate InOrder(kids: seq<Item>, laid: seq<Laid>)
    requires |laid| == |kids|
  {
    forall i, j :: 0 <= i < j < |kids| && kids[j].c.redefines.None? ==> End(kids[i], laid[i]) <= laid[j].offset
  }

  /** A redefinition starts with its original. */
  ghost predicate OnOriginals(kids: seq<Item>, laid: seq<Laid>)
    requires |laid| == |kids|
  {
    forall i :: 0 <= i < |kids| && kids[i].c.redefines.Some? && kids[i].c.redefines.value < i ==>
      laid[i].offset == laid[kids[i].c.redefines.value].offset
  }

  /** Synchronized items are aligned, redefinitions as far as their originals' alignment is a multiple
      of theirs. */
  ghost predicate Aligned(kids: seq<Item>, laid: seq<Laid>, cfg: Config)
    requires |laid| == |kids|
  {
    forall i :: 0 <= i < |kids| && Alignable(kids, laid, i, cfg) ==>
      laid[i].offset % Alignment(kids[i].c, laid[i].size, cfg) == 0
  }

  predicate Alignable(kids: seq<Item>, laid: seq<Laid>, i: nat, cfg: Config)
    requires i < |laid| == |kids|
  {
    match kids[i].c.redefines
    case None => true
    case Some(r) => r < i && Alignment(kids[r].c, laid[r].size, cfg) % Alignment(kids[i].c, laid[i].size, cfg) == 0
  }

  ghost predicate Sound(item: Item, laid: Laid, cfg: Config)
    decreases item
  {
    && |laid.kids| == |item.children|
    && Inside(item.children, laid.kids, laid.offset, laid.offset + laid.size)
    && InOrder(item.children, laid.kids)
    && OnOriginals(item.children, laid.kids)
    && Aligned(item.children, laid.kids, cfg)
    && SoundAll(item.children, laid.kids, cfg)
  }

  ghost predicate SoundAll(kids: seq<Item>, laid: seq<Laid>, cfg: Config)
    requires |laid| == |kids|
    decreases kids
  {
    forall i :: 0 <= i < |kids| ==> Sound(kids[i], laid[i], cfg)
  }

  /** Padding rounds the offset up to a multiple of the alignment. */
  lemma {:induction false} PadAligns(c: Clauses, offset: nat, size: nat, cfg: Config)
    ensures (offset + Padding(c, offset, size, cfg)) % Alignment(c, size, cfg) == 0
  {
    var a := Alignment(c, size, cfg);
    if offset % a != 0 {
      assert offset + (a - offset % a) == (offset / a + 1) * a;
      MultipleOf(offset / a + 1, a);
    }
  }

  lemma {:induction false} MultipleOf(k: nat, a: nat)
    requires a > 0
    ensures k * a % a == 0
  {
    var y := k * a;
    var d := k - y / a;
    assert d * a == y % a by { assert y == (y / a) * a + y % a; }
    assert d >= 1 ==> d * a >= a;
    assert d <= -1 ==> d * a < 0;
  }

  /** One turn of the loop over the sisters: what comes before stays, the running size covers the
      new child, and a child that is no redefinition starts behind the old running size. */
  lemma {:induction false} PlaceTurn(kids: seq<Item>, base: nat, cfg: Config)
    requires WellFormedSiblings(kids) && kids != [] && AcceptedSiblings(kids, Place(kids, base, cfg).kids, cfg)
    ensures var n := |kids| - 1;
            var before := Place(kids[..n], base, cfg);
            var p := Place(kids, base, cfg);
            && AcceptedSiblings(kids[..n], before.kids, cfg)
            && p.kids[..n] == before.kids && before.size <= p.size
            && match kids[n].c.redefines
               case None =>
                 && base + before.size <= p.kids[n].offset && End(kids[n], p.kids[n]) == base + p.size
                 && p.kids[n].offset % Alignment(kids[n].c, p.kids[n].size, cfg) == 0
               case Some(r) =>
                 && p.kids[n].offset == before.kids[r].offset
                 && var excess := Extent(kids[n], p.kids[n]) - Extent(kids[r], before.kids[r]);
                    p.size - before.size == if excess > 0 then excess else 0
  {
    hide Layout, Accepted, Alignment, ElementarySize;
    var n := |kids| - 1;
    var before := Place(kids[..n], base, cfg);
    var p := Place(kids, base, cfg);
    var l := Layout(kids[n], StartOf(kids, before, base), cfg);
    assert p == PlaceNext(kids, l, before, cfg);
    assert p.kids[..n] == before.kids;
    forall i | 0 <= i < n ensures Accepted(kids[..n][i], before.kids[i], cfg) && NotLarger(kids[..n], before.kids, i, cfg) {
      assert p.kids[i] == before.kids[i];
      assert NotLarger(kids, p.kids, i, cfg);
    }
    if kids[n].c.redefines.None? {
      PadAligns(kids[n].c, l.offset, l.size, cfg);
    } else {
      assert NotLarger(kids, p.kids, n, cfg);
    }
  }

  lemma {:induction false} PlaceInside(kids: seq<Item>, base: nat, cfg: Config)
    requires WellFormedSiblings(kids) && AcceptedSiblings(kids, Place(kids, base, cfg).kids, cfg)
    ensures Inside(kids, Place(kids, base, cfg).kids, base, base + Place(kids, base, cfg).size)
    decreases |kids|
  {
    hide Place, PlaceNext, Layout, Accepted, AcceptedSiblings, Alignment, Padding;
    if kids != [] {
      var n := |kids| - 1;
      PlaceTurn(kids, base, cfg);
      PlaceInside(kids[..n], base, cfg);
      var before := Place(kids[..n], base, cfg);
      var p := Place(kids, base, cfg);
      forall i | 0 <= i <= n
        ensures base <= p.kids[i].offset && End(kids[i], p.kids[i]) <= base + p.size
      {
        if i < n {
          assert p.kids[i] == before.kids[i] && kids[i] == kids[..n][i];
        } else if kids[n].c.redefines.Some? {
          var r := kids[n].c.redefines.value;
          assert kids[r] == kids[..n][r];
          assert End(kids[..n][r], before.kids[r]) <= base + before.size;
        }
      }
    }
  }

  lemma {:induction false} InOrderNext(kids: seq<Item>, laid: seq<Laid>, hi: nat)
    requires |laid| == |kids| > 0
    requires InOrder(kids[..|kids| - 1], laid[..|kids| - 1])
    requires Inside(kids[..|kids| - 1], laid[..|kids| - 1], 0, hi)
    requires kids[|kids| - 1].c.redefines.None? ==> hi <= laid[|kids| - 1].offset
    ensures InOrder(kids, laid)
  {
    var n := |kids| - 1;
    forall i, j | 0 <= i < j < |kids| && kids[j].c.redefines.None?
      ensures End(kids[i], laid[i]) <= laid[j].offset
    {
      assert laid[i] == laid[..n][i] && kids[i] == kids[..n][i];
      if j < n { assert laid[j] == laid[..n][j] && kids[j] == kids[..n][j]; }
    }
  }

  lemma {:induction false} PlaceInOrder(kids: seq<Item>, base: nat, cfg: Config)
    requires WellFormedSiblings(kids) && AcceptedSiblings(kids, Place(kids, base, cfg).kids, cfg)
    ensures InOrder(kids, Place(kids, base, cfg).kids)
    decreases |kids|
  {
    hide Place, PlaceNext, Layout, Accepted, AcceptedSiblings, Alignment, Padding;
    if kids != [] {
      var n := |kids| - 1;
      PlaceTurn(kids, base, cfg);
      PlaceInOrder(kids[..n], base, cfg);
      PlaceInside(kids[..n], base, cfg);
      InOrderNext(kids, Place(kids, base, cfg).kids, base + Place(kids[..n], base, cfg).size);
    }
  }

  lemma {:induction false} OnOriginalsNext(kids: seq<Item>, laid: seq<Laid>)
    requires |laid| == |kids| > 0
    requires OnOriginals(kids[..|kids| - 1], laid[..|kids| - 1])
    requires var r := kids[|kids| - 1].c.redefines;
             r.Some? && r.value < |kids| - 1 ==> laid[|kids| - 1].offset == laid[r.value].offset
    ensures OnOriginals(kids, laid)
  {
    var n := |kids| - 1;
    forall i | 0 <= i < |kids| && kids[i].c.redefines.Some? && kids[i].c.redefines.value < i
      ensures laid[i].offset == laid[kids[i].c.redefines.value].offset
    {
      if i < n { assert laid[i] == laid[..n][i] && kids[i] == kids[..n][i]; }
    }
  }

  lemma {:induction false} PlaceOnOriginals(kids: seq<Item>, base: nat, cfg: Config)
    requires WellFormedSiblings(kids) && AcceptedSiblings(kids, Place(kids, base, cfg).kids, cfg)
    ensures OnOriginals(kids, Place(kids, base, cfg).kids)
    decreases |kids|
  {
    hide Place, PlaceNext, Layout, Accepted, AcceptedSiblings, Alignment, Padding;
    if kids != [] {
      var n := |kids| - 1;
      PlaceTurn(kids, base, cfg);
      PlaceOnOriginals(kids[..n], base, cfg);
      var p := Place(kids, base, cfg).kids;
      if kids[n].c.redefines.Some? {
        var r := kids[n].c.redefines.value;
        assert p[r] == p[..n][r];
      }
      OnOriginalsNext(kids, p);
    }
  }

  lemma {:induction false} MultipleOfMultiple(x: nat, b: nat, a: nat)
    requires a > 0 && b > 0 && x % b == 0 && b % a == 0
    ensures x % a == 0
  {
    assert x == (x / b) * b && b == (b / a) * a;
    assert x == ((x / b) * (b / a)) * a;
    MultipleOf((x / b) * (b / a), a);
  }

  /** Behind the last child: all children before it are aligned as they were. */
  lemma {:induction false} AlignedNext(kids: seq<Item>, laid: seq<Laid>, cfg: Config)
    requires |laid| == |kids| > 0 && Aligned(kids[..|kids| - 1], laid[..|kids| - 1], cfg)
    requires var n := |kids| - 1; Alignable(kids, laid, n, cfg) ==> laid[n].offset % Alignment(kids[n].c, laid[n].size, cfg) == 0
    ensures Aligned(kids, laid, cfg)
  {
    hide Alignment;
    var n := |kids| - 1;
    forall i | 0 <= i < |kids| && Alignable(kids, laid, i, cfg)
      ensures laid[i].offset % Alignment(kids[i].c, laid[i].size, cfg) == 0
    {
      if i < n { assert Alignable(kids[..n], laid[..n], i, cfg); }
    }
  }

  lemma {:induction false} PlaceAligned(kids: seq<Item>, base: nat, cfg: Config)
    requires WellFormedSiblings(kids) && AcceptedSiblings(kids, Place(kids, base, cfg).kids, cfg)
    ensures Aligned(kids, Place(kids, base, cfg).kids, cfg)
    decreases |kids|
  {
    hide Place, PlaceNext, Layout, Accepted, AcceptedSiblings, Alignment, Padding;
    if kids != [] {
      var n := |kids| - 1;
      PlaceTurn(kids, base, cfg);
      PlaceAligned(kids[..n], base, cfg);
      var p := Place(kids, base, cfg).kids;
      if kids[n].c.redefines.Some? && Alignable(kids, p, n, cfg) {
        var r := kids[n].c.redefines.value;
        assert Alignable(kids[..n], p[..n], r, cfg);
        MultipleOfMultiple(p[n].offset, Alignment(kids[r].c, p[r].size, cfg), Alignment(kids[n].c, p[n].size, cfg));
      }
      AlignedNext(kids, p, cfg);
    }
  }

  // --- Groups that are moved -----------------------------------------------------------------------

  /** The padding of a group's first item, when the group is placed at `start`. */
  function FirstPadding(x: Item, start: nat, cfg: Config): nat
    requires WellFormed(x) && x.children != []
  {
    assert WellFormedSiblings(x.children);
    Padding(x.children[0].c, start, Layout(x.children[0], start, cfg).size, cfg)
  }

  /** Padding moves a group after its items are placed. They stay in it when their own first padding
      is no smaller. A redefinition is not moved. */
  predicate Keeps(x: Item, start: nat, cfg: Config)
    requires WellFormed(x)
  {
    x.children == [] || x.c.redefines.Some? ||
    Padding(x.c, start, Layout(x, start, cfg).size, cfg) <= FirstPadding(x, start, cfg)
  }

  /** Every group below a start keeps its items. */
  predicate GroupsKeep(x: Item, start: nat, cfg: Config)
    requires WellFormed(x)
    decreases x, 1
  {
    SiblingsKeep(x.children, start, cfg)
  }

  predicate SiblingsKeep(kids: seq<Item>, base: nat, cfg: Config)
    requires WellFormedSiblings(kids)
    decreases kids, 0
  {
    kids == [] || (
      var n := |kids| - 1;
      var start := StartOf(kids, Place(kids[..n], base, cfg), base);
      SiblingsKeep(kids[..n], base, cfg) && Keeps(kids[n], start, cfg) && GroupsKeep(kids[n], start, cfg))
  }

  /** The first child is the lowest. */
  lemma {:induction false} FirstLowest(kids: seq<Item>, base: nat, cfg: Config)
    requires WellFormedSiblings(kids) && kids != [] && AcceptedSiblings(kids, Place(kids, base, cfg).kids, cfg)
    ensures var p := Place(kids, base, cfg).kids;
            && p[0].offset == base + Padding(kids[0].c, base, Layout(kids[0], base, cfg).size, cfg)
            && forall i :: 0 <= i < |kids| ==> p[0].offset <= p[i].offset
    decreases |kids|
  {
    hide Layout, Accepted, AcceptedSiblings, Alignment, Padding;
    var n := |kids| - 1;
    if n == 0 {
      assert kids[..0] == [] && kids == [kids[0]];
    } else {
      hide Place;
      PlaceTurn(kids, base, cfg);
      FirstLowest(kids[..n], base, cfg);
      PlaceInside(kids[..n], base, cfg);
      var before, p := Place(kids[..n], base, cfg).kids, Place(kids, base, cfg).kids;
      forall i | 0 <= i < |kids| ensures p[0].offset <= p[i].offset {
        if i < n { assert p[i] == before[i]; }
      }
    }
  }

  /** How the last child is placed: at its start, and moved by its padding unless it is a redefinition. */
  lemma {:induction false} PlaceLast(kids: seq<Item>, base: nat, cfg: Config)
    requires WellFormedSiblings(kids) && kids != []
    ensures var n := |kids| - 1;
            var start := StartOf(kids, Place(kids[..n], base, cfg), base);
            var l := Layout(kids[n], start, cfg);
            var pad := if kids[n].c.redefines.Some? then 0 else Padding(kids[n].c, start, l.size, cfg);
            var p := Place(kids, base, cfg).kids;
            p[..n] == Place(kids[..n], base, cfg).kids && p[n] == l.(offset := start + pad)
  {
    hide Layout, Padding;
  }

  lemma {:induction false} SiblingsSound(kids: seq<Item>, base: nat, cfg: Config)
    requires WellFormedSiblings(kids) && AcceptedSiblings(kids, Place(kids, base, cfg).kids, cfg)
    ensures SoundAll(kids, Place(kids, base, cfg).kids, cfg) <==> SiblingsKeep(kids, base, cfg)
    decreases kids, 0
  {
    hide Place, PlaceNext, Layout, Alignment, Padding, Sound, Accepted, GroupsKeep, StartOf;
    if kids != [] {
      var n := |kids| - 1;
      var start := StartOf(kids, Place(kids[..n], base, cfg), base);
      PlaceTurn(kids, base, cfg);
      PlaceLast(kids, base, cfg);
      SiblingsSound(kids[..n], base, cfg);
      var p := Place(kids, base, cfg).kids;
      var l := Layout(kids[n], start, cfg);
      AcceptedMoved(kids[n], l, p[n].offset, cfg);
      MovedSound(kids[n], start, if kids[n].c.redefines.Some? then 0 else Padding(kids[n].c, start, l.size, cfg), cfg);
      SoundNext(kids, p, cfg);
    }
  }

  lemma {:induction false} AcceptedMoved(x: Item, l: Laid, offset: nat, cfg: Config)
    ensures Accepted(x, l.(offset := offset), cfg) <==> Accepted(x, l, cfg)
  {
  }

  lemma {:induction false} SoundNext(kids: seq<Item>, laid: seq<Laid>, cfg: Config)
    requires |laid| == |kids| > 0
    ensures var n := |kids| - 1;
            SoundAll(kids, laid, cfg) <==> SoundAll(kids[..n], laid[..n], cfg) && Sound(kids[n], laid[n], cfg)
  {
    hide Sound;
    var n := |kids| - 1;
    assert forall i :: 0 <= i < n ==> kids[..n][i] == kids[i] && laid[..n][i] == laid[i];
  }

  lemma {:induction false} GroupLayout(item: Item, base: nat, cfg: Config)
    requires WellFormed(item) && item.children != [] && Accepted(item, Layout(item, base, cfg), cfg)
    ensures WellFormedSiblings(item.children)
    ensures var p := Place(item.children, base, cfg);
            Layout(item, base, cfg) == Laid(base, p.size, p.kids) && AcceptedSiblings(item.children, p.kids, cfg)
  {
    hide Place;
  }

  /** An item placed at `start` and then moved: it is laid out soundly exactly when it is moved no
      further than its first item, and all groups below keep their items. */
  lemma {:induction false} MovedSound(x: Item, start: nat, pad: nat, cfg: Config)
    requires WellFormed(x) && Accepted(x, Layout(x, start, cfg), cfg)
    ensures Sound(x, Layout(x, start, cfg).(offset := start + pad), cfg) <==>
            (x.children == [] || pad <= FirstPadding(x, start, cfg)) && GroupsKeep(x, start, cfg)
    decreases x, 1
  {
    hide Place, Layout, WellFormed, Accepted, AcceptedSiblings, SiblingsKeep, SoundAll, Sound, FirstPadding, GroupsKeep;
    if x.children == [] {
      MovedLeaf(x, start, pad, cfg);
    } else {
      GroupLayout(x, start, cfg);
      SiblingsSound(x.children, start, cfg);
      MovedGroup(x, start, pad, cfg);
    }
  }

  lemma {:induction false} MovedLeaf(x: Item, start: nat, pad: nat, cfg: Config)
    requires WellFormed(x) && x.children == []
    ensures Sound(x, Layout(x, start, cfg).(offset := start + pad), cfg) && GroupsKeep(x, start, cfg)
  {
    assert Layout(x, start, cfg).kids == [];
  }

  lemma {:induction false} MovedGroup(x: Item, start: nat, pad: nat, cfg: Config)
    requires WellFormed(x) && x.children != [] && Accepted(x, Layout(x, start, cfg), cfg) && WellFormedSiblings(x.children)
    requires SoundAll(x.children, Place(x.children, start, cfg).kids, cfg) <==> SiblingsKeep(x.children, start, cfg)
    ensures Sound(x, Layout(x, start, cfg).(offset := start + pad), cfg) <==>
            pad <= FirstPadding(x, start, cfg) && GroupsKeep(x, start, cfg)
  {
    hide Place, PlaceNext, Layout, WellFormed, WellFormedSiblings, Accepted, AcceptedSiblings, Alignment, Padding,
         SiblingsKeep, SoundAll, Inside, InOrder, OnOriginals, Aligned, Sound;
    GroupLayout(x, start, cfg);
    var p := Place(x.children, start, cfg);
    PlaceInside(x.children, start, cfg);
    PlaceInOrder(x.children, start, cfg);
    PlaceOnOriginals(x.children, start, cfg);
    PlaceAligned(x.children, start, cfg);
    FirstLowest(x.children, start, cfg);
    InsideMoved(x.children, p.kids, start, p.size, pad);
    SoundParts(x, Laid(start + pad, p.size, p.kids), cfg);
  }

  lemma {:induction false} SoundParts(item: Item, laid: Laid, cfg: Config)
    requires |laid.kids| == |item.children|
    ensures Sound(item, laid, cfg) <==>
            && Inside(item.children, laid.kids, laid.offset, laid.offset + laid.size)
            && InOrder(item.children, laid.kids) && OnOriginals(item.children, laid.kids)
            && Aligned(item.children, laid.kids, cfg) && SoundAll(item.children, laid.kids, cfg)
  {
    hide Inside, InOrder, OnOriginals, Aligned, SoundAll;
  }

  lemma {:induction false} InsideMoved(kids: seq<Item>, laid: seq<Laid>, start: nat, size: nat, pad: nat)
    requires |laid| == |kids| > 0 && Inside(kids, laid, start, start + size)
    requires forall i :: 0 <= i < |kids| ==> laid[0].offset <= laid[i].offset
    ensures Inside(kids, laid, start + pad, start + pad + size) <==> start + pad <= laid[0].offset
  {
  }

  /** Every record that draws no error is laid out soundly, at every depth and however many of its
      redefinitions are larger than their originals, exactly when no group is moved further by
      SYNCHRONIZED than its own first item. */
  lemma {:induction false} LayoutSoundIff(item: Item, base: nat, cfg: Config)
    requires WellFormed(item) && Accepted(item, Layout(item, base, cfg), cfg)
    ensures Sound(item, Layout(item, base, cfg), cfg) <==> GroupsKeep(item, base, cfg)
  {
    hide Sound, Accepted, GroupsKeep, FirstPadding;
    var l := Layout(item, base, cfg);
    assert l.(offset := base + 0) == l;
    MovedSound(item, base, 0, cfg);
  }

  lemma {:induction false} ElementaryKeep(kids: seq<Item>, base: nat, cfg: Config)
    requires WellFormedSiblings(kids) && SyncElementarySiblings(kids)
    ensures SiblingsKeep(kids, base, cfg)
    decreases kids
  {
    hide Place, Layout, StartOf;
    if kids != [] {
      var n := |kids| - 1;
      var start := StartOf(kids, Place(kids[..n], base, cfg), base);
      ElementaryKeep(kids[..n], base, cfg);
      assert SyncElementary(kids[n]);
      ElementaryKeep(kids[n].children, start, cfg);
    }
  }

  /** In particular every record whose entries are synchronized only at the bottom. */
  lemma {:induction false} LayoutSound(item: Item, base: nat, cfg: Config)
    requires WellFormed(item) && SyncElementary(item) && Accepted(item, Layout(item, base, cfg), cfg)
    ensures Sound(item, Layout(item, base, cfg), cfg)
  {
    hide Sound, Accepted, Layout, SiblingsKeep;
    ElementaryKeep(item.children, base, cfg);
    LayoutSoundIff(item, base, cfg);
  }

  // --- What is not guaranteed ------------------------------------------------------------------

  const ONE := Clauses(Display, Pic(1, Alphanumeric, false), false, false, false, false, 1, None, false, None, false)
  const HALFWORD := ONE.(usage := Binary, pic := Pic(4, Numeric, false))

  function OneByte(): Item { Item(ONE, []) }
  function TwoBytes(): Item { Item(ONE.(pic := Pic(2, Alphanumeric, false)), []) }
  function SyncGroup(): Item { Item(HALFWORD.(sync := true), [Item(HALFWORD, [])]) }

  lemma {:induction false} PlaceOne(x: Item, base: nat, cfg: Config)
    requires WellFormed(x) && x.c.redefines.None?
    ensures WellFormedSiblings([x])
    ensures Place([x], base, cfg) == PlaceNext([x], Layout(x, base, cfg), Placed([], 0), cfg)
  {
    assert [x][..0] == [];
  }

  lemma {:induction false} PlaceTwo(x: Item, y: Item, base: nat, cfg: Config)
    requires WellFormed(x) && WellFormed(y) && x.c.redefines.None? && y.c.redefines.None?
    ensures WellFormedSiblings([x, y]) && WellFormedSiblings([x])
    ensures var before := Place([x], base, cfg);
            Place([x, y], base, cfg) == PlaceNext([x, y], Layout(y, base + before.size, cfg), before, cfg)
  {
    assert [x, y][..1] == [x];
  }

  /** SYNCHRONIZED on a group: padding moves the group after its children have been placed, so they
      stay outside it. */
  lemma {:induction false} SyncGroupUnsound()
    ensures var cfg := Config(Size248, true, true, 8);
            var record := Item(ONE, [OneByte(), SyncGroup()]);
            && WellFormed(record) && Accepted(record, Layout(record, 0, cfg), cfg)
            && !Sound(record, Layout(record, 0, cfg), cfg)
  {
    var cfg := Config(Size248, true, true, 8);
    var kids := [OneByte(), SyncGroup()];
    var moved := Laid(2, 2, [Laid(1, 2, [])]);
    var laid := [Laid(0, 1, []), moved];
    SyncGroupPlaced();
    hide Place, PlaceNext, Padding, Alignment, ElementarySize;
    assert Layout(Item(ONE, kids), 0, cfg) == Laid(0, 4, laid);
    assert !Inside(SyncGroup().children, moved.kids, 2, 4);
    assert !Sound(kids[1], laid[1], cfg);
    assert NotLarger(kids, laid, 0, cfg) && NotLarger(kids, laid, 1, cfg);
    assert Accepted(kids[0], laid[0], cfg);
    assert Accepted(kids[1], laid[1], cfg);
  }

  lemma {:induction false} SyncGroupPlaced()
    ensures var cfg := Config(Size248, true, true, 8);
            var kids := [OneByte(), SyncGroup()];
            WellFormedSiblings(kids) && Place(kids, 0, cfg) == Placed([Laid(0, 1, []), Laid(2, 2, [Laid(1, 2, [])])], 4)
  {
    var cfg := Config(Size248, true, true, 8);
    PlaceOne(Item(HALFWORD, []), 1, cfg);
    assert Layout(SyncGroup(), 1, cfg) == Laid(1, 2, [Laid(1, 2, [])]);
    PlaceOne(OneByte(), 0, cfg);
    PlaceTwo(OneByte(), SyncGroup(), 0, cfg);
  }

  // --- Synchronized redefinitions --------------------------------------------------------------------

  function Redefining(y: Item, r: nat): Item { y.(c := y.c.(redefines := Some(r))) }

  /** Item i of an accepted group, laid out from base, is y, redefining x. */
  ghost predicate Pair(kids: seq<Item>, base: nat, r: nat, i: nat, x: Item, y: Item, cfg: Config) {
    && r < i < |kids| && kids[r] == x && kids[i] == Redefining(y, r)
    && WellFormedSiblings(kids) && AcceptedSiblings(kids, Place(kids, base, cfg).kids, cfg)
  }

  /** In every group and at every place, y is aligned when it redefines x. */
  ghost predicate AlignedWherever(x: Item, y: Item, cfg: Config) {
    forall kids, base: nat, r: nat, i: nat :: Pair(kids, base, r, i, x, y, cfg) ==>
      Place(kids, base, cfg).kids[i].offset % Alignment(y.c, ElementarySize(y.c, cfg), cfg) == 0
  }

  /** The two alone are accepted wherever they start. */
  ghost predicate FitsWherever(x: Item, y: Item, cfg: Config) {
    forall base: nat :: Pair([x, Redefining(y, 0)], base, 0, 1, x, y, cfg)
  }

  lemma {:induction false} PlacedSize(kids: seq<Item>, base: nat, i: nat, cfg: Config)
    requires WellFormedSiblings(kids) && i < |kids| && kids[i].children == []
    ensures Place(kids, base, cfg).kids[i].size == ElementarySize(kids[i].c, cfg)
    decreases |kids|
  {
    hide Place, Padding, ElementarySize;
    PlaceLast(kids, base, cfg);
    var n := |kids| - 1;
    if i < n {
      PlacedSize(kids[..n], base, i, cfg);
      assert Place(kids, base, cfg).kids[..n][i] == Place(kids, base, cfg).kids[i];
    }
  }

  lemma {:induction false} RedefiningSize(y: Item, r: nat, cfg: Config)
    ensures ElementarySize(Redefining(y, r).c, cfg) == ElementarySize(y.c, cfg)
    ensures forall size :: Alignment(Redefining(y, r).c, size, cfg) == Alignment(y.c, size, cfg)
  {
  }

  /** A redefinition gets no padding of its own. An elementary one is aligned wherever it stands
      exactly when the alignment of its original is a multiple of its own. */
  lemma {:induction false} RedefinesAligned(x: Item, y: Item, cfg: Config)
    requires WellFormed(x) && x.c.redefines.None? && (x.children == [] || !x.c.sync) && y.children == []
    requires FitsWherever(x, y, cfg)
    ensures AlignedWherever(x, y, cfg) <==>
            Alignment(x.c, Layout(x, 0, cfg).size, cfg) % Alignment(y.c, ElementarySize(y.c, cfg), cfg) == 0
  {
    hide Place, Accepted, AcceptedSiblings, ElementarySize;
    var b, a := Alignment(x.c, Layout(x, 0, cfg).size, cfg), Alignment(y.c, ElementarySize(y.c, cfg), cfg);
    if b % a == 0 {
      forall kids, base: nat, r: nat, i: nat | Pair(kids, base, r, i, x, y, cfg)
        ensures Place(kids, base, cfg).kids[i].offset % a == 0
      {
        PlaceAligned(kids, base, cfg);
        PlacedSize(kids, base, i, cfg);
        RedefiningSize(y, r, cfg);
        if x.children == [] { PlacedSize(kids, base, r, cfg); }
        assert Alignable(kids, Place(kids, base, cfg).kids, i, cfg);
      }
    } else {
      var kids := [x, Redefining(y, 0)];
      assert Pair(kids, b, 0, 1, x, y, cfg);
      FirstLowest(kids, b, cfg);
      PlaceOnOriginals(kids, b, cfg);
      assert Alignment(x.c, Layout(x, b, cfg).size, cfg) == b;
      MultipleOf(1, b);
      assert kids[1].c.redefines == Some(0);
      assert Place(kids, b, cfg).kids[1].offset == b;
    }
  }

  /** X(1), X(2), and a synchronized halfword that redefines the X(2): accepted, and at offset 1. */
  lemma {:induction false} RedefinitionMisaligned()
    ensures var cfg := Config(Size248, true, true, 8);
            var y := Item(HALFWORD.(sync := true), []);
            var kids := [OneByte(), TwoBytes(), Redefining(y, 1)];
            && Pair(kids, 0, 1, 2, TwoBytes(), y, cfg)
            && Place(kids, 0, cfg).kids[2].offset == 1 && Alignment(y.c, ElementarySize(y.c, cfg), cfg) == 2
  {
    var cfg := Config(Size248, true, true, 8);
    var y := Item(HALFWORD.(sync := true), []);
    var kids := [OneByte(), TwoBytes(), Redefining(y, 1)];
    PlaceOne(OneByte(), 0, cfg);
    PlaceTwo(OneByte(), TwoBytes(), 0, cfg);
    var two := [OneByte(), TwoBytes()];
    assert kids[..2] == two;
    assert Place(two, 0, cfg) == Placed([Laid(0, 1, []), Laid(1, 2, [])], 3);
    assert Place(kids, 0, cfg) == PlaceNext(kids, Layout(kids[2], 1, cfg), Place(two, 0, cfg), cfg);
    var laid := Place(kids, 0, cfg).kids;
    assert laid == [Laid(0, 1, []), Laid(1, 2, []), Laid(1, 2, [])];
    assert forall i :: 0 <= i < 3 ==> Accepted(kids[i], laid[i], cfg) && NotLarger(kids, laid, i, cfg);
  }
}
