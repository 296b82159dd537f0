/** Record descriptions as values, and the layout compute_size gives them.

    An Item is one data description entry with everything below it. Level 66 entries, which
    allocate nothing, are not part of the model. */
module Records {
  import opened Optional

  datatype Usage =
    | Display | Binary | Comp5 | CompX | Packed | Index | Length | Float | Double
    | Object | Pointer | ProgramPointer | Program

  datatype Category =
    | Alphabetic | Alphanumeric | AlphanumericEdited | NationalEdited | Numeric | NumericEdited
    | DataPointer | ProgPointer

  datatype Pic = Pic(size: nat, category: Category, haveSign: bool)

  datatype BinarySize = Size248 | Size1248 | Size1To8

  /** The compiler configuration and host sizes that compute_size consults. */
  datatype Config = Config(binarySize: BinarySize, largerRedefinesOk: bool, syncOk: bool, pointerSize: nat)

  const INT_SIZE := 4
  const FLOAT_SIZE := 4
  const DOUBLE_SIZE := 8
  const INT_MAX := 0x7fff_ffff

  /** What an entry says about itself. An entry without OCCURS has occursMax 1; redefines is the
      position of the original definition among the entry's own siblings. */
  datatype Clauses = Clauses(
    usage: Usage, pic: Pic, signSeparate: bool, realBinary: bool, sync: bool,
    occurs: bool, occursMax: nat, redefines: Option<nat>, filler: bool, value: Option<string>, external: bool)

  datatype Item = Item(c: Clauses, children: seq<Item>)

  /** An item's first occurrence once placed: offset from the record's start, size of one
      occurrence, and its children. */
  datatype Laid = Laid(offset: nat, size: nat, kids: seq<Laid>)

  datatype Placed = Placed(kids: seq<Laid>, size: nat)

  // --- Sizes of elementary items ---------------------------------------------------------------

  function BinaryBytes(c: Clauses, cfg: Config): nat {
    var n := c.pic.size;
    match cfg.binarySize
    case Size248 =>
      if c.realBinary && n <= 2 then 1 else if n <= 4 then 2 else if n <= 9 then 4 else if n <= 18 then 8 else 16
    case Size1248 =>
      if n <= 2 then 1 else if n <= 4 then 2 else if n <= 9 then 4 else if n <= 18 then 8 else 16
    case Size1To8 =>
      if n <= 2 then 1 else if n <= 4 then 2
      else if n <= (if c.pic.haveSign then 6 else 7) then 3
      else if n <= 9 then 4
      else if n <= (if c.pic.haveSign then 11 else 12) then 5
      else if n <= 14 then 6 else if n <= 16 then 7 else if n <= 18 then 8 else 16
  }

  function CompXBytes(n: nat): nat {
    if n <= 2 then 1 else if n <= 4 then 2 else if n <= 7 then 3 else if n <= 9 then 4
    else if n <= 12 then 5 else if n <= 14 then 6 else if n <= 16 then 7 else if n <= 18 then 8 else 16
  }

  function ElementarySize(c: Clauses, cfg: Config): nat {
    match c.usage
    case CompX => if c.pic.category == Alphanumeric then 0 else CompXBytes(c.pic.size)
    case Binary => BinaryBytes(c, cfg)
    case Comp5 => BinaryBytes(c, cfg)
    case Display => c.pic.size + (if c.pic.category == Numeric && c.pic.haveSign && c.signSeparate then 1 else 0)
    case Packed => c.pic.size / 2 + 1
    case Index => INT_SIZE
    case Length => INT_SIZE
    case Float => FLOAT_SIZE
    case Double => DOUBLE_SIZE
    case _ => cfg.pointerSize
  }

  // --- Placement ---------------------------------------------------------------------------------

  /** The alignment SYNCHRONIZED asks for, given the item's size. */
  function Alignment(c: Clauses, size: nat, cfg: Config): (a: nat)
    ensures a > 0
  {
    if !c.sync || !cfg.syncOk then 1
    else
      match c.usage
      case Binary => if size == 2 || size == 4 || size == 8 then size else 1
      case Comp5 => if size == 2 || size == 4 || size == 8 then size else 1
      case CompX => if size == 2 || size == 4 || size == 8 then size else 1
      case Float => if size == 2 || size == 4 || size == 8 then size else 1
      case Double => if size == 2 || size == 4 || size == 8 then size else 1
      case Index => INT_SIZE
      case Length => INT_SIZE
      case Display => 1
      case Packed => 1
      case _ => if cfg.pointerSize > 0 then cfg.pointerSize else 1
  }

  function Padding(c: Clauses, offset: nat, size: nat, cfg: Config): nat {
    var a := Alignment(c, size, cfg);
    if offset % a != 0 then a - offset % a else 0
  }

  /** All occurrences together. */
  function Extent(item: Item, laid: Laid): nat {
    laid.size * item.c.occursMax
  }

  function Layout(item: Item, base: nat, cfg: Config): (l: Laid)
    requires WellFormed(item)
    ensures l.offset == base && |l.kids| == |item.children|
    decreases item
  {
    if item.children == [] then Laid(base, ElementarySize(item.c, cfg), [])
    else
      var p := Place(item.children, base, cfg);
      Laid(base, p.size, p.kids)
  }

  /** The children of a group that starts at base, in order, and the running size after them. */
  function Place(kids: seq<Item>, base: nat, cfg: Config): (p: Placed)
    requires WellFormedSiblings(kids)
    ensures |p.kids| == |kids|
    decreases kids
  {
    if kids == [] then Placed([], 0)
    else
      var n := |kids| - 1;
      var before := Place(kids[..n], base, cfg);
      PlaceNext(kids, Layout(kids[n], StartOf(kids, before, base), cfg), before, cfg)
  }

  /** Where the next child is placed: at its original's offset, or at the running size. */
  function StartOf(kids: seq<Item>, before: Placed, base: nat): nat
    requires WellFormedSiblings(kids) && kids != [] && |before.kids| == |kids| - 1
  {
    var c := kids[|kids| - 1].c;
    if c.redefines.Some? then before.kids[c.redefines.value].offset else base + before.size
  }

  /** Takes in the last child once its own subtree is placed as l. */
  function PlaceNext(kids: seq<Item>, l: Laid, before: Placed, cfg: Config): (p: Placed)
    requires WellFormedSiblings(kids) && kids != [] && |before.kids| == |kids| - 1
    ensures |p.kids| == |kids|
  {
    var x := kids[|kids| - 1];
    if x.c.redefines.Some? then
      var r := x.c.redefines.value;
      var grow := Extent(x, l) - Extent(kids[r], before.kids[r]);
      Placed(before.kids + [l], before.size + if grow > 0 && cfg.largerRedefinesOk then grow else 0)
    else
      var pad := Padding(x.c, l.offset, l.size, cfg);
      Placed(before.kids + [l.(offset := l.offset + pad)], before.size + Extent(x, l) + pad)
  }

  /** Occurrence counts are positive, and a REDEFINES has been resolved to an earlier sibling that is
      itself an original definition. */
  predicate WellFormed(item: Item)
    decreases item
  {
    && item.c.occursMax >= 1
    && (!item.c.occurs ==> item.c.occursMax == 1)
    && WellFormedSiblings(item.children)
  }

  predicate WellFormedSiblings(kids: seq<Item>)
    decreases kids
  {
    forall i :: 0 <= i < |kids| ==>
      && WellFormed(kids[i])
      && (kids[i].c.redefines.Some? ==>
            kids[i].c.redefines.value < i && kids[kids[i].c.redefines.value].c.redefines.None?)
  }

  // --- Errors reported while sizes are computed ----------------------------------------------

  predicate TooManyDigits(c: Clauses) {
    (c.usage == Binary || c.usage == Comp5) && c.pic.size > 18
  }

  /** No cb_error: no binary item has more than 18 digits, no redefinition is larger than its original
      unless that is allowed, and every group's size fits an int. */
  predicate Accepted(item: Item, laid: Laid, cfg: Config)
    decreases item
  {
    && (if item.children != [] then laid.size <= INT_MAX else !TooManyDigits(item.c))
    && AcceptedSiblings(item.children, laid.kids, cfg)
  }

  predicate AcceptedSiblings(kids: seq<Item>, laid: seq<Laid>, cfg: Config)
    decreases kids
  {
    && |laid| == |kids|
    && forall i :: 0 <= i < |kids| ==> Accepted(kids[i], laid[i], cfg) && NotLarger(kids, laid, i, cfg)
  }

  predicate NotLarger(kids: seq<Item>, laid: seq<Laid>, i: nat, cfg: Config)
    requires i < |kids| == |laid|
  {
    var r := kids[i].c.redefines;
    r.Some? && !cfg.largerRedefinesOk && r.value < i ==>
      Extent(kids[i], laid[i]) <= Extent(kids[r.value], laid[r.value])
  }

  /** SYNCHRONIZED is written on elementary items only. */
  predicate SyncElementary(item: Item)
    decreases item
  {
    && (item.c.sync ==> item.children == [])
    && SyncElementarySiblings(item.children)
  }

  predicate SyncElementarySiblings(kids: seq<Item>)
    decreases kids
  {
    forall i :: 0 <= i < |kids| ==> SyncElementary(kids[i])
  }

  // --- Storage -------------------------------------------------------------------------------

  /** memory_size of every record after record i with the given extent has been validated. A
      REDEFINES that names no earlier record is treated as absent. */
  function NextMemory(ms: seq<nat>, i: nat, redefines: Option<nat>, extent: nat): (r: seq<nat>)
    requires i < |ms|
    ensures |r| == |ms|
  {
    if redefines.Some? && redefines.value < i then
      if ms[redefines.value] < extent then ms[redefines.value := extent] else ms
    else ms[i := extent]
  }

  datatype Record = Record(redefines: Option<nat>, extent: nat)

  /** The record whose storage record i uses. */
  function Owner(records: seq<Record>, i: nat): nat
    requires i < |records|
  {
    var r := records[i].redefines;
    if r.Some? && r.value < i then r.value else i
  }

  /** memory_size after the first n records have been validated in order, from zero. */
  function MemoryAfter(records: seq<Record>, n: nat): (ms: seq<nat>)
    requires n <= |records|
    ensures |ms| == |records|
  {
    if n == 0 then seq(|records|, _ => 0)
    else NextMemory(MemoryAfter(records, n - 1), n - 1, records[n - 1].redefines, records[n - 1].extent)
  }

  /** Every record fits the storage of the record it is addressed through, and no storage is larger
      than the largest record that uses it. */
  lemma {:induction false} StorageFits(records: seq<Record>, n: nat)
    requires n <= |records|
    requires forall i :: 0 <= i < |records| ==> Owner(records, Owner(records, i)) == Owner(records, i)
    ensures var ms := MemoryAfter(records, n);
            && (forall i :: 0 <= i < n ==> records[i].extent <= ms[Owner(records, i)])
            && (forall k :: 0 <= k < |records| ==>
                  ms[k] == 0 || exists i :: 0 <= i < n && Owner(records, i) == k && records[i].extent == ms[k])
    decreases n
  {
    if n > 0 {
      StorageFits(records, n - 1);
      var before := MemoryAfter(records, n - 1);
      var ms := MemoryAfter(records, n);
      var o := Owner(records, n - 1);
      forall i | 0 <= i < n ensures records[i].extent <= ms[Owner(records, i)] {
        if i < n - 1 { assert before[Owner(records, i)] <= ms[Owner(records, i)]; }
      }
      forall k | 0 <= k < |records|
        ensures ms[k] == 0 || exists i :: 0 <= i < n && Owner(records, i) == k && records[i].extent == ms[k]
      {
        if k == o && ms[k] == records[n - 1].extent {
          assert Owner(records, n - 1) == k;
        } else if ms[k] != 0 {
          assert ms[k] == before[k];
          var i :| 0 <= i < n - 1 && Owner(records, i) == k && records[i].extent == before[k];
        }
      }
    }
  }
}
