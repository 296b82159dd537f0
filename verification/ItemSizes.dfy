/** What the size of an elementary item is for, usage by usage, and where it is placed. */
module ItemSizes {
  import opened Records
  import RecordLayout

  function Pow(b: nat, n: nat): nat {
    if n == 0 then 1 else b * Pow(b, n - 1)
  }

  /** A value that can be kept in so many bytes, in two's complement when signed. */
  predicate InBytes(v: int, bytes: nat, signed: bool) {
    if signed then 0 - Pow(256, bytes) <= 2 * v < Pow(256, bytes) else 0 <= v < Pow(256, bytes)
  }

  /** Every value of a picture of so many digits can. */
  ghost predicate HoldsAll(bytes: nat, digits: nat, signed: bool) {
    forall v: int :: (if signed then 0 - Pow(10, digits) < v else 0 <= v) && v < Pow(10, digits) ==> InBytes(v, bytes, signed)
  }

  ghost predicate Least(bytes: nat, sizes: set<nat>, digits: nat, signed: bool) {
    bytes in sizes && HoldsAll(bytes, digits, signed) && forall s :: s in sizes && HoldsAll(s, digits, signed) ==> bytes <= s
  }

  /** The sizes that binary-size allows; those of the C types also have the one byte. */
  function Allowed(c: Clauses, cfg: Config): set<nat> {
    match cfg.binarySize
    case Size248 => if c.realBinary then {1, 2, 4, 8} else {2, 4, 8}
    case Size1248 => {1, 2, 4, 8}
    case Size1To8 => {1, 2, 3, 4, 5, 6, 7, 8}
  }

  // --- Digits and bytes ------------------------------------------------------------------------------

  lemma {:induction false} PowUp(b: nat, m: nat, n: nat)
    requires b >= 1 && m <= n
    ensures 1 <= Pow(b, m) <= Pow(b, n)
    decreases n
  {
    if m == n {
      if n > 0 { PowUp(b, n - 1, n - 1); PowStep(b, n); }
    } else {
      PowUp(b, m, n - 1);
      PowStep(b, n);
    }
  }

  lemma {:induction false} PowStep(b: nat, n: nat)
    requires b >= 1 && n >= 1
    ensures Pow(b, n) >= Pow(b, n - 1)
  {
    assert Pow(b, n) == b * Pow(b, n - 1);
    assert (b - 1) * Pow(b, n - 1) >= 0;
  }

  /** How many digits so many bytes hold. */
  function Digits(bytes: nat, signed: bool): nat {
    match bytes
    case 1 => 2
    case 2 => 4
    case 3 => if signed then 6 else 7
    case 4 => 9
    case 5 => if signed then 11 else 12
    case 6 => 14
    case 7 => 16
    case 8 => if signed then 18 else 19
    case _ => 38
  }

  lemma {:induction false} SmallPowers()
    ensures Pow(256, 1) == 0x100 && Pow(256, 2) == 0x1_0000 && Pow(256, 3) == 0x100_0000 && Pow(256, 4) == 0x1_0000_0000
    ensures Pow(256, 5) == 0x100_0000_0000 && Pow(256, 6) == 0x1_0000_0000_0000 && Pow(256, 7) == 0x100_0000_0000_0000
    ensures Pow(256, 8) == 0x1_0000_0000_0000_0000 && Pow(256, 16) == 0x1_0000_0000_0000_0000_0000_0000_0000_0000
    ensures Pow(10, 2) == 100 && Pow(10, 3) == 1_000 && Pow(10, 4) == 10_000 && Pow(10, 5) == 100_000
    ensures Pow(10, 6) == 1_000_000 && Pow(10, 7) == 10_000_000 && Pow(10, 8) == 100_000_000 && Pow(10, 9) == 1_000_000_000
    ensures Pow(10, 10) == 10_000_000_000 && Pow(10, 11) == 100_000_000_000 && Pow(10, 12) == 1_000_000_000_000
    ensures Pow(10, 13) == 10_000_000_000_000 && Pow(10, 14) == 100_000_000_000_000 && Pow(10, 15) == 1_000_000_000_000_000
    ensures Pow(10, 16) == 10_000_000_000_000_000 && Pow(10, 17) == 100_000_000_000_000_000
    ensures Pow(10, 18) == 1_000_000_000_000_000_000 && Pow(10, 19) == 10_000_000_000_000_000_000
    ensures Pow(10, 20) == 100_000_000_000_000_000_000
    ensures Pow(10, 38) == 100_000_000_000_000_000_000_000_000_000_000_000_000
    ensures Pow(10, 39) == 1_000_000_000_000_000_000_000_000_000_000_000_000_000
  {
    assert Pow(10, 20) == 100_000_000_000_000_000_000;
    assert Pow(10, 26) == 100_000_000_000_000_000_000_000_000;
    assert Pow(10, 32) == 100_000_000_000_000_000_000_000_000_000_000;
    assert Pow(10, 38) == 100_000_000_000_000_000_000_000_000_000_000_000_000;
  }

  /** Of all values of a picture the largest decides. */
  lemma {:induction false} LargestDecides(bytes: nat, digits: nat, signed: bool)
    requires bytes >= 1
    ensures HoldsAll(bytes, digits, signed) <==> InBytes(Pow(10, digits) - 1, bytes, signed)
  {
    hide Pow;
    PowUp(10, 0, digits);
  }

  /** A size holds the values of all pictures up to its number of digits. */
  lemma {:induction false} HoldsAllIff(bytes: nat, digits: nat, signed: bool)
    requires 1 <= bytes <= 8 || bytes == 16
    ensures HoldsAll(bytes, digits, signed) <==> digits <= Digits(bytes, signed)
  {
    hide Pow, HoldsAll;
    LargestDecides(bytes, digits, signed);
    SmallPowers();
    var n := Digits(bytes, signed);
    if digits <= n { PowUp(10, digits, n); } else { PowUp(10, n + 1, digits); }
  }

  // --- Sizes -----------------------------------------------------------------------------------------

  lemma {:induction false} LeastIff(bytes: nat, sizes: set<nat>, digits: nat, signed: bool)
    requires forall s :: s in sizes ==> 1 <= s <= 8
    ensures Least(bytes, sizes, digits, signed) <==>
            && bytes in sizes && digits <= Digits(bytes, signed)
            && forall s :: s in sizes && digits <= Digits(s, signed) ==> bytes <= s
  {
    hide HoldsAll;
    forall s | s in sizes ensures HoldsAll(s, digits, signed) <==> digits <= Digits(s, signed) {
      HoldsAllIff(s, digits, signed);
    }
  }

  /** BINARY and COMP-5: the least size allowed that holds every value of the picture. */
  lemma {:induction false} BinarySizeLeast(item: Item, base: nat, cfg: Config)
    requires WellFormed(item) && item.children == [] && (item.c.usage == Binary || item.c.usage == Comp5)
    requires item.c.pic.size <= 18
    ensures Least(Layout(item, base, cfg).size, Allowed(item.c, cfg), item.c.pic.size, item.c.pic.haveSign)
  {
    hide Least;
    LeastIff(Layout(item, base, cfg).size, Allowed(item.c, cfg), item.c.pic.size, item.c.pic.haveSign);
  }

  /** COMP-X: the least size that holds every unsigned value. The sign is not counted, and with 7 or 12
      digits there is no room for it. */
  lemma {:induction false} CompXSizeLeast(item: Item, base: nat, cfg: Config)
    requires WellFormed(item) && item.children == [] && item.c.usage == CompX && item.c.pic.category != Alphanumeric
    ensures var size, n := Layout(item, base, cfg).size, item.c.pic.size;
            && (n <= 18 ==> Least(size, {1, 2, 3, 4, 5, 6, 7, 8}, n, false))
            && (n > 18 ==> size == 16)
            && (HoldsAll(size, n, item.c.pic.haveSign) <==> n <= 38 && !(item.c.pic.haveSign && (n == 7 || n == 12)))
  {
    hide Least, HoldsAll;
    var size, n := Layout(item, base, cfg).size, item.c.pic.size;
    LeastIff(size, {1, 2, 3, 4, 5, 6, 7, 8}, n, false);
    HoldsAllIff(size, n, item.c.pic.haveSign);
  }

  /** An accepted binary item has at most eight bytes, and no other has. */
  lemma {:induction false} AcceptedBinary(item: Item, base: nat, cfg: Config)
    requires WellFormed(item) && item.children == [] && (item.c.usage == Binary || item.c.usage == Comp5)
    ensures Accepted(item, Layout(item, base, cfg), cfg) <==> Layout(item, base, cfg).size <= 8
  {
  }

  /** A group of accepted items is accepted exactly when its size is a value of an int. */
  lemma {:induction false} AcceptedGroup(item: Item, base: nat, cfg: Config)
    requires WellFormed(item) && item.children != [] && AcceptedSiblings(item.children, Layout(item, base, cfg).kids, cfg)
    ensures Accepted(item, Layout(item, base, cfg), cfg) <==> InBytes(Layout(item, base, cfg).size, INT_SIZE, true)
  {
    hide Layout;
    SmallPowers();
  }

  /** COMP-3: the least number of bytes whose half-bytes hold all digits and the sign. */
  lemma {:induction false} PackedSizeLeast(item: Item, base: nat, cfg: Config)
    requires WellFormed(item) && item.children == [] && item.c.usage == Packed
    ensures var size := Layout(item, base, cfg).size;
            2 * size >= item.c.pic.size + 1 && forall s: nat :: 2 * s >= item.c.pic.size + 1 ==> size <= s
  {
  }

  /** DISPLAY: a byte for each character, and one for a sign that stands by itself. */
  lemma {:induction false} DisplaySize(item: Item, base: nat, cfg: Config, text: string, sign: string)
    requires WellFormed(item) && item.children == [] && item.c.usage == Display && |text| == item.c.pic.size
    requires |sign| == if item.c.pic.category == Numeric && item.c.pic.haveSign && item.c.signSeparate then 1 else 0
    ensures Layout(item, base, cfg).size == |text + sign|
  {
  }

  /** The usages of the host: an int, an IEEE single and double of sign, exponent and fraction, and an
      address. */
  lemma {:induction false} HostSizes(item: Item, base: nat, cfg: Config)
    requires WellFormed(item) && item.children == []
    ensures var size := Layout(item, base, cfg).size;
            match item.c.usage
            case Index => InBytes(INT_MAX, size, true) && !InBytes(INT_MAX + 1, size, true)
            case Length => InBytes(INT_MAX, size, true) && !InBytes(INT_MAX + 1, size, true)
            case Float => 8 * size == 1 + 8 + 23
            case Double => 8 * size == 1 + 11 + 52
            case Object => size == cfg.pointerSize
            case Pointer => size == cfg.pointerSize
            case ProgramPointer => size == cfg.pointerSize
            case Program => size == cfg.pointerSize
            case _ => true
  {
    hide Pow;
    SmallPowers();
  }

  // --- Places ----------------------------------------------------------------------------------------

  /** The first multiple of a from lo on. */
  predicate FirstMultiple(o: nat, lo: nat, a: nat) {
    a > 0 && lo <= o < lo + a && o % a == 0
  }

  /** The last item of any number of sisters, when it is no redefinition: it starts where the running
      size ends, or, synchronized, at the first multiple of its own size, of an int or of an address. */
  lemma {:induction false} PlacedFirst(kids: seq<Item>, base: nat, cfg: Config)
    requires WellFormedSiblings(kids) && kids != [] && kids[|kids| - 1].c.redefines.None?
    ensures var n, c := |kids| - 1, kids[|kids| - 1].c;
            var lo, l := base + Place(kids[..n], base, cfg).size, Place(kids, base, cfg).kids[n];
            if !c.sync || !cfg.syncOk || c.usage == Display || c.usage == Packed then l.offset == lo
            else if c.usage == Index || c.usage == Length then FirstMultiple(l.offset, lo, 4)
            else if c.usage == Object || c.usage == Pointer || c.usage == ProgramPointer || c.usage == Program then
              cfg.pointerSize > 0 ==> FirstMultiple(l.offset, lo, cfg.pointerSize)
            else if l.size == 2 || l.size == 4 || l.size == 8 then FirstMultiple(l.offset, lo, l.size)
            else l.offset == lo
  {
    hide Place;
    PlacedAligned(kids, base, cfg);
  }

  lemma {:induction false} PlacedAligned(kids: seq<Item>, base: nat, cfg: Config)
    requires WellFormedSiblings(kids) && kids != [] && kids[|kids| - 1].c.redefines.None?
    ensures var n := |kids| - 1;
            var l := Place(kids, base, cfg).kids[n];
            FirstMultiple(l.offset, base + Place(kids[..n], base, cfg).size, Alignment(kids[n].c, l.size, cfg))
  {
    hide Layout, Padding, Alignment;
    var n, before := |kids| - 1, Place(kids[..|kids| - 1], base, cfg);
    var l := Layout(kids[n], base + before.size, cfg);
    PaddedFirst(kids[n].c, l.offset, l.size, cfg);
  }

  lemma {:induction false} PaddedFirst(c: Clauses, offset: nat, size: nat, cfg: Config)
    ensures FirstMultiple(offset + Padding(c, offset, size, cfg), offset, Alignment(c, size, cfg))
  {
    hide Alignment;
    var a := Alignment(c, size, cfg);
    RecordLayout.PadAligns(c, offset, size, cfg);
    assert 0 <= offset % a < a;
  }
}
