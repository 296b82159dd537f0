/** What the elementary items hold after INITIALIZE: zero, spaces, their own value, or what they held. */
module InitializeValues {
  import opened Records
  import opened RecordLayout
  import opened Initialize
  import opened InitializeProof
  import opened InitializeTheorems
  import opened Addressing

  type Bytes = seq<nat>

  /** The number that bytes spell, highest byte first. */
  function BigEndian(bytes: Bytes): nat {
    if bytes == [] then 0 else 256 * BigEndian(bytes[..|bytes| - 1]) + bytes[|bytes| - 1]
  }

  /** Lowest byte first. */
  function LittleEndian(bytes: Bytes): nat {
    if bytes == [] then 0 else bytes[0] + 256 * LittleEndian(bytes[1..])
  }

  ghost predicate AreDigits(bytes: Bytes) {
    forall k :: 0 <= k < |bytes| ==> '0' as int <= bytes[k] <= '9' as int
  }

  /** The number that the digits of a DISPLAY item spell. */
  function DigitsValue(bytes: Bytes): int {
    if bytes == [] then 0 else 10 * DigitsValue(bytes[..|bytes| - 1]) + (bytes[|bytes| - 1] - '0' as int)
  }

  ghost predicate AreSpaces(bytes: Bytes) {
    forall k :: 0 <= k < |bytes| ==> bytes[k] == ' ' as int
  }

  /** Zero for a binary number, an index, an address or digits, and spaces for characters. */
  ghost predicate ReadsAsDefault(c: Clauses, bytes: Bytes) {
    var pointer := c.usage == Pointer || c.usage == ProgramPointer;
    if !pointer && (c.pic.category == Alphabetic || c.pic.category == Alphanumeric) then AreSpaces(bytes)
    else if !pointer && c.pic.category == Numeric && c.usage == Display then AreDigits(bytes) && DigitsValue(bytes) == 0
    else BigEndian(bytes) == 0 && LittleEndian(bytes) == 0
  }

  /** Items whose default is moved into them at run time: floating point, packed and edited ones. */
  predicate MovedDefault(c: Clauses) {
    c.usage == Float || c.usage == Double
    || (c.usage != Pointer && c.usage != ProgramPointer
        && (c.pic.category == AlphanumericEdited || c.pic.category == NationalEdited || c.pic.category == NumericEdited
            || (c.pic.category == Numeric && c.usage == Packed)))
  }

  function Replaced(c: Clauses): Category {
    if c.usage == Pointer then DataPointer else if c.usage == ProgramPointer then ProgPointer else c.pic.category
  }

  /** INITIALIZE, phrase by phrase: the VALUE comes first, FILLER is left alone in a statement that does
      not ask for it, then REPLACING, then the default. */
  ghost predicate Holding(p: Init, one: OneBytes, leaf: Item, size: nat, before: Bytes, after: Bytes) {
    if p.val && leaf.c.value.Some? then after == one(leaf, size)
    else if p.isStatement && leaf.c.filler then after == before
    else if Replaced(leaf.c) in p.rep then after == one(leaf, size)
    else if !p.def then after == before
    else if MovedDefault(leaf.c) then after == one(leaf, size)
    else ReadsAsDefault(leaf.c, after)
  }

  lemma {:induction false} ZeroBytes(bytes: Bytes)
    requires forall k :: 0 <= k < |bytes| ==> bytes[k] == 0
    ensures BigEndian(bytes) == 0 && LittleEndian(bytes) == 0
    decreases |bytes|
  {
    if bytes != [] {
      ZeroBytes(bytes[..|bytes| - 1]);
      ZeroBytes(bytes[1..]);
    }
  }

  lemma {:induction false} ZeroDigits(bytes: Bytes)
    requires forall k :: 0 <= k < |bytes| ==> bytes[k] == '0' as int
    ensures AreDigits(bytes) && DigitsValue(bytes) == 0
    decreases |bytes|
  {
    if bytes != [] { ZeroDigits(bytes[..|bytes| - 1]); }
  }

  lemma {:induction false} FilledReads(p: Init, leaf: Item, top: bool, bytes: Bytes)
    requires leaf.children == [] && KindOf(p, leaf, top) == Default && UniformChar(leaf).Some?
    requires forall k :: 0 <= k < |bytes| ==> bytes[k] == UniformChar(leaf).value
    ensures ReadsAsDefault(leaf.c, bytes)
  {
    if UniformChar(leaf).value == 0 {
      ZeroBytes(bytes);
    } else if UniformChar(leaf).value == '0' as int {
      ZeroDigits(bytes);
    }
  }

  /** Each leaf case of the classification. */
  lemma {:induction false} LeafKinds(p: Init, leaf: Item, top: bool)
    requires leaf.children == [] && (leaf.c.redefines.None? || (top && p.isStatement))
    ensures var byValue := p.val && leaf.c.value.Some?;
            var skipped := p.isStatement && leaf.c.filler;
            var replaced := Replaced(leaf.c) in p.rep;
            match KindOf(p, leaf, top)
            case One => byValue || (!skipped && (replaced || (p.def && MovedDefault(leaf.c))))
            case Nothing => !byValue && (skipped || (!replaced && !p.def))
            case Default => !byValue && !skipped && !replaced && p.def && !MovedDefault(leaf.c)
            case Compound => byValue && top && leaf.c.occurs && !p.isStatement
  {
  }

  lemma {:induction false} LeafHolding(p: Init, one: OneBytes, leaf: Item, l: Laid, at: int, m: Mem, m2: Mem, top: bool)
    requires leaf.children == [] && (leaf.c.redefines.None? || (top && p.isStatement)) && (top ==> p.isStatement)
    requires 0 <= at && at + l.size <= |m| == |m2| && Correct(p, one, leaf, l, at, m, m2, top)
    ensures Holding(p, one, leaf, l.size, m[at..at + l.size], m2[at..at + l.size])
  {
    hide KindOf, UniformChar, ReadsAsDefault, MovedDefault;
    var bytes := m2[at..at + l.size];
    LeafKinds(p, leaf, top);
    match KindOf(p, leaf, top)
    case Nothing => assert bytes == m[at..at + l.size];
    case One => assert bytes == one(leaf, l.size);
    case Default =>
      assert forall k :: 0 <= k < |bytes| ==> bytes[k] == m2[at + k] == UniformChar(leaf).value;
      FilledReads(p, leaf, top, bytes);
    case Compound =>
  }

  /** After INITIALIZE, and in the initial state, every elementary item that is under no redefinition and
      in no group with a VALUE of its own, in every occurrence and of every size, holds what the phrases
      say: its VALUE, what REPLACING gives, zero, spaces, or what it held before. */
  lemma {:induction false} InitializeMeans(p: Init, one: OneBytes, root: bool, levels: seq<Level>, cfg: Config, shift: int,
                                           terms: seq<SubTerm>, env: Env, m: Mem)
    requires Reached(p, root, levels, cfg, shift, terms, env) && Sized(one) && !ValueMissed(p, root, levels[0].item)
    requires levels[|levels| - 1].item.children == []
    requires var at := shift + Address(levels); 0 <= at && at + levels[|levels| - 1].laid.size <= |m|
    ensures |levels[0].laid.kids| == |levels[0].item.children|
    ensures var leaf, at := levels[|levels| - 1], shift + Address(levels);
            var m2 := ExecAll(EmitInitialize(p, one, root, levels[0].item, levels[0].laid, terms), env, m);
            |m2| == |m|
            && Holding(p, one, leaf.item, leaf.laid.size, m[at..at + leaf.laid.size], m2[at..at + leaf.laid.size])
  {
    hide KindOf, UniformChar, EmitInitialize, Value, Correct, Address, Sound, WellFormed, Holding;
    ReachedCorrect(p, one, root, levels, cfg, shift, terms, env, m);
    var m2 := ExecAll(EmitInitialize(p, one, root, levels[0].item, levels[0].laid, terms), env, m);
    var leaf, top := levels[|levels| - 1], |levels| == 1 && p.isStatement;
    LeafHolding(p, one, leaf.item, leaf.laid, shift + Address(levels), m, m2, top);
  }
}
