/** INITIALIZE: the classification of items, the merged code that is emitted, and its meaning.

    EXTERNAL and CHAINING items, which call the run-time library, are not modelled. What
    output_initialize_one writes for an item is a parameter: one(item, size). */
module Initialize {
  import opened Optional
  import opened Records

  /** struct cb_initialize: an INITIALIZE statement or the initial state of storage, with VALUE,
      REPLACING categories, and THEN TO DEFAULT. */
  datatype Init = Init(isStatement: bool, val: bool, rep: set<Category>, def: bool)

  datatype Kind = Nothing | One | Default | Compound

  datatype TreeType = GroupType | AlnumType | EditedType | DisplayType | BinaryType | FloatType | PackedType

  function TreeCategory(item: Item): Category {
    if item.children != [] then Alphanumeric
    else if item.c.usage == Pointer then DataPointer
    else if item.c.usage == ProgramPointer then ProgPointer
    else item.c.pic.category
  }

  /** cb_tree_type. A numeric picture with usage OBJECT or PROGRAM does not get this far. */
  function TypeOf(item: Item): TreeType {
    if item.children != [] then GroupType
    else
      match TreeCategory(item)
      case Alphabetic => AlnumType
      case Alphanumeric => AlnumType
      case AlphanumericEdited => EditedType
      case NationalEdited => EditedType
      case NumericEdited => EditedType
      case DataPointer => BinaryType
      case ProgPointer => BinaryType
      case Numeric =>
        if item.c.usage == Display then DisplayType
        else if item.c.usage == Float || item.c.usage == Double then FloatType
        else if item.c.usage == Packed then PackedType
        else BinaryType
  }

  /** initialize_type */
  function KindOf(p: Init, item: Item, top: bool): Kind
    decreases item
  {
    if item.c.redefines.Some? && (!top || !p.isStatement) then Nothing
    else if p.val && item.c.value.Some? then
      if top && item.c.occurs && !p.isStatement then Compound else One
    else if p.isStatement && item.children == [] && item.c.filler then Nothing
    else if item.children != [] then
      var kind := KindOf(p, item.children[0], false);
      if kind == One then Compound
      else if forall i :: 1 <= i < |item.children| ==> KindOf(p, item.children[i], false) == kind then kind
      else Compound
    else if TreeCategory(item) in p.rep then One
    else if p.def then
      if item.c.usage == Float || item.c.usage == Double || TypeOf(item) == EditedType || TypeOf(item) == PackedType then One
      else Default
    else Nothing
  }

  /** initialize_uniform_char; None stands for -1. */
  function UniformChar(item: Item): Option<nat>
    decreases item
  {
    if item.children != [] then
      var c := UniformChar(item.children[0]);
      if forall i :: 1 <= i < |item.children| && item.children[i].c.redefines.None? ==> UniformChar(item.children[i]) == c
      then c else None
    else
      match TypeOf(item)
      case BinaryType => Some(0)
      case DisplayType => Some('0' as nat)
      case AlnumType => Some(' ' as nat)
      case _ => None
  }

  // --- Emitted code ------------------------------------------------------------------------------

  /** A subscript in emitted code: a constant or a loop counter i_n. */
  datatype Index = Fixed(value: int) | Counter(n: nat)

  datatype SubTerm = SubTerm(size: nat, index: Index)

  /** An emitted address: offset plus size * (index - 1) for each subscript. */
  datatype Ref = Ref(offset: nat, terms: seq<SubTerm>)

  datatype Stmt =
    | Memset(at: Ref, c: nat, size: nat)
    | InitOne(at: Ref, bytes: seq<nat>)
    | Loop(i: nat, count: nat, body: seq<Stmt>)    // for (i_n = 1; i_n <= count; i_n++)

  type OneBytes = (Item, nat) -> seq<nat>

  /** First position from j on of an entry that is no redefinition. */
  function NextItem(kids: seq<Item>, j: nat): (k: nat)
    requires j <= |kids|
    ensures j <= k <= |kids|
    ensures k < |kids| ==> kids[k].c.redefines.None?
    ensures forall i :: j <= i < k ==> kids[i].c.redefines.Some?
    decreases |kids| - j
  {
    if j == |kids| || kids[j].c.redefines.None? then j else NextItem(kids, j + 1)
  }

  /** Where the run of items that one memset covers ends: redefinitions are passed over, and the
      first other item of a different kind or character stops it. */
  function RunEnd(p: Init, kids: seq<Item>, c: Option<nat>, j: nat): (e: nat)
    requires j <= |kids|
    ensures j <= e <= |kids|
    ensures e < |kids| ==> kids[e].c.redefines.None?
    ensures forall i :: j <= i < e && kids[i].c.redefines.None? ==> KindOf(p, kids[i], false) == Default && UniformChar(kids[i]) == c
    decreases |kids| - j
  {
    if j < |kids| && (kids[j].c.redefines.Some? || (KindOf(p, kids[j], false) == Default && UniformChar(kids[j]) == c))
    then RunEnd(p, kids, c, j + 1)
    else j
  }

  /** The address at which child j starts, or at which the group ends. */
  function Start(laid: Laid, j: nat): int
    requires j <= |laid.kids|
  {
    if j < |laid.kids| then laid.kids[j].offset else laid.offset + laid.size
  }

  /** A length as emitted; a run never ends before it starts in a sound layout. */
  function AsSize(n: int): nat {
    if n < 0 then 0 else n
  }

  /** output_initialize_compound from child j on, with the loop counters used so far. */
  function EmitFrom(p: Init, one: OneBytes, item: Item, laid: Laid, terms: seq<SubTerm>, depth: nat, j: nat): seq<Stmt>
    requires |laid.kids| == |item.children| && j <= |item.children|
    decreases item, 1, |item.children| - j
  {
    if j == |item.children| then []
    else
      var f := item.children[j];
      var kind := KindOf(p, f, false);
      var c := UniformChar(f);
      if kind == Nothing then EmitFrom(p, one, item, laid, terms, depth, j + 1)
      else if kind == Default && c.Some? then
        var first := if f.c.occurs then [SubTerm(laid.kids[j].size, Fixed(1))] else [];
        var e := RunEnd(p, item.children, c, j + 1);
        [Memset(Ref(laid.kids[j].offset, terms + first), c.value, AsSize(Start(laid, e) - laid.kids[j].offset))]
        + EmitFrom(p, one, item, laid, terms, depth, e)
      else
        EmitChild(p, one, f, laid.kids[j], terms, depth) + EmitFrom(p, one, item, laid, terms, depth, j + 1)
  }

  /** One child that is initialised by itself: inside a loop when it OCCURS. */
  function EmitChild(p: Init, one: OneBytes, f: Item, l: Laid, terms: seq<SubTerm>, depth: nat): seq<Stmt>
    decreases f, 4, 0
  {
    if f.c.occurs then
      [Loop(depth + 1, f.c.occursMax, EmitBody(p, one, f, l, terms + [SubTerm(l.size, Counter(depth + 1))], depth + 1))]
    else EmitBody(p, one, f, l, terms, depth)
  }

  function EmitBody(p: Init, one: OneBytes, f: Item, l: Laid, terms: seq<SubTerm>, depth: nat): seq<Stmt>
    decreases f, 3, 0
  {
    if KindOf(p, f, false) == One then [InitOne(Ref(l.offset, terms), one(f, l.size))]
    else if |l.kids| == |f.children| then EmitCompound(p, one, f, l, terms, depth)
    else []
  }

  function EmitCompound(p: Init, one: OneBytes, item: Item, laid: Laid, terms: seq<SubTerm>, depth: nat): seq<Stmt>
    requires |laid.kids| == |item.children|
    decreases item, 2, 0
  {
    EmitFrom(p, one, item, laid, terms, depth, 0)
  }

  /** output_initialize, for an item referenced with fixed subscripts; `root` when it is at level 01
      or 77. */
  function EmitInitialize(p: Init, one: OneBytes, root: bool, item: Item, laid: Laid, terms: seq<SubTerm>): seq<Stmt>
    requires |laid.kids| == |item.children|
  {
    match KindOf(p, item, true)
    case Nothing => []
    case One => [InitOne(Ref(laid.offset, terms), one(item, laid.size))]
    case Default =>
      var c := UniformChar(item);
      if c.Some? then [Memset(Ref(laid.offset, terms), c.value, laid.size)]
      else EmitParts(p, one, root, item, laid, terms)
    case Compound => EmitParts(p, one, root, item, laid, terms)
  }

  /** The outermost output_initialize_compound: unless for a statement, a record that OCCURS is taken as
      the one child to initialise, in all its occurrences, and a subscript given for it is not used. */
  function EmitParts(p: Init, one: OneBytes, root: bool, item: Item, laid: Laid, terms: seq<SubTerm>): seq<Stmt>
    requires |laid.kids| == |item.children|
  {
    if !p.isStatement && root && item.c.occurs then EmitChild(p, one, item, laid, [], 0)
    else EmitCompound(p, one, item, laid, terms, 0)
  }

  lemma {:induction false} Associative(a: seq<Stmt>, b: seq<Stmt>, c: seq<Stmt>)
    ensures (a + b) + c == a + (b + c)
  {
  }

  /** output_initialize_compound as it runs: one pass over the children, with an inner loop that
      extends a run of uniform items. */
  method OutputInitializeCompound(p: Init, one: OneBytes, item: Item, laid: Laid, terms: seq<SubTerm>, depth: nat)
    returns (out: seq<Stmt>)
    requires |laid.kids| == |item.children|
    ensures out == EmitCompound(p, one, item, laid, terms, depth)
    decreases item, 0
  {
    hide KindOf, UniformChar;
    out := [];
    var f := 0;
    while f < |item.children|
      invariant 0 <= f <= |item.children|
      invariant out + EmitFrom(p, one, item, laid, terms, depth, f) == EmitFrom(p, one, item, laid, terms, depth, 0)
    {
      ghost var from := f;
      var code := [];
      var x, l := item.children[f], laid.kids[f];
      var kind, c := KindOf(p, x, false), UniformChar(x);
      if kind == Default && c.Some? {
        var first := if x.c.occurs then [SubTerm(l.size, Fixed(1))] else [];
        while f + 1 < |item.children|
              && (item.children[f + 1].c.redefines.Some?
                  || (KindOf(p, item.children[f + 1], false) == Default && UniformChar(item.children[f + 1]) == c))
          invariant from <= f < |item.children|
          invariant RunEnd(p, item.children, c, f + 1) == RunEnd(p, item.children, c, from + 1)
        {
          f := f + 1;
        }
        var size := Start(laid, f + 1) - l.offset;
        code := [Memset(Ref(l.offset, terms + first), c.value, AsSize(size))];
        assert RunEnd(p, item.children, c, f + 1) == f + 1;
      } else if kind != Nothing {
        code := OutputChild(p, one, x, l, terms, depth);
      }
      f := f + 1;
      ghost var rest := EmitFrom(p, one, item, laid, terms, depth, f);
      assert EmitFrom(p, one, item, laid, terms, depth, from) == code + rest;
      Associative(out, code, rest);
      out := out + code;
    }
  }

  method OutputChild(p: Init, one: OneBytes, x: Item, l: Laid, terms: seq<SubTerm>, depth: nat) returns (out: seq<Stmt>)
    ensures out == EmitChild(p, one, x, l, terms, depth)
    decreases x, 1
  {
    var inner, level := terms, depth;
    if x.c.occurs {
      inner, level := terms + [SubTerm(l.size, Counter(depth + 1))], depth + 1;
    }
    var body := [];
    if KindOf(p, x, false) == One {
      body := [InitOne(Ref(l.offset, inner), one(x, l.size))];
    } else if |l.kids| == |x.children| {
      body := OutputInitializeCompound(p, one, x, l, inner, level);
    }
    out := if x.c.occurs then [Loop(level, x.c.occursMax, body)] else body;
  }

  method OutputInitialize(p: Init, one: OneBytes, root: bool, item: Item, laid: Laid, terms: seq<SubTerm>)
    returns (out: seq<Stmt>)
    requires |laid.kids| == |item.children|
    ensures out == EmitInitialize(p, one, root, item, laid, terms)
  {
    out := [];
    var parts := false;
    match KindOf(p, item, true) {
      case Nothing =>
      case One => out := [InitOne(Ref(laid.offset, terms), one(item, laid.size))];
      case Default =>
        var c := UniformChar(item);
        if c.Some? {
          out := [Memset(Ref(laid.offset, terms), c.value, laid.size)];
        } else {
          parts := true;
        }
      case Compound => parts := true;
    }
    if parts {
      if !p.isStatement && root && item.c.occurs {
        out := OutputChild(p, one, item, laid, [], 0);
      } else {
        out := OutputInitializeCompound(p, one, item, laid, terms, 0);
      }
    }
  }

  // --- Meaning -----------------------------------------------------------------------------------

  type Mem = seq<nat>

  function Write(m: Mem, at: int, bytes: seq<nat>): (r: Mem)
    ensures |r| == |m|
    ensures forall a :: 0 <= a < |m| ==> r[a] == if at <= a < at + |bytes| then bytes[a - at] else m[a]
  {
    seq(|m|, a requires 0 <= a < |m| => if at <= a < at + |bytes| then bytes[a - at] else m[a])
  }

  function Fill(m: Mem, at: int, c: nat, n: nat): (r: Mem)
    ensures |r| == |m|
    ensures forall a :: 0 <= a < |m| ==> r[a] == if at <= a < at + n then c else m[a]
  {
    seq(|m|, a requires 0 <= a < |m| => if at <= a < at + n then c else m[a])
  }

  type Env = map<nat, int>

  function IndexValue(x: Index, env: Env): int {
    match x
    case Fixed(n) => n
    case Counter(n) => if n in env then env[n] else 1
  }

  function TermsValue(terms: seq<SubTerm>, env: Env): int {
    if terms == [] then 0
    else
      var n := |terms| - 1;
      TermsValue(terms[..n], env) + terms[n].size * (IndexValue(terms[n].index, env) - 1)
  }

  function Value(at: Ref, env: Env): int {
    at.offset + TermsValue(at.terms, env)
  }

  function Exec(x: Stmt, env: Env, m: Mem): Mem
    decreases x
  {
    match x
    case Memset(at, c, size) => Fill(m, Value(at, env), c, size)
    case InitOne(at, bytes) => Write(m, Value(at, env), bytes)
    case Loop(i, count, body) => ExecLoop(i, 1, count, body, env, m)
  }

  function ExecLoop(i: nat, k: nat, count: nat, body: seq<Stmt>, env: Env, m: Mem): Mem
    decreases body, 1, if k <= count then count - k + 1 else 0
  {
    if k > count then m else ExecLoop(i, k + 1, count, body, env, ExecAll(body, env[i := k], m))
  }

  function ExecAll(xs: seq<Stmt>, env: Env, m: Mem): Mem
    decreases xs, 0
  {
    if xs == [] then m else ExecAll(xs[1..], env, Exec(xs[0], env, m))
  }
}
