/** ALPHABET phrases: the table that ranks the 256 characters. */
module Alphabet {

  type Code = c: nat | c < 256

  /** X THRU Y; X ALSO Y ...; and a literal, whose characters follow one another. A number or a
      figurative constant stands for one character. */
  datatype Entry = Thru(lower: Code, upper: Code) | Also(codes: seq<Code>) | Literal(data: seq<Code>)

  // --- The groups of characters of one rank ------------------------------------------------------------

  function Singles(data: seq<Code>): (r: seq<seq<Code>>)
    ensures |r| == |data| && forall k :: 0 <= k < |data| ==> r[k] == [data[k]]
  {
    seq(|data|, k requires 0 <= k < |data| => [data[k]])
  }

  /** Upwards from `from` to `to`; nothing when `to` is lower. */
  function Upward(from: Code, to: int): (r: seq<Code>)
    requires to < 256
    ensures |r| == (if from <= to then to - from + 1 else 0) && forall k :: 0 <= k < |r| ==> r[k] == from + k
  {
    seq(if from <= to then to - from + 1 else 0, k requires 0 <= k < (if from <= to then to - from + 1 else 0) => from + k)
  }

  function Downward(from: Code, to: int): (r: seq<Code>)
    requires to >= 0
    ensures |r| == (if to <= from then from - to + 1 else 0) && forall k :: 0 <= k < |r| ==> r[k] == from - k
  {
    seq(if to <= from then from - to + 1 else 0, k requires 0 <= k < (if to <= from then from - to + 1 else 0) => from - k)
  }

  /** The groups the loops go through, in order. */
  function GroupsOf(e: Entry): seq<seq<Code>> {
    match e
    case Thru(lower, upper) => if lower <= upper then Singles(Upward(lower, upper)) else Singles(Downward(upper, lower))
    case Also(codes) => [codes]
    case Literal(data) => Singles(data)
  }

  function Groups(es: seq<Entry>): seq<seq<Code>> {
    if es == [] then [] else Groups(es[..|es| - 1]) + GroupsOf(es[|es| - 1])
  }

  /** The last group a character is in, or -1. */
  function Slot(groups: seq<seq<Code>>, c: Code): (s: int)
    ensures -1 <= s < |groups|
    ensures s >= 0 ==> c in groups[s]
    ensures forall k :: s < k < |groups| ==> c !in groups[k]
  {
    if groups == [] then -1
    else if c in groups[|groups| - 1] then |groups| - 1
    else Slot(groups[..|groups| - 1], c)
  }

  function UnlistedBelow(groups: seq<seq<Code>>, c: nat): (n: nat)
    requires c <= 256
    ensures n <= c
  {
    if c == 0 then 0 else UnlistedBelow(groups, c - 1) + if Slot(groups, c - 1) == -1 then 1 else 0
  }

  /** The rank of a character: its group's, or else behind all groups, in native order. */
  function Rank(groups: seq<seq<Code>>, c: Code): nat {
    if Slot(groups, c) >= 0 then Slot(groups, c) else |groups| + UnlistedBelow(groups, c)
  }

  /** How many ranks there are. */
  function Ranks(groups: seq<seq<Code>>): nat { |groups| + UnlistedBelow(groups, 256) }

  // --- The table -----------------------------------------------------------------------------------------

  ghost predicate Holds(table: array<int>, groups: seq<seq<Code>>)
    reads table
  {
    table.Length == 256 && forall c: Code :: table[c] == Slot(groups, c)
  }

  lemma {:induction false} SlotGrows(groups: seq<seq<Code>>, g: seq<Code>, c: Code)
    ensures Slot(groups + [g], c) == if c in g then |groups| else Slot(groups, c)
  {
    assert (groups + [g])[..|groups|] == groups;
  }

  method Assign(table: array<int>, ghost groups: seq<seq<Code>>, c: Code, n: nat)
    requires Holds(table, groups) && n == |groups|
    modifies table
    ensures Holds(table, groups + [[c]])
  {
    table[c] := n;
    forall d: Code ensures table[d] == Slot(groups + [[c]], d) { SlotGrows(groups, [c], d); }
  }

  method RankUp(table: array<int>, ghost groups: seq<seq<Code>>, lower: Code, upper: Code, n: nat) returns (m: nat)
    requires Holds(table, groups) && n == |groups|
    modifies table
    ensures Holds(table, groups + Singles(Upward(lower, upper))) && m == |groups + Singles(Upward(lower, upper))|
  {
    m := n;
    var i: nat := lower;
    assert groups + Singles(Upward(lower, lower - 1)) == groups;
    while i <= upper
      invariant lower <= i <= 256 && (lower <= upper ==> i <= upper + 1) && (lower > upper ==> i == lower)
      invariant Holds(table, groups + Singles(Upward(lower, i - 1))) && m == |groups| + (i - lower)
      decreases 256 - i
    {
      Assign(table, groups + Singles(Upward(lower, i - 1)), i, m);
      assert groups + Singles(Upward(lower, i)) == groups + Singles(Upward(lower, i - 1)) + [[i]];
      m := m + 1;
      i := i + 1;
    }
    assert Upward(lower, i - 1) == Upward(lower, upper);
  }

  method RankDown(table: array<int>, ghost groups: seq<seq<Code>>, upper: Code, lower: Code, n: nat) returns (m: nat)
    requires Holds(table, groups) && n == |groups|
    modifies table
    ensures Holds(table, groups + Singles(Downward(upper, lower))) && m == |groups + Singles(Downward(upper, lower))|
  {
    m := n;
    var i: int := upper;
    assert groups + Singles(Downward(upper, upper + 1)) == groups;
    while i >= lower
      invariant -1 <= i <= upper && (lower <= upper ==> lower - 1 <= i) && (lower > upper ==> i == upper)
      invariant Holds(table, groups + Singles(Downward(upper, i + 1))) && m == |groups| + (upper - i)
      decreases i
    {
      Assign(table, groups + Singles(Downward(upper, i + 1)), i, m);
      assert groups + Singles(Downward(upper, i)) == groups + Singles(Downward(upper, i + 1)) + [[i]];
      m := m + 1;
      i := i - 1;
    }
    assert Downward(upper, i + 1) == Downward(upper, lower);
  }

  method RankTogether(table: array<int>, ghost groups: seq<seq<Code>>, codes: seq<Code>, n: nat)
    requires Holds(table, groups) && n == |groups|
    modifies table
    ensures Holds(table, groups + [codes])
  {
    for k := 0 to |codes|
      invariant table.Length == 256
      invariant forall c: Code :: table[c] == if c in codes[..k] then n else Slot(groups, c)
    {
      table[codes[k]] := n;
      assert codes[..k + 1] == codes[..k] + [codes[k]];
    }
    assert codes[..|codes|] == codes;
    forall c: Code ensures table[c] == Slot(groups + [codes], c) { SlotGrows(groups, codes, c); }
  }

  method RankEach(table: array<int>, ghost groups: seq<seq<Code>>, data: seq<Code>, n: nat) returns (m: nat)
    requires Holds(table, groups) && n == |groups|
    modifies table
    ensures Holds(table, groups + Singles(data)) && m == |groups + Singles(data)|
  {
    m := n;
    assert groups + Singles(data[..0]) == groups;
    for i := 0 to |data|
      invariant Holds(table, groups + Singles(data[..i])) && m == |groups| + i
    {
      Assign(table, groups + Singles(data[..i]), data[i], m);
      assert groups + Singles(data[..i + 1]) == groups + Singles(data[..i]) + [[data[i]]];
      m := m + 1;
    }
    assert data[..|data|] == data;
  }

  lemma {:induction false} NothingListed()
    ensures forall c: Code :: Slot([], c) == -1
  {
  }

  /** The loops of output_alphabet_name_definition. */
  method BuildTable(es: seq<Entry>) returns (table: array<int>)
    ensures fresh(table) && table.Length == 256 && forall c: Code :: table[c] == Rank(Groups(es), c)
  {
    table := new int[256];
    for i := 0 to 256
      invariant forall c :: 0 <= c < i ==> table[c] == -1
    {
      table[i] := -1;
    }
    var n := 0;
    hide Slot, Rank;
    NothingListed();
    for k := 0 to |es|
      invariant fresh(table) && Holds(table, Groups(es[..k])) && n == |Groups(es[..k])|
    {
      ghost var groups := Groups(es[..k]);
      assert es[..k + 1][..k] == es[..k];
      match es[k]
      case Thru(lower, upper) =>
        if lower <= upper {
          n := RankUp(table, groups, lower, upper, n);
        } else {
          n := RankDown(table, groups, upper, lower, n);
        }
      case Also(codes) =>
        RankTogether(table, groups, codes, n);
        n := n + 1;
      case Literal(data) =>
        n := RankEach(table, groups, data, n);
    }
    assert es[..|es|] == es;
    FillRest(table, Groups(es), n);
  }

  /** Characters that are in no group, in native order. */
  method FillRest(table: array<int>, ghost groups: seq<seq<Code>>, from: nat)
    requires Holds(table, groups) && from == |groups|
    modifies table
    ensures forall c: Code :: table[c] == Rank(groups, c)
  {
    var n := from;
    for i := 0 to 256
      invariant n == |groups| + UnlistedBelow(groups, i)
      invariant forall c: Code :: table[c] == if c < i then Rank(groups, c) else Slot(groups, c)
    {
      if table[i] == -1 {
        table[i] := n;
        n := n + 1;
      }
    }
  }

  // --- What the ranks are --------------------------------------------------------------------------------

  /** No character is given twice, except within one ALSO group. */
  ghost predicate NoRepeats(groups: seq<seq<Code>>) {
    forall i, j, c: Code :: 0 <= i < j < |groups| && c in groups[i] ==> c !in groups[j]
  }

  /** Every group has a character that no later group takes away. */
  ghost predicate EveryGroupKeepsOne(groups: seq<seq<Code>>) {
    forall i :: 0 <= i < |groups| ==> KeepsOne(groups, i)
  }

  ghost predicate KeepsOne(groups: seq<seq<Code>>, i: nat)
    requires i < |groups|
  {
    exists c: Code :: c in groups[i] && Slot(groups, c) == i
  }

  lemma {:induction false} UnlistedMonotone(groups: seq<seq<Code>>, a: nat, b: nat)
    requires a <= b <= 256
    ensures UnlistedBelow(groups, a) <= UnlistedBelow(groups, b)
    ensures a < b && Slot(groups, a) == -1 ==> UnlistedBelow(groups, a) < UnlistedBelow(groups, b)
    decreases b
  {
    if a < b { UnlistedMonotone(groups, a, b - 1); }
  }

  /** Listed characters come before all others, which keep their native order; every rank is below the
      number of ranks. */
  lemma {:induction false} UnlistedFollow(groups: seq<seq<Code>>, a: Code, b: Code)
    ensures Slot(groups, a) >= 0 && Slot(groups, b) == -1 ==> Rank(groups, a) < Rank(groups, b)
    ensures Slot(groups, a) == -1 && Slot(groups, b) == -1 ==> (Rank(groups, a) < Rank(groups, b) <==> a < b)
    ensures Rank(groups, a) < Ranks(groups)
  {
    UnlistedMonotone(groups, a, 256);
    if a < b { UnlistedMonotone(groups, a, b); } else { UnlistedMonotone(groups, b, a); }
  }

  /** When nothing is repeated, two characters have one rank exactly when they are the same or in one
      ALSO group. */
  lemma {:induction false} OneRankIffOneGroup(groups: seq<seq<Code>>, a: Code, b: Code)
    requires NoRepeats(groups)
    ensures Rank(groups, a) == Rank(groups, b) <==>
            a == b || exists g :: 0 <= g < |groups| && a in groups[g] && b in groups[g]
  {
    UnlistedFollow(groups, a, b);
    UnlistedFollow(groups, b, a);
    if g :| 0 <= g < |groups| && a in groups[g] && b in groups[g] {
      assert Slot(groups, a) == g && Slot(groups, b) == g;
    }
  }

  lemma {:induction false} UnlistedHas(groups: seq<seq<Code>>, r: nat, top: nat) returns (c: Code)
    requires top <= 256 && r < UnlistedBelow(groups, top)
    ensures Slot(groups, c) == -1 && UnlistedBelow(groups, c) == r
    decreases top
  {
    if r < UnlistedBelow(groups, top - 1) {
      c := UnlistedHas(groups, r, top - 1);
    } else {
      c := top - 1;
    }
  }

  ghost predicate Taken(groups: seq<seq<Code>>, r: nat) {
    exists c: Code :: Rank(groups, c) == r
  }

  /** The ranks have no gaps exactly when every group keeps a character: a character that is given again
      later leaves its first rank empty, unless it shares that. */
  lemma {:induction false} NoGapsIff(groups: seq<seq<Code>>)
    ensures (forall r: nat :: r < Ranks(groups) ==> Taken(groups, r)) <==> EveryGroupKeepsOne(groups)
  {
    forall i: nat | i < |groups| ensures Taken(groups, i) <==> KeepsOne(groups, i) {
      if Taken(groups, i) {
        var c: Code :| Rank(groups, c) == i;
        assert Slot(groups, c) == i;
      }
      if KeepsOne(groups, i) {
        var c: Code :| c in groups[i] && Slot(groups, c) == i;
        assert Rank(groups, c) == i;
      }
    }
    forall r: nat | |groups| <= r < Ranks(groups) ensures Taken(groups, r) {
      var c := UnlistedHas(groups, r - |groups|, 256);
      assert Rank(groups, c) == r;
    }
  }

  /** ALPHABET ... IS "AA": no character has the first rank. */
  lemma {:induction false} TwiceLeavesGap()
    ensures Groups([Literal([65, 65])]) == [[65], [65]] && !Taken(Groups([Literal([65, 65])]), 0)
  {
    var groups: seq<seq<Code>> := [[65], [65]];
    assert Groups([Literal([65, 65])]) == groups;
    forall c: Code ensures Rank(groups, c) != 0 { assert Slot(groups, c) != 0; }
  }

  /** No character twice and no group empty: then every group keeps one. */
  lemma {:induction false} NoRepeatsKeep(groups: seq<seq<Code>>)
    requires NoRepeats(groups) && forall i :: 0 <= i < |groups| ==> groups[i] != []
    ensures EveryGroupKeepsOne(groups)
  {
    forall i | 0 <= i < |groups| ensures KeepsOne(groups, i) {
      assert groups[i][0] in groups[i];
      assert Slot(groups, groups[i][0]) == i;
    }
  }

  function Range(n: nat): (r: set<nat>)
    ensures |r| == n && forall x: nat :: x in r <==> x < n
  {
    if n == 0 then {} else Range(n - 1) + {n - 1}
  }

  function Elements(s: seq<nat>): (r: set<nat>)
    ensures forall x: nat :: x in r <==> x in s
  {
    if s == [] then {} else Elements(s[..|s| - 1]) + {s[|s| - 1]}
  }

  lemma {:induction false} DistinctCount(s: seq<nat>)
    requires forall i, j :: 0 <= i < j < |s| ==> s[i] != s[j]
    ensures |Elements(s)| == |s|
    decreases |s|
  {
    if s != [] { DistinctCount(s[..|s| - 1]); }
  }

  /** As many ranks as characters. */
  lemma {:induction false} CountRanks(groups: seq<seq<Code>>)
    requires forall a: Code, b: Code :: Rank(groups, a) == Rank(groups, b) ==> a == b
    requires forall r: nat :: r < Ranks(groups) ==> Taken(groups, r)
    ensures Ranks(groups) == 256
  {
    hide Rank;
    var s := seq(256, c requires 0 <= c < 256 => Rank(groups, c));
    forall i, j | 0 <= i < j < 256 ensures s[i] != s[j] { assert s[i] == Rank(groups, i) && s[j] == Rank(groups, j); }
    DistinctCount(s);
    forall x: nat | x in s ensures x < Ranks(groups) {
      var c :| 0 <= c < 256 && s[c] == x;
      UnlistedFollow(groups, c, c);
    }
    forall r: nat | r < Ranks(groups) ensures r in s {
      assert Taken(groups, r);
      var c: Code :| Rank(groups, c) == r;
      assert s[c] == r;
    }
    assert Elements(s) == Range(Ranks(groups));
  }

  /** Without ALSO the table is a permutation of the 256 characters. */
  lemma {:induction false} PermutationWithoutAlso(es: seq<Entry>)
    requires NoRepeats(Groups(es)) && forall k :: 0 <= k < |es| ==> !es[k].Also?
    ensures forall a: Code, b: Code :: Rank(Groups(es), a) == Rank(Groups(es), b) ==> a == b
    ensures Ranks(Groups(es)) == 256
    ensures forall r: nat :: r < 256 <==> Taken(Groups(es), r)
  {
    var groups := Groups(es);
    AllSingle(es);
    forall a: Code, b: Code | Rank(groups, a) == Rank(groups, b) ensures a == b { OneRankIffOneGroup(groups, a, b); }
    NoRepeatsKeep(groups);
    NoGapsIff(groups);
    forall a: Code ensures Rank(groups, a) < Ranks(groups) { UnlistedFollow(groups, a, a); }
    CountRanks(groups);
  }

  lemma {:induction false} AllSingle(es: seq<Entry>)
    requires forall k :: 0 <= k < |es| ==> !es[k].Also?
    ensures forall i :: 0 <= i < |Groups(es)| ==> |Groups(es)[i]| == 1
    decreases |es|
  {
    if es != [] { AllSingle(es[..|es| - 1]); }
  }

  // --- Descending ranges ---------------------------------------------------------------------------------

  /** The groups as the phrase means them: a range from a higher to a lower character goes down. */
  function MeantOf(e: Entry): seq<seq<Code>> {
    match e
    case Thru(lower, upper) => if lower <= upper then Singles(Upward(lower, upper)) else Singles(Downward(lower, upper))
    case Also(codes) => [codes]
    case Literal(data) => Singles(data)
  }

  function Meant(es: seq<Entry>): seq<seq<Code>> {
    if es == [] then [] else Meant(es[..|es| - 1]) + MeantOf(es[|es| - 1])
  }

  predicate Ascending(es: seq<Entry>) {
    forall k :: 0 <= k < |es| && es[k].Thru? ==> es[k].lower <= es[k].upper
  }

  lemma {:induction false} AscendingMeant(es: seq<Entry>)
    requires Ascending(es)
    ensures Groups(es) == Meant(es)
    decreases |es|
  {
    if es != [] { AscendingMeant(es[..|es| - 1]); }
  }

  /** Every group of the table is one that was meant. */
  lemma {:induction false} GroupsAreMeant(es: seq<Entry>)
    ensures forall g :: g in Groups(es) ==> g in Meant(es)
    decreases |es|
  {
    if es != [] { GroupsAreMeant(es[..|es| - 1]); }
  }

  /** Where the groups of entry k are among those meant. */
  lemma {:induction false} MeantAt(es: seq<Entry>, k: nat, i: nat)
    requires k < |es| && i < |MeantOf(es[k])|
    ensures var at := |Meant(es[..k])| + i; at < |Meant(es)| && Meant(es)[at] == MeantOf(es[k])[i]
    decreases |es|
  {
    hide MeantOf;
    var before := es[..|es| - 1];
    if k < |es| - 1 {
      MeantAt(before, k, i);
      assert before[..k] == es[..k];
    } else {
      assert before == es[..k];
    }
  }

  predicate Unlisted(groups: seq<seq<Code>>, c: Code) {
    forall i :: 0 <= i < |groups| ==> c !in groups[i]
  }

  lemma {:induction false} BothUnlisted(a: seq<seq<Code>>, b: seq<seq<Code>>, c: Code)
    requires Unlisted(a, c) && Unlisted(b, c)
    ensures Unlisted(a + b, c)
    ensures Unlisted([], c)
  {
  }

  lemma {:induction false} NotListed(groups: seq<seq<Code>>, c: Code)
    requires Unlisted(groups, c)
    ensures Slot(groups, c) == -1
  {
  }

  /** The characters of a descending range are in no group of the table. */
  lemma {:induction false} DescendingNotListed(es: seq<Entry>, k: nat, i: nat, c: Code)
    requires k < |es| && es[k].Thru? && es[k].lower > es[k].upper && NoRepeats(Meant(es))
    requires i < |MeantOf(es[k])| && c in MeantOf(es[k])[i]
    ensures Unlisted(Groups(es), c)
    decreases |es|
  {
    hide Groups, Meant, MeantOf, GroupsOf, NoRepeats, Unlisted;
    LastEntry(es);
    var before, last := es[..|es| - 1], es[|es| - 1];
    EarlierNoRepeats(Meant(before), MeantOf(last));
    if k == |es| - 1 {
      EarlierNot(Meant(before), MeantOf(last), i, c);
      GroupsAreMeant(before);
      NoneListed(Groups(before), Meant(before), c);
      assert Groups(es) == Groups(before);
    } else {
      MeantAt(before, k, i);
      DescendingNotListed(before, k, i, c);
      LaterNot(Meant(before), MeantOf(last), |Meant(before[..k])| + i, c);
      BothUnlisted(Groups(before), MeantOf(last), c);
      assert Groups(es) == Groups(before) + MeantOf(last) || Groups(es) == Groups(before);
    }
  }

  lemma {:induction false} EarlierNoRepeats(a: seq<seq<Code>>, b: seq<seq<Code>>)
    requires NoRepeats(a + b)
    ensures NoRepeats(a)
  {
    assert forall j :: 0 <= j < |a| ==> (a + b)[j] == a[j];
  }

  lemma {:induction false} EarlierNot(a: seq<seq<Code>>, b: seq<seq<Code>>, j: nat, c: Code)
    requires NoRepeats(a + b) && j < |b| && c in b[j]
    ensures Unlisted(a, c)
  {
    assert (a + b)[|a| + j] == b[j];
    forall i | 0 <= i < |a| ensures c !in a[i] { assert (a + b)[i] == a[i]; }
  }

  lemma {:induction false} NoneListed(groups: seq<seq<Code>>, meant: seq<seq<Code>>, c: Code)
    requires (forall g :: g in groups ==> g in meant) && Unlisted(meant, c)
    ensures Unlisted(groups, c)
  {
    forall i | 0 <= i < |groups| ensures c !in groups[i] {
      assert groups[i] in groups;
      var g :| 0 <= g < |meant| && meant[g] == groups[i];
    }
  }

  lemma {:induction false} LaterNot(a: seq<seq<Code>>, b: seq<seq<Code>>, i: nat, c: Code)
    requires NoRepeats(a + b) && i < |a| && c in a[i]
    ensures Unlisted(b, c)
  {
    assert (a + b)[i] == a[i];
    forall j | 0 <= j < |b| ensures c !in b[j] { assert (a + b)[|a| + j] == b[j]; }
  }

  lemma {:induction false} LastEntry(es: seq<Entry>)
    requires es != []
    ensures var before, last := es[..|es| - 1], es[|es| - 1];
            && Meant(es) == Meant(before) + MeantOf(last) && Groups(es) == Groups(before) + GroupsOf(last)
            && GroupsOf(last) == if last.Thru? && last.lower > last.upper then [] else MeantOf(last)
  {
  }

  ghost predicate SameTable(es: seq<Entry>) {
    forall c: Code :: Rank(Groups(es), c) == Rank(Meant(es), c)
  }

  lemma {:induction false} SlotWhere(groups: seq<seq<Code>>, i: nat, c: Code)
    requires NoRepeats(groups) && i < |groups| && c in groups[i]
    ensures Slot(groups, c) == i
  {
    assert Slot(groups, c) >= i;
  }

  /** Phrases that give no character twice: the table is the one the phrase means exactly when every
      range ascends. For a descending range the loop runs no turn, and its characters are left to come
      at the end, in native order. */
  lemma {:induction false} MeantIffAscending(es: seq<Entry>)
    requires NoRepeats(Meant(es))
    ensures SameTable(es) <==> Ascending(es)
  {
    hide Rank, Slot;
    if Ascending(es) {
      AscendingMeant(es);
    } else {
      var k :| 0 <= k < |es| && es[k].Thru? && es[k].lower > es[k].upper;
      DescendingDiffers(es, k);
    }
  }

  lemma {:induction false} MeantDown(e: Entry)
    requires e.Thru? && e.lower > e.upper
    ensures var n: int := e.lower - e.upper;
            n < |MeantOf(e)| && MeantOf(e)[0] == [e.lower] && MeantOf(e)[n] == [e.upper]
  {
  }

  /** The characters of a descending range, the other way round. */
  lemma {:induction false} DescendingDiffers(es: seq<Entry>, k: nat)
    requires NoRepeats(Meant(es)) && k < |es| && es[k].Thru? && es[k].lower > es[k].upper
    ensures !SameTable(es)
  {
    hide Rank, Slot, Meant, MeantOf, Groups, NoRepeats;
    var a, b := es[k].lower, es[k].upper;
    MeantDown(es[k]);
    DescendingNotListed(es, k, 0, a);
    DescendingNotListed(es, k, a - b, b);
    NotListed(Groups(es), a);
    NotListed(Groups(es), b);
    UnlistedFollow(Groups(es), b, a);
    MeantAt(es, k, 0);
    MeantAt(es, k, a - b);
    SlotWhere(Meant(es), |Meant(es[..k])|, a);
    SlotWhere(Meant(es), |Meant(es[..k])| + (a - b), b);
    RankOfSlot(Meant(es), a);
    RankOfSlot(Meant(es), b);
  }

  lemma {:induction false} RankOfSlot(groups: seq<seq<Code>>, c: Code)
    ensures Slot(groups, c) >= 0 ==> Rank(groups, c) == Slot(groups, c)
  {
  }
}
