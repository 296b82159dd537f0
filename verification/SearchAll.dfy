/** SEARCH ALL: the key condition that is built and emitted, the binary search around it, and when
    the search is right. Key values are modelled as integers, and a table as the function from
    subscript to key values that its storage amounts to. */
module SearchAll {
  import opened Optional

  /** A KEY of the table, and the value the WHEN condition asks of it, if any. */
  datatype Key = Key(ascending: bool, target: Option<int>)

  /** The key values of one occurrence. */
  type Row = seq<int>

  /** A comparison function's result: below, equal, above. */
  function Cmp(a: int, b: int): int {
    if a < b then -1 else if a > b then 1 else 0
  }

  // --- The condition -----------------------------------------------------------------------------

  /** key = target, operands swapped for a descending key, and conjunctions of these. */
  datatype Cond = Test(k: nat, ascending: bool, target: int) | And(x: Cond, y: Cond)

  /** cb_build_search_all: the asked-for keys in the order of the KEY clause, not of the WHEN. */
  function BuildFrom(keys: seq<Key>, i: nat, c1: Option<Cond>): Option<Cond>
    requires i <= |keys|
    decreases |keys| - i
  {
    if i == |keys| then c1
    else if keys[i].target.None? then BuildFrom(keys, i + 1, c1)
    else
      var c2 := Test(i, keys[i].ascending, keys[i].target.value);
      BuildFrom(keys, i + 1, Some(if c1.None? then c2 else And(c1.value, c2)))
  }

  function Build(keys: seq<Key>): Option<Cond> { BuildFrom(keys, 0, None) }

  /** Running the emitted condition with save_flag on one occurrence: its truth, and the comparison ret
      was last set to. */
  function Eval(c: Cond, row: Row): (bool, int) {
    match c
    case Test(k, ascending, target) =>
      var sign := if k >= |row| then 0 else if ascending then Cmp(row[k], target) else Cmp(target, row[k]);
      (sign == 0, sign)
    case And(x, y) =>
      var first := Eval(x, row);
      if first.0 then Eval(y, row) else first
  }

  // --- The WHEN condition ------------------------------------------------------------------------

  /** The condition as written: a key, by its place in the KEY clause, equal to a value, conjunctions,
      and anything else. */
  datatype When = Equal(k: nat, value: int) | Both(x: When, y: When) | Other

  /** search_set_keys: the value of each key that the condition names; None for an error. */
  function SetKeys(keys: seq<Key>, w: When): (r: Option<seq<Key>>)
    ensures r.Some? ==> |r.value| == |keys|
    decreases w
  {
    match w
    case Equal(k, value) => if k < |keys| then Some(keys[k := keys[k].(target := Some(value))]) else None
    case Both(x, y) =>
      var first := SetKeys(keys, x);
      if first.None? then None else SetKeys(first.value, y)
    case Other => None
  }

  /** search_set_keys as it writes the keys of the table. */
  method SearchSetKeys(keys: array<Key>, w: When) returns (ok: bool)
    modifies keys
    ensures ok <==> SetKeys(old(keys[..]), w).Some?
    ensures ok ==> keys[..] == SetKeys(old(keys[..]), w).value
    decreases w
  {
    match w {
      case Equal(k, value) =>
        ok := k < keys.Length;
        if ok {
          keys[k] := keys[k].(target := Some(value));
        }
      case Both(x, y) =>
        ok := SearchSetKeys(keys, x);
        var rest := SearchSetKeys(keys, y);
        ok := ok && rest;
      case Other => ok := false;
    }
  }

  /** What the condition says of a row. */
  predicate Holds(w: When, row: Row) {
    match w
    case Equal(k, value) => k < |row| && row[k] == value
    case Both(x, y) => Holds(x, row) && Holds(y, row)
    case Other => false
  }

  predicate Asked(w: When, k: nat, value: int) {
    match w
    case Equal(l, v) => l == k && v == value
    case Both(x, y) => Asked(x, k, value) || Asked(y, k, value)
    case Other => false
  }

  /** No key is asked for two values. */
  ghost predicate OneValueEach(w: When) {
    forall k: nat, v1, v2 :: Asked(w, k, v1) && Asked(w, k, v2) ==> v1 == v2
  }

  /** The value of a key is one that was asked for, or else what it was before. */
  lemma {:induction false} SetIsAsked(keys: seq<Key>, w: When, k: nat)
    requires SetKeys(keys, w).Some? && k < |keys|
    ensures var target := SetKeys(keys, w).value[k].target;
            && (target != keys[k].target ==> target.Some? && Asked(w, k, target.value))
            && (target.None? ==> forall v :: !Asked(w, k, v))
            && (keys[k].target.Some? ==> target.Some?)
    decreases w
  {
    if w.Both? {
      SetIsAsked(keys, w.x, k);
      SetIsAsked(SetKeys(keys, w.x).value, w.y, k);
    }
  }

  lemma {:induction false} AskedInRange(keys: seq<Key>, w: When, k: nat, v: int)
    requires SetKeys(keys, w).Some? && Asked(w, k, v)
    ensures k < |keys|
    decreases w
  {
    if w.Both? {
      if Asked(w.x, k, v) { AskedInRange(keys, w.x, k, v); } else { AskedInRange(SetKeys(keys, w.x).value, w.y, k, v); }
    }
  }

  /** Nothing but comparisons of keys that the table has. */
  predicate AsksOnly(w: When, n: nat) {
    match w
    case Equal(k, _) => k < n
    case Both(x, y) => AsksOnly(x, n) && AsksOnly(y, n)
    case Other => false
  }

  /** A condition is accepted exactly when it is made of comparisons of the table's keys, and only the
      values of the keys are set. */
  lemma {:induction false} AcceptedIffAsksOnly(keys: seq<Key>, w: When)
    ensures SetKeys(keys, w).Some? <==> AsksOnly(w, |keys|)
    ensures SetKeys(keys, w).Some? ==>
              forall k :: 0 <= k < |keys| ==> SetKeys(keys, w).value[k].ascending == keys[k].ascending
    decreases w
  {
    if w.Both? {
      AcceptedIffAsksOnly(keys, w.x);
      if SetKeys(keys, w.x).Some? { AcceptedIffAsksOnly(SetKeys(keys, w.x).value, w.y); }
    }
  }

  /** The last value that the condition asks of a key. */
  function LastAsked(w: When, k: nat): Option<int> {
    match w
    case Equal(l, v) => if l == k then Some(v) else None
    case Both(x, y) => if LastAsked(y, k).Some? then LastAsked(y, k) else LastAsked(x, k)
    case Other => None
  }

  lemma {:induction false} LastIsKept(keys: seq<Key>, w: When, k: nat)
    requires SetKeys(keys, w).Some? && k < |keys|
    ensures SetKeys(keys, w).value[k].target == if LastAsked(w, k).Some? then LastAsked(w, k) else keys[k].target
    decreases w
  {
    if w.Both? {
      LastIsKept(keys, w.x, k);
      LastIsKept(SetKeys(keys, w.x).value, w.y, k);
    }
  }

  ghost predicate HasAsked(w: When, row: Row) {
    forall k: nat, v :: k < |row| && Asked(w, k, v) ==> row[k] == v
  }

  lemma {:induction false} HasBoth(x: When, y: When, row: Row)
    ensures HasAsked(Both(x, y), row) <==> HasAsked(x, row) && HasAsked(y, row)
  {
    var w := Both(x, y);
    if HasAsked(w, row) {
      forall k: nat, v | k < |row| && Asked(x, k, v) ensures row[k] == v { assert Asked(w, k, v); }
      forall k: nat, v | k < |row| && Asked(y, k, v) ensures row[k] == v { assert Asked(w, k, v); }
    } else {
      var k: nat, v: int :| k < |row| && Asked(w, k, v) && row[k] != v;
      assert Asked(x, k, v) || Asked(y, k, v);
    }
  }

  lemma {:induction false} HoldsIfAsked(keys: seq<Key>, w: When, row: Row)
    requires SetKeys(keys, w).Some? && |row| == |keys|
    ensures Holds(w, row) <==> HasAsked(w, row)
    decreases w
  {
    match w
    case Equal(k, value) => assert Asked(w, k, value);
    case Both(x, y) =>
      HoldsIfAsked(keys, x, row);
      HoldsIfAsked(SetKeys(keys, x).value, y, row);
      HasBoth(x, y, row);
    case Other =>
  }

  function Fresh(keys: seq<Key>): (r: seq<Key>)
    ensures |r| == |keys| && forall k :: 0 <= k < |keys| ==> r[k] == keys[k].(target := None)
  {
    seq(|keys|, k requires 0 <= k < |keys| => keys[k].(target := None))
  }

  ghost predicate Means(keys: seq<Key>, w: When, row: Row)
    requires |row| == |keys|
  {
    Matches(keys, row) <==> Holds(w, row)
  }

  /** The values that are kept stand for the condition exactly when it asks no key for two values: of
      two values the last one is searched for. */
  lemma {:induction false} KeptMeansWhenIff(keys: seq<Key>, w: When)
    requires SetKeys(Fresh(keys), w).Some?
    ensures (forall row :: |row| == |keys| ==> Means(SetKeys(Fresh(keys), w).value, w, row)) <==> OneValueEach(w)
  {
    hide SetKeys;
    var ks := SetKeys(Fresh(keys), w).value;
    forall k: nat | k < |keys|
      ensures ks[k].target.Some? ==> Asked(w, k, ks[k].target.value)
      ensures ks[k].target.None? ==> forall v :: !Asked(w, k, v)
    {
      SetIsAsked(Fresh(keys), w, k);
    }
    if OneValueEach(w) {
      forall row | |row| == |keys| ensures Means(ks, w, row) {
        HoldsIfAsked(Fresh(keys), w, row);
        if Matches(ks, row) {
          forall k: nat, v | k < |row| && Asked(w, k, v) ensures row[k] == v { assert ks[k].target == Some(v); }
        }
      }
    } else {
      var k: nat, v1: int, v2: int :| Asked(w, k, v1) && Asked(w, k, v2) && v1 != v2;
      AskedInRange(Fresh(keys), w, k, v1);
      var row: Row := seq(|keys|, i requires 0 <= i < |keys| => if ks[i].target.Some? then ks[i].target.value else 0);
      HoldsIfAsked(Fresh(keys), w, row);
      assert Matches(ks, row);
      assert row[k] != v1 || row[k] != v2;
      assert !HasAsked(w, row);
      assert !Means(ks, w, row);
    }
  }

  /** KEY = 1 AND KEY = 2: the rows with 2 are found. */
  lemma {:induction false} LastValueSearched(ascending: bool, row: Row)
    requires |row| == 1
    ensures var keys := [Key(ascending, None)];
            var w := Both(Equal(0, 1), Equal(0, 2));
            && SetKeys(keys, w) == Some([Key(ascending, Some(2))])
            && (Matches([Key(ascending, Some(2))], row) <==> row[0] == 2) && !Holds(w, row)
  {
    var keys, first := [Key(ascending, None)], [Key(ascending, Some(1))];
    assert keys[0 := Key(ascending, Some(1))] == first && first[0 := Key(ascending, Some(2))] == [Key(ascending, Some(2))];
    assert SetKeys(keys, Equal(0, 1)) == Some([Key(ascending, Some(1))]);
    assert SetKeys([Key(ascending, Some(1))], Equal(0, 2)) == Some([Key(ascending, Some(2))]);
  }

  // --- Key order ---------------------------------------------------------------------------------

  function CmpKey(key: Key, a: int, b: int): int {
    if key.ascending then Cmp(a, b) else Cmp(b, a)
  }

  /** Where a row stands to the asked-for key values from key i on: the sign at the first key that
      differs. */
  function Sign(keys: seq<Key>, row: Row, i: nat): int
    requires i <= |keys| == |row|
    decreases |keys| - i
  {
    if i == |keys| then 0
    else if keys[i].target.Some? && CmpKey(keys[i], row[i], keys[i].target.value) != 0 then
      CmpKey(keys[i], row[i], keys[i].target.value)
    else Sign(keys, row, i + 1)
  }

  /** The order of two rows by all keys. */
  function RowOrder(keys: seq<Key>, a: Row, b: Row, i: nat): int
    requires i <= |keys| == |a| == |b|
    decreases |keys| - i
  {
    if i == |keys| then 0
    else if CmpKey(keys[i], a[i], b[i]) != 0 then CmpKey(keys[i], a[i], b[i])
    else RowOrder(keys, a, b, i + 1)
  }

  predicate Matches(keys: seq<Key>, row: Row)
    requires |row| == |keys|
  {
    forall k :: 0 <= k < |keys| && keys[k].target.Some? ==> row[k] == keys[k].target.value
  }

  /** Every occurrence has its key values. */
  ghost predicate Table(keys: seq<Key>, table: int -> Row) {
    forall i :: |table(i)| == |keys|
  }

  ghost predicate SortedTable(keys: seq<Key>, table: int -> Row, lo: int, hi: int)
    requires Table(keys, table)
  {
    forall i, j :: lo <= i < j <= hi ==> RowOrder(keys, table(i), table(j), 0) <= 0
  }

  /** One row before another: at the first key where they differ, the lower value when it is ascending, and
      the higher one when it is descending. */
  ghost predicate Precedes(keys: seq<Key>, a: Row, b: Row)
    requires |a| == |b| == |keys|
  {
    exists k :: 0 <= k < |keys| && a[..k] == b[..k] && if keys[k].ascending then a[k] < b[k] else a[k] > b[k]
  }

  /** The rows of a sorted table follow one another by their keys. */
  lemma {:induction false} OrderMeans(keys: seq<Key>, a: Row, b: Row)
    requires |a| == |b| == |keys|
    ensures RowOrder(keys, a, b, 0) < 0 <==> Precedes(keys, a, b)
    ensures RowOrder(keys, a, b, 0) == 0 <==> a == b
  {
    OrderFrom(keys, a, b, 0);
  }

  lemma {:induction false} OrderFrom(keys: seq<Key>, a: Row, b: Row, i: nat)
    requires i <= |a| == |b| == |keys| && a[..i] == b[..i]
    ensures RowOrder(keys, a, b, i) < 0 <==> Precedes(keys, a, b)
    ensures RowOrder(keys, a, b, i) == 0 <==> a == b
    decreases |keys| - i
  {
    if i == |keys| {
      assert a[..i] == a && b[..i] == b;
    } else if a[i] == b[i] {
      assert a[..i + 1] == a[..i] + [a[i]] && b[..i + 1] == b[..i] + [b[i]];
      OrderFrom(keys, a, b, i + 1);
    } else if Precedes(keys, a, b) {
      var k :| 0 <= k < |keys| && a[..k] == b[..k] && if keys[k].ascending then a[k] < b[k] else a[k] > b[k];
      DifferAt(a, b, i, k);
    }
  }

  lemma {:induction false} DifferAt(a: Row, b: Row, i: nat, k: nat)
    requires i < |a| == |b| && k < |a| && a[..i] == b[..i] && a[i] != b[i] && a[..k] == b[..k] && a[k] != b[k]
    ensures i == k
  {
    assert forall m :: 0 <= m < k ==> a[m] == a[..k][m] == b[..k][m] == b[m];
    assert forall m :: 0 <= m < i ==> a[m] == a[..i][m] == b[..i][m] == b[m];
  }

  /** The WHEN condition asks for the first few keys, without a gap. */
  ghost predicate AsksPrefix(keys: seq<Key>) {
    forall i, j :: 0 <= i < j < |keys| && keys[j].target.Some? ==> keys[i].target.Some?
  }

  lemma {:induction false} TrueLeavesZero(c: Cond, row: Row)
    ensures Eval(c, row).0 <==> Eval(c, row).1 == 0
    decreases c
  {
    if c.And? {
      TrueLeavesZero(c.x, row);
      TrueLeavesZero(c.y, row);
    }
  }

  lemma {:induction false} BuildEvals(keys: seq<Key>, row: Row, i: nat, c1: Option<Cond>)
    requires i <= |keys| == |row|
    requires BuildFrom(keys, i, c1).Some?
    ensures Eval(BuildFrom(keys, i, c1).value, row)
         == if c1.Some? && !Eval(c1.value, row).0 then Eval(c1.value, row)
            else (Sign(keys, row, i) == 0, Sign(keys, row, i))
    decreases |keys| - i
  {
    if c1.Some? { TrueLeavesZero(c1.value, row); }
    if i < |keys| && keys[i].target.Some? {
      var c2 := Test(i, keys[i].ascending, keys[i].target.value);
      BuildEvals(keys, row, i + 1, Some(if c1.None? then c2 else And(c1.value, c2)));
    } else if i < |keys| {
      BuildEvals(keys, row, i + 1, c1);
    }
  }

  ghost predicate NoneAsked(keys: seq<Key>, i: nat) {
    forall k :: i <= k < |keys| ==> keys[k].target.None?
  }

  /** ret after the short-circuited conjunction is the lexicographic sign of the row against the
      asked-for values, and the conjunction holds just when that is 0. */
  lemma {:induction false} RetIsSign(keys: seq<Key>, row: Row)
    requires |row| == |keys| && Build(keys).Some?
    ensures Eval(Build(keys).value, row) == (Sign(keys, row, 0) == 0, Sign(keys, row, 0))
  {
    BuildEvals(keys, row, 0, None);
  }

  lemma {:induction false} SignZeroIsMatch(keys: seq<Key>, row: Row, i: nat)
    requires i <= |keys| == |row|
    ensures Sign(keys, row, i) == 0 <==>
            forall k :: i <= k < |keys| && keys[k].target.Some? ==> row[k] == keys[k].target.value
    decreases |keys| - i
  {
    if i < |keys| { SignZeroIsMatch(keys, row, i + 1); }
  }

  lemma {:induction false} NoneAskedNoSign(keys: seq<Key>, row: Row, i: nat)
    requires i <= |keys| == |row| && NoneAsked(keys, i)
    ensures Sign(keys, row, i) == 0
    decreases |keys| - i
  {
    if i < |keys| { NoneAskedNoSign(keys, row, i + 1); }
  }

  /** When the keys asked for are a prefix, the sign does not fall along ordered rows. */
  lemma {:induction false} SignMonotone(keys: seq<Key>, a: Row, b: Row, i: nat)
    requires i <= |keys| == |a| == |b| && AsksPrefix(keys) && RowOrder(keys, a, b, i) <= 0
    ensures Sign(keys, a, i) <= Sign(keys, b, i)
    decreases |keys| - i
  {
    if i < |keys| {
      if keys[i].target.None? {
        assert NoneAsked(keys, i);
        NoneAskedNoSign(keys, a, i);
        NoneAskedNoSign(keys, b, i);
      } else if CmpKey(keys[i], a[i], b[i]) == 0 {
        SignMonotone(keys, a, b, i + 1);
      } else {
        SignRange(keys, a, i + 1);
        SignRange(keys, b, i + 1);
      }
    }
  }

  lemma {:induction false} SignRange(keys: seq<Key>, row: Row, i: nat)
    requires i <= |keys| == |row|
    ensures -1 <= Sign(keys, row, i) <= 1
    decreases |keys| - i
  {
    if i < |keys| { SignRange(keys, row, i + 1); }
  }

  // --- The search --------------------------------------------------------------------------------

  /** Binary digits of n: the most probes a range of n occurrences can take. */
  function Bits(n: nat): nat { if n == 0 then 0 else 1 + Bits(n / 2) }

  lemma {:induction false} BitsMonotone(m: nat, n: nat)
    requires m <= n
    ensures Bits(m) <= Bits(n)
    decreases n
  {
    if m > 0 { BitsMonotone(m / 2, n / 2); }
  }

  function Span(lo: int, hi: int): nat { if lo <= hi then hi - lo + 1 else 0 }

  lemma {:induction false} Halved(head: int, tail: int)
    requires head < tail - 1
    ensures head < (head + tail) / 2 < tail
    ensures 1 + Bits(Span(head + 1, (head + tail) / 2 - 1)) <= Bits(Span(head + 1, tail - 1))
    ensures 1 + Bits(Span((head + tail) / 2 + 1, tail - 1)) <= Bits(Span(head + 1, tail - 1))
  {
    var idx := (head + tail) / 2;
    var half := Span(head + 1, tail - 1) / 2;
    BitsMonotone(Span(head + 1, idx - 1), half);
    BitsMonotone(Span(idx + 1, tail - 1), half);
  }

  /** The emitted loop, from the bounds head and tail on. */
  function SearchFrom(cond: Cond, table: int -> Row, head: int, tail: int): Option<int>
    decreases tail - head
  {
    if head >= tail - 1 then None
    else
      var idx := (head + tail) / 2;
      var r := Eval(cond, table(idx));
      if r.0 then Some(idx)
      else if r.1 < 0 then SearchFrom(cond, table, idx, tail)
      else SearchFrom(cond, table, head, idx)
  }

  /** The search starts at occurs_min and ends at the current number of occurrences, given by OCCURS
      or its DEPENDING ON item. */
  function Search(cond: Cond, table: int -> Row, occursMin: nat, count: int): Option<int> {
    SearchFrom(cond, table, occursMin - 1, count + 1)
  }

  /** The same loop as emitted, with the subscripts it tests. */
  method RunSearchAll(cond: Cond, table: int -> Row, occursMin: nat, count: int)
    returns (found: Option<int>, ghost probes: seq<int>)
    ensures found == Search(cond, table, occursMin, count)
    ensures found.Some? ==> probes != [] && found.value == probes[|probes| - 1]
    ensures forall k :: 0 <= k < |probes| ==> occursMin <= probes[k] <= count
    ensures |probes| <= Bits(Span(occursMin, count))
  {
    hide Bits, Span, Eval;
    var ret := 0;
    var head, tail := occursMin - 1, count + 1;
    probes := [];
    while true
      invariant occursMin - 1 <= head && tail <= count + 1
      invariant SearchFrom(cond, table, head, tail) == Search(cond, table, occursMin, count)
      invariant forall k :: 0 <= k < |probes| ==> occursMin <= probes[k] <= count
      invariant |probes| + Bits(Span(head + 1, tail - 1)) <= Bits(Span(occursMin, count))
      decreases tail - head
    {
      if head >= tail - 1 {
        return None, probes;
      }
      var idx := (head + tail) / 2;
      probes := probes + [idx];
      Halved(head, tail);
      var r := Eval(cond, table(idx));
      ret := r.1;
      if r.0 {
        return Some(idx), probes;
      }
      if ret < 0 {
        head := idx;
      } else {
        tail := idx;
      }
    }
  }

  // --- When it is right ----------------------------------------------------------------------------

  /** What is found matches; and if anything from lo to hi matches, something is found. */
  ghost predicate Right(keys: seq<Key>, table: int -> Row, lo: int, hi: int, found: Option<int>)
    requires Table(keys, table)
  {
    && (found.Some? ==> lo <= found.value <= hi && Matches(keys, table(found.value)))
    && (found.None? ==> forall i :: lo <= i <= hi ==> !Matches(keys, table(i)))
  }

  /** Everything up to head is below what is looked for, and everything from tail on above. */
  ghost predicate Bounds(keys: seq<Key>, table: int -> Row, lo: int, hi: int, head: int, tail: int)
    requires Table(keys, table)
  {
    && lo - 1 <= head && tail <= hi + 1
    && (lo <= head ==> head <= hi && Sign(keys, table(head), 0) < 0)
    && (tail <= hi ==> lo <= tail && Sign(keys, table(tail), 0) > 0)
  }

  lemma {:induction false} SearchFromRight(keys: seq<Key>, table: int -> Row, lo: int, hi: int, head: int, tail: int)
    requires Table(keys, table) && Build(keys).Some? && AsksPrefix(keys) && SortedTable(keys, table, lo, hi)
    requires Bounds(keys, table, lo, hi, head, tail)
    ensures Right(keys, table, lo, hi, SearchFrom(Build(keys).value, table, head, tail))
    decreases tail - head
  {
    hide AsksPrefix, SortedTable, Sign, Build, Matches;
    if head >= tail - 1 {
      Exhausted(keys, table, lo, hi, head, tail);
    } else {
      var idx := (head + tail) / 2;
      RetIsSign(keys, table(idx));
      SignZeroMatches(keys, table(idx));
      var sign := Sign(keys, table(idx), 0);
      if sign < 0 {
        SearchFromRight(keys, table, lo, hi, idx, tail);
      } else if sign > 0 {
        SearchFromRight(keys, table, lo, hi, head, idx);
      }
    }
  }

  lemma {:induction false} SignZeroMatches(keys: seq<Key>, row: Row)
    requires |row| == |keys|
    ensures Sign(keys, row, 0) == 0 <==> Matches(keys, row)
  {
    SignZeroIsMatch(keys, row, 0);
  }

  /** Nothing is left between the bounds. */
  lemma {:induction false} Exhausted(keys: seq<Key>, table: int -> Row, lo: int, hi: int, head: int, tail: int)
    requires Table(keys, table) && AsksPrefix(keys) && SortedTable(keys, table, lo, hi)
    requires Bounds(keys, table, lo, hi, head, tail) && head >= tail - 1
    ensures forall i :: lo <= i <= hi ==> !Matches(keys, table(i))
  {
    forall i | lo <= i <= hi ensures !Matches(keys, table(i)) {
      SignZeroMatches(keys, table(i));
      if i < head { SignMonotone(keys, table(i), table(head), 0); }
      if i > tail { SignMonotone(keys, table(tail), table(i), 0); }
    }
  }

  /** On every table sorted by its keys, a condition on the first keys is searched for rightly among
      the occurrences from occurs_min to the current number. */
  lemma {:induction false} SearchRight(keys: seq<Key>, table: int -> Row, occursMin: nat, count: int)
    requires Table(keys, table) && Build(keys).Some? && AsksPrefix(keys) && SortedTable(keys, table, occursMin, count)
    ensures Right(keys, table, occursMin, count, Search(Build(keys).value, table, occursMin, count))
  {
    SearchFromRight(keys, table, occursMin, count, occursMin - 1, count + 1);
  }

  /** A key has a value exactly when the condition names it. */
  ghost predicate NamesPrefix(w: When, n: nat) {
    forall i: nat, j: nat :: i < j < n && LastAsked(w, j).Some? ==> LastAsked(w, i).Some?
  }

  /** From the condition as written: when it names keys of the table without a gap, and one value for each,
      the search finds an occurrence that meets it, or there is none in the range. */
  lemma {:induction false} WhenFound(keys: seq<Key>, w: When, table: int -> Row, occursMin: nat, count: int)
    requires AsksOnly(w, |keys|) && OneValueEach(w) && NamesPrefix(w, |keys|)
    requires Table(keys, table) && SortedTable(keys, table, occursMin, count)
    ensures SetKeys(Fresh(keys), w).Some? && Build(SetKeys(Fresh(keys), w).value).Some?
    ensures var found := Search(Build(SetKeys(Fresh(keys), w).value).value, table, occursMin, count);
            && (found.Some? ==> occursMin <= found.value <= count && Holds(w, table(found.value)))
            && (found.None? ==> forall i :: occursMin <= i <= count ==> !Holds(w, table(i)))
  {
    hide SetKeys, BuildFrom, Search, AsksOnly;
    AcceptedIffAsksOnly(Fresh(keys), w);
    var ks := SetKeys(Fresh(keys), w).value;
    forall k: nat | k < |keys| ensures ks[k].target == LastAsked(w, k) { LastIsKept(Fresh(keys), w, k); }
    var k := SomeNamed(keys, w);
    BuildsSome(ks, 0, None, k);
    SameOrders(keys, ks, table, occursMin, count);
    SearchRight(ks, table, occursMin, count);
    KeptMeansWhenIff(keys, w);
    assert forall i :: Means(ks, w, table(i));
  }

  lemma {:induction false} SomeNamed(keys: seq<Key>, w: When) returns (k: nat)
    requires AsksOnly(w, |keys|)
    ensures k < |keys| && LastAsked(w, k).Some?
    decreases w
  {
    if w.Both? { k := SomeNamed(keys, w.y); } else { k := w.k; }
  }

  lemma {:induction false} BuildsSome(keys: seq<Key>, i: nat, c1: Option<Cond>, k: nat)
    requires i <= |keys| && (c1.Some? || (i <= k < |keys| && keys[k].target.Some?))
    ensures BuildFrom(keys, i, c1).Some?
    decreases |keys| - i
  {
    if i < |keys| {
      if keys[i].target.None? {
        BuildsSome(keys, i + 1, c1, k);
      } else {
        var c2 := Test(i, keys[i].ascending, keys[i].target.value);
        BuildsSome(keys, i + 1, Some(if c1.None? then c2 else And(c1.value, c2)), k);
      }
    }
  }

  /** The values asked for have no part in the order of the table. */
  lemma {:induction false} SameOrders(keys: seq<Key>, ks: seq<Key>, table: int -> Row, lo: int, hi: int)
    requires |ks| == |keys| && (forall k :: 0 <= k < |keys| ==> ks[k].ascending == keys[k].ascending)
    requires Table(keys, table) && SortedTable(keys, table, lo, hi)
    ensures Table(ks, table) && SortedTable(ks, table, lo, hi)
  {
    forall i, j | lo <= i < j <= hi ensures RowOrder(ks, table(i), table(j), 0) <= 0 {
      SameOrder(keys, ks, table(i), table(j), 0);
    }
  }

  lemma {:induction false} SameOrder(keys: seq<Key>, ks: seq<Key>, a: Row, b: Row, i: nat)
    requires i <= |ks| == |keys| == |a| == |b| && forall k :: 0 <= k < |keys| ==> ks[k].ascending == keys[k].ascending
    ensures RowOrder(ks, a, b, i) == RowOrder(keys, a, b, i)
    decreases |keys| - i
  {
    if i < |keys| { SameOrder(keys, ks, a, b, i + 1); }
  }

  // --- When it is not ------------------------------------------------------------------------------

  /** A value that comes before (or, for way = 1, after) v in the key's direction. */
  function Beside(key: Key, v: int, way: int): int {
    if key.ascending then v + way else v - way
  }

  function Wanted(key: Key): int {
    if key.target.Some? then key.target.value else 0
  }

  function WantedRow(keys: seq<Key>): (row: Row)
    ensures |row| == |keys| && forall k :: 0 <= k < |keys| ==> row[k] == Wanted(keys[k])
  {
    seq(|keys|, k requires 0 <= k < |keys| => Wanted(keys[k]))
  }

  /** Two occurrences: the second matches; the first comes before it by key i, which is not asked for,
      but stands above it by the asked-for key j. */
  function TrapRow(keys: seq<Key>, i: nat, j: nat, n: int): (row: Row)
    requires i < j < |keys|
    ensures |row| == |keys|
    ensures forall k :: 0 <= k < |keys| ==>
      row[k] == (if n == 1 && k == i then Beside(keys[k], Wanted(keys[k]), -1)
                 else if n == 1 && k == j then Beside(keys[k], Wanted(keys[k]), 1)
                 else Wanted(keys[k]))
  {
    var wanted := WantedRow(keys);
    if n == 1 then wanted[i := Beside(keys[i], wanted[i], -1)][j := Beside(keys[j], wanted[j], 1)] else wanted
  }

  lemma {:induction false} TrapOrder(keys: seq<Key>, i: nat, j: nat, k: nat)
    requires k <= i < j < |keys|
    ensures RowOrder(keys, TrapRow(keys, i, j, 1), TrapRow(keys, i, j, 2), k) < 0
    decreases i - k
  {
    if k < i { TrapOrder(keys, i, j, k + 1); }
  }

  lemma {:induction false} TrapSign(keys: seq<Key>, i: nat, j: nat, k: nat)
    requires k <= j < |keys| && i < j && keys[i].target.None? && keys[j].target.Some?
    ensures Sign(keys, TrapRow(keys, i, j, 1), k) > 0
    decreases j - k
  {
    if k < j { TrapSign(keys, i, j, k + 1); }
  }

  lemma {:induction false} Gap(keys: seq<Key>) returns (i: nat, j: nat)
    requires !AsksPrefix(keys)
    ensures i < j < |keys| && keys[i].target.None? && keys[j].target.Some?
  {
    i, j :| 0 <= i < j < |keys| && keys[j].target.Some? && keys[i].target.None?;
  }

  /** A WHEN condition that skips a key: some table of two occurrences, sorted by its keys, has a match
      that the search does not find. */
  lemma {:induction false} SkippedKeyMisses(keys: seq<Key>) returns (table: int -> Row)
    requires Build(keys).Some? && !AsksPrefix(keys)
    ensures Table(keys, table) && SortedTable(keys, table, 1, 2)
    ensures !Right(keys, table, 1, 2, Search(Build(keys).value, table, 1, 2))
  {
    var i, j := Gap(keys);
    table := n => TrapRow(keys, i, j, n);
    TrapOrder(keys, i, j, 0);
    TrapSign(keys, i, j, 0);
    RetIsSign(keys, table(1));
    assert Matches(keys, table(2));
    assert SearchFrom(Build(keys).value, table, 0, 1) == None;
  }

  /** The search is right about the occurrences it looks at, on all sorted tables, exactly when the
      condition asks for the keys without a gap. */
  lemma {:induction false} RightIffPrefix(keys: seq<Key>)
    requires Build(keys).Some?
    ensures AsksPrefix(keys) <==> AlwaysRight(keys)
  {
    if AsksPrefix(keys) {
      forall table: int -> Row, occursMin: nat, count: int | Table(keys, table) && SortedTable(keys, table, occursMin, count)
        ensures Right(keys, table, occursMin, count, Search(Build(keys).value, table, occursMin, count))
      {
        SearchRight(keys, table, occursMin, count);
      }
    } else {
      var table := SkippedKeyMisses(keys);
      var lo: nat := 1;
      assert SortedTable(keys, table, lo, 2);
    }
  }

  ghost predicate AlwaysRight(keys: seq<Key>)
    requires Build(keys).Some?
  {
    forall table: int -> Row, occursMin: nat, count: int ::
      Table(keys, table) && SortedTable(keys, table, occursMin, count) ==>
        Right(keys, table, occursMin, count, Search(Build(keys).value, table, occursMin, count))
  }

  /** A row that stands above every asked-for value. */
  function HighRow(keys: seq<Key>): (row: Row)
    ensures |row| == |keys| && forall k :: 0 <= k < |keys| ==> row[k] == Beside(keys[k], Wanted(keys[k]), 1)
  {
    seq(|keys|, k requires 0 <= k < |keys| => Beside(keys[k], Wanted(keys[k]), 1))
  }

  /** Wanted rows before m, high ones from m on. */
  function StepRow(keys: seq<Key>, m: int, n: int): (row: Row)
    ensures |row| == |keys|
  {
    if n < m then WantedRow(keys) else HighRow(keys)
  }

  lemma {:induction false} StepRowsSorted(keys: seq<Key>, m: int, a: int, b: int, k: nat)
    requires a <= b && k <= |keys|
    ensures RowOrder(keys, StepRow(keys, m, a), StepRow(keys, m, b), k) <= 0
    decreases |keys| - k
  {
    if k < |keys| { StepRowsSorted(keys, m, a, b, k + 1); }
  }

  lemma {:induction false} SomeAsked(keys: seq<Key>, i: nat, c1: Option<Cond>) returns (k: nat)
    requires i <= |keys| && c1.None? && BuildFrom(keys, i, c1).Some?
    ensures i <= k < |keys| && keys[k].target.Some?
    decreases |keys| - i
  {
    if keys[i].target.Some? { k := i; } else { k := SomeAsked(keys, i + 1, c1); }
  }

  /** OCCURS m TO n: whatever keys are asked for, the search is right about all the occurrences from 1
      on exactly when m is 1. Above 1 the first occurrences are never looked at, and for 0 the one
      before the table can be found. */
  lemma {:induction false} WholeTableIffMinimumOne(keys: seq<Key>, occursMin: nat)
    requires Build(keys).Some? && AsksPrefix(keys)
    ensures occursMin == 1 <==> RightOnWholeTables(keys, occursMin)
  {
    if occursMin == 1 {
      forall table: int -> Row, count: int | count >= 1 && Table(keys, table) && SortedTable(keys, table, 1, count)
        ensures Right(keys, table, 1, count, Search(Build(keys).value, table, occursMin, count))
      {
        SearchRight(keys, table, 1, count);
      }
    } else {
      var m: nat := if occursMin == 0 then 1 else occursMin;
      var table := OffTheMinimum(keys, occursMin, m);
      assert !Right(keys, table, 1, m, Search(Build(keys).value, table, occursMin, m));
    }
  }

  lemma {:induction false} OffTheMinimum(keys: seq<Key>, occursMin: nat, m: nat) returns (table: int -> Row)
    requires Build(keys).Some? && AsksPrefix(keys) && occursMin != 1 && m == if occursMin == 0 then 1 else occursMin
    ensures Table(keys, table) && SortedTable(keys, table, 1, m)
    ensures !Right(keys, table, 1, m, Search(Build(keys).value, table, occursMin, m))
  {
    table := n => StepRow(keys, m, n);
    forall a, b | a <= b ensures RowOrder(keys, table(a), table(b), 0) <= 0 {
      StepRowsSorted(keys, m, a, b, 0);
    }
    var k := SomeAsked(keys, 0, None);
    assert !Matches(keys, HighRow(keys));
    assert Matches(keys, WantedRow(keys));
    SearchRight(keys, table, occursMin, m);
    var found := Search(Build(keys).value, table, occursMin, m);
    if occursMin == 0 {
      assert Matches(keys, table(0));
      assert found == Some(0);
    } else {
      assert Matches(keys, table(1));
      assert found == None;
    }
  }

  ghost predicate RightOnWholeTables(keys: seq<Key>, occursMin: nat)
    requires Build(keys).Some?
  {
    forall table: int -> Row, count: int ::
      count >= 1 && count >= occursMin && Table(keys, table) && SortedTable(keys, table, 1, count) ==>
        Right(keys, table, 1, count, Search(Build(keys).value, table, occursMin, count))
  }
}
