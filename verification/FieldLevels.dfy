/** Level numbers: the tree they describe, and which sequences of them describe one (strict hierarchy,
    levels 01 to 49 and 77). */
module FieldLevels {

  /** Level 77 stands beside 01, at the top. */
  function Rank(level: nat): nat { if level == 77 then 1 else level }

  predicate IsLevel(level: nat) { 1 <= level <= 49 || level == 77 }

  predicate IsTop(level: nat) { level == 1 || level == 77 }

  ghost predicate Levels(ls: seq<nat>) { forall k :: 0 <= k < |ls| ==> IsLevel(ls[k]) }

  // --- Positions in the sequence ---------------------------------------------------------------------

  function EndFrom(ls: seq<nat>, rank: nat, j: nat): (e: nat)
    requires j <= |ls|
    ensures j <= e <= |ls| && (e < |ls| ==> Rank(ls[e]) <= rank)
    ensures forall k :: j <= k < e ==> Rank(ls[k]) > rank
    decreases |ls| - j
  {
    if j == |ls| || Rank(ls[j]) <= rank then j else EndFrom(ls, rank, j + 1)
  }

  /** Where the group that starts at i ends. */
  function End(ls: seq<nat>, i: nat): (e: nat)
    requires i < |ls|
    ensures i < e <= |ls| && (e < |ls| ==> Rank(ls[e]) <= Rank(ls[i]))
    ensures forall k :: i < k < e ==> Rank(ls[k]) > Rank(ls[i])
  {
    EndFrom(ls, Rank(ls[i]), i + 1)
  }

  /** Entry i is the last one, or a group that the last one is in. */
  predicate OnPath(ls: seq<nat>, i: nat) { i < |ls| && End(ls, i) == |ls| }

  /** What the entry after ls may be: an 01 or 77; or, not after a 77, a level deeper than the last, or
      the level of the last entry or of a group it is in. */
  predicate Accepts(ls: seq<nat>, level: nat) {
    || IsTop(level)
    || (ls != [] && ls[|ls| - 1] != 77
        && (level > ls[|ls| - 1] || exists i :: 0 <= i < |ls| && OnPath(ls, i) && ls[i] == level))
  }

  ghost predicate Accepted(ls: seq<nat>) {
    forall k :: 0 <= k < |ls| ==> IsLevel(ls[k]) && Accepts(ls[..k], ls[k])
  }

  // --- Trees -------------------------------------------------------------------------------------------

  datatype Tree = Tree(level: nat, kids: seq<Tree>)

  /** The levels in the order they were written. */
  function Flatten(ts: seq<Tree>): seq<nat> {
    if ts == [] then [] else [ts[0].level] + Flatten(ts[0].kids) + Flatten(ts[1..])
  }

  /** Below a group at level `under`: items of one level m, deeper than the group. */
  ghost predicate Children(under: nat, m: nat, ts: seq<Tree>)
    decreases ts
  {
    ts == [] || (ts[0].level == m && under < m <= 49 && Children(m, KidLevel(ts[0]), ts[0].kids) && Children(under, m, ts[1..]))
  }

  function KidLevel(t: Tree): nat { FirstLevel(t.kids) }

  function FirstLevel(ts: seq<Tree>): nat { if ts == [] then 0 else ts[0].level }

  ghost predicate WellFormedChildren(under: nat, ts: seq<Tree>) { Children(under, FirstLevel(ts), ts) }

  /** Records: 01 levels with their items, and 77 levels alone. */
  ghost predicate WellFormed(ts: seq<Tree>) {
    ts == []
    || (&& (if ts[0].level == 77 then ts[0].kids == [] else ts[0].level == 1 && WellFormedChildren(1, ts[0].kids))
        && WellFormed(ts[1..]))
  }

  /** Every group takes the entries up to its end. */
  function ForestOf(ls: seq<nat>): seq<Tree>
    decreases |ls|
  {
    if ls == [] then []
    else [Tree(ls[0], ForestOf(ls[1..End(ls, 0)]))] + ForestOf(ls[End(ls, 0)..])
  }

  lemma {:induction false} ForestStarts(ls: seq<nat>, kids: seq<nat>, rest: seq<nat>)
    requires ls != [] && kids == ls[1..End(ls, 0)] && rest == ls[End(ls, 0)..]
    ensures ForestOf(ls) == [Tree(ls[0], ForestOf(kids))] + ForestOf(rest)
  {
  }

  lemma {:induction false} FlattenStarts(t: Tree, ts: seq<Tree>)
    ensures Flatten([t] + ts) == [t.level] + Flatten(t.kids) + Flatten(ts)
  {
    assert ([t] + ts)[1..] == ts;
  }

  lemma {:induction false} Parts(ls: seq<nat>, e: nat)
    requires 0 < e <= |ls|
    ensures ls == [ls[0]] + ls[1..e] + ls[e..]
  {
  }

  /** Nothing is lost or reordered. */
  lemma {:induction false} FlattenForest(ls: seq<nat>)
    ensures Flatten(ForestOf(ls)) == ls
    decreases |ls|
  {
    if ls != [] {
      var e := End(ls, 0);
      hide ForestOf, Flatten, End;
      FlattenForest(ls[1..e]);
      FlattenForest(ls[e..]);
      ForestStarts(ls, ls[1..e], ls[e..]);
      FlattenStarts(Tree(ls[0], ForestOf(ls[1..e])), ForestOf(ls[e..]));
      Parts(ls, e);
    } else {
      assert ForestOf([]) == [] && Flatten([]) == [];
    }
  }

  // --- One more entry ----------------------------------------------------------------------------------

  /** The entry goes below the last tree, at the deepest place that its level allows. */
  function Add(ts: seq<Tree>, level: nat): seq<Tree>
    decreases ts
  {
    if ts == [] then [Tree(level, [])]
    else if |ts| > 1 then [ts[0]] + Add(ts[1..], level)
    else if Rank(level) <= Rank(ts[0].level) then ts + [Tree(level, [])]
    else [Tree(ts[0].level, Add(ts[0].kids, level))]
  }

  lemma {:induction false} AddStarts(t: Tree, ts: seq<Tree>, level: nat)
    ensures Add([t] + ts, level)
         == if ts != [] then [t] + Add(ts, level)
            else if Rank(level) <= Rank(t.level) then [t, Tree(level, [])]
            else [Tree(t.level, Add(t.kids, level))]
  {
    assert ([t] + ts)[1..] == ts;
  }

  lemma {:induction false} EndIs(ls: seq<nat>, i: nat, e: nat)
    requires i < e <= |ls| && (e < |ls| ==> Rank(ls[e]) <= Rank(ls[i]))
    requires forall k :: i < k < e ==> Rank(ls[k]) > Rank(ls[i])
    ensures End(ls, i) == e
  {
    hide EndFrom;
  }

  lemma {:induction false} EndGrows(ls: seq<nat>, level: nat, i: nat)
    requires i < |ls|
    ensures End(ls + [level], i)
         == if End(ls, i) < |ls| then End(ls, i) else if Rank(level) <= Rank(ls[i]) then |ls| else |ls| + 1
  {
    var d := End(ls, i);
    EndIs(ls + [level], i, if d < |ls| then d else if Rank(level) <= Rank(ls[i]) then |ls| else |ls| + 1);
  }

  lemma {:induction false} ForestAdds(ls: seq<nat>, level: nat)
    ensures ForestOf(ls + [level]) == Add(ForestOf(ls), level)
    decreases |ls|
  {
    hide ForestOf, Add, End;
    var all := ls + [level];
    if ls == [] {
      ForestOfOne(level);
      assert all == [level];
    } else {
      var e := End(ls, 0);
      var t := Tree(ls[0], ForestOf(ls[1..e]));
      EndGrows(ls, level, 0);
      ForestStarts(ls, ls[1..e], ls[e..]);
      AddStarts(t, ForestOf(ls[e..]), level);
      if e < |ls| {
        ForestAdds(ls[e..], level);
        ForestNotEmpty(ls[e..]);
        assert all[e..] == ls[e..] + [level] && all[1..e] == ls[1..e];
        ForestStarts(all, ls[1..e], ls[e..] + [level]);
      } else {
        ForestOfOne(level);
        assert ls[e..] == [];
        if Rank(level) <= Rank(ls[0]) {
          assert all[1..|ls|] == ls[1..e] && all[|ls|..] == [level];
          ForestStarts(all, ls[1..e], [level]);
        } else {
          ForestAdds(ls[1..e], level);
          assert all[1..|ls| + 1] == ls[1..e] + [level] && all[|ls| + 1..] == [];
          ForestStarts(all, ls[1..e] + [level], []);
        }
      }
    }
  }

  lemma {:induction false} ForestOfOne(level: nat)
    ensures ForestOf([]) == [] && ForestOf([level]) == [Tree(level, [])] == Add([], level)
  {
    EndIs([level], 0, 1);
    ForestStarts([level], [], []);
  }

  lemma {:induction false} ForestNotEmpty(ls: seq<nat>)
    requires ls != []
    ensures ForestOf(ls) != []
  {
  }

  // --- Rebuilding ----------------------------------------------------------------------------------------

  lemma {:induction false} FlattenDeeper(under: nat, m: nat, ts: seq<Tree>)
    requires Children(under, m, ts)
    ensures forall k :: 0 <= k < |Flatten(ts)| ==> under < Flatten(ts)[k] <= 49
    ensures ts != [] ==> Flatten(ts) != [] && Flatten(ts)[0] == m
    ensures ts == [] ==> Flatten(ts) == []
    decreases ts
  {
    if ts != [] {
      FlattenDeeper(m, KidLevel(ts[0]), ts[0].kids);
      FlattenDeeper(under, m, ts[1..]);
      assert Flatten(ts) == [m] + Flatten(ts[0].kids) + Flatten(ts[1..]);
    }
  }

  /** The first tree of a forest is read off its levels. */
  lemma {:induction false} ReadsFirst(t: Tree, ts: seq<Tree>)
    requires t.level == 77 || t.level <= 49
    requires forall k :: 0 <= k < |Flatten(t.kids)| ==> Rank(t.level) < Flatten(t.kids)[k] <= 49
    requires ts != [] ==> Rank(ts[0].level) <= Rank(t.level)
    requires ForestOf(Flatten(t.kids)) == t.kids && ForestOf(Flatten(ts)) == ts
    ensures ForestOf(Flatten([t] + ts)) == [t] + ts
  {
    hide ForestOf;
    FlattenStarts(t, ts);
    var kids, rest := Flatten(t.kids), Flatten(ts);
    var ls := [t.level] + kids + rest;
    if ts != [] {
      assert rest[0] == ts[0].level;
    } else {
      assert rest == [];
    }
    EndIs(ls, 0, 1 + |kids|);
    assert ls[1..1 + |kids|] == kids && ls[1 + |kids|..] == rest;
    ForestStarts(ls, kids, rest);
  }

  lemma {:induction false} RebuildsChildren(under: nat, m: nat, ts: seq<Tree>)
    requires Children(under, m, ts)
    ensures ForestOf(Flatten(ts)) == ts
    decreases ts
  {
    if ts != [] {
      RebuildsChildren(m, KidLevel(ts[0]), ts[0].kids);
      RebuildsChildren(under, m, ts[1..]);
      FlattenDeeper(m, KidLevel(ts[0]), ts[0].kids);
      ReadsFirst(ts[0], ts[1..]);
      assert ts == [ts[0]] + ts[1..];
    }
  }

  /** The levels of any well-formed records, read again, give those records. */
  lemma {:induction false} Rebuilds(ts: seq<Tree>)
    requires WellFormed(ts)
    ensures ForestOf(Flatten(ts)) == ts
    decreases ts
  {
    if ts != [] {
      if ts[0].level == 77 {
        assert Flatten([]) == [] && ForestOf([]) == [];
      } else {
        RebuildsChildren(1, KidLevel(ts[0]), ts[0].kids);
        FlattenDeeper(1, KidLevel(ts[0]), ts[0].kids);
      }
      Rebuilds(ts[1..]);
      ReadsFirst(ts[0], ts[1..]);
      assert ts == [ts[0]] + ts[1..];
    }
  }

  // --- What is accepted ----------------------------------------------------------------------------------

  /** The levels from the last record down to the last entry. */
  function Spine(ts: seq<Tree>): seq<nat>
    decreases ts
  {
    if ts == [] then []
    else if |ts| > 1 then Spine(ts[1..])
    else [ts[0].level] + Spine(ts[0].kids)
  }

  lemma {:induction false} SpineStarts(t: Tree, ts: seq<Tree>)
    ensures Spine([t] + ts) == if ts != [] then Spine(ts) else [t.level] + Spine(t.kids)
  {
    assert ([t] + ts)[1..] == ts;
  }

  /** A level that goes on below a group, given the spine below it. */
  predicate Continues(under: nat, spine: seq<nat>, level: nat) {
    level > (if spine == [] then under else spine[|spine| - 1]) || level in spine
  }

  lemma {:induction false} SpineDeeper(under: nat, m: nat, ts: seq<Tree>)
    requires Children(under, m, ts)
    ensures forall l :: l in Spine(ts) ==> under < m <= l <= 49
    ensures ts != [] ==> Spine(ts) != []
    decreases ts
  {
    if |ts| > 1 {
      SpineDeeper(under, m, ts[1..]);
    } else if ts != [] {
      SpineDeeper(m, KidLevel(ts[0]), ts[0].kids);
    }
  }

  lemma {:induction false} ChildrenStart(under: nat, t: Tree, ts: seq<Tree>)
    ensures WellFormedChildren(under, [t] + ts) <==>
            && under < t.level <= 49 && WellFormedChildren(t.level, t.kids)
            && WellFormedChildren(under, ts) && (ts != [] ==> FirstLevel(ts) == t.level)
  {
    var all := [t] + ts;
    assert all[0] == t && all[1..] == ts && FirstLevel(all) == t.level;
    assert Children(under, t.level, ts) <==> WellFormedChildren(under, ts) && (ts != [] ==> FirstLevel(ts) == t.level);
    assert Children(under, t.level, all) <==>
           t.level == t.level && under < t.level <= 49 && Children(t.level, KidLevel(t), t.kids) && Children(under, t.level, ts);
  }

  /** Below a group, one more entry keeps the items well formed exactly when it is deeper than the last
      or of a level on the spine. */
  lemma {:induction false} ChildrenAdd(under: nat, ts: seq<Tree>, level: nat)
    requires 1 <= under < level <= 49
    ensures WellFormedChildren(under, Add(ts, level)) <==> WellFormedChildren(under, ts) && Continues(under, Spine(ts), level)
    ensures Add(ts, level) != [] && FirstLevel(Add(ts, level)) == if ts == [] then level else FirstLevel(ts)
    decreases ts
  {
    hide Add, WellFormedChildren, Spine;
    if ts == [] {
      assert ts == [];
      AddToNone(under, level);
    } else {
      var t, rest := ts[0], ts[1..];
      assert ts == [t] + rest;
      ChildrenStart(under, t, rest);
      AddStarts(t, rest, level);
      SpineStarts(t, rest);
      if rest != [] {
        ChildrenAdd(under, rest, level);
        ChildrenStart(under, t, Add(rest, level));
      } else {
        NoChildren(under);
        if Rank(level) <= Rank(t.level) {
          assert [t, Tree(level, [])] == [t] + [Tree(level, [])];
          ChildrenStart(under, t, [Tree(level, [])]);
          AddToNone(under, level);
          LevelNotBelow(under, t, level);
        } else {
          ChildrenStart(under, Tree(t.level, Add(t.kids, level)), []);
          assert [Tree(t.level, Add(t.kids, level))] + [] == [Tree(t.level, Add(t.kids, level))];
          if under < t.level <= 49 {
            ChildrenAdd(t.level, t.kids, level);
            ContinuesBelow(under, t.level, Spine(t.kids), level);
          }
        }
      }
    }
  }

  lemma {:induction false} NoChildren(under: nat)
    ensures WellFormedChildren(under, [])
  {
  }

  lemma {:induction false} AddToNone(under: nat, level: nat)
    requires under < level <= 49
    ensures Add([], level) == [Tree(level, [])] && Spine([]) == []
    ensures WellFormedChildren(under, []) && WellFormedChildren(under, [Tree(level, [])])
  {
    assert [Tree(level, [])][1..] == [];
  }

  lemma {:induction false} ContinuesBelow(under: nat, m: nat, spine: seq<nat>, level: nat)
    requires level > m
    ensures Continues(under, [m] + spine, level) <==> Continues(m, spine, level)
  {
  }

  lemma {:induction false} LevelNotBelow(under: nat, t: Tree, level: nat)
    requires under < t.level <= 49 ==> level <= t.level
    ensures under < t.level <= 49 && WellFormedChildren(t.level, t.kids) ==>
            (Continues(under, [t.level] + Spine(t.kids), level) <==> level == t.level)
  {
    if under < t.level <= 49 && WellFormedChildren(t.level, t.kids) {
      SpineDeeper(t.level, KidLevel(t), t.kids);
      var spine := [t.level] + Spine(t.kids);
      assert spine[|spine| - 1] in spine;
    }
  }

  /** Accepts, read off the spine of the tree so far. */
  predicate AcceptsAfter(spine: seq<nat>, level: nat) {
    IsTop(level)
    || (spine != [] && spine[|spine| - 1] != 77 && (level > spine[|spine| - 1] || level in spine))
  }

  ghost predicate WellFormedRecord(t: Tree) {
    if t.level == 77 then t.kids == [] else t.level == 1 && WellFormedChildren(1, t.kids)
  }

  lemma {:induction false} WellFormedStart(t: Tree, ts: seq<Tree>)
    ensures WellFormed([t] + ts) <==> WellFormedRecord(t) && WellFormed(ts)
  {
    assert ([t] + ts)[1..] == ts;
  }

  lemma {:induction false} RecordAdd(t: Tree, level: nat)
    requires IsLevel(level)
    ensures WellFormed(Add([t], level)) <==> WellFormedRecord(t) && AcceptsAfter(Spine([t]), level)
  {
    hide WellFormed, Add, Spine, WellFormedChildren;
    var leaf := Tree(level, []);
    assert [t] + [] == [t] && [leaf] + [] == [leaf];
    AddStarts(t, [], level);
    SpineStarts(t, []);
    NoRecords();
    if Rank(level) <= Rank(t.level) {
      assert [t, leaf] == [t] + [leaf];
      WellFormedStart(t, [leaf]);
      WellFormedStart(leaf, []);
      NoChildren(1);
    } else {
      var grown := Tree(t.level, Add(t.kids, level));
      assert [grown] + [] == [grown];
      WellFormedStart(grown, []);
      if t.level == 77 {
        AddNotEmpty(t.kids, level);
      } else if t.level == 1 {
        ChildrenAdd(1, t.kids, level);
        if WellFormedChildren(1, t.kids) { SpineLastBelow(t.kids); }
      }
    }
  }

  lemma {:induction false} NoRecords()
    ensures WellFormed([]) && Spine([]) == []
  {
  }

  lemma {:induction false} AddNotEmpty(ts: seq<Tree>, level: nat)
    ensures Add(ts, level) != []
  {
  }

  lemma {:induction false} SpineLastBelow(ts: seq<Tree>)
    requires WellFormedChildren(1, ts)
    ensures Spine(ts) != [] ==> Spine(ts)[|Spine(ts)| - 1] <= 49
  {
    SpineDeeper(1, FirstLevel(ts), ts);
    if Spine(ts) != [] { assert Spine(ts)[|Spine(ts)| - 1] in Spine(ts); }
  }

  lemma {:induction false} RecordsAdd(ts: seq<Tree>, level: nat)
    requires IsLevel(level)
    ensures WellFormed(Add(ts, level)) <==> WellFormed(ts) && AcceptsAfter(Spine(ts), level)
    decreases |ts|
  {
    hide WellFormed, Add, Spine, WellFormedChildren, AcceptsAfter, WellFormedRecord;
    if ts == [] {
      FirstRecord(level);
    } else {
      var t, rest := ts[0], ts[1..];
      assert ts == [t] + rest;
      AddStarts(t, rest, level);
      SpineStarts(t, rest);
      WellFormedStart(t, rest);
      if rest == [] {
        NoRecords();
        assert ts == [t];
        RecordAdd(t, level);
      } else {
        RecordsAdd(rest, level);
        WellFormedStart(t, Add(rest, level));
      }
    }
  }

  lemma {:induction false} FirstRecord(level: nat)
    requires IsLevel(level)
    ensures WellFormed(Add([], level)) <==> WellFormed([]) && AcceptsAfter(Spine([]), level)
  {
    var leaf := Tree(level, []);
    assert Add([], level) == [leaf] == [leaf] + [];
    WellFormedStart(leaf, []);
    NoChildren(1);
  }

  lemma {:induction false} PathDrops(ls: seq<nat>, d: nat, i: nat)
    requires d <= i < |ls|
    ensures OnPath(ls[d..], i - d) <==> OnPath(ls, i)
  {
    EndIs(ls[d..], i - d, End(ls, i) - d);
  }

  lemma {:induction false} PathBelow(ls: seq<nat>, i: nat)
    requires i < |ls| && i < End(ls, 0) < |ls|
    ensures !OnPath(ls, i)
  {
    assert End(ls, i) <= End(ls, 0);
  }

  /** The spine is the path to the last entry, and ends with it. */
  lemma {:induction false} SpineIsPath(ls: seq<nat>)
    ensures forall level :: level in Spine(ForestOf(ls)) <==> exists i :: 0 <= i < |ls| && OnPath(ls, i) && ls[i] == level
    ensures ls != [] ==> Spine(ForestOf(ls)) != [] && Spine(ForestOf(ls))[|Spine(ForestOf(ls))| - 1] == ls[|ls| - 1]
    decreases |ls|
  {
    hide ForestOf, Spine, End, OnPath;
    if ls == [] {
      ForestOfOne(1);
      NoRecords();
    } else {
      var e := End(ls, 0);
      ForestStarts(ls, ls[1..e], ls[e..]);
      SpineStarts(Tree(ls[0], ForestOf(ls[1..e])), ForestOf(ls[e..]));
      ForestOfOne(1);
      var d := if e < |ls| then e else 1;
      var rest := ls[d..];
      if e < |ls| { ForestNotEmpty(ls[e..]); } else { assert ls[1..e] == ls[1..]; }
      SpineIsPath(rest);
      NoRecords();
      forall i: nat | d <= i < |ls| ensures OnPath(rest, i - d) <==> OnPath(ls, i) { PathDrops(ls, d, i); }
      assert OnPath(ls, 0) <==> e == |ls| by { PathFirst(ls); }
      forall i: nat | i < e < |ls| ensures !OnPath(ls, i) { PathBelow(ls, i); }
      SpineStep(ls, d, Spine(ForestOf(rest)), Spine(ForestOf(ls)));
    }
  }

  lemma {:induction false} PathFirst(ls: seq<nat>)
    requires ls != []
    ensures OnPath(ls, 0) <==> End(ls, 0) == |ls|
  {
  }

  lemma {:induction false} SpineStep(ls: seq<nat>, d: nat, below: seq<nat>, spine: seq<nat>)
    requires 0 < d <= |ls| && spine == if OnPath(ls, 0) then [ls[0]] + below else below
    requires OnPath(ls, 0) ==> d == 1
    requires forall i :: 0 < i < d ==> !OnPath(ls, i)
    requires forall i: nat :: d <= i < |ls| ==> (OnPath(ls[d..], i - d) <==> OnPath(ls, i))
    requires forall level :: level in below <==> exists i :: 0 <= i < |ls[d..]| && OnPath(ls[d..], i) && ls[d..][i] == level
    ensures forall level :: level in spine <==> exists i :: 0 <= i < |ls| && OnPath(ls, i) && ls[i] == level
  {
    hide OnPath;
    forall level | level in spine ensures exists i :: 0 <= i < |ls| && OnPath(ls, i) && ls[i] == level {
      if level in below {
        var i :| 0 <= i < |ls[d..]| && OnPath(ls[d..], i) && ls[d..][i] == level;
        assert OnPath(ls[d..], (i + d) - d);
        assert OnPath(ls, i + d) && ls[i + d] == level;
      } else {
        assert OnPath(ls, 0) && ls[0] == level;
      }
    }
    forall i | 0 <= i < |ls| && OnPath(ls, i) ensures ls[i] in spine {
      if i >= d { assert OnPath(ls[d..], i - d) && ls[d..][i - d] == ls[i]; }
    }
  }

  lemma {:induction false} AcceptsBySpine(ls: seq<nat>, level: nat)
    ensures Accepts(ls, level) <==> AcceptsAfter(Spine(ForestOf(ls)), level)
  {
    hide ForestOf, Spine, OnPath;
    SpineIsPath(ls);
    if ls == [] {
      ForestOfOne(1);
      NoRecords();
    }
  }

  /** A sequence of level numbers is accepted, entry by entry, exactly when the tree it describes is
      well formed: 01 and 77 at the top, nothing under a 77, and in every group items of one level that
      is deeper than the group's. */
  lemma {:induction false} AcceptedIffWellFormed(ls: seq<nat>)
    requires Levels(ls)
    ensures Accepted(ls) <==> WellFormed(ForestOf(ls))
    decreases |ls|
  {
    hide Accepts, WellFormed, ForestOf;
    if ls == [] {
      ForestOfOne(1);
      NoRecords();
    } else {
      var before, level := ls[..|ls| - 1], ls[|ls| - 1];
      assert ls == before + [level];
      AcceptedIffWellFormed(before);
      ForestAdds(before, level);
      RecordsAdd(ForestOf(before), level);
      AcceptsBySpine(before, level);
      AcceptedGrows(ls);
    }
  }

  lemma {:induction false} AcceptedGrows(ls: seq<nat>)
    requires Levels(ls) && ls != []
    ensures Accepted(ls) <==> Accepted(ls[..|ls| - 1]) && Accepts(ls[..|ls| - 1], ls[|ls| - 1])
  {
    hide Accepts;
    var before := ls[..|ls| - 1];
    assert forall k :: 0 <= k < |before| ==> before[..k] == ls[..k] && before[k] == ls[k];
  }

  /** Writing out well-formed records gives an accepted sequence, which reads back as those records. */
  lemma {:induction false} RoundTrip(ts: seq<Tree>)
    requires WellFormed(ts)
    ensures Accepted(Flatten(ts)) && ForestOf(Flatten(ts)) == ts
  {
    Rebuilds(ts);
    RecordLevels(ts);
    AcceptedIffWellFormed(Flatten(ts));
  }

  lemma {:induction false} RecordLevels(ts: seq<Tree>)
    requires WellFormed(ts)
    ensures Levels(Flatten(ts))
    decreases ts
  {
    if ts != [] {
      if ts[0].level == 1 { FlattenDeeper(1, KidLevel(ts[0]), ts[0].kids); } else { assert Flatten(ts[0].kids) == []; }
      RecordLevels(ts[1..]);
      assert Flatten(ts) == [ts[0].level] + Flatten(ts[0].kids) + Flatten(ts[1..]);
    }
  }
}
