/** cb_build_field_tree: entries linked, one by one, by their level numbers. */
module FieldTree {
  import opened Optional
  import opened FieldLevels

  class Field {
    const level: nat
    var children: Field?
    var sister: Field?
    var parent: Field?

    constructor (level: nat)
      ensures this.level == level && children == null && sister == null && parent == null
    {
      this.level := level;
      children, sister, parent := null, null, null;
    }
  }

  // --- Where the links go ----------------------------------------------------------------------------

  function Up(ls: seq<nat>, rank: nat, j: nat): (p: Option<nat>)
    requires j <= |ls|
    ensures p.Some? ==> p.value < j && Rank(ls[p.value]) < rank && forall k :: p.value < k < j ==> Rank(ls[k]) >= rank
    ensures p.None? ==> forall k :: 0 <= k < j ==> Rank(ls[k]) >= rank
    decreases j
  {
    if j == 0 then None
    else if Rank(ls[j - 1]) < rank then Some(j - 1)
    else Up(ls, rank, j - 1)
  }

  /** The group an entry is in: the nearest entry before it of a smaller level. */
  function ParentOf(ls: seq<nat>, i: nat): Option<nat>
    requires i < |ls|
  {
    Up(ls, Rank(ls[i]), i)
  }

  /** The next entry of the same level in the same group. */
  function SisterOf(ls: seq<nat>, i: nat): Option<nat>
    requires i < |ls|
  {
    if End(ls, i) < |ls| && Rank(ls[End(ls, i)]) == Rank(ls[i]) then Some(End(ls, i)) else None
  }

  /** The first entry in a group follows it. */
  function ChildOf(ls: seq<nat>, i: nat): Option<nat>
    requires i < |ls|
  {
    if i + 1 < |ls| && Rank(ls[i + 1]) > Rank(ls[i]) then Some(i + 1) else None
  }

  function LevelsOf(fs: seq<Field>): (ls: seq<nat>)
    ensures |ls| == |fs| && forall k :: 0 <= k < |fs| ==> ls[k] == fs[k].level
  {
    seq(|fs|, k requires 0 <= k < |fs| => fs[k].level)
  }

  function At(fs: seq<Field>, i: Option<nat>): Field?
    requires i.Some? ==> i.value < |fs|
  {
    if i.Some? then fs[i.value] else null
  }

  /** The links of the entry at i are those the level numbers call for. */
  ghost predicate LinkedAt(fs: seq<Field>, i: nat)
    requires i < |fs|
    reads fs
  {
    var ls := LevelsOf(fs);
    fs[i].children == At(fs, ChildOf(ls, i)) && fs[i].sister == At(fs, SisterOf(ls, i)) && fs[i].parent == At(fs, ParentOf(ls, i))
  }

  ghost predicate Linked(fs: seq<Field>)
    reads fs
  {
    forall i :: 0 <= i < |fs| ==> LinkedAt(fs, i)
  }

  ghost predicate Distinct(fs: seq<Field>) {
    forall i, j :: 0 <= i < j < |fs| ==> fs[i] != fs[j]
  }

  // --- The links and the tree --------------------------------------------------------------------------

  /** The trees that the child and sister links lead through. */
  function Through(ls: seq<nat>, i: Option<nat>): seq<Tree>
    requires i.Some? ==> i.value < |ls|
    decreases if i.Some? then |ls| - i.value else -1
  {
    if i.None? then []
    else [Tree(ls[i.value], Through(ls, ChildOf(ls, i.value)))] + Through(ls, SisterOf(ls, i.value))
  }

  /** In an accepted sequence everything in a group is at least as deep as its first item. */
  lemma {:induction false} FirstIsHighest(ls: seq<nat>, i: nat, k: nat)
    requires Accepted(ls) && i < |ls| && i + 1 <= k < End(ls, i)
    ensures Rank(ls[k]) >= Rank(ls[i + 1])
    decreases k
  {
    hide OnPath, Accepts;
    if k > i + 1 {
      forall m | i + 1 <= m < k ensures Rank(ls[m]) >= Rank(ls[i + 1]) { FirstIsHighest(ls, i, m); }
      var before := ls[..k];
      assert forall m :: 0 <= m < k ==> before[m] == ls[m];
      NextNotHigher(before, ls[k], i);
    }
  }

  lemma {:induction false} NextNotHigher(before: seq<nat>, level: nat, i: nat)
    requires Levels(before) && IsLevel(level) && Accepts(before, level) && i + 1 < |before| && Rank(level) > Rank(before[i])
    requires forall m :: i + 1 <= m < |before| ==> Rank(before[m]) >= Rank(before[i + 1])
    ensures Rank(level) >= Rank(before[i + 1])
  {
    if !IsTop(level) && level <= before[|before| - 1] {
      var m :| 0 <= m < |before| && OnPath(before, m) && before[m] == level;
      assert forall k :: m < k < |before| ==> Rank(before[k]) > Rank(before[m]);
    }
  }

  /** From entry i to the end of its group, or of all records. */
  lemma {:induction false} ThroughGroup(ls: seq<nat>, i: nat, g: nat)
    requires Accepted(ls) && i < g <= |ls| && (g < |ls| ==> Rank(ls[g]) < Rank(ls[i]))
    requires forall k :: i <= k < g ==> Rank(ls[k]) >= Rank(ls[i])
    ensures Through(ls, Some(i)) == ForestOf(ls[i..g])
    decreases |ls| - i
  {
    hide Accepted, ForestOf, End;
    var e, part := End(ls, i), ls[i..g];
    assert e <= g;
    EndInPart(ls, i, g);
    Slices(ls, i, e, g);
    ForestStarts(part, ls[i + 1..e], ls[e..g]);
    if i + 1 < e {
      forall k | i + 1 <= k < e ensures Rank(ls[k]) >= Rank(ls[i + 1]) { FirstIsHighest(ls, i, k); }
      ThroughGroup(ls, i + 1, e);
    } else {
      NoTrees(ls[i + 1..e]);
    }
    if e < g { ThroughGroup(ls, e, g); } else { NoTrees(ls[e..g]); }
  }

  lemma {:induction false} Slices(ls: seq<nat>, i: nat, e: nat, g: nat)
    requires i < e <= g <= |ls|
    ensures ls[i..g][0] == ls[i] && ls[i..g][1..e - i] == ls[i + 1..e] && ls[i..g][e - i..] == ls[e..g]
  {
    var a, b := ls[i..g][1..e - i], ls[i + 1..e];
    assert forall k :: 0 <= k < |a| ==> a[k] == ls[i + 1 + k] == b[k];
    assert a == b;
  }

  lemma {:induction false} NoTrees(ls: seq<nat>)
    requires ls == []
    ensures ForestOf(ls) == []
  {
  }

  lemma {:induction false} EndInPart(ls: seq<nat>, i: nat, g: nat)
    requires i < g <= |ls| && End(ls, i) <= g
    ensures ls[i..g] != [] && End(ls[i..g], 0) == End(ls, i) - i
  {
    var part, e, f := ls[i..g], End(ls[i..g], 0), End(ls, i) - i;
    assert forall k :: 0 <= k < |part| ==> part[k] == ls[i + k];
    assert f < |part| ==> Rank(part[f]) <= Rank(part[0]);
  }

  /** The links of an accepted sequence lead through exactly the trees it describes. */
  lemma {:induction false} LinksAreTree(ls: seq<nat>)
    requires Accepted(ls) && ls != []
    ensures Through(ls, Some(0)) == ForestOf(ls)
  {
    assert Accepts(ls[..0], ls[0]);
    forall k | 0 <= k < |ls| ensures Rank(ls[k]) >= Rank(ls[0]) { assert IsLevel(ls[k]); }
    ThroughGroup(ls, 0, |ls|);
    assert ls[0..|ls|] == ls;
  }

  /** The parent links lead back: from a first item to its group, and from a sister to the same. */
  lemma {:induction false} ParentsLeadBack(ls: seq<nat>, i: nat)
    requires i < |ls|
    ensures ChildOf(ls, i).Some? ==> ParentOf(ls, ChildOf(ls, i).value) == Some(i)
    ensures SisterOf(ls, i).Some? ==> ParentOf(ls, SisterOf(ls, i).value) == ParentOf(ls, i)
  {
    if SisterOf(ls, i).Some? { SameUp(ls, Rank(ls[i]), i, SisterOf(ls, i).value); }
  }

  lemma {:induction false} SameUp(ls: seq<nat>, rank: nat, i: nat, j: nat)
    requires i <= j <= |ls| && forall k :: i <= k < j ==> Rank(ls[k]) >= rank
    ensures Up(ls, rank, j) == Up(ls, rank, i)
    decreases j
  {
    if i < j { SameUp(ls, rank, i, j - 1); }
  }

  // --- How they change -------------------------------------------------------------------------------

  lemma {:induction false} UpGrows(ls: seq<nat>, level: nat, rank: nat, j: nat)
    requires j <= |ls|
    ensures Up(ls + [level], rank, j) == Up(ls, rank, j)
    decreases j
  {
    if j > 0 { UpGrows(ls, level, rank, j - 1); }
  }

  /** What one more entry changes for the entries before it. */
  lemma {:induction false} OthersGrow(ls: seq<nat>, level: nat, i: nat)
    requires i < |ls|
    ensures var all := ls + [level];
            && ParentOf(all, i) == ParentOf(ls, i)
            && ChildOf(all, i) == (if i == |ls| - 1 && Rank(level) > Rank(ls[i]) then Some(|ls|) else ChildOf(ls, i))
            && SisterOf(all, i) == (if OnPath(ls, i) && Rank(level) == Rank(ls[i]) then Some(|ls|) else SisterOf(ls, i))
  {
    hide Up, EndFrom;
    EndGrows(ls, level, i);
    UpGrows(ls, level, Rank(ls[i]), i);
  }

  lemma {:induction false} LastPath(ls: seq<nat>)
    requires ls != []
    ensures OnPath(ls, |ls| - 1)
  {
  }

  /** Along the path the levels grow. */
  lemma {:induction false} PathGrows(ls: seq<nat>, i: nat, j: nat)
    requires OnPath(ls, i) && i < j < |ls|
    ensures Rank(ls[i]) < Rank(ls[j])
  {
  }

  /** From an entry on the path its group is the next one up. */
  lemma {:induction false} PathUp(ls: seq<nat>, k: nat)
    requires OnPath(ls, k)
    ensures ParentOf(ls, k).Some? ==> OnPath(ls, ParentOf(ls, k).value)
    ensures forall j :: (if ParentOf(ls, k).Some? then ParentOf(ls, k).value + 1 else 0) <= j < k ==> !OnPath(ls, j)
  {
    hide EndFrom, Up;
    var p := ParentOf(ls, k);
    if p.Some? { EndIs(ls, p.value, |ls|); }
    forall j | (if p.Some? then p.value + 1 else 0) <= j < k ensures !OnPath(ls, j) {
      if OnPath(ls, j) { PathGrows(ls, j, k); }
    }
  }

  /** An entry of the level of one on the path goes beside it. */
  lemma {:induction false} GoesBeside(ls: seq<nat>, level: nat, k: nat)
    requires OnPath(ls, k) && Rank(level) == Rank(ls[k])
    ensures var all := ls + [level]; var n := |ls|;
            && ParentOf(all, n) == ParentOf(ls, k) && ChildOf(all, n) == None && SisterOf(all, n) == None
            && forall i :: 0 <= i < n ==>
                 ParentOf(all, i) == ParentOf(ls, i) && ChildOf(all, i) == ChildOf(ls, i)
                 && SisterOf(all, i) == if i == k then Some(n) else SisterOf(ls, i)
  {
    hide EndFrom, Up;
    var n := |ls|;
    if k < n - 1 { PathGrows(ls, k, n - 1); }
    forall i: nat | i < n ensures OnPath(ls, i) && Rank(level) == Rank(ls[i]) <==> i == k {
      if OnPath(ls, i) {
        if i < k { PathGrows(ls, i, k); } else if k < i { PathGrows(ls, k, i); }
      }
    }
    forall i: nat | i < n ensures
      var all := ls + [level];
      && ParentOf(all, i) == ParentOf(ls, i) && ChildOf(all, i) == ChildOf(ls, i)
      && SisterOf(all, i) == if i == k then Some(n) else SisterOf(ls, i)
    {
      OthersGrow(ls, level, i);
    }
    UpSkips(ls, level, k);
  }

  lemma {:induction false} UpSkips(ls: seq<nat>, level: nat, k: nat)
    requires OnPath(ls, k) && Rank(level) == Rank(ls[k])
    ensures ParentOf(ls + [level], |ls|) == ParentOf(ls, k)
  {
    hide EndFrom, Up;
    var all := ls + [level];
    var p, q := ParentOf(all, |ls|), ParentOf(ls, k);
    forall j | k < j < |ls| ensures Rank(all[j]) > Rank(level) { PathGrows(ls, k, j); }
    assert forall j :: 0 <= j < |ls| ==> all[j] == ls[j];
    assert p.Some? ==> p.value < k;
    assert q.Some? ==> Rank(all[q.value]) < Rank(level);
    assert p.Some? ==> Rank(ls[p.value]) < Rank(ls[k]);
  }

  /** An entry deeper than the last one goes into it. */
  lemma {:induction false} GoesInto(ls: seq<nat>, level: nat)
    requires ls != [] && Rank(level) > Rank(ls[|ls| - 1])
    ensures var all := ls + [level]; var n := |ls|;
            && ParentOf(all, n) == Some(n - 1) && ChildOf(all, n) == None && SisterOf(all, n) == None
            && forall i :: 0 <= i < n ==>
                 ParentOf(all, i) == ParentOf(ls, i) && ChildOf(all, i) == (if i == n - 1 then Some(n) else ChildOf(ls, i))
                 && SisterOf(all, i) == SisterOf(ls, i)
  {
    hide EndFrom;
    var n := |ls|;
    assert (ls + [level])[n - 1] == ls[n - 1];
    forall i: nat | i < n ensures
      var all := ls + [level];
      && ParentOf(all, i) == ParentOf(ls, i) && ChildOf(all, i) == (if i == n - 1 then Some(n) else ChildOf(ls, i))
      && SisterOf(all, i) == SisterOf(ls, i)
    {
      OthersGrow(ls, level, i);
      if OnPath(ls, i) && i < n - 1 { PathGrows(ls, i, n - 1); }
    }
  }

  // --- The builder -----------------------------------------------------------------------------------

  /** The entry last built, cb_needs_01, and for the proof all entries in the order they came. */
  class Builder {
    var currentField: Field?
    var needs01: bool
    ghost var fields: seq<Field>

    ghost predicate Valid()
      reads this, fields
    {
      && Distinct(fields) && Linked(fields) && Accepted(LevelsOf(fields))
      && currentField == if fields == [] then null else fields[|fields| - 1]
    }

    constructor ()
      ensures Valid() && fields == [] && !needs01
    {
      currentField, needs01, fields := null, false, [];
    }

    lemma {:induction false} ParentLink(k: nat)
      requires Valid() && k < |fields|
      ensures var p := ParentOf(LevelsOf(fields), k);
              (p.Some? ==> p.value < k) && fields[k].parent == At(fields, p) && (p.None? <==> Rank(fields[k].level) == 1)
    {
      assert LinkedAt(fields, k);
      UpBelow(LevelsOf(fields), k);
      TopHasNoGroup(LevelsOf(fields), k);
    }

    /** The record an entry belongs to. */
    method Founder() returns (f: Field, ghost k: nat)
      requires Valid() && fields != []
      ensures k < |fields| && f == fields[k] && OnPath(LevelsOf(fields), k) && Rank(f.level) == 1 && f.parent == null
    {
      hide OnPath, ParentOf, Linked, Accepted;
      ghost var ls := LevelsOf(fields);
      f := currentField;
      k := |fields| - 1;
      LastPath(ls);
      while f.parent != null
        invariant k < |fields| && f == fields[k] && OnPath(ls, k)
        decreases k
      {
        ParentLink(k);
        PathUp(ls, k);
        f := f.parent;
        k := ParentOf(ls, k).value;
      }
      ParentLink(k);
    }

    /** The group the last entry is in that has the level, if any. */
    method FindLevel(level: nat) returns (p: Field?, ghost k: nat)
      requires Valid() && fields != [] && level < fields[|fields| - 1].level
      ensures p != null ==> k < |fields| && p == fields[k] && OnPath(LevelsOf(fields), k) && p.level == level
      ensures p == null ==> forall i :: 0 <= i < |fields| && OnPath(LevelsOf(fields), i) ==> fields[i].level != level
    {
      hide OnPath, ParentOf, Linked, Accepted;
      ghost var ls := LevelsOf(fields);
      k := |fields| - 1;
      LastPath(ls);
      ParentLink(k);
      PathUp(ls, k);
      p := currentField.parent;
      k := if p == null then 0 else ParentOf(ls, k).value;
      while p != null
        invariant p != null ==> k < |fields| && p == fields[k] && OnPath(ls, k)
        invariant forall i :: (if p == null then 0 else k + 1) <= i < |fields| && OnPath(ls, i) ==> fields[i].level != level
        decreases if p == null then 0 else k + 1
      {
        if p.level == level {
          return;
        }
        ParentLink(k);
        PathUp(ls, k);
        p := p.parent;
        k := if p == null then 0 else ParentOf(ls, k).value;
      }
    }

    /** Linking f in after entry k, whose group it is in already. */
    method SetSister(p: Field, f: Field, ghost k: nat)
      requires Valid() && f !in fields && f.children == null && f.sister == null && f.parent == p.parent
      requires k < |fields| && p == fields[k] && OnPath(LevelsOf(fields), k) && Rank(f.level) == Rank(p.level)
      modifies p`sister
      ensures Linked(fields + [f])
    {
      hide OnPath, ChildOf, SisterOf, ParentOf, Accepted;
      ghost var ls, all := LevelsOf(fields), fields + [f];
      GoesBeside(ls, f.level, k);
      p.sister := f;
      assert LevelsOf(all) == ls + [f.level];
      forall i: nat | i < |all| ensures LinkedAt(all, i) {
        assert i < |fields| ==> old(LinkedAt(fields, i));
        assert old(LinkedAt(fields, k));
        UpBelow(ls, if i < |fields| then i else k);
        LinksInside(ls, if i < |fields| then i else k);
      }
    }

    /** Making f the first entry in the last one. */
    method SetChildren(p: Field, f: Field)
      requires Valid() && f !in fields && f.children == null && f.sister == null && f.parent == p
      requires fields != [] && p == fields[|fields| - 1] && Rank(f.level) > Rank(p.level)
      modifies p`children
      ensures Linked(fields + [f])
    {
      hide OnPath, ChildOf, SisterOf, ParentOf, Accepted;
      ghost var ls, all := LevelsOf(fields), fields + [f];
      GoesInto(ls, f.level);
      p.children := f;
      assert LevelsOf(all) == ls + [f.level];
      forall i: nat | i < |all| ensures LinkedAt(all, i) {
        if i < |fields| {
          assert old(LinkedAt(fields, i));
          UpBelow(ls, i);
          LinksInside(ls, i);
        }
      }
    }

    /** One data description entry of the level: linked in, or an error that changes nothing. */
    method AddEntry(level: nat) returns (ok: bool)
      requires Valid() && IsLevel(level)
      modifies this, fields
      ensures Valid()
      ensures ok <==> Accepts(LevelsOf(old(fields)), level) && (old(needs01) ==> IsTop(level))
      ensures ok ==> currentField != null && fields == old(fields) + [currentField] && fresh(currentField) && currentField.level == level
      ensures needs01 == (old(needs01) && !(ok && IsTop(level)))
      ensures !ok ==> fields == old(fields)
    {
      hide OnPath, ChildOf, SisterOf, ParentOf, Accepted, LinkedAt, Linked;
      ghost var ls := LevelsOf(fields);
      var last := currentField;
      if last != null && last.level == 77 && level != 1 && level != 77 {
        return false;
      }
      var f := new Field(level);
      if level == 1 || level == 77 {
        needs01 := false;
        if last != null {
          var founder, k := Founder();
          SetSister(founder, f, k);
        } else {
          assert fields + [f] == [f];
          FirstLinked(f);
        }
      } else if last == null || needs01 {
        return false;
      } else if level > last.level {
        f.parent := last;
        SetChildren(last, f);
      } else if level == last.level {
        LastPath(ls);
        f.parent := last.parent;
        SetSister(last, f, |fields| - 1);
      } else {
        LevelInRange(ls, |ls| - 1);
        var p, k := FindLevel(level);
        if p == null {
          return false;
        }
        f.parent := p.parent;
        SetSister(p, f, k);
      }
      Admit(f);
      ok := true;
    }

    method Admit(f: Field)
      requires Distinct(fields) && f !in fields && Linked(fields + [f])
      requires Accepted(LevelsOf(fields)) && IsLevel(f.level) && Accepts(LevelsOf(fields), f.level)
      modifies this`fields, this`currentField
      ensures Valid() && fields == old(fields) + [f] && currentField == f
    {
      hide Accepted, Accepts, Linked;
      AcceptedMore(LevelsOf(fields), f.level);
      assert LevelsOf(fields + [f]) == LevelsOf(fields) + [f.level];
      fields := fields + [f];
      currentField := f;
    }
  }

  lemma {:induction false} FirstLinked(f: Field)
    requires f.children == null && f.sister == null && f.parent == null
    ensures Linked([f])
  {
  }

  lemma {:induction false} LevelInRange(ls: seq<nat>, k: nat)
    requires Accepted(ls) && k < |ls|
    ensures IsLevel(ls[k])
  {
  }

  lemma {:induction false} LinksInside(ls: seq<nat>, i: nat)
    requires i < |ls|
    ensures ChildOf(ls, i).Some? ==> ChildOf(ls, i).value < |ls|
    ensures SisterOf(ls, i).Some? ==> SisterOf(ls, i).value < |ls|
  {
  }

  lemma {:induction false} AcceptedMore(ls: seq<nat>, level: nat)
    requires Accepted(ls) && IsLevel(level) && Accepts(ls, level)
    ensures Accepted(ls + [level])
  {
    hide Accepts;
    var all := ls + [level];
    forall k | 0 <= k < |all| ensures IsLevel(all[k]) && Accepts(all[..k], all[k]) {
      assert k < |ls| ==> all[..k] == ls[..k] && all[k] == ls[k];
      assert all[..|ls|] == ls;
    }
  }

  lemma {:induction false} UpBelow(ls: seq<nat>, k: nat)
    requires k < |ls|
    ensures ParentOf(ls, k).Some? ==> ParentOf(ls, k).value < k
  {
  }

  /** Only 01 and 77 are in no group. */
  lemma {:induction false} TopHasNoGroup(ls: seq<nat>, k: nat)
    requires Accepted(ls) && k < |ls|
    ensures ParentOf(ls, k).None? <==> Rank(ls[k]) == 1
  {
    hide Up;
    assert Accepts(ls[..0], ls[0]);
    assert IsLevel(ls[k]);
    forall j | 0 <= j < |ls| ensures Rank(ls[j]) >= 1 { assert IsLevel(ls[j]); }
  }
}
