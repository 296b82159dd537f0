/** REDEFINES: the name resolved among the items of a group, and the check that nothing stands between
    a redefinition and its original. */
module Redefines {
  import opened Optional
  import opened Records
  import RecordLayout
  import opened StrCase

  /** An item as the resolution sees it. */
  datatype Entry = Entry(name: seq<Byte>, level: nat, redefines: Option<nat>)

  datatype Resolved = Refused | Endless | To(index: nat)

  /** Every link goes to an earlier item or, as a name can, to the item itself. */
  ghost predicate LinksBack(es: seq<Entry>) {
    forall i :: 0 <= i < |es| && es[i].redefines.Some? ==> es[i].redefines.value <= i
  }

  function Find(es: seq<Entry>, name: seq<Byte>, i: nat): (j: nat)
    requires i <= |es|
    ensures i <= j <= |es| && (j < |es| ==> StrCaseCmp(es[j].name, name) == 0)
    ensures forall k :: i <= k < j ==> StrCaseCmp(es[k].name, name) != 0
    decreases |es| - i
  {
    if i == |es| || StrCaseCmp(es[i].name, name) == 0 then i else Find(es, name, i + 1)
  }

  /** Following the links down to an original definition; an item linked to itself has none. */
  function Chase(es: seq<Entry>, i: nat): (r: Resolved)
    requires i < |es| && LinksBack(es)
    ensures r.To? ==> r.index <= i && es[r.index].redefines.None?
  {
    if es[i].redefines.None? then To(i)
    else if es[i].redefines.value == i then Endless
    else Chase(es, es[i].redefines.value)
  }

  /** cb_resolve_redefines for the last item, which is in the list already. */
  function Resolve(es: seq<Entry>, name: seq<Byte>, indirect: bool): Resolved
    requires es != [] && LinksBack(es)
  {
    var j := Find(es, name, 0);
    if j == |es| then Refused
    else if es[j].level != es[|es| - 1].level || es[j].level == 66 || es[j].level == 88 then Refused
    else if !indirect && es[j].redefines.Some? then Refused
    else Chase(es, j)
  }

  /** The loops of cb_resolve_redefines. `endless` stands for the loop that never comes to an original
      definition. */
  method ResolveRedefines(es: seq<Entry>, name: seq<Byte>, indirect: bool) returns (r: Resolved)
    requires es != [] && LinksBack(es)
    ensures r == Resolve(es, name, indirect)
  {
    var f: nat := 0;
    while f < |es| && StrCaseCmp(es[f].name, name) != 0
      invariant f <= |es| && Find(es, name, f) == Find(es, name, 0)
    {
      f := f + 1;
    }
    if f == |es| {
      return Refused;
    }
    if es[f].level != es[|es| - 1].level {
      return Refused;
    }
    if es[f].level == 66 || es[f].level == 88 {
      return Refused;
    }
    if !indirect && es[f].redefines.Some? {
      return Refused;
    }
    while es[f].redefines.Some?
      invariant f < |es| && Chase(es, f) == Resolve(es, name, indirect)
      decreases f
    {
      if es[f].redefines.value == f {
        return Endless;
      }
      f := es[f].redefines.value;
    }
    r := To(f);
  }

  /** Which item a name stands for: the first that has it, unless the level is another or one that
      cannot be redefined, or it is a redefinition where that is not allowed; through a link to an
      original, that original. */
  lemma {:induction false} ResolvesTo(es: seq<Entry>, name: seq<Byte>, indirect: bool, j: nat)
    requires es != [] && LinksBack(es) && j < |es| && StrCaseCmp(es[j].name, name) == 0
    requires forall k :: 0 <= k < j ==> StrCaseCmp(es[k].name, name) != 0
    ensures var level, r := es[|es| - 1].level, es[j].redefines;
            if es[j].level != level || level == 66 || level == 88 || (r.Some? && !indirect) then
              Resolve(es, name, indirect) == Refused
            else
              && (r.None? ==> Resolve(es, name, indirect) == To(j))
              && (r.Some? && es[r.value].redefines.None? ==> Resolve(es, name, indirect) == To(r.value))
  {
    FirstOfName(es, name, 0, j);
    var r := es[j].redefines;
    if r.Some? && es[r.value].redefines.None? { assert Chase(es, r.value) == To(r.value); }
  }

  lemma {:induction false} FirstOfName(es: seq<Entry>, name: seq<Byte>, i: nat, j: nat)
    requires i <= j < |es| && StrCaseCmp(es[j].name, name) == 0
    requires forall k :: i <= k < j ==> StrCaseCmp(es[k].name, name) != 0
    ensures Find(es, name, i) == j
  {
  }

  // --- A whole group -----------------------------------------------------------------------------------

  /** An item as written, with the name it redefines. */
  datatype Declaration = Declaration(name: seq<Byte>, level: nat, redefines: Option<seq<Byte>>)

  /** The group, each REDEFINES resolved as it is met; None when one is refused or has no end. */
  function Declare(ds: seq<Declaration>, indirect: bool): (es: Option<seq<Entry>>)
    ensures es.Some? ==> |es.value| == |ds| && LinksBack(es.value)
    decreases |ds|
  {
    if ds == [] then Some([])
    else
      var before := Declare(ds[..|ds| - 1], indirect);
      var d := ds[|ds| - 1];
      if before.None? then None
      else
        var es := before.value + [Entry(d.name, d.level, None)];
        if d.redefines.None? then Some(es)
        else
          match Resolve(es, d.redefines.value, indirect)
          case To(r) => Some(es[|es| - 1 := Entry(d.name, d.level, Some(r))])
          case _ => None
  }

  /** What placing the items relies on: each redefinition is linked to an earlier original. */
  ghost predicate OnOriginals(es: seq<Entry>) {
    forall i :: 0 <= i < |es| && es[i].redefines.Some? ==>
      es[i].redefines.value < i && es[es[i].redefines.value].redefines.None?
  }

  /** Each name redefined is the name of an earlier item. */
  ghost predicate NamesEarlier(ds: seq<Declaration>) {
    forall i :: 0 <= i < |ds| && ds[i].redefines.Some? ==> EarlierHas(ds, i, ds[i].redefines.value)
  }

  ghost predicate EarlierHas(ds: seq<Declaration>, i: nat, name: seq<Byte>)
    requires i <= |ds|
  {
    exists j :: 0 <= j < i && StrCaseCmp(ds[j].name, name) == 0
  }

  lemma {:induction false} DeclaredNames(ds: seq<Declaration>, indirect: bool)
    requires Declare(ds, indirect).Some?
    ensures var es := Declare(ds, indirect).value;
            forall i :: 0 <= i < |ds| ==> es[i].name == ds[i].name && (es[i].redefines.Some? <==> ds[i].redefines.Some?)
    decreases |ds|
  {
    hide Resolve;
    if ds != [] { DeclaredNames(ds[..|ds| - 1], indirect); }
  }

  /** The last item is linked to itself exactly when no earlier item has the name. */
  lemma {:induction false} LastLink(ds: seq<Declaration>, indirect: bool)
    requires ds != [] && Declare(ds, indirect).Some? && ds[|ds| - 1].redefines.Some?
    ensures var n := |ds| - 1; var es := Declare(ds, indirect).value;
            && es[n].redefines.Some?
            && (es[n].redefines.value < n <==> EarlierHas(ds, n, ds[n].redefines.value))
            && (es[n].redefines.value < n ==> es[es[n].redefines.value].redefines.None?)
  {
    var n := |ds| - 1;
    var name := ds[n].redefines.value;
    var before := Declare(ds[..n], indirect).value;
    var es := before + [Entry(ds[n].name, ds[n].level, None)];
    DeclaredNames(ds[..n], indirect);
    var j := Find(es, name, 0);
    assert Resolve(es, name, indirect) == Chase(es, j);
    if j < n {
      assert es[j].name == ds[j].name;
    } else {
      forall k | 0 <= k < n ensures StrCaseCmp(ds[k].name, name) != 0 { assert es[k].name == ds[k].name; }
    }
  }

  /** A group whose clauses are all accepted links each redefinition to an earlier original exactly when
      each name redefined belongs to an earlier item. Otherwise an item redefines its own name, and is
      linked to itself. */
  lemma {:induction false} OnOriginalsIff(ds: seq<Declaration>, indirect: bool)
    requires Declare(ds, indirect).Some?
    ensures OnOriginals(Declare(ds, indirect).value) <==> NamesEarlier(ds)
    decreases |ds|
  {
    if ds != [] {
      var n := |ds| - 1;
      var before := Declare(ds[..n], indirect).value;
      var es := Declare(ds, indirect).value;
      OnOriginalsIff(ds[..n], indirect);
      assert es[..n] == before;
      if ds[n].redefines.Some? { LastLink(ds, indirect); }
      OnOriginalsGrow(es);
      NamesGrow(ds);
    }
  }

  lemma {:induction false} OnOriginalsGrow(es: seq<Entry>)
    requires es != []
    ensures var n := |es| - 1;
            var linked := es[n].redefines.Some? ==> es[n].redefines.value < n && es[es[n].redefines.value].redefines.None?;
            OnOriginals(es) <==> OnOriginals(es[..n]) && linked
  {
    var before := es[..|es| - 1];
    assert forall k :: 0 <= k < |before| ==> before[k] == es[k];
  }

  lemma {:induction false} NamesGrow(ds: seq<Declaration>)
    requires ds != []
    ensures var n := |ds| - 1;
            NamesEarlier(ds) <==> NamesEarlier(ds[..n]) && (ds[n].redefines.Some? ==> EarlierHas(ds, n, ds[n].redefines.value))
  {
    var before := ds[..|ds| - 1];
    forall i: nat, name | i <= |before| ensures EarlierHas(before, i, name) <==> EarlierHas(ds, i, name) {
      if EarlierHas(before, i, name) {
        var j :| 0 <= j < i && StrCaseCmp(before[j].name, name) == 0;
        assert ds[j] == before[j];
      }
      if EarlierHas(ds, i, name) {
        var j :| 0 <= j < i && StrCaseCmp(ds[j].name, name) == 0;
        assert ds[j] == before[j];
      }
    }
  }

  lemma {:induction false} SameName()
    ensures StrCaseCmp([65], [65]) == 0
  {
    assert StrCaseCmp([65], [65]) == StrCaseCmp([65][1..], [65][1..]) == 0;
  }

  lemma {:induction false} SelfDeclared(indirect: bool)
    ensures Declare([Declaration([65], 5, Some([65]))], indirect) == Some([Entry([65], 5, Some(0))])
  {
    var ds := [Declaration([65], 5, Some([65]))];
    var e := Entry([65], 5, None);
    SameName();
    assert ds[..0] == [] && Declare([], indirect) == Some([]);
    assert [] + [e] == [e] && Find([e], [65], 0) == 0;
    assert Resolve([e], [65], indirect) == To(0);
    assert [e][0 := Entry([65], 5, Some(0))] == [Entry([65], 5, Some(0))];
  }

  /** An item that redefines its own name is accepted, and linked to itself. */
  lemma {:induction false} SelfRedefined()
    ensures var ds := [Declaration([65], 5, Some([65]))];
            Declare(ds, false) == Some([Entry([65], 5, Some(0))]) && !NamesEarlier(ds)
  {
    SelfDeclared(false);
    assert !EarlierHas([Declaration([65], 5, Some([65]))], 0, [65]);
  }

  // --- Links without an end ------------------------------------------------------------------------------

  /** Following links from i leads to j. */
  ghost predicate Leads(es: seq<Entry>, i: nat, j: nat)
    requires i < |es| && LinksBack(es)
  {
    i == j || (es[i].redefines.Some? && es[i].redefines.value < i && Leads(es, es[i].redefines.value, j))
  }

  ghost predicate SelfLinked(es: seq<Entry>, j: nat) { j < |es| && es[j].redefines == Some(j) }

  lemma {:induction false} ChaseEndless(es: seq<Entry>, i: nat)
    requires i < |es| && LinksBack(es)
    ensures Chase(es, i) == Endless <==> exists j :: Leads(es, i, j) && SelfLinked(es, j)
    decreases i
  {
    if es[i].redefines.Some? && es[i].redefines.value < i {
      var r := es[i].redefines.value;
      ChaseEndless(es, r);
      forall j: nat ensures Leads(es, i, j) <==> i == j || Leads(es, r, j) {
      }
    } else if SelfLinked(es, i) {
      assert Leads(es, i, i);
    }
  }

  /** The resolution never ends exactly when indirect redefinitions are allowed, the first item of the
      name has the level, and its links lead to an item that is linked to itself. */
  lemma {:induction false} EndlessIff(es: seq<Entry>, name: seq<Byte>, indirect: bool)
    requires es != [] && LinksBack(es) && es[|es| - 1].redefines.None?
    ensures var f := Find(es, name, 0);
            Resolve(es, name, indirect) == Endless <==>
              && f < |es| && es[f].level == es[|es| - 1].level && es[f].level != 66 && es[f].level != 88
              && indirect && exists j :: Leads(es, f, j) && SelfLinked(es, j)
  {
    hide StrCaseCmp;
    var f := Find(es, name, 0);
    if f < |es| { ChaseEndless(es, f); }
  }

  lemma {:induction false} DeclaredPrefix(ds: seq<Declaration>, indirect: bool, k: nat)
    requires Declare(ds, indirect).Some? && k <= |ds|
    ensures Declare(ds[..k], indirect).Some? && Declare(ds, indirect).value[..k] == Declare(ds[..k], indirect).value
    decreases |ds|
  {
    if k == |ds| {
      assert ds[..k] == ds;
    } else {
      var n := |ds| - 1;
      DeclaredPrefix(ds[..n], indirect, k);
      assert ds[..n][..k] == ds[..k];
      assert Declare(ds, indirect).value[..n] == Declare(ds[..n], indirect).value;
    }
  }

  /** In a group that was accepted an item is linked to an original, or, without an earlier item of the
      name, to itself. */
  lemma {:induction false} DeclaredLink(ds: seq<Declaration>, indirect: bool, i: nat)
    requires Declare(ds, indirect).Some? && i < |ds|
    ensures var es := Declare(ds, indirect).value;
            && (es[i].redefines.Some? <==> ds[i].redefines.Some?) && es[i].name == ds[i].name
            && (es[i].redefines.Some? ==>
                  && (SelfLinked(es, i) <==> !EarlierHas(ds, i, ds[i].redefines.value))
                  && (es[i].redefines.value < i ==> es[es[i].redefines.value].redefines.None?))
  {
    hide Declare, EarlierHas, StrCaseCmp;
    var es := Declare(ds, indirect).value;
    var upto := ds[..i + 1];
    DeclaredPrefix(ds, indirect, i + 1);
    DeclaredNames(ds, indirect);
    var part := Declare(upto, indirect).value;
    assert part == es[..i + 1] && part[i] == es[i];
    assert upto[..i] == ds[..i];
    if ds[i].redefines.Some? {
      LastLink(upto, indirect);
      SameEarlier(ds, upto, i, ds[i].redefines.value);
      if part[i].redefines.value < i { assert part[part[i].redefines.value] == es[part[i].redefines.value]; }
    }
  }

  lemma {:induction false} SameEarlier(ds: seq<Declaration>, upto: seq<Declaration>, i: nat, name: seq<Byte>)
    requires i < |ds| && upto == ds[..i + 1]
    ensures EarlierHas(upto, i, name) <==> EarlierHas(ds, i, name)
  {
    assert forall j :: 0 <= j < i ==> upto[j] == ds[j];
  }

  /** One more REDEFINES in an accepted group: its resolution never ends exactly when indirect
      redefinitions are allowed and the first item of the name has the level and redefines a name that
      no item before it has. */
  lemma {:induction false} DeclaredEndlessIff(ds: seq<Declaration>, d: Entry, name: seq<Byte>, indirect: bool)
    requires Declare(ds, indirect).Some? && d.redefines.None?
    ensures var es := Declare(ds, indirect).value + [d]; var f := Find(es, name, 0);
            LinksBack(es) && (Resolve(es, name, indirect) == Endless <==>
              && f < |ds| && es[f].level == d.level && d.level != 66 && d.level != 88
              && indirect && ds[f].redefines.Some? && !EarlierHas(ds, f, ds[f].redefines.value))
  {
    hide StrCaseCmp, Declare, EarlierHas;
    var before := Declare(ds, indirect).value;
    var es := before + [d];
    var f := Find(es, name, 0);
    if f < |ds| {
      DeclaredLink(ds, indirect, f);
      assert es[f] == before[f];
      if before[f].redefines.Some? && before[f].redefines.value < f {
        var r := before[f].redefines.value;
        assert es[r] == before[r];
        assert Chase(es, f) == Chase(es, r) == To(r);
      }
    }
  }

  /** The item that redefines itself, and another that redefines it. */
  lemma {:induction false} EndlessRedefinition()
    ensures var ds := [Declaration([65], 5, Some([65]))]; var es := [Entry([65], 5, Some(0)), Entry([66], 5, None)];
            Declare(ds, true) == Some(es[..1]) && LinksBack(es) && Resolve(es, [65], true) == Endless
  {
    var es := [Entry([65], 5, Some(0)), Entry([66], 5, None)];
    SelfDeclared(true);
    SameName();
    assert es[..1] == [Entry([65], 5, Some(0))];
    assert Find(es, [65], 0) == 0 && Chase(es, 0) == Endless;
  }

  // --- The check -----------------------------------------------------------------------------------------

  /** validate_field_1: between the original and item i there are only redefinitions. For an item that is
      linked to itself the loop runs on to the end of the group. */
  method FollowsOriginal(es: seq<Entry>, i: nat) returns (ok: bool)
    requires i < |es| && es[i].redefines.Some? && LinksBack(es)
    ensures ok <==> forall k :: es[i].redefines.value < k < (if es[i].redefines.value < i then i else |es|) ==> es[k].redefines.Some?
  {
    var p := es[i].redefines.value + 1;
    ok := true;
    while p < |es| && p != i
      invariant es[i].redefines.value < p <= |es| && (es[i].redefines.value < i ==> p <= i)
      invariant forall k :: es[i].redefines.value < k < p ==> es[k].redefines.Some?
      decreases |es| - p
    {
      if es[p].redefines.None? {
        return false;
      }
      p := p + 1;
    }
  }

  // --- What it is for --------------------------------------------------------------------------------------

  /** With the check passed, a redefinition of an item laid out with its group ends before the next item
      behind the original that is no redefinition. */
  lemma {:induction false} EndsBeforeNext(kids: seq<Item>, base: nat, cfg: Config, i: nat, j: nat)
    requires WellFormedSiblings(kids) && AcceptedSiblings(kids, Place(kids, base, cfg).kids, cfg)
    requires i < |kids| && kids[i].c.redefines.Some?
    requires forall k :: kids[i].c.redefines.value < k < i ==> kids[k].c.redefines.Some?
    requires kids[i].c.redefines.value < j < |kids| && kids[j].c.redefines.None?
    ensures var laid := Place(kids, base, cfg).kids;
            laid[i].offset == laid[kids[i].c.redefines.value].offset && RecordLayout.End(kids[i], laid[i]) <= laid[j].offset
  {
    hide Place, AcceptedSiblings, WellFormed;
    RecordLayout.PlaceInOrder(kids, base, cfg);
    RecordLayout.PlaceOnOriginals(kids, base, cfg);
  }
}
