/** lookup_attr and lookup_literal: linked caches that give equal keys one identifier, and the list
    reversal before the definitions are emitted. */
module Interning {
  import opened Optional
  import opened MergeRuns
  import opened CacheSort

  datatype Entry<K> = Entry(key: K, id: nat)

  /** cb_attr_id and cb_literal_id start here. */
  const FIRST_ID := 1

  // --- As a map ------------------------------------------------------------------------------------

  function EntriesOf<K>(nodes: seq<Node<Entry<K>>>): (es: seq<Entry<K>>)
    ensures |es| == |nodes| && forall i :: 0 <= i < |es| ==> es[i] == nodes[i].d
  {
    seq(|nodes|, i requires 0 <= i < |nodes| => nodes[i].d)
  }

  /** The identifier of the first entry with the key. */
  function Find<K(==)>(es: seq<Entry<K>>, key: K): (id: Option<nat>)
    ensures id.None? <==> forall i :: 0 <= i < |es| ==> es[i].key != key
    ensures id.Some? ==> exists i :: 0 <= i < |es| && es[i] == Entry(key, id.value)
  {
    if es == [] then None
    else if es[0].key == key then Some(es[0].id)
    else
      var id := Find(es[1..], key);
      assert forall i :: 0 < i < |es| ==> es[i] == es[1..][i - 1];
      id
  }

  /** No key and no identifier twice, and the identifiers in use are exactly FIRST_ID .. next. */
  ghost predicate OneToOne<K>(es: seq<Entry<K>>, next: nat) {
    && FIRST_ID <= next && |es| == next - FIRST_ID
    && (forall i :: 0 <= i < |es| ==> FIRST_ID <= es[i].id < next)
    && (forall i, j :: 0 <= i < j < |es| ==> es[i].key != es[j].key && es[i].id != es[j].id)
  }

  /** Newest first, as the lookups leave the list. */
  ghost predicate Descending<K>(es: seq<Entry<K>>, next: nat) {
    forall i :: 0 <= i < |es| ==> es[i].id == next - 1 - i
  }

  function Reversed<T>(s: seq<T>): (r: seq<T>)
    ensures |r| == |s| && forall i :: 0 <= i < |r| ==> r[i] == s[|s| - 1 - i]
  {
    seq(|s|, i requires 0 <= i < |s| => s[|s| - 1 - i])
  }

  /** The cache after one lookup. */
  function Interned<K(==)>(es: seq<Entry<K>>, next: nat, key: K): seq<Entry<K>> {
    if Find(es, key).Some? then es else [Entry(key, next)] + es
  }

  function IdOf<K(==)>(es: seq<Entry<K>>, next: nat, key: K): nat {
    if Find(es, key).Some? then Find(es, key).value else next
  }

  function NextAfter<K(==)>(es: seq<Entry<K>>, next: nat, key: K): nat {
    if Find(es, key).Some? then next else next + 1
  }

  // --- The list ------------------------------------------------------------------------------------

  class Cache<K(==)> {
    var head: Node?<Entry<K>>
    var nextId: nat
    ghost var nodes: seq<Node<Entry<K>>>

    ghost predicate Valid()
      reads this, Members(nodes)`next
    {
      IsList(head, nodes) && Distinct(nodes)
    }

    ghost function Entries(): seq<Entry<K>>
      reads this
    {
      EntriesOf(nodes)
    }

    constructor ()
      ensures Valid() && Entries() == [] && nextId == FIRST_ID
    {
      head := null;
      nextId := FIRST_ID;
      nodes := [];
    }

    /** The search: the identifier of the first entry with the key, if there is one. */
    method Search(key: K) returns (found: Option<nat>)
      requires Valid()
      ensures found == Find(Entries(), key)
    {
      var l := head;
      ghost var i := 0;
      assert Entries()[0..] == Entries();
      while l != null
        invariant 0 <= i <= |nodes| && l == (if i < |nodes| then nodes[i] else null)
        invariant Find(Entries(), key) == Find(Entries()[i..], key)
        decreases |nodes| - i
      {
        assert nodes[i] in Members(nodes) && Entries()[i..][1..] == Entries()[i + 1..];
        if l.d.key == key {
          return Some(l.d.id);
        }
        l := l.next;
        i := i + 1;
      }
      return None;
    }

    /** A new entry in front of the list. */
    method Insert(key: K)
      requires Valid()
      modifies this
      ensures Valid() && nextId == old(nextId) + 1
      ensures Entries() == [Entry(key, old(nextId))] + old(Entries())
      ensures nodes != [] && fresh(nodes[0]) && nodes[1..] == old(nodes)
    {
      hide IsList, Linked, EntriesOf;
      assert allocated(Members(nodes));
      var n := new Node(Entry(key, nextId));
      n.next := head;
      assert IsList(head, nodes);
      head := n;
      PrependList(n, nodes);
      EntriesHead(n, nodes);
      nodes := [n] + nodes;
      nextId := nextId + 1;
    }

    /** Searches the list from its head; a key that is not there is put in front of it. */
    method Lookup(key: K) returns (id: nat)
      requires Valid()
      modifies this
      ensures Valid()
      ensures id == IdOf(old(Entries()), old(nextId), key)
      ensures Entries() == Interned(old(Entries()), old(nextId), key)
      ensures nextId == NextAfter(old(Entries()), old(nextId), key)
    {
      var found := Search(key);
      if found.Some? {
        return found.value;
      }
      id := nextId;
      Insert(key);
    }

    /** attr_list_reverse, literal_list_reverse: every link is turned round. */
    method Reverse()
      requires Valid()
      modifies this, Members(nodes)`next
      ensures Valid() && nodes == Reversed(old(nodes)) && nextId == old(nextId)
    {
      hide Reversed, Linked, IsList, EntriesOf, Distinct;
      ghost var all := nodes;
      ReversedDistinct(all);
      head := ReverseList(head, all);
      nodes := Reversed(all);
    }
  }

  method ReverseList<K>(p0: Node?<Entry<K>>, ghost all: seq<Node<Entry<K>>>) returns (last: Node?<Entry<K>>)
    requires IsList(p0, all) && Distinct(all)
    modifies Members(all)`next
    ensures IsList(last, Reversed(all))
  {
    hide Reversed, Linked, IsList, Distinct;
    var p := p0;
    last := null;
    ghost var i := 0;
    assert all[0..] == all && all[..0] == [];
    EmptyList<K>();
    while p != null
      invariant 0 <= i <= |all| && IsList(p, all[i..]) && IsList(last, Reversed(all[..i]))
      decreases |all| - i
    {
      NonEmpty(p, all[i..]);
      last, p := TurnRound(p, last, all, i);
      i := i + 1;
    }
    NonEmpty(p, all[i..]);
    assert all[..i] == all;
  }

  lemma {:induction false} EmptyList<K>()
    ensures IsList<Entry<K>>(null, Reversed([]))
  {
  }

  lemma {:induction false} NonEmpty<K>(p: Node?<Entry<K>>, s: seq<Node<Entry<K>>>)
    requires IsList(p, s)
    ensures p == null <==> s == []
    ensures s != [] ==> p == s[0]
  {
  }

  /** One turn of the reversal: the link of node i is turned round. */
  method TurnRound<K>(p: Node<Entry<K>>, last: Node?<Entry<K>>, ghost all: seq<Node<Entry<K>>>, ghost i: nat)
    returns (newLast: Node<Entry<K>>, next: Node?<Entry<K>>)
    requires i < |all| && Distinct(all) && p == all[i]
    requires IsList(p, all[i..]) && IsList(last, Reversed(all[..i]))
    modifies p`next
    ensures IsList(next, all[i + 1..]) && IsList(newLast, Reversed(all[..i + 1]))
  {
    hide Distinct, Reversed;
    ghost var left, done := all[i..], Reversed(all[..i]);
    SplitDistinct(all, i);
    next := p.next;
    assert left[1..] == all[i + 1..];
    RestList(p, left);
    p.next := last;
    Prepend(p, done);
    ReversedNext(all, i);
    newLast := p;
  }

  lemma {:induction false} ReversedNext<T>(all: seq<T>, i: nat)
    requires i < |all|
    ensures Reversed(all[..i + 1]) == [all[i]] + Reversed(all[..i])
  {
    assert all[..i + 1][..i] == all[..i];
  }

  lemma {:induction false} Prepend<K>(n: Node<Entry<K>>, s: seq<Node<Entry<K>>>)
    requires (s == [] ==> n.next == null) && (s != [] ==> n.next == s[0])
    requires Linked(s) && (s != [] ==> s[|s| - 1] in Members(s) && s[|s| - 1].next == null)
    ensures IsList(n, [n] + s)
  {
    var t := [n] + s;
    forall i | 0 <= i < |t| - 1 ensures t[i] in Members(t) && t[i].next == t[i + 1] {
      if i > 0 { assert s[i - 1] in Members(s); }
    }
  }

  lemma {:induction false} PrependList<K>(n: Node<Entry<K>>, s: seq<Node<Entry<K>>>)
    requires IsList(n.next, s)
    ensures IsList(n, [n] + s)
  {
    Prepend(n, s);
  }

  lemma {:induction false} EntriesHead<K>(n: Node<Entry<K>>, s: seq<Node<Entry<K>>>)
    ensures EntriesOf([n] + s) == [n.d] + EntriesOf(s)
  {
  }

  lemma {:induction false} RestList<K>(p: Node<Entry<K>>, s: seq<Node<Entry<K>>>)
    requires IsList(p, s)
    ensures IsList(p.next, s[1..])
  {
    var t := s[1..];
    assert s[0] in Members(s);
    forall i | 0 <= i < |t| - 1 ensures t[i] in Members(t) && t[i].next == t[i + 1] {
      assert s[i + 1] in Members(s);
    }
  }

  lemma {:induction false} SplitDistinct<K>(all: seq<Node<Entry<K>>>, i: nat)
    requires i < |all| && Distinct(all)
    ensures all[i] !in all[i + 1..] && all[i] !in Reversed(all[..i])
  {
  }

  lemma {:induction false} ReversedDistinct<K>(all: seq<Node<Entry<K>>>)
    requires Distinct(all)
    ensures Distinct(Reversed(all)) && Members(Reversed(all)) == Members(all)
  {
    forall n | n in all ensures n in Reversed(all) {
      var i :| 0 <= i < |all| && all[i] == n;
      assert Reversed(all)[|all| - 1 - i] == n;
    }
  }

  // --- Over any sequence of lookups ----------------------------------------------------------------

  /** One lookup keeps the cache one-to-one and newest first, answers with the entry's identifier, and
      changes no identifier handed out before. */
  lemma {:induction false} InternedKeeps<K>(es: seq<Entry<K>>, next: nat, key: K)
    requires OneToOne(es, next) && Descending(es, next)
    ensures var es2, next2 := Interned(es, next, key), NextAfter(es, next, key);
            && OneToOne(es2, next2) && Descending(es2, next2)
            && Find(es2, key) == Some(IdOf(es, next, key))
            && (forall k :: Find(es, k).Some? ==> Find(es2, k) == Find(es, k))
  {
    var es2 := Interned(es, next, key);
    if Find(es, key).None? {
      assert es2[1..] == es;
      forall i, j | 0 <= i < j < |es2| ensures es2[i].key != es2[j].key && es2[i].id != es2[j].id {
        assert es2[j] == es[j - 1];
        if i > 0 { assert es2[i] == es[i - 1]; }
      }
    }
  }

  datatype State<K> = State(es: seq<Entry<K>>, next: nat)

  function After<K(==)>(st: State<K>, key: K): State<K> {
    State(Interned(st.es, st.next, key), NextAfter(st.es, st.next, key))
  }

  function AfterAll<K(==)>(st: State<K>, keys: seq<K>): State<K> {
    if keys == [] then st else After(AfterAll(st, keys[..|keys| - 1]), keys[|keys| - 1])
  }

  /** The answers to a sequence of lookups. */
  function Answers<K(==)>(st: State<K>, keys: seq<K>): (ids: seq<nat>)
    ensures |ids| == |keys|
  {
    if keys == [] then []
    else
      var init := keys[..|keys| - 1];
      var before := AfterAll(st, init);
      Answers(st, init) + [IdOf(before.es, before.next, keys[|keys| - 1])]
  }

  lemma {:induction false} AnswersAreFound<K>(keys: seq<K>)
    ensures var st := AfterAll(State([], FIRST_ID), keys);
            var ids := Answers(State([], FIRST_ID), keys);
            && OneToOne(st.es, st.next) && Descending(st.es, st.next)
            && forall i :: 0 <= i < |keys| ==> Find(st.es, keys[i]) == Some(ids[i])
    decreases |keys|
  {
    hide OneToOne, Descending, Find, Interned, IdOf, NextAfter;
    var start: State<K> := State([], FIRST_ID);
    if keys == [] {
      EmptyCache<K>();
    } else {
      var n := |keys| - 1;
      var init, key := keys[..n], keys[n];
      AnswersAreFound(init);
      var before := AfterAll(start, init);
      InternedKeeps(before.es, before.next, key);
      var st := AfterAll(start, keys);
      assert st == After(before, key);
      forall i | 0 <= i < |keys| ensures Find(st.es, keys[i]) == Some(Answers(start, keys)[i]) {
        if i < n { assert keys[i] == init[i]; }
      }
    }
  }

  lemma {:induction false} EmptyCache<K>()
    ensures OneToOne<K>([], FIRST_ID) && Descending<K>([], FIRST_ID)
  {
  }

  /** The cache agrees with a map: over any sequence of lookups, two lookups get the same identifier
      exactly when their keys are equal. */
  lemma {:induction false} SameIdIffSameKey<K>(keys: seq<K>, i: nat, j: nat)
    requires i < |keys| && j < |keys|
    ensures var ids := Answers(State([], FIRST_ID), keys); ids[i] == ids[j] <==> keys[i] == keys[j]
  {
    hide Answers, AfterAll, OneToOne, Find;
    AnswersAreFound(keys);
    var st := AfterAll(State([], FIRST_ID), keys);
    var ids := Answers(State([], FIRST_ID), keys);
    FoundOneToOne(st.es, st.next, keys[i], ids[i], keys[j], ids[j]);
  }

  lemma {:induction false} FoundOneToOne<K>(es: seq<Entry<K>>, next: nat, k1: K, id1: nat, k2: K, id2: nat)
    requires OneToOne(es, next) && Find(es, k1) == Some(id1) && Find(es, k2) == Some(id2)
    ensures id1 == id2 <==> k1 == k2
  {
    var a :| 0 <= a < |es| && es[a] == Entry(k1, id1);
    var b :| 0 <= b < |es| && es[b] == Entry(k2, id2);
    assert a < b ==> es[a].key != es[b].key && es[a].id != es[b].id;
    assert b < a ==> es[b].key != es[a].key && es[b].id != es[a].id;
  }

  lemma {:induction false} FoundInReversed<K>(es: seq<Entry<K>>, key: K, id: nat)
    requires Find(es, key) == Some(id)
    ensures Entry(key, id) in Reversed(es)
  {
    var a :| 0 <= a < |es| && es[a] == Entry(key, id);
    assert Reversed(es)[|es| - 1 - a] == es[a];
  }

  /** After the reversal, walking the list emits the definitions in ascending order of identifier,
      exactly one for each identifier ever handed out, and each under the key it stands for. */
  lemma {:induction false} DefinitionsComplete<K>(keys: seq<K>)
    ensures var st := AfterAll(State([], FIRST_ID), keys);
            var defs := Reversed(st.es);
            && (forall i :: 0 <= i < |defs| ==> defs[i].id == FIRST_ID + i)
            && |defs| == st.next - FIRST_ID
            && forall i :: 0 <= i < |keys| ==> Entry(keys[i], Answers(State([], FIRST_ID), keys)[i]) in defs
  {
    hide Answers, AfterAll, Find;
    AnswersAreFound(keys);
    var st := AfterAll(State([], FIRST_ID), keys);
    var ids := Answers(State([], FIRST_ID), keys);
    var defs := Reversed(st.es);
    forall i | 0 <= i < |keys| ensures Entry(keys[i], ids[i]) in defs {
      FoundInReversed(st.es, keys[i], ids[i]);
    }
  }

  // --- The two caches together ---------------------------------------------------------------------

  datatype AttrType = NumericDisplay | Alnum | AlnumAll | OtherType(code: nat)

  /** The fields lookup_attr compares. A picture is compared by its bytes. */
  datatype Attr = Attr(kind: AttrType, digits: int, scale: int, haveSign: bool, signSeparate: bool, otherFlags: nat,
                       pic: Option<seq<nat>>)

  /** The fields lookup_literal compares. */
  datatype Literal = Literal(numeric: bool, data: seq<nat>, all: bool, sign: int, scale: int)

  /** output_attr for a literal. */
  function AttrOf(x: Literal): Attr {
    if x.numeric then Attr(NumericDisplay, |x.data|, x.scale, x.sign != 0, x.sign != 0, 0, None)
    else Attr(if x.all then AlnumAll else Alnum, 0, 0, false, false, 0, None)
  }

  /** The bytes of a literal as emitted: a sign stands behind the digits. */
  function LiteralBytes(x: Literal): seq<nat> {
    if !x.numeric then x.data
    else x.data + if x.sign < 0 then ['-' as nat] else if x.sign > 0 then ['+' as nat] else []
  }

  datatype Value = Number(negative: bool, digits: seq<nat>, scale: int) | Text(bytes: seq<nat>, repeated: bool)

  function ValueOf(x: Literal): Value {
    if x.numeric then Number(x.sign < 0, x.data, x.scale) else Text(x.data, x.all)
  }

  /** What the run time makes of bytes with an attribute; None for a sign that is not there. */
  function ReadAs(a: Attr, bytes: seq<nat>): Option<Value> {
    match a.kind
    case NumericDisplay =>
      if a.haveSign && a.signSeparate then
        if bytes == [] || |bytes| - 1 != a.digits then None
        else Some(Number(bytes[|bytes| - 1] == '-' as nat, bytes[..|bytes| - 1], a.scale))
      else if |bytes| != a.digits then None else Some(Number(false, bytes, a.scale))
    case Alnum => Some(Text(bytes, false))
    case AlnumAll => Some(Text(bytes, true))
    case OtherType(_) => None
  }

  /** The attribute of a literal, with its bytes, gives back its value. */
  lemma {:induction false} AttrReadsBack(x: Literal)
    ensures ReadAs(AttrOf(x), LiteralBytes(x)) == Some(ValueOf(x))
  {
    if x.numeric {
      assert x.data + [] == x.data;
      assert x.sign != 0 ==> LiteralBytes(x)[..|x.data|] == x.data;
    }
  }

  /** A field that needs a definition of its own, and what output_attr looks up for it. */
  datatype FieldUse = FieldUse(id: nat, attr: Attr)

  datatype Caches = Caches(attrs: State<Attr>, literals: State<Literal>, fields: seq<FieldUse>)

  /** The attributes of all cached literals and fields are cached too. */
  ghost predicate Covered(c: Caches) {
    && OneToOne(c.attrs.es, c.attrs.next) && Descending(c.attrs.es, c.attrs.next)
    && OneToOne(c.literals.es, c.literals.next) && Descending(c.literals.es, c.literals.next)
    && (forall i :: 0 <= i < |c.literals.es| ==> Find(c.attrs.es, AttrOf(c.literals.es[i].key)).Some?)
    && forall i :: 0 <= i < |c.fields| ==> Find(c.attrs.es, c.fields[i].attr).Some?
  }

  /** lookup_literal: a new literal has its field, hence its attribute, looked up first, with output
      switched off. */
  function AfterLiteral(c: Caches, x: Literal): Caches {
    if Find(c.literals.es, x).Some? then c
    else c.(attrs := After(c.attrs, AttrOf(x)), literals := After(c.literals, x))
  }

  /** output_param for a field at a fixed place: its first use caches it, and looks its attribute up with
      output switched off. */
  function AfterField(c: Caches, f: FieldUse): Caches {
    if exists i :: 0 <= i < |c.fields| && c.fields[i].id == f.id then c
    else c.(attrs := After(c.attrs, f.attr), fields := [f] + c.fields)
  }

  function AfterAttr(c: Caches, a: Attr): Caches {
    c.(attrs := After(c.attrs, a))
  }

  method LookupLiteral(attrs: Cache<Attr>, literals: Cache<Literal>, x: Literal) returns (id: nat)
    requires attrs.Valid() && literals.Valid()
    modifies attrs, literals
    ensures attrs.Valid() && literals.Valid()
    ensures id == IdOf(old(literals.Entries()), old(literals.nextId), x)
    ensures forall fields ::
              Caches(State(attrs.Entries(), attrs.nextId), State(literals.Entries(), literals.nextId), fields)
              == AfterLiteral(Caches(State(old(attrs.Entries()), old(attrs.nextId)),
                                     State(old(literals.Entries()), old(literals.nextId)), fields), x)
  {
    hide Find, EntriesOf, AttrOf;
    var found := literals.Search(x);
    if found.Some? {
      return found.value;
    }
    var attr := attrs.Lookup(AttrOf(x));
    id := literals.nextId;
    literals.Insert(x);
  }

  lemma {:induction false} CoveredByLiteral(c: Caches, x: Literal)
    requires Covered(c)
    ensures Covered(AfterLiteral(c, x))
  {
    hide OneToOne, Descending, Find, AttrOf;
    InternedKeeps(c.attrs.es, c.attrs.next, AttrOf(x));
    InternedKeeps(c.literals.es, c.literals.next, x);
    var d := AfterLiteral(c, x);
    forall i | 0 <= i < |d.literals.es| ensures Find(d.attrs.es, AttrOf(d.literals.es[i].key)).Some? {
      if Find(c.literals.es, x).None? && i > 0 {
        assert d.literals.es[i] == c.literals.es[i - 1];
      }
    }
  }

  lemma {:induction false} CoveredByAttr(c: Caches, a: Attr)
    requires Covered(c)
    ensures Covered(AfterAttr(c, a))
  {
    hide OneToOne, Descending, Find, AttrOf;
    InternedKeeps(c.attrs.es, c.attrs.next, a);
  }

  lemma {:induction false} CoveredByField(c: Caches, f: FieldUse)
    requires Covered(c)
    ensures Covered(AfterField(c, f))
  {
    hide OneToOne, Descending, Find, AttrOf;
    InternedKeeps(c.attrs.es, c.attrs.next, f.attr);
  }

  datatype Use = UseAttr(a: Attr) | UseLiteral(x: Literal) | UseField(f: FieldUse)

  function AfterUses(uses: seq<Use>): Caches {
    if uses == [] then Caches(State([], FIRST_ID), State([], FIRST_ID), [])
    else
      var before := AfterUses(uses[..|uses| - 1]);
      match uses[|uses| - 1]
      case UseAttr(a) => AfterAttr(before, a)
      case UseLiteral(x) => AfterLiteral(before, x)
      case UseField(f) => AfterField(before, f)
  }

  lemma {:induction false} AlwaysCovered(uses: seq<Use>)
    ensures Covered(AfterUses(uses))
    decreases |uses|
  {
    if uses == [] {
      EmptyCache<Attr>();
      EmptyCache<Literal>();
    } else {
      var before := AfterUses(uses[..|uses| - 1]);
      AlwaysCovered(uses[..|uses| - 1]);
      match uses[|uses| - 1]
      case UseAttr(a) => CoveredByAttr(before, a);
      case UseLiteral(x) => CoveredByLiteral(before, x);
      case UseField(f) => CoveredByField(before, f);
    }
  }

  /** An attribute that the definition of a cached field or literal looks up. */
  ghost predicate OfDefinition(c: Caches, a: Attr) {
    || (exists i :: 0 <= i < |c.fields| && a == c.fields[i].attr)
    || (exists i :: 0 <= i < |c.literals.es| && a == AttrOf(c.literals.es[i].key))
  }

  /** The attribute definitions are written out before those of fields and constants, which look their
      attributes up again. However the program used attributes, literals and fields before, and in
      whatever order the definitions are written, these lookups find attributes already defined: no
      definition can be missing. */
  lemma {:induction false} DefinitionsNeedNoNewAttr(uses: seq<Use>, attrs: seq<Attr>)
    requires forall k :: 0 <= k < |attrs| ==> OfDefinition(AfterUses(uses), attrs[k])
    ensures AfterAll(AfterUses(uses).attrs, attrs) == AfterUses(uses).attrs
    decreases |attrs|
  {
    hide AfterUses, OneToOne, Descending, Find;
    AlwaysCovered(uses);
    if attrs != [] {
      var n := |attrs| - 1;
      DefinitionsNeedNoNewAttr(uses, attrs[..n]);
      assert OfDefinition(AfterUses(uses), attrs[n]);
    }
  }
}
