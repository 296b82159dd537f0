/** list_cache_sort: the in-place merge sort of a singly linked cache list, and the comparators the
    base and field caches are sorted with. */
module CacheSort {
  import opened MergeRuns
  import opened StrCase

  ghost function Members<D>(s: seq<Node<D>>): set<Node<D>> {
    set n | n in s
  }

  /** Neighbours in s are linked; nothing is said about the last link. */
  ghost predicate Linked<D>(s: seq<Node<D>>)
    reads Members(s)`next
  {
    forall i :: 0 <= i < |s| - 1 ==> s[i] in Members(s) && s[i].next == s[i + 1]
  }

  /** The list from head on is exactly s. */
  ghost predicate IsList<D>(head: Node?<D>, s: seq<Node<D>>)
    reads Members(s)`next
  {
    && Linked(s)
    && head == (if s == [] then null else s[0])
    && (s != [] ==> s[|s| - 1] in Members(s) && s[|s| - 1].next == null)
  }

  ghost predicate Distinct<D>(s: seq<Node<D>>) {
    forall i, j :: 0 <= i < j < |s| ==> s[i] != s[j]
  }

  /** What a pass has produced so far: out, from list to tail; the last link is still open. */
  ghost predicate IsOutput<D>(list: Node?<D>, tail: Node?<D>, out: seq<Node<D>>)
    reads Members(out)`next
  {
    && Linked(out)
    && list == (if out == [] then null else out[0])
    && tail == (if out == [] then null else out[|out| - 1])
  }

  /** Links the next output node e behind tail. */
  method Append<D>(list0: Node?<D>, tail0: Node?<D>, e: Node<D>, ghost out: seq<Node<D>>) returns (list: Node?<D>, tail: Node<D>)
    requires IsOutput(list0, tail0, out) && e !in out && Distinct(out)
    modifies (if tail0 == null then {} else {tail0})`next
    ensures IsOutput(list, tail, out + [e])
  {
    list := list0;
    if tail0 != null {
      tail0.next := e;
    } else {
      list := e;
    }
    tail := e;
    forall i | 0 <= i < |out + [e]| - 1 ensures (out + [e])[i] in Members(out + [e]) && (out + [e])[i].next == (out + [e])[i + 1] {
      if i < |out| - 1 { assert out[i] in Members(out) && out[i] != out[|out| - 1]; }
    }
  }

  /** The state of a merge: the output so far, what is left of the first run, and the rest of the
      list from the second run on. */
  ghost predicate Merging<D>(list: Node?<D>, tail: Node?<D>, out: seq<Node<D>>, p: Node?<D>, run: seq<Node<D>>,
                             q: Node?<D>, rest: seq<Node<D>>)
    reads Members(out)`next, Members(run)`next, Members(rest)`next
  {
    && IsOutput(list, tail, out)
    && Linked(run) && (run != [] ==> p == run[0])
    && IsList(q, rest)
    && Distinct(out + run + rest)
  }

  lemma {:induction false} Apart<D>(out: seq<Node<D>>, run: seq<Node<D>>, rest: seq<Node<D>>)
    requires Distinct(out + run + rest)
    ensures Distinct(out) && Members(out) !! Members(run) && Members(out) !! Members(rest) && Members(run) !! Members(rest)
  {
    var all := out + run + rest;
    forall i, j | 0 <= i < j < |out| ensures out[i] != out[j] {
      assert all[i] == out[i] && all[j] == out[j];
    }
    forall i, j | 0 <= i < |out| && 0 <= j < |run| ensures out[i] != run[j] {
      assert all[i] == out[i] && all[|out| + j] == run[j];
    }
    forall i, j | 0 <= i < |out| && 0 <= j < |rest| ensures out[i] != rest[j] {
      assert all[i] == out[i] && all[|out| + |run| + j] == rest[j];
    }
    forall i, j | 0 <= i < |run| && 0 <= j < |rest| ensures run[i] != rest[j] {
      assert all[|out| + i] == run[i] && all[|out| + |run| + j] == rest[j];
    }
  }

  lemma {:induction false} MoveFirst<D>(out: seq<Node<D>>, run: seq<Node<D>>, rest: seq<Node<D>>)
    requires Distinct(out + run + rest) && run != []
    ensures Distinct((out + [run[0]]) + run[1..] + rest)
    ensures Members((out + [run[0]]) + run[1..] + rest) == Members(out + run + rest)
  {
    assert (out + [run[0]]) + run[1..] + rest == out + run + rest;
  }

  lemma {:induction false} MoveSecond<D>(out: seq<Node<D>>, run: seq<Node<D>>, rest: seq<Node<D>>)
    requires Distinct(out + run + rest) && rest != []
    ensures Distinct((out + [rest[0]]) + run + rest[1..])
    ensures Members((out + [rest[0]]) + run + rest[1..]) == Members(out + run + rest)
  {
    var was, now := out + run + rest, (out + [rest[0]]) + run + rest[1..];
    var n, k := |out|, |out| + |run|;
    forall i | 0 <= i < |now| ensures now[i] == was[if i < n then i else if i == n then k else if i <= k then i - 1 else i] {
    }
    forall i | 0 <= i < |was| ensures was[i] == now[if i < n then i else if i == k then n else if i < k then i + 1 else i] {
    }
  }

  method TakeFirst<D>(list0: Node?<D>, tail0: Node?<D>, p: Node<D>, q: Node?<D>,
                      ghost out: seq<Node<D>>, ghost run: seq<Node<D>>, ghost rest: seq<Node<D>>)
    returns (list: Node?<D>, tail: Node<D>, next: Node?<D>)
    requires Merging(list0, tail0, out, p, run, q, rest) && run != []
    modifies (if tail0 == null then {} else {tail0})`next
    ensures Merging(list, tail, out + [run[0]], next, run[1..], q, rest)
  {
    Apart(out, run, rest);
    MoveFirst(out, run, rest);
    next := p.next;
    assert forall n :: n in run[1..] ==> n in run;
    assert tail0 != null ==> tail0 in Members(out);
    list, tail := Append(list0, tail0, p, out);
  }

  method TakeSecond<D>(list0: Node?<D>, tail0: Node?<D>, p: Node?<D>, q: Node<D>,
                       ghost out: seq<Node<D>>, ghost run: seq<Node<D>>, ghost rest: seq<Node<D>>)
    returns (list: Node?<D>, tail: Node<D>, next: Node?<D>)
    requires Merging(list0, tail0, out, p, run, q, rest) && rest != []
    modifies (if tail0 == null then {} else {tail0})`next
    ensures Merging(list, tail, out + [rest[0]], p, run, next, rest[1..])
  {
    Apart(out, run, rest);
    MoveSecond(out, run, rest);
    next := q.next;
    assert forall n :: n in rest[1..] ==> n in rest;
    assert tail0 != null ==> tail0 in Members(out);
    list, tail := Append(list0, tail0, q, out);
  }

  lemma {:induction false} FirstGoes<D>(cmp: Comparator<D>, run: seq<Node<D>>, rest: seq<Node<D>>, qsize: nat)
    requires run != [] && (qsize == 0 || rest == [] || cmp(run[0].d, rest[0].d) <= 0)
    ensures Merge(cmp, run, Take(rest, qsize)) == [run[0]] + Merge(cmp, run[1..], Take(rest, qsize))
  {
    if Take(rest, qsize) == [] { assert run == [run[0]] + run[1..]; }
  }

  lemma {:induction false} SecondGoes<D>(cmp: Comparator<D>, run: seq<Node<D>>, rest: seq<Node<D>>, qsize: nat)
    requires rest != [] && qsize > 0 && (run == [] || cmp(run[0].d, rest[0].d) > 0)
    ensures Merge(cmp, run, Take(rest, qsize)) == [rest[0]] + Merge(cmp, run, Take(rest[1..], qsize - 1))
    ensures Drop(rest[1..], qsize - 1) == Drop(rest, qsize)
  {
    assert Take(rest, qsize) == [rest[0]] + Take(rest[1..], qsize - 1);
    assert Take(rest, qsize)[1..] == Take(rest[1..], qsize - 1);
  }

  /** The inner loop of a pass: the run at p, of psize nodes, merged with the run of at most qsize
      nodes at q, behind the output so far. */
  method MergeTwo<D>(cmp: Comparator<D>, list0: Node?<D>, tail0: Node?<D>, p0: Node?<D>, psize0: nat, q0: Node?<D>, qsize0: nat,
                     ghost out0: seq<Node<D>>, ghost run0: seq<Node<D>>, ghost rest0: seq<Node<D>>)
    returns (list: Node?<D>, tail: Node?<D>, q: Node?<D>)
    requires Merging(list0, tail0, out0, p0, run0, q0, rest0) && |run0| == psize0
    modifies Members(out0 + run0 + rest0)`next
    ensures Merging(list, tail, out0 + Merge(cmp, run0, Take(rest0, qsize0)), q, [], q, Drop(rest0, qsize0))
    ensures Members(out0 + Merge(cmp, run0, Take(rest0, qsize0)) + Drop(rest0, qsize0)) == Members(out0 + run0 + rest0)
  {
    hide Linked, IsList, IsOutput, Merge, Distinct, Take, Drop;
    list, tail, q := list0, tail0, q0;
    var p, psize, qsize := p0, psize0, qsize0;
    ghost var out, run, rest := out0, run0, rest0;
    ghost var all := Members(out0 + run0 + rest0);
    while psize > 0 || (qsize > 0 && q != null)
      invariant Merging(list, tail, out, p, run, q, rest) && |run| == psize
      invariant Members(out + run + rest) == all
      invariant out + Merge(cmp, run, Take(rest, qsize)) == out0 + Merge(cmp, run0, Take(rest0, qsize0))
      invariant Drop(rest, qsize) == Drop(rest0, qsize0)
      decreases |run| + |rest|
    {
      QEmpty(q, rest);
      TailOf(list, tail, out);
      var fromSecond;
      if psize == 0 {
        fromSecond := true;
      } else if qsize == 0 || q == null {
        fromSecond := false;
      } else {
        fromSecond := !(cmp(p.d, q.d) <= 0);
      }
      if fromSecond {
        SecondGoes(cmp, run, rest, qsize);
        MoveSecond(out, run, rest);
        list, tail, q := TakeSecond(list, tail, p, q, out, run, rest);
        qsize := qsize - 1;
        out, rest := out + [rest[0]], rest[1..];
      } else {
        FirstGoes(cmp, run, rest, qsize);
        MoveFirst(out, run, rest);
        list, tail, p := TakeFirst(list, tail, p, q, out, run, rest);
        psize := psize - 1;
        out, run := out + [run[0]], run[1..];
      }
    }
    QEmpty(q, rest);
    NothingLeft(cmp, rest, qsize);
    assert out + [] == out && out + run + rest == out + rest;
  }

  lemma {:induction false} NothingLeft<D>(cmp: Comparator<D>, rest: seq<Node<D>>, qsize: nat)
    requires qsize == 0 || rest == []
    ensures Merge(cmp, [], Take(rest, qsize)) == [] && Drop(rest, qsize) == rest
  {
  }

  lemma {:induction false} QEmpty<D>(q: Node?<D>, rest: seq<Node<D>>)
    requires IsList(q, rest)
    ensures q == null <==> rest == []
    ensures rest != [] ==> q == rest[0]
  {
  }

  lemma {:induction false} TailOf<D>(list: Node?<D>, tail: Node?<D>, out: seq<Node<D>>)
    requires IsOutput(list, tail, out)
    ensures tail != null ==> tail in out
  {
  }

  /** Steps over the first run: q ends up behind at most insize nodes. */
  method SkipRun<D>(p: Node<D>, insize: nat, ghost s: seq<Node<D>>) returns (q: Node?<D>, psize: nat)
    requires IsList(p, s) && insize > 0
    ensures psize == |Take(s, insize)| && IsList(q, Drop(s, insize)) && Linked(Take(s, insize))
  {
    q, psize := p, 0;
    var i := 0;
    while i < insize && q != null
      invariant 0 <= i <= insize && psize == i <= |s|
      invariant q == (if i < |s| then s[i] else null)
      decreases insize - i
    {
      assert s[i] in Members(s);
      psize := psize + 1;
      q := q.next;
      i := i + 1;
    }
    SubList(s, insize);
  }

  lemma {:induction false} SubList<D>(s: seq<Node<D>>, k: nat)
    requires Linked(s) && (s != [] ==> s[|s| - 1] in Members(s) && s[|s| - 1].next == null)
    ensures Linked(Take(s, k)) && IsList(if k < |s| then s[k] else null, Drop(s, k))
  {
    var t, d := Take(s, k), Drop(s, k);
    forall i | 0 <= i < |t| - 1 ensures t[i] in Members(t) && t[i].next == t[i + 1] {
      assert s[i] in Members(s);
    }
    forall i | 0 <= i < |d| - 1 ensures d[i] in Members(d) && d[i].next == d[i + 1] {
      assert s[Min(k, |s|) + i] in Members(s);
    }
  }

  lemma {:induction false} MergeDistinct<D>(cmp: Comparator<D>, out: seq<Node<D>>, s: seq<Node<D>>, k: nat)
    requires Distinct(out + s)
    ensures Distinct(out + Take(s, k) + Drop(s, k))
    ensures Members(out + Take(s, k) + Drop(s, k)) == Members(out + s)
  {
    assert out + Take(s, k) + Drop(s, k) == out + s;
  }

  lemma {:induction false} PassTurn<D>(cmp: Comparator<D>, s: seq<Node<D>>, k: nat)
    requires s != [] && k > 0
    ensures Pass(cmp, s, k) == Merge(cmp, Take(s, k), Take(Drop(s, k), k)) + Pass(cmp, Drop(Drop(s, k), k), k)
    ensures |Drop(Drop(s, k), k)| < |s| && (Drop(Drop(s, k), k) == [] <==> |s| <= 2 * k)
  {
  }

  lemma {:induction false} NotEmpty<D>(p: Node<D>, s: seq<Node<D>>)
    requires IsList(p, s)
    ensures s != []
  {
  }

  /** One turn: the next two runs merged. */
  method PassTwoRuns<D>(cmp: Comparator<D>, first0: Node?<D>, tail0: Node?<D>, p: Node<D>, insize: nat,
                        ghost out: seq<Node<D>>, ghost s: seq<Node<D>>)
    returns (first: Node?<D>, tail: Node?<D>, q: Node?<D>)
    requires Merging(first0, tail0, out, null, [], p, s) && insize > 0
    modifies Members(out + s)`next
    ensures Merging(first, tail, out + Merge(cmp, Take(s, insize), Take(Drop(s, insize), insize)), null, [],
                    q, Drop(Drop(s, insize), insize))
    ensures Members(out + Merge(cmp, Take(s, insize), Take(Drop(s, insize), insize)) + Drop(Drop(s, insize), insize))
         == Members(out + s)
  {
    hide Linked, IsOutput, Merge, Distinct, Take, Drop;
    assert out + [] + s == out + s;
    assert allocated(Members(out));
    MergeDistinct(cmp, out, s, insize);
    var psize;
    q, psize := SkipRun(p, insize, s);
    FirstOf(p, s, insize);
    first, tail, q := MergeTwo(cmp, first0, tail0, p, psize, q, insize, out, Take(s, insize), Drop(s, insize));
  }

  lemma {:induction false} FirstOf<D>(p: Node<D>, s: seq<Node<D>>, k: nat)
    requires IsList(p, s) && k > 0
    ensures Take(s, k) != [] && Take(s, k)[0] == p
  {
  }

  /** What holds at the head of the loop of one pass. */
  ghost predicate InPass<D>(cmp: Comparator<D>, first: Node?<D>, tail: Node?<D>, out: seq<Node<D>>, p: Node?<D>, s: seq<Node<D>>,
                            s0: seq<Node<D>>, k: nat, nmerges: nat)
    requires k > 0
    reads Members(out)`next, Members(s)`next
  {
    && Merging(first, tail, out, null, [], p, s) && Members(out + s) == Members(s0)
    && out + Pass(cmp, s, k) == Pass(cmp, s0, k)
    && (nmerges == 0 ==> s == s0)
    && (nmerges == 1 ==> s == Drop(Drop(s0, k), k))
    && (nmerges > 1 ==> |s0| > 2 * k)
  }

  lemma {:induction false} PassStarts<D>(cmp: Comparator<D>, p: Node<D>, s: seq<Node<D>>, k: nat)
    requires k > 0 && IsList(p, s) && Distinct(s)
    ensures InPass(cmp, null, null, [], p, s, s, k, 0)
  {
    hide Pass;
    assert [] + [] + s == s && [] + s == s;
    assert [] + Pass(cmp, s, k) == Pass(cmp, s, k);
  }

  method Turn<D>(cmp: Comparator<D>, first0: Node?<D>, tail0: Node?<D>, p: Node<D>, insize: nat, nmerges0: nat,
                 ghost out: seq<Node<D>>, ghost s: seq<Node<D>>, ghost s0: seq<Node<D>>)
    returns (first: Node?<D>, tail: Node?<D>, q: Node?<D>, nmerges: nat, ghost next: seq<Node<D>>, ghost rest: seq<Node<D>>)
    requires insize > 0 && InPass(cmp, first0, tail0, out, p, s, s0, insize, nmerges0)
    modifies Members(s0)`next
    ensures InPass(cmp, first, tail, next, q, rest, s0, insize, nmerges) && |rest| < |s|
  {
    hide Linked, IsOutput, Merge, Distinct, Pass, Members, Take, Drop, Merging;
    StillList(first0, tail0, out, p, s);
    PassTurn(cmp, s, insize);
    if nmerges0 == 1 { PassTurn(cmp, s0, insize); }
    nmerges := nmerges0 + 1;
    first, tail, q := PassTwoRuns(cmp, first0, tail0, p, insize, out, s);
    next := out + Merge(cmp, Take(s, insize), Take(Drop(s, insize), insize));
    rest := Drop(Drop(s, insize), insize);
  }

  /** One pass over the list at p: runs of insize nodes are merged in pairs, and the merges counted. */
  method OnePass<D>(cmp: Comparator<D>, p0: Node<D>, insize: nat, ghost s0: seq<Node<D>>)
    returns (list: Node<D>, nmerges: nat)
    requires IsList(p0, s0) && Distinct(s0) && insize > 0
    modifies Members(s0)`next
    ensures IsList(list, Pass(cmp, s0, insize)) && Distinct(Pass(cmp, s0, insize))
    ensures Members(Pass(cmp, s0, insize)) == Members(s0)
    ensures nmerges <= 1 <==> |s0| <= 2 * insize
  {
    NotEmpty(p0, s0);
    hide Linked, IsList, IsOutput, Merge, Distinct, Pass, Members, Take, Drop, Merging, InPass;
    var p: Node?<D> := p0;
    var first: Node?<D>, tail: Node?<D> := null, null;
    nmerges := 0;
    ghost var out, s: seq<Node<D>> := [], s0;
    PassStarts(cmp, p0, s0, insize);
    while p != null
      invariant InPass(cmp, first, tail, out, p, s, s0, insize, nmerges)
      decreases |s|
    {
      first, tail, p, nmerges, out, s := Turn(cmp, first, tail, p, insize, nmerges, out, s, s0);
    }
    PassEnds(cmp, first, tail, out, s, s0, insize, nmerges, p0);
    list := first;
    Close(list, tail, out, p);
  }

  lemma {:induction false} PassEnds<D>(cmp: Comparator<D>, first: Node?<D>, tail: Node?<D>, out: seq<Node<D>>, s: seq<Node<D>>,
                 s0: seq<Node<D>>, k: nat, nmerges: nat, p0: Node<D>)
    requires k > 0 && s0 != [] && InPass(cmp, first, tail, out, null, s, s0, k, nmerges)
    ensures Merging(first, tail, out, null, [], null, []) && out == Pass(cmp, s0, k) && Members(out) == Members(s0)
    ensures first != null && tail != null && tail in Members(s0)
    ensures nmerges <= 1 <==> |s0| <= 2 * k
  {
    hide Linked, IsOutput, Merge, Distinct, Take, Drop, Merging;
    StillList(first, tail, out, null, s);
    PassTurn(cmp, s0, k);
    assert out + [] == out;
  }

  lemma {:induction false} StillList<D>(first: Node?<D>, tail: Node?<D>, out: seq<Node<D>>, p: Node?<D>, s: seq<Node<D>>)
    requires Merging(first, tail, out, null, [], p, s)
    ensures p == null <==> s == []
    ensures out != [] ==> first != null && tail != null && tail in Members(out + s)
  {
  }

  /** tail->next = NULL */
  method Close<D>(list: Node<D>, tail: Node<D>, ghost out: seq<Node<D>>, ghost p: Node?<D>)
    requires Merging(list, tail, out, null, [], p, [])
    modifies tail`next
    ensures IsList(list, out) && Distinct(out)
  {
    assert out + [] + [] == out;
    tail.next := null;
    forall i | 0 <= i < |out| - 1 ensures out[i] in Members(out) && out[i].next == out[i + 1] {
      assert out[i] in Members(out) && out[i] != out[|out| - 1];
    }
  }

  lemma {:induction false} SortTurn<D>(cmp: Comparator<D>, s: seq<Node<D>>, k: nat)
    requires k > 0
    ensures SortFrom(cmp, s, k) == if |s| <= 2 * k then Pass(cmp, s, k) else SortFrom(cmp, Pass(cmp, s, k), 2 * k)
  {
  }

  lemma {:induction false} SortEmpty<D>(cmp: Comparator<D>, s: seq<Node<D>>)
    requires IsList(null, s)
    ensures SortFrom(cmp, s, 1) == s
  {
    assert s == [];
  }

  /** list_cache_sort: passes with run length 1, 2, 4, ... until one merge has done it all. The result
      is the sorted sequence of exactly the nodes that came in; only their links have changed. */
  method ListCacheSort<D>(cmp: Comparator<D>, inlist: Node?<D>, ghost s: seq<Node<D>>) returns (list: Node?<D>)
    requires IsList(inlist, s) && Distinct(s)
    modifies Members(s)`next
    ensures IsList(list, SortFrom(cmp, s, 1)) && Distinct(SortFrom(cmp, s, 1))
    ensures Members(SortFrom(cmp, s, 1)) == Members(s)
  {
    hide Linked, Distinct, Pass, Members, SortFrom, IsList;
    if inlist == null {
      SortEmpty(cmp, s);
      return null;
    }
    list := inlist;
    var insize := 1;
    ghost var cur := s;
    while true
      invariant list != null && IsList(list, cur) && Distinct(cur) && insize > 0
      invariant Members(cur) == Members(s) && |cur| == |s|
      invariant SortFrom(cmp, cur, insize) == SortFrom(cmp, s, 1)
      decreases if |s| > insize then |s| - insize else 0
    {
      var nmerges;
      list, nmerges := OnePass(cmp, list, insize, cur);
      SortTurn(cmp, cur, insize);
      cur := Pass(cmp, cur, insize);
      if nmerges <= 1 {
        return list;
      }
      insize := insize * 2;
    }
  }

  // --- Comparators -------------------------------------------------------------------------------

  datatype BaseEntry = BaseEntry(id: nat)

  datatype FieldEntry = FieldEntry(prog: seq<Byte>, id: nat)

  function BaseCacheCmp(a: BaseEntry, b: BaseEntry): int {
    a.id - b.id
  }

  function FieldCacheCmp(a: FieldEntry, b: FieldEntry): int {
    var ret := StrCaseCmp(a.prog, b.prog);
    if ret != 0 then ret else a.id - b.id
  }

  lemma {:induction false} BaseCacheCmpOrders()
    ensures TotalPreorder(BaseCacheCmp)
  {
  }

  lemma {:induction false} FieldCacheCmpOrders()
    ensures TotalPreorder(FieldCacheCmp)
  {
    forall a, b ensures FieldCacheCmp(a, b) <= 0 || FieldCacheCmp(b, a) <= 0 {
      StrCaseCmpFlips(a.prog, b.prog);
    }
    forall a, b, c | FieldCacheCmp(a, b) <= 0 && FieldCacheCmp(b, c) <= 0 ensures FieldCacheCmp(a, c) <= 0 {
      StrCaseCmpTransitive(a.prog, b.prog, c.prog);
    }
  }

  /** The field cache as codegen sorts it. */
  lemma {:induction false} FieldCacheSorted(s: seq<Node<FieldEntry>>)
    ensures var r := SortFrom(FieldCacheCmp, s, 1);
            && Sorted(FieldCacheCmp, r) && multiset(r) == multiset(s)
            && forall x :: Ties(FieldCacheCmp, x, r) == Ties(FieldCacheCmp, x, s)
  {
    FieldCacheCmpOrders();
    SortCorrect(FieldCacheCmp, s);
  }

  /** Storage is defined in ascending order of its numbers. */
  lemma {:induction false} BaseCacheAscends(s: seq<Node<BaseEntry>>)
    ensures var r := SortFrom(BaseCacheCmp, s, 1);
            multiset(r) == multiset(s) && forall i, j :: 0 <= i < j < |r| ==> r[i].d.id <= r[j].d.id
  {
    BaseCacheCmpOrders();
    SortCorrect(BaseCacheCmp, s);
  }

  /** Fields are defined program by program, in alphabetical order whatever the case, and in ascending
      order of their numbers in each. */
  lemma {:induction false} FieldCacheAscends(s: seq<Node<FieldEntry>>)
    ensures var r := SortFrom(FieldCacheCmp, s, 1);
            forall i, j :: 0 <= i < j < |r| ==>
              var a, b := r[i].d, r[j].d;
              Before(Fold(a.prog), Fold(b.prog)) || (Fold(a.prog) == Fold(b.prog) && a.id <= b.id)
  {
    hide StrCaseCmp, Before, Fold;
    FieldCacheSorted(s);
    var r := SortFrom(FieldCacheCmp, s, 1);
    forall i, j | 0 <= i < j < |r|
      ensures var a, b := r[i].d, r[j].d;
              Before(Fold(a.prog), Fold(b.prog)) || (Fold(a.prog) == Fold(b.prog) && a.id <= b.id)
    {
      assert FieldCacheCmp(r[i].d, r[j].d) <= 0;
      StrCaseCmpOrder(r[i].d.prog, r[j].d.prog);
      StrCaseCmpZero(r[i].d.prog, r[j].d.prog);
    }
  }
}
