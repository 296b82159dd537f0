/** What list_cache_sort computes, as functions on the sequence of list nodes: passes that merge
    neighbouring runs, with the run length doubling, and why the result is sorted and stable. */
module MergeRuns {

  /** A cache entry. Like struct sort_list, only its link changes. */
  class Node<D> {
    const d: D
    var next: Node?<D>

    constructor (d: D)
      ensures this.d == d && next == null
    {
      this.d := d;
      next := null;
    }
  }

  type Comparator<!D> = (D, D) -> int

  function Min(a: nat, b: nat): nat {
    if a < b then a else b
  }

  function Take<T>(s: seq<T>, n: nat): seq<T> { s[..Min(n, |s|)] }

  function Drop<T>(s: seq<T>, n: nat): seq<T> { s[Min(n, |s|)..] }

  /** Two runs merged; on a tie the earlier run goes first. */
  function Merge<D>(cmp: Comparator<D>, p: seq<Node<D>>, q: seq<Node<D>>): (r: seq<Node<D>>)
    ensures |r| == |p| + |q|
    decreases |p| + |q|
  {
    if p == [] then q
    else if q == [] then p
    else if cmp(p[0].d, q[0].d) <= 0 then [p[0]] + Merge(cmp, p[1..], q)
    else [q[0]] + Merge(cmp, p, q[1..])
  }

  /** One pass with runs of length k. */
  function Pass<D>(cmp: Comparator<D>, s: seq<Node<D>>, k: nat): (r: seq<Node<D>>)
    requires k > 0
    ensures |r| == |s|
    decreases |s|
  {
    if s == [] then []
    else Merge(cmp, Take(s, k), Take(Drop(s, k), k)) + Pass(cmp, Drop(Drop(s, k), k), k)
  }

  /** Passes with run length k, 2k, 4k, ... until one merge does it all. */
  function SortFrom<D>(cmp: Comparator<D>, s: seq<Node<D>>, k: nat): seq<Node<D>>
    requires k > 0
    decreases if |s| > k then |s| - k else 0
  {
    if |s| <= 2 * k then Pass(cmp, s, k) else SortFrom(cmp, Pass(cmp, s, k), 2 * k)
  }

  // --- Order -------------------------------------------------------------------------------------

  ghost predicate TotalPreorder<D(!new)>(cmp: Comparator<D>) {
    && (forall a, b :: cmp(a, b) <= 0 || cmp(b, a) <= 0)
    && (forall a, b, c :: cmp(a, b) <= 0 && cmp(b, c) <= 0 ==> cmp(a, c) <= 0)
  }

  lemma {:induction false} Transitive<D(!new)>(cmp: Comparator<D>, a: D, b: D, c: D)
    requires TotalPreorder(cmp)
    ensures cmp(a, b) <= 0 && cmp(b, c) <= 0 ==> cmp(a, c) <= 0
  {
  }

  ghost predicate Sorted<D>(cmp: Comparator<D>, s: seq<Node<D>>) {
    forall i, j :: 0 <= i < j < |s| ==> cmp(s[i].d, s[j].d) <= 0
  }

  ghost predicate RunsSorted<D>(cmp: Comparator<D>, s: seq<Node<D>>, k: nat)
    requires k > 0
    decreases |s|
  {
    s == [] || (Sorted(cmp, Take(s, k)) && RunsSorted(cmp, Drop(s, k), k))
  }

  /** The entries that compare equal to x, in order. */
  ghost function Ties<D>(cmp: Comparator<D>, x: D, s: seq<Node<D>>): seq<Node<D>> {
    if s == [] then []
    else (if cmp(x, s[0].d) <= 0 && cmp(s[0].d, x) <= 0 then [s[0]] else []) + Ties(cmp, x, s[1..])
  }

  lemma {:induction false} TiesConcat<D>(cmp: Comparator<D>, x: D, s: seq<Node<D>>, t: seq<Node<D>>)
    ensures Ties(cmp, x, s + t) == Ties(cmp, x, s) + Ties(cmp, x, t)
    decreases |s|
  {
    if s == [] {
      assert s + t == t;
    } else {
      assert (s + t)[1..] == s[1..] + t;
      TiesConcat(cmp, x, s[1..], t);
    }
  }

  /** The four cases of a merge. */
  lemma {:induction false} MergeCases<D>(cmp: Comparator<D>, p: seq<Node<D>>, q: seq<Node<D>>)
    ensures p == [] ==> Merge(cmp, p, q) == q
    ensures q == [] ==> Merge(cmp, p, q) == p
    ensures p != [] && q != [] && cmp(p[0].d, q[0].d) <= 0 ==> Merge(cmp, p, q) == [p[0]] + Merge(cmp, p[1..], q)
    ensures p != [] && q != [] && cmp(p[0].d, q[0].d) > 0 ==> Merge(cmp, p, q) == [q[0]] + Merge(cmp, p, q[1..])
  {
  }

  lemma {:induction false} MultisetHead<T>(s: seq<T>)
    requires s != []
    ensures multiset(s) == multiset{s[0]} + multiset(s[1..])
  {
    assert s == [s[0]] + s[1..];
  }

  lemma {:induction false} MergeMembers<D>(cmp: Comparator<D>, p: seq<Node<D>>, q: seq<Node<D>>)
    ensures multiset(Merge(cmp, p, q)) == multiset(p) + multiset(q)
    decreases |p| + |q|
  {
    hide Merge;
    MergeCases(cmp, p, q);
    if p != [] && q != [] {
      MultisetHead(p);
      MultisetHead(q);
      if cmp(p[0].d, q[0].d) <= 0 {
        MergeMembers(cmp, p[1..], q);
      } else {
        MergeMembers(cmp, p, q[1..]);
      }
    }
  }

  lemma {:induction false} SortedCons<D>(cmp: Comparator<D>, n: Node<D>, s: seq<Node<D>>)
    requires Sorted(cmp, s) && forall x :: x in s ==> cmp(n.d, x.d) <= 0
    ensures Sorted(cmp, [n] + s)
  {
    var r := [n] + s;
    forall i, j | 0 <= i < j < |r| ensures cmp(r[i].d, r[j].d) <= 0 {
      assert r[j] == s[j - 1] && r[j] in s;
    }
  }

  lemma {:induction false} SortedTail<D>(cmp: Comparator<D>, s: seq<Node<D>>)
    requires Sorted(cmp, s) && s != []
    ensures Sorted(cmp, s[1..])
    ensures forall x :: x in s[1..] ==> cmp(s[0].d, x.d) <= 0
  {
    forall x | x in s[1..] ensures cmp(s[0].d, x.d) <= 0 {
      var i :| 0 <= i < |s[1..]| && s[1..][i] == x;
      assert s[i + 1] == x;
    }
  }

  lemma {:induction false} MergeFrom<D>(cmp: Comparator<D>, p: seq<Node<D>>, q: seq<Node<D>>)
    ensures forall x :: x in Merge(cmp, p, q) ==> x in p || x in q
  {
    MergeMembers(cmp, p, q);
    forall x | x in Merge(cmp, p, q) ensures x in p || x in q {
      assert x in multiset(Merge(cmp, p, q));
      assert x in multiset(p) || x in multiset(q);
    }
  }

  lemma {:induction false} MergeSorted<D(!new)>(cmp: Comparator<D>, p: seq<Node<D>>, q: seq<Node<D>>)
    requires TotalPreorder(cmp) && Sorted(cmp, p) && Sorted(cmp, q)
    ensures Sorted(cmp, Merge(cmp, p, q))
    decreases |p| + |q|
  {
    hide Sorted;
    if p != [] && q != [] {
      SortedTail(cmp, p);
      SortedTail(cmp, q);
      if cmp(p[0].d, q[0].d) <= 0 {
        MergeSorted(cmp, p[1..], q);
        MergeFrom(cmp, p[1..], q);
        HeadBelow(cmp, p[0], q);
        SortedCons(cmp, p[0], Merge(cmp, p[1..], q));
      } else {
        MergeSorted(cmp, p, q[1..]);
        MergeFrom(cmp, p, q[1..]);
        HeadBelow(cmp, q[0], p);
        SortedCons(cmp, q[0], Merge(cmp, p, q[1..]));
      }
    }
  }

  lemma {:induction false} HeadBelow<D(!new)>(cmp: Comparator<D>, n: Node<D>, s: seq<Node<D>>)
    requires TotalPreorder(cmp) && Sorted(cmp, s) && s != [] && cmp(n.d, s[0].d) <= 0
    ensures forall x :: x in s ==> cmp(n.d, x.d) <= 0
  {
    SortedTail(cmp, s);
    forall x | x in s ensures cmp(n.d, x.d) <= 0 {
      if x != s[0] {
        var i :| 0 <= i < |s| && s[i] == x;
        assert x == s[1..][i - 1];
        assert cmp(s[0].d, x.d) <= 0;
      }
    }
  }

  /** A run whose head is above x has no ties with x. */
  lemma {:induction false} NoTies<D(!new)>(cmp: Comparator<D>, x: D, s: seq<Node<D>>)
    requires TotalPreorder(cmp) && Sorted(cmp, s) && s != [] && !(cmp(s[0].d, x) <= 0)
    ensures Ties(cmp, x, s) == []
    decreases |s|
  {
    if |s| > 1 {
      SortedTail(cmp, s);
      assert s[1] == s[1..][0] && s[1] in s[1..];
      Transitive(cmp, s[0].d, s[1].d, x);
      NoTies(cmp, x, s[1..]);
    } else {
      assert s[1..] == [];
    }
  }

  lemma {:induction false} TiesCons<D>(cmp: Comparator<D>, x: D, n: Node<D>, s: seq<Node<D>>)
    ensures Ties(cmp, x, [n] + s) == (if cmp(x, n.d) <= 0 && cmp(n.d, x) <= 0 then [n] else []) + Ties(cmp, x, s)
  {
    assert ([n] + s)[1..] == s;
  }

  lemma {:induction false} MergeStable<D(!new)>(cmp: Comparator<D>, x: D, p: seq<Node<D>>, q: seq<Node<D>>)
    requires TotalPreorder(cmp) && Sorted(cmp, p)
    ensures Ties(cmp, x, Merge(cmp, p, q)) == Ties(cmp, x, p) + Ties(cmp, x, q)
    decreases |p| + |q|
  {
    hide Sorted, TotalPreorder, Ties, Merge;
    MergeCases(cmp, p, q);
    TiesNone(cmp, x);
    if p != [] && q != [] {
      if cmp(p[0].d, q[0].d) <= 0 {
        SortedTail(cmp, p);
        MergeStable(cmp, x, p[1..], q);
        TiesHead(cmp, x, p);
        TiesCons(cmp, x, p[0], Merge(cmp, p[1..], q));
      } else {
        MergeStable(cmp, x, p, q[1..]);
        TiesHead(cmp, x, q);
        TiesCons(cmp, x, q[0], Merge(cmp, p, q[1..]));
        if cmp(x, q[0].d) <= 0 && cmp(q[0].d, x) <= 0 {
          Transitive(cmp, p[0].d, x, q[0].d);
          NoTies(cmp, x, p);
        }
      }
    }
  }

  lemma {:induction false} TiesNone<D>(cmp: Comparator<D>, x: D)
    ensures Ties(cmp, x, []) == []
  {
  }

  lemma {:induction false} TiesHead<D>(cmp: Comparator<D>, x: D, s: seq<Node<D>>)
    requires s != []
    ensures Ties(cmp, x, s) == (if cmp(x, s[0].d) <= 0 && cmp(s[0].d, x) <= 0 then [s[0]] else []) + Ties(cmp, x, s[1..])
  {
  }

  // --- Passes --------------------------------------------------------------------------------------

  lemma {:induction false} InRuns<T>(s: seq<T>, k: nat)
    ensures s == Take(s, k) + Take(Drop(s, k), k) + Drop(Drop(s, k), k)
  {
    assert Drop(s, k) == Take(Drop(s, k), k) + Drop(Drop(s, k), k);
    assert s == Take(s, k) + Drop(s, k);
  }

  lemma {:induction false} PassMembers<D>(cmp: Comparator<D>, s: seq<Node<D>>, k: nat)
    requires k > 0
    ensures multiset(Pass(cmp, s, k)) == multiset(s)
    decreases |s|
  {
    if s != [] {
      var p, q, rest := Take(s, k), Take(Drop(s, k), k), Drop(Drop(s, k), k);
      MergeMembers(cmp, p, q);
      PassMembers(cmp, rest, k);
      InRuns(s, k);
      hide Take, Drop;
      assert multiset(p + q + rest) == multiset(p) + multiset(q) + multiset(rest);
    }
  }

  lemma {:induction false} RunsOfMerge<D>(cmp: Comparator<D>, m: seq<Node<D>>, rest: seq<Node<D>>, k: nat)
    requires k > 0 && Sorted(cmp, m) && RunsSorted(cmp, rest, k) && |m| <= k && (|m| < k ==> rest == [])
    ensures RunsSorted(cmp, m + rest, k)
  {
    if m + rest != [] {
      assert Take(m + rest, k) == m;
      assert Drop(m + rest, k) == rest;
    }
  }

  /** A pass turns sorted runs of length k into sorted runs of length 2k. */
  lemma {:induction false} PassDoubles<D(!new)>(cmp: Comparator<D>, s: seq<Node<D>>, k: nat)
    requires k > 0 && TotalPreorder(cmp) && RunsSorted(cmp, s, k)
    ensures RunsSorted(cmp, Pass(cmp, s, k), 2 * k)
    decreases |s|
  {
    if s != [] {
      var p, q, rest := Take(s, k), Take(Drop(s, k), k), Drop(Drop(s, k), k);
      assert Sorted(cmp, q) by { if Drop(s, k) == [] { assert q == []; } }
      assert RunsSorted(cmp, rest, k);
      MergeSorted(cmp, p, q);
      PassDoubles(cmp, rest, k);
      RunsOfMerge(cmp, Merge(cmp, p, q), Pass(cmp, rest, k), 2 * k);
    }
  }

  lemma {:induction false} PassStable<D(!new)>(cmp: Comparator<D>, x: D, s: seq<Node<D>>, k: nat)
    requires k > 0 && TotalPreorder(cmp) && RunsSorted(cmp, s, k)
    ensures Ties(cmp, x, Pass(cmp, s, k)) == Ties(cmp, x, s)
    decreases |s|
  {
    if s != [] {
      hide Sorted, TotalPreorder, Ties;
      var p, q, rest := Take(s, k), Take(Drop(s, k), k), Drop(Drop(s, k), k);
      MergeStable(cmp, x, p, q);
      assert RunsSorted(cmp, Drop(s, k), k);
      assert RunsSorted(cmp, rest, k);
      hide Take, Drop;
      PassStable(cmp, x, rest, k);
      TiesConcat(cmp, x, Merge(cmp, p, q), Pass(cmp, rest, k));
      TiesConcat(cmp, x, p, q);
      TiesConcat(cmp, x, p + q, rest);
      InRuns(s, k);
    }
  }

  /** The whole sort, from sorted runs of length k on: a sorted, stable permutation. */
  lemma {:induction false} SortFromCorrect<D(!new)>(cmp: Comparator<D>, s: seq<Node<D>>, k: nat)
    requires k > 0 && TotalPreorder(cmp) && RunsSorted(cmp, s, k)
    ensures var r := SortFrom(cmp, s, k);
            && Sorted(cmp, r) && multiset(r) == multiset(s)
            && forall x :: Ties(cmp, x, r) == Ties(cmp, x, s)
    decreases if |s| > k then |s| - k else 0
  {
    hide Sorted, Ties, TotalPreorder;
    var t := Pass(cmp, s, k);
    PassMembers(cmp, s, k);
    PassDoubles(cmp, s, k);
    forall x ensures Ties(cmp, x, t) == Ties(cmp, x, s) { PassStable(cmp, x, s, k); }
    if |s| <= 2 * k {
      assert Take(t, 2 * k) == t;
      if t == [] { SortedEmpty(cmp); }
    } else {
      SortFromCorrect(cmp, t, 2 * k);
    }
  }

  lemma {:induction false} SortedEmpty<D>(cmp: Comparator<D>)
    ensures Sorted(cmp, [])
  {
  }

  lemma {:induction false} RunsOfOne<D>(cmp: Comparator<D>, s: seq<Node<D>>)
    ensures RunsSorted(cmp, s, 1)
    decreases |s|
  {
    if s != [] { RunsOfOne(cmp, Drop(s, 1)); }
  }

  /** The sort as called: runs of one entry are sorted, so nothing is asked of the list. */
  lemma {:induction false} SortCorrect<D(!new)>(cmp: Comparator<D>, s: seq<Node<D>>)
    requires TotalPreorder(cmp)
    ensures var r := SortFrom(cmp, s, 1);
            && Sorted(cmp, r) && multiset(r) == multiset(s)
            && forall x :: Ties(cmp, x, r) == Ties(cmp, x, s)
  {
    RunsOfOne(cmp, s);
    SortFromCorrect(cmp, s, 1);
  }
}
