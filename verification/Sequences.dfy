module Sequences {

  function Repeat<T>(c: T, n: nat): (s: seq<T>)
    ensures |s| == n && forall k :: 0 <= k < n ==> s[k] == c
  {
    seq(n, k requires 0 <= k < n => c)
  }
}
