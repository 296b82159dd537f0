/** strcasecmp, as the text comparisons of the compiler use it. */
module StrCase {

  /** A byte of a C string. */
  type Byte = b: nat | 0 < b < 256 witness 1

  function ToLower(b: nat): nat {
    if 'A' as nat <= b <= 'Z' as nat then b + 32 else b
  }

  /** strcasecmp in the C locale. */
  function StrCaseCmp(a: seq<Byte>, b: seq<Byte>): int {
    if a == [] && b == [] then 0
    else if a == [] then 0 - ToLower(b[0])
    else if b == [] then ToLower(a[0])
    else if ToLower(a[0]) != ToLower(b[0]) then ToLower(a[0]) - ToLower(b[0])
    else StrCaseCmp(a[1..], b[1..])
  }

  function Fold(s: seq<Byte>): (r: seq<Byte>)
    ensures |r| == |s| && forall k :: 0 <= k < |s| ==> r[k] == ToLower(s[k])
  {
    seq(|s|, k requires 0 <= k < |s| => ToLower(s[k]))
  }

  lemma {:induction false} StrCaseCmpFlips(a: seq<Byte>, b: seq<Byte>)
    ensures StrCaseCmp(a, b) < 0 <==> StrCaseCmp(b, a) > 0
    ensures StrCaseCmp(a, b) == 0 <==> StrCaseCmp(b, a) == 0
    decreases |a|
  {
    if a != [] && b != [] { StrCaseCmpFlips(a[1..], b[1..]); }
  }

  lemma {:induction false} StrCaseCmpTransitive(a: seq<Byte>, b: seq<Byte>, c: seq<Byte>)
    requires StrCaseCmp(a, b) <= 0 && StrCaseCmp(b, c) <= 0
    ensures StrCaseCmp(a, c) <= 0
    ensures StrCaseCmp(a, c) == 0 ==> StrCaseCmp(a, b) == 0 && StrCaseCmp(b, c) == 0
    decreases |a|
  {
    if a != [] && b != [] && c != [] && ToLower(a[0]) == ToLower(b[0]) == ToLower(c[0]) {
      StrCaseCmpTransitive(a[1..], b[1..], c[1..]);
    }
  }

  /** It answers 0 exactly on strings that are equal but for the case of their letters. */
  lemma {:induction false} StrCaseCmpZero(a: seq<Byte>, b: seq<Byte>)
    ensures StrCaseCmp(a, b) == 0 <==> Fold(a) == Fold(b)
    decreases |a|
  {
    if a != [] && b != [] {
      StrCaseCmpZero(a[1..], b[1..]);
      assert Fold(a) == [ToLower(a[0])] + Fold(a[1..]);
      assert Fold(b) == [ToLower(b[0])] + Fold(b[1..]);
    }
  }

  /** Two characters are the same just when they are equal, or one letter in both cases. */
  lemma {:induction false} SameLetterIff(a: Byte, b: Byte)
    ensures StrCaseCmp([a], [b]) == 0 <==>
            a == b || (65 <= a <= 90 && b == a + 32) || (65 <= b <= 90 && a == b + 32)
  {
    assert [a][1..] == [] && [b][1..] == [];
  }

  /** Before in the order of a dictionary. */
  ghost predicate Before(a: seq<Byte>, b: seq<Byte>) {
    exists k :: 0 <= k <= |a| && k < |b| && a[..k] == b[..k] && (k == |a| || a[k] < b[k])
  }

  lemma {:induction false} BeforeHead(a: seq<Byte>, b: seq<Byte>)
    requires a != [] && b != []
    ensures Before(a, b) <==> a[0] < b[0] || (a[0] == b[0] && Before(a[1..], b[1..]))
  {
    if a[0] < b[0] { assert a[..0] == b[..0]; }
    if a[0] == b[0] && Before(a[1..], b[1..]) {
      var k :| 0 <= k <= |a| - 1 && k < |b| - 1 && a[1..][..k] == b[1..][..k] && (k == |a| - 1 || a[1..][k] < b[1..][k]);
      assert a[..k + 1] == [a[0]] + a[1..][..k] && b[..k + 1] == [b[0]] + b[1..][..k];
    }
    if Before(a, b) && a[0] == b[0] {
      var k :| 0 <= k <= |a| && k < |b| && a[..k] == b[..k] && (k == |a| || a[k] < b[k]);
      assert k > 0 && a[1..][..k - 1] == a[..k][1..] && b[1..][..k - 1] == b[..k][1..];
    } else if Before(a, b) {
      var k :| 0 <= k <= |a| && k < |b| && a[..k] == b[..k] && (k == |a| || a[k] < b[k]);
      assert k > 0 ==> a[..k][0] == b[..k][0];
    }
  }

  /** Its sign is the order of the folded strings. */
  lemma {:induction false} StrCaseCmpOrder(a: seq<Byte>, b: seq<Byte>)
    ensures StrCaseCmp(a, b) < 0 <==> Before(Fold(a), Fold(b))
    decreases |a|
  {
    if a != [] && b != [] {
      StrCaseCmpOrder(a[1..], b[1..]);
      BeforeHead(Fold(a), Fold(b));
      assert Fold(a)[1..] == Fold(a[1..]) && Fold(b)[1..] == Fold(b[1..]);
    } else if b != [] {
      assert Fold(a)[..0] == Fold(b)[..0];
    }
  }
}
