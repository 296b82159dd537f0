/** Remainders, a step at a time. */
module Modulus {

  lemma {:induction false} Multiples(w: nat, d: int)
    ensures d > 0 ==> w * d >= w
    ensures d < 0 ==> w * d <= 0 - w
  {
  }

  lemma {:induction false} ModulusUnique(n: nat, w: nat, q: nat, r: nat)
    requires n == w * q + r && r < w
    ensures n % w == r
  {
    var d := n / w - q;
    assert w * d == r - n % w;
    Multiples(w, d);
  }

  lemma {:induction false} ModulusStep(n: nat, w: nat)
    requires w >= 1
    ensures (n + 1) % w == if n % w == w - 1 then 0 else n % w + 1
  {
    var q := n / w;
    if n % w == w - 1 {
      assert n + 1 == w * (q + 1);
      ModulusUnique(n + 1, w, q + 1, 0);
    } else {
      ModulusUnique(n + 1, w, q, n % w + 1);
    }
  }
}
