/** Powers of two. */
module Powers {

  function Pow2(n: nat): nat {
    if n == 0 then 1 else 2 * Pow2(n - 1)
  }

  lemma {:induction false} Pow2Sum(a: nat, b: nat)
    ensures Pow2(a + b) == Pow2(a) * Pow2(b)
  {
    if a > 0 {
      Pow2Sum(a - 1, b);
      DoubleFactor(Pow2(b), Pow2(a - 1));
    }
  }

  lemma DoubleFactor(a: nat, b: nat)
    ensures a * (2 * b) == 2 * (a * b)
  {
  }

  lemma {:induction false} Pow2Monotone(a: nat, b: nat)
    requires a <= b
    ensures 0 < Pow2(a) <= Pow2(b)
    decreases b
  {
    if 0 < a {
      Pow2Monotone(a - 1, b - 1);
    } else if 0 < b {
      Pow2Monotone(a, b - 1);
    }
  }
}
