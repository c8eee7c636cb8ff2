/** Natural-number helpers shared by the decimal and big-endian codecs. */
module Numbers {

  /** `base` raised to `exp`. */
  function Pow(base: nat, exp: nat): (r: nat)
    ensures base >= 1 ==> r >= 1
  {
    if exp == 0 then 1 else base * Pow(base, exp - 1)
  }

  lemma {:induction false} PowAdd(base: nat, a: nat, b: nat)
    ensures Pow(base, a + b) == Pow(base, a) * Pow(base, b)
  {
    if a > 0 {
      PowAdd(base, a - 1, b);
      assert Pow(base, a + b) == base * Pow(base, a - 1 + b);
      MulAssociative(base, Pow(base, a - 1), Pow(base, b));
    }
  }

  lemma MulAssociative(x: nat, y: nat, z: nat)
    ensures x * (y * z) == (x * y) * z
  {
  }

  /** Quotient and remainder are determined by any decomposition x == q * d + r with 0 <= r < d. */
  lemma DivModUnique(x: int, d: int, q: int, r: int)
    requires d > 0
    requires 0 <= r < d
    requires x == q * d + r
    ensures x / d == q
    ensures x % d == r
  {
    var q' := x / d;
    var r' := x % d;
    if q > q' {
      Distribute(q, q', d);
      MulMonotone(q - q', d);
    } else if q < q' {
      Distribute(q', q, d);
      MulMonotone(q' - q, d);
    }
  }

  lemma Distribute(a: int, b: int, d: int)
    ensures (a - b) * d == a * d - b * d
  {
  }

  lemma MulMonotone(k: int, d: int)
    requires k >= 1 && d > 0
    ensures k * d >= d
  {
  }
}
