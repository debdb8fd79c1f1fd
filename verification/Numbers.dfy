/** Machine integers of the host language. */
module Numbers {
  import opened Prelude

  const U32: nat := 0x1_0000_0000
  const U64: nat := 0x1_0000_0000_0000_0000
  const U64_MAX: nat := U64 - 1
  const I64_MAX: nat := 0x7FFF_FFFF_FFFF_FFFF

  function SaturatingAdd(a: nat, b: nat): nat {
    Min(a + b, U64_MAX)
  }

  function SaturatingMul(a: nat, b: nat): nat {
    Min(a * b, U64_MAX)
  }

  function Pow(base: nat, n: nat): nat {
    if n == 0 then 1 else base * Pow(base, n - 1)
  }

  function SaturatingPow(base: nat, n: nat): nat {
    Min(Pow(base, n), U64_MAX)
  }

  /** `as i64` on a 64-bit number. */
  function AsI64(x: nat): int {
    if x <= I64_MAX then x else x - U64
  }

  /** Powers multiply, which with the first two determines them. */
  lemma {:induction false} PowAdd(base: nat, m: nat, n: nat)
    ensures Pow(base, 0) == 1 && Pow(base, 1) == base
    ensures Pow(base, m + n) == Pow(base, m) * Pow(base, n)
    decreases n
  {
    assert Pow(base, 1) == base * Pow(base, 0);
    if n > 0 {
      PowAdd(base, m, n - 1);
      assert Pow(base, m + n) == base * Pow(base, m + (n - 1));
    }
  }

  lemma {:induction false} PowMonotone(base: nat, m: nat, n: nat)
    requires base > 0 && m <= n
    ensures Pow(base, m) <= Pow(base, n)
  {
    if m < n {
      PowMonotone(base, m, n - 1);
      MulMonotone(1, base, Pow(base, n - 1));
    }
  }

  lemma {:induction false} PowOne(n: nat)
    ensures Pow(1, n) == 1
  {
    if n > 0 {
      PowOne(n - 1);
    }
  }

  lemma MulMonotone(a: nat, b: nat, c: nat)
    requires a <= b
    ensures a * c <= b * c && c * a <= c * b
  {
  }

  /** Saturating a product whose factor was saturated already loses nothing. */
  lemma SaturatingMulPow(a: nat, base: nat, n: nat)
    requires a <= U64_MAX && base > 0
    ensures SaturatingMul(a, SaturatingPow(base, n)) == Min(a * Pow(base, n), U64_MAX)
  {
    var p := Pow(base, n);
    if p > U64_MAX && a > 0 {
      MulMonotone(1, a, p);
      MulMonotone(1, a, U64_MAX);
    }
  }
}
