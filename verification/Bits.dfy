/** Whole numbers: powers of two, and the bitwise operators on unsigned words. */
module Bits {

  function Min(a: nat, b: nat): (r: nat)
    ensures r <= a && r <= b && (r == a || r == b)
  {
    if a < b then a else b
  }

  function Pow2(k: nat): (p: nat)
    ensures p >= 1
  {
    if k == 0 then 1 else 2 * Pow2(k - 1)
  }

  /** `a & b`, bit by bit. */
  function And(a: nat, b: nat): (r: nat)
    ensures r <= b
  {
    if a == 0 || b == 0 then 0 else (a % 2) * (b % 2) + 2 * And(a / 2, b / 2)
  }

  /** `a >> k`. */
  function Shr(a: nat, k: nat): nat {
    if k == 0 then a else Shr(a / 2, k - 1)
  }

  /** The least integer that is at least n / d. */
  function CeilDiv(n: nat, d: nat): nat
    requires d > 0
  {
    (n + d - 1) / d
  }

  lemma CeilDivMeans(n: nat, d: nat)
    requires d > 0
    ensures n <= d * CeilDiv(n, d) < n + d
  {
    var q, r := (n + d - 1) / d, (n + d - 1) % d;
    assert n + d - 1 == d * q + r;
  }

  lemma HalveMod(a: nat, p: nat)
    requires p > 0
    ensures a % (2 * p) == a % 2 + 2 * ((a / 2) % p)
    ensures a / (2 * p) == a / 2 / p
  {
    var q, r := a / 2 / p, (a / 2) % p;
    assert a == 2 * p * q + (2 * r + a % 2) by {
      assert a / 2 == p * q + r;
    }
    DivModUnique(a, 2 * p, q, 2 * r + a % 2);
  }

  lemma ProductAtLeast(d: int, x: int)
    requires d > 0
    ensures x >= 1 ==> d * x >= d
    ensures x <= -1 ==> d * x <= -d
  {
  }

  lemma DivModUnique(a: nat, d: nat, q: nat, r: nat)
    requires 0 <= r < d && a == d * q + r
    ensures a / d == q && a % d == r
  {
    var q', r' := a / d, a % d;
    ProductAtLeast(d, q' - q);
    calc {
      d * (q' - q);
      d * q' - d * q;
      r - r';
    }
  }

  /** Masking with one less than a power of two is the remainder by that power. */
  lemma {:induction false} AndMask(a: nat, k: nat)
    ensures And(a, Pow2(k) - 1) == a % Pow2(k)
  {
    if k == 0 {
    } else {
      var p := Pow2(k - 1);
      assert (2 * p - 1) / 2 == p - 1 && (2 * p - 1) % 2 == 1;
      HalveMod(a, p);
      AndMask(a / 2, k - 1);
      if a == 0 {
        assert And(0, 2 * p - 1) == 0;
      }
    }
  }

  lemma {:induction false} ShrIsDiv(a: nat, k: nat)
    ensures Shr(a, k) == a / Pow2(k)
  {
    if k > 0 {
      HalveMod(a, Pow2(k - 1));
      ShrIsDiv(a / 2, k - 1);
    }
  }

  /** The shift-and-mask form of the ceiling used when the number of buckets is doubled. */
  lemma CeilByShiftAndMask(n: nat, k: nat)
    ensures Shr(n, k) + (if And(n, Pow2(k) - 1) != 0 then 1 else 0) == CeilDiv(n, Pow2(k))
  {
    AndMask(n, k);
    ShrIsDiv(n, k);
    CeilFromDivMod(n, Pow2(k));
  }

  lemma CeilFromDivMod(n: nat, p: nat)
    requires p > 0
    ensures n / p + (if n % p != 0 then 1 else 0) == CeilDiv(n, p)
  {
    var q, r := n / p, n % p;
    if r == 0 {
      DivModUnique(n + p - 1, p, q, p - 1);
    } else {
      DivModUnique(n + p - 1, p, q + 1, r - 1);
    }
  }
}
