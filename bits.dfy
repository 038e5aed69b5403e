/**
 * Bitwise operations on non-negative integers of unbounded width, the
 * semantics of JavaScript's `|`, `&` and `<<` on non-negative `bigint`
 * values, defined one binary digit at a time.
 */
module Bits {

  /** `1n << BigInt(k)`. */
  function Pow2(k: nat): (p: nat)
    ensures p >= 1
  {
    if k == 0 then 1 else 2 * Pow2(k - 1)
  }

  /** 2^i <= 2^j when i <= j. */
  lemma {:induction false} Pow2Monotonic(i: nat, j: nat)
    requires i <= j
    ensures Pow2(i) <= Pow2(j)
    decreases j
  {
    if i < j {
      Pow2Monotonic(i, j - 1);
    }
  }

  /** `a | b`. */
  function Or(a: nat, b: nat): nat
    decreases a + b
  {
    if a == 0 then b
    else if b == 0 then a
    else 2 * Or(a / 2, b / 2) + (if a % 2 == 1 || b % 2 == 1 then 1 else 0)
  }

  /** `a & b`. */
  function And(a: nat, b: nat): nat
    decreases a + b
  {
    if a == 0 || b == 0 then 0
    else 2 * And(a / 2, b / 2) + (if a % 2 == 1 && b % 2 == 1 then 1 else 0)
  }

  /** Bit `p` of `m` is set: `(m >> p) & 1 == 1`. */
  predicate TestBit(m: nat, p: nat)
    decreases p
  {
    if p == 0 then m % 2 == 1 else TestBit(m / 2, p - 1)
  }

  /** Zero has no bit set. */
  lemma {:induction false} ZeroHasNoBits(p: nat)
    ensures !TestBit(0, p)
  {
    if p > 0 {
      ZeroHasNoBits(p - 1);
    }
  }

  /** The bits of `a | b` are those of `a` together with those of `b`. */
  lemma {:induction false} OrBit(a: nat, b: nat, p: nat)
    ensures TestBit(Or(a, b), p) <==> TestBit(a, p) || TestBit(b, p)
    decreases p
  {
    ZeroHasNoBits(p);
    if a != 0 && b != 0 && p > 0 {
      var r := if a % 2 == 1 || b % 2 == 1 then 1 else 0;
      assert (2 * Or(a / 2, b / 2) + r) / 2 == Or(a / 2, b / 2);
      OrBit(a / 2, b / 2, p - 1);
    }
  }

  /** The bits of `a & b` are those `a` and `b` share. */
  lemma {:induction false} AndBit(a: nat, b: nat, p: nat)
    ensures TestBit(And(a, b), p) <==> TestBit(a, p) && TestBit(b, p)
    decreases p
  {
    ZeroHasNoBits(p);
    if a != 0 && b != 0 && p > 0 {
      var r := if a % 2 == 1 && b % 2 == 1 then 1 else 0;
      assert (2 * And(a / 2, b / 2) + r) / 2 == And(a / 2, b / 2);
      AndBit(a / 2, b / 2, p - 1);
    }
  }

  /** `1 << k` has bit `k` and no other. */
  lemma {:induction false} Pow2Bit(k: nat, p: nat)
    ensures TestBit(Pow2(k), p) <==> p == k
    decreases k
  {
    if k == 0 {
      if p > 0 {
        ZeroHasNoBits(p - 1);
      }
    } else if p > 0 {
      Pow2Bit(k - 1, p - 1);
    }
  }

  /** Numbers with the same bits are equal. */
  lemma {:induction false} BitsDetermineValue(a: nat, b: nat)
    requires forall p: nat :: TestBit(a, p) == TestBit(b, p)
    ensures a == b
    decreases a + b
  {
    if a + b > 0 {
      assert TestBit(a, 0) == TestBit(b, 0);
      forall p: nat
        ensures TestBit(a / 2, p) == TestBit(b / 2, p)
      {
        assert TestBit(a, p + 1) == TestBit(b, p + 1);
      }
      BitsDetermineValue(a / 2, b / 2);
    }
  }

  /** A number below 2^k has no bit at position k or above. */
  lemma {:induction false} NoBitsAbove(m: nat, k: nat, p: nat)
    requires m < Pow2(k) && p >= k
    ensures !TestBit(m, p)
    decreases k
  {
    if k == 0 {
      ZeroHasNoBits(p);
    } else {
      NoBitsAbove(m / 2, k - 1, p - 1);
    }
  }

  /** Or-ing numbers below 2^k stays below 2^k. */
  lemma {:induction false} OrBelow(a: nat, b: nat, k: nat)
    requires a < Pow2(k) && b < Pow2(k)
    ensures Or(a, b) < Pow2(k)
    decreases k
  {
    if a != 0 && b != 0 {
      OrBelow(a / 2, b / 2, k - 1);
    }
  }

  /** A positive multiple of d is at least d. */
  lemma {:induction false} MultipleAtLeast(d: int, k: nat)
    requires d > 0 && k >= 1
    ensures d * k >= d
    decreases k
  {
    if k > 1 {
      MultipleAtLeast(d, k - 1);
      assert d * k == d * (k - 1) + d;
    }
  }

  /** Division with remainder is unique. */
  lemma DivisionUnique(x: int, d: int, q: int, r: int)
    requires d > 0 && x == d * q + r && 0 <= r < d
    ensures x % d == r
  {
    var q', r' := x / d, x % d;
    assert d * q' + r' == d * q + r;
    if q' > q {
      MultipleAtLeast(d, q' - q);
    } else if q' < q {
      MultipleAtLeast(d, q - q');
    }
  }

  /** The remainder by 2P is twice the remainder of the half by P, plus the low bit. */
  lemma RemainderOfDouble(x: nat, p: nat)
    requires p >= 1
    ensures x % (2 * p) == 2 * ((x / 2) % p) + x % 2
  {
    var s, t := (x / 2) / p, (x / 2) % p;
    assert x / 2 == p * s + t;
    assert x == (2 * p) * s + (2 * t + x % 2);
    DivisionUnique(x, 2 * p, s, 2 * t + x % 2);
  }

  /** And-ing with 2^k - 1 keeps the remainder modulo 2^k. */
  lemma {:induction false} AndLowMask(x: nat, k: nat)
    ensures And(x, Pow2(k) - 1) == x % Pow2(k)
    decreases k
  {
    if k == 0 {
      assert And(x, 0) == 0;
    } else if x == 0 {
      DivisionUnique(0, Pow2(k), 0, 0);
    } else {
      var half := Pow2(k - 1);
      var m := 2 * half - 1;
      assert Pow2(k) == 2 * half && Pow2(k) - 1 == m;
      assert m / 2 == half - 1 && m % 2 == 1;
      assert And(x, m) == 2 * And(x / 2, half - 1) + x % 2;
      AndLowMask(x / 2, k - 1);
      RemainderOfDouble(x, half);
    }
  }
}
