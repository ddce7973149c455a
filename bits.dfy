/** Bit arithmetic on non-negative integers, as Python does it on `int`:
    `m >> k & 1`, `bin(m).count('1')` and `m | (1 << k)`. */
module Bits {

  /** 2 ** k, that is 1 << k. */
  function Pow2(k: nat): (r: nat)
    ensures r >= 1
  {
    if k == 0 then 1 else 2 * Pow2(k - 1)
  }

  /** Bit k of m is set (bit 0 is the least significant). */
  predicate Bit(m: nat, k: nat)
  {
    if k == 0 then m % 2 == 1 else Bit(m / 2, k - 1)
  }

  /** Number of set bits of m. */
  function Popcount(m: nat): nat
  {
    if m == 0 then 0 else m % 2 + Popcount(m / 2)
  }

  /** m | (1 << k). */
  function SetBit(m: nat, k: nat): nat
  {
    if k == 0 then (if m % 2 == 1 then m else m + 1)
    else 2 * SetBit(m / 2, k - 1) + m % 2
  }

  lemma {:induction false} ZeroHasNoBits(k: nat)
    ensures !Bit(0, k)
  {
    if k > 0 { ZeroHasNoBits(k - 1); }
  }

  /** A number is determined by its bits. */
  lemma {:induction false} BitsDetermine(m: nat, n: nat)
    requires forall k: nat :: Bit(m, k) == Bit(n, k)
    ensures m == n
    decreases m + n
  {
    if m + n > 0 {
      assert Bit(m, 0) == Bit(n, 0);
      forall k: nat ensures Bit(m / 2, k) == Bit(n / 2, k) {
        assert Bit(m, k + 1) == Bit(n, k + 1);
      }
      BitsDetermine(m / 2, n / 2);
    }
  }

  /** SetBit(m, k) has exactly the bits of m plus bit k: it is m | (1 << k). */
  lemma {:induction false} BitOfSetBit(m: nat, k: nat, j: nat)
    ensures Bit(SetBit(m, k), j) <==> Bit(m, j) || j == k
  {
    if k == 0 {
      if j > 0 {
        assert SetBit(m, k) / 2 == m / 2;
      }
    } else {
      var r := SetBit(m / 2, k - 1);
      assert SetBit(m, k) == 2 * r + m % 2;
      if j > 0 {
        assert (2 * r + m % 2) / 2 == r;
        BitOfSetBit(m / 2, k - 1, j - 1);
      }
    }
  }

  /** Setting a bit already set changes nothing. */
  lemma SetBitIdempotent(m: nat, k: nat)
    requires Bit(m, k)
    ensures SetBit(m, k) == m
  {
    forall j: nat ensures Bit(SetBit(m, k), j) == Bit(m, j) {
      BitOfSetBit(m, k, j);
    }
    BitsDetermine(SetBit(m, k), m);
  }

  /** Setting two bits in either order gives the same number. */
  lemma SetBitCommutes(m: nat, k1: nat, k2: nat)
    ensures SetBit(SetBit(m, k1), k2) == SetBit(SetBit(m, k2), k1)
  {
    forall j: nat ensures Bit(SetBit(SetBit(m, k1), k2), j) == Bit(SetBit(SetBit(m, k2), k1), j) {
      BitOfSetBit(m, k1, j);
      BitOfSetBit(SetBit(m, k1), k2, j);
      BitOfSetBit(m, k2, j);
      BitOfSetBit(SetBit(m, k2), k1, j);
    }
    BitsDetermine(SetBit(SetBit(m, k1), k2), SetBit(SetBit(m, k2), k1));
  }

  /** 1 << k has bit k and no other. */
  lemma {:induction false} BitOfPow2(k: nat, j: nat)
    ensures Bit(Pow2(k), j) <==> j == k
  {
    if k == 0 {
      if j > 0 { ZeroHasNoBits(j - 1); }
    } else if j > 0 {
      assert Pow2(k) / 2 == Pow2(k - 1);
      BitOfPow2(k - 1, j - 1);
    }
  }

  /** 0 | (1 << k) == 1 << k. */
  lemma SetBitOfZero(k: nat)
    ensures SetBit(0, k) == Pow2(k)
  {
    forall j: nat ensures Bit(SetBit(0, k), j) == Bit(Pow2(k), j) {
      BitOfSetBit(0, k, j);
      ZeroHasNoBits(j);
      BitOfPow2(k, j);
    }
    BitsDetermine(SetBit(0, k), Pow2(k));
  }

  /** m % (1 << w) keeps exactly the bits of m below w. */
  lemma {:induction false} BitOfLowBits(m: nat, w: nat, k: nat)
    ensures Bit(m % Pow2(w), k) <==> k < w && Bit(m, k)
  {
    if w == 0 {
      ZeroHasNoBits(k);
    } else {
      var p := Pow2(w - 1);
      var q := m / 2;
      assert Pow2(w) == 2 * p;
      LowBitsStep(m, p);
      assert m % Pow2(w) == 2 * (q % p) + m % 2;
      if k > 0 {
        assert (m % Pow2(w)) / 2 == q % p;
        BitOfLowBits(q, w - 1, k - 1);
      }
    }
  }

  /** m % (2p) == 2 * ((m / 2) % p) + m % 2. */
  lemma LowBitsStep(m: nat, p: nat)
    requires p > 0
    ensures m % (2 * p) == 2 * ((m / 2) % p) + m % 2
  {
    var q := m / 2;
    var a := q / p;
    var b := q % p;
    assert q == a * p + b;
    assert (2 * p) * a == 2 * (a * p);
    assert m == a * (2 * p) + (2 * b + m % 2);
    DivModUnique(m, 2 * p, a, 2 * b + m % 2);
  }

  /** Quotient and remainder are unique. */
  lemma DivModUnique(m: int, d: int, a: int, r: int)
    requires d > 0 && 0 <= r < d && m == a * d + r
    ensures m / d == a && m % d == r
  {
    var q, t := m / d, m % d;
    assert m == q * d + t;
    assert (q - a) * d == r - t;
    assert (a - q) * d == t - r;
    MulAtLeast(q - a, d);
    MulAtLeast(a - q, d);
  }

  lemma {:induction false} MulAtLeast(k: int, d: int)
    requires d >= 0
    ensures k >= 1 ==> k * d >= d
    decreases if k < 0 then 0 else k
  {
    if k > 1 {
      MulAtLeast(k - 1, d);
      assert k * d == (k - 1) * d + d;
    }
  }
}
