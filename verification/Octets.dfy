/** Bytes, and bitwise operations on unsigned numbers. */
module Octets {

  type Byte = x: int | 0 <= x < 256

  function Xor(a: nat, b: nat): nat {
    if a == 0 && b == 0 then 0
    else 2 * Xor(a / 2, b / 2) + if a % 2 != b % 2 then 1 else 0
  }

  function Or(a: nat, b: nat): nat {
    if a == 0 && b == 0 then 0
    else 2 * Or(a / 2, b / 2) + if a % 2 == 1 || b % 2 == 1 then 1 else 0
  }

  lemma {:induction false} XorIsZero(a: nat, b: nat)
    ensures Xor(a, b) == 0 <==> a == b
  {
    if a != 0 || b != 0 {
      XorIsZero(a / 2, b / 2);
    }
  }

  lemma {:induction false} OrIsZero(a: nat, b: nat)
    ensures Or(a, b) == 0 <==> a == 0 && b == 0
  {
    if a != 0 || b != 0 {
      OrIsZero(a / 2, b / 2);
    }
  }

  function And(a: nat, b: nat): nat {
    if a == 0 || b == 0 then 0
    else 2 * And(a / 2, b / 2) + if a % 2 == 1 && b % 2 == 1 then 1 else 0
  }

  /** Adding bit by bit: the sum without carries, the carries, and both. */
  lemma {:induction false} XorAddsWithoutCarry(a: nat, b: nat)
    ensures a + b == Xor(a, b) + 2 * And(a, b)
    ensures Or(a, b) == Xor(a, b) + And(a, b)
  {
    if a == 0 || b == 0 {
      XorZero(a, b);
    } else {
      XorAddsWithoutCarry(a / 2, b / 2);
    }
  }

  lemma {:induction false} XorZero(a: nat, b: nat)
    requires a == 0 || b == 0
    ensures Xor(a, b) == a + b && Or(a, b) == a + b
  {
    if a != 0 || b != 0 {
      XorZero(a / 2, b / 2);
    }
  }

  function Pow2(n: nat): (p: nat)
    ensures p > 0
  {
    if n == 0 then 1 else 2 * Pow2(n - 1)
  }

  lemma HalfOfQuotient(v: nat, p: nat)
    requires p > 0
    ensures v / 2 / p == v / (2 * p)
    ensures v % (2 * p) / 2 == v / 2 % p
    ensures v % (2 * p) % 2 == v % 2
  {
    var q, r := v / (2 * p), v % (2 * p);
    assert v == 2 * p * q + r;
    assert v / 2 == p * q + r / 2 by {
      assert v == 2 * (p * q) + r;
    }
    assert v / 2 == q * p + r / 2 && 0 <= r / 2 < p;
    DivModUnique(v / 2, p, q, r / 2);
    assert v % 2 == (2 * (p * q) + r) % 2;
  }

  lemma DivModUnique(x: nat, p: nat, q: nat, r: nat)
    requires p > 0 && x == q * p + r && r < p
    ensures x / p == q && x % p == r
  {
    var d := x / p - q;
    assert x == p * (x / p) + x % p;
    assert p * d == r - x % p;
    assert d >= 1 ==> p * d >= p;
    assert d <= -1 ==> p * d + p <= 0;
  }

  lemma {:induction false} OrZero(a: nat)
    ensures Or(a, 0) == a
  {
    if a != 0 {
      OrZero(a / 2);
    }
  }

  /** Bits that do not overlap are added. */
  lemma {:induction false} OrAdds(h: nat, x: nat, k: nat)
    requires h % Pow2(k) == 0 && x < Pow2(k)
    ensures Or(h, x) == h + x
  {
    if k == 0 {
      OrZero(h);
    } else if h != 0 || x != 0 {
      HalfOfQuotient(h, Pow2(k - 1));
      OrAdds(h / 2, x / 2, k - 1);
    }
  }

  /** A mask of `k` ones keeps the `k` low bits. */
  lemma {:induction false} AndMasks(v: nat, k: nat)
    ensures And(v, Pow2(k) - 1) == v % Pow2(k)
  {
    if k > 0 {
      HalfOfQuotient(v, Pow2(k - 1));
      AndMasks(v / 2, k - 1);
    }
  }
}
