/** Bitwise operations, on the binary digits of natural numbers. */
module Bits {
  import opened Utf8

  function Pow2(k: nat): (p: nat)
    ensures p > 0
  {
    if k == 0 then 1 else 2 * Pow2(k - 1)
  }

  lemma {:induction false} Pow2Values()
    ensures Pow2(1) == 0x02 && Pow2(2) == 0x04 && Pow2(3) == 0x08 && Pow2(4) == 0x10
    ensures Pow2(5) == 0x20 && Pow2(6) == 0x40 && Pow2(7) == 0x80 && Pow2(8) == 0x100
  {
    assert Pow2(4) == 0x10;
  }

  /** a & b */
  function And(a: nat, b: nat): (r: nat)
    ensures r <= a && r <= b
  {
    if a == 0 || b == 0 then 0
    else (if a % 2 == 1 && b % 2 == 1 then 1 else 0) + 2 * And(a / 2, b / 2)
  }

  /** a | b */
  function Or(a: nat, b: nat): (r: nat)
    ensures r == 0 <==> a == 0 && b == 0
    decreases a + b
  {
    if a == 0 && b == 0 then 0
    else (if a % 2 == 1 || b % 2 == 1 then 1 else 0) + 2 * Or(a / 2, b / 2)
  }

  lemma {:induction false} AndOdd(m: nat, b: nat)
    ensures And(2 * m + 1, b) == b % 2 + 2 * And(m, b / 2)
  {
  }

  lemma {:induction false} AndEven(m: nat, b: nat)
    ensures And(2 * m, b) == 2 * And(m, b / 2)
  {
  }

  lemma {:induction false} AndSelf(a: nat)
    ensures And(a, a) == a
  {
    if a > 0 { AndSelf(a / 2); }
  }

  lemma {:induction false} MoreQuotient(m: nat, q: nat, more: nat)
    requires more > 0
    ensures m * (q + more) >= m * q + m
  {
    assert m * (q + more) == m * q + m * more;
    assert m * more == m * (more - 1) + m;
  }

  lemma {:induction false} RemainderUnique(n: nat, m: nat, q: nat, r: nat)
    requires r < m && n == m * q + r
    ensures n % m == r
  {
    var q' := n / m;
    if q' < q {
      MoreQuotient(m, q', q - q');
    } else if q < q' {
      MoreQuotient(m, q, q' - q);
    }
  }

  lemma {:induction false} RemainderByDouble(b: nat, p: nat)
    requires p > 0
    ensures b % (2 * p) == b % 2 + 2 * (b / 2 % p)
  {
    var q, r := b / 2 / p, b / 2 % p;
    assert b / 2 == p * q + r;
    assert (2 * p) * q == 2 * (p * q);
    RemainderUnique(b, 2 * p, q, b % 2 + 2 * r);
  }

  /** A mask of the k low bits takes the remainder by 2^k. */
  lemma {:induction false} LowMask(k: nat, b: nat)
    ensures And(Pow2(k) - 1, b) == b % Pow2(k)
  {
    if k > 0 {
      var p := Pow2(k - 1);
      LowMask(k - 1, b / 2);
      AndOdd(p - 1, b);
      RemainderByDouble(b, p);
    }
  }

  /** A mask of one bit finds it as the top bit of a number. */
  lemma {:induction false} TopBit(k: nat, b: nat)
    requires b < 2 * Pow2(k)
    ensures And(Pow2(k), b) == 0 <==> b < Pow2(k)
  {
    if k == 0 {
      LowMask(1, b);
    } else {
      AndEven(Pow2(k - 1), b);
      TopBit(k - 1, b / 2);
    }
  }

  /** Digits that do not overlap: x below bit k, y from bit k on. */
  lemma {:induction false} OrDisjoint(k: nat, x: nat, y: nat)
    requires x < Pow2(k)
    ensures Or(x, Pow2(k) * y) == x + Pow2(k) * y
  {
    if k == 0 {
      OrZero(y);
    } else {
      var half := Pow2(k - 1) * y;
      assert Pow2(k) * y == 2 * half;
      OrDisjoint(k - 1, x / 2, y);
      OrHalves(x, 2 * half);
    }
  }

  lemma {:induction false} OrZero(y: nat)
    ensures Or(0, y) == y
  {
    if y > 0 { OrZero(y / 2); }
  }

  lemma {:induction false} OrHalves(a: nat, b: nat)
    ensures Or(a, b) == (if a % 2 == 1 || b % 2 == 1 then 1 else 0) + 2 * Or(a / 2, b / 2)
  {
  }

  lemma {:induction false} OrBelow(k: nat, a: nat, b: nat)
    requires a < Pow2(k) && b < Pow2(k)
    ensures Or(a, b) < Pow2(k)
  {
    if k > 0 { OrBelow(k - 1, a / 2, b / 2); }
  }

  function OrByte(a: Byte, b: Byte): (r: Byte)
    ensures r == 0 <==> a == 0 && b == 0
  {
    Pow2Values();
    OrBelow(8, a, b);
    Or(a, b)
  }
}
