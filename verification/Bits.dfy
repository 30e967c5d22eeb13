/** Bitwise operators on naturals, n bits at a time. */
module Bits {
  import opened Bytes

  function Pow2(n: nat): (p: nat)
    ensures p > 0
  {
    if n == 0 then 1 else 2 * Pow2(n - 1)
  }

  function Xor(a: nat, b: nat, n: nat): (r: nat)
    ensures r < Pow2(n)
  {
    if n == 0 then 0 else (if a % 2 != b % 2 then 1 else 0) + 2 * Xor(a / 2, b / 2, n - 1)
  }

  function And(a: nat, b: nat, n: nat): (r: nat)
    ensures r < Pow2(n)
  {
    if n == 0 then 0 else (if a % 2 == 1 && b % 2 == 1 then 1 else 0) + 2 * And(a / 2, b / 2, n - 1)
  }

  /** ~a in n bits. */
  function Not(a: nat, n: nat): (r: nat)
    requires a < Pow2(n)
    ensures r < Pow2(n)
  {
    Pow2(n) - 1 - a
  }

  /** Bit k of a. */
  function Bit(a: nat, k: nat): nat { if k == 0 then a % 2 else Bit(a / 2, k - 1) }

  lemma {:induction false} XorBits(a: nat, b: nat, n: nat, k: nat)
    requires k < n
    ensures Bit(Xor(a, b, n), k) == if Bit(a, k) != Bit(b, k) then 1 else 0
  {
    XorHalf(a, b, n);
    if k > 0 {
      hide Xor;
      XorBits(a / 2, b / 2, n - 1, k - 1);
    }
  }

  lemma {:induction false} AndBits(a: nat, b: nat, n: nat, k: nat)
    requires k < n
    ensures Bit(And(a, b, n), k) == if Bit(a, k) == 1 && Bit(b, k) == 1 then 1 else 0
  {
    AndHalf(a, b, n);
    if k > 0 {
      hide And;
      AndBits(a / 2, b / 2, n - 1, k - 1);
    }
  }

  lemma AndHalf(a: nat, b: nat, n: nat)
    requires n > 0
    ensures And(a, b, n) % 2 == (if a % 2 == 1 && b % 2 == 1 then 1 else 0)
    ensures And(a, b, n) / 2 == And(a / 2, b / 2, n - 1)
  {
  }

  lemma Pow2Values()
    ensures Pow2(8) == 256 && Pow2(16) == 65536 && Pow2(32) == TWO_32
  {
    assert Pow2(8) == 256;
    assert Pow2(16) == 65536;
    assert Pow2(24) == 0x100_0000;
    assert Pow2(32) == 256 * Pow2(24);
  }

  lemma XorHalf(a: nat, b: nat, n: nat)
    requires n > 0
    ensures Xor(a, b, n) % 2 == 0 <==> a % 2 == b % 2
    ensures Xor(a, b, n) / 2 == Xor(a / 2, b / 2, n - 1)
  {
  }

  lemma {:induction false} XorInjective(a: nat, b: nat, c: nat, n: nat)
    requires b < Pow2(n) && c < Pow2(n) && Xor(a, b, n) == Xor(a, c, n)
    ensures b == c
  {
    if n > 0 {
      XorHalf(a, b, n);
      XorHalf(a, c, n);
      hide Xor;
      XorInjective(a / 2, b / 2, c / 2, n - 1);
    }
  }

  lemma {:induction false} XorSymmetric(a: nat, b: nat, n: nat)
    ensures Xor(a, b, n) == Xor(b, a, n)
  {
    if n > 0 {
      XorSymmetric(a / 2, b / 2, n - 1);
    }
  }

  lemma {:induction false} XorZero(a: nat, n: nat)
    requires a < Pow2(n)
    ensures Xor(0, a, n) == a
  {
    if n > 0 {
      XorZero(a / 2, n - 1);
    }
  }

  /** x ^ y == z ^ w exactly when x ^ z == y ^ w. */
  lemma {:induction false} XorSwap(x: nat, y: nat, z: nat, w: nat, n: nat)
    ensures Xor(x, y, n) == Xor(z, w, n) <==> Xor(x, z, n) == Xor(y, w, n)
  {
    if n > 0 {
      XorSwap(x / 2, y / 2, z / 2, w / 2, n - 1);
    }
  }

  /** One more low bit. */
  lemma XorUp(u: nat, v: nat, b: nat, d: nat, n: nat, k: nat, high: nat)
    requires n > 0 && k > 0 && Xor(u + b / 2, v + d / 2, n - 1) == high + Xor(b / 2, d / 2, k - 1)
    ensures Xor(2 * u + b, 2 * v + d, n) == 2 * high + Xor(b, d, k)
  {
    assert (2 * u + b) / 2 == u + b / 2 && (2 * v + d) / 2 == v + d / 2;
  }

  lemma XorTwoUp(u: nat, v: nat, b: nat, d: nat, b4: nat, d4: nat, n: nat, k: nat, high: nat)
    requires n > 1 && k > 1 && 4 * b4 <= b < 4 * b4 + 4 && 4 * d4 <= d < 4 * d4 + 4
    requires Xor(u + b4, v + d4, n - 2) == high + Xor(b4, d4, k - 2)
    ensures Xor(4 * u + b, 4 * v + d, n) == 4 * high + Xor(b, d, k)
  {
    hide Xor;
    assert b / 2 / 2 == b4 && d / 2 / 2 == d4;
    XorUp(u, v, b / 2, d / 2, n - 1, k - 1, high);
    XorUp(2 * u, 2 * v, b, d, n, k, 2 * high);
  }

  lemma XorLowTwo(a: nat, b: nat, c: nat, d: nat)
    requires b < 4 && d < 4
    ensures Xor(4 * a + b, 4 * c + d, 6) == 4 * Xor(a, c, 4) + Xor(b, d, 2)
  {
    assert Xor(0, 0, 0) == 0;
    hide *;
    XorTwoUp(a, c, b, d, 0, 0, 6, 2, Xor(a, c, 4));
  }

  /** The low and the high four bits are combined on their own. */
  lemma XorHalves(a: nat, b: nat, c: nat, d: nat)
    requires b < 16 && d < 16
    ensures Xor(16 * a + b, 16 * c + d, 8) == 16 * Xor(a, c, 4) + Xor(b, d, 4)
  {
    hide *;
    var b4, d4 := b / 4, d / 4;
    XorLowTwo(a, b4, c, d4);
    XorTwoUp(4 * a, 4 * c, b, d, b4, d4, 8, 4, 4 * Xor(a, c, 4));
  }

  /** An erased (all-ones) cell takes exactly the value written to it. */
  lemma {:induction false} AndOnes(a: nat, n: nat)
    requires a < Pow2(n)
    ensures And(Pow2(n) - 1, a, n) == a
  {
    if n > 0 {
      AndOnes(a / 2, n - 1);
      assert (Pow2(n) - 1) / 2 == Pow2(n - 1) - 1;
    }
  }

  /** Masking with ~(2^k - 1) rounds down to a multiple of 2^k. */
  lemma {:induction false} MaskRoundsDown(a: nat, k: nat, n: nat)
    requires k <= n && a < Pow2(n)
    ensures Pow2(k) <= Pow2(n)
    ensures And(a, Not(Pow2(k) - 1, n), n) == a - a % Pow2(k)
  {
    hide *;
    Pow2Monotone(k, n);
    if k == 0 {
      MaskNothing(a, n);
    } else {
      HalfBelow(a, n);
      NotDoubled(k, n);
      var half, p := a / 2, Pow2(k - 1);
      MaskRoundsDown(half, k - 1, n - 1);
      var mask := Not(p - 1, n - 1);
      assert And(half, mask, n - 1) == half - half % p;
      AndEven(a, mask, n);
      DoubledRemainder(a, half, p, Pow2(k));
    }
  }

  lemma MaskNothing(a: nat, n: nat)
    requires a < Pow2(n)
    ensures And(a, Not(Pow2(0) - 1, n), n) == a - a % Pow2(0)
  {
    AllOnesMask(a, n);
  }

  lemma HalfBelow(a: nat, n: nat)
    requires n > 0 && a < Pow2(n)
    ensures a / 2 < Pow2(n - 1)
  {
  }

  lemma NotDoubled(k: nat, n: nat)
    requires 0 < k <= n
    ensures Pow2(k) <= Pow2(n) && Pow2(k - 1) <= Pow2(n - 1) && Pow2(k) == 2 * Pow2(k - 1)
    ensures Not(Pow2(k) - 1, n) == 2 * Not(Pow2(k - 1) - 1, n - 1)
  {
    Pow2Monotone(k - 1, n - 1);
  }

  lemma DoubledRemainder(a: nat, half: nat, p: nat, q: nat)
    requires p > 0 && q == 2 * p && half == a / 2
    ensures 2 * (half - half % p) == a - a % q
  {
    ModDouble(a, p);
  }

  lemma AndEven(a: nat, h: nat, n: nat)
    requires n > 0
    ensures And(a, 2 * h, n) == 2 * And(a / 2, h, n - 1)
  {
    hide And;
    assert 2 * h % 2 == 0 && 2 * h / 2 == h;
    AndHalf(a, 2 * h, n);
  }

  lemma {:induction false} Pow2Monotone(k: nat, n: nat)
    requires k <= n
    ensures Pow2(k) <= Pow2(n)
  {
    if k < n { Pow2Monotone(k, n - 1); }
  }

  lemma {:induction false} AllOnesMask(a: nat, n: nat)
    requires a < Pow2(n)
    ensures And(a, Pow2(n) - 1, n) == a
  {
    if n > 0 {
      AllOnesMask(a / 2, n - 1);
      assert (Pow2(n) - 1) / 2 == Pow2(n - 1) - 1;
    }
  }

  lemma ModDouble(a: nat, p: nat)
    requires p > 0
    ensures a % (2 * p) == 2 * (a / 2 % p) + a % 2
  {
    var q, r := a / 2 / p, a / 2 % p;
    assert a / 2 == q * p + r;
    assert a == q * (2 * p) + (2 * r + a % 2);
    ModUnique(a, 2 * p, q, 2 * r + a % 2);
  }

  lemma MulOrder(x: nat, y: nat, m: nat)
    ensures x < y ==> (x + 1) * m <= y * m
  {
    if x < y {
      assert y * m == (x + 1) * m + (y - x - 1) * m;
    }
  }

  lemma MultiplesInOrder(x: nat, y: nat, m: nat)
    ensures x < y ==> x * m + m <= y * m
    ensures y <= x ==> y * m <= x * m
  {
    assert (x + 1) * m == x * m + m && (y + 1) * m == y * m + m;
    MulOrder(x, y, m);
    MulOrder(y, x, m);
  }

  lemma ModUnique(a: nat, m: nat, q: nat, r: nat)
    requires m > 0 && r < m && a == q * m + r
    ensures a % m == r && a / m == q
  {
    MulOrder(a / m, q, m);
    MulOrder(q, a / m, m);
    assert a == (a / m) * m + a % m;
  }
}
