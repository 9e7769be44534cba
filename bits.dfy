/** The C bitwise operators & and ^ on unsigned integers, bit by bit */
module Bitwise {

  /** 2 to the power k */
  function Pow2(k: nat): (r: nat)
    ensures r >= 1
  {
    if k == 0 then 1 else 2 * Pow2(k - 1)
  }

  /** The powers of two that name the C integer widths used here */
  lemma Pow2Widths()
    ensures Pow2(1) == 2 && Pow2(7) == 0x80 && Pow2(8) == 0x100
    ensures Pow2(15) == 0x8000 && Pow2(16) == 0x1_0000
  {
    assert Pow2(1) == 2;
    assert Pow2(4) == 16;
    assert Pow2(7) == 0x80;
    assert Pow2(8) == 0x100;
    assert Pow2(12) == 0x1000;
  }

  /** Eight more bits multiply the range by 256 */
  lemma {:induction false} Pow2Plus8(k: nat)
    ensures Pow2(k + 8) == 256 * Pow2(k)
  {
    if k == 0 {
      Pow2Widths();
    } else {
      Pow2Plus8(k - 1);
    }
  }

  /** a & b */
  function And(a: nat, b: nat): nat
  {
    if a == 0 || b == 0 then 0
    else (if a % 2 == 1 && b % 2 == 1 then 1 else 0) + 2 * And(a / 2, b / 2)
  }

  /** a ^ b */
  function Xor(a: nat, b: nat): nat
    decreases a + b
  {
    if a == 0 && b == 0 then 0
    else (if a % 2 != b % 2 then 1 else 0) + 2 * Xor(a / 2, b / 2)
  }

  /** Masking with the k low bits keeps the remainder modulo 2^k */
  lemma {:induction false} AndLowBits(x: nat, k: nat)
    ensures And(x, Pow2(k) - 1) == x % Pow2(k)
  {
    if k == 0 {
      assert Pow2(k) == 1;
    } else if x == 0 {
      ModUnique(0, Pow2(k), 0, 0);
    } else {
      var p := Pow2(k - 1);
      var m := 2 * p - 1;
      assert Pow2(k) - 1 == m;
      assert m % 2 == 1 && m / 2 == p - 1;
      AndLowBits(x / 2, k - 1);
      assert And(x / 2, m / 2) == (x / 2) % p;
      assert And(x, m) == x % 2 + 2 * ((x / 2) % p);
      DivModStep(x, p);
      assert x % Pow2(k) == x % (2 * p);
    }
  }

  /** x mod 2q, from x mod 2 and (x / 2) mod q */
  lemma DivModStep(x: nat, q: nat)
    requires q > 0
    ensures x % (2 * q) == x % 2 + 2 * ((x / 2) % q)
  {
    var a, r := x / 2, x % 2;
    var b, s := a / q, a % q;
    assert x == (2 * q) * b + (r + 2 * s);
    ModUnique(x, 2 * q, b, r + 2 * s);
  }

  /** The remainder is the only r in [0, n) with x == n * b + r */
  lemma ModUnique(x: nat, n: nat, b: int, r: int)
    requires n > 0 && 0 <= r < n && x == n * b + r
    ensures x % n == r
  {
    var d := x / n - b;
    assert n * d == r - x % n by {
      assert n * (x / n) + x % n == x;
      assert n * d == n * (x / n) - n * b;
    }
    MulAwayFromZero(n, d);
  }

  /** A nonzero multiple of n is at least n away from zero */
  lemma {:induction false} MulAwayFromZero(n: int, d: int)
    requires n > 0
    ensures d > 0 ==> n * d >= n
    ensures d < 0 ==> n * d <= -n
    decreases if d < 0 then -d else d
  {
    if d > 1 {
      MulAwayFromZero(n, d - 1);
      assert n * d == n * (d - 1) + n;
    } else if d < -1 {
      MulAwayFromZero(n, d + 1);
      assert n * d == n * (d + 1) - n;
    }
  }

  /** a & b is no larger than a */
  lemma {:induction false} AndAtMost(a: nat, b: nat)
    ensures And(a, b) <= a
  {
    if a > 0 && b > 0 {
      AndAtMost(a / 2, b / 2);
    }
  }

  /** The xor of two k-bit values is a k-bit value */
  lemma {:induction false} XorBelow(a: nat, b: nat, k: nat)
    requires a < Pow2(k) && b < Pow2(k)
    ensures Xor(a, b) < Pow2(k)
    decreases k
  {
    if k > 0 && (a > 0 || b > 0) {
      XorBelow(a / 2, b / 2, k - 1);
    }
  }
}
