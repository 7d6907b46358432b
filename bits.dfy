/** Bitwise AND on non-negative integers, used by the power-of-two branch of the length macro. */
module Bits {

  /** `a & b`, computed from the least significant bit upwards. */
  function BitAnd(a: nat, b: nat): (r: nat)
    ensures r <= a && r <= b
  {
    if a == 0 || b == 0 then 0
    else 2 * BitAnd(a / 2, b / 2) + (if a % 2 == 1 && b % 2 == 1 then 1 else 0)
  }

  /** `m` is 2^k for some k >= 0. */
  predicate IsPowerOfTwo(m: nat)
  {
    if m <= 1 then m == 1 else m % 2 == 0 && IsPowerOfTwo(m / 2)
  }

  lemma {:induction false} BitAndSelf(a: nat)
    ensures BitAnd(a, a) == a
  {
    if a > 0 {
      BitAndSelf(a / 2);
    }
  }

  /** The preprocessor test `(m & (m - 1)) == 0` recognises exactly the powers of two. */
  lemma {:induction false} PowerOfTwoTest(m: nat)
    requires m >= 1
    ensures BitAnd(m, m - 1) == 0 <==> IsPowerOfTwo(m)
  {
    if m > 1 {
      var h := m / 2;
      if m % 2 == 0 {
        DivModUnique(m - 1, 2, h - 1, 1);
        assert BitAnd(m, m - 1) == 2 * BitAnd(h, h - 1);
        PowerOfTwoTest(h);
      } else {
        DivModUnique(m - 1, 2, h, 0);
        assert BitAnd(m, m - 1) == 2 * BitAnd(h, h);
        BitAndSelf(h);
      }
    }
  }

  /** Euclidean division is unique. */
  lemma DivModUnique(n: int, d: int, q: int, r: int)
    requires d > 0 && n == d * q + r && 0 <= r < d
    ensures n / d == q && n % d == r
  {
    var x := q - n / d;
    assert d * x == n % d - r;
  }

  /** The remainder modulo `2h` from the remainder of the halved value modulo `h`. */
  lemma ModOfDouble(n: nat, h: nat)
    requires h >= 1
    ensures n % (2 * h) == 2 * ((n / 2) % h) + n % 2
  {
    var q, b := n / 2, n % 2;
    var s, t := q / h, q % h;
    assert n == 2 * h * s + (2 * t + b);
    DivModUnique(n, 2 * h, s, 2 * t + b);
  }

  /** Masking with `m - 1` keeps the remainder modulo a power of two `m`. */
  lemma {:induction false} BitAndLowMask(n: nat, m: nat)
    requires IsPowerOfTwo(m)
    ensures BitAnd(n, m - 1) == n % m
  {
    if m == 1 {
      assert BitAnd(n, 0) == 0;
    } else if n == 0 {
      assert BitAnd(0, m - 1) == 0;
    } else {
      var h := m / 2;
      assert m == 2 * h && IsPowerOfTwo(h);
      assert (m - 1) / 2 == h - 1 && (m - 1) % 2 == 1;
      assert BitAnd(n, m - 1) == 2 * BitAnd(n / 2, h - 1) + n % 2;
      BitAndLowMask(n / 2, h);
      ModOfDouble(n, h);
    }
  }
}
