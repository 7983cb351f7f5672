/**
 * Arithmetic view of the bit operations the UVM toolchain applies to Python
 * integers.  Every value the toolchain packs is non-negative after masking,
 * so instruction words are natural numbers and
 *   x << k         is  x * 2^k,
 *   x >> k         is  x / 2^k      (floor division, as in Python),
 *   x & (2^k - 1)  is  x % 2^k      (Dafny's `%` is Euclidean, which is
 *                                    what Python's `&` gives for negative x),
 *   x | y          is  Or(x, y), defined bit by bit below.
 * The module also holds fixed-width big-endian digit strings, used for the
 * 8-byte wire format and the 16-digit hexadecimal trace.
 */
module Bits {

  /** 2^k */
  function Pow2(k: nat): (r: nat)
    ensures r >= 1
  {
    if k == 0 then 1 else 2 * Pow2(k - 1)
  }

  /** base^n */
  function Power(base: nat, n: nat): (r: nat)
    requires base >= 1
    ensures r >= 1
  {
    if n == 0 then 1 else Power(base, n - 1) * base
  }

  /** Python's `x | y` on non-negative integers. */
  function Or(x: nat, y: nat): nat
    decreases x + y
  {
    if x == 0 && y == 0 then 0
    else 2 * Or(x / 2, y / 2) + (if x % 2 == 1 || y % 2 == 1 then 1 else 0)
  }

  // ---------------------------------------------------------------------------
  // Division with remainder

  lemma MulAtLeast(a: int, m: int)
    requires a >= 1 && m >= 0
    ensures a * m >= m
  {
    assert a * m == (a - 1) * m + m;
  }

  lemma MulMonotone(a: int, b: int, c: int)
    requires a <= b && c >= 0
    ensures a * c <= b * c
  {
    assert b * c == a * c + (b - a) * c;
  }

  lemma Split(x: int, m: int)
    requires m > 0
    ensures x == (x / m) * m + x % m && 0 <= x % m < m
  {
  }

  lemma Regroup(q: int, b: int, r: int, a: int, s: int)
    ensures (q * b + r) * a + s == q * (a * b) + (r * a + s)
  {
  }

  /** A quotient and remainder that fit are the ones `/` and `%` compute. */
  lemma DivModUnique(x: int, m: int, q: int, r: int)
    requires m > 0 && 0 <= r < m && x == q * m + r
    ensures x / m == q && x % m == r
  {
    var q', r' := x / m, x % m;
    assert x == q' * m + r';
    assert (q' - q) * m == r - r';
    if q' > q {
      MulAtLeast(q' - q, m);
    } else if q' < q {
      MulAtLeast(q - q', m);
    }
  }

  /** Dividing by a and then by b is dividing by a * b; the remainder is made of both remainders. */
  lemma DivModMul(x: int, a: int, b: int)
    requires a > 0 && b > 0
    ensures x / a / b == x / (a * b)
    ensures x % (a * b) == (x / a % b) * a + x % a
  {
    var q, r1 := x / a, x % a;
    var q2, r2 := q / b, q % b;
    Split(x, a);
    Split(q, b);
    Regroup(q2, b, r2, a, r1);
    MulMonotone(r2, b - 1, a);
    assert (b - 1) * a == a * b - a;
    DivModUnique(x, a * b, q2, r2 * a + r1);
  }

  /** A value below m is its own remainder. */
  lemma ModSmall(x: int, m: int)
    requires 0 <= x < m
    ensures x % m == x && x / m == 0
  {
    DivModUnique(x, m, 0, x);
  }

  lemma Pow2Add(j: nat, k: nat)
    ensures Pow2(j + k) == Pow2(j) * Pow2(k)
  {
    if k > 0 {
      Pow2Add(j, k - 1);
    }
  }

  lemma Pow2Monotone(j: nat, k: nat)
    requires j <= k
    ensures Pow2(j) <= Pow2(k)
  {
    if j < k {
      Pow2Monotone(j, k - 1);
    }
  }

  /** The widths the instruction format uses, as numbers. */
  lemma Pow2Values()
    ensures Pow2(2) == 4 && Pow2(3) == 8 && Pow2(6) == 64
    ensures Pow2(15) == 0x8000 && Pow2(20) == 0x10_0000 && Pow2(21) == 0x20_0000
    ensures Pow2(41) == 0x200_0000_0000 && Pow2(43) == 0x800_0000_0000
    ensures Pow2(61) == 0x2000_0000_0000_0000 && Pow2(64) == 0x1_0000_0000_0000_0000
  {
    assert Pow2(5) == 32;
    Pow2Add(5, 5);
    Pow2Add(10, 5);
    Pow2Add(15, 5);
    Pow2Add(20, 1);
    Pow2Add(20, 20);
    Pow2Add(40, 1);
    Pow2Add(41, 2);
    Pow2Add(41, 20);
    Pow2Add(61, 3);
  }

  /** The bound of an unsigned 64-bit word. */
  lemma WordLimit()
    ensures Pow2(64) == 0x1_0000_0000_0000_0000
  {
    Pow2Values();
  }

  /** Eight bytes and sixteen hexadecimal digits both hold exactly 64 bits. */
  lemma WordPowers()
    ensures Power(256, 8) == 0x1_0000_0000_0000_0000
    ensures Power(16, 16) == 0x1_0000_0000_0000_0000
  {
    assert Power(256, 2) == 0x1_0000;
    assert Power(256, 4) == 0x1_0000_0000;
    assert Power(256, 6) == 0x1_0000_0000_0000;
    assert Power(256, 8) == 0x1_0000_0000_0000_0000;
    assert Power(16, 4) == 0x1_0000;
    assert Power(16, 8) == 0x1_0000_0000;
    assert Power(16, 12) == 0x1_0000_0000_0000;
    assert Power(16, 16) == 0x1_0000_0000_0000_0000;
  }

  /**
   * The low lo + width bits of x are the field of `width` bits at position lo
   * followed by the low lo bits.
   */
  lemma FieldSplit(x: int, lo: nat, width: nat)
    ensures x % Pow2(lo + width) == x / Pow2(lo) % Pow2(width) * Pow2(lo) + x % Pow2(lo)
  {
    Pow2Add(lo, width);
    DivModMul(x, Pow2(lo), Pow2(width));
  }

  // ---------------------------------------------------------------------------
  // Bitwise or

  lemma {:induction false} OrZero(x: nat)
    ensures Or(0, x) == x && Or(x, 0) == x
    decreases x
  {
    if x > 0 {
      OrZero(x / 2);
    }
  }

  lemma {:induction false} OrBound(x: nat, y: nat, k: nat)
    requires x < Pow2(k) && y < Pow2(k)
    ensures Or(x, y) < Pow2(k)
    decreases k
  {
    if k > 0 && (x != 0 || y != 0) {
      OrBound(x / 2, y / 2, k - 1);
    }
  }

  /** The or of two 64-bit values is a 64-bit value. */
  lemma OrWord(x: nat, y: nat)
    requires x < 0x1_0000_0000_0000_0000 && y < 0x1_0000_0000_0000_0000
    ensures Or(x, y) < 0x1_0000_0000_0000_0000
  {
    WordLimit();
    OrBound(x, y, 64);
  }

  /** The defining step of Or holds for every pair, zeros included. */
  lemma OrUnfold(x: nat, y: nat)
    ensures Or(x, y) == 2 * Or(x / 2, y / 2) + (if x % 2 == 1 || y % 2 == 1 then 1 else 0)
  {
  }

  /** `x << k`, written as k doublings so that the proofs about Or stay linear. */
  function Shl(x: nat, k: nat): nat
  {
    if k == 0 then x else 2 * Shl(x, k - 1)
  }

  lemma {:induction false} ShlIsMul(x: nat, k: nat)
    ensures Shl(x, k) == x * Pow2(k)
  {
    if k > 0 {
      ShlIsMul(x, k - 1);
      assert 2 * (x * Pow2(k - 1)) == x * (2 * Pow2(k - 1));
    }
  }

  /**
   * Or works independently on the bits above and below position k:
   * ((x1 << k) + r1) | ((x2 << k) + r2) == ((x1 | x2) << k) + (r1 | r2).
   */
  lemma {:induction false} OrSplit(x1: nat, r1: nat, x2: nat, r2: nat, k: nat)
    requires r1 < Pow2(k) && r2 < Pow2(k)
    ensures Or(Shl(x1, k) + r1, Shl(x2, k) + r2) == Shl(Or(x1, x2), k) + Or(r1, r2)
    decreases k
  {
    if k == 0 {
      OrZero(0);
    } else {
      var u, v := Shl(x1, k) + r1, Shl(x2, k) + r2;
      assert u / 2 == Shl(x1, k - 1) + r1 / 2 && u % 2 == r1 % 2;
      assert v / 2 == Shl(x2, k - 1) + r2 / 2 && v % 2 == r2 % 2;
      OrSplit(x1, r1 / 2, x2, r2 / 2, k - 1);
      OrUnfold(u, v);
      OrUnfold(r1, r2);
    }
  }

  /** Oring a value below 2^k into hi * 2^k + lo only touches lo. */
  lemma OrLow(hi: nat, lo: nat, t: nat, k: nat)
    requires lo < Pow2(k) && t < Pow2(k)
    ensures Or(hi * Pow2(k) + lo, t) == hi * Pow2(k) + Or(lo, t)
  {
    OrSplit(hi, lo, 0, t, k);
    OrZero(hi);
    ShlIsMul(hi, k);
    ShlIsMul(0, k);
  }

  // ---------------------------------------------------------------------------
  // Fixed-width big-endian digit strings

  /** The n lowest base-`base` digits of x, most significant first. */
  function ToDigits(x: nat, base: nat, n: nat): (s: seq<nat>)
    requires base >= 2
    ensures |s| == n
    ensures forall i :: 0 <= i < n ==> s[i] < base
    decreases n
  {
    if n == 0 then [] else ToDigits(x / base, base, n - 1) + [x % base]
  }

  /** The value of a big-endian digit string. */
  function FromDigits(s: seq<nat>, base: nat): nat
  {
    if s == [] then 0 else FromDigits(s[..|s| - 1], base) * base + s[|s| - 1]
  }

  lemma {:induction false} FromDigitsBound(s: seq<nat>, base: nat)
    requires base >= 2
    requires forall i :: 0 <= i < |s| ==> s[i] < base
    ensures FromDigits(s, base) < Power(base, |s|)
  {
    if s != [] {
      var init := s[..|s| - 1];
      FromDigitsBound(init, base);
      var p := Power(base, |init|);
      MulMonotone(FromDigits(init, base), p - 1, base);
      assert (p - 1) * base == p * base - base;
    }
  }

  /** Reading back the n digits written gives x modulo base^n. */
  lemma {:induction false} FromToDigits(x: nat, base: nat, n: nat)
    requires base >= 2
    ensures FromDigits(ToDigits(x, base, n), base) == x % Power(base, n)
    decreases n
  {
    if n == 0 {
      ModSmall(0, 1);
      DivModUnique(x, 1, x, 0);
    } else {
      var q, p := x / base, Power(base, n - 1);
      var t := ToDigits(q, base, n - 1);
      assert ToDigits(x, base, n) == t + [x % base];
      FromDigitsSnoc(t, x % base, base);
      FromToDigits(q, base, n - 1);
      DivModMul(x, base, p);
      MulCommutes(base, p);
    }
  }

  lemma FromDigitsSnoc(s: seq<nat>, d: nat, base: nat)
    ensures FromDigits(s + [d], base) == FromDigits(s, base) * base + d
  {
    assert (s + [d])[..|s|] == s;
  }

  lemma MulCommutes(a: int, b: int)
    ensures a * b == b * a
  {
  }

  /** Digit i of an n-digit string weighs base^(n - 1 - i): the most significant digit comes first. */
  lemma {:induction false} ToDigitsAt(x: nat, base: nat, n: nat, i: nat)
    requires base >= 2 && i < n
    ensures ToDigits(x, base, n)[i] == x / Power(base, n - 1 - i) % base
    decreases n
  {
    if i == n - 1 {
      DivModUnique(x, 1, x, 0);
    } else {
      ToDigitsAt(x / base, base, n - 1, i);
      DivModMul(x, base, Power(base, n - 2 - i));
      MulCommutes(base, Power(base, n - 2 - i));
    }
  }

  /** A value that fits in n digits is read back exactly. */
  lemma DigitsRoundTrip(x: nat, base: nat, n: nat)
    requires base >= 2 && x < Power(base, n)
    ensures FromDigits(ToDigits(x, base, n), base) == x
  {
    FromToDigits(x, base, n);
    ModSmall(x, Power(base, n));
  }

  /** Writing the value of an n-digit string in n digits gives the string back. */
  lemma {:induction false} ToFromDigits(s: seq<nat>, base: nat)
    requires base >= 2
    requires forall i :: 0 <= i < |s| ==> s[i] < base
    ensures ToDigits(FromDigits(s, base), base, |s|) == s
  {
    if s != [] {
      var init, last := s[..|s| - 1], s[|s| - 1];
      var v := FromDigits(s, base);
      DivModUnique(v, base, FromDigits(init, base), last);
      ToFromDigits(init, base);
      assert s == init + [last];
    }
  }
}
