/** Bytes, bitwise OR and big-endian integers as Python's `int` and `bytes` provide them. */
module Bits {
  type byte = x: int | 0 <= x < 256

  function Pow(b: nat, k: nat): (r: nat)
    requires b > 0
    ensures r > 0
  {
    if k == 0 then 1 else b * Pow(b, k - 1)
  }

  lemma {:induction false} PowMonotone(a: nat, b: nat)
    requires a <= b
    ensures Pow(2, a) <= Pow(2, b)
    decreases b - a
  {
    if a < b { PowMonotone(a + 1, b); }
  }

  /** Python's `|` on nonnegative integers, bit by bit. */
  function Or(a: nat, b: nat): nat
    decreases a + b
  {
    if a == 0 && b == 0 then 0
    else 2 * Or(a / 2, b / 2) + (if a % 2 == 1 || b % 2 == 1 then 1 else 0)
  }

  lemma {:induction false} OrZero(a: nat)
    ensures Or(a, 0) == a && Or(0, a) == a
  {
    if a != 0 { OrZero(a / 2); }
  }

  lemma {:induction false} OrCommutes(a: nat, b: nat)
    ensures Or(a, b) == Or(b, a)
    decreases a + b
  {
    if a != 0 || b != 0 { OrCommutes(a / 2, b / 2); }
  }

  lemma MulAtLeast(d: int, m: nat)
    ensures d >= 1 ==> d * m >= m
  {
    if d >= 1 { assert d * m == m + (d - 1) * m; }
  }

  lemma MulMonotone(a: nat, b: nat, p: nat)
    ensures a <= b ==> a * p <= b * p
  {
    if a <= b { assert b * p == a * p + (b - a) * p; }
  }

  lemma QuotientsDiffer(m: nat, q: int, r: int, q': int, r': int)
    requires 0 <= r < m && 0 <= r' < m
    requires q * m + r == q' * m + r'
    ensures q == q' && r == r'
  {
    assert (q - q') * m == r' - r;
    assert (q' - q) * m == r - r';
    MulAtLeast(q - q', m);
    MulAtLeast(q' - q, m);
  }

  lemma QuotientIsUnique(a: int, m: nat, q: int, r: int)
    requires 0 <= r < m && a == q * m + r
    ensures a / m == q && a % m == r
  {
    QuotientsDiffer(m, q, r, a / m, a % m);
  }

  lemma HalfOfSum(high: nat, low: nat, m: nat)
    requires m > 0
    ensures (high * (2 * m) + low) / 2 == high * m + low / 2
    ensures (high * (2 * m) + low) % 2 == low % 2
  {
    assert high * (2 * m) == 2 * (high * m);
  }

  lemma Double(x: nat, m: nat)
    ensures x * (2 * m) == 2 * (x * m)
  {
  }

  lemma OrSplitStep(m: nat, high: nat, low: nat, mask: nat, joined: nat, a: nat, b: nat)
    requires a == high * (2 * m) + low && b == mask * (2 * m)
    requires m > 0 && Or(a / 2, b / 2) == joined * m + low / 2
    ensures Or(a, b) == joined * (2 * m) + low
  {
    HalfOfSum(high, low, m);
    HalfOfSum(mask, 0, m);
    Double(joined, m);
    OrFromHalves(a, b, joined * m, low);
  }

  lemma OrStep(a: nat, b: nat)
    ensures Or(a, b) == 2 * Or(a / 2, b / 2) + (if a % 2 == 1 || b % 2 == 1 then 1 else 0)
  {
  }

  lemma OrFromHalves(a: nat, b: nat, half: int, low: nat)
    requires a % 2 == low % 2 && b % 2 == 0 && Or(a / 2, b / 2) == half + low / 2
    ensures Or(a, b) == 2 * half + low
  {
    OrStep(a, b);
  }

  /** A mask whose low `k` bits are zero leaves the low `k` bits of the other operand alone. */
  lemma {:induction false} OrSplit(k: nat, high: nat, low: nat, mask: nat, a: nat, b: nat)
    requires low < Pow(2, k) && a == high * Pow(2, k) + low && b == mask * Pow(2, k)
    ensures Or(a, b) == Or(high, mask) * Pow(2, k) + low
    decreases k
  {
    if k != 0 {
      var m := Pow(2, k - 1);
      HalfOfSum(high, low, m);
      HalfOfSum(mask, 0, m);
      OrSplit(k - 1, high, low / 2, mask, a / 2, b / 2);
      OrSplitStep(m, high, low, mask, Or(high, mask), a, b);
    }
  }

  /** OR of operands with no common bit is their sum. */
  lemma OrDisjoint(a: nat, b: nat, k: nat, mask: nat)
    requires a < Pow(2, k) && b == mask * Pow(2, k)
    ensures Or(a, b) == a + b && Or(b, a) == a + b
  {
    OrSplit(k, 0, a, mask, a, b);
    OrZero(mask);
    OrCommutes(a, b);
  }

  /** OR stays below a power of two that bounds both operands. */
  lemma {:induction false} OrBound(a: nat, b: nat, k: nat)
    requires a < Pow(2, k) && b < Pow(2, k)
    ensures Or(a, b) < Pow(2, k)
    decreases k
  {
    if k != 0 && (a != 0 || b != 0) { OrBound(a / 2, b / 2, k - 1); }
  }

  /** Python's `value.to_bytes(n, "big")` for a value that fits. */
  function BigEndian(value: nat, n: nat): (r: seq<byte>)
    requires value < Pow(256, n)
    ensures |r| == n
  {
    if n == 0 then []
    else
      var p := Pow(256, n - 1);
      DivBound(value, p);
      [value / p] + BigEndian(value % p, n - 1)
  }

  lemma DivBound(value: nat, p: nat)
    requires p > 0 && value < 256 * p
    ensures 0 <= value / p < 256 && 0 <= value % p < p
    ensures value == (value / p) * p + value % p
  {
    MulMonotone(256, value / p, p);
  }

  /** The number that `digits` continues from the more significant part `high`. */
  function FoldBigEndian(high: nat, digits: seq<byte>): nat
    decreases |digits|
  {
    if digits == [] then high else FoldBigEndian(high * 256 + digits[0], digits[1..])
  }

  lemma {:induction false} FoldOfBigEndian(high: nat, value: nat, n: nat)
    requires value < Pow(256, n)
    ensures FoldBigEndian(high, BigEndian(value, n)) == high * Pow(256, n) + value
    decreases n
  {
    if n != 0 {
      var p := Pow(256, n - 1);
      DivBound(value, p);
      FoldOfBigEndian(high * 256 + value / p, value % p, n - 1);
      Regroup(high, value / p, p);
    }
  }

  lemma Regroup(high: nat, digit: nat, p: nat)
    ensures (high * 256 + digit) * p == high * (256 * p) + digit * p
  {
  }

  lemma {:induction false} FoldBound(high: nat, digits: seq<byte>)
    ensures high * Pow(256, |digits|) <= FoldBigEndian(high, digits) < (high + 1) * Pow(256, |digits|)
    decreases |digits|
  {
    if digits != [] {
      FoldBound(high * 256 + digits[0], digits[1..]);
      WithinDigit(high, digits[0], Pow(256, |digits| - 1));
    }
  }

  lemma WithinDigit(high: nat, digit: byte, p: nat)
    ensures high * (256 * p) <= (high * 256 + digit) * p
    ensures (high * 256 + digit + 1) * p <= (high + 1) * (256 * p)
  {
    Regroup(high, digit, p);
    Regroup(high, 256, p);
    MulMonotone(high * 256 + digit + 1, high * 256 + 256, p);
    assert (high + 1) * (256 * p) == high * (256 * p) + 256 * p;
  }
}
