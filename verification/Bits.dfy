// Bitwise and, shifts and powers of two on integers, as JavaScript's 32-bit
// operators compute them.
module Bits {

  function Pow2(k: nat): (p: nat)
    ensures p > 0
  {
    if k == 0 then 1 else 2 * Pow2(k - 1)
  }

  function BitAnd(x: nat, y: nat): nat {
    if x == 0 || y == 0 then 0 else 2 * BitAnd(x / 2, y / 2) + (x % 2) * (y % 2)
  }

  const WORD: nat := 0x1_0000_0000

  function ToUint32(x: int): (u: nat)
    ensures u < WORD
  {
    x % WORD
  }

  function ToInt32(x: int): int {
    var u := ToUint32(x);
    if u < 0x8000_0000 then u else u - WORD
  }

  // x & y and x << k.
  function And32(x: int, y: int): int {
    ToInt32(BitAnd(ToUint32(x), ToUint32(y)))
  }

  function Shl32(x: int, k: nat): int
    requires k < 32
  {
    ToInt32(ToUint32(x) * Pow2(k))
  }

  lemma {:induction false} Pow2Add(a: nat, b: nat)
    ensures Pow2(a + b) == Pow2(a) * Pow2(b)
  {
    if a == 0 {
      assert Pow2(b) == 1 * Pow2(b);
    } else {
      Pow2Add(a - 1, b);
      assert Pow2(a) * Pow2(b) == 2 * (Pow2(a - 1) * Pow2(b));
    }
  }

  lemma DivMul(x: nat, a: nat, b: nat)
    requires a > 0 && b > 0
    ensures a * b > 0
    ensures x / (a * b) == (x / a) / b
  {
    var q, r := x / a, x % a;
    var p, s := q / b, q % b;
    Division(x, a);
    Division(q, b);
    Regroup(a, b, p, s);
    Above(a, s, b);
    NonNegative(a, s);
    Quotient(x, a * b, p, a * s + r);
  }

  lemma Division(x: nat, d: nat)
    requires d > 0
    ensures x == d * (x / d) + x % d && 0 <= x / d
  {
  }

  lemma Regroup(a: nat, b: nat, p: nat, s: nat)
    ensures a * (b * p + s) == (a * b) * p + a * s
  {
  }

  lemma Quotient(x: nat, d: nat, q: nat, r: nat)
    requires d > 0 && x == d * q + r && r < d
    ensures x / d == q && x % d == r
  {
    Division(x, d);
    Above(d, q, x / d);
    Above(d, x / d, q);
  }

  lemma Above(d: nat, q: int, p: int)
    ensures p > q ==> d * p >= d * q + d
  {
    var e := p - q - 1;
    assert d * p == d * (q + 1 + e) == d * q + d + d * e;
    NonNegative(d, e);
  }

  lemma NonNegative(d: nat, e: int)
    ensures e >= 0 ==> d * e >= 0
  {
  }

  // n ones followed by k zeros.
  function Mask(n: nat, k: nat): nat {
    NonNegative(Pow2(k), Pow2(n) - 1);
    (Pow2(n) - 1) * Pow2(k)
  }

  // Masking off the low k bits.
  lemma {:induction false} AndMask(x: nat, n: nat, k: nat)
    requires x < Pow2(n + k)
    ensures BitAnd(x, Mask(n, k)) == x / Pow2(k) * Pow2(k)
    decreases k, n
  {
    hide BitAnd;
    if k > 0 {
      AndMask(x / 2, n, k - 1);
      MaskShift(x, n, k);
    } else if n > 0 {
      AndMask(x / 2, n - 1, 0);
      MaskOdd(x, n);
    } else {
      AndNone();
    }
  }

  lemma AndNone()
    ensures BitAnd(0, 0) == 0
  {
  }

  lemma MaskShift(x: nat, n: nat, k: nat)
    requires k > 0 && BitAnd(x / 2, Mask(n, k - 1)) == x / 2 / Pow2(k - 1) * Pow2(k - 1)
    ensures BitAnd(x, Mask(n, k)) == x / Pow2(k) * Pow2(k)
  {
    hide BitAnd, Mask;
    var p := Pow2(k - 1);
    MaskTwice(n, k);
    AndEven(x, Mask(n, k - 1));
    DivMul(x, 2, p);
    Double(x / 2 / p, p);
  }

  lemma MaskTwice(n: nat, k: nat)
    requires k > 0
    ensures Mask(n, k) == 2 * Mask(n, k - 1)
  {
    Double(Pow2(n) - 1, Pow2(k - 1));
  }

  lemma Double(q: int, p: int)
    ensures q * (2 * p) == 2 * (q * p)
  {
  }

  lemma MaskOdd(x: nat, n: nat)
    requires n > 0 && BitAnd(x / 2, Mask(n - 1, 0)) == x / 2 / Pow2(0) * Pow2(0)
    ensures BitAnd(x, Mask(n, 0)) == x / Pow2(0) * Pow2(0)
  {
    hide BitAnd;
    assert Pow2(0) == 1;
    AndOdd(x, Pow2(n - 1) - 1);
  }

  lemma AndEven(x: nat, m: nat)
    ensures BitAnd(x, 2 * m) == 2 * BitAnd(x / 2, m)
  {
    assert (2 * m) / 2 == m && (2 * m) % 2 == 0;
  }

  lemma AndOdd(x: nat, m: nat)
    ensures BitAnd(x, 2 * m + 1) == 2 * BitAnd(x / 2, m) + x % 2
  {
    assert (2 * m + 1) / 2 == m && (2 * m + 1) % 2 == 1;
  }
}
