/**
  Bit operations on label data (cjdns-core/src/routinglabel.rs): unsigned numbers, with the
  operators defined bit by bit and tied to each other and to arithmetic by lemmas.
 */
module Bits {

  /** Left shift in an unbounded word: a * 2^n. */
  function Up(a: nat, n: nat): (r: nat)
    ensures a <= r
  {
    if n == 0 then a else 2 * Up(a, n - 1)
  }

  function Pow2(n: nat): (p: nat)
    ensures p > 0
  {
    Up(1, n)
  }

  /** Right shift. */
  function Shr(a: nat, n: nat): nat {
    if n == 0 then a else Shr(a / 2, n - 1)
  }

  /** The n low bits. */
  function Low(a: nat, n: nat): (r: nat)
    ensures r < Pow2(n)
  {
    if n == 0 then 0 else a % 2 + 2 * Low(a / 2, n - 1)
  }

  /** Left shift in a word of `width` bits: what leaves the word is lost. */
  function Shl(width: nat, a: nat, n: nat): nat {
    Low(Up(a, n), width)
  }

  function Xor(a: nat, b: nat): nat {
    if a == 0 && b == 0 then 0 else (a % 2 + b % 2) % 2 + 2 * Xor(a / 2, b / 2)
  }

  function Or(a: nat, b: nat): nat {
    if a == 0 && b == 0 then 0 else (if a % 2 + b % 2 > 0 then 1 else 0) + 2 * Or(a / 2, b / 2)
  }

  function And(a: nat, b: nat): nat {
    if a == 0 && b == 0 then 0 else (if a % 2 + b % 2 == 2 then 1 else 0) + 2 * And(a / 2, b / 2)
  }

  /** Index of the highest set bit. */
  function Hsb(a: nat): (h: nat)
    requires a > 0
    ensures Pow2(h) <= a < Pow2(h + 1)
  {
    if a == 1 then 0 else 1 + Hsb(a / 2)
  }

  /** Number of bits in use; zero uses none. */
  function BitLength(a: nat): (n: nat)
    ensures a < Pow2(n)
  {
    if a == 0 then 0 else Hsb(a) + 1
  }

  lemma {:induction false} UpIsTimes(a: nat, n: nat)
    ensures Up(a, n) == a * Pow2(n)
  {
    if n > 0 {
      UpIsTimes(a, n - 1);
    }
  }

  lemma {:induction false} UpTwice(a: nat, m: nat, n: nat)
    ensures Up(Up(a, m), n) == Up(a, m + n)
  {
    if n > 0 {
      UpTwice(a, m, n - 1);
    }
  }

  lemma {:induction false} UpSum(a: nat, b: nat, n: nat)
    ensures Up(a + b, n) == Up(a, n) + Up(b, n)
  {
    if n > 0 {
      UpSum(a, b, n - 1);
    }
  }

  lemma UpMonotone(a: nat, b: nat, n: nat)
    requires a <= b
    ensures Up(a, n) <= Up(b, n)
  {
    UpSum(a, b - a, n);
  }

  /** A high part and a low part do not overlap. */
  lemma UpBelow(a: nat, n: nat, r: nat, m: nat)
    requires r < Pow2(n) && a < Pow2(m)
    ensures Up(a, n) + r < Pow2(m + n)
  {
    UpMonotone(a + 1, Pow2(m), n);
    UpSum(a, 1, n);
    UpTwice(1, m, n);
  }

  lemma {:induction false} Pow2Monotone(m: nat, n: nat)
    requires m <= n
    ensures Pow2(m) <= Pow2(n)
  {
    if m < n {
      Pow2Monotone(m, n - 1);
    }
  }

  /** Every number is a high part and a low part. */
  lemma {:induction false} Recompose(x: nat, n: nat)
    ensures x == Up(Shr(x, n), n) + Low(x, n)
  {
    if n > 0 {
      Recompose(x / 2, n - 1);
    }
  }

  /** The parts of a number are unique. */
  lemma {:induction false} Parts(q: nat, n: nat, r: nat)
    requires r < Pow2(n)
    ensures Shr(Up(q, n) + r, n) == q && Low(Up(q, n) + r, n) == r
  {
    if n > 0 {
      assert (Up(q, n) + r) / 2 == Up(q, n - 1) + r / 2;
      Parts(q, n - 1, r / 2);
    }
  }

  lemma {:induction false} ShrTwice(x: nat, m: nat, n: nat)
    ensures Shr(Shr(x, m), n) == Shr(x, m + n)
  {
    if m > 0 {
      ShrTwice(x / 2, m - 1, n);
    }
  }

  lemma {:induction false} LowTwice(x: nat, m: nat, n: nat)
    requires m <= n
    ensures Low(Low(x, n), m) == Low(x, m)
  {
    hide Low;
    if m == 0 {
      LowNone(Low(x, n));
      LowNone(x);
    } else {
      LowStep(x, n);
      LowStep(x, m);
      LowStep(Low(x, n), m);
      LowTwice(x / 2, m - 1, n - 1);
    }
  }

  lemma LowNone(x: nat)
    ensures Low(x, 0) == 0
  {
  }

  lemma LowStep(x: nat, n: nat)
    requires n > 0
    ensures Low(x, n) == x % 2 + 2 * Low(x / 2, n - 1)
    ensures Low(x, n) % 2 == x % 2 && Low(x, n) / 2 == Low(x / 2, n - 1)
  {
  }

  lemma LowFits(x: nat, n: nat)
    requires x < Pow2(n)
    ensures Low(x, n) == x && Shr(x, n) == 0
  {
    Parts(0, n, x);
    UpIsTimes(0, n);
  }

  lemma HsbUnique(a: nat, h: nat)
    requires Pow2(h) <= a < Pow2(h + 1)
    ensures a > 0 && Hsb(a) == h
  {
    if a > 0 && Hsb(a) < h {
      Pow2Monotone(Hsb(a) + 1, h);
    } else if a > 0 && h < Hsb(a) {
      Pow2Monotone(h + 1, Hsb(a));
    }
  }

  /** A number fits in n bits exactly when its length is at most n. */
  lemma LengthFits(a: nat, n: nat)
    ensures a < Pow2(n) <==> BitLength(a) <= n
  {
    if a > 0 {
      if Hsb(a) + 1 <= n {
        Pow2Monotone(Hsb(a) + 1, n);
      } else {
        Pow2Monotone(n, Hsb(a));
      }
    }
  }

  lemma XorStep(p: nat, q: nat, c: nat, d: nat)
    requires c < 2 && d < 2
    ensures Xor(2 * p + c, 2 * q + d) == (c + d) % 2 + 2 * Xor(p, q)
  {
    assert (2 * p + c) / 2 == p && (2 * q + d) / 2 == q;
  }

  lemma {:induction false} XorZero(a: nat)
    ensures Xor(a, 0) == a && Xor(0, a) == a
  {
    if a > 0 {
      XorZero(a / 2);
    }
  }

  lemma XorOneTwice(a: nat)
    ensures Xor(Xor(a, 1), 1) == a
  {
    XorZero(a / 2);
  }

  lemma UpByZero(x: nat)
    ensures Up(x, 0) == x
  {
  }

  lemma Halve(x: nat, k: nat, l: nat)
    requires k > 0
    ensures Up(x, k) == 2 * Up(x, k - 1)
    ensures Up(x, k) + l == 2 * (Up(x, k - 1) + l / 2) + l % 2
    ensures l < Pow2(k) <==> l / 2 < Pow2(k - 1)
  {
  }

  /** Exclusive or works on high and low parts separately. */
  lemma {:induction false} XorParts(x: nat, y: nat, k: nat, l: nat, m: nat)
    requires l < Pow2(k) && m < Pow2(k)
    ensures Xor(Up(x, k) + l, Up(y, k) + m) == Up(Xor(x, y), k) + Xor(l, m)
  {
    hide Up, Xor;
    if k == 0 {
      UpByZero(x);
      UpByZero(y);
      UpByZero(Xor(x, y));
      UpByZero(1);
      XorZero(0);
    } else {
      Halve(x, k, l);
      Halve(y, k, m);
      Halve(Xor(x, y), k, Xor(l, m));
      XorStep(Up(x, k - 1) + l / 2, Up(y, k - 1) + m / 2, l % 2, m % 2);
      XorStep(l / 2, m / 2, l % 2, m % 2);
      XorParts(x, y, k - 1, l / 2, m / 2);
    }
  }

  lemma OrStep(p: nat, q: nat, c: nat, d: nat)
    requires c < 2 && d < 2
    ensures Or(2 * p + c, 2 * q + d) == (if c + d > 0 then 1 else 0) + 2 * Or(p, q)
  {
    assert (2 * p + c) / 2 == p && (2 * q + d) / 2 == q;
  }

  lemma {:induction false} OrZero(a: nat)
    ensures Or(a, 0) == a && Or(0, a) == a
  {
    if a > 0 {
      OrZero(a / 2);
    }
  }

  /** Or works on high and low parts separately. */
  lemma {:induction false} OrParts(x: nat, y: nat, k: nat, l: nat, m: nat)
    requires l < Pow2(k) && m < Pow2(k)
    ensures Or(Up(x, k) + l, Up(y, k) + m) == Up(Or(x, y), k) + Or(l, m)
    ensures Or(l, m) < Pow2(k)
  {
    hide Up, Or;
    if k == 0 {
      UpByZero(x);
      UpByZero(y);
      UpByZero(Or(x, y));
      UpByZero(1);
      OrZero(0);
    } else {
      Halve(x, k, l);
      Halve(y, k, m);
      Halve(Or(x, y), k, Or(l, m));
      OrStep(Up(x, k - 1) + l / 2, Up(y, k - 1) + m / 2, l % 2, m % 2);
      OrStep(l / 2, m / 2, l % 2, m % 2);
      OrParts(x, y, k - 1, l / 2, m / 2);
    }
  }

  /** Or of numbers without common bits is their sum. */
  lemma OrDisjoint(x: nat, k: nat, m: nat)
    requires m < Pow2(k)
    ensures Or(Up(x, k), m) == Up(x, k) + m
  {
    hide Up, Or;
    UpIsTimes(0, k);
    OrParts(x, 0, k, 0, m);
    OrZero(x);
    OrZero(m);
  }

  lemma {:induction false} AndZero(a: nat)
    ensures And(a, 0) == 0
  {
    if a > 0 {
      AndZero(a / 2);
    }
  }

  /** Masking with k ones keeps the k low bits. */
  lemma {:induction false} AndMask(x: nat, k: nat)
    ensures And(x, Pow2(k) - 1) == Low(x, k)
  {
    if k == 0 {
      AndZero(x);
    } else {
      AndMask(x / 2, k - 1);
    }
  }
}
