/** Bitwise and and or on the integers of the model, bit by bit, and what the source's masks come to. */
module Bits {
  import opened Bytes

  /** `a & b`. */
  function And(a: nat, b: nat): (r: nat)
    ensures r <= a && r <= b
    decreases a
  {
    if a == 0 || b == 0 then 0 else 2 * And(a / 2, b / 2) + (if a % 2 == 1 && b % 2 == 1 then 1 else 0)
  }

  /** `a | b`. */
  function Or(a: nat, b: nat): (r: nat)
    decreases a + b
  {
    if a == 0 then b
    else if b == 0 then a
    else 2 * Or(a / 2, b / 2) + (if a % 2 == 1 || b % 2 == 1 then 1 else 0)
  }

  function Pow2(n: nat): (r: nat)
    ensures r > 0
  {
    if n == 0 then 1 else 2 * Pow2(n - 1)
  }

  // ----- one bit at a time -----

  /** Two numbers given by their halves and their lowest bits. */
  lemma AndStep(x: nat, b: nat, y: nat, c: nat)
    requires b < 2 && c < 2
    ensures And(2 * x + b, 2 * y + c) == 2 * And(x, y) + (if b == 1 && c == 1 then 1 else 0)
  {
    assert (2 * x + b) / 2 == x && (2 * x + b) % 2 == b;
    assert (2 * y + c) / 2 == y && (2 * y + c) % 2 == c;
  }

  lemma AndZero(x: nat)
    ensures And(x, 0) == 0
  {
  }

  lemma Doubled(x: nat, p: nat)
    ensures x * (2 * p) == 2 * (x * p)
  {
  }

  lemma AndSplitOne(x: nat, r: nat, y: nat, t: nat, z: nat)
    requires And(x + r / 2, y + t / 2) == z + And(r / 2, t / 2)
    ensures And(2 * x + r, 2 * y + t) == 2 * z + And(r, t)
  {
    hide And;
    AndStep(x + r / 2, r % 2, y + t / 2, t % 2);
    AndStep(r / 2, r % 2, t / 2, t % 2);
  }

  /** The same for any number of low bits. */
  lemma {:induction false} AndSplit(x: nat, r: nat, y: nat, t: nat, n: nat)
    requires r < Pow2(n) && t < Pow2(n)
    ensures And(x * Pow2(n) + r, y * Pow2(n) + t) == And(x, y) * Pow2(n) + And(r, t)
    decreases n
  {
    hide And;
    if n == 0 {
      AndZero(r);
    } else {
      var p, z := Pow2(n - 1), And(x, y);
      AndSplit(x, r / 2, y, t / 2, n - 1);
      AndSplitOne(x * p, r, y * p, t, z * p);
      Doubled(x, p);
      Doubled(y, p);
      Doubled(z, p);
    }
  }

  lemma {:induction false} AndOnes(x: nat, n: nat)
    requires x < Pow2(n)
    ensures And(x, Pow2(n) - 1) == x
  {
    if n > 0 {
      AndOnes(x / 2, n - 1);
      AndStep(x / 2, x % 2, Pow2(n - 1) - 1, 1);
    }
  }

  lemma OrZero(a: nat)
    ensures Or(a, 0) == a && Or(0, a) == a
  {
  }

  lemma OrStep(x: nat, b: nat, y: nat, c: nat)
    requires b < 2 && c < 2
    ensures Or(2 * x + b, 2 * y + c) == 2 * Or(x, y) + (if b == 1 || c == 1 then 1 else 0)
  {
    assert (2 * x + b) / 2 == x && (2 * x + b) % 2 == b;
    assert (2 * y + c) / 2 == y && (2 * y + c) % 2 == c;
    OrZero(x);
    OrZero(y);
  }

  lemma OrSplitOne(x: nat, r: nat, y: nat, t: nat, z: nat)
    requires Or(x + r / 2, y + t / 2) == z + Or(r / 2, t / 2)
    ensures Or(2 * x + r, 2 * y + t) == 2 * z + Or(r, t)
  {
    hide Or;
    OrStep(x + r / 2, r % 2, y + t / 2, t % 2);
    OrStep(r / 2, r % 2, t / 2, t % 2);
  }

  lemma {:induction false} OrSplit(x: nat, r: nat, y: nat, t: nat, n: nat)
    requires r < Pow2(n) && t < Pow2(n)
    ensures Or(x * Pow2(n) + r, y * Pow2(n) + t) == Or(x, y) * Pow2(n) + Or(r, t)
    decreases n
  {
    hide Or;
    if n == 0 {
      OrZero(r);
    } else {
      var p, z := Pow2(n - 1), Or(x, y);
      OrSplit(x, r / 2, y, t / 2, n - 1);
      OrSplitOne(x * p, r, y * p, t, z * p);
      Doubled(x, p);
      Doubled(y, p);
      Doubled(z, p);
    }
  }

  /** Fields that do not overlap are added by or-ing them. */
  lemma OrApart(a: nat, b: nat, n: nat)
    requires b < Pow2(n)
    ensures Or(a * Pow2(n), b) == a * Pow2(n) + b
  {
    hide Or, Pow2;
    OrSplit(a, 0, 0, b, n);
    OrZero(a);
    OrZero(b);
  }

  lemma Powers()
    ensures Pow2(1) == 2 && Pow2(2) == 4 && Pow2(3) == 8 && Pow2(4) == 0x10 && Pow2(5) == 0x20 && Pow2(6) == 0x40
    ensures Pow2(7) == 0x80 && Pow2(8) == 0x100 && Pow2(10) == 0x400 && Pow2(11) == 0x800 && Pow2(12) == 0x1000
    ensures Pow2(16) == 0x1_0000 && Pow2(26) == 0x400_0000 && Pow2(29) == 0x2000_0000 && Pow2(30) == 0x4000_0000
    ensures Pow2(31) == 0x8000_0000
  {
    assert Pow2(4) == 0x10 && Pow2(9) == 0x200 && Pow2(14) == 0x4000 && Pow2(18) == 0x4_0000;
    assert Pow2(20) == 0x10_0000 && Pow2(22) == 0x40_0000 && Pow2(24) == 0x100_0000 && Pow2(28) == 0x1000_0000;
  }

  // ----- the masks of the source -----

  /** A mask of `n` ones keeps the low `n` bits. */
  lemma LowBits(q: nat, r: nat, n: nat)
    requires r < Pow2(n)
    ensures And(q * Pow2(n) + r, Pow2(n) - 1) == r
  {
    hide And, Pow2;
    AndSplit(q, r, 0, Pow2(n) - 1, n);
    AndZero(q);
    AndOnes(r, n);
  }

  /** A mask of `n` ones above `k` zeros clears the low `k` bits of a number of `n + k` bits. */
  lemma HighBits(q: nat, r: nat, ones: nat, n: nat, k: nat)
    requires ones == Pow2(n) - 1 && q <= ones && r < Pow2(k)
    ensures And(q * Pow2(k) + r, ones * Pow2(k)) == q * Pow2(k)
  {
    hide And, Pow2;
    AndSplit(q, r, ones, 0, k);
    AndOnes(q, n);
    AndZero(r);
  }

  /** `& 7`, `& 0xF`, `& 0xFF`, `& 0xFFF`, `& 0xFFFF` and `& 1`. */
  lemma LowMasks(x: nat)
    ensures And(x, 1) == x % 2 && And(x, 7) == x % 8 && And(x, 0xF) == x % 0x10
    ensures And(x, 0xFF) == x % 0x100 && And(x, 0xFFF) == x % 0x1000 && And(x, 0xFFFF) == x % 0x1_0000
  {
    hide And, Pow2;
    Powers();
    LowBits(x / 2, x % 2, 1);
    LowBits(x / 8, x % 8, 3);
    LowBits(x / 0x10, x % 0x10, 4);
    LowBits(x / 0x100, x % 0x100, 8);
    LowBits(x / 0x1000, x % 0x1000, 12);
    LowBits(x / 0x1_0000, x % 0x1_0000, 16);
  }

  /** `& !1`, `& !3`, `& !7` and `& !63` on a word. */
  lemma AlignMasks(x: u32)
    ensures And(x, 0xFFFF_FFFE) == AlignDown(x, 2)
    ensures And(x, 0xFFFF_FFFC) == AlignDown(x, 4)
    ensures And(x, 0xFFFF_FFF8) == AlignDown(x, 8)
    ensures And(x, 0xFFFF_FFC0) == AlignDown(x, 64)
  {
    hide And, Pow2;
    Powers();
    HighBits(x / 2, x % 2, 0x7FFF_FFFF, 31, 1);
    HighBits(x / 4, x % 4, 0x3FFF_FFFF, 30, 2);
    HighBits(x / 8, x % 8, 0x1FFF_FFFF, 29, 3);
    HighBits(x / 64, x % 64, 0x3FF_FFFF, 26, 6);
  }

  /** `| 1`. */
  lemma SetLow(x: nat)
    ensures Or(x, 1) == if x % 2 == 0 then x + 1 else x
  {
    if x != 0 {
      assert Or(x, 1) == 2 * Or(x / 2, 0) + 1;
    }
  }

  /** `& 0xF800` on a halfword. */
  lemma TopFive(v: u16)
    ensures And(v, 0xF800) == v / 0x800 * 0x800
  {
    hide And, Pow2;
    Powers();
    HighBits(v / 0x800, v % 0x800, 0x1F, 5, 11);
  }

  /** `& 0x80` on a halfword. */
  lemma BitSeven(v: u16)
    ensures And(v, 0x80) == v / 0x80 % 2 * 0x80
  {
    hide And, Pow2;
    Powers();
    AndSplit(v / 0x80, v % 0x80, 1, 0, 7);
    LowMasks(v / 0x80);
    AndZero(v % 0x80);
  }

  /** `& 0xFF7F` on a halfword: everything but bit seven. */
  lemma AllButSeven(v: u16)
    ensures And(v, 0xFF7F) == v / 0x100 * 0x100 + v % 0x80
  {
    hide And, Pow2;
    Powers();
    var h := v / 0x80;
    AndSplit(h, v % 0x80, 0x1FE, 0x7F, 7);
    HighBits(h / 2, h % 2, 0xFF, 8, 1);
    AndOnes(v % 0x80, 7);
  }
}
