/** Bitwise conjunction of natural numbers, and what masking means arithmetically. */
module Bits {
  import opened Arithmetic
  import opened Digits

  /** Bitwise conjunction. */
  function And(x: nat, y: nat): nat {
    if x == 0 || y == 0 then 0 else 2 * And(x / 2, y / 2) + (x % 2) * (y % 2)
  }

  lemma AndUnfold(x: nat, y: nat)
    requires y > 0
    ensures And(x, y) == 2 * And(x / 2, y / 2) + (x % 2) * (y % 2)
  {
  }

  lemma Halves(m: nat)
    ensures 2 * m / 2 == m && 2 * m % 2 == 0
    ensures (2 * m + 1) / 2 == m && (2 * m + 1) % 2 == 1
  {
  }

  lemma OddMask(x: nat, m: nat)
    ensures And(x, 2 * m + 1) == 2 * And(x / 2, m) + x % 2
  {
    Halves(m);
    AndUnfold(x, 2 * m + 1);
  }

  lemma EvenMask(x: nat, m: nat)
    requires m > 0
    ensures And(x, 2 * m) == 2 * And(x / 2, m)
  {
    Halves(m);
    AndUnfold(x, 2 * m);
  }

  lemma TwoBits(v: nat)
    ensures v % 4 == v % 2 + 2 * (v / 2 % 2) && v / 2 / 2 == v / 4
  {
  }

  lemma FourBits(v: nat)
    ensures v % 16 == v % 2 + 2 * (v / 2 % 2) + 4 * (v / 2 / 2 % 2) + 8 * (v / 2 / 2 / 2 % 2)
  {
    DivTwice(v, 2, 8);
    DivTwice(v / 2, 2, 4);
    DivTwice(v / 2 / 2, 2, 2);
  }

  lemma LowNibble(v: nat)
    ensures And(v, 15) == v % 16
  {
    OddMask(v, 7);
    OddMask(v / 2, 3);
    OddMask(v / 2 / 2, 1);
    OddMask(v / 2 / 2 / 2, 0);
    FourBits(v);
  }

  lemma HalvePower(v: nat, s: nat)
    ensures Pow(2, s) > 0 && Pow(2, s + 1) == 2 * Pow(2, s) && v / Pow(2, s + 1) == (v / 2) / Pow(2, s)
  {
    PowPositive(2, s);
    PowSucc(2, s);
    DivTwice(v, 2, Pow(2, s));
  }

  lemma MaskTwice(n: nat, p: nat)
    ensures 2 * (n * p) == n * (2 * p)
  {
  }

  /** Masking with 0xF << s keeps four bits of a word, in place. */
  lemma {:induction false} MaskSelects(v: nat, s: nat)
    ensures Pow(2, s) > 0 && And(v, 15 * Pow(2, s)) == (v / Pow(2, s) % 16) * Pow(2, s)
    decreases s
  {
    PowPositive(2, s);
    if s == 0 {
      LowNibble(v);
    } else {
      HalvePower(v, s - 1);
      MaskSelects(v / 2, s - 1);
      EvenMask(v, 15 * Pow(2, s - 1));
      MaskTwice(v / Pow(2, s) % 16, Pow(2, s - 1));
    }
  }

  lemma PowerLessOne(n: nat)
    ensures Pow(2, n) > 0 && Pow(2, n + 1) == 2 * Pow(2, n) && Pow(2, n + 1) - 1 == 2 * (Pow(2, n) - 1) + 1
  {
    PowPositive(2, n);
    PowSucc(2, n);
  }

  lemma OddRemainder(x: nat, p: nat)
    requires p > 0
    ensures 2 * (x / 2 % p) + x % 2 == x % (2 * p)
  {
    DivTwice(x, 2, p);
  }

  lemma LowMaskStep(x: nat, p: nat)
    requires p > 0 && And(x / 2, p - 1) == x / 2 % p
    ensures And(x, 2 * (p - 1) + 1) == x % (2 * p)
  {
    OddMask(x, p - 1);
    OddRemainder(x, p);
  }

  /** Masking with a power of two less one is taking the remainder. */
  lemma {:induction false} LowMask(x: nat, n: nat)
    ensures Pow(2, n) > 0 && And(x, Pow(2, n) - 1) == x % Pow(2, n)
    decreases n
  {
    if n == 0 {
      PowOne(2);
    } else {
      PowerLessOne(n - 1);
      LowMask(x / 2, n - 1);
      LowMaskStep(x, Pow(2, n - 1));
    }
  }

  /** Masking with 2^n - 1 shifted up by two rounds a number of n + 2 bits down to a multiple of four. */
  lemma RoundDownBits(x: nat, n: nat)
    requires n > 0 && x < 4 * Pow(2, n)
    ensures Pow(2, n) > 1 && And(x, 4 * (Pow(2, n) - 1)) == x - x % 4
  {
    PowPositive(2, n - 1);
    PowSucc(2, n - 1);
    var m := Pow(2, n) - 1;
    LowMask(x / 2 / 2, n);
    QuotientRemainder(x / 2 / 2, Pow(2, n), 0, x / 2 / 2);
    EvenMask(x / 2, m);
    EvenMask(x, 2 * m);
    assert 2 * (2 * m) == 4 * m;
    TwoBits(x);
    Quarters(x);
  }

  lemma Quarters(x: nat)
    ensures 4 * (x / 4) == x - x % 4
  {
  }

  lemma PowThirty()
    ensures Pow(2, 30) == 0x4000_0000
  {
    assert Pow(2, 10) == 0x400;
    assert Pow(2, 20) == 0x10_0000;
  }

  /** Masking a 32-bit word with ~3 rounds it down to a multiple of four. */
  lemma RoundDown(x: nat)
    requires x < 0x1_0000_0000
    ensures And(x, 0xFFFF_FFFC) == x - x % 4
  {
    PowThirty();
    RoundDownBits(x, 30);
  }
}
