/** Numerals: the canonical digits of a number in bases 2 to 16, and reading them back. */
module Digits {
  import opened Arithmetic

  type Base = b: nat | 2 <= b <= 16 witness 10

  function Pow(b: nat, e: nat): nat {
    if e == 0 then 1 else b * Pow(b, e - 1)
  }

  function Digit(d: nat, upper: bool): char
    requires d < 16
  {
    if d < 10 then '0' + d as char else (if upper then 'A' else 'a') + (d - 10) as char
  }

  /** The value of a digit character, or 16 for any other character. */
  function DigitValue(c: char, upper: bool): nat {
    if '0' <= c <= '9' then (c - '0') as nat
    else if upper && 'A' <= c <= 'F' then (c - 'A') as nat + 10
    else if !upper && 'a' <= c <= 'f' then (c - 'a') as nat + 10
    else 16
  }

  function Numeral(v: nat, b: Base, upper: bool): string
    decreases v
  {
    if v < b then [Digit(v, upper)] else Numeral(v / b, b, upper) + [Digit(v % b, upper)]
  }

  /** The last `n` digits of `v`, with leading zeros. */
  function Fixed(v: nat, b: Base, n: nat, upper: bool): string {
    if n == 0 then [] else Fixed(v / b, b, n - 1, upper) + [Digit(v % b, upper)]
  }

  predicate IsDigits(s: string, b: Base, upper: bool) {
    forall i :: 0 <= i < |s| ==> DigitValue(s[i], upper) < b
  }

  function Read(s: string, b: Base, upper: bool): nat {
    if s == [] then 0 else Read(s[..|s| - 1], b, upper) * b + DigitValue(s[|s| - 1], upper)
  }

  /** A numeral has no leading zero, except that zero is written "0". */
  predicate Canonical(s: string, b: Base, upper: bool) {
    s != [] && IsDigits(s, b, upper) && (s[0] == '0' ==> |s| == 1)
  }

  lemma DigitRoundTrip(d: nat, upper: bool)
    requires d < 16
    ensures DigitValue(Digit(d, upper), upper) == d
    ensures Digit(d, upper) == '0' <==> d == 0
  {
  }

  lemma DigitValueRoundTrip(c: char, upper: bool)
    requires DigitValue(c, upper) < 16
    ensures Digit(DigitValue(c, upper), upper) == c
  {
  }

  lemma ReadSnoc(s: string, c: char, b: Base, upper: bool)
    ensures Read(s + [c], b, upper) == Read(s, b, upper) * b + DigitValue(c, upper)
  {
    assert (s + [c])[..|s + [c]| - 1] == s;
  }

  lemma DivSmaller(v: nat, b: nat)
    requires 2 <= b <= v
    ensures 0 < v / b < v
  {
  }

  lemma ReadAppend(v: nat, b: Base, t: string, upper: bool)
    requires Read(t, b, upper) == v / b
    ensures Read(t + [Digit(v % b, upper)], b, upper) == v
  {
    DigitRoundTrip(v % b, upper);
    ReadSnoc(t, Digit(v % b, upper), b, upper);
    DivMod(v, b);
  }

  lemma ReadDigit(v: nat, b: Base, upper: bool)
    requires v < b
    ensures Read([Digit(v, upper)], b, upper) == v
  {
    DigitRoundTrip(v, upper);
    assert [Digit(v, upper)][..0] == [];
  }

  /** Numerals read back as the number written. */
  lemma {:induction false} NumeralReadsBack(v: nat, b: Base, upper: bool)
    ensures Read(Numeral(v, b, upper), b, upper) == v
    decreases v
  {
    if v < b {
      ReadDigit(v, b, upper);
    } else {
      DivSmaller(v, b);
      var t := Numeral(v / b, b, upper);
      NumeralReadsBack(v / b, b, upper);
      ReadAppend(v, b, t, upper);
    }
  }

  /** Numerals are canonical: no leading zero except in "0". */
  lemma {:induction false} NumeralIsCanonical(v: nat, b: Base, upper: bool)
    ensures Canonical(Numeral(v, b, upper), b, upper)
    ensures Numeral(v, b, upper)[0] == '0' <==> v == 0
    decreases v
  {
    DigitRoundTrip(v % b, upper);
    if v < b {
      DigitRoundTrip(v, upper);
    } else {
      DivSmaller(v, b);
      NumeralIsCanonical(v / b, b, upper);
    }
  }

  lemma CanonicalInit(s: string, b: Base, upper: bool)
    requires Canonical(s, b, upper) && |s| > 1
    ensures Canonical(s[..|s| - 1], b, upper) && s[0] != '0'
  {
  }

  lemma NumeralOfPair(v: nat, r: nat, d: nat, b: Base, upper: bool)
    requires r > 0 && d < b && v == r * b + d
    ensures v > 0 && Numeral(v, b, upper) == Numeral(r, b, upper) + [Digit(d, upper)]
  {
    AtLeast(r, b, d);
    QuotientRemainder(v, b, r, d);
  }

  lemma LastDigit(s: string, b: Base, upper: bool)
    requires s != [] && IsDigits(s, b, upper)
    ensures var n := |s| - 1; var d := DigitValue(s[n], upper);
      && d < b && Digit(d, upper) == s[n]
      && s == s[..n] + [Digit(d, upper)]
      && Read(s, b, upper) == Read(s[..n], b, upper) * b + d
  {
    DigitValueRoundTrip(s[|s| - 1], upper);
  }

  /** Every canonical numeral is the numeral of what it reads as, so the spelling is unique. */
  lemma {:induction false} CanonicalIsNumeral(s: string, b: Base, upper: bool)
    requires Canonical(s, b, upper)
    ensures Numeral(Read(s, b, upper), b, upper) == s
    ensures Read(s, b, upper) == 0 <==> s[0] == '0'
    decreases |s|
  {
    LastDigit(s, b, upper);
    var n := |s| - 1;
    var d := DigitValue(s[n], upper);
    if n == 0 {
      DigitRoundTrip(d, upper);
      assert Read(s[..0], b, upper) == 0;
    } else {
      CanonicalInit(s, b, upper);
      CanonicalIsNumeral(s[..n], b, upper);
      NumeralOfPair(Read(s, b, upper), Read(s[..n], b, upper), d, b, upper);
    }
  }

  lemma PowPositive(b: Base, e: nat)
    ensures Pow(b, e) >= 1
  {
  }

  lemma PowOne(b: nat)
    ensures Pow(b, 0) == 1 && Pow(b, 1) == b
  {
    assert Pow(b, 1) == b * Pow(b, 0);
  }

  lemma PowSucc(b: nat, e: nat)
    ensures Pow(b, e + 1) == b * Pow(b, e)
  {
  }

  lemma QuotientBelow(v: nat, p: nat, b: nat)
    requires p > 0 && v < b * p
    ensures v / p < b
  {
  }

  lemma QuotientAtLeast(v: nat, b: nat, m: nat)
    requires b > 0 && b * m <= v
    ensures m <= v / b
  {
    DivMod(v, b);
    NonNegativeMultiple(v / b + 1 - m, b);
    Distribute(v / b + 1, m, b);
  }

  lemma Regroup(q: nat, m: nat, r: nat, b: nat)
    ensures (q * m + r) * b == q * (b * m) + r * b
  {
  }

  /** Fewer digits after dropping one. */
  lemma DropDigitBelow(v: nat, b: Base, n: nat)
    requires v < Pow(b, n + 1)
    ensures v / b < Pow(b, n)
  {
    PowSucc(b, n);
    QuotientBelow(v, b, Pow(b, n));
  }

  lemma DropDigitAtLeast(v: nat, b: Base, n: nat)
    requires Pow(b, n + 1) <= v
    ensures Pow(b, n) <= v / b && b <= v
  {
    var m := Pow(b, n);
    PowPositive(b, n);
    PowSucc(b, n);
    QuotientAtLeast(v, b, m);
    AtLeast(m, b, 0);
  }

  lemma FirstDigitBelow(v: nat, b: Base, n: nat)
    requires v < Pow(b, n + 1)
    ensures Pow(b, n) > 0 && v / Pow(b, n) < b
  {
    PowPositive(b, n);
    PowSucc(b, n);
    QuotientBelow(v, Pow(b, n), b);
  }

  /** Dropping the lowest digit of q * (b * m) + r. */
  lemma DropDigitSplit(v: nat, b: Base, q: nat, m: nat, r: nat) returns (s: nat, d: nat)
    requires v == q * (b * m) + r
    ensures s == r / b && d == r % b
    ensures v / b == q * m + s && v % b == d
  {
    s, d := DivModOf(r, b);
    Regroup(q, m, s, b);
    QuotientRemainder(v, b, q * m + s, d);
  }

  lemma SingleDigit(v: nat, b: Base, q: nat, r: nat, upper: bool)
    requires q < b && r < Pow(b, 0) && v == q * Pow(b, 0) + r
    ensures Fixed(v, b, 1, upper) == [Digit(q, upper)]
  {
    PowOne(b);
    assert v == q;
    QuotientRemainder(v, b, 0, q);
    FixedUnfold(v, b, 1, upper);
  }

  /** The first of n + 1 digits, then the rest. */
  lemma {:induction false} FixedHead(v: nat, q: nat, r: nat, b: Base, n: nat, upper: bool)
    requires q < b && r < Pow(b, n) && v == q * Pow(b, n) + r
    ensures Fixed(v, b, n + 1, upper) == [Digit(q, upper)] + Fixed(r, b, n, upper)
    decreases n
  {
    if n == 0 {
      SingleDigit(v, b, q, r, upper);
    } else {
      PowSucc(b, n - 1);
      var s, d := DropDigitSplit(v, b, q, Pow(b, n - 1), r);
      DropDigitBelow(r, b, n - 1);
      FixedHead(q * Pow(b, n - 1) + s, q, s, b, n - 1, upper);
      AppendDigit(v, r, q, b, n, upper);
    }
  }

  lemma AppendDigit(v: nat, r: nat, q: nat, b: Base, n: nat, upper: bool)
    requires n > 0 && q < b && v % b == r % b
    requires Fixed(v / b, b, n, upper) == [Digit(q, upper)] + Fixed(r / b, b, n - 1, upper)
    ensures Fixed(v, b, n + 1, upper) == [Digit(q, upper)] + Fixed(r, b, n, upper)
  {
    FixedUnfold(v, b, n + 1, upper);
    FixedUnfold(r, b, n, upper);
  }

  lemma FixedUnfold(v: nat, b: Base, n: nat, upper: bool)
    requires n > 0
    ensures Fixed(v, b, n, upper) == Fixed(v / b, b, n - 1, upper) + [Digit(v % b, upper)]
  {
  }

  lemma NumeralUnfold(v: nat, b: Base, upper: bool)
    requires v >= b
    ensures 0 <= v / b < v && Numeral(v, b, upper) == Numeral(v / b, b, upper) + [Digit(v % b, upper)]
  {
    DivSmaller(v, b);
  }

  /** A numeral is as many digits as it takes. */
  lemma {:induction false} NumeralIsFixed(v: nat, b: Base, n: nat, upper: bool)
    requires n >= 1 && v < Pow(b, n) && (n > 1 ==> Pow(b, n - 1) <= v)
    ensures Numeral(v, b, upper) == Fixed(v, b, n, upper)
    ensures |Numeral(v, b, upper)| == n
    decreases n
  {
    if n == 1 {
      PowOne(b);
      SingleDigit(v, b, v, 0, upper);
    } else {
      DropDigitBelow(v, b, n - 1);
      DropDigitAtLeast(v, b, n - 2);
      NumeralUnfold(v, b, upper);
      NumeralIsFixed(v / b, b, n - 1, upper);
      FixedUnfold(v, b, n, upper);
    }
  }

  lemma {:induction false} PowAdd(a: nat, b: nat)
    ensures Pow(2, a + b) == Pow(2, a) * Pow(2, b)
    decreases a
  {
    if a > 0 {
      PowAdd(a - 1, b);
      PowSucc(2, a - 1 + b);
      PowSucc(2, a - 1);
      DoubleProduct(Pow(2, a - 1), Pow(2, b));
    }
  }

  lemma DoubleProduct(p: nat, q: nat)
    ensures 2 * (p * q) == (2 * p) * q
  {
  }
}
