/** What alt_log_private_printf() is to print: a recursive description of format strings, and what its
    integer conversions mean. Arguments are the 32-bit words that va_arg() yields in turn, and `str`
    gives the string at an address. */
module LogFormat {
  import opened Arithmetic
  import opened Common
  import opened Digits

  const SIGN: nat := 0x8000_0000

  datatype Format = Format(base: Base, signed: bool, upper: bool)

  // ---- What one conversion means ----

  predicate Negative(w: Word, signed: bool) {
    signed && w >= SIGN
  }

  /** The number a word stands for. */
  function ValueOf(w: Word, signed: bool): int {
    if Negative(w, signed) then w - WRAP else w
  }

  function Magnitude(w: Word, signed: bool): nat {
    if Negative(w, signed) then WRAP - w else w
  }

  function Repeat(c: char, r: int): string
    decreases if r > 0 then r else 0
  {
    if r <= 0 then [] else Repeat(c, r - 1) + [c]
  }

  function SignText(negative: bool): string {
    if negative then "-" else ""
  }

  function Sign(w: Word, signed: bool): string {
    SignText(Negative(w, signed))
  }

  /** How many fill characters a number gets: the width less its digits and its sign, in 32 bits. */
  function Fill(width: int, digits: nat, sign: nat): int {
    Long(Long(width - digits) - sign)
  }

  /** An integer conversion: sign and digits, filled up to the width with zeros after the sign or
      with spaces before it. */
  function IntegerText(w: Word, f: Format, zero: bool, width: int): string {
    var digits := Numeral(Magnitude(w, f.signed), f.base, f.upper);
    var sign := Sign(w, f.signed);
    var fill := Fill(width, |digits|, |sign|);
    if zero then sign + Repeat('0', fill) + digits else Repeat(' ', fill) + sign + digits
  }

  function ToChar(w: Word): char {
    (w % 256) as char
  }

  function Convert(c: char, zero: bool, width: int, w: Word, str: Word -> string): string {
    match c
    case 'd' => IntegerText(w, Format(10, true, false), zero, width)
    case 'i' => IntegerText(w, Format(10, true, false), zero, width)
    case 'u' => IntegerText(w, Format(10, false, false), zero, width)
    case 'o' => IntegerText(w, Format(8, false, false), zero, width)
    case 'x' => IntegerText(w, Format(16, false, false), zero, width)
    case 'X' => IntegerText(w, Format(16, false, true), zero, width)
    case 'c' => Repeat(' ', Long(width - 1)) + [ToChar(w)]
    case 's' => Repeat(' ', Long(width - |str(w)|)) + str(w)
    case _ => ""
  }

  /** How many arguments a conversion takes. */
  function Uses(c: char): nat {
    if c in "diuoxXcs" then 1 else 0
  }

  // ---- What a format string means ----

  predicate IsDecimal(c: char) {
    '0' <= c <= '9'
  }

  /** The characters that may stand between '%' and the conversion letter. */
  predicate IsFlag(c: char) {
    c == '.' || c == 'l' || IsDecimal(c)
  }

  function FlagsLength(s: string): (n: nat)
    ensures n <= |s|
    ensures forall i :: 0 <= i < n ==> IsFlag(s[i])
    ensures n < |s| ==> !IsFlag(s[n])
  {
    if s == [] || !IsFlag(s[0]) then 0 else 1 + FlagsLength(s[1..])
  }

  function BeforeDot(s: string): string {
    if s == [] || s[0] == '.' then [] else [s[0]] + BeforeDot(s[1..])
  }

  function Decimals(s: string): string {
    if s == [] then []
    else Decimals(s[..|s| - 1]) + if IsDecimal(s[|s| - 1]) then [s[|s| - 1]] else []
  }

  /** The field width as it is written: the decimal number in front of the first '.', or -1. */
  function DecimalWidth(flags: string): int {
    var digits := Decimals(BeforeDot(flags));
    if digits == [] then -1 else Read(digits, 10, false)
  }

  /** All digits after the first '.', as one number. */
  function DecimalRest(flags: string): nat {
    if flags == [] then 0
    else
      var s, c := flags[..|flags| - 1], flags[|flags| - 1];
      if '.' in s && IsDecimal(c) then DecimalRest(s) * 10 + (c - '0') as int else DecimalRest(s)
  }

  /** The two numbers the machine keeps, which are signed 32-bit integers; -1 stands for none. */
  datatype Fields = Fields(before: int, after: int)

  function WithFlag(f: Fields, c: char): Fields {
    if c == '.' then f.(after := 0)
    else if !IsDecimal(c) then f
    else
      var d := (c - '0') as int;
      if f.after >= 0 then f.(after := Long(f.after * 10 + d))
      else f.(before := AddDigit(f.before, d))
  }

  /** A width with one more digit, in 32 bits. */
  function AddDigit(w: int, d: nat): int {
    Long((if w < 0 then 0 else Long(w * 10)) + d)
  }

  function FieldsOf(flags: string): Fields {
    if flags == [] then Fields(-1, -1) else WithFlag(FieldsOf(flags[..|flags| - 1]), flags[|flags| - 1])
  }

  /** The field width the machine works with. */
  function WidthOf(flags: string): int {
    FieldsOf(flags).before
  }

  /** What is printed for `s`, the first `k` arguments having been used. */
  function Text(s: string, args: nat -> Word, k: nat, str: Word -> string): string
    decreases |s|
  {
    if s == [] then []
    else if s[0] != '%' then [s[0]] + Text(s[1..], args, k, str)
    else if |s| == 1 then []
    else if s[1] == '%' then "%" + Text(s[2..], args, k, str)
    else if s[1] == '0' then Directive(s[2..], "", true, args, k, str)
    else Directive(s[1..], "", false, args, k, str)
  }

  /** What is printed for `s` when a directive with the flags `flags` is open. */
  function Directive(s: string, flags: string, zero: bool, args: nat -> Word, k: nat, str: Word -> string): string
    decreases |s|
  {
    var n := FlagsLength(s);
    if n == |s| then []
    else
      Convert(s[n], zero, WidthOf(flags + s[..n]), args(k), str) + Text(s[n + 1..], args, k + Uses(s[n]), str)
  }

  // ---- Properties of the description ----

  lemma {:induction false} RepeatIsRepeat(c: char, r: int)
    ensures |Repeat(c, r)| == if r > 0 then r else 0
    ensures forall i :: 0 <= i < |Repeat(c, r)| ==> Repeat(c, r)[i] == c
    decreases if r > 0 then r else 0
  {
    if r > 0 {
      RepeatIsRepeat(c, r - 1);
    }
  }

  function Unpad(s: string): string {
    if s != [] && s[0] == ' ' then Unpad(s[1..]) else s
  }

  /** Reads a number as a person would: blanks, an optional minus sign, digits. */
  function Parse(s: string, f: Format): int {
    var t := Unpad(s);
    if t != [] && t[0] == '-' then -(Read(t[1..], f.base, f.upper) as int) else Read(t, f.base, f.upper)
  }

  lemma {:induction false} UnpadSpaces(r: int, s: string)
    requires s != [] && s[0] != ' '
    ensures Unpad(Repeat(' ', r) + s) == s
    decreases if r > 0 then r else 0
  {
    if r > 0 {
      RepeatIsRepeat(' ', r);
      RepeatIsRepeat(' ', r - 1);
      assert (Repeat(' ', r) + s)[1..] == Repeat(' ', r - 1) + s;
      UnpadSpaces(r - 1, s);
    } else {
      assert Repeat(' ', r) + s == s;
    }
  }

  lemma {:induction false} ReadZeros(r: int, b: Base, upper: bool)
    ensures Read(Repeat('0', r), b, upper) == 0
    decreases if r > 0 then r else 0
  {
    if r > 0 {
      ReadSnoc(Repeat('0', r - 1), '0', b, upper);
      ReadZeros(r - 1, b, upper);
    }
  }

  /** A prefix that reads as zero makes no difference. */
  lemma {:induction false} ReadAfterZeros(zeros: string, s: string, b: Base, upper: bool)
    requires Read(zeros, b, upper) == 0
    ensures Read(zeros + s, b, upper) == Read(s, b, upper)
    decreases |s|
  {
    if s == [] {
      assert zeros + s == zeros;
    } else {
      var t, c := s[..|s| - 1], s[|s| - 1];
      ReadAfterZeros(zeros, t, b, upper);
      Assoc(zeros, t, [c]);
      assert s == t + [c];
      ReadSnoc(zeros + t, c, b, upper);
      ReadSnoc(t, c, b, upper);
    }
  }

  /** A sign and a body of digits parse as the signed value of the body. */
  lemma ParseSigned(negative: bool, body: string, f: Format)
    requires body != [] && body[0] != '-' && body[0] != ' '
    ensures Parse(SignText(negative) + body, f)
      == if negative then -(Read(body, f.base, f.upper) as int) else Read(body, f.base, f.upper)
  {
    var s := SignText(negative) + body;
    assert Unpad(s) == s;
    if negative {
      assert s[1..] == body;
    } else {
      assert s == body;
    }
  }

  /** Blanks in front make no difference. */
  lemma ParsePadded(pad: int, s: string, f: Format)
    requires s != [] && s[0] != ' '
    ensures Parse(Repeat(' ', pad) + s, f) == Parse(s, f)
  {
    UnpadSpaces(pad, s);
    assert Unpad(s) == s;
  }

  /** A number of 32 bits has at most 32 digits. */
  lemma {:induction false} NumeralIsShort(v: nat, b: Base, n: nat, upper: bool)
    requires n >= 1 && v < Pow(2, n)
    ensures 1 <= |Numeral(v, b, upper)| <= n
    decreases n
  {
    PowOne(2);
    if v >= b && n > 1 {
      NumeralUnfold(v, b, upper);
      HalfOf(v, b);
      PowSucc(2, n - 1);
      NumeralIsShort(v / b, b, n - 1, upper);
    }
  }

  lemma HalfOf(v: nat, b: Base)
    ensures v / b <= v / 2
  {
    DivMod(v, b);
    DivMod(v, 2);
    Monotone(2, b, v / b);
    if v / 2 < v / b {
      Monotone(v / 2 + 1, v / b, 2);
    }
  }

  lemma NumeralOfWord(v: nat, f: Format)
    requires v <= WRAP
    ensures 1 <= |Numeral(v, f.base, f.upper)| <= 33
  {
    assert Pow(2, 33) == 0x2_0000_0000 by {
      assert Pow(2, 11) == 0x800;
      assert Pow(2, 22) == 0x40_0000;
    }
    NumeralIsShort(v, f.base, 33, f.upper);
  }

  /** The fill is what is missing, unless the width is so far below zero that the difference wraps. */
  lemma FillIs(width: int, digits: nat, sign: nat)
    requires -0x8000_0000 <= width < 0x8000_0000 && digits <= 33 && sign <= 1
    ensures Fill(width, digits, sign) == width - digits - sign + if width - digits - sign < -0x8000_0000 then WRAP else 0
  {
    LongOnceRound(width - digits);
    LongOnceRound(width - digits - sign);
    if width - digits >= -0x8000_0000 {
      LongFits(width - digits);
    } else {
      LongFits(width - digits - sign + WRAP);
    }
    if width - digits - sign >= -0x8000_0000 {
      LongFits(width - digits - sign);
    }
  }

  lemma IntegerTextLength(w: Word, f: Format, zero: bool, width: int)
    requires -0x8000_0000 <= width < 0x8000_0000
    ensures var n := |Numeral(Magnitude(w, f.signed), f.base, f.upper)| + |Sign(w, f.signed)|;
      |IntegerText(w, f, zero, width)| ==
        if width - n < -0x8000_0000 then width + WRAP else if width > n then width else n
  {
    var digits := Numeral(Magnitude(w, f.signed), f.base, f.upper);
    NumeralOfWord(Magnitude(w, f.signed), f);
    FillIs(width, |digits|, |Sign(w, f.signed)|);
    var fill := Fill(width, |digits|, |Sign(w, f.signed)|);
    RepeatIsRepeat('0', fill);
    RepeatIsRepeat(' ', fill);
  }

  lemma StartsWithDigit(fill: int, digits: string, f: Format)
    requires Canonical(digits, f.base, f.upper)
    ensures var body := Repeat('0', fill) + digits;
      body != [] && body[0] != '-' && body[0] != ' '
  {
    RepeatIsRepeat('0', fill);
    assert DigitValue(digits[0], f.upper) < 16;
  }

  /** Digits with zeros in front are still digits, of the same number. */
  lemma ZeroFilled(fill: int, m: nat, f: Format)
    ensures var body := Repeat('0', fill) + Numeral(m, f.base, f.upper);
      body != [] && body[0] != '-' && body[0] != ' ' && Read(body, f.base, f.upper) == m
  {
    NumeralReadsBack(m, f.base, f.upper);
    NumeralIsCanonical(m, f.base, f.upper);
    StartsWithDigit(fill, Numeral(m, f.base, f.upper), f);
    ReadZeros(fill, f.base, f.upper);
    ReadAfterZeros(Repeat('0', fill), Numeral(m, f.base, f.upper), f.base, f.upper);
  }

  lemma SignedValue(w: Word, signed: bool)
    ensures ValueOf(w, signed) == if Negative(w, signed) then -(Magnitude(w, signed) as int) else Magnitude(w, signed)
  {
  }

  lemma Assoc(a: string, b: string, c: string)
    ensures a + (b + c) == a + b + c
  {
  }

  /** The text of a negative or non-negative number, in either kind of field. */
  lemma FilledParses(negative: bool, fill: int, m: nat, f: Format)
    ensures Parse(SignText(negative) + Repeat('0', fill) + Numeral(m, f.base, f.upper), f) == if negative then -(m as int) else m
    ensures Parse(Repeat(' ', fill) + SignText(negative) + Numeral(m, f.base, f.upper), f) == if negative then -(m as int) else m
  {
    ZeroFilled(fill, m, f);
    ZeroFilled(0, m, f);
    var digits := Numeral(m, f.base, f.upper);
    assert Repeat('0', 0) + digits == digits;
    ParseBoth(negative, Repeat('0', fill) + digits, digits, fill, m, f);
    Assoc(SignText(negative), Repeat('0', fill), digits);
    Assoc(Repeat(' ', fill), SignText(negative), digits);
  }

  lemma ParseBoth(negative: bool, filled: string, digits: string, pad: int, m: nat, f: Format)
    requires filled != [] && filled[0] != '-' && filled[0] != ' ' && Read(filled, f.base, f.upper) == m
    requires digits != [] && digits[0] != '-' && digits[0] != ' ' && Read(digits, f.base, f.upper) == m
    ensures Parse(SignText(negative) + filled, f) == if negative then -(m as int) else m
    ensures Parse(Repeat(' ', pad) + (SignText(negative) + digits), f) == if negative then -(m as int) else m
  {
    ParseSigned(negative, filled, f);
    ParseSigned(negative, digits, f);
    ParsePadded(pad, SignText(negative) + digits, f);
  }

  lemma IntegerTextParses(w: Word, f: Format, zero: bool, width: int)
    ensures Parse(IntegerText(w, f, zero, width), f) == ValueOf(w, f.signed)
  {
    var m := Magnitude(w, f.signed);
    var fill := Fill(width, |Numeral(m, f.base, f.upper)|, |Sign(w, f.signed)|);
    FilledParses(Negative(w, f.signed), fill, m, f);
    SignedValue(w, f.signed);
  }

  /** Every integer conversion of every word, the most negative one included, reads back as the number,
      and fills exactly the wider of the field and the number, unless a width below zero wraps: one that
      was written, and did not wrap itself, is never so low. */
  lemma IntegerTextReadsBack(w: Word, f: Format, zero: bool, width: int)
    requires -0x8000_0000 <= width < 0x8000_0000
    ensures var s := IntegerText(w, f, zero, width);
      var n := |Numeral(Magnitude(w, f.signed), f.base, f.upper)| + |Sign(w, f.signed)|;
      && |s| == (if width - n < -0x8000_0000 then width + WRAP else if width > n then width else n)
      && (width >= -1 ==> |s| == if width > n then width else n)
      && Parse(s, f) == ValueOf(w, f.signed)
  {
    IntegerTextLength(w, f, zero, width);
    NumeralOfWord(Magnitude(w, f.signed), f);
    IntegerTextParses(w, f, zero, width);
  }

  lemma {:induction false} BeforeDotSnoc(s: string, c: char)
    ensures BeforeDot(s + [c]) == if '.' in s || c == '.' then BeforeDot(s) else BeforeDot(s) + [c]
    decreases |s|
  {
    if s == [] {
      assert BeforeDot([c][1..]) == [];
    } else {
      assert (s + [c])[1..] == s[1..] + [c];
      assert s == [s[0]] + s[1..];
      BeforeDotSnoc(s[1..], c);
    }
  }

  lemma DecimalsSnoc(s: string, c: char)
    ensures Decimals(s + [c]) == if IsDecimal(c) then Decimals(s) + [c] else Decimals(s)
  {
    assert (s + [c])[..|s + [c]| - 1] == s;
  }

  lemma WidthOfDecimal(digits: string, c: char)
    requires IsDecimal(c)
    ensures Read(digits + [c], 10, false) == (if digits == [] then 0 else Read(digits, 10, false) * 10) + (c - '0') as int
  {
    ReadSnoc(digits, c, 10, false);
  }

  /** How the written width grows with each flag character. */
  lemma DecimalWidthSnoc(s: string, c: char)
    requires IsFlag(c)
    ensures DecimalWidth(s + [c]) ==
      if IsDecimal(c) && '.' !in s then (if DecimalWidth(s) < 0 then 0 else DecimalWidth(s) * 10) + (c - '0') as int
      else DecimalWidth(s)
  {
    BeforeDotSnoc(s, c);
    DecimalsSnoc(BeforeDot(s), c);
    if IsDecimal(c) {
      WidthOfDecimal(Decimals(BeforeDot(s)), c);
    }
  }

  lemma FieldsSnoc(s: string, c: char)
    ensures FieldsOf(s + [c]) == WithFlag(FieldsOf(s), c)
  {
    assert (s + [c])[..|s + [c]| - 1] == s;
  }

  predicate AreFlags(flags: string) {
    forall i :: 0 <= i < |flags| ==> IsFlag(flags[i])
  }

  /** The digits after a '.' that find the second number wrapped below zero, and so go to the width. */
  function Strays(flags: string): seq<nat> {
    if flags == [] then []
    else
      var s, c := flags[..|flags| - 1], flags[|flags| - 1];
      if '.' in s && IsDecimal(c) && FieldsOf(s).after < 0 then Strays(s) + [(c - '0') as nat] else Strays(s)
  }

  /** A width with more digits. */
  function Grown(w: int, ds: seq<nat>): int {
    if ds == [] then w else AddDigit(Grown(w, ds[..|ds| - 1]), ds[|ds| - 1])
  }

  lemma AddDigitFits(w: int, d: nat)
    requires -1 <= w && (if w < 0 then 0 else w * 10) + d < 0x8000_0000
    ensures AddDigit(w, d) == (if w < 0 then 0 else w * 10) + d
  {
    LongFits(w * 10);
    LongFits((if w < 0 then 0 else w * 10) + d);
  }

  lemma GrownSnoc(w: int, ds: seq<nat>, d: nat)
    ensures Grown(w, ds + [d]) == AddDigit(Grown(w, ds), d)
  {
    assert (ds + [d])[..|ds + [d]| - 1] == ds;
  }

  /** The machine works with the width as written, if that fits, and the stray digits after it. */
  lemma {:induction false} WidthWithStrays(flags: string)
    requires AreFlags(flags) && DecimalWidth(flags) < 0x8000_0000
    ensures WidthOf(flags) == Grown(DecimalWidth(flags), Strays(flags)) && DecimalWidth(flags) >= -1
    ensures '.' !in flags ==> FieldsOf(flags).after == -1 && Strays(flags) == []
    decreases |flags|
  {
    if flags != [] {
      var s, c := flags[..|flags| - 1], flags[|flags| - 1];
      assert flags == s + [c];
      DecimalWidthSnoc(s, c);
      WidthWithStrays(s);
      if IsDecimal(c) {
        GrownSnoc(DecimalWidth(s), Strays(s), (c - '0') as nat);
        if '.' !in s {
          AddDigitFits(DecimalWidth(s), (c - '0') as nat);
        }
      }
    }
  }

  /** There are none as long as what is written after the '.' fits in 32 bits. */
  lemma {:induction false} NoStrays(flags: string)
    requires AreFlags(flags) && DecimalRest(flags) < 0x8000_0000
    ensures Strays(flags) == []
    ensures '.' in flags ==> 0 <= FieldsOf(flags).after <= DecimalRest(flags)
    decreases |flags|
  {
    if flags != [] {
      var s, c := flags[..|flags| - 1], flags[|flags| - 1];
      assert flags == s + [c];
      assert DecimalRest(s) <= DecimalRest(flags);
      NoStrays(s);
      if IsDecimal(c) && '.' in s {
        LongFits(FieldsOf(s).after * 10 + (c - '0') as int);
      }
    }
  }

  lemma {:induction false} WidthInRange(flags: string)
    ensures -0x8000_0000 <= WidthOf(flags) < 0x8000_0000
  {
    if flags != [] {
      var s, c := flags[..|flags| - 1], flags[|flags| - 1];
      WidthInRange(s);
      if IsDecimal(c) {
        var d := (c - '0') as int;
        LongRange((if WidthOf(s) < 0 then 0 else Long(WidthOf(s) * 10)) + d);
      }
    }
  }

  /** The machine works with the width as written exactly if it fits in 32 bits and the stray digits leave
      it as it is; there are none, and it only has to fit, if what is written after the '.' fits too. */
  lemma WidthIff(flags: string)
    requires AreFlags(flags)
    ensures WidthOf(flags) == DecimalWidth(flags) <==>
      DecimalWidth(flags) < 0x8000_0000 && Grown(DecimalWidth(flags), Strays(flags)) == DecimalWidth(flags)
    ensures DecimalRest(flags) < 0x8000_0000 ==>
      (WidthOf(flags) == DecimalWidth(flags) <==> DecimalWidth(flags) < 0x8000_0000)
  {
    WidthInRange(flags);
    if DecimalWidth(flags) < 0x8000_0000 {
      WidthWithStrays(flags);
    }
    if DecimalRest(flags) < 0x8000_0000 {
      NoStrays(flags);
    }
  }

  lemma GrowWidth(s: string, c: char, n: nat)
    requires FieldsOf(s) == Fields(n, -1) && IsDecimal(c) && n < 0x8000_0000 / 10
    ensures FieldsOf(s + [c]) == Fields(n * 10 + (c - '0') as int, -1)
  {
    FieldsSnoc(s, c);
    LongFits(n * 10);
    LongFits(n * 10 + (c - '0') as int);
  }

  lemma NineDigitWidth()
    ensures FieldsOf("214748364") == Fields(214748364, -1)
  {
    FieldsSnoc("", '2');
    LongFits(2);
    assert "" + ['2'] == "2";
    GrowWidth("2", '1', 2);
    GrowWidth("2" + "1", '4', 21);
    GrowWidth("2" + "1" + "4", '7', 214);
    GrowWidth("2" + "1" + "4" + "7", '4', 2147);
    GrowWidth("2" + "1" + "4" + "7" + "4", '8', 21474);
    GrowWidth("2" + "1" + "4" + "7" + "4" + "8", '3', 214748);
    GrowWidth("2" + "1" + "4" + "7" + "4" + "8" + "3", '6', 2147483);
    GrowWidth("2" + "1" + "4" + "7" + "4" + "8" + "3" + "6", '4', 21474836);
    assert "2" + "1" + "4" + "7" + "4" + "8" + "3" + "6" + "4" == "214748364";
  }

  /** A width of 2^31 is taken for -2^31. */
  lemma WideWidthWraps()
    ensures WidthOf("214748364" + "8") == -0x8000_0000
  {
    NineDigitWidth();
    FieldsSnoc("214748364", '8');
    LongFits(2147483640);
  }

  lemma GrowRest(s: string, c: char, w: int, n: nat)
    requires FieldsOf(s) == Fields(w, n) && IsDecimal(c) && n < 0x8000_0000 / 10
    ensures FieldsOf(s + [c]) == Fields(w, n * 10 + (c - '0') as int)
  {
    FieldsSnoc(s, c);
    LongFits(n * 10 + (c - '0') as int);
  }

  /** Nine digits after the point. */
  lemma LongRest(s: string)
    requires FieldsOf(s) == Fields(5, 0)
    ensures FieldsOf(s + "214748364") == Fields(5, 214748364)
  {
    GrowRest(s, '2', 5, 0);
    GrowRest(s + "2", '1', 5, 2);
    GrowRest(s + "2" + "1", '4', 5, 21);
    GrowRest(s + "2" + "1" + "4", '7', 5, 214);
    GrowRest(s + "2" + "1" + "4" + "7", '4', 5, 2147);
    GrowRest(s + "2" + "1" + "4" + "7" + "4", '8', 5, 21474);
    GrowRest(s + "2" + "1" + "4" + "7" + "4" + "8", '3', 5, 214748);
    GrowRest(s + "2" + "1" + "4" + "7" + "4" + "8" + "3", '6', 5, 2147483);
    GrowRest(s + "2" + "1" + "4" + "7" + "4" + "8" + "3" + "6", '4', 5, 21474836);
    assert s + "2" + "1" + "4" + "7" + "4" + "8" + "3" + "6" + "4" == s + "214748364";
  }

  /** A stray digit: the number after the point wraps, and the next digit makes a width of 5 one of 50. */
  lemma StrayDigitWidens()
    ensures WidthOf("5." + "214748364" + "80") == 50
  {
    assert FieldsOf("5.") == Fields(5, 0) by {
      FieldsSnoc("5", '.');
      FieldsSnoc("", '5');
      AddDigitFits(-1, 5);
      assert "5" + ['.'] == "5." && "" + ['5'] == "5";
    }
    var s := "5." + "214748364";
    LongRest("5.");
    FieldsSnoc(s, '8');
    LongOnceRound(2147483648);
    FieldsSnoc(s + ['8'], '0');
    AddDigitFits(5, 0);
    assert s + ['8'] + ['0'] == s + "80";
  }

  /** A flag character moves from the rest of a directive into its flags. */
  lemma DirectiveFlag(s: string, flags: string, zero: bool, args: nat -> Word, k: nat, str: Word -> string)
    requires s != [] && IsFlag(s[0])
    ensures Directive(s, flags, zero, args, k, str) == Directive(s[1..], flags + [s[0]], zero, args, k, str)
  {
    var n := FlagsLength(s);
    assert flags + s[..n] == (flags + [s[0]]) + s[1..][..n - 1];
    if n < |s| {
      assert s[1..][n - 1 + 1..] == s[n + 1..];
    }
  }

  /** Any other character ends the directive. */
  lemma DirectiveLetter(s: string, flags: string, zero: bool, args: nat -> Word, k: nat, str: Word -> string)
    requires s != [] && !IsFlag(s[0])
    ensures Directive(s, flags, zero, args, k, str)
      == Convert(s[0], zero, WidthOf(flags), args(k), str) + Text(s[1..], args, k + Uses(s[0]), str)
  {
    assert flags + s[..0] == flags;
  }
}
