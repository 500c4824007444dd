/** alt_printf(): the small printer, whose hexadecimal digits are picked out of the word by shifting
    and masking, and its agreement with the logging printer. */
module AltPrintf {
  import opened Arithmetic
  import opened Bits
  import opened Common
  import opened Digits
  import opened LogFormat

  // ---- Shifting and masking ----

  function ShiftLeft(x: nat, s: nat): nat {
    x * Pow(2, s) % WRAP
  }

  function ShiftRight(x: nat, s: nat): nat {
    PowPositive(2, s);
    x / Pow(2, s)
  }

  /** The digit of `v` with place value 16^j. */
  function Nibble(v: nat, j: nat): (d: nat)
    ensures d < 16
  {
    PowPositive(16, j);
    v / Pow(16, j) % 16
  }

  lemma Sixteen(x: nat)
    ensures 2 * (2 * (2 * (2 * x))) == 16 * x
  {
  }

  lemma {:induction false} PowersOfSixteen(j: nat)
    ensures Pow(2, 4 * j) == Pow(16, j)
  {
    if j > 0 {
      var s := 4 * (j - 1);
      PowersOfSixteen(j - 1);
      PowSucc(2, s);
      PowSucc(2, s + 1);
      PowSucc(2, s + 2);
      PowSucc(2, s + 3);
      Sixteen(Pow(2, s));
      PowSucc(16, j - 1);
    }
  }

  lemma {:induction false} PowMonotone(b: Base, m: nat, n: nat)
    requires m <= n
    ensures Pow(b, m) <= Pow(b, n)
    decreases n
  {
    if m < n {
      PowMonotone(b, m, n - 1);
      PowSucc(b, n - 1);
      PowPositive(b, n - 1);
      AtLeast(b, Pow(b, n - 1), 0);
    }
  }

  lemma MaskFits(j: nat)
    requires j <= 7
    ensures ShiftLeft(15, 4 * j) == 15 * Pow(2, 4 * j)
  {
    PowersOfSixteen(j);
    PowMonotone(16, j, 7);
    assert Pow(16, 7) == 0x1000_0000 by {
      assert Pow(16, 3) == 0x1000;
      assert Pow(16, 5) == 0x10_0000;
    }
  }

  lemma MultipleOverFactor(n: nat, p: nat)
    requires p > 0
    ensures n * p / p == n
    ensures n * p == 0 <==> n == 0
  {
    QuotientRemainder(n * p, p, n, 0);
    if n > 0 {
      AtLeast(n, p, 0);
    }
  }

  /** The two bit expressions of the code, in terms of digits. */
  lemma MaskIsNibble(v: Word, j: nat)
    requires j <= 7
    ensures And(v, ShiftLeft(15, 4 * j)) == 0 <==> Nibble(v, j) == 0
    ensures ShiftRight(And(v, ShiftLeft(15, 4 * j)), 4 * j) == Nibble(v, j)
  {
    MaskFits(j);
    MaskSelects(v, 4 * j);
    PowersOfSixteen(j);
    PowPositive(16, j);
    MultipleOverFactor(Nibble(v, j), Pow(16, j));
  }

  // ---- Digits by place ----

  lemma DropTop(v: nat, j: nat)
    requires v < Pow(16, j + 1) && Nibble(v, j) == 0
    ensures v < Pow(16, j)
  {
    FirstDigitBelow(v, 16, j);
    DivMod(v, Pow(16, j));
  }

  lemma TopDigit(v: nat, j: nat)
    requires v < Pow(16, j + 1) && Nibble(v, j) != 0
    ensures Pow(16, j) <= v
  {
    FirstDigitBelow(v, 16, j);
    DivMod(v, Pow(16, j));
    AtLeast(v / Pow(16, j), Pow(16, j), v % Pow(16, j));
  }

  lemma SplitDigit(v: nat, p: nat) returns (d: nat, r: nat)
    requires p > 0
    ensures d == v / p % 16 && r == v % p && r < p
    ensures v % (p * 16) == d * p + r
  {
    d, r := v / p % 16, v % p;
    DivMod(v, p);
    DivTwice(v, p, 16);
  }

  /** The low j + 1 digits are the digit at place j and the low j digits. */
  lemma NextDigit(v: nat, j: nat) returns (high: nat, low: nat)
    ensures Pow(16, j) > 0 && Pow(16, j + 1) > 0
    ensures high == v % Pow(16, j + 1) && low == v % Pow(16, j)
    ensures Fixed(high, 16, j + 1, false) == [Digit(Nibble(v, j), false)] + Fixed(low, 16, j, false)
  {
    PowPositive(16, j);
    PowPositive(16, j + 1);
    PowSucc(16, j);
    var d, r := SplitDigit(v, Pow(16, j));
    high, low := v % Pow(16, j + 1), r;
    FixedHead(high, d, r, 16, j, false);
  }

  // ---- The printer ----

  /** Finds the place of the first non-zero digit. The search ends because the word is not 0. */
  method FindFirstDigit(v: Word) returns (shift: nat, ghost j: nat)
    requires v != 0
    ensures j <= 7 && shift == 4 * j && Pow(16, j) <= v < Pow(16, j + 1)
  {
    shift := 28;
    j := 7;
    PowThirtyTwo();
    MaskIsNibble(v, j);
    while And(v, ShiftLeft(15, shift)) == 0
      invariant j <= 7 && shift == 4 * j && v < Pow(16, j + 1)
      invariant And(v, ShiftLeft(15, shift)) == 0 <==> Nibble(v, j) == 0
      decreases shift
    {
      DropTop(v, j);
      PowOne(16);
      shift := shift - 4;
      j := j - 1;
      MaskIsNibble(v, j);
    }
    TopDigit(v, j);
  }

  lemma PowThirtyTwo()
    ensures Pow(16, 8) == WRAP
  {
    assert Pow(16, 4) == 0x1_0000;
    assert Pow(16, 6) == 0x100_0000;
  }

  /** The digit at one place. */
  method HexDigit(v: Word, shift: nat, ghost j: nat) returns (c: char)
    requires j <= 7 && shift == 4 * j
    ensures c == Digit(Nibble(v, j), false)
  {
    MaskIsNibble(v, j);
    var digit := ShiftRight(And(v, ShiftLeft(15, shift)), shift);
    if digit <= 9 {
      c := '0' + digit as char;
    } else {
      c := 'a' + (digit - 10) as char;
    }
  }

  /** Prints the digits from place j down. */
  method PrintHexDigits(v: Word, start: nat, ghost j: nat) returns (out: string)
    requires j <= 7 && start == 4 * j
    requires v < Pow(16, j + 1)
    ensures out == Fixed(v, 16, j + 1, false)
  {
    out := [];
    var shift: int := start;
    ghost var n: nat, rest: nat := j + 1, v;
    PowPositive(16, n);
    QuotientRemainder(v, Pow(16, n), 0, v);
    while shift >= 0
      invariant n <= j + 1 && shift == 4 * n - 4
      invariant Pow(16, n) > 0 && rest == v % Pow(16, n)
      invariant out + Fixed(rest, 16, n, false) == Fixed(v, 16, j + 1, false)
      decreases n
    {
      var c := HexDigit(v, shift, n - 1);
      ghost var high, low := NextDigit(v, n - 1);
      Assoc(out, [c], Fixed(low, 16, n - 1, false));
      out := out + [c];
      shift := shift - 4;
      n, rest := n - 1, low;
    }
  }

  /** Prints a word in hexadecimal: its canonical digits, zero included. */
  method PrintHex(v: Word) returns (out: string)
    ensures out == Numeral(v, 16, false)
  {
    if v == 0 {
      return "0";
    }
    var shift, j := FindFirstDigit(v);
    out := PrintHexDigits(v, shift, j);
    NumeralIsFixed(v, 16, j + 1, false);
  }

  function Convert(c: char, w: Word, str: Word -> string): string {
    match c
    case '%' => "%"
    case 'c' => [ToChar(w)]
    case 'x' => Numeral(w, 16, false)
    case 's' => str(w)
    case _ => ""
  }

  function Uses(c: char): nat {
    if c in "cxs" then 1 else 0
  }

  /** What alt_printf() prints for `s`, the first `k` arguments having been used. */
  function Text(s: string, args: nat -> Word, k: nat, str: Word -> string): string
    decreases |s|
  {
    if s == [] then []
    else if s[0] != '%' then [s[0]] + Text(s[1..], args, k, str)
    else if |s| == 1 then []
    else Convert(s[1], args(k), str) + Text(s[2..], args, k + Uses(s[1]), str)
  }

  method PrintConversion(c: char, w: Word, str: Word -> string) returns (out: string, used: nat)
    ensures out == Convert(c, w, str) && used == Uses(c)
  {
    out, used := [], 0;
    if c == '%' {
      out := [c];
    } else if c == 'c' {
      out, used := [ToChar(w)], 1;
    } else if c == 'x' {
      out := PrintHex(w);
      used := 1;
    } else if c == 's' {
      used := 1;
      var text := str(w);
      var i := 0;
      while i < |text|
        invariant 0 <= i <= |text|
        invariant out == text[..i]
      {
        out := out + [text[i]];
        i := i + 1;
      }
    }
  }

  lemma TextConversion(s: string, i: nat, args: nat -> Word, k: nat, str: Word -> string)
    requires i + 1 < |s| && s[i] == '%'
    ensures Text(s[i..], args, k, str)
      == Convert(s[i + 1], args(k), str) + Text(s[i + 2..], args, k + Uses(s[i + 1]), str)
  {
    assert s[i..][1] == s[i + 1];
    assert s[i..][2..] == s[i + 2..];
  }

  lemma TextLiteral(s: string, i: nat, args: nat -> Word, k: nat, str: Word -> string)
    requires i < |s| && s[i] != '%'
    ensures Text(s[i..], args, k, str) == [s[i]] + Text(s[i + 1..], args, k, str)
  {
    assert s[i..][1..] == s[i + 1..];
  }

  /** One character or one conversion. */
  method PrintItem(fmt: string, i: nat, args: nat -> Word, k: nat, str: Word -> string)
    returns (text: string, i': nat, k': nat)
    requires i < |fmt|
    ensures i < i' <= |fmt|
    ensures text + Text(fmt[i'..], args, k', str) == Text(fmt[i..], args, k, str)
  {
    if fmt[i] != '%' {
      TextLiteral(fmt, i, args, k, str);
      text, i', k' := [fmt[i]], i + 1, k;
    } else if i + 1 < |fmt| {
      TextConversion(fmt, i, args, k, str);
      var used;
      text, used := PrintConversion(fmt[i + 1], args(k), str);
      i', k' := i + 2, k + used;
    } else {
      assert fmt[i..] == "%";
      text, i', k' := [], |fmt|, k;
    }
  }

  /** Prints exactly what the format string means. */
  method Printf(fmt: string, args: nat -> Word, str: Word -> string) returns (out: string)
    ensures out == Text(fmt, args, 0, str)
  {
    out := [];
    var i: nat, k: nat := 0, 0;
    while i < |fmt|
      invariant i <= |fmt|
      invariant out + Text(fmt[i..], args, k, str) == Text(fmt, args, 0, str)
    {
      var text;
      text, i, k := PrintItem(fmt, i, args, k, str);
      Assoc(out, text, Text(fmt[i..], args, k, str));
      out := out + text;
    }
  }

  // ---- The two printers ----

  lemma NoFill(r: int, s: string)
    requires r <= 0
    ensures Repeat(' ', r) + s == s
  {
  }

  lemma Unpadded(digits: string)
    requires 1 <= |digits| <= 33
    ensures Repeat(' ', Fill(-1, |digits|, |SignText(false)|)) + SignText(false) + digits == digits
  {
    FillIs(-1, |digits|, 0);
    NoFill(Fill(-1, |digits|, 0), SignText(false));
    assert SignText(false) + digits == digits;
  }

  /** The two hexadecimal printers agree on every word. */
  lemma HexPrintersAgree(w: Word)
    ensures IntegerText(w, Format(16, false, false), false, -1) == Numeral(w, 16, false)
  {
    NumeralOfWord(w, Format(16, false, false));
    Unpadded(Numeral(w, 16, false));
  }

  /** The format strings both printers understand: each '%' ends the string or introduces one of the
      conversions of alt_printf(). */
  predicate Shared(s: string)
    decreases |s|
  {
    if s == [] then true
    else if s[0] != '%' then Shared(s[1..])
    else if |s| == 1 then true
    else s[1] in "%cxs" && Shared(s[2..])
  }

  lemma SharedConversion(c: char, w: Word, str: Word -> string)
    requires c in "cxs" && |str(w)| < 0x8000_0000
    ensures LogFormat.Convert(c, false, -1, w, str) == Convert(c, w, str)
    ensures LogFormat.Uses(c) == Uses(c) == 1
    ensures !IsFlag(c)
  {
    if c == 'x' {
      HexPrintersAgree(w);
    } else if c == 's' {
      LongFits(-1 - |str(w)|);
      NoFill(-1 - |str(w)|, str(w));
    } else {
      LongFits(-2);
      NoFill(-2, [ToChar(w)]);
    }
  }

  /** A bare conversion in the logging printer. */
  lemma BareDirective(s: string, args: nat -> Word, k: nat, str: Word -> string)
    requires |s| > 1 && s[0] == '%' && s[1] in "cxs"
    ensures LogFormat.Text(s, args, k, str)
      == LogFormat.Convert(s[1], false, -1, args(k), str) + LogFormat.Text(s[2..], args, k + 1, str)
  {
    DirectiveLetter(s[1..], "", false, args, k, str);
    assert s[1..][1..] == s[2..];
    assert WidthOf("") == -1;
  }

  lemma AgreeOnConversion(s: string, args: nat -> Word, k: nat, str: Word -> string)
    requires |s| > 1 && s[0] == '%' && s[1] in "cxs" && |str(args(k))| < 0x8000_0000
    requires Text(s[2..], args, k + 1, str) == LogFormat.Text(s[2..], args, k + 1, str)
    ensures Text(s, args, k, str) == LogFormat.Text(s, args, k, str)
  {
    BareDirective(s, args, k, str);
    SharedConversion(s[1], args(k), str);
  }

  lemma AgreeOnPercent(s: string, args: nat -> Word, k: nat, str: Word -> string)
    requires |s| > 1 && s[0] == '%' && s[1] == '%'
    requires Text(s[2..], args, k, str) == LogFormat.Text(s[2..], args, k, str)
    ensures Text(s, args, k, str) == LogFormat.Text(s, args, k, str)
  {
  }

  /** The length of every string is an int; the logging printer counts on it. */
  ghost predicate Short(str: Word -> string) {
    forall w :: |str(w)| < 0x8000_0000
  }

  /** On those format strings the two printers print the same, for every argument list. */
  lemma {:induction false} PrintersAgree(s: string, args: nat -> Word, k: nat, str: Word -> string)
    requires Shared(s) && Short(str)
    ensures Text(s, args, k, str) == LogFormat.Text(s, args, k, str)
    decreases |s|
  {
    if s != [] && s[0] != '%' {
      PrintersAgree(s[1..], args, k, str);
    } else if |s| > 1 && s[1] == '%' {
      PrintersAgree(s[2..], args, k, str);
      AgreeOnPercent(s, args, k, str);
    } else if |s| > 1 {
      PrintersAgree(s[2..], args, k + 1, str);
      AgreeOnConversion(s, args, k, str);
    }
  }
}
