/** What a caller of the two printers may rely on, letter by letter: how each conversion reads back, how it is
    filled up, which argument it takes, and what a whole directive prints. */
module LogMeaning {
  import opened Common
  import opened Digits
  import opened LogFormat
  import Alt = AltPrintf

  // ---- Integer conversions ----

  /** What a conversion prints without the blanks in front, and without a minus sign. */
  function Body(s: string): string {
    var t := Unpad(s);
    if t != [] && t[0] == '-' then t[1..] else t
  }

  /** The printed number: digits of the base in the case asked for; filled up with zeros to the left and no
      blanks, or with blanks to the left and no superfluous zeros; as wide as the field, if that is wider. */
  predicate Layout(s: string, base: Base, upper: bool, zero: bool, width: int) {
    && Body(s) != [] && IsDigits(Body(s), base, upper)
    && (if zero then ' ' !in s else Canonical(Body(s), base, upper))
    && |s| >= width
  }

  lemma ZerosAreDigits(fill: int, digits: string, b: Base, upper: bool)
    requires IsDigits(digits, b, upper)
    ensures IsDigits(Repeat('0', fill) + digits, b, upper) && ' ' !in Repeat('0', fill) + digits
  {
    RepeatIsRepeat('0', fill);
    var s := Repeat('0', fill) + digits;
    forall i | 0 <= i < |s| ensures DigitValue(s[i], upper) < b && s[i] != ' ' {
      if i >= |Repeat('0', fill)| {
        assert s[i] == digits[i - |Repeat('0', fill)|];
      }
    }
  }

  lemma BodyOfSigned(negative: bool, digits: string)
    requires digits != [] && digits[0] != '-' && digits[0] != ' '
    ensures Body(SignText(negative) + digits) == digits
  {
    var s := SignText(negative) + digits;
    assert Unpad(s) == s;
    if negative {
      assert s[1..] == digits;
    } else {
      assert s == digits;
    }
  }

  lemma TextLayout(negative: bool, fill: int, m: nat, f: Format)
    ensures var digits := Numeral(m, f.base, f.upper);
      && Body(SignText(negative) + Repeat('0', fill) + digits) == Repeat('0', fill) + digits
      && Body(Repeat(' ', fill) + SignText(negative) + digits) == digits
      && ' ' !in SignText(negative) + Repeat('0', fill) + digits
      && Canonical(digits, f.base, f.upper) && IsDigits(Repeat('0', fill) + digits, f.base, f.upper)
  {
    var digits := Numeral(m, f.base, f.upper);
    NumeralIsCanonical(m, f.base, f.upper);
    ZerosAreDigits(fill, digits, f.base, f.upper);
    StartsWithDigit(fill, digits, f);
    StartsWithDigit(0, digits, f);
    assert Repeat('0', 0) + digits == digits;
    Assoc(SignText(negative), Repeat('0', fill), digits);
    BodyOfSigned(negative, Repeat('0', fill) + digits);
    Assoc(Repeat(' ', fill), SignText(negative), digits);
    UnpadSpaces(fill, SignText(negative) + digits);
    assert Unpad(SignText(negative) + digits) == SignText(negative) + digits;
    BodyOfSigned(negative, digits);
  }

  lemma IntegerLayout(w: Word, f: Format, zero: bool, width: int)
    requires -0x8000_0000 <= width < 0x8000_0000
    ensures Layout(IntegerText(w, f, zero, width), f.base, f.upper, zero, width)
  {
    var m := Magnitude(w, f.signed);
    var fill := Fill(width, |Numeral(m, f.base, f.upper)|, |Sign(w, f.signed)|);
    TextLayout(Negative(w, f.signed), fill, m, f);
    IntegerTextReadsBack(w, f, zero, width);
  }

  /** The number that a printed integer stands for, read in a base. */
  function Reads(s: string, base: Base, upper: bool): int {
    Parse(s, Format(base, false, upper))
  }

  lemma ReadsIsParse(s: string, f: Format)
    ensures Reads(s, f.base, f.upper) == Parse(s, f)
  {
  }

  /** %d and %i print the argument as a signed decimal number: itself below 2^31, and less 2^32 from there on. */
  lemma SignedDecimal(c: char, w: Word, zero: bool, width: int, str: Word -> string)
    requires (c == 'd' || c == 'i') && -0x8000_0000 <= width < 0x8000_0000
    ensures var s := Convert(c, zero, width, w, str);
      && Reads(s, 10, false) == (if w < 0x8000_0000 then w else w - 0x1_0000_0000)
      && Layout(s, 10, false, zero, width)
  {
    IntegerTextReadsBack(w, Format(10, true, false), zero, width);
    ReadsIsParse(IntegerText(w, Format(10, true, false), zero, width), Format(10, true, false));
    IntegerLayout(w, Format(10, true, false), zero, width);
  }

  /** %u, %o, %x and %X print it as a number without a sign, in bases 10, 8, 16 and 16, the last with the letters
      in upper case. */
  lemma Unsigned(c: char, w: Word, zero: bool, width: int, str: Word -> string)
    requires c in "uoxX" && -0x8000_0000 <= width < 0x8000_0000
    ensures var s := Convert(c, zero, width, w, str);
      && (c == 'u' ==> Reads(s, 10, false) == w && Layout(s, 10, false, zero, width))
      && (c == 'o' ==> Reads(s, 8, false) == w && Layout(s, 8, false, zero, width))
      && (c == 'x' ==> Reads(s, 16, false) == w && Layout(s, 16, false, zero, width))
      && (c == 'X' ==> Reads(s, 16, true) == w && Layout(s, 16, true, zero, width))
      && '-' !in s
  {
    var f := Format(if c == 'u' then 10 else if c == 'o' then 8 else 16, false, c == 'X');
    IntegerTextReadsBack(w, f, zero, width);
    ReadsIsParse(IntegerText(w, f, zero, width), f);
    IntegerLayout(w, f, zero, width);
    NoSign(w, f, zero, width);
  }

  lemma NoSign(w: Word, f: Format, zero: bool, width: int)
    requires !f.signed
    ensures '-' !in IntegerText(w, f, zero, width)
  {
    var digits := Numeral(w, f.base, f.upper);
    var fill := Fill(width, |digits|, 0);
    NumeralIsCanonical(w, f.base, f.upper);
    RepeatIsRepeat('0', fill);
    RepeatIsRepeat(' ', fill);
    forall i | 0 <= i < |digits| ensures digits[i] != '-' {
      assert DigitValue(digits[i], f.upper) < 16;
    }
  }

  // ---- The other conversions ----

  /** %c prints the low byte of its argument and %s its string, behind blanks up to the width; any other letter
      prints nothing. */
  lemma OtherLetters(c: char, w: Word, zero: bool, width: int, str: Word -> string)
    requires c !in "diuoxX" && -0x8000_0000 <= width < 0x8000_0000 && |str(w)| < 0x8000_0000
    ensures var s := Convert(c, zero, width, w, str);
      if c == 'c' then Padded(s, 1, width) && s[|s| - 1] as nat == w % 256
      else if c == 's' then Padded(s, |str(w)|, width) && s[|s| - |str(w)|..] == str(w)
      else s == ""
  {
    Blanks(width, 1);
    Blanks(width, |str(w)|);
  }

  lemma Blanks(width: int, shown: nat)
    requires -0x8000_0000 <= width < 0x8000_0000 && shown < 0x8000_0000
    ensures var blanks := Repeat(' ', Long(width - shown));
      && |blanks| == (if width - shown < -0x8000_0000 then width - shown + WRAP else if width > shown then width - shown else 0)
      && forall i :: 0 <= i < |blanks| ==> blanks[i] == ' '
  {
    if width - shown < -0x8000_0000 {
      LongOnceRound(width - shown);
    } else {
      LongFits(width - shown);
    }
    RepeatIsRepeat(' ', Long(width - shown));
  }

  /** `s` is as long as what it shows or as the field, whichever is longer, and blank up to what it shows; a width
      so far below zero that the difference wraps is a very wide field. */
  predicate Padded(s: string, shown: nat, width: int) {
    && |s| == (if width - shown < -0x8000_0000 then width + WRAP else if width > shown then width else shown)
    && forall i :: 0 <= i < |s| - shown ==> s[i] == ' '
  }

  // ---- Whole directives ----

  predicate FlagCharacter(c: char) {
    c in "0123456789.l"
  }

  predicate FlagCharacters(flags: string) {
    forall i :: 0 <= i < |flags| ==> FlagCharacter(flags[i])
  }

  lemma {:induction false} FlagsEnd(flags: string, c: char, rest: string)
    requires FlagCharacters(flags) && !FlagCharacter(c)
    ensures FlagsLength(flags + [c] + rest) == |flags|
    decreases |flags|
  {
    var s := flags + [c] + rest;
    if flags == [] {
      assert s[0] == c;
    } else {
      assert s[0] == flags[0] && s[1..] == flags[1..] + [c] + rest;
      FlagsEnd(flags[1..], c, rest);
    }
  }

  /** The directive %flags c: a zero right behind the % asks for zeros and does not count for the width; an l
      may be there; the letter takes its argument, if it takes one; then what follows is printed. */
  lemma DirectiveText(flags: string, c: char, rest: string, args: nat -> Word, k: nat, str: Word -> string)
    requires FlagCharacters(flags) && !FlagCharacter(c) && (flags == "" ==> c != '%')
    ensures var zero := flags != "" && flags[0] == '0';
      Text("%" + flags + [c] + rest, args, k, str)
        == Convert(c, zero, WidthOf(Shown(flags)), args(k), str) + Text(rest, args, k + LogFormat.Uses(c), str)
  {
    FlagFacts(flags, c, rest);
    DirectiveUses(flags, c, rest, args, k, str);
  }

  /** The flags without the zero that asks for zeros. */
  function Shown(flags: string): string {
    if flags != "" && flags[0] == '0' then flags[1..] else flags
  }

  /** The letter c ends the flags, and they do not begin with a percent sign. */
  predicate EndsFlags(flags: string, c: char, rest: string) {
    && c != '0' && (flags + [c])[0] != '%'
    && FlagsLength(Shown(flags) + [c] + rest) == |Shown(flags)|
  }

  lemma FlagFacts(flags: string, c: char, rest: string)
    requires FlagCharacters(flags) && !FlagCharacter(c) && (flags == "" ==> c != '%')
    ensures EndsFlags(flags, c, rest)
  {
    FlagsEnd(Shown(flags), c, rest);
  }

  lemma DirectiveUses(flags: string, c: char, rest: string, args: nat -> Word, k: nat, str: Word -> string)
    requires EndsFlags(flags, c, rest)
    ensures Text("%" + flags + [c] + rest, args, k, str)
      == Convert(c, flags != "" && flags[0] == '0', WidthOf(Shown(flags)), args(k), str)
         + Text(rest, args, k + LogFormat.Uses(c), str)
  {
    Opens(flags, c, rest, args, k, str);
    DirectiveParts(Shown(flags), c, rest, flags != "" && flags[0] == '0', args, k, str);
  }

  lemma Opens(flags: string, c: char, rest: string, args: nat -> Word, k: nat, str: Word -> string)
    requires c != '0' && (flags + [c])[0] != '%'
    ensures Text("%" + flags + [c] + rest, args, k, str)
      == Directive(Shown(flags) + [c] + rest, "", flags != "" && flags[0] == '0', args, k, str)
  {
    if flags != "" && flags[0] == '0' {
      ZeroFirst(flags, c, rest);
      OpensWithZero(flags[1..] + [c] + rest, args, k, str);
    } else {
      OpensPlain(flags, c, rest, args, k, str);
    }
  }

  lemma ZeroFirst(flags: string, c: char, rest: string)
    requires flags != "" && flags[0] == '0'
    ensures "%" + flags + [c] + rest == "%0" + (flags[1..] + [c] + rest)
  {
    assert flags == "0" + flags[1..];
  }

  lemma OpensWithZero(tail: string, args: nat -> Word, k: nat, str: Word -> string)
    ensures Text("%0" + tail, args, k, str) == Directive(tail, "", true, args, k, str)
  {
    assert ("%0" + tail)[2..] == tail;
  }

  lemma OpensPlain(flags: string, c: char, rest: string, args: nat -> Word, k: nat, str: Word -> string)
    requires var first := (flags + [c])[0]; first != '0' && first != '%'
    ensures Text("%" + flags + [c] + rest, args, k, str) == Directive(flags + [c] + rest, "", false, args, k, str)
  {
    var s := "%" + flags + [c] + rest;
    assert s[1] == (flags + [c])[0] && s[1..] == flags + [c] + rest;
  }

  /** Eight letters take an argument. */
  lemma LetterUses(c: char)
    ensures LogFormat.Uses(c) == if c in "diuoxXcs" then 1 else 0
  {
  }

  lemma DirectiveParts(shown: string, c: char, rest: string, zero: bool, args: nat -> Word, k: nat, str: Word -> string)
    requires FlagsLength(shown + [c] + rest) == |shown|
    ensures Directive(shown + [c] + rest, "", zero, args, k, str)
      == Convert(c, zero, WidthOf(shown), args(k), str) + Text(rest, args, k + LogFormat.Uses(c), str)
  {
    var s := shown + [c] + rest;
    DirectiveAt(s, |shown|, zero, args, k, str);
    Three(shown, c, rest);
  }

  lemma DirectiveAt(s: string, n: nat, zero: bool, args: nat -> Word, k: nat, str: Word -> string)
    requires n == FlagsLength(s) < |s|
    ensures Directive(s, "", zero, args, k, str)
      == Convert(s[n], zero, WidthOf("" + s[..n]), args(k), str) + Text(s[n + 1..], args, k + LogFormat.Uses(s[n]), str)
  {
  }

  lemma Three(a: string, c: char, b: string)
    ensures var s := a + [c] + b;
      |a| < |s| && "" + s[..|a|] == a && s[|a|] == c && s[|a| + 1..] == b
  {
  }

  /** So %d, with any flags, prints one argument as a signed decimal number. */
  lemma SignedDirective(flags: string, c: char, rest: string, args: nat -> Word, k: nat, str: Word -> string) returns (item: string)
    requires FlagCharacters(flags) && (c == 'd' || c == 'i')
    ensures Text("%" + flags + [c] + rest, args, k, str) == item + Text(rest, args, k + 1, str)
    ensures Reads(item, 10, false) == if args(k) < 0x8000_0000 then args(k) else args(k) - 0x1_0000_0000
  {
    var zero := flags != "" && flags[0] == '0';
    var width := WidthOf(Shown(flags));
    WidthInRange(Shown(flags));
    item := Convert(c, zero, width, args(k), str);
    DirectiveText(flags, c, rest, args, k, str);
    SignedDecimal(c, args(k), zero, width, str);
    LetterUses(c);
  }

  lemma {:induction false} FlagsOnly(flags: string)
    requires FlagCharacters(flags)
    ensures FlagsLength(flags) == |flags|
    decreases |flags|
  {
    if flags != [] {
      FlagsOnly(flags[1..]);
    }
  }

  /** A directive that the string ends in prints nothing. */
  lemma OpenEnd(flags: string, args: nat -> Word, k: nat, str: Word -> string)
    requires FlagCharacters(flags)
    ensures Text("%" + flags, args, k, str) == ""
  {
    var s := "%" + flags;
    if flags != "" {
      assert s[1] == flags[0] && s[1..] == flags && s[2..] == flags[1..];
      FlagsOnly(flags);
      FlagsOnly(flags[1..]);
    }
  }

  /** An l in the flags makes no difference to the width. */
  lemma LongIsIgnored(flags: string)
    ensures WidthOf(flags + ['l']) == WidthOf(flags)
  {
    FieldsSnoc(flags, 'l');
  }

  /** Anything else is printed as it is, and %% as %. */
  lemma {:induction false} PlainText(plain: string, rest: string, args: nat -> Word, k: nat, str: Word -> string)
    requires '%' !in plain
    ensures Text(plain + rest, args, k, str) == plain + Text(rest, args, k, str)
    ensures Text("%%" + rest, args, k, str) == "%" + Text(rest, args, k, str)
    decreases |plain|
  {
    assert ("%%" + rest)[2..] == rest;
    if plain == [] {
      assert plain + rest == rest;
    } else {
      assert (plain + rest)[1..] == plain[1..] + rest;
      PlainText(plain[1..], rest, args, k, str);
      Assoc([plain[0]], plain[1..], Text(rest, args, k, str));
      assert [plain[0]] + plain[1..] == plain;
    }
  }

  // ---- The small printer ----

  /** alt_printf(): plain text and %% as above; %x in lower-case hexadecimal without fill, %c and %s as they are;
      any other letter is dropped and takes no argument. */
  lemma {:induction false} AltPlainText(plain: string, rest: string, args: nat -> Word, k: nat, str: Word -> string)
    requires '%' !in plain
    ensures Alt.Text(plain + rest, args, k, str) == plain + Alt.Text(rest, args, k, str)
    ensures Alt.Text("%%" + rest, args, k, str) == "%" + Alt.Text(rest, args, k, str)
    decreases |plain|
  {
    assert ("%%" + rest)[2..] == rest;
    if plain == [] {
      assert plain + rest == rest;
    } else {
      assert (plain + rest)[1..] == plain[1..] + rest;
      AltPlainText(plain[1..], rest, args, k, str);
      Assoc([plain[0]], plain[1..], Alt.Text(rest, args, k, str));
      assert [plain[0]] + plain[1..] == plain;
    }
  }

  lemma AltDirective(c: char, rest: string, args: nat -> Word, k: nat, str: Word -> string) returns (item: string)
    requires c != '%'
    ensures Alt.Text("%" + [c] + rest, args, k, str)
      == item + Alt.Text(rest, args, k + (if c in "cxs" then 1 else 0), str)
    ensures AltItem(c, item, args(k), str)
  {
    item := Alt.Convert(c, args(k), str);
    var s := "%" + [c] + rest;
    assert s[0] == '%' && s[1] == c && s[2..] == rest;
    AltUses(c);
    AltConversion(c, args(k), str);
  }

  predicate AltItem(c: char, item: string, w: Word, str: Word -> string) {
    if c == 'x' then Read(item, 16, false) == w && Canonical(item, 16, false)
    else if c == 'c' then |item| == 1 && item[0] as nat == w % 256
    else if c == 's' then item == str(w)
    else item == ""
  }

  lemma AltUses(c: char)
    ensures Alt.Uses(c) == if c in "cxs" then 1 else 0
  {
  }

  lemma AltConversion(c: char, w: Word, str: Word -> string)
    requires c != '%'
    ensures AltItem(c, Alt.Convert(c, w, str), w, str)
  {
    NumeralReadsBack(w, 16, false);
    NumeralIsCanonical(w, 16, false);
  }
}
