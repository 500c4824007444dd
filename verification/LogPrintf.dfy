/** alt_log_private_printf(): a three-state machine over the characters of the format, which prints
    integers by counting digits and then dividing by falling powers of the base. */
module LogPrintf {
  import opened Arithmetic
  import opened Common
  import opened Digits
  import opened LogFormat

  /** alt_log_repchar(). */
  method RepChar(c: char, r: int) returns (out: string)
    ensures out == Repeat(c, r)
  {
    out := [];
    var left := r;
    while left > 0
      invariant out + Repeat(c, left) == Repeat(c, r)
      decreases left
    {
      out := out + [c];
      left := left - 1;
      RepeatFront(c, left + 1);
    }
  }

  lemma {:induction false} RepeatFront(c: char, r: int)
    requires r > 0
    ensures Repeat(c, r) == [c] + Repeat(c, r - 1)
    decreases r
  {
    if r > 1 {
      RepeatFront(c, r - 1);
    }
  }

  /** Counts the digits of `v` and finds the place value of the first, without leaving 32 bits. */
  method CountDigits(v: Word, b: Base) returns (digitCount: nat, p: Word)
    ensures digitCount >= 1 && p == Pow(b, digitCount - 1)
    ensures v < Pow(b, digitCount) && (digitCount > 1 ==> p <= v)
  {
    p, digitCount := 1, 1;
    var vShrink := v / b;
    PowOne(b);
    DivMod(v, b);
    while vShrink > 0
      invariant digitCount >= 1 && p == Pow(b, digitCount - 1)
      invariant digitCount > 1 ==> p <= v
      invariant 0 < Pow(b, digitCount) && vShrink == v / Pow(b, digitCount)
      decreases vShrink
    {
      PlaceValue(v, b, digitCount);
      digitCount := digitCount + 1;
      p := p * b;
      vShrink := vShrink / b;
    }
    PowPositive(b, digitCount);
    DivMod(v, Pow(b, digitCount));
  }

  lemma PlaceValue(v: nat, b: Base, n: nat)
    requires n >= 1 && Pow(b, n) > 0 && v / Pow(b, n) > 0
    ensures Pow(b, n) == Pow(b, n - 1) * b && Pow(b, n) <= v
    ensures 0 < Pow(b, n + 1) && (v / Pow(b, n)) / b == v / Pow(b, n + 1)
    ensures (v / Pow(b, n)) / b < v / Pow(b, n)
  {
    var p := Pow(b, n);
    PowPositive(b, n + 1);
    PowSucc(b, n);
    PowSucc(b, n - 1);
    DivMod(v, p);
    AtLeast(v / p, p, v % p);
    DivTwice(v, p, b);
    assert p * b == b * p;
    QuotientShrinks(v / p, b);
  }

  lemma QuotientShrinks(q: nat, b: nat)
    requires b > 1 && q > 0
    ensures q / b < q
  {
    DivMod(q, b);
    AtLeastDouble(q / b, b);
  }

  lemma AtLeastDouble(x: int, b: nat)
    requires x >= 0 && b >= 2
    ensures x * b >= x + x
  {
  }

  /** The character of one digit, as the code computes it from the character codes. */
  method DigitChar(d: nat, upper: bool) returns (c: char)
    requires d < 16
    ensures c == Digit(d, upper)
  {
    var code := d + '0' as nat;
    if code > '9' as nat {
      code := code + (if upper then 'A' as nat else 'a' as nat) - '0' as nat - 10;
    }
    c := code as char;
  }

  /** One digit of the loop below: what is left is smaller by one place. */
  lemma PeelDigit(v: nat, p: nat, b: Base, n: nat, upper: bool) returns (q: nat, r: nat)
    requires n >= 1 && p == Pow(b, n - 1) && p > 0 && v < Pow(b, n)
    ensures q == v / p && r == v % p && q < b && r < p
    ensures Fixed(v, b, n, upper) == [Digit(q, upper)] + Fixed(r, b, n - 1, upper)
  {
    FirstDigitBelow(v, b, n - 1);
    q, r := DivModOf(v, p);
    FixedHead(v, q, r, b, n - 1, upper);
  }

  lemma NextPlace(b: Base, n: nat)
    requires n >= 1
    ensures Pow(b, n - 1) / b == if n == 1 then 0 else Pow(b, n - 2)
  {
    if n > 1 {
      PowSucc(b, n - 2);
      QuotientRemainder(Pow(b, n - 1), b, Pow(b, n - 2), 0);
    } else {
      PowOne(b);
      QuotientRemainder(1, b, 0, 1);
    }
  }

  method PrintDigits(v: Word, p: Word, b: Base, ghost digitCount: nat, upper: bool) returns (out: string)
    requires digitCount >= 1 && p == Pow(b, digitCount - 1) && v < Pow(b, digitCount)
    ensures out == Fixed(v, b, digitCount, upper)
  {
    out := [];
    var rest: nat, place: nat := v, p;
    ghost var n := digitCount;
    PowPositive(b, n - 1);
    while place != 0
      invariant place == if n == 0 then 0 else Pow(b, n - 1)
      invariant rest < Pow(b, n)
      invariant out + Fixed(rest, b, n, upper) == Fixed(v, b, digitCount, upper)
      decreases n
    {
      ghost var q, r := PeelDigit(rest, place, b, n, upper);
      NextPlace(b, n);
      var c := DigitChar(rest / place, upper);
      Assoc(out, [c], Fixed(r, b, n - 1, upper));
      out := out + [c];
      rest := rest % place;
      place := place / b;
      n := n - 1;
      if n > 0 {
        PowPositive(b, n - 1);
      }
    }
  }

  /** The leading characters and the sign. */
  method PrintLead(sign: bool, leadingZero: bool, room: int) returns (out: string)
    requires Long(room) == room
    ensures var fill := Long(room - |SignText(sign)|);
      out == if leadingZero then SignText(sign) + Repeat('0', fill) else Repeat(' ', fill) + SignText(sign)
  {
    out := [];
    var fill := Long(room);
    if leadingZero {
      if sign {
        out := out + ['-'];
        fill := Long(fill - 1);
      }
      var zeros := RepChar('0', fill);
      out := out + zeros;
    } else {
      if sign {
        fill := Long(fill - 1);
      }
      out := RepChar(' ', fill);
      if sign {
        out := out + ['-'];
      }
    }
  }

  /** The 32-bit negation of a word whose top bit is set is its magnitude, that of the most negative
      int included. */
  method StripSign(w: Word, signed: bool) returns (v: Word, sign: bool)
    ensures v == Magnitude(w, signed) && sign == Negative(w, signed)
  {
    v, sign := w, false;
    if signed && v >= SIGN {
      v := (WRAP - v) % WRAP;
      sign := true;
    }
  }

  /** The code under doIntegerPrint. */
  method PrintInteger(w: Word, f: Format, leadingZero: bool, beforeDecimal: int) returns (out: string)
    ensures out == IntegerText(w, f, leadingZero, beforeDecimal)
  {
    var v, sign := StripSign(w, f.signed);
    var digitCount, p := CountDigits(v, f.base);
    NumeralIsFixed(v, f.base, digitCount, f.upper);
    out := PrintLead(sign, leadingZero, Long(beforeDecimal - digitCount));
    var digits := PrintDigits(v, p, f.base, digitCount, f.upper);
    out := out + digits;
  }

  /** A conversion letter: what it prints and whether it takes an argument. Any other letter prints
      nothing and takes none. */
  method PrintConversion(c: char, leadingZero: bool, beforeDecimal: int, w: Word, str: Word -> string)
    returns (out: string, used: nat)
    ensures out == Convert(c, leadingZero, beforeDecimal, w, str) && used == Uses(c)
  {
    out, used := [], 1;
    match c
    case 'd' => out := PrintInteger(w, Format(10, true, false), leadingZero, beforeDecimal);
    case 'i' => out := PrintInteger(w, Format(10, true, false), leadingZero, beforeDecimal);
    case 'u' => out := PrintInteger(w, Format(10, false, false), leadingZero, beforeDecimal);
    case 'o' => out := PrintInteger(w, Format(8, false, false), leadingZero, beforeDecimal);
    case 'x' => out := PrintInteger(w, Format(16, false, false), leadingZero, beforeDecimal);
    case 'X' => out := PrintInteger(w, Format(16, false, true), leadingZero, beforeDecimal);
    case 'c' =>
      out := RepChar(' ', Long(beforeDecimal - 1));
      out := out + [ToChar(w)];
    case 's' =>
      var text := str(w);
      out := RepChar(' ', Long(beforeDecimal - |text|));
      var i := 0;
      while i < |text|
        invariant 0 <= i <= |text|
        invariant out == Repeat(' ', Long(beforeDecimal - |text|)) + text[..i]
      {
        out := out + [text[i]];
        i := i + 1;
      }
    case _ => used := 0;
  }

  datatype State = Chars | FirstFmtChar | OtherFmtChar

  /** The locals of an open directive. */
  datatype Locals = Locals(leadingZero: bool, long: bool, beforeDecimal: int, afterDecimal: int)

  /** What is still to be printed in each state. `flags` are the flag characters read so far. */
  function Owed(state: State, s: string, flags: string, zero: bool, args: nat -> Word, k: nat, str: Word -> string): string {
    match state
    case Chars => Text(s, args, k, str)
    case FirstFmtChar => Text("%" + s, args, k, str)
    case OtherFmtChar => Directive(s, flags, zero, args, k, str)
  }

  /** How the locals record the flags read so far. */
  predicate Records(m: Locals, flags: string) {
    Fields(m.beforeDecimal, m.afterDecimal) == FieldsOf(flags)
  }

  /** A flag character in the state OtherFmtChar. */
  method TakeFlag(c: char, m: Locals, ghost flags: string) returns (n: Locals)
    requires IsFlag(c) && Records(m, flags)
    ensures Records(n, flags + [c]) && n.leadingZero == m.leadingZero
  {
    n := m;
    FieldsSnoc(flags, c);
    if c == '.' {
      n := n.(afterDecimal := 0);
    } else if '0' <= c <= '9' {
      var d := (c - '0') as int;
      if n.afterDecimal < 0 {
        if n.beforeDecimal < 0 {
          n := n.(beforeDecimal := 0);
        } else {
          n := n.(beforeDecimal := Long(n.beforeDecimal * 10));
        }
        n := n.(beforeDecimal := Long(n.beforeDecimal + d));
      } else {
        n := n.(afterDecimal := Long(n.afterDecimal * 10 + d));
      }
    } else {
      n := n.(long := true);
    }
  }

  /** The letter that ends a directive. */
  method EndDirective(s: string, m: Locals, ghost flags: string, args: nat -> Word, k: nat, str: Word -> string)
    returns (out: string, k': nat)
    requires s != [] && !IsFlag(s[0]) && Records(m, flags)
    ensures out + Text(s[1..], args, k', str) == Directive(s, flags, m.leadingZero, args, k, str)
  {
    var used;
    out, used := PrintConversion(s[0], m.leadingZero, m.beforeDecimal, args(k), str);
    k' := k + used;
    DirectiveLetter(s, flags, m.leadingZero, args, k, str);
  }

  /** The state OtherFmtChar: a flag, or the letter that ends the directive. */
  method OtherChar(s: string, m: Locals, ghost flags: string, args: nat -> Word, k: nat, str: Word -> string)
    returns (state: State, n: Locals, ghost flags': string, out: string, k': nat)
    requires s != [] && Records(m, flags)
    ensures state != FirstFmtChar && (state == OtherFmtChar ==> Records(n, flags'))
    ensures out + Owed(state, s[1..], flags', n.leadingZero, args, k', str) == Directive(s, flags, m.leadingZero, args, k, str)
  {
    var c := s[0];
    state, n, out, k' := OtherFmtChar, m, [], k;
    flags' := flags;
    if c == '.' || '0' <= c <= '9' || c == 'l' {
      n := TakeFlag(c, m, flags);
      flags' := flags + [c];
      DirectiveFlag(s, flags, m.leadingZero, args, k, str);
    } else {
      out, k' := EndDirective(s, m, flags, args, k, str);
      state := Chars;
    }
  }

  /** One character through the machine. */
  method Step(state: State, s: string, m: Locals, ghost flags: string, args: nat -> Word, k: nat, str: Word -> string)
    returns (state': State, n: Locals, ghost flags': string, out: string, k': nat)
    requires s != [] && (state == OtherFmtChar ==> Records(m, flags))
    requires state == FirstFmtChar ==> Records(m, "") && !m.leadingZero
    ensures state' == OtherFmtChar ==> Records(n, flags')
    ensures state' == FirstFmtChar ==> Records(n, "") && !n.leadingZero
    ensures out + Owed(state', s[1..], flags', n.leadingZero, args, k', str)
      == Owed(state, s, flags, m.leadingZero, args, k, str)
  {
    var c := s[0];
    state', n, out, k' := state, m, [], k;
    flags' := flags;
    match state
    case Chars =>
      if c == '%' {
        n := Locals(false, false, -1, -1);
        state' := FirstFmtChar;
        assert "%" + s[1..] == s;
      } else {
        out := [c];
      }
    case FirstFmtChar =>
      ghost var t := "%" + s;
      assert t[1..] == s && t[2..] == s[1..];
      flags' := "";
      if c == '0' {
        n := m.(leadingZero := true);
        state' := OtherFmtChar;
      } else if c == '%' {
        out := [c];
        state' := Chars;
      } else {
        state', n, flags', out, k' := OtherChar(s, m, "", args, k, str);
      }
    case OtherFmtChar =>
      state', n, flags', out, k' := OtherChar(s, m, flags, args, k, str);
  }

  /** Prints exactly what the format string means, for every format string and argument list. */
  method Printf(fmt: string, args: nat -> Word, str: Word -> string) returns (out: string)
    ensures out == Text(fmt, args, 0, str)
  {
    out := [];
    var i, k, state, m := 0, 0, Chars, Locals(false, false, 0, 0);
    ghost var flags := "";
    while i < |fmt|
      invariant 0 <= i <= |fmt|
      invariant state == OtherFmtChar ==> Records(m, flags)
      invariant state == FirstFmtChar ==> Records(m, "") && !m.leadingZero
      invariant out + Owed(state, fmt[i..], flags, m.leadingZero, args, k, str) == Text(fmt, args, 0, str)
    {
      var text;
      ghost var before := out;
      ghost var owed := Owed(state, fmt[i..], flags, m.leadingZero, args, k, str);
      state, m, flags, text, k := Step(state, fmt[i..], m, flags, args, k, str);
      out := out + text;
      assert fmt[i..][1..] == fmt[i + 1..];
      i := i + 1;
      Assoc(before, text, Owed(state, fmt[i..], flags, m.leadingZero, args, k, str));
    }
    NothingOwed(state, flags, m.leadingZero, args, k, str);
  }

  /** A format string that ends inside a directive prints nothing for it. */
  lemma NothingOwed(state: State, flags: string, zero: bool, args: nat -> Word, k: nat, str: Word -> string)
    ensures Owed(state, [], flags, zero, args, k, str) == []
  {
    assert "%" + [] == "%";
  }
}
