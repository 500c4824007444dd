/** One layer of the accelerator: products of sign-magnitude numbers, the registered step to two's
    complement, and the chain of additions that adds them up in WIDTH_SM bits. */
module Layer {
  import opened Arithmetic
  import opened Digits

  /** WIDTH_W, WIDTH_I and LENGHT_I. The chain is only closed for two or more inputs. */
  datatype Shape = Shape(w: nat, i: nat, n: nat) {
    predicate Valid() {
      w >= 2 && i >= 2 && n >= 2
    }
  }

  /** $clog2. */
  function CLog2(n: nat): nat {
    if n <= 1 then 0 else 1 + CLog2((n + 1) / 2)
  }

  /** The number of bits of a product without its sign. */
  function Field(s: Shape): nat {
    s.w + s.i
  }

  /** 2^(WIDTH_W + WIDTH_I). */
  function Unit(s: Shape): nat {
    Pow(2, Field(s))
  }

  /** 2^(WIDTH_W + WIDTH_I - 2), which no product of magnitudes reaches. */
  function Quarter(s: Shape): nat
    requires s.Valid()
  {
    Pow(2, s.w + s.i - 2)
  }

  /** WIDTH_SM. */
  function SumWidth(s: Shape): nat {
    s.i + s.w + CLog2(s.n)
  }

  // ---- The wires ----

  predicate SignBit(x: nat, width: nat)
    requires width >= 1
  {
    x >= Pow(2, width - 1)
  }

  function Low(x: nat, width: nat): (r: nat)
    ensures r < Pow(2, width)
  {
    PowPositive(2, width);
    x % Pow(2, width)
  }

  /** mult_even: the exclusive or of the signs above the product of the magnitudes. */
  function MultEven(s: Shape, a: nat, b: nat): nat
    requires s.Valid()
  {
    Low(Low(a, s.w - 1) * Low(b, s.i - 1), Field(s))
    + if SignBit(a, s.w) != SignBit(b, s.i) then Pow(2, Field(s)) else 0
  }

  /** The output of twos_compleme for a registered input: the sign bit is kept and the bits below it
      are negated in a field that does not include it. */
  function TwosComplement(s: Shape, x: nat): nat {
    var bits := Low(x, Field(s));
    if x >= Pow(2, Field(s)) then Pow(2, Field(s)) + Low(Inverted(bits, Field(s)) + 1, Field(s)) else x
  }

  function Inverted(bits: nat, width: nat): nat
    requires bits < Pow(2, width)
  {
    Pow(2, width) - 1 - bits
  }

  /** mult_accum for m below the last, sum_mult for the last: zero-extended terms, truncated sums. */
  function Accum(s: Shape, regs: seq<nat>, m: nat): nat
    requires m < |regs|
  {
    var tc := TwosComplement(s, regs[m]);
    Low(if m == 0 then tc else tc + Accum(s, regs, m - 1), SumWidth(s))
  }

  // ---- What they stand for ----

  /** The number a sign-magnitude word stands for. */
  function Value(x: nat, width: nat): int
    requires width >= 1
  {
    if SignBit(x, width) then -(Low(x, width - 1) as int) else Low(x, width - 1)
  }

  function Product(s: Shape, a: nat, b: nat): int
    requires s.Valid()
  {
    Value(a, s.w) * Value(b, s.i)
  }

  function Dot(s: Shape, w: seq<nat>, x: seq<nat>, m: nat): int
    requires s.Valid() && m <= |w| && m <= |x|
  {
    if m == 0 then 0 else Dot(s, w, x, m - 1) + Product(s, w[m - 1], x[m - 1])
  }

  predicate NegativeSign(s: Shape, a: nat, b: nat)
    requires s.Valid()
  {
    SignBit(a, s.w) != SignBit(b, s.i)
  }

  function IsNegative(s: Shape, a: nat, b: nat): nat
    requires s.Valid()
  {
    if Product(s, a, b) < 0 then 1 else 0
  }

  function IsNegativeZero(s: Shape, a: nat, b: nat): nat
    requires s.Valid()
  {
    if NegativeSign(s, a, b) && Product(s, a, b) == 0 then 1 else 0
  }

  /** Products that are negative. */
  function Negatives(s: Shape, w: seq<nat>, x: seq<nat>, m: nat): nat
    requires s.Valid() && m <= |w| && m <= |x|
  {
    if m == 0 then 0 else Negatives(s, w, x, m - 1) + IsNegative(s, w[m - 1], x[m - 1])
  }

  /** Products that are zero but whose sign bit is set. */
  function NegativeZeros(s: Shape, w: seq<nat>, x: seq<nat>, m: nat): nat
    requires s.Valid() && m <= |w| && m <= |x|
  {
    if m == 0 then 0 else NegativeZeros(s, w, x, m - 1) + IsNegativeZero(s, w[m - 1], x[m - 1])
  }

  /** A word read as a two's complement number. */
  function Signed(x: nat, width: nat): int
    requires width >= 1
  {
    if SignBit(x, width) then x - Pow(2, width) else x
  }

  // ---- Powers of two ----

  lemma {:induction false} CLog2Bounds(n: nat)
    requires n >= 1
    ensures n <= Pow(2, CLog2(n))
    ensures n >= 2 ==> CLog2(n) >= 1 && Pow(2, CLog2(n) - 1) < n
    decreases n
  {
    if n >= 2 {
      CLog2Bounds((n + 1) / 2);
      PowSucc(2, CLog2((n + 1) / 2));
      if (n + 1) / 2 >= 2 {
        PowSucc(2, CLog2((n + 1) / 2) - 1);
      }
    }
  }

  // ---- One product ----

  lemma ProductFits(p: nat, q: nat, a: nat, b: nat)
    requires a < p && b < q
    ensures a * b < p * q
  {
  }

  /** A product of magnitudes leaves the two top bits of its field clear. */
  lemma MagnitudeProduct(s: Shape, a: nat, b: nat)
    requires s.Valid()
    ensures Low(a, s.w - 1) * Low(b, s.i - 1) < Quarter(s)
    ensures Unit(s) == 4 * Quarter(s)
  {
    ProductFits(Pow(2, s.w - 1), Pow(2, s.i - 1), Low(a, s.w - 1), Low(b, s.i - 1));
    PowAdd(s.w - 1, s.i - 1);
    PowSucc(2, Field(s) - 2);
    PowSucc(2, Field(s) - 1);
  }

  lemma LowSmall(x: nat, width: nat)
    requires x < Pow(2, width)
    ensures Low(x, width) == x
  {
    QuotientRemainder(x, Pow(2, width), 0, x);
  }

  lemma LowTop(x: nat, width: nat)
    requires x < Pow(2, width)
    ensures Low(Pow(2, width) + x, width) == x
  {
    QuotientRemainder(Pow(2, width) + x, Pow(2, width), 1, x);
  }

  lemma LowWhole(width: nat)
    ensures Low(Pow(2, width), width) == 0
  {
    PowPositive(2, width);
    LowTop(0, width);
  }

  /** mult_even holds the sign and the whole magnitude of the product. */
  lemma MultEvenIs(s: Shape, a: nat, b: nat) returns (mag: nat)
    requires s.Valid()
    ensures mag < Quarter(s) && Unit(s) == 4 * Quarter(s)
    ensures MultEven(s, a, b) == mag + if NegativeSign(s, a, b) then Unit(s) else 0
    ensures Product(s, a, b) == if NegativeSign(s, a, b) then -(mag as int) else mag
  {
    mag := Low(a, s.w - 1) * Low(b, s.i - 1);
    MagnitudeProduct(s, a, b);
    LowSmall(mag, Field(s));
    SignRule(Low(a, s.w - 1), Low(b, s.i - 1), SignBit(a, s.w), SignBit(b, s.i));
  }

  lemma TwosComplementIs(s: Shape, mag: nat)
    requires mag < Unit(s)
    ensures TwosComplement(s, mag) == mag
    ensures TwosComplement(s, mag + Unit(s)) == if mag == 0 then Unit(s) else 2 * Unit(s) - mag
  {
    LowSmall(mag, Field(s));
    LowTop(mag, Field(s));
    if mag == 0 {
      LowWhole(Field(s));
    } else {
      LowSmall(Inverted(mag, Field(s)) + 1, Field(s));
    }
  }

  lemma SignRule(x: nat, y: nat, nx: bool, ny: bool)
    ensures (if nx then -(x as int) else x) * (if ny then -(y as int) else y) == if nx != ny then -((x * y) as int) else x * y
  {
  }

  /** How far off a converted product is, in units of 2^(WIDTH_W + WIDTH_I). */
  function Excess(s: Shape, a: nat, b: nat): nat
    requires s.Valid()
  {
    2 * IsNegative(s, a, b) + IsNegativeZero(s, a, b)
  }

  /** The converted product is the product, plus a full turn if it is negative and half a turn if it
      is a negative zero. */
  lemma ConvertedProduct(s: Shape, a: nat, b: nat) returns (p: int)
    requires s.Valid()
    ensures p == Product(s, a, b)
    ensures TwosComplement(s, MultEven(s, a, b)) == p + Excess(s, a, b) * Unit(s)
    ensures -(Quarter(s) as int) < p < Quarter(s)
  {
    var mag := MultEvenIs(s, a, b);
    TwosComplementIs(s, mag);
    p := if NegativeSign(s, a, b) then -(mag as int) else mag;
  }

  // ---- The sum ----

  function Evens(s: Shape, w: seq<nat>, x: seq<nat>): (regs: seq<nat>)
    requires s.Valid() && |w| == |x|
    ensures |regs| == |w|
    ensures forall j :: 0 <= j < |w| ==> regs[j] == MultEven(s, w[j], x[j])
  {
    seq(|w|, j requires 0 <= j < |w| => MultEven(s, w[j], x[j]))
  }

  /** The number of half turns the chain is off after m products. */
  function HalfTurns(s: Shape, w: seq<nat>, x: seq<nat>, m: nat): nat
    requires s.Valid() && m <= |w| && m <= |x|
  {
    2 * Negatives(s, w, x, m) + NegativeZeros(s, w, x, m)
  }

  /** What the chain adds up, before any truncation. */
  function Turned(s: Shape, w: seq<nat>, x: seq<nat>, m: nat): int
    requires s.Valid() && m <= |w| && m <= |x|
  {
    Dot(s, w, x, m) + HalfTurns(s, w, x, m) * Unit(s)
  }

  lemma ExcessAdds(n: int, z: int, dn: int, dz: int, p: int)
    ensures (2 * (n + dn) + (z + dz)) * p == (2 * n + z) * p + (2 * dn + dz) * p
  {
    AddMultiples(p, 2 * n + z, 2 * dn + dz);
  }

  lemma TurnedStep(s: Shape, w: seq<nat>, x: seq<nat>, m: nat)
    requires s.Valid() && 1 <= m <= |w| && m <= |x|
    ensures Turned(s, w, x, m) == Turned(s, w, x, m - 1) + TwosComplement(s, MultEven(s, w[m - 1], x[m - 1]))
  {
    var a, b := w[m - 1], x[m - 1];
    var p := ConvertedProduct(s, a, b);
    ExcessAdds(Negatives(s, w, x, m - 1), NegativeZeros(s, w, x, m - 1), IsNegative(s, a, b), IsNegativeZero(s, a, b), Unit(s));
  }

  lemma ModAdd(t: int, y: int, m: nat)
    requires m > 0
    ensures (t + y % m) % m == (t + y) % m
  {
    var q := (t + y % m) / m;
    var r := (t + y % m) % m;
    assert t + y % m == q * m + r;
    assert y == (y / m) * m + y % m;
    AddMultiples(m, q, y / m);
    QuotientRemainder(t + y, m, q + y / m, r);
  }

  lemma {:induction false} AccumIs(s: Shape, w: seq<nat>, x: seq<nat>, m: nat)
    requires s.Valid() && |w| == |x| && m < |w|
    ensures Pow(2, SumWidth(s)) > 0
    ensures Accum(s, Evens(s, w, x), m) == Turned(s, w, x, m + 1) % Pow(2, SumWidth(s))
    decreases m
  {
    PowPositive(2, SumWidth(s));
    TurnedStep(s, w, x, m + 1);
    if m > 0 {
      AccumIs(s, w, x, m - 1);
      ModAdd(TwosComplement(s, MultEven(s, w[m], x[m])), Turned(s, w, x, m), Pow(2, SumWidth(s)));
    } else {
      assert Turned(s, w, x, 0) == 0;
    }
  }

  /** sum_mult for one output. */
  function SumMult(s: Shape, regs: seq<nat>): nat
    requires s.Valid() && |regs| == s.n
  {
    Accum(s, regs, s.n - 1)
  }

  lemma Spread(d: int, n: int, z: int, u: int, m: nat)
    requires m > 0
    ensures (d + (2 * n + z) * u) % m == (d + n * (2 * u) + z * u) % m
  {
    assert (2 * n + z) * u == n * (2 * u) + z * u;
  }

  lemma SumParts(s: Shape, w: seq<nat>, x: seq<nat>) returns (d: int, t: nat, u: nat, m: nat)
    requires s.Valid() && |w| == |x| == s.n
    ensures d == Dot(s, w, x, s.n) && t == HalfTurns(s, w, x, s.n)
    ensures u == Unit(s) && m == Pow(2, SumWidth(s)) && m > 0
    ensures SumMult(s, Evens(s, w, x)) == (d + t * u) % m
  {
    AccumIs(s, w, x, s.n - 1);
    d, t, u, m := Dot(s, w, x, s.n), HalfTurns(s, w, x, s.n), Unit(s), Pow(2, SumWidth(s));
  }

  /** The exact value of the accumulator, for all weights and inputs. */
  lemma ExactSum(s: Shape, w: seq<nat>, x: seq<nat>) returns (m: nat)
    requires s.Valid() && |w| == |x| == s.n
    ensures m == Pow(2, SumWidth(s)) && m > 0
    ensures SumMult(s, Evens(s, w, x))
      == (Dot(s, w, x, s.n)
          + Negatives(s, w, x, s.n) * Pow(2, Field(s) + 1)
          + NegativeZeros(s, w, x, s.n) * Pow(2, Field(s))) % m
  {
    var d, t, u;
    d, t, u, m := SumParts(s, w, x);
    Spread(d, Negatives(s, w, x, s.n), NegativeZeros(s, w, x, s.n), u, m);
    PowSucc(2, Field(s));
  }

  // ---- When the sum is right ----

  lemma DotStepBound(d: int, p: int, m: int, e: int)
    requires -(m * e) <= d <= m * e && -e < p < e
    ensures -((m + 1) * e) <= d + p <= (m + 1) * e
  {
  }

  lemma {:induction false} DotBound(s: Shape, w: seq<nat>, x: seq<nat>, m: nat)
    requires s.Valid() && m <= |w| && m <= |x|
    ensures -((m * Quarter(s)) as int) <= Dot(s, w, x, m) <= m * Quarter(s)
    decreases m
  {
    if m > 0 {
      DotBound(s, w, x, m - 1);
      var p := ConvertedProduct(s, w[m - 1], x[m - 1]);
      DotStepBound(Dot(s, w, x, m - 1), p, m - 1, Quarter(s));
    }
  }

  /** 2^(WIDTH_SM - 2). */
  function Half(s: Shape): nat
    requires s.Valid()
  {
    Pow(2, s.i + s.w + CLog2(s.n) - 2)
  }

  /** The signed dot product always fits in WIDTH_SM bits, with a bit to spare. */
  lemma DotFits(s: Shape, w: seq<nat>, x: seq<nat>)
    requires s.Valid() && |w| == |x| == s.n
    ensures -(Half(s) as int) <= Dot(s, w, x, s.n) <= Half(s)
    ensures Pow(2, SumWidth(s) - 1) == 2 * Half(s) && Pow(2, SumWidth(s)) == 4 * Half(s)
    ensures Half(s) > 0
  {
    DotBound(s, w, x, s.n);
    CLog2Bounds(s.n);
    Monotone(s.n, Pow(2, CLog2(s.n)), Quarter(s));
    PowAdd(CLog2(s.n), s.w + s.i - 2);
    PowSucc(2, SumWidth(s) - 2);
    PowSucc(2, SumWidth(s) - 1);
    PowPositive(2, SumWidth(s) - 2);
  }

  lemma ModDifference(x: int, y: int, m: nat)
    requires m > 0 && x % m == y % m
    ensures (x - y) % m == 0
  {
    assert x == (x / m) * m + x % m;
    assert y == (y / m) * m + y % m;
    AddMultiples(m, x / m, -(y / m));
    QuotientRemainder(x - y, m, x / m - y / m, 0);
  }

  lemma AddTurns(x: int, k: int, m: nat)
    requires m > 0 && k % m == 0
    ensures (x + k) % m == x % m
  {
    ModAdd(x, k, m);
  }

  /** A word reads as the number d exactly if they are equal modulo the width. */
  lemma SignedIff(v: int, d: int, h: int)
    requires 0 <= v < 4 * h && -h <= d <= h && h > 0
    ensures (if v >= 2 * h then v - 4 * h else v) == d <==> v == d % (4 * h)
  {
    if d >= 0 {
      QuotientRemainder(d, 4 * h, 0, d);
    } else {
      QuotientRemainder(d, 4 * h, -1, d + 4 * h);
    }
  }

  lemma CommonFactor(t: int, p: nat, q: nat)
    requires p > 0 && q > 0
    ensures p * q > 0 && ((t * p) % (q * p) == 0 <==> t % q == 0)
  {
    var k, r := t / q, t % q;
    assert t == k * q + r;
    AddMultiples(p, k * q, r);
    assert (k * q) * p == k * (q * p);
    ProductFits(q, p + 1, r, p);
    Scaled(r, q, p);
    QuotientRemainder(t * p, q * p, k, r * p);
  }

  lemma Scaled(r: nat, q: nat, p: nat)
    requires r < q && p > 0
    ensures r * p < q * p && (r * p == 0 <==> r == 0)
  {
  }

  lemma SameRemainder(d: int, k: int, m: nat)
    requires m > 0
    ensures (d + k) % m == d % m <==> k % m == 0
  {
    if k % m == 0 {
      AddTurns(d, k, m);
    }
    if (d + k) % m == d % m {
      ModDifference(d + k, d, m);
    }
  }

  lemma OffBy(d: int, t: nat, u: nat, m: nat, q: nat)
    requires u > 0 && q > 0 && m == q * u
    ensures m > 0 && ((d + t * u) % m == d % m <==> t % q == 0)
  {
    CommonFactor(t, u, q);
    SameRemainder(d, t * u, m);
  }

  lemma SumIsDotIff(s: Shape, w: seq<nat>, x: seq<nat>) returns (m: nat, q: nat)
    requires s.Valid() && |w| == |x| == s.n
    ensures m == Pow(2, SumWidth(s)) && m > 0 && q == Pow(2, CLog2(s.n)) && q > 0
    ensures SumMult(s, Evens(s, w, x)) == Dot(s, w, x, s.n) % m <==> HalfTurns(s, w, x, s.n) % q == 0
  {
    var d, t, u;
    d, t, u, m := SumParts(s, w, x);
    q := Pow(2, CLog2(s.n));
    PowPositive(2, CLog2(s.n));
    PowPositive(2, Field(s));
    PowAdd(CLog2(s.n), Field(s));
    OffBy(d, t, u, m, q);
  }

  /** The accumulator, read as a signed number of WIDTH_SM bits, is the dot product exactly if twice
      the negative products and the negative zeros together make a multiple of 2^clog2(LENGHT_I). */
  lemma RightIff(s: Shape, w: seq<nat>, x: seq<nat>)
    requires s.Valid() && |w| == |x| == s.n
    ensures Pow(2, CLog2(s.n)) > 0
    ensures Signed(SumMult(s, Evens(s, w, x)), SumWidth(s)) == Dot(s, w, x, s.n)
      <==> HalfTurns(s, w, x, s.n) % Pow(2, CLog2(s.n)) == 0
  {
    DotFits(s, w, x);
    var m, q := SumIsDotIff(s, w, x);
    SignedIff(SumMult(s, Evens(s, w, x)), Dot(s, w, x, s.n), Half(s));
  }

  /** With two inputs that is the case unless exactly one product is a negative zero. */
  lemma RightForTwo(s: Shape, w: seq<nat>, x: seq<nat>)
    requires s.Valid() && |w| == |x| == s.n == 2
    ensures Signed(SumMult(s, Evens(s, w, x)), SumWidth(s)) == Dot(s, w, x, s.n) <==> NegativeZeros(s, w, x, s.n) != 1
  {
    RightIff(s, w, x);
    OddForTwo(s, w, x);
  }

  lemma OddForTwo(s: Shape, w: seq<nat>, x: seq<nat>)
    requires s.Valid() && |w| == |x| == s.n == 2
    ensures Pow(2, CLog2(s.n)) > 0
    ensures HalfTurns(s, w, x, s.n) % Pow(2, CLog2(s.n)) == 0 <==> NegativeZeros(s, w, x, s.n) != 1
  {
    PowOne(2);
    AtMostTwo(s, w, x);
    EvenOf(Negatives(s, w, x, s.n), NegativeZeros(s, w, x, s.n));
  }

  lemma EvenOf(n: nat, z: nat)
    requires z <= 2
    ensures (2 * n + z) % 2 == 0 <==> z != 1
  {
  }

  lemma AtMostTwo(s: Shape, w: seq<nat>, x: seq<nat>)
    requires s.Valid() && |w| == |x| == s.n == 2
    ensures NegativeZeros(s, w, x, 2) <= 2 && CLog2(2) == 1
  {
    assert NegativeZeros(s, w, x, 1) <= 1;
  }

  lemma FactorRemainder(y: int, p: nat, q: nat)
    requires p > 0 && q > 0
    ensures q * p > 0 && (y % (q * p)) % p == y % p
  {
    var k, r := y / (q * p), y % (q * p);
    assert y == k * (q * p) + r;
    var a, b := r / p, r % p;
    assert r == a * p + b;
    assert k * (q * p) == (k * q) * p;
    AddMultiples(p, k * q, a);
    QuotientRemainder(y, p, k * q + a, b);
  }

  /** Modulo 2^(WIDTH_W + WIDTH_I) the accumulator is always right. */
  lemma RightInTheField(s: Shape, w: seq<nat>, x: seq<nat>)
    requires s.Valid() && |w| == |x| == s.n
    ensures Pow(2, Field(s)) > 0
    ensures SumMult(s, Evens(s, w, x)) % Pow(2, Field(s)) == Dot(s, w, x, s.n) % Pow(2, Field(s))
  {
    var p, q := Pow(2, Field(s)), Pow(2, CLog2(s.n));
    PowPositive(2, Field(s));
    PowPositive(2, CLog2(s.n));
    var d, t, u, m := SumParts(s, w, x);
    PowAdd(CLog2(s.n), Field(s));
    FactorRemainder(d + t * p, p, q);
    QuotientRemainder(t * p, p, t, 0);
    AddTurns(d, t * p, p);
  }

  /** With three inputs a single negative product is enough to make the sum wrong. */
  lemma WrongForThree()
    ensures var s := Shape(2, 2, 3);
      Signed(SumMult(s, Evens(s, [3, 0, 0], [1, 0, 0])), SumWidth(s)) != Dot(s, [3, 0, 0], [1, 0, 0], 3) == -1
  {
    var s := Shape(2, 2, 3);
    var w, x := [3, 0, 0], [1, 0, 0];
    assert Pow(2, 1) == 2 && Pow(2, 2) == 4;
    assert Product(s, 3, 1) == -1 && Product(s, 0, 0) == 0;
    assert CLog2(3) == 2;
    assert Negatives(s, w, x, 1) == 1 && NegativeZeros(s, w, x, 1) == 0 && Dot(s, w, x, 1) == -1;
    assert Negatives(s, w, x, 2) == 1 && NegativeZeros(s, w, x, 2) == 0 && Dot(s, w, x, 2) == -1;
    RightIff(s, w, x);
  }

  // ---- The module ----

  /** The words of output k in a flat vector. */
  function Row(v: seq<nat>, n: nat, k: nat): (r: seq<nat>)
    requires (k + 1) * n <= |v|
    ensures |r| == n
  {
    RowBounds(n, k);
    v[k * n..k * n + n]
  }

  lemma RowBounds(n: nat, k: nat)
    ensures 0 <= k * n && k * n + n == (k + 1) * n
  {
  }

  lemma RowInside(n: nat, k: nat, o: nat)
    requires k < o
    ensures (k + 1) * n <= o * n
  {
    Monotone(k + 1, o, n);
  }

  lemma RowOfExtension(v: seq<nat>, row: seq<nat>, n: nat, k: nat)
    requires |v| == k * n && |row| == n
    ensures (k + 1) * n <= |v + row| && Row(v + row, n, k) == row
    ensures forall j: nat | j < k :: (j + 1) * n <= |v| && Row(v + row, n, j) == Row(v, n, j)
  {
    RowBounds(n, k);
    forall j: nat | j < k
      ensures (j + 1) * n <= |v| && Row(v + row, n, j) == Row(v, n, j)
    {
      RowInside(n, j, k);
      RowBounds(n, j);
    }
  }

  class Network {
    const shape: Shape
    const outputs: nat
    /** The weights: a latch that is open while wr is high. */
    var w: seq<nat>
    /** The input registers of the twos_compleme stages. */
    var regs: seq<nat>

    ghost predicate Valid()
      reads this
    {
      shape.Valid() && |w| == outputs * shape.n && |regs| == outputs * shape.n
    }

    constructor (s: Shape, o: nat, w0: seq<nat>, regs0: seq<nat>)
      requires s.Valid() && |w0| == |regs0| == o * s.n
      ensures Valid() && shape == s && outputs == o && w == w0 && regs == regs0
    {
      shape, outputs, w, regs := s, o, w0, regs0;
    }

    method Latch(wr: bool, weights: seq<nat>)
      requires Valid() && |weights| == outputs * shape.n
      modifies this`w
      ensures Valid() && w == if wr then weights else old(w)
    {
      if wr {
        w := weights;
      }
    }

    /** A clock edge: every product is registered. One edge later sum_mult is the dot product of the
        weights and inputs sampled, off by the half turns. */
    method Clock(x: seq<nat>)
      requires Valid() && |x| == shape.n
      modifies this`regs
      ensures Valid()
      ensures forall k: nat | k < outputs :: Registered(k, x)
    {
      var next: seq<nat>, k: nat := [], 0;
      while k < outputs
        invariant k <= outputs && |next| == k * shape.n && |w| == outputs * shape.n
        invariant forall j: nat | j < k :: RowHolds(w, next, x, j)
      {
        RowInside(shape.n, k, outputs);
        RowBounds(shape.n, k);
        var row := Products(w[k * shape.n..k * shape.n + shape.n], x);
        RowOfExtension(next, row, shape.n, k);
        assert forall j: nat | j < k :: RowHolds(w, next, x, j) ==> RowHolds(w, next + row, x, j);
        next := next + row;
        k := k + 1;
      }
      regs := next;
    }

    ghost predicate RowHolds(weights: seq<nat>, next: seq<nat>, x: seq<nat>, k: nat) {
      shape.Valid() && |x| == shape.n
      && (k + 1) * shape.n <= |weights| && (k + 1) * shape.n <= |next|
      && Row(next, shape.n, k) == Evens(shape, Row(weights, shape.n, k), x)
    }

    ghost predicate Registered(k: nat, x: seq<nat>)
      reads this
    {
      RowHolds(w, regs, x, k)
    }

    /** What a clock edge registers, product by product: output k's weight for input m times that input. */
    lemma RegisteredProduct(weights: seq<nat>, x: seq<nat>, k: nat, m: nat)
      requires RowHolds(weights, regs, x, k) && m < shape.n
      ensures k * shape.n + m < |regs| && k * shape.n + m < |weights|
      ensures regs[k * shape.n + m] == MultEven(shape, weights[k * shape.n + m], x[m])
    {
      RowBounds(shape.n, k);
      assert Row(regs, shape.n, k)[m] == regs[k * shape.n + m];
      assert Row(weights, shape.n, k)[m] == weights[k * shape.n + m];
    }

    /** mult_even for one output, input by input. */
    method Products(row: seq<nat>, x: seq<nat>) returns (evens: seq<nat>)
      requires shape.Valid() && |row| == |x| == shape.n
      ensures evens == Evens(shape, row, x)
    {
      evens := [];
      var m := 0;
      while m < shape.n
        invariant 0 <= m <= shape.n && evens == Evens(shape, row, x)[..m]
      {
        evens := evens + [MultEven(shape, row[m], x[m])];
        m := m + 1;
      }
    }

    /** sum_mult[k]. */
    function Sum(k: nat): nat
      requires Valid() && k < outputs
      reads this
    {
      RowInside(shape.n, k, outputs);
      SumMult(shape, Row(regs, shape.n, k))
    }

    /** What an output's sum is after a clock edge. */
    lemma SumAfterClock(k: nat, x: seq<nat>)
      requires Valid() && k < outputs && Registered(k, x)
      ensures Pow(2, CLog2(shape.n)) > 0 && (k + 1) * shape.n <= |w|
      ensures var row := Row(w, shape.n, k);
        Signed(Sum(k), SumWidth(shape)) == Dot(shape, row, x, shape.n)
        <==> HalfTurns(shape, row, x, shape.n) % Pow(2, CLog2(shape.n)) == 0
    {
      RightIff(shape, Row(w, shape.n, k), x);
    }
  }
}
