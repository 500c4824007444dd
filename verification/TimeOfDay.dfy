/** settimeofday() and gettimeofday(): the time is kept as an offset from the tick counter. The set
    multiplies the ticks by the microseconds in 32 bits, the get in 64. */
module TimeOfDay {
  import opened Arithmetic
  import opened Common
  import opened Digits

  const US := 1000000

  datatype TimeVal = TimeVal(sec: int, usec: int)

  datatype Zone = Zone(minutesWest: int, dstTime: int)

  /** A time in microseconds. */
  function Total(t: TimeVal): int {
    t.sec * US + t.usec
  }

  predicate Normalised(t: TimeVal) {
    0 <= t.usec < US
  }

  function MicrosPerTick(rate: Word): nat
    requires rate > 0
  {
    US / rate
  }

  /** The microseconds within a second of a tick count, as the get computes them. */
  function Micros64(ticks: Word, rate: Word): nat
    requires rate > 0
  {
    ticks * MicrosPerTick(rate) % US
  }

  /** And as the set computes them. */
  function Micros32(ticks: Word, rate: Word): nat
    requires rate > 0
  {
    ticks * MicrosPerTick(rate) % WRAP % US
  }

  /** The offset the set stores. */
  function Offset(t: TimeVal, ticks: Word, rate: Word): TimeVal
    requires rate > 0
  {
    TimeVal(Long(t.sec - ticks / rate), Long(t.usec - Micros32(ticks, rate)))
  }

  /** The sum the get starts from. */
  function Sum(reset: TimeVal, ticks: Word, rate: Word): TimeVal
    requires rate > 0
  {
    TimeVal(Long(reset.sec + ticks / rate), Long(reset.usec + Micros64(ticks, rate)))
  }

  class Clock {
    var resetTime: TimeVal
    var timezone: Zone

    constructor ()
      ensures resetTime == TimeVal(0, 0) && timezone == Zone(0, 0)
    {
      resetTime, timezone := TimeVal(0, 0), Zone(0, 0);
    }

    /** Fails, and changes nothing, without a system clock. */
    method Set(t: TimeVal, tz: Zone, ticks: Word, rate: Word) returns (ok: bool)
      modifies this
      ensures ok <==> rate != 0
      ensures ok ==> resetTime == Offset(t, ticks, rate) && timezone == tz
      ensures !ok ==> resetTime == old(resetTime) && timezone == old(timezone)
    {
      if rate == 0 {
        return false;
      }
      var sec := Long(t.sec - ticks / rate);
      var usec := Long(t.usec - ticks * (US / rate) % WRAP % US);
      resetTime := TimeVal(sec, usec);
      timezone := tz;
      return true;
    }

    /** Both loops end for every stored offset and every tick count. */
    method Get(ticks: Word, rate: Word) returns (t: Option<TimeVal>, tz: Zone)
      ensures t.Some? <==> rate != 0
      ensures tz == timezone
      ensures t.Some? ==> Normalised(t.value) && t.value == Carry(Sum(resetTime, ticks, rate))
    {
      tz := timezone;
      if rate == 0 {
        return None, tz;
      }
      var sum := Sum(resetTime, ticks, rate);
      var sec, usec := sum.sec, sum.usec;
      while usec < 0
        invariant Carry(TimeVal(sec, usec)) == Carry(sum)
        decreases -usec
      {
        if sec <= 0 {
          sec, usec := 0, 0;
          break;
        }
        sec, usec := sec - 1, usec + US;
      }
      while usec >= US
        invariant usec >= 0 && Carry(TimeVal(sec, usec)) == Carry(sum)
        decreases usec
      {
        sec, usec := Long(sec + 1), usec - US;
      }
      t := Some(TimeVal(sec, usec));
    }
  }

  /** What the two loops make of a time. */
  function Carry(t: TimeVal): TimeVal
    decreases if t.usec < 0 then 1 else 0, if t.usec < 0 then -t.usec else t.usec
  {
    if t.usec < 0 then
      if t.sec <= 0 then TimeVal(0, 0) else Carry(TimeVal(t.sec - 1, t.usec + US))
    else if t.usec >= US then Carry(TimeVal(Long(t.sec + 1), t.usec - US))
    else t
  }

  /** The times whose seconds fit in a long end here. */
  const LIMIT := 0x8000_0000 * US

  /** Carrying keeps the time, except that one before zero becomes zero. */
  lemma {:induction false} CarryKeepsTotal(t: TimeVal)
    requires t.sec >= 0 && Total(t) < LIMIT
    ensures Normalised(Carry(t)) && Carry(t).sec >= 0
    ensures Total(Carry(t)) == if Total(t) < 0 then 0 else Total(t)
    decreases if t.usec < 0 then 1 else 0, if t.usec < 0 then -t.usec else t.usec
  {
    if t.usec < 0 && t.sec > 0 {
      CarryKeepsTotal(TimeVal(t.sec - 1, t.usec + US));
    } else if t.usec >= US {
      LongFits(t.sec + 1);
      CarryKeepsTotal(TimeVal(t.sec + 1, t.usec - US));
    }
  }

  /** A carry past the last second of a long turns the clock back to the first. */
  lemma CarryOverflows(t: TimeVal)
    requires 0 <= t.sec < 0x8000_0000 && t.usec < 2 * US && Total(t) >= LIMIT
    ensures Carry(t) == TimeVal(-0x8000_0000, t.usec - US) && Normalised(Carry(t))
  {
    assert t.sec == 0x7FFF_FFFF;
    assert Long(0x8000_0000) == -0x8000_0000;
  }

  lemma LongAbsorbs(x: int, y: int)
    ensures Long(Long(x) + y) == Long(x + y)
  {
  }

  /** With a tick rate that divides a second into whole microseconds, ticks and microseconds agree. */
  lemma TicksAsTime(ticks: nat, rate: nat, per: nat)
    requires rate > 0 && US == per * rate
    ensures ticks * per == (ticks / rate) * US + ticks * per % US
  {
    var q, r := ticks / rate, ticks % rate;
    DivMod(ticks, rate);
    if per == 0 {
    } else {
      Spread(q, rate, r, per);
      Below(r, rate, per);
      QuotientRemainder(ticks * per, US, q, r * per);
    }
  }

  lemma Spread(q: nat, rate: nat, r: nat, per: nat)
    ensures (q * rate + r) * per == q * (per * rate) + r * per
  {
    assert (q * rate) * per == q * (per * rate);
  }

  lemma Below(r: nat, rate: nat, per: nat)
    requires r < rate && per > 0
    ensures r * per < per * rate
  {
  }

  /** How many microseconds the 32-bit product loses within a second. */
  function Drift(ticks: Word, rate: Word): int
    requires rate > 0
  {
    Micros64(ticks, rate) - Micros32(ticks, rate)
  }

  lemma Products(a: nat, b: nat, per: nat)
    ensures (b - a) * per == b * per - a * per
  {
  }

  /** The sum a get starts from is the set time, the ticks since then, and the drift. */
  lemma SumAfterSet(t: TimeVal, t0: Word, t1: Word, rate: Word)
    requires rate > 0 && US == MicrosPerTick(rate) * rate && t0 <= t1
    requires Normalised(t) && 0 <= t.sec && t.sec + t1 / rate - t0 / rate < WRAP / 2
    ensures t0 / rate <= t1 / rate
    ensures var sum := Sum(Offset(t, t0, rate), t1, rate);
      && 0 <= sum.sec < 0x8000_0000 && sum.usec < 2 * US
      && Total(sum) == Total(t) + (t1 - t0) * MicrosPerTick(rate) + Drift(t0, rate)
  {
    var per := MicrosPerTick(rate);
    TicksAsTime(t0, rate, per);
    TicksAsTime(t1, rate, per);
    Products(t0, t1, per);
    QuotientMonotone(t0, t1, rate);
    LongAbsorbs(t.sec - t0 / rate, t1 / rate);
    LongFits(t.sec - t0 / rate + t1 / rate);
    LongAbsorbs(t.usec - Micros32(t0, rate), Micros64(t1, rate));
    LongFits(t.usec - Micros32(t0, rate) + Micros64(t1, rate));
  }

  /** The time a get at t1 gives after a set to t at t0. */
  function Got(t: TimeVal, t0: Word, t1: Word, rate: Word): TimeVal
    requires rate > 0
  {
    Carry(Sum(Offset(t, t0, rate), t1, rate))
  }

  /** After a set at t0, a get at t1 gives the set time plus the elapsed ticks, plus the drift, but
      never a time before zero; if that is past the last second of a long, the clock is turned back. */
  lemma GetAfterSet(t: TimeVal, t0: Word, t1: Word, rate: Word)
    requires rate > 0 && US == MicrosPerTick(rate) * rate && t0 <= t1
    requires Normalised(t) && 0 <= t.sec && t.sec + t1 / rate - t0 / rate < WRAP / 2
    ensures var exact := Total(t) + (t1 - t0) * MicrosPerTick(rate) + Drift(t0, rate);
      && Normalised(Got(t, t0, t1, rate))
      && (exact < LIMIT ==> Total(Got(t, t0, t1, rate)) == if exact < 0 then 0 else exact)
      && (exact >= LIMIT ==> Got(t, t0, t1, rate).sec == -0x8000_0000)
  {
    SumAfterSet(t, t0, t1, rate);
    var sum := Sum(Offset(t, t0, rate), t1, rate);
    if Total(sum) < LIMIT {
      CarryKeepsTotal(sum);
    } else {
      CarryOverflows(sum);
    }
  }

  lemma Coprime(k: int)
    ensures (k * 67108864) % 15625 == 0 <==> k % 15625 == 0
  {
    var j, i := k * 67108864 / 15625, k / 15625;
    if (k * 67108864) % 15625 == 0 {
      assert k * 67108864 == j * 15625;
      QuotientRemainder(k, 15625, j * 12659 - 54369991 * k, 0);
    }
    if k % 15625 == 0 {
      QuotientRemainder(k * 67108864, 15625, i * 67108864, 0);
    }
  }

  lemma ScaleBy64(x: int)
    ensures (x * 64) % US == 0 <==> x % 15625 == 0
  {
  }

  lemma WrapShare(k: int)
    ensures (k * WRAP) % US == 0 <==> k % 15625 == 0
  {
    Coprime(k);
    ScaleBy64(k * 67108864);
  }

  /** The drift vanishes exactly if the product of ticks and microseconds wraps a multiple of 15625
      times: in particular if it fits in 32 bits. */
  lemma DriftIff(ticks: Word, rate: Word)
    requires rate > 0
    ensures Drift(ticks, rate) == 0 <==> (ticks * MicrosPerTick(rate) / WRAP) % 15625 == 0
  {
    var x := ticks * MicrosPerTick(rate);
    var k, r := x / WRAP, x % WRAP;
    assert x == k * WRAP + r;
    SameModulo(k * WRAP, r);
    WrapShare(k);
  }

  lemma SameModulo(d: int, r: int)
    ensures (d + r) % US == r % US <==> d % US == 0
  {
  }

  /** A get is exact exactly if the result fits in a long and the set did not drift, or the exact time
      is zero and the drift went below it. */
  lemma ExactIff(t: TimeVal, t0: Word, t1: Word, rate: Word)
    requires rate > 0 && US == MicrosPerTick(rate) * rate && t0 <= t1
    requires Normalised(t) && 0 <= t.sec && t.sec + t1 / rate - t0 / rate < WRAP / 2
    ensures Total(Got(t, t0, t1, rate)) == Total(t) + (t1 - t0) * MicrosPerTick(rate)
      <==> Total(t) + (t1 - t0) * MicrosPerTick(rate) + Drift(t0, rate) < LIMIT
           && ((t0 * MicrosPerTick(rate) / WRAP) % 15625 == 0
               || (Total(t) == 0 && t0 == t1 && Micros64(t0, rate) < Micros32(t0, rate)))
  {
    GetAfterSet(t, t0, t1, rate);
    DriftIff(t0, rate);
    Elapsed(t1 - t0, MicrosPerTick(rate));
  }

  lemma Elapsed(n: nat, per: nat)
    requires per > 0
    ensures n * per >= 0 && (n * per == 0 <==> n == 0)
  {
  }

  /** At 1000 ticks a second and five million ticks the set drifts by 32704 microseconds: a get at once
      gives 0.967296 s for the 1 s set. */
  lemma DriftIsReachable()
    ensures Drift(5000000, 1000) == -32704
    ensures Got(TimeVal(1, 0), 5000000, 5000000, 1000) == TimeVal(0, 967296)
  {
    assert Offset(TimeVal(1, 0), 5000000, 1000) == TimeVal(1 - 5000, -32704);
    assert Sum(TimeVal(1 - 5000, -32704), 5000000, 1000) == TimeVal(1, -32704);
  }

  /** And a set to the last second of a long is turned back by the next carry. */
  lemma OverflowIsReachable()
    ensures Got(TimeVal(0x7FFF_FFFF, 999999), 0, 1, 1000) == TimeVal(-0x8000_0000, 999)
  {
    assert Offset(TimeVal(0x7FFF_FFFF, 999999), 0, 1000) == TimeVal(0x7FFF_FFFF, 999999);
    assert Sum(TimeVal(0x7FFF_FFFF, 999999), 1, 1000) == TimeVal(0x7FFF_FFFF, 1000999);
    CarryOverflows(TimeVal(0x7FFF_FFFF, 1000999));
  }
}
