/** The 32-bit arithmetic of one alarm, against a tick count that never wraps. */
module AlarmTiming {
  import opened Common

  /** The two fields that decide when an alarm goes off. */
  datatype Timer = Timer(time: Word, rollover: bool)

  function StartTimer(current: Word, nticks: Word): Timer {
    var time := (nticks + current + 1) % WRAP;
    Timer(time, time < current)
  }

  /** The roll-over flag is dropped at the tick at which the counter wraps to zero. */
  function AtTick(t: Timer, nticks: Word): Timer {
    t.(rollover := t.rollover && nticks != 0)
  }

  predicate Expired(t: Timer, nticks: Word) {
    t.time <= nticks && !t.rollover
  }

  function Rearm(t: Timer, nticks: Word, period: Word): Timer {
    var time := (t.time + period) % WRAP;
    Timer(time, t.rollover || time < nticks)
  }

  /** At unbounded tick `now`, the alarm is set for unbounded tick `due`. A distance of a whole
      turn of the counter is representable only just before the counter wraps. */
  predicate Pending(t: Timer, due: nat, now: nat) {
    && now < due
    && t.time == due % WRAP
    && if due < now + WRAP then t.rollover <==> due / WRAP != now / WRAP
       else due == now + WRAP && now % WRAP == WRAP - 1 && !t.rollover
  }

  /** What alt_alarm_start() promises, and when it can keep it. */
  predicate Startable(now: nat, nticks: Word) {
    nticks < WRAP - 1 || now % WRAP == WRAP - 1
  }

  lemma SplitTick(now: nat)
    ensures (now + 1) % WRAP == if now % WRAP == WRAP - 1 then 0 else now % WRAP + 1
    ensures (now + 1) / WRAP == if now % WRAP == WRAP - 1 then now / WRAP + 1 else now / WRAP
  {
  }

  lemma StartIsPending(now: nat, nticks: Word)
    requires Startable(now, nticks)
    ensures Pending(StartTimer(now % WRAP, nticks), now + nticks + 1, now)
  {
    var c := now % WRAP;
    assert (now + nticks + 1) == WRAP * (now / WRAP) + (c + nticks + 1);
  }

  /** A pending alarm goes off at its due tick and at no other, and otherwise stays pending. */
  lemma TickIsExact(t: Timer, due: nat, now: nat)
    requires Pending(t, due, now)
    ensures var n: Word := (now + 1) % WRAP; var s := AtTick(t, n);
      && (Expired(s, n) <==> due == now + 1)
      && (due != now + 1 ==> Pending(s, due, now + 1))
      && (due == now + 1 ==> s == Timer(n, false))
  {
    SplitTick(now);
  }

  lemma RearmIsPending(now: nat, period: Word)
    requires period > 0
    ensures Pending(Rearm(Timer(now % WRAP, false), now % WRAP, period), now + period, now)
  {
    var c := now % WRAP;
    assert now + period == WRAP * (now / WRAP) + (c + period);
  }

  /** The unbounded ticks among the next `ticks` at which the 32-bit rules fire an alarm whose
      callback returns `periods` in turn. */
  function Firings(t: Timer, now: nat, periods: seq<Word>, ticks: nat): seq<nat>
    decreases ticks
  {
    if ticks == 0 then []
    else
      var n: Word := (now + 1) % WRAP;
      var s := AtTick(t, n);
      if !Expired(s, n) then Firings(s, now + 1, periods, ticks - 1)
      else if periods == [] || periods[0] == 0 then [now + 1]
      else [now + 1] + Firings(Rearm(s, n, periods[0]), now + 1, periods[1..], ticks - 1)
  }

  /** The ticks at which it should fire: at `due`, then exactly one returned period later each
      time, until the callback returns zero. */
  function Schedule(due: nat, periods: seq<Word>, horizon: nat): seq<nat>
    decreases |periods|
  {
    if due > horizon then []
    else if periods == [] || periods[0] == 0 then [due]
    else [due] + Schedule(due + periods[0], periods[1..], horizon)
  }

  lemma {:induction false} PendingFiresOnSchedule(t: Timer, due: nat, now: nat, periods: seq<Word>, ticks: nat)
    requires Pending(t, due, now)
    ensures Firings(t, now, periods, ticks) == Schedule(due, periods, now + ticks)
    decreases ticks
  {
    if ticks > 0 {
      TickIsExact(t, due, now);
      var n: Word := (now + 1) % WRAP;
      var s := AtTick(t, n);
      if due != now + 1 {
        PendingFiresOnSchedule(s, due, now + 1, periods, ticks - 1);
      } else if periods != [] && periods[0] != 0 {
        RearmIsPending(now + 1, periods[0]);
        PendingFiresOnSchedule(Rearm(s, n, periods[0]), due + periods[0], now + 1, periods[1..], ticks - 1);
      }
    }
  }

  /** Exact timing, however often the counter wraps: started at tick `now`, an alarm first fires at
      now + nticks + 1 and then one returned period after the other, never early, late or missed. */
  lemma ExactFirings(now: nat, nticks: Word, periods: seq<Word>, ticks: nat)
    requires Startable(now, nticks)
    ensures Firings(StartTimer(now % WRAP, nticks), now, periods, ticks)
         == Schedule(now + nticks + 1, periods, now + ticks)
  {
    StartIsPending(now, nticks);
    PendingFiresOnSchedule(StartTimer(now % WRAP, nticks), now + nticks + 1, now, periods, ticks);
  }

  /** The one request that is not honoured: the largest nticks, unless the counter is about to
      wrap, fires at the very next tick. */
  lemma ExactIffStartable(now: nat, nticks: Word)
    ensures Startable(now, nticks) <==>
      forall ticks: nat :: Firings(StartTimer(now % WRAP, nticks), now, [], ticks)
                        == Schedule(now + nticks + 1, [], now + ticks)
  {
    if Startable(now, nticks) {
      forall ticks: nat ensures Firings(StartTimer(now % WRAP, nticks), now, [], ticks)
                             == Schedule(now + nticks + 1, [], now + ticks) {
        ExactFirings(now, nticks, [], ticks);
      }
    } else {
      FiresAtOnce(now, nticks);
      assert !(forall ticks: nat :: Firings(StartTimer(now % WRAP, nticks), now, [], ticks)
                                 == Schedule(now + nticks + 1, [], now + ticks)) by {
        assert Firings(StartTimer(now % WRAP, nticks), now, [], 1) != Schedule(now + nticks + 1, [], now + 1);
      }
    }
  }

  lemma FiresAtOnce(now: nat, nticks: Word)
    requires !Startable(now, nticks)
    ensures Firings(StartTimer(now % WRAP, nticks), now, [], 1) == [now + 1]
    ensures Schedule(now + nticks + 1, [], now + 1) == []
  {
    SplitTick(now);
    assert nticks + now % WRAP + 1 == WRAP + now % WRAP;
    assert StartTimer(now % WRAP, nticks) == Timer(now % WRAP, false);
  }
}
