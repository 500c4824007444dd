/** The conditions under which the receive ring is an exact queue, in terms of what callers and the
    hardware do, and runs that show what happens without them. */
module UartQuiet {
  import opened Uart
  import opened UartRuns
  import opened UartReceive

  /** From the last consume of a read() until it has put RRDY back: it will copy nothing more. */
  predicate Closing(pc: Pc) {
    pc.InRead? &&
    match pc.from
    case Loop(r) => r.count == r.len
    case Copy(_) => false
    case Advance(_) => false
    case Check(r) => r.count != 0
    case Refill(_, at) => BeforeBits(at)
    case Outer(r) => r.count != 0
    case Leave(_, _, at) => BeforeBits(at)
  }

  /** The hardware delivers a receive interrupt only while RRDY is in ctrl. */
  predicate Delivered(s: System, e: Event) {
    e.Isr? && TakesByte(e.i) ==> s.p.ctrl.rrdy
  }

  /** And none between the last consume of a read() and its end, and every read() asks for a byte. */
  predicate Quiet(s: System, e: Event) {
    && Delivered(s, e)
    && (e.Isr? && TakesByte(e.i) ==> !Closing(s.pc))
    && (e.Read? ==> e.len > 0)
  }

  predicate DeliveredRun(s: System, es: seq<Event>) {
    es == [] ||
    (DeliveredRun(s, es[..|es| - 1]) && Delivered(Run(s, es[..|es| - 1]), es[|es| - 1]))
  }

  predicate QuietRun(s: System, es: seq<Event>) {
    es == [] ||
    (QuietRun(s, es[..|es| - 1]) && Quiet(Run(s, es[..|es| - 1]), es[|es| - 1]))
  }

  /** What a quiet run keeps: a read() that will copy nothing more has left room in the ring. */
  predicate QuietInv(s: System) {
    && RxMasked(s)
    && Queue(s)
    && (s.pc.InRead? ==> s.pc.from.r.len > 0)
    && (Closing(s.pc) ==> !RxFull(s))
  }

  lemma QuietRespects(s: System, e: Event)
    requires QuietInv(s) && Quiet(s, e)
    ensures Respects(s, e) && !Overflows(s, e)
  {
  }

  /** The store to rx_start frees a slot. */
  lemma ReleaseMakesRoom(p: Port)
    requires p.rxStart != p.rxEnd
    ensures RxOccupancy(p.(rxStart := Succ(p.rxStart))) == RxOccupancy(p) - 1
  {
    OccupancyOfRest(p.rxStart, p.rxEnd);
  }

  lemma ReadStepKeepsRoom(s: System)
    requires QuietInv(s) && s.pc.InRead?
    ensures var t := ReadStep(s, s.pc.from);
      && (t.pc.InRead? ==> t.pc.from.r.len > 0)
      && (Closing(t.pc) ==> !RxFull(t))
  {
    if s.pc.from.Advance? {
      ReleaseMakesRoom(s.p);
    }
  }

  lemma IsrKeepsRoom(s: System, i: Interrupt)
    requires QuietInv(s) && Quiet(s, Isr(i))
    ensures Closing(s.pc) ==> !RxFull(s.(p := Irq(s.p, i)))
  {
    if Closing(s.pc) {
      IrqLeavesRing(s.p, i);
    }
  }

  lemma IrqLeavesRing(p: Port, i: Interrupt)
    requires !TakesByte(i)
    ensures Irq(p, i).rxStart == p.rxStart && Irq(p, i).rxEnd == p.rxEnd
  {
  }

  lemma QuietStep(s: System, e: Event)
    requires QuietInv(s) && Quiet(s, e)
    ensures QuietInv(Next(s, e))
  {
    QuietRespects(s, e);
    NextKeepsRxMask(s, e);
    QueueKeptIff(s, e);
    if Enabled(s, e) {
      match e
      case Isr(i) => IsrKeepsRoom(s, i);
      case Foreground => if s.pc.InRead? { ReadStepKeepsRoom(s); }
      case _ =>
    }
  }

  lemma {:induction false} QuietKeepsInv(s: System, es: seq<Event>)
    requires QuietInv(s) && QuietRun(s, es)
    ensures QuietInv(Run(s, es)) && Disciplined(s, es)
    decreases |es|
  {
    if es != [] {
      var init := es[..|es| - 1];
      QuietKeepsInv(s, init);
      QuietRespects(Run(s, init), es[|es| - 1]);
      QuietStep(Run(s, init), es[|es| - 1]);
    }
  }

  lemma BootIsQuiet(boot: System)
    requires Boot(boot)
    ensures QuietInv(boot)
  {
  }

  /** If every read() asks for at least one byte and no receive interrupt comes after its last
      consume, and receive interrupts are delivered only while RRDY is in ctrl, then over the whole
      run the bytes returned are a prefix of those received, the ring holds the rest, and RRDY is in
      ctrl exactly when the ring is not full, outside the stretch in which a read() has copied a byte
      and not yet put RRDY back. */
  lemma QuietGivesFifo(boot: System, es: seq<Event>)
    requires Boot(boot) && QuietRun(boot, es)
    ensures Disciplined(boot, es)
    ensures var s := Run(boot, es);
      && 0 <= Consumed(s) <= |s.returned| <= |s.p.rxLog|
      && s.returned == s.p.rxLog[..|s.returned|]
      && s.returned[..Consumed(s)] + Ring(s.p.rxBuf, s.p.rxStart, s.p.rxEnd) == s.p.rxLog
      && (!MidRead(s.pc) ==> (s.p.ctrl.rrdy <==> !RxFull(s)))
  {
    BootIsQuiet(boot);
    QuietKeepsInv(boot, es);
    DisciplineGivesFifo(boot, es);
  }

  // ---- Runs without the conditions ----

  /** A receive interrupt that brings a byte. */
  const ARRIVAL := Interrupt(Status(false, false, false, true, false, false), 0, false)

  function Arrivals(n: nat): (es: seq<Event>)
    ensures |es| == n
  {
    seq(n, _ => Isr(ARRIVAL))
  }

  lemma DeliveredAppend(s: System, es: seq<Event>, fs: seq<Event>)
    requires DeliveredRun(s, es) && DeliveredRun(Run(s, es), fs)
    ensures DeliveredRun(s, es + fs)
    decreases |fs|
  {
    if fs == [] {
      assert es + fs == es;
    } else {
      var n := |fs| - 1;
      assert (es + fs)[..|es + fs| - 1] == es + fs[..n];
      DeliveredAppend(s, es, fs[..n]);
      RunAppend(s, es, fs[..n]);
    }
  }

  lemma ArrivalTakes(s: System)
    requires Queue(s) && RxMasked(s) && !IrqsOff(s.pc) && !RxFull(s)
    ensures s.p.ctrl.rrdy || MidRead(s.pc)
    ensures s.p.ctrl.rrdy ==>
      var t := Next(s, Isr(ARRIVAL));
      && Queue(t) && RxMasked(t) && t == s.(p := t.p)
      && RxOccupancy(t.p) == RxOccupancy(s.p) + 1
      && (t.p.ctrl.rrdy <==> !RxFull(t))
  {
    if s.p.ctrl.rrdy {
      QueueKeptIff(s, Isr(ARRIVAL));
      NextKeepsRxMask(s, Isr(ARRIVAL));
      ArrivalAdvances(s.p);
    }
  }

  lemma ArrivalAdvances(p: Port)
    requires p.ctrl.rrdy && RxOccupancy(p) < LEN - 1
    ensures RxOccupancy(Irq(p, ARRIVAL)) == RxOccupancy(p) + 1
    ensures Irq(p, ARRIVAL).ctrl.rrdy <==> RxOccupancy(p) + 1 < LEN - 1
  {
    assert Irq(p, ARRIVAL) == RxIrq(p, ARRIVAL.status, 0);
    OneMore(p.rxStart, p.rxEnd);
  }

  lemma OneMore(start: Index, end: Index)
    requires Occupancy(start, end) < LEN - 1
    ensures Occupancy(start, Succ(end)) == Occupancy(start, end) + 1
    ensures Succ(Succ(end)) == start <==> Occupancy(start, Succ(end)) == LEN - 1
  {
    if end < start {
      assert Occupancy(start, end) == end + LEN - start;
    } else {
      assert Occupancy(start, end) == end - start;
    }
  }

  /** Bytes arrive, each while RRDY is in ctrl, until the ring is full. */
  lemma {:induction false} ArrivalsFill(s: System, n: nat)
    requires Queue(s) && RxMasked(s) && !IrqsOff(s.pc) && s.p.ctrl.rrdy
    requires RxOccupancy(s.p) + n <= LEN - 1
    ensures DeliveredRun(s, Arrivals(n))
    ensures var t := Run(s, Arrivals(n));
      && Queue(t) && RxMasked(t) && t == s.(p := t.p)
      && RxOccupancy(t.p) == RxOccupancy(s.p) + n
      && (t.p.ctrl.rrdy <==> !RxFull(t))
  {
    if n > 0 {
      ArrivalsFill(s, n - 1);
      assert Arrivals(n)[..n - 1] == Arrivals(n - 1);
      ArrivalTakes(Run(s, Arrivals(n - 1)));
    }
  }

  lemma {:induction false} NoArrivals(s: System, es: seq<Event>)
    requires forall e :: e in es ==> !e.Isr?
    ensures DeliveredRun(s, es)
    decreases |es|
  {
    if es != [] {
      NoArrivals(s, es[..|es| - 1]);
      assert es[|es| - 1] in es;
    }
  }

  lemma BootHasRoom(boot: System)
    requires Boot(boot)
    ensures boot.p.ctrl.rrdy && RxOccupancy(boot.p) == 0
  {
  }

  /** Full and masked, with nothing read: reachable by 63 arrivals. */
  lemma FullIsReachable(boot: System)
    requires Boot(boot)
    ensures DeliveredRun(boot, Arrivals(63))
    ensures var t := Run(boot, Arrivals(63));
      Queue(t) && RxFull(t) && t.pc.Idle? && !t.p.ctrl.rrdy && t.returned == []
  {
    BootIsQuiet(boot);
    BootHasRoom(boot);
    ArrivalsFill(boot, 63);
  }

  /** A transmit interrupt that finds a byte received, too: status has TRDY and RRDY. */
  const SEND_AND_ARRIVAL := Interrupt(Status(false, false, true, true, false, false), 0, false)

  /** The service routine tests the status word and not the mask. A reachable loss: 63 bytes arrive and
      RRDY is off, and a transmit interrupt takes the byte that is waiting all the same. */
  lemma UnmaskedStatusLosesBytes(boot: System)
    requires Boot(boot)
    ensures var t := Run(boot, Arrivals(63));
      && DeliveredRun(boot, Arrivals(63)) && !t.p.ctrl.rrdy && Enabled(t, Isr(SEND_AND_ARRIVAL))
      && ServesTx(SEND_AND_ARRIVAL)
      && var u := Next(t, Isr(SEND_AND_ARRIVAL));
         Ring(u.p.rxBuf, u.p.rxStart, u.p.rxEnd) == [] && |u.p.rxLog| == 64 && u.returned == []
  {
    FullIsReachable(boot);
    OverflowEmptiesQueue(Run(boot, Arrivals(63)), Isr(SEND_AND_ARRIVAL));
  }

  /** A reachable loss: 63 bytes arrive, a read() asks for none, and the next byte, delivered with RRDY
      in ctrl like the others, leaves the reader with an empty ring. */
  lemma ZeroLengthReadLosesBytes(boot: System, noBlock: bool)
    requires Boot(boot)
    ensures var t := Run(boot, Arrivals(63) + ZeroLengthRead(noBlock));
      && DeliveredRun(boot, Arrivals(63) + ZeroLengthRead(noBlock))
      && t.pc.Idle? && t.returned == [] && Delivered(t, Isr(ARRIVAL))
      && var u := Next(t, Isr(ARRIVAL));
         Ring(u.p.rxBuf, u.p.rxStart, u.p.rxEnd) == [] && |u.p.rxLog| == 64 && u.returned == []
  {
    FullIsReachable(boot);
    var s := Run(boot, Arrivals(63));
    ZeroLengthReadOnlyUnmasks(s, noBlock);
    NoArrivals(s, ZeroLengthRead(noBlock));
    DeliveredAppend(boot, Arrivals(63), ZeroLengthRead(noBlock));
    RunAppend(boot, Arrivals(63), ZeroLengthRead(noBlock));
    LostAtFull(Run(s, ZeroLengthRead(noBlock)));
  }

  lemma LostAtFull(t: System)
    requires Queue(t) && RxFull(t) && t.pc.Idle?
    ensures var u := Next(t, Isr(ARRIVAL));
      Ring(u.p.rxBuf, u.p.rxStart, u.p.rxEnd) == [] && |u.p.rxLog| == |t.returned| + 64 && u.returned == t.returned
  {
    OverflowEmptiesQueue(t, Isr(ARRIVAL));
  }

  /** A read() of one byte, up to its last consume, from a ring that holds some. */
  function OneByteRead(noBlock: bool): seq<Event> {
    [Read(1, noBlock), Foreground, Foreground, Foreground]
  }

  /** The rest of it; the last step finds nothing left to do. */
  const REST := [Foreground, Foreground] + [Foreground, Foreground, Foreground] + [Foreground, Foreground, Foreground]

  lemma OneByteReadConsumes(s: System, noBlock: bool)
    requires Queue(s) && s.pc.Idle? && s.returned == [] && s.p.rxStart != s.p.rxEnd && RxMasked(s) && s.p.ctrl.rrdy
    ensures var t := Run(s, OneByteRead(noBlock));
      && Queue(t) && RxMasked(t) && t.p.ctrl.rrdy
      && t.pc == InRead(Loop(ReadCall(1, 0, 1, noBlock))) && |t.returned| == 1
      && RxOccupancy(t.p) == RxOccupancy(s.p) - 1
  {
    RunThree(s, Read(1, noBlock), Foreground, Foreground);
    RunSnoc(s, [Read(1, noBlock), Foreground, Foreground], Foreground);
    assert [Read(1, noBlock), Foreground, Foreground] + [Foreground] == OneByteRead(noBlock);
    var a := Next(s, Read(1, noBlock));
    var b := Next(a, Foreground);
    assert b == s.(pc := InRead(Copy(ReadCall(1, 0, 0, noBlock))));
    var c := Next(b, Foreground);
    assert c.p == s.p && c.pc == InRead(Advance(ReadCall(1, 0, 1, noBlock)));
    ReleaseMakesRoom(s.p);
    StepsKeepQueue(s, a, b, c, noBlock);
  }

  lemma StepsKeepQueue(s: System, a: System, b: System, c: System, noBlock: bool)
    requires Queue(s) && RxMasked(s) && s.pc.Idle?
    requires a == Next(s, Read(1, noBlock)) && b == Next(a, Foreground) && c == Next(b, Foreground)
    requires !AboutToUnmask(a.pc) && !AboutToUnmask(b.pc) && !AboutToUnmask(c.pc)
    ensures Queue(Next(c, Foreground)) && RxMasked(Next(c, Foreground))
  {
    QueueKeptIff(s, Read(1, noBlock));
    QueueKeptIff(a, Foreground);
    QueueKeptIff(b, Foreground);
    QueueKeptIff(c, Foreground);
    NextKeepsRxMask(s, Read(1, noBlock));
    NextKeepsRxMask(a, Foreground);
    NextKeepsRxMask(b, Foreground);
    NextKeepsRxMask(c, Foreground);
  }

  lemma RestOnlyUnmasks(s: System, r: ReadCall)
    requires s.pc == InRead(Loop(r)) && r.count == r.len > 0
    ensures Run(s, REST) ==
      s.(pc := Idle(DidRead(r, false)), p := s.p.(ctrl := UnmaskRx(s.p.ctrl), control := UnmaskRx(s.p.ctrl)))
  {
    var f := Foreground;
    RunSnoc(s, [], f);
    RunSnoc(s, [f], f);
    assert [f] + [f] == [f, f];
    var a := Run(s, [f, f]);
    assert Run(s, [f]) == s.(pc := InRead(Check(r)));
    assert a == s.(pc := InRead(Outer(r)));
    LeaveRaisesBit(a, r);
    RunAppend(s, [f, f], [f, f, f]);
    LeaveStoresControl(Run(a, [f, f, f]), r);
    RunAppend(s, [f, f] + [f, f, f], [f, f, f]);
  }

  /** Another, with a read() of one byte: of 62 bytes it consumes one, two arrive before it returns, and
      it unmasks a full ring. Every byte is delivered with RRDY in ctrl; the next one empties the ring. */
  lemma LateArrivalLosesBytes(boot: System, noBlock: bool)
    requires Boot(boot)
    ensures var es := Arrivals(62) + OneByteRead(noBlock) + Arrivals(2) + REST;
      var t := Run(boot, es);
      && DeliveredRun(boot, es)
      && t.pc.Idle? && |t.returned| == 1 && Delivered(t, Isr(ARRIVAL))
      && var u := Next(t, Isr(ARRIVAL));
         Ring(u.p.rxBuf, u.p.rxStart, u.p.rxEnd) == [] && |u.p.rxLog| == 65 && |u.returned| == 1
  {
    var f, g, h := Arrivals(62), OneByteRead(noBlock), Arrivals(2);
    var t := LateArrivalFills(boot, noBlock);
    RestOnlyUnmasks(t, ReadCall(1, 0, 1, noBlock));
    NoArrivals(t, REST);
    RunAppend(boot, f + g + h, REST);
    DeliveredAppend(boot, f + g + h, REST);
    UnmaskKeepsQueue(t, Idle(DidRead(ReadCall(1, 0, 1, noBlock), false)));
    LostAtFull(Run(t, REST));
  }

  lemma LateArrivalFills(boot: System, noBlock: bool) returns (t: System)
    requires Boot(boot)
    ensures var es := Arrivals(62) + OneByteRead(noBlock) + Arrivals(2);
      t == Run(boot, es) && DeliveredRun(boot, es)
    ensures Queue(t) && RxFull(t) && t.pc == InRead(Loop(ReadCall(1, 0, 1, noBlock))) && |t.returned| == 1
  {
    var f, g, h := Arrivals(62), OneByteRead(noBlock), Arrivals(2);
    BootIsQuiet(boot);
    BootHasRoom(boot);
    ArrivalsFill(boot, 62);
    var a := Run(boot, f);
    OneByteReadConsumes(a, noBlock);
    NoArrivals(a, g);
    RunAppend(boot, f, g);
    DeliveredAppend(boot, f, g);
    var b := Run(a, g);
    ArrivalsFill(b, 2);
    RunAppend(boot, f + g, h);
    DeliveredAppend(boot, f + g, h);
    t := Run(b, h);
  }

  /** Masks and a return from a call do not matter to the queue. */
  lemma UnmaskKeepsQueue(s: System, pc: Pc)
    requires Queue(s) && s.pc.InRead? && s.pc.from.Loop? && s.pc.from.r.count > 0
    requires pc == Idle(DidRead(s.pc.from.r, false))
    ensures Queue(s.(pc := pc, p := s.p.(ctrl := UnmaskRx(s.p.ctrl), control := UnmaskRx(s.p.ctrl))))
  {
  }
}
