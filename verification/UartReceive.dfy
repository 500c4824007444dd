/** The receive side of the UART driver: what holds of every run, what one interrupt at a full
    ring does, and the masking discipline under which the ring is an exact queue. */
module UartReceive {
  import opened Uart
  import opened UartRuns

  predicate Advancing(pc: Pc) {
    pc.InRead? && pc.from.Advance?
  }

  /** How many bytes the store to rx_start has released. */
  function Consumed(s: System): int {
    |s.returned| - if Advancing(s.pc) then 1 else 0
  }

  /** How far the received stream is ahead of the reader; the driver sees this modulo LEN. */
  function Lead(s: System): int {
    |s.p.rxLog| - Consumed(s)
  }

  /** The receive ring after any run: each slot holds the newest byte that was stored in it. */
  predicate RxFlow(p: Port, consumed: int) {
    && 0 <= consumed <= |p.rxLog|
    && p.rxStart == consumed % LEN
    && p.rxEnd == |p.rxLog| % LEN
    && (forall k :: 0 <= k < |p.rxLog| <= k + LEN ==> p.rxBuf[k % LEN] == p.rxLog[k])
  }

  /** Every returned byte was received, at its own stream position or a multiple of LEN later. */
  predicate Sourced(s: System) {
    && |s.source| == |s.returned|
    && (forall k :: 0 <= k < |s.returned| ==>
          && k <= s.source[k] < |s.p.rxLog|
          && s.source[k] % LEN == k % LEN
          && s.returned[k] == s.p.rxLog[s.source[k]])
  }

  predicate CallInv(s: System, r: ReadCall) {
    r.count <= r.len && |s.returned| == r.base + r.count
  }

  predicate ReaderKnows(s: System, at: ReadPc) {
    match at
    case Loop(r) => CallInv(s, r)
    case Copy(r) => CallInv(s, r) && r.count < r.len && Consumed(s) < |s.p.rxLog|
    case Advance(r) => CallInv(s, r) && 0 < r.count && Consumed(s) < |s.p.rxLog|
    case Check(r) => CallInv(s, r)
    case Refill(r, _) => CallInv(s, r) && r.count == 0 && !r.noBlock
    case Outer(r) => CallInv(s, r)
    case Leave(r, wouldBlock, _) => CallInv(s, r) && ReadResult(r, wouldBlock)
  }

  /** What read() may report: nothing at all only if it must not block or nothing was asked for. */
  predicate ReadResult(r: ReadCall, wouldBlock: bool) {
    if wouldBlock then r.noBlock && r.count == 0 else r.count > 0 || r.len == 0
  }

  predicate RxInv(s: System) {
    && RxFlow(s.p, Consumed(s))
    && Sourced(s)
    && (s.pc.InRead? ==> ReaderKnows(s, s.pc.from))
    && (s.pc.Idle? && s.pc.result.DidRead? ==> ReadReturned(s, s.pc.result))
  }

  /** The newest `count` returned bytes are the ones this call of read() delivered. */
  predicate ReadReturned(s: System, d: Result)
    requires d.DidRead?
  {
    CallInv(s, d.call) && ReadResult(d.call, d.wouldBlock)
  }

  lemma NewestInSlot(k: nat, taken: nat)
    requires k < taken
    ensures var j := Newest(k, taken);
      && k <= j < taken <= j + LEN
      && j % LEN == k % LEN
      && (j == k <==> taken - k <= LEN)
  {
  }

  lemma RxIrqKeepsFlow(p: Port, status: Status, data: Byte, consumed: int)
    requires RxFlow(p, consumed)
    ensures RxFlow(RxIrq(p, status, data), consumed)
    ensures p.rxLog <= RxIrq(p, status, data).rxLog
  {
    var q := RxIrq(p, status, data);
    if q.rxLog != p.rxLog {
      SuccOfPosition(|p.rxLog|);
      forall k | 0 <= k < |q.rxLog| <= k + LEN ensures q.rxBuf[k % LEN] == q.rxLog[k] {
        if k < |p.rxLog| {
          assert p.rxBuf[k % LEN] == p.rxLog[k];
        }
      }
    }
  }

  lemma IsrKeepsRx(s: System, i: Interrupt)
    requires RxInv(s)
    ensures RxInv(s.(p := Irq(s.p, i)))
  {
    var q := if i.status.rrdy then RxIrq(s.p, i.status, i.rxData) else s.p;
    if i.status.rrdy {
      RxIrqKeepsFlow(s.p, i.status, i.rxData, Consumed(s));
    }
    var t := s.(p := Irq(s.p, i));
    assert t.p.rxLog == q.rxLog && s.p.rxLog <= q.rxLog;
    assert Consumed(t) == Consumed(s);
  }

  lemma CopyKeepsRx(s: System, r: ReadCall)
    requires RxInv(s) && s.pc == InRead(Copy(r))
    ensures RxInv(ReadStep(s, s.pc.from))
  {
    NewestInSlot(|s.returned|, |s.p.rxLog|);
    var t := ReadStep(s, s.pc.from);
    assert Consumed(t) == Consumed(s);
    assert s.p.rxBuf[Newest(|s.returned|, |s.p.rxLog|) % LEN] == s.p.rxLog[Newest(|s.returned|, |s.p.rxLog|)];
  }

  lemma ReadStepKeepsRx(s: System)
    requires RxInv(s) && s.pc.InRead?
    ensures RxInv(ReadStep(s, s.pc.from))
  {
    match s.pc.from
    case Copy(r) => CopyKeepsRx(s, r);
    case Advance(r) => SuccOfPosition(Consumed(s));
    case Loop(r) =>
    case Check(r) =>
    case Refill(r, at) =>
    case Outer(r) =>
    case Leave(r, wouldBlock, at) =>
  }

  lemma WriteStepKeepsRx(s: System)
    requires RxInv(s) && s.pc.InWrite?
    ensures RxInv(WriteStep(s, s.pc.at))
  {
    var t := WriteStep(s, s.pc.at);
    assert t.p.rxLog == s.p.rxLog && t.returned == s.returned && t.source == s.source;
    assert t.p.rxBuf == s.p.rxBuf && t.p.rxStart == s.p.rxStart && t.p.rxEnd == s.p.rxEnd;
  }

  lemma NextKeepsRx(s: System, e: Event)
    requires RxInv(s)
    ensures RxInv(Next(s, e))
  {
    if Enabled(s, e) {
      match e
      case Foreground =>
        if s.pc.InWrite? {
          WriteStepKeepsRx(s);
        } else if s.pc.InRead? {
          ReadStepKeepsRx(s);
        }
      case Isr(i) => IsrKeepsRx(s, i);
      case _ =>
    }
  }

  lemma {:induction false} RunKeepsRx(s: System, es: seq<Event>)
    requires RxInv(s)
    ensures RxInv(Run(s, es))
  {
    if es != [] {
      RunKeepsRx(s, es[..|es| - 1]);
      NextKeepsRx(Run(s, es[..|es| - 1]), es[|es| - 1]);
    }
  }

  /** With no assumption on interrupts at all: every byte read() returns was received, at the same
      position of the stream or a multiple of LEN bytes later; what the queue is short of is a
      multiple of LEN; and a blocking read() for at least one byte returns at least one. */
  lemma ReceiveProvenance(boot: System, es: seq<Event>)
    requires Boot(boot)
    ensures var s := Run(boot, es);
      && Sourced(s)
      && 0 <= Consumed(s)
      && |s.p.rxLog| == Consumed(s) + RxOccupancy(s.p) + Lead(s) / LEN * LEN
      && (s.pc.Idle? && s.pc.result.DidRead? ==> ReadReturned(s, s.pc.result))
  {
    assert RxInv(boot);
    RunKeepsRx(boot, es);
    var s := Run(boot, es);
    OccupancyOfPositions(Consumed(s), |s.p.rxLog|);
  }

  // ---- Overflow ----

  predicate RxFull(s: System) {
    RxOccupancy(s.p) == LEN - 1
  }

  /** A receive interrupt at a full ring. */
  predicate Overflows(s: System, e: Event) {
    e.Isr? && Enabled(s, e) && TakesByte(e.i) && RxFull(s)
  }

  /** The receive ring has never been overrun: it holds all that was received and not consumed,
      and each returned byte came from its own position. */
  predicate Queue(s: System) {
    && RxInv(s)
    && Lead(s) < LEN
    && (forall k :: 0 <= k < |s.returned| ==> s.source[k] == k)
  }

  lemma RxOccupancyIsLead(s: System)
    requires RxFlow(s.p, Consumed(s))
    ensures RxOccupancy(s.p) == Lead(s) % LEN
  {
    OccupancyOfPositions(Consumed(s), |s.p.rxLog|);
  }

  lemma QueueIsPrefix(s: System)
    requires Sourced(s) && forall k :: 0 <= k < |s.returned| ==> s.source[k] == k
    ensures |s.returned| <= |s.p.rxLog|
    ensures s.returned == s.p.rxLog[..|s.returned|]
  {
    if |s.returned| > 0 {
      assert s.source[|s.returned| - 1] == |s.returned| - 1;
    }
    forall k | 0 <= k < |s.returned| ensures s.returned[k] == s.p.rxLog[k] {
      assert s.source[k] == k;
    }
  }

  lemma QueueIsRing(p: Port, consumed: nat)
    requires RxFlow(p, consumed) && |p.rxLog| - consumed < LEN
    ensures p.rxLog[..consumed] + Ring(p.rxBuf, p.rxStart, p.rxEnd) == p.rxLog
  {
    RingIsSlice(p.rxBuf, p.rxLog, consumed, |p.rxLog|);
    assert p.rxLog == p.rxLog[..consumed] + p.rxLog[consumed..];
  }

  lemma IrqReceives(p: Port, i: Interrupt)
    ensures Irq(p, i).rxLog == p.rxLog + if TakesByte(i) then [i.rxData] else []
    ensures Irq(p, i).rxStart == p.rxStart
  {
    var q := if i.status.rrdy then RxIrq(p, i.status, i.rxData) else p;
    TxIrqKeepsRx(q, i.status, i.ctsAgain);
  }

  /** The transmit half of the service routine leaves the receive half of the state alone. */
  lemma TxIrqKeepsRx(p: Port, status: Status, ctsAgain: bool)
    ensures var q := TxIrq(p, status, ctsAgain);
      q.rxLog == p.rxLog && q.rxStart == p.rxStart && q.rxEnd == p.rxEnd && q.rxBuf == p.rxBuf
  {
  }

  lemma IsrQueueKeptIff(s: System, i: Interrupt)
    requires Queue(s)
    ensures var t := s.(p := Irq(s.p, i)); Queue(t) <==> !(TakesByte(i) && RxFull(s))
  {
    IsrKeepsRx(s, i);
    RxOccupancyIsLead(s);
    IrqReceives(s.p, i);
    SameReader(s, Irq(s.p, i), TakesByte(i));
  }

  /** What an interrupt cannot change about the reader. */
  lemma SameReader(s: System, q: Port, took: bool)
    requires |q.rxLog| == |s.p.rxLog| + if took then 1 else 0
    ensures var t := s.(p := q);
      Consumed(t) == Consumed(s) && Lead(t) == Lead(s) + (if took then 1 else 0) && t.source == s.source && t.returned == s.returned
  {
  }

  lemma ReadStepKeepsQueue(s: System)
    requires Queue(s) && s.pc.InRead?
    ensures Queue(ReadStep(s, s.pc.from))
  {
    ReadStepKeepsRx(s);
    var t := ReadStep(s, s.pc.from);
    assert t.p.rxLog == s.p.rxLog;
    assert Consumed(s) <= Consumed(t);
    if s.pc.from.Copy? {
      NewestInSlot(|s.returned|, |s.p.rxLog|);
    } else {
      assert t.source == s.source && t.returned == s.returned;
    }
  }

  /** One event keeps the queue exact if and only if it is not a receive interrupt at a full
      ring. */
  lemma QueueKeptIff(s: System, e: Event)
    requires Queue(s)
    ensures Queue(Next(s, e)) <==> !Overflows(s, e)
  {
    if Enabled(s, e) {
      match e
      case Isr(i) => IsrQueueKeptIff(s, i);
      case Foreground =>
        if s.pc.InRead? {
          ReadStepKeepsQueue(s);
        } else if s.pc.InWrite? {
          WriteStepKeepsRx(s);
          var t := WriteStep(s, s.pc.at);
          assert t.source == s.source && t.returned == s.returned && t.p.rxLog == s.p.rxLog;
        }
      case _ =>
    }
  }

  /** No event of the run is a receive interrupt at a full ring. */
  predicate NeverOverflows(s: System, es: seq<Event>) {
    es == [] ||
    (NeverOverflows(s, es[..|es| - 1]) && !Overflows(Run(s, es[..|es| - 1]), es[|es| - 1]))
  }

  lemma {:induction false} RunKeepsQueue(s: System, es: seq<Event>)
    requires Queue(s) && NeverOverflows(s, es)
    ensures Queue(Run(s, es))
  {
    if es != [] {
      RunKeepsQueue(s, es[..|es| - 1]);
      QueueKeptIff(Run(s, es[..|es| - 1]), es[|es| - 1]);
    }
  }

  /** In a run without overflow the bytes returned are a prefix of those received, in order, and
      the ring holds the rest. */
  lemma ReceiveFifo(boot: System, es: seq<Event>)
    requires Boot(boot) && NeverOverflows(boot, es)
    ensures var s := Run(boot, es);
      && 0 <= Consumed(s) <= |s.returned| <= |s.p.rxLog|
      && s.returned == s.p.rxLog[..|s.returned|]
      && s.returned[..Consumed(s)] + Ring(s.p.rxBuf, s.p.rxStart, s.p.rxEnd) == s.p.rxLog
  {
    RunKeepsQueue(boot, es);
    var s := Run(boot, es);
    QueueIsPrefix(s);
    QueueIsRing(s.p, Consumed(s));
    assert s.returned[..Consumed(s)] == s.p.rxLog[..Consumed(s)];
  }

  lemma LappedRingIsEmpty(p: Port, consumed: nat)
    requires RxFlow(p, consumed) && |p.rxLog| == consumed + LEN
    ensures Ring(p.rxBuf, p.rxStart, p.rxEnd) == []
  {
  }

  lemma OverflowLaps(s: System, i: Interrupt)
    requires Queue(s) && TakesByte(i) && RxFull(s)
    ensures var t := s.(p := Irq(s.p, i));
      RxFlow(t.p, Consumed(t)) && Consumed(t) == Consumed(s) && Lead(t) == LEN
  {
    RxOccupancyIsLead(s);
    IrqReceives(s.p, i);
    IsrKeepsRx(s, i);
  }

  /** A single receive interrupt at a full ring makes the queue empty, whatever ctrl says: all
      LEN bytes received and not yet released are lost to the reader. */
  lemma OverflowEmptiesQueue(s: System, e: Event)
    requires Queue(s) && Overflows(s, e)
    ensures var t := Next(s, e);
      && Ring(t.p.rxBuf, t.p.rxStart, t.p.rxEnd) == []
      && |t.p.rxLog| == Consumed(t) + LEN
  {
    OverflowLaps(s, e.i);
    var t := s.(p := Irq(s.p, e.i));
    assert t == Next(s, e);
    LappedRingIsEmpty(t.p, Consumed(t));
  }

  /** The same interrupt between the copy out of a slot and the store to rx_start does no harm:
      once rx_start is stored the queue is exact again, and full. */
  lemma OverflowAfterCopyIsHarmless(s: System, e: Event)
    requires Queue(s) && Overflows(s, e) && Advancing(s.pc)
    ensures var t := Next(Next(s, e), Foreground); Queue(t) && RxFull(t)
  {
    var m := Next(s, e);
    NextKeepsRx(s, e);
    RxOccupancyIsLead(s);
    assert |m.p.rxLog| == |s.p.rxLog| + 1;
    NextKeepsRx(m, Foreground);
    var t := Next(m, Foreground);
    assert Consumed(t) == Consumed(s) + 1;
    RxOccupancyIsLead(t);
  }

  // ---- The masking discipline ----

  predicate AboutToUnmask(pc: Pc) {
    pc.InRead? &&
    match pc.from
    case Refill(_, at) => at == SetBits
    case Leave(_, _, at) => at == SetBits
    case _ => false
  }

  /** What the driver relies on. Delivery: a receive interrupt is served only while RRDY is in
      ctrl. Unmasking: read() puts RRDY back only when the ring has room. */
  predicate Respects(s: System, e: Event) {
    && (e.Isr? && TakesByte(e.i) ==> s.p.ctrl.rrdy)
    && (e.Foreground? && AboutToUnmask(s.pc) ==> !RxFull(s))
  }

  predicate Disciplined(s: System, es: seq<Event>) {
    es == [] ||
    (Disciplined(s, es[..|es| - 1]) && Respects(Run(s, es[..|es| - 1]), es[|es| - 1]))
  }

  /** From the first byte a read() copies until it has put RRDY back. */
  predicate MidRead(pc: Pc) {
    pc.InRead? && pc.from.r.count > 0 && (pc.from.Leave? ==> BeforeBits(pc.from.at))
  }

  /** RRDY is off only at a full ring, or where a read() is on its way to raising it. */
  predicate PortMasked(p: Port, midRead: bool, holding: bool) {
    && (p.ctrl.rrdy ==> RxOccupancy(p) != LEN - 1)
    && (!p.ctrl.rrdy && !midRead ==> RxOccupancy(p) == LEN - 1)
    && (holding ==> p.rxStart != p.rxEnd)
  }

  /** read() has seen a byte in the ring and not yet released its slot. */
  predicate Holding(pc: Pc) {
    pc.InRead? && (pc.from.Copy? || pc.from.Advance?)
  }

  predicate RxMasked(s: System) {
    && PortMasked(s.p, MidRead(s.pc), Holding(s.pc))
    && (Advancing(s.pc) ==> s.pc.from.r.count > 0)
  }

  lemma RxIrqKeepsMask(p: Port, status: Status, data: Byte, midRead: bool, holding: bool)
    requires PortMasked(p, midRead, holding)
    requires !status.pe && !status.fe ==> p.ctrl.rrdy
    ensures PortMasked(RxIrq(p, status, data), midRead, holding)
  {
  }

  lemma TxIrqKeepsMask(p: Port, status: Status, ctsAgain: bool, midRead: bool, holding: bool)
    requires PortMasked(p, midRead, holding)
    ensures PortMasked(TxIrq(p, status, ctsAgain), midRead, holding)
  {
  }

  lemma IsrKeepsRxMask(s: System, i: Interrupt)
    requires RxMasked(s) && (TakesByte(i) ==> s.p.ctrl.rrdy)
    ensures RxMasked(s.(p := Irq(s.p, i)))
  {
    var m, h := MidRead(s.pc), Holding(s.pc);
    var q := if i.status.rrdy then RxIrq(s.p, i.status, i.rxData) else s.p;
    if i.status.rrdy {
      RxIrqKeepsMask(s.p, i.status, i.rxData, m, h);
    }
    TxIrqKeepsMask(q, i.status, i.ctsAgain, m, h);
  }

  lemma ReadStepKeepsRxMask(s: System)
    requires RxMasked(s) && Respects(s, Foreground) && s.pc.InRead?
    ensures RxMasked(ReadStep(s, s.pc.from))
  {
    match s.pc.from
    case Loop(_) => case Copy(_) => case Advance(_) => case Check(_) =>
    case Refill(_, _) => case Outer(_) => case Leave(_, _, _) =>
  }

  lemma NextKeepsRxMask(s: System, e: Event)
    requires RxMasked(s) && Respects(s, e)
    ensures RxMasked(Next(s, e))
  {
    if Enabled(s, e) {
      match e
      case Isr(i) => IsrKeepsRxMask(s, i);
      case Foreground => if s.pc.InRead? { ReadStepKeepsRxMask(s); }
      case _ =>
    }
  }

  lemma {:induction false} DisciplineKeepsMask(s: System, es: seq<Event>)
    requires RxMasked(s) && Disciplined(s, es)
    ensures RxMasked(Run(s, es)) && NeverOverflows(s, es)
  {
    if es != [] {
      DisciplineKeepsMask(s, es[..|es| - 1]);
      NextKeepsRxMask(Run(s, es[..|es| - 1]), es[|es| - 1]);
    }
  }

  /** Under the discipline the receive ring is an exact queue, and outside the stretch in which a
      read() has copied a byte and not yet put RRDY back, RRDY is in ctrl exactly when the ring
      has room. */
  lemma DisciplineGivesFifo(boot: System, es: seq<Event>)
    requires Boot(boot) && Disciplined(boot, es)
    ensures var s := Run(boot, es);
      && 0 <= Consumed(s) <= |s.returned| <= |s.p.rxLog|
      && s.returned == s.p.rxLog[..|s.returned|]
      && s.returned[..Consumed(s)] + Ring(s.p.rxBuf, s.p.rxStart, s.p.rxEnd) == s.p.rxLog
      && (!MidRead(s.pc) ==> (s.p.ctrl.rrdy <==> !RxFull(s)))
  {
    DisciplineKeepsMask(boot, es);
    ReceiveFifo(boot, es);
  }

  /** The condition on unmasking is exact: after the critical section that raises RRDY, the very
      next interrupt that delivery allows overruns the ring if and only if the ring was full when
      the bit was raised. */
  lemma UnmaskSafeIff(s: System, i: Interrupt)
    requires AboutToUnmask(s.pc) && TakesByte(i)
    ensures var t := Run(s, [Foreground, Foreground, Foreground]);
      t.p.ctrl.rrdy && (Overflows(t, Isr(i)) <==> RxFull(s))
  {
    RunThree(s, Foreground, Foreground, Foreground);
    RxSectionStep(s);
    var a := s.(p := s.p.(ctrl := UnmaskRx(s.p.ctrl)), pc := AtReadSection(s.pc, StoreControl));
    assert Next(s, Foreground) == a;
    RxSectionStep(a);
    var b := a.(p := a.p.(control := a.p.ctrl), pc := AtReadSection(s.pc, Restore));
    assert Next(a, Foreground) == b;
    RestoreOnlyMovesOn(b);
  }

  /** The end of a critical section of read(). */
  lemma RestoreOnlyMovesOn(s: System)
    requires s.pc.InRead? && (s.pc.from.Refill? || s.pc.from.Leave?) && SectionOf(s.pc) == Restore
    ensures Next(s, Foreground).p == s.p && !IrqsOff(Next(s, Foreground).pc)
  {
  }

  lemma LeadGrowsOnlyByTaking(q: System, e: Event)
    requires RxInv(q)
    ensures Lead(Next(q, e)) <= Lead(q) + if e.Isr? && TakesByte(e.i) then 1 else 0
  {
    if Enabled(q, e) {
      match e
      case Isr(i) =>
        IrqReceives(q.p, i);
        assert Consumed(q.(p := Irq(q.p, i))) == Consumed(q);
      case Foreground =>
        var t := Next(q, e);
        assert |t.p.rxLog| == |q.p.rxLog|;
        if q.pc.InRead? {
          match q.pc.from
          case Loop(_) => case Copy(_) => case Advance(_) => case Check(_) =>
          case Refill(_, _) => case Outer(_) => case Leave(_, _, _) =>
        } else if q.pc.InWrite? {
          assert t.returned == q.returned && !Advancing(t.pc);
        }
      case _ =>
    }
  }

  lemma ZeroLengthReadReachesEnd(s: System, noBlock: bool)
    requires s.pc.Idle? && s.p.rxStart != s.p.rxEnd
    ensures Run(s, [Read(0, noBlock), Foreground, Foreground]) ==
      s.(pc := InRead(Outer(ReadCall(0, |s.returned|, 0, noBlock))))
  {
    RunThree(s, Read(0, noBlock), Foreground, Foreground);
  }

  lemma LeaveRaisesBit(s: System, r: ReadCall)
    requires s.pc == InRead(Outer(r)) && (r.count != 0 || r.len == 0)
    ensures Run(s, [Foreground, Foreground, Foreground]) ==
      s.(pc := InRead(Leave(r, false, StoreControl)), p := s.p.(ctrl := UnmaskRx(s.p.ctrl)))
  {
    RunThree(s, Foreground, Foreground, Foreground);
    var a := s.(pc := InRead(Leave(r, false, Disable)));
    assert Next(s, Foreground) == a;
    RxSectionStep(a);
    RxSectionStep(Next(a, Foreground));
  }

  lemma LeaveStoresControl(s: System, r: ReadCall)
    requires s.pc == InRead(Leave(r, false, StoreControl))
    ensures Run(s, [Foreground, Foreground, Foreground]) ==
      s.(pc := Idle(DidRead(r, false)), p := s.p.(control := s.p.ctrl))
  {
    RunThree(s, Foreground, Foreground, Foreground);
  }

  /** What a read() of zero bytes does to a ring that is not empty, run without interruption. */
  lemma ZeroLengthReadOnlyUnmasks(s: System, noBlock: bool)
    requires s.pc.Idle? && s.p.rxStart != s.p.rxEnd
    ensures Run(s, ZeroLengthRead(noBlock)) ==
      s.(pc := Idle(DidRead(ReadCall(0, |s.returned|, 0, noBlock), false)),
         p := s.p.(ctrl := UnmaskRx(s.p.ctrl), control := UnmaskRx(s.p.ctrl)))
  {
    var r := ReadCall(0, |s.returned|, 0, noBlock);
    var f := Foreground;
    ZeroLengthReadReachesEnd(s, noBlock);
    var a := Run(s, [Read(0, noBlock), f, f]);
    LeaveRaisesBit(a, r);
    RunAppend(s, [Read(0, noBlock), f, f], [f, f, f]);
    LeaveStoresControl(Run(a, [f, f, f]), r);
    RunAppend(s, [Read(0, noBlock), f, f] + [f, f, f], [f, f, f]);
    assert ZeroLengthRead(noBlock) == [Read(0, noBlock), f, f] + [f, f, f] + [f, f, f];
  }

  /** The call and its foreground steps; the last one finds nothing left to do. */
  function ZeroLengthRead(noBlock: bool): seq<Event> {
    [Read(0, noBlock), Foreground, Foreground, Foreground, Foreground, Foreground, Foreground, Foreground, Foreground]
  }

  /** read() with a zero length breaks the discipline: at a full, masked ring it consumes nothing
      and still puts RRDY back, so the next receive interrupt empties the queue. */
  lemma ZeroLengthReadUnmasksFullRing(s: System, noBlock: bool, i: Interrupt)
    requires Queue(s) && s.pc.Idle? && RxFull(s) && TakesByte(i)
    ensures var t := Run(s, ZeroLengthRead(noBlock));
      && t.pc.Idle? && t.p.ctrl.rrdy && RxFull(t)
      && Ring(Next(t, Isr(i)).p.rxBuf, Next(t, Isr(i)).p.rxStart, Next(t, Isr(i)).p.rxEnd) == []
  {
    ZeroLengthReadOnlyUnmasks(s, noBlock);
    var t := Run(s, ZeroLengthRead(noBlock));
    RunKeepsRx(s, ZeroLengthRead(noBlock));
    OverflowEmptiesQueue(t, Isr(i));
  }
}
