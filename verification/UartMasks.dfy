/** The interrupt masks of the UART: what one transmit interrupt leaves of them, which event they go back
    to over a whole run, and that an idle transmitter does not interrupt. */
module UartMasks {
  import opened Uart
  import opened UartRuns

  /** After a transmit interrupt the device register is the shadow. On an empty ring both transmit bits are
      off; otherwise DCTS is as it was, and TRDY is on if a byte was sent, and stays on unless both reads
      of the status showed CTS low. */
  lemma TxServiceMasks(p: Port, i: Interrupt)
    requires ServesTx(i)
    ensures var q := Irq(p, i);
      && q.control == q.ctrl
      && (q.txStart == q.txEnd ==> !q.control.trdy && !q.control.dcts)
      && (q.txStart != q.txEnd ==>
            && (q.control.dcts <==> p.ctrl.dcts)
            && (q.control.trdy <==> |q.txLog| > |p.txLog| || (p.ctrl.trdy && i.ctsAgain)))
  {
    var q := if i.status.rrdy then RxIrq(p, i.status, i.rxData) else p;
    RxIrqKeepsTx(p, i.status, i.rxData);
    assert q.ctrl.trdy == p.ctrl.trdy && q.ctrl.dcts == p.ctrl.dcts;
  }

  /** A byte is sent exactly if the ring holds one and flow control does not forbid it; it is the oldest. */
  lemma TxServiceSends(p: Port, i: Interrupt)
    requires ServesTx(i)
    ensures var q := Irq(p, i);
      q.txLog == if p.txStart != p.txEnd && (!p.flowControl || i.status.cts) then p.txLog + [p.txBuf[p.txStart]] else p.txLog
  {
    RxIrqKeepsTx(p, i.status, i.rxData);
  }

  // ---- Over runs ----

  /** The event that the transmit bits go back to: initialisation, the last critical section of a write(), or
      a transmit interrupt after it. */
  datatype Cause = Initialised | Raised | Served

  /** write() is about to set the transmit bits in the shadow. */
  predicate AtRaise(pc: Pc) {
    pc.InWrite? && (pc.at.Unmask? || pc.at.Finish?) && SectionOf(pc) == SetBits
  }

  function CauseOf(boot: System, es: seq<Event>): Cause
    decreases |es|
  {
    if es == [] then Initialised
    else
      var t, e := Run(boot, es[..|es| - 1]), es[|es| - 1];
      if e.Isr? && Enabled(t, e) && ServesTx(e.i) then Served
      else if e.Foreground? && AtRaise(t.pc) then Raised
      else CauseOf(boot, es[..|es| - 1])
  }

  /** What the transmit bits of the shadow are, by their cause. */
  predicate TxBits(p: Port, cause: Cause) {
    && p.ctrl.rts && p.control.rts
    && match cause
       case Initialised => p.ctrl.dcts && !p.ctrl.trdy
       case Raised => p.ctrl.dcts && p.ctrl.trdy
       case Served => p.txStart == p.txEnd ==> !p.ctrl.dcts && !p.ctrl.trdy
  }

  lemma IsrKeepsBits(p: Port, i: Interrupt, cause: Cause)
    requires TxBits(p, cause)
    ensures TxBits(Irq(p, i), if ServesTx(i) then Served else cause)
  {
    var q := if i.status.rrdy then RxIrq(p, i.status, i.rxData) else p;
    assert TxBits(q, cause) && q.ctrl.rts;
  }

  /** Publishing a byte leaves the ring with something in it. */
  lemma PublishFills(s: System)
    requires TxInv(s) && Publishing(s.pc)
    ensures var t := Next(s, Foreground); t.p.txStart != t.p.txEnd
  {
    NextKeepsTx(s, Foreground);
    var t := Next(s, Foreground);
    DifferentSlots(|t.p.txLog|, |t.taken|);
  }

  lemma WriteKeepsBits(s: System, cause: Cause)
    requires TxInv(s) && TxBits(s.p, cause) && s.pc.InWrite?
    ensures TxBits(Next(s, Foreground).p, if AtRaise(s.pc) then Raised else cause)
  {
    match s.pc.at
    case Publish(w, next) => PublishFills(s);
    case Unmask(w, next, at) => if at != Restore { TxSectionStep(s); }
    case Finish(w, at) => if at != Restore { TxSectionStep(s); }
    case _ =>
  }

  lemma ReadKeepsBits(s: System, cause: Cause)
    requires TxBits(s.p, cause) && s.pc.InRead?
    ensures TxBits(Next(s, Foreground).p, cause)
  {
    match s.pc.from
    case Refill(r, at) => if at != Restore { RxSectionStep(s); }
    case Leave(r, wouldBlock, at) => if at != Restore { RxSectionStep(s); }
    case _ =>
  }

  lemma CauseUnfold(boot: System, es: seq<Event>)
    requires es != []
    ensures var t, e := Run(boot, es[..|es| - 1]), es[|es| - 1];
      && Run(boot, es) == Next(t, e)
      && CauseOf(boot, es) ==
           if e.Isr? && Enabled(t, e) && ServesTx(e.i) then Served
           else if e.Foreground? && AtRaise(t.pc) then Raised
           else CauseOf(boot, es[..|es| - 1])
  {
  }

  lemma NextKeepsBits(t: System, e: Event, cause: Cause)
    requires TxInv(t) && TxBits(t.p, cause)
    ensures TxBits(Next(t, e).p,
      if e.Isr? && Enabled(t, e) && ServesTx(e.i) then Served
      else if e.Foreground? && AtRaise(t.pc) then Raised
      else cause)
  {
    if Enabled(t, e) {
      if e.Isr? {
        IsrKeepsBits(t.p, e.i, cause);
      } else if e.Foreground? && t.pc.InWrite? {
        WriteKeepsBits(t, cause);
      } else if e.Foreground? && t.pc.InRead? {
        ReadKeepsBits(t, cause);
      }
    }
  }

  /** Over every run: RTS stays on; until the first write() raises them TRDY is off and DCTS on; from a raise
      to the next transmit interrupt both are on; and after one they are both off whenever the ring is empty. */
  lemma {:induction false} TxBitsByCause(boot: System, es: seq<Event>)
    requires Boot(boot)
    ensures TxBits(Run(boot, es).p, CauseOf(boot, es))
    decreases |es|
  {
    if es != [] {
      var before := es[..|es| - 1];
      TxBitsByCause(boot, before);
      assert TxInv(boot);
      RunKeepsTx(boot, before);
      CauseUnfold(boot, es);
      NextKeepsBits(Run(boot, before), es[|es| - 1], CauseOf(boot, before));
    }
  }

  /** An idle transmitter does not interrupt for ever. Wherever an interrupt can be taken, the device register
      has a transmit bit on with an empty ring only if no transmit interrupt has come since it was raised;
      and then exactly: TRDY if a write() raised it, DCTS in any case. */
  lemma IdleTransmitterIsQuiet(boot: System, es: seq<Event>)
    requires Boot(boot)
    ensures var t := Run(boot, es);
      !IrqsOff(t.pc) && TxOccupancy(t.p) == 0 ==>
        && t.p.control.rts
        && (t.p.control.dcts <==> CauseOf(boot, es) != Served)
        && (t.p.control.trdy <==> CauseOf(boot, es) == Raised)
  {
    TxBitsByCause(boot, es);
    NoTransmitStall(boot, es);
    EmptyByCause(Run(boot, es).p, CauseOf(boot, es));
  }

  lemma EmptyByCause(p: Port, cause: Cause)
    requires TxBits(p, cause)
    ensures TxOccupancy(p) == 0 ==> (p.ctrl.dcts <==> cause != Served) && (p.ctrl.trdy <==> cause == Raised)
  {
  }

  // ---- A read() that waits ----

  /** The steps of a blocking read() that has found nothing, up to its store to the device, with any interrupts
      before it disables them. */
  function RaiseRx(arriving: seq<Interrupt>): seq<Event> {
    [Foreground] + Isrs(arriving) + [Foreground, Foreground, Foreground]
  }

  function Isrs(arriving: seq<Interrupt>): seq<Event> {
    seq(|arriving|, k requires 0 <= k < |arriving| => Isr(arriving[k]))
  }

  lemma {:induction false} IsrsOnly(s: System, arriving: seq<Interrupt>)
    requires !IrqsOff(s.pc)
    ensures Run(s, Isrs(arriving)).pc == s.pc
    decreases |arriving|
  {
    if arriving != [] {
      var n := |arriving| - 1;
      assert Isrs(arriving)[..n] == Isrs(arriving[..n]);
      IsrsOnly(s, arriving[..n]);
    }
  }

  lemma RaisedInThree(s: System, r: ReadCall)
    requires s.pc == InRead(Refill(r, Disable))
    ensures var t := Next(Next(Next(s, Foreground), Foreground), Foreground);
      t.pc == InRead(Refill(r, Restore)) && t.p.ctrl.rrdy && t.p.control == t.p.ctrl
  {
    RxSectionStep(s);
    var t := Next(s, Foreground);
    RxSectionStep(t);
    RxSectionStep(Next(t, Foreground));
  }

  /** A blocking read() that finds the ring empty does not wait before it has stored RRDY in the device, whether
      or not the ring was masked, and whatever interrupts come in between. */
  lemma EmptyReadRaises(s: System, r: ReadCall, arriving: seq<Interrupt>)
    requires s.pc == InRead(Check(r)) && r.count == 0 && !r.noBlock && s.p.rxStart == s.p.rxEnd
    ensures var t := Run(s, RaiseRx(arriving));
      t.pc == InRead(Refill(r, Restore)) && t.p.ctrl.rrdy && t.p.control == t.p.ctrl
  {
    var a := Next(s, Foreground);
    assert a.pc == InRead(Refill(r, Disable));
    var b := Run(a, Isrs(arriving));
    IsrsOnly(a, arriving);
    RunSnoc(s, [], Foreground);
    RunAppend(s, [Foreground], Isrs(arriving));
    RunAppend(s, [Foreground] + Isrs(arriving), [Foreground, Foreground, Foreground]);
    RunThree(b, Foreground, Foreground, Foreground);
    RaisedInThree(b, r);
  }
}
