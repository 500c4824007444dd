/** The UART driver as an interleaving of single foreground stores with whole runs of the service
    routine. A foreground call is a program counter carrying its locals; the service routine may
    run between any two foreground steps except where the foreground has interrupts disabled. */
module UartRuns {
  import opened Uart

  /** The critical section `alt_irq_disable_all; ctrl |= ..; IOWR CONTROL; alt_irq_enable_all`,
      named by the step it is about to take. */
  datatype Section = Disable | SetBits | StoreControl | Restore

  /** A call of write(): `count` bytes of `data` are still to be taken. */
  datatype WriteArgs = WriteArgs(data: seq<Byte>, count: nat, noBlock: bool)

  type WriteCall = w: WriteArgs | w.count <= |w.data| witness WriteArgs([], 0, false)

  /** A call of write() past the test at the head of its loop. */
  type Pending = w: WriteArgs | 0 < w.count <= |w.data| witness WriteArgs([0], 1, false)

  /** A call of read(): `count` of at most `len` bytes have been returned, the first of them being
      byte number `base` of everything read() has ever returned. */
  datatype ReadCall = ReadCall(len: nat, base: nat, count: nat, noBlock: bool)

  datatype Result =
    | Nothing
    | Wrote(data: seq<Byte>, noBlock: bool, n: nat)
    | DidRead(call: ReadCall, wouldBlock: bool)
    | Closed(ok: bool)

  datatype WritePc =
    | Test(w: WriteCall)                            // while (count)
    | Full(todo: Pending, next: Index)              // if (next == tx_start)
    | Unmask(todo: Pending, next: Index, at: Section)
    | Spin(todo: Pending, next: Index)              // while (next == tx_start)
    | Store(todo: Pending, next: Index)             // tx_buf[tx_end] = *ptr++
    | Publish(w: WriteCall, next: Index)            // tx_end = next
    | Finish(w: WriteCall, at: Section)

  datatype ReadPc =
    | Loop(r: ReadCall)                             // while (count < len && rx_start != rx_end)
    | Copy(r: ReadCall)                             // *ptr++ = rx_buf[rx_start]
    | Advance(r: ReadCall)                          // rx_start = (rx_start + 1) & MSK
    | Check(r: ReadCall)                            // if (!count && rx_start == rx_end)
    | Refill(r: ReadCall, at: Section)
    | Outer(r: ReadCall)                            // while (!count && len)
    | Leave(r: ReadCall, wouldBlock: bool, at: Section)

  datatype Pc = Idle(result: Result) | InWrite(at: WritePc) | InRead(from: ReadPc) | InClose(noBlock: bool)

  /** `taken` are the bytes write() has read through its pointer, `returned` those read() has
      stored through its pointer, and `source[k]` is the position in `rxLog` of the byte that the
      slot held when `returned[k]` was copied out of it. */
  datatype System = System(p: Port, pc: Pc, taken: seq<Byte>, returned: seq<Byte>, source: seq<nat>)

  datatype Event =
    | Foreground
    | Isr(i: Interrupt)
    | Write(data: seq<Byte>, noBlock: bool)
    | Read(len: nat, noBlock: bool)
    | Close(noBlock: bool)

  /** Interrupts are off from the return of alt_irq_disable_all to that of alt_irq_enable_all. */
  predicate IrqsOff(pc: Pc) {
    match pc
    case InWrite(Unmask(_, _, at)) => at != Disable
    case InWrite(Finish(_, at)) => at != Disable
    case InRead(Refill(_, at)) => at != Disable
    case InRead(Leave(_, _, at)) => at != Disable
    case _ => false
  }

  predicate Enabled(s: System, e: Event) {
    match e
    case Foreground => !s.pc.Idle?
    case Isr(_) => !IrqsOff(s.pc)
    case _ => s.pc.Idle?
  }

  function After(at: Section): Section {
    match at
    case Disable => SetBits
    case SetBits => StoreControl
    case _ => Restore
  }

  /** What one step of a critical section that raises the bits of `c` stores. */
  function InSection(p: Port, at: Section, c: Ctrl): Port {
    match at
    case SetBits => p.(ctrl := c)
    case StoreControl => p.(control := p.ctrl)
    case _ => p
  }

  function UnmaskTx(c: Ctrl): Ctrl {
    c.(trdy := true, dcts := true)
  }

  function UnmaskRx(c: Ctrl): Ctrl {
    c.(rrdy := true)
  }

  function WriteStep(s: System, at: WritePc): System {
    var p := s.p;
    match at
    case Test(w) =>
      s.(pc := InWrite(if w.count == 0 then Finish(w, Disable) else Full(w, Succ(p.txEnd))))
    case Full(w, next) =>
      s.(pc := InWrite(if next != p.txStart then Store(w, next)
                       else if w.noBlock then Finish(w, Disable)
                       else Unmask(w, next, Disable)))
    case Unmask(w, next, at) =>
      s.(p := InSection(p, at, UnmaskTx(p.ctrl)),
         pc := InWrite(if at == Restore then Spin(w, next) else Unmask(w, next, After(at))))
    case Spin(w, next) =>
      if next == p.txStart then s else s.(pc := InWrite(Store(w, next)))
    case Store(w, next) =>
      var b := w.data[|w.data| - w.count];
      s.(p := p.(txBuf := p.txBuf[p.txEnd := b]),
         pc := InWrite(Publish(w.(count := w.count - 1), next)),
         taken := s.taken + [b])
    case Publish(w, next) =>
      s.(p := p.(txEnd := next), pc := InWrite(Test(w)))
    case Finish(w, at) =>
      s.(p := InSection(p, at, UnmaskTx(p.ctrl)),
         pc := if at == Restore then Idle(Wrote(w.data, w.noBlock, |w.data| - w.count))
               else InWrite(Finish(w, After(at))))
  }

  /** The position in the received stream of the newest byte stored in the slot that position
      `k` uses, `taken` bytes having been stored so far. */
  function Newest(k: nat, taken: nat): nat {
    if k < taken then k + (taken - 1 - k) / LEN * LEN else k
  }

  function ReadStep(s: System, at: ReadPc): System {
    var p := s.p;
    match at
    case Loop(r) =>
      s.(pc := InRead(if r.count < r.len && p.rxStart != p.rxEnd then Copy(r) else Check(r)))
    case Copy(r) =>
      s.(pc := InRead(Advance(r.(count := r.count + 1))),
         returned := s.returned + [p.rxBuf[p.rxStart]],
         source := s.source + [Newest(|s.returned|, |p.rxLog|)])
    case Advance(r) =>
      s.(p := p.(rxStart := Succ(p.rxStart)), pc := InRead(Loop(r)))
    case Check(r) =>
      s.(pc := InRead(if r.count != 0 || p.rxStart != p.rxEnd then Outer(r)
                      else if r.noBlock then Leave(r, true, Disable)
                      else Refill(r, Disable)))
    case Refill(r, at) =>
      s.(p := InSection(p, at, UnmaskRx(p.ctrl)),
         pc := InRead(if at == Restore then Outer(r) else Refill(r, After(at))))
    case Outer(r) =>
      s.(pc := InRead(if r.count == 0 && r.len != 0 then Loop(r) else Leave(r, false, Disable)))
    case Leave(r, wouldBlock, at) =>
      s.(p := InSection(p, at, UnmaskRx(p.ctrl)),
         pc := if at == Restore then Idle(DidRead(r, wouldBlock)) else InRead(Leave(r, wouldBlock, After(at))))
  }

  function CloseStep(s: System, noBlock: bool): System {
    if s.p.txStart == s.p.txEnd then s.(pc := Idle(Closed(true)))
    else if noBlock then s.(pc := Idle(Closed(false)))
    else s
  }

  function Step(s: System): System {
    match s.pc
    case Idle(_) => s
    case InWrite(at) => WriteStep(s, at)
    case InRead(at) => ReadStep(s, at)
    case InClose(noBlock) => CloseStep(s, noBlock)
  }

  /** One event. An event that is not enabled does not happen: an interrupt is not taken while
      interrupts are off, and the single foreground thread starts no call inside another. */
  function Next(s: System, e: Event): System {
    if !Enabled(s, e) then s
    else
      match e
      case Foreground => Step(s)
      case Isr(i) => s.(p := Irq(s.p, i))
      case Write(data, noBlock) => s.(pc := InWrite(Test(WriteArgs(data, |data|, noBlock))))
      case Read(len, noBlock) => s.(pc := InRead(Loop(ReadCall(len, |s.returned|, 0, noBlock))))
      case Close(noBlock) => s.(pc := InClose(noBlock))
  }

  function Run(s: System, es: seq<Event>): System {
    if es == [] then s else Next(Run(s, es[..|es| - 1]), es[|es| - 1])
  }

  lemma RunSnoc(s: System, es: seq<Event>, e: Event)
    ensures Run(s, es + [e]) == Next(Run(s, es), e)
  {
    assert (es + [e])[..|es + [e]| - 1] == es;
  }

  lemma RunThree(s: System, x: Event, y: Event, z: Event)
    ensures Run(s, [x, y, z]) == Next(Next(Next(s, x), y), z)
  {
    RunSnoc(s, [], x);
    RunSnoc(s, [x], y);
    RunSnoc(s, [x, y], z);
    assert [x] + [y] == [x, y] && [x, y] + [z] == [x, y, z];
  }

  lemma {:induction false} RunAppend(s: System, es: seq<Event>, fs: seq<Event>)
    ensures Run(s, es + fs) == Run(Run(s, es), fs)
  {
    if fs == [] {
      assert es + fs == es;
    } else {
      var n := |fs| - 1;
      assert (es + fs)[..|es + fs| - 1] == es + fs[..n];
      RunAppend(s, es, fs[..n]);
    }
  }

  /** The state when initialisation has just returned: empty rings, receive interrupt enabled. */
  predicate Boot(s: System) {
    && s.pc == Idle(Nothing)
    && s.taken == s.returned == [] && s.source == []
    && s.p.txLog == s.p.rxLog == []
    && s.p.rxStart == s.p.rxEnd == s.p.txStart == s.p.txEnd == 0
    && s.p == Init(s.p)
  }

  // ---- Transmit side ----

  predicate Publishing(pc: Pc) {
    pc.InWrite? && pc.at.Publish?
  }

  /** How many bytes of `taken` the store to tx_end has made visible to the service routine. */
  function Published(s: System): int {
    |s.taken| - if Publishing(s.pc) then 1 else 0
  }

  /** The newest bytes taken are the first |data| - count bytes of data. */
  predicate TookPrefix(taken: seq<Byte>, data: seq<Byte>, count: nat) {
    && count <= |data| <= |taken| + count
    && taken[|taken| + count - |data|..] == data[..|data| - count]
  }

  /** What write() knows at each of its program points. */
  predicate WriterKnows(s: System, at: WritePc) {
    match at
    case Test(w) => TookPrefix(s.taken, w.data, w.count)
    case Full(w, next) => next == Succ(s.p.txEnd) && TookPrefix(s.taken, w.data, w.count)
    case Unmask(w, next, _) => next == Succ(s.p.txEnd) && TookPrefix(s.taken, w.data, w.count) && !w.noBlock
    case Spin(w, next) => next == Succ(s.p.txEnd) && TookPrefix(s.taken, w.data, w.count) && !w.noBlock
    case Store(w, next) =>
      next == Succ(s.p.txEnd) && TookPrefix(s.taken, w.data, w.count) && |s.taken| - |s.p.txLog| < LEN - 1
    case Publish(w, next) => next == Succ(s.p.txEnd) && TookPrefix(s.taken, w.data, w.count)
    case Finish(w, _) => TookPrefix(s.taken, w.data, w.count) && (w.noBlock || w.count == 0)
  }

  /** What the result of a write() promises, until the next call. */
  predicate WrotePrefix(taken: seq<Byte>, r: Result) {
    r.Wrote? ==>
      && r.n <= |r.data|
      && TookPrefix(taken, r.data, |r.data| - r.n)
      && (r.noBlock || r.n == |r.data|)
  }

  /** The transmit ring as a window onto the stream `taken`: the bytes before it are in `txLog`,
      the bytes inside it are in their slots. */
  predicate TxFlow(p: Port, taken: seq<Byte>, published: int) {
    && |p.txLog| <= published <= |taken| < |p.txLog| + LEN
    && p.txStart == |p.txLog| % LEN
    && p.txEnd == published % LEN
    && p.txLog == taken[..|p.txLog|]
    && (forall k :: |p.txLog| <= k < |taken| ==> p.txBuf[k % LEN] == taken[k])
  }

  predicate TxInv(s: System) {
    && TxFlow(s.p, s.taken, Published(s))
    && (s.pc.InWrite? ==> WriterKnows(s, s.pc.at))
    && (s.pc.Idle? ==> WrotePrefix(s.taken, s.pc.result))
  }

  lemma TxIrqKeepsFlow(p: Port, status: Status, ctsAgain: bool, taken: seq<Byte>, published: int)
    requires TxFlow(p, taken, published)
    ensures TxFlow(TxIrq(p, status, ctsAgain), taken, published)
    ensures |p.txLog| <= |TxIrq(p, status, ctsAgain).txLog|
  {
    var q := TxIrq(p, status, ctsAgain);
    if p.txStart != p.txEnd && (!p.flowControl || status.cts) {
      SendKeepsFlow(p, taken, published);
      FlowIgnoresMasks(Sent(p), q, taken, published);
    } else {
      FlowIgnoresMasks(p, q, taken, published);
    }
  }

  /** The oldest byte of the ring goes to TXDATA. */
  function Sent(p: Port): Port {
    p.(txLog := p.txLog + [p.txBuf[p.txStart]], txStart := Succ(p.txStart))
  }

  lemma SendKeepsFlow(p: Port, taken: seq<Byte>, published: int)
    requires TxFlow(p, taken, published) && p.txStart != p.txEnd
    ensures TxFlow(Sent(p), taken, published)
  {
    SuccOfPosition(|p.txLog|);
    assert p.txBuf[|p.txLog| % LEN] == taken[|p.txLog|];
    assert Sent(p).txLog == taken[..|p.txLog| + 1];
  }

  lemma FlowIgnoresMasks(p: Port, q: Port, taken: seq<Byte>, published: int)
    requires TxFlow(p, taken, published)
    requires q.txStart == p.txStart && q.txEnd == p.txEnd && q.txBuf == p.txBuf && q.txLog == p.txLog
    ensures TxFlow(q, taken, published)
  {
  }

  lemma IsrKeepsTx(s: System, i: Interrupt)
    requires TxInv(s)
    ensures TxInv(s.(p := Irq(s.p, i)))
  {
    var q := if i.status.rrdy then RxIrq(s.p, i.status, i.rxData) else s.p;
    assert TxFlow(q, s.taken, Published(s));
    TxIrqKeepsFlow(q, i.status, i.ctsAgain, s.taken, Published(s));
  }

  lemma TookOneMore(taken: seq<Byte>, data: seq<Byte>, count: nat)
    requires count > 0 && TookPrefix(taken, data, count)
    ensures TookPrefix(taken + [data[|data| - count]], data, count - 1)
  {
    var n := |data| - count;
    assert (taken + [data[n]])[|taken| - n..] == taken[|taken| - n..] + [data[n]];
    assert data[..n + 1] == data[..n] + [data[n]];
  }

  lemma StoreKeepsFlow(p: Port, taken: seq<Byte>, b: Byte)
    requires TxFlow(p, taken, |taken|) && |taken| - |p.txLog| < LEN - 1
    ensures TxFlow(p.(txBuf := p.txBuf[p.txEnd := b]), taken + [b], |taken|)
  {
    var q, more := p.(txBuf := p.txBuf[p.txEnd := b]), taken + [b];
    forall k | |p.txLog| <= k < |more|
      ensures q.txBuf[k % LEN] == more[k]
    {
      if k < |taken| {
        DifferentSlots(k, |taken|);
      }
    }
    assert q.txLog == more[..|q.txLog|];
  }

  lemma StoreKeepsTx(s: System, w: Pending, next: Index)
    requires TxInv(s) && s.pc == InWrite(Store(w, next))
    ensures TxInv(WriteStep(s, s.pc.at))
  {
    var b := w.data[|w.data| - w.count];
    var t := s.(p := s.p.(txBuf := s.p.txBuf[s.p.txEnd := b]),
                pc := InWrite(Publish(w.(count := w.count - 1), next)), taken := s.taken + [b]);
    assert WriteStep(s, s.pc.at) == t;
    TookOneMore(s.taken, w.data, w.count);
    StoreKeepsFlow(s.p, s.taken, b);
    assert Published(t) == |s.taken|;
  }

  lemma WriteStepKeepsTx(s: System)
    requires TxInv(s) && s.pc.InWrite?
    ensures TxInv(WriteStep(s, s.pc.at))
  {
    match s.pc.at
    case Store(w, next) => StoreKeepsTx(s, w, next);
    case Publish(w, next) => PublishKeepsTx(s);
    case Full(w, next) => FullTestIsExact(s, next);
    case Spin(w, next) => FullTestIsExact(s, next);
    case Unmask(w, next, at) =>
    case Finish(w, at) =>
    case Test(w) =>
  }

  lemma PublishKeepsTx(s: System)
    requires TxInv(s) && s.pc.InWrite? && s.pc.at.Publish?
    ensures TxInv(WriteStep(s, s.pc.at))
  {
    SuccOfPosition(Published(s));
  }

  lemma FullTestIsExact(s: System, next: Index)
    requires TxFlow(s.p, s.taken, |s.taken|) && next == Succ(s.p.txEnd)
    ensures next == s.p.txStart <==> |s.taken| - |s.p.txLog| == LEN - 1
  {
    FullIffOneShort(|s.p.txLog|, |s.taken|);
  }

  lemma ReadStepKeepsTx(s: System)
    requires TxInv(s) && s.pc.InRead?
    ensures TxInv(ReadStep(s, s.pc.from))
  {
  }

  lemma NextKeepsTx(s: System, e: Event)
    requires TxInv(s)
    ensures TxInv(Next(s, e))
  {
    if Enabled(s, e) {
      match e
      case Foreground =>
        if s.pc.InWrite? {
          WriteStepKeepsTx(s);
        } else if s.pc.InRead? {
          ReadStepKeepsTx(s);
        }
      case Isr(i) => IsrKeepsTx(s, i);
      case Write(data, noBlock) => assert TookPrefix(s.taken, data, |data|);
      case _ =>
    }
  }

  lemma {:induction false} RunKeepsTx(s: System, es: seq<Event>)
    requires TxInv(s)
    ensures TxInv(Run(s, es))
  {
    if es != [] {
      RunKeepsTx(s, es[..|es| - 1]);
      NextKeepsTx(Run(s, es[..|es| - 1]), es[|es| - 1]);
    }
  }

  lemma TxRingIsWindow(s: System)
    requires TxInv(s)
    ensures s.p.txLog + Ring(s.p.txBuf, s.p.txStart, s.p.txEnd) == s.taken[..Published(s)]
    ensures TxOccupancy(s.p) == Published(s) - |s.p.txLog|
  {
    FlowIsWindow(s.p, s.taken, Published(s));
  }

  lemma FlowIsWindow(p: Port, taken: seq<Byte>, n: int)
    requires TxFlow(p, taken, n)
    ensures p.txLog + Ring(p.txBuf, p.txStart, p.txEnd) == taken[..n]
    ensures TxOccupancy(p) == n - |p.txLog|
  {
    RingIsSlice(p.txBuf, taken, |p.txLog|, n);
    OccupancyOfPositions(|p.txLog|, n);
    Rejoin(taken, |p.txLog|, n);
  }

  lemma Rejoin(taken: seq<Byte>, a: nat, n: nat)
    requires a <= n <= |taken|
    ensures taken[..a] + taken[a..n] == taken[..n]
  {
  }

  /** Under every interleaving: what went to TXDATA, followed by the ring, is exactly what write()
      has taken and published, in order; and a write() that has returned n took the first n bytes
      of its data, all of them if it may block. */
  lemma TransmitRefinement(boot: System, es: seq<Event>)
    requires Boot(boot)
    ensures var s := Run(boot, es);
      && 0 <= Published(s) <= |s.taken|
      && s.p.txLog + Ring(s.p.txBuf, s.p.txStart, s.p.txEnd) == s.taken[..Published(s)]
      && TxOccupancy(s.p) == Published(s) - |s.p.txLog|
      && (s.pc.Idle? ==> WrotePrefix(s.taken, s.pc.result))
  {
    assert TxInv(boot);
    RunKeepsTx(boot, es);
    TxRingIsWindow(Run(boot, es));
  }

  // ---- Interrupt masks and progress of the transmit side ----

  /** The control register holds its shadow, except where a critical section has changed the
      shadow and not yet stored it. */
  predicate Coherent(s: System) {
    s.p.control == s.p.ctrl || (IrqsOff(s.pc) && SectionOf(s.pc) == StoreControl)
  }

  function SectionOf(pc: Pc): Section {
    match pc
    case InWrite(Unmask(_, _, at)) => at
    case InWrite(Finish(_, at)) => at
    case InRead(Refill(_, at)) => at
    case InRead(Leave(_, _, at)) => at
    case _ => Disable
  }

  /** The same critical section of write(), at step `at`. */
  function AtSection(pc: Pc, at: Section): Pc
    requires pc.InWrite? && (pc.at.Unmask? || pc.at.Finish?)
  {
    if pc.at.Unmask? then InWrite(Unmask(pc.at.todo, pc.at.next, at)) else InWrite(Finish(pc.at.w, at))
  }

  /** And of read(). */
  function AtReadSection(pc: Pc, at: Section): Pc
    requires pc.InRead? && (pc.from.Refill? || pc.from.Leave?)
  {
    if pc.from.Refill? then InRead(Refill(pc.from.r, at)) else InRead(Leave(pc.from.r, pc.from.wouldBlock, at))
  }

  /** One step inside such a section. */
  lemma TxSectionStep(s: System)
    requires s.pc.InWrite? && (s.pc.at.Unmask? || s.pc.at.Finish?) && SectionOf(s.pc) != Restore
    ensures Next(s, Foreground) ==
      s.(p := InSection(s.p, SectionOf(s.pc), UnmaskTx(s.p.ctrl)), pc := AtSection(s.pc, After(SectionOf(s.pc))))
  {
  }

  lemma RxSectionStep(s: System)
    requires s.pc.InRead? && (s.pc.from.Refill? || s.pc.from.Leave?) && SectionOf(s.pc) != Restore
    ensures Next(s, Foreground) ==
      s.(p := InSection(s.p, SectionOf(s.pc), UnmaskRx(s.p.ctrl)), pc := AtReadSection(s.pc, After(SectionOf(s.pc))))
  {
  }

  predicate BeforeBits(at: Section) {
    at == Disable || at == SetBits
  }

  /** From the first store of a write() until it has raised the transmit bits again, not counting
      the wait on a full ring. */
  predicate MidWrite(pc: Pc) {
    pc.InWrite? &&
    match pc.at
    case Test(w) => w.count < |w.data|
    case Full(w, _) => w.count < |w.data|
    case Unmask(w, _, at) => w.count < |w.data| && BeforeBits(at)
    case Spin(_, _) => false
    case Store(w, _) => w.count < |w.data|
    case Publish(_, _) => true
    case Finish(w, at) => w.count < |w.data| && BeforeBits(at)
  }

  /** Bytes wait in the transmit ring, so the interrupt that will move them is unmasked. */
  predicate Armed(s: System) {
    s.p.txStart != s.p.txEnd && !MidWrite(s.pc) ==>
      s.p.ctrl.dcts && (!s.p.flowControl ==> s.p.ctrl.trdy)
  }

  predicate MaskInv(s: System) {
    && Coherent(s)
    && Armed(s)
    && (s.pc.InWrite? && s.pc.at.Publish? ==> s.pc.at.w.count < |s.pc.at.w.data|)
  }

  lemma WriteStepKeepsMasks(s: System)
    requires MaskInv(s) && s.pc.InWrite?
    ensures MaskInv(WriteStep(s, s.pc.at))
  {
    match s.pc.at case Store(_, _) => case Publish(_, _) => case Unmask(_, _, _) => case Finish(_, _) => case _ =>
  }

  lemma ReadStepKeepsMasks(s: System)
    requires MaskInv(s) && s.pc.InRead?
    ensures MaskInv(ReadStep(s, s.pc.from))
  {
    match s.pc.from case Refill(_, _) => case Leave(_, _, _) => case _ =>
  }

  lemma IsrKeepsMasks(s: System, i: Interrupt)
    requires MaskInv(s) && !IrqsOff(s.pc)
    ensures MaskInv(s.(p := Irq(s.p, i)))
  {
    var q := if i.status.rrdy then RxIrq(s.p, i.status, i.rxData) else s.p;
    assert MaskInv(s.(p := q));
  }

  lemma NextKeepsMasks(s: System, e: Event)
    requires MaskInv(s)
    ensures MaskInv(Next(s, e))
  {
    if Enabled(s, e) {
      match e
      case Foreground =>
        if s.pc.InWrite? {
          WriteStepKeepsMasks(s);
        } else if s.pc.InRead? {
          ReadStepKeepsMasks(s);
        }
      case Isr(i) => IsrKeepsMasks(s, i);
      case _ =>
    }
  }

  lemma {:induction false} RunKeepsMasks(s: System, es: seq<Event>)
    requires MaskInv(s)
    ensures MaskInv(Run(s, es))
  {
    if es != [] {
      RunKeepsMasks(s, es[..|es| - 1]);
      NextKeepsMasks(Run(s, es[..|es| - 1]), es[|es| - 1]);
    }
  }

  /** No transmit stall: in every reachable state in which the service routine may run and no
      write() is between its first store and its return, a non-empty transmit ring has its
      interrupts enabled in the device itself. This covers a write() waiting on a full ring. */
  lemma NoTransmitStall(boot: System, es: seq<Event>)
    requires Boot(boot)
    ensures var s := Run(boot, es);
      && (!IrqsOff(s.pc) ==> s.p.control == s.p.ctrl)
      && (TxOccupancy(s.p) != 0 && !MidWrite(s.pc) && !IrqsOff(s.pc) ==>
            s.p.control.dcts && (!s.p.flowControl ==> s.p.control.trdy))
  {
    RunKeepsMasks(boot, es);
  }

  /** How many of the events run the transmit half of the service routine. */
  function TxServices(es: seq<Event>): nat {
    if es == [] then 0
    else TxServices(es[..|es| - 1]) + if es[|es| - 1].Isr? && ServesTx(es[|es| - 1].i) then 1 else 0
  }

  /** One transmit interrupt moves exactly the oldest byte of a non-empty ring to TXDATA. */
  lemma TxIrqSendsOne(p: Port, i: Interrupt)
    ensures var q := Irq(p, i);
      if ServesTx(i) && !p.flowControl && p.txStart != p.txEnd then
        q.txLog == p.txLog + [p.txBuf[p.txStart]] && TxOccupancy(q) == TxOccupancy(p) - 1
      else
        (p.flowControl || (q.txLog == p.txLog && TxOccupancy(q) == TxOccupancy(p)))
  {
    var q := if i.status.rrdy then RxIrq(p, i.status, i.rxData) else p;
    RxIrqKeepsTx(p, i.status, i.rxData);
    assert q.txStart == p.txStart && q.txEnd == p.txEnd;
    if p.txStart != p.txEnd {
      OccupancyOfRest(p.txStart, p.txEnd);
    }
  }

  /** The receive half of the service routine leaves the transmit half of the state alone. */
  lemma RxIrqKeepsTx(p: Port, status: Status, data: Byte)
    ensures var q := RxIrq(p, status, data);
      && q.txStart == p.txStart && q.txEnd == p.txEnd && q.txBuf == p.txBuf && q.txLog == p.txLog
      && q.flowControl == p.flowControl
  {
  }

  lemma OccupancyOfRest(start: Index, end: Index)
    requires start != end
    ensures Occupancy(Succ(start), end) == Occupancy(start, end) - 1
  {
  }

  lemma CloseStepDrains(q: System, e: Event)
    requires TxInv(q) && !q.p.flowControl
    requires e.Foreground? || e.Isr?
    requires q.pc == InClose(false) || (q.pc == Idle(Closed(true)) && TxOccupancy(q.p) == 0)
    ensures var r := Next(q, e);
      && !r.p.flowControl && r.taken == q.taken
      && TxOccupancy(r.p) == TxOccupancy(q.p) -
           (if e.Isr? && ServesTx(e.i) && TxOccupancy(q.p) > 0 then 1 else 0)
      && (r.pc == InClose(false) || (r.pc == Idle(Closed(true)) && TxOccupancy(r.p) == 0))
  {
    if e.Isr? {
      TxIrqSendsOne(q.p, e.i);
    }
  }

  /** Without flow control a blocking close() drains one byte for each transmit interrupt, returns
      no sooner than the last byte has gone out, and returns at its next test after that. */
  lemma {:induction false} CloseDrains(s: System, es: seq<Event>)
    requires TxInv(s) && s.pc == InClose(false) && !s.p.flowControl
    requires forall e :: e in es ==> e.Foreground? || e.Isr?
    ensures var r := Run(s, es); var n := TxOccupancy(s.p); var t := TxServices(es);
      && !r.p.flowControl && r.taken == s.taken
      && TxOccupancy(r.p) == (if t < n then n - t else 0)
      && (r.pc == InClose(false) || r.pc == Idle(Closed(true)))
      && (r.pc.Idle? ==> t >= n && r.p.txLog == s.taken)
      && (t >= n ==> Next(r, Foreground).pc == Idle(Closed(true)))
  {
    if es != [] {
      var init, e := es[..|es| - 1], es[|es| - 1];
      assert e in es;
      CloseDrains(s, init);
      RunKeepsTx(s, init);
      CloseStepDrains(Run(s, init), e);
    }
    RunKeepsTx(s, es);
    TxRingIsWindow(Run(s, es));
  }
}
