/** The UART driver in the source's own form: an object whose fields the foreground calls and the
    service routine update in place. Its ghost `sys` is the state of the step machine and `trace`
    the events so far, so every theorem about runs of the machine is a theorem about the object. */
module UartDriver {
  import opened Uart
  import opened UartRuns
  import opened UartReceive
  import opened UartQuiet
  import opened UartCalls
  import opened UartMasks

  /** How a turn of the loop of write(), or the wait of close(), ends. */
  datatype Turn = Took | Refused | Waiting

  class Driver {
    var ctrl: Ctrl
    var rxStart: Index
    var rxEnd: Index
    var txStart: Index
    var txEnd: Index
    const flowControl: bool
    const rxBuf: array<Byte>
    const txBuf: array<Byte>

    // The device.
    var control: Ctrl
    var txLog: seq<Byte>
    var rxLog: seq<Byte>

    ghost const boot: System
    ghost var sys: System
    ghost var trace: seq<Event>

    ghost predicate Shape() {
      rxBuf.Length == LEN && txBuf.Length == LEN && rxBuf != txBuf
    }

    ghost function View(): Port
      requires Shape()
      reads this, rxBuf, txBuf
    {
      Port(ctrl, control, rxStart, rxEnd, txStart, txEnd, rxBuf[..], txBuf[..], flowControl, txLog, rxLog)
    }

    ghost predicate Valid()
      reads this, rxBuf, txBuf
    {
      Shape() && View() == sys.p && Boot(boot) && sys == Run(boot, trace)
    }

    constructor (flowControl: bool)
      ensures Valid() && fresh(rxBuf) && fresh(txBuf)
      ensures sys.pc.Idle? && trace == []
    {
      this.flowControl := flowControl;
      var r := new Byte[LEN](_ => 0);
      var t := new Byte[LEN](_ => 0);
      rxBuf, txBuf := r, t;
      rxStart, rxEnd, txStart, txEnd := 0, 0, 0, 0;
      txLog, rxLog := [], [];
      var c := Ctrl(rts := true, rrdy := true, trdy := false, dcts := true);
      ctrl, control := c, c;
      trace := [];
      var p := Port(c, c, 0, 0, 0, 0, seq(LEN, _ => 0), seq(LEN, _ => 0), flowControl, [], []);
      boot := System(p, Idle(Nothing), [], [], []);
      sys := System(p, Idle(Nothing), [], [], []);
      new;
      assert rxBuf[..] == seq(LEN, _ => 0) && txBuf[..] == seq(LEN, _ => 0);
    }

    /** Records that the stores just made were those of event `e`. */
    ghost method Did(e: Event)
      requires Shape() && Boot(boot) && sys == Run(boot, trace)
      requires View() == Next(sys, e).p
      modifies this`sys, this`trace
      ensures Valid() && sys == Next(old(sys), e) && trace == old(trace) + [e]
    {
      RunSnoc(boot, trace, e);
      sys := Next(sys, e);
      trace := trace + [e];
    }

    // ---- Service routine ----

    method RxIrq(status: Status, data: Byte)
      requires Shape()
      modifies this`rxEnd, this`rxLog, this`ctrl, this`control, rxBuf
      ensures View() == Uart.RxIrq(old(View()), status, data)
    {
      if status.pe || status.fe {
        return;
      }
      var next := Succ(rxEnd);
      rxBuf[rxEnd] := data;
      rxLog := rxLog + [data];
      rxEnd := next;
      next := Succ(rxEnd);
      if next == rxStart {
        ctrl := ctrl.(rrdy := false);
        control := ctrl;
      }
    }

    method TxIrq(status: Status, ctsAgain: bool)
      requires Shape()
      modifies this`txStart, this`txLog, this`ctrl, this`control
      ensures View() == Uart.TxIrq(old(View()), status, ctsAgain)
      ensures control == ctrl && (txStart == txEnd ==> !control.trdy && !control.dcts)
    {
      if txStart != txEnd {
        if !flowControl || status.cts {
          txLog := txLog + [txBuf[txStart]];
          txStart := Succ(txStart);
          ctrl := ctrl.(trdy := true);
        } else if !ctsAgain {
          ctrl := ctrl.(trdy := false);
        }
      }
      if txStart == txEnd {
        ctrl := ctrl.(trdy := false, dcts := false);
      }
      control := ctrl;
    }

    method Irq(i: Interrupt)
      requires Valid() && !IrqsOff(sys.pc)
      modifies this, rxBuf
      ensures Valid() && sys == Next(old(sys), Isr(i)) && trace == old(trace) + [Isr(i)]
      ensures txEnd == old(txEnd) && rxStart == old(rxStart)
    {
      if i.status.rrdy {
        RxIrq(i.status, i.rxData);
      }
      if i.status.trdy || i.status.dcts {
        TxIrq(i.status, i.ctsAgain);
      }
      Did(Isr(i));
    }

    /** The interrupts that arrive between two foreground steps. */
    method Interrupts(arriving: seq<Interrupt>)
      requires Valid() && !IrqsOff(sys.pc)
      modifies this, rxBuf
      ensures Valid() && trace == old(trace) + Isrs(arriving)
      ensures sys.pc == old(sys.pc) && sys.taken == old(sys.taken) && sys.returned == old(sys.returned)
      ensures txEnd == old(txEnd) && rxStart == old(rxStart)
    {
      for k := 0 to |arriving|
        invariant Valid() && trace == old(trace) + Isrs(arriving)[..k]
        invariant sys.pc == old(sys.pc) && sys.taken == old(sys.taken) && sys.returned == old(sys.returned)
        invariant txEnd == old(txEnd) && rxStart == old(rxStart)
      {
        Irq(arriving[k]);
      }
    }

    // ---- Foreground ----

    /** The critical section that raises the transmit bits, entered from a wait or from the end
        of write(). */
    method EnableTx()
      requires Valid() && sys.pc.InWrite?
      requires (sys.pc.at.Unmask? || sys.pc.at.Finish?) && SectionOf(sys.pc) == Disable
      modifies this`ctrl, this`control, this`sys, this`trace
      ensures Valid() && old(trace) <= trace
      ensures sys.taken == old(sys.taken) && sys.returned == old(sys.returned)
      ensures old(sys.pc.at.Unmask?) ==> sys.pc == InWrite(Spin(old(sys.pc.at.todo), old(sys.pc.at.next)))
      ensures old(sys.pc.at.Finish?) ==>
        sys.pc == Idle(Wrote(old(sys.pc.at.w.data), old(sys.pc.at.w.noBlock), old(|sys.pc.at.w.data| - sys.pc.at.w.count)))
    {
      RaiseTx();
      TxSectionStep(sys);
      control := ctrl;
      Did(Foreground);
      Did(Foreground);
    }

    /** Its first half: interrupts go off and the shadow is changed. */
    method RaiseTx()
      requires Valid() && sys.pc.InWrite?
      requires (sys.pc.at.Unmask? || sys.pc.at.Finish?) && SectionOf(sys.pc) == Disable
      modifies this`ctrl, this`sys, this`trace
      ensures Valid() && old(trace) <= trace
      ensures sys.taken == old(sys.taken) && sys.returned == old(sys.returned)
      ensures sys.pc == AtSection(old(sys.pc), StoreControl)
    {
      TxSectionStep(sys);
      Did(Foreground);
      TxSectionStep(sys);
      ctrl := UartRuns.UnmaskTx(ctrl);
      Did(Foreground);
    }

    /** One slot of the interrupt schedule. */
    method Gap(arriving: seq<seq<Interrupt>>, k: nat) returns (next: nat)
      requires Valid() && !IrqsOff(sys.pc)
      modifies this, rxBuf
      ensures next == k + 1
      ensures Valid() && old(trace) <= trace
      ensures sys.pc == old(sys.pc) && sys.taken == old(sys.taken) && sys.returned == old(sys.returned)
      ensures txEnd == old(txEnd) && rxStart == old(rxStart)
      ensures |trace| == old(|trace|) + if k < |arriving| then |arriving[k]| else 0
      ensures k >= |arriving| ==> txLog == old(txLog) && rxEnd == old(rxEnd) && control == old(control)
    {
      if k < |arriving| {
        Interrupts(arriving[k]);
      }
      next := k + 1;
    }

    /** The blocking wait of write() for a free slot, its transmit interrupt raised first. */
    method WaitForSpace(ghost todo: Pending, next: Index, arriving: seq<seq<Interrupt>>, from: nat)
      returns (k: nat, room: bool)
      requires Valid() && sys.pc == InWrite(Unmask(todo, next, Disable)) && next == Succ(txEnd)
      modifies this, rxBuf
      ensures Valid() && old(trace) <= trace
      ensures sys.taken == old(sys.taken) && txEnd == old(txEnd) && (arriving == [] ==> txLog == old(txLog))
      ensures room ==> sys.pc == InWrite(Store(todo, next))
      ensures !room ==> sys.pc == InWrite(Spin(todo, next)) && next == txStart && k >= |arriving|
    {
      k := Gap(arriving, from);
      EnableTx();
      k := Gap(arriving, k);
      while next == txStart
        invariant Valid() && old(trace) <= trace
        invariant sys.pc == InWrite(Spin(todo, next))
        invariant sys.taken == old(sys.taken) && txEnd == old(txEnd) && (arriving == [] ==> txLog == old(txLog))
        decreases |arriving| - k
      {
        if k >= |arriving| {
          return k, false;
        }
        Did(Foreground);
        k := Gap(arriving, k);
      }
      Did(Foreground);
      room := true;
    }

    /** The two stores of write() that put a byte in the ring. */
    method PutByte(ghost todo: Pending, b: Byte, next: Index, arriving: seq<seq<Interrupt>>, from: nat) returns (k: nat)
      requires Valid() && sys.pc == InWrite(Store(todo, next)) && b == todo.data[|todo.data| - todo.count]
      modifies this, rxBuf, txBuf
      ensures Valid() && old(trace) <= trace
      ensures sys.pc == InWrite(Test(todo.(count := todo.count - 1)))
      ensures sys.taken == old(sys.taken) + [b] && (arriving == [] ==> txLog == old(txLog))
    {
      txBuf[txEnd] := b;
      Did(Foreground);
      k := Gap(arriving, from);
      txEnd := next;
      Did(Foreground);
    }

    /** The test of write() for a free slot. */
    method TestRoom(ghost w: Pending, arriving: seq<seq<Interrupt>>, from: nat)
      returns (k: nat, next: Index, full: bool)
      requires Valid() && sys.pc == InWrite(Test(w))
      modifies this, rxBuf
      ensures Valid() && old(trace) <= trace
      ensures sys.taken == old(sys.taken) && next == Succ(txEnd) && (arriving == [] ==> txLog == old(txLog))
      ensures full <==> Succ(txEnd) == txStart
      ensures sys.pc == InWrite(if !full then Store(w, next) else if w.noBlock then Finish(w, Disable) else Unmask(w, next, Disable))
    {
      k := Gap(arriving, from);
      next := Succ(txEnd);
      Did(Foreground);
      k := Gap(arriving, k);
      full := next == txStart;
      Did(Foreground);
    }

    /** One turn of the loop of write(). */
    method WriteTurn(ghost w: Pending, noBlock: bool, arriving: seq<seq<Interrupt>>, from: nat, b: Byte)
      returns (k: nat, outcome: Turn)
      requires Valid() && sys.pc == InWrite(Test(w)) && w.noBlock == noBlock && b == w.data[|w.data| - w.count]
      modifies this, rxBuf, txBuf
      ensures Valid() && old(trace) <= trace
      ensures outcome == Took ==>
        sys.pc == InWrite(Test(w.(count := w.count - 1))) && sys.taken == old(sys.taken) + [b]
      ensures outcome == Refused ==>
        sys.pc == InWrite(Finish(w, Disable)) && sys.taken == old(sys.taken) && w.noBlock && Succ(txEnd) == txStart
      ensures arriving == [] ==> txLog == old(txLog)
      ensures outcome == Waiting ==>
        && sys.pc == InWrite(Spin(w, Succ(txEnd))) && sys.taken == old(sys.taken)
        && !noBlock && Succ(txEnd) == txStart && k >= |arriving|
    {
      var next, full;
      k, next, full := TestRoom(w, arriving, from);
      if full {
        if noBlock {
          return k, Refused;
        }
        var room;
        k, room := WaitForSpace(w, next, arriving, k);
        if !room {
          return k, Waiting;
        }
      }
      k := Gap(arriving, k);
      k := PutByte(w, b, next, arriving, k);
      outcome := Took;
    }

    /** Between calls, TXDATA and the ring together hold all that write() has taken. */
    lemma TxHistory()
      requires Valid() && sys.pc.Idle?
      ensures txLog + Ring(txBuf[..], txStart, txEnd) == sys.taken
    {
      TransmitRefinement(boot, trace);
      assert View().txLog == txLog && View().txBuf == txBuf[..];
    }

    /** How many bytes wait in the transmit ring. */
    lemma Waits()
      requires Valid()
      ensures Occupancy(txStart, txEnd) == Published(sys) - |txLog|
      ensures Succ(txEnd) == txStart <==> Occupancy(txStart, txEnd) == LEN - 1
    {
      TransmitRefinement(boot, trace);
      assert View().txLog == txLog;
    }

    /** write(). `arriving[k]` are the interrupts that come before the k-th foreground step that
        can be interrupted; a call still waiting on a full ring when the list ends is left
        waiting, and then `done` is false. Fewer bytes than given are taken only by a call that found the ring
        full; without interrupts, as many as there is room for. */
    method Write(data: seq<Byte>, noBlock: bool, arriving: seq<seq<Interrupt>>) returns (n: nat, done: bool)
      requires Valid() && sys.pc.Idle?
      modifies this, rxBuf, txBuf
      ensures Valid() && old(trace) <= trace
      ensures n <= |data| && sys.taken == old(sys.taken) + data[..n]
      ensures done ==> sys.pc == Idle(Wrote(data, noBlock, n)) && (noBlock || n == |data|)
      ensures done ==> txLog + Ring(txBuf[..], txStart, txEnd) == sys.taken
      ensures done && n < |data| ==> FoundFull(boot, trace, data, |data| - n)
      ensures !done ==> !noBlock && sys.pc.InWrite? && sys.pc.at.Spin? && Succ(txEnd) == txStart
      ensures arriving == [] ==> n == Min(|data|, LEN - 1 - old(Occupancy(txStart, txEnd)))
    {
      Waits();
      BeginWrite(data, noBlock);
      var count, k, outcome := WriteLoop(data, noBlock, arriving);
      Waits();
      n, done := |data| - count, outcome != Waiting;
      if done {
        LeaveWrite(WriteArgs(data, count, noBlock), outcome == Took, arriving, k);
        ShortWriteFoundFull(boot, trace);
      }
    }

    /** From the end of the loop of write() to its return. */
    method LeaveWrite(ghost w: WriteCall, took: bool, arriving: seq<seq<Interrupt>>, from: nat)
      requires Valid() && sys.pc == InWrite(if took then Test(w) else Finish(w, Disable)) && (took ==> w.count == 0)
      modifies this, rxBuf
      ensures Valid() && old(trace) <= trace && sys.taken == old(sys.taken) && (arriving == [] ==> txLog == old(txLog))
      ensures sys.pc == Idle(Wrote(w.data, w.noBlock, |w.data| - w.count))
      ensures txLog + Ring(txBuf[..], txStart, txEnd) == sys.taken
    {
      var k := from;
      if took {
        k := EndLoop(w, arriving, k);
      }
      FinishWrite(w, arriving, k);
      TxHistory();
    }

    /** The call of write(). */
    ghost method BeginWrite(data: seq<Byte>, noBlock: bool)
      requires Valid() && sys.pc.Idle?
      modifies this`sys, this`trace
      ensures Valid() && old(trace) <= trace && sys.taken == old(sys.taken)
      ensures sys.pc == InWrite(Test(WriteArgs(data, |data|, noBlock)))
    {
      Did(Event.Write(data, noBlock));
    }

    /** The test that ends the loop of write(): nothing is left. */
    method EndLoop(ghost w: WriteCall, arriving: seq<seq<Interrupt>>, from: nat) returns (k: nat)
      requires Valid() && w.count == 0 && sys.pc == InWrite(Test(w))
      modifies this, rxBuf
      ensures Valid() && old(trace) <= trace && sys.taken == old(sys.taken) && (arriving == [] ==> txLog == old(txLog))
      ensures sys.pc == InWrite(Finish(w, Disable))
    {
      k := Gap(arriving, from);
      Did(Foreground);
    }

    /** The end of write(): its transmit interrupts are raised. */
    method FinishWrite(ghost w: WriteCall, arriving: seq<seq<Interrupt>>, from: nat)
      requires Valid() && sys.pc == InWrite(Finish(w, Disable))
      modifies this, rxBuf
      ensures Valid() && old(trace) <= trace && sys.taken == old(sys.taken) && (arriving == [] ==> txLog == old(txLog))
      ensures sys.pc == Idle(Wrote(w.data, w.noBlock, |w.data| - w.count))
    {
      var _ := Gap(arriving, from);
      EnableTx();
    }

    /** The loop of write(). */
    method WriteLoop(data: seq<Byte>, noBlock: bool, arriving: seq<seq<Interrupt>>)
      returns (count: nat, k: nat, outcome: Turn)
      requires Valid() && sys.pc == InWrite(Test(WriteArgs(data, |data|, noBlock)))
      modifies this, rxBuf, txBuf
      ensures Valid() && old(trace) <= trace && count <= |data|
      ensures outcome == Took ==> count == 0 && sys.pc == InWrite(Test(WriteArgs(data, 0, noBlock)))
      ensures outcome == Refused ==> noBlock && sys.pc == InWrite(Finish(WriteArgs(data, count, noBlock), Disable))
      ensures outcome == Waiting ==> !noBlock && sys.pc.InWrite? && sys.pc.at.Spin? && k >= |arriving|
      ensures outcome != Took ==> Succ(txEnd) == txStart
      ensures sys.taken == old(sys.taken) + data[..|data| - count] && (arriving == [] ==> txLog == old(txLog))
    {
      count, k, outcome := |data|, 0, Took;
      while count != 0 && outcome == Took
        invariant Valid() && old(trace) <= trace && count <= |data|
        invariant outcome == Took ==> sys.pc == InWrite(Test(WriteArgs(data, count, noBlock)))
        invariant outcome == Refused ==> noBlock && sys.pc == InWrite(Finish(WriteArgs(data, count, noBlock), Disable))
        invariant outcome == Waiting ==> !noBlock && sys.pc.InWrite? && sys.pc.at.Spin? && k >= |arriving|
        invariant outcome != Took ==> Succ(txEnd) == txStart
        invariant sys.taken == old(sys.taken) + data[..|data| - count] && (arriving == [] ==> txLog == old(txLog))
        decreases count, outcome == Took
      {
        k, outcome := WriteTurn(WriteArgs(data, count, noBlock), noBlock, arriving, k, data[|data| - count]);
        if outcome == Took {
          count := count - 1;
          assert data[..|data| - count] == data[..|data| - count - 1] + [data[|data| - count - 1]];
        }
      }
    }

    // ---- Reading ----

    method EnableRx()
      requires Valid() && sys.pc.InRead?
      requires (sys.pc.from.Refill? || sys.pc.from.Leave?) && SectionOf(sys.pc) == Disable
      modifies this`ctrl, this`control, this`sys, this`trace
      ensures Valid() && old(trace) <= trace
      ensures sys.taken == old(sys.taken) && sys.returned == old(sys.returned)
      ensures control.rrdy && control == ctrl
      ensures old(sys.pc.from.Refill?) ==> sys.pc == InRead(Outer(old(sys.pc.from.r)))
      ensures old(sys.pc.from.Leave?) ==> sys.pc == Idle(DidRead(old(sys.pc.from.r), old(sys.pc.from.wouldBlock)))
    {
      RaiseRx();
      RxSectionStep(sys);
      control := ctrl;
      Did(Foreground);
      Did(Foreground);
    }

    method RaiseRx()
      requires Valid() && sys.pc.InRead?
      requires (sys.pc.from.Refill? || sys.pc.from.Leave?) && SectionOf(sys.pc) == Disable
      modifies this`ctrl, this`sys, this`trace
      ensures Valid() && old(trace) <= trace
      ensures sys.taken == old(sys.taken) && sys.returned == old(sys.returned) && ctrl.rrdy
      ensures sys.pc == AtReadSection(old(sys.pc), StoreControl)
    {
      RxSectionStep(sys);
      Did(Foreground);
      RxSectionStep(sys);
      ctrl := UartRuns.UnmaskRx(ctrl);
      Did(Foreground);
    }

    /** One byte of the inner loop of read(). */
    method CopyOne(dst: array<Byte>, at: nat, ghost r: ReadCall, arriving: seq<seq<Interrupt>>, from: nat)
      returns (k: nat)
      requires Valid() && dst != rxBuf && dst != txBuf && at < dst.Length
      requires sys.pc == InRead(Copy(r))
      modifies this, rxBuf, dst
      ensures Valid() && old(trace) <= trace && k > from
      ensures |sys.returned| == |old(sys.returned)| + 1 && old(sys.returned) <= sys.returned
      ensures dst[..] == old(dst[..])[at := sys.returned[|old(sys.returned)|]]
      ensures sys.pc == InRead(Loop(r.(count := r.count + 1)))
    {
      dst[at] := rxBuf[rxStart];
      Did(Foreground);
      k := Gap(arriving, from);
      rxStart := Succ(rxStart);
      Did(Foreground);
      k := Gap(arriving, k);
    }

    /** The inner loop of read(): copies until `len` bytes are out or the ring runs empty. */
    method Drain(dst: array<Byte>, len: nat, ghost base: nat, ghost noBlock: bool,
                 arriving: seq<seq<Interrupt>>, at: nat) returns (count: nat, k: nat)
      requires Valid() && dst != rxBuf && dst != txBuf && len <= dst.Length
      requires sys.pc == InRead(Loop(ReadCall(len, base, 0, noBlock)))
      modifies this, rxBuf, dst
      ensures Valid() && old(trace) <= trace
      ensures count <= len && sys.returned == old(sys.returned) + dst[..count]
      ensures len > 0 && old(rxStart != rxEnd) ==> count > 0
      ensures k > at
      ensures sys.pc == InRead(Check(ReadCall(len, base, count, noBlock)))
    {
      count, k := 0, at;
      while count < len && rxStart != rxEnd
        invariant Valid() && old(trace) <= trace && k >= at
        invariant count <= len && sys.returned == old(sys.returned) + dst[..count]
        invariant count == 0 ==> rxStart == old(rxStart) && rxEnd == old(rxEnd)
        invariant sys.pc == InRead(Loop(ReadCall(len, base, count, noBlock)))
        decreases len - count
      {
        k := DrainOne(dst, count, ReadCall(len, base, count, noBlock), arriving, k);
        count := count + 1;
      }
      Did(Foreground);
      k := Gap(arriving, k);
    }

    /** One turn of the inner loop, its test included. */
    method DrainOne(dst: array<Byte>, at: nat, ghost r: ReadCall, arriving: seq<seq<Interrupt>>, from: nat)
      returns (k: nat)
      requires Valid() && dst != rxBuf && dst != txBuf && at < dst.Length && at == r.count < r.len
      requires sys.pc == InRead(Loop(r)) && rxStart != rxEnd
      modifies this, rxBuf, dst
      ensures Valid() && old(trace) <= trace && k > from
      ensures |sys.returned| == |old(sys.returned)| + 1
      ensures sys.returned == old(sys.returned) + [dst[at]] && dst[..at] == old(dst[..at])
      ensures sys.pc == InRead(Loop(r.(count := r.count + 1)))
    {
      Did(Foreground);
      k := Gap(arriving, from);
      k := CopyOne(dst, at, r, arriving, k);
    }

    /** One turn of the outer loop of read(); `again` when it found nothing and must wait. */
    method ReadTurn(dst: array<Byte>, len: nat, ghost base: nat, noBlock: bool,
                    arriving: seq<seq<Interrupt>>, at: nat)
      returns (count: nat, k: nat, again: bool, wouldBlock: bool)
      requires Valid() && dst != rxBuf && dst != txBuf && len <= dst.Length
      requires sys.pc == InRead(Loop(ReadCall(len, base, 0, noBlock)))
      modifies this, rxBuf, dst
      ensures Valid() && old(trace) <= trace && k > at
      ensures count <= len && sys.returned == old(sys.returned) + dst[..count]
      ensures again ==> count == 0 && len > 0 && !wouldBlock && sys.pc == InRead(Loop(ReadCall(len, base, 0, noBlock)))
      ensures !again ==> sys.pc == InRead(Leave(ReadCall(len, base, count, noBlock), wouldBlock, Disable))
      ensures wouldBlock ==> noBlock && count == 0
      ensures !again && !wouldBlock && len > 0 ==> count > 0
      ensures again ==> old(rxStart == rxEnd) && (k > |arriving| ==> MayWait(noBlock))
    {
      count, k := Drain(dst, len, base, noBlock, arriving, at);
      k, again, wouldBlock := EndTurn(ReadCall(len, base, count, noBlock), count, len, noBlock, arriving, k);
    }

    /** A call of read() that finds the ring empty may wait, with RRDY on in the device. */
    ghost predicate MayWait(noBlock: bool)
      reads this
    {
      rxStart == rxEnd ==> !noBlock && control.rrdy
    }

    /** The rest of the turn: the test for nothing at all, and that of the outer loop. */
    method EndTurn(ghost r: ReadCall, count: nat, len: nat, noBlock: bool, arriving: seq<seq<Interrupt>>, at: nat)
      returns (k: nat, again: bool, wouldBlock: bool)
      requires Valid() && sys.pc == InRead(Check(r)) && r.count == count && r.len == len && r.noBlock == noBlock
      modifies this, rxBuf
      ensures Valid() && old(trace) <= trace && k >= at && sys.returned == old(sys.returned)
      ensures again ==> count == 0 && len > 0 && !wouldBlock && sys.pc == InRead(Loop(r))
      ensures again && k > |arriving| ==> MayWait(noBlock)
      ensures !again ==> sys.pc == InRead(Leave(r, wouldBlock, Disable))
      ensures wouldBlock ==> noBlock && count == 0
      ensures !again && !wouldBlock && len > 0 ==> count > 0
    {
      k := at;
      var empty := TestEmpty(r, count);
      if empty {
        if noBlock {
          return k, false, true;
        }
        k := Gap(arriving, k);
        EnableRx();
      }
      k := Gap(arriving, k);
      Did(Foreground);
      again, wouldBlock := count == 0 && len != 0, false;
    }

    /** The test of read() for nothing at all. */
    method TestEmpty(ghost r: ReadCall, count: nat) returns (empty: bool)
      requires Valid() && sys.pc == InRead(Check(r)) && r.count == count
      modifies this`sys, this`trace
      ensures Valid() && old(trace) <= trace && sys.returned == old(sys.returned)
      ensures sys.pc == InRead(if !empty then Outer(r) else if r.noBlock then Leave(r, true, Disable) else Refill(r, Disable))
      ensures empty <==> count == 0 && rxStart == rxEnd
    {
      empty := count == 0 && rxStart == rxEnd;
      Did(Foreground);
    }

    /** read(). A blocking call that has seen no byte when the list of interrupts ends is left waiting at an
        empty ring, with RRDY on in the device, and then `done` is false. Fewer bytes than asked for are
        returned only by a call that found the ring empty. */
    method Read(dst: array<Byte>, len: nat, noBlock: bool, arriving: seq<seq<Interrupt>>)
      returns (count: nat, wouldBlock: bool, done: bool)
      requires Valid() && sys.pc.Idle? && dst != rxBuf && dst != txBuf && len <= dst.Length
      modifies this, rxBuf, dst
      ensures Valid() && old(trace) <= trace
      ensures count <= len && sys.returned == old(sys.returned) + dst[..count]
      ensures done ==> sys.pc == Idle(DidRead(ReadCall(len, |old(sys.returned)|, count, noBlock), wouldBlock))
      ensures done && wouldBlock ==> noBlock && count == 0
      ensures done && !wouldBlock && len > 0 ==> count > 0
      ensures done && NeverOverflows(boot, trace) ==>
        sys.returned + Ring(rxBuf[..], rxStart, rxEnd) == rxLog
      ensures done && count < len ==>
        FoundEmpty(boot, trace, InRead(Loop(ReadCall(len, |old(sys.returned)|, count, noBlock))))
      ensures !done ==> count == 0 && len > 0 && !noBlock && rxStart == rxEnd && control.rrdy
    {
      ghost var base := |sys.returned|;
      Did(Event.Read(len, noBlock));
      var k;
      count, wouldBlock, done, k := ReadLoop(dst, len, base, noBlock, arriving);
      if done {
        FinishRead(ReadCall(len, base, count, noBlock), wouldBlock, arriving, k);
      }
    }

    /** The end of read(): its receive interrupt is raised. */
    method FinishRead(ghost r: ReadCall, ghost wouldBlock: bool, arriving: seq<seq<Interrupt>>, from: nat)
      requires Valid() && sys.pc == InRead(Leave(r, wouldBlock, Disable))
      modifies this, rxBuf
      ensures Valid() && old(trace) <= trace && sys.returned == old(sys.returned)
      ensures sys.pc == Idle(DidRead(r, wouldBlock))
      ensures NeverOverflows(boot, trace) ==> sys.returned + Ring(rxBuf[..], rxStart, rxEnd) == rxLog
      ensures r.count < r.len ==> FoundEmpty(boot, trace, InRead(Loop(r)))
    {
      var _ := Gap(arriving, from);
      EnableRx();
      ShortReadFoundEmpty(boot, trace);
      if NeverOverflows(boot, trace) {
        ReceiveFifo(boot, trace);
      }
    }

    /** The outer loop of read(). */
    method ReadLoop(dst: array<Byte>, len: nat, ghost base: nat, noBlock: bool, arriving: seq<seq<Interrupt>>)
      returns (count: nat, wouldBlock: bool, done: bool, k: nat)
      requires Valid() && dst != rxBuf && dst != txBuf && len <= dst.Length
      requires sys.pc == InRead(Loop(ReadCall(len, base, 0, noBlock)))
      modifies this, rxBuf, dst
      ensures Valid() && old(trace) <= trace
      ensures count <= len && sys.returned == old(sys.returned) + dst[..count]
      ensures done ==> sys.pc == InRead(Leave(ReadCall(len, base, count, noBlock), wouldBlock, Disable))
      ensures wouldBlock ==> noBlock && count == 0
      ensures done && !wouldBlock && len > 0 ==> count > 0
      ensures !done ==> count == 0 && len > 0 && !noBlock && rxStart == rxEnd && control.rrdy && k > |arriving|
    {
      var again;
      k, again := 0, true;
      count, wouldBlock := 0, false;
      while again
        invariant Valid() && old(trace) <= trace
        invariant count <= len && sys.returned == old(sys.returned) + dst[..count]
        invariant again ==> count == 0 && !wouldBlock && sys.pc == InRead(Loop(ReadCall(len, base, 0, noBlock)))
        invariant again && k > 0 ==> len > 0
        invariant again && k > |arriving| ==> MayWait(noBlock)
        invariant !again ==> sys.pc == InRead(Leave(ReadCall(len, base, count, noBlock), wouldBlock, Disable))
        invariant wouldBlock ==> noBlock && count == 0
        invariant !again && !wouldBlock && len > 0 ==> count > 0
        decreases if k <= |arriving| then |arriving| + 1 - k else 0, again
      {
        if k > |arriving| && rxStart == rxEnd {
          return 0, false, false, k;
        }
        k := Gap(arriving, k);
        count, k, again, wouldBlock := ReadTurn(dst, len, base, noBlock, arriving, k);
      }
      done := true;
    }

    /** After a quiet run, between calls: what read() has returned and the ring together are all that was
        taken from RXDATA, and RRDY is enabled in the device exactly when the ring is not full. */
    lemma RxHistory()
      requires Valid() && sys.pc.Idle? && QuietRun(boot, trace)
      ensures sys.returned + Ring(rxBuf[..], rxStart, rxEnd) == rxLog
      ensures control == ctrl && (control.rrdy <==> Occupancy(rxStart, rxEnd) != LEN - 1)
    {
      QuietGivesFifo(boot, trace);
      RunKeepsMasks(boot, trace);
      assert View().rxLog == rxLog && View().rxBuf == rxBuf[..];
      assert sys.returned[..|sys.returned|] == sys.returned;
    }

    /** Between calls an empty transmit ring has its interrupts on in the device only if none has been served
        since they were raised. */
    lemma IdleIsQuiet()
      requires Valid() && sys.pc.Idle? && txStart == txEnd
      ensures control.rts
      ensures control.dcts <==> CauseOf(boot, trace) != Served
      ensures control.trdy <==> CauseOf(boot, trace) == Raised
    {
      IdleTransmitterIsQuiet(boot, trace);
    }

    // ---- Closing ----

    /** close(): waits for the transmit ring to drain, unless it must not block. */
    method Close(noBlock: bool, arriving: seq<seq<Interrupt>>) returns (ok: bool, done: bool)
      requires Valid() && sys.pc.Idle?
      modifies this, rxBuf
      ensures Valid() && old(trace) <= trace && sys.taken == old(sys.taken)
      ensures done ==> sys.pc == Idle(Closed(ok)) && (ok <==> txStart == txEnd) && (!noBlock ==> ok)
      ensures done && ok ==> txLog == sys.taken
      ensures !done ==> !noBlock && sys.pc == InClose(false) && txStart != txEnd
    {
      Did(Event.Close(noBlock));
      var outcome := WaitDrained(noBlock, arriving);
      if outcome == Took {
        Did(Foreground);
        TxHistory();
      }
      ok, done := outcome == Took, outcome != Waiting;
    }

    /** The loop of close(). */
    method WaitDrained(noBlock: bool, arriving: seq<seq<Interrupt>>) returns (outcome: Turn)
      requires Valid() && sys.pc == InClose(noBlock)
      modifies this, rxBuf
      ensures Valid() && old(trace) <= trace && sys.taken == old(sys.taken)
      ensures outcome == Took ==> sys.pc == InClose(noBlock) && txStart == txEnd
      ensures outcome == Refused ==> sys.pc == Idle(Closed(false)) && noBlock && txStart != txEnd
      ensures outcome == Waiting ==> sys.pc == InClose(false) && !noBlock && txStart != txEnd
    {
      var k := 0;
      while txStart != txEnd
        invariant Valid() && old(trace) <= trace && sys.taken == old(sys.taken)
        invariant sys.pc == InClose(noBlock)
        decreases |arriving| - k
      {
        Did(Foreground);
        if noBlock {
          return Refused;
        }
        if k >= |arriving| {
          return Waiting;
        }
        k := Gap(arriving, k);
      }
      return Took;
    }
  }
}
