/** What the calls of the UART driver answer: a write() gives up only on a full ring and a read() stops only at
    an empty one, under every interleaving; and how much they move when no interrupt comes. */
module UartCalls {
  import opened Uart
  import opened UartRuns
  import opened UartReceive

  // ---- The full test of write() ----

  /** With room a write() goes on to its store; it gives up, or waits with its interrupts raised, only with 63
      bytes waiting. */
  lemma FullTestDecides(s: System, w: Pending, next: Index)
    requires TxInv(s) && s.pc == InWrite(Full(w, next))
    ensures TxOccupancy(s.p) == |s.taken| - |s.p.txLog|
    ensures Next(s, Foreground) ==
      s.(pc := InWrite(if TxOccupancy(s.p) < LEN - 1 then Store(w, next)
                       else if w.noBlock then Finish(w, Disable)
                       else Unmask(w, next, Disable)))
  {
    FullTestIsExact(s, next);
    TxRingIsWindow(s);
  }

  /** At some moment of the latest call the ring held 63 bytes, and the write() of `data`, with `count` bytes
      left, tested for room. */
  ghost predicate FoundFull(boot: System, es: seq<Event>, data: seq<Byte>, count: nat) {
    exists k :: 0 <= k < |es| && FullAt(boot, es[..k], data, count) && SameCall(boot, es, k)
  }

  /** No call was made from event `k` on. */
  predicate SameCall(boot: System, es: seq<Event>, k: nat) {
    forall j :: k <= j < |es| ==> !StartsCall(Run(boot, es[..j]), es[j])
  }

  predicate StartsCall(s: System, e: Event) {
    Enabled(s, e) && !e.Foreground? && !e.Isr?
  }

  predicate FullAt(boot: System, es: seq<Event>, data: seq<Byte>, count: nat) {
    var t := Run(boot, es);
    && t.pc.InWrite? && t.pc.at.Full?
    && t.pc.at.todo.data == data && t.pc.at.todo.count == count && t.pc.at.todo.noBlock
    && TxOccupancy(t.p) == LEN - 1
  }

  /** A write() on its way out with bytes left found the ring full. */
  ghost predicate GaveUpFull(boot: System, es: seq<Event>) {
    match Run(boot, es).pc
    case InWrite(Finish(w, _)) => w.count > 0 ==> w.noBlock && FoundFull(boot, es, w.data, w.count)
    case Idle(Wrote(data, noBlock, n)) => n < |data| ==> noBlock && FoundFull(boot, es, data, |data| - n)
    case _ => true
  }

  lemma FoundFullStays(boot: System, es: seq<Event>, data: seq<Byte>, count: nat)
    requires es != [] && FoundFull(boot, es[..|es| - 1], data, count)
    requires !StartsCall(Run(boot, es[..|es| - 1]), es[|es| - 1])
    ensures FoundFull(boot, es, data, count)
  {
    var before := es[..|es| - 1];
    var k :| 0 <= k < |before| && FullAt(boot, before[..k], data, count) && SameCall(boot, before, k);
    assert before[..k] == es[..k];
    SameCallStays(boot, es, k);
  }

  lemma SameCallStays(boot: System, es: seq<Event>, k: nat)
    requires es != [] && k < |es| && SameCall(boot, es[..|es| - 1], k)
    requires !StartsCall(Run(boot, es[..|es| - 1]), es[|es| - 1])
    ensures SameCall(boot, es, k)
  {
    var before := es[..|es| - 1];
    forall j | k <= j < |es| ensures !StartsCall(Run(boot, es[..j]), es[j]) {
      if j < |before| {
        assert before[..j] == es[..j] && before[j] == es[j];
      }
    }
  }

  lemma GaveUpStep(boot: System, es: seq<Event>)
    requires es != [] && TxInv(Run(boot, es[..|es| - 1])) && GaveUpFull(boot, es[..|es| - 1])
    ensures GaveUpFull(boot, es)
  {
    var before, e := es[..|es| - 1], es[|es| - 1];
    var t := Run(boot, before);
    assert Run(boot, es) == Next(t, e);
    if StartsCall(t, e) {
    } else if t.pc.InWrite? && t.pc.at.Finish? && t.pc.at.w.count > 0 {
      FoundFullStays(boot, es, t.pc.at.w.data, t.pc.at.w.count);
    } else if t.pc.Idle? && t.pc.result.Wrote? && t.pc.result.n < |t.pc.result.data| {
      FoundFullStays(boot, es, t.pc.result.data, |t.pc.result.data| - t.pc.result.n);
    } else if t.pc.InWrite? && t.pc.at.Full? && e.Foreground? {
      FullTestDecides(t, t.pc.at.todo, t.pc.at.next);
      if TxOccupancy(t.p) == LEN - 1 && t.pc.at.todo.noBlock {
        assert FullAt(boot, es[..|es| - 1], t.pc.at.todo.data, t.pc.at.todo.count);
        assert SameCall(boot, es, |es| - 1);
      }
    }
  }

  lemma {:induction false} RunGivesUpFull(boot: System, es: seq<Event>)
    requires Boot(boot)
    ensures GaveUpFull(boot, es)
    decreases |es|
  {
    if es != [] {
      RunGivesUpFull(boot, es[..|es| - 1]);
      assert TxInv(boot);
      RunKeepsTx(boot, es[..|es| - 1]);
      GaveUpStep(boot, es);
    }
  }

  /** Under every interleaving: a write() that took fewer bytes than it was given must not block, and there was
      a moment since its call at which it tested for room, with just these bytes left, and the ring held 63. */
  lemma ShortWriteFoundFull(boot: System, es: seq<Event>)
    requires Boot(boot) && Run(boot, es).pc.Idle? && Run(boot, es).pc.result.Wrote?
    ensures var r := Run(boot, es).pc.result;
      r.n <= |r.data| && (r.n < |r.data| ==> r.noBlock && FoundFull(boot, es, r.data, |r.data| - r.n))
  {
    RunGivesUpFull(boot, es);
    assert TxInv(boot);
    RunKeepsTx(boot, es);
  }

  // ---- A write() without interrupts ----

  function Steps(m: nat): seq<Event> {
    seq(m, _ => Foreground)
  }

  lemma RunSteps(s: System, call: Event, m: nat)
    ensures Run(s, [call] + Steps(m)) == if m == 0 then Next(s, call) else Next(Run(s, [call] + Steps(m - 1)), Foreground)
  {
    if m == 0 {
      RunSnoc(s, [], call);
      assert [call] + Steps(0) == [] + [call];
    } else {
      assert [call] + Steps(m) == ([call] + Steps(m - 1)) + [Foreground];
      RunSnoc(s, [call] + Steps(m - 1), Foreground);
    }
  }

  function ArgsOf(at: WritePc): WriteArgs {
    match at
    case Test(w) => w
    case Full(w, _) => w
    case Unmask(w, _, _) => w
    case Spin(w, _) => w
    case Store(w, _) => w
    case Publish(w, _) => w
    case Finish(w, _) => w
  }

  /** A write() of `data` that has taken `j` bytes, nothing having been sent since its call. */
  predicate Alone(was: System, t: System, data: seq<Byte>, noBlock: bool, j: nat) {
    && j <= |data| && t.p.txLog == was.p.txLog && t.taken == was.taken + data[..j]
    && match t.pc
       case InWrite(at) =>
         ArgsOf(at) == WriteArgs(data, |data| - j, noBlock)
         && (at.Finish? && j < |data| ==> TxOccupancy(t.p) == LEN - 1)
       case Idle(r) => r == Wrote(data, noBlock, j) && (j < |data| ==> TxOccupancy(t.p) == LEN - 1)
       case _ => false
  }

  lemma AloneStep(was: System, t: System, data: seq<Byte>, noBlock: bool, j: nat) returns (j': nat)
    requires TxInv(t) && Alone(was, t, data, noBlock, j)
    ensures Alone(was, Next(t, Foreground), data, noBlock, j')
  {
    j' := j;
    if t.pc.InWrite? && t.pc.at.Store? {
      j' := j + 1;
      assert data[..j'] == data[..j] + [data[j]];
    } else if t.pc.InWrite? && t.pc.at.Full? {
      FullTestDecides(t, t.pc.at.todo, t.pc.at.next);
    }
  }

  lemma {:induction false} StaysAlone(s: System, data: seq<Byte>, noBlock: bool, m: nat) returns (j: nat)
    requires TxInv(s) && s.pc.Idle?
    ensures Alone(s, Run(s, [Event.Write(data, noBlock)] + Steps(m)), data, noBlock, j)
    decreases m
  {
    var call := Event.Write(data, noBlock);
    RunSteps(s, call, m);
    if m == 0 {
      j := 0;
      assert s.taken + data[..0] == s.taken;
    } else {
      var i := StaysAlone(s, data, noBlock, m - 1);
      RunKeepsTx(s, [call] + Steps(m - 1));
      j := AloneStep(s, Run(s, [call] + Steps(m - 1)), data, noBlock, i);
    }
  }

  function Min(a: int, b: int): int {
    if a <= b then a else b
  }

  /** Without interrupts a write() that returns took as many bytes as there was room for, and no fewer; so one
      that may block returns only if there was room for all. */
  lemma WriteAloneTakes(s: System, data: seq<Byte>, noBlock: bool, m: nat)
    requires TxInv(s) && s.pc.Idle?
    requires Run(s, [Event.Write(data, noBlock)] + Steps(m)).pc.Idle?
    ensures var t := Run(s, [Event.Write(data, noBlock)] + Steps(m));
      t.pc == Idle(Wrote(data, noBlock, Min(|data|, LEN - 1 - TxOccupancy(s.p))))
  {
    var j := StaysAlone(s, data, noBlock, m);
    RunKeepsTx(s, [Event.Write(data, noBlock)] + Steps(m));
    AloneTakes(s, Run(s, [Event.Write(data, noBlock)] + Steps(m)), data, noBlock, j);
  }

  lemma AloneTakes(s: System, t: System, data: seq<Byte>, noBlock: bool, j: nat)
    requires TxInv(s) && s.pc.Idle? && TxInv(t) && t.pc.Idle? && Alone(s, t, data, noBlock, j)
    ensures t.pc == Idle(Wrote(data, noBlock, Min(|data|, LEN - 1 - TxOccupancy(s.p))))
  {
    TxRingIsWindow(s);
    TxRingIsWindow(t);
  }

  // ---- When read() stops ----

  /** At some moment of the latest call the ring was empty and read() at `pc`. */
  ghost predicate FoundEmpty(boot: System, es: seq<Event>, pc: Pc) {
    exists k :: 0 <= k < |es| && EmptyAt(boot, es[..k], pc) && SameCall(boot, es, k)
  }

  predicate EmptyAt(boot: System, es: seq<Event>, pc: Pc) {
    var t := Run(boot, es);
    t.pc == pc && t.p.rxStart == t.p.rxEnd
  }

  /** What has been found by the call that is at, or has ended at, `r`. */
  ghost predicate Stopped(boot: System, es: seq<Event>, r: ReadCall, wouldBlock: bool) {
    && (r.count < r.len ==> FoundEmpty(boot, es, InRead(Loop(r))))
    && (wouldBlock ==> r.noBlock && r.count == 0 && FoundEmpty(boot, es, InRead(Check(r))))
  }

  ghost predicate StoppedEmpty(boot: System, es: seq<Event>) {
    match Run(boot, es).pc
    case InRead(Check(r)) => Stopped(boot, es, r, false)
    case InRead(Refill(r, _)) => Stopped(boot, es, r, false)
    case InRead(Outer(r)) => Stopped(boot, es, r, false)
    case InRead(Leave(r, wouldBlock, _)) => Stopped(boot, es, r, wouldBlock)
    case Idle(DidRead(r, wouldBlock)) => Stopped(boot, es, r, wouldBlock)
    case _ => true
  }

  lemma FoundEmptyStays(boot: System, es: seq<Event>, pc: Pc)
    requires es != [] && !StartsCall(Run(boot, es[..|es| - 1]), es[|es| - 1])
    ensures FoundEmpty(boot, es[..|es| - 1], pc) ==> FoundEmpty(boot, es, pc)
    ensures EmptyAt(boot, es[..|es| - 1], pc) ==> FoundEmpty(boot, es, pc)
  {
    var before := es[..|es| - 1];
    if FoundEmpty(boot, before, pc) {
      var k :| 0 <= k < |before| && EmptyAt(boot, before[..k], pc) && SameCall(boot, before, k);
      assert before[..k] == es[..k];
      SameCallStays(boot, es, k);
    }
    if EmptyAt(boot, before, pc) {
      assert SameCall(boot, es, |before|);
    }
  }

  /** The call that a program point of read() belongs to. */
  function CallOf(at: ReadPc): ReadCall {
    match at
    case Loop(r) => r
    case Copy(r) => r
    case Advance(r) => r
    case Check(r) => r
    case Refill(r, _) => r
    case Outer(r) => r
    case Leave(r, _, _) => r
  }

  lemma StoppedStep(boot: System, es: seq<Event>)
    requires es != [] && StoppedEmpty(boot, es[..|es| - 1])
    requires RxInv(Run(boot, es[..|es| - 1]))
    ensures StoppedEmpty(boot, es)
  {
    var t, e := Run(boot, es[..|es| - 1]), es[|es| - 1];
    assert Run(boot, es) == Next(t, e);
    if StartsCall(t, e) {
    } else if t.pc.InRead? {
      FoundEmptyStays(boot, es, InRead(Loop(CallOf(t.pc.from))));
      FoundEmptyStays(boot, es, InRead(Check(CallOf(t.pc.from))));
    } else if t.pc.Idle? && t.pc.result.DidRead? {
      FoundEmptyStays(boot, es, InRead(Loop(t.pc.result.call)));
      FoundEmptyStays(boot, es, InRead(Check(t.pc.result.call)));
    }
  }

  lemma {:induction false} RunStopsEmpty(boot: System, es: seq<Event>)
    requires Boot(boot)
    ensures StoppedEmpty(boot, es)
    decreases |es|
  {
    if es != [] {
      RunStopsEmpty(boot, es[..|es| - 1]);
      assert RxInv(boot);
      RunKeepsRx(boot, es[..|es| - 1]);
      StoppedStep(boot, es);
    }
  }

  /** Under every interleaving: a read() that returned fewer bytes than were asked for found the ring empty since
      its call, after just these; and one that says it would block must not block, has returned none, and
      found it empty once more. */
  lemma ShortReadFoundEmpty(boot: System, es: seq<Event>)
    requires Boot(boot) && Run(boot, es).pc.Idle? && Run(boot, es).pc.result.DidRead?
    ensures var d := Run(boot, es).pc.result; var r := d.call;
      && r.count <= r.len && (r.count < r.len ==> FoundEmpty(boot, es, InRead(Loop(r))))
      && (d.wouldBlock ==> r.noBlock && r.count == 0 && FoundEmpty(boot, es, InRead(Check(r))))
  {
    RunStopsEmpty(boot, es);
    assert RxInv(boot);
    RunKeepsRx(boot, es);
  }

  // ---- A read() without interrupts ----

  /** A read() of up to `len` bytes that has copied `c` of the `held` that were in the ring. */
  predicate ReadsAlone(t: System, len: nat, noBlock: bool, held: nat, c: nat) {
    c <= len && c <= held &&
    match t.pc
    case InRead(at) =>
      var r := CallOf(at);
      && r.len == len && r.count == c && r.noBlock == noBlock
      && RxOccupancy(t.p) == held - c + (if at.Advance? then 1 else 0)
      && (at.Copy? ==> c < len && c < held)
      && (!at.Loop? && !at.Copy? && !at.Advance? ==> c == len || c == held)
      && (at.Refill? || at.Outer? ==> !(noBlock && held == 0))
      && (at.Leave? ==> (at.wouldBlock <==> noBlock && held == 0))
    case Idle(DidRead(r, wouldBlock)) =>
      r.count == c && (c == len || c == held) && (wouldBlock <==> noBlock && held == 0)
    case _ => false
  }

  lemma ReadsAloneStep(t: System, len: nat, noBlock: bool, held: nat, c: nat) returns (c': nat)
    requires ReadsAlone(t, len, noBlock, held, c)
    ensures ReadsAlone(Next(t, Foreground), len, noBlock, held, c')
  {
    c' := c;
    if t.pc.InRead? {
      EmptyOccupancy(t.p.rxStart, t.p.rxEnd);
      if t.pc.from.Copy? {
        c' := c + 1;
      } else if t.pc.from.Advance? {
        OccupancyOfRest(t.p.rxStart, t.p.rxEnd);
      }
    }
  }

  lemma EmptyOccupancy(start: Index, end: Index)
    ensures Occupancy(start, end) == 0 <==> start == end
  {
  }

  lemma {:induction false} StaysReading(s: System, len: nat, noBlock: bool, m: nat) returns (c: nat)
    requires s.pc.Idle?
    ensures ReadsAlone(Run(s, [Event.Read(len, noBlock)] + Steps(m)), len, noBlock, RxOccupancy(s.p), c)
    decreases m
  {
    var call := Event.Read(len, noBlock);
    RunSteps(s, call, m);
    if m == 0 {
      c := 0;
    } else {
      var i := StaysReading(s, len, noBlock, m - 1);
      c := ReadsAloneStep(Run(s, [call] + Steps(m - 1)), len, noBlock, RxOccupancy(s.p), i);
    }
  }

  /** Without interrupts a read() that returns delivered as many of the bytes asked for as the ring held, and says
      that it would block exactly if the ring was empty and it must not. */
  lemma ReadAloneDelivers(s: System, len: nat, noBlock: bool, m: nat)
    requires s.pc.Idle? && Run(s, [Event.Read(len, noBlock)] + Steps(m)).pc.Idle?
    ensures var d := Run(s, [Event.Read(len, noBlock)] + Steps(m)).pc.result;
      && d.DidRead? && d.call.count == Min(len, RxOccupancy(s.p))
      && (d.wouldBlock <==> noBlock && RxOccupancy(s.p) == 0)
  {
    var c := StaysReading(s, len, noBlock, m);
  }

  // ---- close() ----

  /** close() returns at its first test unless it may block and the ring holds something. */
  lemma CloseAnswers(s: System, noBlock: bool)
    requires s.pc == InClose(noBlock)
    ensures Next(s, Foreground).p == s.p
    ensures Next(s, Foreground).pc ==
      if TxOccupancy(s.p) == 0 then Idle(Closed(true)) else if noBlock then Idle(Closed(false)) else InClose(false)
  {
    EmptyOccupancy(s.p.txStart, s.p.txEnd);
  }

  /** Once close() has said yes, everything ever taken is on TXDATA, until the next call. */
  lemma {:induction false} ClosedIsDrained(boot: System, es: seq<Event>)
    requires Boot(boot) && Run(boot, es).pc == Idle(Closed(true))
    ensures Run(boot, es).p.txLog == Run(boot, es).taken
    decreases |es|
  {
    assert TxInv(boot);
    RunKeepsTx(boot, es);
    TxRingIsWindow(Run(boot, es));
    if es != [] {
      var before, e := es[..|es| - 1], es[|es| - 1];
      var t := Run(boot, before);
      assert Run(boot, es) == Next(t, e);
      RunKeepsTx(boot, before);
      if t.pc == Idle(Closed(true)) {
        ClosedIsDrained(boot, before);
      } else if t.pc.InClose? {
        CloseAnswers(t, t.pc.noBlock);
        EmptyOccupancy(t.p.txStart, t.p.txEnd);
        TxRingIsWindow(t);
      }
    }
  }
}
