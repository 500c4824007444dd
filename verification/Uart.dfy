/** The data of one interrupt-driven UART: the driver's shared state, the device registers it
    touches, and what its interrupt service routine does to them. */
module Uart {
  import opened Arithmetic

  const LEN: nat := 64

  type Byte = n: nat | n < 256

  /** An index into a ring; the source keeps it below LEN by masking with LEN - 1. */
  type Index = n: nat | n < LEN

  type Buffer = s: seq<Byte> | |s| == LEN witness seq(LEN, _ => 0)

  /** The bits of the control word that the driver ever names. */
  datatype Ctrl = Ctrl(rts: bool, rrdy: bool, trdy: bool, dcts: bool)

  /** The bits of the status word that the driver ever tests. */
  datatype Status = Status(pe: bool, fe: bool, trdy: bool, rrdy: bool, dcts: bool, cts: bool)

  /** One run of the service routine: the status word it reads first, the byte RXDATA would
      yield, and the CTS bit that a second read of the status register would show. */
  datatype Interrupt = Interrupt(status: Status, rxData: Byte, ctsAgain: bool)

  /** Driver state and device. `control` is the device register of which `ctrl` is the shadow;
      `txLog` lists the bytes stored to TXDATA and `rxLog` those taken from RXDATA. */
  datatype Port = Port(
    ctrl: Ctrl, control: Ctrl,
    rxStart: Index, rxEnd: Index, txStart: Index, txEnd: Index,
    rxBuf: Buffer, txBuf: Buffer,
    flowControl: bool,
    txLog: seq<Byte>, rxLog: seq<Byte>)

  function Succ(i: Index): Index {
    (i + 1) % LEN
  }

  /** How many bytes lie between two indices, going forward. */
  function Occupancy(start: Index, end: Index): Index {
    (end + LEN - start) % LEN
  }

  /** The bytes of a ring, oldest first. */
  function Ring(buf: Buffer, start: Index, end: Index): seq<Byte>
    decreases Occupancy(start, end)
  {
    if start == end then [] else [buf[start]] + Ring(buf, Succ(start), end)
  }

  function RxOccupancy(p: Port): Index {
    Occupancy(p.rxStart, p.rxEnd)
  }

  function TxOccupancy(p: Port): Index {
    Occupancy(p.txStart, p.txEnd)
  }

  function Init(p: Port): Port {
    var c := Ctrl(rts := true, rrdy := true, trdy := false, dcts := true);
    p.(ctrl := c, control := c)
  }

  function RxIrq(p: Port, status: Status, data: Byte): Port {
    if status.pe || status.fe then p
    else
      var q := p.(rxBuf := p.rxBuf[p.rxEnd := data], rxEnd := Succ(p.rxEnd), rxLog := p.rxLog + [data]);
      if Succ(q.rxEnd) == q.rxStart then
        var c := q.ctrl.(rrdy := false);
        q.(ctrl := c, control := c)
      else q
  }

  function TxIrq(p: Port, status: Status, ctsAgain: bool): Port {
    var q :=
      if p.txStart == p.txEnd then p
      else if !p.flowControl || status.cts then
        p.(txLog := p.txLog + [p.txBuf[p.txStart]], txStart := Succ(p.txStart), ctrl := p.ctrl.(trdy := true))
      else if !ctsAgain then p.(ctrl := p.ctrl.(trdy := false))
      else p;
    var r := if q.txStart == q.txEnd then q.(ctrl := q.ctrl.(trdy := false, dcts := false)) else q;
    r.(control := r.ctrl)
  }

  function Irq(p: Port, i: Interrupt): Port {
    var q := if i.status.rrdy then RxIrq(p, i.status, i.rxData) else p;
    if i.status.trdy || i.status.dcts then TxIrq(q, i.status, i.ctsAgain) else q
  }

  /** Whether this interrupt moves a byte from RXDATA into the receive ring. */
  predicate TakesByte(i: Interrupt) {
    i.status.rrdy && !i.status.pe && !i.status.fe
  }

  /** Whether this interrupt runs the transmit half of the service routine. */
  predicate ServesTx(i: Interrupt) {
    i.status.trdy || i.status.dcts
  }

  /** Occupancy in terms of unbounded stream positions. */
  lemma OccupancyOfPositions(a: nat, b: nat)
    requires a <= b
    ensures Occupancy(a % LEN, b % LEN) == (b - a) % LEN
  {
    var turns := b / LEN - a / LEN;
    var r := b % LEN - a % LEN;
    assert b - a == turns * LEN + r;
    if r >= 0 {
      QuotientRemainder(b - a, LEN, turns, r);
    } else {
      QuotientRemainder(b - a, LEN, turns - 1, r + LEN);
    }
  }

  lemma SuccOfPosition(k: nat)
    ensures Succ(k % LEN) == (k + 1) % LEN
  {
  }

  /** The full test of the driver, in terms of unbounded stream positions. */
  lemma FullIffOneShort(a: nat, b: nat)
    requires a <= b < a + LEN
    ensures Succ(b % LEN) == a % LEN <==> b - a == LEN - 1
  {
  }

  lemma DifferentSlots(a: nat, b: nat)
    requires a < b < a + LEN
    ensures a % LEN != b % LEN
  {
  }

  lemma OneFewer(a: nat, b: nat)
    requires a < b < a + LEN
    ensures Occupancy((a + 1) % LEN, b % LEN) < Occupancy(a % LEN, b % LEN)
  {
    OccupancyOfPositions(a, b);
    OccupancyOfPositions(a + 1, b);
  }

  lemma RingUnfold(buf: Buffer, start: Index, end: Index)
    requires start != end
    ensures Ring(buf, start, end) == [buf[start]] + Ring(buf, Succ(start), end)
  {
  }

  /** When the slots from position `a` to position `b` of a stream are in place, the ring is that
      stretch of the stream. */
  lemma {:induction false} RingIsSlice(buf: Buffer, stream: seq<Byte>, a: nat, b: nat)
    requires a <= b <= |stream| && b - a < LEN
    requires forall k :: a <= k < b ==> buf[k % LEN] == stream[k]
    ensures Ring(buf, a % LEN, b % LEN) == stream[a..b]
    decreases b - a
  {
    if a < b {
      SuccOfPosition(a);
      DifferentSlots(a, b);
      OneFewer(a, b);
      RingIsSlice(buf, stream, a + 1, b);
      RingUnfold(buf, a % LEN, b % LEN);
      assert stream[a..b] == [stream[a]] + stream[a + 1..b];
    }
  }
}
