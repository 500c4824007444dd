/** The bus manager of the accelerator: a register file behind a ten-state machine. A step is a clock
    edge; a rising edge of reset does what a clock edge with reset high does, so it is a step too. */
module Manager {
  import opened Digits

  /** N = LENGHT_I * LENGHT_MID + LENGHT_MID * LENGHT_O weights, LENGHT_I inputs, LENGHT_O outputs, and
      the widths of a bus word, a weight and an input. */
  datatype Params = Params(n: nat, li: nat, lo: nat, width: nat, widthW: nat, widthI: nat) {
    predicate Valid() {
      n >= 1 && li >= 1 && lo >= 1
    }

    /** MAX_REG_W, MAX_REG_I and MAX_REG_O: one past the weights and their sentinel, the inputs and
        theirs, the outputs and theirs. */
    function MaxRegW(): nat { n + 1 }

    function MaxRegI(): nat { MaxRegW() + li + 1 }

    function MaxRegO(): nat { MaxRegI() + lo + 1 }

    function AllOnes(): nat {
      PowPositive(2, width);
      Pow(2, width) - 1
    }
  }

  datatype State = ResetSt | WaitSt | WriteWSt | WriteISt | ReadOSt | ReadWSt | LoadISt | LoadWSt | WorkSt | CmpltSt

  /** The inputs at a step. `outs` is the packed vector i_in. */
  datatype Inputs = Inputs(reset: bool, read: bool, write: bool, data: nat, address: nat, outs: nat)

  datatype Regs = Regs(state: State, buf: seq<nat>, ready: bool, down: bool, wr: bool, prev: seq<nat>,
                       wOut: seq<nat>, iOut: seq<nat>, outData: nat)

  predicate Sized(p: Params, s: Regs) {
    p.Valid() && |s.buf| == p.MaxRegO() && |s.prev| == p.lo && |s.wOut| == p.n && |s.iOut| == p.li
  }

  function Truncate(x: nat, width: nat): nat {
    PowPositive(2, width);
    x % Pow(2, width)
  }

  function Zeros(n: nat): (z: seq<nat>)
    ensures |z| == n && forall j :: 0 <= j < n ==> z[j] == 0
  {
    seq(n, _ => 0)
  }

  /** Word j of a packed vector. */
  function Word(v: nat, width: nat, j: nat): nat {
    PowPositive(2, width * j);
    Truncate(v / Pow(2, width * j), width)
  }

  function Unpack(v: nat, p: Params): (ws: seq<nat>)
    ensures |ws| == p.lo
  {
    seq(p.lo, j requires j >= 0 => Word(v, p.width, j))
  }

  // ---- One clock ----

  predicate RangeW(p: Params, a: nat) {
    a <= p.n
  }

  predicate RangeI(p: Params, a: nat) {
    p.n < a <= p.n + 1 + p.li + 1
  }

  predicate WriteRequest(s: Regs, i: Inputs) {
    i.write && !i.read && s.ready && !s.down
  }

  predicate ReadRequest(s: Regs, i: Inputs) {
    !i.write && i.read && !s.ready && s.down
  }

  /** buf_reg[MAX_REG_O-2:MAX_REG_I]. */
  function Outs(p: Params, buf: seq<nat>): (o: seq<nat>)
    requires |buf| == p.MaxRegO()
    ensures |o| == p.lo
  {
    buf[p.MaxRegI()..p.MaxRegO() - 1]
  }

  function WithOuts(p: Params, buf: seq<nat>, v: nat): (b: seq<nat>)
    requires |buf| == p.MaxRegO()
    ensures |b| == |buf| && Outs(p, b) == Unpack(v, p)
    ensures forall a :: 0 <= a < p.MaxRegI() || a == p.MaxRegO() - 1 ==> b[a] == buf[a]
  {
    buf[..p.MaxRegI()] + Unpack(v, p) + buf[p.MaxRegO() - 1..]
  }

  predicate NonEqual(p: Params, s: Regs)
    requires Sized(p, s)
  {
    Outs(p, s.buf) != s.prev
  }

  function NextState(p: Params, s: Regs, i: Inputs): State
    requires Sized(p, s)
  {
    match s.state
    case ResetSt => if i.reset then ResetSt else WaitSt
    case WaitSt =>
      if WriteRequest(s, i) && RangeW(p, i.address) then WriteWSt
      else if WriteRequest(s, i) && RangeI(p, i.address) then WriteISt
      else WaitSt
    case WriteWSt => if s.buf[p.MaxRegW() - 1] == p.AllOnes() then LoadWSt else WriteWSt
    case WriteISt => if s.buf[p.MaxRegI() - 1] == p.AllOnes() then LoadISt else WriteISt
    case ReadOSt => if s.buf[p.MaxRegO() - 1] == p.AllOnes() then WaitSt else ReadOSt
    case ReadWSt => if i.reset then WriteWSt else ReadWSt
    case LoadWSt => WaitSt
    case LoadISt => WorkSt
    case WorkSt => if NonEqual(p, s) then CmpltSt else WorkSt
    case CmpltSt => if ReadRequest(s, i) then ReadOSt else CmpltSt
  }

  /** The writes that reach the register file. */
  predicate Accepts(p: Params, s: Regs, i: Inputs) {
    !i.reset && WriteRequest(s, i)
    && match s.state
       case WaitSt => RangeW(p, i.address) || RangeI(p, i.address)
       case WriteWSt => RangeW(p, i.address)
       case WriteISt => RangeI(p, i.address)
       case _ => false
  }

  function LoadedWeights(p: Params, buf: seq<nat>): (w: seq<nat>)
    requires p.Valid() && |buf| == p.MaxRegO()
    ensures |w| == p.n && forall j :: 0 <= j < p.n ==> w[j] == Truncate(buf[j], p.widthW)
  {
    seq(p.n, j requires 0 <= j < p.n => Truncate(buf[j], p.widthW))
  }

  function LoadedInputs(p: Params, buf: seq<nat>): (x: seq<nat>)
    requires p.Valid() && |buf| == p.MaxRegO()
    ensures |x| == p.li && forall j :: 0 <= j < p.li ==> x[j] == Truncate(buf[j + p.n + 1], p.widthI)
  {
    seq<nat>(p.li, j requires 0 <= j < p.li => Truncate(buf[j + p.n + 1], p.widthI))
  }

  function Step(p: Params, s: Regs, i: Inputs): (t: Regs)
    requires Sized(p, s)
    ensures Sized(p, t)
  {
    if i.reset then s.(state := ResetSt, buf := Zeros(p.MaxRegO()))
    else
      var t := s.(state := NextState(p, s, i), buf := if Accepts(p, s, i) then s.buf[i.address := i.data] else s.buf);
      match s.state
      case ResetSt => Regs(t.state, Zeros(p.MaxRegO()), false, false, false, Zeros(p.lo), Zeros(p.n), Zeros(p.li), 0)
      case WaitSt => t.(wr := false, ready := true, down := false)
      case LoadWSt => t.(wr := true, wOut := LoadedWeights(p, s.buf), ready := false)
      case LoadISt => t.(iOut := LoadedInputs(p, s.buf), buf := WithOuts(p, s.buf, i.outs), ready := false)
      case WorkSt =>
        if NonEqual(p, s) then t.(buf := s.buf[p.MaxRegO() - 1 := p.AllOnes()], down := true)
        else t.(prev := Outs(p, s.buf), buf := WithOuts(p, s.buf, i.outs))
      case CmpltSt => t.(prev := Outs(p, s.buf), outData := if ReadRequest(s, i) then s.buf[p.MaxRegI()] else 0)
      case _ => t
  }

  // ---- The module ----

  class Device {
    const p: Params
    var state: State
    var buf: array<nat>
    var ready: bool
    var down: bool
    var wr: bool
    var prev: seq<nat>
    var wOut: array<nat>
    var iOut: array<nat>
    var outData: nat

    ghost predicate Valid()
      reads this, buf, wOut, iOut
    {
      buf != wOut && buf != iOut && wOut != iOut && Sized(p, Value())
    }

    /** All registers as one value. */
    ghost function Value(): Regs
      reads this, buf, wOut, iOut
    {
      Regs(state, buf[..], ready, down, wr, prev, wOut[..], iOut[..], outData)
    }

    /** Registers power up with any values. */
    constructor (params: Params, s: Regs)
      requires Sized(params, s)
      ensures Valid() && p == params && Value() == s && fresh({buf, wOut, iOut})
    {
      p := params;
      state, ready, down, wr, prev, outData := s.state, s.ready, s.down, s.wr, s.prev, s.outData;
      buf := new nat[|s.buf|](j requires 0 <= j < |s.buf| => s.buf[j]);
      wOut := new nat[|s.wOut|](j requires 0 <= j < |s.wOut| => s.wOut[j]);
      iOut := new nat[|s.iOut|](j requires 0 <= j < |s.iOut| => s.iOut[j]);
      new;
      assert buf[..] == s.buf && wOut[..] == s.wOut && iOut[..] == s.iOut;
    }

    method Fill(a: array<nat>)
      modifies a
      ensures a[..] == Zeros(a.Length)
    {
      var j := 0;
      while j < a.Length
        invariant 0 <= j <= a.Length && forall k :: 0 <= k < j ==> a[k] == 0
      {
        a[j] := 0;
        j := j + 1;
      }
    }

    /** The loop of Load_W_St. */
    method LoadW()
      requires Valid()
      modifies wOut
      ensures wOut[..] == LoadedWeights(p, buf[..])
    {
      var j := 0;
      while j < p.n
        invariant 0 <= j <= p.n && forall k :: 0 <= k < j ==> wOut[k] == LoadedWeights(p, buf[..])[k]
      {
        wOut[j] := Truncate(buf[j], p.widthW);
        j := j + 1;
      }
    }

    /** The loop of Load_I_St. */
    method LoadI()
      requires Valid()
      modifies iOut
      ensures iOut[..] == LoadedInputs(p, buf[..])
    {
      var j := 0;
      while j < p.li
        invariant 0 <= j <= p.li && forall k :: 0 <= k < j ==> iOut[k] == LoadedInputs(p, buf[..])[k]
      {
        iOut[j] := Truncate(buf[j + p.n + 1], p.widthI);
        j := j + 1;
      }
    }

    /** Samples the network's outputs. */
    method Sample(v: nat)
      requires Valid()
      modifies buf
      ensures buf[..] == WithOuts(p, old(buf[..]), v)
    {
      var j := 0;
      while j < p.lo
        invariant 0 <= j <= p.lo
        invariant forall a :: 0 <= a < p.MaxRegI() || p.MaxRegI() + j <= a < buf.Length ==> buf[a] == old(buf[a])
        invariant forall k :: 0 <= k < j ==> buf[p.MaxRegI() + k] == Unpack(v, p)[k]
      {
        buf[p.MaxRegI() + j] := Word(v, p.width, j);
        j := j + 1;
      }
    }

    /** A bus write, if the machine accepts it. */
    method BusWrite(i: Inputs, inRange: bool)
      requires Valid() && !i.reset
      requires inRange ==> i.address < buf.Length
      modifies buf
      ensures buf[..] == if WriteRequest(Value(), i) && inRange then old(buf[..])[i.address := i.data] else old(buf[..])
    {
      if i.write && !i.read && ready && !down && inRange {
        buf[i.address] := i.data;
      }
    }

    /** Work_St: the comparison decides between reporting and sampling again. */
    method WorkClock(v: nat)
      requires Valid()
      modifies this`down, this`prev, buf
      ensures NonEqual(p, old(Value())) ==>
        down && prev == old(prev) && buf[..] == old(buf[..])[p.MaxRegO() - 1 := p.AllOnes()]
      ensures !NonEqual(p, old(Value())) ==>
        down == old(down) && prev == Outs(p, old(buf[..])) && buf[..] == WithOuts(p, old(buf[..]), v)
    {
      if buf[p.MaxRegI()..p.MaxRegO() - 1] != prev {
        buf[p.MaxRegO() - 1] := p.AllOnes();
        down := true;
      } else {
        prev := buf[p.MaxRegI()..p.MaxRegO() - 1];
        Sample(v);
      }
    }

    /** The combinational next_state. */
    method Next(i: Inputs) returns (t: State)
      requires Valid()
      ensures t == NextState(p, Value(), i)
    {
      t := state;
      var accepted := i.write && !i.read && ready && !down;
      match state
      case ResetSt => if !i.reset { t := WaitSt; }
      case WaitSt =>
        if accepted && i.address <= p.n { t := WriteWSt; }
        else if accepted && p.n < i.address <= p.n + 1 + p.li + 1 { t := WriteISt; }
      case WriteWSt => if buf[p.MaxRegW() - 1] == p.AllOnes() { t := LoadWSt; }
      case WriteISt => if buf[p.MaxRegI() - 1] == p.AllOnes() { t := LoadISt; }
      case ReadOSt => if buf[p.MaxRegO() - 1] == p.AllOnes() { t := WaitSt; }
      case ReadWSt => if i.reset { t := WriteWSt; }
      case LoadWSt => t := WaitSt;
      case LoadISt => t := WorkSt;
      case WorkSt => if buf[p.MaxRegI()..p.MaxRegO() - 1] != prev { t := CmpltSt; }
      case CmpltSt => if !i.write && i.read && !ready && down { t := ReadOSt; }
    }

    predicate AtBus() reads this {
      state == WaitSt || state == WriteWSt || state == WriteISt
    }

    predicate AtLoad() reads this {
      state == ResetSt || state == LoadWSt || state == LoadISt
    }

    /** The states that take bus writes. */
    method UpdateAtBus(i: Inputs)
      requires Valid() && !i.reset && AtBus()
      modifies this`ready, this`down, this`wr, buf
      ensures Valid() && state == old(state)
      ensures Value().(state := NextState(p, old(Value()), i)) == Step(p, old(Value()), i)
    {
      if state == WaitSt {
        BusWrite(i, RangeW(p, i.address) || RangeI(p, i.address));
        wr, ready, down := false, true, false;
      } else if state == WriteWSt {
        BusWrite(i, RangeW(p, i.address));
      } else {
        BusWrite(i, RangeI(p, i.address));
      }
    }

    /** The states that clear or load the outputs. */
    method UpdateAtLoad(i: Inputs)
      requires Valid() && !i.reset && AtLoad()
      modifies this`ready, this`down, this`wr, this`prev, this`outData, buf, wOut, iOut
      ensures Valid() && state == old(state)
      ensures Value().(state := NextState(p, old(Value()), i)) == Step(p, old(Value()), i)
    {
      if state == ResetSt {
        Fill(buf);
        Fill(wOut);
        Fill(iOut);
        ready, down, wr, prev, outData := false, false, false, Zeros(p.lo), 0;
      } else if state == LoadWSt {
        LoadW();
        wr, ready := true, false;
      } else {
        LoadI();
        Sample(i.outs);
        ready := false;
      }
    }

    /** The states that wait for the network and report. */
    method UpdateAtWork(i: Inputs)
      requires Valid() && !i.reset && !AtBus() && !AtLoad()
      modifies this`down, this`prev, this`outData, buf
      ensures Valid() && state == old(state)
      ensures Value().(state := NextState(p, old(Value()), i)) == Step(p, old(Value()), i)
    {
      match state
      case WorkSt => WorkClock(i.outs);
      case CmpltSt =>
        prev := buf[p.MaxRegI()..p.MaxRegO() - 1];
        outData := if !i.write && i.read && !ready && down then buf[p.MaxRegI()] else 0;
      case _ =>
    }

    /** A clock edge. */
    method Clock(i: Inputs)
      requires Valid()
      modifies this, buf, wOut, iOut
      ensures Valid() && buf == old(buf) && wOut == old(wOut) && iOut == old(iOut)
      ensures Value() == Step(p, old(Value()), i)
    {
      if i.reset {
        state := ResetSt;
        Fill(buf);
      } else {
        var t := Next(i);
        if AtBus() {
          UpdateAtBus(i);
        } else if AtLoad() {
          UpdateAtLoad(i);
        } else {
          UpdateAtWork(i);
        }
        state := t;
      }
    }
  }
}
