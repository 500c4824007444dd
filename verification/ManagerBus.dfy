/** A whole cycle of the bus manager: which writes it takes, what the network is given to work with, and how a
    result is reported and read. */
module ManagerBus {
  import opened Arithmetic
  import opened Digits
  import opened Manager
  import opened ManagerRuns

  // ---- The inputs of the network ----

  /** How many steps of a run precede the last one that loaded the inputs, or 0 if none has since the registers
      were last cleared. */
  function LastInputs(p: Params, s: Regs, ins: seq<Inputs>): (k: nat)
    requires Sized(p, s)
    ensures k <= |ins|
    decreases |ins|
  {
    if |ins| <= 2 then 0
    else
      var before, i := ins[..|ins| - 1], ins[|ins| - 1];
      var t := Run(p, s, before);
      if i.reset then LastInputs(p, s, before)
      else if t.state == LoadISt then |before|
      else if t.state == ResetSt then 0
      else LastInputs(p, s, before)
  }

  /** i_o changes only when the inputs are loaded or the reset state is left. */
  lemma OnlyLoadsMoveInputs(p: Params, s: Regs, i: Inputs)
    requires Sized(p, s)
    ensures Step(p, s, i).iOut != s.iOut ==> !i.reset && (s.state == LoadISt || s.state == ResetSt)
  {
  }

  /** Load_I_St gives the network, word by word, the last accepted bus writes to the inputs, each cut to the width
      of an input; it samples the outputs, drops ready, and goes on to Work_St. */
  lemma InputsLoaded(p: Params, s: Regs, ins: seq<Inputs>, i: Inputs, j: nat)
    requires Sized(p, s) && Booted(ins) && Run(p, s, ins).state == LoadISt && !i.reset && j < p.li
    ensures var t := Step(p, Run(p, s, ins), i);
      && t.iOut[j] == Truncate(Written(p, s, ins, p.n + 1 + j), p.widthI)
      && t.state == WorkSt && !t.ready && Outs(p, t.buf) == Unpack(i.outs, p)
  {
    WordsAreLastWrites(p, s, ins, p.n + 1 + j);
    LoadStep(p, Run(p, s, ins), i);
  }

  lemma LoadStep(p: Params, s: Regs, i: Inputs)
    requires Sized(p, s) && s.state == LoadISt && !i.reset
    ensures var t := Step(p, s, i);
      t.iOut == LoadedInputs(p, s.buf) && t.state == WorkSt && !t.ready && Outs(p, t.buf) == Unpack(i.outs, p)
  {
  }

  lemma ResetClears(p: Params, s: Regs, i: Inputs)
    requires Sized(p, s) && s.state == ResetSt && !i.reset
    ensures Step(p, s, i) == Regs(WaitSt, Zeros(p.MaxRegO()), false, false, false, Zeros(p.lo), Zeros(p.n), Zeros(p.li), 0)
  {
  }

  /** Over every run, and with resets at any time: i_o holds the bus writes that were the last accepted when the
      inputs were last loaded, each cut to the width of an input, and zeros until then. */
  lemma {:induction false} InputsAreLastLoad(p: Params, s: Regs, ins: seq<Inputs>, j: nat)
    requires Sized(p, s) && Booted(ins) && j < p.li
    ensures var k := LastInputs(p, s, ins);
      Run(p, s, ins).iOut[j] == if k == 0 then 0 else Truncate(Written(p, s, ins[..k], p.n + 1 + j), p.widthI)
    decreases |ins|
  {
    if |ins| == 2 {
      AfterBoot(p, s, ins);
    } else {
      var before, i := ins[..|ins| - 1], ins[|ins| - 1];
      var t := Run(p, s, before);
      RunUnfold(p, s, ins);
      if !i.reset && t.state == LoadISt {
        InputsLoaded(p, s, before, i, j);
      } else if !i.reset && t.state == ResetSt {
        ResetClears(p, t, i);
      } else {
        OnlyLoadsMoveInputs(p, t, i);
        InputsAreLastLoad(p, s, before, j);
        assert before[..LastInputs(p, s, before)] == ins[..LastInputs(p, s, before)];
      }
    }
  }

  // ---- Writing ----

  /** In Wait_St with ready up, a write up to the weights' sentinel begins the writing of weights and one beyond
      it that of inputs, and the word is stored; an address further on does nothing. The last address taken is
      one beyond the sentinel of the inputs: that word is the first output. */
  lemma WaitTakesWrites(p: Params, s: Regs, i: Inputs)
    requires Sized(p, s) && s.state == WaitSt && s.ready && !s.down && !i.reset && i.write && !i.read
    ensures var t := Step(p, s, i);
      && t.state == (if i.address <= p.n then WriteWSt else if i.address <= p.n + p.li + 2 then WriteISt else WaitSt)
      && t.buf == (if i.address <= p.n + p.li + 2 then s.buf[i.address := i.data] else s.buf)
      && (i.address == p.n + p.li + 2 ==> Outs(p, t.buf)[0] == i.data)
  {
  }

  /** Without ready, or with read up, or without write, nothing is written. */
  lemma NoRequestNoWrite(p: Params, s: Regs, i: Inputs)
    requires Sized(p, s) && s.state == WaitSt && !i.reset && (!s.ready || s.down || !i.write || i.read)
    ensures var t := Step(p, s, i); t.state == WaitSt && t.buf == s.buf && t.ready && !t.down && !t.wr
  {
  }

  /** Loading the weights raises wr and drops ready, both for one clock; a write in that clock is not taken. */
  lemma LoadHoldsOffWrites(p: Params, s: Regs, i: Inputs, j: Inputs)
    requires Inv(p, s) && s.state == LoadWSt && !i.reset && !j.reset
    ensures var t := Step(p, s, i); var u := Step(p, t, j);
      && t.state == WaitSt && t.wr && !t.ready && t.buf == s.buf
      && u.state == WaitSt && !u.wr && u.ready && !u.down && u.buf == s.buf
  {
  }

  // ---- Reporting ----

  /** A result is held until a read without a write: then the first bus word of the outputs is delivered; until
      then the delivered word is 0. Either way the outputs are from now on those last reported. */
  lemma HeldUntilRead(p: Params, s: Regs, i: Inputs)
    requires Inv(p, s) && s.state == CmpltSt && !i.reset
    ensures var t := Step(p, s, i);
      && t.state == (if i.read && !i.write then ReadOSt else CmpltSt)
      && t.outData == (if i.read && !i.write then Outs(p, s.buf)[0] else 0)
      && t.prev == Outs(p, s.buf) && t.down && t.buf == s.buf
  {
  }

  /** Three clocks after the read the manager takes writes again, and the word that was read still stands. */
  lemma ReadThenReady(p: Params, s: Regs, i: Inputs, j: Inputs, k: Inputs)
    requires Inv(p, s) && s.state == CmpltSt && i.read && !i.write && !i.reset && !j.reset && !k.reset
    ensures var t := Step(p, Step(p, s, i), j); var u := Step(p, t, k);
      && t.state == WaitSt && t.down && t.outData == Outs(p, s.buf)[0]
      && u.state == WaitSt && u.ready && !u.down && u.outData == Outs(p, s.buf)[0]
  {
    HeldUntilRead(p, s, i);
    InvStep(p, s, i);
    var r := Step(p, s, i);
    assert r.state == ReadOSt;
    var t := Step(p, r, j);
    assert t == r.(state := WaitSt);
    NoRequestNoWrite(p, t, k);
  }

  /** The outputs reported last: those of the last clock in Cmplt_St, or zeros if there was none since the
      registers were last cleared. */
  function Reported(p: Params, s: Regs, ins: seq<Inputs>): (o: seq<nat>)
    requires Sized(p, s)
    ensures |o| == p.lo
    decreases |ins|
  {
    if |ins| <= 2 then Zeros(p.lo)
    else
      var before, i := ins[..|ins| - 1], ins[|ins| - 1];
      var t := Run(p, s, before);
      if i.reset then Reported(p, s, before)
      else if t.state == CmpltSt then Unpack(Sampled(p, s, before), p)
      else if t.state == ResetSt then Zeros(p.lo)
      else Reported(p, s, before)
  }

  lemma OtherStatesKeepPrev(p: Params, s: Regs, i: Inputs)
    requires Sized(p, s) && (i.reset || (s.state != CmpltSt && s.state != ResetSt))
    ensures Step(p, s, i).prev == s.prev
  {
  }

  /** What Work_St compares with is, over every run, the outputs reported last. */
  lemma {:induction false} ComparesWithReported(p: Params, s: Regs, ins: seq<Inputs>)
    requires Sized(p, s) && Booted(ins)
    ensures Run(p, s, ins).prev == Reported(p, s, ins)
    decreases |ins|
  {
    if |ins| == 2 {
      AfterBoot(p, s, ins);
    } else {
      var before, i := ins[..|ins| - 1], ins[|ins| - 1];
      var t := Run(p, s, before);
      RunUnfold(p, s, ins);
      RunKeepsInv(p, s, before);
      if !i.reset && t.state == CmpltSt {
        HeldUntilRead(p, t, i);
        OutputsAreSampled(p, s, before);
      } else if !i.reset && t.state == ResetSt {
        ResetClears(p, t, i);
      } else {
        OtherStatesKeepPrev(p, t, i);
        ComparesWithReported(p, s, before);
      }
    }
  }

  // ---- The packed outputs ----

  /** The outputs of the network as one vector, the first in the lowest bits. */
  function Pack(ws: seq<nat>, width: nat): nat {
    if ws == [] then 0 else ws[0] + Pack(ws[1..], width) * Pow(2, width)
  }

  lemma {:induction false} WordOfPack(ws: seq<nat>, width: nat, j: nat)
    requires j < |ws| && forall k :: 0 <= k < |ws| ==> ws[k] < Pow(2, width)
    ensures Word(Pack(ws, width), width, j) == ws[j]
    decreases j
  {
    PowPositive(2, width);
    QuotientRemainder(Pack(ws, width), Pow(2, width), Pack(ws[1..], width), ws[0]);
    if j == 0 {
      DivideByOne(Pack(ws, width), width * 0);
    } else {
      WordOfPack(ws[1..], width, j - 1);
      NextWord(Pack(ws, width), width, j);
    }
  }

  /** The part of a vector from bit `e` on. */
  function Above(v: nat, e: nat): nat {
    PowPositive(2, e);
    v / Pow(2, e)
  }

  lemma WordAt(v: nat, width: nat, j: nat, e: nat)
    requires e == width * j
    ensures Word(v, width, j) == Truncate(Above(v, e), width)
  {
  }

  lemma AboveTwice(v: nat, a: nat, b: nat)
    ensures Above(v, a + b) == Above(Above(v, a), b)
  {
    PowPositive(2, a);
    PowPositive(2, b);
    PowAdd(a, b);
    DivTwice(v, Pow(2, a), Pow(2, b));
  }

  lemma WordExponent(width: nat, j: nat) returns (e: nat)
    requires j > 0
    ensures e == width * (j - 1) && width + e == width * j
  {
    e := width * (j - 1);
  }

  /** Word j of a vector is word j - 1 of what lies above its first word. */
  lemma NextWord(v: nat, width: nat, j: nat)
    requires j > 0
    ensures Word(v, width, j) == Word(Above(v, width), width, j - 1)
  {
    var e := WordExponent(width, j);
    WordAt(v, width, j, width + e);
    WordAt(Above(v, width), width, j - 1, e);
    AboveTwice(v, width, e);
  }

  /** The manager takes the packed outputs apart again. */
  lemma UnpackPacked(ws: seq<nat>, p: Params)
    requires |ws| == p.lo && forall k :: 0 <= k < |ws| ==> ws[k] < Pow(2, p.width)
    ensures Unpack(Pack(ws, p.width), p) == ws
  {
    forall j | 0 <= j < |ws| ensures Word(Pack(ws, p.width), p.width, j) == ws[j] {
      WordOfPack(ws, p.width, j);
    }
  }
}
