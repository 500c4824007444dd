/** What the bus manager does over whole runs: power-up with any register values, a reset, and then any
    sequence of bus accesses, network outputs and further resets. */
module ManagerRuns {
  import opened Digits
  import opened Manager

  function Run(p: Params, s: Regs, ins: seq<Inputs>): (t: Regs)
    requires Sized(p, s)
    ensures Sized(p, t)
    decreases |ins|
  {
    if ins == [] then s else Step(p, Run(p, s, ins[..|ins| - 1]), ins[|ins| - 1])
  }

  /** Reset is high at the first step and low at the second. Whatever came before is in the registers
      the run starts from, and reset may go high again later. */
  predicate Booted(ins: seq<Inputs>) {
    |ins| >= 2 && ins[0].reset && !ins[1].reset
  }

  // ---- The invariant ----

  predicate Matches(p: Params, s: Regs)
    requires Sized(p, s)
  {
    s.wOut == LoadedWeights(p, s.buf)
  }

  predicate Sentinel(p: Params, s: Regs)
    requires Sized(p, s)
  {
    s.buf[p.MaxRegO() - 1] == p.AllOnes()
  }

  /** What every register value after the first reset cycle has in common, state by state. */
  predicate Inv(p: Params, s: Regs) {
    && Sized(p, s)
    && !(s.ready && s.down)
    && (Sentinel(p, s) || s.buf[p.MaxRegO() - 1] == 0)
    && (s.wr ==> s.state == ResetSt || (s.state == WaitSt && Matches(p, s)))
    && match s.state
       case ResetSt => true
       case WaitSt => true
       case WriteWSt => s.ready
       case WriteISt => s.ready
       case LoadWSt => s.ready
       case LoadISt => s.ready
       case WorkSt => !s.ready && !s.down
       case CmpltSt => !s.ready && s.down && Sentinel(p, s)
       case ReadOSt => !s.ready && s.down && Sentinel(p, s)
       case ReadWSt => false
  }

  lemma AcceptedAddress(p: Params, s: Regs, i: Inputs)
    requires p.Valid() && Accepts(p, s, i)
    ensures i.address <= p.MaxRegI() < p.MaxRegO() - 1
  {
  }

  lemma InvStep(p: Params, s: Regs, i: Inputs)
    requires Inv(p, s)
    ensures Inv(p, Step(p, s, i))
  {
  }

  lemma RunUnfold(p: Params, s: Regs, ins: seq<Inputs>)
    requires Sized(p, s) && ins != []
    ensures Run(p, s, ins) == Step(p, Run(p, s, ins[..|ins| - 1]), ins[|ins| - 1])
  {
  }

  lemma AfterBoot(p: Params, s: Regs, ins: seq<Inputs>)
    requires Sized(p, s) && Booted(ins) && |ins| == 2
    ensures Run(p, s, ins) ==
      Regs(WaitSt, Zeros(p.MaxRegO()), false, false, false, Zeros(p.lo), Zeros(p.n), Zeros(p.li), 0)
  {
    RunUnfold(p, s, ins);
    RunUnfold(p, s, ins[..1]);
    assert ins[..1][..0] == [];
    assert Run(p, s, []) == s;
  }

  /** Handshake and sentinel: from the first reset cycle on, ready and down are never both high, the
      output sentinel is zero or all ones, and it is all ones whenever a result is held. */
  lemma {:induction false} RunKeepsInv(p: Params, s: Regs, ins: seq<Inputs>)
    requires Sized(p, s) && Booted(ins)
    ensures Inv(p, Run(p, s, ins))
    decreases |ins|
  {
    if |ins| == 2 {
      AfterBoot(p, s, ins);
    } else {
      RunUnfold(p, s, ins);
      RunKeepsInv(p, s, ins[..|ins| - 1]);
      InvStep(p, Run(p, s, ins[..|ins| - 1]), ins[|ins| - 1]);
    }
  }

  // ---- The register file ----

  /** The last accepted bus write to a word since the last reset, or zero. */
  function Written(p: Params, s: Regs, ins: seq<Inputs>, a: nat): nat
    requires Sized(p, s)
    decreases |ins|
  {
    if ins == [] then 0
    else
      var before, i := ins[..|ins| - 1], ins[|ins| - 1];
      if i.reset then 0
      else if Accepts(p, Run(p, s, before), i) && i.address == a then i.data
      else Written(p, s, before, a)
  }

  lemma StepKeepsWord(p: Params, s: Regs, i: Inputs, a: nat)
    requires Sized(p, s) && a < p.MaxRegI() && !i.reset && s.state != ResetSt
    ensures Step(p, s, i).buf[a] == if Accepts(p, s, i) && i.address == a then i.data else s.buf[a]
  {
    if Accepts(p, s, i) {
      AcceptedAddress(p, s, i);
    }
  }

  /** In the reset state the register file is clear. */
  lemma {:induction false} ClearInReset(p: Params, s: Regs, ins: seq<Inputs>)
    requires Sized(p, s) && Booted(ins) && Run(p, s, ins).state == ResetSt
    ensures Run(p, s, ins).buf == Zeros(p.MaxRegO())
    ensures ins[|ins| - 1].reset
  {
    RunUnfold(p, s, ins);
    if |ins| == 2 {
      AfterBoot(p, s, ins);
    } else {
      RunKeepsInv(p, s, ins[..|ins| - 1]);
    }
  }

  lemma WrittenUnfold(p: Params, s: Regs, ins: seq<Inputs>, a: nat)
    requires Sized(p, s) && ins != []
    ensures var before, i := ins[..|ins| - 1], ins[|ins| - 1];
      Written(p, s, ins, a) ==
        if i.reset then 0
        else if Accepts(p, Run(p, s, before), i) && i.address == a then i.data
        else Written(p, s, before, a)
  {
  }

  lemma NothingWritten(p: Params, s: Regs, ins: seq<Inputs>, a: nat)
    requires Sized(p, s) && Booted(ins) && |ins| == 2
    ensures Written(p, s, ins, a) == 0
  {
    WrittenUnfold(p, s, ins, a);
    WrittenUnfold(p, s, ins[..1], a);
    RunUnfold(p, s, ins[..1]);
    assert ins[..1][0] == ins[0];
  }

  /** Every weight and input word, and their two sentinels, holds the last bus write accepted for it
      since the last reset, and zero if there was none. */
  lemma {:induction false} WordsAreLastWrites(p: Params, s: Regs, ins: seq<Inputs>, a: nat)
    requires Sized(p, s) && Booted(ins) && a < p.MaxRegI()
    ensures Run(p, s, ins).buf[a] == Written(p, s, ins, a)
    decreases |ins|
  {
    if |ins| == 2 {
      AfterBoot(p, s, ins);
      NothingWritten(p, s, ins, a);
    } else {
      var before, i := ins[..|ins| - 1], ins[|ins| - 1];
      RunUnfold(p, s, ins);
      WrittenUnfold(p, s, ins, a);
      WordsAreLastWrites(p, s, before, a);
      if Run(p, s, before).state == ResetSt {
        ClearInReset(p, s, before);
      } else if !i.reset {
        StepKeepsWord(p, Run(p, s, before), i, a);
      }
    }
  }

  /** While wr is high outside reset, w_o is exactly the last accepted bus writes to the weights, each
      cut to the width of a weight. */
  lemma WeightsOnPulse(p: Params, s: Regs, ins: seq<Inputs>, j: nat)
    requires Sized(p, s) && Booted(ins) && j < p.n
    requires Run(p, s, ins).wr && Run(p, s, ins).state != ResetSt
    ensures Run(p, s, ins).wOut[j] == Truncate(Written(p, s, ins, j), p.widthW)
  {
    RunKeepsInv(p, s, ins);
    WordsAreLastWrites(p, s, ins, j);
  }

  /** wr is high after a clock exactly if the weights were being loaded and reset was low, or if it was
      high before and reset is high: the pulse lasts one clock unless a reset begins during it, and then
      as long as the reset. w_o changes only when a pulse begins or the reset state is left. */
  lemma PulseIff(p: Params, s: Regs, i: Inputs)
    requires Inv(p, s)
    ensures Step(p, s, i).wr <==> if i.reset then s.wr else s.state == LoadWSt
    ensures Step(p, s, i).wOut != s.wOut ==> !i.reset && (s.state == LoadWSt || s.state == ResetSt)
  {
  }

  /** A reset that begins during the pulse leaves wr and w_o as they are and clears the register file, so
      w_o is still what the weight words say exactly if every weight loaded was zero. */
  lemma ResetDuringPulse(p: Params, s: Regs, i: Inputs)
    requires Inv(p, s) && s.state == WaitSt && s.wr && i.reset
    ensures var t := Step(p, s, i);
      && t.wr && t.wOut == s.wOut && t.state == ResetSt
      && (Matches(p, t) <==> forall j :: 0 <= j < p.n ==> s.wOut[j] == 0)
  {
    var t := Step(p, s, i);
    forall j | 0 <= j < p.n
      ensures LoadedWeights(p, t.buf)[j] == 0
    {
      TruncateZero(p.widthW);
    }
  }

  lemma TruncateZero(width: nat)
    ensures Truncate(0, width) == 0
  {
    PowPositive(2, width);
  }

  /** During the pulse wr outlives the next clock with the same w_o, and w_o still is the last accepted
      writes, exactly as follows: without a reset the pulse is over; with one it goes on, and w_o still
      is the last accepted writes, which now are none, exactly if every weight loaded was zero. */
  lemma PulseShowsWritesIff(p: Params, s: Regs, ins: seq<Inputs>, i: Inputs)
    requires Sized(p, s) && Booted(ins)
    requires Run(p, s, ins).wr && Run(p, s, ins).state == WaitSt
    ensures var now, after := Run(p, s, ins), Run(p, s, ins + [i]);
      && (after.wr <==> i.reset)
      && after.wOut == now.wOut
      && ((after.wr ==> ShowsWrites(p, s, ins + [i])) <==>
          (!i.reset || forall j :: 0 <= j < p.n ==> now.wOut[j] == 0))
  {
    var more := ins + [i];
    assert more[..|more| - 1] == ins;
    RunKeepsInv(p, s, ins);
    RunUnfold(p, s, more);
    PulseIff(p, Run(p, s, ins), i);
    if i.reset {
      ResetDuringPulse(p, Run(p, s, ins), i);
      ShowsIsMatches(p, s, more);
    }
  }

  /** w_o is the last accepted writes. */
  predicate ShowsWrites(p: Params, s: Regs, ins: seq<Inputs>)
    requires Sized(p, s)
  {
    forall j :: 0 <= j < p.n ==> Run(p, s, ins).wOut[j] == Truncate(Written(p, s, ins, j), p.widthW)
  }

  lemma ShowsIsMatches(p: Params, s: Regs, ins: seq<Inputs>)
    requires Sized(p, s) && Booted(ins)
    ensures ShowsWrites(p, s, ins) <==> Matches(p, Run(p, s, ins))
  {
    forall j | 0 <= j < p.n
      ensures Run(p, s, ins).buf[j] == Written(p, s, ins, j)
    {
      WordsAreLastWrites(p, s, ins, j);
    }
  }

  /** A write of all ones to the sentinel of the weights. */
  predicate EndsWeights(p: Params, i: Inputs) {
    i.write && !i.read && i.address == p.MaxRegW() - 1 && i.data == p.AllOnes()
  }

  // ---- A run into a reset during the pulse ----

  /** One weight of one bit, which is set; then its sentinel, all ones. */
  const TINY := Params(1, 1, 1, 1, 1, 1)
  const RESET := Inputs(true, false, false, 0, 0, 0)
  const IDLE := Inputs(false, false, false, 0, 0, 0)
  const SET_WEIGHT := Inputs(false, false, true, 1, 0, 0)
  const END_WEIGHTS := Inputs(false, false, true, 1, 1, 0)
  /** Reset, the clock that clears, the one that raises ready, two writes, the test, the load. */
  const LOADING := [RESET, IDLE, IDLE, SET_WEIGHT, END_WEIGHTS, IDLE, IDLE]

  lemma RunSnoc(p: Params, s: Regs, ins: seq<Inputs>, i: Inputs)
    requires Sized(p, s)
    ensures Run(p, s, ins + [i]) == Step(p, Run(p, s, ins), i)
  {
    assert (ins + [i])[..|ins + [i]| - 1] == ins;
  }

  lemma TinyValues()
    ensures TINY.AllOnes() == 1 && Truncate(1, 1) == 1
  {
    PowOne(2);
  }

  lemma AfterFirstWrite(p: Params, s: Regs, i: Inputs)
    requires Sized(p, s) && s.state == WaitSt && s.ready && !s.down && Accepts(p, s, i) && RangeW(p, i.address)
    ensures Step(p, s, i) == s.(state := WriteWSt, buf := s.buf[i.address := i.data], wr := false)
  {
  }

  lemma AfterSentinel(p: Params, s: Regs, i: Inputs, j: Inputs)
    requires Sized(p, s) && s.state == WriteWSt && s.ready && !s.down && s.buf[p.MaxRegW() - 1] != p.AllOnes()
    requires !i.reset && EndsWeights(p, i) && !j.reset && !j.write
    ensures Step(p, Step(p, s, i), j) == s.(state := LoadWSt, buf := s.buf[p.MaxRegW() - 1 := p.AllOnes()])
  {
    assert Step(p, s, i) == s.(buf := s.buf[p.MaxRegW() - 1 := p.AllOnes()]);
  }

  lemma TinyReady(s: Regs) returns (t: Regs)
    requires Sized(TINY, s)
    ensures t == Run(TINY, s, [RESET, IDLE, IDLE]) && Sized(TINY, t)
    ensures t.state == WaitSt && t.ready && !t.down && t.buf == Zeros(6)
  {
    AfterBoot(TINY, s, [RESET, IDLE]);
    RunSnoc(TINY, s, [RESET, IDLE], IDLE);
    assert [RESET, IDLE] + [IDLE] == [RESET, IDLE, IDLE];
    t := Step(TINY, Run(TINY, s, [RESET, IDLE]), IDLE);
  }

  lemma TinyWritten(s: Regs) returns (t: Regs)
    requires Sized(TINY, s)
    ensures t == Run(TINY, s, [RESET, IDLE, IDLE, SET_WEIGHT]) && Sized(TINY, t)
    ensures t.state == WriteWSt && t.ready && !t.down && t.buf == Zeros(6)[0 := 1]
  {
    var r := TinyReady(s);
    AfterFirstWrite(TINY, r, SET_WEIGHT);
    RunSnoc(TINY, s, [RESET, IDLE, IDLE], SET_WEIGHT);
    assert [RESET, IDLE, IDLE] + [SET_WEIGHT] == [RESET, IDLE, IDLE, SET_WEIGHT];
    t := Step(TINY, r, SET_WEIGHT);
  }

  lemma LoadingReachesPulse(s: Regs)
    requires Sized(TINY, s)
    ensures var t := Run(TINY, s, LOADING); t.state == WaitSt && t.wr && t.wOut == [1]
  {
    var front := [RESET, IDLE, IDLE, SET_WEIGHT];
    var r := TinyWritten(s);
    TinyValues();
    AfterSentinel(TINY, r, END_WEIGHTS, IDLE);
    RunSnoc(TINY, s, front, END_WEIGHTS);
    RunSnoc(TINY, s, front + [END_WEIGHTS], IDLE);
    RunSnoc(TINY, s, front + [END_WEIGHTS] + [IDLE], IDLE);
    assert LOADING == front + [END_WEIGHTS] + [IDLE] + [IDLE];
    AfterLoad(TINY, Step(TINY, Step(TINY, r, END_WEIGHTS), IDLE), IDLE);
  }

  lemma AfterLoad(p: Params, s: Regs, i: Inputs)
    requires Sized(p, s) && s.state == LoadWSt && !i.reset
    ensures var t := Step(p, s, i); t.state == WaitSt && t.wr && t.wOut == LoadedWeights(p, s.buf)
  {
  }

  /** From any power-up the pulse can meet a reset with a weight that is not zero: wr is high and w_o
      holds a weight that no longer is in the register file. */
  lemma StalePulseIsReachable(s: Regs)
    requires Sized(TINY, s)
    ensures Booted(LOADING)
    ensures var t := Run(TINY, s, LOADING + [RESET]); t.wr && t.wOut == [1] && t.buf[0] == 0
    ensures !ShowsWrites(TINY, s, LOADING + [RESET])
  {
    LoadingReachesPulse(s);
    RunSnoc(TINY, s, LOADING, RESET);
    assert Run(TINY, s, LOADING).wOut[0] == 1;
    PulseShowsWritesIff(TINY, s, LOADING, RESET);
  }

  /** Once the weights' sentinel is all ones it stays armed, and one accepted write to any weight is
      followed by a reload of them all, three clocks after it. */
  lemma OneWriteReloads(p: Params, s: Regs, i: Inputs, j: Inputs, k: Inputs)
    requires Inv(p, s) && s.state == WaitSt && s.buf[p.MaxRegW() - 1] == p.AllOnes()
    requires Accepts(p, s, i) && i.address < p.n && !j.reset && !k.reset
    ensures var loading := Step(p, Step(p, s, i), j);
      loading.state == LoadWSt
      && Step(p, loading, k).state == WaitSt && Step(p, loading, k).wr
      && Step(p, loading, k).wOut == LoadedWeights(p, loading.buf)
  {
  }

  // ---- Leaving the write states ----

  /** A write of all ones to the sentinel of the inputs. */
  predicate EndsInputs(p: Params, i: Inputs) {
    i.write && !i.read && i.address == p.MaxRegI() - 1 && i.data == p.AllOnes()
  }

  /** Weights are written until their sentinel is: as long as the bus does not write it the machine takes
      writes to any weight, and no others, in any number and order. */
  lemma {:induction false} WeightsEndAtSentinel(p: Params, s: Regs, ins: seq<Inputs>)
    requires Inv(p, s) && s.state == WriteWSt && s.buf[p.MaxRegW() - 1] != p.AllOnes()
    requires forall k :: 0 <= k < |ins| ==> !ins[k].reset && !EndsWeights(p, ins[k])
    ensures var t := Run(p, s, ins);
      && t.state == WriteWSt && t.ready && !t.down && t.buf[p.MaxRegW() - 1] != p.AllOnes()
      && forall a :: p.n < a < p.MaxRegO() ==> t.buf[a] == s.buf[a]
    decreases |ins|
  {
    if ins != [] {
      WeightsEndAtSentinel(p, s, ins[..|ins| - 1]);
    } else {
      assert Run(p, s, ins) == s;
    }
  }

  /** And the write of the sentinel ends it: two clocks later the weights are being loaded. */
  lemma SentinelLoadsWeights(p: Params, s: Regs, i: Inputs, j: Inputs)
    requires Inv(p, s) && (s.state == WriteWSt || (s.state == WaitSt && s.ready && !s.down))
    requires s.state == WriteWSt ==> s.buf[p.MaxRegW() - 1] != p.AllOnes()
    requires !i.reset && !j.reset && EndsWeights(p, i)
    ensures Step(p, Step(p, s, i), j).state == LoadWSt
  {
  }

  /** The same for the inputs. */
  lemma {:induction false} InputsEndAtSentinel(p: Params, s: Regs, ins: seq<Inputs>)
    requires Inv(p, s) && s.state == WriteISt && s.buf[p.MaxRegI() - 1] != p.AllOnes()
    requires forall k :: 0 <= k < |ins| ==> !ins[k].reset && !EndsInputs(p, ins[k])
    ensures var t := Run(p, s, ins);
      && t.state == WriteISt && t.ready && !t.down && t.buf[p.MaxRegI() - 1] != p.AllOnes()
      && forall a :: 0 <= a <= p.n ==> t.buf[a] == s.buf[a]
    decreases |ins|
  {
    if ins != [] {
      InputsEndAtSentinel(p, s, ins[..|ins| - 1]);
    } else {
      assert Run(p, s, ins) == s;
    }
  }

  lemma SentinelLoadsInputs(p: Params, s: Regs, i: Inputs, j: Inputs)
    requires Inv(p, s) && (s.state == WriteISt || (s.state == WaitSt && s.ready && !s.down))
    requires s.state == WriteISt ==> s.buf[p.MaxRegI() - 1] != p.AllOnes()
    requires !i.reset && !j.reset && EndsInputs(p, i)
    ensures Step(p, Step(p, s, i), j).state == LoadISt
  {
  }

  // ---- Results ----

  /** No bus write changes the output sentinel. */
  lemma SentinelOutOfReach(p: Params, s: Regs, i: Inputs)
    requires Inv(p, s) && Accepts(p, s, i)
    ensures Step(p, s, i).buf[p.MaxRegO() - 1] == s.buf[p.MaxRegO() - 1]
  {
    AcceptedAddress(p, s, i);
  }

  /** Read_O_St lasts exactly one clock. */
  lemma ReadLastsOneClock(p: Params, s: Regs, ins: seq<Inputs>, i: Inputs)
    requires Sized(p, s) && Booted(ins) && Run(p, s, ins).state == ReadOSt && !i.reset
    ensures Step(p, Run(p, s, ins), i).state == WaitSt
  {
    RunKeepsInv(p, s, ins);
  }

  /** The network outputs sampled last: when the inputs are loaded, and at each clock of Work_St that
      does not end it. */
  function Sampled(p: Params, s: Regs, ins: seq<Inputs>): nat
    requires Sized(p, s)
    decreases |ins|
  {
    if ins == [] then 0
    else
      var before, i := ins[..|ins| - 1], ins[|ins| - 1];
      var t := Run(p, s, before);
      if !i.reset && (t.state == LoadISt || (t.state == WorkSt && !NonEqual(p, t))) then i.outs
      else Sampled(p, s, before)
  }

  predicate HoldsResult(s: Regs) {
    s.state == WorkSt || s.state == CmpltSt || s.state == ReadOSt
  }

  lemma SampledStep(p: Params, s: Regs, i: Inputs, v: nat)
    requires Inv(p, s) && (HoldsResult(s) ==> Outs(p, s.buf) == Unpack(v, p))
    requires HoldsResult(Step(p, s, i))
    ensures Outs(p, Step(p, s, i).buf)
      == Unpack(if s.state == LoadISt || (s.state == WorkSt && !NonEqual(p, s)) then i.outs else v, p)
  {
  }

  /** While a result is awaited or held, the output words are the outputs sampled last, packed as the
      network delivers them: no bus write and no later change of the network's outputs is mixed in. */
  lemma {:induction false} OutputsAreSampled(p: Params, s: Regs, ins: seq<Inputs>)
    requires Sized(p, s) && Booted(ins) && HoldsResult(Run(p, s, ins))
    ensures Outs(p, Run(p, s, ins).buf) == Unpack(Sampled(p, s, ins), p)
    decreases |ins|
  {
    if |ins| == 2 {
      AfterBoot(p, s, ins);
    } else {
      var before, i := ins[..|ins| - 1], ins[|ins| - 1];
      RunUnfold(p, s, ins);
      RunKeepsInv(p, s, before);
      if HoldsResult(Run(p, s, before)) {
        OutputsAreSampled(p, s, before);
      }
      SampledStep(p, Run(p, s, before), i, Sampled(p, s, before));
    }
  }

  /** A read is answered with the first bus word of the outputs sampled last. */
  lemma ReadAnswers(p: Params, s: Regs, ins: seq<Inputs>, i: Inputs)
    requires Sized(p, s) && Booted(ins) && !i.reset
    requires Run(p, s, ins).state == CmpltSt && ReadRequest(Run(p, s, ins), i)
    ensures Step(p, Run(p, s, ins), i).outData == Truncate(Sampled(p, s, ins), p.width)
  {
    OutputsAreSampled(p, s, ins);
    var t := Run(p, s, ins);
    assert t.buf[p.MaxRegI()] == Outs(p, t.buf)[0];
    assert Word(Sampled(p, s, ins), p.width, 0) == Truncate(Sampled(p, s, ins), p.width) by {
      DivideByOne(Sampled(p, s, ins), p.width * 0);
    }
  }

  lemma DivideByOne(v: nat, e: nat)
    requires e == 0
    ensures Pow(2, e) == 1 && v / Pow(2, e) == v
  {
  }

  /** Work_St is left only by an output that differs from the one last reported: as long as the network
      delivers that one, the machine stays there and down stays low. */
  lemma {:induction false} WorkWaitsForChange(p: Params, s: Regs, ins: seq<Inputs>)
    requires Inv(p, s) && s.state == WorkSt && Outs(p, s.buf) == s.prev
    requires forall k :: 0 <= k < |ins| ==> !ins[k].reset && Unpack(ins[k].outs, p) == s.prev
    ensures var t := Run(p, s, ins);
      t.state == WorkSt && !t.down && t.prev == s.prev && Outs(p, t.buf) == s.prev
    decreases |ins|
  {
    if ins != [] {
      WorkWaitsForChange(p, s, ins[..|ins| - 1]);
    } else {
      assert Run(p, s, ins) == s;
    }
  }

  /** And the first output that differs is reported: two clocks after it is sampled, down is high. */
  lemma ChangeIsReported(p: Params, s: Regs, i: Inputs, j: Inputs)
    requires Inv(p, s) && s.state == WorkSt && Outs(p, s.buf) == s.prev
    requires !i.reset && !j.reset && Unpack(i.outs, p) != s.prev
    ensures var t := Step(p, Step(p, s, i), j);
      t.state == CmpltSt && t.down && Outs(p, t.buf) == Unpack(i.outs, p) && Sentinel(p, t)
  {
  }
}
