/** The bus manager wired to the weight latches of the two layers: what the layers compute with, over
    whole runs. The layers share wr; the first takes the front of w_o, the second the rest. */
module Accelerator {
  import opened Layer
  import opened Manager
  import opened ManagerRuns
  import opened ManagerBus

  // ---- What the latches hold ----

  /** The latches are open while wr is high, so after each step they hold w_o or what they held. */
  function Latched(p: Params, s: Regs, held: seq<nat>, ins: seq<Inputs>): (w: seq<nat>)
    requires Sized(p, s) && |held| == p.n
    ensures |w| == p.n
    decreases |ins|
  {
    var t := Run(p, s, ins);
    if t.wr then t.wOut
    else if ins == [] then held
    else Latched(p, s, held, ins[..|ins| - 1])
  }

  /** How many steps of a run precede the last one that loaded the weights, or 0 if none did. */
  function LastLoad(p: Params, s: Regs, ins: seq<Inputs>): (k: nat)
    requires Sized(p, s)
    ensures k <= |ins|
    decreases |ins|
  {
    if |ins| <= 2 then 0
    else
      var before := ins[..|ins| - 1];
      if !ins[|ins| - 1].reset && Run(p, s, before).state == LoadWSt then |before|
      else LastLoad(p, s, before)
  }

  lemma LatchedUnfold(p: Params, s: Regs, held: seq<nat>, ins: seq<Inputs>)
    requires Sized(p, s) && |held| == p.n && ins != []
    ensures Latched(p, s, held, ins) ==
      if Run(p, s, ins).wr then Run(p, s, ins).wOut else Latched(p, s, held, ins[..|ins| - 1])
  {
  }

  /** A step that does not load leaves the latches alone, a reset during the pulse included. */
  lemma OnlyLoadsMove(p: Params, s: Regs, held: seq<nat>, ins: seq<Inputs>)
    requires Sized(p, s) && |held| == p.n && |ins| > 2 && Booted(ins)
    ensures var before, i := ins[..|ins| - 1], ins[|ins| - 1];
      Latched(p, s, held, ins) ==
        if !i.reset && Run(p, s, before).state == LoadWSt then LoadedWeights(p, Run(p, s, before).buf)
        else Latched(p, s, held, before)
  {
    var before, i := ins[..|ins| - 1], ins[|ins| - 1];
    RunUnfold(p, s, ins);
    RunKeepsInv(p, s, before);
    LatchedUnfold(p, s, held, ins);
    LatchedUnfold(p, s, held, before);
    PulseIff(p, Run(p, s, before), i);
    if !i.reset && Run(p, s, before).state == LoadWSt {
      LoadShows(p, Run(p, s, before), i);
    }
  }

  lemma LoadShows(p: Params, s: Regs, i: Inputs)
    requires Sized(p, s) && !i.reset && s.state == LoadWSt
    ensures Step(p, s, i).wOut == LoadedWeights(p, s.buf) && Step(p, s, i).wr
  {
  }

  /** Over every run, and with resets at any time, the layers compute with the bus writes that were the
      last accepted when the weights were last loaded, each cut to the width of a weight; a reset does
      not clear them. Until the first load they keep what they held after the first reset. */
  lemma {:induction false} LayersHoldLastLoad(p: Params, s: Regs, held: seq<nat>, ins: seq<Inputs>, j: nat)
    requires Sized(p, s) && |held| == p.n && Booted(ins) && j < p.n
    ensures var k := LastLoad(p, s, ins);
      Latched(p, s, held, ins)[j] ==
        if k == 0 then Latched(p, s, held, ins[..2])[j] else Truncate(Written(p, s, ins[..k], j), p.widthW)
    decreases |ins|
  {
    if |ins| == 2 {
      assert ins[..2] == ins;
    } else {
      var before := ins[..|ins| - 1];
      OnlyLoadsMove(p, s, held, ins);
      if !ins[|ins| - 1].reset && Run(p, s, before).state == LoadWSt {
        WordsAreLastWrites(p, s, before, j);
      } else {
        LayersHoldLastLoad(p, s, held, before, j);
        assert before[..2] == ins[..2] && before[..LastLoad(p, s, before)] == ins[..LastLoad(p, s, before)];
      }
    }
  }

  // ---- The module ----

  class Core {
    const manager: Device
    const first: Network
    const second: Network
    ghost const start: Regs
    ghost const held: seq<nat>
    ghost var ins: seq<Inputs>

    /** The manager and the latches are what the run so far has made of them. */
    ghost predicate Valid()
      reads this, manager, manager.buf, manager.wOut, manager.iOut, first, second
    {
      && first != second && manager.Valid() && first.Valid() && second.Valid()
      && Sized(manager.p, start) && |held| == manager.p.n
      && |first.w| + |second.w| == manager.p.n && first.shape.n == manager.p.li
      && manager.Value() == Run(manager.p, start, ins)
      && first.w + second.w == Latched(manager.p, start, held, ins)
    }

    /** Power-up: the latches may be open. */
    constructor (manager: Device, first: Network, second: Network)
      requires first != second && manager.Valid() && first.Valid() && second.Valid()
      requires |first.w| + |second.w| == manager.p.n && first.shape.n == manager.p.li
      modifies first`w, second`w
      ensures Valid() && ins == [] && this.manager == manager && this.first == first && this.second == second
    {
      this.manager, this.first, this.second := manager, first, second;
      start, held, ins := manager.Value(), first.w + second.w, [];
      new;
      Latches();
    }

    /** Opens or closes the latches. */
    method Latches()
      requires first != second && manager.Valid() && first.Valid() && second.Valid()
      requires |first.w| + |second.w| == manager.p.n
      modifies first`w, second`w
      ensures first.Valid() && second.Valid() && |first.w| == old(|first.w|) && |second.w| == old(|second.w|)
      ensures first.w + second.w == if manager.wr then manager.wOut[..] else old(first.w + second.w)
    {
      var split := first.outputs * first.shape.n;
      var weights := manager.wOut[..];
      assert split == |first.w|;
      first.Latch(manager.wr, weights[..split]);
      second.Latch(manager.wr, weights[split..]);
    }

    /** A clock edge: the layers register the products of the weights and inputs they see, the manager
        takes a step, and the latches follow. `mid` are the outputs of the first layer's neurons. */
    method Clock(i: Inputs, mid: seq<nat>)
      requires Valid() && |mid| == second.shape.n
      modifies this, manager, manager.buf, manager.wOut, manager.iOut, first, second
      ensures Valid() && ins == old(ins) + [i]
      ensures forall k: nat | k < first.outputs :: first.RowHolds(old(first.w), first.regs, old(manager.iOut[..]), k)
      ensures forall k: nat | k < second.outputs :: second.RowHolds(old(second.w), second.regs, mid, k)
    {
      Layers(mid);
      Follow(i);
    }

    /** The layers at a clock edge. */
    method Layers(mid: seq<nat>)
      requires Valid() && |mid| == second.shape.n
      modifies first`regs, second`regs
      ensures Valid()
      ensures forall k: nat | k < first.outputs :: first.RowHolds(first.w, first.regs, manager.iOut[..], k)
      ensures forall k: nat | k < second.outputs :: second.RowHolds(second.w, second.regs, mid, k)
    {
      ghost var x := manager.iOut[..];
      first.Clock(manager.iOut[..]);
      assert forall k: nat | k < first.outputs :: first.Registered(k, x) ==> first.RowHolds(first.w, first.regs, x, k);
      second.Clock(mid);
      assert forall k: nat | k < second.outputs :: second.Registered(k, mid) ==> second.RowHolds(second.w, second.regs, mid, k);
    }

    /** The manager and the latches at a clock edge. */
    method Follow(i: Inputs)
      requires Valid()
      modifies this, manager, manager.buf, manager.wOut, manager.iOut, first`w, second`w
      ensures Valid() && ins == old(ins) + [i]
    {
      manager.Clock(i);
      Latches();
      Advance(i);
    }

    /** Records the step. */
    ghost method Advance(i: Inputs)
      requires first != second && manager.Valid() && first.Valid() && second.Valid()
      requires Sized(manager.p, start) && |held| == manager.p.n
      requires |first.w| + |second.w| == manager.p.n && first.shape.n == manager.p.li
      requires manager.Value() == Step(manager.p, Run(manager.p, start, ins), i)
      requires first.w + second.w == if manager.wr then manager.wOut[..] else Latched(manager.p, start, held, ins)
      modifies this`ins
      ensures Valid() && ins == old(ins) + [i]
    {
      RunSnoc(manager.p, start, ins, i);
      assert (ins + [i])[..|ins + [i]| - 1] == ins;
      LatchedUnfold(manager.p, start, held, ins + [i]);
      ins := ins + [i];
    }

    /** The inputs that the first layer in place sees at a clock edge are the last inputs loaded. */
    lemma InputsAreLastLoad(j: nat)
      requires Valid() && Booted(ins) && j < manager.p.li
      ensures var k := LastInputs(manager.p, start, ins);
        manager.iOut[j] ==
          if k == 0 then 0 else Truncate(Written(manager.p, start, ins[..k], manager.p.n + 1 + j), manager.p.widthI)
    {
      ManagerBus.InputsAreLastLoad(manager.p, start, ins, j);
      assert manager.iOut[j] == manager.iOut[..][j];
    }

    /** So each layer in place computes with the last weights loaded. */
    lemma WeightsAreLastLoad(j: nat)
      requires Valid() && Booted(ins) && j < manager.p.n
      requires LastLoad(manager.p, start, ins) > 0
      ensures (if j < |first.w| then first.w[j] else second.w[j - |first.w|])
        == Truncate(Written(manager.p, start, ins[..LastLoad(manager.p, start, ins)], j), manager.p.widthW)
    {
      LayersHoldLastLoad(manager.p, start, held, ins, j);
      assert (first.w + second.w)[j] == if j < |first.w| then first.w[j] else second.w[j - |first.w|];
    }
  }
}
