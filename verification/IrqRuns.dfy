/** Nested interrupt handlers over whole runs. Handlers may bracket part of their work with
    alt_irq_interruptible() and alt_irq_non_interruptible(), and like the foreground have critical
    sections between alt_irq_disable_all() and alt_irq_enable_all(). They do not enable or disable
    interrupt sources themselves; the foreground may. */
module IrqRuns {
  import opened Irq

  /** Whether a handler is inside its bracket: then the mask to restore, and whether it holds off
      interrupts all the same, in a critical section. */
  datatype Bracket = Closed | Open(saved: Word, held: bool)

  datatype Frame = Frame(id: Id, bracket: Bracket)

  /** The handlers that are running, innermost last. */
  datatype System = System(regs: Regs, frames: seq<Frame>)

  /** `lines` are the interrupt lines that are high when IPENDING is read. */
  datatype Event =
    | Take(lines: Word)
    | Unmask
    | Remask
    | Finish(lines: Word)
    | Enable(id: Id)
    | Disable(id: Id)
    | SetPie(pie: bool)

  function Top(s: System): Frame
    requires s.frames != []
  {
    s.frames[|s.frames| - 1]
  }

  function Rest(s: System): seq<Frame>
    requires s.frames != []
  {
    s.frames[..|s.frames| - 1]
  }

  /** IPENDING. */
  function Pending(s: System, lines: Word): Word {
    lines * s.regs.ienable
  }

  predicate Enabled(s: System, e: Event) {
    match e
    case Take(lines) => s.regs.pie && Pending(s, lines) != {}
    case Unmask => s.frames != [] && Top(s).bracket.Closed?
    case Remask => s.frames != [] && Top(s).bracket.Open?
    case Finish(lines) => s.frames != [] && Top(s).bracket.Closed?
    case Enable(_) => s.frames == []
    case Disable(_) => s.frames == []
    case SetPie(pie) => s.frames == [] || !pie || Top(s).bracket.Open?
  }

  /** An interrupt is taken with PIE clear and dispatches the lowest pending bit; a handler that returns
      lets alt_irq_handler() poll again, and dispatch the next one or return with PIE as it was. */
  function Step(s: System, e: Event): System
    requires Enabled(s, e)
  {
    match e
    case Take(lines) =>
      System(s.regs.(pie := false), s.frames + [Frame(Lowest(Pending(s, lines)), Closed)])
    case Unmask =>
      System(InterruptibleOf(s.regs, Top(s).id), Rest(s) + [Frame(Top(s).id, Open(s.regs.mask, false))])
    case Remask =>
      System(NonInterruptibleOf(s.regs, Top(s).bracket.saved), Rest(s) + [Frame(Top(s).id, Closed)])
    case Finish(lines) =>
      if Pending(s, lines) != {} then s.(frames := Rest(s) + [Frame(Lowest(Pending(s, lines)), Closed)])
      else System(s.regs.(pie := true), Rest(s))
    case Enable(id) => s.(regs := EnableOf(s.regs, id))
    case Disable(id) => s.(regs := DisableOf(s.regs, id))
    case SetPie(pie) => System(s.regs.(pie := pie), if s.frames == [] then [] else Rest(s) + [Held(Top(s), !pie)])
  }

  /** A handler that begins or ends a critical section; outside its bracket that makes no difference. */
  function Held(f: Frame, held: bool): Frame {
    if f.bracket.Open? then f.(bracket := f.bracket.(held := held)) else f
  }

  function Next(s: System, e: Event): System {
    if Enabled(s, e) then Step(s, e) else s
  }

  function Run(s: System, es: seq<Event>): System
    decreases |es|
  {
    if es == [] then s else Next(Run(s, es[..|es| - 1]), es[|es| - 1])
  }

  const START := System(BOOT, [])

  /** The mask a stack of handlers calls for: that of its innermost open bracket. */
  function MaskOf(frames: seq<Frame>): Word {
    if frames == [] then ALL
    else if frames[|frames| - 1].bracket.Open? then Below(frames[|frames| - 1].id)
    else MaskOf(frames[..|frames| - 1])
  }

  /** Every handler below the innermost is inside its bracket and in no critical section, each bracket
      remembers the mask in force when it was opened, and each handler is of a higher priority than the
      one it interrupted. */
  predicate WellNested(frames: seq<Frame>) {
    frames == [] ||
    var n := |frames| - 1;
    && WellNested(frames[..n])
    && (n > 0 ==> CanBeInterrupted(frames[n - 1]) && frames[n].id < frames[n - 1].id)
    && (frames[n].bracket.Open? ==> frames[n].bracket.saved == MaskOf(frames[..n]))
  }

  /** A handler inside its bracket and in no critical section. */
  predicate CanBeInterrupted(f: Frame) {
    f.bracket.Open? && !f.bracket.held
  }

  predicate Inv(s: System) {
    && s.regs.ienable == s.regs.active * s.regs.mask
    && s.regs.mask == MaskOf(s.frames)
    && WellNested(s.frames)
    && (s.frames != [] ==> (s.regs.pie <==> CanBeInterrupted(Top(s))))
  }

  lemma PushKeeps(frames: seq<Frame>, f: Frame)
    requires WellNested(frames)
    requires frames != [] ==> CanBeInterrupted(frames[|frames| - 1]) && f.id < frames[|frames| - 1].id
    requires f.bracket.Open? ==> f.bracket.saved == MaskOf(frames)
    ensures WellNested(frames + [f])
    ensures MaskOf(frames + [f]) == if f.bracket.Open? then Below(f.id) else MaskOf(frames)
  {
    assert (frames + [f])[..|frames|] == frames;
  }

  /** A pending interrupt is of a higher priority than the handler it would interrupt. */
  lemma PendingIsBelow(s: System, below: seq<Frame>, lines: Word)
    requires s.regs.ienable == s.regs.active * MaskOf(below) && Pending(s, lines) != {}
    ensures below != [] && below[|below| - 1].bracket.Open? ==> Lowest(Pending(s, lines)) < below[|below| - 1].id
  {
    assert Lowest(Pending(s, lines)) in MaskOf(below);
  }

  /** A stack with a new top, under registers that fit it. */
  lemma TopKeepsInv(below: seq<Frame>, f: Frame, regs: Regs)
    requires WellNested(below)
    requires below != [] ==> CanBeInterrupted(below[|below| - 1]) && f.id < below[|below| - 1].id
    requires f.bracket.Open? ==> f.bracket.saved == MaskOf(below)
    requires regs.ienable == regs.active * regs.mask
    requires regs.mask == if f.bracket.Open? then Below(f.id) else MaskOf(below)
    requires regs.pie <==> CanBeInterrupted(f)
    ensures Inv(System(regs, below + [f]))
  {
    PushKeeps(below, f);
  }

  lemma FinishKeepsInv(s: System, lines: Word)
    requires Inv(s) && Enabled(s, Finish(lines))
    ensures Inv(Step(s, Finish(lines)))
  {
    if Pending(s, lines) != {} {
      PendingIsBelow(s, Rest(s), lines);
      TopKeepsInv(Rest(s), Frame(Lowest(Pending(s, lines)), Closed), s.regs);
    }
  }

  lemma StepKeepsInv(s: System, e: Event)
    requires Inv(s) && Enabled(s, e)
    ensures Inv(Step(s, e))
  {
    match e
    case Take(lines) =>
      PendingIsBelow(s, s.frames, lines);
      TopKeepsInv(s.frames, Frame(Lowest(Pending(s, lines)), Closed), s.regs.(pie := false));
    case Unmask =>
      TopKeepsInv(Rest(s), Frame(Top(s).id, Open(s.regs.mask, false)), InterruptibleOf(s.regs, Top(s).id));
    case Remask =>
      TopKeepsInv(Rest(s), Frame(Top(s).id, Closed), NonInterruptibleOf(s.regs, Top(s).bracket.saved));
    case Finish(lines) => FinishKeepsInv(s, lines);
    case SetPie(pie) =>
      if s.frames != [] {
        TopKeepsInv(Rest(s), Held(Top(s), !pie), s.regs.(pie := pie));
      }
    case _ =>
  }

  lemma {:induction false} RunKeepsInvFrom(s: System, es: seq<Event>)
    requires Inv(s)
    ensures Inv(Run(s, es))
    decreases |es|
  {
    if es != [] {
      RunKeepsInvFrom(s, es[..|es| - 1]);
      var t := Run(s, es[..|es| - 1]);
      if Enabled(t, es[|es| - 1]) {
        StepKeepsInv(t, es[|es| - 1]);
      }
    }
  }

  /** After every run IENABLE is alt_irq_active & alt_priority_mask, the mask is that of the innermost
      open bracket, and PIE is set in a handler exactly inside its bracket and outside its critical
      sections. */
  lemma {:induction false} RunKeepsInv(es: seq<Event>)
    ensures Inv(Run(START, es))
  {
    RunKeepsInvFrom(START, es);
  }

  lemma {:induction false} StackDecreases(frames: seq<Frame>, i: nat, j: nat)
    requires WellNested(frames) && i < j < |frames|
    ensures frames[j].id < frames[i].id
    decreases |frames|
  {
    var n := |frames| - 1;
    if j < n {
      StackDecreases(frames[..n], i, j);
    } else if i < n - 1 {
      StackDecreases(frames[..n], i, n - 1);
    }
  }

  lemma {:induction false} StackIsShallow(frames: seq<Frame>)
    requires WellNested(frames) && frames != []
    ensures |frames| + frames[|frames| - 1].id <= 32
    decreases |frames|
  {
    if |frames| > 1 {
      StackIsShallow(frames[..|frames| - 1]);
    }
  }

  /** In every run the running handlers have strictly falling interrupt numbers, so no handler is ever
      entered again while it runs, and at most 32 are nested. */
  lemma NestingIsStrict(es: seq<Event>)
    ensures var frames := Run(START, es).frames;
      |frames| <= 32 && forall i, j :: 0 <= i < j < |frames| ==> frames[j].id < frames[i].id
  {
    RunKeepsInv(es);
    var frames := Run(START, es).frames;
    if frames != [] {
      StackIsShallow(frames);
    }
    forall i, j | 0 <= i < j < |frames|
      ensures frames[j].id < frames[i].id
    {
      StackDecreases(frames, i, j);
    }
  }

  lemma SameRestSameMask(s: System, u: System)
    requires Inv(s) && s.frames != [] && Top(s).bracket.Closed?
    requires Inv(u) && u.frames != [] && Top(u).bracket.Closed?
    requires Rest(u) == Rest(s)
    ensures u.regs.mask == s.regs.mask && u.regs.ienable == u.regs.active * s.regs.mask && !u.regs.pie
  {
  }

  lemma RestAfterRemask(t: System)
    requires t.frames != [] && Top(t).bracket.Open?
    ensures var u := Step(t, Remask); u.frames != [] && Top(u).bracket.Closed? && Rest(u) == Rest(t)
  {
  }

  /** A bracket restores the mask it found: whatever happens after a state in which a handler has not
      opened its bracket, when it closes one with the same handlers below it, the mask is as it was,
      IENABLE fits it, and PIE is clear. */
  lemma BracketRestores(s: System, more: seq<Event>)
    requires Inv(s) && s.frames != [] && Top(s).bracket.Closed?
    requires Run(s, more).frames != [] && Top(Run(s, more)).bracket.Open? && Rest(Run(s, more)) == Rest(s)
    ensures var u := Step(Run(s, more), Remask);
      u.regs.mask == s.regs.mask && u.regs.ienable == u.regs.active * s.regs.mask && !u.regs.pie
  {
    RunKeepsInvFrom(s, more);
    var t := Run(s, more);
    StepKeepsInv(t, Remask);
    RestAfterRemask(t);
    SameRestSameMask(s, Step(t, Remask));
  }

  /** When the last handler returns, the foreground finds the mask full and every active source
      enabled. */
  lemma ForegroundIsUnmasked(es: seq<Event>)
    requires Run(START, es).frames == []
    ensures Run(START, es).regs.mask == ALL && Run(START, es).regs.ienable == Run(START, es).regs.active
  {
    RunKeepsInv(es);
  }

  /** A critical section of the foreground: from the clearing of PIE until it is set again no handler
      runs, whatever lines go high, and IENABLE moves only as the foreground enables and disables. */
  lemma {:induction false} CriticalSectionIsQuiet(s: System, es: seq<Event>)
    requires Inv(s) && s.frames == [] && !s.regs.pie
    requires SetPie(true) !in es
    ensures var t := Run(s, es);
      t.frames == [] && !t.regs.pie && t.regs.mask == s.regs.mask == ALL
      && t.regs.ienable == t.regs.active == Kept(s.regs.active, es)
    decreases |es|
  {
    if es != [] {
      var n := |es| - 1;
      CriticalSectionIsQuiet(s, es[..n]);
      assert es[n] in es;
    }
  }

  /** And one of a handler: until it sets PIE, opens or closes its bracket or returns, no other handler
      runs, whatever lines go high, and no register changes. */
  lemma {:induction false} HandlerSectionIsQuiet(s: System, es: seq<Event>)
    requires s.frames != [] && !s.regs.pie
    requires forall e :: e in es ==> e.Take? || e == SetPie(false) || e.Enable? || e.Disable?
    ensures var t := Run(s, es);
      t.frames != [] && Rest(t) == Rest(s) && Top(t).id == Top(s).id && t.regs == s.regs
    decreases |es|
  {
    if es != [] {
      var n := |es| - 1;
      assert forall e :: e in es[..n] ==> e in es;
      HandlerSectionIsQuiet(s, es[..n]);
      assert es[n] in es;
    }
  }

  /** The sources that are active after the enabling and disabling in a list of events. */
  function Kept(active: Word, es: seq<Event>): Word
    decreases |es|
  {
    if es == [] then active
    else
      var before := Kept(active, es[..|es| - 1]);
      match es[|es| - 1]
      case Enable(id) => before + {id}
      case Disable(id) => before - {id}
      case _ => before
  }

  /** A handler that enabled a source itself would keep IENABLE in step with the mask exactly if no
      active source is masked: alt_irq_enable() does not apply the mask. */
  lemma EnableInHandlerIff(r: Regs, id: Id)
    ensures EnableOf(r, id).ienable == EnableOf(r, id).active * r.mask <==> r.active + {id} <= r.mask
  {
  }
}
