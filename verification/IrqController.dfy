/** The interrupt registers in place: the routines of the foreground and of handlers, and the dispatch of
    alt_irq_handler(). The ghost `sys` is the state of the runs of nested handlers and `trace` the events
    so far, so what holds of every run holds of the object. */
module IrqController {
  import opened Irq
  import opened IrqRuns

  class Controller {
    var active: Word
    var mask: Word
    var ienable: Word
    var pie: bool
    ghost var sys: System
    ghost var trace: seq<Event>

    function Value(): Regs
      reads this
    {
      Regs(active, mask, ienable, pie)
    }

    /** The same handlers are running as in `was`, and each is in its bracket or not as it was. */
    ghost predicate SameHandlers(was: System)
      reads this
    {
      && (sys.frames == [] <==> was.frames == [])
      && (sys.frames != [] ==>
            && Rest(sys) == Rest(was) && Top(sys).id == Top(was).id
            && (Top(sys).bracket.Open? <==> Top(was).bracket.Open?)
            && (Top(sys).bracket.Open? ==> Top(sys).bracket.saved == Top(was).bracket.saved))
    }

    ghost predicate Valid()
      reads this
    {
      Value() == sys.regs && sys == Run(START, trace)
    }

    constructor ()
      ensures Valid() && trace == []
    {
      active, mask, ienable, pie := {}, ALL, {}, true;
      sys, trace := START, [];
    }

    /** Records that the stores just made were those of event `e`. */
    ghost method Did(e: Event)
      requires sys == Run(START, trace) && Enabled(sys, e) && Value() == Step(sys, e).regs
      modifies this`sys, this`trace
      ensures Valid() && sys == Step(old(sys), e) && trace == old(trace) + [e]
    {
      assert (trace + [e])[..|trace + [e]| - 1] == trace;
      sys := Step(sys, e);
      trace := trace + [e];
    }

    /** alt_irq_disable_all(), in the foreground or in a handler: no interrupt can be taken, whatever lines
        are high. Where it returns true, it is in a place where interrupts could be taken. */
    method DisableAll() returns (context: bool)
      requires Valid()
      modifies this`pie, this`sys, this`trace
      ensures Valid() && trace == old(trace) + [SetPie(false)] && SameHandlers(old(sys))
      ensures context && sys.frames != [] ==> Top(sys).bracket.Open?
      ensures forall lines: Word :: !Enabled(sys, Take(lines))
      ensures context == old(pie)
    {
      RunKeepsInv(trace);
      context := pie;
      pie := false;
      Did(SetPie(false));
    }

    /** alt_irq_enable_all(), with what alt_irq_disable_all() returned: interrupts can be taken again exactly
        if they could be before. */
    method EnableAll(context: bool)
      requires Valid() && (context && sys.frames != [] ==> Top(sys).bracket.Open?)
      modifies this`pie, this`sys, this`trace
      ensures Valid() && trace == old(trace) + [SetPie(context)] && SameHandlers(old(sys))
      ensures forall lines: Word :: Enabled(sys, Take(lines)) <==> context && lines * ienable != {}
    {
      pie := context;
      Did(SetPie(context));
    }

    /** alt_irq_enable(), in the foreground: the source can interrupt as soon as PIE is as it was. */
    method Enable(id: Id)
      requires Valid() && sys.frames == []
      modifies this
      ensures Valid() && trace == old(trace) + [Event.Enable(id)] && sys.frames == []
      ensures pie == old(pie) && active == old(active) + {id}
      ensures Enabled(sys, Take({id})) <==> pie
    {
      var status := pie;
      pie := false;
      active := active + {id};
      ienable := active;
      pie := status;
      Did(Event.Enable(id));
      assert id in {id} * ienable;
    }

    /** alt_irq_disable(), in the foreground: the source cannot interrupt. */
    method Disable(id: Id)
      requires Valid() && sys.frames == []
      modifies this
      ensures Valid() && trace == old(trace) + [Event.Disable(id)] && sys.frames == []
      ensures pie == old(pie) && active == old(active) - {id}
      ensures !Enabled(sys, Take({id}))
    {
      var status := pie;
      pie := false;
      active := active - {id};
      ienable := active;
      pie := status;
      Did(Event.Disable(id));
    }

    /** alt_irq_interruptible(), in a handler outside its bracket: from now on it can be interrupted, and
        only by active sources of a higher priority. */
    method Interruptible(priority: Id) returns (oldPriority: Word)
      requires Valid() && sys.frames != [] && Top(sys) == Frame(priority, Closed)
      modifies this
      ensures Valid() && trace == old(trace) + [Unmask]
      ensures sys.frames == Rest(old(sys)) + [Frame(priority, Open(oldPriority, false))] && oldPriority == old(mask)
      ensures forall lines: Word :: Enabled(sys, Take(lines)) <==> lines * active * Below(priority) != {}
    {
      oldPriority := mask;
      mask := Below(priority);
      ienable := active * mask;
      pie := true;
      Did(Unmask);
      assert forall lines: Word :: lines * ienable == lines * active * Below(priority);
    }

    /** alt_irq_non_interruptible(), with the mask the bracket was opened with: the handler cannot be
        interrupted, and the mask is again that of the handlers below it. */
    method NonInterruptible(oldMask: Word)
      requires Valid() && sys.frames != [] && Top(sys).bracket.Open? && Top(sys).bracket.saved == oldMask
      modifies this
      ensures Valid() && trace == old(trace) + [Remask]
      ensures sys.frames == Rest(old(sys)) + [Frame(Top(old(sys)).id, Closed)]
      ensures mask == MaskOf(Rest(old(sys))) && ienable == active * mask
      ensures forall lines: Word :: !Enabled(sys, Take(lines))
    {
      RunKeepsInv(trace);
      pie := false;
      mask := oldMask;
      ienable := oldMask * active;
      Did(Remask);
    }

    /** An interrupt is taken: the processor clears PIE and alt_irq_handler() dispatches its first handler,
        which is of a higher priority than the one interrupted, if any. */
    method Enter(lines: Word) returns (i: Id)
      requires Valid() && pie && lines * ienable != {}
      modifies this`pie, this`sys, this`trace
      ensures Valid() && trace == old(trace) + [Take(lines)]
      ensures i == Lowest(lines * old(ienable)) && sys.frames == old(sys.frames) + [Frame(i, Closed)]
      ensures old(sys.frames) != [] ==> i < Top(old(sys)).id
    {
      pie := false;
      i := FirstSet(lines * ienable);
      RunKeepsInv(trace);
      PendingIsBelow(sys, sys.frames, lines);
      Did(Take(lines));
    }

    /** A handler has returned: alt_irq_handler() polls, and dispatches the next handler or returns, with
        PIE as it was when the interrupt was taken. */
    method Leave(lines: Word) returns (again: bool, i: Id)
      requires Valid() && sys.frames != [] && Top(sys).bracket == Closed
      modifies this`pie, this`sys, this`trace
      ensures Valid() && trace == old(trace) + [Finish(lines)]
      ensures again <==> lines * ienable != {}
      ensures again ==> i == Lowest(lines * ienable) && sys.frames == Rest(old(sys)) + [Frame(i, Closed)]
      ensures !again ==> pie && sys.frames == Rest(old(sys))
    {
      var pending := lines * ienable;
      again, i := pending != {}, 0;
      if again {
        i := FirstSet(pending);
      } else {
        pie := true;
      }
      Did(Finish(lines));
    }

    /** What holds of the registers at all times. */
    lemma RegistersAgree()
      requires Valid()
      ensures ienable == active * mask && mask == MaskOf(sys.frames) && |sys.frames| <= 32
      ensures sys.frames != [] ==> (pie <==> CanBeInterrupted(Top(sys)))
    {
      RunKeepsInv(trace);
      NestingIsStrict(trace);
    }
  }
}
