/** Interrupt masks and nested handlers on the internal interrupt controller. A 32-bit mask is the set
    of its bits; bit 0 is the highest priority. */
module Irq {

  type Id = i: nat | i < 32

  type Word = set<Id>

  /** alt_irq_active, alt_priority_mask, the IENABLE register and the PIE bit. */
  datatype Regs = Regs(active: Word, mask: Word, ienable: Word, pie: bool)

  const ALL: Word := set i: Id | i < 32

  /** (1 << priority) - 1. */
  function Below(priority: Id): Word {
    set i: Id | i in ALL && i < priority
  }

  /** The registers after start-up. */
  const BOOT := Regs({}, ALL, {}, true)

  // ---- The operations ----

  function EnableOf(r: Regs, id: Id): Regs {
    r.(active := r.active + {id}, ienable := r.active + {id})
  }

  function DisableOf(r: Regs, id: Id): Regs {
    r.(active := r.active - {id}, ienable := r.active - {id})
  }

  function InterruptibleOf(r: Regs, priority: Id): Regs {
    r.(mask := Below(priority), ienable := r.active * Below(priority), pie := true)
  }

  function NonInterruptibleOf(r: Regs, mask: Word): Regs {
    r.(pie := false, mask := mask, ienable := mask * r.active)
  }

  // ---- Dispatch ----

  predicate IsLowest(i: Id, pending: Word) {
    i in pending && forall j :: j in pending ==> i <= j
  }

  /** The inner loop of alt_irq_handler(): the first set bit. It only ends if there is one. */
  method FirstSet(active: Word) returns (i: Id)
    requires active != {}
    ensures i == Lowest(active)
  {
    ghost var some :| some in active;
    var k := 0;
    while k !in active
      invariant k <= some && forall j :: j in active ==> k <= j
      decreases some - k
    {
      k := k + 1;
    }
    i := k;
  }

  /** How far alt_irq_handler() has come: it has returned, it is still polling, or its inner loop searches
      for ever for a bit in a word that has none. */
  datatype Outcome = Returned | Polling | Searching

  /** The number of the first empty word, or how many words there are. */
  function FirstEmpty(polls: seq<Word>): (z: nat)
    ensures z <= |polls| && (z < |polls| ==> polls[z] == {})
    ensures forall k :: 0 <= k < z ==> polls[k] != {}
  {
    if polls == [] || polls[0] == {} then 0 else 1 + FirstEmpty(polls[1..])
  }

  /** The outer loop: `polls` are the pending words it reads, in turn. It calls one handler for each up to
      the first empty one, that of the lowest bit, and then returns; the first word is not tested, so if
      that is empty it calls none and does not return. */
  method Dispatch(polls: seq<Word>) returns (served: seq<Id>, outcome: Outcome)
    requires polls != []
    ensures |served| == FirstEmpty(polls)
    ensures forall k :: 0 <= k < |served| ==> served[k] == Lowest(polls[k])
    ensures outcome ==
      if FirstEmpty(polls) == 0 then Searching else if FirstEmpty(polls) < |polls| then Returned else Polling
  {
    served := [];
    if polls[0] == {} {
      return served, Searching;
    }
    var active, n := polls[0], 1;
    while true
      invariant 1 <= n <= |polls| && active == polls[n - 1] != {} && |served| == n - 1 < FirstEmpty(polls)
      invariant forall k :: 0 <= k < n ==> polls[k] != {}
      invariant forall k :: 0 <= k < |served| ==> served[k] == Lowest(polls[k])
      decreases |polls| - n
    {
      var i := FirstSet(active);
      served := served + [i];
      if n == |polls| {
        return served, Polling;
      }
      active := polls[n];
      n := n + 1;
      if active == {} {
        return served, Returned;
      }
    }
  }

  /** The lowest bit, as a function. */
  function Lowest(pending: Word): (i: Id)
    requires pending != {}
    ensures IsLowest(i, pending)
  {
    LowestFrom(pending, 0)
  }

  function LowestFrom(pending: Word, k: nat): (i: Id)
    requires pending != {} && forall j :: j in pending ==> k <= j
    ensures IsLowest(i, pending)
    decreases 32 - k
  {
    assert k < 32 by {
      var some :| some in pending;
    }
    if k in pending then k else LowestFrom(pending, k + 1)
  }
}
