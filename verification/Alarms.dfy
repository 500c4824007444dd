/** The alarm list on the heap: a circular doubly linked list that alt_tick() walks while callbacks
    add and remove alarms. */
module Alarms {
  import opened AlarmTiming
  import opened Common

  /** The fields of an alarm that decide when it goes off, at one moment. */
  datatype Snapshot = Snapshot(timer: Timer, due: nat, timed: bool) {
    /** Set for a tick after `now`, if it keeps a schedule. */
    ghost predicate OnTime(now: nat) {
      timed ==> Pending(timer, due, now)
    }

    /** The tests of a tick that reads the counter as `n` pass. */
    predicate Expires(n: Word) {
      Expired(AtTick(timer, n), n)
    }
  }

  /** What one turn of the loop at tick `now` leaves of an alarm that was `was` before the tick. */
  ghost predicate SettledAs(left: Snapshot, was: Snapshot, answer: Answer, now: nat) {
    var fired := was.Expires(now % WRAP);
    && left.timed == was.timed
    && (was.timed ==> (fired <==> was.due == now))
    && left.due == was.due + (if fired && !Ends(answer) then answer.period else 0)
    && (!(fired && Ends(answer)) ==> left.OnTime(now))
  }

  /** An alarm; the list head is one too, of which only the links are used. */
  class Alarm {
    var next: Alarm
    var previous: Alarm
    var time: Word
    var rollover: bool

    // The unbounded tick it is set for, if it was started in time to keep it.
    ghost var due: nat
    ghost var timed: bool

    constructor ()
      ensures next == this && previous == this && !timed
    {
      next, previous := this, this;
      time, rollover := 0, false;
      due, timed := 0, false;
    }

    function Timer(): Timer
      reads this`time, this`rollover
    {
      AlarmTiming.Timer(time, rollover)
    }

    ghost function Snap(): Snapshot
      reads this`time, this`rollover, this`due, this`timed
    {
      Snapshot(Timer(), due, timed)
    }

    ghost predicate OnTime(now: nat)
      reads this`time, this`rollover, this`due, this`timed
    {
      Snap().OnTime(now)
    }
  }

  /** What a callback does: it starts one new alarm for each entry of `starts`, may stop its own
      alarm, and returns the period. */
  datatype Answer = Answer(starts: seq<Word>, stopsSelf: bool, period: Word)

  predicate Ends(a: Answer) {
    a.stopsSelf || a.period == 0
  }

  /** The stores of alt_llist_remove(). An entry that points to itself, as every removed one does,
      is left as it is, so a second removal changes nothing. */
  method Unlink(entry: Alarm)
    modifies entry`next, entry`previous, entry.next`previous, entry.previous`next
    ensures entry.next == entry && entry.previous == entry
    ensures old(entry.next) != entry ==> old(entry.next).previous == old(entry.previous)
    ensures old(entry.previous) != entry ==> old(entry.previous).next == old(entry.next)
    ensures old(entry.next) == entry == old(entry.previous) ==> unchanged(entry)
  {
    entry.next.previous := entry.previous;
    entry.previous.next := entry.next;
    entry.previous := entry;
    entry.next := entry;
  }

  class Clock {
    const head: Alarm
    var nticks: Word
    var tickRate: Word

    // The tick count that never wraps, and the list from the head on, also as a set.
    ghost var now: nat
    ghost var alarms: seq<Alarm>
    ghost var nodes: set<Alarm>

    ghost predicate Members()
      reads this`alarms, this`nodes
    {
      && (forall i :: 0 <= i < |alarms| ==> alarms[i] in nodes)
      && (forall a :: a in nodes ==> a in alarms)
    }

    /** The i-th node of the circle, which starts and ends at the head. */
    ghost function Node(i: nat): Alarm
      requires i <= |alarms| + 1
      reads this`alarms
    {
      if i == 0 || i == |alarms| + 1 then head else alarms[i - 1]
    }

    ghost predicate LinkAt(i: nat)
      requires Members() && i <= |alarms|
      reads this`alarms, this`nodes, head`next, head`previous, nodes`next, nodes`previous
    {
      Node(i).next == Node(i + 1) && Node(i + 1).previous == Node(i)
    }

    /** The links: from the head through `alarms` in order and back to the head. */
    ghost predicate Linked()
      reads this`alarms, this`nodes, head`next, head`previous, nodes`next, nodes`previous
    {
      && Members() && head !in nodes
      && Distinct(alarms)
      && (forall i {:trigger LinkAt(i)} :: 0 <= i <= |alarms| ==> LinkAt(i))
    }

    /** Every alarm of the list that is not in `except` is set for the future. */
    ghost predicate OnTime(except: set<Alarm>)
      reads this`now, this`nodes, nodes`time, nodes`rollover, nodes`due, nodes`timed
    {
      forall a :: a in nodes && a !in except ==> a.OnTime(now)
    }

    ghost predicate Valid()
      reads this, head, nodes
    {
      Linked() && nticks == now % WRAP && OnTime({})
    }

    constructor (tickRate: Word)
      ensures Valid() && alarms == [] && fresh(head) && now == 0
    {
      var h := new Alarm();
      head := h;
      nticks, this.tickRate := 0, tickRate;
      now, alarms, nodes := 0, [], {};
    }

    // ---- The list ----

    /** The node that `n` links lead to from the head. */
    ghost function Follow(n: nat): Alarm
      reads *
    {
      if n == 0 then head else Follow(n - 1).next
    }

    /** A loop that follows the links from the head comes back to it. */
    ghost predicate Returns()
      reads *
    {
      exists n: nat :: n > 0 && Follow(n) == head
    }

    /** The links lead into `trap` and never out of it. */
    ghost predicate Trapped(trap: set<Alarm>)
      reads head, trap
    {
      head.next in trap && head !in trap && forall a :: a in trap ==> a.next in trap
    }

    lemma {:induction false} FollowIsNode(n: nat)
      requires Linked() && n <= |alarms| + 1
      ensures Follow(n) == Node(n)
    {
      if n > 0 {
        FollowIsNode(n - 1);
        assert LinkAt(n - 1);
      }
    }

    lemma LinkedReturns()
      requires Linked()
      ensures Returns()
    {
      FollowIsNode(|alarms| + 1);
    }

    lemma {:induction false} FollowTrapped(trap: set<Alarm>, n: nat)
      requires Trapped(trap) && n > 0
      ensures Follow(n) in trap
    {
      if n > 1 {
        FollowTrapped(trap, n - 1);
      }
    }

    lemma TrappedNeverReturns(trap: set<Alarm>)
      requires Trapped(trap)
      ensures !Returns()
    {
      forall n: nat | n > 0 ensures Follow(n) != head {
        FollowTrapped(trap, n);
      }
    }

    lemma ReturnsIff(trapped: bool, trap: set<Alarm>)
      requires if trapped then Trapped(trap) else Linked()
      ensures Returns() <==> !trapped
    {
      if trapped {
        TrappedNeverReturns(trap);
      } else {
        LinkedReturns();
      }
    }

    /** The nodes up to number `at`. */
    ghost function Front(at: nat): set<Alarm>
      requires at < |alarms|
      reads this`alarms
    {
      set i | 0 <= i <= at :: alarms[i]
    }

    lemma FrontTraps(at: nat)
      requires at < |alarms| && head !in Front(at) && head.next == alarms[at]
      requires alarms[at].next == alarms[0] && forall i :: 0 <= i < at ==> alarms[i].next == alarms[i + 1]
      ensures Trapped(Front(at))
    {
      forall a | a in Front(at) ensures a.next in Front(at) {
        var i :| 0 <= i <= at && alarms[i] == a;
        assert alarms[if i < at then i + 1 else 0] in Front(at);
      }
    }

    /** alt_llist_insert() at the head. An entry that is in the list already closes the links on themselves:
        they lead from it to the nodes that were in front of it and back, and no longer to the head. */
    method Insert(entry: Alarm) returns (ghost trap: set<Alarm>)
      requires Linked() && entry != head
      modifies this`alarms, this`nodes, head`next, head`previous, entry`next, entry`previous, nodes`previous
      ensures head.next == entry && entry.next == old(head.next)
      ensures entry !in old(nodes) ==> Linked() && alarms == [entry] + old(alarms) && nodes == old(nodes) + {entry}
      ensures entry in old(nodes) ==> Trapped(trap) && alarms == old(alarms) && nodes == old(nodes)
    {
      assert LinkAt(0);
      trap := {};
      entry.previous := head;
      entry.next := head.next;
      head.next.previous := entry;
      head.next := entry;
      if entry in nodes {
        ghost var at :| 0 <= at < |alarms| && alarms[at] == entry;
        trap := Front(at);
        forall i | 0 <= i < at ensures alarms[i].next == alarms[i + 1] {
          assert old(LinkAt(i + 1));
        }
        FrontTraps(at);
      } else {
        alarms, nodes := [entry] + alarms, nodes + {entry};
        forall i | 0 <= i <= |alarms| ensures LinkAt(i) {
          if i > 1 {
            assert old(LinkAt(i - 1));
          }
        }
      }
    }

    /** alt_llist_remove() of the alarm with number `at`, or, when `at` is -1, of one that is not in
        the list and points to itself: then nothing changes. */
    method Remove(entry: Alarm, ghost at: int)
      requires Linked() && -1 <= at < |alarms|
      requires if at >= 0 then alarms[at] == entry
               else entry !in nodes && entry != head && entry.next == entry && entry.previous == entry
      modifies this`alarms, this`nodes, head`next, head`previous, nodes`next, nodes`previous, entry`next, entry`previous
      ensures Linked() && entry.next == entry && entry.previous == entry && nodes == old(nodes) - {entry}
      ensures alarms == if at >= 0 then RemoveAt(old(alarms), at) else old(alarms)
    {
      if at >= 0 {
        assert LinkAt(at) && LinkAt(at + 1);
      }
      Unlink(entry);
      forall i | 0 <= i <= |alarms| && (at < 0 || i < at || at + 1 < i) ensures LinkAt(i) {
        assert old(LinkAt(i));
      }
      if at >= 0 {
        Drop(at);
      }
    }

    /** The links pass over the node with number `at`. */
    ghost predicate PassOver(at: nat)
      requires Members() && at < |alarms|
      reads this`alarms, this`nodes, head`next, head`previous, nodes`next, nodes`previous
    {
      && Node(at).next == Node(at + 2) && Node(at + 2).previous == Node(at)
      && (forall i {:trigger LinkAt(i)} :: 0 <= i <= |alarms| && (i < at || at + 1 < i) ==> LinkAt(i))
    }

    ghost method Drop(at: nat)
      requires Members() && head !in nodes && Distinct(alarms) && at < |alarms| && PassOver(at)
      modifies this`alarms, this`nodes
      ensures Linked() && alarms == RemoveAt(old(alarms), at) && nodes == old(nodes) - {old(alarms)[at]}
    {
      RemovedIsSet(alarms, at, nodes);
      alarms, nodes := RemoveAt(alarms, at), nodes - {alarms[at]};
      forall i | 0 <= i <= |alarms| ensures LinkAt(i) {
        if i < at {
          assert old(LinkAt(i));
        } else if i > at {
          assert old(LinkAt(i + 1));
        }
      }
    }

    // ---- Starting ----

    /** The time at which a new alarm goes off first. */
    method SetTime(alarm: Alarm, ticks: Word)
      requires nticks == now % WRAP
      modifies alarm`time, alarm`rollover, alarm`due, alarm`timed
      ensures alarm.due == now + ticks + 1 && (alarm.timed <==> Startable(now, ticks)) && alarm.OnTime(now)
    {
      var current := nticks;
      alarm.time := (ticks + current + 1) % WRAP;
      alarm.rollover := alarm.time < current;
      alarm.due, alarm.timed := now + ticks + 1, Startable(now, ticks);
      if alarm.timed {
        StartIsPending(now, ticks);
      }
    }

    /** alt_alarm_start(). It does not test whether the alarm is running: the list stays a circle through
        its head exactly if it is not. */
    method Start(alarm: Alarm?, ticks: Word) returns (ok: bool)
      requires Linked() && nticks == now % WRAP && alarm != head
      modifies this`alarms, this`nodes, head`next, head`previous, nodes`previous, alarm
      ensures ok <==> tickRate != 0 && alarm != null
      ensures ok ==> head.next == alarm && alarm.next == old(head.next) && (Returns() <==> alarm !in old(nodes))
      ensures ok && alarm in old(nodes) ==> alarms == old(alarms) && nodes == old(nodes)
      ensures !(ok && alarm in old(nodes)) ==>
        && Linked() && (old(Valid()) ==> Valid())
        && alarms == (if ok then [alarm] + old(alarms) else old(alarms))
        && nodes == old(nodes) + if ok then {alarm} else {}
      ensures ok ==>
        && alarm.due == now + ticks + 1
        && (alarm.timed <==> Startable(now, ticks))
        && alarm.OnTime(now)
    {
      if tickRate == 0 || alarm == null {
        return false;
      }
      SetTime(alarm, ticks);
      ghost var running := alarm in nodes;
      ghost var trap := Insert(alarm);
      ReturnsIff(running, trap);
      ok := true;
    }

    /** alt_alarm_stop(). Stopping an alarm that is not running changes nothing. */
    method Stop(alarm: Alarm)
      requires Linked() && alarm != head
      requires alarm !in nodes ==> alarm.next == alarm && alarm.previous == alarm
      modifies this`alarms, this`nodes, head`next, head`previous, nodes`next, nodes`previous, alarm`next, alarm`previous
      ensures Linked() && (old(Valid()) ==> Valid())
      ensures alarm.next == alarm && alarm.previous == alarm && nodes == old(nodes) - {alarm}
      ensures if alarm in old(nodes)
        then exists i :: 0 <= i < |old(alarms)| && old(alarms)[i] == alarm && alarms == RemoveAt(old(alarms), i)
        else alarms == old(alarms)
    {
      ghost var at := -1;
      if alarm in nodes {
        at :| 0 <= at < |alarms| && alarms[at] == alarm;
      }
      Remove(alarm, at);
    }

    /** One new alarm for each entry, the last one started in front, each due one tick after its entry. */
    ghost predicate StartedAs(added: seq<Alarm>, starts: seq<Word>)
      reads this`tickRate, this`now, added`due, added`timed
    {
      tickRate != 0 ==>
        && |added| == |starts|
        && forall k :: 0 <= k < |starts| ==> StartedAt(added[|starts| - 1 - k], starts[k])
    }

    ghost predicate StartedAt(alarm: Alarm, ticks: Word)
      reads this`now, alarm`due, alarm`timed
    {
      alarm.due == now + ticks + 1 && (alarm.timed <==> Startable(now, ticks))
    }

    /** Starts one new alarm. */
    method StartNew(ticks: Word) returns (ghost added: seq<Alarm>)
      requires Linked() && nticks == now % WRAP
      modifies this`alarms, this`nodes, head`next, head`previous, nodes`previous
      ensures Linked() && alarms == added + old(alarms) && |added| == if tickRate != 0 then 1 else 0
      ensures tickRate != 0 ==> StartedAt(added[0], ticks)
      ensures old(nodes) <= nodes && fresh(nodes - old(nodes)) && fresh(added) && OnTime(old(nodes))
    {
      var a := new Alarm();
      var ok := Start(a, ticks);
      added := if ok then [a] else [];
    }

    /** Starts new alarms, one for each entry, each at the front of the list. */
    method StartAll(starts: seq<Word>) returns (ghost added: seq<Alarm>)
      requires Linked() && nticks == now % WRAP
      modifies this`alarms, this`nodes, head`next, head`previous, nodes`previous
      ensures Linked() && alarms == added + old(alarms) && StartedAs(added, starts)
      ensures old(nodes) <= nodes && fresh(nodes - old(nodes)) && fresh(added) && OnTime(old(nodes))
    {
      added := [];
      for k := 0 to |starts|
        invariant Linked() && alarms == added + old(alarms) && StartedAs(added, starts[..k])
        invariant old(nodes) <= nodes && fresh(nodes - old(nodes)) && fresh(added) && OnTime(old(nodes))
      {
        ghost var more := StartNew(starts[k]);
        added := more + added;
      }
      assert starts[..|starts|] == starts;
    }

    // ---- The tick ----

    /** A callback at work on the list: its own alarm, number `at`, leaves the list if it stops
        itself, and the alarms it starts go to the front. */
    method Callback(alarm: Alarm, ghost at: nat, answer: Answer) returns (period: Word, ghost added: seq<Alarm>)
      requires Linked() && nticks == now % WRAP && at < |alarms| && alarms[at] == alarm
      modifies this`alarms, this`nodes, head`next, head`previous, nodes`next, nodes`previous
      ensures Linked() && period == answer.period && StartedAs(added, answer.starts)
      ensures alarms == added + if answer.stopsSelf then RemoveAt(old(alarms), at) else old(alarms)
      ensures old(nodes) - {alarm} <= nodes && fresh(nodes - old(nodes)) && fresh(added) && OnTime(old(nodes))
      ensures answer.stopsSelf ==> alarm.next == alarm && alarm.previous == alarm && alarm !in nodes
    {
      if answer.stopsSelf {
        Remove(alarm, at);
      }
      added := StartAll(answer.starts);
      period := answer.period;
    }

    /** Sets the next time of an alarm that has gone off. */
    method Rearm(alarm: Alarm, period: Word, ghost stopped: bool)
      requires nticks == now % WRAP && period > 0
      requires alarm.timed ==> alarm.Timer() == AlarmTiming.Timer(nticks, false) && alarm.due == now
      modifies alarm`time, alarm`rollover, alarm`due
      ensures alarm.due == old(alarm.due) + if stopped then 0 else period
      ensures !stopped ==> alarm.OnTime(now)
    {
      alarm.time := (alarm.time + period) % WRAP;
      if alarm.time < nticks {
        alarm.rollover := true;
      }
      if !stopped {
        alarm.due := alarm.due + period;
        if alarm.timed {
          RearmIsPending(now, period);
        }
      }
    }

    /** An alarm whose time has come: the callback, then removal or a new time. */
    method Fire(alarm: Alarm, ghost at: nat, answer: Answer) returns (ghost added: seq<Alarm>)
      requires Linked() && nticks == now % WRAP && at < |alarms| && alarms[at] == alarm
      requires alarm.timed ==> alarm.Timer() == AlarmTiming.Timer(nticks, false) && alarm.due == now
      modifies this`alarms, this`nodes, head`next, head`previous, nodes`next, nodes`previous, alarm
      ensures Linked() && StartedAs(added, answer.starts)
      ensures alarms == added + if Ends(answer) then RemoveAt(old(alarms), at) else old(alarms)
      ensures old(nodes) - {alarm} <= nodes && fresh(nodes - old(nodes)) && fresh(added) && OnTime(old(nodes))
      ensures Ends(answer) ==> alarm.next == alarm && alarm.previous == alarm && alarm !in nodes
      ensures alarm.timed == old(alarm.timed) && alarm.due == old(alarm.due) + if Ends(answer) then 0 else answer.period
      ensures !Ends(answer) ==> alarm.OnTime(now)
    {
      var period;
      period, added := Callback(alarm, at, answer);
      if period == 0 {
        if !answer.stopsSelf {
          RemoveAfter(added, old(alarms), at);
        }
        Remove(alarm, if answer.stopsSelf then -1 else |added| + at);
      } else {
        Rearm(alarm, period, answer.stopsSelf);
      }
    }

    /** The tests of alt_tick() on one alarm: the rollover flag is cleared when the counter has wrapped,
        and the time compared. */
    method Poll(alarm: Alarm) returns (fired: bool)
      requires nticks == now % WRAP && now > 0 && alarm.OnTime(now - 1)
      modifies alarm`rollover
      ensures alarm.Timer() == AtTick(old(alarm.Timer()), nticks) && fired == Expired(alarm.Timer(), nticks)
      ensures alarm.timed ==> (fired <==> alarm.due == now)
      ensures fired && alarm.timed ==> alarm.Timer() == AlarmTiming.Timer(nticks, false)
      ensures !fired ==> alarm.OnTime(now)
    {
      if alarm.timed {
        TickIsExact(alarm.Timer(), alarm.due, now - 1);
      }
      if alarm.rollover && nticks == 0 {
        alarm.rollover := false;
      }
      fired := alarm.time <= nticks && !alarm.rollover;
    }

    lemma StillIn(added: seq<Alarm>, l: seq<Alarm>, at: nat)
      requires Members() && at < |l| && alarms == added + l
      ensures l[at] in nodes
    {
      assert alarms[|added| + at] == l[at];
    }

    /** One turn of the loop of alt_tick(), at the alarm with number `at`. */
    method Visit(alarm: Alarm, ghost at: nat, answer: Answer) returns (fired: bool, ghost added: seq<Alarm>)
      requires Linked() && nticks == now % WRAP && now > 0 && at < |alarms| && alarms[at] == alarm
      requires alarm.OnTime(now - 1)
      modifies this`alarms, this`nodes, head`next, head`previous, nodes`next, nodes`previous, alarm
      ensures Linked() && StartedAs(added, if fired then answer.starts else [])
      ensures alarms == added + if fired && Ends(answer) then RemoveAt(old(alarms), at) else old(alarms)
      ensures old(nodes) - {alarm} <= nodes && fresh(nodes - old(nodes)) && fresh(added) && OnTime(old(nodes))
      ensures fired && Ends(answer) ==> alarm.next == alarm && alarm.previous == alarm && alarm !in nodes
      ensures !(fired && Ends(answer)) ==> alarm in nodes
      ensures fired == old(alarm.Snap()).Expires(nticks)
      ensures Settled(alarm, old(alarm.Snap()), answer)
    {
      fired := Poll(alarm);
      if fired {
        added := Fire(alarm, at, answer);
      } else {
        added := [];
      }
      if !(fired && Ends(answer)) {
        StillIn(added, old(alarms), at);
      }
    }

    /** What one turn of the loop leaves of an alarm that was `was` before the tick. */
    ghost predicate Settled(a: Alarm, was: Snapshot, answer: Answer)
      reads this`now, a`time, a`rollover, a`due, a`timed
    {
      SettledAs(a.Snap(), was, answer, now)
    }

    /** The alarms of the list as they are now. */
    ghost function Snapshots(): seq<Snapshot>
      requires Members()
      reads this, nodes
    {
      seq(|alarms|, i requires 0 <= i < |alarms| && Members() reads this, nodes => alarms[i].Snap())
    }

    /** The loop of alt_tick() before its turn number `k`: the first `k` alarms are settled, the
        rest are untouched, and those that have left the list point to themselves. */
    ghost predicate Walking(l: seq<Alarm>, was: seq<Snapshot>, answers: Alarm -> Answer, k: nat)
      requires k <= |l| == |was|
      reads this, l
    {
      && (forall i :: k <= i < |l| ==> l[i].Snap() == was[i])
      && (forall i :: 0 <= i < k ==> Settled(l[i], was[i], answers(l[i])))
      && (forall i :: 0 <= i < |l| && l[i] !in nodes ==> l[i].next == l[i] && l[i].previous == l[i])
    }

    /** The link of a node in the list leads to the next one, or back to the head. */
    lemma LinkLeadsOn(alarm: Alarm, at: nat)
      requires Linked() && at < |alarms| && alarms[at] == alarm
      ensures alarm.next == if at + 1 < |alarms| then alarms[at + 1] else head
    {
      assert LinkAt(at + 1);
    }

    /** Turn number `k` of the loop. */
    method Turn(alarm: Alarm, answer: Answer, ghost l: seq<Alarm>, ghost was: seq<Snapshot>,
                ghost answers: Alarm -> Answer, ghost k: nat, ghost at: nat, ghost old_: set<Alarm>, ghost added: seq<Alarm>)
      returns (next: Alarm, did: bool, ghost more: seq<Alarm>)
      requires Linked() && nticks == now % WRAP && now > 0 && Distinct(l)
      requires k < |l| == |was| && alarm == l[k] && answer == answers(alarm) && Walking(l, was, answers, k)
      requires was[k].OnTime(now - 1)
      requires at < |alarms| && alarms[at] == alarm
      requires head !in old_ && (forall i :: 0 <= i < |l| ==> l[i] in old_) && OnTime(old_)
      requires NoneIn(added, old_)
      modifies this`alarms, this`nodes, head`next, head`previous, nodes`next, nodes`previous, alarm
      ensures Linked() && Walking(l, was, answers, k + 1)
      ensures did == was[k].Expires(nticks)
      ensures next == if at + 1 < |old(alarms)| then old(alarms)[at + 1] else head
      ensures fresh(nodes - old(nodes)) && NoneIn(more + added, old_) && OnTime(old_)
      ensures alarms == more + if did && Ends(answer) then RemoveAt(old(alarms), at) else old(alarms)
    {
      LinkLeadsOn(alarm, at);
      next := alarm.next;
      assert l[k].Snap() == was[k];
      did, more := Visit(alarm, at, answer);
    }

    /** alt_tick(). Each alarm of the list at entry is visited once, in list order; those whose time
        has come are called back, and of these exactly the ones that end are taken out; alarms
        started by callbacks go to the front and are not visited. An alarm started on time goes
        off at its due tick, and its next due tick is exactly one returned period later. */
    method Tick(answers: Alarm -> Answer) returns (fired: seq<Alarm>, ghost added: seq<Alarm>)
      requires Valid()
      modifies this`nticks, this`now, this`alarms, this`nodes, head`next, head`previous, nodes
      ensures Valid() && now == old(now) + 1
      ensures fired == Select(old(alarms), Expiring(old(Snapshots()), nticks))
      ensures NoneIn(added, old(nodes))
      ensures alarms == added + Select(old(alarms), Staying(old(alarms), answers, Expiring(old(Snapshots()), nticks)))
      ensures forall i :: 0 <= i < |old(alarms)| ==>
        && var a := old(alarms)[i];
        && Settled(a, old(Snapshots())[i], answers(a))
        && (a !in nodes ==> a.next == a && a.previous == a)
    {
      ghost var l, was := alarms, Snapshots();
      CountTick(answers);
      fired, added := Walk(head.next, answers, l, was);
      EndOfWalk(l, was, answers, old(nodes), fired, added);
    }

    /** The start of alt_tick(): the counter goes up by one, and wraps. */
    method CountTick(ghost answers: Alarm -> Answer)
      requires Valid()
      modifies this`nticks, this`now
      ensures now == old(now) + 1 && nticks == (old(nticks) + 1) % WRAP
      ensures AtTurn(head.next, 0, alarms, old(Snapshots()), answers, nodes, [], [])
    {
      assert LinkAt(0);
      SplitTick(now);
      nticks := (nticks + 1) % WRAP;
      now := now + 1;
    }

    /** What the loop has achieved when it is back at the head of the list. */
    lemma EndOfWalk(l: seq<Alarm>, was: seq<Snapshot>, answers: Alarm -> Answer,
                    old_: set<Alarm>, fired: seq<Alarm>, added: seq<Alarm>)
      requires |l| == |was| && AtTurn(head, |l|, l, was, answers, old_, fired, added)
      ensures fired == Select(l, Expiring(was, nticks))
      ensures alarms == added + Select(l, Staying(l, answers, Expiring(was, nticks)))
      ensures OnTime({})
    {
      ghost var stay := Staying(l, answers, Expiring(was, nticks));
      ShapeAtEnd(alarms, l, Expiring(was, nticks), stay, fired, added);
      StayersAreOnTime(l, was, answers, stay, added, old_);
    }

    /** The alarms in the list when the tick began. */
    ghost predicate Entered(l: seq<Alarm>, old_: set<Alarm>) {
      Distinct(l) && head !in old_ && forall i :: 0 <= i < |l| ==> l[i] in old_
    }

    /** Each of them was set for a tick after `before`. */
    static ghost predicate Awaited(was: seq<Snapshot>, before: nat) {
      forall i :: 0 <= i < |was| ==> was[i].OnTime(before)
    }

    /** The invariant of the loop of alt_tick() before turn `k`, with `alarm` next. */
    ghost predicate AtTurn(alarm: Alarm, k: nat, l: seq<Alarm>, was: seq<Snapshot>, answers: Alarm -> Answer,
                           old_: set<Alarm>, fired: seq<Alarm>, added: seq<Alarm>)
      reads this, head, nodes, l
    {
      && k <= |l| == |was| && Linked() && nticks == now % WRAP && now > 0
      && Entered(l, old_) && Awaited(was, now - 1)
      && Walking(l, was, answers, k)
      && (alarm == if k < |l| then l[k] else head)
      && NoneIn(added, old_) && OnTime(old_)
      && Shape(alarms, l, Expiring(was, nticks), Staying(l, answers, Expiring(was, nticks)), k, fired, added)
    }

    /** Turn number `k` of the loop, with what it does to the list. */
    method Advance(alarm: Alarm, answers: Alarm -> Answer, ghost k: nat, ghost l: seq<Alarm>, ghost was: seq<Snapshot>,
                   ghost old_: set<Alarm>, fired: seq<Alarm>, ghost added: seq<Alarm>)
      returns (next: Alarm, fired': seq<Alarm>, ghost added': seq<Alarm>)
      requires k < |l| && AtTurn(alarm, k, l, was, answers, old_, fired, added)
      modifies this`alarms, this`nodes, head`next, head`previous, nodes`next, nodes`previous, alarm
      ensures AtTurn(next, k + 1, l, was, answers, old_, fired', added')
      ensures fresh(nodes - old(nodes))
    {
      ghost var due := Expiring(was, nticks);
      ghost var stay := Staying(l, answers, due);
      ghost var all, at := alarms, Cursor(l, stay, k, added);
      CursorAt(all, l, due, stay, k, fired, added);
      var did;
      ghost var more;
      next, did, more := Turn(alarm, answers(alarm), l, was, answers, k, at, old_, added);
      assert due[k] == did && stay[k] == !(did && Ends(answers(alarm)));
      ShapeStep(all, l, due, stay, k, fired, added, more);
      fired' := if did then fired + [alarm] else fired;
      added' := more + added;
      assert alarms == more + if stay[k] then all else RemoveAt(all, at);
      assert Shape(alarms, l, due, stay, k + 1, fired', added');
    }

    /** The loop of alt_tick(). */
    method Walk(first: Alarm, answers: Alarm -> Answer, ghost l: seq<Alarm>, ghost was: seq<Snapshot>)
      returns (fired: seq<Alarm>, ghost added: seq<Alarm>)
      requires AtTurn(first, 0, l, was, answers, nodes, [], [])
      modifies this`alarms, this`nodes, head`next, head`previous, nodes
      ensures AtTurn(head, |l|, l, was, answers, old(nodes), fired, added)
    {
      var alarm := first;
      fired, added := [], [];
      ghost var k := 0;
      while alarm != head
        invariant k <= |l| && AtTurn(alarm, k, l, was, answers, old(nodes), fired, added)
        invariant fresh(nodes - old(nodes))
        decreases |l| - k
      {
        assert k < |l| && alarm in old(nodes);
        alarm, fired, added := Advance(alarm, answers, k, l, was, old(nodes), fired, added);
        k := k + 1;
      }
    }

    /** At the end of the walk every alarm in the list is set for the future. */
    lemma StayersAreOnTime(l: seq<Alarm>, was: seq<Snapshot>, answers: Alarm -> Answer, stay: seq<bool>,
                           added: seq<Alarm>, old_: set<Alarm>)
      requires |l| == |was| == |stay| && Members() && Walking(l, was, answers, |l|) && nticks == now % WRAP
      requires stay == Staying(l, answers, Expiring(was, nticks)) && alarms == added + Select(l, stay)
      requires OnTime(old_) && NoneIn(added, old_)
      ensures OnTime({})
    {
      forall a | a in nodes ensures a.OnTime(now) {
        if a !in added {
          assert a in Select(l, stay);
          SelectIsSubset(l, stay, a);
          var j :| 0 <= j < |l| && l[j] == a && stay[j];
          assert Settled(l[j], was[j], answers(l[j]));
        }
      }
    }
  }

  // ---- Lists ----

  ghost predicate NoneIn<T>(xs: seq<T>, s: set<T>) {
    forall x :: x in xs ==> x !in s
  }

  function RemoveAt<T>(xs: seq<T>, i: nat): seq<T>
    requires i < |xs|
  {
    xs[..i] + xs[i + 1..]
  }

  /** The entries of `xs` whose flag is set, in order. */
  function Select<T>(xs: seq<T>, flags: seq<bool>): seq<T>
    requires |xs| == |flags|
  {
    if xs == [] then []
    else Select(xs[..|xs| - 1], flags[..|xs| - 1]) + if flags[|xs| - 1] then [xs[|xs| - 1]] else []
  }

  /** Which alarms go off at a tick that reads the counter as `n`. */
  function Expiring(was: seq<Snapshot>, n: Word): seq<bool> {
    seq(|was|, i requires 0 <= i < |was| => was[i].Expires(n))
  }

  /** Which alarms are still in the list after a tick. */
  ghost function Staying(xs: seq<Alarm>, answers: Alarm -> Answer, due: seq<bool>): seq<bool>
    requires |xs| == |due|
  {
    seq(|xs|, i requires 0 <= i < |xs| => !(due[i] && Ends(answers(xs[i]))))
  }

  /** The lists of alt_tick() before turn `k`: `fired` are those of the first `k` alarms that went
      off, and `all` is what was added, those of the first `k` that stay, and the rest. */
  ghost predicate Shape<T>(all: seq<T>, l: seq<T>, due: seq<bool>, stay: seq<bool>, k: nat, fired: seq<T>, added: seq<T>)
    requires k <= |l| == |due| == |stay|
  {
    && fired == Select(l[..k], due[..k])
    && all == added + Select(l[..k], stay[..k]) + l[k..]
  }

  /** Where alarm number `k` of the old list is in the new one. */
  function Cursor<T>(l: seq<T>, stay: seq<bool>, k: nat, added: seq<T>): nat
    requires k <= |l| == |stay|
  {
    |added| + |Select(l[..k], stay[..k])|
  }

  lemma {:induction false} SelectIsSubset<T>(xs: seq<T>, flags: seq<bool>, x: T)
    requires |xs| == |flags| && x in Select(xs, flags)
    ensures exists i :: 0 <= i < |xs| && xs[i] == x && flags[i]
  {
    var n := |xs| - 1;
    if !(flags[n] && xs[n] == x) {
      SelectIsSubset(xs[..n], flags[..n], x);
      var i :| 0 <= i < n && xs[..n][i] == x && flags[..n][i];
      assert xs[i] == x && flags[i];
    }
  }

  lemma SelectSnoc<T>(xs: seq<T>, flags: seq<bool>, k: nat)
    requires |xs| == |flags| && k < |xs|
    ensures Select(xs[..k + 1], flags[..k + 1]) == Select(xs[..k], flags[..k]) + if flags[k] then [xs[k]] else []
  {
    assert xs[..k + 1][..k] == xs[..k] && flags[..k + 1][..k] == flags[..k];
  }

  /** The alarm under the cursor, in a list of what was started, what stays and what is to come. */
  lemma Window<T>(added: seq<T>, kept: seq<T>, l: seq<T>, k: nat)
    requires k < |l|
    ensures var all := added + kept + l[k..]; var at := |added| + |kept|;
      && all[at] == l[k]
      && RemoveAt(all, at) == added + kept + l[k + 1..]
      && all == added + (kept + [l[k]]) + l[k + 1..]
      && (k + 1 < |l| <==> at + 1 < |all|)
      && (k + 1 < |l| ==> all[at + 1] == l[k + 1])
  {
  }

  lemma CursorAt<T>(all: seq<T>, l: seq<T>, due: seq<bool>, stay: seq<bool>, k: nat, fired: seq<T>, added: seq<T>)
    requires k < |l| == |due| == |stay| && Shape(all, l, due, stay, k, fired, added)
    ensures var at := Cursor(l, stay, k, added);
      && at < |all| && all[at] == l[k]
      && (k + 1 < |l| <==> at + 1 < |all|)
      && (k + 1 < |l| ==> all[at + 1] == l[k + 1])
  {
    Window(added, Select(l[..k], stay[..k]), l, k);
  }

  lemma ShapeStep<T>(all: seq<T>, l: seq<T>, due: seq<bool>, stay: seq<bool>, k: nat, fired: seq<T>, added: seq<T>, more: seq<T>)
    requires k < |l| == |due| == |stay| && Shape(all, l, due, stay, k, fired, added)
    ensures var at := Cursor(l, stay, k, added);
      && at < |all|
      && Shape(more + if stay[k] then all else RemoveAt(all, at), l, due, stay, k + 1,
               if due[k] then fired + [l[k]] else fired, more + added)
  {
    var kept := Select(l[..k], stay[..k]);
    Window(added, kept, l, k);
    SelectSnoc(l, due, k);
    SelectSnoc(l, stay, k);
    if stay[k] {
      InFront(more, added, kept + [l[k]], l[k + 1..]);
    } else {
      InFront(more, added, kept, l[k + 1..]);
    }
  }

  lemma InFront<T>(more: seq<T>, added: seq<T>, kept: seq<T>, rest: seq<T>)
    ensures more + (added + kept + rest) == (more + added) + kept + rest
  {
  }

  lemma ShapeAtEnd<T>(all: seq<T>, l: seq<T>, due: seq<bool>, stay: seq<bool>, fired: seq<T>, added: seq<T>)
    requires |l| == |due| == |stay| && Shape(all, l, due, stay, |l|, fired, added)
    ensures fired == Select(l, due) && all == added + Select(l, stay)
  {
    assert l[..|l|] == l && due[..|l|] == due && stay[..|l|] == stay;
  }

  lemma RemoveAfter<T>(front: seq<T>, xs: seq<T>, at: nat)
    requires at < |xs|
    ensures RemoveAt(front + xs, |front| + at) == front + RemoveAt(xs, at)
  {
  }

  /** A list without repeats and its set lose the same entry. */
  lemma RemovedIsSet<T>(xs: seq<T>, at: nat, s: set<T>)
    requires at < |xs| && Distinct(xs)
    requires (forall i :: 0 <= i < |xs| ==> xs[i] in s) && (forall x :: x in s ==> x in xs)
    ensures var ys, t := RemoveAt(xs, at), s - {xs[at]};
      Distinct(ys) && (forall i :: 0 <= i < |ys| ==> ys[i] in t) && (forall x :: x in t ==> x in ys)
  {
    var ys, t := RemoveAt(xs, at), s - {xs[at]};
    forall i | 0 <= i < |ys| ensures ys[i] == xs[if i < at then i else i + 1] {
    }
    forall x | x in t ensures x in ys {
      var i :| 0 <= i < |xs| && xs[i] == x;
      assert ys[if i < at then i else i - 1] == x;
    }
  }
}
