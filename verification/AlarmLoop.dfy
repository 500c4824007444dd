/** alt_tick() on the heap when callbacks stop any alarms: each turn of its loop is one turn of the walk on
    values, so it ends exactly if that walk does. */
module AlarmLoop {
  import opened AlarmStops
  import opened Alarms
  import opened AlarmTiming
  import opened Common

  /** What a callback does: it stops some alarms, its own or others, and returns the period. */
  datatype Call = Call(stops: seq<Alarm>, period: Word)

  ghost function Among(xs: seq<Alarm>): set<Alarm> {
    set x | x in xs
  }

  /** The alarms that are stopped when an alarm has gone off. */
  ghost function Stopped(a: Alarm, call: Call): set<Alarm> {
    Among(call.stops) + if call.period == 0 then {a} else {}
  }

  /** The alarms that are stopped at the turn of an alarm, where `due` are those whose time has come. */
  ghost function Effects(calls: Alarm -> Call, due: set<Alarm>): Alarm -> set<Alarm> {
    (a: Alarm) => if a in due then Stopped(a, calls(a)) else {}
  }

  ghost function AnswerOf(a: Alarm, call: Call): Answer {
    Answer([], a in call.stops, call.period)
  }

  /** The alarms as they are now. */
  ghost function Snaps(all: set<Alarm>): map<Alarm, Snapshot>
    reads all
  {
    map a | a in all :: a.Snap()
  }

  /** Of all alarms at most `a` has changed. */
  ghost predicate Moved(was: map<Alarm, Snapshot>, view: map<Alarm, Snapshot>, a: Alarm, left: Snapshot) {
    was.Keys == view.Keys && forall x :: x in was ==> view[x] == if x == a then left else was[x]
  }

  /** Those that go off when the counter is read as `n`. */
  ghost function Due(view: map<Alarm, Snapshot>, n: Word): set<Alarm> {
    set a | a in view && view[a].Expires(n)
  }

  /** Every alarm is in the list or points to itself. */
  ghost predicate Family(c: Clock, all: set<Alarm>)
    reads c`nodes, all`next, all`previous
  {
    c.nodes <= all && c.head !in all && forall a :: a in all && a !in c.nodes ==> a.next == a && a.previous == a
  }

  /** Callbacks stop only alarms of the family. */
  ghost predicate Closed(all: set<Alarm>, calls: Alarm -> Call) {
    forall a, i :: a in all && 0 <= i < |calls(a).stops| ==> calls(a).stops[i] in all
  }

  // ---- One turn ----

  lemma StoppedOne(before: seq<Alarm>, after: seq<Alarm>, a: Alarm)
    requires Distinct(before)
    requires if a in before then exists i :: 0 <= i < |before| && before[i] == a && after == RemoveAt(before, i)
             else after == before
    ensures after == Without(before, {a})
  {
    if a in before {
      var i :| 0 <= i < |before| && before[i] == a && after == RemoveAt(before, i);
      WithoutOne(before, i);
    } else {
      WithoutNone(before, {a});
    }
  }

  method StopOne(c: Clock, a: Alarm, ghost all: set<Alarm>)
    requires c.Linked() && Family(c, all) && a in all
    modifies c`alarms, c`nodes, c.head`next, c.head`previous, all`next, all`previous
    ensures c.Linked() && Family(c, all)
    ensures c.alarms == Without(old(c.alarms), {a}) && c.nodes == old(c.nodes) - {a}
  {
    ghost var before := c.alarms;
    c.Stop(a);
    StoppedOne(before, c.alarms, a);
  }

  /** A callback that stops alarms, one after the other. */
  method StopAll(c: Clock, stops: seq<Alarm>, ghost all: set<Alarm>)
    requires c.Linked() && Family(c, all) && forall i :: 0 <= i < |stops| ==> stops[i] in all
    modifies c`alarms, c`nodes, c.head`next, c.head`previous, all`next, all`previous
    ensures c.Linked() && Family(c, all)
    ensures c.alarms == Without(old(c.alarms), Among(stops)) && c.nodes == old(c.nodes) - Among(stops)
  {
    WithoutNone(c.alarms, Among([]));
    for k := 0 to |stops|
      invariant c.Linked() && Family(c, all)
      invariant c.alarms == Without(old(c.alarms), Among(stops[..k])) && c.nodes == old(c.nodes) - Among(stops[..k])
    {
      StopOne(c, stops[k], all);
      WithoutTwice(old(c.alarms), Among(stops[..k]), {stops[k]});
      assert Among(stops[..k + 1]) == Among(stops[..k]) + {stops[k]};
    }
    assert stops[..|stops|] == stops;
  }

  /** An alarm whose time has come: the callback, then removal or a new time. */
  method Fire(c: Clock, alarm: Alarm, call: Call, ghost all: set<Alarm>)
    requires c.Linked() && c.nticks == c.now % WRAP && Family(c, all) && alarm in all
    requires forall i :: 0 <= i < |call.stops| ==> call.stops[i] in all
    requires alarm.timed ==> alarm.Timer() == Timer(c.nticks, false) && alarm.due == c.now
    modifies c`alarms, c`nodes, c.head`next, c.head`previous, all`next, all`previous, alarm
    ensures c.Linked() && Family(c, all)
    ensures c.alarms == Without(old(c.alarms), Stopped(alarm, call)) && c.nodes <= old(c.nodes)
    ensures alarm.timed == old(alarm.timed)
    ensures var ends := Alarms.Ends(AnswerOf(alarm, call));
      && alarm.due == old(alarm.due) + (if ends then 0 else call.period)
      && (!ends ==> alarm.OnTime(c.now))
      && (ends ==> alarm !in c.nodes)
  {
    StopAll(c, call.stops, all);
    if call.period == 0 {
      StopOne(c, alarm, all);
      WithoutTwice(old(c.alarms), Among(call.stops), {alarm});
    } else {
      c.Rearm(alarm, call.period, alarm in call.stops);
      assert Stopped(alarm, call) == Among(call.stops);
    }
  }

  /** One turn of the loop of alt_tick(). An alarm that was not waiting for this tick, as on a second visit,
      keeps no schedule from then on. */
  method Visit(c: Clock, alarm: Alarm, call: Call, ghost all: set<Alarm>) returns (next: Alarm, fired: bool)
    requires c.Linked() && c.nticks == c.now % WRAP && c.now > 0 && Family(c, all) && alarm in all
    requires forall i :: 0 <= i < |call.stops| ==> call.stops[i] in all
    modifies c`alarms, c`nodes, c.head`next, c.head`previous, all`next, all`previous, alarm
    ensures c.Linked() && Family(c, all)
    ensures next == old(alarm.next)
    ensures fired == old(alarm.Snap()).Expires(c.nticks)
    ensures c.alarms == if fired then Without(old(c.alarms), Stopped(alarm, call)) else old(c.alarms)
    ensures c.nodes <= old(c.nodes) && (!fired ==> !alarm.Snap().Expires(c.nticks))
    ensures alarm in c.nodes ==> alarm.OnTime(c.now)
    ensures old(alarm.OnTime(c.now - 1)) ==> SettledAs(alarm.Snap(), old(alarm.Snap()), AnswerOf(alarm, call), c.now)
    ensures Moved(old(Snaps(all)), Snaps(all), alarm, alarm.Snap())
  {
    if !alarm.OnTime(c.now - 1) {
      alarm.timed := false;
    }
    next := alarm.next;
    fired := c.Poll(alarm);
    if fired {
      Fire(c, alarm, call, all);
    }
  }

  // ---- The walk ----

  /** An alarm that would go off at its next turn was due at the start of the tick, and one that was due goes off
      at its first turn; after it the alarms it stops are not in the list, so another turn makes no difference. */
  ghost predicate Agreed(list: seq<Alarm>, late: bool, a: Alarm, calls: Alarm -> Call, due: set<Alarm>, visited: seq<Alarm>) {
    && (late ==> a in due)
    && (a in due && a !in visited ==> late)
    && (a in due && a in visited ==> NoneIn(list, Stopped(a, calls(a))))
  }

  ghost predicate AllAgreed(list: seq<Alarm>, view: map<Alarm, Snapshot>, n: Word, calls: Alarm -> Call,
                            due: set<Alarm>, visited: seq<Alarm>)
  {
    forall a :: a in view ==> Agreed(list, view[a].Expires(n), a, calls, due, visited)
  }

  /** The alarms in the list are set for the future, and those that had no turn yet for this tick or later. */
  ghost predicate Timely(nodes: set<Alarm>, view: map<Alarm, Snapshot>, now: nat, visited: seq<Alarm>)
    requires now > 0
  {
    forall a :: a in nodes ==> a in view && view[a].OnTime(if a in visited then now else now - 1)
  }

  /** The loop stands where the walk on values does. */
  ghost predicate At(c: Clock, alarm: Alarm, all: set<Alarm>, w: Walk<Alarm>)
    reads c`alarms
  {
    && w.list == c.alarms && w.at == (if alarm == c.head then None else Some(alarm))
    && (alarm == c.head || alarm in all)
  }

  ghost predicate Stage(c: Clock, alarm: Alarm, all: set<Alarm>, calls: Alarm -> Call, due: set<Alarm>, w: Walk<Alarm>)
    reads c, c.head, c.nodes, all
  {
    && c.Linked() && c.nticks == c.now % WRAP && c.now > 0 && Family(c, all) && Closed(all, calls)
    && At(c, alarm, all, w)
    && AllAgreed(c.alarms, Snaps(all), c.nticks, calls, due, w.visited)
    && Timely(c.nodes, Snaps(all), c.now, w.visited)
  }

  /** The link of an alarm leads where the walk goes. */
  lemma LinkIsNext(c: Clock, alarm: Alarm, all: set<Alarm>)
    requires c.Linked() && Family(c, all) && alarm in all
    ensures alarm.next == c.head || alarm.next in all
    ensures Next(c.alarms, alarm) == if alarm.next == c.head then None else Some(alarm.next)
  {
    if alarm in c.alarms {
      var at :| 0 <= at < |c.alarms| && c.alarms[at] == alarm;
      c.LinkLeadsOn(alarm, at);
      NextOfNumber(c.alarms, at);
    }
  }

  lemma WithoutIsApart(list: seq<Alarm>, gone: set<Alarm>, other: set<Alarm>)
    ensures NoneIn(Without(list, gone), gone)
    ensures NoneIn(list, other) ==> NoneIn(Without(list, gone), other)
  {
    forall x | x in Without(list, gone) ensures x in list && x !in gone {
      WithoutMembers(list, gone, x);
    }
  }

  /** What is stopped at the turn of an alarm, whether it is the first or a later one. */
  lemma AgreedStep(list: seq<Alarm>, was: map<Alarm, Snapshot>, view: map<Alarm, Snapshot>, n: Word, a: Alarm, calls: Alarm -> Call,
                   due: set<Alarm>, visited: seq<Alarm>) returns (list': seq<Alarm>)
    requires AllAgreed(list, was, n, calls, due, visited) && a in was && a in view
    requires Moved(was, view, a, view[a]) && (!was[a].Expires(n) ==> !view[a].Expires(n))
    ensures list' == if was[a].Expires(n) then Without(list, Stopped(a, calls(a))) else list
    ensures list' == Without(list, Effects(calls, due)(a))
    ensures AllAgreed(list', view, n, calls, due, visited + [a])
  {
    assert Agreed(list, was[a].Expires(n), a, calls, due, visited);
    if !was[a].Expires(n) {
      WithoutNone(list, Effects(calls, due)(a));
    }
    list' := Without(list, Effects(calls, due)(a));
    forall x | x in view ensures Agreed(list', view[x].Expires(n), x, calls, due, visited + [a]) {
      assert Agreed(list, was[x].Expires(n), x, calls, due, visited);
      WithoutIsApart(list, Effects(calls, due)(a), Stopped(x, calls(x)));
    }
  }

  lemma TimelyStep(nodes: set<Alarm>, nodes': set<Alarm>, was: map<Alarm, Snapshot>, view: map<Alarm, Snapshot>, now: nat,
                   a: Alarm, visited: seq<Alarm>)
    requires now > 0 && Timely(nodes, was, now, visited) && nodes' <= nodes && a in view
    requires Moved(was, view, a, view[a]) && (a in nodes' ==> view[a].OnTime(now))
    ensures Timely(nodes', view, now, visited + [a])
  {
  }

  /** A turn of the loop is a turn of the walk. */
  method Step(c: Clock, alarm: Alarm, calls: Alarm -> Call, ghost all: set<Alarm>, ghost due: set<Alarm>, ghost w: Walk<Alarm>)
    returns (next: Alarm, fired: bool)
    requires Stage(c, alarm, all, calls, due, w) && alarm != c.head
    modifies c`alarms, c`nodes, c.head`next, c.head`previous, all`next, all`previous, alarm
    ensures Stage(c, next, all, calls, due, AlarmStops.Turn(w, Effects(calls, due)))
    ensures Moved(old(Snaps(all)), Snaps(all), alarm, alarm.Snap())
    ensures alarm in w.list && alarm !in w.visited ==>
      (fired <==> alarm in due) && SettledAs(alarm.Snap(), old(alarm.Snap()), AnswerOf(alarm, calls(alarm)), c.now)
  {
    LinkIsNext(c, alarm, all);
    assert Agreed(c.alarms, Snaps(all)[alarm].Expires(c.nticks), alarm, calls, due, w.visited);
    ghost var list, nodes, was := c.alarms, c.nodes, Snaps(all);
    next, fired := Visit(c, alarm, calls(alarm), all);
    ghost var list' := AgreedStep(list, was, Snaps(all), c.nticks, alarm, calls, due, w.visited);
    TimelyStep(nodes, c.nodes, was, Snaps(all), c.now, alarm, w.visited);
  }

  /** The start of alt_tick(): the counter goes up by one, and wraps. */
  method Begin(c: Clock, ghost all: set<Alarm>, ghost calls: Alarm -> Call) returns (alarm: Alarm)
    requires c.Valid() && Family(c, all) && Closed(all, calls)
    modifies c`nticks, c`now
    ensures c.now == old(c.now) + 1 && c.nticks == (old(c.nticks) + 1) % WRAP
    ensures Stage(c, alarm, all, calls, Due(Snaps(all), c.nticks), Start(c.alarms)) && Snaps(all) == old(Snaps(all))
  {
    assert c.LinkAt(0);
    alarm := c.head.next;
    SplitTick(c.now);
    c.nticks := (c.nticks + 1) % WRAP;
    c.now := c.now + 1;
  }

  /** The first `n` turns of alt_tick(), or fewer if its loop ends: they are those of the walk, so the loop is at
      the head after as many turns as there are alarms, or never. */
  method Run(c: Clock, calls: Alarm -> Call, n: nat, ghost all: set<Alarm>) returns (alarm: Alarm)
    requires c.Valid() && Family(c, all) && Closed(all, calls)
    modifies c`nticks, c`now, c`alarms, c`nodes, c.head`next, c.head`previous, all
    ensures var e := Effects(calls, Due(old(Snaps(all)), (old(c.nticks) + 1) % WRAP));
      && At(c, alarm, all, Turns(Start(old(c.alarms)), e, n)) && c.Linked() && Family(c, all)
      && (alarm == c.head ==> Safe(old(c.alarms), e))
      && (Safe(old(c.alarms), e) && n >= |old(c.alarms)| ==> alarm == c.head)
  {
    alarm := Begin(c, all, calls);
    ghost var due := Due(Snaps(all), c.nticks);
    ghost var start := Start(c.alarms);
    for i := 0 to n
      invariant Stage(c, alarm, all, calls, due, Turns(start, Effects(calls, due), i))
    {
      TurnsCompose(start, Effects(calls, due), i, 1);
      if alarm != c.head {
        var fired;
        alarm, fired := Step(c, alarm, calls, all, due, Turns(start, Effects(calls, due), i));
      }
    }
    AtHeadIffSafe(start.list, Effects(calls, due), n);
  }

  // ---- The tick ----

  /** Those of the visited alarms whose time had come. */
  ghost function Fired(visited: seq<Alarm>, due: set<Alarm>): seq<Alarm> {
    if visited == [] then []
    else Fired(visited[..|visited| - 1], due) + if visited[|visited| - 1] in due then [visited[|visited| - 1]] else []
  }

  lemma FiredSnoc(visited: seq<Alarm>, a: Alarm, due: set<Alarm>)
    ensures Fired(visited + [a], due) == Fired(visited, due) + if a in due then [a] else []
  {
    assert (visited + [a])[..|visited|] == visited;
  }

  /** Each visited alarm is left as one turn of a tick leaves it, and the others as they were. */
  ghost predicate AllSettled(was: map<Alarm, Snapshot>, view: map<Alarm, Snapshot>, visited: seq<Alarm>,
                             calls: Alarm -> Call, now: nat)
  {
    && was.Keys == view.Keys
    && forall a :: a in was ==>
      if a in visited then SettledAs(view[a], was[a], AnswerOf(a, calls(a)), now) else view[a] == was[a]
  }

  lemma SettledStep(was: map<Alarm, Snapshot>, before: map<Alarm, Snapshot>, view: map<Alarm, Snapshot>, a: Alarm,
                    visited: seq<Alarm>, calls: Alarm -> Call, now: nat)
    requires AllSettled(was, before, visited, calls, now) && a in view && Moved(before, view, a, view[a])
    requires a in before && SettledAs(view[a], before[a], AnswerOf(a, calls(a)), now) && a !in visited
    ensures AllSettled(was, view, visited + [a], calls, now)
  {
  }

  /** Where the tick stands: `w` is the walk so far and `called` the alarms that went off. */
  ghost predicate Going(c: Clock, alarm: Alarm, all: set<Alarm>, calls: Alarm -> Call, due: set<Alarm>,
                        was: map<Alarm, Snapshot>, w: Walk<Alarm>, called: seq<Alarm>)
    reads c, c.head, c.nodes, all
  {
    && Stage(c, alarm, all, calls, due, w)
    && called == Fired(w.visited, due) && AllSettled(was, Snaps(all), w.visited, calls, c.now)
  }

  /** A turn at an alarm that had none yet. */
  method Advance(c: Clock, alarm: Alarm, calls: Alarm -> Call, ghost all: set<Alarm>, ghost due: set<Alarm>,
                 ghost was: map<Alarm, Snapshot>, ghost w: Walk<Alarm>, called: seq<Alarm>)
    returns (next: Alarm, called': seq<Alarm>)
    requires Going(c, alarm, all, calls, due, was, w, called) && w.at == Some(alarm)
    requires alarm in w.list && alarm !in w.visited
    modifies c`alarms, c`nodes, c.head`next, c.head`previous, all`next, all`previous, alarm
    ensures Going(c, next, all, calls, due, was, AlarmStops.Turn(w, Effects(calls, due)), called')
  {
    FiredSnoc(w.visited, alarm, due);
    ghost var before := Snaps(all);
    var fired;
    next, fired := Step(c, alarm, calls, all, due, w);
    SettledStep(was, before, Snaps(all), alarm, w.visited, calls, c.now);
    called' := if fired then called + [alarm] else called;
  }

  /** The loop of alt_tick(). */
  method Walk(c: Clock, first: Alarm, calls: Alarm -> Call, ghost all: set<Alarm>, ghost due: set<Alarm>,
              ghost was: map<Alarm, Snapshot>, ghost list: seq<Alarm>, ghost n: nat)
    returns (called: seq<Alarm>, ghost w: Walk<Alarm>)
    requires Onward(list, Effects(calls, due), n, 0, Start(list))
    requires Going(c, first, all, calls, due, was, Start(list), [])
    modifies c`alarms, c`nodes, c.head`next, c.head`previous, all
    ensures Going(c, c.head, all, calls, due, was, w, called)
    ensures w.visited == Visits(list, Effects(calls, due)) && AllIn(w.list, w.visited)
    ensures w.list == Without(list, Gone(w.visited, Effects(calls, due)))
  {
    var alarm := first;
    called, w := [], Start(list);
    ghost var i := 0;
    while alarm != c.head
      invariant Onward(list, Effects(calls, due), n, i, w) && Going(c, alarm, all, calls, due, was, w, called)
      decreases n - i
    {
      OnwardStep(list, Effects(calls, due), n, i, w, alarm);
      alarm, called := Advance(c, alarm, calls, all, due, was, w, called);
      w, i := AlarmStops.Turn(w, Effects(calls, due)), i + 1;
    }
    OnwardEnd(list, Effects(calls, due), n, i, w);
  }

  /** alt_tick() when no callback stops the alarm that is saved while it runs. It ends; it visits the alarms not
      stopped before their turn and calls back those whose time has come, in list order; exactly those that
      were stopped or that returned 0 leave the list; each visited alarm is settled. */
  method Tick(c: Clock, calls: Alarm -> Call, ghost all: set<Alarm>) returns (called: seq<Alarm>)
    requires c.Valid() && Family(c, all) && Closed(all, calls)
    requires Safe(c.alarms, Effects(calls, Due(Snaps(all), (c.nticks + 1) % WRAP)))
    modifies c`nticks, c`now, c`alarms, c`nodes, c.head`next, c.head`previous, all
    ensures c.Valid() && Family(c, all) && c.now == old(c.now) + 1
    ensures var due := Due(old(Snaps(all)), (old(c.nticks) + 1) % WRAP);
      var visits := Visits(old(c.alarms), Effects(calls, due));
      && called == Fired(visits, due)
      && c.alarms == Without(old(c.alarms), Gone(visits, Effects(calls, due)))
      && AllSettled(old(Snaps(all)), Snaps(all), visits, calls, c.now)
  {
    var first := Begin(c, all, calls);
    ghost var n := OnwardFrom(c.alarms, Effects(calls, Due(Snaps(all), c.nticks)));
    ghost var w;
    called, w := Walk(c, first, calls, all, Due(Snaps(all), c.nticks), Snaps(all), c.alarms, n);
    assert c.OnTime({}) by {
      forall a | a in c.nodes ensures a.OnTime(c.now) {
        assert a in w.list;
      }
    }
  }
}
