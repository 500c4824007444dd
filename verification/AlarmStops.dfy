/** The loop of alt_tick() when callbacks stop any alarms, their own or others: a node that has left the
    list points to itself, so what matters is the node whose address the loop has saved. */
module AlarmStops {
  import opened Common

  /** What the loop works on: the alarms in the list, in order; the alarm it is at, None for the head of
      the list; and those it has been at. */
  datatype Walk<T> = Walk(list: seq<T>, at: Option<T>, visited: seq<T>)

  /** The list after some alarms have been taken out. */
  function Without<T(==)>(list: seq<T>, gone: set<T>): (r: seq<T>)
    ensures |r| <= |list|
  {
    if list == [] then []
    else (if list[0] in gone then [] else [list[0]]) + Without(list[1..], gone)
  }

  /** The node after `a`: None is the head of the list, where the circle closes. */
  function After<T(==)>(list: seq<T>, a: T): Option<T>
    requires a in list
  {
    if list[0] == a then if |list| > 1 then Some(list[1]) else None
    else After(list[1..], a)
  }

  /** What the link of a node leads to. */
  function Next<T(==)>(list: seq<T>, a: T): Option<T> {
    if a in list then After(list, a) else Some(a)
  }

  /** One turn: the next node is saved, the callback stops what it stops (nothing, if the alarm is not
      due), and the loop goes on to the saved node. */
  function Turn<T(==)>(w: Walk<T>, stops: T -> set<T>): Walk<T> {
    match w.at
    case None => w
    case Some(a) => Walk(Without(w.list, stops(a)), Next(w.list, a), w.visited + [a])
  }

  function Turns<T(==)>(w: Walk<T>, stops: T -> set<T>, n: nat): Walk<T>
    decreases n
  {
    if n == 0 then w else Turns(Turn(w, stops), stops, n - 1)
  }

  function Start<T>(list: seq<T>): Walk<T> {
    Walk(list, if list == [] then None else Some(list[0]), [])
  }

  ghost predicate Ends<T>(w: Walk<T>, stops: T -> set<T>) {
    exists n: nat :: Turns(w, stops, n).at == None
  }

  /** Of the alarms still to come, no callback stops the one that is next in the list when it is called:
      the one alarm it must not stop is the one saved. */
  predicate Safe<T(==)>(rest: seq<T>, stops: T -> set<T>)
    decreases |rest|
  {
    |rest| <= 1 ||
    (rest[1] !in stops(rest[0]) && Safe(Without(rest[1..], stops(rest[0])), stops))
  }

  /** The alarms a tick is to visit: in list order, those not stopped by an earlier one. */
  function Visits<T(==)>(rest: seq<T>, stops: T -> set<T>): seq<T>
    decreases |rest|
  {
    if rest == [] then [] else [rest[0]] + Visits(Without(rest[1..], stops(rest[0])), stops)
  }

  lemma {:induction false} WithoutAppend<T>(a: seq<T>, b: seq<T>, gone: set<T>)
    ensures Without(a + b, gone) == Without(a, gone) + Without(b, gone)
    decreases |a|
  {
    if a == [] {
      assert a + b == b;
    } else {
      assert (a + b)[1..] == a[1..] + b;
      WithoutAppend(a[1..], b, gone);
    }
  }

  lemma {:induction false} WithoutMembers<T>(list: seq<T>, gone: set<T>, a: T)
    ensures a in Without(list, gone) <==> a in list && a !in gone
    decreases |list|
  {
    if list != [] {
      WithoutMembers(list[1..], gone, a);
      assert a in list <==> a == list[0] || a in list[1..];
    }
  }

  lemma {:induction false} WithoutNone<T>(list: seq<T>, gone: set<T>)
    requires forall i :: 0 <= i < |list| ==> list[i] !in gone
    ensures Without(list, gone) == list
    decreases |list|
  {
    if list != [] {
      WithoutNone(list[1..], gone);
    }
  }

  lemma WithoutSingle<T>(x: T, gone: set<T>)
    ensures Without([x], gone) == if x in gone then [] else [x]
  {
    assert [x][1..] == [];
  }

  lemma {:induction false} WithoutTwice<T>(list: seq<T>, a: set<T>, b: set<T>)
    ensures Without(Without(list, a), b) == Without(list, a + b)
    decreases |list|
  {
    if list != [] {
      WithoutTwice(list[1..], a, b);
      WithoutAppend(if list[0] in a then [] else [list[0]], Without(list[1..], a), b);
      WithoutSingle(list[0], b);
    }
  }

  /** Taking out one alarm by its number. */
  lemma {:induction false} WithoutOne<T>(list: seq<T>, at: nat)
    requires Distinct(list) && at < |list|
    ensures Without(list, {list[at]}) == list[..at] + list[at + 1..]
    decreases at
  {
    if at == 0 {
      WithoutNone(list[1..], {list[0]});
    } else {
      WithoutOne(list[1..], at - 1);
      assert list[1..][at - 1] == list[at];
      assert list[..at] == [list[0]] + list[1..][..at - 1];
      assert list[at + 1..] == list[1..][at..];
    }
  }

  /** An alarm that is not stopped stays the first of what is to come. */
  lemma HeadStays<T>(rest: seq<T>, gone: set<T>)
    requires rest != [] && rest[0] !in gone
    ensures Without(rest, gone) != [] && Without(rest, gone)[0] == rest[0]
  {
  }

  lemma {:induction false} WithoutDistinct<T>(list: seq<T>, gone: set<T>)
    requires Distinct(list)
    ensures Distinct(Without(list, gone))
    decreases |list|
  {
    if list != [] {
      WithoutDistinct(list[1..], gone);
      WithoutMembers(list[1..], gone, list[0]);
      assert list[0] !in list[1..];
    }
  }

  lemma {:induction false} AfterFront<T>(front: seq<T>, rest: seq<T>)
    requires Distinct(front + rest) && rest != []
    ensures rest[0] in front + rest
    ensures After(front + rest, rest[0]) == if |rest| > 1 then Some(rest[1]) else None
    decreases |front|
  {
    assert (front + rest)[|front|] == rest[0];
    if front == [] {
      assert front + rest == rest;
    } else {
      assert (front + rest)[0] != rest[0];
      assert (front + rest)[1..] == front[1..] + rest;
      AfterFront(front[1..], rest);
    }
  }

  /** The link of the alarm with number `at`. */
  lemma NextOfNumber<T>(list: seq<T>, at: nat)
    requires Distinct(list) && at < |list|
    ensures Next(list, list[at]) == if at + 1 < |list| then Some(list[at + 1]) else None
  {
    assert list == list[..at] + list[at..];
    AfterFront(list[..at], list[at..]);
  }

  /** The loop is at the first of the alarms still to come. */
  ghost predicate AtRest<T>(w: Walk<T>, front: seq<T>, rest: seq<T>) {
    && w.list == front + rest && Distinct(w.list)
    && w.at == if rest == [] then None else Some(rest[0])
  }

  /** A turn that leaves the saved alarm alone. */
  lemma SafeTurn<T>(w: Walk<T>, front: seq<T>, rest: seq<T>, stops: T -> set<T>) returns (front': seq<T>)
    requires AtRest(w, front, rest) && rest != []
    requires |rest| > 1 ==> rest[1] !in stops(rest[0])
    ensures AtRest(Turn(w, stops), front', Without(rest[1..], stops(rest[0])))
    ensures front' == Without(front + [rest[0]], stops(rest[0]))
  {
    var gone := stops(rest[0]);
    AfterFront(front, rest);
    WithoutDistinct(w.list, gone);
    front' := Without(front + [rest[0]], gone);
    WithoutAppend(front + [rest[0]], rest[1..], gone);
    assert front + rest == (front + [rest[0]]) + rest[1..];
    if |rest| > 1 {
      HeadStays(rest[1..], gone);
    }
  }

  /** A turn that stops the saved alarm. */
  lemma UnsafeTurn<T>(w: Walk<T>, front: seq<T>, rest: seq<T>, stops: T -> set<T>)
    requires AtRest(w, front, rest) && |rest| > 1 && rest[1] in stops(rest[0])
    ensures Turn(w, stops).at == Some(rest[1]) && rest[1] !in Turn(w, stops).list
  {
    AfterFront(front, rest);
    WithoutMembers(w.list, stops(rest[0]), rest[1]);
  }

  /** The self-loop: at a node that has left the list the loop stays for ever. */
  lemma {:induction false} Stuck<T>(w: Walk<T>, stops: T -> set<T>, n: nat)
    requires w.at.Some? && w.at.value !in w.list
    ensures Turns(w, stops, n).at == w.at
    decreases n
  {
    if n > 0 {
      WithoutMembers(w.list, stops(w.at.value), w.at.value);
      Stuck(Turn(w, stops), stops, n - 1);
    }
  }

  ghost predicate AllIn<T>(xs: seq<T>, ys: seq<T>) {
    forall x :: x in xs ==> x in ys
  }

  lemma RemainVisited<T>(front: seq<T>, a: T, visited: seq<T>, gone: set<T>)
    requires AllIn(front, visited)
    ensures AllIn(Without(front + [a], gone), visited + [a])
  {
    forall x | x in Without(front + [a], gone) ensures x in visited + [a] {
      WithoutMembers(front + [a], gone, x);
    }
  }

  lemma TurnsUnfold<T>(w: Walk<T>, stops: T -> set<T>, n: nat)
    requires n > 0
    ensures Turns(w, stops, n) == Turns(Turn(w, stops), stops, n - 1)
  {
  }

  lemma Regroup<T>(xs: seq<T>, a: T, ys: seq<T>)
    ensures xs + [a] + ys == xs + ([a] + ys)
  {
  }

  lemma {:induction false} SafeWalk<T>(w: Walk<T>, front: seq<T>, rest: seq<T>, stops: T -> set<T>) returns (n: nat)
    requires AtRest(w, front, rest) && Safe(rest, stops) && AllIn(front, w.visited)
    ensures n <= |rest|
    ensures var t := Turns(w, stops, n);
      t.at == None && t.visited == w.visited + Visits(rest, stops) && AllIn(t.list, t.visited)
    decreases |rest|
  {
    if rest == [] {
      assert front + rest == front;
      n := 0;
    } else {
      var front' := SafeTurn(w, front, rest, stops);
      RemainVisited(front, rest[0], w.visited, stops(rest[0]));
      var rest' := Without(rest[1..], stops(rest[0]));
      var m := SafeWalk(Turn(w, stops), front', rest', stops);
      n := m + 1;
      TurnsUnfold(w, stops, n);
      Regroup(w.visited, rest[0], Visits(rest', stops));
    }
  }

  lemma {:induction false} UnsafeWalk<T>(w: Walk<T>, front: seq<T>, rest: seq<T>, stops: T -> set<T>, n: nat)
    requires AtRest(w, front, rest) && !Safe(rest, stops)
    ensures Turns(w, stops, n).at != None
    decreases |rest|, n
  {
    if n > 0 {
      if rest[1] in stops(rest[0]) {
        UnsafeTurn(w, front, rest, stops);
        Stuck(Turn(w, stops), stops, n - 1);
      } else {
        var front' := SafeTurn(w, front, rest, stops);
        UnsafeWalk(Turn(w, stops), front', Without(rest[1..], stops(rest[0])), stops, n - 1);
      }
    }
  }

  /** A walk that ends: how many turns it takes, and what it leaves. */
  lemma WalkThatEnds<T>(list: seq<T>, stops: T -> set<T>) returns (n: nat)
    requires Distinct(list) && Safe(list, stops)
    ensures n <= |list|
    ensures var t := Turns(Start(list), stops, n);
      t.at == None && t.visited == Visits(list, stops) && AllIn(t.list, t.visited)
  {
    assert [] + list == list;
    n := SafeWalk(Start(list), [], list, stops);
    assert [] + Visits(list, stops) == Visits(list, stops);
  }

  /** A tick ends exactly if no callback stops the alarm that is saved while it runs, and then it visits,
      in list order and in no more turns than there are alarms, exactly those not stopped before their
      turn. */
  lemma EndsIffSafe<T>(list: seq<T>, stops: T -> set<T>)
    requires Distinct(list)
    ensures Ends(Start(list), stops) <==> Safe(list, stops)
    ensures Safe(list, stops) ==>
      exists n: nat :: n <= |list| && Turns(Start(list), stops, n).at == None
                    && Turns(Start(list), stops, n).visited == Visits(list, stops)
  {
    if Safe(list, stops) {
      var n := WalkThatEnds(list, stops);
    } else {
      forall n: nat ensures Turns(Start(list), stops, n).at != None {
        assert [] + list == list;
        UnsafeWalk(Start(list), [], list, stops, n);
      }
    }
  }

  // ---- The walk from within ----

  lemma {:induction false} TurnsCompose<T>(w: Walk<T>, stops: T -> set<T>, n: nat, m: nat)
    ensures Turns(w, stops, n + m) == Turns(Turns(w, stops, n), stops, m)
    decreases n
  {
    if n > 0 {
      TurnsUnfold(w, stops, n + m);
      TurnsCompose(Turn(w, stops), stops, n - 1, m);
    }
  }

  lemma {:induction false} TurnsAtEnd<T>(w: Walk<T>, stops: T -> set<T>, n: nat)
    requires w.at == None
    ensures Turns(w, stops, n) == w
    decreases n
  {
    if n > 0 {
      TurnsAtEnd(w, stops, n - 1);
    }
  }

  lemma {:induction false} VisitedGrows<T>(w: Walk<T>, stops: T -> set<T>, n: nat)
    ensures w.visited <= Turns(w, stops, n).visited
    decreases n
  {
    if n > 0 {
      VisitedGrows(Turn(w, stops), stops, n - 1);
    }
  }

  lemma DistinctCons<T>(x: T, xs: seq<T>)
    requires Distinct(xs) && x !in xs
    ensures Distinct([x] + xs)
  {
    var all := [x] + xs;
    forall i, j | 0 <= i < j < |all| ensures all[i] != all[j] {
      assert all[j] == xs[j - 1];
    }
  }

  lemma {:induction false} VisitsAreDistinct<T>(rest: seq<T>, stops: T -> set<T>)
    requires Distinct(rest)
    ensures Distinct(Visits(rest, stops)) && AllIn(Visits(rest, stops), rest)
    decreases |rest|
  {
    if rest != [] {
      var rest' := Without(rest[1..], stops(rest[0]));
      WithoutDistinct(rest[1..], stops(rest[0]));
      VisitsAreDistinct(rest', stops);
      forall x | x in Visits(rest', stops) ensures x in rest && x != rest[0] {
        WithoutMembers(rest[1..], stops(rest[0]), x);
      }
      DistinctCons(rest[0], Visits(rest', stops));
    }
  }

  /** At the head after as many turns as there are alarms, or never. */
  lemma AtHeadIffSafe<T>(list: seq<T>, stops: T -> set<T>, n: nat)
    requires Distinct(list)
    ensures n >= |list| ==> (Turns(Start(list), stops, n).at == None <==> Safe(list, stops))
    ensures Turns(Start(list), stops, n).at == None ==> Safe(list, stops)
  {
    EndsIffSafe(list, stops);
    if Safe(list, stops) && n >= |list| {
      var m := WalkThatEnds(list, stops);
      TurnsCompose(Start(list), stops, m, n - m);
      TurnsAtEnd(Turns(Start(list), stops, m), stops, n - m);
    }
  }

  /** All that are stopped at the turns of some alarms. */
  function Gone<T(==)>(visited: seq<T>, stops: T -> set<T>): set<T> {
    if visited == [] then {} else Gone(visited[..|visited| - 1], stops) + stops(visited[|visited| - 1])
  }

  /** The list never holds anything but what it held, in its order, less what was stopped. */
  lemma {:induction false} ListIsWithoutGone<T>(list: seq<T>, stops: T -> set<T>, n: nat)
    ensures var t := Turns(Start(list), stops, n); t.list == Without(list, Gone(t.visited, stops))
    decreases n
  {
    if n == 0 {
      WithoutNone(list, {});
    } else {
      ListIsWithoutGone(list, stops, n - 1);
      TurnsCompose(Start(list), stops, n - 1, 1);
      var w := Turns(Start(list), stops, n - 1);
      if w.at.Some? {
        WithoutTwice(list, Gone(w.visited, stops), stops(w.at.value));
        assert (w.visited + [w.at.value])[..|w.visited|] == w.visited;
      }
    }
  }

  /** The walk after `i` of the `n` turns that it takes. */
  ghost predicate Onward<T>(list: seq<T>, stops: T -> set<T>, n: nat, i: nat, w: Walk<T>) {
    && i <= n && Distinct(list) && w == Turns(Start(list), stops, i)
    && var t := Turns(Start(list), stops, n);
      t.at == None && t.visited == Visits(list, stops) && AllIn(t.list, t.visited)
  }

  lemma OnwardFrom<T>(list: seq<T>, stops: T -> set<T>) returns (n: nat)
    requires Distinct(list) && Safe(list, stops)
    ensures Onward(list, stops, n, 0, Start(list))
  {
    n := WalkThatEnds(list, stops);
  }

  /** Until it ends it is at an alarm of the list, and at none twice. */
  lemma OnwardStep<T>(list: seq<T>, stops: T -> set<T>, n: nat, i: nat, w: Walk<T>, a: T)
    requires Onward(list, stops, n, i, w) && w.at == Some(a)
    ensures i < n && a in w.list && a !in w.visited
    ensures Onward(list, stops, n, i + 1, Turn(w, stops))
  {
    TurnsCompose(Start(list), stops, i, n - i);
    TurnsCompose(Start(list), stops, i, 1);
    VisitsAreDistinct(list, stops);
    TurnBeforeEnd(w, stops, n - i, a);
  }

  lemma TurnBeforeEnd<T>(w: Walk<T>, stops: T -> set<T>, m: nat, a: T)
    requires w.at == Some(a) && Turns(w, stops, m).at == None && Distinct(Turns(w, stops, m).visited)
    ensures m > 0 && a in w.list && a !in w.visited
  {
    if a !in w.list {
      Stuck(w, stops, m);
    }
    TurnsUnfold(w, stops, m);
    VisitedGrows(Turn(w, stops), stops, m - 1);
    NewInPrefix(w.visited, a, Turns(w, stops, m).visited);
  }

  /** At the head it has visited what it is to visit, and the list is what was not stopped. */
  lemma OnwardEnd<T>(list: seq<T>, stops: T -> set<T>, n: nat, i: nat, w: Walk<T>)
    requires Onward(list, stops, n, i, w) && w.at == None
    ensures w.visited == Visits(list, stops) && AllIn(w.list, w.visited)
    ensures w.list == Without(list, Gone(w.visited, stops))
  {
    TurnsCompose(Start(list), stops, i, n - i);
    TurnsAtEnd(w, stops, n - i);
    ListIsWithoutGone(list, stops, i);
  }

  lemma NewInPrefix<T>(xs: seq<T>, a: T, all: seq<T>)
    requires xs + [a] <= all && Distinct(all)
    ensures a !in xs
  {
    assert all[|xs|] == (xs + [a])[|xs|];
    forall i | 0 <= i < |xs| ensures xs[i] != a {
      assert all[i] == (xs + [a])[i];
    }
  }

  /** Two alarms, the first of which stops the second: the tick does not end. */
  lemma StoppingTheNextHangs<T>(a: T, b: T)
    requires a != b
    ensures var stops := (x: T) => if x == a then {b} else {};
      !Ends(Start([a, b]), stops)
  {
    var stops := (x: T) => if x == a then {b} else {};
    EndsIffSafe([a, b], stops);
  }
}
