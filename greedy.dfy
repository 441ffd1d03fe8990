/**
 * The greedy construction: splicing nearby points into a car's last leg,
 * assigning the best-rated points to their nearest unmarked car (with
 * speculative tie branches saved to a pool), and the driver that works
 * through the pool of partial solutions keeping the most profitable one.
 */
module Greedy {
  import opened Top
  import opened Scores
  import opened Rating
  import Utils

  /** The points not yet on any route. */
  ghost function UnvisitedSet(inst: Instance, visited: set<int>): (unvisited: set<int>)
  {
    set x | 0 <= x < inst.points && x !in visited
  }

  lemma UnvisitedShrinks(inst: Instance, v1: set<int>, v2: set<int>, p: int)
    requires v1 <= v2 && 0 <= p < inst.points && p in v2 && p !in v1
    ensures UnvisitedSet(inst, v2) < UnvisitedSet(inst, v1)
  {
    assert p in UnvisitedSet(inst, v1);
  }

  // ---------------------------------------------------------------------------
  // Specification of the insertion step

  /** The hop before the car's current position. */
  function PrevHop(inst: Instance, st: State, car: int): (q: int)
    requires WellFormed(inst, st) && 0 <= car < inst.cars && |st.routes[car]| >= 2
    ensures 0 <= q < inst.points
  {
    st.routes[car][|st.routes[car]| - 2]
  }

  /** How much longer the last leg gets by passing through x: d(cur, x) + d(prev, x) - d(cur, prev). */
  function Detour(inst: Instance, st: State, car: int, x: int): (d: real)
    requires WellFormed(inst, st) && 0 <= car < inst.cars && |st.routes[car]| >= 2 && 0 <= x < inst.points
  {
    var cur, prev := Position(inst, st, car), PrevHop(inst, st, car);
    inst.Distance(cur, x) + inst.Distance(prev, x) - inst.Distance(cur, prev)
  }

  /** An inner unvisited point whose detour from the last leg is admitted. */
  predicate IsCandidate(inst: Instance, st: State, car: int, maxDev: real, x: int)
    requires WellFormed(inst, st) && 0 <= car < inst.cars && |st.routes[car]| >= 2
  {
    1 <= x < inst.points - 1 && x !in st.visited && Detour(inst, st, car, x) <= maxDev
  }

  /** A candidate at minimum distance from the hop before the car's position. */
  ghost predicate IsNearestCandidate(inst: Instance, st: State, car: int, maxDev: real, x: int)
    requires WellFormed(inst, st) && 0 <= car < inst.cars && |st.routes[car]| >= 2
  {
    && IsCandidate(inst, st, car, maxDev, x)
    && forall y :: IsCandidate(inst, st, car, maxDev, y) ==>
         inst.Distance(x, PrevHop(inst, st, car)) <= inst.Distance(y, PrevHop(inst, st, car))
  }

  /**
   * The travel time of the car once x is spliced between the previous hop and
   * the current position: the time without the last hop, minus the closing
   * leg from prev, plus prev -> x -> last -> end.
   */
  function SplicedTime(inst: Instance, st: State, car: int, x: int): (t: real)
    requires WellFormed(inst, st) && 0 <= car < inst.cars && |st.routes[car]| >= 2 && 0 <= x < inst.points
  {
    var prev, last := PrevHop(inst, st, car), Position(inst, st, car);
    RolledBack(inst, st, car).times[car] - inst.Distance(prev, inst.End())
      + inst.Distance(prev, x) + inst.Distance(x, last) + inst.Distance(last, inst.End())
  }

  /**
   * After rolling back the last hop, a spliced point within budget can be moved to,
   * and so can the rolled-back hop right after it; the result is the splice.
   */
  lemma SpliceFeasible(inst: Instance, st: State, car: int, x: int)
    requires ValidState(inst, st) && 0 <= car < inst.cars && |st.routes[car]| >= 2
    requires 0 <= x < inst.points && x !in st.visited
    requires SplicedTime(inst, st, car, x) <= inst.maxTime
    ensures var rb := RolledBack(inst, st, car);
            var last := Position(inst, st, car);
            && ValidState(inst, rb)
            && Feasible(inst, rb, car, x)
            && ValidState(inst, Moved(inst, rb, car, x))
            && Feasible(inst, Moved(inst, rb, car, x), car, last)
            && Moved(inst, Moved(inst, rb, car, x), car, last).routes
               == st.routes[car := st.routes[car][..|st.routes[car]| - 1] + [x, last]]
            && Moved(inst, Moved(inst, rb, car, x), car, last).visited == st.visited + {x}
  {
    var rb := RolledBack(inst, st, car);
    var last := Position(inst, st, car);
    RolledBackHopFeasible(inst, st, car);
    Triangle(inst, x, last, inst.End());
    assert Feasible(inst, rb, car, x);
    MovedValid(inst, rb, car, x);
    var r := st.routes[car];
    assert rb.routes == st.routes[car := r[..|r| - 1]];
    assert (r[..|r| - 1] + [x]) + [last] == r[..|r| - 1] + [x, last];
  }

  // ---------------------------------------------------------------------------
  // The insertion step on the mutable solution

  /** The inner points, in index order, whose detour from the car's last leg is admitted. */
  method EllipseCandidates(sol: Solution, car: int, maxDev: real) returns (inEllipse: seq<int>)
    requires sol.Valid() && 0 <= car < sol.inst.cars && |sol.routes[car]| >= 2
    ensures forall x :: x in inEllipse <==> IsCandidate(sol.inst, sol.Snapshot(), car, maxDev, x)
    ensures forall i :: 0 <= i < |inEllipse| ==> 1 <= inEllipse[i] < sol.inst.points - 1
    ensures Utils.StrictlyIncreasing(inEllipse)
  {
    inEllipse := [];
    var point := 1;
    while point < sol.inst.points - 1
      invariant 1 <= point <= sol.inst.points - 1
      invariant forall x :: x in inEllipse <==> 1 <= x < point && IsCandidate(sol.inst, sol.Snapshot(), car, maxDev, x)
      invariant forall i :: 0 <= i < |inEllipse| ==> 1 <= inEllipse[i] < point
      invariant Utils.StrictlyIncreasing(inEllipse)
    {
      var ellipseDist := sol.inst.Distance(sol.CarPoint(car), point)
                       + sol.inst.Distance(sol.Hop(car, sol.Hops(car) - 2), point)
                       - sol.inst.Distance(sol.CarPoint(car), sol.Hop(car, sol.Hops(car) - 2));
      if !sol.Visited(point) && ellipseDist <= maxDev {
        Utils.AppendIncreasing(inEllipse, point);
        inEllipse := inEllipse + [point];
      }
      point := point + 1;
    }
  }

  /** The front of the candidates once ordered by distance from the car's position: a nearest one. */
  method NearestCandidate(sol: Solution, car: int, candidates: seq<int>) returns (node: int)
    requires sol.Valid() && 0 <= car < sol.inst.cars
    requires candidates != [] && forall i :: 0 <= i < |candidates| ==> 0 <= candidates[i] < sol.inst.points
    ensures node in candidates
    ensures forall y :: y in candidates ==>
              sol.inst.Distance(node, sol.CarPoint(car)) <= sol.inst.Distance(y, sol.CarPoint(car))
  {
    node := candidates[0];
    var i := 1;
    while i < |candidates|
      invariant 1 <= i <= |candidates|
      invariant node in candidates[..i]
      invariant forall j :: 0 <= j < i ==>
                  sol.inst.Distance(node, sol.CarPoint(car)) <= sol.inst.Distance(candidates[j], sol.CarPoint(car))
    {
      if sol.inst.Distance(candidates[i], sol.CarPoint(car)) < sol.inst.Distance(node, sol.CarPoint(car)) {
        node := candidates[i];
      }
      i := i + 1;
    }
    assert candidates[..i] == candidates;
  }

  /**
   * st' is st with n points spliced into the last leg of car: the route keeps
   * everything before its last hop and ends at the same hop, the other routes
   * are untouched, and nothing leaves the visited set.
   */
  ghost predicate SplicedInto(inst: Instance, st: State, st': State, car: int, n: nat)
    requires WellFormed(inst, st) && WellFormed(inst, st') && 0 <= car < inst.cars
  {
    && |st'.routes[car]| == |st.routes[car]| + n
    && st.routes[car][..|st.routes[car]| - 1] <= st'.routes[car]
    && st'.routes[car][|st'.routes[car]| - 1] == st.routes[car][|st.routes[car]| - 1]
    && (forall c :: 0 <= c < inst.cars && c != car ==> st'.routes[c] == st.routes[c])
    && st.visited <= st'.visited
  }

  /** Splicing nothing leaves the state as it is. */
  lemma SplicedIntoNothing(inst: Instance, st: State, car: int)
    requires WellFormed(inst, st) && 0 <= car < inst.cars
    ensures SplicedInto(inst, st, st, car, 0)
  {
    var r := st.routes[car];
    assert r[..|r| - 1] <= r;
  }

  /** One splice of x followed by more splices is 1 + more splices, and x stays where it was put. */
  lemma SplicedIntoStep(inst: Instance, st: State, mid: State, fin: State, car: int, x: int, more: nat)
    requires WellFormed(inst, st) && WellFormed(inst, mid) && WellFormed(inst, fin) && 0 <= car < inst.cars
    requires |st.routes[car]| >= 2
    requires mid.routes == st.routes[car := st.routes[car][..|st.routes[car]| - 1] + [x, st.routes[car][|st.routes[car]| - 1]]]
    requires st.visited <= mid.visited
    requires SplicedInto(inst, mid, fin, car, more)
    ensures SplicedInto(inst, st, fin, car, 1 + more)
    ensures fin.routes[car][|st.routes[car]| - 1] == x
  {
    var r, m := st.routes[car], mid.routes[car];
    assert m[..|m| - 1] == r[..|r| - 1] + [x];
    assert r[..|r| - 1] <= m[..|m| - 1];
  }

  /**
   * The first point InsertPoint splices into the last leg of car, which takes
   * the place of the last hop of st in st', is a candidate nearest to the hop
   * before that position, and the spliced route fits the budget.
   */
  ghost predicate FirstSplice(inst: Instance, maxDev: real, st: State, st': State, car: int)
    requires WellFormed(inst, st) && WellFormed(inst, st') && 0 <= car < inst.cars
  {
    && 2 <= |st.routes[car]| <= |st'.routes[car]|
    && IsNearestCandidate(inst, st, car, maxDev, st'.routes[car][|st.routes[car]| - 1])
    && SplicedTime(inst, st, car, st'.routes[car][|st.routes[car]| - 1]) <= inst.maxTime
  }

  /**
   * Splicing stops in st: the car has no candidate, or a candidate nearest to
   * the hop before its position does not fit the budget once spliced.
   */
  ghost predicate StopsSplicing(inst: Instance, maxDev: real, st: State, car: int)
    requires WellFormed(inst, st) && 0 <= car < inst.cars && |st.routes[car]| >= 2
  {
    || (forall x :: !IsCandidate(inst, st, car, maxDev, x))
    || exists x :: IsNearestCandidate(inst, st, car, maxDev, x) && SplicedTime(inst, st, car, x) > inst.maxTime
  }

  /**
   * One splice of InsertPoint from st to st': the car is away from the start
   * point, and a candidate nearest to the hop before its position, whose
   * spliced route fits the budget, is spliced in before its last hop.
   */
  ghost predicate SpliceStep(inst: Instance, maxDev: real, st: State, st': State, car: int)
  {
    && ValidState(inst, st) && 0 <= car < inst.cars
    && Position(inst, st, car) != inst.Start() && |st.routes[car]| >= 2
    && exists x :: && IsNearestCandidate(inst, st, car, maxDev, x)
                   && SplicedTime(inst, st, car, x) <= inst.maxTime
                   && st' == Spliced(inst, st, car, x)
  }

  /** InsertPoint stops in st: the car is at the start point, or splicing stops. */
  ghost predicate SpliceStop(inst: Instance, maxDev: real, st: State, car: int)
  {
    && ValidState(inst, st) && 0 <= car < inst.cars
    && (Position(inst, st, car) == inst.Start()
        || (|st.routes[car]| >= 2 && StopsSplicing(inst, maxDev, st, car)))
  }

  /** Every consecutive pair of s is related by step. */
  ghost predicate Chain<S>(step: (S, S) -> bool, s: seq<S>)
  {
    forall k :: 0 <= k < |s| - 1 ==> step(s[k], s[k + 1])
  }

  /** Appending an element related to the last one extends a chain. */
  lemma ChainSnoc<S>(step: (S, S) -> bool, s: seq<S>, x: S)
    requires Chain(step, s) && s != [] && step(s[|s| - 1], x)
    ensures Chain(step, s + [x])
  {
    var t := s + [x];
    forall k | 0 <= k < |t| - 1
      ensures step(t[k], t[k + 1])
    {
      if k < |s| - 1 {
        assert t[k] == s[k] && t[k + 1] == s[k + 1];
      }
    }
  }

  /** Prepending an element related to the first one extends a chain. */
  lemma ChainCons<S>(step: (S, S) -> bool, x: S, s: seq<S>)
    requires Chain(step, s) && s != [] && step(x, s[0])
    ensures Chain(step, [x] + s)
  {
    var t := [x] + s;
    forall k | 0 <= k < |t| - 1
      ensures step(t[k], t[k + 1])
    {
      if k > 0 {
        assert t[k] == s[k - 1] && t[k + 1] == s[k];
      }
    }
  }

  /** Dropping the first element of a chain leaves a chain. */
  lemma ChainTail<S>(step: (S, S) -> bool, s: seq<S>)
    requires Chain(step, s) && s != []
    ensures Chain(step, s[1..])
  {
    var t := s[1..];
    forall k | 0 <= k < |t| - 1
      ensures step(t[k], t[k + 1])
    {
      assert t[k] == s[k + 1] && t[k + 1] == s[k + 2];
    }
  }

  /** Consecutive states of a run of InsertPoint for car. */
  ghost function SpliceRel(inst: Instance, maxDev: real, car: int): (State, State) -> bool
  {
    (a: State, b: State) => SpliceStep(inst, maxDev, a, b, car)
  }

  /** The states of car where InsertPoint stops. */
  ghost function StopRel(inst: Instance, maxDev: real, car: int): State -> bool
  {
    (a: State) => SpliceStop(inst, maxDev, a, car)
  }

  /** s is not empty and its last element satisfies p. */
  ghost predicate EndsIn<S>(p: S -> bool, s: seq<S>)
  {
    s != [] && p(s[|s| - 1])
  }

  /** Prepending an element keeps the last one. */
  lemma EndsInCons<S>(p: S -> bool, x: S, s: seq<S>)
    requires EndsIn(p, s)
    ensures EndsIn(p, [x] + s)
  {
    assert ([x] + s)[|s|] == s[|s| - 1];
  }

  /** Dropping the first of at least two elements keeps the last one. */
  lemma EndsInTail<S>(p: S -> bool, s: seq<S>)
    requires EndsIn(p, s) && |s| >= 2
    ensures EndsIn(p, s[1..])
  {
    assert s[1..][|s| - 2] == s[|s| - 1];
  }

  /** trace is a run of InsertPoint: one splice between consecutive states, and a stop at the end. */
  ghost predicate InsertTrace(inst: Instance, maxDev: real, trace: seq<State>, car: int)
  {
    Chain(SpliceRel(inst, maxDev, car), trace) && EndsIn(StopRel(inst, maxDev, car), trace)
  }

  /** InsertPoint goes from st to st' with n splices. */
  ghost predicate InsertRun(inst: Instance, maxDev: real, st: State, st': State, car: int, n: nat)
  {
    exists trace :: InsertTrace(inst, maxDev, trace, car) && |trace| == n + 1 && trace[0] == st && trace[n] == st'
  }

  /** Stopping at once is a run with no splice. */
  lemma InsertRunStop(inst: Instance, maxDev: real, st: State, car: int)
    requires SpliceStop(inst, maxDev, st, car)
    ensures InsertRun(inst, maxDev, st, st, car, 0)
  {
    assert StopRel(inst, maxDev, car)([st][0]);
    assert InsertTrace(inst, maxDev, [st], car);
  }

  /** A splice followed by a run is a run with one more splice. */
  lemma InsertRunCons(inst: Instance, maxDev: real, st: State, mid: State, fin: State, car: int, more: nat)
    requires SpliceStep(inst, maxDev, st, mid, car) && InsertRun(inst, maxDev, mid, fin, car, more)
    ensures InsertRun(inst, maxDev, st, fin, car, 1 + more)
  {
    var trace :| InsertTrace(inst, maxDev, trace, car) && |trace| == more + 1 && trace[0] == mid && trace[more] == fin;
    var t := [st] + trace;
    assert SpliceRel(inst, maxDev, car)(st, trace[0]);
    ChainCons(SpliceRel(inst, maxDev, car), st, trace);
    EndsInCons(StopRel(inst, maxDev, car), st, trace);
    assert InsertTrace(inst, maxDev, t, car) && t[0] == st && t[1 + more] == fin;
  }

  /** A run of InsertPoint ends in a valid state with n points spliced into the car's last leg. */
  lemma InsertRunSplices(inst: Instance, maxDev: real, st: State, st': State, car: int, n: nat)
    requires InsertRun(inst, maxDev, st, st', car, n)
    ensures ValidState(inst, st) && ValidState(inst, st') && 0 <= car < inst.cars
    ensures SplicedInto(inst, st, st', car, n)
  {
    var trace :| InsertTrace(inst, maxDev, trace, car) && |trace| == n + 1 && trace[0] == st && trace[n] == st';
    InsertTraceSplices(inst, maxDev, trace, car);
  }

  /** The induction behind InsertRunSplices, along the trace. */
  lemma {:induction false} InsertTraceSplices(inst: Instance, maxDev: real, trace: seq<State>, car: int)
    requires InsertTrace(inst, maxDev, trace, car)
    ensures ValidState(inst, trace[0]) && ValidState(inst, trace[|trace| - 1]) && 0 <= car < inst.cars
    ensures SplicedInto(inst, trace[0], trace[|trace| - 1], car, |trace| - 1)
    decreases |trace|
  {
    var st := trace[0];
    if |trace| == 1 {
      assert StopRel(inst, maxDev, car)(trace[|trace| - 1]);
      SplicedIntoNothing(inst, st, car);
    } else {
      assert SpliceRel(inst, maxDev, car)(trace[0], trace[1]);
      var x :| && IsNearestCandidate(inst, st, car, maxDev, x)
               && SplicedTime(inst, st, car, x) <= inst.maxTime
               && trace[1] == Spliced(inst, st, car, x);
      var rest := trace[1..];
      ChainTail(SpliceRel(inst, maxDev, car), trace);
      EndsInTail(StopRel(inst, maxDev, car), trace);
      InsertTraceSplices(inst, maxDev, rest, car);
      assert rest[0] == trace[1] && rest[|rest| - 1] == trace[|trace| - 1];
      assert IsCandidate(inst, st, car, maxDev, x);
      SplicedThenMore(inst, st, trace[|trace| - 1], car, x, |trace| - 2);
    }
  }

  /**
   * Splices nearby unvisited points into the last leg of the car, one at a
   * time, while the travel time allows; returns how many were spliced.
   */
  method InsertPoint(sol: Solution, car: int, maxDev: real) returns (n: nat)
    requires sol.Valid() && 0 <= car < sol.inst.cars
    modifies sol
    decreases UnvisitedSet(sol.inst, sol.visited), 3
    ensures sol.Valid()
    ensures InsertRun(sol.inst, maxDev, old(sol.Snapshot()), sol.Snapshot(), car, n)
    ensures SplicedInto(sol.inst, old(sol.Snapshot()), sol.Snapshot(), car, n)
    ensures n == 0 ==> sol.Snapshot() == old(sol.Snapshot())
    ensures old(sol.CarPoint(car)) == sol.inst.Start() ==> n == 0
    ensures n > 0 ==> FirstSplice(sol.inst, maxDev, old(sol.Snapshot()), sol.Snapshot(), car)
    ensures n == 0 && old(sol.CarPoint(car)) != sol.inst.Start() ==>
              old(|sol.routes[car]|) >= 2 && StopsSplicing(sol.inst, maxDev, old(sol.Snapshot()), car)
  {
    SplicedIntoNothing(sol.inst, sol.Snapshot(), car);
    if sol.CarPoint(car) == sol.inst.Start() {
      InsertRunStop(sol.inst, maxDev, sol.Snapshot(), car);
      return 0;
    }
    AwayFromStartHasMoved(sol.inst, sol.Snapshot(), car);
    var inEllipse := EllipseCandidates(sol, car, maxDev);
    if inEllipse == [] {
      InsertRunStop(sol.inst, maxDev, sol.Snapshot(), car);
      return 0;
    }
    assert sol.routes == old(sol.routes) && sol.Snapshot() == old(sol.Snapshot());
    n := SpliceNearest(sol, car, maxDev, inEllipse);
  }

  /**
   * The step of InsertPoint once there are candidates: roll back the last hop,
   * take a candidate nearest to the new position, and, when the spliced route
   * fits the budget, move to it and back to the rolled-back hop and continue;
   * otherwise move back to the rolled-back hop and stop.
   */
  method SpliceNearest(sol: Solution, car: int, maxDev: real, inEllipse: seq<int>) returns (n: nat)
    requires sol.Valid() && 0 <= car < sol.inst.cars && |sol.routes[car]| >= 2
    requires sol.CarPoint(car) != sol.inst.Start()
    requires inEllipse != []
    requires forall x :: x in inEllipse <==> IsCandidate(sol.inst, sol.Snapshot(), car, maxDev, x)
    requires forall i :: 0 <= i < |inEllipse| ==> 1 <= inEllipse[i] < sol.inst.points - 1
    modifies sol
    decreases UnvisitedSet(sol.inst, sol.visited), 2
    ensures sol.Valid()
    ensures InsertRun(sol.inst, maxDev, old(sol.Snapshot()), sol.Snapshot(), car, n)
    ensures SplicedInto(sol.inst, old(sol.Snapshot()), sol.Snapshot(), car, n)
    ensures n == 0 ==> sol.Snapshot() == old(sol.Snapshot())
    ensures n > 0 ==> FirstSplice(sol.inst, maxDev, old(sol.Snapshot()), sol.Snapshot(), car)
    ensures n == 0 ==>
              exists x :: IsNearestCandidate(sol.inst, old(sol.Snapshot()), car, maxDev, x)
                       && SplicedTime(sol.inst, old(sol.Snapshot()), car, x) > sol.inst.maxTime
  {
    ghost var st := sol.Snapshot();
    var lastNode := sol.CarPoint(car);
    assert lastNode == st.routes[car][|st.routes[car]| - 1];
    sol.RollbackCar(car);
    var node := NearestCandidate(sol, car, inEllipse);
    assert IsNearestCandidate(sol.inst, st, car, maxDev, node);

    n := SpliceIfFits(sol, car, maxDev, node, lastNode, st);
    if n > 0 {
      assert FirstSplice(sol.inst, maxDev, st, sol.Snapshot(), car);
    }
  }

  /**
   * With the last hop of st rolled back and node a nearest candidate: splice
   * node and continue when the spliced route fits the budget, otherwise move
   * back to the rolled-back hop and stop.
   */
  method SpliceIfFits(sol: Solution, car: int, maxDev: real, node: int, lastNode: int, ghost st: State)
    returns (n: nat)
    requires ValidState(sol.inst, st) && 0 <= car < sol.inst.cars && |st.routes[car]| >= 2
    requires IsNearestCandidate(sol.inst, st, car, maxDev, node)
    requires lastNode == Position(sol.inst, st, car) && lastNode != sol.inst.Start()
    requires sol.Valid() && sol.Snapshot() == RolledBack(sol.inst, st, car)
    modifies sol
    decreases UnvisitedSet(sol.inst, st.visited), 1
    ensures sol.Valid()
    ensures InsertRun(sol.inst, maxDev, st, sol.Snapshot(), car, n)
    ensures SplicedInto(sol.inst, st, sol.Snapshot(), car, n)
    ensures n == 0 ==> sol.Snapshot() == st && SplicedTime(sol.inst, st, car, node) > sol.inst.maxTime
    ensures n > 0 ==>
              sol.routes[car][|st.routes[car]| - 1] == node && SplicedTime(sol.inst, st, car, node) <= sol.inst.maxTime
  {
    var dist := SpliceCost(sol, car, node, lastNode, st);
    if dist <= sol.inst.maxTime {
      n := SpliceAndContinue(sol, car, maxDev, node, lastNode, st);
    } else {
      RestoreLastHop(sol, car, maxDev, node, lastNode, st);
      n := 0;
    }
  }

  /** The travel time of the route with node spliced before the rolled-back last hop lastNode of st. */
  method SpliceCost(sol: Solution, car: int, node: int, lastNode: int, ghost st: State) returns (dist: real)
    requires ValidState(sol.inst, st) && 0 <= car < sol.inst.cars && |st.routes[car]| >= 2
    requires 0 <= node < sol.inst.points && lastNode == Position(sol.inst, st, car)
    requires sol.Valid() && sol.Snapshot() == RolledBack(sol.inst, st, car)
    ensures dist == SplicedTime(sol.inst, st, car, node)
  {
    dist := sol.TravelTime(car) - sol.inst.Distance(sol.CarPoint(car), sol.inst.End())
            + sol.inst.Distance(sol.CarPoint(car), node) + sol.inst.Distance(node, lastNode)
            + sol.inst.Distance(lastNode, sol.inst.End());
  }

  /**
   * The end of InsertPoint when the nearest candidate does not fit the budget:
   * with the last hop of st rolled back, move back to the rolled-back hop,
   * which restores st.
   */
  method RestoreLastHop(sol: Solution, car: int, maxDev: real, node: int, lastNode: int, ghost st: State)
    requires ValidState(sol.inst, st) && 0 <= car < sol.inst.cars && |st.routes[car]| >= 2
    requires Position(sol.inst, st, car) != sol.inst.Start()
    requires IsNearestCandidate(sol.inst, st, car, maxDev, node)
    requires SplicedTime(sol.inst, st, car, node) > sol.inst.maxTime
    requires lastNode == Position(sol.inst, st, car)
    requires sol.Valid() && sol.Snapshot() == RolledBack(sol.inst, st, car)
    modifies sol
    ensures sol.Valid() && sol.Snapshot() == st
    ensures InsertRun(sol.inst, maxDev, st, st, car, 0) && SplicedInto(sol.inst, st, st, car, 0)
  {
    MoveRedoesRollback(sol.inst, st, car);
    var reinserted := sol.MoveCar(car, lastNode);
    SplicedIntoNothing(sol.inst, st, car);
    InsertRunStop(sol.inst, maxDev, st, car);
  }

  /**
   * The splice itself: with the last hop of st rolled back, move to node and
   * back to the rolled-back hop, then splice further.
   */
  method SpliceAndContinue(sol: Solution, car: int, maxDev: real, node: int, lastNode: int, ghost st: State)
    returns (n: nat)
    requires ValidState(sol.inst, st) && 0 <= car < sol.inst.cars && |st.routes[car]| >= 2
    requires IsNearestCandidate(sol.inst, st, car, maxDev, node)
    requires SplicedTime(sol.inst, st, car, node) <= sol.inst.maxTime
    requires lastNode == Position(sol.inst, st, car) && lastNode != sol.inst.Start()
    requires sol.Valid() && sol.Snapshot() == RolledBack(sol.inst, st, car)
    modifies sol
    decreases UnvisitedSet(sol.inst, st.visited), 0
    ensures sol.Valid()
    ensures n > 0 && SplicedInto(sol.inst, st, sol.Snapshot(), car, n)
    ensures sol.routes[car][|st.routes[car]| - 1] == node
    ensures InsertRun(sol.inst, maxDev, st, sol.Snapshot(), car, n)
  {
    SpliceFeasible(sol.inst, st, car, node);
    ghost var mid := Spliced(sol.inst, st, car, node);
    var inserted := sol.MoveCar(car, node);
    var reinserted := sol.MoveCar(car, lastNode);
    assert sol.Snapshot() == mid;
    UnvisitedShrinks(sol.inst, st.visited, mid.visited, node);
    var more := InsertPoint(sol, car, maxDev);
    SplicedThenMore(sol.inst, st, sol.Snapshot(), car, node, more);
    n := 1 + more;
    assert SpliceStep(sol.inst, maxDev, st, mid, car);
    InsertRunCons(sol.inst, maxDev, st, mid, sol.Snapshot(), car, more);
  }

  /** The state after splicing x before the last hop of car: roll back, move to x, move back. */
  function Spliced(inst: Instance, st: State, car: int, x: int): (st': State)
    requires WellFormed(inst, st) && 0 <= car < inst.cars && |st.routes[car]| >= 2 && 0 <= x < inst.points
  {
    var rb := RolledBack(inst, st, car);
    Moved(inst, Moved(inst, rb, car, x), car, Position(inst, st, car))
  }

  /** A splice of x followed by more splices is 1 + more splices, with x right before the old last hop. */
  lemma SplicedThenMore(inst: Instance, st: State, fin: State, car: int, x: int, more: nat)
    requires ValidState(inst, st) && 0 <= car < inst.cars && |st.routes[car]| >= 2
    requires 0 <= x < inst.points && x !in st.visited
    requires SplicedTime(inst, st, car, x) <= inst.maxTime
    requires WellFormed(inst, fin)
    requires SplicedInto(inst, Spliced(inst, st, car, x), fin, car, more)
    ensures SplicedInto(inst, st, fin, car, 1 + more)
    ensures fin.routes[car][|st.routes[car]| - 1] == x
  {
    SpliceFeasible(inst, st, car, x);
    var mid := Spliced(inst, st, car, x);
    SplicedIntoStep(inst, st, mid, fin, car, x, more);
  }

  // ---------------------------------------------------------------------------
  // Assigning points to cars

  /** Rates every point; each hypothetical move made while rating is undone. */
  method RateAll(sol: Solution, w: Weights) returns (ratings: seq<Score>)
    requires sol.Valid()
    modifies sol
    ensures sol.Snapshot() == old(sol.Snapshot())
    ensures |ratings| == sol.inst.points
    ensures forall p :: 0 <= p < sol.inst.points ==> ratings[p] == PointRating(sol.inst, old(sol.Snapshot()), p, w)
  {
    ghost var st := sol.Snapshot();
    ratings := [];
    var p := 0;
    while p < sol.inst.points
      invariant 0 <= p <= sol.inst.points && |ratings| == p
      invariant sol.Snapshot() == st && sol.Valid()
      invariant forall q :: 0 <= q < p ==> ratings[q] == PointRating(sol.inst, st, q, w)
    {
      var feasible := VerifyFeasibility(sol, p);
      var r: Score;
      if !feasible {
        r := Ineligible;
      } else {
        r := RatingChoice(sol, p, w);
      }
      ratings := ratings + [r];
      p := p + 1;
    }
  }

  /**
   * car is the car min_element picks for p when marked cars compare as
   * farthest: a marked car only when every car is marked, and otherwise the
   * lowest-index unmarked car at minimum distance from p.
   */
  ghost predicate IsNearestUnmarked(inst: Instance, st: State, p: int, marked: seq<bool>, car: int)
    requires ValidState(inst, st) && 0 <= p < inst.points && |marked| == inst.cars
  {
    && 0 <= car < inst.cars
    && (marked[car] ==> forall c :: 0 <= c < inst.cars ==> marked[c])
    && (!marked[car] ==>
          forall c :: 0 <= c < inst.cars && !marked[c] ==>
            inst.Distance(Position(inst, st, car), p) <= inst.Distance(Position(inst, st, c), p))
    && (!marked[car] ==>
          forall c :: 0 <= c < car && !marked[c] ==>
            inst.Distance(Position(inst, st, car), p) < inst.Distance(Position(inst, st, c), p))
  }

  /** At most one unmarked car is the nearest unmarked car of p. */
  lemma NearestUnmarkedUnique(inst: Instance, st: State, p: int, marked: seq<bool>, c1: int, c2: int)
    requires ValidState(inst, st) && 0 <= p < inst.points && |marked| == inst.cars
    requires IsNearestUnmarked(inst, st, p, marked, c1) && !marked[c1]
    requires IsNearestUnmarked(inst, st, p, marked, c2) && !marked[c2]
    ensures c1 == c2
  {
  }

  /**
   * The car min_element picks for p when marked cars compare as farthest:
   * an unmarked car whenever there is one, the lowest-index unmarked car at
   * minimum distance from p.
   */
  method NearestUnmarkedCar(sol: Solution, p: int, marked: seq<bool>) returns (chosen: int)
    requires sol.Valid() && 0 <= p < sol.inst.points && sol.inst.cars >= 1 && |marked| == sol.inst.cars
    ensures 0 <= chosen < sol.inst.cars
    ensures marked[chosen] ==> forall c :: 0 <= c < sol.inst.cars ==> marked[c]
    ensures !marked[chosen] ==>
              forall c :: 0 <= c < sol.inst.cars && !marked[c] ==> CalculateDistance(sol, p, chosen) <= CalculateDistance(sol, p, c)
    ensures !marked[chosen] ==>
              forall c :: 0 <= c < chosen && !marked[c] ==> CalculateDistance(sol, p, chosen) < CalculateDistance(sol, p, c)
    ensures IsNearestUnmarked(sol.inst, sol.Snapshot(), p, marked, chosen)
  {
    chosen := 0;
    var c := 1;
    while c < sol.inst.cars
      invariant 1 <= c <= sol.inst.cars && 0 <= chosen < c
      invariant marked[chosen] ==> forall c' :: 0 <= c' < c ==> marked[c']
      invariant !marked[chosen] ==>
                  forall c' :: 0 <= c' < c && !marked[c'] ==> CalculateDistance(sol, p, chosen) <= CalculateDistance(sol, p, c')
      invariant !marked[chosen] ==>
                  forall c' :: 0 <= c' < chosen && !marked[c'] ==> CalculateDistance(sol, p, chosen) < CalculateDistance(sol, p, c')
    {
      if !marked[c] && (marked[chosen] || CalculateDistance(sol, p, c) < CalculateDistance(sol, p, chosen)) {
        chosen := c;
      }
      c := c + 1;
    }
  }

  /**
   * One speculative branch: when p is unvisited and car can move to it, move,
   * splice, push a snapshot of the result to the pool, and roll back the
   * move and every splice.
   */
  method SpeculativeBranch(sol: Solution, pool: seq<State>, p: int, car: int, maxDev: real)
    returns (pool': seq<State>, ghost backhops: nat)
    requires sol.Valid() && 0 <= p < sol.inst.points && 0 <= car < sol.inst.cars
    modifies sol
    ensures sol.Snapshot() == old(sol.Snapshot())
    ensures !Feasible(sol.inst, old(sol.Snapshot()), car, p) ==> pool' == pool
    ensures Feasible(sol.inst, old(sol.Snapshot()), car, p) ==>
              && |pool'| == |pool| + 1 && pool'[..|pool|] == pool
              && ValidState(sol.inst, pool'[|pool|])
              && SplicedInto(sol.inst, Moved(sol.inst, old(sol.Snapshot()), car, p), pool'[|pool|], car, backhops)
              && InsertRun(sol.inst, maxDev, Moved(sol.inst, old(sol.Snapshot()), car, p), pool'[|pool|], car, backhops)
  {
    ghost var pre := sol.Snapshot();
    pool', backhops := pool, 0;
    if sol.Visited(p) {
      return;
    }
    var feasible := sol.MoveCar(car, p);
    if !feasible {
      return;
    }
    ghost var moved := sol.Snapshot();
    var inserted := InsertPoint(sol, car, maxDev);
    backhops := inserted;
    pool' := pool + [sol.Snapshot()];
    assert (pre.routes[car] + [p])[..|pre.routes[car]|] == pre.routes[car];

    RollbackHops(sol, car, inserted, pre);
  }

  /**
   * Rolls car back over backhops + 1 hops; when the current state extends pre
   * by exactly that many hops of car, this restores pre.
   */
  method RollbackHops(sol: Solution, car: int, backhops: nat, ghost pre: State)
    requires sol.Valid() && ValidState(sol.inst, pre) && 0 <= car < sol.inst.cars
    requires |sol.routes[car]| == |pre.routes[car]| + 1 + backhops
    requires pre.routes[car] <= sol.routes[car]
    requires forall c :: 0 <= c < sol.inst.cars && c != car ==> sol.routes[c] == pre.routes[c]
    modifies sol
    ensures sol.Snapshot() == pre
  {
    var j := 0;
    while j <= backhops
      invariant 0 <= j <= backhops + 1
      invariant sol.Valid()
      invariant |sol.routes[car]| == |pre.routes[car]| + 1 + backhops - j
      invariant pre.routes[car] <= sol.routes[car]
      invariant forall c :: 0 <= c < sol.inst.cars && c != car ==> sol.routes[c] == pre.routes[c]
    {
      sol.RollbackCar(car);
      j := j + 1;
    }
    assert sol.routes[car] == pre.routes[car];
    assert sol.routes == pre.routes;
    RoutesDetermineState(sol.inst, sol.Snapshot(), pre);
  }

  /** pool' is pool with valid solutions pushed on top. */
  ghost predicate ExtendsPool(inst: Instance, pool: seq<State>, pool': seq<State>)
  {
    && |pool| <= |pool'| && pool'[..|pool|] == pool
    && forall i :: |pool| <= i < |pool'| ==> ValidState(inst, pool'[i])
  }

  lemma ExtendsPoolTransitive(inst: Instance, p1: seq<State>, p2: seq<State>, p3: seq<State>)
    requires ExtendsPool(inst, p1, p2) && ExtendsPool(inst, p2, p3)
    ensures ExtendsPool(inst, p1, p3)
  {
    assert p3[..|p1|] == p2[..|p1|];
    forall i | |p1| <= i < |p3|
      ensures ValidState(inst, p3[i])
    {
      if i < |p2| {
        assert p3[i] == p2[i];
      }
    }
  }

  /** p spawns a branch: its nearest unmarked car is unmarked and can take it. */
  ghost predicate Branches(inst: Instance, st: State, p: int, marked: seq<bool>)
    requires ValidState(inst, st) && 0 <= p < inst.points && |marked| == inst.cars
  {
    exists car :: IsNearestUnmarked(inst, st, p, marked, car) && !marked[car] && Feasible(inst, st, car, p)
  }

  /** s is the branch of p through car: the move of car to p followed by InsertPoint's splices. */
  ghost predicate IsBranch(inst: Instance, maxDev: real, st: State, p: int, marked: seq<bool>, car: int, s: State)
    requires ValidState(inst, st) && 0 <= p < inst.points && |marked| == inst.cars
  {
    && IsNearestUnmarked(inst, st, p, marked, car) && !marked[car] && Feasible(inst, st, car, p)
    && ValidState(inst, s)
    && exists n :: InsertRun(inst, maxDev, Moved(inst, st, car, p), s, car, n)
  }

  /**
   * The account the speculative pass keeps after the tied points before i:
   * pool' is pool with one valid branch pushed for each picked index, in
   * order, and the picked indices are exactly those of the points that branch.
   */
  ghost predicate PassAccount(inst: Instance, maxDev: real, st: State, pool: seq<State>, pool': seq<State>, maxPoints: seq<int>,
                              marked: seq<bool>, picked: seq<int>, pickedCars: seq<int>, i: int)
    requires ValidState(inst, st) && |marked| == inst.cars
    requires forall j :: 0 <= j < |maxPoints| ==> 0 <= maxPoints[j] < inst.points
  {
    && ExtendsPool(inst, pool, pool')
    && |pool'| == |pool| + |picked| && |pickedCars| == |picked|
    && Utils.StrictlyIncreasing(picked)
    && (forall k :: 0 <= k < |picked| ==> picked[k] < i)
    && (forall j :: j in picked <==> 1 <= j < i && j < |maxPoints| && Branches(inst, st, maxPoints[j], marked))
    && (forall k :: 0 <= k < |picked| ==>
          1 <= picked[k] < |maxPoints|
          && IsBranch(inst, maxDev, st, maxPoints[picked[k]], marked, pickedCars[k], pool'[|pool| + k]))
  }

  /**
   * The speculative pass over the tied best points after the first: each one
   * whose nearest unmarked car can take it becomes a branch in the pool, in
   * the order of the points.
   */
  method SpeculativeBranches(sol: Solution, pool: seq<State>, maxPoints: seq<int>, marked: seq<bool>, maxDev: real)
    returns (pool': seq<State>, ghost picked: seq<int>, ghost pickedCars: seq<int>)
    requires sol.Valid() && sol.inst.cars >= 1 && |marked| == sol.inst.cars
    requires forall i :: 0 <= i < |maxPoints| ==> 0 <= maxPoints[i] < sol.inst.points
    modifies sol
    ensures sol.Snapshot() == old(sol.Snapshot())
    ensures ExtendsPool(sol.inst, pool, pool')
    ensures |pool'| == |pool| + |picked| && |pickedCars| == |picked|
    ensures Utils.StrictlyIncreasing(picked)
    ensures forall i :: i in picked <==> 1 <= i < |maxPoints| && Branches(sol.inst, old(sol.Snapshot()), maxPoints[i], marked)
    ensures forall k :: 0 <= k < |picked| ==>
              1 <= picked[k] < |maxPoints|
              && IsBranch(sol.inst, maxDev, old(sol.Snapshot()), maxPoints[picked[k]], marked, pickedCars[k], pool'[|pool| + k])
    ensures PassAccount(sol.inst, maxDev, old(sol.Snapshot()), pool, pool', maxPoints, marked, picked, pickedCars, |maxPoints|)
    ensures AllMarked(marked) ==> pool' == pool
  {
    ghost var st := sol.Snapshot();
    pool', picked, pickedCars := pool, [], [];
    var i := 1;
    while i < |maxPoints|
      invariant 1 <= i && (i <= |maxPoints| || i == 1)
      invariant sol.Snapshot() == st && sol.Valid()
      invariant PassAccount(sol.inst, maxDev, st, pool, pool', maxPoints, marked, picked, pickedCars, i)
      invariant |maxPoints| == 0 ==> picked == []
      invariant AllMarked(marked) ==> pool' == pool
    {
      ghost var before := pool';
      ghost var car, pushed;
      pool', car, pushed := BranchOn(sol, pool', maxPoints[i], marked, maxDev);
      if pushed {
        PassPush(sol.inst, maxDev, st, pool, before, pool', maxPoints, marked, picked, pickedCars, i, car);
        picked, pickedCars := picked + [i], pickedCars + [car];
      } else {
        PassSkip(sol.inst, maxDev, st, pool, pool', maxPoints, marked, picked, pickedCars, i);
      }
      i := i + 1;
    }
  }

  /** A tied point that does not branch leaves the account as it is. */
  lemma PassSkip(inst: Instance, maxDev: real, st: State, pool: seq<State>, pool': seq<State>, maxPoints: seq<int>,
                 marked: seq<bool>, picked: seq<int>, pickedCars: seq<int>, i: int)
    requires ValidState(inst, st) && |marked| == inst.cars
    requires forall j :: 0 <= j < |maxPoints| ==> 0 <= maxPoints[j] < inst.points
    requires 1 <= i < |maxPoints| && !Branches(inst, st, maxPoints[i], marked)
    requires PassAccount(inst, maxDev, st, pool, pool', maxPoints, marked, picked, pickedCars, i)
    ensures PassAccount(inst, maxDev, st, pool, pool', maxPoints, marked, picked, pickedCars, i + 1)
  {
    forall j
      ensures j in picked <==> 1 <= j < i + 1 && j < |maxPoints| && Branches(inst, st, maxPoints[j], marked)
    {
      if j == i {
        assert forall k :: 0 <= k < |picked| ==> picked[k] != j;
      }
    }
  }

  /** A tied point that branches is picked, and its branch is the next entry of the pool. */
  lemma PassPush(inst: Instance, maxDev: real, st: State, pool: seq<State>, before: seq<State>, after: seq<State>,
                 maxPoints: seq<int>, marked: seq<bool>, picked: seq<int>, pickedCars: seq<int>, i: int, car: int)
    requires ValidState(inst, st) && |marked| == inst.cars
    requires forall j :: 0 <= j < |maxPoints| ==> 0 <= maxPoints[j] < inst.points
    requires 1 <= i < |maxPoints| && Branches(inst, st, maxPoints[i], marked)
    requires PassAccount(inst, maxDev, st, pool, before, maxPoints, marked, picked, pickedCars, i)
    requires |after| == |before| + 1 && after[..|before|] == before
    requires IsBranch(inst, maxDev, st, maxPoints[i], marked, car, after[|before|])
    ensures PassAccount(inst, maxDev, st, pool, after, maxPoints, marked, picked + [i], pickedCars + [car], i + 1)
  {
    assert ValidState(inst, after[|before|]);
    forall k | |before| <= k < |after|
      ensures ValidState(inst, after[k])
    {
      assert k == |before|;
    }
    ExtendsPoolTransitive(inst, pool, before, after);
    Utils.AppendIncreasing(picked, i);
    PushBranch(inst, maxDev, st, pool, before, after, maxPoints, marked, picked, pickedCars, i, car);
    forall j
      ensures j in picked + [i] <==> 1 <= j < i + 1 && j < |maxPoints| && Branches(inst, st, maxPoints[j], marked)
    {
      if j != i {
        assert j in picked + [i] <==> j in picked;
      }
    }
  }

  /**
   * The speculative step for one tied point p: when its nearest unmarked car
   * can take it, push the branch of p through that car to the pool.
   */
  method BranchOn(sol: Solution, pool: seq<State>, p: int, marked: seq<bool>, maxDev: real)
    returns (pool': seq<State>, ghost car: int, ghost pushed: bool)
    requires sol.Valid() && 0 <= p < sol.inst.points && sol.inst.cars >= 1 && |marked| == sol.inst.cars
    modifies sol
    ensures sol.Snapshot() == old(sol.Snapshot())
    ensures pushed <==> Branches(sol.inst, old(sol.Snapshot()), p, marked)
    ensures !pushed ==> pool' == pool
    ensures AllMarked(marked) ==> !pushed
    ensures pushed ==> |pool'| == |pool| + 1 && pool'[..|pool|] == pool
                       && IsBranch(sol.inst, maxDev, old(sol.Snapshot()), p, marked, car, pool'[|pool|])
  {
    ghost var st := sol.Snapshot();
    var chosenCar := NearestUnmarkedCar(sol, p, marked);
    car, pushed := chosenCar, false;
    if marked[chosenCar] {
      pool' := pool;
      return;
    }
    ghost var backhops;
    pool', backhops := SpeculativeBranch(sol, pool, p, chosenCar, maxDev);
    pushed := Feasible(sol.inst, st, chosenCar, p);
    if !pushed {
      forall c | IsNearestUnmarked(sol.inst, st, p, marked, c) && !marked[c]
        ensures !Feasible(sol.inst, st, c, p)
      {
        NearestUnmarkedUnique(sol.inst, st, p, marked, c, chosenCar);
      }
    }
  }

  /** Pushing the branch of the i-th tied point keeps the pass's account of the pool. */
  lemma PushBranch(inst: Instance, maxDev: real, st: State, pool: seq<State>, before: seq<State>, after: seq<State>,
                   maxPoints: seq<int>, marked: seq<bool>, picked: seq<int>, pickedCars: seq<int>, i: int, car: int)
    requires ValidState(inst, st) && |marked| == inst.cars
    requires forall j :: 0 <= j < |maxPoints| ==> 0 <= maxPoints[j] < inst.points
    requires 1 <= i < |maxPoints|
    requires |before| == |pool| + |picked| && |pickedCars| == |picked|
    requires |after| == |before| + 1 && after[..|before|] == before
    requires IsBranch(inst, maxDev, st, maxPoints[i], marked, car, after[|before|])
    requires forall k :: 0 <= k < |picked| ==>
               1 <= picked[k] < |maxPoints|
               && IsBranch(inst, maxDev, st, maxPoints[picked[k]], marked, pickedCars[k], before[|pool| + k])
    ensures forall k :: 0 <= k < |picked| + 1 ==>
              1 <= (picked + [i])[k] < |maxPoints|
              && IsBranch(inst, maxDev, st, maxPoints[(picked + [i])[k]], marked, (pickedCars + [car])[k], after[|pool| + k])
  {
    forall k | 0 <= k < |picked| + 1
      ensures 1 <= (picked + [i])[k] < |maxPoints|
      ensures IsBranch(inst, maxDev, st, maxPoints[(picked + [i])[k]], marked, (pickedCars + [car])[k], after[|pool| + k])
    {
      if k < |picked| {
        assert (picked + [i])[k] == picked[k] && (pickedCars + [car])[k] == pickedCars[k];
        assert after[|pool| + k] == before[|pool| + k];
        assert IsBranch(inst, maxDev, st, maxPoints[picked[k]], marked, pickedCars[k], before[|pool| + k]);
      } else {
        assert (picked + [i])[k] == i && (pickedCars + [car])[k] == car && |pool| + k == |before|;
      }
    }
  }

  /** The rating of p as the double the heuristic compares. */
  ghost function RatingValue(inst: Instance, st: State, w: Weights, p: int): (d: Score)
    requires ValidState(inst, st) && 0 <= p < inst.points
    ensures d != Ineligible
  {
    AsDouble(PointRating(inst, st, p, w))
  }

  /** p has the highest rating: no point is rated above it. */
  ghost predicate IsTopRated(inst: Instance, st: State, w: Weights, p: int)
    requires ValidState(inst, st)
  {
    0 <= p < inst.points &&
    forall q :: 0 <= q < inst.points ==> ScoreCmp(RatingValue(inst, st, w, q), RatingValue(inst, st, w, p)) <= 0.0
  }

  /**
   * Rates every point and selects the points tied for the highest rating, in
   * index order (min_elements under the inverted comparison). When the highest
   * rating is infinite, so_negcmp of two such ratings is NaN, which is neither
   * below nor level with zero, so min_elements keeps only the first of them.
   */
  method TopRated(sol: Solution, w: Weights) returns (maxPoints: seq<int>)
    requires sol.Valid()
    modifies sol
    ensures sol.Snapshot() == old(sol.Snapshot())
    ensures maxPoints != [] && Utils.StrictlyIncreasing(maxPoints)
    ensures forall i :: 0 <= i < |maxPoints| ==> 0 <= maxPoints[i] < sol.inst.points
    ensures forall p :: p in maxPoints ==> IsTopRated(sol.inst, old(sol.Snapshot()), w, p)
    ensures forall p :: 0 <= p < maxPoints[0] ==> !IsTopRated(sol.inst, old(sol.Snapshot()), w, p)
    ensures RatingValue(sol.inst, old(sol.Snapshot()), w, maxPoints[0]).Rated? ==>
              forall p :: IsTopRated(sol.inst, old(sol.Snapshot()), w, p) ==> p in maxPoints
    ensures !RatingValue(sol.inst, old(sol.Snapshot()), w, maxPoints[0]).Rated? ==> |maxPoints| == 1
  {
    ghost var st := sol.Snapshot();
    var ratings := RateAll(sol, w);
    ScoreNegCmpIsThreeWay();
    var prov := q => if 0 <= q < |ratings| then AsDouble(ratings[q]) else NegUnbounded;
    maxPoints := Utils.MinElementsUpTo(sol.inst.points, ScoreNegCmp, prov);
    forall q | 0 <= q < sol.inst.points
      ensures prov(q) == RatingValue(sol.inst, st, w, q)
    {
    }
    MinimaAreTopRated(sol.inst, st, w, prov);
    forall i | 0 <= i < |maxPoints|
      ensures 0 <= maxPoints[i] < sol.inst.points
    {
      assert maxPoints[i] in maxPoints;
    }
    if !prov(maxPoints[0]).Rated? {
      maxPoints := maxPoints[..1];
    }
  }

  /** Over the ratings of every point, the minima under the inverted comparison are the top-rated points. */
  lemma MinimaAreTopRated(inst: Instance, st: State, w: Weights, prov: int -> Score)
    requires ValidState(inst, st)
    requires forall q :: 0 <= q < inst.points ==> prov(q) == RatingValue(inst, st, w, q)
    ensures forall p :: Utils.IsMinIdx(ScoreNegCmp, prov, 0, inst.points, p) <==> IsTopRated(inst, st, w, p)
  {
    forall p | 0 <= p < inst.points
      ensures Utils.IsMinIdx(ScoreNegCmp, prov, 0, inst.points, p) <==> IsTopRated(inst, st, w, p)
    {
      forall q | 0 <= q < inst.points
        ensures ScoreNegCmp(prov(p), prov(q)) == ScoreCmp(RatingValue(inst, st, w, q), RatingValue(inst, st, w, p))
      {
      }
    }
  }

  /** The cars not yet marked as finished. */
  ghost function Unmarked(marked: seq<bool>): (cars: set<int>)
  {
    set c | 0 <= c < |marked| && !marked[c]
  }

  lemma MarkingShrinks(marked: seq<bool>, c: int)
    requires 0 <= c < |marked| && !marked[c]
    ensures Unmarked(marked[c := true]) < Unmarked(marked)
  {
    assert c in Unmarked(marked);
  }

  /**
   * Commits the best point to the chosen car and splices around it; fails,
   * changing nothing, when the point is visited or the move is infeasible.
   */
  method AssignPoint(sol: Solution, p: int, car: int, maxDev: real) returns (committed: bool, ghost spliced: nat)
    requires sol.Valid() && 0 <= p < sol.inst.points && 0 <= car < sol.inst.cars
    modifies sol
    ensures sol.Valid()
    ensures committed <==> Feasible(sol.inst, old(sol.Snapshot()), car, p)
    ensures !committed ==> sol.Snapshot() == old(sol.Snapshot())
    ensures committed ==> SplicedInto(sol.inst, Moved(sol.inst, old(sol.Snapshot()), car, p), sol.Snapshot(), car, spliced)
    ensures committed ==> InsertRun(sol.inst, maxDev, Moved(sol.inst, old(sol.Snapshot()), car, p), sol.Snapshot(), car, spliced)
    ensures committed ==> p !in old(sol.visited) && p in sol.visited
    ensures old(sol.visited) <= sol.visited
    ensures forall c :: 0 <= c < sol.inst.cars ==> old(sol.routes[c]) <= sol.routes[c]
  {
    ghost var start := sol.Snapshot();
    spliced := 0;
    if sol.Visited(p) {
      return false, 0;
    }
    committed := sol.MoveCar(car, p);
    if !committed {
      return;
    }
    var inserted := InsertPoint(sol, car, maxDev);
    spliced := inserted;
    MoveThenSpliceExtends(sol.inst, start, sol.Snapshot(), car, p, inserted);
  }

  /** A move followed by splices only extends routes: every old route is a prefix of the new one. */
  lemma MoveThenSpliceExtends(inst: Instance, st: State, fin: State, car: int, p: int, n: nat)
    requires WellFormed(inst, st) && WellFormed(inst, fin) && 0 <= car < inst.cars && 0 <= p < inst.points
    requires SplicedInto(inst, Moved(inst, st, car, p), fin, car, n)
    ensures forall c :: 0 <= c < inst.cars ==> st.routes[c] <= fin.routes[c]
  {
    var r := st.routes[car];
    var moved := Moved(inst, st, car, p);
    assert moved.routes[car][..|moved.routes[car]| - 1] == r;
    forall c | 0 <= c < inst.cars
      ensures st.routes[c] <= fin.routes[c]
    {
      if c != car {
        assert moved.routes[c] == st.routes[c];
      }
    }
  }

  /** Every car is marked as finished. */
  ghost predicate AllMarked(marked: seq<bool>)
  {
    forall c :: 0 <= c < |marked| ==> marked[c]
  }

  /**
   * maxPoints is the list the rating pass selects in st: top-rated points in
   * increasing order from the lowest one; all of them when the top rating is
   * finite, and only the lowest when it is infinite.
   */
  ghost predicate IsTopList(inst: Instance, st: State, w: Weights, maxPoints: seq<int>)
    requires ValidState(inst, st)
  {
    && maxPoints != [] && Utils.StrictlyIncreasing(maxPoints)
    && (forall i :: 0 <= i < |maxPoints| ==> 0 <= maxPoints[i] < inst.points)
    && (forall p :: p in maxPoints ==> IsTopRated(inst, st, w, p))
    && (forall p :: 0 <= p < maxPoints[0] ==> !IsTopRated(inst, st, w, p))
    && (RatingValue(inst, st, w, maxPoints[0]).Rated? ==> forall p :: IsTopRated(inst, st, w, p) ==> p in maxPoints)
    && (!RatingValue(inst, st, w, maxPoints[0]).Rated? ==> |maxPoints| == 1)
  }

  /**
   * The speculative part of a round in st whose first selected point is p:
   * pool' is pool with one branch pushed for each selected point after the
   * first whose nearest unmarked car can take it, in order.
   */
  ghost predicate Speculates(inst: Instance, w: Weights, maxDev: real, st: State, marked: seq<bool>, p: int,
                             pool: seq<State>, pool': seq<State>)
    requires ValidState(inst, st) && |marked| == inst.cars
  {
    exists maxPoints, picked, pickedCars ::
      && IsTopList(inst, st, w, maxPoints) && maxPoints[0] == p
      && PassAccount(inst, maxDev, st, pool, pool', maxPoints, marked, picked, pickedCars, |maxPoints|)
  }

  /**
   * One round of the greedy loop through p and car: the round's branches are
   * pushed; p is the first top-rated point and car its nearest unmarked car,
   * which is unmarked; when car can take p, the move and InsertPoint's
   * splices are committed, otherwise car is marked and the solution is
   * unchanged.
   */
  ghost predicate StepVia(inst: Instance, w: Weights, maxDev: real, st: State, marked: seq<bool>, pool: seq<State>,
                          st': State, marked': seq<bool>, pool': seq<State>, p: int, car: int)
    requires ValidState(inst, st) && ValidState(inst, st') && |marked| == inst.cars
  {
    && 0 <= p < inst.points
    && Speculates(inst, w, maxDev, st, marked, p, pool, pool')
    && IsNearestUnmarked(inst, st, p, marked, car)
    && !marked[car]
    && (Feasible(inst, st, car, p) ==>
          marked' == marked && exists n :: InsertRun(inst, maxDev, Moved(inst, st, car, p), st', car, n))
    && (!Feasible(inst, st, car, p) ==> marked' == marked[car := true] && st' == st)
  }

  /** One round of the greedy loop that assigns or marks, through its first top-rated point and that point's car. */
  ghost predicate GreedyStep(inst: Instance, w: Weights, maxDev: real, st: State, marked: seq<bool>, pool: seq<State>,
                             st': State, marked': seq<bool>, pool': seq<State>)
    requires ValidState(inst, st) && ValidState(inst, st') && |marked| == inst.cars
  {
    exists p, car :: StepVia(inst, w, maxDev, st, marked, pool, st', marked', pool', p, car)
  }

  /** What the greedy loop carries from one round to the next: the solution, the marked cars and the pool. */
  datatype Round = Round(st: State, marked: seq<bool>, pool: seq<State>)

  /** Consecutive rounds of a greedy run: both solutions valid and a GreedyStep from one to the other. */
  ghost function RoundStep(inst: Instance, w: Weights, maxDev: real): (Round, Round) -> bool
  {
    (a: Round, b: Round) =>
      && ValidState(inst, a.st) && ValidState(inst, b.st) && |a.marked| == inst.cars
      && GreedyStep(inst, w, maxDev, a.st, a.marked, a.pool, b.st, b.marked, b.pool)
  }

  /**
   * run is a run of the greedy loop: it starts with no car marked and every
   * round is a GreedyStep from the one before.
   */
  ghost predicate GreedyRun(inst: Instance, w: Weights, maxDev: real, run: seq<Round>)
  {
    && run != []
    && ValidState(inst, run[0].st) && run[0].marked == seq(inst.cars, _ => false)
    && Chain(RoundStep(inst, w, maxDev), run)
  }

  /**
   * SolverGreedy goes from st with pool to fin with pool': a greedy run from
   * one to the other that leaves every car marked.
   */
  ghost predicate Completes(inst: Instance, w: Weights, maxDev: real, st: State, pool: seq<State>,
                            fin: State, pool': seq<State>)
  {
    exists run: seq<Round> ::
      && GreedyRun(inst, w, maxDev, run)
      && run[0].st == st && run[0].pool == pool
      && run[|run| - 1].st == fin && run[|run| - 1].pool == pool'
      && AllMarked(run[|run| - 1].marked)
  }

  /** A greedy run that leaves every car marked completes its first solution. */
  lemma RunCompletes(inst: Instance, w: Weights, maxDev: real, run: seq<Round>)
    requires GreedyRun(inst, w, maxDev, run) && AllMarked(run[|run| - 1].marked)
    ensures Completes(inst, w, maxDev, run[0].st, run[0].pool, run[|run| - 1].st, run[|run| - 1].pool)
  {
  }

  /**
   * The greedy construction: repeatedly rate the points, branch on the tied
   * best points after the first, and assign the first best point to its
   * nearest unmarked car, marking the car when it cannot take the point;
   * stops once every car is marked. The rounds that assign or mark are
   * returned as a greedy run.
   */
  method SolverGreedy(sol: Solution, pool: seq<State>, w: Weights, maxDev: real)
    returns (pool': seq<State>, ghost run: seq<Round>)
    requires sol.Valid() && sol.inst.cars >= 1
    modifies sol
    ensures sol.Valid()
    ensures ExtendsPool(sol.inst, pool, pool')
    ensures GreedyRun(sol.inst, w, maxDev, run)
    ensures run[0].st == old(sol.Snapshot()) && run[0].pool == pool
    ensures run[|run| - 1].st == sol.Snapshot() && run[|run| - 1].pool == pool'
    ensures AllMarked(run[|run| - 1].marked)
    ensures forall c :: 0 <= c < sol.inst.cars ==> old(sol.routes[c]) <= sol.routes[c]
    ensures old(sol.visited) <= sol.visited
  {
    var markedCars := seq(sol.inst.cars, _ => false);
    pool' := pool;
    run := [Round(sol.Snapshot(), markedCars, pool)];
    while true
      invariant sol.Valid() && |markedCars| == sol.inst.cars
      invariant ExtendsPool(sol.inst, pool, pool')
      invariant GreedyRun(sol.inst, w, maxDev, run)
      invariant run[0].st == old(sol.Snapshot()) && run[0].pool == pool
      invariant run[|run| - 1] == Round(sol.Snapshot(), markedCars, pool')
      invariant forall c :: 0 <= c < sol.inst.cars ==> old(sol.routes[c]) <= sol.routes[c]
      invariant old(sol.visited) <= sol.visited
      decreases UnvisitedSet(sol.inst, sol.visited), Unmarked(markedCars)
    {
      ghost var before := Round(sol.Snapshot(), markedCars, pool');
      var finished;
      ghost var committed;
      pool', finished, markedCars, committed := GreedyRound(sol, pool', markedCars, w, maxDev);
      ExtendsPoolTransitive(sol.inst, pool, before.pool, pool');
      if finished {
        break;
      }
      ghost var after := Round(sol.Snapshot(), markedCars, pool');
      assert RoundStep(sol.inst, w, maxDev)(before, after);
      ChainSnoc(RoundStep(sol.inst, w, maxDev), run, after);
      assert (run + [after])[0] == run[0];
      run := run + [after];
    }
  }

  /**
   * One round of the greedy loop: rate the points, branch on the tied best
   * points after the first, and assign the first best point to its nearest
   * unmarked car, or mark that car when it cannot take the point. Reports
   * finished, changing nothing, when every car is marked.
   */
  method GreedyRound(sol: Solution, pool: seq<State>, marked: seq<bool>, w: Weights, maxDev: real)
    returns (pool': seq<State>, finished: bool, marked': seq<bool>, ghost committed: bool)
    requires sol.Valid() && sol.inst.cars >= 1 && |marked| == sol.inst.cars
    modifies sol
    ensures sol.Valid() && |marked'| == sol.inst.cars
    ensures ExtendsPool(sol.inst, pool, pool')
    ensures finished <==> AllMarked(marked)
    ensures finished ==> marked' == marked && sol.Snapshot() == old(sol.Snapshot()) && pool' == pool
    ensures !finished ==> GreedyStep(sol.inst, w, maxDev, old(sol.Snapshot()), marked, pool, sol.Snapshot(), marked', pool')
    ensures !finished && committed ==> UnvisitedSet(sol.inst, sol.visited) < UnvisitedSet(sol.inst, old(sol.visited))
    ensures !finished && !committed ==>
              sol.Snapshot() == old(sol.Snapshot()) && Unmarked(marked') < Unmarked(marked)
    ensures forall c :: 0 <= c < sol.inst.cars ==> old(sol.routes[c]) <= sol.routes[c]
    ensures old(sol.visited) <= sol.visited
  {
    ghost var start := sol.Snapshot();
    var maxPoints := TopRated(sol, w);
    ghost var picked, pickedCars;
    pool', picked, pickedCars := SpeculativeBranches(sol, pool, maxPoints, marked, maxDev);

    var chosenPoint := maxPoints[0];
    assert IsTopList(sol.inst, start, w, maxPoints);
    assert Speculates(sol.inst, w, maxDev, start, marked, chosenPoint, pool, pool');
    var chosenCar := NearestUnmarkedCar(sol, chosenPoint, marked);
    marked', committed := marked, false;
    if marked[chosenCar] {
      finished := true;
      return;
    }
    finished := false;
    var accepted;
    ghost var spliced;
    accepted, spliced := AssignPoint(sol, chosenPoint, chosenCar, maxDev);
    committed := accepted;
    if !accepted {
      MarkingShrinks(marked, chosenCar);
      marked' := marked[chosenCar := true];
    } else {
      UnvisitedShrinks(sol.inst, start.visited, sol.visited, chosenPoint);
    }
    assert StepVia(sol.inst, w, maxDev, start, marked, pool, sol.Snapshot(), marked', pool', chosenPoint, chosenCar);
  }

  /** Every solution in the pool is valid. */
  ghost predicate AllValid(inst: Instance, pool: seq<State>)
  {
    forall i :: 0 <= i < |pool| ==> ValidState(inst, pool[i])
  }

  /** Popping a valid pool gives a valid solution and leaves a valid pool. */
  lemma PopValid(inst: Instance, pool: seq<State>)
    requires AllValid(inst, pool) && pool != []
    ensures ValidState(inst, pool[|pool| - 1]) && AllValid(inst, pool[..|pool| - 1])
  {
  }

  /** Pushing valid solutions onto a valid pool leaves a valid pool. */
  lemma PushValid(inst: Instance, pool: seq<State>, pool': seq<State>)
    requires AllValid(inst, pool) && ExtendsPool(inst, pool, pool')
    ensures AllValid(inst, pool')
  {
    forall i | 0 <= i < |pool'|
      ensures ValidState(inst, pool'[i])
    {
      if i < |pool| {
        assert pool'[i] == pool'[..|pool|][i];
      }
    }
  }

  /** Every completed solution is valid and collects at most best. */
  ghost predicate AllWithin(inst: Instance, done: seq<State>, best: real)
  {
    forall i :: 0 <= i < |done| ==> ValidState(inst, done[i]) && Profit(inst, done[i]) <= best
  }

  /** Completing one more solution keeps every completed one within the larger of the old best and the new one. */
  lemma WithinAppend(inst: Instance, done: seq<State>, s: State, best: real)
    requires AllWithin(inst, done, best) && ValidState(inst, s)
    ensures forall best' :: best' >= best && best' >= Profit(inst, s) ==> AllWithin(inst, done + [s], best')
  {
    forall best' | best' >= best && best' >= Profit(inst, s)
      ensures AllWithin(inst, done + [s], best')
    {
      forall i | 0 <= i < |done| + 1
        ensures ValidState(inst, (done + [s])[i]) && Profit(inst, (done + [s])[i]) <= best'
      {
        if i < |done| {
          assert (done + [s])[i] == done[i];
        }
      }
    }
  }

  /**
   * One pass of the driver on pool: its top solution, completed greedily on
   * the rest of the pool, gives fin and leaves pool'.
   */
  ghost predicate Pass(inst: Instance, w: Weights, maxDev: real, pool: seq<State>, fin: State, pool': seq<State>)
  {
    pool != [] && Completes(inst, w, maxDev, pool[|pool| - 1], pool[..|pool| - 1], fin, pool')
  }

  /** Pass as a relation between a pool, the solution its pass completes and the pool it leaves. */
  ghost function PassRel(inst: Instance, w: Weights, maxDev: real): (seq<State>, State, seq<State>) -> bool
  {
    (pool: seq<State>, fin: State, pool': seq<State>) => Pass(inst, w, maxDev, pool, fin, pool')
  }

  /** pools is one longer than done, and rel relates each pools[k] and done[k] to pools[k + 1]. */
  ghost predicate Passes<P, D>(rel: (P, D, P) -> bool, pools: seq<P>, done: seq<D>)
  {
    |pools| == |done| + 1 && forall k :: 0 <= k < |done| ==> rel(pools[k], done[k], pools[k + 1])
  }

  /** One more pass extends the history. */
  lemma PassesSnoc<P, D>(rel: (P, D, P) -> bool, pools: seq<P>, done: seq<D>, d: D, p: P)
    requires Passes(rel, pools, done) && rel(pools[|pools| - 1], d, p)
    ensures Passes(rel, pools + [p], done + [d])
  {
    var q, e := pools + [p], done + [d];
    forall k | 0 <= k < |e|
      ensures rel(q[k], e[k], q[k + 1])
    {
      if k < |done| {
        assert q[k] == pools[k] && q[k + 1] == pools[k + 1] && e[k] == done[k];
      }
    }
  }

  /**
   * The driver: work through a LIFO pool of partial solutions, starting with
   * the given one, completing each greedily (at most 511 of them) and keeping
   * the most profitable result; a result replaces the best only when strictly
   * more profitable. pools holds the pool before each pass and after the
   * last, done the solution each pass completed, and exhausted says the pool
   * was worked through; otherwise the 512th pop found a solution and stopped.
   */
  method SolverAll(sol: Solution, w: Weights, maxDev: real)
    returns (ghost done: seq<State>, ghost pools: seq<seq<State>>, ghost exhausted: bool)
    requires sol.Valid() && sol.inst.cars >= 1
    modifies sol
    ensures sol.Valid()
    ensures 1 <= |done| <= 511 && |pools| == |done| + 1 && pools[0] == [old(sol.Snapshot())]
    ensures forall k :: 0 <= k < |done| ==> Pass(sol.inst, w, maxDev, pools[k], done[k], pools[k + 1])
    ensures Completes(sol.inst, w, maxDev, old(sol.Snapshot()), [], done[0], pools[1])
    ensures exhausted ==> pools[|done|] == []
    ensures !exhausted ==> |done| == 511 && pools[511] != []
    ensures exhausted || |done| == 511
    ensures forall i :: 0 <= i < |done| ==> ValidState(sol.inst, done[i]) && Profit(sol.inst, done[i]) <= sol.PointProfit()
    ensures sol.Snapshot() == old(sol.Snapshot()) || sol.Snapshot() in done
    ensures sol.PointProfit() >= old(sol.PointProfit())
    ensures sol.Snapshot() == old(sol.Snapshot()) || sol.PointProfit() > old(sol.PointProfit())
  {
    var pool := [sol.Snapshot()];
    var cnt := 0;
    done, pools, exhausted := [], [pool], true;
    while pool != []
      invariant sol.Valid() && exhausted && cnt == |done|
      invariant DriverAccount(sol.inst, w, maxDev, old(sol.Snapshot()), sol.Snapshot(), done, pools, cnt)
      invariant pools[cnt] == pool
      decreases 512 - cnt
    {
      PopValid(sol.inst, pool);
      var lastSol := new Solution.Copy(sol.inst, pool[|pool| - 1]);
      pool := pool[..|pool| - 1];
      cnt := cnt + 1;
      if cnt == 512 {
        exhausted := false;
        break;
      }
      pool, done, pools := DriverPass(sol, lastSol, pool, w, maxDev, old(sol.Snapshot()), done, pools);
    }
    DriverResult(sol.inst, w, maxDev, old(sol.Snapshot()), sol.Snapshot(), done, pools, |done|);
  }

  /**
   * The body of the driver's loop after the pop: complete the popped solution
   * and keep the better one; the account gains the pass.
   */
  method DriverPass(sol: Solution, lastSol: Solution, pool: seq<State>, w: Weights, maxDev: real, ghost st0: State,
                    ghost done: seq<State>, ghost pools: seq<seq<State>>)
    returns (pool': seq<State>, ghost done': seq<State>, ghost pools': seq<seq<State>>)
    requires sol != lastSol && sol.Valid() && lastSol.Valid() && lastSol.inst == sol.inst && sol.inst.cars >= 1
    requires DriverAccount(sol.inst, w, maxDev, st0, sol.Snapshot(), done, pools, |done|) && |done| + 1 < 512
    requires pools[|done|] != [] && lastSol.Snapshot() == pools[|done|][|pools[|done|]| - 1]
    requires pool == pools[|done|][..|pools[|done|]| - 1]
    modifies sol, lastSol
    ensures sol.Valid()
    ensures DriverAccount(sol.inst, w, maxDev, st0, sol.Snapshot(), done', pools', |done'|)
    ensures |done'| == |done| + 1 && pools'[|done'|] == pool'
  {
    ghost var best := sol.Snapshot();
    ghost var finished;
    pool', finished := SolveAndKeep(sol, lastSol, pool, w, maxDev);
    DriverStep(sol.inst, w, maxDev, st0, best, sol.Snapshot(), done, pools, pool', finished, |done|);
    done', pools' := done + [finished], pools + [pool'];
  }

  /** What the account says of the driver's result once the first pass is done. */
  lemma DriverResult(inst: Instance, w: Weights, maxDev: real, st0: State, best: State, done: seq<State>,
                     pools: seq<seq<State>>, cnt: int)
    requires DriverAccount(inst, w, maxDev, st0, best, done, pools, cnt) && cnt > 0
    ensures 1 <= |done| <= 511 && |pools| == |done| + 1 && pools[0] == [st0]
    ensures forall k :: 0 <= k < |done| ==> Pass(inst, w, maxDev, pools[k], done[k], pools[k + 1])
    ensures Completes(inst, w, maxDev, st0, [], done[0], pools[1])
    ensures forall i :: 0 <= i < |done| ==> ValidState(inst, done[i]) && Profit(inst, done[i]) <= Profit(inst, best)
    ensures best == st0 || best in done
    ensures Profit(inst, best) >= Profit(inst, st0)
    ensures best == st0 || Profit(inst, best) > Profit(inst, st0)
  {
    forall k | 0 <= k < |done|
      ensures Pass(inst, w, maxDev, pools[k], done[k], pools[k + 1])
    {
      assert PassRel(inst, w, maxDev)(pools[k], done[k], pools[k + 1]);
    }
    assert Pass(inst, w, maxDev, pools[0], done[0], pools[1]);
  }

  /**
   * The account the driver keeps after cnt passes from st0: pools[k] is the
   * pool before pass k and pools[cnt] the current one, which is valid; pass
   * k completed the top of pools[k] to done[k]; best is st0 or one of the
   * completed solutions, at least as profitable as all of them and strictly
   * more profitable than st0 unless it is st0.
   */
  ghost predicate DriverAccount(inst: Instance, w: Weights, maxDev: real, st0: State, best: State, done: seq<State>,
                                pools: seq<seq<State>>, cnt: int)
  {
    && 0 <= cnt < 512 && |done| == cnt
    && Passes(PassRel(inst, w, maxDev), pools, done) && pools[0] == [st0]
    && AllValid(inst, pools[cnt])
    && ValidState(inst, st0) && ValidState(inst, best)
    && AllWithin(inst, done, Profit(inst, best))
    && (best == st0 || best in done)
    && Profit(inst, best) >= Profit(inst, st0)
    && (best == st0 || Profit(inst, best) > Profit(inst, st0))
  }

  /** One pass of the driver: pop, complete, keep the more profitable; the account carries over. */
  lemma DriverStep(inst: Instance, w: Weights, maxDev: real, st0: State, best: State, best': State, done: seq<State>,
                   pools: seq<seq<State>>, pool': seq<State>, finished: State, cnt: int)
    requires cnt + 1 < 512
    requires DriverAccount(inst, w, maxDev, st0, best, done, pools, cnt) && pools[cnt] != []
    requires Completes(inst, w, maxDev, pools[cnt][|pools[cnt]| - 1], pools[cnt][..|pools[cnt]| - 1], finished, pool')
    requires ExtendsPool(inst, pools[cnt][..|pools[cnt]| - 1], pool')
    requires ValidState(inst, finished)
    requires Profit(inst, finished) > Profit(inst, best) ==> best' == finished
    requires Profit(inst, finished) <= Profit(inst, best) ==> best' == best
    ensures DriverAccount(inst, w, maxDev, st0, best', done + [finished], pools + [pool'], cnt + 1)
  {
    PopValid(inst, pools[cnt]);
    PushValid(inst, pools[cnt][..|pools[cnt]| - 1], pool');
    WithinAppend(inst, done, finished, Profit(inst, best));
    assert PassRel(inst, w, maxDev)(pools[|pools| - 1], finished, pool');
    PassesSnoc(PassRel(inst, w, maxDev), pools, done, finished, pool');
    assert (pools + [pool'])[0] == pools[0] && (pools + [pool'])[cnt + 1] == pool';
  }

  /**
   * One pass of the driver's loop on a popped solution: complete it greedily,
   * and keep it as the best when it is strictly more profitable.
   */
  method SolveAndKeep(sol: Solution, lastSol: Solution, pool: seq<State>, w: Weights, maxDev: real)
    returns (pool': seq<State>, ghost finished: State)
    requires sol != lastSol && sol.Valid() && lastSol.Valid() && lastSol.inst == sol.inst && sol.inst.cars >= 1
    modifies sol, lastSol
    ensures ExtendsPool(sol.inst, pool, pool')
    ensures ValidState(sol.inst, finished) && Completes(sol.inst, w, maxDev, old(lastSol.Snapshot()), pool, finished, pool')
    ensures sol.Valid()
    ensures Profit(sol.inst, finished) > old(sol.PointProfit()) ==> sol.Snapshot() == finished
    ensures Profit(sol.inst, finished) <= old(sol.PointProfit()) ==> sol.Snapshot() == old(sol.Snapshot())
  {
    ghost var run;
    pool', run := SolverGreedy(lastSol, pool, w, maxDev);
    RunCompletes(sol.inst, w, maxDev, run);
    finished := lastSol.Snapshot();
    if lastSol.PointProfit() > sol.PointProfit() {
      sol.Assign(lastSol.Snapshot());
    }
  }
}
