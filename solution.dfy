/**
 * The Team Orienteering Problem instance and the mutable solution the greedy
 * heuristic works on: per-car routes that start at the start depot, the set
 * of visited points and each car's travel time, with a feasibility check for
 * moving a car to a point, a committing move and a strict-LIFO rollback.
 */
module Top {

  /**
   * A problem instance: `points` locations (0 is the start depot, points - 1
   * the end depot), `cars` vehicles, a distance matrix, per-point profits and
   * the shared per-car time budget.
   */
  datatype Instance = Instance(points: nat, cars: nat, dist: seq<seq<real>>, profit: seq<real>, maxTime: real)
  {
    function Start(): (p: int) { 0 }

    function End(): (p: int) { points - 1 }

    /** The matrix and the profit list have one entry per point. */
    predicate Shaped()
    {
      && points >= 2
      && |dist| == points && |profit| == points
      && (forall a :: 0 <= a < points ==> |dist[a]| == points)
    }

    /** Distances are non-negative, symmetric and metric; profits are non-negative; the budget is positive. */
    ghost predicate Valid()
    {
      && Shaped()
      && maxTime > 0.0
      && (forall a, b :: 0 <= a < points && 0 <= b < points ==> MetricAt(a, b))
      && (forall a, b, c :: 0 <= a < points && 0 <= b < points && 0 <= c < points ==> TriangleAt(a, b, c))
      && (forall x :: 0 <= x < points ==> profit[x] >= 0.0)
    }

    /** The distance between a and b is non-negative and the same both ways. */
    predicate MetricAt(a: int, b: int)
      requires Shaped() && 0 <= a < points && 0 <= b < points
    {
      0.0 <= dist[a][b] && dist[a][b] == dist[b][a]
    }

    /** The triangle inequality through b, for the detour from a to c. */
    predicate TriangleAt(a: int, b: int, c: int)
      requires Shaped() && 0 <= a < points && 0 <= b < points && 0 <= c < points
    {
      dist[a][c] <= dist[a][b] + dist[b][c]
    }

    function Distance(a: int, b: int): (d: real)
      requires Shaped() && 0 <= a < points && 0 <= b < points
    {
      dist[a][b]
    }
  }

  /** A value copy of a solution: what a snapshot in the branch pool holds. */
  datatype State = State(routes: seq<seq<int>>, visited: set<int>, times: seq<real>)

  /** The outcome of simulating a move. */
  datatype Simulation = Simulation(feasible: bool, extraTime: real)

  /** One non-empty route and one travel time per car, every entry a point of the instance. */
  predicate WellFormed(inst: Instance, st: State)
  {
    && inst.Shaped()
    && |st.routes| == inst.cars && |st.times| == inst.cars
    && (forall c :: 0 <= c < inst.cars ==> |st.routes[c]| >= 1)
    && (forall c, i :: 0 <= c < inst.cars && 0 <= i < |st.routes[c]| ==> 0 <= st.routes[c][i] < inst.points)
  }

  predicate InRoute(inst: Instance, r: seq<int>)
  {
    inst.Shaped() && |r| >= 1 && forall i :: 0 <= i < |r| ==> 0 <= r[i] < inst.points
  }

  /** The length of the legs of a route. */
  function LegSum(inst: Instance, r: seq<int>): (t: real)
    requires InRoute(inst, r)
    decreases |r|
  {
    if |r| == 1 then 0.0 else LegSum(inst, r[..|r| - 1]) + inst.Distance(r[|r| - 2], r[|r| - 1])
  }

  /** The travel time of a route: its legs plus the closing leg to the end depot. */
  function RouteTime(inst: Instance, r: seq<int>): (t: real)
    requires InRoute(inst, r)
  {
    LegSum(inst, r) + inst.Distance(r[|r| - 1], inst.End())
  }

  /** Every point that appears on some route. */
  ghost function Entries(routes: seq<seq<int>>): (points: set<int>)
  {
    set c, i | 0 <= c < |routes| && 0 <= i < |routes[c]| :: routes[c][i]
  }

  /** No point appears twice, except the start entries at index 0. */
  ghost predicate Distinct(routes: seq<seq<int>>)
  {
    forall c1, i1, c2, i2 ::
      (0 <= c1 < |routes| && 0 <= i1 < |routes[c1]| && 0 <= c2 < |routes| && 1 <= i2 < |routes[c2]|) ==>
      DistinctAt(routes, c1, i1, c2, i2)
  }

  /** The entry at (c2, i2), not a start entry, occurs nowhere else than at (c1, i1) = (c2, i2). */
  ghost predicate DistinctAt(routes: seq<seq<int>>, c1: int, i1: int, c2: int, i2: int)
    requires 0 <= c1 < |routes| && 0 <= i1 < |routes[c1]| && 0 <= c2 < |routes| && 0 <= i2 < |routes[c2]|
  {
    routes[c1][i1] == routes[c2][i2] ==> c1 == c2 && i1 == i2
  }

  /**
   * A committed solution: every route starts at the start depot, a point is on
   * at most one route, `visited` is exactly the set of points on the routes,
   * and each car's time is its route time and within the budget.
   */
  ghost predicate ValidState(inst: Instance, st: State)
  {
    && inst.Valid()
    && WellFormed(inst, st)
    && StartAtDepot(inst, st.routes)
    && Distinct(st.routes)
    && st.visited == Entries(st.routes)
    && TimesWithinBudget(inst, st)
  }

  ghost predicate StartAtDepot(inst: Instance, routes: seq<seq<int>>)
  {
    forall c :: 0 <= c < |routes| && |routes[c]| >= 1 ==> routes[c][0] == inst.Start()
  }

  /** Each car's time is the time of its route, and within the budget. */
  ghost predicate TimesWithinBudget(inst: Instance, st: State)
    requires WellFormed(inst, st)
  {
    forall c {:trigger st.times[c]} :: 0 <= c < inst.cars ==>
      st.times[c] == RouteTime(inst, st.routes[c]) && st.times[c] <= inst.maxTime
  }

  /** The current position of a car: the last entry of its route. */
  function Position(inst: Instance, st: State, c: int): (p: int)
    requires WellFormed(inst, st) && 0 <= c < inst.cars
    ensures 0 <= p < inst.points
  {
    st.routes[c][|st.routes[c]| - 1]
  }

  /** The time a move of car c to p adds: the detour from the closing leg. */
  function ExtraTime(inst: Instance, st: State, c: int, p: int): (extra: real)
    requires WellFormed(inst, st) && 0 <= c < inst.cars && 0 <= p < inst.points
  {
    var cur := Position(inst, st, c);
    inst.Distance(cur, p) + inst.Distance(p, inst.End()) - inst.Distance(cur, inst.End())
  }

  /** Simulating a move never changes the state; it is feasible iff p is an unvisited point within the budget. */
  function Simulate(inst: Instance, st: State, c: int, p: int): (sim: Simulation)
    requires WellFormed(inst, st) && 0 <= c < inst.cars
  {
    if 0 <= p < inst.points then
      var extra := ExtraTime(inst, st, c, p);
      Simulation(p !in st.visited && st.times[c] + extra <= inst.maxTime, extra)
    else
      Simulation(false, 0.0)
  }

  predicate Feasible(inst: Instance, st: State, c: int, p: int)
    requires WellFormed(inst, st) && 0 <= c < inst.cars
  {
    Simulate(inst, st, c, p).feasible
  }

  /** The state after committing the move of car c to p. */
  function Moved(inst: Instance, st: State, c: int, p: int): (st': State)
    requires WellFormed(inst, st) && 0 <= c < inst.cars && 0 <= p < inst.points
  {
    State(st.routes[c := st.routes[c] + [p]], st.visited + {p},
          st.times[c := st.times[c] + ExtraTime(inst, st, c, p)])
  }

  /** The state after undoing the last hop of car c. */
  function RolledBack(inst: Instance, st: State, c: int): (st': State)
    requires WellFormed(inst, st) && 0 <= c < inst.cars && |st.routes[c]| >= 2
  {
    var r := st.routes[c];
    var last, prev := r[|r| - 1], r[|r| - 2];
    var saved := inst.Distance(prev, last) + inst.Distance(last, inst.End()) - inst.Distance(prev, inst.End());
    State(st.routes[c := r[..|r| - 1]], st.visited - {last}, st.times[c := st.times[c] - saved])
  }

  /** Total profit of the visited points among the first n. */
  function ProfitUpTo(inst: Instance, visited: set<int>, n: nat): (total: real)
    requires inst.Shaped() && n <= inst.points
  {
    if n == 0 then 0.0
    else ProfitUpTo(inst, visited, n - 1) + (if n - 1 in visited then inst.profit[n - 1] else 0.0)
  }

  /** The profit a solution collects. */
  function Profit(inst: Instance, st: State): (total: real)
    requires inst.Shaped()
  {
    ProfitUpTo(inst, st.visited, inst.points)
  }

  /** The initial solution: every car waits at the start depot. */
  function Initial(inst: Instance): (st: State)
    requires inst.Shaped()
  {
    State(seq(inst.cars, _ => [inst.Start()]),
          if inst.cars == 0 then {} else {inst.Start()},
          seq(inst.cars, _ => inst.Distance(inst.Start(), inst.End())))
  }

  // ---------------------------------------------------------------------------
  // Properties of the transitions

  lemma RouteTimeAppend(inst: Instance, r: seq<int>, p: int)
    requires InRoute(inst, r) && 0 <= p < inst.points
    ensures InRoute(inst, r + [p])
    ensures RouteTime(inst, r + [p]) ==
            RouteTime(inst, r) - inst.Distance(r[|r| - 1], inst.End())
            + inst.Distance(r[|r| - 1], p) + inst.Distance(p, inst.End())
  {
    assert (r + [p])[..|r|] == r;
  }

  lemma EntriesAppend(routes: seq<seq<int>>, c: int, p: int)
    requires 0 <= c < |routes|
    ensures Entries(routes[c := routes[c] + [p]]) == Entries(routes) + {p}
  {
    var routes' := routes[c := routes[c] + [p]];
    forall x | x in Entries(routes')
      ensures x in Entries(routes) + {p}
    {
      var c', i :| 0 <= c' < |routes'| && 0 <= i < |routes'[c']| && routes'[c'][i] == x;
      if c' != c || i < |routes[c]| {
        assert routes[c'][i] == x;
      }
    }
    forall x | x in Entries(routes) + {p}
      ensures x in Entries(routes')
    {
      if x == p {
        assert routes'[c][|routes[c]|] == p;
      } else {
        var c', i :| 0 <= c' < |routes| && 0 <= i < |routes[c']| && routes[c'][i] == x;
        assert routes'[c'][i] == x;
      }
    }
  }

  lemma EntriesDropLast(routes: seq<seq<int>>, c: int)
    requires 0 <= c < |routes| && |routes[c]| >= 2
    requires Distinct(routes)
    ensures Entries(routes[c := routes[c][..|routes[c]| - 1]]) == Entries(routes) - {routes[c][|routes[c]| - 1]}
  {
    var n := |routes[c]|;
    var last := routes[c][n - 1];
    var routes' := routes[c := routes[c][..n - 1]];
    forall x | x in Entries(routes')
      ensures x in Entries(routes) - {last}
    {
      var c', i :| 0 <= c' < |routes'| && 0 <= i < |routes'[c']| && routes'[c'][i] == x;
      assert routes[c'][i] == x;
      assert DistinctAt(routes, c', i, c, n - 1);
    }
    forall x | x in Entries(routes) - {last}
      ensures x in Entries(routes')
    {
      var c', i :| 0 <= c' < |routes| && 0 <= i < |routes[c']| && routes[c'][i] == x;
      assert DistinctAt(routes, c', i, c, n - 1);
      if c' == c {
        assert i != n - 1;
        assert routes'[c][i] == x;
      } else {
        assert routes'[c'][i] == x;
      }
    }
  }

  lemma DistinctAppend(routes: seq<seq<int>>, c: int, p: int)
    requires 0 <= c < |routes| && Distinct(routes)
    requires p !in Entries(routes)
    ensures Distinct(routes[c := routes[c] + [p]])
  {
    var routes' := routes[c := routes[c] + [p]];
    var n := |routes[c]|;
    forall c1, i1, c2, i2 |
      0 <= c1 < |routes'| && 0 <= i1 < |routes'[c1]| && 0 <= c2 < |routes'| && 1 <= i2 < |routes'[c2]|
      ensures DistinctAt(routes', c1, i1, c2, i2)
    {
      if routes'[c1][i1] == routes'[c2][i2] {
        if c1 == c && i1 == n {
        } else if c2 == c && i2 == n {
        } else {
          assert DistinctAt(routes, c1, i1, c2, i2);
        }
      }
    }
  }

  lemma DistinctDropLast(routes: seq<seq<int>>, c: int)
    requires 0 <= c < |routes| && |routes[c]| >= 2 && Distinct(routes)
    ensures Distinct(routes[c := routes[c][..|routes[c]| - 1]])
  {
    var routes' := routes[c := routes[c][..|routes[c]| - 1]];
    forall c1, i1, c2, i2 |
      0 <= c1 < |routes'| && 0 <= i1 < |routes'[c1]| && 0 <= c2 < |routes'| && 1 <= i2 < |routes'[c2]|
      ensures DistinctAt(routes', c1, i1, c2, i2)
    {
      assert DistinctAt(routes, c1, i1, c2, i2);
    }
  }

  lemma TimesMoved(inst: Instance, st: State, c: int, p: int)
    requires WellFormed(inst, st) && 0 <= c < inst.cars && 0 <= p < inst.points
    requires TimesWithinBudget(inst, st)
    requires st.times[c] + ExtraTime(inst, st, c, p) <= inst.maxTime
    ensures WellFormed(inst, Moved(inst, st, c, p))
    ensures TimesWithinBudget(inst, Moved(inst, st, c, p))
  {
    RouteTimeAppend(inst, st.routes[c], p);
  }

  lemma TimesRolledBack(inst: Instance, st: State, c: int)
    requires WellFormed(inst, st) && 0 <= c < inst.cars && |st.routes[c]| >= 2
    requires TimesWithinBudget(inst, st)
    requires var r := st.routes[c];
             inst.Distance(r[|r| - 2], inst.End()) <= inst.Distance(r[|r| - 2], r[|r| - 1]) + inst.Distance(r[|r| - 1], inst.End())
    ensures WellFormed(inst, RolledBack(inst, st, c))
    ensures TimesWithinBudget(inst, RolledBack(inst, st, c))
  {
    var r := st.routes[c];
    var n := |r|;
    assert r[..n - 1] + [r[n - 1]] == r;
    RouteTimeAppend(inst, r[..n - 1], r[n - 1]);
  }

  /** Distances are non-negative and symmetric. */
  lemma DistanceMetric(inst: Instance, a: int, b: int)
    requires inst.Valid() && 0 <= a < inst.points && 0 <= b < inst.points
    ensures 0.0 <= inst.Distance(a, b) == inst.Distance(b, a)
  {
    assert inst.MetricAt(a, b);
  }

  lemma Triangle(inst: Instance, a: int, b: int, c: int)
    requires inst.Valid() && 0 <= a < inst.points && 0 <= b < inst.points && 0 <= c < inst.points
    ensures inst.Distance(a, c) <= inst.Distance(a, b) + inst.Distance(b, c)
  {
    assert inst.TriangleAt(a, b, c);
  }

  /** A feasible move keeps a solution valid. */
  lemma MovedValid(inst: Instance, st: State, c: int, p: int)
    requires ValidState(inst, st) && 0 <= c < inst.cars
    requires Feasible(inst, st, c, p)
    ensures ValidState(inst, Moved(inst, st, c, p))
  {
    TimesMoved(inst, st, c, p);
    EntriesAppend(st.routes, c, p);
    DistinctAppend(st.routes, c, p);
  }

  /** A rollback keeps a solution valid; the metric distances keep the shorter route within budget. */
  lemma RolledBackValid(inst: Instance, st: State, c: int)
    requires ValidState(inst, st) && 0 <= c < inst.cars && |st.routes[c]| >= 2
    ensures ValidState(inst, RolledBack(inst, st, c))
  {
    var r := st.routes[c];
    Triangle(inst, r[|r| - 2], r[|r| - 1], inst.End());
    TimesRolledBack(inst, st, c);
    EntriesDropLast(st.routes, c);
    DistinctDropLast(st.routes, c);
  }

  /** Strict LIFO: rolling back right after a feasible move restores the state exactly. */
  lemma RollbackUndoesMove(inst: Instance, st: State, c: int, p: int)
    requires WellFormed(inst, st) && 0 <= c < inst.cars
    requires 0 <= p < inst.points && p !in st.visited
    ensures RolledBack(inst, Moved(inst, st, c, p), c) == st
  {
    var r := st.routes[c];
    var st' := RolledBack(inst, Moved(inst, st, c, p), c);
    assert (r + [p])[..|r|] == r;
    assert st'.routes == st.routes;
    assert st'.visited == st.visited;
    assert st'.times == st.times;
  }

  /** Moving a car back to the hop just rolled back restores the state exactly. */
  lemma MoveRedoesRollback(inst: Instance, st: State, c: int)
    requires WellFormed(inst, st) && 0 <= c < inst.cars && |st.routes[c]| >= 2
    requires st.routes[c][|st.routes[c]| - 1] in st.visited
    ensures var rb := RolledBack(inst, st, c);
            var last := st.routes[c][|st.routes[c]| - 1];
            WellFormed(inst, rb) && Moved(inst, rb, c, last) == st
  {
    var r := st.routes[c];
    var last := r[|r| - 1];
    var rb := RolledBack(inst, st, c);
    assert r[..|r| - 1] + [last] == r;
    var st' := Moved(inst, rb, c, last);
    assert st'.routes == st.routes;
    assert st'.visited == st.visited;
    assert st'.times == st.times;
  }

  /** In a valid solution, the hop just rolled back can always be moved to again. */
  lemma RolledBackHopFeasible(inst: Instance, st: State, c: int)
    requires ValidState(inst, st) && 0 <= c < inst.cars && |st.routes[c]| >= 2
    ensures var rb := RolledBack(inst, st, c);
            ValidState(inst, rb) && Feasible(inst, rb, c, st.routes[c][|st.routes[c]| - 1])
  {
    RolledBackValid(inst, st, c);
  }

  /** The routes determine a valid solution: visited set and times follow from them. */
  lemma RoutesDetermineState(inst: Instance, s1: State, s2: State)
    requires ValidState(inst, s1) && ValidState(inst, s2)
    requires s1.routes == s2.routes
    ensures s1 == s2
  {
    assert s1.times == s2.times;
  }

  /** A car away from the start depot has made at least one move. */
  lemma AwayFromStartHasMoved(inst: Instance, st: State, c: int)
    requires ValidState(inst, st) && 0 <= c < inst.cars
    requires Position(inst, st, c) != inst.Start()
    ensures |st.routes[c]| >= 2
  {
  }

  /** Profit grows with the visited set. */
  lemma {:induction false} ProfitMonotone(inst: Instance, v1: set<int>, v2: set<int>, n: nat)
    requires inst.Valid() && n <= inst.points
    requires v1 <= v2
    ensures ProfitUpTo(inst, v1, n) <= ProfitUpTo(inst, v2, n)
  {
    if n > 0 {
      ProfitMonotone(inst, v1, v2, n - 1);
    }
  }

  /** The initial solution is valid when a car can at least drive from depot to depot within budget. */
  lemma InitialValid(inst: Instance)
    requires inst.Valid()
    requires inst.Distance(inst.Start(), inst.End()) <= inst.maxTime
    ensures ValidState(inst, Initial(inst))
  {
    var st := Initial(inst);
    forall x | x in Entries(st.routes)
      ensures x == inst.Start()
    {
    }
    if inst.cars > 0 {
      assert st.routes[0][0] in Entries(st.routes);
    }
  }

  // ---------------------------------------------------------------------------
  // The solution object

  /** The mutable solution the heuristic commits moves to and rolls them back from. */
  class Solution {
    const inst: Instance
    var routes: seq<seq<int>>
    var visited: set<int>
    var times: seq<real>

    function Snapshot(): (st: State)
      reads this
    {
      State(routes, visited, times)
    }

    ghost predicate Valid()
      reads this
    {
      ValidState(inst, Snapshot())
    }

    /** A solution where every car is still at the start depot. */
    constructor Empty(inst: Instance)
      requires inst.Valid()
      requires inst.Distance(inst.Start(), inst.End()) <= inst.maxTime
      ensures this.inst == inst && Snapshot() == Initial(inst)
      ensures Valid()
    {
      this.inst := inst;
      routes := seq(inst.cars, _ => [inst.Start()]);
      visited := if inst.cars == 0 then {} else {inst.Start()};
      times := seq(inst.cars, _ => inst.Distance(inst.Start(), inst.End()));
      new;
      InitialValid(inst);
    }

    /** A fresh copy of a snapshot. */
    constructor Copy(inst: Instance, st: State)
      requires ValidState(inst, st)
      ensures this.inst == inst && Snapshot() == st
      ensures Valid()
    {
      this.inst := inst;
      routes, visited, times := st.routes, st.visited, st.times;
    }

    /** Copy assignment from a snapshot. */
    method Assign(st: State)
      requires ValidState(inst, st)
      modifies this
      ensures Snapshot() == st
      ensures Valid()
    {
      routes, visited, times := st.routes, st.visited, st.times;
    }

    function Visited(p: int): (b: bool)
      reads this
    {
      p in visited
    }

    function CarPoint(c: int): (p: int)
      reads this
      requires Valid() && 0 <= c < inst.cars
    {
      Position(inst, Snapshot(), c)
    }

    function Hops(c: int): (n: nat)
      reads this
      requires Valid() && 0 <= c < inst.cars
    {
      |routes[c]|
    }

    function Hop(c: int, i: int): (p: int)
      reads this
      requires Valid() && 0 <= c < inst.cars && 0 <= i < |routes[c]|
    {
      routes[c][i]
    }

    function TravelTime(c: int): (t: real)
      reads this
      requires Valid() && 0 <= c < inst.cars
    {
      times[c]
    }

    function PointProfit(): (total: real)
      reads this
      requires Valid()
    {
      Profit(inst, Snapshot())
    }

    function SimulateMoveCar(c: int, p: int): (sim: Simulation)
      reads this
      requires Valid() && 0 <= c < inst.cars
    {
      Simulate(inst, Snapshot(), c, p)
    }

    /** Moves car c to p; commits (and reports feasible) only when the move is feasible. */
    method MoveCar(c: int, p: int) returns (feasible: bool)
      requires Valid() && 0 <= c < inst.cars
      modifies this
      ensures Valid()
      ensures feasible == Feasible(inst, old(Snapshot()), c, p)
      ensures Snapshot() == if feasible then Moved(inst, old(Snapshot()), c, p) else old(Snapshot())
    {
      var sim := SimulateMoveCar(c, p);
      feasible := sim.feasible;
      if feasible {
        MovedValid(inst, Snapshot(), c, p);
        routes := routes[c := routes[c] + [p]];
        visited := visited + {p};
        times := times[c := times[c] + sim.extraTime];
      }
    }

    /** Undoes the most recent move of car c. */
    method RollbackCar(c: int)
      requires Valid() && 0 <= c < inst.cars && |routes[c]| >= 2
      modifies this
      ensures Valid()
      ensures Snapshot() == RolledBack(inst, old(Snapshot()), c)
    {
      RolledBackValid(inst, Snapshot(), c);
      var st' := RolledBack(inst, Snapshot(), c);
      routes, visited, times := st'.routes, st'.visited, st'.times;
    }
  }
}
