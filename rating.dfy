/**
 * The feasibility filter and the rating engine of the greedy heuristic:
 * whether any car can still serve a point, and the score that ranks points
 * for assignment (profit share, time impact on the nearest car, and the cost
 * of not choosing the point).
 */
module Rating {
  import opened Top
  import opened Scores

  datatype Option<T> = None | Some(value: T)

  /** The weights of the three rating terms. */
  datatype Weights = Weights(profit: real, time: real, nonCost: real)

  /** Some car can feasibly be moved to p. */
  ghost predicate Reachable(inst: Instance, st: State, p: int)
    requires WellFormed(inst, st)
  {
    exists c :: 0 <= c < inst.cars && Feasible(inst, st, c, p)
  }

  /** The distance from p to the current position of a car. */
  function CalculateDistance(sol: Solution, p: int, car: int): (d: real)
    reads sol
    requires sol.Valid() && 0 <= p < sol.inst.points && 0 <= car < sol.inst.cars
    ensures d >= 0.0
    ensures d == sol.inst.Distance(sol.CarPoint(car), p)
  {
    DistanceMetric(sol.inst, p, sol.CarPoint(car));
    sol.inst.Distance(p, sol.CarPoint(car))
  }

  /** Is there a car that can feasibly be moved to p? Cars are tried in index order. */
  method VerifyFeasibility(sol: Solution, p: int) returns (feasible: bool)
    requires sol.Valid()
    ensures feasible <==> Reachable(sol.inst, sol.Snapshot(), p)
  {
    var car := 0;
    while car < sol.inst.cars
      invariant 0 <= car <= sol.inst.cars
      invariant forall c :: 0 <= c < car ==> !Feasible(sol.inst, sol.Snapshot(), c, p)
    {
      if sol.SimulateMoveCar(car, p).feasible {
        assert Feasible(sol.inst, sol.Snapshot(), car, p);
        return true;
      }
      car := car + 1;
    }
    return false;
  }

  // ---------------------------------------------------------------------------
  // Specification of the rating

  /** The first point q >= from, in index order, that car can feasibly be moved to. */
  function FirstFeasibleFrom(inst: Instance, st: State, car: int, from: nat): (r: Option<int>)
    requires WellFormed(inst, st) && 0 <= car < inst.cars && from <= inst.points
    ensures r.Some? ==> from <= r.value < inst.points
    decreases inst.points - from
  {
    if from == inst.points then None
    else if from !in st.visited && Feasible(inst, st, car, from) then Some(from)
    else FirstFeasibleFrom(inst, st, car, from + 1)
  }

  lemma {:induction false} FirstFeasibleFromIsFirst(inst: Instance, st: State, car: int, from: nat)
    requires WellFormed(inst, st) && 0 <= car < inst.cars && from <= inst.points
    ensures match FirstFeasibleFrom(inst, st, car, from)
            case Some(q) =>
              && from <= q < inst.points && Feasible(inst, st, car, q)
              && forall x :: from <= x < q ==> !Feasible(inst, st, car, x)
            case None => forall x :: from <= x < inst.points ==> !Feasible(inst, st, car, x)
    decreases inst.points - from
  {
    if from < inst.points && !(from !in st.visited && Feasible(inst, st, car, from)) {
      FirstFeasibleFromIsFirst(inst, st, car, from + 1);
    }
  }

  /** Total profit and number of the unvisited points among the first n. */
  function UnvisitedProfit(inst: Instance, visited: set<int>, n: nat): (total: real)
    requires inst.Shaped() && n <= inst.points
  {
    if n == 0 then 0.0
    else UnvisitedProfit(inst, visited, n - 1) + (if n - 1 !in visited then inst.profit[n - 1] else 0.0)
  }

  function UnvisitedCount(inst: Instance, visited: set<int>, n: nat): (count: nat)
    requires inst.Shaped() && n <= inst.points
  {
    if n == 0 then 0
    else UnvisitedCount(inst, visited, n - 1) + (if n - 1 !in visited then 1 else 0)
  }

  /** An unvisited point's profit is part of the unvisited total, and makes the count positive. */
  lemma {:induction false} UnvisitedProfitCovers(inst: Instance, visited: set<int>, n: nat, q: int)
    requires inst.Valid() && n <= inst.points
    requires 0 <= q < n && q !in visited
    ensures 0.0 <= inst.profit[q] <= UnvisitedProfit(inst, visited, n)
    ensures UnvisitedCount(inst, visited, n) >= 1
  {
    UnvisitedProfitNonNegative(inst, visited, n - 1);
    if q < n - 1 {
      UnvisitedProfitCovers(inst, visited, n - 1, q);
    }
  }

  lemma {:induction false} UnvisitedProfitNonNegative(inst: Instance, visited: set<int>, n: nat)
    requires inst.Valid() && n <= inst.points
    ensures UnvisitedProfit(inst, visited, n) >= 0.0
  {
    if n > 0 {
      UnvisitedProfitNonNegative(inst, visited, n - 1);
    }
  }

  /** The lowest-index car among the first k at minimum distance from p (strict `<` scan). */
  function NearestFrom(inst: Instance, st: State, p: int, k: int): (n: int)
    requires WellFormed(inst, st) && 0 <= p < inst.points && 1 <= k <= inst.cars
    ensures 0 <= n < k
  {
    if k == 1 then 0
    else
      var best := NearestFrom(inst, st, p, k - 1);
      if inst.Distance(p, Position(inst, st, k - 1)) < inst.Distance(p, Position(inst, st, best)) then k - 1 else best
  }

  function NearestCar(inst: Instance, st: State, p: int): (n: int)
    requires WellFormed(inst, st) && 0 <= p < inst.points && inst.cars >= 1
    ensures 0 <= n < inst.cars
  {
    NearestFrom(inst, st, p, inst.cars)
  }

  /** The nearest car is at minimum distance, and strictly nearer than every car before it. */
  lemma {:induction false} NearestFromIsLowestClosest(inst: Instance, st: State, p: int, k: int)
    requires WellFormed(inst, st) && 0 <= p < inst.points && 1 <= k <= inst.cars
    ensures var n := NearestFrom(inst, st, p, k);
            && 0 <= n < k
            && (forall c :: 0 <= c < k ==> inst.Distance(p, Position(inst, st, n)) <= inst.Distance(p, Position(inst, st, c)))
            && (forall c :: 0 <= c < n ==> inst.Distance(p, Position(inst, st, n)) < inst.Distance(p, Position(inst, st, c)))
  {
    if k > 1 {
      NearestFromIsLowestClosest(inst, st, p, k - 1);
    }
  }

  /** The state the non-choice cost looks at: after the hypothetical move, when it commits. */
  function AfterHypotheticalMove(inst: Instance, st: State, car: int, p: int): (after: State)
    requires WellFormed(inst, st) && 0 <= car < inst.cars && 0 <= p < inst.points
  {
    if Feasible(inst, st, car, p) then Moved(inst, st, car, p) else st
  }

  /**
   * Non-choice cost: the profit of the first point the car can still reach
   * after the hypothetical move, as a share of the unvisited profit.
   */
  function NonChoiceTerm(inst: Instance, st: State, car: int, p: int, sumProfit: real): (t: Term)
    requires WellFormed(inst, st) && 0 <= car < inst.cars && 0 <= p < inst.points
  {
    Ratio(ReachableProfit(inst, AfterHypotheticalMove(inst, st, car, p), car), sumProfit)
  }

  /** The profit of the first point, in index order, that car can still feasibly reach; 0 when none is left. */
  function ReachableProfit(inst: Instance, st: State, car: int): (profit: real)
    requires WellFormed(inst, st) && 0 <= car < inst.cars
  {
    match FirstFeasibleFrom(inst, st, car, 0)
    case Some(q) => inst.profit[q]
    case None => 0.0
  }

  /** Mean profit of the unvisited points; unbounded when none is left. */
  function MeanProfit(inst: Instance, visited: set<int>): (mean: Term)
    requires inst.Shaped()
  {
    var count := UnvisitedCount(inst, visited, inst.points);
    if count == 0 then Unbounded else Finite(UnvisitedProfit(inst, visited, inst.points) / count as real)
  }

  /** Profit term: the point's profit over the mean; zero against an unbounded mean. */
  function ProfitTerm(profit: real, mean: Term): (t: Term)
  {
    match mean
    case Unbounded => Finite(0.0)
    case Finite(m) => Ratio(profit, m)
  }

  /** The rating formula: profit term minus time term plus non-choice term, each weighted. */
  function Combine(profitTerm: Term, gamma: real, extraNorm: Term, noChoice: Term, w: Weights): (s: Score)
  {
    Plus(Plus(Weighted(profitTerm, w.profit), Negated(Weighted(extraNorm, gamma * w.time))),
         Weighted(noChoice, w.nonCost))
  }

  /** The rating of point p in state st. */
  ghost function PointRating(inst: Instance, st: State, p: int, w: Weights): (s: Score)
    requires ValidState(inst, st) && 0 <= p < inst.points
  {
    if p in st.visited || !Reachable(inst, st, p) then Ineligible
    else
      var sumProfit := UnvisitedProfit(inst, st.visited, inst.points);
      var car := NearestCar(inst, st, p);
      var gamma := st.times[car] / inst.maxTime;
      var extraNorm := Ratio(ExtraTime(inst, st, car, p), inst.maxTime - st.times[car]);
      Combine(ProfitTerm(inst.profit[p], MeanProfit(inst, st.visited)), gamma, extraNorm,
              NonChoiceTerm(inst, st, car, p, sumProfit), w)
  }

  // ---------------------------------------------------------------------------
  // Properties of the rating

  /** A point is rated Ineligible exactly when it is visited or no car can reach it. */
  lemma IneligibleIff(inst: Instance, st: State, p: int, w: Weights)
    requires ValidState(inst, st) && 0 <= p < inst.points
    ensures PointRating(inst, st, p, w) == Ineligible <==> p in st.visited || !Reachable(inst, st, p)
  {
  }

  /** With finite terms the rating is the weighted sum of the source's formula. */
  lemma CombineFinite(profitTerm: real, gamma: real, extraNorm: real, noChoice: real, w: Weights)
    ensures Combine(Finite(profitTerm), gamma, Finite(extraNorm), Finite(noChoice), w)
         == Rated(profitTerm * w.profit - (gamma * extraNorm) * w.time + noChoice * w.nonCost)
  {
    assert extraNorm * (gamma * w.time) == (gamma * extraNorm) * w.time;
  }

  /** An eligible point always has an unvisited profit mean, so its profit term is a plain share. */
  lemma EligibleMeanIsFinite(inst: Instance, st: State, p: int)
    requires ValidState(inst, st) && 0 <= p < inst.points && p !in st.visited
    ensures MeanProfit(inst, st.visited).Finite?
  {
    UnvisitedProfitCovers(inst, st.visited, inst.points, p);
  }

  /** The non-choice cost is a share: between 0 and 1 whenever some profit is left unvisited. */
  lemma NonChoiceIsShare(inst: Instance, st: State, car: int, p: int)
    requires ValidState(inst, st) && 0 <= car < inst.cars && 0 <= p < inst.points
    requires UnvisitedProfit(inst, st.visited, inst.points) != 0.0
    ensures var t := NonChoiceTerm(inst, st, car, p, UnvisitedProfit(inst, st.visited, inst.points));
            t.Finite? && 0.0 <= t.x <= 1.0
  {
    var sumProfit := UnvisitedProfit(inst, st.visited, inst.points);
    var after := AfterHypotheticalMove(inst, st, car, p);
    ReachableProfitBounded(inst, st.visited, after, car);
    DivisionIsShare(ReachableProfit(inst, after, car), sumProfit);
  }

  /** The reachable profit is the profit of a point outside the visited set, so within the unvisited total. */
  lemma ReachableProfitBounded(inst: Instance, visited: set<int>, after: State, car: int)
    requires inst.Valid() && WellFormed(inst, after) && 0 <= car < inst.cars
    requires visited <= after.visited
    ensures 0.0 <= ReachableProfit(inst, after, car) <= UnvisitedProfit(inst, visited, inst.points)
  {
    FirstFeasibleFromIsFirst(inst, after, car, 0);
    UnvisitedProfitNonNegative(inst, visited, inst.points);
    match FirstFeasibleFrom(inst, after, car, 0)
    case Some(q) =>
      UnvisitedProfitCovers(inst, visited, inst.points, q);
    case None =>
  }

  lemma DivisionIsShare(a: real, b: real)
    requires 0.0 <= a <= b && b != 0.0
    ensures 0.0 <= a / b <= 1.0
  {
  }

  // ---------------------------------------------------------------------------
  // The rating engine on the mutable solution

  /**
   * Non-choice cost: commit the hypothetical move of car to p, find the first
   * unvisited point the car can still reach, and undo the move if it was made.
   */
  method NonChoiceCost(sol: Solution, car: int, p: int, sumProfit: real) returns (r: Term)
    requires sol.Valid() && 0 <= car < sol.inst.cars && 0 <= p < sol.inst.points
    modifies sol
    ensures sol.Snapshot() == old(sol.Snapshot())
    ensures r == NonChoiceTerm(sol.inst, old(sol.Snapshot()), car, p, sumProfit)
  {
    ghost var st := sol.Snapshot();
    var moved := sol.MoveCar(car, p);
    assert sol.Snapshot() == AfterHypotheticalMove(sol.inst, st, car, p);
    var profitEllipse := FirstReachableProfit(sol, car);
    if moved {
      RollbackUndoesMove(sol.inst, st, car, p);
      sol.RollbackCar(car);
    }
    r := if sumProfit == 0.0 then Unbounded else Finite(profitEllipse / sumProfit);
  }

  /** The scan of NonChoicheCost: the profit of the first unvisited point the car can feasibly reach. */
  method FirstReachableProfit(sol: Solution, car: int) returns (profitEllipse: real)
    requires sol.Valid() && 0 <= car < sol.inst.cars
    ensures profitEllipse == ReachableProfit(sol.inst, sol.Snapshot(), car)
  {
    profitEllipse := 0.0;
    var point := 0;
    while point < sol.inst.points
      invariant 0 <= point <= sol.inst.points
      invariant FirstFeasibleFrom(sol.inst, sol.Snapshot(), car, 0) == FirstFeasibleFrom(sol.inst, sol.Snapshot(), car, point)
      invariant profitEllipse == 0.0
    {
      if sol.Visited(point) {
        point := point + 1;
        continue;
      }
      if sol.SimulateMoveCar(car, point).feasible {
        profitEllipse := profitEllipse + sol.inst.profit[point];
        return;
      }
      point := point + 1;
    }
  }

  // ---------------------------------------------------------------------------
  // The non-choice cost as written: the rollback after the hypothetical move is
  // unconditional, so when the move did not commit it undoes an earlier hop.

  /** The state NonChoicheCost leaves behind as written: move if feasible, then always roll back. */
  function NonChoiceStateAsWritten(inst: Instance, st: State, car: int, p: int): (r: State)
    requires WellFormed(inst, st) && 0 <= car < inst.cars && 0 <= p < inst.points
    requires Feasible(inst, st, car, p) || |st.routes[car]| >= 2
    ensures Feasible(inst, st, car, p) ==> r == st
  {
    if Feasible(inst, st, car, p) then
      RollbackUndoesMove(inst, st, car, p);
      RolledBack(inst, Moved(inst, st, car, p), car)
    else
      RolledBack(inst, st, car)
  }

  /** As written, an infeasible hypothetical move costs the car its last hop. */
  lemma AsWrittenDropsHop(inst: Instance, st: State, car: int, p: int)
    requires WellFormed(inst, st) && 0 <= car < inst.cars && 0 <= p < inst.points
    requires !Feasible(inst, st, car, p) && |st.routes[car]| >= 2
    ensures NonChoiceStateAsWritten(inst, st, car, p) != st
    ensures |NonChoiceStateAsWritten(inst, st, car, p).routes[car]| == |st.routes[car]| - 1
  {
  }

  /**
   * Four points (start 0, end 3) on a metric, two cars, budget 4. Point 1 is
   * three away from the start, points 1, 2 and 3 are one apart.
   */
  function ExampleInstance(): (inst: Instance)
  {
    Instance(4, 2, [[0.0, 3.0, 2.0, 2.0], [3.0, 0.0, 1.0, 1.0], [2.0, 1.0, 0.0, 1.0], [2.0, 1.0, 1.0, 0.0]],
             [0.0, 1.0, 1.0, 0.0], 4.0)
  }

  /** Car 0 has visited point 1 and used its whole budget; car 1 waits at the start. */
  function ExampleState(): (st: State)
  {
    State([[0, 1], [0]], {0, 1}, [4.0, 2.0])
  }

  lemma ExampleInstanceValid()
    ensures ExampleInstance().Valid()
  {
    var inst := ExampleInstance();
    forall a, b, c | 0 <= a < 4 && 0 <= b < 4 && 0 <= c < 4
      ensures inst.TriangleAt(a, b, c)
    {
    }
  }

  lemma ExampleStateValid()
    ensures ValidState(ExampleInstance(), ExampleState())
  {
    var inst, st := ExampleInstance(), ExampleState();
    ExampleInstanceValid();
    ExampleEntries();
    ExampleDistinct();
    ExampleTimes();
  }

  lemma ExampleTimes()
    ensures WellFormed(ExampleInstance(), ExampleState())
    ensures TimesWithinBudget(ExampleInstance(), ExampleState())
  {
    var inst, st := ExampleInstance(), ExampleState();
    assert WellFormed(inst, st);
    assert [0, 1][..1] == [0];
    assert LegSum(inst, [0]) == 0.0;
    assert LegSum(inst, [0, 1]) == 3.0;
    assert RouteTime(inst, st.routes[0]) == 4.0;
    assert RouteTime(inst, st.routes[1]) == 2.0;
  }

  lemma ExampleEntries()
    ensures Entries(ExampleState().routes) == {0, 1}
  {
    var routes := ExampleState().routes;
    forall x | x in Entries(routes)
      ensures x in {0, 1}
    {
      var c, i :| 0 <= c < |routes| && 0 <= i < |routes[c]| && routes[c][i] == x;
    }
    assert routes[0][0] in Entries(routes);
    assert routes[0][1] in Entries(routes);
  }

  lemma ExampleDistinct()
    ensures Distinct(ExampleState().routes)
  {
    var routes := ExampleState().routes;
    forall c1, i1, c2, i2 | 0 <= c1 < |routes| && 0 <= i1 < |routes[c1]| && 0 <= c2 < |routes| && 1 <= i2 < |routes[c2]|
      ensures DistinctAt(routes, c1, i1, c2, i2)
    {
    }
  }

  /**
   * The example is a valid solution in which point 2 is eligible for rating,
   * its nearest car (car 0) cannot take it, and NonChoicheCost as written
   * leaves car 0 without point 1.
   */
  lemma AsWrittenCounterexample()
    ensures ValidState(ExampleInstance(), ExampleState())
    ensures 2 !in ExampleState().visited && Reachable(ExampleInstance(), ExampleState(), 2)
    ensures NearestCar(ExampleInstance(), ExampleState(), 2) == 0
    ensures !Feasible(ExampleInstance(), ExampleState(), 0, 2)
    ensures NonChoiceStateAsWritten(ExampleInstance(), ExampleState(), 0, 2) == State([[0], [0]], {0}, [2.0, 2.0])
  {
    ExampleStateValid();
    ExampleNearestCannotServe();
    ExampleRollbackDropsHop();
  }

  lemma ExampleNearestCannotServe()
    ensures WellFormed(ExampleInstance(), ExampleState())
    ensures Reachable(ExampleInstance(), ExampleState(), 2)
    ensures NearestCar(ExampleInstance(), ExampleState(), 2) == 0
    ensures !Feasible(ExampleInstance(), ExampleState(), 0, 2)
  {
    assert Feasible(ExampleInstance(), ExampleState(), 1, 2);
  }

  lemma ExampleRollbackDropsHop()
    ensures WellFormed(ExampleInstance(), ExampleState())
    ensures !Feasible(ExampleInstance(), ExampleState(), 0, 2)
    ensures NonChoiceStateAsWritten(ExampleInstance(), ExampleState(), 0, 2) == State([[0], [0]], {0}, [2.0, 2.0])
  {
    ExampleNearestCannotServe();
    var rb := NonChoiceStateAsWritten(ExampleInstance(), ExampleState(), 0, 2);
    assert rb == RolledBack(ExampleInstance(), ExampleState(), 0);
    assert ExampleState().routes[0][..1] == [0];
    assert rb.routes == [[0], [0]];
    assert rb.visited == {0};
  }

  /** The lowest-index car at minimum distance from p (std::min_element with strict `<`). */
  method NearestCarIndex(sol: Solution, p: int) returns (chosen: int)
    requires sol.Valid() && 0 <= p < sol.inst.points && sol.inst.cars >= 1
    ensures chosen == NearestCar(sol.inst, sol.Snapshot(), p)
    ensures 0 <= chosen < sol.inst.cars
  {
    chosen := 0;
    var c := 1;
    while c < sol.inst.cars
      invariant 1 <= c <= sol.inst.cars
      invariant chosen == NearestFrom(sol.inst, sol.Snapshot(), p, c)
    {
      if CalculateDistance(sol, p, c) < CalculateDistance(sol, p, chosen) {
        chosen := c;
      }
      c := c + 1;
    }
  }

  /** Rates point p; the hypothetical move it makes is undone before it returns. */
  method RatingChoice(sol: Solution, p: int, w: Weights) returns (r: Score)
    requires sol.Valid() && 0 <= p < sol.inst.points
    modifies sol
    ensures sol.Snapshot() == old(sol.Snapshot())
    ensures r == PointRating(sol.inst, old(sol.Snapshot()), p, w)
  {
    ghost var st := sol.Snapshot();
    var profit := sol.inst.profit[p];
    var notVisitedCount := 0;
    var sumProfit := 0.0;

    if sol.Visited(p) {
      return Ineligible;
    }
    var feasible := VerifyFeasibility(sol, p);
    if !feasible {
      return Ineligible;
    }

    var q := 0;
    while q < sol.inst.points
      invariant 0 <= q <= sol.inst.points
      invariant sumProfit == UnvisitedProfit(sol.inst, sol.visited, q)
      invariant notVisitedCount == UnvisitedCount(sol.inst, sol.visited, q)
    {
      if !sol.Visited(q) {
        sumProfit := sumProfit + sol.inst.profit[q];
        notVisitedCount := notVisitedCount + 1;
      }
      q := q + 1;
    }

    var meanProfit := if notVisitedCount == 0 then Unbounded else Finite(sumProfit / notVisitedCount as real);

    var chosenCar := NearestCarIndex(sol, p);
    var gamma := sol.TravelTime(chosenCar) / sol.inst.maxTime;

    var extraTravelTimeNorm;
    if sol.inst.maxTime - sol.TravelTime(chosenCar) == 0.0 {
      extraTravelTimeNorm := Unbounded;
    } else {
      extraTravelTimeNorm := Finite(sol.SimulateMoveCar(chosenCar, p).extraTime / (sol.inst.maxTime - sol.TravelTime(chosenCar)));
    }

    var noChoice := NonChoiceCost(sol, chosenCar, p, sumProfit);

    r := Combine(ProfitTerm(profit, meanProfit), gamma, extraTravelTimeNorm, noChoice, w);
  }
}
