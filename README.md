# Greedy Team Orienteering heuristic — a Dafny model

This project models the greedy solver of a Team Orienteering Problem (TOP).
An instance has points (0 is the start depot, the last point the end depot),
a number of cars, a distance matrix, a profit per point and a common time
budget per car. The solver builds one route per car from the start depot.
It commits each move to the end of a car's route, and it undoes moves in
last-in-first-out order.

Every point gets a rating. The rating combines three things: the point's profit
against the mean unvisited profit; the travel-time impact on the nearest car;
and a "non-choice" cost, which is the share of unvisited profit the car could
still reach after the move. The best-rated point goes to its nearest car that
is not yet marked as finished. Nearby points are then spliced into that car's
last leg while the budget allows. Points tied for best spawn speculative
branches, which are saved to a pool. A driver works through the pool in LIFO
order and keeps the most profitable solution.

The model has five modules:

- `Utils` (`utils.dfy`): the counting iterator and range, the three-way
  comparators `so_cmp`/`so_negcmp`, the all-minima selector `min_elements`
  with its overloads, and `value_or_default`.
- `Scores` (`scores.dfy`): the arithmetic of ratings. An infinite rating
  term or an infinite rating is a tagged value (`Term`, `Score`), not a
  floating-point infinity.
- `Top` (`solution.dfy`): the instance, the solution as a value (`State`),
  and the mutable `Solution` class with `MoveCar`, `RollbackCar`,
  `SimulateMoveCar` and their invariant `ValidState`. A valid solution means:
  - routes start at the depot;
  - no point is on two routes;
  - `visited` is exactly the set of routed points;
  - every car's time is its route time, within the budget.
- `Rating` (`rating.dfy`): `calculateDistance`, `verifyFeasibility`,
  `NonChoicheCost` and `RatingChoice`, each specified by a pure function on
  `State`. This module also holds the finding below.
- `Greedy` (`greedy.dfy`): `InsertPoint`, `SolverGreedy` and `SolverAll`.
  Their steps are split into methods with their own contracts.

Each method that temporarily changes the solution while rating it
(`NonChoiceCost`, `RatingChoice`, `RateAll`, `TopRated`, `SpeculativeBranch`)
is proved to restore the solution exactly. `InsertPoint` is proved to make a
run of splices: every splice puts a nearest admitted candidate that fits the
budget before the car's last hop, and the run stops at the start point or when
a nearest candidate no longer fits or none is left (`InsertRun`). `SolverGreedy`
is proved to be a run of greedy rounds that ends with every car marked. In each
round the first top-rated point goes to its nearest unmarked car, followed by
InsertPoint's run of splices, or that car is marked. The round also pushes one
branch for each other tied point that its nearest unmarked car can take, in the
order of the points, each the move followed by its own run of splices.
`SolverAll` is proved to work through the pool last-in-first-out: each pass
pops the top solution and completes it greedily with the rest of the pool, and
the pool left by that pass is the one the next pass pops from. The loop ends
when the pool is empty or after 511 passes. The result is the most profitable
of the completed solutions, or the given one when none is more profitable.

Three behaviours of the code that the model keeps:

- `InsertPoint` at the start point, or with a splice over budget, returns 0.
  The `runtime_error`s at `src/greedy/Kevin.cpp:248` and `:259` are constructed
  but never thrown.
- The driver stops when its counter reaches 512, so at most 511 greedy runs
  happen, even when the pool is not empty.
- A car's travel time includes the closing leg to the end depot.

## Model

| member | source | states |
|---|---|---|
| Utils.NumberIterator.constructor | src/common/Utils.hpp:20 | the iterator stands on the given number |
| Utils.NumberIterator.Deref | src/common/Utils.hpp:22 | dereferencing yields the number the iterator stands on |
| Utils.NumberIterator.Minus | src/common/Utils.hpp:24 | the difference is the number of increments leading from the other iterator to this one |
| Utils.NumberIterator.Increment | src/common/Utils.hpp:25 | prefix increment advances the number by one |
| Utils.NumberIterator.PostIncrement | src/common/Utils.hpp:26 | postfix increment advances by one and returns a fresh iterator on the previous number |
| Utils.NumberIterator.Equals | src/common/Utils.hpp:28 | iterators are equal exactly when their difference is zero |
| Utils.NumberRange.Count | src/common/Utils.hpp:47 | the one-argument range is [0, count) |
| Utils.NumberRange.Begin | src/common/Utils.hpp:48 | begin() is a fresh iterator on the first number |
| Utils.NumberRange.End | src/common/Utils.hpp:49 | end() is a fresh iterator on the exclusive bound |
| Utils.NumberRange.Vector | src/common/Utils.hpp:54 | the vector has last - first elements and element i is first + i |
| Utils.Enumerate | src/common/Utils.hpp:48-54 | walking begin() to end() with prefix increments visits exactly the elements of Vector(), in order |
| Utils.SoCmp | src/common/Utils.hpp:139-141 | x - y is negative, zero or positive exactly as x is below, equal to or above y |
| Utils.SoNegCmp | src/common/Utils.hpp:146-148 | y - x is negative exactly when x is above y, zero exactly when they are equal |
| Utils.SoCmpIsThreeWay | src/common/Utils.hpp:139-141 | so_cmp is a strong-ordering comparator: reflexive-zero, antisymmetric in sign, transitive |
| Utils.SoNegCmpIsThreeWay | src/common/Utils.hpp:146-148 | so_negcmp is a strong-ordering comparator |
| Utils.AppendIncreasing | src/common/Utils.hpp:92-94 | appending an index above all collected ones keeps the collection strictly increasing |
| Utils.TiedAbove | src/common/Utils.hpp:87-95 | under a three-way comparator, a value tied with the minimum is above every value the minimum is above |
| Utils.MinElements | src/common/Utils.hpp:73-98 | an empty range gives no indices; otherwise the result is every index whose value ties for the minimum under pred, in scan order, starting with the lowest minimum |
| Utils.LowestMin | src/common/Utils.hpp:81-83 | the first minimum in scan order is a minimum and no earlier index is one |
| Utils.MinExists | src/common/Utils.hpp:81-96 | a non-empty range always has a lowest minimum |
| Utils.LowestMinIsFirst | src/common/Utils.hpp:81-82 | an increasing list of exactly the minima starts with the lowest one |
| Utils.MinElementsOfIndices | src/common/Utils.hpp:107-110 | the overload without prov selects the indices that are minima of themselves |
| Utils.MinElementsUpTo | src/common/Utils.hpp:119-122 | the overload over [0, size) with prov selects exactly the minima of prov over [0, size), lowest first |
| Utils.MinElementsOfSize | src/common/Utils.hpp:130-133 | the overload over [0, size) without prov selects the indices that are minima of themselves |
| Utils.NegCmpSelectsMaxima | src/common/Utils.hpp:146-148 | under so_negcmp the selected indices are exactly those of maximum value |
| Utils.CmpSelectsMinima | src/common/Utils.hpp:139-141 | under so_cmp the selected indices are exactly those of minimum value |
| Utils.ValueOrDefault | src/common/Utils.hpp:153-160 | the mapped value when the key is present, the default when it is absent |
| Scores.Ratio | src/greedy/Kevin.cpp:127-130 | a division by zero is unbounded, otherwise the quotient times the denominator is the numerator |
| Scores.Weighted | src/greedy/Kevin.cpp:178 | a weighted term is never ineligible; a zero weight contributes zero; an unbounded term's sign follows the weight |
| Scores.Rank | src/greedy/Kevin.cpp:142 | the four ordered bands: rank 0 exactly for an ineligible point (the code's -INFINITY), 1 exactly for an unbounded loss, 2 exactly for a finite rating, 3 exactly for an unbounded gain |
| Scores.AsDouble | src/greedy/Kevin.cpp:272-277 | the double compared for a point is never the ineligible tag: an ineligible point and an unbounded loss are the same -INFINITY, every other rating is kept |
| Scores.Negated | src/greedy/Kevin.cpp:178 | subtracting a term reverses its band and negates a finite value |
| Scores.Plus | src/greedy/Kevin.cpp:178 | finite terms add; the sum is an unbounded loss if either term is, and otherwise an unbounded gain if either term is |
| Scores.ScoreCmp | src/common/Utils.hpp:139-141 | negative exactly when x ranks below y, zero exactly when equal |
| Scores.ScoreNegCmp | src/common/Utils.hpp:146-148 | negative exactly when x ranks above y, zero exactly when equal |
| Scores.ScoreCmpIsThreeWay | src/common/Utils.hpp:139-141 | the rating comparison is a strong-ordering comparator |
| Scores.ScoreNegCmpIsThreeWay | src/greedy/Kevin.cpp:272 | the inverted rating comparison used to select the best points is a strong-ordering comparator |
| Scores.ScoreNegCmpOnRated | src/greedy/Kevin.cpp:272 | on finite ratings the inverted comparison equals so_negcmp |
| Top.Position | src/greedy/Kevin.cpp:98 | a car's current point is a point of the instance |
| Top.RouteTimeAppend | src/greedy/Kevin.cpp:116 | appending a point adds the detour from the closing leg to the route time |
| Top.EntriesAppend | src/greedy/Kevin.cpp:116 | a move adds exactly its point to the routed points |
| Top.EntriesDropLast | src/greedy/Kevin.cpp:126 | a rollback removes exactly the last hop from the routed points |
| Top.DistinctAppend | src/greedy/Kevin.cpp:116 | moving to an unrouted point keeps every point on at most one route |
| Top.DistinctDropLast | src/greedy/Kevin.cpp:126 | a rollback keeps every point on at most one route |
| Top.TimesMoved | src/greedy/Kevin.cpp:116 | a move within budget keeps every car's time equal to its route time and within budget |
| Top.TimesRolledBack | src/greedy/Kevin.cpp:126 | a rollback keeps every car's time equal to its route time and within budget |
| Top.Triangle | src/greedy/Kevin.cpp:225-234 | the distances satisfy the triangle inequality |
| Top.DistanceMetric | src/greedy/Kevin.cpp:97-99 | distances are non-negative and the same both ways |
| Top.MovedValid | src/greedy/Kevin.cpp:116 | a feasible move keeps the solution valid |
| Top.RolledBackValid | src/greedy/Kevin.cpp:126 | a rollback keeps the solution valid |
| Top.RollbackUndoesMove | src/greedy/Kevin.cpp:116-126 | rolling back a committed move restores the solution exactly |
| Top.MoveRedoesRollback | src/greedy/Kevin.cpp:214-215 | moving back to the hop just rolled back restores the solution exactly |
| Top.RolledBackHopFeasible | src/greedy/Kevin.cpp:247 | the hop just rolled back can always be moved to again |
| Top.RoutesDetermineState | src/greedy/Kevin.cpp:309-311 | two valid solutions with the same routes are the same solution |
| Top.AwayFromStartHasMoved | src/greedy/Kevin.cpp:185 | a car away from the start point has at least two hops, so Hops - 2 is a hop |
| Top.ProfitMonotone | src/greedy/Kevin.cpp:368 | visiting more points never lowers the collected profit |
| Top.InitialValid | src/greedy/Kevin.cpp:353-354 | the solution with every car at the depot is valid |
| Top.Solution.Empty | src/greedy/Kevin.cpp:353-354 | a fresh solution holds the initial state and is valid |
| Top.Solution.Copy | src/greedy/Kevin.cpp:358 | copying a pooled snapshot gives a valid solution holding exactly that snapshot |
| Top.Solution.Assign | src/greedy/Kevin.cpp:369 | assignment replaces the whole solution by the snapshot |
| Top.Solution.MoveCar | src/greedy/Kevin.cpp:303 | the move commits exactly when it is feasible, and the solution stays valid |
| Top.Solution.RollbackCar | src/greedy/Kevin.cpp:310 | the rollback removes the last hop, its point and its time, and the solution stays valid |
| Rating.CalculateDistance | src/greedy/Kevin.cpp:97-99 | the non-negative distance between the point and the car's current position |
| Rating.VerifyFeasibility | src/greedy/Kevin.cpp:101-111 | true exactly when some car can feasibly move to the point |
| Rating.FirstFeasibleFrom | src/greedy/Kevin.cpp:117-125 | a found point lies in the scanned range |
| Rating.FirstFeasibleFromIsFirst | src/greedy/Kevin.cpp:117-125 | the scan finds a feasible point with no feasible point before it, or finds none when none is feasible |
| Rating.UnvisitedProfitCovers | src/greedy/Kevin.cpp:146-151 | an unvisited point's profit is within the unvisited total and makes the unvisited count positive |
| Rating.UnvisitedProfitNonNegative | src/greedy/Kevin.cpp:146-151 | the unvisited total is non-negative |
| Rating.ReachableProfitBounded | src/greedy/Kevin.cpp:117-125 | the profit found by the scan is non-negative and within the unvisited total |
| Rating.NearestFrom | src/greedy/Kevin.cpp:162-164 | the scan over the first k cars picks one of them |
| Rating.NearestCar | src/greedy/Kevin.cpp:162-164 | the chosen car is a car of the instance |
| Rating.NearestFromIsLowestClosest | src/greedy/Kevin.cpp:162-164 | the chosen car is at minimum distance, and strictly nearer than every lower-index car |
| Rating.IneligibleIff | src/greedy/Kevin.cpp:141-143 | a point rates -INFINITY exactly when it is visited or no car can reach it |
| Rating.CombineFinite | src/greedy/Kevin.cpp:178 | with finite terms the rating is profit * wProfit - gamma * extra * wTime + noChoice * wNonCost |
| Rating.EligibleMeanIsFinite | src/greedy/Kevin.cpp:153-159 | an unvisited point makes the mean profit finite |
| Rating.NonChoiceIsShare | src/greedy/Kevin.cpp:113-131 | the non-choice cost is between 0 and 1 whenever unvisited profit remains |
| Rating.DivisionIsShare | src/greedy/Kevin.cpp:130 | a part over a whole lies between 0 and 1 |
| Rating.NonChoiceCost | src/greedy/Kevin.cpp:113-131 | the solution is left exactly as it was, and the result is the reachable-profit share after the hypothetical move |
| Rating.FirstReachableProfit | src/greedy/Kevin.cpp:117-125 | the profit of the first unvisited point, in index order, that the car can feasibly reach; 0 when there is none |
| Rating.NonChoiceStateAsWritten | src/greedy/Kevin.cpp:116-126 | as written, when the hypothetical move commits the rollback restores the solution |
| Rating.AsWrittenDropsHop | src/greedy/Kevin.cpp:116-126 | as written, an infeasible hypothetical move leaves the car one hop shorter |
| Rating.ExampleInstanceValid | src/greedy/Kevin.cpp:116-126 | the counterexample instance is metric with non-negative profits |
| Rating.ExampleStateValid | src/greedy/Kevin.cpp:116-126 | the counterexample solution is valid |
| Rating.ExampleTimes | src/greedy/Kevin.cpp:116-126 | the counterexample cars' times are their route times, within budget |
| Rating.ExampleEntries | src/greedy/Kevin.cpp:116-126 | the counterexample's routed points are {0, 1} |
| Rating.ExampleDistinct | src/greedy/Kevin.cpp:116-126 | no point is on two routes in the counterexample |
| Rating.AsWrittenCounterexample | src/greedy/Kevin.cpp:116-126 | a valid solution where rating an eligible point removes a committed hop |
| Rating.ExampleNearestCannotServe | src/greedy/Kevin.cpp:141-176 | in the counterexample, point 2 is reachable, but its nearest car (car 0) cannot take it |
| Rating.ExampleRollbackDropsHop | src/greedy/Kevin.cpp:116-126 | in the counterexample, the unconditional rollback removes point 1 from car 0 and its time |
| Rating.NearestCarIndex | src/greedy/Kevin.cpp:162-164 | min_element with strict `<` picks the lowest-index car at minimum distance |
| Rating.RatingChoice | src/greedy/Kevin.cpp:133-179 | the solution is left exactly as it was, and the result is the point's rating |
| Greedy.UnvisitedShrinks | src/greedy/Kevin.cpp:337 | visiting a new point shrinks the unvisited set |
| Greedy.PrevHop | src/greedy/Kevin.cpp:191 | the hop before the car's position is a point of the instance |
| Greedy.SpliceFeasible | src/greedy/Kevin.cpp:225-243 | after rolling back, a splice within budget can move to the candidate and back to the last hop, and the result is the route with the candidate inserted before its last hop |
| Greedy.EllipseCandidates | src/greedy/Kevin.cpp:188-205 | exactly the inner unvisited points whose detour is admitted, in increasing order |
| Greedy.NearestCandidate | src/greedy/Kevin.cpp:219-222 | the front of the candidates sorted by distance is a candidate at minimum distance |
| Greedy.SplicedIntoNothing | src/greedy/Kevin.cpp:250 | returning 0 splices nothing |
| Greedy.SplicedIntoStep | src/greedy/Kevin.cpp:243 | one splice followed by more splices is 1 + more splices, and the first spliced point stays in place |
| Greedy.SplicedThenMore | src/greedy/Kevin.cpp:235-243 | a splice of a candidate within budget followed by more splices is 1 + more splices |
| Greedy.InsertRunStop | src/greedy/Kevin.cpp:250-260 | stopping at once, at the start point or when splicing stops, is a run of no splices |
| Greedy.InsertRunCons | src/greedy/Kevin.cpp:243 | one splice of a nearest admitted candidate within budget, followed by a run of n splices, is a run of n + 1 splices |
| Greedy.InsertRunSplices | src/greedy/Kevin.cpp:181-262 | a run of n splices goes between valid solutions and puts n points before the car's last hop, every other route unchanged |
| Greedy.InsertTraceSplices | src/greedy/Kevin.cpp:234-244 | along a trace of splices, each splice puts its candidate before the last hop, so the trace puts one point per step there |
| Greedy.InsertPoint | src/greedy/Kevin.cpp:181-262 | the new solution is a run of n splices of InsertPoint from the old one, each splice a nearest admitted candidate within budget, stopping at the start point, with no candidate left, or with a nearest one over budget; 0 means no change; the first splice and the reason for stopping at once are stated on their own |
| Greedy.SpliceNearest | src/greedy/Kevin.cpp:211-253 | with candidates: a run of splices whose first is a nearest candidate within budget, or, with 0, the solution restored and a nearest candidate over budget |
| Greedy.SpliceIfFits | src/greedy/Kevin.cpp:225-251 | after rolling back the last hop: if the nearest candidate fits the budget, a run of at least one splice starting with it; otherwise the solution restored and 0 |
| Greedy.SpliceCost | src/greedy/Kevin.cpp:225-230 | the travel time of the route with the candidate spliced before the last hop |
| Greedy.RestoreLastHop | src/greedy/Kevin.cpp:246-250 | moving back to the rolled-back hop restores the solution, which is then a run of no splices |
| Greedy.SpliceAndContinue | src/greedy/Kevin.cpp:234-244 | moving to the candidate and back to the last hop, then running InsertPoint again, is a run of at least one splice, with the candidate right before the old last hop |
| Greedy.RateAll | src/greedy/Kevin.cpp:272-277 | every point's rating, with the solution left exactly as it was |
| Greedy.NearestUnmarkedCar | src/greedy/Kevin.cpp:291-296 | a marked car only when every car is marked; otherwise an unmarked car at minimum distance, strictly nearer than every lower unmarked car |
| Greedy.NearestUnmarkedUnique | src/greedy/Kevin.cpp:291-296 | at most one unmarked car is the nearest unmarked car of a point, so the choice is determined |
| Greedy.SpeculativeBranch | src/greedy/Kevin.cpp:303-311 | the solution is restored; a feasible branch pushes one valid solution, which is the move followed by InsertPoint's run of splices (each a nearest admitted candidate within budget); an infeasible one pushes nothing |
| Greedy.RollbackHops | src/greedy/Kevin.cpp:309-311 | rolling back backhops + 1 hops restores the solution before the move |
| Greedy.ExtendsPoolTransitive | src/greedy/Kevin.cpp:306 | pushing valid solutions twice is pushing valid solutions once |
| Greedy.SpeculativeBranches | src/greedy/Kevin.cpp:287-313 | the solution is restored; the pool gains exactly one entry per tied point after the first whose nearest unmarked car can take it, in the order of the points, each the move of that car to the point followed by InsertPoint's run of splices |
| Greedy.PassSkip | src/greedy/Kevin.cpp:298-300 | a tied point that does not branch leaves the pool and the picked points as they are |
| Greedy.PassPush | src/greedy/Kevin.cpp:303-306 | a tied point that branches is picked, and its branch is the next entry of the pool |
| Greedy.BranchOn | src/greedy/Kevin.cpp:290-312 | the solution is restored; a branch is pushed exactly when the point's nearest unmarked car is unmarked and can take it, and it is that move followed by InsertPoint's run of splices; otherwise the pool is unchanged |
| Greedy.PushBranch | src/greedy/Kevin.cpp:306 | pushing one more branch keeps every earlier branch in its place |
| Greedy.TopRated | src/greedy/Kevin.cpp:272-277 | the solution is restored; a non-empty increasing list of top-rated points starting with the lowest one; all points tied for the highest rating when it is finite, and only the lowest when it is infinite (so_negcmp of equal infinities is NaN) |
| Greedy.MinimaAreTopRated | src/greedy/Kevin.cpp:272-277 | the minima of the ratings under so_negcmp are exactly the highest-rated points |
| Greedy.MarkingShrinks | src/greedy/Kevin.cpp:332 | marking an unmarked car shrinks the set of unmarked cars |
| Greedy.AssignPoint | src/greedy/Kevin.cpp:330-339 | commits exactly when the move is feasible, and then the new solution is the move followed by InsertPoint's run of splices, each a nearest admitted candidate within budget, with the point visited; otherwise changes nothing; routes only grow |
| Greedy.MoveThenSpliceExtends | src/greedy/Kevin.cpp:330-337 | a move followed by splices keeps every old route as a prefix |
| Greedy.SolverGreedy | src/greedy/Kevin.cpp:264-347 | the rounds from the given solution and pool to the result and the returned pool form a greedy run from all cars unmarked to all cars marked; the solution stays valid; routes and visited points only grow; the pool only gains valid solutions |
| Greedy.GreedyRound | src/greedy/Kevin.cpp:269-340 | reports finished, changing nothing, exactly when every car is marked; otherwise one greedy step: the branches of the other tied points are pushed, then the first top-rated point goes to its nearest unmarked car with InsertPoint's run of splices, or that car is marked and the solution is unchanged |
| Greedy.RunCompletes | src/greedy/Kevin.cpp:326-328 | a greedy run that leaves every car marked completes its first solution |
| Greedy.SolverAll | src/greedy/Kevin.cpp:349-380 | the pool starts as the given solution; pass k pops the top of pool k and completes it greedily with the rest, leaving pool k + 1; between 1 and 511 passes, ending with an empty pool or after the 511th pass with solutions left; the result is valid, at least as profitable as every completed solution, and is either the given solution or a completed one strictly more profitable than it |
| Greedy.SolveAndKeep | src/greedy/Kevin.cpp:366-369 | the popped solution is completed greedily; the result replaces the best exactly when it is strictly more profitable |
| Greedy.PopValid | src/greedy/Kevin.cpp:358-359 | popping a pool of valid solutions gives a valid solution and leaves a valid pool |
| Greedy.PushValid | src/greedy/Kevin.cpp:306 | pushing valid solutions keeps every pooled solution valid |
| Greedy.WithinAppend | src/greedy/Kevin.cpp:368-369 | keeping the more profitable of the best and a new completed solution keeps every completed solution within the best |
| Greedy.DriverPass | src/greedy/Kevin.cpp:358-369 | one pass after the pop: the popped solution is completed and the account gains that pass, its completed solution and the pool it leaves |
| Greedy.DriverStep | src/greedy/Kevin.cpp:356-370 | one pass of the driver (pop, complete, keep the more profitable) preserves the driver's account |
| Greedy.DriverResult | src/greedy/Kevin.cpp:356-380 | after at least one pass, the account gives the driver's result: every pass pops the top of its pool, the first completing the given one, and the best of all completed solutions |

## Left out

- Floating point is modelled with `real` and tagged infinities. Rounding is not modelled.
- NaN results are not modelled, and the tag arithmetic stands in for them:
  - `0/0` is `Unbounded`;
  - `INFINITY * 0` contributes 0 (`Scores.Weighted`).
- Scores.ScoreNegCmp: two equal infinite ratings compare level, while under IEEE arithmetic `so_negcmp` of two equal infinities is NaN.
  - Greedy.TopRated restores the code's result: when the highest rating is infinite it keeps only the first such point, as `min_elements` does.
  - An ineligible point and an eligible one whose rating is an unbounded loss are different `Score` tags but the same -INFINITY in the code; Greedy.TopRated compares them as one value (`Scores.AsDouble`).
- `TOP_Input` and `TOP_Output` are not part of this model. They are specified abstractly as `Top.Instance` and `Top.Solution`:
  - a move appends to the route and adds the detour from the closing leg;
  - a rollback undoes the last hop.
- Top.Solution.MoveCar: the third argument of `MoveCar` (`false` at `src/greedy/Kevin.cpp:235`) is not modelled.
- The random generator is passed through unused, and the commented-out logging is not modelled.
- The iterator traits of `NumberIterator` are not modelled. `operator!=` is not modelled separately; it is the negation of `Equals`.
- Rating.NonChoiceCost follows the corrected behaviour: it rolls back only when the hypothetical move committed. The code as written is `Rating.NonChoiceStateAsWritten` (see Findings).
- Greedy.NearestCandidate: `std::sort` gives no order among candidates at equal distance. The model only promises that the front is some nearest candidate.
- The `throw runtime_error` statements in `InsertPoint` are modelled as proof obligations. The model proves that neither throw can happen, but only under the triangle inequality that `Top.Instance` assumes of every instance (`Top.Triangle`); the code never checks it on `TOP_Input`.
- Greedy.SolverGreedy requires at least one car. Otherwise `min_element` over no cars would dereference `end()`.
- Greedy.SolverGreedy computes all ratings before selecting the best. The code computes them inside `min_elements`. Each rating restores the solution, so the values are the same.
- Greedy.SolverAll: the pool of partial solutions is a sequence of snapshots passed in and out, not a vector held by reference.
- Greedy.SolverAll requires at least one car, as Greedy.SolverGreedy does.
- Utils.MinElements models the generic iterator overload of `min_elements` over ranges of integer indices only; the model has no other iterator type.

## Findings

| source | as written | input that shows it | evidently intended | confidence | as-written member | corrected member |
|---|---|---|---|---|---|---|
| src/greedy/Kevin.cpp:116-126 | `NonChoicheCost` calls `RollbackCar` unconditionally after a `MoveCar` that may not commit | 4 points; car 0 has visited point 1 and used its whole budget of 4; car 1 is at the start; rating point 2, whose nearest car is car 0 | roll back only when the hypothetical move committed, so that rating leaves the solution unchanged | not executed | Rating.AsWrittenCounterexample | Rating.NonChoiceCost |
