/**
 * The arithmetic of point ratings. Where the heuristic divides by zero or
 * marks a point as not worth choosing, the rating carries a tag instead of a
 * floating-point infinity, and the way the tags combine is fixed here:
 * an unbounded term times a zero weight contributes nothing, and a sum with
 * both an unbounded gain and an unbounded loss counts as an unbounded loss.
 */
module Scores {
  import Utils

  /** A rating term: finite, or unbounded (the quotient by zero). */
  datatype Term = Unbounded | Finite(x: real)

  /**
   * A point's rating. `Ineligible` stands for a point that is visited or that
   * no car can reach; the order is Ineligible < NegUnbounded < Rated(v) < PosUnbounded.
   */
  datatype Score = Ineligible | NegUnbounded | Rated(v: real) | PosUnbounded

  /** num / den, unbounded when den is zero. */
  function Ratio(num: real, den: real): (t: Term)
    ensures t.Unbounded? <==> den == 0.0
    ensures t.Finite? ==> t.x * den == num
  {
    if den == 0.0 then Unbounded else Finite(num / den)
  }

  /** The contribution w * t of a weighted term. */
  function Weighted(t: Term, w: real): (s: Score)
    ensures s != Ineligible
    ensures w == 0.0 ==> s == Rated(0.0)
    ensures t.Finite? ==> s == Rated(t.x * w)
    ensures t.Unbounded? ==> (s == PosUnbounded <==> w > 0.0) && (s == NegUnbounded <==> w < 0.0)
  {
    if t.Finite? then
      assert w == 0.0 ==> t.x * w == t.x * 0.0 == 0.0;
      Rated(t.x * w)
    else if w > 0.0 then PosUnbounded
    else if w < 0.0 then NegUnbounded
    else Rated(0.0)
  }

  /**
   * The double a rating is in the heuristic: an ineligible point and an
   * eligible one whose rating sums to an unbounded loss are both -INFINITY.
   */
  function AsDouble(s: Score): (d: Score)
    ensures d != Ineligible
    ensures d == s || (s == Ineligible && d == NegUnbounded)
  {
    if s == Ineligible then NegUnbounded else s
  }

  /** The rank of a score in the rating order; rated values share one rank. */
  function Rank(s: Score): (r: int)
    ensures 0 <= r <= 3
    ensures r == 0 <==> s == Ineligible
    ensures r == 1 <==> s == NegUnbounded
    ensures r == 2 <==> s.Rated?
    ensures r == 3 <==> s == PosUnbounded
  {
    match s
    case Ineligible => 0
    case NegUnbounded => 1
    case Rated(_) => 2
    case PosUnbounded => 3
  }

  function Negated(s: Score): (r: Score)
    requires s != Ineligible
    ensures r != Ineligible && Rank(r) == 4 - Rank(s)
    ensures s.Rated? ==> r == Rated(-s.v)
  {
    match s
    case NegUnbounded => PosUnbounded
    case PosUnbounded => NegUnbounded
    case Rated(v) => Rated(-v)
  }

  /** The sum of two contributions; an unbounded gain against an unbounded loss counts as a loss. */
  function Plus(a: Score, b: Score): (s: Score)
    requires a != Ineligible && b != Ineligible
    ensures s != Ineligible
    ensures a.Rated? && b.Rated? ==> s == Rated(a.v + b.v)
    ensures s == PosUnbounded <==> (a == PosUnbounded || b == PosUnbounded) && a != NegUnbounded && b != NegUnbounded
    ensures s == NegUnbounded <==> a == NegUnbounded || b == NegUnbounded
  {
    if a == NegUnbounded || b == NegUnbounded then NegUnbounded
    else if a == PosUnbounded || b == PosUnbounded then PosUnbounded
    else Rated(a.v + b.v)
  }

  /** Three-way comparison of ratings: negative, zero or positive as x is below, level with or above y. */
  function ScoreCmp(x: Score, y: Score): (r: real)
    ensures r < 0.0 <==> Rank(x) < Rank(y) || (x.Rated? && y.Rated? && x.v < y.v)
    ensures r == 0.0 <==> x == y
  {
    if x.Rated? && y.Rated? then x.v - y.v else (Rank(x) - Rank(y)) as real
  }

  /** The inverted comparison: selecting its minima selects the highest ratings. */
  function ScoreNegCmp(x: Score, y: Score): (r: real)
    ensures r < 0.0 <==> Rank(y) < Rank(x) || (x.Rated? && y.Rated? && y.v < x.v)
    ensures r == 0.0 <==> x == y
  {
    ScoreCmp(y, x)
  }

  lemma ScoreCmpIsThreeWay()
    ensures Utils.ThreeWay(ScoreCmp)
  {
    forall a, b, c | ScoreCmp(a, b) <= 0.0 && ScoreCmp(b, c) <= 0.0
      ensures ScoreCmp(a, c) <= 0.0
    {
    }
  }

  lemma ScoreNegCmpIsThreeWay()
    ensures Utils.ThreeWay(ScoreNegCmp)
  {
    ScoreCmpIsThreeWay();
    forall a, b, c | ScoreNegCmp(a, b) <= 0.0 && ScoreNegCmp(b, c) <= 0.0
      ensures ScoreNegCmp(a, c) <= 0.0
    {
      assert ScoreCmp(c, b) <= 0.0 && ScoreCmp(b, a) <= 0.0;
    }
  }

  /** On finite ratings the inverted comparison is the source's so_negcmp, y - x. */
  lemma ScoreNegCmpOnRated(a: real, b: real)
    ensures ScoreNegCmp(Rated(a), Rated(b)) == Utils.SoNegCmp(a, b)
  {
  }
}
