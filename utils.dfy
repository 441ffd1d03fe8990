/** Counting ranges, three-way comparators and the all-minima selector. */
module Utils {

  /** An iterator over numbers: dereferencing yields the number, incrementing counts up. */
  class NumberIterator {
    var num: int

    constructor (num: int)
      ensures this.num == num
    {
      this.num := num;
    }

    /** Dereference: the number the iterator stands on. */
    function Deref(): (r: int)
      reads this
      ensures r == num
    {
      num
    }

    /** The number of increments that lead from `other` to this iterator. */
    function Minus(other: NumberIterator): (r: int)
      reads this, other
      ensures other.num + r == num
    {
      num - other.num
    }

    /** Prefix increment. */
    method Increment()
      modifies this
      ensures num == old(num) + 1
    {
      num := num + 1;
    }

    /** Postfix increment: counts up and hands back an iterator on the number it stood on. */
    method PostIncrement() returns (prev: NumberIterator)
      modifies this
      ensures fresh(prev) && prev.num == old(num)
      ensures num == old(num) + 1
    {
      prev := new NumberIterator(num);
      num := num + 1;
    }

    function Equals(other: NumberIterator): (r: bool)
      reads this, other
      ensures r <==> Minus(other) == 0
    {
      num == other.num
    }
  }

  /** The half-open range [first, last) of integers, enumerable without a backing array. */
  datatype NumberRange = NumberRange(first: int, last: int)
  {
    /** The range [0, count). */
    static function Count(count: int): (r: NumberRange)
      ensures r.first == 0 && r.last == count
    {
      NumberRange(0, count)
    }

    /** An iterator on the first number of the range. */
    method Begin() returns (it: NumberIterator)
      ensures fresh(it) && it.num == first
    {
      it := new NumberIterator(first);
    }

    /** An iterator on the bound one past the range. */
    method End() returns (it: NumberIterator)
      ensures fresh(it) && it.num == last
    {
      it := new NumberIterator(last);
    }

    /** All numbers of the range, in increasing order. */
    function Vector(): (r: seq<int>)
      requires first <= last
      ensures |r| == last - first
      ensures forall i :: 0 <= i < |r| ==> r[i] == first + i
      decreases last - first
    {
      if first == last then [] else [first] + NumberRange(first + 1, last).Vector()
    }
  }

  /** Walking a fresh iterator from `first` with prefix increments visits exactly Vector(). */
  method Enumerate(range: NumberRange) returns (visited: seq<int>)
    requires range.first <= range.last
    ensures visited == range.Vector()
  {
    var it := range.Begin();
    var end := range.End();
    visited := [];
    while !it.Equals(end)
      invariant it != end && end.num == range.last
      invariant range.first <= it.num <= range.last
      invariant visited == range.Vector()[..it.num - range.first]
      decreases range.last - it.num
    {
      visited := visited + [it.Deref()];
      it.Increment();
    }
  }

  /**
   * A comparator in the strong-ordering convention: negative means "less",
   * zero "equal", positive "greater", and it describes a total preorder.
   */
  ghost predicate ThreeWay<V(!new)>(pred: (V, V) -> real)
  {
    && (forall a :: pred(a, a) == 0.0)
    && (forall a, b :: pred(a, b) < 0.0 <==> pred(b, a) > 0.0)
    && (forall a, b, c :: pred(a, b) <= 0.0 && pred(b, c) <= 0.0 ==> pred(a, c) <= 0.0)
  }

  /** Default comparison predicate: x - y. */
  function SoCmp(x: real, y: real): (r: real)
    ensures r < 0.0 <==> x < y
    ensures r == 0.0 <==> x == y
    ensures r > 0.0 <==> x > y
  {
    x - y
  }

  /** Inverted comparison predicate: y - x. */
  function SoNegCmp(x: real, y: real): (r: real)
    ensures r < 0.0 <==> y < x
    ensures r == 0.0 <==> x == y
    ensures r > 0.0 <==> y > x
  {
    y - x
  }

  lemma SoCmpIsThreeWay()
    ensures ThreeWay(SoCmp)
  {
  }

  lemma SoNegCmpIsThreeWay()
    ensures ThreeWay(SoNegCmp)
  {
  }

  /** Index i of [first, last) maps to a minimum of the range under `pred`. */
  ghost predicate IsMinIdx<V>(pred: (V, V) -> real, prov: int -> V, first: int, last: int, i: int)
  {
    first <= i < last && forall j :: first <= j < last ==> pred(prov(i), prov(j)) <= 0.0
  }

  ghost predicate StrictlyIncreasing(s: seq<int>)
  {
    forall a, b :: 0 <= a < b < |s| ==> s[a] < s[b]
  }

  lemma AppendIncreasing(s: seq<int>, x: int)
    requires StrictlyIncreasing(s)
    requires forall a :: 0 <= a < |s| ==> s[a] < x
    ensures StrictlyIncreasing(s + [x])
  {
  }

  /** From the total preorder: a value tied with b and above c is above c. */
  lemma TiedAbove<V(!new)>(pred: (V, V) -> real, a: V, b: V, c: V)
    requires ThreeWay(pred)
    requires pred(a, b) == 0.0 && pred(b, c) > 0.0
    ensures pred(a, c) > 0.0
  {
  }

  /**
   * All indices of [first, last) whose mapped value ties for the minimum
   * under the three-way comparator `pred`, in increasing order.
   */
  method MinElements<V(!new)>(first: int, last: int, pred: (V, V) -> real, prov: int -> V)
    returns (minimumIdxs: seq<int>)
    requires first <= last
    requires ThreeWay(pred)
    ensures first == last ==> minimumIdxs == []
    ensures first < last ==> minimumIdxs != [] && minimumIdxs[0] == LowestMin(pred, prov, first, last)
    ensures StrictlyIncreasing(minimumIdxs)
    ensures forall i :: i in minimumIdxs <==> IsMinIdx(pred, prov, first, last, i)
  {
    minimumIdxs := [];
    if first == last {
      return;
    }
    var currentIdx := first;
    minimumIdxs := [currentIdx];
    var minimumValue := prov(currentIdx);
    var k := first + 1;
    ScanStart(pred, prov, first);
    while k != last
      invariant first < k <= last
      invariant ScanInv(pred, prov, first, k, minimumIdxs, minimumValue)
    {
      currentIdx := k;
      var currentValue := prov(currentIdx);
      var order := pred(currentValue, minimumValue);
      if order < 0.0 {
        StepBelow(pred, prov, first, k, minimumIdxs, minimumValue);
        minimumIdxs := [];
        minimumValue := currentValue;
        minimumIdxs := minimumIdxs + [currentIdx];
      } else if order == 0.0 {
        StepTied(pred, prov, first, k, minimumIdxs, minimumValue);
        minimumIdxs := minimumIdxs + [currentIdx];
      } else {
        StepAbove(pred, prov, first, k, minimumIdxs, minimumValue);
      }
      k := k + 1;
    }
    ScanComplete(pred, prov, first, last, minimumIdxs, minimumValue);
  }

  /**
   * What the scan of [first, k) has established: `idxs` are the indices tied
   * with the running minimum `mv`, in increasing order, and every other
   * scanned index is above it.
   */
  ghost predicate ScanInv<V>(pred: (V, V) -> real, prov: int -> V, first: int, k: int, idxs: seq<int>, mv: V)
  {
    && idxs != [] && mv == prov(idxs[0])
    && StrictlyIncreasing(idxs)
    && (forall a :: 0 <= a < |idxs| ==> first <= idxs[a] < k)
    && (forall i :: i in idxs ==> pred(prov(i), mv) == 0.0)
    && (forall j :: first <= j < k ==> pred(mv, prov(j)) <= 0.0)
    && (forall j :: first <= j < k && j !in idxs ==> pred(prov(j), mv) > 0.0)
  }

  lemma ScanStart<V(!new)>(pred: (V, V) -> real, prov: int -> V, first: int)
    requires ThreeWay(pred)
    ensures ScanInv(pred, prov, first, first + 1, [first], prov(first))
  {
  }

  lemma StepBelow<V(!new)>(pred: (V, V) -> real, prov: int -> V, first: int, k: int, idxs: seq<int>, mv: V)
    requires ThreeWay(pred) && first < k
    requires ScanInv(pred, prov, first, k, idxs, mv)
    requires pred(prov(k), mv) < 0.0
    ensures ScanInv(pred, prov, first, k + 1, [k], prov(k))
  {
    NewMinimumBelowAll(pred, prov, first, k, idxs, mv, prov(k));
    forall j | first <= j < k + 1
      ensures pred(prov(k), prov(j)) <= 0.0
    {
      if j < k {
        assert pred(prov(j), prov(k)) > 0.0;
      }
    }
  }

  lemma StepTied<V(!new)>(pred: (V, V) -> real, prov: int -> V, first: int, k: int, idxs: seq<int>, mv: V)
    requires ThreeWay(pred) && first < k
    requires ScanInv(pred, prov, first, k, idxs, mv)
    requires pred(prov(k), mv) == 0.0
    ensures ScanInv(pred, prov, first, k + 1, idxs + [k], mv)
  {
    AppendIncreasing(idxs, k);
    assert pred(mv, prov(k)) <= 0.0;
    assert forall i :: i in idxs + [k] ==> i in idxs || i == k;
  }

  lemma StepAbove<V(!new)>(pred: (V, V) -> real, prov: int -> V, first: int, k: int, idxs: seq<int>, mv: V)
    requires ThreeWay(pred) && first < k
    requires ScanInv(pred, prov, first, k, idxs, mv)
    requires pred(prov(k), mv) > 0.0
    ensures ScanInv(pred, prov, first, k + 1, idxs, mv)
  {
    assert pred(mv, prov(k)) < 0.0;
    assert k !in idxs;
  }

  /** A strictly smaller value is below every index scanned so far. */
  lemma NewMinimumBelowAll<V(!new)>(pred: (V, V) -> real, prov: int -> V, first: int, k: int,
                                    idxs: seq<int>, mv: V, cv: V)
    requires ThreeWay(pred)
    requires pred(cv, mv) < 0.0
    requires forall i :: i in idxs ==> pred(prov(i), mv) == 0.0
    requires forall j :: first <= j < k && j !in idxs ==> pred(prov(j), mv) > 0.0
    ensures forall j :: first <= j < k ==> pred(prov(j), cv) > 0.0
  {
    forall j | first <= j < k
      ensures pred(prov(j), cv) > 0.0
    {
      if j in idxs {
        TiedAbove(pred, prov(j), mv, cv);
      }
    }
  }

  /** At the end of the scan, the indices tied with the running minimum are exactly the minima. */
  lemma TiesAreMinima<V(!new)>(pred: (V, V) -> real, prov: int -> V, first: int, last: int,
                               idxs: seq<int>, mv: V)
    requires ThreeWay(pred)
    requires ScanInv(pred, prov, first, last, idxs, mv)
    ensures forall i :: i in idxs <==> IsMinIdx(pred, prov, first, last, i)
  {
    forall i | IsMinIdx(pred, prov, first, last, i)
      ensures i in idxs
    {
      assert pred(prov(i), prov(idxs[0])) <= 0.0;
    }
    forall i | i in idxs
      ensures IsMinIdx(pred, prov, first, last, i)
    {
      forall j | first <= j < last
        ensures pred(prov(i), prov(j)) <= 0.0
      {
        assert pred(prov(i), mv) <= 0.0;
      }
    }
  }

  /** A complete scan of [first, last) has found exactly the minima, lowest first. */
  lemma ScanComplete<V(!new)>(pred: (V, V) -> real, prov: int -> V, first: int, last: int,
                              idxs: seq<int>, mv: V)
    requires ThreeWay(pred) && first < last
    requires ScanInv(pred, prov, first, last, idxs, mv)
    ensures idxs != [] && idxs[0] == LowestMin(pred, prov, first, last)
    ensures StrictlyIncreasing(idxs)
    ensures forall i :: i in idxs <==> IsMinIdx(pred, prov, first, last, i)
  {
    TiesAreMinima(pred, prov, first, last, idxs, mv);
    LowestMinIsFirst(pred, prov, first, last, idxs);
  }

  /** The lowest index of [first, last) that holds a minimum (scan order). */
  ghost function LowestMin<V(!new)>(pred: (V, V) -> real, prov: int -> V, first: int, last: int): (i: int)
    requires first < last
    requires ThreeWay(pred)
    ensures IsMinIdx(pred, prov, first, last, i)
    ensures forall j :: first <= j < i ==> !IsMinIdx(pred, prov, first, last, j)
  {
    MinExists(pred, prov, first, last);
    var i :| IsMinIdx(pred, prov, first, last, i) && forall j :: first <= j < i ==> !IsMinIdx(pred, prov, first, last, j);
    i
  }

  /** Some index of a non-empty range is a minimum, and there is a lowest one. */
  lemma {:induction false} MinExists<V(!new)>(pred: (V, V) -> real, prov: int -> V, first: int, last: int)
    requires first < last
    requires ThreeWay(pred)
    ensures exists i :: IsMinIdx(pred, prov, first, last, i) && forall j :: first <= j < i ==> !IsMinIdx(pred, prov, first, last, j)
    decreases last - first
  {
    var m := first;
    var k := first + 1;
    while k < last
      invariant first <= m < k <= last
      invariant forall j :: first <= j < k ==> pred(prov(m), prov(j)) <= 0.0
      decreases last - k
    {
      if pred(prov(k), prov(m)) < 0.0 {
        m := k;
      }
      k := k + 1;
    }
    assert IsMinIdx(pred, prov, first, last, m);
    var i := first;
    while !IsMinIdx(pred, prov, first, last, i)
      invariant first <= i <= m
      invariant forall j :: first <= j < i ==> !IsMinIdx(pred, prov, first, last, j)
      decreases m - i
    {
      i := i + 1;
    }
  }

  lemma LowestMinIsFirst<V(!new)>(pred: (V, V) -> real, prov: int -> V, first: int, last: int, r: seq<int>)
    requires first < last && ThreeWay(pred)
    requires StrictlyIncreasing(r)
    requires forall i :: i in r <==> IsMinIdx(pred, prov, first, last, i)
    ensures r != [] && r[0] == LowestMin(pred, prov, first, last)
  {
    var lo := LowestMin(pred, prov, first, last);
    assert lo in r;
    assert r[0] in r;
  }

  /** Overload with the identity as preprocessing of the indices. */
  method MinElementsOfIndices(first: int, last: int, pred: (int, int) -> real) returns (r: seq<int>)
    requires first <= last
    requires ThreeWay(pred)
    ensures StrictlyIncreasing(r)
    ensures forall i :: i in r <==> IsMinIdx(pred, i => i, first, last, i)
  {
    r := MinElements(first, last, pred, i => i);
  }

  /** Overload over the index list [0, size) with a preprocessing of the indices. */
  method MinElementsUpTo<V(!new)>(size: int, pred: (V, V) -> real, prov: int -> V) returns (r: seq<int>)
    requires 0 <= size
    requires ThreeWay(pred)
    ensures size == 0 ==> r == []
    ensures size > 0 ==> r != [] && r[0] == LowestMin(pred, prov, 0, size)
    ensures StrictlyIncreasing(r)
    ensures forall i :: i in r <==> IsMinIdx(pred, prov, 0, size, i)
  {
    r := MinElements(0, size, pred, prov);
  }

  /** Overload over the index list [0, size) comparing the indices themselves. */
  method MinElementsOfSize(size: int, pred: (int, int) -> real) returns (r: seq<int>)
    requires 0 <= size
    requires ThreeWay(pred)
    ensures StrictlyIncreasing(r)
    ensures forall i :: i in r <==> IsMinIdx(pred, i => i, 0, size, i)
  {
    r := MinElements(0, size, pred, i => i);
  }

  /** Under the inverted comparator the selected indices are exactly those of maximum value. */
  lemma NegCmpSelectsMaxima(prov: int -> real, first: int, last: int, i: int)
    ensures IsMinIdx(SoNegCmp, prov, first, last, i)
        <==> first <= i < last && forall j :: first <= j < last ==> prov(j) <= prov(i)
  {
  }

  /** Under the default comparator the selected indices are exactly those of minimum value. */
  lemma CmpSelectsMinima(prov: int -> real, first: int, last: int, i: int)
    ensures IsMinIdx(SoCmp, prov, first, last, i)
        <==> first <= i < last && forall j :: first <= j < last ==> prov(i) <= prov(j)
  {
  }

  /** map[key] when the key is present, def otherwise. */
  function ValueOrDefault<K, V>(m: map<K, V>, key: K, def: V): (r: V)
    ensures key in m ==> r == m[key]
    ensures key !in m ==> r == def
  {
    if key in m then m[key] else def
  }
}
