/** The four pairwise searches for a smallest and a largest element. Iterators are positions
in a sequence, and `last` is its length. The order is an object that counts its calls. */
module MinMax {

  // ---------- orders ----------

  ghost predicate StrictWeakOrder<T(!new)>(less: (T, T) -> bool) {
    && (forall x :: !less(x, x))
    && (forall x, y, z :: less(x, y) && less(y, z) ==> less(x, z))
    && (forall x, y, z :: !less(x, y) && !less(y, z) ==> !less(x, z))
  }

  /** The function object passed to a search. */
  class Order<T> {
    const less: (T, T) -> bool
    var calls: nat

    constructor (less: (T, T) -> bool)
      ensures this.less == less && calls == 0
    {
      this.less := less;
      calls := 0;
    }

    method Less(x: T, y: T) returns (r: bool)
      modifies this
      ensures r == less(x, y) && calls == old(calls) + 1
    {
      calls := calls + 1;
      r := less(x, y);
    }
  }

  // ---------- what the searches look for, in the first n elements ----------

  /** No element is smaller. */
  ghost predicate Min<T>(s: seq<T>, n: nat, less: (T, T) -> bool, m: nat) {
    m < n <= |s| && forall j :: 0 <= j < n ==> !less(s[j], s[m])
  }

  /** No element is larger. */
  ghost predicate Max<T>(s: seq<T>, n: nat, less: (T, T) -> bool, m: nat) {
    m < n <= |s| && forall j :: 0 <= j < n ==> !less(s[m], s[j])
  }

  ghost predicate FirstMin<T>(s: seq<T>, n: nat, less: (T, T) -> bool, m: nat) {
    Min(s, n, less, m) && forall j :: 0 <= j < m ==> less(s[m], s[j])
  }

  ghost predicate LastMin<T>(s: seq<T>, n: nat, less: (T, T) -> bool, m: nat) {
    Min(s, n, less, m) && forall j :: m < j < n ==> less(s[m], s[j])
  }

  ghost predicate FirstMax<T>(s: seq<T>, n: nat, less: (T, T) -> bool, m: nat) {
    Max(s, n, less, m) && forall j :: 0 <= j < m ==> less(s[j], s[m])
  }

  ghost predicate LastMax<T>(s: seq<T>, n: nat, less: (T, T) -> bool, m: nat) {
    Max(s, n, less, m) && forall j :: m < j < n ==> less(s[j], s[m])
  }

  /** The smallest position found is `m`, or `potential` just before it if that is no larger. */
  ghost predicate FirstMinSoFar<T>(s: seq<T>, n: nat, less: (T, T) -> bool, m: nat, potential: nat) {
    if potential == |s| then FirstMin(s, n, less, m)
    else
      && Min(s, n, less, m) && m == potential + 1
      && forall j :: 0 <= j < potential ==> less(s[m], s[j])
  }

  /** The largest position found is `m`, or `potential` just behind it if that is no smaller. */
  ghost predicate LastMaxSoFar<T>(s: seq<T>, n: nat, less: (T, T) -> bool, m: nat, potential: nat) {
    if potential == |s| then LastMax(s, n, less, m)
    else
      && Max(s, n, less, m) && potential == m + 1 && potential < n
      && forall j :: potential < j < n ==> less(s[j], s[m])
  }

  /** At most one comparison for the first pair and three for each further one. */
  predicate Thrifty(comparisons: int, seen: nat) {
    2 * comparisons <= 3 * seen - 4
  }

  // ---------- one pair more ----------

  lemma FirstMinOverPair<T(!new)>(s: seq<T>, less: (T, T) -> bool, first: nat, m: nat, potential: nat,
                                  r: nat, potential': nat)
    requires StrictWeakOrder(less) && first + 1 < |s| && FirstMinSoFar(s, first, less, m, potential)
    requires var inOrder := less(s[first], s[first + 1]);
      if less(s[if inOrder then first else first + 1], s[m])
      then (r, potential') == if inOrder then (first, |s|) else (first + 1, first)
      else (r, potential') == (m, potential)
    ensures FirstMinSoFar(s, first + 2, less, r, potential')
  {
  }

  lemma FirstMaxOverPair<T(!new)>(s: seq<T>, less: (T, T) -> bool, first: nat, m: nat, r: nat)
    requires StrictWeakOrder(less) && first + 1 < |s| && FirstMax(s, first, less, m)
    requires var larger := if less(s[first], s[first + 1]) then first + 1 else first;
      r == if less(s[m], s[larger]) then larger else m
    ensures FirstMax(s, first + 2, less, r)
  {
  }

  lemma LastMinOverPair<T(!new)>(s: seq<T>, less: (T, T) -> bool, first: nat, m: nat, r: nat)
    requires StrictWeakOrder(less) && first + 1 < |s| && LastMin(s, first, less, m)
    requires var smaller := if less(s[first], s[first + 1]) then first else first + 1;
      r == if less(s[m], s[smaller]) then m else smaller
    ensures LastMin(s, first + 2, less, r)
  {
  }

  lemma LastMaxOverPair<T(!new)>(s: seq<T>, less: (T, T) -> bool, first: nat, m: nat, potential: nat,
                                 r: nat, potential': nat)
    requires StrictWeakOrder(less) && first + 1 < |s| && LastMaxSoFar(s, first, less, m, potential)
    requires var inOrder := less(s[first], s[first + 1]);
      if less(s[if inOrder then first + 1 else first], s[m])
      then (r, potential') == (m, potential)
      else (r, potential') == if inOrder then (first + 1, |s|) else (first, first + 1)
    ensures LastMaxSoFar(s, first + 2, less, r, potential')
  {
  }

  lemma FirstMinInside<T>(s: seq<T>, n: nat, less: (T, T) -> bool, m: nat, potential: nat)
    requires FirstMinSoFar(s, n, less, m, potential)
    ensures m < n <= |s|
  {
  }

  lemma FirstMaxInside<T>(s: seq<T>, n: nat, less: (T, T) -> bool, m: nat)
    requires FirstMax(s, n, less, m)
    ensures m < n <= |s|
  {
  }

  lemma LastMinInside<T>(s: seq<T>, n: nat, less: (T, T) -> bool, m: nat)
    requires LastMin(s, n, less, m)
    ensures m < n <= |s|
  {
  }

  lemma LastMaxInside<T>(s: seq<T>, n: nat, less: (T, T) -> bool, m: nat, potential: nat)
    requires LastMaxSoFar(s, n, less, m, potential)
    ensures m < n <= |s|
  {
  }

  // ---------- the searches ----------

  /** Where `second` stands when `first` has moved to a new pair. */
  predicate Paired(first: nat, second: nat, last: nat) {
    2 <= first <= last && second == if first == last then last else first + 1
  }

  method FirstMinFirstMaxPair<T(!new)>(s: seq<T>, order: Order<T>, first: nat, second: nat,
                                       min: nat, max: nat, potentialMin: nat)
    returns (minResult: nat, maxResult: nat, potentialMinResult: nat)
    requires StrictWeakOrder(order.less) && second == first + 1 < |s|
    requires FirstMinSoFar(s, first, order.less, min, potentialMin) && FirstMax(s, first, order.less, max)
    modifies order
    ensures FirstMinSoFar(s, first + 2, order.less, minResult, potentialMinResult)
    ensures FirstMax(s, first + 2, order.less, maxResult)
    ensures order.calls == old(order.calls) + 3
  {
    hide *;
    FirstMinInside(s, first, order.less, min, potentialMin);
    FirstMaxInside(s, first, order.less, max);
    minResult, maxResult, potentialMinResult := min, max, potentialMin;
    var inOrder := order.Less(s[first], s[second]);
    if inOrder {
      var byMin := order.Less(s[first], s[minResult]);
      if byMin {
        minResult := first;
        potentialMinResult := |s|;
      }
      var byMax := order.Less(s[maxResult], s[second]);
      if byMax {
        maxResult := second;
      }
    } else {
      var byMin := order.Less(s[second], s[minResult]);
      if byMin {
        minResult := second;
        potentialMinResult := first;
      }
      var byMax := order.Less(s[maxResult], s[first]);
      if byMax {
        maxResult := first;
      }
    }
    FirstMinOverPair(s, order.less, first, min, potentialMin, minResult, potentialMinResult);
    FirstMaxOverPair(s, order.less, first, max, maxResult);
  }

  /** The last element of an odd number, and the one deferred comparison. */
  method FirstMinFirstMaxRest<T(!new)>(s: seq<T>, order: Order<T>, first: nat,
                                       min: nat, max: nat, potentialMin: nat)
    returns (minResult: nat, maxResult: nat)
    requires StrictWeakOrder(order.less) && (first == |s| || first + 1 == |s|)
    requires FirstMinSoFar(s, first, order.less, min, potentialMin) && FirstMax(s, first, order.less, max)
    modifies order
    ensures FirstMin(s, |s|, order.less, minResult) && FirstMax(s, |s|, order.less, maxResult)
    ensures order.calls <= old(order.calls) + if first == |s| then 1 else 3
  {
    var last, potentialMinResult := |s|, potentialMin;
    minResult, maxResult := min, max;
    if first != last {
      var byMin := order.Less(s[first], s[minResult]);
      if byMin {
        minResult, potentialMinResult := first, last;
      } else {
        var byMax := order.Less(s[maxResult], s[first]);
        if byMax {
          maxResult := first;
        }
      }
    }
    if potentialMinResult != last {
      var byMin := order.Less(s[minResult], s[potentialMinResult]);
      if !byMin {
        minResult := potentialMinResult;
      }
    }
  }

  /** The first of the smallest and the first of the largest elements. */
  method BasicMinMaxElement<T(!new)>(s: seq<T>, order: Order<T>)
    returns (minResult: nat, maxResult: nat)
    requires StrictWeakOrder(order.less)
    modifies order
    ensures s == [] ==> minResult == |s| && maxResult == |s|
    ensures s != [] ==> FirstMin(s, |s|, order.less, minResult) && FirstMax(s, |s|, order.less, maxResult)
    ensures order.calls <= old(order.calls) + if |s| >= 2 then 3 * |s| / 2 else 0
  {
    var first, last := 0, |s|;
    if first == last {
      return last, last;
    }
    minResult, maxResult := first, first;
    var second := first + 1;
    if second == last {
      return;
    }
    var potentialMinResult: nat := last;
    var inOrder := order.Less(s[first], s[second]);
    if inOrder {
      maxResult := second;
    } else {
      minResult := second;
      potentialMinResult := first;
    }
    second := second + 1;
    first := second;
    if first != last { second := second + 1; }
    while second != last
      invariant Paired(first, second, last)
      invariant FirstMinSoFar(s, first, order.less, minResult, potentialMinResult)
      invariant FirstMax(s, first, order.less, maxResult)
      invariant Thrifty(order.calls - old(order.calls), first)
      decreases last - first
    {
      minResult, maxResult, potentialMinResult :=
        FirstMinFirstMaxPair(s, order, first, second, minResult, maxResult, potentialMinResult);
      second := second + 1;
      first := second;
      if first != last { second := second + 1; }
    }
    minResult, maxResult := FirstMinFirstMaxRest(s, order, first, minResult, maxResult, potentialMinResult);
  }

  method FirstMinLastMaxPair<T(!new)>(s: seq<T>, order: Order<T>, first: nat, second: nat, min: nat, max: nat)
    returns (minResult: nat, maxResult: nat)
    requires StrictWeakOrder(order.less) && second == first + 1 < |s|
    requires FirstMin(s, first, order.less, min) && LastMax(s, first, order.less, max)
    modifies order
    ensures FirstMin(s, first + 2, order.less, minResult) && LastMax(s, first + 2, order.less, maxResult)
    ensures order.calls == old(order.calls) + 3
  {
    minResult, maxResult := min, max;
    var inOrder := order.Less(s[second], s[first]);
    if !inOrder {
      var byMin := order.Less(s[first], s[minResult]);
      if byMin {
        minResult := first;
      }
      var byMax := order.Less(s[second], s[maxResult]);
      if !byMax {
        maxResult := second;
      }
    } else {
      var byMin := order.Less(s[second], s[minResult]);
      if byMin {
        minResult := second;
      }
      var byMax := order.Less(s[first], s[maxResult]);
      if !byMax {
        maxResult := first;
      }
    }
  }

  method FirstMinLastMaxRest<T(!new)>(s: seq<T>, order: Order<T>, first: nat, min: nat, max: nat)
    returns (minResult: nat, maxResult: nat)
    requires StrictWeakOrder(order.less) && (first == |s| || first + 1 == |s|)
    requires FirstMin(s, first, order.less, min) && LastMax(s, first, order.less, max)
    modifies order
    ensures FirstMin(s, |s|, order.less, minResult) && LastMax(s, |s|, order.less, maxResult)
    ensures order.calls <= old(order.calls) + if first == |s| then 0 else 2
  {
    var last := |s|;
    minResult, maxResult := min, max;
    if first != last {
      var byMin := order.Less(s[first], s[minResult]);
      if byMin {
        minResult := first;
      } else {
        var byMax := order.Less(s[first], s[maxResult]);
        if !byMax {
          maxResult := first;
        }
      }
    }
  }

  /** The first of the smallest and the last of the largest elements. */
  method BasicFirstMinLastMaxElement<T(!new)>(s: seq<T>, order: Order<T>)
    returns (minResult: nat, maxResult: nat)
    requires StrictWeakOrder(order.less)
    modifies order
    ensures s == [] ==> minResult == |s| && maxResult == |s|
    ensures s != [] ==> FirstMin(s, |s|, order.less, minResult) && LastMax(s, |s|, order.less, maxResult)
    ensures order.calls <= old(order.calls) + if |s| >= 2 then 3 * |s| / 2 else 0
  {
    var first, last := 0, |s|;
    if first == last {
      return last, last;
    }
    minResult, maxResult := first, first;
    first := first + 1;
    var second := first;
    if second == last {
      return;
    }
    var byMin := order.Less(s[second], s[minResult]);
    if byMin {
      minResult := second;
    } else {
      maxResult := second;
    }
    second := second + 1;
    first := second;
    if first != last { second := second + 1; }
    while second != last
      invariant Paired(first, second, last)
      invariant FirstMin(s, first, order.less, minResult) && LastMax(s, first, order.less, maxResult)
      invariant Thrifty(order.calls - old(order.calls), first)
      decreases last - first
    {
      minResult, maxResult := FirstMinLastMaxPair(s, order, first, second, minResult, maxResult);
      second := second + 1;
      first := second;
      if first != last { second := second + 1; }
    }
    minResult, maxResult := FirstMinLastMaxRest(s, order, first, minResult, maxResult);
  }

  method LastMinFirstMaxPair<T(!new)>(s: seq<T>, order: Order<T>, first: nat, second: nat, min: nat, max: nat)
    returns (minResult: nat, maxResult: nat)
    requires StrictWeakOrder(order.less) && second == first + 1 < |s|
    requires LastMin(s, first, order.less, min) && FirstMax(s, first, order.less, max)
    modifies order
    ensures LastMin(s, first + 2, order.less, minResult) && FirstMax(s, first + 2, order.less, maxResult)
    ensures order.calls == old(order.calls) + 3
  {
    hide *;
    LastMinInside(s, first, order.less, min);
    FirstMaxInside(s, first, order.less, max);
    minResult, maxResult := min, max;
    var inOrder := order.Less(s[first], s[second]);
    if inOrder {
      var byMin := order.Less(s[minResult], s[first]);
      if !byMin {
        minResult := first;
      }
      var byMax := order.Less(s[maxResult], s[second]);
      if byMax {
        maxResult := second;
      }
    } else {
      var byMin := order.Less(s[minResult], s[second]);
      if !byMin {
        minResult := second;
      }
      var byMax := order.Less(s[maxResult], s[first]);
      if byMax {
        maxResult := first;
      }
    }
    LastMinOverPair(s, order.less, first, min, minResult);
    FirstMaxOverPair(s, order.less, first, max, maxResult);
  }

  method LastMinFirstMaxRest<T(!new)>(s: seq<T>, order: Order<T>, first: nat, min: nat, max: nat)
    returns (minResult: nat, maxResult: nat)
    requires StrictWeakOrder(order.less) && (first == |s| || first + 1 == |s|)
    requires LastMin(s, first, order.less, min) && FirstMax(s, first, order.less, max)
    modifies order
    ensures LastMin(s, |s|, order.less, minResult) && FirstMax(s, |s|, order.less, maxResult)
    ensures order.calls <= old(order.calls) + if first == |s| then 0 else 2
  {
    var last := |s|;
    minResult, maxResult := min, max;
    if first != last {
      var byMin := order.Less(s[minResult], s[first]);
      if !byMin {
        minResult := first;
      } else {
        var byMax := order.Less(s[maxResult], s[first]);
        if byMax {
          maxResult := first;
        }
      }
    }
  }

  /** The last of the smallest and the first of the largest elements. */
  method BasicLastMinFirstMaxElement<T(!new)>(s: seq<T>, order: Order<T>)
    returns (minResult: nat, maxResult: nat)
    requires StrictWeakOrder(order.less)
    modifies order
    ensures s == [] ==> minResult == |s| && maxResult == |s|
    ensures s != [] ==> LastMin(s, |s|, order.less, minResult) && FirstMax(s, |s|, order.less, maxResult)
    ensures order.calls <= old(order.calls) + if |s| >= 2 then 3 * |s| / 2 else 0
  {
    var first, last := 0, |s|;
    if first == last {
      return last, last;
    }
    minResult, maxResult := first, first;
    first := first + 1;
    var second := first;
    if second == last {
      return;
    }
    var byMax := order.Less(s[maxResult], s[second]);
    if byMax {
      maxResult := second;
    } else {
      minResult := second;
    }
    second := second + 1;
    first := second;
    if first != last { second := second + 1; }
    while second != last
      invariant Paired(first, second, last)
      invariant LastMin(s, first, order.less, minResult) && FirstMax(s, first, order.less, maxResult)
      invariant Thrifty(order.calls - old(order.calls), first)
      decreases last - first
    {
      minResult, maxResult := LastMinFirstMaxPair(s, order, first, second, minResult, maxResult);
      second := second + 1;
      first := second;
      if first != last { second := second + 1; }
    }
    minResult, maxResult := LastMinFirstMaxRest(s, order, first, minResult, maxResult);
  }

  method LastMinLastMaxPair<T(!new)>(s: seq<T>, order: Order<T>, first: nat, second: nat,
                                     min: nat, max: nat, potentialMax: nat)
    returns (minResult: nat, maxResult: nat, potentialMaxResult: nat)
    requires StrictWeakOrder(order.less) && second == first + 1 < |s|
    requires LastMin(s, first, order.less, min) && LastMaxSoFar(s, first, order.less, max, potentialMax)
    modifies order
    ensures LastMin(s, first + 2, order.less, minResult)
    ensures LastMaxSoFar(s, first + 2, order.less, maxResult, potentialMaxResult)
    ensures order.calls == old(order.calls) + 3
  {
    hide *;
    LastMinInside(s, first, order.less, min);
    LastMaxInside(s, first, order.less, max, potentialMax);
    minResult, maxResult, potentialMaxResult := min, max, potentialMax;
    var inOrder := order.Less(s[first], s[second]);
    if inOrder {
      var byMin := order.Less(s[minResult], s[first]);
      if !byMin {
        minResult := first;
      }
      var byMax := order.Less(s[second], s[maxResult]);
      if !byMax {
        maxResult := second;
        potentialMaxResult := |s|;
      }
    } else {
      var byMin := order.Less(s[minResult], s[second]);
      if !byMin {
        minResult := second;
      }
      var byMax := order.Less(s[first], s[maxResult]);
      if !byMax {
        maxResult := first;
        potentialMaxResult := second;
      }
    }
    LastMinOverPair(s, order.less, first, min, minResult);
    LastMaxOverPair(s, order.less, first, max, potentialMax, maxResult, potentialMaxResult);
  }

  method LastMinLastMaxRest<T(!new)>(s: seq<T>, order: Order<T>, first: nat,
                                     min: nat, max: nat, potentialMax: nat)
    returns (minResult: nat, maxResult: nat)
    requires StrictWeakOrder(order.less) && (first == |s| || first + 1 == |s|)
    requires LastMin(s, first, order.less, min) && LastMaxSoFar(s, first, order.less, max, potentialMax)
    modifies order
    ensures LastMin(s, |s|, order.less, minResult) && LastMax(s, |s|, order.less, maxResult)
    ensures order.calls <= old(order.calls) + if first == |s| then 1 else 3
  {
    var last, potentialMaxResult := |s|, potentialMax;
    minResult, maxResult := min, max;
    if first != last {
      var byMin := order.Less(s[minResult], s[first]);
      if !byMin {
        minResult := first;
      }
      var byMax := order.Less(s[first], s[maxResult]);
      if !byMax {
        maxResult := first;
        potentialMaxResult := last;
      }
    }
    if potentialMaxResult != last {
      var byMax := order.Less(s[potentialMaxResult], s[maxResult]);
      if !byMax {
        maxResult := potentialMaxResult;
      }
    }
  }

  /** The last of the smallest and the last of the largest elements. */
  method BasicLastMinLastMaxElement<T(!new)>(s: seq<T>, order: Order<T>)
    returns (minResult: nat, maxResult: nat)
    requires StrictWeakOrder(order.less)
    modifies order
    ensures s == [] ==> minResult == |s| && maxResult == |s|
    ensures s != [] ==> LastMin(s, |s|, order.less, minResult) && LastMax(s, |s|, order.less, maxResult)
    ensures order.calls <= old(order.calls) + if |s| >= 2 then 3 * |s| / 2 else 0
  {
    var first, last := 0, |s|;
    if first == last {
      return last, last;
    }
    minResult, maxResult := first, first;
    var second := first + 1;
    if second == last {
      return;
    }
    var potentialMaxResult: nat := last;
    var inOrder := order.Less(s[first], s[second]);
    if inOrder {
      maxResult := second;
    } else {
      minResult := second;
      potentialMaxResult := second;
    }
    second := second + 1;
    first := second;
    if first != last { second := second + 1; }
    while second != last
      invariant Paired(first, second, last)
      invariant LastMin(s, first, order.less, minResult)
      invariant LastMaxSoFar(s, first, order.less, maxResult, potentialMaxResult)
      invariant Thrifty(order.calls - old(order.calls), first)
      decreases last - first
    {
      minResult, maxResult, potentialMaxResult :=
        LastMinLastMaxPair(s, order, first, second, minResult, maxResult, potentialMaxResult);
      second := second + 1;
      first := second;
      if first != last { second := second + 1; }
    }
    minResult, maxResult := LastMinLastMaxRest(s, order, first, minResult, maxResult, potentialMaxResult);
  }
}
