/** Deque iterators: a node of the map and a place in the node, and the arithmetic on them.

A position counts the cells of the nodes of the map from the first one on. An iterator is a
value here; where the code advances one in place, the function returns the advanced one.
*/
module DequeIterator {
  import opened Remainders

  /** How many elements a node holds: as many as fit in 512 bytes, but at least one. */
  function BufferSize(elementSize: nat): (b: nat)
    requires elementSize > 0
    ensures b > 0
    ensures elementSize <= 512 ==> b * elementSize <= 512 < (b + 1) * elementSize
  {
    if elementSize < 512 then
      WholePart(512, elementSize);
      512 / elementSize
    else
      1
  }

  lemma WholePart(x: nat, d: nat)
    requires 0 < d <= x
    ensures x / d > 0 && x / d * d <= x < (x / d + 1) * d
  {
    var q := x / d;
    assert x == d * q + x % d;
  }

  /** `m_node` as an index of the map, `m_cur` as an offset from the node's first cell. */
  datatype Iter = Iter(node: int, cur: int) {

    /** The cell pointed at lies in the node: `m_first <= m_cur < m_last`. */
    predicate In(b: nat) {
      0 <= cur < b
    }

    function Position(b: nat): int {
      node * b + cur
    }

    // ---------- the operators ----------

    function Plus(b: nat, n: int): Iter
      requires b > 0
    {
      var offset := n + cur;
      if 0 <= offset < b then
        Iter(node, cur + n)
      else
        var nodeOffset := if offset > 0 then offset / b else -((-offset - 1) / b) - 1;
        Iter(node + nodeOffset, offset - nodeOffset * b)
    }

    function Minus(b: nat, n: int): Iter
      requires b > 0
    {
      Plus(b, -n)
    }

    function Increment(b: nat): Iter {
      if cur + 1 == b then Iter(node + 1, 0) else Iter(node, cur + 1)
    }

    function Decrement(b: nat): Iter {
      if cur == 0 then Iter(node - 1, b - 1) else Iter(node, cur - 1)
    }

    function Difference(b: nat, x: Iter): int {
      b * (node - x.node - 1) + cur + (b - x.cur)
    }

    predicate Less(x: Iter) {
      if node == x.node then cur < x.cur else node < x.node
    }
  }

  // ---------- what they mean ----------

  lemma {:induction false} Floor(x: int, b: nat)
    requires b > 0 && x != 0
    ensures var q := if x > 0 then x / b else -((-x - 1) / b) - 1;
      q * b <= x < q * b + b
  {
    if x > 0 {
      assert x == b * (x / b) + x % b;
    } else {
      var y := -x - 1;
      assert y == b * (y / b) + y % b;
      assert (-(y / b) - 1) * b == -(b * (y / b)) - b;
    }
  }

  /** `+=` by any amount, forwards or backwards, moves the position by that amount. */
  lemma PlusMoves(b: nat, i: Iter, n: int)
    requires b > 0 && i.In(b)
    ensures i.Plus(b, n).In(b)
    ensures i.Plus(b, n).Position(b) == i.Position(b) + n
  {
    var offset := n + i.cur;
    if !(0 <= offset < b) {
      Floor(offset, b);
      var q := i.Plus(b, n).node - i.node;
      assert (i.node + q) * b == i.node * b + q * b;
    }
  }

  lemma IncrementMoves(b: nat, i: Iter)
    requires b > 0 && i.In(b)
    ensures i.Increment(b).In(b) && i.Increment(b).Position(b) == i.Position(b) + 1
    ensures i.Decrement(b).In(b) && i.Decrement(b).Position(b) == i.Position(b) - 1
  {
    assert (i.node + 1) * b == i.node * b + b;
    assert (i.node - 1) * b == i.node * b - b;
  }

  /** A position belongs to one iterator only. */
  lemma PositionIsUnique(b: nat, i: Iter, j: Iter)
    requires b > 0 && i.In(b) && j.In(b) && i.Position(b) == j.Position(b)
    ensures i == j
  {
    QuotientIsUnique(i.node, i.cur, j.node, j.cur, b);
  }

  lemma DifferenceIsExact(b: nat, i: Iter, j: Iter)
    requires b > 0
    ensures i.Difference(b, j) == i.Position(b) - j.Position(b)
  {
    assert b * (i.node - j.node - 1) == i.node * b - j.node * b - b;
  }

  lemma LessIsExact(b: nat, i: Iter, j: Iter)
    requires b > 0 && i.In(b) && j.In(b)
    ensures i.Less(j) <==> i.Position(b) < j.Position(b)
  {
    if i.node < j.node {
      NextMultiple(i.node, j.node, b);
    } else if j.node < i.node {
      NextMultiple(j.node, i.node, b);
    }
  }

  function Increments(b: nat, i: Iter, n: nat): Iter
    decreases n
  {
    if n == 0 then i else Increments(b, i.Increment(b), n - 1)
  }

  function Decrements(b: nat, i: Iter, n: nat): Iter
    decreases n
  {
    if n == 0 then i else Decrements(b, i.Decrement(b), n - 1)
  }

  lemma {:induction false} StepsMove(b: nat, i: Iter, n: nat)
    requires b > 0 && i.In(b)
    ensures Increments(b, i, n).In(b) && Increments(b, i, n).Position(b) == i.Position(b) + n
    ensures Decrements(b, i, n).In(b) && Decrements(b, i, n).Position(b) == i.Position(b) - n
    decreases n
  {
    if n > 0 {
      IncrementMoves(b, i);
      StepsMove(b, i.Increment(b), n - 1);
      StepsMove(b, i.Decrement(b), n - 1);
    }
  }

  /** Jumping is stepping: the same iterator, node, place and all. */
  lemma JumpsAreSteps(b: nat, i: Iter, n: nat)
    requires b > 0 && i.In(b)
    ensures i.Plus(b, n) == Increments(b, i, n)
    ensures i.Minus(b, n) == Decrements(b, i, n)
  {
    StepsMove(b, i, n);
    PlusMoves(b, i, n);
    PlusMoves(b, i, -(n as int));
    PositionIsUnique(b, i.Plus(b, n), Increments(b, i, n));
    PositionIsUnique(b, i.Minus(b, n), Decrements(b, i, n));
  }

  /** There and back, and the inverse laws of a random access iterator. */
  lemma ArithmeticLaws(b: nat, i: Iter, j: Iter, m: int, n: int)
    requires b > 0 && i.In(b) && j.In(b)
    ensures i.Plus(b, m).Plus(b, n) == i.Plus(b, m + n)
    ensures j.Plus(b, i.Difference(b, j)) == i
    ensures i.Plus(b, n).Difference(b, i) == n
  {
    PlusMoves(b, i, m);
    PlusMoves(b, i, n);
    PlusMoves(b, i.Plus(b, m), n);
    PlusMoves(b, i, m + n);
    PositionIsUnique(b, i.Plus(b, m).Plus(b, n), i.Plus(b, m + n));
    DifferenceIsExact(b, i, j);
    PlusMoves(b, j, i.Difference(b, j));
    PositionIsUnique(b, j.Plus(b, i.Difference(b, j)), i);
    DifferenceIsExact(b, i.Plus(b, n), i);
  }
}
