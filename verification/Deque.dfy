/** The segmented deque: element access, map growth, insertion and erasure as the code does
them, proved against a sequence.

The element type decides what moving an object leaves behind (`Kind`), and the allocator where
the nodes lie. The deque has to work for types of all kinds, and with every allocator: also
with one that hands out the addresses of freed nodes again.
*/
module Deque {
  import opened Remainders
  import opened DequeIterator
  import opened DequeCells
  import opened DequeStorage

  /** The address of an element: its node and the place in it. */
  datatype Reference = Reference(node: nat, offset: nat)

  class Deque<T> {
    const b: nat
    const kind: Kind
    /** Whether there is a map, and its pointers. */
    var mapped: bool
    var index: seq<nat>
    /** The allocated nodes, by address, and where the next ones will lie. */
    var store: Store<T>
    var allocator: set<nat> -> nat
    var start: Iter
    var finish: Iter
    /** The map's pointers from `low` up to `high` lead to the allocated nodes, and `line`
    is their storage. */
    ghost var low: nat
    ghost var high: nat
    ghost var line: seq<Cell<T>>
    ghost var contents: seq<T>

    // ---------- storage ----------

    /** The allocated nodes are those that the pointers of a map lead to, in line. */
    ghost predicate Leads(ids: seq<nat>)
      reads `mapped, `store, `allocator, `low, `high, `line
    {
      && b > 0 && mapped && Allocates(allocator)
      && Allocation(b, store, ids, low, high) && line == Flat(b, store, ids, low, high)
    }

    ghost predicate Mem()
      reads `mapped, `index, `store, `allocator, `low, `high, `line
    {
      Leads(index)
    }

    /** The place of an iterator in the line. */
    ghost function At(i: Iter): int
      reads `low
    {
      (i.node - low) * b + i.cur
    }

    lemma AtIsPosition(i: Iter)
      ensures At(i) == i.Position(b) - low * b
    {
    }

    lemma AtMoves(i: Iter, n: int)
      requires b > 0 && i.In(b)
      ensures i.Plus(b, n).In(b) && At(i.Plus(b, n)) == At(i) + n
    {
      PlusMoves(b, i, n);
      AtIsPosition(i);
      AtIsPosition(i.Plus(b, n));
    }

    lemma AtSteps(i: Iter)
      requires b > 0 && i.In(b)
      ensures i.Increment(b).In(b) && At(i.Increment(b)) == At(i) + 1
      ensures i.Decrement(b).In(b) && At(i.Decrement(b)) == At(i) - 1
    {
      IncrementMoves(b, i);
      AtIsPosition(i);
      AtIsPosition(i.Increment(b));
      AtIsPosition(i.Decrement(b));
    }

    lemma AtIsUnique(i: Iter, j: Iter)
      requires b > 0 && i.In(b) && j.In(b)
      ensures At(i) == At(j) <==> i == j
      ensures i.Difference(b, j) == At(i) - At(j)
    {
      AtIsPosition(i);
      AtIsPosition(j);
      DifferenceIsExact(b, i, j);
      if At(i) == At(j) {
        PositionIsUnique(b, i, j);
      }
    }

    /** A place in the line is a place in an allocated node. */
    lemma InLine(i: Iter)
      requires Mem() && i.In(b)
      ensures 0 <= At(i) < |line| <==> low <= i.node < high
      ensures low <= i.node < high ==> At(i) == Spot(b, i.node - low, i.cur)
    {
      if low <= i.node < high {
        SpotInLine(b, i.node - low, i.cur, high - low);
      } else if i.node < low {
        NextMultiple(i.node - low, 0, b);
      } else if i.node > high {
        NextMultiple(high - low, i.node - low, b);
      }
    }

    lemma MemAllocates()
      requires Mem()
      ensures Allocation(b, store, index, low, high)
    {
    }

    lemma InMap()
      requires Mem()
      ensures b > 0 && low <= high <= |index| && |line| == (high - low) * b
    {
    }

    /** All iterators that matter: both ends in nodes, the beginning not behind the end. */
    ghost predicate Ends()
      reads `low, `high, `start, `finish
    {
      && b > 0 && start.In(b) && finish.In(b)
      && low <= start.node && finish.node < high && 0 <= At(start) <= At(finish)
    }

    lemma EndsAre()
      requires Ends()
      ensures b > 0 && start.In(b) && finish.In(b) && 0 <= At(start) <= At(finish)
    {
    }

    /** The first and the last node allocated are those of the two ends. */
    ghost predicate Tight()
      reads `low, `high, `start, `finish
    {
      Ends() && start.node == low && finish.node == high - 1
    }

    /** The node of an iterator, from its place. */
    lemma InFirstNode(i: Iter)
      requires b > 0 && i.In(b)
      ensures 0 <= At(i) < b <==> i.node == low
      ensures i.node == low ==> At(i) == i.cur
    {
      if 0 <= At(i) < b {
        QuotientIsUnique(i.node - low, i.cur, 0, At(i), b);
      }
    }

    lemma InLastNode(i: Iter)
      requires Mem() && i.In(b)
      ensures |line| - b <= At(i) < |line| <==> i.node == high - 1
      ensures i.node == high - 1 ==> At(i) == |line| - b + i.cur && (i.node - low) * b == |line| - b
    {
      var k := high - low - 1;
      assert |line| == k * b + b;
      if |line| - b <= At(i) < |line| {
        QuotientIsUnique(i.node - low, i.cur, k, At(i) - k * b, b);
      }
    }

    // ---------- one cell ----------

    method Fetch(i: Iter) returns (c: Cell<T>)
      requires Mem() && i.In(b) && 0 <= At(i) < |line|
      ensures c == line[At(i)]
    {
      InLine(i);
      c := store[index[i.node]][i.cur];
      FlatAt(b, store, index, low, high, i.node, i.cur);
    }

    method Put(i: Iter, c: Cell<T>)
      requires Mem() && i.In(b) && 0 <= At(i) < |line|
      modifies `store, `line
      ensures Mem() && line == old(line)[At(i) := c]
    {
      InLine(i);
      hide At, Spot, Flat;
      CellPut(b, store, index, low, high, i.node, i.cur, c);
      hide Allocation, Distinct;
      store := store[index[i.node] := store[index[i.node]][i.cur := c]];
      line := line[At(i) := c];
    }

    /** Constructs an object from an expiring one. */
    method ConstructCell(from: Iter, to: Iter)
      requires Mem() && from.In(b) && 0 <= At(from) < |line| && line[At(from)].Live?
      requires to.In(b) && 0 <= At(to) < |line| && line[At(to)].Raw?
      modifies `store, `line
      ensures Mem() && line == old(line)[At(to) := old(line)[At(from)]][At(from) := Left(old(line)[At(from)], kind)]
    {
      hide Mem, At;
      var c := Fetch(from);
      Put(to, c);
      Put(from, Left(c, kind));
    }

    /** Assigns an object from an expiring one, perhaps from itself. */
    method AssignCell(from: Iter, to: Iter)
      requires Mem() && from.In(b) && 0 <= At(from) < |line| && line[At(from)].Live?
      requires to.In(b) && 0 <= At(to) < |line| && !line[At(to)].Raw?
      modifies `store, `line
      ensures Mem()
      ensures from != to ==>
        line == old(line)[At(to) := old(line)[At(from)]][At(from) := Left(old(line)[At(from)], kind)]
      ensures from == to ==> line == if kind.keepsSelf then old(line) else old(line)[At(from) := Moved]
    {
      hide Mem, At;
      if from != to {
        var c := Fetch(from);
        Put(to, c);
        Put(from, Left(c, kind));
      } else if !kind.keepsSelf {
        Put(from, Moved);
      }
    }

    // ---------- ranges of cells ----------

    /** `uninitialized_move`: to raw storage in front of or behind the range. */
    method UninitializedMove(first: Iter, last: Iter, dest: Iter)
      requires Mem() && first.In(b) && last.In(b) && dest.In(b)
      requires AllLive(line, At(first), At(last) - At(first)) && AllRaw(line, At(dest), At(last) - At(first))
      modifies `store, `line
      ensures Mem() && line == Shifted(old(line), At(first), At(last) - At(first), At(dest), kind)
    {
      hide Mem, At, AllLive, AllRaw, Shifted;
      ghost var was, n, a, d := line, At(last) - At(first), At(first), At(dest);
      InsideLine(was, a, d, n, kind);
      var from, to := first, dest;
      ghost var j := 0;
      AtIsUnique(from, last);
      while from != last
        invariant Mem() && from.In(b) && to.In(b) && 0 <= j <= n
        invariant At(from) == a + j && At(to) == d + j
        invariant from == last <==> j == n
        invariant line == Shifted(was, a, j, d, kind)
        decreases n - j
      {
        MoveOut(was, a, d, n, j, kind);
        ConstructCell(from, to);
        AtSteps(from);
        AtSteps(to);
        from, to := from.Increment(b), to.Increment(b);
        j := j + 1;
        AtIsUnique(from, last);
      }
    }

    /** `move`: to constructed storage at or in front of the range. */
    method Move(first: Iter, last: Iter, dest: Iter)
      requires Mem() && first.In(b) && last.In(b) && dest.In(b) && At(dest) <= At(first)
      requires AllLive(line, At(first), At(last) - At(first)) && NoneRaw(line, At(dest), At(last) - At(first))
      modifies `store, `line
      ensures Mem() && line == AfterMove(old(line), At(first), At(last) - At(first), At(dest), kind)
    {
      hide Mem, At, AfterMove;
      ghost var was, n, a, d := line, At(last) - At(first), At(first), At(dest);
      var from, to := first, dest;
      ghost var j := 0;
      NothingMoved(was, a, d, kind);
      AtIsUnique(from, last);
      while from != last
        invariant Mem() && from.In(b) && to.In(b) && 0 <= j <= n
        invariant At(from) == a + j && At(to) == d + j
        invariant from == last <==> j == n
        invariant line == AfterMove(was, a, j, d, kind)
        decreases n - j
      {
        MovedFurther(was, a, j, d, kind);
        AtIsUnique(from, to);
        AssignCell(from, to);
        AtSteps(from);
        AtSteps(to);
        from, to := from.Increment(b), to.Increment(b);
        j := j + 1;
        AtIsUnique(from, last);
      }
    }

    /** `move_backward`: to constructed storage ending at or behind the end of the range. */
    method MoveBackward(first: Iter, last: Iter, destLast: Iter)
      requires Mem() && first.In(b) && last.In(b) && destLast.In(b) && At(last) <= At(destLast)
      requires AllLive(line, At(first), At(last) - At(first))
      requires NoneRaw(line, At(destLast) - (At(last) - At(first)), At(last) - At(first))
      modifies `store, `line
      ensures Mem() && line == AfterMove(old(line), At(first), At(last) - At(first),
                                         At(destLast) - (At(last) - At(first)), kind)
    {
      hide Mem, At, AfterMove;
      ghost var was, n, a, z, e := line, At(last) - At(first), At(first), At(last), At(destLast);
      var from, to := last, destLast;
      ghost var j := 0;
      NothingMoved(was, z, e, kind);
      AtIsUnique(from, first);
      while from != first
        invariant Mem() && from.In(b) && to.In(b) && 0 <= j <= n
        invariant At(from) == z - j && At(to) == e - j
        invariant from == first <==> j == n
        invariant line == AfterMove(was, z - j, j, e - j, kind)
        decreases n - j
      {
        MovedBackFurther(was, z - j, j, e - j, kind);
        AtSteps(from);
        AtSteps(to);
        from, to := from.Decrement(b), to.Decrement(b);
        AtIsUnique(from, to);
        AssignCell(from, to);
        j := j + 1;
        AtIsUnique(from, first);
      }
    }

    /** Puts the new elements at the places from `dest` on. */
    method Write(dest: Iter, ys: seq<T>)
      requires Mem() && dest.In(b) && 0 <= At(dest) && At(dest) + |ys| <= |line|
      modifies `store, `line
      ensures Mem() && line == Written(old(line), At(dest), ys)
    {
      hide Mem, At;
      ghost var was, d := line, At(dest);
      var to := dest;
      for j := 0 to |ys|
        invariant Mem() && to.In(b) && At(to) == d + j
        invariant line == Written(was, d, ys[..j])
      {
        Put(to, Live(ys[j]));
        AtSteps(to);
        to := to.Increment(b);
        assert line == Written(was, d, ys[..j + 1]);
      }
      assert ys[..|ys|] == ys;
    }

    /** `copy_all_to`: assigns the new elements. */
    method CopyAllTo(dest: Iter, ys: seq<T>)
      requires Mem() && dest.In(b) && NoneRaw(line, At(dest), |ys|)
      modifies `store, `line
      ensures Mem() && line == Written(old(line), At(dest), ys)
    {
      Write(dest, ys);
    }

    /** `uninitialized_copy_some_and_update`: constructs the first `divisionCount` of the new
    elements, or those from there on; the others are still to come. */
    method UninitializedCopySome(dest: Iter, ys: seq<T>, divisionCount: nat, first: bool) returns (rest: seq<T>)
      requires Mem() && dest.In(b) && divisionCount <= |ys|
      requires AllRaw(line, At(dest), if first then divisionCount else |ys| - divisionCount)
      modifies `store, `line
      ensures Mem()
      ensures var some := if first then ys[..divisionCount] else ys[divisionCount..];
        && line == Written(old(line), At(dest), some)
        && ys == if first then some + rest else rest + some
    {
      hide Leads, At, Written;
      if first {
        Write(dest, ys[..divisionCount]);
        rest := ys[divisionCount..];
      } else {
        Write(dest, ys[divisionCount..]);
        rest := ys[..divisionCount];
      }
    }

    /** `priv_destroy_range`. */
    method DestroyRange(first: Iter, last: Iter)
      requires Mem() && first.In(b) && last.In(b) && NoneRaw(line, At(first), At(last) - At(first))
      modifies `store, `line
      ensures Mem() && line == Cleared(old(line), At(first), At(last) - At(first))
    {
      hide Mem, At;
      ghost var was, n, a := line, At(last) - At(first), At(first);
      var p := first;
      ghost var j := 0;
      AtIsUnique(p, last);
      while p != last
        invariant Mem() && p.In(b) && 0 <= j <= n && At(p) == a + j
        invariant p == last <==> j == n
        invariant line == Cleared(was, a, j)
        decreases n - j
      {
        Put(p, Raw);
        AtSteps(p);
        p := p.Increment(b);
        j := j + 1;
        AtIsUnique(p, last);
        assert line == Cleared(was, a, j);
      }
    }

    // ---------- nodes ----------

    /** `*(m_start.m_node - i) = priv_allocate_node()`. */
    method GrowFront(k: nat)
      requires Mem() && k + 1 == low
      modifies `index, `store, `low, `line
      ensures Mem() && low == k && |index| == |old(index)| && line == Raws(b) + old(line)
      ensures Stays(old(store), old(index), k + 1, high, store, index, k + 1)
      ensures var id := allocator(old(store.Keys)); index == old(index)[k := id] && store.Keys == old(store.Keys) + {id}
    {
      hide Allocation, Flat, Nodes, Distinct, Stays, Raws;
      InMap();
      var id := allocator(store.Keys);
      GrownFront(b, store, index, low, high, id);
      StaysWithOneMore(store, index, k + 1, high, k, id, Raws(b));
      store := store[id := Raws(b)];
      index := index[k := id];
      low := k;
      line := Raws(b) + line;
    }

    /** `*(m_finish.m_node + i) = priv_allocate_node()`. */
    method GrowBack(k: nat)
      requires Mem() && k == high < |index|
      modifies `index, `store, `high, `line
      ensures Mem() && high == k + 1 && |index| == |old(index)| && line == old(line) + Raws(b)
      ensures Stays(old(store), old(index), low, k, store, index, low)
      ensures var id := allocator(old(store.Keys)); index == old(index)[k := id] && store.Keys == old(store.Keys) + {id}
    {
      hide Allocation, Flat, Nodes, Distinct, Stays, Raws;
      InMap();
      var id := allocator(store.Keys);
      GrownBack(b, store, index, low, high, id);
      StaysWithOneMore(store, index, low, k, k, id, Raws(b));
      store := store[id := Raws(b)];
      index := index[k := id];
      high := k + 1;
      line := line + Raws(b);
    }

    /** `priv_deallocate_node` of each pointer in a range. */
    method FreeNodes(from: nat, to: nat)
      requires from <= to <= |index| && Distinct(index, from, to)
      requires forall i :: from <= i < to ==> index[i] in store
      modifies `store
      ensures Freed(old(store), store, index, from, to)
    {
      for k := from to to
        invariant Freed(old(store), store, index, from, k)
      {
        assert forall id :: LedTo(index, from, k + 1, id) <==> LedTo(index, from, k, id) || id == index[k];
        store := store - {index[k]};
      }
    }

    /** `priv_destroy_nodes` at the front. Nothing may live in the nodes any more. */
    method DestroyFrontNodes(from: nat, to: nat)
      requires Mem() && low == from <= to <= high && AllRaw(line, 0, At(Iter(to, 0)))
      modifies `store, `low, `line
      ensures Mem() && low == to && 0 <= old(At(Iter(to, 0))) <= |old(line)|
      ensures line == old(line)[old(At(Iter(to, 0)))..]
    {
      hide Flat, Distinct, Nodes, Allocation, Freed;
      MayFree(b, store, index, low, high, from, to);
      FreeNodes(from, to);
      TrimmedFront(b, old(store), index, low, high, store, to);
      line := line[(to - from) * b..];
      low := to;
    }

    /** The same at the end. */
    method DestroyBackNodes(from: nat, to: nat)
      requires Mem() && low <= from <= to == high
      requires AllRaw(line, At(Iter(from, 0)), |line| - At(Iter(from, 0)))
      modifies `store, `high, `line
      ensures Mem() && high == from && 0 <= old(At(Iter(from, 0))) <= |old(line)|
      ensures line == old(line)[..old(At(Iter(from, 0)))]
    {
      hide Flat, Distinct, Nodes, Allocation, Freed;
      MayFree(b, store, index, low, high, from, to);
      FreeNodes(from, to);
      TrimmedBack(b, old(store), index, low, high, store, from);
      assert (from - low) * b == At(Iter(from, 0));
      line := line[..At(Iter(from, 0))];
      high := from;
    }

    /** Where a node begins. */
    lemma NodeBegins(k: nat)
      requires Mem() && low <= k <= high
      ensures 0 <= At(Iter(k, 0)) <= |line|
      ensures k == low ==> At(Iter(k, 0)) == 0
      ensures k == high ==> At(Iter(k, 0)) == |line|
    {
      if k < high {
        InLine(Iter(k, 0));
      }
    }

    lemma InNode(i: Iter)
      ensures At(i) == At(Iter(i.node, 0)) + i.cur
      ensures At(Iter(i.node + 1, 0)) == At(Iter(i.node, 0)) + b
    {
      assert (i.node + 1 - low) * b == (i.node - low) * b + b;
    }

    // ---------- the map ----------

    /** `move` of pointers to places in front. */
    method MovePointers(a: nat, n: nat, d: nat)
      requires d <= a <= a + n <= |index|
      modifies `index
      ensures index == Copied(old(index), a, n, d)
    {
      for k := 0 to n
        invariant index == Copied(old(index), a, k, d)
      {
        index := index[d + k := index[a + k]];
      }
    }

    /** `move_backward` of pointers to places behind. */
    method MovePointersBackward(a: nat, n: nat, d: nat)
      requires a <= d && d + n <= |index|
      modifies `index
      ensures index == Copied(old(index), a, n, d)
    {
      for k := n downto 0
        invariant index == Copied(old(index), a + k, n - k, d + k)
      {
        index := index[d + k := index[a + k]];
      }
    }

    /** `move` of pointers to a larger map. */
    method LargerMap(first: nat, n: nat, newSize: nat, newStart: nat) returns (newMap: seq<nat>)
      requires first + n <= |index| && newStart + n <= newSize
      ensures |newMap| == newSize && Repeated(index, first, first + n, newMap, newStart)
      ensures forall k :: 0 <= k < newSize && !(newStart <= k < newStart + n) ==> newMap[k] == 0
    {
      newMap := seq(newSize, _ => 0);
      for k := 0 to n
        invariant |newMap| == newSize && Repeated(index, first, first + k, newMap, newStart)
        invariant forall i :: 0 <= i < newSize && !(newStart <= i < newStart + k) ==> newMap[i] == 0
      {
        newMap := newMap[newStart + k := index[first + k]];
      }
    }

    method Recentre(first: nat, n: nat, newStart: nat)
      requires first + n <= |index| && newStart + n <= |index|
      modifies `index
      ensures |index| == |old(index)| && Relocated(old(index), first, first + n, index, newStart)
    {
      if newStart < first {
        MovePointers(first, n, newStart);
      } else {
        MovePointersBackward(first, n, newStart);
      }
    }

    /** The pointers now stand elsewhere in a map; the nodes are where they were. */
    ghost method Repointed(was: seq<nat>, newStart: nat)
      requires Leads(was) && Relocated(was, low, high, index, newStart)
      modifies `low, `high
      ensures Mem() && low == newStart && high - low == old(high - low)
    {
      hide Flat, Allocation, Relocated, Nodes, Distinct;
      RelocatedStores(b, store, was, low, high, index, newStart);
      low, high := newStart, newStart + (high - low);
    }

    /** `priv_reallocate_map`: recentres the pointers in the map, or moves them to a larger
    one, so that `nodesToAdd` more fit at the end asked for. */
    method ReallocateMap(nodesToAdd: nat, addAtFront: bool)
      requires Mem() && Tight()
      modifies `index, `start, `finish, `low, `high
      ensures Mem() && Tight() && high - low == old(high - low)
      ensures start.cur == old(start).cur && finish.cur == old(finish).cur
      ensures At(start) == old(At(start)) && At(finish) == old(At(finish))
      ensures if addAtFront then nodesToAdd <= low else high + nodesToAdd <= |index|
      ensures Relocated(old(index), old(low), old(high), index, low)
      ensures 0 <= (|index| - high) - low + (if addAtFront then nodesToAdd else 0 - nodesToAdd) <= 1
      ensures |index| == NewSize(|old(index)|, high - low, nodesToAdd)
      ensures var size := |old(index)|;
        |index| == if size > 2 * (high - low + nodesToAdd) then size
                   else size + (if size > nodesToAdd then size else nodesToAdd) + 2
    {
      hide *;
      InMap();
      TightEnds();
      InFirstNode(start);
      InLastNode(finish);
      LeadsIs();
      var oldNumNodes := finish.node - start.node + 1;
      ghost var was := index;
      var newStart := PlacePointers(start.node, oldNumNodes, nodesToAdd, addAtFront);
      Repointed(was, newStart);
      SameCurrent(start, newStart);
      SameCurrent(finish, newStart + oldNumNodes - 1);
      start, finish := Iter(newStart, start.cur), Iter(newStart + oldNumNodes - 1, finish.cur);
      InMap();
      InFirstNode(start);
      InLastNode(finish);
      TightHolds();
    }

    lemma LeadsIs()
      requires Mem()
      ensures Leads(index)
    {
    }

    /** The pointers' new place, in this map or in a larger one. */
    method PlacePointers(first: nat, n: nat, nodesToAdd: nat, addAtFront: bool) returns (newStart: nat)
      requires 0 < n && first + n <= |index|
      modifies `index
      ensures newStart + n <= |index| && Relocated(old(index), first, first + n, index, newStart)
      ensures if addAtFront then nodesToAdd <= newStart else newStart + n + nodesToAdd <= |index|
      ensures 0 <= (|index| - (newStart + n)) - newStart + (if addAtFront then nodesToAdd else 0 - nodesToAdd) <= 1
      ensures |index| == NewSize(|old(index)|, n, nodesToAdd)
      ensures var size := |old(index)|;
        |index| == if size > 2 * (n + nodesToAdd) then size
                   else size + (if size > nodesToAdd then size else nodesToAdd) + 2
    {
      hide Relocated;
      var newNumNodes := n + nodesToAdd;
      ghost var was := index;
      if |index| > 2 * newNumNodes {
        newStart := (|index| - newNumNodes) / 2 + if addAtFront then nodesToAdd else 0;
        Recentre(first, n, newStart);
      } else {
        var newSize := |index| + (if |index| < nodesToAdd then nodesToAdd else |index|) + 2;
        newStart := (newSize - newNumNodes) / 2 + if addAtFront then nodesToAdd else 0;
        index := LargerMap(first, n, newSize, newStart);
        RelocatedToLarger(was, first, first + n, index, newStart);
      }
    }

    // ---------- room at either end ----------

    lemma AtFrom(i: Iter, was: int)
      ensures (i.node - was) * b + i.cur == At(i) - (was - low) * b
    {
    }

    method GrowFrontBy(m: nat) returns (ghost cells: nat)
      requires Mem() && start.node == low && m <= low
      modifies `index, `store, `low, `line
      ensures cells == m * b && line == Raws(cells) + old(line)
      ensures Mem() && low == old(low) - m
      ensures At(start) == old(At(start)) + cells && At(finish) == old(At(finish)) + cells
      ensures Stays(old(store), old(index), old(low), high, store, index, old(low))
      ensures Extended(old(index), NewNodes(allocator, old(store.Keys), m), index, old(low), true)
    {
      hide *;
      ghost var was := line;
      cells := 0;
      NoRaws(line);
      InMap();
      AtFrom(start, low);
      AtFrom(finish, low);
      StaysAtFirst(store, index, low, high);
      NothingExtended(index, low, true);
      NoNewNodes(allocator, store.Keys);
      ghost var taken, news := store.Keys, [];
      for i := 0 to m
        invariant Mem() && low == start.node - i && |index| == |old(index)|
        invariant cells == i * b && line == Raws(cells) + was
        invariant Stays(old(store), old(index), old(low), high, store, index, old(low))
        invariant news == NewNodes(allocator, taken, i) && |news| == i && store.Keys == taken + Addresses(news)
        invariant Extended(old(index), news, index, old(low), true)
      {
        ghost var store', index', low' := store, index, low;
        ghost var id := allocator(store.Keys);
        NewNodesFurther(allocator, taken, i);
        ExtendedFurther(old(index), news, index, old(low), true, id);
        news := news + [id];
        GrowFront(start.node - 1 - i);
        StaysOn(old(store), old(index), old(low), high, store', index', old(low), low', high, store, index);
        RawsAdd<T>(b, cells);
        assert Raws(b) + (Raws(cells) + was) == Raws(b) + Raws(cells) + was;
        cells := b + cells;
      }
      AtFrom(start, low + m);
      AtFrom(finish, low + m);
    }

    /** `priv_create_nodes`. */
    method GrowBackBy(k: nat, m: nat) returns (ghost cells: nat)
      requires Mem() && k == high && k + m <= |index|
      modifies `index, `store, `high, `line
      ensures cells == m * b && line == old(line) + Raws(cells)
      ensures Mem() && high == k + m && |index| == |old(index)|
      ensures Stays(old(store), old(index), low, k, store, index, low)
      ensures Extended(old(index), NewNodes(allocator, old(store.Keys), m), index, k, false)
    {
      hide *;
      ghost var was := line;
      cells := 0;
      NoRaws(line);
      InMap();
      StaysAtFirst(store, index, low, k);
      NothingExtended(index, k, false);
      NoNewNodes(allocator, store.Keys);
      ghost var taken, news := store.Keys, [];
      for i := 0 to m
        invariant Mem() && high == k + i && |index| == |old(index)|
        invariant cells == i * b && line == was + Raws(cells)
        invariant Stays(old(store), old(index), low, k, store, index, low)
        invariant news == NewNodes(allocator, taken, i) && |news| == i && store.Keys == taken + Addresses(news)
        invariant Extended(old(index), news, index, k, false)
      {
        ghost var store', index', high' := store, index, high;
        ghost var id := allocator(store.Keys);
        NewNodesFurther(allocator, taken, i);
        ExtendedFurther(old(index), news, index, k, false, id);
        news := news + [id];
        GrowBack(k + i);
        StaysOn(old(store), old(index), low, k, store', index', low, low, high', store, index);
        RawsAdd<T>(cells, b);
        assert was + Raws(cells) + Raws(b) == was + (Raws(cells) + Raws(b));
        cells := cells + b;
      }
    }

    lemma TightEnds()
      requires Tight()
      ensures b > 0 && start.In(b) && finish.In(b) && start.node == low && finish.node == high - 1 && low < high
      ensures 0 <= At(start) <= At(finish) && Ends()
    {
    }

    lemma TightHolds()
      requires b > 0 && start.In(b) && finish.In(b) && start.node == low && finish.node == high - 1 && low < high
      requires 0 <= At(start) <= At(finish)
      ensures Tight()
    {
    }

    lemma SameCurrent(i: Iter, node: nat)
      requires i.In(b)
      ensures Iter(node, i.cur).In(b)
    {
    }

    lemma PlaceIn(node: nat, cur: nat)
      requires cur < b
      ensures Iter(node, cur).In(b)
    {
    }

    lemma EndsHold()
      requires b > 0 && start.In(b) && finish.In(b) && low <= start.node && finish.node < high
      requires 0 <= At(start) <= At(finish)
      ensures Ends()
    {
    }

    /** The nodes for new elements in front, room in the map made first if need be. */
    method AddNodesInFront(newNodes: nat) returns (ghost added: nat)
      requires Mem() && Tight()
      modifies `index, `start, `finish, `low, `high, `store, `line
      ensures Mem() && Ends() && finish.node == high - 1 && start.node - low == newNodes
      ensures added == newNodes * b && line == Raws(added) + old(line)
      ensures At(start) == old(At(start)) + added && At(finish) == old(At(finish)) + added
      ensures Stays(old(store), old(index), old(low), old(high), store, index, start.node)
      ensures finish.node - start.node == old(high - low) - 1 && start.cur == old(start.cur)
      ensures RoomMade(old(index), old(low), old(high), NewNodes(allocator, old(store.Keys), newNodes), index, low,
        high, true)
    {
      hide *;
      InMap();
      TightEnds();
      StaysAtFirst(store, index, low, high);
      RelocatedNowhere(index, low, high);
      ghost var mid, at := index, low;
      if newNodes > start.node {
        ReallocateMap(newNodes, true);
        InMap();
        TightEnds();
        RelocatedRepeats(old(index), old(low), old(high), index, low);
        StaysElsewhere(store, old(index), old(low), old(high), index, low);
        mid, at := index, low;
      }
      ghost var store' := store;
      added := GrowFrontBy(newNodes);
      StaysOn(old(store), old(index), old(low), old(high), store', mid, at, at, high, store, index);
      RoomIs(|old(index)|, old(low), old(high), newNodes, true, |mid|, low);
      RoomIsMade(old(index), old(low), old(high), NewNodes(allocator, old(store.Keys), newNodes), mid, at, index,
        low, high, true);
      EndsHold();
    }

    /** The addresses of the nodes that `n` more elements in front will need. */
    ghost function FrontNodes(n: nat): seq<nat>
      requires b > 0
      reads `allocator, `store, `start
    {
      NewNodes(allocator, store.Keys, NodesFor(n, start.cur, b))
    }

    ghost function BackNodes(n: nat): seq<nat>
      requires b > 0
      reads `allocator, `store, `finish
    {
      NewNodes(allocator, store.Keys, NodesFor(n, b - finish.cur - 1, b))
    }

    lemma NodesOfEnds(n: nat)
      requires b > 0 && start.In(b) && finish.In(b)
      ensures var m := if n > start.cur then (n - start.cur + b - 1) / b else 0;
        m >= 0 && FrontNodes(n) == NewNodes(allocator, store.Keys, m)
      ensures var vacancies := b - finish.cur - 1;
        var m := if n > vacancies then (n - vacancies + b - 1) / b else 0;
        m >= 0 && BackNodes(n) == NewNodes(allocator, store.Keys, m)
    {
    }

    /** `priv_reserve_elements_at_front`: exactly the nodes needed, so that the first one is
    that of the new beginning. */
    method ReserveFront(n: nat) returns (newStart: Iter, ghost added: nat)
      requires Mem() && Tight()
      modifies `index, `start, `finish, `low, `high, `store, `line
      ensures Mem() && Ends() && finish.node == high - 1
      ensures line == Raws(added) + old(line)
      ensures At(start) == old(At(start)) + added && At(finish) == old(At(finish)) + added
      ensures newStart.In(b) && newStart.node == low && 0 <= At(newStart) == At(start) - n
      ensures Stays(old(store), old(index), old(low), old(high), store, index, start.node)
      ensures finish.node - start.node == old(high - low) - 1 && start.cur == old(start.cur)
      ensures RoomMade(old(index), old(low), old(high), old(FrontNodes(n)), index, low, high, true)
    {
      hide *;
      InMap();
      TightEnds();
      InFirstNode(start);
      NodesOfEnds(n);
      var vacancies := start.cur;
      if n > vacancies {
        var newElems := n - vacancies;
        var newNodes := (newElems + b - 1) / b;
        Ceiling(newElems, b);
        added := AddNodesInFront(newNodes);
        EndsAre();
      } else {
        added := 0;
        StaysAtFirst(store, index, low, high);
        NoNewNodes(allocator, store.Keys);
        NoRoomNeeded(index, low, high, true);
        NoRaws(line);
      }
      newStart := start.Minus(b, n);
      MinusMoves(start, n);
      InFirstNode(newStart);
    }

    lemma NoRaws(cells: seq<Cell<T>>)
      ensures Raws(0) + cells == cells == cells + Raws(0)
    {
    }

    /** The nodes for new elements at the end. */
    method AddNodesAtBack(newNodes: nat) returns (ghost added: nat)
      requires Mem() && Tight()
      modifies `index, `start, `finish, `low, `high, `store, `line
      ensures Mem() && Ends() && start.node == low && high - 1 - finish.node == newNodes
      ensures added == newNodes * b && line == old(line) + Raws(added)
      ensures At(start) == old(At(start)) && At(finish) == old(At(finish))
      ensures Stays(old(store), old(index), old(low), old(high), store, index, start.node)
      ensures finish.node - start.node == old(high - low) - 1 && start.cur == old(start.cur)
      ensures RoomMade(old(index), old(low), old(high), NewNodes(allocator, old(store.Keys), newNodes), index, low,
        high, false)
    {
      hide *;
      InMap();
      TightEnds();
      StaysAtFirst(store, index, low, high);
      RelocatedNowhere(index, low, high);
      ghost var mid, at := index, low;
      var s := |index| - finish.node;
      if newNodes + 1 > s {
        ReallocateMap(newNodes, false);
        InMap();
        TightEnds();
        RelocatedRepeats(old(index), old(low), old(high), index, low);
        StaysElsewhere(store, old(index), old(low), old(high), index, low);
        mid, at := index, low;
      }
      ghost var store', high' := store, high;
      added := GrowBackBy(finish.node + 1, newNodes);
      StaysOn(old(store), old(index), old(low), old(high), store', mid, at, at, high', store, index);
      RoomIs(|old(index)|, old(low), old(high), newNodes, false, |mid|, low);
      RoomIsMade(old(index), old(low), old(high), NewNodes(allocator, old(store.Keys), newNodes), mid, at, index,
        low, high, false);
      EndsHold();
    }

    /** `priv_reserve_elements_at_back`: exactly the nodes needed, so that the last one is
    that of the new end. */
    method ReserveBack(n: nat) returns (newFinish: Iter, ghost added: nat)
      requires Mem() && Tight()
      modifies `index, `start, `finish, `low, `high, `store, `line
      ensures Mem() && Ends() && start.node == low
      ensures line == old(line) + Raws(added)
      ensures At(start) == old(At(start)) && At(finish) == old(At(finish))
      ensures newFinish.In(b) && newFinish.node == high - 1 && At(newFinish) == At(finish) + n < |line|
      ensures Stays(old(store), old(index), old(low), old(high), store, index, start.node)
      ensures finish.node - start.node == old(high - low) - 1 && start.cur == old(start.cur)
      ensures RoomMade(old(index), old(low), old(high), old(BackNodes(n)), index, low, high, false)
    {
      hide *;
      InMap();
      TightEnds();
      InLastNode(finish);
      NodesOfEnds(n);
      var vacancies := b - finish.cur - 1;
      if n > vacancies {
        var newElems := n - vacancies;
        var newNodes := (newElems + b - 1) / b;
        Ceiling(newElems, b);
        added := AddNodesAtBack(newNodes);
        EndsAre();
      } else {
        added := 0;
        StaysAtFirst(store, index, low, high);
        NoNewNodes(allocator, store.Keys);
        NoRoomNeeded(index, low, high, false);
        NoRaws(line);
      }
      newFinish := finish.Plus(b, n);
      AtMoves(finish, n);
      InLastNode(newFinish);
    }

    // ---------- the deque ----------

    /** No map yet, as constructed, or any more, after `shrink_to_fit`. */
    ghost predicate Unmapped()
      reads `mapped, `index, `store, `allocator, `line, `start, `finish
    {
      !mapped && index == [] && store == map[] && line == [] && start == Iter(0, 0) && finish == start
      && Allocates(allocator)
    }

    /** The deque holds `xs`: objects in their order from the beginning to the end, raw
    storage elsewhere, and no node but those of the two ends and between them. */
    ghost predicate Holding(xs: seq<T>)
      reads `mapped, `index, `store, `allocator, `low, `high, `line, `start, `finish
    {
      Mem() && Tight() && Holds(line, At(start), xs) && At(finish) == At(start) + |xs|
    }

    ghost predicate Valid()
      reads this
    {
      b > 0 && if mapped then Holding(contents) else Unmapped() && contents == []
    }

    /** An iterator into the deque, or at its end. */
    ghost predicate PlaceOf(p: Iter, e: nat)
      reads `low, `mapped, `start
    {
      if mapped then p.In(b) && At(p) == At(start) + e else p == start && e == 0
    }

    constructor (b: nat, kind: Kind, allocator: set<nat> -> nat)
      requires b > 0 && Allocates(allocator)
      ensures Valid() && contents == [] && !mapped && this.b == b && this.kind == kind
    {
      this.b, this.kind := b, kind;
      mapped, index, store, this.allocator := false, [], map[], allocator;
      start, finish := Iter(0, 0), Iter(0, 0);
      low, high, line, contents := 0, 0, [], [];
    }

    /** Whatever the allocator has seen meanwhile, and will do from now on. */
    method UseAllocator(allocator: set<nat> -> nat)
      requires Valid() && Allocates(allocator)
      modifies `allocator
      ensures Valid() && this.allocator == allocator
    {
      this.allocator := allocator;
    }

    /** `priv_allocate_map`, with no nodes yet. */
    method AllocateMap(mapSize: nat, ghost nstart: nat)
      requires b > 0 && Allocates(allocator) && nstart <= mapSize
      modifies `mapped, `index, `store, `line, `low, `high
      ensures Mem() && low == high == nstart && |index| == mapSize && line == []
      ensures store == map[] && forall k :: 0 <= k < |index| ==> index[k] == 0
    {
      mapped, index, store, line := true, seq(mapSize, _ => 0), map[], [];
      low, high := nstart, nstart;
    }

    method FirstNodes(mapSize: nat, nstart: nat, numNodes: nat)
      requires b > 0 && Allocates(allocator) && nstart + numNodes <= mapSize
      modifies `mapped, `index, `store, `low, `high, `line
      ensures Mem() && low == nstart && high == nstart + numNodes && |index| == mapSize && line == Raws(|line|)
      ensures Documented(store, index, low, high)
      ensures forall k :: 0 <= k < |index| && !(low <= k < high) ==> index[k] == 0
    {
      hide *;
      AllocateMap(mapSize, nstart);
      ghost var was, taken := index, store.Keys;
      ghost var cells := GrowBackBy(nstart, numNodes);
      MemAllocates();
      DocumentedAtFirst(b, store, index, low, high, was, NewNodes(allocator, taken, numNodes));
      assert line == [] + Raws(cells) == Raws(cells);
    }

    /** `priv_initialize_map`: nodes enough for `n` elements, in the middle of a map. */
    method InitializeMap(n: nat)
      requires b > 0 && Allocates(allocator) && !mapped
      modifies `mapped, `index, `store, `start, `finish, `low, `high, `line
      ensures Mem() && Tight() && line == Raws(|line|) && At(start) == 0 && At(finish) == n
      ensures |index| == if high - low + 2 > 8 then high - low + 2 else 8
      ensures 0 < low <= |index| - high <= low + 1 && Documented(store, index, low, high)
      ensures high - low == n / b + 1 && forall k :: 0 <= k < |index| && !(low <= k < high) ==> index[k] == 0
    {
      var numNodes := n / b + 1;
      var mapSize := if numNodes + 2 > 8 then numNodes + 2 else 8;
      var nstart := (mapSize - numNodes) / 2;
      hide *;
      QuotientAndRemainder(n, b);
      FirstNodes(mapSize, nstart, numNodes);
      InMap();
      start := Iter(nstart, 0);
      finish := Iter(nstart + numNodes - 1, n % b);
      PlaceIn(nstart, 0);
      PlaceIn(nstart + numNodes - 1, n % b);
      InFirstNode(start);
      InLastNode(finish);
      TightHolds();
    }

    /** `n` copies of `x`: nodes enough, and the fill. */
    constructor Filled(b: nat, kind: Kind, allocator: set<nat> -> nat, n: nat, x: T)
      requires b > 0 && Allocates(allocator)
      ensures Valid() && mapped && contents == Copies(n, x) && this.b == b && this.kind == kind
      ensures |index| == if high - low + 2 > 8 then high - low + 2 else 8
      ensures 0 < low <= |index| - high <= low + 1 && Documented(store, index, low, high)
    {
      this.b, this.kind := b, kind;
      mapped, index, store, this.allocator := false, [], map[], allocator;
      start, finish := Iter(0, 0), Iter(0, 0);
      low, high, line, contents := 0, 0, [], Copies(n, x);
      new;
      FillFresh(n, x);
    }

    method FillFresh(n: nat, x: T)
      requires b > 0 && Allocates(allocator) && !mapped
      modifies `mapped, `index, `store, `start, `finish, `low, `high, `line
      ensures mapped && Holding(Copies(n, x))
      ensures |index| == if high - low + 2 > 8 then high - low + 2 else 8
      ensures 0 < low <= |index| - high <= low + 1 && Documented(store, index, low, high)
    {
      InitializeMap(n);
      ghost var was: Store<T> := store;
      EndsInLine();
      MemAllocates();
      hide *;
      FillInitialize(x, n);
      PlacesOf(Copies(n, x));
      DocumentedSame(was);
    }

    lemma EndsInLine()
      requires Mem() && Tight()
      ensures At(finish) < |line|
    {
      InLine(finish);
    }

    /** `priv_fill_initialize`: node by node, and the rest in the last one. */
    method FillInitialize(x: T, ghost n: nat)
      requires Mem() && Tight() && line == Raws(|line|) && At(start) == 0 && At(finish) == n <= |line|
      modifies `store, `line
      ensures Holding(Copies(n, x))
    {
      HoldsCopies(line, n, x);
      hide Leads, At, Holds, Written, Raws, Copies;
      FillCells(x, n);
    }

    method FillCells(x: T, ghost n: nat)
      requires Mem() && Tight() && At(start) == 0 && At(finish) == n <= |line|
      modifies `store, `line
      ensures Mem() && line == Written(old(line), 0, Copies(n, x))
    {
      hide *;
      FillBegins(x);
      ghost var was := line;
      ghost var cells: nat := 0;
      var cur: nat := start.node;
      while cur < finish.node
        invariant Mem() && low <= cur <= finish.node && cells <= |line| == |was|
        invariant At(Iter(cur, 0)) == cells && line == Written(was, 0, Copies(cells, x))
      {
        FillGoesOn(cur);
        Write(Iter(cur, 0), Copies(b, x));
        WrittenOn(was, cells, b, x);
        cells := cells + b;
        cur := cur + 1;
      }
      Write(Iter(finish.node, 0), Copies(finish.cur, x));
      WrittenOn(was, cells, finish.cur, x);
    }

    lemma FillBegins(x: T)
      requires Mem() && Tight() && At(start) == 0
      ensures b > 0 && 0 <= low == start.node <= finish.node == high - 1 && 0 <= finish.cur < b
      ensures forall k :: Iter(k, 0).In(b)
      ensures At(Iter(start.node, 0)) == 0 && line == Written(line, 0, Copies(0, x))
      ensures At(finish) == At(Iter(finish.node, 0)) + finish.cur
    {
      NodesOf();
      InFirstNode(Iter(start.node, 0));
      InNode(finish);
    }

    lemma FillGoesOn(k: nat)
      requires Mem() && low <= k < high
      ensures 0 <= At(Iter(k, 0)) && At(Iter(k + 1, 0)) == At(Iter(k, 0)) + b <= |line|
    {
      InNode(Iter(k, 0));
      NodeBegins(k);
      NodeBegins(k + 1);
    }

    lemma DocumentedSame(was: Store<T>)
      requires Mem() && Allocation(b, was, index, low, high) && Documented(was, index, low, high)
      ensures MapDocumented() && Documented(store, index, low, high)
    {
      DocumentedAfterFreeing(b, was, index, low, high, store, low, high);
    }

    // ---------- insertion, with the room for it made ----------

    /** First half, no more new elements than there are before the place. */
    method InsertFrontLong(pos: Iter, ys: seq<T>, newStart: Iter, ghost xs: seq<T>, ghost e: nat)
      requires Mem() && Ends() && Holds(line, At(start), xs) && |ys| <= e <= |xs|
      requires pos.In(b) && At(pos) == At(start) + e
      requires newStart.In(b) && 0 <= At(newStart) == At(start) - |ys|
      modifies `store, `line, `start
      ensures Mem() && start == newStart
      ensures if ys != [] || kind.keepsSelf || e == 0 then Holds(line, At(start), Inserted(xs, e, ys))
              else At(start) < |line| && line[At(start)].Moved?
    {
      hide *;
      EndsAre();
      var n := |ys|;
      var oldStart := start;
      var startN := start.Plus(b, n);
      AtMoves(start, n);
      MinusMoves(pos, n);
      FrontLongOrNone(line, At(start), xs, e, ys, kind);
      UninitializedMove(start, startN, newStart);
      start := newStart;
      Move(startN, pos, oldStart);
      CopyAllTo(pos.Minus(b, n), ys);
    }

    /** First half, more new elements than there are before the place. */
    method InsertFrontShort(pos: Iter, ys: seq<T>, newStart: Iter, ghost xs: seq<T>, e: nat)
      requires Mem() && Ends() && Holds(line, At(start), xs) && e <= |xs| && e < |ys|
      requires pos.In(b) && At(pos) == At(start) + e
      requires newStart.In(b) && 0 <= At(newStart) == At(start) - |ys|
      modifies `store, `line, `start
      ensures Mem() && start == newStart && Holds(line, At(start), Inserted(xs, e, ys))
    {
      hide Leads, At, Holds, AllLive, AllRaw, NoneRaw, Inserted;
      FrontShort(line, At(start), xs, e, ys, kind);
      var oldStart := start;
      var midCount := |ys| - e;
      var midStart := oldStart.Minus(b, midCount);
      AtMoves(oldStart, 0 - midCount);
      var rest := UninitializedCopySome(midStart, ys, midCount, true);
      assert rest == ys[midCount..];
      start := midStart;
      UninitializedMove(oldStart, pos, newStart);
      start := newStart;
      CopyAllTo(oldStart, rest);
    }

    /** Second half, no more new elements than there are behind the place. */
    method InsertBackLong(pos: Iter, ys: seq<T>, newFinish: Iter, ghost xs: seq<T>, ghost e: nat)
      requires Mem() && Ends() && Holds(line, At(start), xs) && e <= |xs| && |ys| <= |xs| - e
      requires pos.In(b) && At(pos) == At(start) + e && At(finish) == At(start) + |xs|
      requires newFinish.In(b) && At(newFinish) == At(finish) + |ys| <= |line|
      modifies `store, `line, `finish
      ensures Mem() && finish == newFinish
      ensures if ys != [] || kind.keepsSelf || e == |xs| then Holds(line, At(start), Inserted(xs, e, ys))
              else At(start) + e < |line| && line[At(start) + e].Moved?
    {
      hide *;
      EndsAre();
      var n := |ys|;
      var oldFinish := finish;
      var finishN := finish.Minus(b, n);
      MinusMoves(finish, n);
      BackLongOrNone(line, At(start), xs, e, ys, kind);
      UninitializedMove(finishN, finish, finish);
      finish := newFinish;
      MoveBackward(pos, finishN, oldFinish);
      CopyAllTo(pos, ys);
    }

    /** Second half, more new elements than there are behind the place. */
    method InsertBackShort(pos: Iter, ys: seq<T>, newFinish: Iter, ghost xs: seq<T>, ghost e: nat, elemsAfter: nat)
      requires Mem() && Ends() && Holds(line, At(start), xs) && e <= |xs| && elemsAfter == |xs| - e < |ys|
      requires pos.In(b) && At(pos) == At(start) + e && At(finish) == At(start) + |xs|
      requires newFinish.In(b) && At(newFinish) == At(finish) + |ys| <= |line|
      modifies `store, `line, `finish
      ensures Mem() && finish == newFinish && Holds(line, At(start), Inserted(xs, e, ys))
    {
      hide Leads, At, Holds, AllLive, AllRaw, NoneRaw, Inserted;
      BackShort(line, At(start), xs, e, ys, kind);
      var oldFinish := finish;
      var rest := UninitializedCopySome(oldFinish, ys, elemsAfter, false);
      assert rest == ys[..elemsAfter];
      finish := finish.Plus(b, |ys| - elemsAfter);
      AtMoves(oldFinish, |ys| - elemsAfter);
      UninitializedMove(pos, oldFinish, finish);
      finish := newFinish;
      CopyAllTo(pos, rest);
    }

    /** Some element has been moved away and nothing put in its place. */
    ghost predicate Damaged()
      reads `mapped, `index, `store, `allocator, `low, `high, `line, `start, `finish
    {
      Mem() && Tight() && exists k :: At(start) <= k < At(finish) && k < |line| && line[k].Moved?
    }

    lemma DamagedHoldsNothing(xs: seq<T>)
      requires Damaged()
      ensures !Holding(xs)
    {
    }

    /** Places in front of the middle: makes room in front. */
    method InsertFront(e: nat, ys: seq<T>, ghost xs: seq<T>)
      requires Holding(xs) && e < |xs| / 2
      modifies `index, `start, `finish, `low, `high, `store, `line
      ensures if InsertKeeps(kind, |ys|, e, |xs|) then Holding(Inserted(xs, e, ys)) else Damaged()
      ensures RoomMade(old(index), old(low), old(high), old(FrontNodes(|ys|)), index, low, high, true)
    {
      hide Leads, At, Holds, AllLive, AllRaw, NoneRaw, Inserted, RoomMade, Stays;
      ghost var was, s := line, At(start);
      var newStart, added := ReserveFront(|ys|);
      HoldsBehind(was, s, xs, added);
      var pos := start.Plus(b, e);
      AtMoves(start, e);
      if e >= |ys| {
        InsertFrontLong(pos, ys, newStart, xs, e);
      } else {
        InsertFrontShort(pos, ys, newStart, xs, e);
      }
    }

    /** Places behind the middle: makes room at the end. */
    method InsertBack(e: nat, elemsAfter: nat, ys: seq<T>, ghost xs: seq<T>)
      requires Holding(xs) && |xs| / 2 <= e <= |xs| && elemsAfter == |xs| - e
      modifies `index, `start, `finish, `low, `high, `store, `line
      ensures if InsertKeeps(kind, |ys|, e, |xs|) then Holding(Inserted(xs, e, ys)) else Damaged()
      ensures RoomMade(old(index), old(low), old(high), old(BackNodes(|ys|)), index, low, high, false)
    {
      hide Leads, At, Holds, AllLive, AllRaw, NoneRaw, Inserted, RoomMade, Stays;
      ghost var was, s := line, At(start);
      var newFinish, added := ReserveBack(|ys|);
      HoldsBefore(was, s, xs, added);
      var pos := finish.Minus(b, elemsAfter);
      AtMoves(finish, 0 - elemsAfter);
      if elemsAfter >= |ys| {
        InsertBackLong(pos, ys, newFinish, xs, e);
      } else {
        InsertBackShort(pos, ys, newFinish, xs, e, elemsAfter);
      }
    }

    /** The map an empty deque may lack. */
    method EnsureMap(p: Iter, ghost e: nat) returns (pos: Iter)
      requires Valid() && PlaceOf(p, e) && e <= |contents|
      modifies `mapped, `index, `store, `start, `finish, `low, `high, `line
      ensures Holding(contents) && mapped && pos.In(b) && At(pos) == At(start) + e
      ensures old(mapped) ==>
        && index == old(index) && low == old(low) && high == old(high)
        && store == old(store) && start == old(start) && finish == old(finish)
      ensures !old(mapped) ==>
        && MapDocumented() && |index| == 8 && low == 3 && high == 4
        && forall k :: 0 <= k < |index| && !(low <= k < high) ==> index[k] == 0
    {
      pos := p;
      if !mapped {
        InitializeMap(0);
        pos := start;
        HoldsNothing(line, 0);
      }
    }

    lemma PlacesOf(xs: seq<T>)
      requires Holding(xs)
      ensures Mem() && Tight() && mapped && Holds(line, At(start), xs)
      ensures At(finish) == At(start) + |xs| <= |line|
    {
    }

    lemma NodesOf()
      requires Tight()
      ensures low < high
    {
    }

    /** What the documented sentence about the map's pointers becomes. */
    ghost predicate MapDocumented()
      reads `store, `index, `low, `high
    {
      Documented(store, index, low, high)
    }

    /** The addresses of the nodes that inserting `n` elements at `e` will need. */
    ghost function NodesToCome(n: nat, e: nat): seq<nat>
      requires b > 0
      reads `allocator, `store, `start, `finish, `contents
    {
      if e < |contents| / 2 then FrontNodes(n) else BackNodes(n)
    }

    /** `priv_insert_aux_impl`. */
    method InsertAux(p: Iter, ys: seq<T>, ghost e: nat)
      requires Valid() && PlaceOf(p, e) && e <= |contents|
      modifies `mapped, `index, `store, `start, `finish, `low, `high, `line, `contents
      ensures b > 0 && mapped
      ensures if InsertKeeps(kind, |ys|, e, |old(contents)|)
              then Valid() && contents == Inserted(old(contents), e, ys)
              else Damaged()
      ensures old(mapped) ==>
        var news, front := old(NodesToCome(|ys|, e)), e < |old(contents)| / 2;
        && old(low <= high <= |index|)
        && RoomMade(old(index), old(low), old(high), news, index, low, high, front)
        && (old(MapDocumented()) ==>
            (MapDocumented() <==> WillBeDocumented(old(index), old(low), old(high), news, front)))
      ensures !old(mapped) ==> MapDocumented()
    {
      hide *;
      ValidIs();
      var pos := EnsureMap(p, e);
      HoldingAllocates(contents);
      ghost var was: Store<T>, ids, lo, hi := store, index, low, high;
      ghost var news, wasDocumented, len := NodesToCome(|ys|, e), MapDocumented(), |contents|;
      MapDocumentedIs();
      NoneAtZero(|ys|, e);
      InsertMapped(pos, ys, e);
      if wasDocumented {
        MapAfterInsertion(was, ids, lo, hi, news, |ys|, e, len);
        if !old(mapped) {
          FirstMapIsEnough(ids, news);
        }
      }
    }

    lemma ValidIs()
      requires Valid()
      ensures b > 0 && Allocates(allocator) && (!mapped ==> contents == [])
    {
    }

    lemma HoldingAllocates(xs: seq<T>)
      requires Holding(xs)
      ensures mapped && Allocates(allocator) && Allocation(b, store, index, low, high) && low < high <= |index|
    {
    }

    lemma StillAllocates()
      requires mapped && (Valid() || Damaged())
      ensures Allocation(b, store, index, low, high)
    {
      hide Allocation, Flat, Holds;
    }

    lemma MapDocumentedIs()
      ensures MapDocumented() == Documented(store, index, low, high)
    {
    }

    lemma NoneAtZero(n: nat, e: nat)
      requires b > 0 && Allocates(allocator)
      ensures 0 !in NodesToCome(n, e)
    {
      NoNewNodeAtZero(allocator, store.Keys, NodesFor(n, start.cur, b));
      NoNewNodeAtZero(allocator, store.Keys, NodesFor(n, b - finish.cur - 1, b));
    }

    lemma MapAfterInsertion(was: Store<T>, ids: seq<nat>, lo: nat, hi: nat, news: seq<nat>, n: nat, e: nat, len: nat)
      requires mapped && if InsertKeeps(kind, n, e, len) then Valid() else Damaged()
      requires Allocation(b, was, ids, lo, hi) && lo < hi <= |ids| && Documented(was, ids, lo, hi)
      requires RoomMade(ids, lo, hi, news, index, low, high, e < len / 2)
      ensures MapDocumented() <==> WillBeDocumented(ids, lo, hi, news, e < len / 2)
    {
      hide *;
      StillAllocates();
      MapDocumentedIs();
      DocumentedAfterRoom(b, was, ids, lo, hi, news, store, index, low, high, e < len / 2);
    }

    lemma ValidAllocates()
      requires Valid() && mapped
      ensures Allocation(b, store, index, low, high) && low < high
      ensures MapDocumented() ==> Documented(store, index, low, high)
    {
      NodesOf();
    }

    /** The same of a deque with a map. */
    method InsertMapped(pos: Iter, ys: seq<T>, ghost e: nat)
      requires Holding(contents) && pos.In(b) && At(pos) == At(start) + e && e <= |contents|
      modifies `index, `store, `start, `finish, `low, `high, `line, `contents
      ensures b > 0 && mapped
      ensures if InsertKeeps(kind, |ys|, e, |old(contents)|)
              then Valid() && contents == Inserted(old(contents), e, ys)
              else Damaged()
      ensures RoomMade(old(index), old(low), old(high), old(NodesToCome(|ys|, e)), index, low, high,
                       e < |old(contents)| / 2)
    {
      hide Leads, At, Holds, Damaged, RoomMade, FrontNodes, BackNodes;
      ghost var xs := contents;
      PlacesOf(xs);
      AtIsUnique(pos, start);
      AtIsUnique(finish, start);
      var elemsBefore, length := pos.Difference(b, start), finish.Difference(b, start);
      if elemsBefore < length / 2 {
        InsertFront(elemsBefore, ys, xs);
      } else {
        InsertBack(elemsBefore, length - elemsBefore, ys, xs);
      }
      contents := Inserted(xs, e, ys);
    }

    // ---------- at the ends ----------

    method PushBack(x: T)
      requires Valid()
      modifies this
      ensures Valid() && mapped && contents == old(contents) + [x]
    {
      hide Leads, At, Holds, Inserted;
      ghost var xs := contents;
      if mapped && finish.cur != b - 1 {
        InLastNode(finish);
        Appended(line, At(start), xs, x);
        Put(finish, Live(x));
        AtSteps(finish);
        finish := Iter(finish.node, finish.cur + 1);
        contents := xs + [x];
      } else {
        InsertAux(finish, [x], |xs|);
        InsertedAtEnds(xs, x);
      }
    }

    method PushFront(x: T)
      requires Valid()
      modifies this
      ensures Valid() && mapped && contents == [x] + old(contents)
    {
      hide Leads, At, Holds, Inserted;
      ghost var xs := contents;
      if mapped && start.cur != 0 {
        InFirstNode(start);
        HoldsInside(line, At(start), xs);
        Prepended(line, At(start), xs, x);
        AtSteps(start);
        start := Iter(start.node, start.cur - 1);
        Put(start, Live(x));
        contents := [x] + xs;
      } else {
        InsertAux(start, [x], 0);
        InsertedAtEnds(xs, x);
      }
    }

    /** `pop_back`: destroys the last object, and frees its node if it was the first in it. */
    method DropBack(ghost rest: seq<T>)
      requires Mem() && Tight() && At(start) + |rest| == At(finish) - 1 < |line| && !line[At(finish) - 1].Raw?
      requires Holds(line[At(finish) - 1 := Raw], At(start), rest)
      modifies `store, `high, `line, `finish
      ensures Holding(rest)
    {
      hide Leads, At, Holds, AllRaw;
      AtSteps(finish);
      InLastNode(finish);
      if finish.cur != 0 {
        finish := Iter(finish.node, finish.cur - 1);
        Put(finish, Raw);
      } else {
        PopBackAux(rest);
      }
    }

    /** `priv_pop_back_aux`: the last node is empty. */
    method PopBackAux(ghost rest: seq<T>)
      requires Mem() && Tight() && finish.cur == 0 && At(start) + |rest| == At(finish) - 1 < |line|
      requires Holds(line[At(finish) - 1 := Raw], At(start), rest)
      modifies `store, `high, `line, `finish
      ensures Holding(rest)
    {
      hide Leads, At, Holds, AllRaw;
      AtSteps(finish);
      InLastNode(finish);
      LastTrimmed(line, At(start), rest, At(finish) - 1);
      InNode(finish);
      DestroyBackNodes(finish.node, finish.node + 1);
      finish := Iter(finish.node - 1, b - 1);
      Put(finish, Raw);
    }

    /** `pop_front`: destroys the first object, and frees its node if it was the last in it. */
    method DropFront(ghost rest: seq<T>)
      requires Mem() && Tight() && At(start) + 1 + |rest| == At(finish) && At(start) < |line| && !line[At(start)].Raw?
      requires Holds(line[At(start) := Raw], At(start) + 1, rest)
      modifies `store, `low, `line, `start
      ensures Holding(rest)
    {
      hide Leads, At, Holds, AllRaw;
      AtSteps(start);
      InFirstNode(start);
      if start.cur != b - 1 {
        Put(start, Raw);
        start := Iter(start.node, start.cur + 1);
      } else {
        PopFrontAux(rest);
      }
    }

    /** `priv_pop_front_aux`: the first node becomes empty. */
    method PopFrontAux(ghost rest: seq<T>)
      requires Mem() && Tight() && start.cur == b - 1 && At(start) + 1 + |rest| == At(finish) && At(start) < |line|
      requires Holds(line[At(start) := Raw], At(start) + 1, rest)
      modifies `store, `low, `line, `start
      ensures Holding(rest)
    {
      hide Leads, At, Holds, AllRaw;
      InFirstNode(start);
      InNode(start);
      FirstTrimmed(line, At(start), rest);
      Put(start, Raw);
      AtIsPosition(finish);
      AtIsPosition(Iter(start.node + 1, 0));
      DestroyFrontNodes(start.node, start.node + 1);
      start := Iter(start.node + 1, 0);
      InFirstNode(start);
      AtIsPosition(finish);
    }

    method PopBack()
      requires Valid() && contents != []
      modifies this
      ensures Valid() && contents == old(contents)[..|old(contents)| - 1]
    {
      LastDropped(line, At(start), contents);
      contents := contents[..|contents| - 1];
      hide Leads, At, Holds;
      DropBack(contents);
    }

    method PopFront()
      requires Valid() && contents != []
      modifies this
      ensures Valid() && contents == old(contents)[1..]
    {
      FirstDropped(line, At(start), contents);
      contents := contents[1..];
      hide Leads, At, Holds;
      DropFront(contents);
    }

    // ---------- in the middle ----------

    /** `priv_insert` of one element. */
    method Insert(p: Iter, x: T, ghost e: nat) returns (r: Iter)
      requires Valid() && PlaceOf(p, e) && e <= |contents|
      modifies this
      ensures Valid() && mapped && contents == Inserted(old(contents), e, [x]) && PlaceOf(r, e)
    {
      hide Leads, At, Holds, Inserted, Damaged;
      InsertedAtEnds(contents, x);
      if mapped {
        AtIsUnique(p, start);
        AtIsUnique(p, finish);
      }
      if p == start {
        PushFront(x);
        r := start;
      } else if p == finish {
        PushBack(x);
        AtSteps(finish);
        r := finish.Decrement(b);
      } else {
        var n := p.Difference(b, start);
        InsertAux(p, [x], e);
        AtMoves(start, n);
        r := start.Plus(b, n);
      }
    }

    method EraseOneBefore(p: Iter, next: Iter, ghost xs: seq<T>, ghost e: nat)
      requires Holding(xs) && e < |xs|
      requires p.In(b) && At(p) == At(start) + e && next.In(b) && At(next) == At(p) + 1
      modifies `store, `low, `line, `start
      ensures Holding(Erased(xs, e, 1))
    {
      hide Leads, At, Holds, Holding, AllLive, NoneRaw, Erased;
      PlacesOf(xs);
      EraseOneFront(line, At(start), xs, e, kind);
      MoveBackward(start, p, next);
      DropFront(Erased(xs, e, 1));
    }

    method EraseOneBehind(p: Iter, next: Iter, ghost xs: seq<T>, ghost e: nat)
      requires Holding(xs) && e < |xs|
      requires p.In(b) && At(p) == At(start) + e && next.In(b) && At(next) == At(p) + 1
      modifies `store, `high, `line, `finish
      ensures Holding(Erased(xs, e, 1))
    {
      hide Leads, At, Holds, Holding, AllLive, NoneRaw, Erased;
      PlacesOf(xs);
      EraseOneBack(line, At(start), xs, e, kind);
      Move(next, finish, p);
      DropBack(Erased(xs, e, 1));
    }

    /** `erase` of one element. */
    method EraseAt(p: Iter, ghost e: nat) returns (r: Iter)
      requires Valid() && PlaceOf(p, e) && e < |contents|
      modifies this
      ensures Valid() && contents == Erased(old(contents), e, 1) && PlaceOf(r, e)
    {
      hide Leads, At, Holds, Holding, Erased;
      ghost var xs := contents;
      contents := Erased(xs, e, 1);
      PlacesOf(xs);
      AtSteps(p);
      AtIsUnique(p, start);
      AtIsUnique(finish, start);
      var next := p.Increment(b);
      var idx, size := p.Difference(b, start), finish.Difference(b, start);
      if idx < size / 2 {
        EraseOneBefore(p, next, xs, e);
      } else {
        EraseOneBehind(p, next, xs, e);
      }
      PlacesOf(contents);
      AtMoves(start, idx);
      r := start.Plus(b, idx);
    }

    /** `priv_destroy_nodes` in front of the node of the new beginning. */
    method TrimFront(newStart: Iter, ghost rest: seq<T>, ghost kept: bool)
      requires Mem() && Tight() && newStart.In(b) && At(start) <= At(newStart) <= At(finish)
      requires AllRaw(line, 0, At(newStart))
      requires kept ==> Holds(line, At(newStart), rest) && At(newStart) + |rest| == At(finish)
      modifies `store, `low, `line, `start
      ensures Mem() && Tight() && (kept ==> Holding(rest)) && low >= old(low)
      ensures newStart == old(start) ==> low == old(low) && line == old(line) && start == newStart
    {
      hide Leads, At, Holds;
      AtOrder(newStart, finish);
      AtOrder(start, newStart);
      InNode(newStart);
      NodeBegins(newStart.node);
      AtIsPosition(finish);
      AtIsPosition(Iter(newStart.node, 0));
      if kept {
        HoldsInside(line, At(newStart), rest);
        HoldsTrimmed(line, At(newStart), rest, At(Iter(newStart.node, 0)), |line|);
      }
      DestroyFrontNodes(start.node, newStart.node);
      start := newStart;
      AtIsPosition(finish);
      InFirstNode(start);
    }

    /** `priv_destroy_nodes` behind the node of the new end. */
    method TrimBack(newFinish: Iter, ghost rest: seq<T>, ghost kept: bool)
      requires Mem() && Tight() && newFinish.In(b) && At(start) <= At(newFinish) <= At(finish)
      requires AllRaw(line, At(newFinish), |line| - At(newFinish))
      requires kept ==> Holds(line, At(start), rest) && At(start) + |rest| == At(newFinish)
      modifies `store, `high, `line, `finish
      ensures Mem() && Tight() && (kept ==> Holding(rest)) && high <= old(high)
      ensures newFinish == old(finish) ==> high == old(high) && line == old(line) && finish == newFinish
    {
      hide Leads, At, Holds;
      AtOrder(newFinish, finish);
      AtOrder(start, newFinish);
      InNode(newFinish);
      NodeBegins(newFinish.node + 1);
      if kept {
        HoldsTrimmed(line, At(start), rest, 0, At(Iter(newFinish.node + 1, 0)));
      }
      DestroyBackNodes(newFinish.node + 1, finish.node + 1);
      finish := newFinish;
    }

    lemma AtOrder(i: Iter, j: Iter)
      requires b > 0 && i.In(b) && j.In(b) && At(i) <= At(j)
      ensures i.node <= j.node
    {
      AtIsPosition(i);
      AtIsPosition(j);
      LessIsExact(b, j, i);
    }

    /** Fewer elements before the range than behind it: those before are moved. */
    method EraseFrontOf(first: Iter, last: Iter, n: nat, ghost xs: seq<T>, ghost e: nat)
      requires Holding(xs) && e + n <= |xs|
      requires first.In(b) && At(first) == At(start) + e && last.In(b) && At(last) == At(start) + e + n
      modifies `store, `low, `line, `start
      ensures low >= old(low)
      ensures Tight() && if n > 0 || kind.keepsSelf || e == 0 then Holding(Erased(xs, e, n)) else Damaged()
    {
      hide *;
      PlacesOf(xs);
      EndsIn();
      FrontClosed(line, At(start), xs, e, n, kind);
      MoveBackward(start, first, last);
      var newStart := start.Plus(b, n);
      AtMoves(start, n);
      AtIsUnique(start, newStart);
      DestroyRange(start, newStart);
      TrimFront(newStart, Erased(xs, e, n), n > 0 || kind.keepsSelf || e == 0);
      if !(n > 0 || kind.keepsSelf || e == 0) {
        DamagedAt(At(start));
      }
    }

    lemma EndsIn()
      requires Tight()
      ensures b > 0 && start.In(b) && finish.In(b) && 0 <= At(start) <= At(finish)
    {
    }

    lemma DamagedAt(k: int)
      requires Mem() && Tight() && At(start) <= k < At(finish) && k < |line| && line[k].Moved?
      ensures Damaged()
    {
    }

    /** The others behind it are moved. */
    method EraseBackOf(first: Iter, last: Iter, n: nat, ghost xs: seq<T>, ghost e: nat)
      requires Holding(xs) && e + n <= |xs|
      requires first.In(b) && At(first) == At(start) + e && last.In(b) && At(last) == At(start) + e + n
      modifies `store, `high, `line, `finish
      ensures high <= old(high)
      ensures Tight() && if n > 0 || kind.keepsSelf || e == |xs| then Holding(Erased(xs, e, n)) else Damaged()
    {
      hide *;
      PlacesOf(xs);
      EndsIn();
      BackClosed(line, At(start), xs, e, n, kind);
      Move(last, finish, first);
      var newFinish := finish.Minus(b, n);
      MinusMoves(finish, n);
      AtIsUnique(finish, newFinish);
      DestroyRange(newFinish, finish);
      TrimBack(newFinish, Erased(xs, e, n), n > 0 || kind.keepsSelf || e == |xs|);
      if !(n > 0 || kind.keepsSelf || e == |xs|) {
        DamagedAt(At(start) + e);
      }
    }

    lemma MinusMoves(i: Iter, n: nat)
      requires b > 0 && i.In(b)
      ensures i.Minus(b, n).In(b) && At(i.Minus(b, n)) == At(i) - n
    {
      AtMoves(i, 0 - n);
    }

    // ---------- the whole ----------

    /** The documented invariant, node by node: objects from the beginning to the end, raw
    storage before and behind. */
    lemma CellsOfNodes(k: nat, o: nat)
      requires Valid() && mapped && start.node <= k <= finish.node && o < b
      ensures k < |index| && index[k] in store && |store[index[k]]| == b
      ensures var c, here := store[index[k]][o], Iter(k, o);
        && (!here.Less(start) && here.Less(finish) ==>
            c.Live? && 0 <= At(here) - At(start) < |contents| && c == Live(contents[At(here) - At(start)]))
        && (here.Less(start) || !here.Less(finish) ==> c.Raw?)
    {
      var here := Iter(k, o);
      InLine(here);
      FlatAt(b, store, index, low, high, k, o);
      LessIsExact(b, here, start);
      LessIsExact(b, here, finish);
      AtIsPosition(here);
      AtIsPosition(start);
      AtIsPosition(finish);
    }

    /** `priv_destroy_range` within a node. */
    method DestroyCells(k: nat, from: nat, to: nat)
      requires from <= to
      requires from < to ==> k < |index| && index[k] in store && to <= |store[index[k]]|
      requires from < to ==> forall o :: from <= o < to ==> !store[index[k]][o].Raw?
      modifies `store
      ensures from == to ==> store == old(store)
      ensures from < to ==> store == old(store)[index[k] := Cleared(old(store)[index[k]], from, to - from)]
    {
      for o := from to to
        invariant from == o ==> store == old(store)
        invariant from < o ==> store == old(store)[index[k] := Cleared(old(store)[index[k]], from, o - from)]
      {
        ghost var cells := old(store)[index[k]];
        assert store[index[k]] == Cleared(cells, from, o - from);
        store := store[index[k] := store[index[k]][o := Raw]];
        assert store[index[k]] == Cleared(cells, from, o + 1 - from);
      }
    }

    /** Destroys the objects of some full nodes and frees them, one node after the other. */
    method ClearNodes(from: nat, to: nat)
      requires from <= to && Distinct(index, from, to) && Full(b, store, index, from, to)
      modifies `store
      ensures Freed(old(store), store, index, from, to)
    {
      for k := from to to
        invariant Freed(old(store), store, index, from, k)
      {
        StillThere(b, old(store), store, index, from, k, to);
        hide LedTo, Freed;
        ghost var before := store;
        DestroyCells(k, 0, b);
        ghost var cells := if b > 0 then store[index[k]] else before[index[k]];
        FreeNodes(k, k + 1);
        FreedFurther(old(store), before, store, index, from, k, cells);
      }
    }

    /** The cells of a node, as a whole. */
    lemma NodeIs(k: nat)
      requires Valid() && mapped && start.node <= k <= finish.node
      ensures k < |index| && index[k] in store && |store[index[k]]| == b
      ensures var cells := store[index[k]];
        var from, to := if k == start.node then start.cur else 0, if k == finish.node then finish.cur else b;
        && 0 <= from <= to <= b
        && NoneRaw(cells, from, to - from) && Cleared(cells, from, to - from) == Raws(b)
    {
      var cells := store[index[k]];
      var from, to := if k == start.node then start.cur else 0, if k == finish.node then finish.cur else b;
      InLine(start);
      InLine(finish);
      forall o | 0 <= o < b
        ensures cells[o].Raw? <==> !(from <= o < to)
      {
        CellsOfNodes(k, o);
      }
      hide Leads, Holds, At;
      ClearedAll(cells, from, to - from);
    }

    lemma MiddleIsFull()
      requires Valid() && mapped && start.node < finish.node
      ensures Full(b, store, index, start.node + 1, finish.node) && Distinct(index, start.node + 1, finish.node)
    {
      forall k | start.node < k < finish.node
        ensures index[k] in store && |store[index[k]]| == b && NoneRaw(store[index[k]], 0, b)
      {
        NodeIs(k);
      }
    }

    /** The first and the last node, when those between them are gone. */
    method ClearEnds(ghost was: Store<T>)
      requires low == start.node < finish.node == high - 1 && high <= |index|
      requires 0 <= start.cur < b && 0 <= finish.cur < b
      requires Allocation(b, was, index, low, high) && Freed(was, store, index, low + 1, high - 1)
      requires NoneRaw(was[index[low]], start.cur, b - start.cur)
      requires Cleared(was[index[low]], start.cur, b - start.cur) == Raws(b)
      requires NoneRaw(was[index[high - 1]], 0, finish.cur)
      modifies `store
      ensures Allocation(b, store, index, low, low + 1)
      ensures Flat(b, store, index, low, low + 1) == Raws(b)
    {
      hide Allocation, Freed, Flat, Distinct, Nodes;
      ghost var one: Store<T> := store;
      ghost var lo, end := low, high - 1;
      EndsStillThere(b, was, index, lo, high, one);
      assert index[lo] in one && index[end] in one;
      DestroyCells(start.node, start.cur, b);
      DestroyCells(finish.node, 0, finish.cur);
      ghost var last := store[index[end]];
      ghost var two: Store<T> := one[index[lo] := Raws(b)];
      assert store == two[index[end] := last];
      FreeNodes(finish.node, finish.node + 1);
      AllButFirstFreed(b, was, index, lo, high, one, last, store);
    }

    /** What is to be cleared. */
    lemma NodesToClear()
      requires Valid() && mapped
      ensures Allocation(b, store, index, low, high)
      ensures low == start.node <= finish.node == high - 1 && high <= |index|
      ensures 0 <= start.cur < b && 0 <= finish.cur < b
      ensures start.node < finish.node ==>
        && Full(b, store, index, low + 1, high - 1) && Distinct(index, low + 1, high - 1)
        && NoneRaw(store[index[low]], start.cur, b - start.cur)
        && Cleared(store[index[low]], start.cur, b - start.cur) == Raws(b)
        && NoneRaw(store[index[high - 1]], 0, finish.cur)
      ensures start.node == finish.node ==>
        && start.cur <= finish.cur && index[low] in store
        && NoneRaw(store[index[low]], start.cur, finish.cur - start.cur)
        && Cleared(store[index[low]], start.cur, finish.cur - start.cur) == Raws(b)
    {
      AtOrder(start, finish);
      NodeIs(start.node);
      NodeIs(finish.node);
      if start.node < finish.node {
        MiddleIsFull();
      }
    }

    /** All but the first node cleared and freed, and the first one cleared. */
    method ClearAll()
      requires Valid() && mapped
      modifies `store
      ensures Allocation(b, store, index, low, low + 1)
      ensures Flat(b, store, index, low, low + 1) == Raws(b)
    {
      hide Leads, Holds, At, Holding, Allocation, Flat, Full, Freed, Distinct;
      ghost var was: Store<T> := store;
      NodesToClear();
      if start.node < finish.node {
        ClearNodes(start.node + 1, finish.node);
        ClearEnds(was);
      } else {
        DestroyCells(start.node, start.cur, finish.cur);
        OneNode(b, was, index, low, store);
      }
    }

    /** `clear`. The first node stays, and so does the beginning. */
    method Clear()
      requires Valid()
      modifies `store, `finish, `high, `line, `contents
      ensures Valid() && contents == [] && finish == start && high <= old(high)
    {
      hide *;
      ClearBegins();
      if mapped {
        ClearAll();
        high, line := low + 1, Raws(b);
      }
      finish := start;
      contents := [];
      ClearedIsValid(old(mapped));
    }

    lemma ClearBegins()
      requires Valid()
      ensures b > 0 && if mapped then start.In(b) && start.node == low < high && Allocates(allocator) else Unmapped()
    {
      if mapped {
        NodesOf();
      }
    }

    lemma ClearedIsValid(wasMapped: bool)
      requires contents == [] && finish == start && mapped == wasMapped
      requires wasMapped ==>
        && b > 0 && start.In(b) && start.node == low && high == low + 1 && line == Raws(b) && Allocates(allocator)
        && Allocation(b, store, index, low, low + 1) && Flat(b, store, index, low, low + 1) == Raws(b)
      requires !wasMapped ==> b > 0 && Unmapped()
      ensures Valid()
    {
      hide Allocation, Flat;
      if mapped {
        InFirstNode(start);
        HoldsNothing(line, start.cur);
      }
    }

    /** Not all of a deque with a map. */
    method EraseSome(first: Iter, last: Iter, ghost xs: seq<T>, ghost e: nat, ghost count: nat) returns (r: Iter)
      requires Holding(xs) && e + count <= |xs|
      requires first.In(b) && At(first) == At(start) + e && last.In(b) && At(last) == At(start) + e + count
      modifies `store, `low, `high, `line, `start, `finish
      ensures if EraseKeeps(kind, count, e, |xs|) then Holding(Erased(xs, e, count)) else Damaged()
      ensures r.In(b) && At(r) == At(start) + e
      ensures old(low) <= low && high <= old(high)
      ensures e < |xs| - count - e ==> high == old(high) && finish == old(finish)
    {
      PlacesOf(xs);
      hide Leads, Holds, At, Holding, Damaged, Erased;
      AtIsUnique(first, start);
      AtIsUnique(last, first);
      AtIsUnique(finish, start);
      var n, elemsBefore, size := last.Difference(b, first), first.Difference(b, start), finish.Difference(b, start);
      if elemsBefore < size - n - elemsBefore {
        EraseFrontOf(first, last, n, xs, e);
      } else {
        EraseBackOf(first, last, n, xs, e);
      }
      AtMoves(start, elemsBefore);
      r := start.Plus(b, elemsBefore);
    }

    /** `erase` of a range. */
    method EraseRange(first: Iter, last: Iter, ghost e: nat, ghost count: nat) returns (r: Iter)
      requires Valid() && PlaceOf(first, e) && PlaceOf(last, e + count) && e + count <= |contents|
      modifies `store, `low, `high, `line, `start, `finish, `contents
      ensures if EraseKeeps(kind, count, e, |old(contents)|)
              then Valid() && contents == Erased(old(contents), e, count) && PlaceOf(r, e)
              else Damaged()
      ensures old(low) <= low && high <= old(high)
      ensures e < |old(contents)| - count - e ==> high == old(high) && finish == old(finish)
    {
      hide Leads, Holds, At, Holding, Damaged, Erased;
      ghost var xs := contents;
      if mapped {
        PlacesOf(xs);
        NodesOf();
        AtIsUnique(first, start);
        AtIsUnique(last, finish);
      }
      if first == start && last == finish {
        ErasedAll(xs);
        Clear();
        r := finish;
        if mapped {
          PlacesOf([]);
        }
      } else {
        r := EraseSome(first, last, xs, e, count);
        contents := Erased(xs, e, count);
      }
    }

    /** `shrink_to_fit`: an empty deque gives up its last node and its map. */
    method ShrinkToFit()
      requires Valid()
      modifies this
      ensures Valid() && contents == old(contents)
      ensures contents == [] ==> store == map[] && !mapped
    {
      if mapped {
        AtIsUnique(start, finish);
      }
      if start == finish && mapped {
        NodeBegins(finish.node + 1);
        DestroyFrontNodes(start.node, finish.node + 1);
        NothingLeft(b, store, index, low);
        mapped, index := false, [];
        start, finish := Iter(0, 0), Iter(0, 0);
      }
    }

    // ---------- elements ----------

    method Size() returns (n: int)
      requires Valid()
      ensures n == |contents|
    {
      n := finish.Difference(b, start);
      if mapped {
        AtIsUnique(finish, start);
      }
    }

    /** `at`: the element, or an error beyond the end. */
    method ElementAt(n: nat) returns (c: Cell<T>, inRange: bool)
      requires Valid()
      ensures inRange <==> n < |contents|
      ensures inRange ==> c == Live(contents[n])
    {
      hide Leads, At;
      c := Raw;
      var size := Size();
      inRange := n < size;
      if inRange {
        AtMoves(start, n);
        c := Fetch(start.Plus(b, n));
      }
    }

    // ---------- inserting a copy of an element of the deque itself ----------

    ghost predicate Refers(r: Reference, i: Iter)
      reads `index
    {
      i.In(b) && 0 <= i.node < |index| && index[i.node] == r.node && i.cur == r.offset
    }

    method Follow(r: Reference, ghost i: Iter) returns (c: Cell<T>)
      requires Mem() && Refers(r, i) && 0 <= At(i) < |line|
      ensures c == line[At(i)]
    {
      InLine(i);
      FlatAt(b, store, index, low, high, i.node, i.cur);
      c := store[r.node][r.offset];
    }

    /** Room made, no node moved: the reference still leads to its element. */
    lemma StillRefers(r: Reference, was: Store<T>, ids: seq<nat>, lo: nat, hi: nat, begin: Iter, k: nat)
      requires Mem() && Ends() && At(start) + k < At(finish)
      requires Stays(was, ids, lo, hi, store, index, start.node) && finish.node - start.node == hi - lo - 1
      requires begin.node == lo && begin.cur == start.cur
      requires var i := begin.Plus(b, k); lo <= i.node < hi && ids[i.node] == r.node && i.cur == r.offset
      ensures Refers(r, start.Plus(b, k)) && At(start.Plus(b, k)) == At(start) + k
    {
      var j := start.Plus(b, k);
      AtMoves(start, k);
      AtOrder(start, j);
      AtOrder(j, finish);
      assert j.node - start.node == begin.Plus(b, k).node - begin.node;
    }

    lemma RefersInside(r: Reference, xs: seq<T>, k: nat)
      requires Holding(xs) && k < |xs| && Refers(r, start.Plus(b, k))
      ensures var i := start.Plus(b, k);
        && i.In(b) && low <= i.node < high <= |index| && index[i.node] == r.node && i.cur == r.offset
      ensures At(start.Plus(b, k)) == At(start) + k
    {
      AtMoves(start, k);
      AtOrder(start, start.Plus(b, k));
      AtOrder(start.Plus(b, k), finish);
    }

    /** Moves the elements before the place by one. */
    method OpenFront(pos: Iter, newStart: Iter, ghost xs: seq<T>, ghost e: nat)
      requires Mem() && Ends() && Holds(line, At(start), xs) && 0 < e <= |xs|
      requires pos.In(b) && At(pos) == At(start) + e
      requires newStart.In(b) && 0 <= At(newStart) == At(start) - 1
      modifies `store, `line, `start
      ensures Mem() && start == newStart && old(At(start)) + e <= |old(line)|
      ensures line == FrontRoom(old(line), old(At(start)), e, kind)
    {
      hide Leads, At, Holds, AllLive, AllRaw, NoneRaw, Inserted;
      HoldsInside(line, At(start), xs);
      FrontLong(line, At(start), xs, e, [xs[0]], kind);
      var oldStart := start;
      var startN := start.Plus(b, 1);
      AtMoves(start, 1);
      UninitializedMove(start, startN, newStart);
      start := newStart;
      Move(startN, pos, oldStart);
    }

    method OwnFrontLong(pos: Iter, r: Reference, newStart: Iter, ghost xs: seq<T>, ghost e: nat, ghost k: nat,
                        ghost i: Iter)
      requires Mem() && Ends() && Holds(line, At(start), xs) && 0 < e < |xs| / 2 && k < |xs|
      requires pos.In(b) && At(pos) == At(start) + e
      requires newStart.In(b) && 0 <= At(newStart) == At(start) - 1
      requires Refers(r, i) && At(i) == At(start) + k
      modifies `store, `line, `start
      ensures Mem() && start == newStart
      ensures var shown := Shown(e, k, |xs|, kind);
        if shown.Live? then Holds(line, At(start), Inserted(xs, e, [xs[shown.value]]))
        else At(start) + e < |line| && line[At(start) + e].Moved?
    {
      hide Leads, At, Holds, Inserted, Shown, FrontRoom;
      ghost var s, was := At(start), line;
      HoldsInside(line, s, xs);
      FrontOpened(line, s, xs, e, k, kind);
      OpenFront(pos, newStart, xs, e);
      AtMoves(pos, -1);
      var c := Follow(r, i);
      Put(pos.Minus(b, 1), c);
      if c.Live? {
        FrontFilled(was, s, xs, e, c.value, kind);
      }
    }

    /** Moves the elements behind the place by one. */
    method OpenBack(pos: Iter, newFinish: Iter, ghost xs: seq<T>, ghost e: nat)
      requires Mem() && Ends() && Holds(line, At(start), xs) && e < |xs|
      requires pos.In(b) && At(pos) == At(start) + e && At(finish) == At(start) + |xs|
      requires newFinish.In(b) && At(newFinish) == At(finish) + 1 < |line|
      modifies `store, `line, `finish
      ensures Mem() && finish == newFinish
      ensures line == BackRoom(old(line), old(At(start)), |xs|, e, kind)
    {
      hide Leads, At, Holds, AllLive, AllRaw, NoneRaw, Inserted;
      BackLong(line, At(start), xs, e, [xs[0]], kind);
      var oldFinish := finish;
      var finishN := finish.Minus(b, 1);
      AtMoves(finish, -1);
      UninitializedMove(finishN, finish, finish);
      finish := newFinish;
      MoveBackward(pos, finishN, oldFinish);
    }

    method OwnBackLong(pos: Iter, r: Reference, newFinish: Iter, ghost xs: seq<T>, ghost e: nat, ghost k: nat,
                       ghost i: Iter)
      requires Mem() && Ends() && Holds(line, At(start), xs) && |xs| / 2 <= e < |xs| && k < |xs|
      requires pos.In(b) && At(pos) == At(start) + e && At(finish) == At(start) + |xs|
      requires newFinish.In(b) && At(newFinish) == At(finish) + 1 < |line|
      requires Refers(r, i) && At(i) == At(start) + k
      modifies `store, `line, `finish
      ensures Mem() && finish == newFinish
      ensures var shown := Shown(e, k, |xs|, kind);
        if shown.Live? then Holds(line, At(start), Inserted(xs, e, [xs[shown.value]]))
        else At(start) + e < |line| && line[At(start) + e].Moved?
    {
      hide Leads, At, Holds, Inserted, Shown, BackRoom;
      ghost var s, was := At(start), line;
      BackOpened(line, s, xs, e, k, kind);
      OpenBack(pos, newFinish, xs, e);
      var c := Follow(r, i);
      Put(pos, c);
      if c.Live? {
        BackFilled(was, s, xs, e, c.value, kind);
      }
    }

    /** Nothing lies before the place: nothing is moved. */
    method OwnFrontShort(r: Reference, newStart: Iter, ghost xs: seq<T>, ghost k: nat, ghost i: Iter)
      requires Mem() && Ends() && Holds(line, At(start), xs) && k < |xs|
      requires newStart.In(b) && 0 <= At(newStart) == At(start) - 1
      requires Refers(r, i) && At(i) == At(start) + k
      modifies `store, `line, `start
      ensures Mem() && start == newStart && Holds(line, At(start), Inserted(xs, 0, [xs[k]]))
    {
      hide *;
      EndsAre();
      HoldsInside(line, At(start), xs);
      HeldAt(line, At(start), xs, k);
      Prepended(line, At(start), xs, xs[k]);
      InsertedAtEnds(xs, xs[k]);
      var midStart := start.Minus(b, 1);
      MinusMoves(start, 1);
      AtIsUnique(midStart, newStart);
      var c := Follow(r, i);
      Put(midStart, c);
      start := midStart;
    }

    method OwnBackShort(r: Reference, newFinish: Iter, ghost xs: seq<T>, ghost k: nat, ghost i: Iter)
      requires Mem() && Ends() && Holds(line, At(start), xs) && At(finish) == At(start) + |xs| && k < |xs|
      requires newFinish.In(b) && At(newFinish) == At(finish) + 1 < |line|
      requires Refers(r, i) && At(i) == At(start) + k
      modifies `store, `line, `finish
      ensures Mem() && finish == newFinish && Holds(line, At(start), Inserted(xs, |xs|, [xs[k]]))
    {
      hide *;
      EndsAre();
      HeldAt(line, At(start), xs, k);
      Appended(line, At(start), xs, xs[k]);
      InsertedAtEnds(xs, xs[k]);
      var c := Follow(r, i);
      Put(finish, c);
      finish := newFinish;
    }

    /** One copy of the deque's own element `k`, in the first half. */
    method OwnInFront(e: nat, r: Reference, ghost xs: seq<T>, ghost k: nat)
      requires Holding(xs) && e < |xs| / 2 && k < |xs| && Refers(r, start.Plus(b, k))
      modifies `index, `start, `finish, `low, `high, `store, `line
      ensures var shown := Shown(e, k, |xs|, kind);
        if shown.Live? then Holding(Inserted(xs, e, [xs[shown.value]])) else Damaged()
    {
      hide Leads, At, Holds, Inserted, Stays, Refers;
      ghost var was, s, begin := line, At(start), start;
      RefersInside(r, xs, k);
      var newStart, added := ReserveFront(1);
      HoldsBehind(was, s, xs, added);
      ghost var i := start.Plus(b, k);
      StillRefers(r, old(store), old(index), old(low), old(high), begin, k);
      var pos := start.Plus(b, e);
      AtMoves(start, e);
      if e >= 1 {
        OwnFrontLong(pos, r, newStart, xs, e, k, i);
      } else {
        OwnFrontShort(r, newStart, xs, k, i);
      }
    }

    /** The same in the second half. */
    method OwnInBack(e: nat, elemsAfter: nat, r: Reference, ghost xs: seq<T>, ghost k: nat)
      requires Holding(xs) && |xs| / 2 <= e <= |xs| && elemsAfter == |xs| - e && k < |xs|
      requires Refers(r, start.Plus(b, k))
      modifies `index, `start, `finish, `low, `high, `store, `line
      ensures var shown := Shown(e, k, |xs|, kind);
        if shown.Live? then Holding(Inserted(xs, e, [xs[shown.value]])) else Damaged()
    {
      hide Leads, At, Holds, Inserted, Stays, Refers;
      ghost var was, s, begin := line, At(start), start;
      RefersInside(r, xs, k);
      var newFinish, added := ReserveBack(1);
      HoldsBefore(was, s, xs, added);
      ghost var i := start.Plus(b, k);
      StillRefers(r, old(store), old(index), old(low), old(high), begin, k);
      var pos := finish.Minus(b, elemsAfter);
      AtMoves(finish, 0 - elemsAfter);
      if elemsAfter >= 1 {
        OwnBackLong(pos, r, newFinish, xs, e, k, i);
      } else {
        OwnBackShort(r, newFinish, xs, k, i);
      }
    }

    /** `&(*this)[k]`. */
    method RefersTo(k: nat) returns (r: Reference)
      requires Valid() && mapped && k < |contents|
      ensures Refers(r, start.Plus(b, k))
    {
      var i := start.Plus(b, k);
      AtMoves(start, k);
      AtOrder(start, i);
      AtOrder(i, finish);
      r := Reference(index[i.node], i.cur);
    }

    /** `priv_insert_aux_impl` where what is inserted is one copy of the element `(*this)[k]`,
    taken by reference. */
    method InsertAuxOwn(p: Iter, k: nat, ghost e: nat)
      requires Valid() && mapped && PlaceOf(p, e) && e <= |contents| && k < |contents|
      modifies this
      ensures var xs := old(contents);
        var shown := Shown(e, k, |xs|, kind);
        if shown.Live? then Valid() && mapped && contents == Inserted(xs, e, [xs[shown.value]]) else Damaged()
    {
      hide Leads, At, Holds, Holding, Damaged, Inserted, Shown;
      ghost var xs := contents;
      PlacesOf(xs);
      AtIsUnique(p, start);
      AtIsUnique(finish, start);
      var r := RefersTo(k);
      var elemsBefore, length := p.Difference(b, start), finish.Difference(b, start);
      if elemsBefore < length / 2 {
        OwnInFront(elemsBefore, r, xs, k);
      } else {
        OwnInBack(elemsBefore, length - elemsBefore, r, xs, k);
      }
      contents := Inserted(xs, e, [xs[if Shown(e, k, |xs|, kind).Live? then Shown(e, k, |xs|, kind).value else k]]);
    }

    /** `insert` of one element, where that is the element `(*this)[k]`, by reference. */
    method InsertOwn(p: Iter, k: nat, ghost e: nat)
      requires Valid() && PlaceOf(p, e) && e <= |contents| && k < |contents|
      modifies this
      ensures var xs := old(contents);
        var shown := OwnShown(e, k, |xs|, old(start.cur) != 0, kind);
        if shown.Live? then Valid() && contents == Inserted(xs, e, [xs[shown.value]]) else Damaged()
      ensures var xs := old(contents);
        Valid() && contents == Inserted(xs, e, [xs[k]]) <==> OwnCopyIsRight(xs, e, k, old(start.cur) != 0, kind)
    {
      InsertOwnElement(p, k, e);
      if Damaged() {
        DamagedHoldsNothing(contents);
        DamagedIsMapped();
      }
    }

    lemma DamagedIsMapped()
      requires Damaged()
      ensures mapped
    {
    }

    method InsertOwnElement(p: Iter, k: nat, ghost e: nat)
      requires Valid() && PlaceOf(p, e) && e <= |contents| && k < |contents|
      modifies this
      ensures var xs := old(contents);
        var shown := OwnShown(e, k, |xs|, old(start.cur) != 0, kind);
        if shown.Live? then Valid() && contents == Inserted(xs, e, [xs[shown.value]]) else Damaged()
    {
      hide Leads, At, Holds, Holding, Damaged, Inserted;
      ghost var xs := contents;
      PlacesOf(xs);
      AtIsUnique(p, start);
      AtIsUnique(p, finish);
      InsertedAtEnds(xs, xs[k]);
      if p == start && start.cur != 0 {
        var c := Element(k);
        PushFront(c);
      } else if p == finish && finish.cur != b - 1 {
        var c := Element(k);
        PushBack(c);
      } else {
        InsertAuxOwn(p, k, e);
      }
    }

    /** `operator[]`. */
    method Element(k: nat) returns (x: T)
      requires Valid() && k < |contents|
      ensures x == contents[k]
    {
      var c, inRange := ElementAt(k);
      x := c.value;
    }
  }

  /** The allocator that hands out the lowest free address. */
  function Lowest(taken: set<nat>): (id: nat)
    ensures id > 0 && id !in taken
  {
    FirstFree(taken, 1)
  }

  lemma LowestAllocates()
    ensures Allocates(Lowest)
  {
  }

  /** Inserting nothing between two elements can lose one. */
  method EmptyInsertionLosesAnElement(keepsSource: bool) returns (d: Deque<int>)
    ensures d.Damaged()
  {
    d := new Deque(4, Kind(keepsSource, false), Lowest);
    d.PushBack(1);
    d.PushBack(2);
    d.AtSteps(d.start);
    d.InsertAux(d.start.Increment(d.b), [], 1);
  }

  /** So can erasing nothing. */
  method EmptyErasureLosesAnElement(keepsSource: bool) returns (d: Deque<int>)
    ensures d.Damaged()
  {
    d := new Deque(4, Kind(keepsSource, false), Lowest);
    d.PushBack(1);
    d.PushBack(2);
    d.AtSteps(d.start);
    var p := d.start.Increment(d.b);
    var _ := d.EraseRange(p, p, 1, 0);
  }

  method PushedBack(xs: seq<int>, kind: Kind) returns (d: Deque<int>)
    ensures fresh(d) && d.Valid() && d.contents == xs && (xs != [] ==> d.mapped) && d.kind == kind
  {
    LowestAllocates();
    hide *;
    d := new Deque(8, kind, Lowest);
    for i := 0 to |xs|
      invariant fresh(d) && d.Valid() && d.contents == xs[..i] && (i > 0 ==> d.mapped) && d.kind == kind
    {
      d.PushBack(xs[i]);
    }
  }

  /** Inserting a copy of the last of four elements in the middle inserts the third instead,
  whatever the element type does when moved. */
  method OwnElementIsMistaken(kind: Kind) returns (d: Deque<int>)
    ensures d.Valid() && d.contents == [1, 2, 3, 3, 4]
  {
    d := PushedBack([1, 2, 3, 4], kind);
    hide d.Leads, d.At;
    d.AtMoves(d.start, 2);
    d.InsertOwn(d.start.Plus(d.b, 2), 3, 2);
  }

  /** Inserting a copy of the third element at its own place is right if moving it away leaves
  its value, and inserts an object without one if not. */
  method OwnElementAtTheGap(kind: Kind) returns (d: Deque<int>)
    ensures if kind.keepsSource then d.Valid() && d.contents == [1, 2, 3, 3, 4] else d.Damaged()
  {
    d := PushedBack([1, 2, 3, 4], kind);
    hide d.Leads, d.At;
    d.AtMoves(d.start, 2);
    d.InsertOwn(d.start.Plus(d.b, 2), 2, 2);
  }

  /** With one element to a node the nodes can be counted from the elements. */
  lemma OneToANode<T>(d: Deque<T>)
    requires d.Valid() && d.mapped && d.b == 1
    ensures d.high - d.low == |d.contents| + 1
    ensures d.start == Iter(d.low, 0) && d.finish == Iter(d.high - 1, 0)
  {
  }

  /** Twenty elements and nineteen of them erased: what is left lies at the end of the map. Up
  to here the map is as documented. */
  method AtTheEndOfTheMap() returns (d: Deque<int>)
    ensures fresh(d) && d.Valid() && d.mapped && d.b == 1 && |d.contents| == 1 && d.kind == Kind(true, true)
    ensures d.low == 20 && d.high == 22 && |d.index| == 23 && d.MapDocumented() && d.index[1] > 0
  {
    d := new Deque.Filled(1, Kind(true, true), Lowest, 20, 7);
    OneToANode(d);
    hide d.Leads, d.At, Documented, Allocation, Distinct, Holds;
    d.AtMoves(d.start, 19);
    d.ValidAllocates();
    NodeIsThere(1, d.store, d.index, d.low, d.high, 1);
    ghost var store: Store<int>, low, high := d.store, d.low, d.high;
    var _ := d.EraseRange(d.start, d.start.Plus(1, 19), 0, 19);
    d.ValidAllocates();
    OneToANode(d);
    DocumentedAfterFreeing(1, store, d.index, low, high, d.store, d.low, d.high);
  }

  /** Two more elements need room at the end, the pointers are centred, and the copies left
  behind still lead to nodes. */
  method RecentringLeavesCopies() returns (d: Deque<int>)
    ensures d.Valid() && |d.contents| == 3 && |d.index| == 23 && d.low == 9
    ensures !d.MapDocumented()
  {
    d := AtTheEndOfTheMap();
    OneToANode(d);
    d.InsertAux(d.finish, [8, 9], 1);
    OneToANode(d);
  }

  lemma FreedIsNext(d: Deque<int>, freed: nat)
    requires d.Valid() && d.mapped && d.b == 1 && |d.contents| == 1 && d.finish.cur == 0
    requires d.allocator(d.store.Keys) == freed
    ensures d.NodesToCome(1, 1) == [freed]
  {
    NoNewNodes(d.allocator, d.store.Keys);
    NewNodesFurther(d.allocator, d.store.Keys, 0);
  }

  /** One more element fits, and nothing is moved; but the allocator returns the address of a
  node that has been freed, which still stands in the map. */
  method AddressesComeBack() returns (d: Deque<int>)
    ensures d.Valid() && |d.contents| == 2 && |d.index| == 23 && d.low == 20 && d.high == 23
    ensures !d.MapDocumented()
  {
    d := AtTheEndOfTheMap();
    OneToANode(d);
    var freed := d.index[1];
    d.UseAllocator(taken => if freed in taken then FirstFree(taken, 1) else freed);
    FreedIsNext(d, freed);
    hide d.Leads, d.At, d.NodesToCome, Allocation, Distinct, Holds, Repeated, NewNodes;
    d.InsertAux(d.finish, [8], 1);
    OneToANode(d);
  }
}
