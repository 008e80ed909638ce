/** The segmented storage of a deque as one line: the cells of the allocated nodes, in the
order in which the map points at them. */
module DequeStorage {
  import opened Remainders
  import opened DequeCells

  type Store<T> = map<nat, seq<Cell<T>>>

  ghost predicate Distinct(ids: seq<nat>, lo: nat, hi: nat) {
    lo <= hi <= |ids| && forall i, j :: lo <= i < j < hi ==> ids[i] != ids[j]
  }

  /** The pointers from `lo` up to `hi` lead to allocated nodes of `b` cells. */
  ghost predicate Nodes<T>(b: nat, store: Store<T>, ids: seq<nat>, lo: nat, hi: nat) {
    lo <= hi <= |ids| && forall i :: lo <= i < hi ==> ids[i] in store && |store[ids[i]]| == b
  }

  ghost predicate LedTo(ids: seq<nat>, lo: nat, hi: nat, id: nat) {
    exists i :: lo <= i < hi <= |ids| && ids[i] == id
  }

  /** The pointers from `lo` up to `hi` lead to the allocated nodes, each to another one, and
  to all of them. No node lies at address zero. */
  ghost predicate Allocation<T>(b: nat, store: Store<T>, ids: seq<nat>, lo: nat, hi: nat) {
    && Nodes(b, store, ids, lo, hi) && Distinct(ids, lo, hi)
    && forall id :: id in store ==> id > 0 && LedTo(ids, lo, hi, id)
  }

  ghost function Flat<T>(b: nat, store: Store<T>, ids: seq<nat>, lo: nat, hi: nat): (line: seq<Cell<T>>)
    requires Nodes(b, store, ids, lo, hi)
    ensures |line| == (hi - lo) * b
    decreases hi
  {
    if lo == hi then [] else
      assert (hi - 1 - lo) * b + b == (hi - lo) * b;
      Flat(b, store, ids, lo, hi - 1) + store[ids[hi - 1]]
  }

  /** Cell `o` of the `k`-th node of a line. */
  function Spot(b: nat, k: nat, o: nat): nat {
    k * b + o
  }

  lemma SpotInLine(b: nat, k: nat, o: nat, n: nat)
    requires k < n && o < b
    ensures Spot(b, k, o) < n * b
    ensures k < n - 1 ==> Spot(b, k, o) < (n - 1) * b
    ensures n * b == (n - 1) * b + b
  {
    NextMultiple(k, n, b);
    if k < n - 1 {
      NextMultiple(k, n - 1, b);
    }
  }

  lemma {:induction false} FlatAt<T>(b: nat, store: Store<T>, ids: seq<nat>, lo: nat, hi: nat, j: nat, o: nat)
    requires Nodes(b, store, ids, lo, hi) && lo <= j < hi && o < b
    ensures var line, k := Flat(b, store, ids, lo, hi), Spot(b, j - lo, o);
      k < |line| && line[k] == store[ids[j]][o]
    decreases hi
  {
    SpotInLine(b, j - lo, o, hi - lo);
    if j < hi - 1 {
      FlatAt(b, store, ids, lo, hi - 1, j, o);
    }
  }

  /** Only the nodes pointed at show, wherever in a map the pointers stand. */
  lemma {:induction false} FlatSame<T>(b: nat, store: Store<T>, ids: seq<nat>, lo: nat, hi: nat,
                                       store': Store<T>, ids': seq<nat>, lo': nat)
    requires Nodes(b, store, ids, lo, hi) && Nodes(b, store', ids', lo', lo' + (hi - lo))
    requires forall i :: lo <= i < hi ==> store'[ids'[i - lo + lo']] == store[ids[i]]
    ensures Flat(b, store', ids', lo', lo' + (hi - lo)) == Flat(b, store, ids, lo, hi)
    decreases hi
  {
    if lo < hi {
      FlatSame(b, store, ids, lo, hi - 1, store', ids', lo');
    }
  }

  lemma UpdateFront<X>(front: seq<X>, end: seq<X>, k: nat, x: X)
    requires k < |front|
    ensures (front + end)[k := x] == front[k := x] + end
  {
  }

  lemma UpdateEnd<X>(front: seq<X>, end: seq<X>, k: nat, x: X)
    requires k < |end|
    ensures (front + end)[|front| + k := x] == front + end[k := x]
  {
  }

  lemma FlatLast<T>(b: nat, store: Store<T>, ids: seq<nat>, lo: nat, hi: nat)
    requires Nodes(b, store, ids, lo, hi) && lo < hi
    ensures Flat(b, store, ids, lo, hi) == Flat(b, store, ids, lo, hi - 1) + store[ids[hi - 1]]
  {
  }

  lemma {:induction false} FlatPut<T>(b: nat, store: Store<T>, ids: seq<nat>, lo: nat, hi: nat, j: nat, o: nat,
                                      c: Cell<T>)
    requires Nodes(b, store, ids, lo, hi) && Distinct(ids, lo, hi) && lo <= j < hi && o < b
    ensures var store' := store[ids[j] := store[ids[j]][o := c]];
      var line, k := Flat(b, store, ids, lo, hi), Spot(b, j - lo, o);
      && Nodes(b, store', ids, lo, hi) && k < |line|
      && Flat(b, store', ids, lo, hi) == line[k := c]
    decreases hi
  {
    hide Flat;
    var store' := store[ids[j] := store[ids[j]][o := c]];
    var front, end := Flat(b, store, ids, lo, hi - 1), store[ids[hi - 1]];
    SpotInLine(b, j - lo, o, hi - lo);
    FlatLast(b, store, ids, lo, hi);
    FlatLast(b, store', ids, lo, hi);
    if j < hi - 1 {
      FlatPut(b, store, ids, lo, hi - 1, j, o, c);
      UpdateFront(front, end, Spot(b, j - lo, o), c);
    } else {
      FlatSame(b, store, ids, lo, hi - 1, store', ids, lo);
      UpdateEnd(front, end, o, c);
    }
  }

  /** One cell changed. */
  lemma CellPut<T>(b: nat, store: Store<T>, ids: seq<nat>, lo: nat, hi: nat, j: nat, o: nat, c: Cell<T>)
    requires Allocation(b, store, ids, lo, hi) && lo <= j < hi && o < b
    ensures var store' := store[ids[j] := store[ids[j]][o := c]];
      var line, k := Flat(b, store, ids, lo, hi), Spot(b, j - lo, o);
      && Allocation(b, store', ids, lo, hi) && k < |line|
      && Flat(b, store', ids, lo, hi) == line[k := c]
  {
    hide Flat;
    FlatPut(b, store, ids, lo, hi, j, o, c);
  }

  lemma {:induction false} FlatSplit<T>(b: nat, store: Store<T>, ids: seq<nat>, lo: nat, mid: nat, hi: nat)
    requires Nodes(b, store, ids, lo, hi) && lo <= mid <= hi
    ensures Flat(b, store, ids, lo, hi) == Flat(b, store, ids, lo, mid) + Flat(b, store, ids, mid, hi)
    decreases hi
  {
    if mid < hi {
      FlatSplit(b, store, ids, lo, mid, hi - 1);
    }
  }

  lemma DropPrefix<X>(front: seq<X>, end: seq<X>)
    ensures (front + end)[|front|..] == end
  {
  }

  lemma RawsAdd<T>(m: nat, n: nat)
    ensures Raws<T>(m) + Raws(n) == Raws(m + n)
  {
  }

  // ---------- the allocator ----------

  /** An allocator says where the next node will lie, given the addresses taken: never at one of
  them, nor at zero. It may be where a node lay that has been freed since. */
  ghost predicate Allocates(allocator: set<nat> -> nat) {
    forall taken: set<nat> :: allocator(taken) > 0 && allocator(taken) !in taken
  }

  function Addresses(ids: seq<nat>): set<nat> {
    set id | id in ids
  }

  /** The addresses of the next `m` nodes, in turn. */
  function NewNodes(allocator: set<nat> -> nat, taken: set<nat>, m: nat): (ids: seq<nat>)
    ensures |ids| == m
  {
    if m == 0 then []
    else
      var before := NewNodes(allocator, taken, m - 1);
      before + [allocator(taken + Addresses(before))]
  }

  lemma NoNewNodes(allocator: set<nat> -> nat, taken: set<nat>)
    ensures NewNodes(allocator, taken, 0) == [] && Addresses([]) == {} && taken + Addresses([]) == taken
  {
  }

  lemma NewNodesFurther(allocator: set<nat> -> nat, taken: set<nat>, m: nat)
    ensures var before, id := NewNodes(allocator, taken, m),
      allocator(taken + Addresses(NewNodes(allocator, taken, m)));
      && NewNodes(allocator, taken, m + 1) == before + [id]
      && taken + Addresses(before + [id]) == taken + Addresses(before) + {id}
  {
  }

  lemma {:induction false} NoNewNodeAtZero(allocator: set<nat> -> nat, taken: set<nat>, m: nat)
    requires Allocates(allocator)
    ensures 0 !in NewNodes(allocator, taken, m)
  {
    if m > 0 {
      NoNewNodeAtZero(allocator, taken, m - 1);
      assert allocator(taken + Addresses(NewNodes(allocator, taken, m - 1))) > 0;
    }
  }

  /** The lowest free address from some address on. */
  function FirstFree(taken: set<nat>, from: nat): (id: nat)
    ensures id >= from && id !in taken
    decreases taken
  {
    if from in taken then FirstFree(taken - {from}, from + 1) else from
  }

  // ---------- allocating and freeing the node at either end ----------

  lemma GrownFront<T>(b: nat, store: Store<T>, ids: seq<nat>, lo: nat, hi: nat, id: nat)
    requires Allocation(b, store, ids, lo, hi) && 0 < lo && id !in store && id > 0
    ensures var store', ids' := store[id := Raws(b)], ids[lo - 1 := id];
      && Allocation(b, store', ids', lo - 1, hi)
      && Flat(b, store', ids', lo - 1, hi) == Raws(b) + Flat(b, store, ids, lo, hi)
  {
    hide Flat;
    var store', ids' := store[id := Raws(b)], ids[lo - 1 := id];
    assert Nodes(b, store', ids', lo - 1, hi);
    forall x | x in store'
      ensures LedTo(ids', lo - 1, hi, x)
    {
      if x in store {
        var i :| lo <= i < hi && ids[i] == x;
        assert ids'[i] == x;
      } else {
        assert ids'[lo - 1] == x;
      }
    }
    FlatSplit(b, store', ids', lo - 1, lo, hi);
    FlatSame(b, store, ids, lo, hi, store', ids', lo);
    FlatOne(b, store', ids', lo - 1);
  }

  lemma FlatOne<T>(b: nat, store: Store<T>, ids: seq<nat>, k: nat)
    requires Nodes(b, store, ids, k, k + 1)
    ensures Flat(b, store, ids, k, k + 1) == store[ids[k]]
  {
    assert Flat(b, store, ids, k, k + 1) == [] + store[ids[k]];
  }

  lemma GrownBack<T>(b: nat, store: Store<T>, ids: seq<nat>, lo: nat, hi: nat, id: nat)
    requires Allocation(b, store, ids, lo, hi) && hi < |ids| && id !in store && id > 0
    ensures var store', ids' := store[id := Raws(b)], ids[hi := id];
      && Allocation(b, store', ids', lo, hi + 1)
      && Flat(b, store', ids', lo, hi + 1) == Flat(b, store, ids, lo, hi) + Raws(b)
  {
    hide Flat;
    var store', ids' := store[id := Raws(b)], ids[hi := id];
    assert Nodes(b, store', ids', lo, hi + 1);
    forall x | x in store'
      ensures LedTo(ids', lo, hi + 1, x)
    {
      if x in store {
        var i :| lo <= i < hi && ids[i] == x;
        assert ids'[i] == x;
      } else {
        assert ids'[hi] == x;
      }
    }
    FlatSame(b, store, ids, lo, hi, store', ids', lo);
    FlatLast(b, store', ids', lo, hi + 1);
  }

  /** The nodes of some pointers freed. */
  ghost predicate Freed<T>(store: Store<T>, store': Store<T>, ids: seq<nat>, from: nat, to: nat) {
    && (forall id :: id in store' <==> id in store && !LedTo(ids, from, to, id))
    && (forall id :: id in store' ==> store'[id] == store[id])
  }

  /** Nodes with an object in every cell. */
  ghost predicate Full<T>(b: nat, store: Store<T>, ids: seq<nat>, lo: nat, hi: nat) {
    && lo <= hi <= |ids|
    && forall i :: lo <= i < hi ==> ids[i] in store && |store[ids[i]]| == b && NoneRaw(store[ids[i]], 0, b)
  }

  lemma LedToOne(ids: seq<nat>, k: nat, id: nat)
    requires k < |ids|
    ensures LedTo(ids, k, k + 1, id) <==> id == ids[k]
  {
    if id == ids[k] {
      assert k <= k < k + 1 && ids[k] == id;
    }
  }

  /** One more node freed, whatever has been done to it before. */
  lemma FreedFurther<T>(store: Store<T>, store': Store<T>, store'': Store<T>, ids: seq<nat>,
                        from: nat, k: nat, cells: seq<Cell<T>>)
    requires from <= k < |ids| && Freed(store, store', ids, from, k) && ids[k] in store'
    requires Freed(store'[ids[k] := cells], store'', ids, k, k + 1)
    ensures Freed(store, store'', ids, from, k + 1)
  {
    forall id
      ensures LedTo(ids, from, k + 1, id) <==> LedTo(ids, from, k, id) || id == ids[k]
      ensures LedTo(ids, k, k + 1, id) <==> id == ids[k]
    {
      LedToOne(ids, k, id);
      if id == ids[k] {
        assert LedTo(ids, from, k + 1, id);
      }
    }
  }

  /** The nodes of the pointers still to come are there as before. */
  lemma StillThere<T>(b: nat, store: Store<T>, store': Store<T>, ids: seq<nat>, from: nat, k: nat, hi: nat)
    requires Distinct(ids, from, hi) && from <= k < hi
    requires Full(b, store, ids, from, hi) && Freed(store, store', ids, from, k)
    ensures Full(b, store', ids, k, k + 1) && Distinct(ids, k, k + 1)
  {
  }

  lemma MayFree<T>(b: nat, store: Store<T>, ids: seq<nat>, lo: nat, hi: nat, from: nat, to: nat)
    requires Allocation(b, store, ids, lo, hi) && lo <= from <= to <= hi
    ensures to <= |ids| && Distinct(ids, from, to) && forall i :: from <= i < to ==> ids[i] in store
  {
  }

  ghost predicate EndIsFreed<T>(store: Store<T>, ids: seq<nat>, lo: nat, hi: nat, store': Store<T>, p: nat, q: nat) {
    (p == lo && Freed(store, store', ids, q, hi)) || (q == hi && Freed(store, store', ids, lo, p))
  }

  lemma OtherEndKept<T>(b: nat, store: Store<T>, ids: seq<nat>, lo: nat, hi: nat,
                        store': Store<T>, p: nat, q: nat, i: nat)
    requires Allocation(b, store, ids, lo, hi) && lo <= p <= i < q <= hi
    requires EndIsFreed(store, ids, lo, hi, store', p, q)
    ensures ids[i] in store' && ids[i] in store && store'[ids[i]] == store[ids[i]]
  {
    assert ids[i] in store && !LedTo(ids, lo, p, ids[i]) && !LedTo(ids, q, hi, ids[i]);
  }

  lemma NoOtherKept<T>(b: nat, store: Store<T>, ids: seq<nat>, lo: nat, hi: nat,
                       store': Store<T>, p: nat, q: nat, id: nat)
    requires Allocation(b, store, ids, lo, hi) && lo <= p <= q <= hi
    requires EndIsFreed(store, ids, lo, hi, store', p, q) && id in store'
    ensures id in store && LedTo(ids, p, q, id)
  {
    var i :| lo <= i < hi && ids[i] == id;
  }

  /** The nodes of one end freed, those of the other end kept. */
  lemma EndFreed<T>(b: nat, store: Store<T>, ids: seq<nat>, lo: nat, hi: nat,
                    store': Store<T>, p: nat, q: nat)
    requires Allocation(b, store, ids, lo, hi) && lo <= p <= q <= hi
    requires EndIsFreed(store, ids, lo, hi, store', p, q)
    ensures Allocation(b, store', ids, p, q)
    ensures forall i :: p <= i < q ==> store'[ids[i]] == store[ids[i]]
  {
    forall i | p <= i < q
      ensures ids[i] in store' && ids[i] in store && store'[ids[i]] == store[ids[i]]
    {
      OtherEndKept(b, store, ids, lo, hi, store', p, q, i);
    }
    forall id | id in store'
      ensures id in store && LedTo(ids, p, q, id)
    {
      NoOtherKept(b, store, ids, lo, hi, store', p, q, id);
    }
    hide EndIsFreed, LedTo;
  }

  lemma TrimmedFront<T>(b: nat, store: Store<T>, ids: seq<nat>, lo: nat, hi: nat, store': Store<T>, m: nat)
    requires Allocation(b, store, ids, lo, hi) && lo <= m <= hi && Freed(store, store', ids, lo, m)
    ensures Allocation(b, store', ids, m, hi)
    ensures 0 <= (m - lo) * b <= (hi - lo) * b
    ensures Flat(b, store', ids, m, hi) == Flat(b, store, ids, lo, hi)[(m - lo) * b..]
  {
    hide Flat, Freed;
    EndFreed(b, store, ids, lo, hi, store', m, hi);
    FlatSame(b, store, ids, m, hi, store', ids, m);
    FlatSplit(b, store, ids, lo, m, hi);
    DropPrefix(Flat(b, store, ids, lo, m), Flat(b, store, ids, m, hi));
  }

  lemma TrimmedBack<T>(b: nat, store: Store<T>, ids: seq<nat>, lo: nat, hi: nat, store': Store<T>, m: nat)
    requires Allocation(b, store, ids, lo, hi) && lo <= m <= hi && Freed(store, store', ids, m, hi)
    ensures Allocation(b, store', ids, lo, m)
    ensures 0 <= (m - lo) * b <= (hi - lo) * b
    ensures Flat(b, store', ids, lo, m) == Flat(b, store, ids, lo, hi)[..(m - lo) * b]
  {
    hide Flat, Freed;
    EndFreed(b, store, ids, lo, hi, store', lo, m);
    FlatSame(b, store, ids, lo, m, store', ids, lo);
    FlatSplit(b, store, ids, lo, m, hi);
    TakePrefix(Flat(b, store, ids, lo, m), Flat(b, store, ids, m, hi));
  }

  /** Of all nodes only the first is left, with nothing in it. */
  lemma OneNodeLeft<T>(b: nat, store: Store<T>, ids: seq<nat>, lo: nat, hi: nat, store': Store<T>)
    requires Allocation(b, store, ids, lo, hi) && lo < hi
    requires forall id :: id in store' <==> id in store && !LedTo(ids, lo + 1, hi, id)
    requires ids[lo] in store' ==> store'[ids[lo]] == Raws(b)
    ensures Allocation(b, store', ids, lo, lo + 1) && Flat(b, store', ids, lo, lo + 1) == Raws(b)
  {
    forall id | id in store'
      ensures LedTo(ids, lo, lo + 1, id)
    {
      var i :| lo <= i < hi && ids[i] == id;
    }
    FlatOne(b, store', ids, lo);
  }

  lemma OneNode<T>(b: nat, store: Store<T>, ids: seq<nat>, lo: nat, store': Store<T>)
    requires Allocation(b, store, ids, lo, lo + 1)
    requires store'.Keys == store.Keys && store'[ids[lo]] == Raws(b)
    ensures Allocation(b, store', ids, lo, lo + 1) && Flat(b, store', ids, lo, lo + 1) == Raws(b)
  {
    OneNodeLeft(b, store, ids, lo, lo + 1, store');
  }

  lemma NothingLeft<T>(b: nat, store: Store<T>, ids: seq<nat>, lo: nat)
    requires Allocation(b, store, ids, lo, lo)
    ensures store == map[]
  {
    assert forall id :: id in store ==> LedTo(ids, lo, lo, id);
  }

  lemma EndsStillThere<T>(b: nat, store: Store<T>, ids: seq<nat>, lo: nat, hi: nat, one: Store<T>)
    requires Allocation(b, store, ids, lo, hi) && lo + 1 < hi
    requires Freed(store, one, ids, lo + 1, hi - 1)
    ensures forall k :: k == lo || k == hi - 1 ==> ids[k] in one && ids[k] in store && one[ids[k]] == store[ids[k]]
    ensures ids[lo] != ids[hi - 1] && Distinct(ids, hi - 1, hi)
    ensures forall k :: k == lo || k == hi - 1 ==> |store[ids[k]]| == b
  {
    assert !LedTo(ids, lo + 1, hi - 1, ids[lo]) && !LedTo(ids, lo + 1, hi - 1, ids[hi - 1]);
  }

  /** The first node emptied, and all between it and the last freed; now the last one is. */
  lemma AllButFirstFreed<T>(b: nat, store: Store<T>, ids: seq<nat>, lo: nat, hi: nat,
                            one: Store<T>, last: seq<Cell<T>>, three: Store<T>)
    requires Allocation(b, store, ids, lo, hi) && lo + 1 < hi
    requires Freed(store, one, ids, lo + 1, hi - 1)
    requires Freed(one[ids[lo] := Raws(b)][ids[hi - 1] := last], three, ids, hi - 1, hi)
    ensures Allocation(b, three, ids, lo, lo + 1) && Flat(b, three, ids, lo, lo + 1) == Raws(b)
  {
    var first, end := lo + 1, hi - 1;
    forall id
      ensures LedTo(ids, first, hi, id) <==> LedTo(ids, first, end, id) || id == ids[end]
      ensures LedTo(ids, end, hi, id) <==> id == ids[end]
    {
      LedToOne(ids, end, id);
      if id == ids[end] {
        assert LedTo(ids, first, hi, id);
      }
    }
    hide Flat;
    OneNodeLeft(b, store, ids, lo, hi, three);
  }

  lemma TakePrefix<X>(front: seq<X>, end: seq<X>)
    ensures (front + end)[..|front|] == front
  {
  }

  // ---------- moving the pointers along the map ----------

  /** `n` pointers copied from `a` to `d`, all read before any is written. */
  function Copied(ids: seq<nat>, a: nat, n: nat, d: nat): (r: seq<nat>)
    requires a + n <= |ids| && d + n <= |ids|
    ensures |r| == |ids|
    ensures forall k :: 0 <= k < |ids| ==> r[k] == if d <= k < d + n then ids[a + k - d] else ids[k]
  {
    seq(|ids|, k requires 0 <= k < |ids| => if d <= k < d + n then ids[a + k - d] else ids[k])
  }

  /** Some pointers now stand elsewhere in a map; where others lead does not matter. */
  ghost predicate Repeated(ids: seq<nat>, lo: nat, hi: nat, ids': seq<nat>, lo': nat) {
    && lo <= hi <= |ids| && lo' + (hi - lo) <= |ids'|
    && forall i {:trigger ids'[i]} :: lo' <= i < lo' + (hi - lo) ==> ids'[i] == ids[i - lo' + lo]
  }

  /** No node has moved: the pointers lead where they led, wherever they stand, and what was
  in the nodes still is. References to elements stay good. */
  ghost predicate Stays<T>(store: Store<T>, ids: seq<nat>, lo: nat, hi: nat, store': Store<T>, ids': seq<nat>,
                           lo': nat) {
    && Repeated(ids, lo, hi, ids', lo')
    && forall id :: id in store ==> id in store' && store'[id] == store[id]
  }

  lemma StaysOn<T>(store: Store<T>, ids: seq<nat>, lo: nat, hi: nat, store': Store<T>, ids': seq<nat>, lo': nat,
                   p: nat, q: nat, store'': Store<T>, ids'': seq<nat>)
    requires Stays(store, ids, lo, hi, store', ids', lo') && Stays(store', ids', p, q, store'', ids'', p)
    requires p <= lo' && lo' + (hi - lo) <= q
    ensures Stays(store, ids, lo, hi, store'', ids'', lo')
  {
  }

  lemma StaysWithOneMore<T>(store: Store<T>, ids: seq<nat>, lo: nat, hi: nat, k: nat, id: nat, cells: seq<Cell<T>>)
    requires lo <= hi <= |ids| && k < |ids| && !(lo <= k < hi) && id !in store
    ensures Stays(store, ids, lo, hi, store[id := cells], ids[k := id], lo)
  {
  }

  lemma StaysElsewhere<T>(store: Store<T>, ids: seq<nat>, lo: nat, hi: nat, ids': seq<nat>, lo': nat)
    requires Repeated(ids, lo, hi, ids', lo')
    ensures Stays(store, ids, lo, hi, store, ids', lo')
  {
  }

  lemma StaysAtFirst<T>(store: Store<T>, ids: seq<nat>, lo: nat, hi: nat)
    requires lo <= hi <= |ids|
    ensures Stays(store, ids, lo, hi, store, ids, lo)
  {
  }

  lemma Remapped<T>(b: nat, store: Store<T>, ids: seq<nat>, lo: nat, hi: nat, ids': seq<nat>, lo': nat)
    requires Allocation(b, store, ids, lo, hi) && Repeated(ids, lo, hi, ids', lo')
    ensures var hi' := lo' + (hi - lo);
      && Allocation(b, store, ids', lo', hi')
      && Flat(b, store, ids', lo', hi') == Flat(b, store, ids, lo, hi)
  {
    hide Flat;
    var hi' := lo' + (hi - lo);
    assert forall i :: lo <= i < hi ==> ids'[i - lo + lo'] == ids[i];
    forall id | id in store
      ensures LedTo(ids', lo', hi', id)
    {
      var i :| lo <= i < hi && ids[i] == id;
      assert ids'[i - lo + lo'] == id;
    }
    FlatSame(b, store, ids, lo, hi, store, ids', lo');
  }

  /** Pointers moved within a map, or to a larger one. Moving copies: behind them their old
  places keep what they held, and a larger map is empty but for them. */
  ghost predicate Relocated(ids: seq<nat>, lo: nat, hi: nat, ids': seq<nat>, lo': nat) {
    && Repeated(ids, lo, hi, ids', lo')
    && forall k :: 0 <= k < |ids'| && !(lo' <= k < lo' + (hi - lo)) ==> ids'[k] == if |ids'| == |ids| then ids[k] else 0
  }

  lemma RelocatedNowhere(ids: seq<nat>, lo: nat, hi: nat)
    requires lo <= hi <= |ids|
    ensures Relocated(ids, lo, hi, ids, lo)
  {
  }

  /** Pointers to new nodes put in front of a place, or from there on. */
  ghost predicate Extended(ids: seq<nat>, news: seq<nat>, ids': seq<nat>, at: nat, front: bool) {
    && |ids'| == |ids| && (if front then |news| <= at <= |ids| else at + |news| <= |ids|)
    && forall k {:trigger ids'[k]} :: 0 <= k < |ids| ==>
      (ids'[k] == if front && at - |news| <= k < at then news[at - 1 - k]
                  else if !front && at <= k < at + |news| then news[k - at]
                  else ids[k])
  }

  lemma NothingExtended(ids: seq<nat>, at: nat, front: bool)
    requires at <= |ids|
    ensures Extended(ids, [], ids, at, front)
  {
  }

  lemma ExtendedFurther(ids: seq<nat>, news: seq<nat>, ids': seq<nat>, at: nat, front: bool, id: nat)
    requires Extended(ids, news, ids', at, front) && if front then |news| < at else at + |news| < |ids|
    ensures Extended(ids, news + [id], ids'[if front then at - |news| - 1 else at + |news| := id], at, front)
  {
  }

  lemma RelocatedRepeats(ids: seq<nat>, lo: nat, hi: nat, ids': seq<nat>, lo': nat)
    requires Relocated(ids, lo, hi, ids', lo')
    ensures Repeated(ids, lo, hi, ids', lo')
  {
  }

  lemma RelocatedToLarger(ids: seq<nat>, lo: nat, hi: nat, ids': seq<nat>, lo': nat)
    requires Repeated(ids, lo, hi, ids', lo') && |ids'| > |ids|
    requires forall k :: 0 <= k < |ids'| && !(lo' <= k < lo' + (hi - lo)) ==> ids'[k] == 0
    ensures Relocated(ids, lo, hi, ids', lo')
  {
  }

  /** The pointers moved, the same nodes in the same order are the storage. */
  lemma RelocatedStores<T>(b: nat, store: Store<T>, ids: seq<nat>, lo: nat, hi: nat, ids': seq<nat>, lo': nat)
    requires Allocation(b, store, ids, lo, hi) && Relocated(ids, lo, hi, ids', lo')
    ensures lo <= hi
    ensures var hi' := lo' + (hi - lo);
      && Allocation(b, store, ids', lo', hi')
      && Flat(b, store, ids', lo', hi') == Flat(b, store, ids, lo, hi)
  {
    hide Flat, Nodes, Distinct;
    Remapped(b, store, ids, lo, hi, ids', lo');
  }

  // ---------- room in the map ----------

  /** The nodes that `n` new elements need beyond those there are vacant cells for. */
  function NodesFor(n: nat, vacancies: int, b: nat): (m: nat)
    requires b > 0
    ensures n > vacancies >= 0 ==> vacancies + (m - 1) * b < n <= vacancies + m * b
    ensures n <= vacancies ==> m == 0
  {
    if n > vacancies >= 0 then Ceiling(n - vacancies, b); (n - vacancies + b - 1) / b else 0
  }

  function NewSize(size: nat, nodes: nat, m: nat): nat {
    if size > 2 * (nodes + m) then size else size + (if size < m then m else size) + 2
  }

  /** The size of the map once it has room for `m` more nodes at one end, and the place of the
  first pointer. Pointers that fit stay where they are; otherwise all are centred, in the same
  map if it is large enough. */
  function RoomFor(size: nat, lo: nat, hi: nat, m: nat, front: bool): (room: (nat, nat))
    requires lo <= hi <= size
    ensures room.1 + (hi - lo) + m <= room.0
  {
    if front && m <= lo then (size, lo - m)
    else if !front && hi + m <= size then (size, lo)
    else
      var newSize := NewSize(size, hi - lo, m);
      (newSize, (newSize - (hi - lo) - m) / 2)
  }

  lemma RoomIs(size: nat, lo: nat, hi: nat, m: nat, front: bool, size': nat, lo': int)
    requires lo <= hi <= size
    requires if (if front then m <= lo else hi + m <= size) then size' == size && lo' == if front then lo - m else lo
             else size' == NewSize(size, hi - lo, m) && 0 <= size' - (lo' + hi - lo + m) - lo' <= 1
    ensures (size', lo') == RoomFor(size, lo, hi, m, front)
  {
  }

  /** What making room for some nodes at one end leaves of a map. */
  ghost predicate RoomMade(ids: seq<nat>, lo: nat, hi: nat, news: seq<nat>,
                           ids': seq<nat>, lo': nat, hi': nat, front: bool) {
    && lo <= hi <= |ids| && hi' - lo' == hi - lo + |news|
    && (|ids'|, lo') == RoomFor(|ids|, lo, hi, |news|, front)
    && Repeated(ids, lo, hi, ids', if front then lo' + |news| else lo')
    && (forall k :: 0 <= k < |ids'| && !(lo' <= k < hi') ==> ids'[k] == if |ids'| == |ids| then ids[k] else 0)
    && (forall k {:trigger ids'[k]} :: 0 <= k < |ids'| && front && lo' <= k < lo' + |news| ==>
          ids'[k] == news[lo' + |news| - 1 - k])
    && (forall k {:trigger ids'[k]} :: 0 <= k < |ids'| && !front && hi' - |news| <= k < hi' ==>
          ids'[k] == news[k - (hi' - |news|)])
  }

  lemma RoomIsMade(ids: seq<nat>, lo: nat, hi: nat, news: seq<nat>, mid: seq<nat>, at: nat,
                   ids': seq<nat>, lo': nat, hi': nat, front: bool)
    requires Relocated(ids, lo, hi, mid, at)
    requires if front then at == lo' + |news| && hi' == at + (hi - lo) && Extended(mid, news, ids', at, true)
             else at == lo' && hi' == at + (hi - lo) + |news| && Extended(mid, news, ids', hi' - |news|, false)
    requires (|mid|, lo') == RoomFor(|ids|, lo, hi, |news|, front)
    ensures RoomMade(ids, lo, hi, news, ids', lo', hi', front)
  {
    hide RoomFor;
  }

  lemma NoRoomNeeded(ids: seq<nat>, lo: nat, hi: nat, front: bool)
    requires lo <= hi <= |ids|
    ensures RoomMade(ids, lo, hi, [], ids, lo, hi, front)
  {
  }

  // ---------- how often pointers are copied ----------

  function NodesIn(additions: seq<nat>): nat {
    if additions == [] then 0 else additions[0] + NodesIn(additions[1..])
  }

  /** The pointers copied when nodes are added at one end, so many at a time, by making room in
  the map whenever there is too little at that end. */
  function PointersCopied(size: nat, lo: nat, hi: nat, additions: seq<nat>, front: bool): nat
    requires lo <= hi <= size
    decreases |additions|
  {
    if additions == [] then 0
    else
      var m := additions[0];
      var (size', lo') := RoomFor(size, lo, hi, m, front);
      (if (if front then m <= lo else hi + m <= size) then 0 else hi - lo)
      + PointersCopied(size', lo', lo' + (hi - lo) + m, additions[1..], front)
  }

  /** How far the pointers outnumber twice the free places at the end: the copying not yet paid
  for by additions. */
  function Unpaid(size: nat, lo: nat, hi: nat, front: bool): nat
    requires lo <= hi <= size
  {
    var free := if front then lo else size - hi;
    if hi - lo > 2 * free then hi - lo - 2 * free else 0
  }

  /** Copying leaves room for half as many more nodes, or the additions that needed it pay. */
  lemma RoomPays(size: nat, lo: nat, hi: nat, m: nat, front: bool)
    requires lo <= hi <= size
    ensures var (size', lo') := RoomFor(size, lo, hi, m, front);
      (if (if front then m <= lo else hi + m <= size) then 0 else hi - lo)
      + Unpaid(size', lo', lo' + (hi - lo) + m, front) <= Unpaid(size, lo, hi, front) + 4 * m
  {
  }

  /** Over any number of additions at one end the copying is linear in the nodes added. */
  lemma {:induction false} CopyingIsLinear(size: nat, lo: nat, hi: nat, additions: seq<nat>, front: bool)
    requires lo <= hi <= size
    ensures PointersCopied(size, lo, hi, additions, front) <= 4 * NodesIn(additions) + Unpaid(size, lo, hi, front)
    ensures PointersCopied(size, lo, hi, additions, front) <= 4 * NodesIn(additions) + (hi - lo)
    decreases |additions|
  {
    hide RoomFor;
    if additions != [] {
      var m := additions[0];
      RoomPays(size, lo, hi, m, front);
      var (size', lo') := RoomFor(size, lo, hi, m, front);
      CopyingIsLinear(size', lo', lo' + (hi - lo) + m, additions[1..], front);
    }
  }

  /** A map that is replaced more than doubles. */
  lemma LargerMapDoubles(size: nat, nodes: nat, m: nat)
    ensures size <= 2 * (nodes + m) ==> NewSize(size, nodes, m) > 2 * size && NewSize(size, nodes, m) > size + m
  {
  }

  // ---------- the documented invariant of the map ----------

  /** A pointer of the map leads to an allocated node if and only if it is one of these. */
  ghost predicate Documented<T>(store: Store<T>, ids: seq<nat>, lo: nat, hi: nat) {
    lo <= hi <= |ids| && forall k :: 0 <= k < |ids| ==> (ids[k] in store <==> lo <= k < hi)
  }

  /** A map just made, with pointers to its first nodes. */
  lemma DocumentedAtFirst<T>(b: nat, store: Store<T>, ids: seq<nat>, lo: nat, hi: nat, was: seq<nat>, news: seq<nat>)
    requires Allocation(b, store, ids, lo, hi) && Extended(was, news, ids, lo, false) && hi == lo + |news|
    requires forall k :: 0 <= k < |was| ==> was[k] == 0
    ensures Documented(store, ids, lo, hi)
    ensures forall k :: 0 <= k < |ids| && !(lo <= k < hi) ==> ids[k] == 0
  {
  }

  lemma NodeIsThere<T>(b: nat, store: Store<T>, ids: seq<nat>, lo: nat, hi: nat, i: nat)
    requires Allocation(b, store, ids, lo, hi) && lo <= i < hi
    ensures i < |ids| && ids[i] in store && ids[i] > 0
  {
  }

  /** Whether it will survive making room, from the state before: yes, if the pointers go to a
  larger map; in the same map, if their new range covers the old one, so that none is left
  behind, and no pointer outside happens to hold the address of a node to come. */
  ghost predicate WillBeDocumented(ids: seq<nat>, lo: nat, hi: nat, news: seq<nat>, front: bool)
    requires lo <= hi <= |ids|
  {
    var (size, from) := RoomFor(|ids|, lo, hi, |news|, front);
    var to := from + (hi - lo) + |news|;
    || size > |ids|
    || (from <= lo && hi <= to && forall k :: 0 <= k < |ids| && !(from <= k < to) ==> ids[k] !in news)
  }

  /** A pointer of the new range leads where one of the old range did, or to a new node. */
  lemma LedToAfterRoom(ids: seq<nat>, lo: nat, hi: nat, news: seq<nat>, ids': seq<nat>, lo': nat, hi': nat,
                       front: bool, id: nat)
    requires RoomMade(ids, lo, hi, news, ids', lo', hi', front)
    ensures LedTo(ids', lo', hi', id) <==> LedTo(ids, lo, hi, id) || id in news
  {
    hide RoomFor;
    var at := if front then lo' + |news| else lo';
    if LedTo(ids', lo', hi', id) {
      var i :| lo' <= i < hi' && ids'[i] == id;
      if at <= i < at + (hi - lo) {
        assert ids'[i] == ids[i - at + lo];
      }
    }
    if LedTo(ids, lo, hi, id) {
      var i :| lo <= i < hi && ids[i] == id;
      assert ids'[i - lo + at] == id;
    }
    if id in news {
      var i :| 0 <= i < |news| && news[i] == id;
      assert ids'[if front then lo' + |news| - 1 - i else hi' - |news| + i] == id;
    }
  }

  lemma StoredIsLedTo<T>(b: nat, store: Store<T>, ids: seq<nat>, lo: nat, hi: nat, id: nat)
    requires Allocation(b, store, ids, lo, hi)
    ensures id in store <==> LedTo(ids, lo, hi, id)
  {
  }

  lemma DocumentedAfterRoom<T>(b: nat, store: Store<T>, ids: seq<nat>, lo: nat, hi: nat, news: seq<nat>,
                               store': Store<T>, ids': seq<nat>, lo': nat, hi': nat, front: bool)
    requires Allocation(b, store, ids, lo, hi) && Documented(store, ids, lo, hi)
    requires Allocation(b, store', ids', lo', hi') && lo < hi
    requires RoomMade(ids, lo, hi, news, ids', lo', hi', front)
    ensures Documented(store', ids', lo', hi') <==> WillBeDocumented(ids, lo, hi, news, front)
  {
    forall id
      ensures id in store' <==> id in store || id in news
    {
      LedToAfterRoom(ids, lo, hi, news, ids', lo', hi', front, id);
      StoredIsLedTo(b, store, ids, lo, hi, id);
      StoredIsLedTo(b, store', ids', lo', hi', id);
    }
    NoNodeAtZero(b, store', ids', lo', hi');
    hide Allocation, RoomFor;
    OutsideAfterRoom(store, ids, lo, hi, news, store', ids', lo', hi', front);
  }

  lemma NoNodeAtZero<T>(b: nat, store: Store<T>, ids: seq<nat>, lo: nat, hi: nat)
    requires Allocation(b, store, ids, lo, hi)
    ensures 0 !in store && forall k :: lo <= k < hi ==> k < |ids| && ids[k] in store
  {
  }

  lemma OutsideAfterRoom<T>(store: Store<T>, ids: seq<nat>, lo: nat, hi: nat, news: seq<nat>,
                            store': Store<T>, ids': seq<nat>, lo': nat, hi': nat, front: bool)
    requires Documented(store, ids, lo, hi) && lo < hi && RoomMade(ids, lo, hi, news, ids', lo', hi', front)
    requires forall id :: id in store' <==> id in store || id in news
    requires 0 !in store' && forall k :: lo' <= k < hi' ==> k < |ids'| && ids'[k] in store'
    ensures Documented(store', ids', lo', hi') <==> WillBeDocumented(ids, lo, hi, news, front)
  {
    hide Repeated, RoomFor;
    RoomIsEnough(|ids|, lo, hi, |news|, front);
    if |ids'| == |ids| && lo < lo' {
      assert ids'[lo] == ids[lo];
    }
    if |ids'| == |ids| && hi > hi' {
      assert ids'[hi - 1] == ids[hi - 1];
    }
  }

  lemma RoomIsEnough(size: nat, lo: nat, hi: nat, m: nat, front: bool)
    requires lo <= hi <= size
    ensures RoomFor(size, lo, hi, m, front).0 >= size
  {
  }

  /** The first map has room for some, and a larger one for all others. */
  lemma FirstMapIsEnough(ids: seq<nat>, news: seq<nat>)
    requires |ids| == 8 && 0 !in news && forall k :: 0 <= k < |ids| && !(3 <= k < 4) ==> ids[k] == 0
    ensures WillBeDocumented(ids, 3, 4, news, false)
  {
  }

  /** Freeing nodes at the ends keeps it. */
  lemma DocumentedAfterFreeing<T>(b: nat, store: Store<T>, ids: seq<nat>, lo: nat, hi: nat,
                                  store': Store<T>, lo': nat, hi': nat)
    requires Allocation(b, store, ids, lo, hi) && Documented(store, ids, lo, hi)
    requires Allocation(b, store', ids, lo', hi') && lo <= lo' <= hi' <= hi
    ensures Documented(store', ids, lo', hi')
  {
    forall k | 0 <= k < |ids| && ids[k] in store'
      ensures lo' <= k < hi'
    {
      var i :| lo' <= i < hi' && ids[i] == ids[k];
    }
  }
}
