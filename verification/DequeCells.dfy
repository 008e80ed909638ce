/** The storage of a deque laid out in one line, and what moving elements along it does. */
module DequeCells {

  /** Storage without an object, with one, or with one whose value has been moved away. */
  datatype Cell<T> = Raw | Live(value: T) | Moved

  /** What the element type does with an expiring object: whether its value is left when another
  object is constructed or assigned from it (a type without a move of its own is copied), and
  whether it is left when the object is assigned from itself. */
  datatype Kind = Kind(keepsSource: bool, keepsSelf: bool)

  /** An object after another one was constructed or assigned from it. */
  function Left<T>(c: Cell<T>, kind: Kind): Cell<T> {
    if kind.keepsSource then c else Moved
  }

  function Raws<T>(n: nat): (r: seq<Cell<T>>)
    ensures |r| == n
  {
    seq(n, _ => Raw)
  }

  /** `n` elements moved from `a` to `d`, where the ranges may overlap. */
  function Shifted<T>(line: seq<Cell<T>>, a: nat, n: nat, d: nat, kind: Kind): (r: seq<Cell<T>>)
    requires a + n <= |line| && d + n <= |line|
    ensures |r| == |line|
    ensures forall k :: 0 <= k < |line| ==>
      r[k] == if d <= k < d + n then line[a + k - d] else if a <= k < a + n then Left(line[k], kind) else line[k]
  {
    seq(|line|, k requires 0 <= k < |line| =>
      if d <= k < d + n then line[a + k - d] else if a <= k < a + n then Left(line[k], kind) else line[k])
  }

  /** `n` elements each assigned from itself. */
  function SelfMoved<T>(line: seq<Cell<T>>, a: nat, n: nat, kind: Kind): (r: seq<Cell<T>>)
    requires a + n <= |line|
    ensures |r| == |line|
    ensures forall k :: 0 <= k < |line| ==> r[k] == if !kind.keepsSelf && a <= k < a + n then Moved else line[k]
  {
    seq(|line|, k requires 0 <= k < |line| => if !kind.keepsSelf && a <= k < a + n then Moved else line[k])
  }

  function AfterMove<T>(line: seq<Cell<T>>, a: nat, n: nat, d: nat, kind: Kind): (r: seq<Cell<T>>)
    requires a + n <= |line| && d + n <= |line|
    ensures |r| == |line|
  {
    if a == d then SelfMoved(line, a, n, kind) else Shifted(line, a, n, d, kind)
  }

  lemma NothingMoved<T>(line: seq<Cell<T>>, a: nat, d: nat, kind: Kind)
    requires a <= |line| && d <= |line|
    ensures AfterMove(line, a, 0, d, kind) == line
  {
  }

  lemma MovedFurther<T>(line: seq<Cell<T>>, a: nat, j: nat, d: nat, kind: Kind)
    requires a + j < |line| && d <= a
    ensures var l := AfterMove(line, a, j, d, kind);
      && l[a + j] == line[a + j] && (l[d + j] == line[d + j] || l[d + j] == Moved)
      && (if a != d then l[d + j := l[a + j]][a + j := Left(l[a + j], kind)]
          else if kind.keepsSelf then l else l[a + j := Moved])
         == AfterMove(line, a, j + 1, d, kind)
  {
    if a != d {
      ShiftedFurther(line, a, j, d, kind);
    }
  }

  lemma MovedBackFurther<T>(line: seq<Cell<T>>, a: nat, j: nat, d: nat, kind: Kind)
    requires 0 < a <= d && d + j <= |line|
    ensures var l := AfterMove(line, a, j, d, kind);
      && l[a - 1] == line[a - 1] && (l[d - 1] == line[d - 1] || l[d - 1] == Moved)
      && (if a != d then l[d - 1 := l[a - 1]][a - 1 := Left(l[a - 1], kind)]
          else if kind.keepsSelf then l else l[a - 1 := Moved])
         == AfterMove(line, a - 1, j + 1, d - 1, kind)
  {
    if a != d {
      ShiftedBackFurther(line, a, j, d, kind);
    }
  }

  /** One more element moved, from front to back. */
  lemma ShiftedFurther<T>(line: seq<Cell<T>>, a: nat, j: nat, d: nat, kind: Kind)
    requires a + j < |line| && d + j < |line| && (d < a || a + j < d)
    ensures var l := Shifted(line, a, j, d, kind);
      && l[a + j] == line[a + j] && (l[d + j] == line[d + j] || l[d + j] == Moved)
      && l[d + j := l[a + j]][a + j := Left(l[a + j], kind)] == Shifted(line, a, j + 1, d, kind)
  {
  }

  /** One more element moved, from back to front. */
  lemma ShiftedBackFurther<T>(line: seq<Cell<T>>, a: nat, j: nat, d: nat, kind: Kind)
    requires 0 < a < d && d + j <= |line|
    ensures var l := Shifted(line, a, j, d, kind);
      && l[a - 1] == line[a - 1] && (l[d - 1] == line[d - 1] || l[d - 1] == Moved)
      && l[d - 1 := l[a - 1]][a - 1 := Left(l[a - 1], kind)] == Shifted(line, a - 1, j + 1, d - 1, kind)
  {
  }

  /** An object and raw storage are different cells. */
  lemma LiveIsNotRaw<T>(line: seq<Cell<T>>, a: int, d: int, n: int)
    requires AllLive(line, a, n) && AllRaw(line, d, n) && n > 0
    ensures d + n <= a || a + n <= d
  {
    assert line[if d <= a then a else d] == line[if d <= a then a else d];
  }

  /** `ys` put at `d`. */
  function Written<T>(line: seq<Cell<T>>, d: nat, ys: seq<T>): (r: seq<Cell<T>>)
    requires d + |ys| <= |line|
    ensures |r| == |line|
    ensures forall k :: 0 <= k < |line| ==> r[k] == if d <= k < d + |ys| then Live(ys[k - d]) else line[k]
  {
    seq(|line|, k requires 0 <= k < |line| => if d <= k < d + |ys| then Live(ys[k - d]) else line[k])
  }

  function Copies<T>(n: nat, x: T): (xs: seq<T>)
    ensures |xs| == n
  {
    seq(n, _ => x)
  }

  lemma WrittenOn<T>(line: seq<Cell<T>>, m: nat, n: nat, x: T)
    requires m + n <= |line|
    ensures Written(Written(line, 0, Copies(m, x)), m, Copies(n, x)) == Written(line, 0, Copies(m + n, x))
  {
  }

  /** The objects in a range destroyed. */
  function Cleared<T>(line: seq<Cell<T>>, a: nat, n: nat): (r: seq<Cell<T>>)
    requires a + n <= |line|
    ensures |r| == |line|
    ensures forall k :: 0 <= k < |line| ==> r[k] == if a <= k < a + n then Raw else line[k]
  {
    seq(|line|, k requires 0 <= k < |line| => if a <= k < a + n then Raw else line[k])
  }

  /** From `s` on lie exactly the elements `xs`; all other storage is raw. */
  ghost predicate Holds<T>(line: seq<Cell<T>>, s: nat, xs: seq<T>) {
    && s + |xs| <= |line|
    && forall k :: 0 <= k < |line| ==> line[k] == if s <= k < s + |xs| then Live(xs[k - s]) else Raw
  }

  ghost predicate AllLive<T>(line: seq<Cell<T>>, a: int, n: int) {
    0 <= a && 0 <= n && a + n <= |line| && forall k :: a <= k < a + n ==> line[k].Live?
  }

  ghost predicate AllRaw<T>(line: seq<Cell<T>>, a: int, n: int) {
    0 <= a && 0 <= n && a + n <= |line| && forall k :: a <= k < a + n ==> line[k].Raw?
  }

  /** Objects everywhere, moved from or not: storage that may be assigned to. */
  ghost predicate NoneRaw<T>(line: seq<Cell<T>>, a: int, n: int) {
    0 <= a && 0 <= n && a + n <= |line| && forall k :: a <= k < a + n ==> !line[k].Raw?
  }

  lemma HoldsBehind<T>(line: seq<Cell<T>>, s: nat, xs: seq<T>, m: nat)
    requires Holds(line, s, xs)
    ensures Holds(Raws(m) + line, s + m, xs)
  {
  }

  lemma HoldsBefore<T>(line: seq<Cell<T>>, s: nat, xs: seq<T>, m: nat)
    requires Holds(line, s, xs)
    ensures Holds(line + Raws(m), s, xs)
  {
  }

  lemma HoldsInside<T>(line: seq<Cell<T>>, s: nat, xs: seq<T>)
    requires Holds(line, s, xs)
    ensures s + |xs| <= |line|
  {
  }

  lemma HoldsNothing<T>(line: seq<Cell<T>>, s: nat)
    requires line == Raws(|line|) && s <= |line|
    ensures Holds(line, s, [])
  {
  }

  lemma HoldsCopies<T>(line: seq<Cell<T>>, n: nat, x: T)
    requires line == Raws(|line|) && n <= |line|
    ensures Holds(Written(line, 0, Copies(n, x)), 0, Copies(n, x))
  {
  }

  /** Moving elements onto themselves. */
  lemma SelfMoveKeeps<T>(line: seq<Cell<T>>, s: nat, xs: seq<T>, a: nat, m: nat, kind: Kind)
    requires Holds(line, s, xs) && s <= a && a + m <= s + |xs|
    ensures AllLive(line, a, m) && NoneRaw(line, a, m)
    ensures var after := SelfMoved(line, a, m, kind);
      && (kind.keepsSelf || m == 0 ==> after == line)
      && (!kind.keepsSelf && m > 0 ==> after[a] == Moved)
  {
  }

  lemma InsideLine<T>(line: seq<Cell<T>>, a: int, d: int, n: int, kind: Kind)
    requires AllLive(line, a, n) && AllRaw(line, d, n)
    ensures 0 <= n && 0 <= a <= a + n <= |line| && 0 <= d <= d + n <= |line|
    ensures Shifted(line, a, 0, d, kind) == line
  {
  }

  lemma MoveOut<T>(line: seq<Cell<T>>, a: int, d: int, n: int, j: nat, kind: Kind)
    requires AllLive(line, a, n) && AllRaw(line, d, n) && j < n
    ensures a + j < |line| && d + j < |line|
    ensures var l := Shifted(line, a, j, d, kind);
      && l[a + j].Live? && l[d + j].Raw?
      && l[d + j := l[a + j]][a + j := Left(l[a + j], kind)] == Shifted(line, a, j + 1, d, kind)
  {
    LiveIsNotRaw(line, a, d, n);
    ShiftedFurther(line, a, j, d, kind);
  }

  // ---------- the four cases of insertion ----------

  /** Old prefix, new elements, old suffix. */
  function Inserted<T>(xs: seq<T>, e: nat, ys: seq<T>): (r: seq<T>)
    requires e <= |xs|
    ensures |r| == |xs| + |ys| && (ys == [] ==> r == xs)
  {
    xs[..e] + ys + xs[e..]
  }

  /** No more new elements than there are before the place. */
  lemma FrontLong<T>(line: seq<Cell<T>>, s: nat, xs: seq<T>, e: nat, ys: seq<T>, kind: Kind)
    requires Holds(line, s, xs) && 0 < |ys| <= e <= |xs| && |ys| <= s
    ensures var n := |ys|;
      && AllLive(line, s, n) && AllRaw(line, s - n, n)
      && var one := Shifted(line, s, n, s - n, kind);
      && AllLive(one, s + n, e - n) && NoneRaw(one, s, e - n)
      && var two := Shifted(one, s + n, e - n, s, kind);
      && NoneRaw(two, s + e - n, n)
      && Holds(Written(two, s + e - n, ys), s - n, Inserted(xs, e, ys))
  {
  }

  /** No new elements at all: those before the place are moved onto themselves. */
  lemma FrontNone<T>(line: seq<Cell<T>>, s: nat, xs: seq<T>, e: nat, kind: Kind)
    requires Holds(line, s, xs) && e <= |xs|
    ensures AllLive(line, s, 0) && AllRaw(line, s, 0) && Shifted(line, s, 0, s, kind) == line
    ensures AllLive(line, s, e) && NoneRaw(line, s, e)
    ensures var after := SelfMoved(line, s, e, kind);
      NoneRaw(after, s + e, 0) && Written(after, s + e, []) == after
  {
  }

  /** Both together: room made in front, by moving the elements before the place, or none made. */
  lemma FrontLongOrNone<T>(line: seq<Cell<T>>, s: nat, xs: seq<T>, e: nat, ys: seq<T>, kind: Kind)
    requires Holds(line, s, xs) && |ys| <= e <= |xs| && |ys| <= s
    ensures var n := |ys|;
      && AllLive(line, s, n) && AllRaw(line, s - n, n)
      && var one := Shifted(line, s, n, s - n, kind);
      && AllLive(one, s + n, e - n) && NoneRaw(one, s, e - n)
      && var two := AfterMove(one, s + n, e - n, s, kind);
      && NoneRaw(two, s + e - n, n)
      && var three := Written(two, s + e - n, ys);
      if n > 0 || kind.keepsSelf || e == 0 then Holds(three, s - n, Inserted(xs, e, ys))
      else s < |three| && three[s].Moved?
  {
    if ys != [] {
      FrontLong(line, s, xs, e, ys, kind);
    } else {
      FrontNone(line, s, xs, e, kind);
      SelfMoveKeeps(line, s, xs, s, e, kind);
    }
  }

  /** More new elements than there are before the place. */
  lemma FrontShort<T>(line: seq<Cell<T>>, s: nat, xs: seq<T>, e: nat, ys: seq<T>, kind: Kind)
    requires Holds(line, s, xs) && e < |ys| <= s && e <= |xs|
    ensures var n := |ys|;
      && AllRaw(line, s - (n - e), n - e)
      && var one := Written(line, s - (n - e), ys[..n - e]);
      && AllLive(one, s, e) && AllRaw(one, s - n, e)
      && var two := Shifted(one, s, e, s - n, kind);
      && NoneRaw(two, s, e)
      && Holds(Written(two, s, ys[n - e..]), s - n, Inserted(xs, e, ys))
  {
  }

  /** No more new elements than there are behind the place. */
  lemma BackLong<T>(line: seq<Cell<T>>, s: nat, xs: seq<T>, e: nat, ys: seq<T>, kind: Kind)
    requires Holds(line, s, xs) && e <= |xs| && 0 < |ys| <= |xs| - e && s + |xs| + |ys| <= |line|
    ensures var n, f := |ys|, s + |xs|;
      && AllLive(line, f - n, n) && AllRaw(line, f, n)
      && var one := Shifted(line, f - n, n, f, kind);
      && AllLive(one, s + e, |xs| - e - n) && NoneRaw(one, s + e + n, |xs| - e - n)
      && var two := Shifted(one, s + e, |xs| - e - n, s + e + n, kind);
      && NoneRaw(two, s + e, n)
      && Holds(Written(two, s + e, ys), s, Inserted(xs, e, ys))
  {
  }

  /** No new elements at all: those behind the place are moved onto themselves. */
  lemma BackNone<T>(line: seq<Cell<T>>, s: nat, xs: seq<T>, e: nat, kind: Kind)
    requires Holds(line, s, xs) && e <= |xs|
    ensures var f := s + |xs|; AllLive(line, f, 0) && AllRaw(line, f, 0) && Shifted(line, f, 0, f, kind) == line
    ensures AllLive(line, s + e, |xs| - e) && NoneRaw(line, s + e, |xs| - e)
    ensures var after := SelfMoved(line, s + e, |xs| - e, kind);
      NoneRaw(after, s + e, 0) && Written(after, s + e, []) == after
  {
  }

  lemma BackLongOrNone<T>(line: seq<Cell<T>>, s: nat, xs: seq<T>, e: nat, ys: seq<T>, kind: Kind)
    requires Holds(line, s, xs) && e <= |xs| && |ys| <= |xs| - e && s + |xs| + |ys| <= |line|
    ensures var n, f := |ys|, s + |xs|;
      && AllLive(line, f - n, n) && AllRaw(line, f, n)
      && var one := Shifted(line, f - n, n, f, kind);
      && AllLive(one, s + e, |xs| - e - n) && NoneRaw(one, s + e + n, |xs| - e - n)
      && var two := AfterMove(one, s + e, |xs| - e - n, s + e + n, kind);
      && NoneRaw(two, s + e, n)
      && var three := Written(two, s + e, ys);
      if n > 0 || kind.keepsSelf || e == |xs| then Holds(three, s, Inserted(xs, e, ys))
      else s + e < |three| && three[s + e].Moved?
  {
    if ys != [] {
      BackLong(line, s, xs, e, ys, kind);
    } else {
      BackNone(line, s, xs, e, kind);
      SelfMoveKeeps(line, s, xs, s + e, |xs| - e, kind);
    }
  }

  /** More new elements than there are behind the place. */
  lemma BackShort<T>(line: seq<Cell<T>>, s: nat, xs: seq<T>, e: nat, ys: seq<T>, kind: Kind)
    requires Holds(line, s, xs) && e <= |xs| && |xs| - e < |ys| && s + |xs| + |ys| <= |line|
    ensures var n, f, after := |ys|, s + |xs|, |xs| - e;
      && AllRaw(line, f, n - after)
      && var one := Written(line, f, ys[after..]);
      && AllLive(one, s + e, after) && AllRaw(one, f + n - after, after)
      && var two := Shifted(one, s + e, after, f + n - after, kind);
      && NoneRaw(two, s + e, after)
      && Holds(Written(two, s + e, ys[..after]), s, Inserted(xs, e, ys))
  {
  }

  lemma HeldAt<T>(line: seq<Cell<T>>, s: nat, xs: seq<T>, k: nat)
    requires Holds(line, s, xs) && k < |xs|
    ensures line[s + k] == Live(xs[k])
  {
  }

  // ---------- inserting a copy of an element of the deque's own ----------

  lemma WrittenOne<T>(line: seq<Cell<T>>, d: nat, v: T)
    requires d < |line|
    ensures Written(line, d, [v]) == line[d := Live(v)]
  {
  }

  /** What a reference to element `k` shows once the elements have made room at `e`: another
  element, if it lies among those that were moved. At the gap itself, where an element was
  moved from and none to, it shows what the move has left there. */
  function Shown(e: nat, k: nat, len: nat, kind: Kind): (c: Cell<nat>)
    ensures k < len && e <= len && c.Live? ==> c.value < len
    ensures c != Raw
  {
    if e < len / 2 then
      if k + 1 < e then Live(k + 1) else if k + 1 == e then Left(Live(k), kind) else Live(k)
    else
      if k > e then Live(k - 1) else if k == e then Left(Live(k), kind) else Live(k)
  }

  /** The same for `insert` as a whole: an element put in vacant cells at either end moves none. */
  function OwnShown(e: nat, k: nat, len: nat, vacantInFront: bool, kind: Kind): (c: Cell<nat>)
    ensures k < len && e <= len && c.Live? ==> c.value < len
  {
    if e == 0 && vacantInFront then Live(k) else Shown(e, k, len, kind)
  }

  /** Whether the result is what was asked for: a copy of element `k` at `e`. */
  ghost predicate OwnCopyIsRight<T>(xs: seq<T>, e: nat, k: nat, vacantInFront: bool, kind: Kind)
    requires k < |xs| && e <= |xs|
  {
    var shown := OwnShown(e, k, |xs|, vacantInFront, kind);
    shown.Live? && Inserted(xs, e, [xs[shown.value]]) == Inserted(xs, e, [xs[k]])
  }

  /** It is if an element is inserted that equals element `k`. */
  lemma RightIfEqual<T>(xs: seq<T>, e: nat, k: nat, vacantInFront: bool, kind: Kind)
    requires k < |xs| && e <= |xs|
    ensures var shown := OwnShown(e, k, |xs|, vacantInFront, kind);
      OwnCopyIsRight(xs, e, k, vacantInFront, kind) <==> shown.Live? && xs[shown.value] == xs[k]
  {
    var shown := OwnShown(e, k, |xs|, vacantInFront, kind);
    if shown.Live? {
      assert Inserted(xs, e, [xs[shown.value]])[e] == xs[shown.value];
      assert Inserted(xs, e, [xs[k]])[e] == xs[k];
    }
  }

  function Marked<T>(len: nat, k: nat, x: T, y: T): (xs: seq<T>)
    ensures |xs| == len
  {
    seq(len, i => if i == k then x else y)
  }

  /** The places whose elements stay where they are, or leave their value there: the gap too, if
  the element type keeps the value of an object moved from. */
  predicate StaysInPlace(e: nat, k: nat, len: nat, kind: Kind) {
    if e < len / 2 then e <= k || (kind.keepsSource && k + 1 == e)
    else k < e || (kind.keepsSource && k == e)
  }

  /** Whatever the elements are, it is right if element `k` stays in its place; and if it does
  not, there are elements with which it is wrong. */
  lemma RightForAllElements<T(!new)>(e: nat, k: nat, len: nat, vacantInFront: bool, kind: Kind, x: T, y: T)
    requires k < len && e <= len && x != y
    ensures (forall xs: seq<T> :: |xs| == len ==> OwnCopyIsRight(xs, e, k, vacantInFront, kind)) <==>
      (e == 0 && vacantInFront) || StaysInPlace(e, k, len, kind)
  {
    if (e == 0 && vacantInFront) || StaysInPlace(e, k, len, kind) {
      assert forall xs: seq<T> :: |xs| == len ==> OwnCopyIsRight(xs, e, k, vacantInFront, kind);
    } else {
      RightIfEqual(Marked(len, k, x, y), e, k, vacantInFront, kind);
      assert !OwnCopyIsRight(Marked(len, k, x, y), e, k, vacantInFront, kind);
    }
  }

  function ShownIn<T>(xs: seq<T>, c: Cell<nat>): Cell<T>
    requires c.Live? ==> c.value < |xs|
  {
    if c.Live? then Live(xs[c.value]) else Moved
  }

  /** The cells once room for one element has been made, in the first half. */
  function FrontRoom<T>(line: seq<Cell<T>>, s: nat, e: nat, kind: Kind): seq<Cell<T>>
    requires 0 < s && 0 < e && s + e <= |line|
  {
    Shifted(Shifted(line, s, 1, s - 1, kind), s + 1, e - 1, s, kind)
  }

  lemma FrontOpened<T>(line: seq<Cell<T>>, s: nat, xs: seq<T>, e: nat, k: nat, kind: Kind)
    requires Holds(line, s, xs) && 0 < e < |xs| / 2 && 0 < s && k < |xs|
    ensures var two := FrontRoom(line, s, e, kind);
      && two[s + k] == ShownIn(xs, Shown(e, k, |xs|, kind))
      && |two| == |line|
  {
  }

  lemma FrontFilled<T>(line: seq<Cell<T>>, s: nat, xs: seq<T>, e: nat, v: T, kind: Kind)
    requires Holds(line, s, xs) && 0 < e <= |xs| && 0 < s
    ensures Holds(FrontRoom(line, s, e, kind)[s + e - 1 := Live(v)], s - 1, Inserted(xs, e, [v]))
  {
    FrontLong(line, s, xs, e, [v], kind);
    WrittenOne(FrontRoom(line, s, e, kind), s + e - 1, v);
  }

  /** The same in the second half. */
  function BackRoom<T>(line: seq<Cell<T>>, s: nat, len: nat, e: nat, kind: Kind): seq<Cell<T>>
    requires e < len && s + len < |line|
  {
    Shifted(Shifted(line, s + len - 1, 1, s + len, kind), s + e, len - e - 1, s + e + 1, kind)
  }

  lemma BackOpened<T>(line: seq<Cell<T>>, s: nat, xs: seq<T>, e: nat, k: nat, kind: Kind)
    requires Holds(line, s, xs) && |xs| / 2 <= e < |xs| && s + |xs| < |line| && k < |xs|
    ensures var two := BackRoom(line, s, |xs|, e, kind);
      two[s + k] == ShownIn(xs, Shown(e, k, |xs|, kind)) && |two| == |line|
  {
  }

  lemma BackFilled<T>(line: seq<Cell<T>>, s: nat, xs: seq<T>, e: nat, v: T, kind: Kind)
    requires Holds(line, s, xs) && e < |xs| && s + |xs| < |line|
    ensures Holds(BackRoom(line, s, |xs|, e, kind)[s + e := Live(v)], s, Inserted(xs, e, [v]))
  {
    BackLong(line, s, xs, e, [v], kind);
    WrittenOne(BackRoom(line, s, |xs|, e, kind), s + e, v);
  }

  // ---------- erasing ----------

  function Erased<T>(xs: seq<T>, e: nat, n: nat): (r: seq<T>)
    requires e + n <= |xs|
    ensures |r| == |xs| - n
  {
    xs[..e] + xs[e + n..]
  }

  lemma EraseFront<T>(line: seq<Cell<T>>, s: nat, xs: seq<T>, e: nat, n: nat, kind: Kind)
    requires Holds(line, s, xs) && e + n <= |xs| && n > 0
    ensures AllLive(line, s, e) && NoneRaw(line, s + n, e)
    ensures var one := Shifted(line, s, e, s + n, kind);
      && NoneRaw(one, s, n) && AllRaw(Cleared(one, s, n), 0, s + n)
      && Holds(Cleared(one, s, n), s + n, Erased(xs, e, n))
  {
  }

  lemma EraseBack<T>(line: seq<Cell<T>>, s: nat, xs: seq<T>, e: nat, n: nat, kind: Kind)
    requires Holds(line, s, xs) && e + n <= |xs| && n > 0
    ensures var after := |xs| - e - n;
      && AllLive(line, s + e + n, after) && NoneRaw(line, s + e, after)
      && var one := Shifted(line, s + e + n, after, s + e, kind);
      && NoneRaw(one, s + |xs| - n, n) && AllRaw(Cleared(one, s + |xs| - n, n), s + |xs| - n, |line| - (s + |xs| - n))
      && Holds(Cleared(one, s + |xs| - n, n), s, Erased(xs, e, n))
  {
  }

  lemma EraseOneFront<T>(line: seq<Cell<T>>, s: nat, xs: seq<T>, e: nat, kind: Kind)
    requires Holds(line, s, xs) && e < |xs|
    ensures AllLive(line, s, e) && NoneRaw(line, s + 1, e)
    ensures var one := Shifted(line, s, e, s + 1, kind);
      !one[s].Raw? && Holds(one[s := Raw], s + 1, Erased(xs, e, 1))
  {
    EraseFront(line, s, xs, e, 1, kind);
    ClearedOne(Shifted(line, s, e, s + 1, kind), s);
  }

  lemma EraseOneBack<T>(line: seq<Cell<T>>, s: nat, xs: seq<T>, e: nat, kind: Kind)
    requires Holds(line, s, xs) && e < |xs|
    ensures var after, f := |xs| - e - 1, s + |xs| - 1;
      && AllLive(line, s + e + 1, after) && NoneRaw(line, s + e, after)
      && var one := Shifted(line, s + e + 1, after, s + e, kind);
      !one[f].Raw? && Holds(one[f := Raw], s, Erased(xs, e, 1))
  {
    EraseBack(line, s, xs, e, 1, kind);
    ClearedOne(Shifted(line, s + e + 1, |xs| - e - 1, s + e, kind), s + |xs| - 1);
  }

  lemma ErasedAll<T>(xs: seq<T>)
    ensures Erased(xs, 0, |xs|) == []
  {
  }

  /** Nothing to erase: the elements before the place, or behind it, are moved onto themselves. */
  lemma EraseNone<T>(line: seq<Cell<T>>, s: nat, xs: seq<T>, e: nat, kind: Kind)
    requires Holds(line, s, xs) && e <= |xs|
    ensures Erased(xs, e, 0) == xs
    ensures AllLive(line, s, e) && NoneRaw(line, s, e)
    ensures var after := SelfMoved(line, s, e, kind);
      NoneRaw(after, s, 0) && Cleared(after, s, 0) == after && AllRaw(after, 0, s)
    ensures AllLive(line, s + e, |xs| - e) && NoneRaw(line, s + e, |xs| - e)
    ensures var after, f := SelfMoved(line, s + e, |xs| - e, kind), s + |xs|;
      NoneRaw(after, f, 0) && Cleared(after, f, 0) == after && AllRaw(after, f, |line| - f)
  {
  }

  /** Both together: the elements before the range moved over it, or onto themselves. */
  lemma FrontClosed<T>(line: seq<Cell<T>>, s: nat, xs: seq<T>, e: nat, n: nat, kind: Kind)
    requires Holds(line, s, xs) && e + n <= |xs|
    ensures AllLive(line, s, e) && NoneRaw(line, s + n, e) && s + |xs| <= |line|
    ensures var one := AfterMove(line, s, e, s + n, kind);
      && NoneRaw(one, s, n)
      && var two := Cleared(one, s, n);
      && AllRaw(two, 0, s + n)
      && if n > 0 || kind.keepsSelf || e == 0 then Holds(two, s + n, Erased(xs, e, n)) else two == one && two[s].Moved?
  {
    if n > 0 {
      EraseFront(line, s, xs, e, n, kind);
    } else {
      EraseNone(line, s, xs, e, kind);
      SelfMoveKeeps(line, s, xs, s, e, kind);
    }
  }

  /** The elements behind the range moved over it, or onto themselves. */
  lemma BackClosed<T>(line: seq<Cell<T>>, s: nat, xs: seq<T>, e: nat, n: nat, kind: Kind)
    requires Holds(line, s, xs) && e + n <= |xs|
    ensures var after := |xs| - e - n; AllLive(line, s + e + n, after) && NoneRaw(line, s + e, after)
    ensures s + |xs| <= |line|
    ensures var one, f := AfterMove(line, s + e + n, |xs| - e - n, s + e, kind), s + |xs|;
      && NoneRaw(one, f - n, n)
      && var two := Cleared(one, f - n, n);
      && AllRaw(two, f - n, |line| - (f - n))
      && if n > 0 || kind.keepsSelf || e == |xs| then Holds(two, s, Erased(xs, e, n))
         else two == one && two[s + e].Moved?
  {
    if n > 0 {
      EraseBack(line, s, xs, e, n, kind);
    } else {
      EraseNone(line, s, xs, e, kind);
      SelfMoveKeeps(line, s, xs, s + e, |xs| - e, kind);
    }
  }

  // ---------- one element at either end ----------

  lemma Appended<T>(line: seq<Cell<T>>, s: nat, xs: seq<T>, x: T)
    requires Holds(line, s, xs) && s + |xs| < |line|
    ensures line[s + |xs|] == Raw && Holds(line[s + |xs| := Live(x)], s, xs + [x])
  {
  }

  lemma Prepended<T>(line: seq<Cell<T>>, s: nat, xs: seq<T>, x: T)
    requires Holds(line, s, xs) && s > 0
    ensures line[s - 1] == Raw && Holds(line[s - 1 := Live(x)], s - 1, [x] + xs)
  {
  }

  lemma LastDropped<T>(line: seq<Cell<T>>, s: nat, xs: seq<T>)
    requires Holds(line, s, xs) && |xs| > 0
    ensures var k := s + |xs| - 1; line[k].Live? && Holds(line[k := Raw], s, xs[..|xs| - 1])
  {
  }

  lemma FirstDropped<T>(line: seq<Cell<T>>, s: nat, xs: seq<T>)
    requires Holds(line, s, xs) && |xs| > 0
    ensures line[s].Live? && Holds(line[s := Raw], s + 1, xs[1..])
  {
  }

  lemma InsertedAtEnds<T>(xs: seq<T>, x: T)
    ensures Inserted(xs, |xs|, [x]) == xs + [x] && Inserted(xs, 0, [x]) == [x] + xs
  {
  }

  lemma LastTrimmed<T>(line: seq<Cell<T>>, s: nat, rest: seq<T>, f: nat)
    requires s + |rest| == f < |line| && Holds(line[f := Raw], s, rest)
    ensures AllRaw(line, f + 1, |line| - f - 1) && Holds(line[..f + 1][f := Raw], s, rest)
  {
    assert forall k :: 0 <= k < |line| && k != f ==> line[k] == line[f := Raw][k];
  }

  lemma FirstTrimmed<T>(line: seq<Cell<T>>, s: nat, rest: seq<T>)
    requires s < |line| && Holds(line[s := Raw], s + 1, rest)
    ensures AllRaw(line[s := Raw], 0, s + 1) && Holds(line[s := Raw][s + 1..], 0, rest)
  {
  }

  /** Storage given up at either end. */
  lemma HoldsTrimmed<T>(line: seq<Cell<T>>, s: nat, xs: seq<T>, k: nat, m: nat)
    requires Holds(line, s, xs) && k <= s && s + |xs| <= m <= |line|
    ensures AllRaw(line, 0, k) && Holds(line[k..], s - k, xs)
    ensures AllRaw(line, m, |line| - m) && Holds(line[..m], s, xs)
  {
  }

  lemma ClearedAll<T>(cells: seq<Cell<T>>, a: nat, n: nat)
    requires a + n <= |cells| && forall k :: 0 <= k < |cells| && !(a <= k < a + n) ==> cells[k] == Raw
    ensures Cleared(cells, a, n) == Raws(|cells|)
  {
  }

  lemma ClearedOne<T>(line: seq<Cell<T>>, a: nat)
    requires a < |line|
    ensures Cleared(line, a, 1) == line[a := Raw]
  {
  }

  // ---------- what survives an empty insertion or erasure ----------

  /** When inserting `n` elements at `e` keeps every element: not if none are inserted, and
  there are elements to move onto themselves, and that does not keep their values. */
  predicate InsertKeeps(kind: Kind, n: nat, e: nat, len: nat) {
    n > 0 || kind.keepsSelf || (if e < len / 2 then e == 0 else e == len)
  }

  predicate EraseKeeps(kind: Kind, n: nat, e: nat, len: nat) {
    n > 0 || kind.keepsSelf || (if e < len - e then e == 0 else e == len)
  }
}
