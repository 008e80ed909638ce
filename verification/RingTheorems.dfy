/** What holds of every run of the ring: first in first out, safe counts, disjoint copies,
and when a side can be kept waiting. */
module RingTheorems {
  import opened Remainders
  import opened RingArithmetic
  import opened RingProtocol
  import opened RingInvariant

  // ---------- safety over whole runs ----------

  lemma StartHasInv(l: Layout, mem: Memory)
    requires l.Valid()
    ensures Inv(l, Start(l, mem))
  {
    ModIs(0, 0, 0, l.n);
  }

  lemma {:induction false} RunKeepsInv(l: Layout, from: State, steps: seq<Step>, s: State)
    requires l.Valid() && Inv(l, from) && Run(l, from, steps, s)
    ensures Inv(l, s)
    decreases |steps|
  {
    if steps != [] {
      StepKeepsInv(l, from, steps[0]);
      RunKeepsInv(l, Apply(l, from, steps[0]), steps[1..], s);
    }
  }

  /** The bytes handed to `WriteData` in the course of a run. */
  function Sent(steps: seq<Step>): seq<Byte> {
    if steps == [] then []
    else SentBy(steps[0]) + Sent(steps[1..])
  }

  function SentBy(step: Step): seq<Byte> {
    if step.WCall? then step.data else []
  }

  lemma {:induction false} RunHandsOver(l: Layout, from: State, steps: seq<Step>, s: State)
    requires l.Valid() && Run(l, from, steps, s)
    ensures s.w.handed == from.w.handed + Sent(steps)
    decreases |steps|
  {
    if steps != [] {
      var next := Apply(l, from, steps[0]);
      RunHandsOver(l, next, steps[1..], s);
      assert next.w.handed == from.w.handed + SentBy(steps[0]);
    }
  }

  lemma RunIsDone(l: Layout, s: State)
    requires l.Valid()
    ensures Run(l, s, [], s)
  {
  }

  lemma RunExtends(l: Layout, from: State, step: Step, steps: seq<Step>, s: State)
    requires l.Valid() && Enabled(from, step) && Run(l, Apply(l, from, step), steps, s)
    ensures Run(l, from, [step] + steps, s)
  {
    assert ([step] + steps)[1..] == steps;
  }

  lemma {:induction false} RunsJoin(l: Layout, from: State, steps: seq<Step>, mid: State, more: seq<Step>, s: State)
    requires l.Valid() && Run(l, from, steps, mid) && Run(l, mid, more, s)
    ensures Run(l, from, steps + more, s) && Sent(steps + more) == Sent(steps) + Sent(more)
    decreases |steps|
  {
    hide Apply, Enabled, Sent;
    SentJoins(steps, more);
    if steps == [] {
      assert steps + more == more;
    } else {
      var next := Apply(l, from, steps[0]);
      RunsJoin(l, next, steps[1..], mid, more, s);
      hide *;
      RunExtends(l, from, steps[0], steps[1..] + more, s);
      assert [steps[0]] + (steps[1..] + more) == steps + more;
    }
  }

  lemma SentFirst(steps: seq<Step>)
    requires steps != []
    ensures Sent(steps) == SentBy(steps[0]) + Sent(steps[1..])
  {
  }

  lemma {:induction false} SentJoins(steps: seq<Step>, more: seq<Step>)
    ensures Sent(steps + more) == Sent(steps) + Sent(more)
  {
    if steps == [] {
      assert steps + more == more && [] + Sent(more) == Sent(more);
    } else {
      SentJoins(steps[1..], more);
      hide *;
      SentFirst(steps);
      SentFirst(steps + more);
      assert (steps + more)[1..] == steps[1..] + more && (steps + more)[0] == steps[0];
      Associate(SentBy(steps[0]), Sent(steps[1..]), Sent(more));
    }
  }

  lemma Associate(a: seq<Byte>, b: seq<Byte>, c: seq<Byte>)
    ensures (a + b) + c == a + (b + c)
  {
  }

  lemma DeliveredOf(l: Layout, s: State)
    requires l.Valid() && Inv(l, s)
    ensures Fifo(s)
  {
    hide WordsOk, OrderOk, WriterOk, ReaderOk, CellsOk, Fifo;
  }

  /** Neither side's step ever takes one from the other: all interleavings are runs. */
  lemma NeitherSideWaits(l: Layout, s: State, step: Step, other: Step)
    requires l.Valid() && Enabled(s, step) && Enabled(s, other) && IsWriterStep(step) != IsWriterStep(other)
    ensures Enabled(Apply(l, s, step), other)
  {
    hide AdvanceWord, FreeCount, AvailableCount, StartWrite, StartRead, UpTo, Load, Copied;
  }

  /** Nor is an order prescribed to a side: between calls it may poll, or call for any amount its
  count allows, and of the bytes of a copy any may be next. */
  lemma SidesAreFree(l: Layout, s: State, data: seq<Byte>, amount: nat, offset: nat)
    requires l.Valid() && Inv(l, s)
    ensures s.w.pc.WIdle? ==> Enabled(s, WPoll) && (|data| <= s.w.credit ==> Enabled(s, WCall(data)))
    ensures s.r.pc.RIdle? ==> Enabled(s, RPoll) && (amount <= s.r.credit ==> Enabled(s, RCall(amount)))
    ensures s.w.pc.WCopy? && offset in s.w.pc.todo ==> Enabled(s, WCopyByte(offset))
    ensures s.r.pc.RCopy? && offset in s.r.pc.todo ==> Enabled(s, RCopyByte(offset))
  {
    hide WordsOk, OrderOk, CellsOk, Fifo, ReaderOk;
  }

  /** Whatever the interleaving, what the reader has copied out is a prefix of what the
  writer was handed: nothing lost, duplicated, reordered or stale. That covers the bytes of
  a copy still in progress as well. */
  lemma FirstInFirstOut(l: Layout, mem: Memory, steps: seq<Step>, s: State)
    requires l.Valid() && Run(l, Start(l, mem), steps, s)
    ensures s.r.out <= Sent(steps)
    ensures s.r.pc.RCopy? ==> forall j :: j in s.r.pc.sink ==>
      |s.r.out| + j < |Sent(steps)| && s.r.pc.sink[j] == Sent(steps)[|s.r.out| + j]
  {
    hide Run, Inv, Sent;
    StartHasInv(l, mem);
    RunKeepsInv(l, Start(l, mem), steps, s);
    RunHandsOver(l, Start(l, mem), steps, s);
    DeliveredOf(l, s);
    assert s.w.handed == Sent(steps);
  }

  /** In every run the positions stay in order, the producer stays less than one turn ahead
  of the slowest consumer copy, and the words are the positions modulo `n`. */
  lemma PositionsInEveryRun(l: Layout, mem: Memory, steps: seq<Step>, s: State)
    requires l.Valid() && Run(l, Start(l, mem), steps, s)
    ensures 0 <= s.r.Second() <= s.r.First() <= s.w.Second() <= s.w.First() <= s.r.Second() + l.n - 1
    ensures Load(s.mem, l.ProducerAddress()) == s.w.First() % l.n
    ensures Load(s.mem, l.SecondProducerAddress()) == s.w.Second() % l.n
    ensures Load(s.mem, l.ConsumerAddress()) == s.r.First() % l.n
    ensures Load(s.mem, l.SecondConsumerAddress()) == s.r.Second() % l.n
    ensures forall i {:trigger l.Cell(i)} :: s.r.First() <= i < s.w.First() ==>
      Load(s.mem, l.Cell(i)) == s.w.handed[i]
  {
    StartHasInv(l, mem);
    RunKeepsInv(l, Start(l, mem), steps, s);
    forall i | s.r.First() <= i < s.w.First()
      ensures Load(s.mem, l.Cell(i)) == s.w.handed[i]
    {
      assert InCell(s.w, i);
    }
  }

  // ---------- the counts ----------

  /** What is left of a count is never more than the room there is (or the unread bytes there
  are) beyond what the side has taken on already, at any moment of any run. */
  lemma PermissionsAreSafe(l: Layout, mem: Memory, steps: seq<Step>, s: State)
    requires l.Valid() && Run(l, Start(l, mem), steps, s)
    ensures 0 <= s.w.credit <= l.n - 1 - (s.w.First() + s.w.Unpublished() - s.r.Second())
    ensures 0 <= s.r.credit <= s.w.Second() - (s.r.First() + s.r.Unreleased())
  {
    StartHasInv(l, mem);
    RunKeepsInv(l, Start(l, mem), steps, s);
  }

  predicate ReaderOnly(steps: seq<Step>) {
    forall i :: 0 <= i < |steps| ==> !IsWriterStep(steps[i])
  }

  predicate WriterOnly(steps: seq<Step>) {
    forall i :: 0 <= i < |steps| ==> IsWriterStep(steps[i])
  }

  lemma {:induction false} ReaderLeavesWriter(l: Layout, from: State, steps: seq<Step>, s: State)
    requires l.Valid() && Run(l, from, steps, s) && ReaderOnly(steps)
    ensures s.w == from.w
    decreases |steps|
  {
    if steps != [] {
      ReaderLeavesWriter(l, Apply(l, from, steps[0]), steps[1..], s);
    }
  }

  lemma {:induction false} WriterLeavesReader(l: Layout, from: State, steps: seq<Step>, s: State)
    requires l.Valid() && Run(l, from, steps, s) && WriterOnly(steps)
    ensures s.r == from.r
    decreases |steps|
  {
    if steps != [] {
      WriterLeavesReader(l, Apply(l, from, steps[0]), steps[1..], s);
    }
  }

  /** The count the writer returns is the room there was at its last load, however far the
  reader gets before the subtraction, and it is no more than the room at the return. */
  lemma FreeCountIsExactAtLastLoad(l: Layout, s: State, meanwhile: seq<Step>, u: State)
    requires l.Valid() && Inv(l, s) && s.w.pc.WLoadFirst?
    requires Apply(l, s, WDoLoadFirst).w.pc.WCount?
    requires Run(l, Apply(l, s, WDoLoadFirst), meanwhile, u) && ReaderOnly(meanwhile)
    ensures u.w.pc.WCount?
    ensures var returned := Apply(l, u, WDoCount).w.credit;
      && returned == l.n - 1 - (s.w.First() - s.r.First())
      && returned <= l.n - 1 - (u.w.First() - u.r.Second())
  {
    var t := Apply(l, s, WDoLoadFirst);
    WriterMatchIsCurrent(l, s);
    WriterPolls(l, s, WDoLoadFirst);
    RunKeepsInv(l, t, meanwhile, u);
    ReaderLeavesWriter(l, t, meanwhile, u);
    WriterCounts(l, u);
  }

  /** The count the reader returns is what there was to read at its last load. */
  lemma AvailableCountIsExactAtLastLoad(l: Layout, s: State, meanwhile: seq<Step>, u: State)
    requires l.Valid() && Inv(l, s) && s.r.pc.RLoadFirst?
    requires Apply(l, s, RDoLoadFirst).r.pc.RCount?
    requires Run(l, Apply(l, s, RDoLoadFirst), meanwhile, u) && WriterOnly(meanwhile)
    ensures u.r.pc.RCount?
    ensures var returned := Apply(l, u, RDoCount).r.credit;
      && returned == s.w.First() - s.r.First()
      && returned <= u.w.Second() - u.r.First()
  {
    var t := Apply(l, s, RDoLoadFirst);
    ReaderMatchIsCurrent(l, s);
    ReaderPolls(l, s, RDoLoadFirst);
    RunKeepsInv(l, t, meanwhile, u);
    WriterLeavesReader(l, t, meanwhile, u);
    ReaderCounts(l, u);
  }

  /** With both sides idle the two counts share out exactly `n - 1` bytes. */
  lemma CountsShareOutTheRing(l: Layout, s: State)
    requires l.Valid() && Inv(l, s) && s.w.pc.WIdle? && s.r.pc.RIdle?
    ensures var free := FreeCount(Load(s.mem, l.ConsumerAddress()), Load(s.mem, l.ProducerAddress()), l.n);
      var available := AvailableCount(Load(s.mem, l.ProducerAddress()), Load(s.mem, l.ConsumerAddress()), l.n);
      && free + available == l.n - 1
      && available == |s.w.handed| - |s.r.out|
  {
    FreeCountIsExact(s.r.First(), s.w.First(), l.n);
    AvailableCountIsExact(s.r.First(), s.w.First(), l.n);
  }

  // ---------- the copies ----------

  /** The addresses the writer may still store a byte to in its current call. */
  ghost predicate WriterMayTouch(l: Layout, s: State, address: int)
    requires l.Valid()
  {
    exists i {:trigger l.Cell(i)} ::
      s.w.First() <= i < |s.w.handed| && !InCell(s.w, i) && address == l.Cell(i)
  }

  /** The addresses the reader may still load a byte from in its current call. */
  ghost predicate ReaderMayTouch(l: Layout, s: State, address: int)
    requires l.Valid()
  {
    exists i {:trigger l.Cell(i)} ::
      s.r.First() <= i < s.r.First() + s.r.Unreleased() && address == l.Cell(i)
  }

  /** While both copy, no address is in reach of both, and none is at or past the words. */
  lemma CopiesNeverMeet(l: Layout, s: State, address: int)
    requires l.Valid() && Inv(l, s)
    ensures !(WriterMayTouch(l, s, address) && ReaderMayTouch(l, s, address))
    ensures WriterMayTouch(l, s, address) || ReaderMayTouch(l, s, address) ==>
      l.base <= address < l.base + l.n
  {
    if WriterMayTouch(l, s, address) && ReaderMayTouch(l, s, address) {
      var i :| s.w.First() <= i < |s.w.handed| && address == l.Cell(i);
      var j :| s.r.First() <= j < s.r.First() + s.r.Unreleased() && address == l.Cell(j);
      CellsDiffer(l, i, j);
    }
  }

  /** The byte steps go nowhere else. */
  lemma CopiesStayInReach(l: Layout, s: State, offset: nat)
    requires l.Valid() && Inv(l, s)
    ensures Enabled(s, WCopyByte(offset)) ==>
      WriterMayTouch(l, s, l.base + Load(s.mem, l.ProducerAddress()) + offset)
    ensures Enabled(s, RCopyByte(offset)) ==>
      ReaderMayTouch(l, s, l.base + Load(s.mem, l.ConsumerAddress()) + offset)
  {
    if Enabled(s, WCopyByte(offset)) {
      CellAt(l, s.w.First(), offset);
      var i := s.w.First() + offset;
      assert !InCell(s.w, i) && l.Cell(i) == l.base + Load(s.mem, l.ProducerAddress()) + offset;
    }
    if Enabled(s, RCopyByte(offset)) {
      CellAt(l, s.r.First(), offset);
      var i := s.r.First() + offset;
      assert l.Cell(i) == l.base + Load(s.mem, l.ConsumerAddress()) + offset;
    }
  }

  // ---------- waiting ----------

  /** The writer's own steps left in its current `WriteData`. */
  function WriteWork(w: Writer): nat {
    match w.pc
    case WCopy(_, rest, todo) => |todo| + 2 + (if rest == [] then 0 else |rest| + 2)
    case WStoreSecond(_, _, rest) => 1 + (if rest == [] then 0 else |rest| + 2)
    case _ => 0
  }

  /** `WriteData` waits for nobody: until it returns one of its steps is always enabled, each
  brings it one step nearer the end, and no step of the reader sets it back. */
  lemma WriteDataIsWaitFree(l: Layout, s: State, step: Step)
    requires l.Valid() && Inv(l, s) && Enabled(s, step) && (s.w.pc.WCopy? || s.w.pc.WStoreSecond?)
    ensures exists own :: IsWriterStep(own) && Enabled(s, own)
    ensures WriteWork(Apply(l, s, step).w) == WriteWork(s.w) - (if IsWriterStep(step) then 1 else 0)
    ensures WriteWork(s.w) > 0
  {
    hide WordsOk, OrderOk, ReaderOk, CellsOk, Fifo, Copied, AdvanceWord;
    match s.w.pc
    case WCopy(segment, rest, todo) =>
      if todo == {} {
        assert Enabled(s, WPublishFirst);
      } else {
        var j :| j in todo;
        assert Enabled(s, WCopyByte(j));
      }
    case WStoreSecond(_, _, rest) =>
      assert Enabled(s, WPublishSecond);
  }

  /** The reader's own steps left in its current `ReadData`. */
  function ReadWork(r: Reader): nat {
    match r.pc
    case RCopy(_, rest, todo, _) => |todo| + 2 + (if rest == 0 then 0 else rest + 2)
    case RStoreSecond(_, _, rest) => 1 + (if rest == 0 then 0 else rest + 2)
    case _ => 0
  }

  /** Neither does `ReadData`. */
  lemma ReadDataIsWaitFree(l: Layout, s: State, step: Step)
    requires l.Valid() && Inv(l, s) && Enabled(s, step) && (s.r.pc.RCopy? || s.r.pc.RStoreSecond?)
    ensures exists own :: !IsWriterStep(own) && Enabled(s, own)
    ensures ReadWork(Apply(l, s, step).r) == ReadWork(s.r) - (if IsWriterStep(step) then 0 else 1)
    ensures ReadWork(s.r) > 0
  {
    hide WordsOk, OrderOk, WriterOk, CellsOk, Fifo, Copied, AdvanceWord;
    match s.r.pc
    case RCopy(length, rest, todo, _) =>
      if todo == {} {
        assert Enabled(s, RReleaseFirst);
      } else {
        var j :| j in todo;
        assert Enabled(s, RCopyByte(j));
      }
    case RStoreSecond(_, _, rest) =>
      assert Enabled(s, RReleaseSecond);
  }

  /** Both loads of one round of the writer's poll, the reader standing still. */
  function PollRound(l: Layout, s: State): State
    requires l.Valid() && s.w.pc.WLoadSecond?
  {
    Apply(l, Apply(l, s, WDoLoadSecond), WDoLoadFirst)
  }

  /** A reader that stands still keeps the writer polling exactly when it stands between
  its two stores with bytes released; a reader stopped there for good blocks the writer
  for good, since the round then changes nothing. */
  lemma PollEndsUnlessReaderStopsMidway(l: Layout, s: State)
    requires l.Valid() && Inv(l, s) && s.w.pc.WLoadSecond?
    ensures PollRound(l, s).w.pc.WCount? <==> !(s.r.pc.RStoreSecond? && s.r.pc.stored > 0)
    ensures !PollRound(l, s).w.pc.WCount? ==> PollRound(l, s) == s
  {
    WriterPolls(l, s, WDoLoadSecond);
    WriterMatchIsCurrent(l, Apply(l, s, WDoLoadSecond));
  }

  /** Both loads of one round of the reader's poll, the writer standing still. */
  function ReadPollRound(l: Layout, s: State): State
    requires l.Valid() && s.r.pc.RLoadSecond?
  {
    Apply(l, Apply(l, s, RDoLoadSecond), RDoLoadFirst)
  }

  lemma ReadPollEndsUnlessWriterStopsMidway(l: Layout, s: State)
    requires l.Valid() && Inv(l, s) && s.r.pc.RLoadSecond?
    ensures ReadPollRound(l, s).r.pc.RCount? <==> !(s.w.pc.WStoreSecond? && s.w.pc.stored > 0)
    ensures !ReadPollRound(l, s).r.pc.RCount? ==> ReadPollRound(l, s) == s
  {
    ReaderPolls(l, s, RDoLoadSecond);
    ReaderMatchIsCurrent(l, Apply(l, s, RDoLoadSecond));
  }
}
