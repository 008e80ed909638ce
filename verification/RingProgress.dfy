/** Nothing handed over is ever stuck: from every state of every run the two sides can
finish their calls and the reader can copy out every byte handed to the writer. */
module RingProgress {
  import opened RingArithmetic
  import opened RingProtocol
  import opened RingInvariant
  import opened RingTheorems

  /** Bytes handed over that no `ReadData` has been asked for yet. */
  function Unasked(s: State): int {
    |s.w.handed| - |s.r.out| - s.r.Unreleased()
  }

  /** Steps until the reader knows of every published byte, the writer keeping quiet. */
  function PollWork(s: State): nat {
    match s.r.pc
    case RIdle => if s.r.credit == Unasked(s) then 0 else 4
    case RLoadSecond => 3
    case RLoadFirst(_, at) => if at == s.w.First() then 2 else 5
    case RCount(_, at) => if at == s.w.First() then 1 else 5
    case _ => 0
  }

  predicate InWriteData(w: Writer) {
    w.pc.WCopy? || w.pc.WStoreSecond?
  }

  predicate InReadData(r: Reader) {
    r.pc.RCopy? || r.pc.RStoreSecond?
  }

  predicate Done(s: State) {
    !InWriteData(s.w) && s.r.pc.RIdle? && Unasked(s) == 0
  }

  /** Some step that leads on: finish the writer's call, then the reader's, then poll and
  ask for the rest. */
  lemma NextStep(l: Layout, s: State) returns (step: Step)
    requires l.Valid() && Inv(l, s) && !Done(s)
    ensures Enabled(s, step) && !step.WCall? && Unasked(s) >= 0
    ensures var t := Apply(l, s, step);
      && t.w.handed == s.w.handed
      && (InWriteData(s.w) ==> IsWriterStep(step))
      && (!InWriteData(s.w) && InReadData(s.r) ==>
        t.w == s.w && Unasked(t) == Unasked(s) && ReadWork(t.r) < ReadWork(s.r))
      && (!InWriteData(s.w) && !InReadData(s.r) ==>
        && t.w == s.w && 0 <= Unasked(t)
        && (Unasked(t) < Unasked(s) ||
          (Unasked(t) == Unasked(s) && ReadWork(t.r) == ReadWork(s.r) && PollWork(t) < PollWork(s))))
  {
    hide WordsOk, CellsOk, Fifo, Copied, AdvanceWord;
    if InWriteData(s.w) {
      if s.w.pc.WStoreSecond? {
        step := WPublishSecond;
      } else if s.w.pc.todo == {} {
        step := WPublishFirst;
      } else {
        var j :| j in s.w.pc.todo;
        step := WCopyByte(j);
      }
    } else if InReadData(s.r) {
      if s.r.pc.RStoreSecond? {
        step := RReleaseSecond;
      } else if s.r.pc.todo == {} {
        step := RReleaseFirst;
      } else {
        var j :| j in s.r.pc.todo;
        step := RCopyByte(j);
      }
    } else {
      step := ReaderAsks(l, s);
    }
  }

  lemma ReaderAsks(l: Layout, s: State) returns (step: Step)
    requires l.Valid() && Inv(l, s) && !Done(s) && !InWriteData(s.w) && !InReadData(s.r)
    ensures Enabled(s, step) && !IsWriterStep(step)
    ensures var t := Apply(l, s, step);
      && t.w == s.w && 0 <= Unasked(t)
      && (Unasked(t) < Unasked(s) ||
        (Unasked(t) == Unasked(s) && ReadWork(t.r) == ReadWork(s.r) && PollWork(t) < PollWork(s)))
  {
    match s.r.pc
    case RIdle =>
      if s.r.credit == Unasked(s) {
        step := RCall(s.r.credit);
        Small64(l.n + RESERVE_SIZE - s.r.First() % l.n);
        Small64(l.n - s.r.First() % l.n);
        ReaderCalls(l, s, s.r.credit);
      } else {
        step := RPoll;
      }
    case RLoadSecond => step := RDoLoadSecond;
    case RLoadFirst(_, at) =>
      step := RDoLoadFirst;
      ReaderMatchIsCurrent(l, s);
    case RCount(_, at) =>
      step := RDoCount;
      ReaderCounts(l, s);
  }

  lemma {:induction false} EverythingCanBeDelivered(l: Layout, s: State) returns (steps: seq<Step>, t: State)
    requires l.Valid() && Inv(l, s)
    ensures Run(l, s, steps, t) && Sent(steps) == []
    ensures t.w.handed == s.w.handed && t.r.out == s.w.handed && Done(t)
    decreases if InWriteData(s.w) then 1 else 0, WriteWork(s.w), Unasked(s), ReadWork(s.r), PollWork(s)
  {
    if Done(s) {
      steps, t := [], s;
    } else {
      var step := NextStep(l, s);
      StepKeepsInv(l, s, step);
      if InWriteData(s.w) {
        WriteDataIsWaitFree(l, s, step);
      }
      steps, t := EverythingCanBeDelivered(l, Apply(l, s, step));
      RunExtends(l, s, step, steps, t);
      assert ([step] + steps)[1..] == steps;
      steps := [step] + steps;
    }
  }

  /** The same, from the start of any run. */
  lemma EveryRunCanBeCompleted(l: Layout, mem: Memory, before: seq<Step>, s: State)
    returns (after: seq<Step>, t: State)
    requires l.Valid() && Run(l, Start(l, mem), before, s)
    ensures Run(l, s, after, t) && t.r.out == Sent(before) && Done(t)
  {
    StartHasInv(l, mem);
    RunKeepsInv(l, Start(l, mem), before, s);
    RunHandsOver(l, Start(l, mem), before, s);
    assert s.w.handed == Sent(before);
    after, t := EverythingCanBeDelivered(l, s);
  }
}
