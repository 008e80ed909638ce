/** One transfer of any length, seen from both ends: the writer hands over `data` in portions
of its own choosing, the reader takes what it finds, and neither waits for the other but by
polling. Counts may be out of date when they are used, and a portion may be published in two
parts; all that is in the steps of the ring. */
module Transfer {
  import opened RingArithmetic
  import opened RingProtocol
  import opened RingInvariant
  import opened RingTheorems
  import opened RingProgress

  // ---------- nobody is stuck before the end ----------

  /** Between calls somebody can move as long as not all of `data` has arrived: the writer has
  bytes left and finds room for one, or the reader wants bytes and finds one. Only in a ring
  with a single cell nobody ever can. */
  lemma StuckOnlyWhenDone(l: Layout, mem: Memory, steps: seq<Step>, s: State, data: seq<Byte>)
    requires l.Valid() && Run(l, Start(l, mem), steps, s) && Sent(steps) <= data
    requires s.w.pc.WIdle? && s.r.pc.RIdle?
    ensures var free := FreeCount(Load(s.mem, l.ConsumerAddress()), Load(s.mem, l.ProducerAddress()), l.n);
      var available := AvailableCount(Load(s.mem, l.ProducerAddress()), Load(s.mem, l.ConsumerAddress()), l.n);
      !(|Sent(steps)| < |data| && free > 0) && !(|s.r.out| < |data| && available > 0)
      <==> s.r.out == data || l.n == 1
  {
    StartHasInv(l, mem);
    RunKeepsInv(l, Start(l, mem), steps, s);
    RunHandsOver(l, Start(l, mem), steps, s);
    assert s.w.handed == Sent(steps);
    CountsShareOutTheRing(l, s);
    assert |s.r.out| == |data| ==> s.r.out == data;
  }

  // ---------- a bound on the calls that move bytes ----------

  /** Calls of `WriteData` and of `ReadData` for one byte or more. */
  function MovingCalls(steps: seq<Step>): nat {
    if steps == [] then 0
    else
      (if (steps[0].WCall? && steps[0].data != []) || (steps[0].RCall? && steps[0].amount > 0) then 1 else 0)
      + MovingCalls(steps[1..])
  }

  /** Bytes handed over, and bytes asked for. */
  function Taken(s: State): int {
    |s.w.handed| + |s.r.out| + s.r.Unreleased()
  }

  lemma StepTakes(l: Layout, s: State, step: Step)
    requires l.Valid() && Inv(l, s) && Enabled(s, step)
    ensures Taken(Apply(l, s, step)) >= Taken(s) + MovingCalls([step])
  {
    assert [step][1..] == [];
  }

  lemma {:induction false} RunTakes(l: Layout, from: State, steps: seq<Step>, s: State)
    requires l.Valid() && Inv(l, from) && Run(l, from, steps, s)
    ensures Taken(s) >= Taken(from) + MovingCalls(steps)
    decreases |steps|
  {
    if steps != [] {
      var next := Apply(l, from, steps[0]);
      StepTakes(l, from, steps[0]);
      StepKeepsInv(l, from, steps[0]);
      RunTakes(l, next, steps[1..], s);
      assert [steps[0]][0] == steps[0] && [steps[0]][1..] == [];
    }
  }

  /** However small the portions, there are at most two calls that move bytes for each byte:
  with what is left to write and left to read, the successful polls run out. */
  lemma MovingCallsAreFew(l: Layout, mem: Memory, steps: seq<Step>, s: State)
    requires l.Valid() && Run(l, Start(l, mem), steps, s)
    ensures MovingCalls(steps) <= 2 * |Sent(steps)|
  {
    StartHasInv(l, mem);
    RunTakes(l, Start(l, mem), steps, s);
    RunKeepsInv(l, Start(l, mem), steps, s);
    RunHandsOver(l, Start(l, mem), steps, s);
    assert s.w.handed == Sent(steps);
  }

  // ---------- and everything can be made to arrive ----------

  /** Steps until the writer knows that the ring is empty, the reader keeping quiet. */
  function AskWork(l: Layout, s: State): nat {
    match s.w.pc
    case WIdle => if s.w.credit == l.n - 1 then 0 else 4
    case WLoadSecond => 3
    case WLoadFirst(_, at) => if at == s.r.First() then 2 else 5
    case WCount(_, at) => if at == s.r.First() then 1 else 5
    case _ => 0
  }

  lemma WriterAsks(l: Layout, s: State) returns (step: Step)
    requires l.Valid() && Inv(l, s) && Done(s) && AskWork(l, s) > 0
    ensures Enabled(s, step) && IsWriterStep(step) && !step.WCall?
    ensures var t := Apply(l, s, step);
      Done(t) && t.r == s.r && t.w.handed == s.w.handed && AskWork(l, t) < AskWork(l, s)
  {
    match s.w.pc
    case WIdle => step := WPoll;
    case WLoadSecond => step := WDoLoadSecond;
    case WLoadFirst(_, at) =>
      step := WDoLoadFirst;
      WriterMatchIsCurrent(l, s);
    case WCount(_, at) =>
      step := WDoCount;
      WriterCounts(l, s);
  }

  lemma {:induction false} WriterGetsRoom(l: Layout, s: State) returns (steps: seq<Step>, t: State)
    requires l.Valid() && Inv(l, s) && Done(s)
    ensures Run(l, s, steps, t) && Sent(steps) == [] && Inv(l, t)
    ensures Done(t) && t.r == s.r && t.w.handed == s.w.handed
    ensures t.w.pc.WIdle? && t.w.credit == l.n - 1 && WriterOnly(steps)
    decreases AskWork(l, s)
  {
    if AskWork(l, s) == 0 {
      steps, t := [], s;
    } else {
      var step := WriterAsks(l, s);
      StepKeepsInv(l, s, step);
      steps, t := WriterGetsRoom(l, Apply(l, s, step));
      RunExtends(l, s, step, steps, t);
      assert ([step] + steps)[1..] == steps;
      steps := [step] + steps;
    }
  }

  /** As much of the rest as the ring holds. */
  lemma WriterHandsOver(l: Layout, s: State, data: seq<Byte>) returns (portion: seq<Byte>, t: State)
    requires l.Valid() && Inv(l, s) && l.n >= 2 && s.w.pc.WIdle? && s.w.credit == l.n - 1
    requires s.w.handed <= data && s.w.handed != data
    ensures Enabled(s, WCall(portion)) && t == Apply(l, s, WCall(portion)) && Inv(l, t)
    ensures t.w.handed <= data && |s.w.handed| < |t.w.handed|
  {
    hide Inv, StartWrite, ReaderStep;
    var done := |s.w.handed|;
    portion := data[done..if |data| - done < l.n - 1 then |data| else done + l.n - 1];
    t := Apply(l, s, WCall(portion));
    StepKeepsInv(l, s, WCall(portion));
    assert t.w.handed == s.w.handed + portion == data[..done + |portion|];
  }

  lemma {:induction false} TransferGoesOn(l: Layout, s: State, data: seq<Byte>) returns (steps: seq<Step>, t: State)
    requires l.Valid() && Inv(l, s) && l.n >= 2 && s.w.handed <= data
    ensures Run(l, s, steps, t) && t.r.out == data && t.w.handed == data && Done(t)
    decreases |data| - |s.w.handed|
  {
    hide *;
    var t1;
    steps, t1 := EverythingCanBeDelivered(l, s);
    RunKeepsInv(l, s, steps, t1);
    if t1.w.handed == data {
      t := t1;
    } else {
      var asked, t2 := WriterGetsRoom(l, t1);
      var portion, t3 := WriterHandsOver(l, t2, data);
      var more;
      more, t := TransferGoesOn(l, t3, data);
      RunExtends(l, t2, WCall(portion), more, t);
      RunsJoin(l, t1, asked, t2, [WCall(portion)] + more, t);
      RunsJoin(l, s, steps, t1, asked + ([WCall(portion)] + more), t);
      steps := steps + (asked + ([WCall(portion)] + more));
    }
  }

  /** A transfer of any length, also of many times the ring's size, can be completed from every
  state that any run leads to: all of `data` arrives, and nothing else. */
  lemma TransferCompletes(l: Layout, mem: Memory, before: seq<Step>, s: State, data: seq<Byte>)
    returns (after: seq<Step>, t: State)
    requires l.Valid() && l.n >= 2 && Run(l, Start(l, mem), before, s) && Sent(before) <= data
    ensures Run(l, s, after, t) && Run(l, Start(l, mem), before + after, t)
    ensures Sent(before + after) == data && t.r.out == data && Done(t)
  {
    StartHasInv(l, mem);
    RunKeepsInv(l, Start(l, mem), before, s);
    RunHandsOver(l, Start(l, mem), before, s);
    assert s.w.handed == Sent(before);
    after, t := TransferGoesOn(l, s, data);
    RunsJoin(l, Start(l, mem), before, s, after, t);
    RunHandsOver(l, Start(l, mem), before + after, t);
    assert t.w.handed == Sent(before + after);
  }

  /** Through a single cell nothing is ever sent. */
  lemma {:induction false} OneCellCarriesNothing(l: Layout, from: State, steps: seq<Step>, s: State)
    requires l.Valid() && l.n == 1 && Inv(l, from) && Run(l, from, steps, s)
    ensures s.w.handed == from.w.handed && Sent(steps) == []
    decreases |steps|
  {
    if steps != [] {
      StepKeepsInv(l, from, steps[0]);
      OneCellCarriesNothing(l, Apply(l, from, steps[0]), steps[1..], s);
    }
  }
}
