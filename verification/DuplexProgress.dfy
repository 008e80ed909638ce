/** Runs of the joint machine: the server works before any client comes, and from every state
everything handed over in either direction can be made to arrive. */
module DuplexProgress {
  import opened RingArithmetic
  import opened RingProtocol
  import opened RingInvariant
  import opened RingTheorems
  import opened RingProgress
  import opened Transfer
  import opened Duplex

  // ---------- runs of one ring are runs of both processes ----------

  function Ring(g: Region, down: bool): (l: Layout)
    requires g.Valid()
    ensures l.Valid()
  {
    if down then g.Down() else g.Up()
  }

  function RingState(s: Joint, down: bool): State {
    if down then DownState(s) else UpState(s)
  }

  /** The step as one of the process that takes it. */
  function Lifted(step: Step, down: bool): JointStep {
    if IsWriterStep(step) == down then ServerStep(step) else ClientStep(step)
  }

  /** The server may take any step its buffers allow, with a client or without; a client may once
  it has attached. */
  lemma LiftedStep(g: Region, s: Joint, step: Step, down: bool)
    requires g.Valid() && Enabled(RingState(s, down), step)
    requires IsWriterStep(step) == down || s.attached == 4
    ensures JointEnabled(s, Lifted(step, down))
    ensures var t := JointApply(g, s, Lifted(step, down));
      && RingState(t, down) == Apply(Ring(g, down), RingState(s, down), step)
      && RingState(t, !down) == RingState(s, !down).(mem := t.mem)
      && t.attached == s.attached
  {
    PlacementsAreCrossed(g.buffers, g.bufferSize);
    hide WriterStep, ReaderStep;
    var ring, u := RingState(s, down), Apply(Ring(g, down), RingState(s, down), step);
    OtherSideStays(Ring(g, down), ring, step);
  }

  lemma OtherSideStays(l: Layout, s: State, step: Step)
    requires l.Valid() && Enabled(s, step)
    ensures if IsWriterStep(step) then Apply(l, s, step).r == s.r else Apply(l, s, step).w == s.w
  {
    hide AdvanceWord, FreeCount, AvailableCount, StartWrite, StartRead, UpTo, Load, Copied;
  }

  lemma JointRunExtends(g: Region, from: Joint, step: JointStep, steps: seq<JointStep>, s: Joint)
    requires g.Valid() && JointEnabled(from, step) && JointRun(g, JointApply(g, from, step), steps, s)
    ensures JointRun(g, from, [step] + steps, s)
    ensures forall server :: HandedBy([step] + steps, server) == HandedInStep(step, server) + HandedBy(steps, server)
  {
    hide JointApply, JointEnabled, HandedInStep;
    assert ([step] + steps)[0] == step && ([step] + steps)[1..] == steps;
  }

  lemma {:induction false} JointRunsJoin(g: Region, from: Joint, steps: seq<JointStep>, mid: Joint,
                                         more: seq<JointStep>, s: Joint)
    requires g.Valid() && JointRun(g, from, steps, mid) && JointRun(g, mid, more, s)
    ensures JointRun(g, from, steps + more, s)
    decreases |steps|
  {
    if steps == [] {
      assert steps + more == more;
    } else {
      hide JointApply, JointEnabled;
      var next := JointApply(g, from, steps[0]);
      JointRunsJoin(g, next, steps[1..], mid, more, s);
      JointRunExtends(g, from, steps[0], steps[1..] + more, s);
      assert [steps[0]] + (steps[1..] + more) == steps + more;
    }
  }

  lemma {:induction false} LiftedRun(g: Region, s: Joint, steps: seq<Step>, u: State, down: bool)
    returns (joint: seq<JointStep>, t: Joint)
    requires g.Valid() && Run(Ring(g, down), RingState(s, down), steps, u)
    requires s.attached == 4 || (down && WriterOnly(steps))
    ensures JointRun(g, s, joint, t) && RingState(t, down) == u && t.attached == s.attached
    ensures RingState(t, !down) == RingState(s, !down).(mem := t.mem)
    decreases |steps|
  {
    if steps == [] {
      joint, t := [], s;
    } else {
      LiftedStep(g, s, steps[0], down);
      var next := JointApply(g, s, Lifted(steps[0], down));
      hide JointApply, JointEnabled, Apply, Enabled, RingState, Lifted;
      joint, t := LiftedRun(g, next, steps[1..], u, down);
      JointRunExtends(g, s, Lifted(steps[0], down), joint, t);
      joint := [Lifted(steps[0], down)] + joint;
      MemTwice(RingState(s, !down), next.mem, t.mem);
    }
  }

  lemma MemTwice(s: State, mem: Memory, mem': Memory)
    ensures s.(mem := mem).(mem := mem') == s.(mem := mem')
  {
  }

  // ---------- the client comes ----------

  lemma {:induction false} ClientCanAttach(g: Region, s: Joint) returns (steps: seq<JointStep>, t: Joint)
    requires g.Valid() && JointInv(g, s)
    ensures JointRun(g, s, steps, t) && JointInv(g, t)
    ensures t.attached == 4 && t.server == s.server && t.client == s.client
    decreases 4 - s.attached
  {
    if s.attached == 4 {
      steps, t := [], s;
    } else {
      var next := JointApply(g, s, AttachStore);
      JointStepKeepsInv(g, s, AttachStore);
      hide JointInv;
      steps, t := ClientCanAttach(g, next);
      JointRunExtends(g, s, AttachStore, steps, t);
      steps := [AttachStore] + steps;
    }
  }

  // ---------- everything can arrive ----------

  lemma RingInv(g: Region, s: Joint, down: bool)
    requires g.Valid() && JointInv(g, s)
    ensures Inv(Ring(g, down), RingState(s, down)) && s.attached <= 4
  {
    hide Inv;
  }

  /** One direction delivered, the other left as it is. */
  lemma DirectionCanBeDelivered(g: Region, s: Joint, down: bool) returns (steps: seq<JointStep>, t: Joint)
    requires g.Valid() && JointInv(g, s) && s.attached == 4
    ensures JointRun(g, s, steps, t) && JointInv(g, t) && t.attached == 4
    ensures RingState(t, down).r.out == RingState(t, down).w.handed == RingState(s, down).w.handed
    ensures RingState(t, !down).w == RingState(s, !down).w && RingState(t, !down).r == RingState(s, !down).r
  {
    RingInv(g, s, down);
    hide JointInv, Inv, JointRun, RingState;
    var ring, u := EverythingCanBeDelivered(Ring(g, down), RingState(s, down));
    steps, t := LiftedRun(g, s, ring, u, down);
    JointRunKeepsInv(g, s, steps, t);
  }

  /** From every state of every run of the two processes, whether the client has attached, is
  attaching or has not come yet: it attaches, and all that was handed over in either direction
  arrives. */
  lemma BothWaysCanBeDelivered(g: Region, mem: Memory, before: seq<JointStep>, s: Joint)
    returns (after: seq<JointStep>, t: Joint)
    requires g.Valid() && JointRun(g, ServerUp(g, mem), before, s)
    ensures JointRun(g, s, after, t) && t.attached == 4
    ensures t.client.r.out == HandedBy(before, true) && t.server.r.out == HandedBy(before, false)
  {
    ServerUpHasInv(g, mem);
    JointRunKeepsInv(g, ServerUp(g, mem), before, s);
    JointRunHandsOver(g, ServerUp(g, mem), before, s, true);
    JointRunHandsOver(g, ServerUp(g, mem), before, s, false);
    assert Handed(s, true) == HandedBy(before, true) && Handed(s, false) == HandedBy(before, false);
    hide JointInv, JointRun, JointApply, HandedBy;
    var s1, s2, more, last;
    after, s1 := ClientCanAttach(g, s);
    more, s2 := DirectionCanBeDelivered(g, s1, true);
    JointRunsJoin(g, s, after, s1, more, s2);
    last, t := DirectionCanBeDelivered(g, s2, false);
    JointRunsJoin(g, s, after + more, s2, last, t);
    after := after + more + last;
  }

  // ---------- before any client comes ----------

  lemma {:induction false} WriterFinishes(l: Layout, s: State) returns (steps: seq<Step>, t: State)
    requires l.Valid() && Inv(l, s) && InWriteData(s.w)
    ensures Run(l, s, steps, t) && WriterOnly(steps)
    ensures t.w.pc.WIdle? && t.w.handed == s.w.handed
    decreases WriteWork(s.w)
  {
    var step := WriterGoesOn(l, s);
    StepKeepsInv(l, s, step);
    var next := Apply(l, s, step);
    hide Inv, Apply, Enabled, Run;
    if InWriteData(next.w) {
      steps, t := WriterFinishes(l, next);
    } else {
      steps, t := [], next;
      RunIsDone(l, next);
    }
    RunExtends(l, s, step, steps, t);
    steps := [step] + steps;
  }

  lemma WriterGoesOn(l: Layout, s: State) returns (step: Step)
    requires l.Valid() && Inv(l, s) && InWriteData(s.w)
    ensures Enabled(s, step) && IsWriterStep(step)
    ensures var t := Apply(l, s, step);
      t.w.handed == s.w.handed && WriteWork(t.w) < WriteWork(s.w) && (InWriteData(t.w) || t.w.pc.WIdle?)
  {
    if s.w.pc.WStoreSecond? {
      step := WPublishSecond;
    } else if s.w.pc.todo == {} {
      step := WPublishFirst;
    } else {
      var j :| j in s.w.pc.todo;
      SidesAreFree(l, s, [], 0, j);
      step := WCopyByte(j);
    }
    WriteDataIsWaitFree(l, s, step);
    hide Inv, AdvanceWord, UpTo, Load;
  }

  /** A server that is up can send before any client comes, as much as the ring holds. */
  lemma ServerCanSend(g: Region, mem: Memory, data: seq<Byte>) returns (steps: seq<JointStep>, s: Joint)
    requires g.Valid() && |data| <= g.Down().n - 1
    ensures JointRun(g, ServerUp(g, mem), steps, s) && s.attached == 0
    ensures HandedBy(steps, true) == data && s.server.w.pc.WIdle?
  {
    var l, up := g.Down(), ServerUp(g, mem);
    ServerUpHasInv(g, mem);
    RingInv(g, up, true);
    hide JointInv, Inv, JointRun, JointApply, Run, HandedBy, Apply;
    var asked, room := WriterGetsRoom(l, DownState(up));
    var call := Apply(l, room, WCall(data));
    StepKeepsInv(l, room, WCall(data));
    CallBegins(l, room, data);
    var written, done := WriterFinishes(l, call);
    RunExtends(l, room, WCall(data), written, done);
    RunsJoin(l, DownState(up), asked, room, [WCall(data)] + written, done);
    steps, s := LiftedRun(g, up, asked + ([WCall(data)] + written), done, true);
    JointRunHandsOver(g, up, steps, s, true);
    assert Handed(s, true) == data;
  }

  lemma CallBegins(l: Layout, s: State, data: seq<Byte>)
    requires l.Valid() && Inv(l, s) && Enabled(s, WCall(data))
    ensures var t := Apply(l, s, WCall(data)); InWriteData(t.w) && t.w.handed == s.w.handed + data
  {
    hide Inv;
  }

  /** And the client that comes then reads all of it. */
  lemma EarlyBytesArrive(g: Region, mem: Memory, data: seq<Byte>)
    returns (before: seq<JointStep>, s: Joint, after: seq<JointStep>, t: Joint)
    requires g.Valid() && |data| <= g.Down().n - 1
    ensures JointRun(g, ServerUp(g, mem), before, s) && s.attached == 0 && HandedBy(before, true) == data
    ensures JointRun(g, s, after, t) && t.attached == 4 && t.client.r.out == data
  {
    before, s := ServerCanSend(g, mem, data);
    after, t := BothWaysCanBeDelivered(g, mem, before, s);
  }
}
