/** A server and a client over one region: two rings, one each way, and the client's
constructors running while the server is already at work. */
module Duplex {
  import opened Remainders
  import opened RingArithmetic
  import opened RingProtocol
  import opened RingInvariant
  import opened RingTheorems

  // ---------- placement ----------

  /** Where one side puts its read buffer and its write buffer. */
  datatype Placement = Placement(read: Layout, write: Layout)

  /** `buffers` is the address after the header, `bufferSize` the size the server wrote there. */
  function ServerPlacement(buffers: nat, bufferSize: nat): Placement
    requires bufferSize > RESERVE_SIZE
  {
    var inbound := buffers;
    var outbound := inbound + bufferSize;
    Placement(Layout(inbound, bufferSize - RESERVE_SIZE), Layout(outbound, bufferSize - RESERVE_SIZE))
  }

  function ClientPlacement(buffers: nat, bufferSize: nat): Placement
    requires bufferSize > RESERVE_SIZE
  {
    var outbound := buffers;
    var inbound := outbound + bufferSize;
    Placement(Layout(inbound, bufferSize - RESERVE_SIZE), Layout(outbound, bufferSize - RESERVE_SIZE))
  }

  predicate BufferSize(bufferSize: nat) {
    RESERVE_SIZE < bufferSize < TWO_64
  }

  /** Each side reads where the other writes, the two rings share no address, and together
  they are exactly the two halves. */
  lemma PlacementsAreCrossed(buffers: nat, bufferSize: nat)
    requires BufferSize(bufferSize)
    ensures var server, client := ServerPlacement(buffers, bufferSize), ClientPlacement(buffers, bufferSize);
      && server.read == client.write && server.write == client.read
      && server.read.Valid() && server.write.Valid()
      && (forall a {:trigger server.read.Window(a)} ::
            !(server.read.Window(a) && server.write.Window(a)))
      && (forall a {:trigger server.read.Window(a)} ::
            server.read.Window(a) || server.write.Window(a) <==> buffers <= a < buffers + 2 * bufferSize)
  {
  }

  // ---------- the joint machine ----------

  datatype Process = Process(w: Writer, r: Reader)

  const Fresh: Process := Process(Writer(WIdle, [], 0), Reader(RIdle, [], 0))

  /** `attached` counts the stores the client's write constructor has made. */
  datatype Joint = Joint(mem: Memory, server: Process, client: Process, attached: nat)

  datatype Region = Region(buffers: nat, bufferSize: nat) {

    predicate Valid() {
      BufferSize(bufferSize)
    }

    /** The ring from the client to the server. */
    function Up(): (l: Layout)
      requires Valid()
      ensures l.Valid()
    {
      ServerPlacement(buffers, bufferSize).read
    }

    /** The ring from the server to the client. */
    function Down(): (l: Layout)
      requires Valid()
      ensures l.Valid()
    {
      ServerPlacement(buffers, bufferSize).write
    }
  }

  function UpState(s: Joint): State {
    State(s.mem, s.client.w, s.server.r)
  }

  function DownState(s: Joint): State {
    State(s.mem, s.server.w, s.client.r)
  }

  datatype JointStep =
    | ServerStep(step: Step)
    | ClientStep(step: Step)
    | AttachStore

  /** The words in the order in which the write constructor clears them. */
  function Word(l: Layout, k: nat): int
    requires k < 4
  {
    if k == 0 then l.ProducerAddress()
    else if k == 1 then l.SecondProducerAddress()
    else if k == 2 then l.ConsumerAddress()
    else l.SecondConsumerAddress()
  }

  predicate JointEnabled(s: Joint, step: JointStep) {
    match step
    case ServerStep(st) => Enabled(if IsWriterStep(st) then DownState(s) else UpState(s), st)
    case ClientStep(st) => s.attached == 4 && Enabled(if IsWriterStep(st) then UpState(s) else DownState(s), st)
    case AttachStore => s.attached < 4
  }

  function JointApply(g: Region, s: Joint, step: JointStep): Joint
    requires g.Valid() && JointEnabled(s, step)
  {
    match step
    case ServerStep(st) =>
      if IsWriterStep(st) then
        var t := Apply(g.Down(), DownState(s), st);
        s.(mem := t.mem, server := s.server.(w := t.w))
      else
        var t := Apply(g.Up(), UpState(s), st);
        s.(mem := t.mem, server := s.server.(r := t.r))
    case ClientStep(st) =>
      var place := ClientPlacement(g.buffers, g.bufferSize);
      if IsWriterStep(st) then
        var t := Apply(place.write, UpState(s), st);
        s.(mem := t.mem, client := s.client.(w := t.w))
      else
        var t := Apply(place.read, DownState(s), st);
        s.(mem := t.mem, client := s.client.(r := t.r))
    case AttachStore =>
      var place := ClientPlacement(g.buffers, g.bufferSize);
      s.(mem := s.mem[Word(place.write, s.attached) := 0], attached := s.attached + 1)
  }

  /** The region after `memset`: absent addresses read as zero. */
  function Cleared(g: Region, mem: Memory): Memory {
    map a | a in mem && !(g.buffers <= a < g.buffers + 2 * g.bufferSize) :: mem[a]
  }

  /** A server that has just set itself up, before any client came. */
  function ServerUp(g: Region, mem: Memory): Joint
    requires g.Valid()
  {
    Joint(Construct(g.Down(), Cleared(g, mem)), Fresh, Fresh, 0)
  }

  ghost predicate JointRun(g: Region, from: Joint, steps: seq<JointStep>, s: Joint)
    requires g.Valid()
    decreases |steps|
  {
    if steps == [] then s == from
    else JointEnabled(from, steps[0]) && JointRun(g, JointApply(g, from, steps[0]), steps[1..], s)
  }

  // ---------- the two directions do not disturb each other ----------

  ghost predicate SameIn(l: Layout, mem: Memory, mem': Memory) {
    forall a {:trigger l.Window(a)} :: l.Window(a) ==> Load(mem', a) == Load(mem, a)
  }

  lemma StepStaysInWindow(l: Layout, s: State, step: Step, other: Layout)
    requires l.Valid() && Inv(l, s) && Enabled(s, step)
    requires forall a {:trigger other.Window(a)} :: !(l.Window(a) && other.Window(a))
    ensures SameIn(other, s.mem, Apply(l, s, step).mem)
  {
    var t := Apply(l, s, step);
    if step.WCopyByte? {
      CellAt(l, s.w.First(), step.offset);
    }
    forall a | other.Window(a)
      ensures Load(t.mem, a) == Load(s.mem, a)
    {
      assert !l.Window(a);
      assert l.Window(l.ProducerAddress()) && l.Window(l.SecondProducerAddress());
      assert l.Window(l.ConsumerAddress()) && l.Window(l.SecondConsumerAddress());
    }
  }

  /** The invariant of a ring looks at nothing outside its window. */
  lemma InvOnlyReadsWindow(l: Layout, s: State, mem': Memory)
    requires l.Valid() && Inv(l, s) && SameIn(l, s.mem, mem')
    ensures Inv(l, s.(mem := mem'))
  {
    var t := s.(mem := mem');
    assert l.Window(l.ProducerAddress()) && l.Window(l.SecondProducerAddress());
    assert l.Window(l.ConsumerAddress()) && l.Window(l.SecondConsumerAddress());
    forall i | s.r.First() <= i < |s.w.handed| && InCell(t.w, i)
      ensures Load(mem', l.Cell(i)) == t.w.handed[i]
    {
      assert l.Window(l.Cell(i));
    }
  }

  ghost predicate JointInv(g: Region, s: Joint)
    requires g.Valid()
  {
    && Inv(g.Up(), UpState(s))
    && Inv(g.Down(), DownState(s))
    && s.attached <= 4
    && (s.attached < 4 ==> s.client == Fresh)
  }

  /** While the client has not attached, the words its constructor clears are zero already,
  whatever the server has done so far: the store changes no content anywhere. */
  lemma AttachChangesNothing(g: Region, s: Joint, address: int)
    requires g.Valid() && JointInv(g, s) && s.attached < 4
    ensures Load(JointApply(g, s, AttachStore).mem, address) == Load(s.mem, address)
  {
    ModIs(0, 0, 0, g.Up().n);
  }

  lemma ServerUpHasInv(g: Region, mem: Memory)
    requires g.Valid()
    ensures JointInv(g, ServerUp(g, mem))
  {
    ModIs(0, 0, 0, g.Up().n);
    PlacementsAreCrossed(g.buffers, g.bufferSize);
  }

  lemma RingStepKeepsJointInv(g: Region, s: Joint, step: JointStep)
    requires g.Valid() && JointInv(g, s) && JointEnabled(s, step) && !step.AttachStore?
    ensures JointInv(g, JointApply(g, s, step))
  {
    PlacementsAreCrossed(g.buffers, g.bufferSize);
    var t := JointApply(g, s, step);
    if step.ServerStep? == IsWriterStep(step.step) {
      StepKeepsInv(g.Down(), DownState(s), step.step);
      StepStaysInWindow(g.Down(), DownState(s), step.step, g.Up());
      InvOnlyReadsWindow(g.Up(), UpState(s), t.mem);
      assert UpState(t) == UpState(s).(mem := t.mem);
      assert DownState(t) == Apply(g.Down(), DownState(s), step.step);
    } else {
      StepKeepsInv(g.Up(), UpState(s), step.step);
      StepStaysInWindow(g.Up(), UpState(s), step.step, g.Down());
      InvOnlyReadsWindow(g.Down(), DownState(s), t.mem);
      assert DownState(t) == DownState(s).(mem := t.mem);
      assert UpState(t) == Apply(g.Up(), UpState(s), step.step);
    }
  }

  lemma JointStepKeepsInv(g: Region, s: Joint, step: JointStep)
    requires g.Valid() && JointInv(g, s) && JointEnabled(s, step)
    ensures JointInv(g, JointApply(g, s, step))
  {
    if step.AttachStore? {
      var t := JointApply(g, s, step);
      forall a ensures Load(t.mem, a) == Load(s.mem, a) {
        AttachChangesNothing(g, s, a);
      }
      InvOnlyReadsWindow(g.Up(), UpState(s), t.mem);
      InvOnlyReadsWindow(g.Down(), DownState(s), t.mem);
    } else {
      RingStepKeepsJointInv(g, s, step);
    }
  }

  lemma {:induction false} JointRunKeepsInv(g: Region, from: Joint, steps: seq<JointStep>, s: Joint)
    requires g.Valid() && JointInv(g, from) && JointRun(g, from, steps, s)
    ensures JointInv(g, s)
    decreases |steps|
  {
    if steps != [] {
      JointStepKeepsInv(g, from, steps[0]);
      JointRunKeepsInv(g, JointApply(g, from, steps[0]), steps[1..], s);
    }
  }

  function HandedInStep(step: JointStep, server: bool): seq<Byte> {
    match step
    case ServerStep(st) => if server && st.WCall? then st.data else []
    case ClientStep(st) => if !server && st.WCall? then st.data else []
    case AttachStore => []
  }

  /** What one side handed over in the course of a joint run. */
  function HandedBy(steps: seq<JointStep>, server: bool): seq<Byte> {
    if steps == [] then [] else HandedInStep(steps[0], server) + HandedBy(steps[1..], server)
  }

  function Handed(s: Joint, server: bool): seq<Byte> {
    if server then s.server.w.handed else s.client.w.handed
  }

  lemma JointStepHandsOver(g: Region, s: Joint, step: JointStep, server: bool)
    requires g.Valid() && JointEnabled(s, step)
    ensures Handed(JointApply(g, s, step), server) == Handed(s, server) + HandedInStep(step, server)
  {
  }

  lemma {:induction false} JointRunHandsOver(g: Region, from: Joint, steps: seq<JointStep>, s: Joint, server: bool)
    requires g.Valid() && JointRun(g, from, steps, s)
    ensures Handed(s, server) == Handed(from, server) + HandedBy(steps, server)
    decreases |steps|
  {
    if steps != [] {
      var next := JointApply(g, from, steps[0]);
      JointStepHandsOver(g, from, steps[0], server);
      JointRunHandsOver(g, next, steps[1..], s, server);
      assert HandedBy(steps, server) == HandedInStep(steps[0], server) + HandedBy(steps[1..], server);
    }
  }

  /** Both directions are first in first out at once, from the moment the server is up, in
  every interleaving of the two processes and of the client's attaching: the client reads
  all the server sent before it came, too. */
  lemma BothWaysFirstInFirstOut(g: Region, mem: Memory, steps: seq<JointStep>, s: Joint)
    requires g.Valid() && JointRun(g, ServerUp(g, mem), steps, s)
    ensures s.client.r.out <= HandedBy(steps, true)
    ensures s.server.r.out <= HandedBy(steps, false)
    ensures Fifo(UpState(s)) && Fifo(DownState(s))
    ensures s.attached < 4 ==> s.server.r.out == []
  {
    ServerUpHasInv(g, mem);
    JointRunKeepsInv(g, ServerUp(g, mem), steps, s);
    JointRunHandsOver(g, ServerUp(g, mem), steps, s, true);
    JointRunHandsOver(g, ServerUp(g, mem), steps, s, false);
    assert s.server.w.handed == HandedBy(steps, true);
    assert s.client.w.handed == HandedBy(steps, false);
  }

  // ---------- attaching again ----------

  /** A write buffer constructed over a ring in use, both sides idle: the words are cleared, and
  what counts from now on is what was handed over and not read. */
  function Reattached(l: Layout, s: State): State
    requires s.r.out <= s.w.handed
  {
    State(Construct(l, s.mem), Writer(WIdle, s.w.handed[|s.r.out|..], 0), Reader(RIdle, [], 0))
  }

  /** Attaching again is harmless exactly if the reader has read everything: then, and only
  then, the count is still that of the unread bytes, and the ring is in order again. */
  lemma AttachingAgainNeedsADrainedRing(l: Layout, s: State)
    requires l.Valid() && Inv(l, s) && s.w.pc.WIdle? && s.r.pc.RIdle?
    ensures var mem := Construct(l, s.mem);
      AvailableCount(Load(mem, l.ProducerAddress()), Load(mem, l.ConsumerAddress()), l.n) == |s.w.handed| - |s.r.out|
      <==> s.r.out == s.w.handed
    ensures Inv(l, Reattached(l, s)) <==> s.r.out == s.w.handed
  {
    var t := Reattached(l, s);
    Small64(0);
    ModIs(0, 0, 0, l.n);
    if s.r.out != s.w.handed {
      assert |t.w.handed| > 0;
      if Inv(l, t) {
        ModIs(t.w.First(), 0, t.w.First(), l.n);
        assert false;
      }
    } else {
      assert t == Start(l, s.mem);
      StartHasInv(l, s.mem);
    }
  }

  /** And every ring of two cells or more gets there: one byte written and not yet read is lost. */
  lemma AttachingTwiceLosesBytes(l: Layout, mem: Memory, byte: Byte) returns (steps: seq<Step>, s: State)
    requires l.Valid() && l.n >= 2
    ensures Run(l, Start(l, mem), steps, s) && s.w.pc.WIdle? && s.r.pc.RIdle?
    ensures Sent(steps) == [byte] && s.r.out == []
    ensures var mem' := Construct(l, s.mem);
      AvailableCount(Load(mem', l.ProducerAddress()), Load(mem', l.ConsumerAddress()), l.n) == 0
    ensures !Inv(l, Reattached(l, s))
  {
    var s0 := Start(l, mem);
    StartHasInv(l, mem);
    steps, s := WriteOne(l, s0, byte);
    RunKeepsInv(l, s0, steps, s);
    AttachingAgainNeedsADrainedRing(l, s);
    Small64(0);
  }

  /** A poll and a `WriteData` of one byte, from the start. */
  lemma WriteOne(l: Layout, s0: State, byte: Byte) returns (steps: seq<Step>, s: State)
    requires l.Valid() && l.n >= 2 && Inv(l, s0) && s0 == Start(l, s0.mem)
    ensures Run(l, s0, steps, s) && s.w.pc.WIdle? && s.r == s0.r
    ensures Sent(steps) == [byte] && s.w.handed == [byte]
  {
    hide *;
    var polled, written, mid;
    polled, mid := PollAtFirst(l, s0);
    written, s := WriteByte(l, mid, byte);
    RunsJoin(l, s0, polled, mid, written, s);
    steps := polled + written;
  }

  lemma PollAtFirst(l: Layout, s0: State) returns (steps: seq<Step>, s: State)
    requires l.Valid() && s0 == Start(l, s0.mem)
    ensures Run(l, s0, steps, s) && Sent(steps) == []
    ensures s == State(s0.mem, Writer(WIdle, [], l.n - 1), s0.r) && Load(s.mem, l.ProducerAddress()) == 0
  {
    FreeCountIsExact(0, 0, l.n);
    ModIs(0, 0, 0, l.n);
    var s1 := Apply(l, s0, WPoll);
    var s2 := Apply(l, s1, WDoLoadSecond);
    var s3 := Apply(l, s2, WDoLoadFirst);
    s := Apply(l, s3, WDoCount);
    hide *;
    RunIsDone(l, s);
    RunExtends(l, s3, WDoCount, [], s);
    RunExtends(l, s2, WDoLoadFirst, [WDoCount] + [], s);
    steps := [WDoLoadFirst] + ([WDoCount] + []);
    RunExtends(l, s1, WDoLoadSecond, steps, s);
    steps := [WDoLoadSecond] + steps;
    RunExtends(l, s0, WPoll, steps, s);
    steps := [WPoll] + steps;
    RunHandsOver(l, s0, steps, s);
  }

  lemma WriteByte(l: Layout, s0: State, byte: Byte) returns (steps: seq<Step>, s: State)
    requires l.Valid() && s0.w.pc.WIdle? && s0.w.handed == [] && s0.w.credit >= 1
    requires Load(s0.mem, l.ProducerAddress()) == 0
    ensures Run(l, s0, steps, s) && s.w.pc.WIdle? && s.r == s0.r
    ensures Sent(steps) == [byte] && s.w.handed == [byte]
  {
    Small64(l.n);
    var s1 := Apply(l, s0, WCall([byte]));
    assert s1.w.pc == WCopy([byte], [], UpTo(1));
    var s2 := Apply(l, s1, WCopyByte(0));
    assert s2.w.pc.todo == {} by {
      assert forall j: nat :: j in UpTo(1) <==> j == 0;
    }
    var s3 := Apply(l, s2, WPublishFirst);
    s := Apply(l, s3, WPublishSecond);
    hide *;
    RunIsDone(l, s);
    RunExtends(l, s3, WPublishSecond, [], s);
    RunExtends(l, s2, WPublishFirst, [WPublishSecond] + [], s);
    steps := [WPublishFirst] + ([WPublishSecond] + []);
    RunExtends(l, s1, WCopyByte(0), steps, s);
    steps := [WCopyByte(0)] + steps;
    RunExtends(l, s0, WCall([byte]), steps, s);
    steps := [WCall([byte])] + steps;
    RunHandsOver(l, s0, steps, s);
    assert s0.w.handed + Sent(steps) == Sent(steps);
  }
}
