/** The single-producer single-consumer ring as a step machine.

Two processes share a flat memory. A ring occupies `n` byte cells from `base` on, followed
by four 64-bit words: producer, second producer, consumer, second consumer. Every step
below touches shared memory at most once through the peer's words: it loads one word of
the peer, stores one word, or copies one byte. A side's own words change only by its own
stores, so a step may read them freely.

`memcpy` fixes no order, so a copy is a set of offsets still to do, taken in any order.
*/
module RingProtocol {
  import opened RingArithmetic

  /** Address to content: a byte at a cell address, a whole word at a word address. */
  type Memory = map<int, int>

  function Load(mem: Memory, address: int): int {
    if address in mem then mem[address] else 0
  }

  /** Where a ring lies: `m_Buffer` and `m_EffectiveBufferSize`. */
  datatype Layout = Layout(base: nat, n: nat) {

    predicate Valid() {
      RingSize(n)
    }

    /** The cell that holds the stream byte at a position. */
    function Cell(position: int): int
      requires n > 0
    {
      base + position % n
    }

    function ProducerAddress(): int { base + n }
    function SecondProducerAddress(): int { base + n + WORD_SIZE }
    function ConsumerAddress(): int { base + n + 2 * WORD_SIZE }
    function SecondConsumerAddress(): int { base + n + 3 * WORD_SIZE }

    /** The addresses of the ring: `m_BufferSize` of them. */
    predicate Window(address: int) {
      base <= address < base + n + RESERVE_SIZE
    }
  }

  function UpTo(k: nat): (offsets: set<nat>)
    ensures |offsets| == k
    ensures forall j: nat :: j in offsets <==> j < k
  {
    if k == 0 then {} else UpTo(k - 1) + {k - 1}
  }

  // ---------- the two processes ----------

  /** Where the writer stands. `at` records the position the loaded word stood for when it
  was loaded; no step reads it. */
  datatype WriterPc =
    | WIdle
    | WLoadSecond
    | WLoadFirst(seen: int, at: int)
    | WCount(seen: int, at: int)
    | WCopy(segment: seq<Byte>, rest: seq<Byte>, todo: set<nat>)
    | WStoreSecond(stored: nat, word: int, rest: seq<Byte>)

  /** `handed`: all bytes passed to `WriteData` so far. `credit`: what is left of the count
  the caller obtained last. */
  datatype Writer = Writer(pc: WriterPc, handed: seq<Byte>, credit: int) {

    /** Bytes handed over but not yet published through the first producer word. */
    function Unpublished(): nat {
      match pc
      case WCopy(segment, rest, _) => |segment| + |rest|
      case WStoreSecond(_, _, rest) => |rest|
      case _ => 0
    }

    /** The position the first producer word stands for. */
    function First(): int {
      |handed| - Unpublished()
    }

    /** The position the second producer word stands for. */
    function Second(): int {
      if pc.WStoreSecond? then First() - pc.stored else First()
    }
  }

  datatype ReaderPc =
    | RIdle
    | RLoadSecond
    | RLoadFirst(seen: int, at: int)
    | RCount(seen: int, at: int)
    | RCopy(length: nat, rest: nat, todo: set<nat>, sink: map<nat, int>)
    | RStoreSecond(stored: nat, word: int, rest: nat)

  /** `out`: all bytes of completed copies, in order. */
  datatype Reader = Reader(pc: ReaderPc, out: seq<int>, credit: int) {

    /** Bytes of the current `ReadData` not yet released through the first consumer word. */
    function Unreleased(): nat {
      match pc
      case RCopy(length, rest, _, _) => length + rest
      case RStoreSecond(_, _, rest) => rest
      case _ => 0
    }

    function First(): int {
      |out|
    }

    function Second(): int {
      if pc.RStoreSecond? then |out| - pc.stored else |out|
    }
  }

  datatype State = State(mem: Memory, w: Writer, r: Reader)

  // ---------- steps ----------

  datatype Step =
    // NumberOfBytesFreeToWrite
    | WPoll | WDoLoadSecond | WDoLoadFirst | WDoCount
    // WriteData
    | WCall(data: seq<Byte>) | WCopyByte(offset: nat) | WPublishFirst | WPublishSecond
    // NumberOfBytesAvailableToRead
    | RPoll | RDoLoadSecond | RDoLoadFirst | RDoCount
    // ReadData
    | RCall(amount: nat) | RCopyByte(offset: nat) | RReleaseFirst | RReleaseSecond

  predicate IsWriterStep(step: Step) {
    step.WPoll? || step.WDoLoadSecond? || step.WDoLoadFirst? || step.WDoCount? ||
    step.WCall? || step.WCopyByte? || step.WPublishFirst? || step.WPublishSecond?
  }

  /** Whether the process stands where the step begins. The two calls also carry the
  callers' contract: ask for no more than the last count allows. */
  predicate Enabled(s: State, step: Step) {
    match step
    case WPoll => s.w.pc.WIdle?
    case WDoLoadSecond => s.w.pc.WLoadSecond?
    case WDoLoadFirst => s.w.pc.WLoadFirst?
    case WDoCount => s.w.pc.WCount?
    case WCall(data) => s.w.pc.WIdle? && |data| <= s.w.credit
    case WCopyByte(j) => s.w.pc.WCopy? && j in s.w.pc.todo && j < |s.w.pc.segment|
    case WPublishFirst => s.w.pc.WCopy? && s.w.pc.todo == {}
    case WPublishSecond => s.w.pc.WStoreSecond?
    case RPoll => s.r.pc.RIdle?
    case RDoLoadSecond => s.r.pc.RLoadSecond?
    case RDoLoadFirst => s.r.pc.RLoadFirst?
    case RDoCount => s.r.pc.RCount?
    case RCall(amount) => s.r.pc.RIdle? && amount <= s.r.credit
    case RCopyByte(j) => s.r.pc.RCopy? && j in s.r.pc.todo
    case RReleaseFirst => s.r.pc.RCopy? && s.r.pc.todo == {}
    case RReleaseSecond => s.r.pc.RStoreSecond?
  }

  /** The branch of `WriteData`: one segment, or one up to the wraparound and the rest. */
  function StartWrite(l: Layout, producer: int, data: seq<Byte>): WriterPc {
    var before := Sub64(l.n, producer);
    if before >= |data| then
      WCopy(data, [], UpTo(|data|))
    else
      WCopy(data[..before], data[before..], UpTo(before))
  }

  /** The branch of `ReadData`. */
  function StartRead(l: Layout, consumer: int, amount: nat): ReaderPc {
    var before := Sub64(Sub64(l.n + RESERVE_SIZE, consumer), RESERVE_SIZE);
    if before >= amount then
      RCopy(amount, 0, UpTo(amount), map[])
    else
      RCopy(before, amount - before, UpTo(before), map[])
  }

  function WriterStep(l: Layout, s: State, step: Step): State
    requires l.Valid() && IsWriterStep(step) && Enabled(s, step)
  {
    var own := Load(s.mem, l.ProducerAddress());
    match step
    case WPoll =>
      s.(w := s.w.(pc := WLoadSecond))
    case WDoLoadSecond =>
      s.(w := s.w.(pc := WLoadFirst(Load(s.mem, l.SecondConsumerAddress()), s.r.Second())))
    case WDoLoadFirst =>
      var check := Load(s.mem, l.ConsumerAddress());
      s.(w := s.w.(pc := if check == s.w.pc.seen then WCount(s.w.pc.seen, s.w.pc.at) else WLoadSecond))
    case WDoCount =>
      s.(w := s.w.(pc := WIdle, credit := FreeCount(s.w.pc.seen, own, l.n)))
    case WCall(data) =>
      s.(w := Writer(StartWrite(l, own, data), s.w.handed + data, s.w.credit - |data|))
    case WCopyByte(j) =>
      State(s.mem[l.base + own + j := s.w.pc.segment[j]], s.w.(pc := s.w.pc.(todo := s.w.pc.todo - {j})), s.r)
    case WPublishFirst =>
      var word := AdvanceWord(own, |s.w.pc.segment|, l.n);
      State(s.mem[l.ProducerAddress() := word],
            s.w.(pc := WStoreSecond(|s.w.pc.segment|, word, s.w.pc.rest)), s.r)
    case WPublishSecond =>
      var rest := s.w.pc.rest;
      State(s.mem[l.SecondProducerAddress() := s.w.pc.word],
            s.w.(pc := if rest == [] then WIdle else WCopy(rest, [], UpTo(|rest|))), s.r)
  }

  function ReaderStep(l: Layout, s: State, step: Step): State
    requires l.Valid() && !IsWriterStep(step) && Enabled(s, step)
  {
    var own := Load(s.mem, l.ConsumerAddress());
    match step
    case RPoll =>
      s.(r := s.r.(pc := RLoadSecond))
    case RDoLoadSecond =>
      s.(r := s.r.(pc := RLoadFirst(Load(s.mem, l.SecondProducerAddress()), s.w.Second())))
    case RDoLoadFirst =>
      var check := Load(s.mem, l.ProducerAddress());
      s.(r := s.r.(pc := if check == s.r.pc.seen then RCount(s.r.pc.seen, s.r.pc.at) else RLoadSecond))
    case RDoCount =>
      s.(r := s.r.(pc := RIdle, credit := AvailableCount(s.r.pc.seen, own, l.n)))
    case RCall(amount) =>
      s.(r := Reader(StartRead(l, own, amount), s.r.out, s.r.credit - amount))
    case RCopyByte(j) =>
      var byte := Load(s.mem, l.base + own + j);
      s.(r := s.r.(pc := s.r.pc.(todo := s.r.pc.todo - {j}, sink := s.r.pc.sink[j := byte])))
    case RReleaseFirst =>
      var word := AdvanceWord(own, s.r.pc.length, l.n);
      State(s.mem[l.ConsumerAddress() := word], s.w,
            Reader(RStoreSecond(s.r.pc.length, word, s.r.pc.rest),
                   s.r.out + Copied(s.r.pc.length, s.r.pc.sink), s.r.credit))
    case RReleaseSecond =>
      var rest := s.r.pc.rest;
      State(s.mem[l.SecondConsumerAddress() := s.r.pc.word], s.w,
            s.r.(pc := if rest == 0 then RIdle else RCopy(rest, 0, UpTo(rest), map[])))
  }

  /** The sink of a finished copy. */
  function Copied(length: nat, sink: map<nat, int>): (bytes: seq<int>)
    ensures |bytes| == length
  {
    seq(length, j requires 0 <= j => if j in sink then sink[j] else 0)
  }

  function Apply(l: Layout, s: State, step: Step): State
    requires l.Valid() && Enabled(s, step)
  {
    if IsWriterStep(step) then WriterStep(l, s, step) else ReaderStep(l, s, step)
  }

  // ---------- runs ----------

  /** The memory after the write buffer's constructor stored its four zeros. */
  function Construct(l: Layout, mem: Memory): Memory {
    mem[l.ProducerAddress() := 0][l.SecondProducerAddress() := 0]
    [l.ConsumerAddress() := 0][l.SecondConsumerAddress() := 0]
  }

  /** Both sides attached to a constructed ring; neither has obtained a count yet. */
  function Start(l: Layout, mem: Memory): State {
    State(Construct(l, mem), Writer(WIdle, [], 0), Reader(RIdle, [], 0))
  }

  /** `s` is reached from `from` by taking `steps` one after the other. */
  ghost predicate Run(l: Layout, from: State, steps: seq<Step>, s: State)
    requires l.Valid()
    decreases |steps|
  {
    if steps == [] then s == from
    else Enabled(from, steps[0]) && Run(l, Apply(l, from, steps[0]), steps[1..], s)
  }
}
