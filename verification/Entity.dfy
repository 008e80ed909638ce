/** The chunking loops of an entity: transfers of any size over a ring of fixed size, with a
timeout that starts again whenever bytes moved. */
module Entity {
  import opened RingArithmetic
  import opened CircularBuffer

  // ---------- time ----------

  /** From reading `t` on the clock shows at least `x`. */
  ghost predicate ShowsFrom(reading: nat -> real, t: nat, x: real) {
    forall u: nat :: t <= u ==> reading(u) >= x
  }

  ghost predicate Reaches(reading: nat -> real, x: real) {
    exists t: nat :: ShowsFrom(reading, t, x)
  }

  /** The clock, read again and again, passes every limit. It may stand still for any number
  of readings, and even go back. */
  ghost predicate Advances(reading: nat -> real) {
    forall x: real :: Reaches(reading, x)
  }

  /** Any clock with a step, whatever the jitter as long as it is bounded. */
  lemma SteadyClockAdvances(reading: nat -> real, step: real, bound: real)
    requires step > 0.0 && forall t: nat :: reading(t) >= step * t as real - bound
    ensures Advances(reading)
  {
    forall x: real
      ensures Reaches(reading, x)
    {
      var q := (x + bound) / step;
      var t: nat := if q < 0.0 then 0 else q.Floor + 1;
      forall u: nat | t <= u
        ensures reading(u) >= x
      {
        assert u as real >= q;
        assert step * u as real >= step * q == x + bound;
      }
      assert ShowsFrom(reading, t, x);
    }
  }

  class Clock {
    const reading: nat -> real
    var count: nat

    constructor (reading: nat -> real)
      ensures this.reading == reading && count == 0
    {
      this.reading := reading;
      count := 0;
    }

    method Now() returns (time: real)
      modifies this
      ensures count == old(count) + 1 && time == reading(old(count))
    {
      time := reading(count);
      count := count + 1;
    }
  }

  /** A reading by which the timer's limit has passed for good. */
  ghost method Deadline(clock: Clock, limit: real) returns (t: nat)
    requires Advances(clock.reading)
    ensures ShowsFrom(clock.reading, t, limit)
  {
    assert Reaches(clock.reading, limit);
    t :| ShowsFrom(clock.reading, t, limit);
  }

  // ---------- the course of a chunk loop, from what its polls found ----------

  /** What is moved: what was found, but no more than is wanted. */
  function Chunk(found: int, wanted: nat): nat {
    if found > wanted then wanted else if found > 0 then found else 0
  }

  /** Bytes moved after these polls, of so many in all. */
  function Moved(polls: seq<int>, total: nat): (k: nat)
    ensures k <= total
  {
    if polls == [] then 0
    else
      var before := Moved(polls[..|polls| - 1], total);
      before + Chunk(polls[|polls| - 1], total - before)
  }

  /** The bytes found in all. */
  function Sum(polls: seq<int>): int {
    if polls == [] then 0 else polls[0] + Sum(polls[1..])
  }

  lemma {:induction false} SumOfBoth(polls: seq<int>, more: seq<int>, found: int)
    ensures Sum(polls + more) == Sum(polls) + Sum(more) && Sum([found]) == found && Sum([]) == 0
    decreases |polls|
  {
    assert [found][1..] == [];
    if polls == [] {
      assert polls + more == more;
    } else {
      SumOfBoth(polls[1..], more, found);
      assert (polls + more)[1..] == polls[1..] + more;
    }
  }

  /** Poll by poll, all that was found is moved until all that is wanted has been. */
  lemma {:induction false} MovedIsSum(polls: seq<int>, total: nat)
    requires forall i :: 0 <= i < |polls| ==> polls[i] >= 0
    ensures Moved(polls, total) == if Sum(polls) < total then Sum(polls) else total
    ensures Sum(polls) >= 0
    decreases |polls|
  {
    if polls != [] {
      var before, last := polls[..|polls| - 1], polls[|polls| - 1];
      MovedIsSum(before, total);
      SumOfBoth(before, [last], last);
      assert polls == before + [last];
    }
  }

  /** The reading of the clock, counted from the first one, that the guard takes after these
  polls. A poll that found something costs one more reading, for the restart. */
  function GuardAt(polls: seq<int>): nat {
    if polls == [] then 1
    else GuardAt(polls[..|polls| - 1]) + if polls[|polls| - 1] > 0 then 2 else 1
  }

  /** The reading the timer runs from. */
  function TimerFrom(polls: seq<int>): nat {
    if polls == [] then 0
    else if polls[|polls| - 1] > 0 then GuardAt(polls[..|polls| - 1]) + 1
    else TimerFrom(polls[..|polls| - 1])
  }

  /** What the timer shows when the guard is evaluated after these polls. */
  function Elapsed(reading: nat -> real, from: nat, polls: seq<int>): real {
    reading(from + GuardAt(polls)) - reading(from + TimerFrom(polls))
  }

  predicate GoesOn(reading: nat -> real, from: nat, limit: real, total: nat, polls: seq<int>) {
    Elapsed(reading, from, polls) < limit && Moved(polls, total) != total
  }

  /** The guard held before every poll. */
  ghost predicate Course(reading: nat -> real, from: nat, limit: real, total: nat, polls: seq<int>) {
    forall i :: 0 <= i < |polls| ==> GoesOn(reading, from, limit, total, polls[..i])
  }

  /** The loop made these polls and then ended. */
  ghost predicate Ended(reading: nat -> real, from: nat, limit: real, total: nat, polls: seq<int>) {
    Course(reading, from, limit, total, polls) && !GoesOn(reading, from, limit, total, polls)
  }

  /** The timer runs from the restart at the last poll that found something, or from the
  beginning if none did; every poll since then found nothing, and nothing has moved. */
  lemma {:induction false} TimerRunsFromLastMove(polls: seq<int>, total: nat) returns (j: nat)
    requires forall i :: 0 <= i < |polls| ==> polls[i] >= 0
    ensures j <= |polls| && forall i :: j <= i < |polls| ==> polls[i] == 0
    ensures Moved(polls[..j], total) == Moved(polls, total)
    ensures j == 0 ==> TimerFrom(polls) == 0
    ensures j > 0 ==> polls[j - 1] > 0 && TimerFrom(polls) == GuardAt(polls[..j - 1]) + 1
  {
    j := |polls|;
    assert polls[..j] == polls;
    if polls != [] && polls[j - 1] == 0 {
      var before := polls[..|polls| - 1];
      j := TimerRunsFromLastMove(before, total);
      assert before[..j] == polls[..j];
      if j > 0 {
        assert before[..j - 1] == polls[..j - 1];
      }
    }
  }

  /** In plain terms: before every poll the timer was below its limit and something was left to
  move; at the end one of the two is no longer so. */
  lemma EndedMeans(reading: nat -> real, from: nat, limit: real, total: nat, polls: seq<int>)
    requires forall i :: 0 <= i < |polls| ==> polls[i] >= 0
    ensures Ended(reading, from, limit, total, polls) <==>
      && (forall i {:trigger polls[..i]} :: 0 <= i < |polls| ==>
        && reading(from + GuardAt(polls[..i])) - reading(from + TimerFrom(polls[..i])) < limit
        && Sum(polls[..i]) < total)
      && (reading(from + GuardAt(polls)) - reading(from + TimerFrom(polls)) >= limit || Sum(polls) >= total)
  {
    hide GoesOn, Moved, Sum, GuardAt, TimerFrom;
    forall i {:trigger polls[..i]} | 0 <= i < |polls|
      ensures GoesOn(reading, from, limit, total, polls[..i]) <==>
        && reading(from + GuardAt(polls[..i])) - reading(from + TimerFrom(polls[..i])) < limit
        && Sum(polls[..i]) < total
    {
      GoesOnMeans(reading, from, limit, total, polls[..i]);
    }
    GoesOnMeans(reading, from, limit, total, polls);
  }

  lemma GoesOnMeans(reading: nat -> real, from: nat, limit: real, total: nat, polls: seq<int>)
    requires forall i :: 0 <= i < |polls| ==> polls[i] >= 0
    ensures GoesOn(reading, from, limit, total, polls) <==>
      && reading(from + GuardAt(polls)) - reading(from + TimerFrom(polls)) < limit
      && Sum(polls) < total
  {
    GoesOnIs(reading, from, limit, total, polls);
    hide *;
    MovedIsSum(polls, total);
  }

  lemma GoesOnIs(reading: nat -> real, from: nat, limit: real, total: nat, polls: seq<int>)
    ensures GoesOn(reading, from, limit, total, polls) <==>
      reading(from + GuardAt(polls)) - reading(from + TimerFrom(polls)) < limit && Moved(polls, total) != total
  {
    hide Moved, GuardAt, TimerFrom;
  }

  lemma CourseGoesOn(reading: nat -> real, from: nat, limit: real, total: nat, polls: seq<int>, found: int)
    requires Course(reading, from, limit, total, polls) && GoesOn(reading, from, limit, total, polls)
    ensures Course(reading, from, limit, total, polls + [found])
    ensures Moved(polls + [found], total) == Moved(polls, total) + Chunk(found, total - Moved(polls, total))
    ensures GuardAt(polls + [found]) == GuardAt(polls) + if found > 0 then 2 else 1
    ensures TimerFrom(polls + [found]) == if found > 0 then GuardAt(polls) + 1 else TimerFrom(polls)
  {
    assert (polls + [found])[..|polls|] == polls;
    forall i | 0 <= i < |polls + [found]|
      ensures GoesOn(reading, from, limit, total, (polls + [found])[..i])
    {
      assert (polls + [found])[..i] == polls[..i];
      assert polls[..|polls|] == polls;
    }
  }

  /** Where a loop stands before the guard is evaluated: its timer, its clock, its course. By
  reading `deadline` the limit has passed for good. */
  datatype Stand = Stand(polls: seq<int>, start: real, now: real, deadline: nat)

  ghost predicate Timed(reading: nat -> real, count: nat, from: nat, limit: real, total: nat, s: Stand) {
    && count == from + GuardAt(s.polls) + 1
    && s.now == reading(from + GuardAt(s.polls)) && s.start == reading(from + TimerFrom(s.polls))
    && ShowsFrom(reading, s.deadline, s.start + limit)
    && Course(reading, from, limit, total, s.polls)
    && (forall i :: 0 <= i < |s.polls| ==> s.polls[i] >= 0)
  }

  lemma TimedAtFirst(reading: nat -> real, from: nat, limit: real, total: nat, deadline: nat)
    requires ShowsFrom(reading, deadline, reading(from) + limit)
    ensures Timed(reading, from + 2, from, limit, total, Stand([], reading(from), reading(from + 1), deadline))
    ensures Moved([], total) == 0
  {
  }

  lemma TimedGuard(reading: nat -> real, count: nat, from: nat, limit: real, total: nat, s: Stand)
    requires Timed(reading, count, from, limit, total, s)
    ensures s.now - s.start < limit && Moved(s.polls, total) != total ==>
      GoesOn(reading, from, limit, total, s.polls) && count <= s.deadline
    ensures !(s.now - s.start < limit && Moved(s.polls, total) != total) ==>
      Ended(reading, from, limit, total, s.polls)
    ensures count == from + GuardAt(s.polls) + 1 && forall i :: 0 <= i < |s.polls| ==> s.polls[i] >= 0
  {
  }

  lemma EndedEarly(reading: nat -> real, from: nat, limit: real, total: nat, polls: seq<int>)
    requires Ended(reading, from, limit, total, polls) && Moved(polls, total) != total
    ensures Elapsed(reading, from, polls) >= limit
  {
  }

  /** One turn: a poll, perhaps a restart with the reading after it, and the guard's reading. */
  lemma TimedFurther(reading: nat -> real, count: nat, from: nat, limit: real, total: nat, s: Stand, found: int,
                     s': Stand)
    requires Timed(reading, count, from, limit, total, s) && GoesOn(reading, from, limit, total, s.polls) && found >= 0
    requires s'.polls == s.polls + [found]
    requires if found > 0
      then s'.start == reading(count) && ShowsFrom(reading, s'.deadline, s'.start + limit)
      else s'.start == s.start && s'.deadline == s.deadline
    requires s'.now == reading(count + if found > 0 then 1 else 0)
    ensures Timed(reading, count + if found > 0 then 2 else 1, from, limit, total, s')
    ensures Moved(s'.polls, total) == Moved(s.polls, total) + Chunk(found, total - Moved(s.polls, total))
  {
    CourseGoesOn(reading, from, limit, total, s.polls, found);
  }

  // ---------- the entity ----------

  class Entity {
    const readBuffer: CircularReadBuffer
    const writeBuffer: CircularWriteBuffer
    var timeoutLimit: real

    constructor (readBuffer: CircularReadBuffer, writeBuffer: CircularWriteBuffer)
      ensures this.readBuffer == readBuffer && this.writeBuffer == writeBuffer && timeoutLimit == 120.0
    {
      this.readBuffer := readBuffer;
      this.writeBuffer := writeBuffer;
      timeoutLimit := 120.0;
    }

    /** The writer's end is at rest and a reader works at the other one. */
    ghost predicate CanWrite(peer: DrainingPeer)
      reads peer, writeBuffer.ring, writeBuffer.ring.cells
    {
      && writeBuffer.Attached() && peer.ring == writeBuffer.ring && peer.Valid()
      && peer.ring.written2 == peer.ring.written
    }

    /** The reader's end is at rest and a writer works at the other one. */
    ghost predicate CanRead(peer: FillingPeer)
      reads peer, readBuffer.ring, readBuffer.ring.cells
    {
      && readBuffer.Attached() && peer.ring == readBuffer.ring && peer.Valid()
      && peer.ring.read2 == peer.ring.read
    }

    method NumberOfBytesFreeToWrite(peer: DrainingPeer) returns (free: int)
      requires CanWrite(peer) && Pauses(peer.moves)
      modifies peer, writeBuffer`polls, writeBuffer.ring
      ensures CanWrite(peer) && 0 <= free <= peer.ring.Room()
      ensures writeBuffer.polls == old(writeBuffer.polls) + [free]
      ensures peer.ring.stream == old(peer.ring.stream) && peer.ring.written == old(peer.ring.written)
    {
      ghost var seen;
      free, seen := writeBuffer.NumberOfBytesFreeToWrite(peer);
    }

    /** Starts the timer. By reading `deadline` its limit has passed for good. */
    method Restart(clock: Clock) returns (start: real, ghost deadline: nat)
      requires Advances(clock.reading)
      modifies clock
      ensures clock.count == old(clock.count) + 1 && start == clock.reading(old(clock.count))
      ensures ShowsFrom(clock.reading, deadline, start + timeoutLimit)
    {
      start := clock.Now();
      deadline := Deadline(clock, start + timeoutLimit);
    }

    /** Hands bytes to the ring, after which the peer may act. */
    method Put(bytes: seq<Byte>, peer: DrainingPeer)
      requires CanWrite(peer) && |bytes| <= peer.ring.Room()
      modifies peer, writeBuffer.ring, writeBuffer.ring.cells
      ensures CanWrite(peer) && peer.ring.stream == old(peer.ring.stream) + bytes
    {
      var _ := writeBuffer.WriteData(bytes);
      peer.Move();
    }

    /** Writes what there is room for: all of `rest`, or as much as fits. */
    method WriteChunk(rest: seq<Byte>, freeBytes: int, peer: DrainingPeer) returns (count: nat)
      requires CanWrite(peer) && rest != [] && 0 < freeBytes <= peer.ring.Room()
      modifies peer, writeBuffer.ring, writeBuffer.ring.cells
      ensures CanWrite(peer) && count == Chunk(freeBytes, |rest|) && 0 < count <= |rest|
      ensures count == if freeBytes > |rest| then |rest| else freeBytes
      ensures peer.ring.stream == old(peer.ring.stream) + rest[..count]
    {
      if freeBytes > |rest| {
        Put(rest, peer);
        count := |rest|;
        assert rest[..count] == rest;
      } else {
        Put(rest[..freeBytes], peer);
        count := freeBytes;
      }
    }

    /** One turn of the loop: poll, and if there is room restart the timer and write. */
    method WriteRound(dataSource: seq<Byte>, at: nat, running: real, ghost deadline: nat, ghost before: seq<Byte>,
                      peer: DrainingPeer, clock: Clock)
      returns (start: real, count: nat, ghost found: int, ghost deadline': nat)
      requires CanWrite(peer) && Pauses(peer.moves) && Advances(clock.reading)
      requires at < |dataSource| && peer.ring.stream == before + dataSource[..at]
      modifies peer, clock, writeBuffer`polls, writeBuffer.ring, writeBuffer.ring.cells
      ensures CanWrite(peer) && writeBuffer.polls == old(writeBuffer.polls) + [found] && found >= 0
      ensures count == Chunk(found, |dataSource| - at) && (found > 0 <==> count > 0)
      ensures count == if found > |dataSource| - at then |dataSource| - at else found
      ensures peer.ring.stream == before + dataSource[..at + count]
      ensures clock.count == old(clock.count) + if found > 0 then 1 else 0
      ensures if found > 0
        then start == clock.reading(old(clock.count)) && ShowsFrom(clock.reading, deadline', start + timeoutLimit)
        else start == running && deadline' == deadline
    {
      hide *;
      start, count, deadline' := running, 0, deadline;
      var freeBytes := NumberOfBytesFreeToWrite(peer);
      found := freeBytes;
      ChunkIsSome(found, |dataSource| - at);
      if 0 < freeBytes {
        start, deadline' := Restart(clock);
        count := WriteChunk(dataSource[at..], freeBytes, peer);
        PrefixFurther(before, dataSource, at, count);
      }
    }

    /** The body of the loop, up to the next evaluation of the guard. */
    method WriteTurn(dataSource: seq<Byte>, at: nat, running: real, ghost s: Stand, ghost from: nat,
                     ghost before: seq<Byte>, peer: DrainingPeer, clock: Clock)
      returns (start: real, at': nat, now: real, ghost s': Stand)
      requires CanWrite(peer) && Pauses(peer.moves) && Advances(clock.reading)
      requires at < |dataSource| && peer.ring.stream == before + dataSource[..at]
      requires Timed(clock.reading, clock.count, from, timeoutLimit, |dataSource|, s)
      requires GoesOn(clock.reading, from, timeoutLimit, |dataSource|, s.polls)
      requires s.start == running && at == Moved(s.polls, |dataSource|)
      modifies peer, clock, writeBuffer`polls, writeBuffer.ring, writeBuffer.ring.cells
      ensures CanWrite(peer) && at <= at' <= |dataSource|
      ensures |s'.polls| > 0 && s'.polls[..|s'.polls| - 1] == s.polls
      ensures writeBuffer.polls == old(writeBuffer.polls) + s'.polls[|s.polls|..]
      ensures peer.ring.stream == before + dataSource[..at']
      ensures Timed(clock.reading, clock.count, from, timeoutLimit, |dataSource|, s')
      ensures s'.start == start && s'.now == now && at' == Moved(s'.polls, |dataSource|)
      ensures at' == at ==> s'.deadline == s.deadline && clock.count > old(clock.count)
    {
      hide *;
      var count;
      ghost var found, deadline;
      start, count, found, deadline := WriteRound(dataSource, at, running, s.deadline, before, peer, clock);
      at' := at + count;
      now := clock.Now();
      s' := Stand(s.polls + [found], start, now, deadline);
      TimedFurther(clock.reading, old(clock.count), from, timeoutLimit, |dataSource|, s, found, s');
    }

    /** The loop of `WriteData`, poll by poll. The timer starts again when bytes moved, which a
    drop in the bytes left pays for; otherwise the time left before the limit drops. */
    method WriteInChunks(dataSource: seq<Byte>, peer: DrainingPeer, clock: Clock)
      returns (numberOfBytesWritten: nat, ghost polls: seq<int>)
      requires CanWrite(peer) && Pauses(peer.moves) && Advances(clock.reading)
      modifies peer, clock, writeBuffer`polls, writeBuffer.ring, writeBuffer.ring.cells
      ensures CanWrite(peer) && writeBuffer.polls == old(writeBuffer.polls) + polls
      ensures forall i :: 0 <= i < |polls| ==> polls[i] >= 0
      ensures numberOfBytesWritten == Moved(polls, |dataSource|)
      ensures numberOfBytesWritten == if Sum(polls) < |dataSource| then Sum(polls) else |dataSource|
      ensures peer.ring.stream == old(peer.ring.stream) + dataSource[..numberOfBytesWritten]
      ensures clock.count == old(clock.count) + GuardAt(polls) + 1
      ensures Ended(clock.reading, old(clock.count), timeoutLimit, |dataSource|, polls)
    {
      ghost var before, from := peer.ring.stream, clock.count;
      var start;
      ghost var deadline: nat;
      start, deadline := Restart(clock);
      numberOfBytesWritten := 0;
      var now := clock.Now();
      TimedAtFirst(clock.reading, from, timeoutLimit, |dataSource|, deadline);
      ghost var s := Stand([], start, now, deadline);
      hide *;
      while now - start < timeoutLimit && numberOfBytesWritten != |dataSource|
        invariant CanWrite(peer) && numberOfBytesWritten <= |dataSource|
        invariant writeBuffer.polls == old(writeBuffer.polls) + s.polls
        invariant numberOfBytesWritten == Moved(s.polls, |dataSource|)
        invariant peer.ring.stream == before + dataSource[..numberOfBytesWritten]
        invariant s.start == start && s.now == now
        invariant Timed(clock.reading, clock.count, from, timeoutLimit, |dataSource|, s)
        decreases |dataSource| - numberOfBytesWritten, s.deadline - clock.count
      {
        TimedGuard(clock.reading, clock.count, from, timeoutLimit, |dataSource|, s);
        ghost var s' := s;
        start, numberOfBytesWritten, now, s :=
          WriteTurn(dataSource, numberOfBytesWritten, start, s, from, before, peer, clock);
        LoggedFurther(old(writeBuffer.polls), s'.polls, s.polls);
      }
      TimedGuard(clock.reading, clock.count, from, timeoutLimit, |dataSource|, s);
      polls := s.polls;
      MovedIsSum(polls, |dataSource|);
    }

    /** Appends a prefix of `dataSource` to the stream, whatever the reader drains meanwhile: all
    of it exactly when the result is true. What is moved is what the polls found, poll by poll;
    `TimerRunsFromLastMove` says what a result of false means: the limit went by since the
    last bytes moved, and every poll since then found no room. The call returns for every
    reader that comes to rest again and again and every clock that advances; never does it
    ask the ring for more than there is room for. */
    method WriteData(dataSource: seq<Byte>, peer: DrainingPeer, clock: Clock)
      returns (done: bool, ghost polls: seq<int>)
      requires CanWrite(peer) && Pauses(peer.moves) && Advances(clock.reading)
      modifies peer, clock, writeBuffer`polls, writeBuffer.ring, writeBuffer.ring.cells
      ensures CanWrite(peer) && polls != [] && writeBuffer.polls == old(writeBuffer.polls) + polls
      ensures forall i :: 0 <= i < |polls| ==> polls[i] >= 0
      ensures var k, total, rest := |peer.ring.stream| - |old(peer.ring.stream)|, |dataSource|, polls[1..];
        && 0 <= k <= total && peer.ring.stream == old(peer.ring.stream) + dataSource[..k]
        && (done <==> k == total)
        && if polls[0] >= total then done && rest == [] && clock.count == old(clock.count)
           else
             && k == Moved(rest, total) && clock.count == old(clock.count) + GuardAt(rest) + 1
             && Ended(clock.reading, old(clock.count), timeoutLimit, total, rest)
      ensures done <==> polls[0] >= |dataSource| || Sum(polls[1..]) >= |dataSource|
      ensures !done ==> |peer.ring.stream| == |old(peer.ring.stream)| + Sum(polls[1..])
      ensures !done ==> Elapsed(clock.reading, old(clock.count), polls[1..]) >= timeoutLimit
    {
      hide *;
      var free := NumberOfBytesFreeToWrite(peer);
      if free < |dataSource| {
        var numberOfBytesWritten;
        ghost var rest;
        numberOfBytesWritten, rest := WriteInChunks(dataSource, peer, clock);
        polls := [free] + rest;
        assert polls[1..] == rest;
        done := numberOfBytesWritten == |dataSource|;
        if !done {
          EndedEarly(clock.reading, old(clock.count), timeoutLimit, |dataSource|, rest);
        }
      } else {
        Put(dataSource, peer);
        done := true;
        polls := [free];
        assert dataSource[..|dataSource|] == dataSource;
      }
    }

    // ---------- reading ----------

    method NumberOfBytesAvailableToRead(peer: FillingPeer) returns (available: int)
      requires CanRead(peer) && FillPauses(peer.moves)
      modifies peer, readBuffer`polls, readBuffer.ring, readBuffer.ring.cells
      ensures CanRead(peer) && 0 <= available <= peer.ring.written2 - peer.ring.read
      ensures readBuffer.polls == old(readBuffer.polls) + [available]
      ensures old(peer.ring.stream) <= peer.ring.stream && peer.ring.read == old(peer.ring.read)
    {
      ghost var seen;
      available, seen := readBuffer.NumberOfBytesAvailableToRead(peer);
    }

    /** Takes bytes from the ring, after which the peer may act. */
    method Get(dataSink: array<Byte>, at: nat, count: nat, peer: FillingPeer)
      requires CanRead(peer) && count <= peer.ring.written2 - peer.ring.read
      requires dataSink != peer.ring.cells && at + count <= dataSink.Length
      modifies peer, dataSink, readBuffer.ring, readBuffer.ring.cells
      ensures CanRead(peer) && peer.ring.read == old(peer.ring.read) + count &&
        old(peer.ring.stream) <= peer.ring.stream
      ensures peer.ring.read <= |peer.ring.stream|
      ensures dataSink[at..at + count] == peer.ring.stream[old(peer.ring.read)..peer.ring.read]
      ensures forall i :: 0 <= i < dataSink.Length && !(at <= i < at + count) ==> dataSink[i] == old(dataSink[i])
    {
      hide *;
      ReaderIs(peer);
      ghost var stream, read := peer.ring.stream, peer.ring.read;
      var _ := readBuffer.ReadData(dataSink, at, count);
      WriterStays(peer);
      peer.Move();
      ReaderCan(peer);
      SameBytes(stream, peer.ring.stream, read, count);
    }

    lemma ReaderIs(peer: FillingPeer)
      requires CanRead(peer)
      ensures readBuffer.Attached() && peer.ring == readBuffer.ring
      ensures peer.ring.Valid() && peer.ring.read2 == peer.ring.read
      ensures !peer.midway ==> peer.ring.written2 == peer.ring.written
      ensures peer.ring.written2 <= |peer.ring.stream| && peer.ring.Contents() == peer.ring.stream[peer.ring.read..]
    {
    }

    lemma WriterStays(peer: FillingPeer)
      requires peer.ring.Valid() && (!peer.midway ==> peer.ring.written2 == peer.ring.written)
      ensures peer.Valid()
    {
    }

    lemma ReaderCan(peer: FillingPeer)
      requires readBuffer.Attached() && peer.ring == readBuffer.ring
      requires peer.Valid() && peer.ring.read2 == peer.ring.read
      ensures CanRead(peer) && peer.ring.read <= |peer.ring.stream|
    {
    }

    /** Reads what is there: all that is wanted, or as much as there is. */
    method ReadChunk(dataSink: array<Byte>, at: nat, wanted: nat, freeBytes: int, peer: FillingPeer)
      returns (count: nat)
      requires CanRead(peer) && 0 < freeBytes <= peer.ring.written2 - peer.ring.read
      requires dataSink != peer.ring.cells && 0 < wanted && at + wanted <= dataSink.Length
      modifies peer, dataSink, readBuffer.ring, readBuffer.ring.cells
      ensures CanRead(peer) && count == Chunk(freeBytes, wanted) && 0 < count <= wanted
      ensures count == if freeBytes > wanted then wanted else freeBytes
      ensures peer.ring.read == old(peer.ring.read) + count && old(peer.ring.stream) <= peer.ring.stream
      ensures peer.ring.read <= |peer.ring.stream|
      ensures dataSink[at..at + count] == peer.ring.stream[old(peer.ring.read)..peer.ring.read]
      ensures forall i :: 0 <= i < dataSink.Length && !(at <= i < at + count) ==> dataSink[i] == old(dataSink[i])
    {
      count := if freeBytes > wanted then wanted else freeBytes;
      Get(dataSink, at, count, peer);
    }

    method ReadRound(dataSink: array<Byte>, at: nat, wanted: nat, running: real, ghost deadline: nat,
                     ghost from: nat, ghost before: seq<Byte>, peer: FillingPeer, clock: Clock)
      returns (start: real, count: nat, ghost found: int, ghost deadline': nat)
      requires CanRead(peer) && FillPauses(peer.moves) && Advances(clock.reading)
      requires dataSink != peer.ring.cells && 0 < wanted && at + wanted <= dataSink.Length
      requires peer.ring.read == from + at && Received(dataSink[..], before, peer.ring.stream, from, peer.ring.read)
      modifies peer, clock, readBuffer`polls, readBuffer.ring, readBuffer.ring.cells, dataSink
      ensures CanRead(peer) && readBuffer.polls == old(readBuffer.polls) + [found] && found >= 0
      ensures count == Chunk(found, wanted) && count <= wanted && (found > 0 <==> count > 0)
      ensures count == if found > wanted then wanted else found
      ensures old(peer.ring.stream) <= peer.ring.stream && peer.ring.read == old(peer.ring.read) + count
      ensures Received(dataSink[..], before, peer.ring.stream, from, peer.ring.read)
      ensures clock.count == old(clock.count) + if found > 0 then 1 else 0
      ensures if found > 0
        then start == clock.reading(old(clock.count)) && ShowsFrom(clock.reading, deadline', start + timeoutLimit)
        else start == running && deadline' == deadline
    {
      hide *;
      start, count, deadline' := running, 0, deadline;
      ghost var stream := peer.ring.stream;
      var freeBytes := NumberOfBytesAvailableToRead(peer);
      StillReceived(dataSink[..], before, stream, peer.ring.stream, from, peer.ring.read);
      found := freeBytes;
      ChunkIsSome(found, wanted);
      if freeBytes != 0 {
        start, deadline' := Restart(clock);
        ghost var sink, stream' := dataSink[..], peer.ring.stream;
        count := ReadChunk(dataSink, at, wanted, freeBytes, peer);
        ReceivedFurther(dataSink, sink, before, stream', peer.ring.stream, from, at, count);
      }
    }

    /** The body of the loop, up to the next evaluation of the guard. */
    method ReadTurn(dataSink: array<Byte>, numberOfBytes: nat, at: nat, running: real, ghost s: Stand,
                    ghost started: nat, ghost from: nat, ghost before: seq<Byte>, peer: FillingPeer, clock: Clock)
      returns (start: real, at': nat, now: real, ghost s': Stand)
      requires CanRead(peer) && FillPauses(peer.moves) && Advances(clock.reading)
      requires at < numberOfBytes <= dataSink.Length && dataSink != peer.ring.cells
      requires peer.ring.read == from + at && Received(dataSink[..], before, peer.ring.stream, from, peer.ring.read)
      requires Timed(clock.reading, clock.count, started, timeoutLimit, numberOfBytes, s)
      requires GoesOn(clock.reading, started, timeoutLimit, numberOfBytes, s.polls)
      requires s.start == running && at == Moved(s.polls, numberOfBytes)
      modifies peer, clock, readBuffer`polls, readBuffer.ring, readBuffer.ring.cells, dataSink
      ensures CanRead(peer) && at <= at' <= numberOfBytes
      ensures |s'.polls| > 0 && s'.polls[..|s'.polls| - 1] == s.polls
      ensures readBuffer.polls == old(readBuffer.polls) + s'.polls[|s.polls|..]
      ensures old(peer.ring.stream) <= peer.ring.stream
      ensures peer.ring.read == from + at' && Received(dataSink[..], before, peer.ring.stream, from, peer.ring.read)
      ensures Timed(clock.reading, clock.count, started, timeoutLimit, numberOfBytes, s')
      ensures s'.start == start && s'.now == now && at' == Moved(s'.polls, numberOfBytes)
      ensures at' == at ==> s'.deadline == s.deadline && clock.count > old(clock.count)
    {
      hide *;
      var count;
      ghost var found, deadline;
      start, count, found, deadline :=
        ReadRound(dataSink, at, numberOfBytes - at, running, s.deadline, from, before, peer, clock);
      at' := at + count;
      now := clock.Now();
      s' := Stand(s.polls + [found], start, now, deadline);
      TimedFurther(clock.reading, old(clock.count), started, timeoutLimit, numberOfBytes, s, found, s');
    }

    /** The loop of `ReadData`, poll by poll. */
    method ReadInChunks(dataSink: array<Byte>, numberOfBytes: nat, peer: FillingPeer, clock: Clock)
      returns (numberOfBytesRead: nat, ghost polls: seq<int>)
      requires CanRead(peer) && FillPauses(peer.moves) && Advances(clock.reading)
      requires numberOfBytes <= dataSink.Length && dataSink != peer.ring.cells
      modifies peer, clock, readBuffer`polls, readBuffer.ring, readBuffer.ring.cells, dataSink
      ensures CanRead(peer) && readBuffer.polls == old(readBuffer.polls) + polls
      ensures forall i :: 0 <= i < |polls| ==> polls[i] >= 0
      ensures numberOfBytesRead == Moved(polls, numberOfBytes)
      ensures numberOfBytesRead == if Sum(polls) < numberOfBytes then Sum(polls) else numberOfBytes
      ensures old(peer.ring.stream) <= peer.ring.stream && peer.ring.read == old(peer.ring.read) + numberOfBytesRead
      ensures Received(dataSink[..], old(dataSink[..]), peer.ring.stream, old(peer.ring.read), peer.ring.read)
      ensures clock.count == old(clock.count) + GuardAt(polls) + 1
      ensures Ended(clock.reading, old(clock.count), timeoutLimit, numberOfBytes, polls)
    {
      ghost var before, from, started := dataSink[..], peer.ring.read, clock.count;
      NothingReceived(before, peer.ring.stream, from);
      var start;
      ghost var deadline: nat;
      start, deadline := Restart(clock);
      numberOfBytesRead := 0;
      var now := clock.Now();
      TimedAtFirst(clock.reading, started, timeoutLimit, numberOfBytes, deadline);
      ghost var s := Stand([], start, now, deadline);
      hide *;
      while now - start < timeoutLimit && numberOfBytesRead != numberOfBytes
        invariant CanRead(peer) && numberOfBytesRead <= numberOfBytes
        invariant readBuffer.polls == old(readBuffer.polls) + s.polls
        invariant numberOfBytesRead == Moved(s.polls, numberOfBytes)
        invariant old(peer.ring.stream) <= peer.ring.stream && peer.ring.read == from + numberOfBytesRead
        invariant Received(dataSink[..], before, peer.ring.stream, from, peer.ring.read)
        invariant s.start == start && s.now == now
        invariant Timed(clock.reading, clock.count, started, timeoutLimit, numberOfBytes, s)
        decreases numberOfBytes - numberOfBytesRead, s.deadline - clock.count
      {
        TimedGuard(clock.reading, clock.count, started, timeoutLimit, numberOfBytes, s);
        ghost var s' := s;
        start, numberOfBytesRead, now, s :=
          ReadTurn(dataSink, numberOfBytes, numberOfBytesRead, start, s, started, from, before, peer, clock);
        LoggedFurther(old(readBuffer.polls), s'.polls, s.polls);
      }
      TimedGuard(clock.reading, clock.count, started, timeoutLimit, numberOfBytes, s);
      polls := s.polls;
      MovedIsSum(polls, numberOfBytes);
    }

    /** Fills a prefix of the first `numberOfBytes` of `dataSink` with the next bytes of the
    stream, and nothing behind it; all of it exactly when the result is true. The polls and
    the timer are as for writing. */
    method ReadData(dataSink: array<Byte>, numberOfBytes: nat, peer: FillingPeer, clock: Clock)
      returns (done: bool, ghost polls: seq<int>)
      requires CanRead(peer) && FillPauses(peer.moves) && Advances(clock.reading)
      requires numberOfBytes <= dataSink.Length && dataSink != peer.ring.cells
      modifies peer, clock, readBuffer`polls, readBuffer.ring, readBuffer.ring.cells, dataSink
      ensures CanRead(peer) && polls != [] && readBuffer.polls == old(readBuffer.polls) + polls
      ensures forall i :: 0 <= i < |polls| ==> polls[i] >= 0
      ensures old(peer.ring.stream) <= peer.ring.stream
      ensures Received(dataSink[..], old(dataSink[..]), peer.ring.stream, old(peer.ring.read), peer.ring.read)
      ensures var k, total, rest := peer.ring.read - old(peer.ring.read), numberOfBytes, polls[1..];
        && 0 <= k <= total && (done <==> k == total)
        && if polls[0] >= total then done && rest == [] && clock.count == old(clock.count)
           else
             && k == Moved(rest, total) && clock.count == old(clock.count) + GuardAt(rest) + 1
             && Ended(clock.reading, old(clock.count), timeoutLimit, total, rest)
      ensures done <==> polls[0] >= numberOfBytes || Sum(polls[1..]) >= numberOfBytes
      ensures !done ==> peer.ring.read == old(peer.ring.read) + Sum(polls[1..])
      ensures !done ==> Elapsed(clock.reading, old(clock.count), polls[1..]) >= timeoutLimit
    {
      hide *;
      var available := NumberOfBytesAvailableToRead(peer);
      if available < numberOfBytes {
        var numberOfBytesRead;
        ghost var rest;
        numberOfBytesRead, rest := ReadInChunks(dataSink, numberOfBytes, peer, clock);
        polls := [available] + rest;
        assert polls[1..] == rest;
        done := numberOfBytesRead == numberOfBytes;
        if !done {
          EndedEarly(clock.reading, old(clock.count), timeoutLimit, numberOfBytes, rest);
        }
      } else {
        ReadAtOnce(dataSink, numberOfBytes, peer);
        done := true;
        polls := [available];
      }
    }

    method ReadAtOnce(dataSink: array<Byte>, numberOfBytes: nat, peer: FillingPeer)
      requires CanRead(peer) && numberOfBytes <= peer.ring.written2 - peer.ring.read
      requires numberOfBytes <= dataSink.Length && dataSink != peer.ring.cells
      modifies peer, dataSink, readBuffer.ring, readBuffer.ring.cells
      ensures CanRead(peer) && peer.ring.read == old(peer.ring.read) + numberOfBytes
      ensures old(peer.ring.stream) <= peer.ring.stream
      ensures Received(dataSink[..], old(dataSink[..]), peer.ring.stream, old(peer.ring.read), peer.ring.read)
    {
      ghost var before, from, stream := dataSink[..], peer.ring.read, peer.ring.stream;
      NothingReceived(before, stream, from);
      hide CanRead, Received;
      Get(dataSink, 0, numberOfBytes, peer);
      ReceivedFurther(dataSink, before, before, stream, peer.ring.stream, from, 0, numberOfBytes);
    }
  }

  lemma NothingReceived(sink: seq<Byte>, stream: seq<Byte>, from: nat)
    requires from <= |stream|
    ensures Received(sink, sink, stream, from, from)
  {
  }

  lemma SameBytes(stream: seq<Byte>, stream': seq<Byte>, read: nat, count: nat)
    requires stream <= stream' && read + count <= |stream|
    ensures stream[read..][..count] == stream'[read..read + count]
  {
  }

  /** The sink holds what has been read since position `from`, and behind it what it held. */
  ghost predicate Received(sink: seq<Byte>, before: seq<Byte>, stream: seq<Byte>, from: nat, read: nat) {
    from <= read <= |stream| && Filled(sink, before, stream[from..read])
  }

  lemma StillReceived(sink: seq<Byte>, before: seq<Byte>, stream: seq<Byte>, stream': seq<Byte>, from: nat, read: nat)
    requires Received(sink, before, stream, from, read) && stream <= stream'
    ensures Received(sink, before, stream', from, read)
  {
    assert stream'[from..read] == stream[from..read];
  }

  lemma ReceivedFurther(dataSink: array<Byte>, sink: seq<Byte>, before: seq<Byte>, stream: seq<Byte>,
                        stream': seq<Byte>, from: nat, at: nat, count: nat)
    requires Received(sink, before, stream, from, from + at) && stream <= stream'
    requires from + at + count <= |stream'| && |sink| == dataSink.Length && at + count <= |sink|
    requires dataSink[at..at + count] == stream'[from + at..from + at + count]
    requires forall i :: 0 <= i < dataSink.Length && !(at <= i < at + count) ==> dataSink[i] == sink[i]
    ensures Received(dataSink[..], before, stream', from, from + at + count)
  {
    var bytes, more := stream[from..from + at], stream'[from + at..from + at + count];
    assert dataSink[..][at..at + count] == dataSink[at..at + count];
    FilledFurther(sink, dataSink[..], before, bytes, more);
    assert stream'[from..from + at + count] == bytes + more by {
      assert bytes == stream'[from..from + at];
    }
  }

  lemma ChunkIsSome(found: int, wanted: nat)
    requires found >= 0 && wanted > 0
    ensures Chunk(found, wanted) <= wanted && (found > 0 <==> Chunk(found, wanted) > 0)
    ensures Chunk(found, wanted) == if found > wanted then wanted else found
  {
  }

  lemma PrefixFurther(before: seq<Byte>, data: seq<Byte>, at: nat, count: nat)
    requires at + count <= |data|
    ensures before + data[..at] + data[at..][..count] == before + data[..at + count]
  {
  }

  lemma LoggedFurther(before: seq<int>, polls: seq<int>, polls': seq<int>)
    requires |polls'| > 0 && polls'[..|polls'| - 1] == polls
    ensures before + polls + polls'[|polls|..] == before + polls'
  {
    assert polls' == polls + polls'[|polls|..];
  }

  /** `bytes` first, then what was there before. */
  ghost predicate Filled(sink: seq<Byte>, before: seq<Byte>, bytes: seq<Byte>) {
    |sink| == |before| && |bytes| <= |sink| && sink == bytes + before[|bytes|..]
  }

  lemma FilledFurther(sink: seq<Byte>, sink': seq<Byte>, before: seq<Byte>, bytes: seq<Byte>, more: seq<Byte>)
    requires Filled(sink, before, bytes) && |sink'| == |sink| && |bytes| + |more| <= |sink|
    requires sink'[|bytes|..|bytes| + |more|] == more
    requires forall i :: 0 <= i < |sink| && !(|bytes| <= i < |bytes| + |more|) ==> sink'[i] == sink[i]
    ensures Filled(sink', before, bytes + more)
  {
    var at, end := |bytes|, |bytes| + |more|;
    assert sink' == sink'[..at] + sink'[at..end] + sink'[end..];
    assert sink'[..at] == bytes;
    assert sink'[end..] == sink[end..] == before[end..];
  }
}
