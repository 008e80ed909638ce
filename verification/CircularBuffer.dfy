/** The ring as the code has it: classes over a byte array and four shared words.

Here a call runs to its end against a peer that acts at the points where the call looks at
the shared words. `SharedRing` carries the unbounded positions and the published stream as
ghost state; its contents are a bounded queue of capacity `n - 1`.
*/
module CircularBuffer {
  import opened Remainders
  import opened RingArithmetic

  /** Every byte from position `read` on lies in the cell of its position. */
  ghost predicate Holds(cells: seq<Byte>, stream: seq<Byte>, read: nat) {
    |cells| > 0 && forall i {:trigger stream[i]} :: read <= i < |stream| ==> cells[i % |cells|] == stream[i]
  }

  /** Copying ahead of the stream's end, short of the unread bytes, keeps those and lays down
  the continuation of the stream. */
  lemma CopyAhead(cells: seq<Byte>, cells': seq<Byte>, stream: seq<Byte>, read: nat, data: seq<Byte>)
    requires Holds(cells, stream, read) && |cells'| == |cells| && read <= |stream|
    requires |stream| % |cells| + |data| <= |cells| && |stream| + |data| < read + |cells|
    requires forall k :: 0 <= k < |cells| ==>
      var p := |stream| % |cells|;
      cells'[k] == if p <= k < p + |data| then data[k - p] else cells[k]
    ensures Holds(cells', stream, read)
    ensures Holds(cells', stream + data, read)
  {
    var n, w := |cells|, |stream|;
    forall i | read <= i < w + |data|
      ensures cells'[i % n] == (stream + data)[i]
    {
      if i >= w {
        ModAdvance(w, i - w, n);
      } else if w % n <= i % n < w % n + |data| {
        var offset := i % n - w % n;
        ModAdvance(w, offset, n);
        WordsTellPositionsApart(i, w + offset, n);
        assert false;
      }
    }
    assert forall i :: read <= i < w ==> (stream + data)[i] == stream[i];
  }

  class SharedRing {
    const n: nat
    const cells: array<Byte>
    var producer: int
    var secondProducer: int
    var consumer: int
    var secondConsumer: int

    /** The positions the four words stand for. */
    ghost var written: nat
    ghost var written2: nat
    ghost var read: nat
    ghost var read2: nat
    /** All bytes ever published. */
    ghost var stream: seq<Byte>

    ghost predicate Sized() {
      RingSize(n) && cells.Length == n
    }

    ghost predicate Valid()
      reads this, cells
    {
      && Sized()
      && producer == written % n && secondProducer == written2 % n
      && consumer == read % n && secondConsumer == read2 % n
      && read2 <= read <= written2 <= written <= read2 + n - 1
      && |stream| == written
      && Holds(cells[..], stream, read)
    }

    /** Published and not yet released. */
    ghost function Contents(): (queue: seq<Byte>)
      requires Valid()
      reads this, cells
      ensures |queue| <= n - 1
    {
      stream[read..]
    }

    /** Bytes the writer may still publish. */
    ghost function Room(): int
      reads this
    {
      n - 1 - (written - read2)
    }

    /** A region as `memset` leaves it. */
    constructor (n: nat)
      requires RingSize(n)
      ensures this.n == n && Valid() && stream == [] && read == 0 && fresh(cells)
      ensures written2 == written && read2 == read
    {
      this.n := n;
      this.cells := new Byte[n];
      producer, secondProducer, consumer, secondConsumer := 0, 0, 0, 0;
      written, written2, read, read2, stream := 0, 0, 0, 0, [];
      new;
      ModIs(0, 0, 0, n);
    }
  }

  method Memcpy(target: array<Byte>, at: nat, source: seq<Byte>)
    requires at + |source| <= target.Length
    modifies target
    ensures forall i :: 0 <= i < target.Length ==>
      target[i] == if at <= i < at + |source| then source[i - at] else old(target[i])
  {
    for k := 0 to |source|
      invariant forall i :: 0 <= i < target.Length ==>
        target[i] == if at <= i < at + k then source[i - at] else old(target[i])
    {
      target[at + k] := source[k];
    }
  }

  // ---------- the writer ----------

  class CircularWriteBuffer {
    const ring: SharedRing
    const bufferSize: nat
    const effectiveBufferSize: nat
    /** All counts returned so far. */
    ghost var polls: seq<int>

    ghost predicate Attached() {
      bufferSize == ring.n + RESERVE_SIZE && effectiveBufferSize == ring.n
    }

    /** Clears the four words; the ring is empty afterwards, whatever it held. */
    constructor (ring: SharedRing, bufferSize: nat)
      requires ring.Sized() && bufferSize == ring.n + RESERVE_SIZE
      modifies ring
      ensures this.ring == ring && Attached()
      ensures ring.Valid() && ring.stream == [] && ring.Contents() == []
      ensures ring.written2 == ring.written && ring.read2 == ring.read
    {
      this.ring := ring;
      this.bufferSize := bufferSize;
      this.effectiveBufferSize := bufferSize - RESERVE_SIZE;
      polls := [];
      new;
      ring.producer := 0;
      ring.secondProducer := 0;
      ring.consumer := 0;
      ring.secondConsumer := 0;
      ring.written, ring.written2, ring.read, ring.read2, ring.stream := 0, 0, 0, 0, [];
      ModIs(0, 0, 0, ring.n);
    }

    /** Publishes `data`, which has been copied to the producer's cells. */
    method AdvanceProducer(amount: nat, ghost data: seq<Byte>)
      requires Attached() && ring.Valid() && ring.written2 == ring.written
      requires amount == |data| <= ring.Room() && ring.producer + amount <= ring.n
      requires Holds(ring.cells[..], ring.stream + data, ring.read)
      modifies ring`producer, ring`secondProducer, ring`written, ring`written2, ring`stream
      ensures ring.Valid() && ring.written2 == ring.written
      ensures ring.stream == old(ring.stream) + data
      ensures ring.producer == if old(ring.producer) + amount == ring.n then 0 else old(ring.producer) + amount
    {
      var newProducerPointerValue := Add64(ring.producer, amount);
      if newProducerPointerValue >= effectiveBufferSize {
        newProducerPointerValue := newProducerPointerValue % effectiveBufferSize;
      }
      AdvanceIsExact(ring.written, amount, ring.n);
      ModAdvance(ring.written, amount, ring.n);
      ghost var before := ring.written;
      ring.producer := newProducerPointerValue;
      ring.secondProducer := newProducerPointerValue;
      ring.written := before + amount;
      ring.written2 := ring.written;
      ring.stream := ring.stream + data;
    }

    /** One `memcpy` and one advance: append, as long as the end of the buffer is not passed. */
    method WriteSegment(dataSource: seq<Byte>)
      requires Attached() && ring.Valid() && ring.written2 == ring.written
      requires |dataSource| <= ring.Room() && ring.producer + |dataSource| <= ring.n
      modifies ring.cells, ring`producer, ring`secondProducer, ring`written, ring`written2, ring`stream
      ensures ring.Valid() && ring.written2 == ring.written
      ensures ring.stream == old(ring.stream) + dataSource
      ensures ring.producer ==
        if old(ring.producer) + |dataSource| == ring.n then 0 else old(ring.producer) + |dataSource|
    {
      ghost var before := ring.cells[..];
      Memcpy(ring.cells, ring.producer, dataSource);
      CopyAhead(before, ring.cells[..], ring.stream, ring.read, dataSource);
      AdvanceProducer(|dataSource|, dataSource);
    }

    /** `WriteData` appends all it is given, in one segment or in two. */
    method WriteData(dataSource: seq<Byte>) returns (done: bool)
      requires Attached() && ring.Valid() && ring.written2 == ring.written
      requires |dataSource| <= ring.Room()
      modifies ring.cells, ring`producer, ring`secondProducer, ring`written, ring`written2, ring`stream
      ensures done && ring.Valid() && ring.written2 == ring.written
      ensures ring.stream == old(ring.stream) + dataSource
      ensures ring.Contents() == old(ring.Contents()) + dataSource
    {
      var numberOfBytesBeforeWraparound := Sub64(effectiveBufferSize, ring.producer);
      Small64(ring.n - ring.producer);
      if numberOfBytesBeforeWraparound >= |dataSource| {
        WriteSegment(dataSource);
        done := true;
      } else {
        WriteSegment(dataSource[..numberOfBytesBeforeWraparound]);
        WriteSegment(dataSource[numberOfBytesBeforeWraparound..]);
        assert dataSource == dataSource[..numberOfBytesBeforeWraparound] + dataSource[numberOfBytesBeforeWraparound..];
        done := true;
      }
    }

    /** The second copy, then the first; the reader may act before each load. */
    method LoadConsumer(peer: DrainingPeer) returns (second: int, first: int, ghost at: nat)
      requires peer.ring == ring && peer.Valid()
      modifies peer`now, peer`midway, ring`consumer, ring`secondConsumer, ring`read, ring`read2
      ensures peer.Valid() && peer.now == old(peer.now) + 2
      ensures second == at % ring.n && first == ring.consumer
      ensures old(ring.read2) <= at <= ring.read2 && ring.written <= at + ring.n - 1
      ensures old(ring.read) <= ring.read
      ensures Rests(peer.moves(old(peer.now))) && Rests(peer.moves(old(peer.now) + 1)) ==> second == first
    {
      peer.Move();
      second := ring.secondConsumer;
      at := ring.read2;
      peer.Move();
      first := ring.consumer;
    }

    /** The double load, repeated until the copies match. Then the value seen is the reader's
    position, in both copies, at the last load. */
    method PollConsumer(peer: DrainingPeer) returns (nonvolatileConsumerPointer: int)
      requires peer.ring == ring && peer.Valid() && Pauses(peer.moves)
      modifies peer`now, peer`midway, ring`consumer, ring`secondConsumer, ring`read, ring`read2
      ensures peer.Valid() && ring.read >= old(ring.read) && ring.read2 >= old(ring.read2)
      ensures ring.read2 == ring.read && nonvolatileConsumerPointer == ring.read % ring.n
    {
      hide Holds;
      ghost var pause := peer.NextPause();
      var nonvolatileConsumerCheckPointer;
      ghost var at;
      nonvolatileConsumerPointer, nonvolatileConsumerCheckPointer, at := LoadConsumer(peer);
      while nonvolatileConsumerPointer != nonvolatileConsumerCheckPointer
        invariant peer.Valid() && ring.read >= old(ring.read) && ring.read2 >= old(ring.read2)
        invariant nonvolatileConsumerPointer == at % ring.n && at <= ring.read2 && ring.written <= at + ring.n - 1
        invariant nonvolatileConsumerCheckPointer == ring.consumer
        invariant peer.now >= pause + 2 ==> nonvolatileConsumerPointer == nonvolatileConsumerCheckPointer
        decreases pause + 2 - peer.now
      {
        nonvolatileConsumerPointer, nonvolatileConsumerCheckPointer, at := LoadConsumer(peer);
      }
      WordsTellPositionsApart(at, ring.read, ring.n);
    }

    /** The room there was at the last load, when the reader stood at `seen`. The reader goes
    on meanwhile, so that at the return there may be more. */
    method NumberOfBytesFreeToWrite(peer: DrainingPeer) returns (free: int, ghost seen: nat)
      requires Attached() && peer.ring == ring && peer.Valid()
      requires ring.written2 == ring.written && Pauses(peer.moves)
      modifies `polls, peer`now, peer`midway, ring`consumer, ring`secondConsumer, ring`read, ring`read2
      ensures peer.Valid() && old(ring.read) <= seen <= ring.read2
      ensures free == ring.n - 1 - (ring.written - seen)
      ensures 0 <= free <= ring.Room()
      ensures peer.now > 0 && (Rests(peer.moves(peer.now - 1)) ==> free == ring.Room())
      ensures polls == old(polls) + [free]
    {
      var nonvolatileConsumerPointer := PollConsumer(peer);
      seen := ring.read;
      peer.Move();
      FreeCountIsExact(seen, ring.written, ring.n);
      if nonvolatileConsumerPointer > ring.producer {
        free := Sub64(Sub64(nonvolatileConsumerPointer, ring.producer), 1);
      } else {
        free := Sub64(Sub64(Add64(nonvolatileConsumerPointer, effectiveBufferSize), ring.producer), 1);
      }
      polls := polls + [free];
    }
  }

  // ---------- a reader at the other end ----------

  /** Half a release: `Settle` is the second store of one that is under way, `Release` the
  first store of one of up to so many bytes. */
  datatype DrainMove = Settle | Release(amount: nat)

  predicate Rests(moves: seq<DrainMove>) {
    moves != [] && forall i :: 0 <= i < |moves| ==> moves[i].Settle?
  }

  /** Three times in a row from `t` on nothing new is begun. */
  ghost predicate PauseAt(moves: nat -> seq<DrainMove>, t: nat) {
    Rests(moves(t)) && Rests(moves(t + 1)) && Rests(moves(t + 2))
  }

  ghost predicate PausesAfter(moves: nat -> seq<DrainMove>, t: nat) {
    exists u: nat :: t <= u && PauseAt(moves, u)
  }

  /** The peer comes to rest again and again: count calls return. */
  ghost predicate Pauses(moves: nat -> seq<DrainMove>) {
    forall t: nat :: PausesAfter(moves, t)
  }

  /** Whatever a reader does, it may do between pauses. */
  lemma AnyMovesBetweenPauses(moves: nat -> seq<DrainMove>)
    ensures Pauses((t: nat) => if t % 6 < 3 then moves(t) else [Settle])
  {
    var script := (t: nat) => if t % 6 < 3 then moves(t) else [Settle];
    forall t: nat
      ensures PausesAfter(script, t)
    {
      var u: nat := 6 * t + 3;
      assert u % 6 == 3 && (u + 1) % 6 == 4 && (u + 2) % 6 == 5;
      assert PauseAt(script, u);
    }
  }

  /** A reader that makes any number of half releases whenever it may act; four of them are a
  `ReadData` across the wraparound. */
  class DrainingPeer {
    const ring: SharedRing
    const moves: nat -> seq<DrainMove>
    var now: nat
    var midway: bool

    ghost predicate Valid()
      reads this, ring, ring.cells
    {
      ring.Valid() && (!midway ==> ring.read2 == ring.read)
    }

    constructor (ring: SharedRing, moves: nat -> seq<DrainMove>)
      requires ring.Valid() && ring.read2 == ring.read
      ensures this.ring == ring && this.moves == moves && Valid() && now == 0 && !midway
    {
      this.ring := ring;
      this.moves := moves;
      now, midway := 0, false;
    }

    ghost method NextPause() returns (u: nat)
      requires Pauses(moves)
      ensures now <= u && PauseAt(moves, u)
    {
      assert PausesAfter(moves, now);
      u :| now <= u && PauseAt(moves, u);
    }

    method HalfMove(move: DrainMove)
      requires Valid()
      modifies `midway, ring`consumer, ring`secondConsumer, ring`read, ring`read2
      ensures Valid() && ring.read >= old(ring.read) && ring.read2 >= old(ring.read2)
      ensures move.Settle? ==> ring.read == old(ring.read) && ring.read2 == ring.read && !midway
      ensures move.Release? ==> midway && ring.read2 == old(ring.read2)
      ensures move.Release? && !old(midway) ==>
        var unread, toEnd := ring.written2 - old(ring.read), ring.n - old(ring.consumer);
        var most := if unread < toEnd then unread else toEnd;
        ring.read == old(ring.read) + if move.amount < most then move.amount else most
    {
      match move {
        case Settle =>
          ring.secondConsumer := ring.consumer;
          ring.read2 := ring.read;
          midway := false;
        case Release(amount) =>
          if !midway {
            AvailableCountIsExact(ring.read, ring.written2, ring.n);
            var available := AvailableCount(ring.secondProducer, ring.consumer, ring.n);
            var k := amount;
            if k > available { k := available; }
            if k > ring.n - ring.consumer { k := ring.n - ring.consumer; }
            AdvanceIsExact(ring.read, k, ring.n);
            ring.consumer := AdvanceWord(ring.consumer, k, ring.n);
            ring.read := ring.read + k;
            midway := true;
          }
      }
    }

    /** The peer acts. */
    method Move()
      requires Valid()
      modifies this`now, this`midway, ring`consumer, ring`secondConsumer, ring`read, ring`read2
      ensures Valid() && now == old(now) + 1
      ensures ring.read >= old(ring.read) && ring.read2 >= old(ring.read2)
      ensures Rests(moves(old(now))) ==> ring.read == old(ring.read) && ring.read2 == ring.read && !midway
    {
      var todo := moves(now);
      now := now + 1;
      assert Rests(todo) ==> todo != [] && forall i :: 0 <= i < |todo| ==> todo[i].Settle?;
      hide *;
      for i := 0 to |todo|
        invariant Valid() && now == old(now) + 1 && ring.read >= old(ring.read) && ring.read2 >= old(ring.read2)
        invariant Rests(todo) ==> ring.read == old(ring.read) && (i > 0 ==> ring.read2 == ring.read && !midway)
      {
        HalfMove(todo[i]);
      }
    }
  }

  // ---------- the reader ----------

  class CircularReadBuffer {
    const ring: SharedRing
    const bufferSize: nat
    const effectiveBufferSize: nat
    /** All counts returned so far. */
    ghost var polls: seq<int>

    ghost predicate Attached() {
      bufferSize == ring.n + RESERVE_SIZE && effectiveBufferSize == ring.n
    }

    /** Stores nothing to the shared words: a ring that is in use stays in use. */
    constructor (ring: SharedRing, bufferSize: nat)
      requires ring.Sized() && bufferSize == ring.n + RESERVE_SIZE
      ensures this.ring == ring && Attached()
    {
      this.ring := ring;
      this.bufferSize := bufferSize;
      this.effectiveBufferSize := bufferSize - RESERVE_SIZE;
      polls := [];
    }

    method AdvanceConsumer(amount: nat)
      requires Attached() && ring.Valid() && ring.read2 == ring.read
      requires amount <= ring.written2 - ring.read && ring.consumer + amount <= ring.n
      modifies ring`consumer, ring`secondConsumer, ring`read, ring`read2
      ensures ring.Valid() && ring.read2 == ring.read == old(ring.read) + amount
      ensures ring.consumer == if old(ring.consumer) + amount == ring.n then 0 else old(ring.consumer) + amount
    {
      var newConsumerPointerValue := Add64(ring.consumer, amount);
      if newConsumerPointerValue >= effectiveBufferSize {
        newConsumerPointerValue := newConsumerPointerValue % effectiveBufferSize;
      }
      AdvanceIsExact(ring.read, amount, ring.n);
      ModAdvance(ring.read, amount, ring.n);
      ring.consumer := newConsumerPointerValue;
      ring.secondConsumer := newConsumerPointerValue;
      ring.read := ring.read + amount;
      ring.read2 := ring.read;
    }

    /** One `memcpy` and one advance: take a prefix, short of the end of the buffer. */
    method ReadSegment(dataSink: array<Byte>, at: nat, numberOfBytes: nat)
      requires Attached() && ring.Valid() && ring.read2 == ring.read
      requires numberOfBytes <= ring.written2 - ring.read && ring.consumer + numberOfBytes <= ring.n
      requires dataSink != ring.cells && at + numberOfBytes <= dataSink.Length
      modifies dataSink, ring`consumer, ring`secondConsumer, ring`read, ring`read2
      ensures ring.Valid() && ring.read2 == ring.read == old(ring.read) + numberOfBytes
      ensures ring.consumer ==
        if old(ring.consumer) + numberOfBytes == ring.n then 0 else old(ring.consumer) + numberOfBytes
      ensures forall i :: 0 <= i < dataSink.Length ==>
        dataSink[i] == if at <= i < at + numberOfBytes then ring.stream[old(ring.read) + i - at] else old(dataSink[i])
    {
      Memcpy(dataSink, at, ring.cells[ring.consumer..ring.consumer + numberOfBytes]);
      CellsAreStream(ring.cells[..], ring.stream, ring.read, numberOfBytes);
      assert ring.cells[ring.consumer..ring.consumer + numberOfBytes] ==
        ring.cells[..][ring.consumer..ring.consumer + numberOfBytes];
      AdvanceConsumer(numberOfBytes);
    }

    /** `ReadData` takes the oldest bytes, in one segment or in two. */
    method ReadData(dataSink: array<Byte>, at: nat, numberOfBytes: nat) returns (done: bool)
      requires Attached() && ring.Valid() && ring.read2 == ring.read
      requires numberOfBytes <= ring.written2 - ring.read
      requires dataSink != ring.cells && at + numberOfBytes <= dataSink.Length
      modifies dataSink, ring`consumer, ring`secondConsumer, ring`read, ring`read2
      ensures done && ring.Valid() && ring.read2 == ring.read == old(ring.read) + numberOfBytes
      ensures dataSink[at..at + numberOfBytes] == old(ring.Contents())[..numberOfBytes]
      ensures forall i :: 0 <= i < dataSink.Length && !(at <= i < at + numberOfBytes) ==>
        dataSink[i] == old(dataSink[i])
      ensures ring.Contents() == old(ring.Contents())[numberOfBytes..]
    {
      var numberOfBytesBeforeWraparound := Sub64(Sub64(bufferSize, ring.consumer), RESERVE_SIZE);
      Small64(bufferSize - ring.consumer);
      Small64(ring.n - ring.consumer);
      ghost var stream, r := ring.stream, ring.read;
      hide Holds, Sub64;
      if numberOfBytesBeforeWraparound >= numberOfBytes {
        ReadSegment(dataSink, at, numberOfBytes);
        done := true;
      } else {
        var k := numberOfBytesBeforeWraparound;
        ReadSegment(dataSink, at, k);
        ReadSegment(dataSink, at + k, numberOfBytes - k);
        done := true;
      }
      SinkIsQueue(dataSink[..], at, numberOfBytes, stream, r);
      assert dataSink[at..at + numberOfBytes] == dataSink[..][at..at + numberOfBytes];
    }

    /** The second copy, then the first; the writer may act before each load. */
    method LoadProducer(peer: FillingPeer) returns (second: int, first: int, ghost at: nat)
      requires peer.ring == ring && peer.Valid()
      modifies peer`now, peer`midway, ring.cells, ring`producer, ring`secondProducer, ring`written, ring`written2,
        ring`stream
      ensures peer.Valid() && peer.now == old(peer.now) + 2
      ensures old(ring.stream) <= ring.stream
      ensures second == at % ring.n && first == ring.producer
      ensures old(ring.written2) <= at <= ring.written2
      ensures FillRests(peer.moves(old(peer.now))) && FillRests(peer.moves(old(peer.now) + 1)) ==> second == first
    {
      peer.Move();
      second := ring.secondProducer;
      at := ring.written2;
      peer.Move();
      first := ring.producer;
    }

    /** The double load of the producer words, repeated until the copies match. */
    method PollProducer(peer: FillingPeer) returns (nonvolatileProducerPointer: int)
      requires peer.ring == ring && peer.Valid() && FillPauses(peer.moves)
      modifies peer`now, peer`midway, ring.cells, ring`producer, ring`secondProducer, ring`written, ring`written2,
        ring`stream
      ensures peer.Valid() && old(ring.stream) <= ring.stream
      ensures ring.written2 == ring.written && nonvolatileProducerPointer == ring.written % ring.n
    {
      hide Holds;
      ghost var pause := peer.NextPause();
      var nonvolatileProducerPointerCheck;
      ghost var at;
      nonvolatileProducerPointer, nonvolatileProducerPointerCheck, at := LoadProducer(peer);
      while nonvolatileProducerPointer != nonvolatileProducerPointerCheck
        invariant peer.Valid() && old(ring.stream) <= ring.stream
        invariant nonvolatileProducerPointer == at % ring.n && ring.read <= at <= ring.written2
        invariant nonvolatileProducerPointerCheck == ring.producer
        invariant peer.now >= pause + 2 ==> nonvolatileProducerPointer == nonvolatileProducerPointerCheck
        decreases pause + 2 - peer.now
      {
        nonvolatileProducerPointer, nonvolatileProducerPointerCheck, at := LoadProducer(peer);
      }
      WordsTellPositionsApart(at, ring.written, ring.n);
    }

    /** What there was to read at the last load, when the stream was `seen`. The writer goes on
    meanwhile, so that at the return there may be more. */
    method NumberOfBytesAvailableToRead(peer: FillingPeer) returns (available: int, ghost seen: seq<Byte>)
      requires Attached() && peer.ring == ring && peer.Valid()
      requires ring.read2 == ring.read && FillPauses(peer.moves)
      modifies `polls, peer`now, peer`midway, ring.cells, ring`producer, ring`secondProducer, ring`written,
        ring`written2, ring`stream
      ensures peer.Valid() && old(ring.stream) <= seen <= ring.stream && |seen| <= ring.written2
      ensures available == |seen| - ring.read
      ensures 0 <= available <= ring.written2 - ring.read
      ensures peer.now > 0 && (FillRests(peer.moves(peer.now - 1)) ==> available == |ring.Contents()|)
      ensures polls == old(polls) + [available]
    {
      var nonvolatileProducerPointer := PollProducer(peer);
      seen := ring.stream;
      AvailableCountIsExact(ring.read, ring.written, ring.n);
      peer.Move();
      if nonvolatileProducerPointer >= ring.consumer {
        available := Sub64(nonvolatileProducerPointer, ring.consumer);
      } else {
        available := Sub64(Add64(nonvolatileProducerPointer, effectiveBufferSize), ring.consumer);
      }
      polls := polls + [available];
    }
  }

  lemma SinkIsQueue(sink: seq<Byte>, at: nat, k: nat, stream: seq<Byte>, read: nat)
    requires at + k <= |sink| && read + k <= |stream|
    requires forall i :: at <= i < at + k ==> sink[i] == stream[read + i - at]
    ensures sink[at..at + k] == stream[read..][..k] && stream[read..][k..] == stream[read + k..]
  {
  }

  /** The cells from the consumer on, short of the end of the buffer, are the next bytes. */
  lemma CellsAreStream(cells: seq<Byte>, stream: seq<Byte>, read: nat, k: nat)
    requires Holds(cells, stream, read) && read + k <= |stream| && read % |cells| + k <= |cells|
    ensures var c := read % |cells|; cells[c..c + k] == stream[read..read + k]
  {
    var n, c := |cells|, read % |cells|;
    var a, b := cells[c..c + k], stream[read..read + k];
    forall j | 0 <= j < k
      ensures a[j] == b[j]
    {
      ModAdvance(read, j, n);
      var i := read + j;
      assert cells[i % n] == stream[i];
    }
  }

  // ---------- a writer at the other end ----------

  /** Half a publish: `Rest` is the second store of one that is under way, `Publish` a copy and
  the first store. */
  datatype FillMove = Rest | Publish(data: seq<Byte>)

  predicate FillRests(moves: seq<FillMove>) {
    moves != [] && forall i :: 0 <= i < |moves| ==> moves[i].Rest?
  }

  ghost predicate FillPauseAt(moves: nat -> seq<FillMove>, t: nat) {
    FillRests(moves(t)) && FillRests(moves(t + 1)) && FillRests(moves(t + 2))
  }

  ghost predicate FillPausesAfter(moves: nat -> seq<FillMove>, t: nat) {
    exists u: nat :: t <= u && FillPauseAt(moves, u)
  }

  ghost predicate FillPauses(moves: nat -> seq<FillMove>) {
    forall t: nat :: FillPausesAfter(moves, t)
  }

  lemma AnyFillsBetweenPauses(moves: nat -> seq<FillMove>)
    ensures FillPauses((t: nat) => if t % 6 < 3 then moves(t) else [Rest])
  {
    var script := (t: nat) => if t % 6 < 3 then moves(t) else [Rest];
    forall t: nat
      ensures FillPausesAfter(script, t)
    {
      var u: nat := 6 * t + 3;
      assert u % 6 == 3 && (u + 1) % 6 == 4 && (u + 2) % 6 == 5;
      assert FillPauseAt(script, u);
    }
  }

  /** A writer that makes any number of half publishes whenever it may act. */
  class FillingPeer {
    const ring: SharedRing
    const moves: nat -> seq<FillMove>
    var now: nat
    var midway: bool

    ghost predicate Valid()
      reads this, ring, ring.cells
    {
      ring.Valid() && (!midway ==> ring.written2 == ring.written)
    }

    constructor (ring: SharedRing, moves: nat -> seq<FillMove>)
      requires ring.Valid() && ring.written2 == ring.written
      ensures this.ring == ring && this.moves == moves && Valid() && now == 0 && !midway
    {
      this.ring := ring;
      this.moves := moves;
      now, midway := 0, false;
    }

    ghost method NextPause() returns (u: nat)
      requires FillPauses(moves)
      ensures now <= u && FillPauseAt(moves, u)
    {
      assert FillPausesAfter(moves, now);
      u :| now <= u && FillPauseAt(moves, u);
    }

    method HalfMove(move: FillMove)
      requires Valid()
      modifies `midway, ring.cells, ring`producer, ring`secondProducer, ring`written, ring`written2, ring`stream
      ensures Valid()
      ensures old(ring.stream) <= ring.stream && ring.written2 >= old(ring.written2)
      ensures move.Rest? ==>
        ring.stream == old(ring.stream) && ring.written == old(ring.written) && ring.written2 == ring.written && !midway
      ensures move.Publish? ==> midway && ring.written2 == old(ring.written2)
      ensures move.Publish? && !old(midway) ==>
        var room, toEnd := ring.n - 1 - (old(ring.written) - ring.read2), ring.n - old(ring.producer);
        var most := if room < toEnd then room else toEnd;
        var k := if |move.data| < most then |move.data| else most;
        0 <= k <= |move.data| && ring.stream == old(ring.stream) + move.data[..k]
    {
      match move {
        case Rest =>
          ring.secondProducer := ring.producer;
          ring.written2 := ring.written;
          midway := false;
        case Publish(data) =>
          if !midway {
            FreeCountIsExact(ring.read2, ring.written, ring.n);
            var free := FreeCount(ring.secondConsumer, ring.producer, ring.n);
            var k := |data|;
            if k > free { k := free; }
            if k > ring.n - ring.producer { k := ring.n - ring.producer; }
            ghost var before := ring.cells[..];
            Memcpy(ring.cells, ring.producer, data[..k]);
            CopyAhead(before, ring.cells[..], ring.stream, ring.read, data[..k]);
            AdvanceIsExact(ring.written, k, ring.n);
            ring.producer := AdvanceWord(ring.producer, k, ring.n);
            ring.written := ring.written + k;
            ring.stream := ring.stream + data[..k];
            midway := true;
          }
      }
    }

    /** The peer acts. */
    method Move()
      requires Valid()
      modifies this`now, this`midway, ring.cells, ring`producer, ring`secondProducer, ring`written, ring`written2,
        ring`stream
      ensures Valid() && now == old(now) + 1
      ensures old(ring.stream) <= ring.stream && ring.written2 >= old(ring.written2)
      ensures FillRests(moves(old(now))) ==>
        ring.stream == old(ring.stream) && ring.written == old(ring.written) && ring.written2 == ring.written && !midway
    {
      var todo := moves(now);
      now := now + 1;
      assert FillRests(todo) ==> todo != [] && forall i :: 0 <= i < |todo| ==> todo[i].Rest?;
      hide *;
      for i := 0 to |todo|
        invariant Valid() && now == old(now) + 1
        invariant old(ring.stream) <= ring.stream && ring.written2 >= old(ring.written2)
        invariant FillRests(todo) ==>
          && ring.stream == old(ring.stream) && ring.written == old(ring.written)
          && (i > 0 ==> ring.written2 == ring.written && !midway)
      {
        HalfMove(todo[i]);
      }
    }
  }

  // ---------- any calls, one after the other ----------

  datatype Call = Write(data: seq<Byte>) | Read(amount: nat)

  /** What was written and what was read so far, and what lies between. */
  datatype Exchange = Exchange(sent: seq<Byte>, received: seq<Byte>, queue: seq<Byte>)

  /** One call on a queue with so much room, made if there is the room, or the bytes, for it. */
  function Served(x: Exchange, call: Call, capacity: int): Exchange {
    match call
    case Write(data) =>
      if |data| <= capacity - |x.queue| then Exchange(x.sent + data, x.received, x.queue + data) else x
    case Read(amount) =>
      if amount <= |x.queue| then Exchange(x.sent, x.received + x.queue[..amount], x.queue[amount..]) else x
  }

  function Replay(calls: seq<Call>, capacity: int): Exchange {
    if calls == [] then Exchange([], [], [])
    else Served(Replay(calls[..|calls| - 1], capacity), calls[|calls| - 1], capacity)
  }

  /** On the queue, what was read is what was written first, and the rest lies there. */
  lemma {:induction false} ReplayIsFirstInFirstOut(calls: seq<Call>, capacity: nat)
    ensures var x := Replay(calls, capacity); x.received + x.queue == x.sent && |x.queue| <= capacity
  {
    if calls != [] {
      var call := calls[|calls| - 1];
      ReplayIsFirstInFirstOut(calls[..|calls| - 1], capacity);
      var x := Replay(calls[..|calls| - 1], capacity);
      match call {
        case Write(data) =>
          assert x.received + (x.queue + data) == x.received + x.queue + data;
        case Read(amount) =>
          if amount <= |x.queue| {
            assert x.queue == x.queue[..amount] + x.queue[amount..];
            assert x.received + x.queue[..amount] + x.queue[amount..] ==
              x.received + (x.queue[..amount] + x.queue[amount..]);
          }
      }
    }
  }

  /** What one call more does, by its length and that of the queue alone. */
  lemma ReplayFurther(calls: seq<Call>, capacity: nat, data: seq<Byte>, amount: nat)
    ensures var x, w := Replay(calls, capacity), Replay(calls + [Write(data)], capacity);
      if |x.queue| + |data| <= capacity
      then w.sent == x.sent + data && w.received == x.received && w.queue == x.queue + data
      else w == x
    ensures var x, r := Replay(calls, capacity), Replay(calls + [Read(amount)], capacity);
      if amount <= |x.queue|
      then r.sent == x.sent && r.received == x.received + x.queue[..amount] && r.queue == x.queue[amount..]
      else r == x
  {
    assert (calls + [Write(data)])[..|calls|] == calls && (calls + [Read(amount)])[..|calls|] == calls;
  }

  /** Each portion written and then read. */
  function Alternately(portions: seq<seq<Byte>>): seq<Call> {
    if portions == [] then []
    else
      var last := portions[|portions| - 1];
      Alternately(portions[..|portions| - 1]) + [Write(last)] + [Read(|last|)]
  }

  function Concatenated(portions: seq<seq<Byte>>): seq<Byte> {
    if portions == [] then [] else Concatenated(portions[..|portions| - 1]) + portions[|portions| - 1]
  }

  /** However many portions, if each fits in the ring all of them come through. */
  lemma {:induction false} PortionsComeThrough(portions: seq<seq<Byte>>, capacity: nat)
    requires forall i :: 0 <= i < |portions| ==> |portions[i]| <= capacity
    ensures var x := Replay(Alternately(portions), capacity);
      x.sent == x.received == Concatenated(portions) && x.queue == []
  {
    if portions != [] {
      var before, last := portions[..|portions| - 1], portions[|portions| - 1];
      PortionsComeThrough(before, capacity);
      hide Replay, Served;
      ReplayFurther(Alternately(before), capacity, last, 0);
      ReplayFurther(Alternately(before) + [Write(last)], capacity, [], |last|);
      assert [] + last == last && last[..|last|] == last;
    }
  }

  ghost predicate AtRest(ring: SharedRing)
    reads ring, ring.cells
  {
    ring.Valid() && ring.written2 == ring.written && ring.read2 == ring.read
  }

  /** The ring is that queue, with room for `n - 1` bytes, call by call. */
  method AnyCalls(writer: CircularWriteBuffer, reader: CircularReadBuffer, calls: seq<Call>)
    returns (sent: seq<Byte>, received: seq<Byte>)
    requires writer.Attached() && reader.Attached() && writer.ring == reader.ring
    requires AtRest(writer.ring) && writer.ring.Contents() == []
    modifies writer.ring, writer.ring.cells
    ensures AtRest(writer.ring)
    ensures Exchange(sent, received, writer.ring.Contents()) == Replay(calls, writer.ring.n - 1)
    ensures received + writer.ring.Contents() == sent
  {
    sent, received := [], [];
    for i := 0 to |calls|
      invariant AtRest(writer.ring)
      invariant Exchange(sent, received, writer.ring.Contents()) == Replay(calls[..i], writer.ring.n - 1)
    {
      assert calls[..i + 1][..i] == calls[..i];
      match calls[i] {
        case Write(data) =>
          var done := WriteIfRoom(writer, data);
          sent := if done then sent + data else sent;
        case Read(amount) =>
          var bytes := ReadIfThere(reader, amount);
          received := received + bytes;
      }
    }
    assert calls[..|calls|] == calls;
    ReplayIsFirstInFirstOut(calls, writer.ring.n - 1);
  }

  method WriteIfRoom(writer: CircularWriteBuffer, data: seq<Byte>) returns (done: bool)
    requires writer.Attached() && AtRest(writer.ring)
    modifies writer.ring, writer.ring.cells
    ensures AtRest(writer.ring)
    ensures done == (|data| <= writer.ring.n - 1 - |old(writer.ring.Contents())|)
    ensures writer.ring.Contents() == old(writer.ring.Contents()) + if done then data else []
  {
    var free := CountFree(writer.ring);
    done := |data| <= free;
    if done {
      hide *;
      var _ := writer.WriteData(data);
    }
  }

  method ReadIfThere(reader: CircularReadBuffer, amount: nat) returns (bytes: seq<Byte>)
    requires reader.Attached() && AtRest(reader.ring)
    modifies reader.ring
    ensures AtRest(reader.ring)
    ensures bytes == if amount <= |old(reader.ring.Contents())| then old(reader.ring.Contents())[..amount] else []
    ensures reader.ring.Contents() == old(reader.ring.Contents())[|bytes|..]
  {
    var available := CountAvailable(reader.ring);
    bytes := [];
    if amount <= available {
      var sink := new Byte[amount];
      var _ := reader.ReadData(sink, 0, amount);
      bytes := sink[..];
      assert sink[..] == sink[0..0 + amount];
    }
  }

  method CountFree(ring: SharedRing) returns (free: int)
    requires AtRest(ring)
    ensures free == ring.n - 1 - |ring.Contents()| == ring.Room()
  {
    FreeCountIsExact(ring.read, ring.written, ring.n);
    free := FreeCount(ring.consumer, ring.producer, ring.n);
  }

  method CountAvailable(ring: SharedRing) returns (available: int)
    requires AtRest(ring)
    ensures available == |ring.Contents()|
  {
    AvailableCountIsExact(ring.read, ring.written, ring.n);
    available := AvailableCount(ring.producer, ring.consumer, ring.n);
  }
}
