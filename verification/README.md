# MemMapIPC: verification of the shared-memory rings and of three library cores

MemMapIPC lets two processes exchange bytes through one mapped region, without locks. The
region holds two rings, one each way. A ring is a byte array followed by four 64-bit words:
producer, second producer, consumer, second consumer. A side stores its position first in
the first copy, then in the second; the other side loads the second copy, then the first,
and tries again until they match. On top of a ring an entity moves arrays of any size in
chunks, with a timeout that starts again whenever bytes moved. The repository also carries
three algorithmic cores of Boost 1.48: the segmented deque, the integer printer and parser
of `lexical_cast`, and the pairwise searches for smallest and largest elements.

N is the effective buffer size; W, Ws, R and Rs are the unbounded positions that the first
and second producer word and the first and second consumer word stand for.

## How the model is laid out

- `RingArithmetic`, `RingProtocol`, `RingInvariant`, `RingTheorems`, `RingProgress`: the
  ring as a step machine. Each step is one load or store of a shared word, or one byte
  copied; the bytes of a `memcpy` may go in any order. The invariant is proved for every
  step, the theorems for every run of every interleaving.
- `Duplex`, `DuplexProgress`: server and client over one region, two step machines in one
  memory, and the four stores of the attaching client as steps among the others. `Duplex` is
  about what holds in every run, `DuplexProgress` about the runs there are.
- `CircularBuffer`, `Entity`: the classes with the methods and loops of the code, over an
  array, against a bounded queue. The peer acts before every load of a shared word, between
  the last load and the return of a count, and after every copy that the entity has made;
  each time it makes any finite number of half releases or half publishes, by an arbitrary
  script. An entity's calls return the counts of their polls, from which the bytes moved and
  the readings of the clock follow (`Moved`, `GuardAt`, `TimerFrom`).
- `Transfer`, `TransferLoops`: one transfer seen from both ends, for lengths beyond the ring's
  size, on the step machine: counts go out of date and portions are published in two parts
  there too. `TransferLoops` takes the calls that the chunk loops make.
- `DequeIterator`, `DequeCells`, `DequeStorage`, `Deque`: a deque of nodes that a map points
  at. A cell is raw storage, an object, or an object moved away; `line` is the storage of
  all nodes in the order of the map. `Deque` has the loops of the code, down to single
  constructions, assignments and destructions. Every element type is meant: whether an object
  moved from keeps its value, and whether one moved onto itself does, are two parameters
  (`Kind`). So is every allocator: it may hand out the addresses of freed nodes again.
- `LexicalCast`, `LexicalParse`, `LexicalSigned`: printer and parser over buffers, for every
  width and every grouping a `char` can hold.
- `MinMax`: the four searches, with an order that counts its calls.
- `Remainders`: division with remainder.

## What is assumed

- Shared memory is sequentially consistent, and a 64-bit word is loaded and stored in one
  piece. A word is one value at one address. A side may read its own words freely, since
  nobody else stores to them.
- Buffer sizes are greater than the 32 bytes of the reserve and fit in 64 bits, so N >= 1.
- Count calls return: in the class model the peer comes to rest now and then, three times in
  a row, with both its stores made (`Pauses`, `FillPauses`); between pauses it does anything
  (`CircularBuffer.AnyMovesBetweenPauses`, `CircularBuffer.AnyFillsBetweenPauses`). What
  happens otherwise is proved in `RingTheorems`: a peer that stops for good between its two
  stores blocks the other side for good.
- `boost::timer` is a sequence of readings that passes every limit in the end (`Advances`),
  as every clock of some least speed does (`Entity.SteadyClockAdvances`). It may stand still,
  or step back.
- `WriteData` and `ReadData` of a ring trust their callers for the amount; that the entity
  asks for no more than there is, is proved.
- `new` and the allocators succeed, and constructors, assignments and comparisons do not
  throw. The allocator gives a node an address that no other allocated node has, and pointers
  of a new map that are not in use are null. Within one call it answers as a function of the
  addresses taken; between calls it may change (`UseAllocator`).
- `lexical_cast`: characters are code points with consecutive digits; a `char` of a grouping
  is signed with 8 bits; types narrower than `int` are computed in `int`.

## What turned out not to hold

Each of these is proved with the exact condition, most of them with a concrete instance too.

- **Empty insertions and erasures in a deque** (`Deque.InsertAux`, `Deque.EraseRange`). With
  nothing to insert or erase the code still moves elements, each onto itself, although
  `move` requires that the result does not lie in the range
  (_dependency/boost_1_48_0/boost/move/move.hpp:857). Contents are kept exactly if something
  is inserted or erased, or assigning an object from itself keeps its value, or no element
  lies on the side that is moved.
- **Inserting an element of the deque itself** (`Deque.InsertOwn`). The argument is taken by
  reference and read after the elements have made room. If it is among those moved, a
  neighbour is inserted, or an object that has been moved away. The result is right exactly
  if what is inserted has a value and equals the element meant (`DequeCells.RightIfEqual`),
  and right whatever the elements are exactly if the element stays in its place: it is not
  among those moved, or, for types whose values stay when they are moved, it is the one at the
  gap, over which nothing was moved (`DequeCells.RightForAllElements`,
  `Deque.OwnElementAtTheGap`).
- **The overflow check of the integer parser** (`LexicalParse.RightBySignificance`). It
  recognises overflow of a product, but the multiplier itself wraps. Leading zeros apart, all
  numbers of so many digits are read right exactly if there are at most `digits10 + 1` of
  them or no digit passes the checks at the first place. The 32-bit and the 64-bit parser are
  right on all texts of a length exactly if that is at most `digits10 + 1`, the 16-bit parser
  up to 13 characters.
- **The documented deque invariant**
  (_dependency/boost_1_48_0/boost/container/deque.hpp:164-165) says that a pointer of the map
  leads to an allocated node if and only if it lies between those of start and finish. It
  holds in a new map. Recentring copies pointers and leaves the old ones
  (`Deque.RecentringLeavesCopies`), and freeing nodes leaves their addresses standing, which
  the allocator may return again (`Deque.AddressesComeBack`). So making room keeps the sentence
  exactly if the map is replaced by a larger one, or the new range of pointers covers the old
  one and no pointer outside it holds the address of a node to come; all of that can be told
  before the call (`DequeStorage.DocumentedAfterRoom`, `Deque.InsertAux`). The model uses the
  invariant the code does keep: the nodes in that range are exactly the allocated ones, each
  once.
- **Attaching a second time** clears words in use. With both sides idle it is harmless exactly
  if the reader has read everything (`Duplex.AttachingAgainNeedsADrainedRing`); every ring of
  two cells or more gets to a state where it is not (`Duplex.AttachingTwiceLosesBytes`).
- **A ring with one cell** never moves a byte (`Transfer.OneCellCarriesNothing`).

## Model

| member | source | states |
|---|---|---|
| `RingTheorems.FirstInFirstOut` | MemMapIPC/MemMapIPC/Source/CircularWriteBuffer.cpp:61-82 | In every interleaving of one writer and one reader, word by word and byte by byte, what the reader has copied out, a copy in progress included, is a prefix of what was handed to `WriteData`: nothing lost, duplicated, reordered or stale |
| `RingInvariant.StepKeepsInv` | MemMapIPC/MemMapIPC/Source/CircularBuffer.cpp:26-52 | Every single step of either side keeps the invariant: words are positions modulo N, positions in order and less than one turn apart, unread bytes in their cells, also between the two stores of a publish and between the halves of a split transfer |
| `RingTheorems.RunKeepsInv` | MemMapIPC/MemMapIPC/Source/CircularBuffer.cpp:26-52 | So does every run, of any length and in any order |
| `RingTheorems.PositionsInEveryRun` | MemMapIPC/MemMapIPC/Source/CircularBuffer.cpp:26-52 | In every run: Rs <= R <= Ws <= W <= Rs + N - 1, the four words are these modulo N, and cell i mod N holds stream byte i for every i in [R, W) |
| `RingTheorems.StartHasInv` | MemMapIPC/MemMapIPC/Source/CircularWriteBuffer.cpp:14-32 | A ring whose four words the write constructor has cleared satisfies the invariant, whatever else is in memory |
| `RingTheorems.RunHandsOver` | MemMapIPC/MemMapIPC/Source/CircularWriteBuffer.cpp:61-82 | The stream is exactly the data of the `WriteData` calls of the run, in order |
| `RingInvariant.WriterMatchIsCurrent` | MemMapIPC/MemMapIPC/Source/CircularWriteBuffer.cpp:38-45 | No ABA: the two loads match if and only if the position seen is the reader's position now, which both copies then hold |
| `RingInvariant.ReaderMatchIsCurrent` | MemMapIPC/MemMapIPC/Source/CircularReadBuffer.cpp:35-42 | The same for the reader's two loads |
| `RingTheorems.FreeCountIsExactAtLastLoad` | MemMapIPC/MemMapIPC/Source/CircularWriteBuffer.cpp:34-59 | The count returned is the free room at the last load, however far the reader gets before the subtraction, and never more than the room at the return |
| `RingTheorems.AvailableCountIsExactAtLastLoad` | MemMapIPC/MemMapIPC/Source/CircularReadBuffer.cpp:31-56 | The count returned is what was unread at the last load, and never more than what is unread at the return |
| `RingTheorems.PermissionsAreSafe` | MemMapIPC/MemMapIPC/Source/Entity.cpp:31-39 | What is left of a count is never more than the free room (or the unread bytes) beyond what the side has already taken on, at every moment of every run, in the middle of a poll or of a copy too |
| `RingTheorems.CountsShareOutTheRing` | MemMapIPC/MemMapIPCTest/CircularBufferTest.cpp:126-153 | With both sides idle, free and available bytes add up to exactly N - 1, the total the tests expect |
| `RingTheorems.CopiesNeverMeet` | MemMapIPC/MemMapIPC/Source/CircularWriteBuffer.cpp:65-81 | While both copies are in progress no address is in reach of both, and none lies at or beyond the reserve words |
| `RingTheorems.CopiesStayInReach` | MemMapIPC/MemMapIPC/Source/CircularReadBuffer.cpp:63-79 | Every byte step of either copy stays within that reach |
| `RingTheorems.WriteDataIsWaitFree` | MemMapIPC/MemMapIPC/Source/CircularWriteBuffer.cpp:61-82 | Until `WriteData` returns one of its steps is enabled, each brings it one nearer the end, and no step of the reader sets it back |
| `RingTheorems.ReadDataIsWaitFree` | MemMapIPC/MemMapIPC/Source/CircularReadBuffer.cpp:58-80 | The same for `ReadData`: one of its steps is enabled until it returns, each brings it one nearer the end, and no step of the writer sets it back |
| `RingTheorems.PollEndsUnlessReaderStopsMidway` | MemMapIPC/MemMapIPC/Source/CircularWriteBuffer.cpp:38-45 | A round of the retry loop ends the poll if and only if the resting reader is not between its two stores with bytes released; otherwise the round changes nothing at all |
| `RingTheorems.ReadPollEndsUnlessWriterStopsMidway` | MemMapIPC/MemMapIPC/Source/CircularReadBuffer.cpp:35-42 | The same for the reader's retry loop |
| `RingTheorems.NeitherSideWaits` | MemMapIPC/MemMapIPC/Source/CircularWriteBuffer.cpp:38-45 | No step of one side ever disables a step of the other |
| `RingTheorems.SidesAreFree` | MemMapIPC/MemMapIPC/Source/CircularWriteBuffer.cpp:61-82 | With the invariant a side at rest may poll, or call for any amount its count allows, and in a copy any byte still to be copied may be next |
| `RingProgress.EveryRunCanBeCompleted` | MemMapIPC/MemMapIPC/Source/CircularReadBuffer.cpp:58-80 | From every state of every run the steps can be continued so that all calls return and every byte handed over so far arrives |
| `RingProgress.EverythingCanBeDelivered` | MemMapIPC/MemMapIPC/Source/CircularReadBuffer.cpp:58-80 | The same from any state with the invariant, without further calls of `WriteData`; the descent is lexicographic over both sides' remaining work |
| `RingProgress.NextStep` | MemMapIPC/MemMapIPC/Source/CircularReadBuffer.cpp:31-80 | As long as something is left to deliver some step is enabled that brings delivery nearer |
| `RingArithmetic.FreeCountIsExact` | MemMapIPC/MemMapIPC/Source/CircularWriteBuffer.cpp:47-58 | For every N of 64 bits the unsigned expression is the true free count, also when position + N passes 2^64 on the way |
| `RingArithmetic.AvailableCountIsExact` | MemMapIPC/MemMapIPC/Source/CircularReadBuffer.cpp:44-55 | The same for the available count |
| `RingArithmetic.AdvanceIsExact` | MemMapIPC/MemMapIPC/Source/CircularBuffer.cpp:28-37 | An advance that does not pass the end of the buffer moves the word with the position, and the remainder is only ever taken of N itself |
| `RingArithmetic.CountCanOverflowMidway` | MemMapIPC/MemMapIPC/Source/CircularWriteBuffer.cpp:57 | A ring and positions for which the intermediate sum does pass 2^64 |
| `RingArithmetic.WordsTellPositionsApart` | MemMapIPC/MemMapIPC/Source/CircularBuffer.cpp:16-24 | Positions less than a turn apart are equal exactly when their words are |
| `Duplex.BothWaysFirstInFirstOut` | MemMapIPC/MemMapIPC/Source/Server.cpp:58-63 | From the moment the server is up, through the client's attaching, both directions are first in first out at once in every interleaving of the two processes; what the server sent before any client came is part of it |
| `DuplexProgress.BothWaysCanBeDelivered` | MemMapIPC/MemMapIPC/Source/Client.cpp:57-58 | From every state of every run of the two processes, with a client attached, attaching or still to come, a continuation attaches it and delivers all that was handed over, in both directions |
| `DuplexProgress.EarlyBytesArrive` | MemMapIPC/MemMapIPC/Source/Client.cpp:57-58 | Any data the ring has room for can be sent while no client is attached; a client then comes, and what it has read is exactly that data |
| `DuplexProgress.ServerCanSend` | MemMapIPC/MemMapIPC/Source/Server.cpp:58-63 | From the moment the server is up, without a client, a run hands over any data the ring has room for and ends the call |
| `DuplexProgress.LiftedStep` | MemMapIPC/MemMapIPC/Source/Server.cpp:58-63 | Whatever step a ring allows one of its sides, the server may take at any time, and the client once it has attached; it does to that ring what it does to the ring alone, and to the other ring's two sides nothing |
| `Duplex.PlacementsAreCrossed` | MemMapIPC/MemMapIPC/Source/Client.cpp:51-58 | Each side reads where the other writes, the two rings share no address, and together they are exactly the two halves |
| `Duplex.AttachChangesNothing` | MemMapIPC/MemMapIPC/Source/Client.cpp:57-58 | Each store of the first client's write constructor leaves all of memory as it was, whatever the server has done meanwhile; its read constructor stores nothing |
| `Duplex.StepStaysInWindow` | MemMapIPC/MemMapIPC/Source/Server.cpp:58-63 | A step in one direction changes no address of the other ring |
| `Duplex.InvOnlyReadsWindow` | MemMapIPC/MemMapIPC/Source/Server.cpp:58-63 | The invariant of a ring depends on nothing outside its own addresses |
| `Duplex.ServerUpHasInv` | MemMapIPC/MemMapIPC/Source/Server.cpp:47-63 | After clearing the region and constructing its two buffers the server's memory satisfies both invariants |
| `Duplex.JointStepKeepsInv` | MemMapIPC/MemMapIPC/Source/Server.cpp:58-63 | Every step of either process, a store of the attaching client included, keeps both rings' invariants |
| `Duplex.AttachingAgainNeedsADrainedRing` | MemMapIPC/MemMapIPC/Source/CircularWriteBuffer.cpp:28-31 | Constructing a write buffer over a ring in use, both sides idle: the count afterwards is that of the unread bytes, and the invariant holds again, if and only if the reader had read everything |
| `Duplex.AttachingTwiceLosesBytes` | MemMapIPC/MemMapIPC/Source/CircularWriteBuffer.cpp:28-31 | In every ring of two cells or more a run from the start leads to a state in which attaching again loses the byte that was written and not yet read |
| `CircularBuffer.CircularWriteBuffer.constructor` | MemMapIPC/MemMapIPC/Source/CircularWriteBuffer.cpp:14-32 | Clears the four words; the ring is then empty, whatever it held |
| `CircularBuffer.CircularReadBuffer.constructor` | MemMapIPC/MemMapIPC/Source/CircularReadBuffer.cpp:16-29 | Touches no shared state |
| `CircularBuffer.CircularWriteBuffer.AdvanceProducer` | MemMapIPC/MemMapIPC/Source/CircularBuffer.cpp:26-38 | Publishes the bytes copied ahead: they join the stream, and the word wraps to zero exactly at N |
| `CircularBuffer.CircularReadBuffer.AdvanceConsumer` | MemMapIPC/MemMapIPC/Source/CircularBuffer.cpp:40-52 | Releases bytes: the read position moves by the amount, and the word wraps to zero exactly at N |
| `CircularBuffer.Memcpy` | MemMapIPC/MemMapIPC/Source/CircularWriteBuffer.cpp:68-79 | The target range becomes the source, and nothing else changes |
| `CircularBuffer.CircularWriteBuffer.WriteSegment` | MemMapIPC/MemMapIPC/Source/CircularWriteBuffer.cpp:67-69 | One copy and one advance append the segment |
| `CircularBuffer.CircularWriteBuffer.WriteData` | MemMapIPC/MemMapIPC/Source/CircularWriteBuffer.cpp:61-82 | Both branches append the whole source to the bounded queue, and always succeed |
| `CircularBuffer.CircularReadBuffer.ReadSegment` | MemMapIPC/MemMapIPC/Source/CircularReadBuffer.cpp:65-67 | One copy and one advance take the next bytes of the stream |
| `CircularBuffer.CircularReadBuffer.ReadData` | MemMapIPC/MemMapIPC/Source/CircularReadBuffer.cpp:58-80 | Both branches take the oldest bytes off the queue into the sink, and leave the rest of the sink alone |
| `CircularBuffer.CircularWriteBuffer.PollConsumer` | MemMapIPC/MemMapIPC/Source/CircularWriteBuffer.cpp:38-45 | When two loads match, the value is the word of the position the reader has reached at the second load, in both of its copies, whatever it did before and between the loads |
| `CircularBuffer.CircularReadBuffer.PollProducer` | MemMapIPC/MemMapIPC/Source/CircularReadBuffer.cpp:35-42 | The same for the producer words |
| `CircularBuffer.CircularWriteBuffer.NumberOfBytesFreeToWrite` | MemMapIPC/MemMapIPC/Source/CircularWriteBuffer.cpp:34-59 | The loop ends against every reader that comes to rest now and then; the count is exactly the free room for the position the reader had reached at the last load, never negative, never more than the room at the return, and equal to it if the reader only came to rest since |
| `CircularBuffer.CircularReadBuffer.NumberOfBytesAvailableToRead` | MemMapIPC/MemMapIPC/Source/CircularReadBuffer.cpp:31-56 | The loop ends against every writer that comes to rest now and then; the count is exactly what was unread at the last load, never more than is unread at the return, and equal to it if the writer only came to rest since |
| `CircularBuffer.AnyCalls` | MemMapIPC/MemMapIPC/Source/CircularWriteBuffer.cpp:61-82 | Any sequence of `WriteData` and `ReadData` calls, each made when there is the room or the bytes for it, does exactly what the same calls do on a queue of capacity N - 1: the bytes sent, the bytes received and the bytes left are those of the replay |
| `CircularBuffer.ReplayIsFirstInFirstOut` | MemMapIPC/MemMapIPCTest/CircularBufferTest.cpp:126-153 | On that queue what was received, followed by what is left, is what was sent, and never more than N - 1 bytes are left |
| `CircularBuffer.ReplayFurther` | MemMapIPC/MemMapIPC/Source/CircularWriteBuffer.cpp:61-82 | One call more, at any point: a write that fits is sent and queued whole, a read of no more than is queued receives the oldest bytes, and any other call changes nothing |
| `CircularBuffer.PortionsComeThrough` | MemMapIPC/MemMapIPCTest/CircularBufferTest.cpp:126-153 | Any number of portions of at most N - 1 bytes, each written and then read: all are sent, all received, in order, and nothing is left |
| `CircularBuffer.WriteIfRoom` | MemMapIPC/MemMapIPC/Source/CircularWriteBuffer.cpp:61-82 | A call of any length is made exactly when it fits, and then its bytes are appended |
| `CircularBuffer.ReadIfThere` | MemMapIPC/MemMapIPC/Source/CircularReadBuffer.cpp:58-80 | A read of any length is made exactly when so many bytes are there, and returns exactly the oldest ones |
| `CircularBuffer.CopyAhead` | MemMapIPC/MemMapIPC/Source/CircularWriteBuffer.cpp:68-76 | Copying ahead of the producer, short of the unread bytes, keeps those and lays down the continuation of the stream |
| `CircularBuffer.CellsAreStream` | MemMapIPC/MemMapIPC/Source/CircularReadBuffer.cpp:66-74 | The cells from the consumer on, short of the end of the buffer, are the next bytes of the stream |
| `Entity.Entity.WriteData` | MemMapIPC/MemMapIPC/Source/Entity.cpp:41-84 | Appends exactly a prefix of the source whatever the reader drains meanwhile; true if and only if all of it, which is so exactly if the first count found room for all, or the counts found in the loop add up to it; else as many bytes as these counts add up to. One poll and no reading of the clock if the first count suffices; otherwise it stops exactly when the timer, restarted at every poll that found room, has reached its limit or all is written; never asks the ring for more than its free room; returns for every reader that comes to rest now and then and every advancing clock |
| `Entity.Entity.WriteInChunks` | MemMapIPC/MemMapIPC/Source/Entity.cpp:47-78 | The chunk loop, poll by poll: what is written is the smaller of the sum of all counts found and the total; the guard held before every poll and does not hold at the end, with the timer restarted exactly at the polls that found room |
| `Entity.MovedIsSum` | MemMapIPC/MemMapIPC/Source/Entity.cpp:58-67 | However the counts come, the loop moves their sum, or the total if that is less |
| `Entity.EndedMeans` | MemMapIPC/MemMapIPC/Source/Entity.cpp:50 | What it means that the loop ended: before every poll the time since the restart was below the limit and the counts so far added up to less than the total; at the end one of the two no longer holds |
| `Entity.TimerRunsFromLastMove` | MemMapIPC/MemMapIPC/Source/Entity.cpp:50-69 | What a timeout means: the timer runs from the restart at the last poll that found something, or from the beginning; every poll since then found nothing, and nothing has moved since |
| `Entity.Entity.WriteTurn` | MemMapIPC/MemMapIPC/Source/Entity.cpp:50-69 | One turn with the next reading of the guard: bytes left or time left goes down |
| `Entity.Entity.WriteRound` | MemMapIPC/MemMapIPC/Source/Entity.cpp:53-68 | One poll: the timer starts again exactly when it found room, and what is written is the smaller of what it found and what is left |
| `Entity.Entity.WriteChunk` | MemMapIPC/MemMapIPC/Source/Entity.cpp:58-67 | Writes exactly the smaller of the room found and the rest, and returns that number |
| `Entity.Entity.Put` | MemMapIPC/MemMapIPC/Source/Entity.cpp:60-66 | What is handed to the ring joins the stream, whatever the reader does next |
| `Entity.Entity.ReadData` | MemMapIPC/MemMapIPC/Source/Entity.cpp:86-127 | Fills exactly a prefix of the sink with the next bytes of the stream, and nothing behind it; true if and only if all that was asked for, by the same account of first count and sum of the counts; polls, clock and timer as for writing |
| `Entity.Entity.ReadInChunks` | MemMapIPC/MemMapIPC/Source/Entity.cpp:91-121 | The chunk loop of reading, poll by poll: the smaller of the sum of the counts and the number asked for, with the same account of the timer |
| `Entity.Entity.ReadTurn` | MemMapIPC/MemMapIPC/Source/Entity.cpp:94-112 | One turn of it with the next reading of the guard |
| `Entity.Entity.ReadRound` | MemMapIPC/MemMapIPC/Source/Entity.cpp:97-111 | One poll: the timer starts again exactly when it found bytes, and what is read is the smaller of what it found and what is still wanted |
| `Entity.Entity.ReadChunk` | MemMapIPC/MemMapIPC/Source/Entity.cpp:101-110 | Reads exactly the smaller of the number found and the number wanted, and returns it |
| `Entity.Entity.Get` | MemMapIPC/MemMapIPC/Source/Entity.cpp:103-109 | What is taken from the ring is the next bytes of the stream, whatever the writer does next |
| `Entity.Entity.constructor` | MemMapIPC/MemMapIPC/Source/Entity.cpp:21-24 | The limit is 120 seconds at first |
| `Transfer.TransferCompletes` | MemMapIPC/MemMapIPC/Source/Entity.cpp:50-69 | A transfer of any length through a ring of N >= 2 cells can be completed from every state of every run of the step machine that has handed over a prefix of the data: a continuation delivers all of it, and nothing else |
| `Transfer.StuckOnlyWhenDone` | MemMapIPC/MemMapIPC/Source/Entity.cpp:94-112 | Between calls, in every run: the writer with bytes left finds no room and the reader that wants bytes finds none, both by the counts of the code, if and only if everything has arrived or the ring has a single cell |
| `Transfer.MovingCallsAreFew` | MemMapIPC/MemMapIPC/Source/Entity.cpp:50-69 | In every run, however the counts go out of date and whatever portions are taken, at most two calls for each byte handed over move anything, so successful polls run out |
| `Transfer.OneCellCarriesNothing` | MemMapIPC/MemMapIPC/Source/CircularWriteBuffer.cpp:47-58 | Through a ring with a single cell no run ever sends a byte |
| `TransferLoops.LoopsDeliver` | MemMapIPC/MemMapIPC/Source/Entity.cpp:50-69 | The chunk loops of both entities on the step machine, through a ring of N >= 2 cells, from any state of the transfer: after three rounds for each byte of the data, and one more for each poll whose count was not used, all of it has arrived, whatever the interleaving. In a round the writer completes three polls, or is through, and then the reader does; every count found is acted on with as much as it allows |
| `TransferLoops.RoundMovesOn` | MemMapIPC/MemMapIPC/Source/Entity.cpp:94-112 | In each round a byte is handed over, asked for or released, or a poll is wasted, unless everything has arrived |
| `TransferLoops.RoundsCanFollow` | MemMapIPC/MemMapIPC/Source/Entity.cpp:50-69 | From every state of a transfer any number of rounds can follow, with no poll wasted |
| `TransferLoops.ObedientRuns` | MemMapIPC/MemMapIPC/Source/Entity.cpp:58-67 | What the loops do are runs of the step machine |
| `TransferLoops.CallsTakeAll` | MemMapIPC/MemMapIPC/Source/Entity.cpp:58-67 | After a call the loops make, the count is used up or nothing is left to hand over (or to ask for) |
| `Deque.Deque.InsertAux` | _dependency/boost_1_48_0/boost/container/deque.hpp:1595-1647 | Inserting n elements at any place of a deque with or without a map gives old prefix, new elements, old suffix, with all storage as the class invariant says, exactly if n > 0, or self-assignment keeps values, or no element lies on the side that is moved; else some element is left moved-from. And if the map was as documented it still is exactly if `WillBeDocumented` holds of the state before the call, with the nodes that n elements need beyond the vacant cells and the addresses the allocator will give them; a first map always is |
| `Deque.Deque.InsertFront` | _dependency/boost_1_48_0/boost/container/deque.hpp:1605-1625 | The same for places in the first half, after room was made in front |
| `Deque.Deque.InsertBack` | _dependency/boost_1_48_0/boost/container/deque.hpp:1626-1646 | The same for the others, after room was made at the end |
| `Deque.Deque.InsertFrontLong` | _dependency/boost_1_48_0/boost/container/deque.hpp:1609-1615 | First half, no more new elements than there are before the place |
| `Deque.Deque.InsertFrontShort` | _dependency/boost_1_48_0/boost/container/deque.hpp:1616-1624 | First half, more new elements than that |
| `Deque.Deque.InsertBackLong` | _dependency/boost_1_48_0/boost/container/deque.hpp:1632-1638 | Second half, no more new elements than there are behind the place |
| `Deque.Deque.InsertBackShort` | _dependency/boost_1_48_0/boost/container/deque.hpp:1639-1645 | Second half, more new elements than that |
| `Deque.EmptyInsertionLosesAnElement` | _dependency/boost_1_48_0/boost/container/deque.hpp:1609-1615 | A concrete empty insertion after which an element is lost, whether moving elsewhere keeps values or not |
| `Deque.EmptyErasureLosesAnElement` | _dependency/boost_1_48_0/boost/container/deque.hpp:1312-1319 | A concrete empty erasure after which an element is lost, whether moving elsewhere keeps values or not |
| `Deque.Deque.DamagedHoldsNothing` | _dependency/boost_1_48_0/boost/container/deque.hpp:153-160 | A deque with a moved-from element holds no sequence of values |
| `Deque.Deque.InsertOwn` | _dependency/boost_1_48_0/boost/container/deque.hpp:1372-1387 | Inserting a copy of the deque's own element k by reference: which element is really inserted, or that it is one without a value, for every place, index, length and kind of element type; and that the result is right if and only if that element equals element k |
| `Deque.Deque.InsertAuxOwn` | _dependency/boost_1_48_0/boost/container/deque.hpp:1595-1647 | The same for the general insertion |
| `DequeCells.RightIfEqual` | _dependency/boost_1_48_0/boost/container/deque.hpp:1372-1387 | For every kind of element type the insertion comes out right if and only if the element that is really inserted has a value, and equals element k |
| `DequeCells.RightForAllElements` | _dependency/boost_1_48_0/boost/container/deque.hpp:1372-1387 | It comes out right for all elements if and only if element k stays in its place: into vacant storage in front, or k on the side that is not moved, or, where a move leaves the value, k at the gap (e - 1 <= k in front, k <= e behind) |
| `Deque.OwnElementIsMistaken` | _dependency/boost_1_48_0/boost/container/deque.hpp:1372-1387 | For every kind of element type, a concrete insertion of an own element after which a neighbour has been duplicated instead |
| `Deque.OwnElementAtTheGap` | _dependency/boost_1_48_0/boost/container/deque.hpp:1372-1387 | A concrete insertion of the element at the place itself: right if a move leaves the value, and an element without one if not |
| `Deque.Deque.PushBack` | _dependency/boost_1_48_0/boost/container/deque.hpp:1429-1438 | Appends one element, in vacant storage or through the general insertion |
| `Deque.Deque.PushFront` | _dependency/boost_1_48_0/boost/container/deque.hpp:1407-1416 | Puts one element in front, in vacant storage or through the general insertion |
| `Deque.Deque.PopBack` | _dependency/boost_1_48_0/boost/container/deque.hpp:977-985 | Removes the last element |
| `Deque.Deque.DropBack` | _dependency/boost_1_48_0/boost/container/deque.hpp:979-984 | Destroys the last object; the class invariant holds again for the others |
| `Deque.Deque.PopBackAux` | _dependency/boost_1_48_0/boost/container/deque.hpp:1715-1721 | Frees the last node, which is empty, and destroys the last object of the one before |
| `Deque.Deque.PopFront` | _dependency/boost_1_48_0/boost/container/deque.hpp:992-1000 | Removes the first element |
| `Deque.Deque.DropFront` | _dependency/boost_1_48_0/boost/container/deque.hpp:994-999 | Destroys the first object; the class invariant holds again for the others |
| `Deque.Deque.PopFrontAux` | _dependency/boost_1_48_0/boost/container/deque.hpp:1727-1733 | Destroys the last object of the first node and frees the node |
| `Deque.Deque.Insert` | _dependency/boost_1_48_0/boost/container/deque.hpp:1372-1387 | Inserts one element anywhere, and the result points at it |
| `Deque.Deque.EraseAt` | _dependency/boost_1_48_0/boost/container/deque.hpp:1271-1285 | Erases one element anywhere, and the result points at its successor |
| `Deque.Deque.EraseRange` | _dependency/boost_1_48_0/boost/container/deque.hpp:1295-1322 | Erases a range exactly if it is not empty, or self-assignment keeps values, or no element lies on the side that is moved; else some element is left moved-from |
| `Deque.Deque.EraseFrontOf` | _dependency/boost_1_48_0/boost/container/deque.hpp:1305-1311 | The case where the elements before the range are moved |
| `Deque.Deque.EraseBackOf` | _dependency/boost_1_48_0/boost/container/deque.hpp:1312-1319 | The case where the elements behind the range are moved |
| `Deque.Deque.TrimFront` | _dependency/boost_1_48_0/boost/container/deque.hpp:1306-1310 | Frees exactly the nodes in front of the new beginning's |
| `Deque.Deque.TrimBack` | _dependency/boost_1_48_0/boost/container/deque.hpp:1314-1318 | Frees exactly the nodes behind the new end's |
| `Deque.Deque.Clear` | _dependency/boost_1_48_0/boost/container/deque.hpp:1329-1347 | Destroys everything, keeps one node and the beginning |
| `Deque.Deque.ClearNodes` | _dependency/boost_1_48_0/boost/container/deque.hpp:1331-1336 | Destroys and frees full nodes one after the other, and no others |
| `Deque.Deque.ClearEnds` | _dependency/boost_1_48_0/boost/container/deque.hpp:1338-1342 | Leaves one node with nothing in it |
| `Deque.Deque.ShrinkToFit` | _dependency/boost_1_48_0/boost/container/deque.hpp:1355-1364 | An empty deque gives up its last node and its map; any other is left as it is |
| `Deque.Deque.Size` | _dependency/boost_1_48_0/boost/container/deque.hpp:752-753 | The number of elements, also without a map |
| `Deque.Deque.ElementAt` | _dependency/boost_1_48_0/boost/container/deque.hpp:692-693 | The element, if and only if the index is in range |
| `Deque.Deque.constructor` | _dependency/boost_1_48_0/boost/container/deque.hpp:380-382 | An empty deque without a map |
| `Deque.Deque.Filled` | _dependency/boost_1_48_0/boost/container/deque.hpp:801-803 | A deque of n copies: nodes enough, centred in a map of at least 8 pointers, and the map as documented |
| `Deque.Deque.FillCells` | _dependency/boost_1_48_0/boost/container/deque.hpp:1656-1663 | The fill, node by node and then in the last one, constructs the copies from start to finish and nothing else |
| `Deque.Deque.CellsOfNodes` | _dependency/boost_1_48_0/boost/container/deque.hpp:153-160 | The documented invariant, cell by cell of every node: the right element from start to finish, raw storage before and behind |
| `Deque.Deque.InitializeMap` | _dependency/boost_1_48_0/boost/container/deque.hpp:397-425 | Nodes enough for the elements and one more, centred in a map of at least 8 pointers, all others null |
| `Deque.Deque.ReserveFront` | _dependency/boost_1_48_0/boost/container/deque.hpp:1735-1759 | Exactly the nodes the new beginning needs, at the addresses the allocator gives next, the elements where they were, references to them good, and every pointer of the map accounted for: the old nodes' at their place, new ones in order beside them, all others as they were or null |
| `Deque.Deque.AddNodesInFront` | _dependency/boost_1_48_0/boost/container/deque.hpp:1743-1750 | So many raw nodes in front of the first one, after making room in the map if there is too little; no element moves |
| `Deque.Deque.ReserveBack` | _dependency/boost_1_48_0/boost/container/deque.hpp:1761-1784 | The same at the end |
| `Deque.Deque.AddNodesAtBack` | _dependency/boost_1_48_0/boost/container/deque.hpp:1767-1775 | The same behind the last one |
| `Deque.Deque.ReallocateMap` | _dependency/boost_1_48_0/boost/container/deque.hpp:1786-1817 | If the map is large enough its pointers are recentred, else it is replaced by one of its size, plus the larger of that and the nodes to add, plus two; either way there is room for the nodes to add at that end, with the free pointers shared evenly; no node has moved, and after recentring every pointer outside the new range is the one that stood there before |
| `Deque.Deque.PlacePointers` | _dependency/boost_1_48_0/boost/container/deque.hpp:1791-1812 | Where the pointers go, in this map or a larger one, of the size written out in the contract: room at the end asked for, the free places shared evenly, every place accounted for |
| `Deque.Deque.MovePointers` | _dependency/boost_1_48_0/boost/container/deque.hpp:1795-1796 | Moving pointers towards the front, overlap and all, copies them as if read at once |
| `Deque.Deque.MovePointersBackward` | _dependency/boost_1_48_0/boost/container/deque.hpp:1797-1799 | The same towards the end |
| `DequeStorage.CopyingIsLinear` | _dependency/boost_1_48_0/boost/container/deque.hpp:1786-1817 | Over any number of additions of nodes at one end, making room copies at most four pointers for each node added, and once those that were there |
| `DequeStorage.RoomPays` | _dependency/boost_1_48_0/boost/container/deque.hpp:1791-1812 | Each time room is made the pointers copied are paid for by the nodes added since, or leave so many free places at that end that the next copying will be |
| `DequeStorage.LargerMapDoubles` | _dependency/boost_1_48_0/boost/container/deque.hpp:1801-1804 | A map too small for recentring is replaced by one more than twice its size |
| `DequeStorage.DocumentedAfterRoom` | _dependency/boost_1_48_0/boost/container/deque.hpp:164-165 | The last sentence of the documented invariant, taken literally (a pointer leads to an allocated node if and only if it stands between those of start and finish), survives making room exactly under a condition on the state before: the map is replaced by a larger one, or the new range covers the old one and no pointer outside it holds the address of a node to come |
| `DequeStorage.LedToAfterRoom` | _dependency/boost_1_48_0/boost/container/deque.hpp:1786-1817 | After room was made the pointers of the new range lead to the old nodes and the new ones, and to no others |
| `DequeStorage.DocumentedAfterFreeing` | _dependency/boost_1_48_0/boost/container/deque.hpp:435-445 | Freeing nodes at either end keeps the sentence |
| `Deque.AtTheEndOfTheMap` | _dependency/boost_1_48_0/boost/container/deque.hpp:164-165 | Twenty elements filled in and nineteen erased in front: a real deque at the end of its map, still as documented |
| `Deque.RecentringLeavesCopies` | _dependency/boost_1_48_0/boost/container/deque.hpp:1786-1799 | Inserting two more elements at its end recentres the pointers, and the sentence is false from then on |
| `Deque.AddressesComeBack` | _dependency/boost_1_48_0/boost/container/deque.hpp:1768-1770 | One more element fits without moving any pointer, the allocator returns the address of a node freed before, which still stands in the map, and the sentence is false |
| `DequeStorage.Remapped` | _dependency/boost_1_48_0/boost/container/deque.hpp:1793-1816 | Wherever the pointers stand in a map, the same nodes in the same order are the storage |
| `Deque.Deque.GrowFrontBy` | _dependency/boost_1_48_0/boost/container/deque.hpp:1746-1749 | Allocates nodes in front, raw, at the addresses the allocator gives in turn, and moves none |
| `Deque.Deque.GrowBackBy` | _dependency/boost_1_48_0/boost/container/deque.hpp:427-432 | Allocates nodes at the end, raw, at the addresses the allocator gives in turn, and moves none |
| `Deque.Deque.FreeNodes` | _dependency/boost_1_48_0/boost/container/deque.hpp:441-445 | Frees the nodes of some pointers and no others |
| `Deque.Deque.UninitializedMove` | _dependency/boost_1_48_0/boost/move/move.hpp:917-929 | Moves objects to raw storage on either side; those moved from keep their value or not, as the element type has it |
| `Deque.Deque.Move` | _dependency/boost_1_48_0/boost/move/move.hpp:862-869 | Moves objects towards the front, overlap and self-assignment included; what those moved from are left with is up to the element type |
| `Deque.Deque.MoveBackward` | _dependency/boost_1_48_0/boost/move/move.hpp:889-896 | Moves objects towards the end, with the same |
| `Deque.Deque.CopyAllTo` | _dependency/boost_1_48_0/boost/container/detail/advanced_insert_int.hpp:52-53 | Assigns the new elements still to come |
| `Deque.Deque.UninitializedCopySome` | _dependency/boost_1_48_0/boost/container/detail/advanced_insert_int.hpp:58-70 | Constructs the first, or the last, of the new elements, and leaves the others as those still to come |
| `Deque.Deque.DestroyRange` | _dependency/boost_1_48_0/boost/container/deque.hpp:1521-1525 | Leaves raw storage in the range, and the rest as it was |
| `Deque.Deque.DestroyCells` | _dependency/boost_1_48_0/boost/container/deque.hpp:1527-1531 | The same within one node |
| `DequeIterator.PlusMoves` | _dependency/boost_1_48_0/boost/container/deque.hpp:252-266 | `+=` by any signed amount moves the position by that amount and stays inside a node |
| `DequeIterator.IncrementMoves` | _dependency/boost_1_48_0/boost/container/deque.hpp:218-243 | `++` and `--` move it by one |
| `DequeIterator.JumpsAreSteps` | _dependency/boost_1_48_0/boost/container/deque.hpp:218-273 | n steps are one jump by n, forwards and backwards: the same node and place |
| `DequeIterator.DifferenceIsExact` | _dependency/boost_1_48_0/boost/container/deque.hpp:209-216 | `-` is the difference of the positions |
| `DequeIterator.LessIsExact` | _dependency/boost_1_48_0/boost/container/deque.hpp:286-290 | `<` is the order of the positions |
| `DequeIterator.ArithmeticLaws` | _dependency/boost_1_48_0/boost/container/deque.hpp:252-275 | Jumps add up, and the difference is the jump |
| `DequeIterator.PositionIsUnique` | _dependency/boost_1_48_0/boost/container/deque.hpp:280-281 | A position belongs to one iterator only, so comparing `m_cur` compares positions |
| `DequeIterator.BufferSize` | _dependency/boost_1_48_0/boost/container/deque.hpp:92-93 | A node holds as many elements as fit in 512 bytes, and at least one |
| `LexicalSigned.ToTextAndBack` | _dependency/boost_1_48_0/boost/lexical_cast.hpp:1347-1389 | Every value of every signed type, the minimum included, printed under any grouping with a non-digit separator into a buffer of the reserved size, is parsed back |
| `LexicalParse.LcastRetUnsigned` | _dependency/boost_1_48_0/boost/lexical_cast.hpp:542-638 | Every printed value comes back, under any grouping. In a grouping locale a text of any length is accepted if and only if its separators stand where the group sizes put them and the loop over its digits accepts these. On at most digits10 + 1 digits the parser is exact: without grouping it accepts the texts of digits whose number fits, with grouping those with the separators there besides; and the value is what the digits spell. Nothing is accepted that does not end in a digit |
| `LexicalParse.GroupsStandApart` | _dependency/boost_1_48_0/boost/lexical_cast.hpp:562-615 | Where separators must stand: a text is in order if and only if it can be taken apart into groups of digits with one separator between two of them, each group but the last, from the right, as long as its entry of the grouping says, 256 added to a negative one, and the last not empty. The last entry counts for all groups that follow, and past 256 entries the number of the group is reduced to a byte |
| `LexicalParse.PrintedStands` | _dependency/boost_1_48_0/boost/lexical_cast.hpp:478-523 | So printed text is in order for the parser, whatever the grouping, although printer and parser take sizes that are not positive differently: no type has digits enough for it to show |
| `LexicalParse.RightUpToLength` | _dependency/boost_1_48_0/boost/lexical_cast.hpp:620-635 | Every text of a length is read right (value, or refusal) if and only if the length is at most 13 for the 16-bit parser, and at most digits10 + 1 for the 32-bit and the 64-bit parser |
| `LexicalParse.RightBySignificance` | _dependency/boost_1_48_0/boost/lexical_cast.hpp:620-635 | For every width, products wrapping or not: all texts with g digits from the first that is not zero are read right, whatever the number of leading zeros, if and only if g is at most digits10 + 1 or no digit passes the checks at the first place |
| `LexicalParse.RightByLength` | _dependency/boost_1_48_0/boost/lexical_cast.hpp:620-635 | For every width, all texts of a length are read right if and only if no digit passes the checks at any place beyond digits10 in it |
| `LexicalParse.PassesIfItFits` | _dependency/boost_1_48_0/boost/lexical_cast.hpp:624-633 | For every width and any multiplier, wrapped or not: a digit passes the two checks exactly if ten times the product of digit and multiplier, as reduced by the arithmetic, added to the value, fits in the type; and that is the next value |
| `LexicalParse.SlipsIfItFits` | _dependency/boost_1_48_0/boost/lexical_cast.hpp:624-630 | A digit passes at a place exactly if ten times some product of a digit and the reduced power of ten, itself reduced by the arithmetic, fits in the type |
| `LexicalParse.LeadingZeros` | _dependency/boost_1_48_0/boost/lexical_cast.hpp:620-635 | Zeros in front of a text make no difference to whether it is read right |
| `LexicalParse.LongIsRefused` | _dependency/boost_1_48_0/boost/lexical_cast.hpp:624-630 | A number too long for the type is refused if no digit passes at its first place |
| `LexicalParse.SlipsIfSmall` | _dependency/boost_1_48_0/boost/lexical_cast.hpp:622-632 | Where products are computed in `int`, a digit passes exactly at the places where the multiplier, reduced to the type, is below a tenth of it |
| `LexicalParse.FoldMultiplies` | _dependency/boost_1_48_0/boost/lexical_cast.hpp:632 | The multiplier is the power of ten of the place reduced to the type, whatever digits were read |
| `LexicalParse.OverflowingIsAccepted` | _dependency/boost_1_48_0/boost/lexical_cast.hpp:624-630 | If a digit passes at a place beyond digits10, the text of it and zeros is accepted although the number it spells is too large |
| `LexicalParse.DigitStepIsExact` | _dependency/boost_1_48_0/boost/lexical_cast.hpp:624-633 | While the multiplier is a true power of ten the overflow checks reject exactly the numbers that do not fit, and the next multiplier is true again |
| `LexicalParse.FoldIsExact` | _dependency/boost_1_48_0/boost/lexical_cast.hpp:620-635 | So the whole loop is exact on few enough digits |
| `LexicalParse.RetPlain` | _dependency/boost_1_48_0/boost/lexical_cast.hpp:620-635 | The plain loop, tied to that reading of the text |
| `LexicalParse.RetGrouped` | _dependency/boost_1_48_0/boost/lexical_cast.hpp:562-615 | The loop that checks groups: a text of any length is accepted if and only if its separators stand where the group sizes put them and the plain loop accepts its digits; every printed text is; on at most digits10 + 1 digits it is exact |
| `LexicalParse.PrintedSpells` | _dependency/boost_1_48_0/boost/lexical_cast.hpp:463-537 | A printed text ends in a digit, and without its separators is the decimal text, which spells the value |
| `LexicalCast.LcastPutUnsigned` | _dependency/boost_1_48_0/boost/lexical_cast.hpp:463-537 | Writes exactly the text of the value so that it ends at the given place, and nothing outside |
| `LexicalCast.PrintedInGroups` | _dependency/boost_1_48_0/boost/lexical_cast.hpp:478-523 | Whenever a grouping has a positive first size, every number is printed as its decimal digits in groups with one separator between two, the k-th group from the right of exactly `grouping[min(k, size - 1)]` digits, or CHAR_MAX where that is not positive, and the last of at least one and at most so many |
| `LexicalCast.PrintedPlain` | _dependency/boost_1_48_0/boost/lexical_cast.hpp:478-482 | In every other locale a number is printed as its decimal digits and nothing else |
| `LexicalCast.PrintedMillions` | _dependency/boost_1_48_0/boost/lexical_cast.hpp:487-523 | For instance 1234567 under groups of three is 1,234,567 |
| `LexicalCast.PutGrouped` | _dependency/boost_1_48_0/boost/lexical_cast.hpp:487-523 | The grouped loop |
| `LexicalCast.PutPlain` | _dependency/boost_1_48_0/boost/lexical_cast.hpp:526-534 | The plain loop |
| `LexicalCast.GroupsHoldTheirSize` | _dependency/boost_1_48_0/boost/lexical_cast.hpp:499-521 | What grouped text is: each group but the last holds exactly as many digits as its size says |
| `LexicalCast.DecimalSpells` | _dependency/boost_1_48_0/boost/lexical_cast.hpp:526-534 | The plain text of a number is digits that spell it |
| `LexicalCast.TextStripped` | _dependency/boost_1_48_0/boost/lexical_cast.hpp:499-521 | Grouping adds separators and nothing else |
| `LexicalCast.BufferSuffices` | _dependency/boost_1_48_0/boost/lexical_cast.hpp:286-307 | No unsigned value, under no grouping, needs more than 1 + 2 * digits10 characters |
| `LexicalCast.BufferIsTight` | _dependency/boost_1_48_0/boost/lexical_cast.hpp:286-307 | The largest value needs all of them with groups of one digit |
| `LexicalSigned.SignedLength` | _dependency/boost_1_48_0/boost/lexical_cast.hpp:286-307 | No signed value needs more than 2 + 2 * digits10 characters |
| `LexicalSigned.SignedBufferIsTight` | _dependency/boost_1_48_0/boost/lexical_cast.hpp:286-307 | The smallest value needs all of them with groups of one digit |
| `LexicalSigned.LcastToUnsigned` | _dependency/boost_1_48_0/boost/lexical_cast.hpp:446-453 | The unsigned magnitude, by negation in two's complement, for the minimum too |
| `LexicalSigned.ShlSigned` | _dependency/boost_1_48_0/boost/lexical_cast.hpp:1153-1164 | Writes sign and magnitude |
| `LexicalSigned.ShrSigned` | _dependency/boost_1_48_0/boost/lexical_cast.hpp:1347-1389 | For every text, the empty one and a lone sign included, with and without grouping: accepted exactly if what follows the sign is accepted as unsigned and within range, and the value carries the sign. Nothing is accepted without a digit at its end, every printed signed value comes back, and on at most digits10 + 1 digits the result is exact |
| `MinMax.BasicMinMaxElement` | _dependency/boost_1_48_0/boost/algorithm/minmax_element.hpp:54-115 | First smallest and first largest position under any strict weak order, with at most 3n/2 calls of the order, and none on fewer than two elements; the order counts its calls itself |
| `MinMax.BasicFirstMinLastMaxElement` | _dependency/boost_1_48_0/boost/algorithm/minmax_element.hpp:331-375 | First smallest and last largest, with no more calls |
| `MinMax.BasicLastMinFirstMaxElement` | _dependency/boost_1_48_0/boost/algorithm/minmax_element.hpp:377-420 | Last smallest and first largest, with no more calls |
| `MinMax.BasicLastMinLastMaxElement` | _dependency/boost_1_48_0/boost/algorithm/minmax_element.hpp:422-479 | Last smallest and last largest, with no more calls |
| `MinMax.FirstMinFirstMaxPair` | _dependency/boost_1_48_0/boost/algorithm/minmax_element.hpp:81-95 | One pair, three calls: the smallest so far stays right up to one deferred comparison |
| `MinMax.FirstMinFirstMaxRest` | _dependency/boost_1_48_0/boost/algorithm/minmax_element.hpp:100-112 | The odd element, and the deferred comparison that settles it |
| `MinMax.FirstMinLastMaxPair` | _dependency/boost_1_48_0/boost/algorithm/minmax_element.hpp:352-364 | One pair of this search, nothing deferred |
| `MinMax.LastMinFirstMaxPair` | _dependency/boost_1_48_0/boost/algorithm/minmax_element.hpp:397-408 | One pair of this search, nothing deferred |
| `MinMax.LastMinLastMaxPair` | _dependency/boost_1_48_0/boost/algorithm/minmax_element.hpp:445-460 | One pair: the largest so far stays right up to one deferred comparison |
| `MinMax.LastMinLastMaxRest` | _dependency/boost_1_48_0/boost/algorithm/minmax_element.hpp:465-476 | The odd element, and the deferred comparison that settles it |

## Left out

- Windows shared memory, mapped regions, exceptions, console output, `cObserver`, timestamps and keys: plumbing around the rings. The header before the rings is a base address; that it fits its reserve is not claimed.
- Weak memory ordering, torn words and compiler reordering: excluded by the assumptions above.
- More than one client, or a server created anew over rings in use while a call is under way: shown are only the harm between calls, and when there is none.
- The step machine and the classes are two models of the same code. In the class model the peer does not act between the two halves of a split transfer, nor inside a copy or an advance; those interleavings are the step machine's.
- RingProgress.EveryRunCanBeCompleted: a continuation that delivers exists from every state; that a scheduler finds it is not claimed, and with a peer that stops between its two stores it is false. For the chunk loops `TransferLoops.LoopsDeliver` says how often both sides must get on.
- CircularBuffer.SharedRing: the four words are fields rather than the last 32 bytes of the array; that copies never reach those is `RingTheorems.CopiesNeverMeet`.
- CircularBuffer.CircularReadBuffer.ReadData: the sink is an array and a place in it instead of a pointer.
- Deque.Deque.InsertAux: the new elements are a sequence of values. A source that refers to the deque itself is modelled for one element (`InsertOwn`), not for ranges or repeated fills.
- Deque.Deque.EraseAt: the element's own exceptions and those of the allocator are not modelled, here as in all members of the deque; neither are the roll-backs for them.
- Deque iterators are values: an iterator that an operation invalidates is not tracked.
- Deque: constructors over ranges, copying, assignment, swapping, comparison, resizing and the emplace family, which combine the operations proved here; of the constructors the one that fills is modelled. The elements are destroyed in every case, as for types with a destructor.
- The empty text: the code looks at the character before the buffer first; the model refuses it at once.
- `lexical_cast` beyond integers: floating point, infinities, wide characters, type dispatch, and the minus sign that the unsigned parser accepts.
- MinMax: iterators are positions, and the order is one on values. The searches for one extremum only and the wrappers that pass an order are not modelled.
- The rest of the bundled Boost: configuration, concept checks, operator templates, the tree containers, dates, tokenizers.
