/** The unsigned 64-bit expressions of the ring, and what they mean for unbounded positions.

A position is the number of bytes ever published (or released) on one side. The ring
stores only `position % n`, where `n` is the effective buffer size.
*/
module RingArithmetic {
  import opened Remainders

  const TWO_64: int := 0x1_0000_0000_0000_0000
  const RESERVE_SIZE: nat := 32
  const WORD_SIZE: nat := 8

  type Byte = b: int | 0 <= b < 256 witness 0

  // ---------- the machine's operators ----------

  function Add64(a: int, b: int): int {
    (a + b) % TWO_64
  }

  function Sub64(a: int, b: int): int {
    (a - b) % TWO_64
  }

  /** The new position word of an advance by `amount`. */
  function AdvanceWord(word: int, amount: nat, n: nat): int
    requires n > 0
  {
    var sum := Add64(word, amount);
    if sum >= n then sum % n else sum
  }

  /** The count the writer computes from the consumer word it loaded and its own word. */
  function FreeCount(consumer: int, producer: int, n: nat): int {
    if consumer > producer then
      Sub64(Sub64(consumer, producer), 1)
    else
      Sub64(Sub64(Add64(consumer, n), producer), 1)
  }

  /** The count the reader computes from the producer word it loaded and its own word. */
  function AvailableCount(producer: int, consumer: int, n: nat): int {
    if producer >= consumer then
      Sub64(producer, consumer)
    else
      Sub64(Add64(producer, n), consumer)
  }

  /** The sizes a ring can have: `n` is a 64-bit buffer size less the reserve, and not zero. */
  predicate RingSize(n: nat) {
    1 <= n && n + RESERVE_SIZE < TWO_64
  }

  /** Two positions less than one turn apart are equal exactly when their words are. */
  lemma WordsTellPositionsApart(x: int, y: int, n: int)
    requires n > 0 && x <= y < x + n
    ensures x % n == y % n <==> x == y
  {
    ModAdvance(x, y - x, n);
  }

  // ---------- exactness of the 64-bit expressions ----------

  lemma Small64(x: int)
    requires 0 <= x < TWO_64
    ensures x % TWO_64 == x
  {
    ModIs(x, 0, x, TWO_64);
  }

  /** Operators modulo 2^64 compose: only the final value matters, not a detour over it. */
  lemma SubAfterMod(x: int, y: int)
    ensures Sub64(x % TWO_64, y) == (x - y) % TWO_64
  {
    var q := (x % TWO_64 - y) / TWO_64;
    assert x - y == (x / TWO_64 + q) * TWO_64 + Sub64(x % TWO_64, y);
    ModIs(x - y, x / TWO_64 + q, Sub64(x % TWO_64, y), TWO_64);
  }

  /** The writer's count is the true number of free bytes, although `consumer + n` may
  exceed 64 bits on the way. */
  lemma FreeCountIsExact(read: nat, written: nat, n: nat)
    requires RingSize(n) && read <= written <= read + n - 1
    ensures FreeCount(read % n, written % n, n) == n - 1 - (written - read)
  {
    var c, p := read % n, written % n;
    ModAdvance(read, written - read, n);
    SubAfterMod(c - p, 1);
    SubAfterMod(c + n, p);
    SubAfterMod(c + n - p, 1);
    Small64(n - 1 - (written - read));
  }

  /** The reader's count is the true number of unread bytes. */
  lemma AvailableCountIsExact(read: nat, written: nat, n: nat)
    requires RingSize(n) && read <= written <= read + n - 1
    ensures AvailableCount(written % n, read % n, n) == written - read
  {
    var c, p := read % n, written % n;
    ModAdvance(read, written - read, n);
    SubAfterMod(p + n, c);
    Small64(written - read);
  }

  /** An advance that does not pass the end of the buffer moves the word with the position;
  the remainder is taken of exactly `n` or not at all. */
  lemma AdvanceIsExact(position: nat, amount: nat, n: nat)
    requires RingSize(n) && position % n + amount <= n
    ensures AdvanceWord(position % n, amount, n) == (position + amount) % n
    ensures Add64(position % n, amount) >= n ==> Add64(position % n, amount) == n
  {
    ModAdvance(position, amount, n);
    Small64(position % n + amount);
    if position % n + amount == n {
      ModIs(n, 1, 0, n);
    }
  }

  /** `consumer + n` really can leave the 64-bit range on the way to a count. */
  lemma CountCanOverflowMidway() returns (read: nat, written: nat, n: nat)
    ensures RingSize(n) && read <= written <= read + n - 1
    ensures read % n <= written % n && read % n + n >= TWO_64
  {
    n := TWO_64 - 33;
    read, written := n - 1, n - 1;
    ModIs(n - 1, 0, n - 1, n);
  }
}
