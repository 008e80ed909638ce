/** The invariant of the ring over every interleaving, and its preservation step by step. */
module RingInvariant {
  import opened Remainders
  import opened RingArithmetic
  import opened RingProtocol

  /** Each stored word is its logical position modulo `n`. */
  ghost predicate WordsOk(l: Layout, s: State)
    requires l.Valid()
  {
    && Load(s.mem, l.ProducerAddress()) == s.w.First() % l.n
    && Load(s.mem, l.SecondProducerAddress()) == s.w.Second() % l.n
    && Load(s.mem, l.ConsumerAddress()) == s.r.First() % l.n
    && Load(s.mem, l.SecondConsumerAddress()) == s.r.Second() % l.n
  }

  /** The four positions in order, the producer less than one turn ahead of the slowest
  consumer copy, and the writer's outstanding permission within the same bound. */
  ghost predicate OrderOk(l: Layout, s: State) {
    && 0 <= s.r.Second() <= s.r.First() <= s.w.Second() <= s.w.First()
    && 0 <= s.w.credit && |s.w.handed| + s.w.credit <= s.r.Second() + l.n - 1
    && 0 <= s.r.credit && s.r.First() + s.r.Unreleased() + s.r.credit <= s.w.Second()
  }

  ghost predicate WriterOk(l: Layout, s: State)
    requires l.Valid()
  {
    var first := s.w.First();
    match s.w.pc
    case WLoadFirst(seen, at) =>
      seen == at % l.n && 0 <= at <= s.r.Second() && first <= at + l.n - 1
    case WCount(seen, at) =>
      seen == at % l.n && 0 <= at <= s.r.Second() && first <= at + l.n - 1
    case WCopy(segment, rest, todo) =>
      && 0 <= first && segment + rest == s.w.handed[first..]
      && first % l.n + |segment| <= l.n
      && (rest != [] ==> first % l.n + |segment| == l.n)
      && (forall j :: j in todo ==> j < |segment|)
    case WStoreSecond(stored, word, rest) =>
      && 0 <= first && rest == s.w.handed[first..]
      && word == first % l.n
      && (rest != [] ==> first % l.n == 0)
    case _ => true
  }

  ghost predicate ReaderOk(l: Layout, s: State)
    requires l.Valid()
  {
    var first := s.r.First();
    match s.r.pc
    case RLoadFirst(seen, at) =>
      seen == at % l.n && first <= at <= s.w.Second()
    case RCount(seen, at) =>
      seen == at % l.n && first <= at <= s.w.Second()
    case RCopy(length, rest, todo, sink) =>
      && first % l.n + length <= l.n
      && (rest > 0 ==> first % l.n + length == l.n)
      && (forall j :: j in todo ==> j < length)
      && (forall j: nat :: j in sink <==> j < length && j !in todo)
    case RStoreSecond(stored, word, rest) =>
      && word == first % l.n
      && (rest > 0 ==> first % l.n == 0)
    case _ => true
  }

  /** The stream positions whose byte already lies in its cell. */
  predicate InCell(w: Writer, i: int) {
    || 0 <= i < w.First()
    || (w.pc.WCopy? && w.First() <= i < w.First() + |w.pc.segment| && i - w.First() !in w.pc.todo)
  }

  /** Every unread byte that was copied in lies in the cell of its position. */
  ghost predicate CellsOk(l: Layout, s: State)
    requires l.Valid()
  {
    forall i {:trigger l.Cell(i)} :: s.r.First() <= i < |s.w.handed| && InCell(s.w, i) ==>
      Load(s.mem, l.Cell(i)) == s.w.handed[i]
  }

  /** All that the reader copied out is the stream, in order. */
  ghost predicate Fifo(s: State) {
    && s.r.out <= s.w.handed
    && (s.r.pc.RCopy? ==> forall j :: j in s.r.pc.sink ==>
      |s.r.out| + j < |s.w.handed| && s.r.pc.sink[j] == s.w.handed[|s.r.out| + j])
  }

  ghost predicate Inv(l: Layout, s: State)
    requires l.Valid()
  {
    && WordsOk(l, s)
    && OrderOk(l, s)
    && WriterOk(l, s)
    && ReaderOk(l, s)
    && CellsOk(l, s)
    && Fifo(s)
  }

  // ---------- cells ----------

  /** Positions less than one turn apart have different cells. */
  lemma CellsDiffer(l: Layout, i: int, j: int)
    requires l.Valid() && i != j && i - j < l.n && j - i < l.n
    ensures l.Cell(i) != l.Cell(j)
  {
    if i < j {
      WordsTellPositionsApart(i, j, l.n);
    } else {
      WordsTellPositionsApart(j, i, l.n);
    }
  }

  /** The address `position word + offset` is the cell of `position + offset`. */
  lemma CellAt(l: Layout, position: int, offset: nat)
    requires l.Valid() && position % l.n + offset < l.n
    ensures l.Cell(position + offset) == l.base + position % l.n + offset
  {
    ModAdvance(position, offset, l.n);
  }

  // ---------- the double load ----------

  /** No ABA: when the writer's two loads match, the position seen is the reader's position
  now, in both copies, and not one a turn away. */
  lemma WriterMatchIsCurrent(l: Layout, s: State)
    requires l.Valid() && Inv(l, s) && s.w.pc.WLoadFirst?
    ensures Load(s.mem, l.ConsumerAddress()) == s.w.pc.seen <==> s.w.pc.at == s.r.First()
    ensures s.w.pc.at == s.r.First() ==> s.w.pc.at == s.r.Second()
  {
    WordsTellPositionsApart(s.w.pc.at, s.r.First(), l.n);
  }

  /** The same for the reader's two loads of the producer words. */
  lemma ReaderMatchIsCurrent(l: Layout, s: State)
    requires l.Valid() && Inv(l, s) && s.r.pc.RLoadFirst?
    ensures Load(s.mem, l.ProducerAddress()) == s.r.pc.seen <==> s.r.pc.at == s.w.First()
    ensures s.r.pc.at == s.w.First() ==> s.r.pc.at == s.w.Second()
  {
    WordsTellPositionsApart(s.r.pc.at, s.w.First(), l.n);
  }

  // ---------- preservation: the writer's steps ----------

  lemma WriterPolls(l: Layout, s: State, step: Step)
    requires l.Valid() && Inv(l, s) && Enabled(s, step)
    requires step.WPoll? || step.WDoLoadSecond? || step.WDoLoadFirst?
    ensures Inv(l, Apply(l, s, step))
  {
    var t := Apply(l, s, step);
    assert forall i :: InCell(t.w, i) == InCell(s.w, i);
  }

  lemma WriterCounts(l: Layout, s: State)
    requires l.Valid() && Inv(l, s) && s.w.pc.WCount?
    ensures Apply(l, s, WDoCount).w.credit == l.n - 1 - (s.w.First() - s.w.pc.at)
    ensures Inv(l, Apply(l, s, WDoCount))
  {
    FreeCountIsExact(s.w.pc.at, s.w.First(), l.n);
    var t := Apply(l, s, WDoCount);
    assert forall i :: InCell(t.w, i) == InCell(s.w, i);
  }

  lemma WriterCalls(l: Layout, s: State, data: seq<Byte>)
    requires l.Valid() && Inv(l, s) && Enabled(s, WCall(data))
    ensures Inv(l, Apply(l, s, WCall(data)))
  {
    hide Inv, StartWrite;
    var pc := StartWrite(l, Load(s.mem, l.ProducerAddress()), data);
    ProducerWord(l, s);
    StartWriteFits(l, s.w.First() % l.n, data);
    WriterTookOn(l, s, data, pc.segment, pc.rest);
    assert pc == WCopy(pc.segment, pc.rest, UpTo(|pc.segment|));
  }

  lemma ProducerWord(l: Layout, s: State)
    requires l.Valid() && Inv(l, s)
    ensures Load(s.mem, l.ProducerAddress()) == s.w.First() % l.n
  {
  }

  lemma WriterTookOn(l: Layout, s: State, data: seq<Byte>, segment: seq<Byte>, rest: seq<Byte>)
    requires l.Valid() && Inv(l, s) && s.w.pc.WIdle? && |data| <= s.w.credit && segment + rest == data
    requires var word := s.w.First() % l.n;
      word + |segment| <= l.n && (rest != [] ==> word + |segment| == l.n)
    ensures Inv(l, State(s.mem,
      Writer(WCopy(segment, rest, UpTo(|segment|)), s.w.handed + data, s.w.credit - |data|), s.r))
  {
    var t := State(s.mem, Writer(WCopy(segment, rest, UpTo(|segment|)), s.w.handed + data, s.w.credit - |data|), s.r);
    hide CellsOk, Fifo, WriterOk;
    assert |segment| + |rest| == |data|;
    assert t.w.First() == s.w.First() == |s.w.handed| && t.w.Second() == s.w.Second();
    assert WordsOk(l, t) && OrderOk(l, t) && ReaderOk(l, t);
    Appended(s.w.handed, data);
    CopyBegins(l, t, |s.w.handed|, segment, rest);
    CallKeepsCells(l, s, t);
    CallKeepsFifo(s, t);
  }

  lemma CopyBegins(l: Layout, t: State, first: nat, segment: seq<Byte>, rest: seq<Byte>)
    requires l.Valid() && t.w.pc == WCopy(segment, rest, UpTo(|segment|))
    requires t.w.First() == first <= |t.w.handed| && segment + rest == t.w.handed[first..]
    requires first % l.n + |segment| <= l.n && (rest != [] ==> first % l.n + |segment| == l.n)
    ensures WriterOk(l, t)
  {
  }

  lemma Appended(handed: seq<Byte>, data: seq<Byte>)
    ensures (handed + data)[|handed|..] == data
  {
  }

  lemma CallKeepsFifo(s: State, t: State)
    requires Fifo(s) && t.r == s.r && s.w.handed <= t.w.handed
    ensures Fifo(t)
  {
  }

  /** A call that hands over more leaves the bytes in the cells as they are. */
  lemma CallKeepsCells(l: Layout, s: State, t: State)
    requires l.Valid() && CellsOk(l, s) && t.mem == s.mem && t.r == s.r && s.w.pc.WIdle?
    requires s.w.handed <= t.w.handed && t.w.First() == s.w.First()
    requires t.w.pc.WCopy? && t.w.pc.todo == UpTo(|t.w.pc.segment|)
    ensures CellsOk(l, t)
  {
    forall i | s.r.First() <= i < |t.w.handed| && InCell(t.w, i)
      ensures Load(t.mem, l.Cell(i)) == t.w.handed[i]
    {
      assert InCell(s.w, i);
    }
  }

  lemma StartWriteFits(l: Layout, word: int, data: seq<Byte>)
    requires l.Valid() && 0 <= word < l.n
    ensures var pc := StartWrite(l, word, data);
      && pc.WCopy? && pc.segment + pc.rest == data
      && word + |pc.segment| <= l.n
      && (pc.rest != [] ==> word + |pc.segment| == l.n)
      && pc.todo == UpTo(|pc.segment|)
  {
    Small64(l.n - word);
  }

  lemma CopyFillsCell(l: Layout, s: State, offset: nat)
    requires l.Valid() && Inv(l, s) && Enabled(s, WCopyByte(offset))
    ensures CellsOk(l, Apply(l, s, WCopyByte(offset)))
  {
    var t := Apply(l, s, WCopyByte(offset));
    var position := s.w.First() + offset;
    CellAt(l, s.w.First(), offset);
    assert t.mem == s.mem[l.Cell(position) := s.w.pc.segment[offset]];
    assert s.w.handed[position] == (s.w.pc.segment + s.w.pc.rest)[offset];
    forall i | s.r.First() <= i < |s.w.handed| && InCell(t.w, i)
      ensures Load(t.mem, l.Cell(i)) == t.w.handed[i]
    {
      if i != position {
        CellsDiffer(l, i, position);
        assert InCell(s.w, i);
      }
    }
  }

  lemma WriterCopies(l: Layout, s: State, offset: nat)
    requires l.Valid() && Inv(l, s) && Enabled(s, WCopyByte(offset))
    ensures Inv(l, Apply(l, s, WCopyByte(offset)))
  {
    var t := Apply(l, s, WCopyByte(offset));
    CellAt(l, s.w.First(), offset);
    assert t.r == s.r && t.w.handed == s.w.handed && t.w.credit == s.w.credit;
    assert t.w.First() == s.w.First() && t.w.Second() == s.w.Second();
    assert WordsOk(l, t) && OrderOk(l, t);
    assert CellsOk(l, t) by {
      CopyFillsCell(l, s, offset);
    }
  }

  lemma WriterPublishesFirst(l: Layout, s: State)
    requires l.Valid() && Inv(l, s) && Enabled(s, WPublishFirst)
    ensures Inv(l, Apply(l, s, WPublishFirst))
  {
    var t := Apply(l, s, WPublishFirst);
    AdvanceIsExact(s.w.First(), |s.w.pc.segment|, l.n);
    assert t.w.First() == s.w.First() + |s.w.pc.segment|;
    assert t.w.handed[t.w.First()..] == s.w.handed[s.w.First()..][|s.w.pc.segment|..] == s.w.pc.rest;
    if s.w.pc.rest != [] {
      ModAdvance(s.w.First(), |s.w.pc.segment|, l.n);
    }
    assert CellsOk(l, t) by {
      CellsKept(l, s, t);
    }
  }

  /** A store to one of the words leaves the cells as they are. */
  lemma CellsKept(l: Layout, s: State, t: State)
    requires l.Valid() && CellsOk(l, s) && t.w.handed == s.w.handed && s.r.First() <= t.r.First()
    requires forall i :: 0 <= i < |s.w.handed| && InCell(t.w, i) ==> InCell(s.w, i)
    requires forall i {:trigger l.Cell(i)} :: 0 <= i < |s.w.handed| ==> Load(t.mem, l.Cell(i)) == Load(s.mem, l.Cell(i))
    ensures CellsOk(l, t)
  {
    forall i | t.r.First() <= i < |t.w.handed| && InCell(t.w, i)
      ensures Load(t.mem, l.Cell(i)) == t.w.handed[i]
    {
      assert InCell(s.w, i);
    }
  }

  lemma WriterPublishesSecond(l: Layout, s: State)
    requires l.Valid() && Inv(l, s) && Enabled(s, WPublishSecond)
    ensures Inv(l, Apply(l, s, WPublishSecond))
  {
    var t := Apply(l, s, WPublishSecond);
    assert t.w.First() == s.w.First();
    assert forall i :: InCell(t.w, i) == InCell(s.w, i);
  }

  // ---------- preservation: the reader's steps ----------

  lemma ReaderPolls(l: Layout, s: State, step: Step)
    requires l.Valid() && Inv(l, s) && Enabled(s, step)
    requires step.RPoll? || step.RDoLoadSecond? || step.RDoLoadFirst?
    ensures Inv(l, Apply(l, s, step))
  {
  }

  lemma ReaderCounts(l: Layout, s: State)
    requires l.Valid() && Inv(l, s) && s.r.pc.RCount?
    ensures Apply(l, s, RDoCount).r.credit == s.r.pc.at - s.r.First()
    ensures Inv(l, Apply(l, s, RDoCount))
  {
    AvailableCountIsExact(s.r.First(), s.r.pc.at, l.n);
  }

  lemma ReaderCalls(l: Layout, s: State, amount: nat)
    requires l.Valid() && Inv(l, s) && Enabled(s, RCall(amount))
    ensures Inv(l, Apply(l, s, RCall(amount)))
  {
    var t := Apply(l, s, RCall(amount));
    StartReadFits(l, s.r.First() % l.n, amount);
    assert t.r.First() == s.r.First() && t.r.Second() == s.r.Second();
    assert t.r.Unreleased() == amount;
  }

  lemma StartReadFits(l: Layout, word: int, amount: nat)
    requires l.Valid() && 0 <= word < l.n
    ensures var pc := StartRead(l, word, amount);
      && pc.length + pc.rest == amount
      && word + pc.length <= l.n
      && (pc.rest > 0 ==> word + pc.length == l.n)
      && pc.todo == UpTo(pc.length) && pc.sink == map[]
  {
    Small64(l.n + RESERVE_SIZE - word);
    Small64(l.n - word);
  }

  /** The byte the reader loads is the stream byte of its position. */
  lemma ReaderLoadsStreamByte(l: Layout, s: State, offset: nat)
    requires l.Valid() && Inv(l, s) && Enabled(s, RCopyByte(offset))
    ensures offset < s.r.pc.length && |s.r.out| + offset < |s.w.handed|
    ensures Load(s.mem, l.base + Load(s.mem, l.ConsumerAddress()) + offset) == s.w.handed[|s.r.out| + offset]
  {
    var position := s.r.First() + offset;
    CellAt(l, s.r.First(), offset);
    assert InCell(s.w, position);
    assert Load(s.mem, l.Cell(position)) == s.w.handed[position];
  }

  lemma ReaderCopies(l: Layout, s: State, offset: nat)
    requires l.Valid() && Inv(l, s) && Enabled(s, RCopyByte(offset))
    ensures Inv(l, Apply(l, s, RCopyByte(offset)))
  {
    ReaderLoadsStreamByte(l, s, offset);
    hide CellsOk, Fifo;
    var t := Apply(l, s, RCopyByte(offset));
    assert t.mem == s.mem && t.w == s.w && t.r.out == s.r.out;
    assert t.r.Unreleased() == s.r.Unreleased() && t.r.Second() == s.r.Second();
    CellsKept(l, s, t);
    SinkGrows(s, t, offset);
  }

  lemma SinkGrows(s: State, t: State, offset: nat)
    requires Fifo(s) && s.r.pc.RCopy? && t.r.pc.RCopy? && t.w == s.w && t.r.out == s.r.out
    requires |s.r.out| + offset < |s.w.handed|
    requires t.r.pc.sink == s.r.pc.sink[offset := s.w.handed[|s.r.out| + offset]]
    ensures Fifo(t)
  {
  }

  lemma ReaderReleasesFirst(l: Layout, s: State)
    requires l.Valid() && Inv(l, s) && Enabled(s, RReleaseFirst)
    ensures Inv(l, Apply(l, s, RReleaseFirst))
  {
    var t := Apply(l, s, RReleaseFirst);
    hide Copied;
    AdvanceIsExact(s.r.First(), s.r.pc.length, l.n);
    if s.r.pc.rest > 0 {
      ModAdvance(s.r.First(), s.r.pc.length, l.n);
    }
    assert t.w == s.w && t.r.First() == s.r.First() + s.r.pc.length && t.r.Second() == s.r.Second();
    assert WordsOk(l, t) && OrderOk(l, t);
    assert Fifo(t) by {
      CopiedIsStream(l, s);
    }
    assert CellsOk(l, t) by {
      CellsKept(l, s, t);
    }
  }

  /** A finished copy is the next bytes of the stream. */
  lemma CopiedIsStream(l: Layout, s: State)
    requires l.Valid() && Inv(l, s) && Enabled(s, RReleaseFirst)
    ensures s.r.out + Copied(s.r.pc.length, s.r.pc.sink) <= s.w.handed
  {
    hide CellsOk, WordsOk, WriterOk;
    var all := s.r.out + Copied(s.r.pc.length, s.r.pc.sink);
    assert all == s.w.handed[..|all|];
  }

  lemma ReaderReleasesSecond(l: Layout, s: State)
    requires l.Valid() && Inv(l, s) && Enabled(s, RReleaseSecond)
    ensures Inv(l, Apply(l, s, RReleaseSecond))
  {
  }

  // ---------- the induction ----------

  lemma StepKeepsInv(l: Layout, s: State, step: Step)
    requires l.Valid() && Inv(l, s) && Enabled(s, step)
    ensures Inv(l, Apply(l, s, step))
  {
    match step
    case WDoCount => WriterCounts(l, s);
    case WCall(data) => WriterCalls(l, s, data);
    case WCopyByte(offset) => WriterCopies(l, s, offset);
    case WPublishFirst => WriterPublishesFirst(l, s);
    case WPublishSecond => WriterPublishesSecond(l, s);
    case RDoCount => ReaderCounts(l, s);
    case RCall(amount) => ReaderCalls(l, s, amount);
    case RCopyByte(offset) => ReaderCopies(l, s, offset);
    case RReleaseFirst => ReaderReleasesFirst(l, s);
    case RReleaseSecond => ReaderReleasesSecond(l, s);
    case _ =>
      if IsWriterStep(step) { WriterPolls(l, s, step); } else { ReaderPolls(l, s, step); }
  }
}
