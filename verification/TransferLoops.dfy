/** The chunk loops of both entities on the step machine: whoever polls, acts on the count and
polls again makes the transfer complete, however the two sides interleave. */
module TransferLoops {
  import opened RingArithmetic
  import opened RingProtocol
  import opened RingInvariant
  import opened RingTheorems
  import opened RingProgress

  function Smaller(a: int, b: int): int {
    if a < b then a else b
  }

  /** The calls that the loops make to transfer `data`: all that the count allows, or all that is
  left, and at least one byte. */
  predicate Obeys(s: State, step: Step, data: seq<Byte>) {
    match step
    case WCall(portion) =>
      var h := |s.w.handed|;
      h < |data| && s.w.credit > 0 && portion == data[h..h + Smaller(s.w.credit, |data| - h)]
    case RCall(amount) =>
      |s.r.out| < |data| && s.r.credit > 0 && amount == Smaller(s.r.credit, |data| - |s.r.out|)
    case _ => true
  }

  /** A poll with a count still at hand and bytes left. The loops make one such at most on either
  side: the count that comes before the loop is not used in it. */
  function Wasted(s: State, step: Step, data: seq<Byte>): nat {
    if step.WPoll? && s.w.credit > 0 && |s.w.handed| < |data| then 1
    else if step.RPoll? && s.r.credit > 0 && |s.r.out| < |data| then 1
    else 0
  }

  /** Every step can be taken, and the calls are those of the loops. */
  ghost predicate Obedient(l: Layout, from: State, steps: seq<Step>, data: seq<Byte>)
    requires l.Valid()
    decreases |steps|
  {
    steps == [] ||
    (Enabled(from, steps[0]) && Obeys(from, steps[0], data) &&
     Obedient(l, Apply(l, from, steps[0]), steps[1..], data))
  }

  ghost function After(l: Layout, from: State, steps: seq<Step>, data: seq<Byte>): State
    requires l.Valid() && Obedient(l, from, steps, data)
    decreases |steps|
  {
    if steps == [] then from else After(l, Apply(l, from, steps[0]), steps[1..], data)
  }

  ghost function AllWasted(l: Layout, from: State, steps: seq<Step>, data: seq<Byte>): nat
    requires l.Valid() && Obedient(l, from, steps, data)
    decreases |steps|
  {
    if steps == [] then 0
    else Wasted(from, steps[0], data) + AllWasted(l, Apply(l, from, steps[0]), steps[1..], data)
  }

  /** These are runs of the step machine: all that is proved of those holds here. */
  lemma {:induction false} ObedientRuns(l: Layout, from: State, steps: seq<Step>, data: seq<Byte>)
    requires l.Valid() && Obedient(l, from, steps, data)
    ensures Run(l, from, steps, After(l, from, steps, data))
    decreases |steps|
  {
    if steps != [] {
      ObedientRuns(l, Apply(l, from, steps[0]), steps[1..], data);
    }
  }

  /** Polls completed on one side. */
  function Polls(steps: seq<Step>, writer: bool): nat {
    if steps == [] then 0
    else (if steps[0] == (if writer then WDoCount else RDoCount) then 1 else 0) + Polls(steps[1..], writer)
  }

  /** A call of the loops uses up the count it has, or leaves nothing to transfer. */
  lemma CallsTakeAll(l: Layout, s: State, step: Step, data: seq<Byte>)
    requires l.Valid() && Inv(l, s) && Enabled(s, step) && Obeys(s, step, data)
    ensures var t := Apply(l, s, step);
      && (step.WCall? ==> t.w.credit == 0 || |t.w.handed| == |data|)
      && (step.RCall? ==> t.r.credit == 0 || |t.r.out| + t.r.Unreleased() == |data|)
  {
    ReaderAsksFor(l, s, step);
    hide Inv, StartWrite, StartRead;
  }

  lemma ReaderAsksFor(l: Layout, s: State, step: Step)
    requires l.Valid() && Inv(l, s) && Enabled(s, step)
    ensures var t := Apply(l, s, step);
      step.RCall? ==> t.r.out == s.r.out && t.r.Unreleased() == step.amount && t.r.credit == s.r.credit - step.amount
  {
    if step.RCall? {
      StartReadFits(l, s.r.First() % l.n, step.amount);
    }
  }

  // ---------- rounds ----------

  /** A stretch in which the writer completes some polls, and one in which the reader does; the
  other side takes any steps meanwhile. */
  datatype Round = Round(writing: seq<Step>, reading: seq<Step>)

  /** Three polls: one may have begun before, the next one is made as a whole, and before a third
  the side acts on its count. A side that is through with `data` need not poll any more. */
  ghost predicate WriterTurn(l: Layout, from: State, steps: seq<Step>, data: seq<Byte>)
    requires l.Valid()
  {
    && Obedient(l, from, steps, data)
    && var t := After(l, from, steps, data);
    Polls(steps, true) >= 3 || (t.w.handed == data && t.w.pc.WIdle?)
  }

  ghost predicate ReaderTurn(l: Layout, from: State, steps: seq<Step>, data: seq<Byte>)
    requires l.Valid()
  {
    && Obedient(l, from, steps, data)
    && (Polls(steps, false) >= 3 || After(l, from, steps, data).r.out == data)
  }

  ghost predicate IsRound(l: Layout, from: State, round: Round, data: seq<Byte>)
    requires l.Valid()
  {
    && WriterTurn(l, from, round.writing, data)
    && ReaderTurn(l, After(l, from, round.writing, data), round.reading, data)
  }

  ghost function AfterRound(l: Layout, from: State, round: Round, data: seq<Byte>): State
    requires l.Valid() && IsRound(l, from, round, data)
  {
    After(l, After(l, from, round.writing, data), round.reading, data)
  }

  ghost predicate AreRounds(l: Layout, from: State, rounds: seq<Round>, data: seq<Byte>)
    requires l.Valid()
    decreases |rounds|
  {
    rounds == [] ||
    (IsRound(l, from, rounds[0], data) && AreRounds(l, AfterRound(l, from, rounds[0], data), rounds[1..], data))
  }

  ghost function AfterRounds(l: Layout, from: State, rounds: seq<Round>, data: seq<Byte>): State
    requires l.Valid() && AreRounds(l, from, rounds, data)
    decreases |rounds|
  {
    if rounds == [] then from else AfterRounds(l, AfterRound(l, from, rounds[0], data), rounds[1..], data)
  }

  ghost function WastedInRound(l: Layout, from: State, round: Round, data: seq<Byte>): nat
    requires l.Valid() && IsRound(l, from, round, data)
  {
    AllWasted(l, from, round.writing, data)
    + AllWasted(l, After(l, from, round.writing, data), round.reading, data)
  }

  ghost function WastedInRounds(l: Layout, from: State, rounds: seq<Round>, data: seq<Byte>): nat
    requires l.Valid() && AreRounds(l, from, rounds, data)
    decreases |rounds|
  {
    if rounds == [] then 0
    else
      WastedInRound(l, from, rounds[0], data)
      + WastedInRounds(l, AfterRound(l, from, rounds[0], data), rounds[1..], data)
  }

  // ---------- what moves ----------

  /** What holds all through the transfer. */
  ghost predicate Going(l: Layout, s: State, data: seq<Byte>)
    requires l.Valid()
  {
    Inv(l, s) && s.w.handed <= data
  }

  /** Each byte counts when it is handed over, when it is asked for, and when it is released. */
  function Left(s: State, data: seq<Byte>): int {
    3 * |data| - |s.w.handed| - (|s.r.out| + s.r.Unreleased()) - |s.r.out|
  }

  lemma OrderOf(l: Layout, s: State)
    requires l.Valid() && Inv(l, s)
    ensures |s.r.out| + s.r.Unreleased() <= s.w.Second() <= s.w.First() <= |s.w.handed|
    ensures s.r.out <= s.w.handed
  {
    hide WordsOk, CellsOk, WriterOk, ReaderOk;
  }

  lemma LeftIsLeft(l: Layout, s: State, data: seq<Byte>)
    requires l.Valid() && Going(l, s, data)
    ensures 0 <= Left(s, data) <= 3 * |data| && (Left(s, data) == 0 ==> s.r.out == data)
  {
    OrderOf(l, s);
    hide Inv;
  }

  /** The calls of the loops hand over the next bytes of `data`, and ask for one at least. */
  lemma CallsGoOn(s: State, step: Step, data: seq<Byte>)
    requires s.w.handed <= data && Obeys(s, step, data)
    ensures step.WCall? ==> s.w.handed + step.data <= data && step.data != []
    ensures step.RCall? ==> step.amount > 0
  {
  }

  lemma WriterMoves(l: Layout, s: State, step: Step)
    requires l.Valid() && Enabled(s, step) && IsWriterStep(step)
    ensures var t := Apply(l, s, step);
      t.r == s.r && t.w.handed == s.w.handed + (if step.WCall? then step.data else [])
  {
    hide AdvanceWord, FreeCount, StartWrite, UpTo, Load;
  }

  lemma ReaderMoves(l: Layout, s: State, step: Step)
    requires l.Valid() && Enabled(s, step) && !IsWriterStep(step)
    ensures var t := Apply(l, s, step);
      && t.w == s.w && |t.r.out| >= |s.r.out|
      && |t.r.out| + t.r.Unreleased() == |s.r.out| + s.r.Unreleased() + (if step.RCall? then step.amount else 0)
  {
    hide AdvanceWord, AvailableCount, UpTo, Load, Copied;
  }

  /** What one step does to the three counts: none goes back, and a call moves one on. */
  lemma StepMoves(l: Layout, s: State, step: Step, data: seq<Byte>)
    requires l.Valid() && Going(l, s, data) && Enabled(s, step) && Obeys(s, step, data)
    ensures var t := Apply(l, s, step);
      && Going(l, t, data)
      && |t.w.handed| >= |s.w.handed| && |t.r.out| >= |s.r.out|
      && |t.r.out| + t.r.Unreleased() >= |s.r.out| + s.r.Unreleased()
      && (step.WCall? ==> |t.w.handed| > |s.w.handed|)
      && (step.RCall? ==> |t.r.out| + t.r.Unreleased() > |s.r.out| + s.r.Unreleased())
      && (!step.WCall? ==> t.w.handed == s.w.handed)
  {
    StepKeepsInv(l, s, step);
    hide Inv, Apply, Enabled, Obeys;
    CallsGoOn(s, step, data);
    if IsWriterStep(step) {
      WriterMoves(l, s, step);
    } else {
      ReaderMoves(l, s, step);
    }
  }

  lemma StepLeaves(l: Layout, s: State, step: Step, data: seq<Byte>)
    requires l.Valid() && Going(l, s, data) && Enabled(s, step) && Obeys(s, step, data)
    ensures var t := Apply(l, s, step);
      && Going(l, t, data) && Left(t, data) <= Left(s, data)
      && (Left(t, data) == Left(s, data) ==>
        && !step.WCall? && !step.RCall? && t.w.handed == s.w.handed && |t.r.out| == |s.r.out|
        && t.r.Unreleased() == s.r.Unreleased())
  {
    StepMoves(l, s, step, data);
    hide *;
  }

  // ---------- the writer's turn ----------

  /** Where the writer stands after so many polls of its turn, if nothing has moved since it
  began. At the end it has nothing to hand over, or finds no room because the ring is not
  empty. */
  predicate WriterStands(s: State, polls: nat, data: seq<Byte>) {
    && (polls >= 1 ==>
      !InWriteData(s.w) && (s.w.pc.WCount? ==> s.w.pc.at == |s.r.out|))
    && (polls >= 2 ==>
      |s.r.out| < |s.w.handed| || s.w.handed == data || (polls == 2 && s.w.pc.WIdle? && s.w.credit > 0))
  }

  function OneMore(polls: nat): nat {
    if polls < 3 then polls + 1 else 3
  }

  lemma WriterStandsOn(l: Layout, s: State, step: Step, polls: nat, data: seq<Byte>)
    requires l.Valid() && l.n >= 2 && Going(l, s, data) && Enabled(s, step) && Obeys(s, step, data)
    requires WriterStands(s, polls, data) && Wasted(s, step, data) == 0
    requires Left(Apply(l, s, step), data) == Left(s, data)
    ensures WriterStands(Apply(l, s, step), if step.WDoCount? then OneMore(polls) else polls, data)
  {
    StepLeaves(l, s, step, data);
    OrderOf(l, s);
    if step.WDoLoadFirst? {
      WriterMatchIsCurrent(l, s);
    } else if step.WDoCount? {
      WriterCounts(l, s);
      if |s.w.handed| == |data| {
        assert s.w.handed == data;
      }
    }
    hide Inv, FreeCount, AvailableCount, AdvanceWord;
  }

  lemma {:induction false} WriterStandsThrough(l: Layout, s: State, steps: seq<Step>, polls: nat, data: seq<Byte>)
    requires l.Valid() && l.n >= 2 && Going(l, s, data) && Obedient(l, s, steps, data)
    requires polls <= 3 && WriterStands(s, polls, data)
    ensures var t := After(l, s, steps, data);
      && Going(l, t, data) && Left(t, data) <= Left(s, data)
      && (Left(t, data) == Left(s, data) && AllWasted(l, s, steps, data) == 0 ==>
        WriterStands(t, if polls + Polls(steps, true) < 3 then polls + Polls(steps, true) else 3, data))
    decreases |steps|
  {
    hide Apply, Enabled, Obeys, Wasted, Left, Going, WriterStands;
    if steps != [] {
      var t := Apply(l, s, steps[0]);
      StepLeaves(l, s, steps[0], data);
      var polls' := if steps[0].WDoCount? then OneMore(polls) else polls;
      if Left(t, data) == Left(s, data) && Wasted(s, steps[0], data) == 0 {
        WriterStandsOn(l, s, steps[0], polls, data);
        WriterStandsThrough(l, t, steps[1..], polls', data);
      } else {
        StandsAtFirst(t, data);
        WriterStandsThrough(l, t, steps[1..], 0, data);
      }
    }
  }

  lemma StandsAtFirst(s: State, data: seq<Byte>)
    ensures WriterStands(s, 0, data)
  {
  }

  /** Nothing has moved in its turn: then it is not in a call, and the ring is not empty, or it
  has handed over everything. */
  lemma WriterIsThrough(l: Layout, s: State, steps: seq<Step>, data: seq<Byte>)
    requires l.Valid() && l.n >= 2 && Going(l, s, data) && WriterTurn(l, s, steps, data)
    ensures var t := After(l, s, steps, data);
      && Going(l, t, data) && Left(t, data) <= Left(s, data)
      && (Left(t, data) == Left(s, data) && AllWasted(l, s, steps, data) == 0 ==>
        !InWriteData(t.w) && (|t.r.out| < |t.w.handed| || t.w.handed == data))
  {
    StandsAtFirst(s, data);
    WriterStandsThrough(l, s, steps, 0, data);
    hide Going, After, AllWasted, Obedient, Left, Polls;
  }

  // ---------- the reader's turn ----------

  /** Where the reader stands after so many polls of its turn, on a ring that is not empty, the
  writer not in a call: after the second it has bytes to take and a count that says so. */
  predicate ReaderStands(s: State, polls: nat, data: seq<Byte>) {
    && !InWriteData(s.w) && |s.r.out| < |s.w.handed|
    && (polls >= 1 ==>
      !InReadData(s.r) && (s.r.pc.RCount? ==> s.r.pc.at == |s.w.handed|))
    && (polls >= 2 ==> polls == 2 && s.r.pc.RIdle? && s.r.credit > 0)
  }

  lemma ReaderStandsOn(l: Layout, s: State, step: Step, polls: nat, data: seq<Byte>)
    requires l.Valid() && Going(l, s, data) && Enabled(s, step) && Obeys(s, step, data)
    requires ReaderStands(s, polls, data) && Wasted(s, step, data) == 0
    requires Left(Apply(l, s, step), data) == Left(s, data)
    ensures ReaderStands(Apply(l, s, step), if step.RDoCount? then OneMore(polls) else polls, data)
  {
    StepLeaves(l, s, step, data);
    OrderOf(l, s);
    if step.RDoLoadFirst? {
      ReaderMatchIsCurrent(l, s);
    } else if step.RDoCount? {
      ReaderCounts(l, s);
    }
    hide Inv, FreeCount, AvailableCount, AdvanceWord;
  }

  lemma {:induction false} ReaderStandsThrough(l: Layout, s: State, steps: seq<Step>, polls: nat, data: seq<Byte>)
    requires l.Valid() && Going(l, s, data) && Obedient(l, s, steps, data)
    requires polls <= 3 && ReaderStands(s, polls, data)
    ensures var t := After(l, s, steps, data);
      && Going(l, t, data) && Left(t, data) <= Left(s, data)
      && (Left(t, data) == Left(s, data) && AllWasted(l, s, steps, data) == 0 ==>
        ReaderStands(t, if polls + Polls(steps, false) < 3 then polls + Polls(steps, false) else 3, data))
    decreases |steps|
  {
    hide Apply, Enabled, Obeys, Wasted, Left, Going, ReaderStands;
    if steps != [] {
      var t := Apply(l, s, steps[0]);
      StepLeaves(l, s, steps[0], data);
      var polls' := if steps[0].RDoCount? then OneMore(polls) else polls;
      if Left(t, data) == Left(s, data) && Wasted(s, steps[0], data) == 0 {
        ReaderStandsOn(l, s, steps[0], polls, data);
        ReaderStandsThrough(l, t, steps[1..], polls', data);
      } else {
        AfterLeaves(l, t, steps[1..], data);
      }
    }
  }

  lemma {:induction false} AfterLeaves(l: Layout, s: State, steps: seq<Step>, data: seq<Byte>)
    requires l.Valid() && Going(l, s, data) && Obedient(l, s, steps, data)
    ensures var t := After(l, s, steps, data);
      && Going(l, t, data) && Left(t, data) <= Left(s, data) && |t.r.out| >= |s.r.out|
    decreases |steps|
  {
    if steps != [] {
      StepLeaves(l, s, steps[0], data);
      StepMoves(l, s, steps[0], data);
      AfterLeaves(l, Apply(l, s, steps[0]), steps[1..], data);
    }
  }

  // ---------- the whole transfer ----------

  lemma Complete(l: Layout, s: State, data: seq<Byte>)
    requires l.Valid() && Going(l, s, data) && |s.r.out| >= |data|
    ensures s.r.out == data
  {
    OrderOf(l, s);
    hide Inv;
  }

  /** In each round something moves, or a poll is wasted, unless everything has arrived. */
  lemma RoundMovesOn(l: Layout, s: State, round: Round, data: seq<Byte>)
    requires l.Valid() && l.n >= 2 && Going(l, s, data) && IsRound(l, s, round, data)
    ensures var t := AfterRound(l, s, round, data);
      && Going(l, t, data) && |t.r.out| >= |s.r.out|
      && (t.r.out == data || Left(t, data) < Left(s, data) + WastedInRound(l, s, round, data))
  {
    var mid := After(l, s, round.writing, data);
    var t := AfterRound(l, s, round, data);
    WriterIsThrough(l, s, round.writing, data);
    AfterLeaves(l, s, round.writing, data);
    AfterLeaves(l, mid, round.reading, data);
    if Left(t, data) == Left(s, data) && WastedInRound(l, s, round, data) == 0 && t.r.out != data {
      if |mid.r.out| < |mid.w.handed| {
        ReaderStandsThrough(l, mid, round.reading, 0, data);
        assert false;
      } else {
        OrderOf(l, mid);
        Complete(l, t, data);
      }
    }
  }

  lemma {:induction false} RoundsMoveOn(l: Layout, s: State, rounds: seq<Round>, data: seq<Byte>)
    requires l.Valid() && l.n >= 2 && Going(l, s, data) && AreRounds(l, s, rounds, data)
    ensures var t := AfterRounds(l, s, rounds, data);
      && Going(l, t, data) && |t.r.out| >= |s.r.out|
      && (t.r.out == data || Left(t, data) + |rounds| <= Left(s, data) + WastedInRounds(l, s, rounds, data))
    decreases |rounds|
  {
    if rounds != [] {
      RoundMovesOn(l, s, rounds[0], data);
      var t := AfterRound(l, s, rounds[0], data);
      RoundsMoveOn(l, t, rounds[1..], data);
      if t.r.out == data {
        Complete(l, AfterRounds(l, s, rounds, data), data);
      }
    }
  }

  /** A transfer of any length, through a ring of two cells or more, from any state it has got
  to: after three rounds for each byte, and one more for each wasted poll, all has arrived. */
  lemma LoopsDeliver(l: Layout, s: State, rounds: seq<Round>, data: seq<Byte>)
    requires l.Valid() && l.n >= 2 && Inv(l, s) && s.w.handed <= data && AreRounds(l, s, rounds, data)
    requires |rounds| >= 3 * |data| + WastedInRounds(l, s, rounds, data)
    ensures AfterRounds(l, s, rounds, data).r.out == data
  {
    RoundsMoveOn(l, s, rounds, data);
    LeftIsLeft(l, s, data);
    LeftIsLeft(l, AfterRounds(l, s, rounds, data), data);
  }

  // ---------- there is always another round ----------

  /** One step more in front of a stretch. */
  lemma Preceded(l: Layout, s: State, step: Step, steps: seq<Step>, data: seq<Byte>)
    requires l.Valid() && Enabled(s, step) && Obeys(s, step, data) && Obedient(l, Apply(l, s, step), steps, data)
    ensures Obedient(l, s, [step] + steps, data)
    ensures After(l, s, [step] + steps, data) == After(l, Apply(l, s, step), steps, data)
    ensures AllWasted(l, s, [step] + steps, data) ==
      Wasted(s, step, data) + AllWasted(l, Apply(l, s, step), steps, data)
    ensures Polls([step] + steps, true) == (if step.WDoCount? then 1 else 0) + Polls(steps, true)
    ensures Polls([step] + steps, false) == (if step.RDoCount? then 1 else 0) + Polls(steps, false)
  {
    hide Apply, Enabled, Obeys, Wasted;
    assert ([step] + steps)[0] == step && ([step] + steps)[1..] == steps;
  }

  lemma FirstTaken(l: Layout, s: State, steps: seq<Step>, data: seq<Byte>)
    requires l.Valid() && Obedient(l, s, steps, data) && steps != []
    ensures Enabled(s, steps[0]) && Obeys(s, steps[0], data)
    ensures var t := Apply(l, s, steps[0]);
      && Obedient(l, t, steps[1..], data) && After(l, s, steps, data) == After(l, t, steps[1..], data)
      && AllWasted(l, s, steps, data) == Wasted(s, steps[0], data) + AllWasted(l, t, steps[1..], data)
  {
  }

  lemma {:induction false} Joined(l: Layout, s: State, steps: seq<Step>, more: seq<Step>, data: seq<Byte>)
    requires l.Valid() && Obedient(l, s, steps, data) && Obedient(l, After(l, s, steps, data), more, data)
    ensures Obedient(l, s, steps + more, data)
    ensures After(l, s, steps + more, data) == After(l, After(l, s, steps, data), more, data)
    ensures AllWasted(l, s, steps + more, data) ==
      AllWasted(l, s, steps, data) + AllWasted(l, After(l, s, steps, data), more, data)
    decreases |steps|
  {
    if steps == [] {
      assert steps + more == more;
      hide Apply, Enabled, Obeys, Wasted;
    } else {
      FirstTaken(l, s, steps, data);
      hide *;
      Joined(l, Apply(l, s, steps[0]), steps[1..], more, data);
      Preceded(l, s, steps[0], steps[1..] + more, data);
      assert [steps[0]] + (steps[1..] + more) == steps + more;
    }
  }

  lemma {:induction false} PollsJoined(steps: seq<Step>, more: seq<Step>, writer: bool)
    ensures Polls(steps + more, writer) == Polls(steps, writer) + Polls(more, writer)
  {
    if steps == [] {
      assert steps + more == more;
    } else {
      PollsJoined(steps[1..], more, writer);
      assert (steps + more)[1..] == steps[1..] + more;
    }
  }

  /** How far the writer is from its next count, apart from what it has left to hand over. */
  function WriterSteps(s: State): nat {
    match s.w.pc
    case WIdle => 4
    case WLoadSecond => 3
    case WLoadFirst(_, at) => if at == s.r.First() then 2 else 5
    case WCount(_, _) => 1
    case _ => 5 + WriteWork(s.w)
  }

  /** One step nearer the end of its call. */
  lemma WriterNextInCall(l: Layout, s: State, data: seq<Byte>) returns (step: Step)
    requires l.Valid() && Going(l, s, data) && InWriteData(s.w)
    ensures Enabled(s, step) && IsWriterStep(step) && Obeys(s, step, data) && Wasted(s, step, data) == 0
    ensures !step.WCall? && !step.WDoCount?
    ensures var t := Apply(l, s, step); t.r == s.r && WriterSteps(t) < WriterSteps(s)
  {
    match s.w.pc
    case WCopy(_, _, todo) =>
      if todo == {} {
        step := WPublishFirst;
      } else {
        var j :| j in todo;
        step := WCopyByte(j);
        CopiesSegment(l, s, j);
      }
      WriteDataIsWaitFree(l, s, step);
    case WStoreSecond(_, _, _) =>
      step := WPublishSecond;
      WriteDataIsWaitFree(l, s, step);
  }

  lemma CopiesSegment(l: Layout, s: State, j: nat)
    requires l.Valid() && Inv(l, s) && s.w.pc.WCopy? && j in s.w.pc.todo
    ensures Enabled(s, WCopyByte(j))
  {
    hide WordsOk, OrderOk, CellsOk, ReaderOk, Fifo;
  }

  lemma WriterNextOutside(l: Layout, s: State, data: seq<Byte>) returns (step: Step)
    requires l.Valid() && Going(l, s, data) && !InWriteData(s.w) && !InReadData(s.r)
    ensures Enabled(s, step) && IsWriterStep(step) && Obeys(s, step, data) && Wasted(s, step, data) == 0
    ensures var t := Apply(l, s, step);
      && t.r == s.r && (step.WDoCount? ==> t.w.pc.WIdle?)
      && (step.WDoCount? || step.WCall? || WriterSteps(t) < WriterSteps(s))
  {
    match s.w.pc
    case WIdle =>
      var h := |s.w.handed|;
      step := if s.w.credit > 0 && h < |data| then WCall(data[h..h + Smaller(s.w.credit, |data| - h)]) else WPoll;
    case WLoadSecond => step := WDoLoadSecond;
    case WLoadFirst(_, _) =>
      step := WDoLoadFirst;
      WriterMatchIsCurrent(l, s);
    case WCount(_, _) => step := WDoCount;
  }

  lemma WriterNext(l: Layout, s: State, data: seq<Byte>) returns (step: Step)
    requires l.Valid() && Going(l, s, data) && !InReadData(s.r)
    ensures Enabled(s, step) && IsWriterStep(step) && Obeys(s, step, data) && Wasted(s, step, data) == 0
    ensures var t := Apply(l, s, step);
      && Going(l, t, data) && t.r == s.r && |s.w.handed| <= |t.w.handed| <= |data|
      && (step.WDoCount? ==> t.w.pc.WIdle?)
      && (step.WDoCount? || |t.w.handed| > |s.w.handed| || WriterSteps(t) < WriterSteps(s))
  {
    hide Inv, Apply, Enabled, Obeys, Wasted, WriterSteps;
    if InWriteData(s.w) {
      step := WriterNextInCall(l, s, data);
    } else {
      step := WriterNextOutside(l, s, data);
    }
    StepMoves(l, s, step, data);
  }

  lemma {:induction false} WriterCanPoll(l: Layout, s: State, data: seq<Byte>, polls: nat) returns (steps: seq<Step>)
    requires l.Valid() && Going(l, s, data) && !InReadData(s.r)
    ensures Obedient(l, s, steps, data) && Polls(steps, true) >= polls && AllWasted(l, s, steps, data) == 0
    ensures var t := After(l, s, steps, data);
      Going(l, t, data) && t.r == s.r && (if polls > 0 then t.w.pc.WIdle? else t == s)
    decreases polls, |data| - |s.w.handed|, WriterSteps(s)
  {
    if polls == 0 {
      steps := [];
    } else {
      var step := WriterNext(l, s, data);
      var t := Apply(l, s, step);
      hide *;
      steps := WriterCanPoll(l, t, data, if step.WDoCount? then polls - 1 else polls);
      Preceded(l, s, step, steps, data);
      steps := [step] + steps;
    }
  }

  function ReaderSteps(s: State): nat {
    match s.r.pc
    case RIdle => 4
    case RLoadSecond => 3
    case RLoadFirst(_, at) => if at == s.w.First() then 2 else 5
    case RCount(_, _) => 1
    case _ => 5 + ReadWork(s.r)
  }

  /** One step nearer the end of its call. */
  lemma ReaderNextInCall(l: Layout, s: State, data: seq<Byte>) returns (step: Step)
    requires l.Valid() && Going(l, s, data) && InReadData(s.r)
    ensures Enabled(s, step) && !IsWriterStep(step) && Obeys(s, step, data) && Wasted(s, step, data) == 0
    ensures !step.RCall? && !step.RDoCount?
    ensures var t := Apply(l, s, step); t.w == s.w && ReaderSteps(t) < ReaderSteps(s)
  {
    match s.r.pc
    case RCopy(_, _, todo, _) =>
      if todo == {} {
        step := RReleaseFirst;
      } else {
        var j :| j in todo;
        step := RCopyByte(j);
      }
      ReadDataIsWaitFree(l, s, step);
    case RStoreSecond(_, _, _) =>
      step := RReleaseSecond;
      ReadDataIsWaitFree(l, s, step);
  }

  lemma ReaderNextOutside(l: Layout, s: State, data: seq<Byte>) returns (step: Step)
    requires l.Valid() && Going(l, s, data) && !InReadData(s.r) && !InWriteData(s.w)
    ensures Enabled(s, step) && !IsWriterStep(step) && Obeys(s, step, data) && Wasted(s, step, data) == 0
    ensures var t := Apply(l, s, step);
      && t.w == s.w && (step.RDoCount? ==> t.r.pc.RIdle?)
      && (step.RDoCount? || step.RCall? || ReaderSteps(t) < ReaderSteps(s))
  {
    match s.r.pc
    case RIdle =>
      step := if s.r.credit > 0 && |s.r.out| < |data| then RCall(Smaller(s.r.credit, |data| - |s.r.out|)) else RPoll;
    case RLoadSecond => step := RDoLoadSecond;
    case RLoadFirst(_, _) =>
      step := RDoLoadFirst;
      ReaderMatchIsCurrent(l, s);
    case RCount(_, _) => step := RDoCount;
  }

  lemma ReaderNext(l: Layout, s: State, data: seq<Byte>) returns (step: Step)
    requires l.Valid() && Going(l, s, data) && !InWriteData(s.w)
    ensures Enabled(s, step) && !IsWriterStep(step) && Obeys(s, step, data) && Wasted(s, step, data) == 0
    ensures var t := Apply(l, s, step);
      && Going(l, t, data) && t.w == s.w
      && |s.r.out| + s.r.Unreleased() <= |t.r.out| + t.r.Unreleased() <= |data|
      && (step.RDoCount? || |t.r.out| + t.r.Unreleased() > |s.r.out| + s.r.Unreleased() ||
          ReaderSteps(t) < ReaderSteps(s))
  {
    hide Inv, Apply, Enabled, Obeys, Wasted, ReaderSteps;
    if InReadData(s.r) {
      step := ReaderNextInCall(l, s, data);
    } else {
      step := ReaderNextOutside(l, s, data);
    }
    StepMoves(l, s, step, data);
    AskedWithin(l, Apply(l, s, step), data);
  }

  lemma {:induction false} ReaderCanPoll(l: Layout, s: State, data: seq<Byte>, polls: nat) returns (steps: seq<Step>)
    requires l.Valid() && Going(l, s, data) && !InWriteData(s.w)
    ensures Obedient(l, s, steps, data) && Polls(steps, false) >= polls && AllWasted(l, s, steps, data) == 0
    ensures Going(l, After(l, s, steps, data), data)
    decreases polls, |data| - |s.r.out| - s.r.Unreleased(), ReaderSteps(s)
  {
    if polls == 0 {
      steps := [];
    } else {
      var step := ReaderNext(l, s, data);
      var t := Apply(l, s, step);
      hide *;
      steps := ReaderCanPoll(l, t, data, if step.RDoCount? then polls - 1 else polls);
      Preceded(l, s, step, steps, data);
      steps := [step] + steps;
    }
  }

  lemma AskedWithin(l: Layout, s: State, data: seq<Byte>)
    requires l.Valid() && Going(l, s, data)
    ensures |s.r.out| + s.r.Unreleased() <= |data|
  {
    OrderOf(l, s);
    hide Inv;
  }

  lemma {:induction false} ReaderCanFinish(l: Layout, s: State, data: seq<Byte>) returns (steps: seq<Step>)
    requires l.Valid() && Going(l, s, data)
    ensures Obedient(l, s, steps, data) && AllWasted(l, s, steps, data) == 0
    ensures Going(l, After(l, s, steps, data), data) && !InReadData(After(l, s, steps, data).r)
    decreases ReaderSteps(s)
  {
    if !InReadData(s.r) {
      steps := [];
    } else {
      var step := ReaderNextInCall(l, s, data);
      StepMoves(l, s, step, data);
      var t := Apply(l, s, step);
      hide *;
      steps := ReaderCanFinish(l, t, data);
      Preceded(l, s, step, steps, data);
      steps := [step] + steps;
    }
  }

  lemma RoundCanFollow(l: Layout, s: State, data: seq<Byte>) returns (round: Round)
    requires l.Valid() && Going(l, s, data)
    ensures IsRound(l, s, round, data) && WastedInRound(l, s, round, data) == 0
    ensures Going(l, AfterRound(l, s, round, data), data)
  {
    var first := ReaderCanFinish(l, s, data);
    var mid := After(l, s, first, data);
    var polling := WriterCanPoll(l, mid, data, 3);
    var end := After(l, mid, polling, data);
    var reading := ReaderCanPoll(l, end, data, 3);
    Joined(l, s, first, polling, data);
    PollsJoined(first, polling, true);
    round := Round(first + polling, reading);
  }

  /** From every state of a transfer any number of rounds can follow, and no poll wasted. */
  lemma {:induction false} RoundsCanFollow(l: Layout, s: State, data: seq<Byte>, count: nat)
    returns (rounds: seq<Round>)
    requires l.Valid() && Inv(l, s) && s.w.handed <= data
    ensures |rounds| == count && AreRounds(l, s, rounds, data) && WastedInRounds(l, s, rounds, data) == 0
    decreases count
  {
    if count == 0 {
      rounds := [];
    } else {
      var round := RoundCanFollow(l, s, data);
      var more := RoundsCanFollow(l, AfterRound(l, s, round, data), data, count - 1);
      rounds := [round] + more;
      assert rounds[1..] == more;
    }
  }
}
