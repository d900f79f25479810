/** hello_ucosii.c: what uninterrupted play pushes into the audio FIFO. */
module SongPlay {
  import opened Common
  import opened Raster
  import opened SongMachine

  // ----- positions -----

  /** Turns of play from one start of the song to the next. */
  function Period(size: int): int { (size + SAMPLES - 1) / SAMPLES + 1 }

  /** Positions are the multiples of 1000 up to the first one at or past the end of the song. */
  lemma {:induction false} PositionInRange(events: seq<Event>, size: int)
    requires 0 < size
    ensures var a := Run(START, events, size).address;
            a % SAMPLES == 0 && 0 <= a < size + SAMPLES && 0 <= a / SAMPLES < Period(size)
  {
    if events != [] {
      PositionInRange(events[..|events| - 1], size);
      NextPosition(Run(START, events[..|events| - 1], size).address, size);
      hide Samples, ActionOf, NextAddress, Period, Apply, Program;
    }
  }

  lemma NextPosition(a: int, size: int)
    requires 0 < size && a % SAMPLES == 0 && 0 <= a < size + SAMPLES
    ensures NextAddress(a, size) % SAMPLES == 0 && 0 <= NextAddress(a, size) < size + SAMPLES
    ensures 0 <= NextAddress(a, size) / SAMPLES < Period(size) && 0 < Period(size)
  {
  }

  /** The position after `n` turns of uninterrupted play. */
  function AddressAfter(address: int, n: nat, size: int): int {
    if n == 0 then address else NextAddress(AddressAfter(address, n - 1, size), size)
  }

  /** Play goes round the positions in order. */
  lemma {:induction false} AddressGoesRound(block: nat, n: nat, size: int)
    requires 0 < size && block < Period(size)
    ensures AddressAfter(SAMPLES * block, n, size) == SAMPLES * ((block + n) % Period(size))
  {
    if n == 0 {
      SlotSplits(0, block, Period(size));
    } else {
      AddressGoesRound(block, n - 1, size);
      var was := (block + n - 1) % Period(size);
      NextInCycle(block + n - 1, Period(size));
      assert SAMPLES * was < size <==> was < Period(size) - 1;
    }
  }

  lemma NextInCycle(k: nat, period: int)
    requires 1 < period
    ensures (k + 1) % period == if k % period == period - 1 then 0 else k % period + 1
  {
    var q := k / period;
    assert k == Slot(q, k % period, period);
    if k % period == period - 1 {
      assert k + 1 == Slot(q + 1, 0, period);
      SlotSplits(q + 1, 0, period);
    } else {
      SlotSplits(q, k % period + 1, period);
    }
  }

  // ----- turns of play on the machine -----

  /** The samples that `n` turns of play push from a position on. */
  function Blocks(address: int, n: nat, size: int): seq<int>
    requires 0 < size
  {
    if n == 0 then [] else Blocks(address, n - 1, size) + Samples(AddressAfter(address, n - 1, size), size)
  }

  lemma NextBlock(pushed: seq<int>, address: int, n: nat, size: int)
    requires 0 < size
    ensures AddressAfter(address, n + 1, size) == NextAddress(AddressAfter(address, n, size), size)
    ensures pushed + Blocks(address, n, size) + Samples(AddressAfter(address, n, size), size)
            == pushed + Blocks(address, n + 1, size)
  {
    hide Samples, NextAddress;
  }

  lemma {:induction false} TurnsOfPlay(m: Machine, n: nat, size: int)
    requires 0 < size && m.panel.flags.play
    ensures Run(m, Repeated(n), size)
            == m.(address := AddressAfter(m.address, n, size), pushed := m.pushed + Blocks(m.address, n, size))
  {
    if n == 0 {
      assert m.pushed + [] == m.pushed;
    } else {
      hide Samples, NextAddress;
      TurnsOfPlay(m, n - 1, size);
      assert Repeated(n)[..n - 1] == Repeated(n - 1);
      NextBlock(m.pushed, m.address, n - 1, size);
    }
  }

  /** From every reachable state of play, `n` turns of task 1 without interruption move the position and push blocks,
      and change nothing else. */
  lemma PlayFrom(events: seq<Event>, n: nat, size: int)
    requires 0 < size && Run(START, events, size).panel.flags.play
    ensures var m := Run(START, events, size);
            && Run(START, events + Repeated(n), size)
               == m.(address := SAMPLES * ((m.address / SAMPLES + n) % Period(size)),
                     pushed := m.pushed + Blocks(m.address, n, size))
            && SAMPLES * (m.address / SAMPLES) == m.address
  {
    hide Run, Blocks, AddressAfter, Period;
    var m := Run(START, events, size);
    RunConcat(START, events, Repeated(n), size);
    TurnsOfPlay(m, n, size);
    PositionInRange(events, size);
    AddressGoesRound(m.address / SAMPLES, n, size);
  }

  // ----- play under any interleaving -----

  /** Task 1 has its turn here, and takes this branch. */
  predicate Takes(m: Machine, e: Event, action: Action) { e.Turn? && ActionOf(m.panel.flags) == action }

  /** Turns of task 1 that play. */
  function PlayTurns(m: Machine, events: seq<Event>, size: int): nat
    requires 0 < size
  {
    if events == [] then 0
    else
      var front, last := events[..|events| - 1], events[|events| - 1];
      PlayTurns(m, front, size) + if Takes(Run(m, front, size), last, Play) then 1 else 0
  }

  predicate NeverResets(m: Machine, events: seq<Event>, size: int)
    requires 0 < size
  {
    events == []
    || (var front, last := events[..|events| - 1], events[|events| - 1];
        NeverResets(m, front, size) && !Takes(Run(m, front, size), last, Reset))
  }

  lemma StepOfPlay(m: Machine, e: Event, size: int)
    requires 0 < size && !Takes(m, e, Reset)
    ensures var next := Step(m, e, size);
            if Takes(m, e, Play)
            then next.address == NextAddress(m.address, size) && next.pushed == m.pushed + Samples(m.address, size)
            else next.address == m.address && next.pushed == m.pushed
  {
    hide Samples, NextAddress, Apply, Program;
  }

  /** However the statements of clicks and the turns that hold fall between the turns that play, nothing is lost and
      nothing repeated: as long as no turn resets the position, the machine pushes the blocks of as many turns of
      uninterrupted play. */
  lemma {:induction false} PlayedInOrder(m: Machine, events: seq<Event>, size: int)
    requires 0 < size && NeverResets(m, events, size)
    ensures var n := PlayTurns(m, events, size);
            && Run(m, events, size).address == AddressAfter(m.address, n, size)
            && Run(m, events, size).pushed == m.pushed + Blocks(m.address, n, size)
  {
    hide Step, Samples, NextAddress, Takes;
    if events == [] {
      assert m.pushed + [] == m.pushed;
    } else {
      var front := events[..|events| - 1];
      PlayedInOrder(m, front, size);
      StepOfPlay(Run(m, front, size), events[|events| - 1], size);
      NextBlock(m.pushed, m.address, PlayTurns(m, front, size), size);
    }
  }

  ghost predicate NoStop(polls: seq<Poll>) {
    forall i :: 0 <= i < |polls| ==> Clicked(polls[i]) != Some(StopButton)
  }

  lemma {:induction false} NeverStopped(polls: seq<Poll>)
    requires NoStop(polls)
    ensures !FlagsAfter(polls).stop
  {
    if polls != [] {
      NeverStopped(polls[..|polls| - 1]);
    }
  }

  ghost predicate NoStopIn(events: seq<Event>) {
    forall i :: 0 <= i < |events| && events[i].TakePoll? ==> Clicked(events[i].poll) != Some(StopButton)
  }

  lemma {:induction false} NoStopTaken(events: seq<Event>, size: int)
    requires 0 < size && NoStopIn(events)
    ensures NoStop(Run(START, events, size).polls)
    ensures NeverResets(START, events, size)
  {
    if events != [] {
      hide ActionOf, Clicked, Samples, Program, Apply, FlagsAfter;
      var front := events[..|events| - 1];
      var m := Run(START, front, size);
      NoStopTaken(front, size);
      NeverStopped(m.polls);
      if m.polls != [] {
        NeverStopped(m.polls[..|m.polls| - 1]);
      }
      InterruptedClick(front, size);
    }
  }

  /** In every run in which stop is never clicked, all that has been pushed is the song played in order from its start,
      whatever was clicked when. */
  lemma WithoutStop(events: seq<Event>, size: int)
    requires 0 < size && NoStopIn(events)
    ensures var n := PlayTurns(START, events, size);
            && Run(START, events, size).pushed == Blocks(0, n, size)
            && Run(START, events, size).address == SAMPLES * (n % Period(size))
  {
    hide Run, Blocks, AddressAfter, Period, PlayTurns, NeverResets;
    NoStopTaken(events, size);
    PlayedInOrder(START, events, size);
    PeriodIsPositive(size);
    AddressGoesRound(0, PlayTurns(START, events, size), size);
  }

  lemma PeriodIsPositive(size: int)
    requires 0 < size
    ensures 0 < Period(size) && size < SAMPLES * Period(size)
  {
  }

  // ----- what one period pushes -----

  lemma {:induction false} InBlocks(address: int, n: nat, k: nat, sample: int, size: int)
    requires 0 < size && k < n && sample in Samples(AddressAfter(address, k, size), size)
    ensures sample in Blocks(address, n, size)
  {
    hide Samples;
    if k < n - 1 {
      InBlocks(address, n - 1, k, sample, size);
    }
  }

  /** The turn, among those of one period, that pushes a sample. */
  lemma SampleHasTurn(block: nat, sample: int, size: int) returns (n: nat)
    requires 0 < size && block < Period(size) && 0 <= sample < size
    ensures n < Period(size) && sample in Samples(AddressAfter(SAMPLES * block, n, size), size)
  {
    var period, target := Period(size), sample / SAMPLES;
    n := if block <= target then target - block else target - block + period;
    AddressGoesRound(block, n, size);
    SlotSplits(if block <= target then 0 else 1, target, period);
    SampleInBlock(sample, size);
  }

  /** From every reachable state of play, one period of turns leads back to the position and pushes every sample. */
  lemma EverySamplePlayed(events: seq<Event>, size: int)
    requires 0 < size && Run(START, events, size).panel.flags.play
    ensures var before, after := Run(START, events, size), Run(START, events + Repeated(Period(size)), size);
            && after.address == before.address
            && before.pushed <= after.pushed
            && forall sample :: 0 <= sample < size ==> sample in after.pushed[|before.pushed|..]
  {
    hide Run, Samples, Blocks, AddressAfter;
    var m, period := Run(START, events, size), Period(size);
    var block := m.address / SAMPLES;
    PositionInRange(events, size);
    PlayFrom(events, period, size);
    SlotSplits(1, block, period);
    forall sample | 0 <= sample < size
      ensures sample in Blocks(m.address, period, size)
    {
      var n := SampleHasTurn(block, sample, size);
      InBlocks(m.address, period, n, sample, size);
    }
  }

  lemma SampleInBlock(sample: int, size: int)
    requires 0 <= sample < size
    ensures sample in Samples(SAMPLES * (sample / SAMPLES), size)
  {
    var a, i := SAMPLES * (sample / SAMPLES), sample % SAMPLES;
    SmallRemainder(a, size);
    SmallRemainder(i, size);
    assert Samples(a, size)[i] == sample;
  }

  lemma SmallRemainder(k: int, size: int)
    requires 0 <= k <= size && 0 < size
    ensures k % size == if k < size then k else 0
  {
    if k < size {
      SlotSplits(0, k, size);
    } else {
      SlotSplits(1, 0, size);
    }
  }

  /** One block of samples in order. */
  function From(address: int): (s: seq<int>)
    ensures |s| == SAMPLES
  {
    seq(SAMPLES, i => address + i)
  }

  function Upto(n: nat): (s: seq<int>)
    ensures |s| == n
  {
    seq(n, i => i)
  }

  lemma {:induction false} LengthOfBlocks(address: int, n: nat, size: int)
    requires 0 < size
    ensures |Blocks(address, n, size)| == SAMPLES * n
  {
    if n != 0 {
      LengthOfBlocks(address, n - 1, size);
    }
  }

  /** One period pushes more samples than the song has, so from no reachable state of play does it push the song exactly
      once, in any order. */
  lemma NeverExactlyOnce(events: seq<Event>, size: int)
    requires 0 < size && Run(START, events, size).panel.flags.play
    ensures var before, after := Run(START, events, size), Run(START, events + Repeated(Period(size)), size);
            && |after.pushed| == |before.pushed| + SAMPLES * Period(size)
            && size < SAMPLES * Period(size)
            && multiset(after.pushed[|before.pushed|..]) != multiset(Upto(size))
  {
    hide Run, Blocks, AddressAfter, Period, Upto;
    PeriodIsPositive(size);
    var before, after := Run(START, events, size), Run(START, events + Repeated(Period(size)), size);
    PlayFrom(events, Period(size), size);
    LengthOfBlocks(before.address, Period(size), size);
    assert after.pushed[|before.pushed|..] == Blocks(before.address, Period(size), size);
    assert |multiset(Blocks(before.address, Period(size), size))| == SAMPLES * Period(size);
    assert |multiset(Upto(size))| == size;
  }

  /** Block after block up to the one that reaches the end of the song, and what it reads past the end. */
  lemma {:induction false} WholeSong(n: nat, size: int)
    requires SAMPLES <= size && SAMPLES * n < size + SAMPLES
    ensures AddressAfter(0, n, size) == SAMPLES * n && Blocks(0, n, size) == Upto(SAMPLES * n)
  {
    if n != 0 {
      WholeSong(n - 1, size);
      BlockInOrder(SAMPLES * (n - 1), size);
      assert Upto(SAMPLES * n) == Upto(SAMPLES * (n - 1)) + From(SAMPLES * (n - 1));
    }
  }

  lemma BlockInOrder(address: int, size: int)
    requires SAMPLES <= size && 0 <= address < size
    ensures Samples(address, size) == From(address)
  {
    SmallRemainder(address, size);
    forall i | 0 <= i < SAMPLES
      ensures Samples(address, size)[i] == address + i
    {
      SmallRemainder(i, size);
    }
  }

  lemma LastBlock(size: int)
    requires SAMPLES <= size
    ensures var end := SAMPLES * (Period(size) - 1);
            0 <= end - size < SAMPLES && Samples(end, size) == From(end - size)
  {
    var end := SAMPLES * (Period(size) - 1);
    SlotSplits(1, end - size, size);
    assert Slot(1, end - size, size) == end;
    forall i | 0 <= i < SAMPLES
      ensures Samples(end, size)[i] == end - size + i
    {
      SmallRemainder(i, size);
    }
  }

  /** What one period from the start of the song pushes: the blocks in order, of which the last may run past the end of
      the song, and then, from the position at or past the end, a block that starts as far into the song as that
      position lies past its end. */
  lemma OnePeriod(events: seq<Event>, size: int)
    requires SAMPLES <= size
    requires Run(START, events, size).panel.flags.play && Run(START, events, size).address == 0
    ensures var end := SAMPLES * (Period(size) - 1);
            && size <= end < size + SAMPLES
            && Run(START, events + Repeated(Period(size)), size).pushed
               == Run(START, events, size).pushed + Upto(end) + From(end - size)
  {
    hide Run, Samples, Upto, From;
    var m, n := Run(START, events, size), Period(size) - 1;
    PlayFrom(events, Period(size), size);
    WholeSong(n, size);
    LastBlock(size);
    assert Blocks(0, n + 1, size) == Upto(SAMPLES * n) + From(SAMPLES * n - size);
    assert m.pushed + (Upto(SAMPLES * n) + From(SAMPLES * n - size))
        == m.pushed + Upto(SAMPLES * n) + From(SAMPLES * n - size);
  }

  lemma TwoBlocks(size: int)
    requires 0 < size
    ensures Blocks(0, 2, size) == Samples(0, size) + Samples(SAMPLES, size)
  {
    hide Samples;
    assert AddressAfter(0, 1, size) == SAMPLES;
    assert Blocks(0, 1, size) == Samples(0, size);
  }

  lemma ShortSamples(size: int)
    requires 0 < size
    ensures Samples(0, size) == seq(SAMPLES, i => i % size)
    ensures Samples(SAMPLES, size) == seq(SAMPLES, i => SAMPLES % size + i % size)
  {
    SmallRemainder(0, size);
  }

  /** A song shorter than a block: its period is two turns, which both go round the song over and over, the second one
      shifted by the remainder of a block, so that it runs past the end of the song each time unless there is none. */
  lemma OnePeriodOfShortSong(events: seq<Event>, size: int)
    requires 0 < size < SAMPLES
    requires Run(START, events, size).panel.flags.play && Run(START, events, size).address == 0
    ensures Run(START, events + Repeated(Period(size)), size).pushed
            == Run(START, events, size).pushed
               + seq(SAMPLES, i => i % size) + seq(SAMPLES, i => SAMPLES % size + i % size)
  {
    hide Run, Samples, Blocks;
    var m := Run(START, events, size);
    PlayFrom(events, 2, size);
    TwoBlocks(size);
    ShortSamples(size);
    assert m.pushed + (Samples(0, size) + Samples(SAMPLES, size))
        == m.pushed + Samples(0, size) + Samples(SAMPLES, size);
  }

  /** A song of whole blocks, played from its start for one period, is pushed once in order, and then its first block a
      second time: the position equal to the size plays block 0, as the position 0 after it does. */
  lemma FirstBlockTwice(events: seq<Event>, size: int)
    requires 0 < size && size % SAMPLES == 0
    requires Run(START, events, size).panel.flags.play && Run(START, events, size).address == 0
    ensures Run(START, events + Repeated(Period(size)), size).pushed
            == Run(START, events, size).pushed + Upto(size) + Upto(SAMPLES)
  {
    hide Run;
    WholeBlocks(size);
    OnePeriod(events, size);
    assert From(0) == Upto(SAMPLES);
  }

  // ----- samples outside the song -----

  /** All samples pushed from a position lie in the song. */
  ghost predicate InSong(address: int, size: int)
    requires 0 < size
  {
    forall i :: 0 <= i < SAMPLES ==> Samples(address, size)[i] < size
  }

  lemma LastSamples(address: int, size: int)
    requires 0 < size
    ensures InSong(address, size)
            <==> address % size + (if size < SAMPLES then size - 1 else SAMPLES - 1) < size
  {
    var last := if size < SAMPLES then size - 1 else SAMPLES - 1;
    SmallRemainder(last, size);
    assert Samples(address, size)[last] == address % size + last;
    forall i | 0 <= i < SAMPLES
      ensures Samples(address, size)[i] <= address % size + last
    {
      if i <= size {
        SmallRemainder(i, size);
      }
    }
  }

  lemma MultipleOfDivisor(block: nat, size: int)
    requires 0 < size && SAMPLES % size == 0
    ensures (SAMPLES * block) % size == 0
  {
    var q := SAMPLES / size;
    assert SAMPLES == q * size;
    assert SAMPLES * block == (q * block) * size;
    SlotSplits(q * block, 0, size);
  }

  lemma BlockInSong(block: nat, size: int)
    requires 0 < size && block < Period(size) && (size % SAMPLES == 0 || SAMPLES % size == 0)
    ensures InSong(SAMPLES * block, size)
  {
    LastSamples(SAMPLES * block, size);
    if SAMPLES % size == 0 {
      MultipleOfDivisor(block, size);
    } else {
      WholeBlocks(size);
      SmallRemainder(SAMPLES * block, size);
    }
  }

  lemma WholeBlocks(size: int)
    requires 0 < size && size % SAMPLES == 0
    ensures SAMPLES <= size && SAMPLES * (Period(size) - 1) == size
  {
  }

  lemma OutsideBlock(size: int)
    requires 0 < size && size % SAMPLES != 0 && SAMPLES % size != 0
    ensures !InSong(SAMPLES * (if size < SAMPLES then 1 else size / SAMPLES), size)
  {
    var block := if size < SAMPLES then 1 else size / SAMPLES;
    LastSamples(SAMPLES * block, size);
    if size < SAMPLES {
      assert SAMPLES * block == SAMPLES;
    } else {
      SmallRemainder(SAMPLES * block, size);
    }
  }

  ghost predicate AllInSong(pushed: seq<int>, size: int) {
    forall k :: 0 <= k < |pushed| ==> 0 <= pushed[k] < size
  }

  lemma {:induction false} PushedInSong(events: seq<Event>, size: int)
    requires 0 < size && (size % SAMPLES == 0 || SAMPLES % size == 0)
    ensures AllInSong(Run(START, events, size).pushed, size)
  {
    if events != [] {
      var front := events[..|events| - 1];
      PushedInSong(front, size);
      PositionInRange(front, size);
      BlockInSong(Run(START, front, size).address / SAMPLES, size);
      StepInSong(Run(START, front, size), events[|events| - 1], size);
    }
  }

  lemma StepInSong(m: Machine, e: Event, size: int)
    requires 0 < size && InSong(m.address, size) && AllInSong(m.pushed, size)
    ensures AllInSong(Step(m, e, size).pushed, size)
  {
    hide Apply, Program, NextAddress;
    assert forall i :: 0 <= i < SAMPLES ==> 0 <= Samples(m.address, size)[i] < size;
  }

  /** A click on the play button and its statements, from the start. */
  function PressPlay(): seq<Event> {
    [TakePoll(Poll(1, 300, 50))] + Statements(|Program(Poll(1, 300, 50))|)
  }

  function Statements(n: nat): (events: seq<Event>)
    ensures |events| == n
  {
    seq(n, _ => Statement)
  }

  lemma {:induction false} PendingDone(m: Machine, size: int)
    requires 0 < size
    ensures Run(m, Statements(|m.pending|), size) == m.(panel := ApplyAll(m.panel, m.pending), pending := [])
    decreases |m.pending|
  {
    if m.pending != [] {
      var next := Step(m, Statement, size);
      hide Apply;
      PendingDone(next, size);
      assert Statements(|m.pending|) == [Statement] + Statements(|m.pending| - 1);
      RunConcat(m, [Statement], Statements(|m.pending| - 1), size);
      RunThen(m, [], Statement, size);
      assert [] + [Statement] == [Statement];
    }
  }

  lemma PlayPressed(size: int)
    requires 0 < size
    ensures var m := Run(START, PressPlay(), size);
            m.panel.flags.play && m.address == 0 && m.pushed == []
  {
    var poll := Poll(1, 300, 50);
    var taken := Step(START, TakePoll(poll), size);
    RunThen(START, [], TakePoll(poll), size);
    assert [] + [TakePoll(poll)] == [TakePoll(poll)];
    RunConcat(START, [TakePoll(poll)], Statements(|Program(poll)|), size);
    PendingDone(taken, size);
    PollDone([], poll);
    assert [] + [poll] == [poll];
  }

  /** What is pushed lies in the song, in every reachable state, exactly when the song is a whole number of blocks long,
      or a block a whole number of songs. */
  lemma PlayStaysInSong(size: int)
    requires 0 < size
    ensures (forall events: seq<Event> :: AllInSong(Run(START, events, size).pushed, size))
            <==> size % SAMPLES == 0 || SAMPLES % size == 0
  {
    if size % SAMPLES == 0 || SAMPLES % size == 0 {
      forall events: seq<Event>
        ensures AllInSong(Run(START, events, size).pushed, size)
      {
        PushedInSong(events, size);
      }
    } else {
      PlayLeavesSong(size);
    }
  }

  lemma PlayLeavesSong(size: int)
    requires 0 < size && size % SAMPLES != 0 && SAMPLES % size != 0
    ensures exists events: seq<Event> :: !AllInSong(Run(START, events, size).pushed, size)
  {
    hide Run, Blocks, AddressAfter, Samples, PressPlay;
    var block := if size < SAMPLES then 1 else size / SAMPLES;
    PlayPressed(size);
    OutsideBlock(size);
    var events := PressPlay() + Repeated(block + 1);
    PlayFrom(PressPlay(), block + 1, size);
    AddressGoesRound(0, block, size);
    SlotSplits(0, block, Period(size));
    var i :| 0 <= i < SAMPLES && size <= Samples(SAMPLES * block, size)[i];
    InBlocks(0, block + 1, block, Samples(SAMPLES * block, size)[i], size);
    assert Samples(SAMPLES * block, size)[i] in Run(START, events, size).pushed;
    assert !AllInSong(Run(START, events, size).pushed, size);
  }

  /** A song of 1500 samples: the second turn after a click on play pushes 500 samples that are not the song's. */
  lemma SongOf1500()
    ensures 1999 in Run(START, PressPlay() + Repeated(2), 1500).pushed
  {
    hide Run, PressPlay;
    PlayPressed(1500);
    PlayFrom(PressPlay(), 2, 1500);
    assert AddressAfter(0, 0, 1500) == 0 && AddressAfter(0, 1, 1500) == 1000;
    assert Samples(1000, 1500)[999] == 1999;
    InBlocks(0, 2, 1, 1999, 1500);
  }

  /** The song generator makes 44000 samples a second, for whole seconds: such a song is never left. */
  lemma GeneratedSong(seconds: nat, events: seq<Event>)
    requires 0 < seconds
    ensures AllInSong(Run(START, events, 44000 * seconds).pushed, 44000 * seconds)
  {
    PushedInSong(events, 44000 * seconds);
  }
}
