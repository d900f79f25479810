/** hello_ucosii.c: what turns and clicks do, in the numbers of the screen and of the clock. */
module SongClicks {
  import opened Common
  import opened SongMachine
  import opened SongPlay

  // ----- one turn of task 1 -----

  /** The branches of task 1: play is tested first, then pause, then stop. */
  lemma TurnByFlags(m: Machine, size: int)
    requires 0 < size
    ensures var f, next := m.panel.flags, Step(m, Turn, size);
            && next == m.(address := next.address, pushed := next.pushed)
            && (f.play ==>
                  && next.address == (if m.address < size then m.address + 1000 else 0)
                  && |next.pushed| == |m.pushed| + 1000 && m.pushed <= next.pushed
                  && forall i :: 0 <= i < 1000 ==> next.pushed[|m.pushed| + i] == m.address % size + i % size)
            && (!f.play ==> next.pushed == m.pushed)
            && (!f.play && f.stop && !f.pause ==> next.address == 0)
            && (!f.play && (f.pause || !f.stop) ==> next.address == m.address)
  {
  }

  // ----- one click -----

  /** A click in this box of the screen, its borders included. */
  predicate In(p: Poll, left: int, right: int, top: int, bottom: int) {
    p.event == 1 && left <= p.x <= right && top <= p.y <= bottom
  }

  /** The statements of a click on each transport image, in their order. */
  lemma TransportStatements(poll: Poll)
    ensures In(poll, 296, 390, 45, 154) ==>
              Program(poll) == [DrawTransport(PlayButton, true), DrawTransport(StopButton, false),
                                DrawTransport(PauseButton, false), DrawTransport(BackButton, false),
                                DrawTransport(FordButton, false), SetPlay(true), SetPause(false), SetStop(false)]
    ensures In(poll, 404, 502, 45, 156) ==>
              Program(poll) == [DrawTransport(PlayButton, false), DrawTransport(StopButton, true),
                                DrawTransport(PauseButton, false), DrawTransport(BackButton, false),
                                DrawTransport(FordButton, false), SetPlay(false), SetPause(false), SetStop(true)]
    ensures In(poll, 523, 631, 45, 157) ==>
              Program(poll) == [DrawTransport(PlayButton, false), DrawTransport(StopButton, false),
                                DrawTransport(PauseButton, true), DrawTransport(BackButton, false),
                                DrawTransport(FordButton, false), SetPlay(false), SetPause(true), SetStop(false)]
    ensures In(poll, 333, 394, 177, 234) ==>
              Program(poll) == [DrawTransport(PlayButton, false), DrawTransport(StopButton, false),
                                DrawTransport(PauseButton, false), DrawTransport(BackButton, true),
                                DrawTransport(FordButton, false), LowerFreq, ClampLow, ProgramFreq]
    ensures In(poll, 512, 573, 177, 234) ==>
              Program(poll) == [DrawTransport(PlayButton, false), DrawTransport(StopButton, false),
                                DrawTransport(PauseButton, false), DrawTransport(BackButton, false),
                                DrawTransport(FordButton, true), RaiseFreq, ClampHigh, ProgramFreq]
  {
  }

  /** Two states between polls, one poll apart; turns and statements may have come in any order between them. */
  ghost predicate OnePoll(events: seq<Event>, later: seq<Event>, poll: Poll, size: int)
    requires 0 < size
  {
    && Run(START, events, size).pending == []
    && Run(START, events + later, size).pending == []
    && Run(START, events + later, size).polls == Run(START, events, size).polls + [poll]
  }

  lemma PanelsOfPoll(events: seq<Event>, later: seq<Event>, poll: Poll, size: int)
    requires 0 < size && OnePoll(events, later, poll, size)
    ensures var polls := Run(START, events, size).polls;
            && Run(START, events, size).panel == PanelAfter(polls)
            && Run(START, events + later, size).panel == PanelAfter(polls + [poll])
            && (polls + [poll])[..|polls|] == polls
  {
    SettledPanel(events, size);
    SettledPanel(events + later, size);
  }

  /** Transport clicks: the flags, the frequency and the pressed image after a click, from those before it. */
  lemma TransportClick(events: seq<Event>, later: seq<Event>, poll: Poll, size: int)
    requires 0 < size && OnePoll(events, later, poll, size)
    ensures var p, q := Run(START, events, size).panel, Run(START, events + later, size).panel;
            && (In(poll, 296, 390, 45, 154) ==>
                  q.flags == Flags(true, false, false) && q.freq == p.freq
                  && q.pressed == [true, false, false, false, false])
            && (In(poll, 404, 502, 45, 156) ==>
                  q.flags == Flags(false, false, true) && q.freq == p.freq
                  && q.pressed == [false, true, false, false, false])
            && (In(poll, 523, 631, 45, 157) ==>
                  q.flags == Flags(false, true, false) && q.freq == p.freq
                  && q.pressed == [false, false, true, false, false])
            && (In(poll, 333, 394, 177, 234) ==>
                  q.flags == p.flags && q.freq == (if p.freq < 200 then 100 else p.freq - 100)
                  && q.pressed == [false, false, false, true, false])
            && (In(poll, 512, 573, 177, 234) ==>
                  q.flags == p.flags && q.freq == (if 87900 < p.freq then 88000 else p.freq + 100)
                  && q.pressed == [false, false, false, false, true])
  {
    hide Run, ModulationAfter, SignalAfter, OneOfFour, Divider;
    PanelsOfPoll(events, later, poll, size);
  }

  /** A poll that hits no transport image changes neither flags nor frequency nor the pressed image. */
  lemma NoTransportClick(events: seq<Event>, later: seq<Event>, poll: Poll, size: int)
    requires 0 < size && OnePoll(events, later, poll, size)
    requires !In(poll, 296, 390, 45, 154) && !In(poll, 404, 502, 45, 156) && !In(poll, 523, 631, 45, 157)
    requires !In(poll, 333, 394, 177, 234) && !In(poll, 512, 573, 177, 234)
    ensures var p, q := Run(START, events, size).panel, Run(START, events + later, size).panel;
            q.flags == p.flags && q.freq == p.freq && q.divider == p.divider && q.pressed == p.pressed
  {
    hide Run, ModulationAfter, SignalAfter, OneOfFour, Divider;
    PanelsOfPoll(events, later, poll, size);
  }

  /** A click on modulation button `i` highlights and selects it alone, and any other poll leaves the modulation. */
  lemma ModulationClick(events: seq<Event>, later: seq<Event>, poll: Poll, size: int, i: nat)
    requires 0 < size && OnePoll(events, later, poll, size) && i < 4
    ensures var p, q := Run(START, events, size).panel, Run(START, events + later, size).panel;
            && (In(poll, 667, 787, [252, 289, 326, 365][i], [287, 324, 361, 400][i]) ==>
                  q.modulation == i && |q.modulations| == 4 && forall j :: 0 <= j < 4 ==> q.modulations[j] == (j == i))
            && ((forall j :: 0 <= j < 4 ==> !In(poll, 667, 787, [252, 289, 326, 365][j], [287, 324, 361, 400][j])) ==>
                  q.modulation == p.modulation && q.modulations == p.modulations)
  {
    hide Run, FlagsAfter, FreqAfter, SignalAfter, ButtonAfter, Pressed, Divider;
    PanelsOfPoll(events, later, poll, size);
    if forall j :: 0 <= j < 4 ==> !In(poll, 667, 787, [252, 289, 326, 365][j], [287, 324, 361, 400][j]) {
      assert !In(poll, 667, 787, [252, 289, 326, 365][0], [287, 324, 361, 400][0]);
      assert !In(poll, 667, 787, [252, 289, 326, 365][1], [287, 324, 361, 400][1]);
      assert !In(poll, 667, 787, [252, 289, 326, 365][2], [287, 324, 361, 400][2]);
      assert !In(poll, 667, 787, [252, 289, 326, 365][3], [287, 324, 361, 400][3]);
    }
  }

  lemma SignalClick(events: seq<Event>, later: seq<Event>, poll: Poll, size: int, i: nat)
    requires 0 < size && OnePoll(events, later, poll, size) && i < 4
    ensures var p, q := Run(START, events, size).panel, Run(START, events + later, size).panel;
            && (In(poll, 667, 787, [426, 470, 512, 554][i], [461, 505, 547, 589][i]) ==>
                  q.signal == i && |q.signals| == 4 && forall j :: 0 <= j < 4 ==> q.signals[j] == (j == i))
            && ((forall j :: 0 <= j < 4 ==> !In(poll, 667, 787, [426, 470, 512, 554][j], [461, 505, 547, 589][j])) ==>
                  q.signal == p.signal && q.signals == p.signals)
  {
    hide Run, FlagsAfter, FreqAfter, ModulationAfter, ButtonAfter, Pressed, Divider;
    PanelsOfPoll(events, later, poll, size);
    if forall j :: 0 <= j < 4 ==> !In(poll, 667, 787, [426, 470, 512, 554][j], [461, 505, 547, 589][j]) {
      assert !In(poll, 667, 787, [426, 470, 512, 554][0], [461, 505, 547, 589][0]);
      assert !In(poll, 667, 787, [426, 470, 512, 554][1], [461, 505, 547, 589][1]);
      assert !In(poll, 667, 787, [426, 470, 512, 554][2], [461, 505, 547, 589][2]);
      assert !In(poll, 667, 787, [426, 470, 512, 554][3], [461, 505, 547, 589][3]);
    }
  }

  // ----- the clock -----

  /** In every reachable state between polls the divider belongs to the frequency: the samples leave at least as fast as
      asked for, and with a divider one larger they would not. */
  lemma DividerFitsFreq(events: seq<Event>, size: int)
    requires 0 < size && Run(START, events, size).pending == []
    ensures var p := Run(START, events, size).panel;
            && 100 <= p.freq <= 88000 && p.freq % 100 == 0
            && 2 * p.freq * (p.divider + 1) <= 50000000 < 2 * p.freq * (p.divider + 2)
  {
    hide Run, Divider, FreqAfter;
    SettledPanel(events, size);
    DividerInBounds(Run(START, events, size).panel.freq);
  }

  /** The frequencies and dividers at the start, and after one click on the forward and on the back image. */
  lemma FirstSteps(later: seq<Event>, poll: Poll, size: int)
    requires 0 < size && OnePoll([], later, poll, size)
    ensures START.panel.freq == 44000 && START.panel.divider == 567
    ensures var q := Run(START, [] + later, size).panel;
            && (In(poll, 512, 573, 177, 234) ==> q.freq == 44100 && q.divider == 565)
            && (In(poll, 333, 394, 177, 234) ==> q.freq == 43900 && q.divider == 568)
  {
    hide Run, Divider;
    Nominal(size);
    TransportClick([], later, poll, size);
    DividerFitsFreq([] + later, size);
  }

  lemma Nominal(size: int)
    requires 0 < size
    ensures Run(START, [], size) == START && START.panel.freq == 44000 && START.panel.divider == 567
  {
  }

  // ----- stop and play -----

  /** The position is 0, and if the last mode clicked is stop its flags stand alone. */
  ghost predicate Rewound(m: Machine) {
    && m.address == 0
    && OnTheWay(m)
    && (FlagsAfter(m.polls).stop ==> m.panel.flags == FlagsAfter(m.polls) && FlagWrites(m.pending) == [])
  }

  /** The song plays, or has played, and no turn will reset it before stop is clicked. */
  ghost predicate Going(m: Machine) {
    && OnTheWay(m)
    && !FlagsAfter(m.polls).stop
    && (m.panel.flags.stop ==> m.panel.flags.play)
  }

  lemma NoModeNoWrites(poll: Poll)
    requires Clicked(poll) != Some(PlayButton) && Clicked(poll) != Some(StopButton)
    requires Clicked(poll) != Some(PauseButton)
    ensures FlagWrites(Program(poll)) == []
  {
    if poll.event == 1 {
      hide FlagWrites;
      var a, b := ModulationProgram(ModulationAt(poll.x, poll.y)), SignalProgram(SignalAt(poll.x, poll.y));
      NoFlagWrites(a);
      NoFlagWrites(b);
      FlagWritesConcat(a, b);
      FlagWritesConcat(a + b, TransportProgram(ButtonAt(poll.x, poll.y)));
      NoFlagWrites(TransportProgram(ButtonAt(poll.x, poll.y)));
    } else {
      NoFlagWrites([]);
    }
  }

  lemma PollKeepsRewound(m: Machine, poll: Poll, size: int)
    requires 0 < size && Rewound(m) && Clicked(poll) != Some(StopButton)
    ensures Rewound(Step(m, TakePoll(poll), size))
  {
    PollOnTheWay(m, poll, size);
    if m.pending == [] {
      hide Program, Between, FlagWrites;
      NothingPending(m.panel.flags, FlagsBefore(m.polls), FlagsAfter(m.polls));
      assert (m.polls + [poll])[..|m.polls|] == m.polls;
      if FlagsAfter(m.polls + [poll]).stop {
        NoModeNoWrites(poll);
      }
    }
  }

  lemma StatementKeepsRewound(m: Machine, size: int)
    requires 0 < size && Rewound(m)
    ensures Rewound(Step(m, Statement, size))
  {
    StatementOnTheWay(m, size);
    if m.pending != [] && FlagsAfter(m.polls).stop {
      hide Between, FlagWrites, Apply;
      var w, rest := m.pending[0], m.pending[1..];
      assert [w] + rest == m.pending;
      FlagWritesFirst(w, rest);
      OtherWriteKeepsFlags(m.panel, w);
    }
  }

  lemma TurnKeepsRewound(m: Machine, size: int)
    requires 0 < size && Rewound(m)
    ensures if Takes(m, Turn, Play) then Going(Step(m, Turn, size))
            else Rewound(Step(m, Turn, size)) && Step(m, Turn, size).pushed == m.pushed
  {
    hide Between, FlagWrites, Samples, NextAddress;
    FlagsAfterIsMode(m.polls);
  }

  lemma BeforeIsMode(polls: seq<Poll>)
    ensures OneMode(FlagsBefore(polls))
  {
    if polls != [] {
      FlagsAfterIsMode(polls[..|polls| - 1]);
    }
  }

  lemma StatementKeepsGoing(m: Machine, size: int)
    requires 0 < size && Going(m)
    ensures Going(Step(m, Statement, size))
  {
    StatementOnTheWay(m, size);
    if m.pending != [] {
      hide FlagWrites, FlagsAfter, FlagsBefore, Apply, Due;
      var w, rest, left := m.pending[0], m.pending[1..], |FlagWrites(m.pending)|;
      assert [w] + rest == m.pending;
      BeforeIsMode(m.polls);
      if SetsFlag(w) {
        FlagWriteDue(w, rest, FlagsAfter(m.polls), left);
        FlagWriteMoves(m.panel, w, FlagsBefore(m.polls), FlagsAfter(m.polls), left);
      } else {
        OtherWriteKeepsFlags(m.panel, w);
      }
    }
  }

  lemma PollKeepsGoing(m: Machine, poll: Poll, size: int)
    requires 0 < size && Going(m) && Clicked(poll) != Some(StopButton)
    ensures Going(Step(m, TakePoll(poll), size))
  {
    PollOnTheWay(m, poll, size);
    if m.pending == [] {
      hide Program, Between;
      NothingPending(m.panel.flags, FlagsBefore(m.polls), FlagsAfter(m.polls));
      assert (m.polls + [poll])[..|m.polls|] == m.polls;
    }
  }

  lemma StepKeepsGoing(m: Machine, e: Event, size: int)
    requires 0 < size && Going(m) && (e.TakePoll? ==> Clicked(e.poll) != Some(StopButton))
    ensures Going(Step(m, e, size)) && !Takes(m, e, Reset)
  {
    match e
    case Turn => hide Between, Samples, NextAddress;
    case Statement => StatementKeepsGoing(m, size);
    case TakePoll(poll) => PollKeepsGoing(m, poll, size);
  }

  lemma StepKeepsRewound(m: Machine, e: Event, size: int)
    requires 0 < size && Rewound(m) && (e.TakePoll? ==> Clicked(e.poll) != Some(StopButton))
    ensures if Takes(m, e, Play) then Going(Step(m, e, size))
            else Rewound(Step(m, e, size)) && Step(m, e, size).pushed == m.pushed
  {
    match e
    case Turn => TurnKeepsRewound(m, size);
    case Statement => StatementKeepsRewound(m, size); hide Between, Rewound, Apply;
    case TakePoll(poll) => PollKeepsRewound(m, poll, size); hide Between, Rewound, Program;
  }

  /** The state after `n` turns of play. */
  ghost predicate After(m: Machine, n: nat) { if n == 0 then Rewound(m) else Going(m) }

  lemma StepAfter(m: Machine, e: Event, n: nat, size: int)
    requires 0 < size && After(m, n) && (e.TakePoll? ==> Clicked(e.poll) != Some(StopButton))
    ensures var next := Step(m, e, size);
            if Takes(m, e, Play)
            then
              && After(next, n + 1)
              && next.address == NextAddress(m.address, size) && next.pushed == m.pushed + Samples(m.address, size)
            else After(next, n) && next.address == m.address && next.pushed == m.pushed
  {
    hide Samples, NextAddress, Apply, Program, OnTheWay, FlagWrites, FlagsAfter, Clicked;
    if n == 0 {
      StepKeepsRewound(m, e, size);
    } else {
      StepKeepsGoing(m, e, size);
    }
  }

  /** From position 0 on, and without a click on stop, the song is pushed from its start. */
  lemma {:induction false} PlayedFromStart(m: Machine, events: seq<Event>, size: int)
    requires 0 < size && Rewound(m) && NoStopIn(events)
    ensures var n, after := PlayTurns(m, events, size), Run(m, events, size);
            && after.pushed == m.pushed + Blocks(0, n, size)
            && after.address == AddressAfter(0, n, size)
            && After(after, n)
  {
    if events == [] {
      assert m.pushed + [] == m.pushed;
    } else {
      hide Step, Samples, NextAddress, Takes, Rewound, After, Clicked, Blocks, AddressAfter;
      var front, last := events[..|events| - 1], events[|events| - 1];
      PlayedFromStart(m, front, size);
      var n, was := PlayTurns(m, front, size), Run(m, front, size);
      StepAfter(was, last, n, size);
      NextBlock(m.pushed, 0, n, size);
    }
  }

  /** Stop, one turn of task 1, and then anything but another click on stop: what is pushed after the stop is the song
      from its start, as many blocks as turns took the play branch. */
  lemma StopRewinds(events: seq<Event>, later: seq<Event>, size: int)
    requires 0 < size && NoStopIn(later)
    requires Run(START, events, size).pending == [] && Run(START, events, size).panel.flags == Flags(false, false, true)
    ensures var m, after := Run(START, events, size), Run(START, events + [Turn] + later, size);
            var n := PlayTurns(Run(START, events + [Turn], size), later, size);
            && Run(START, events + [Turn], size) == m.(address := 0)
            && after.pushed == m.pushed + Blocks(0, n, size)
            && after.address == AddressAfter(0, n, size)
  {
    hide Run, Blocks, AddressAfter, PlayTurns, Between;
    var m := Run(START, events, size);
    RunThen(START, events, Turn, size);
    AlwaysOnTheWay(events, size);
    NothingPending(m.panel.flags, FlagsBefore(m.polls), FlagsAfter(m.polls));
    RunConcat(START, events + [Turn], later, size);
    PlayedFromStart(m.(address := 0), later, size);
  }

  lemma PressPlayDone(m: Machine, size: int)
    requires 0 < size && m.pending == []
    ensures var after := Run(m, PressPlay(), size);
            && after == m.(panel := ApplyAll(m.panel, Program(Poll(1, 300, 50))), polls := m.polls + [Poll(1, 300, 50)])
  {
    hide Program, ApplyAll;
    var poll := Poll(1, 300, 50);
    var taken := Step(m, TakePoll(poll), size);
    RunThen(m, [], TakePoll(poll), size);
    assert [] + [TakePoll(poll)] == [TakePoll(poll)];
    RunConcat(m, [TakePoll(poll)], Statements(|Program(poll)|), size);
    PendingDone(taken, size);
  }

  /** Stop, one turn, a click on play and `n` turns push the song from its start; as far as it reaches, these are the
      samples 0, 1, 2 and so on. */
  lemma StopThenPlay(events: seq<Event>, n: nat, size: int)
    requires 0 < size
    requires Run(START, events, size).pending == [] && Run(START, events, size).panel.flags == Flags(false, false, true)
    ensures var m, after := Run(START, events, size), Run(START, events + [Turn] + PressPlay() + Repeated(n), size);
            && after.panel.flags == Flags(true, false, false)
            && after.pushed == m.pushed + Blocks(0, n, size)
            && (1000 * n <= size ==> after.pushed == m.pushed + Upto(1000 * n) && after.address == 1000 * n)
  {
    hide Run, Blocks, AddressAfter, PressPlay, Program, ApplyAll;
    var m := Run(START, events, size);
    var poll := Poll(1, 300, 50);
    RunThen(START, events, Turn, size);
    var rewound := m.(address := 0);
    RunConcat(START, events + [Turn], PressPlay(), size);
    RunConcat(START, events + [Turn] + PressPlay(), Repeated(n), size);
    PressPlayDone(rewound, size);
    SettledPanel(events, size);
    PollDone(m.polls, poll);
    assert (m.polls + [poll])[..|m.polls|] == m.polls;
    TurnsOfPlay(Run(rewound, PressPlay(), size), n, size);
    if 1000 * n <= size {
      BlocksInSong(n, size);
    }
  }

  lemma BlocksInSong(n: nat, size: int)
    requires 0 < size && 1000 * n <= size
    ensures Blocks(0, n, size) == Upto(1000 * n) && AddressAfter(0, n, size) == 1000 * n
  {
    if n != 0 {
      WholeSong(n, size);
    }
  }
}
