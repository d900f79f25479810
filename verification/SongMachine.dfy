/** hello_ucosii.c: the two tasks of the song player as a state machine. Task 1 outranks task 2, so a turn of task 1 is
    one step and may come between any two statements of task 2. */
module SongMachine {
  import opened Common

  const SAMPLES := 1000
  const FREQ_INCREMENT := 100
  const FREQ_NOMINAL := 44000
  const FREQ_MAX := 2 * FREQ_NOMINAL

  // ----- task 1 -----

  datatype Flags = Flags(play: bool, pause: bool, stop: bool)

  datatype Action = Play | Hold | Reset

  /** The branch task 1 takes. */
  function ActionOf(f: Flags): Action {
    if f.play then Play else if f.pause then Hold else if f.stop then Reset else Hold
  }

  /** The song bytes `send_audio_fifo(&song[address_counter % size_song])` pushes, as indices from the song's start. */
  function Samples(address: int, size: int): (indices: seq<int>)
    requires 0 < size
    ensures |indices| == SAMPLES
  {
    seq(SAMPLES, i requires 0 <= i < SAMPLES => address % size + i % size)
  }

  function NextAddress(address: int, size: int): int {
    if address < size then address + SAMPLES else 0
  }

  // ----- task 2 -----

  datatype Button = PlayButton | StopButton | PauseButton | BackButton | FordButton

  function Index(b: Button): nat {
    match b
    case PlayButton => 0
    case StopButton => 1
    case PauseButton => 2
    case BackButton => 3
    case FordButton => 4
  }

  predicate InBox(x: int, y: int, left: int, top: int, w: int, h: int) {
    left <= x <= left + w && top <= y <= top + h
  }

  /** The modulation button under the mouse. */
  function ModulationAt(x: int, y: int): Option<nat> {
    if InBox(x, y, 667, 252, 120, 35) then Some(0)
    else if InBox(x, y, 667, 289, 120, 35) then Some(1)
    else if InBox(x, y, 667, 326, 120, 35) then Some(2)
    else if InBox(x, y, 667, 365, 120, 35) then Some(3)
    else None
  }

  function SignalAt(x: int, y: int): Option<nat> {
    if InBox(x, y, 667, 426, 120, 35) then Some(0)
    else if InBox(x, y, 667, 470, 120, 35) then Some(1)
    else if InBox(x, y, 667, 512, 120, 35) then Some(2)
    else if InBox(x, y, 667, 554, 120, 35) then Some(3)
    else None
  }

  /** The transport image under the mouse; the boxes have the sizes of the images. */
  function ButtonAt(x: int, y: int): Option<Button> {
    if InBox(x, y, 296, 45, 94, 109) then Some(PlayButton)
    else if InBox(x, y, 404, 45, 98, 111) then Some(StopButton)
    else if InBox(x, y, 523, 45, 108, 112) then Some(PauseButton)
    else if InBox(x, y, 333, 177, 61, 57) then Some(BackButton)
    else if InBox(x, y, 512, 177, 61, 57) then Some(FordButton)
    else None
  }

  /** The boxes do not overlap, so a button is found exactly when the mouse is in its box, wherever it stands in the
      chain of tests. */
  lemma ButtonsFound(x: int, y: int, i: nat)
    requires i < 4
    ensures ModulationAt(x, y) == Some(i) <==> InBox(x, y, 667, [252, 289, 326, 365][i], 120, 35)
    ensures SignalAt(x, y) == Some(i) <==> InBox(x, y, 667, [426, 470, 512, 554][i], 120, 35)
  {
  }

  lemma TransportFound(x: int, y: int, b: Button)
    ensures ButtonAt(x, y) == Some(b)
            <==> InBox(x, y, [296, 404, 523, 333, 512][Index(b)], [45, 45, 45, 177, 177][Index(b)],
                       [94, 98, 108, 61, 61][Index(b)], [109, 111, 112, 57, 57][Index(b)])
  {
  }

  /** Single statements of task 2. */
  datatype Write =
    | SetPlay(on: bool)
    | SetPause(on: bool)
    | SetStop(on: bool)
    | DrawModulation(index: nat, on: bool)
    | SelectModulation(index: nat)
    | DrawSignal(index: nat, on: bool)
    | SelectSignal(index: nat)
    | DrawTransport(button: Button, down: bool)
    | LowerFreq
    | ClampLow
    | RaiseFreq
    | ClampHigh
    | ProgramFreq

  /** What `mouse_pos` reports to one poll. */
  datatype Poll = Poll(event: int, x: int, y: int)

  function ModulationProgram(hit: Option<nat>): seq<Write> {
    match hit
    case None => []
    case Some(i) => [DrawModulation(0, i == 0), DrawModulation(1, i == 1), DrawModulation(2, i == 2),
                     DrawModulation(3, i == 3), SelectModulation(i)]
  }

  function SignalProgram(hit: Option<nat>): seq<Write> {
    match hit
    case None => []
    case Some(i) => [DrawSignal(0, i == 0), DrawSignal(1, i == 1), DrawSignal(2, i == 2), DrawSignal(3, i == 3),
                     SelectSignal(i)]
  }

  function ImageProgram(b: Button): seq<Write> {
    [DrawTransport(PlayButton, b.PlayButton?), DrawTransport(StopButton, b.StopButton?),
     DrawTransport(PauseButton, b.PauseButton?), DrawTransport(BackButton, b.BackButton?),
     DrawTransport(FordButton, b.FordButton?)]
  }

  function ControlProgram(b: Button): seq<Write> {
    match b
    case PlayButton => [SetPlay(true), SetPause(false), SetStop(false)]
    case StopButton => [SetPlay(false), SetPause(false), SetStop(true)]
    case PauseButton => [SetPlay(false), SetPause(true), SetStop(false)]
    case BackButton => [LowerFreq, ClampLow, ProgramFreq]
    case FordButton => [RaiseFreq, ClampHigh, ProgramFreq]
  }

  function TransportProgram(hit: Option<Button>): seq<Write> {
    match hit
    case None => []
    case Some(b) => ImageProgram(b) + ControlProgram(b)
  }

  /** The statements task 2 executes for one poll. */
  function Program(p: Poll): seq<Write> {
    if p.event == 1 then
      ModulationProgram(ModulationAt(p.x, p.y)) + SignalProgram(SignalAt(p.x, p.y))
      + TransportProgram(ButtonAt(p.x, p.y))
    else []
  }

  // ----- the whole state -----

  /** What task 2 writes: the flags and frequency shared with task 1, the highlights on the screen, the selector
      registers, the frequency divider, and whether a division by zero has happened. */
  datatype Panel = Panel(flags: Flags, freq: int, divider: int, fault: bool, modulations: seq<bool>, modulation: nat,
                         signals: seq<bool>, signal: nat, pressed: seq<bool>)

  /** `set_audio_frequency_audio_controller`: 50 MHz over twice the frequency, rounded toward zero, less one. */
  function Divider(freq: int): int
    requires freq != 0
  {
    (if 0 < freq then 50000000 / (2 * freq) else -(50000000 / (2 * -freq))) - 1
  }

  /** 50 MHz divided by twice the value plus one is the nearest frequency that is not too low. */
  lemma DividerInBounds(freq: int)
    requires 0 < freq
    ensures 2 * freq * (Divider(freq) + 1) <= 50000000 < 2 * freq * (Divider(freq) + 2)
  {
    var n := 2 * freq;
    assert 50000000 == n * (50000000 / n) + 50000000 % n;
  }

  function Apply(p: Panel, w: Write): Panel {
    match w
    case SetPlay(on) => p.(flags := p.flags.(play := on))
    case SetPause(on) => p.(flags := p.flags.(pause := on))
    case SetStop(on) => p.(flags := p.flags.(stop := on))
    case DrawModulation(i, on) => if i < |p.modulations| then p.(modulations := p.modulations[i := on]) else p
    case SelectModulation(i) => p.(modulation := i)
    case DrawSignal(i, on) => if i < |p.signals| then p.(signals := p.signals[i := on]) else p
    case SelectSignal(i) => p.(signal := i)
    case DrawTransport(b, down) => if Index(b) < |p.pressed| then p.(pressed := p.pressed[Index(b) := down]) else p
    case LowerFreq => p.(freq := p.freq - FREQ_INCREMENT)
    case ClampLow => if p.freq < FREQ_INCREMENT then p.(freq := FREQ_INCREMENT) else p
    case RaiseFreq => p.(freq := p.freq + FREQ_INCREMENT)
    case ClampHigh => if p.freq > FREQ_MAX then p.(freq := FREQ_MAX) else p
    case ProgramFreq => if p.freq == 0 then p.(fault := true) else p.(divider := Divider(p.freq))
  }

  function ApplyAll(p: Panel, ws: seq<Write>): Panel
    decreases |ws|
  {
    if ws == [] then p else ApplyAll(Apply(p, ws[0]), ws[1..])
  }

  /** The machine: panel, play position, pushed samples, the statements task 2 has still to execute, and the polls it
      has taken so far. */
  datatype Machine = Machine(panel: Panel, address: int, pushed: seq<int>, pending: seq<Write>, polls: seq<Poll>)

  /** Task 1 has its turn, task 2 executes its next statement, or task 2, with none left, takes a poll. */
  datatype Event = Turn | Statement | TakePoll(poll: Poll)

  function TurnOf(m: Machine, size: int): Machine
    requires 0 < size
  {
    match ActionOf(m.panel.flags)
    case Play => m.(pushed := m.pushed + Samples(m.address, size), address := NextAddress(m.address, size))
    case Hold => m
    case Reset => m.(address := 0)
  }

  function Step(m: Machine, e: Event, size: int): Machine
    requires 0 < size
  {
    match e
    case Turn => TurnOf(m, size)
    case Statement =>
      if m.pending == [] then m else m.(panel := Apply(m.panel, m.pending[0]), pending := m.pending[1..])
    case TakePoll(p) =>
      if m.pending == [] then m.(pending := Program(p), polls := m.polls + [p]) else m
  }

  function Run(m: Machine, events: seq<Event>, size: int): Machine
    requires 0 < size
  {
    if events == [] then m else Step(Run(m, events[..|events| - 1], size), events[|events| - 1], size)
  }

  /** After main has drawn the panel and task 1 has programmed the frequency. */
  const START: Machine :=
    Machine(Panel(Flags(false, false, false), FREQ_NOMINAL, Divider(FREQ_NOMINAL), false,
                  [true, false, false, false], 0, [false, false, false, true], 3,
                  Pressed(None)),
            0, [], [], [])

  // ----- what the polls alone say -----

  function FreqStep(freq: int, hit: Option<Button>): int {
    match hit
    case Some(BackButton) => if freq - FREQ_INCREMENT < FREQ_INCREMENT then FREQ_INCREMENT else freq - FREQ_INCREMENT
    case Some(FordButton) => if freq + FREQ_INCREMENT > FREQ_MAX then FREQ_MAX else freq + FREQ_INCREMENT
    case _ => freq
  }

  function Clicked(p: Poll): Option<Button> { if p.event == 1 then ButtonAt(p.x, p.y) else None }

  /** Frequency after saturating steps for the clicks. */
  function FreqAfter(polls: seq<Poll>): (freq: int)
    ensures FREQ_INCREMENT <= freq <= FREQ_MAX && freq % FREQ_INCREMENT == 0
  {
    if polls == [] then FREQ_NOMINAL else FreqStep(FreqAfter(polls[..|polls| - 1]), Clicked(polls[|polls| - 1]))
  }

  /** The last modulation selected; 0 at first. */
  function ModulationAfter(polls: seq<Poll>): (i: nat)
    ensures i < 4
  {
    if polls == [] then 0
    else
      var p := polls[|polls| - 1];
      if p.event == 1 && ModulationAt(p.x, p.y).Some? then ModulationAt(p.x, p.y).value
      else ModulationAfter(polls[..|polls| - 1])
  }

  function SignalAfter(polls: seq<Poll>): (i: nat)
    ensures i < 4
  {
    if polls == [] then 3
    else
      var p := polls[|polls| - 1];
      if p.event == 1 && SignalAt(p.x, p.y).Some? then SignalAt(p.x, p.y).value
      else SignalAfter(polls[..|polls| - 1])
  }

  /** The transport button clicked last. */
  function ButtonAfter(polls: seq<Poll>): Option<Button> {
    if polls == [] then None
    else if Clicked(polls[|polls| - 1]).Some? then Clicked(polls[|polls| - 1])
    else ButtonAfter(polls[..|polls| - 1])
  }

  /** Flags of the mode selected last: play, pause and stop are modes, the frequency buttons are not. */
  function FlagsAfter(polls: seq<Poll>): Flags {
    if polls == [] then Flags(false, false, false)
    else
      match Clicked(polls[|polls| - 1])
      case Some(PlayButton) => Flags(true, false, false)
      case Some(StopButton) => Flags(false, false, true)
      case Some(PauseButton) => Flags(false, true, false)
      case _ => FlagsAfter(polls[..|polls| - 1])
  }

  /** Flags of the mode before the last poll. */
  function FlagsBefore(polls: seq<Poll>): Flags {
    if polls == [] then Flags(false, false, false) else FlagsAfter(polls[..|polls| - 1])
  }

  function OneOfFour(i: nat): seq<bool> { [i == 0, i == 1, i == 2, i == 3] }

  /** The transport images with at most one pressed. */
  function Pressed(b: Option<Button>): (pressed: seq<bool>)
    ensures |pressed| == 5
  {
    [b == Some(PlayButton), b == Some(StopButton), b == Some(PauseButton), b == Some(BackButton), b == Some(FordButton)]
  }

  /** The panel the polls describe. */
  function PanelAfter(polls: seq<Poll>): Panel {
    Panel(FlagsAfter(polls), FreqAfter(polls), Divider(FreqAfter(polls)), false,
          OneOfFour(ModulationAfter(polls)), ModulationAfter(polls), OneOfFour(SignalAfter(polls)), SignalAfter(polls),
          Pressed(ButtonAfter(polls)))
  }

  lemma {:induction false} ApplyConcat(p: Panel, a: seq<Write>, b: seq<Write>)
    ensures ApplyAll(p, a + b) == ApplyAll(ApplyAll(p, a), b)
    decreases |a|
  {
    if a == [] {
      assert a + b == b;
    } else {
      ApplyConcat(Apply(p, a[0]), a[1..], b);
      assert (a + b)[1..] == a[1..] + b;
    }
  }

  // ----- the panel is what the polls describe, whatever the interleaving -----

  lemma ApplyFirst(p: Panel, w: Write, ws: seq<Write>)
    ensures ApplyAll(p, [w] + ws) == ApplyAll(Apply(p, w), ws)
  {
    assert ([w] + ws)[1..] == ws;
  }

  lemma ApplyThree(p: Panel, a: Write, b: Write, c: Write)
    ensures ApplyAll(p, [a, b, c]) == Apply(Apply(Apply(p, a), b), c)
  {
    hide Apply;
    ApplyFirst(p, a, [b, c]);
    ApplyFirst(Apply(p, a), b, [c]);
    ApplyFirst(Apply(Apply(p, a), b), c, []);
    assert [a] + [b, c] == [a, b, c] && [b] + [c] == [b, c] && [c] + [] == [c];
  }

  lemma ApplyFive(p: Panel, a: Write, b: Write, c: Write, d: Write, e: Write)
    ensures ApplyAll(p, [a, b, c, d, e]) == Apply(Apply(Apply(Apply(Apply(p, a), b), c), d), e)
  {
    hide Apply, ApplyAll;
    ApplyFirst(p, a, [b, c, d, e]);
    ApplyFirst(Apply(p, a), b, [c, d, e]);
    ApplyThree(Apply(Apply(p, a), b), c, d, e);
    assert [a] + [b, c, d, e] == [a, b, c, d, e] && [b] + [c, d, e] == [b, c, d, e];
  }

  lemma TwoModulations(p: Panel, i: nat, a: nat, b: nat)
    requires a < |p.modulations| && b < |p.modulations|
    ensures Apply(Apply(p, DrawModulation(a, i == a)), DrawModulation(b, i == b))
            == p.(modulations := p.modulations[a := i == a][b := i == b])
  {
  }

  lemma TwoSignals(p: Panel, i: nat, a: nat, b: nat)
    requires a < |p.signals| && b < |p.signals|
    ensures Apply(Apply(p, DrawSignal(a, i == a)), DrawSignal(b, i == b))
            == p.(signals := p.signals[a := i == a][b := i == b])
  {
  }

  lemma SelectDone(p: Panel, i: nat)
    ensures Apply(p, SelectModulation(i)) == p.(modulation := i)
    ensures Apply(p, SelectSignal(i)) == p.(signal := i)
  {
  }

  lemma ModulationDone(p: Panel, hit: Option<nat>)
    requires |p.modulations| == 4 && (hit.Some? ==> hit.value < 4)
    ensures ApplyAll(p, ModulationProgram(hit))
            == if hit.None? then p else p.(modulations := OneOfFour(hit.value), modulation := hit.value)
  {
    if hit.Some? {
      hide ApplyAll, Apply;
      var i := hit.value;
      ApplyFive(p, DrawModulation(0, i == 0), DrawModulation(1, i == 1), DrawModulation(2, i == 2),
                DrawModulation(3, i == 3), SelectModulation(i));
      TwoModulations(p, i, 0, 1);
      var s := p.modulations[0 := i == 0][1 := i == 1];
      TwoModulations(p.(modulations := s), i, 2, 3);
      assert s[2 := i == 2][3 := i == 3] == OneOfFour(i);
      SelectDone(p.(modulations := OneOfFour(i)), i);
    }
  }

  lemma SignalDone(p: Panel, hit: Option<nat>)
    requires |p.signals| == 4 && (hit.Some? ==> hit.value < 4)
    ensures ApplyAll(p, SignalProgram(hit))
            == if hit.None? then p else p.(signals := OneOfFour(hit.value), signal := hit.value)
  {
    if hit.Some? {
      hide ApplyAll, Apply;
      var i := hit.value;
      ApplyFive(p, DrawSignal(0, i == 0), DrawSignal(1, i == 1), DrawSignal(2, i == 2), DrawSignal(3, i == 3),
                SelectSignal(i));
      TwoSignals(p, i, 0, 1);
      var s := p.signals[0 := i == 0][1 := i == 1];
      TwoSignals(p.(signals := s), i, 2, 3);
      assert s[2 := i == 2][3 := i == 3] == OneOfFour(i);
      SelectDone(p.(signals := OneOfFour(i)), i);
    }
  }

  lemma ImagesDone(p: Panel, b: Button)
    requires |p.pressed| == 5
    ensures ApplyAll(p, ImageProgram(b)) == p.(pressed := Pressed(Some(b)))
  {
    hide ApplyAll;
    ApplyFive(p, DrawTransport(PlayButton, b.PlayButton?), DrawTransport(StopButton, b.StopButton?),
              DrawTransport(PauseButton, b.PauseButton?), DrawTransport(BackButton, b.BackButton?),
              DrawTransport(FordButton, b.FordButton?));
    var s := p.pressed[0 := b.PlayButton?][1 := b.StopButton?];
    assert Apply(Apply(p, DrawTransport(PlayButton, b.PlayButton?)), DrawTransport(StopButton, b.StopButton?))
        == p.(pressed := s);
    var t := s[2 := b.PauseButton?][3 := b.BackButton?][4 := b.FordButton?];
    assert t == Pressed(Some(b));
  }

  lemma FlagsDone(p: Panel, play: bool, pause: bool, stop: bool)
    ensures ApplyAll(p, [SetPlay(play), SetPause(pause), SetStop(stop)]) == p.(flags := Flags(play, pause, stop))
  {
    hide ApplyAll;
    ApplyThree(p, SetPlay(play), SetPause(pause), SetStop(stop));
  }

  lemma MoveDone(p: Panel, move: Write, clamp: Write, b: Button)
    requires FREQ_INCREMENT <= p.freq <= FREQ_MAX
    requires (move == LowerFreq && clamp == ClampLow && b == BackButton)
             || (move == RaiseFreq && clamp == ClampHigh && b == FordButton)
    ensures Apply(Apply(p, move), clamp) == p.(freq := FreqStep(p.freq, Some(b)))
    ensures FREQ_INCREMENT <= FreqStep(p.freq, Some(b)) <= FREQ_MAX
  {
  }

  lemma ProgramDone(p: Panel)
    requires 0 < p.freq
    ensures Apply(p, ProgramFreq) == p.(divider := Divider(p.freq))
  {
  }

  lemma FreqDone(p: Panel, move: Write, clamp: Write, b: Button)
    requires FREQ_INCREMENT <= p.freq <= FREQ_MAX
    requires (move == LowerFreq && clamp == ClampLow && b == BackButton)
             || (move == RaiseFreq && clamp == ClampHigh && b == FordButton)
    ensures var freq := FreqStep(p.freq, Some(b));
            ApplyAll(p, [move, clamp, ProgramFreq]) == p.(freq := freq, divider := Divider(freq))
  {
    hide ApplyAll, Divider, FreqStep, Apply;
    ApplyThree(p, move, clamp, ProgramFreq);
    MoveDone(p, move, clamp, b);
    ProgramDone(p.(freq := FreqStep(p.freq, Some(b))));
  }

  lemma ControlDone(p: Panel, b: Button)
    requires FREQ_INCREMENT <= p.freq <= FREQ_MAX && p.divider == Divider(p.freq)
    ensures var q := ApplyAll(p, ControlProgram(b));
            match b
            case PlayButton => q == p.(flags := Flags(true, false, false))
            case StopButton => q == p.(flags := Flags(false, false, true))
            case PauseButton => q == p.(flags := Flags(false, true, false))
            case _ => q == p.(freq := FreqStep(p.freq, Some(b)), divider := Divider(FreqStep(p.freq, Some(b))))
  {
    hide ApplyAll, Apply, FreqStep;
    match b
    case PlayButton => FlagsDone(p, true, false, false);
    case StopButton => FlagsDone(p, false, false, true);
    case PauseButton => FlagsDone(p, false, true, false);
    case BackButton => FreqDone(p, LowerFreq, ClampLow, BackButton);
    case FordButton => FreqDone(p, RaiseFreq, ClampHigh, FordButton);
  }

  lemma TransportDone(p: Panel, hit: Option<Button>)
    requires |p.pressed| == 5 && FREQ_INCREMENT <= p.freq <= FREQ_MAX && p.divider == Divider(p.freq)
    ensures var q := ApplyAll(p, TransportProgram(hit));
            match hit
            case None => q == p
            case Some(PlayButton) => q == p.(pressed := Pressed(hit), flags := Flags(true, false, false))
            case Some(StopButton) => q == p.(pressed := Pressed(hit), flags := Flags(false, false, true))
            case Some(PauseButton) => q == p.(pressed := Pressed(hit), flags := Flags(false, true, false))
            case _ => q == p.(pressed := Pressed(hit), freq := FreqStep(p.freq, hit),
                              divider := Divider(FreqStep(p.freq, hit)))
  {
    if hit.Some? {
      var b := hit.value;
      ImagesDone(p, b);
      ApplyConcat(p, ImageProgram(b), ControlProgram(b));
      ControlDone(p.(pressed := Pressed(hit)), b);
    }
  }

  /** One poll, executed to its end, takes the panel of the earlier polls to the panel of all of them. */
  lemma PollDone(polls: seq<Poll>, poll: Poll)
    ensures ApplyAll(PanelAfter(polls), Program(poll)) == PanelAfter(polls + [poll])
  {
    assert (polls + [poll])[..|polls|] == polls;
    if poll.event == 1 {
      hide ModulationAt, SignalAt, ButtonAt, ModulationProgram, SignalProgram, TransportProgram, ApplyAll, OneOfFour,
           Pressed, Divider;
      var p, x, y := PanelAfter(polls), poll.x, poll.y;
      var a, b := ModulationProgram(ModulationAt(x, y)), SignalProgram(SignalAt(x, y));
      var c := TransportProgram(ButtonAt(x, y));
      HitsInRange(x, y);
      SizesOfPanel(polls);
      ModulationDone(p, ModulationAt(x, y));
      SignalDone(ApplyAll(p, a), SignalAt(x, y));
      TransportDone(ApplyAll(ApplyAll(p, a), b), ButtonAt(x, y));
      ApplyConcat(p, a, b);
      ApplyConcat(p, a + b, c);
    } else {
      assert ApplyAll(PanelAfter(polls), []) == PanelAfter(polls);
    }
  }

  lemma HitsInRange(x: int, y: int)
    ensures ModulationAt(x, y).Some? ==> ModulationAt(x, y).value < 4
    ensures SignalAt(x, y).Some? ==> SignalAt(x, y).value < 4
  {
  }

  lemma SizesOfPanel(polls: seq<Poll>)
    ensures var p := PanelAfter(polls);
            |p.modulations| == 4 && |p.signals| == 4 && |p.pressed| == 5
            && FREQ_INCREMENT <= p.freq <= FREQ_MAX && p.divider == Divider(p.freq)
  {
  }

  /** `turns[k]` turns of task 1 before statement `k` of task 2, for its first `n` statements. */
  function Schedule(turns: seq<nat>, n: nat): seq<Event> {
    if n == 0 then []
    else Schedule(turns, n - 1) + Repeated(if n - 1 < |turns| then turns[n - 1] else 0) + [Statement]
  }

  function Repeated(n: nat): (events: seq<Event>)
    ensures |events| == n
  {
    seq(n, _ => Turn)
  }

  lemma RunThen(m: Machine, events: seq<Event>, e: Event, size: int)
    requires 0 < size
    ensures Run(m, events + [e], size) == Step(Run(m, events, size), e, size)
  {
    assert (events + [e])[..|events|] == events;
  }

  lemma {:induction false} RunConcat(m: Machine, a: seq<Event>, b: seq<Event>, size: int)
    requires 0 < size
    ensures Run(m, a + b, size) == Run(Run(m, a, size), b, size)
  {
    hide Step;
    if b == [] {
      assert a + b == a;
    } else {
      RunConcat(m, a, b[..|b| - 1], size);
      assert (a + b)[..|a + b| - 1] == a + b[..|b| - 1];
    }
  }

  /** In every reachable state, executing what task 2 still has to do makes the panel what its polls describe. */
  lemma {:induction false} PanelFollowsPolls(events: seq<Event>, size: int)
    requires 0 < size
    ensures var m := Run(START, events, size);
            ApplyAll(m.panel, m.pending) == PanelAfter(m.polls)
  {
    if events != [] {
      PanelFollowsPolls(events[..|events| - 1], size);
      var m := Run(START, events[..|events| - 1], size);
      match events[|events| - 1]
      case Turn =>
      case Statement =>
      case TakePoll(p) => PollDone(m.polls, p);
    }
  }

  /** Between two polls the panel is settled: the frequency is the fold of the saturating steps and the divider
      belongs to it, one modulation and one signal are highlighted, and selected, and they are the last ones clicked,
      the image of the button clicked last is pressed, and the flags are those of the mode clicked last. */
  lemma SettledPanel(events: seq<Event>, size: int)
    requires 0 < size
    requires Run(START, events, size).pending == []
    ensures Run(START, events, size).panel == PanelAfter(Run(START, events, size).polls)
  {
    PanelFollowsPolls(events, size);
  }

  lemma {:induction false} FaultStays(p: Panel, ws: seq<Write>)
    ensures p.fault ==> ApplyAll(p, ws).fault
    decreases |ws|
  {
    if ws != [] {
      FaultStays(Apply(p, ws[0]), ws[1..]);
    }
  }

  /** At no point of any run has the frequency divider been computed from a frequency of zero. */
  lemma NeverDividesByZero(events: seq<Event>, size: int)
    requires 0 < size
    ensures !Run(START, events, size).panel.fault
  {
    var m := Run(START, events, size);
    PanelFollowsPolls(events, size);
    FaultStays(m.panel, m.pending);
  }

  // ----- what task 1 sees in the middle of a click -----

  function FlagWrites(ws: seq<Write>): (fs: seq<Write>) {
    if ws == [] then []
    else FlagPart(ws[0]) + FlagWrites(ws[1..])
  }

  predicate SetsFlag(w: Write) { w.SetPlay? || w.SetPause? || w.SetStop? }

  function ModeWrites(f: Flags): (ws: seq<Write>)
    ensures |ws| == 3
  {
    [SetPlay(f.play), SetPause(f.pause), SetStop(f.stop)]
  }

  /** The flags when `left` of the three flag writes of a click are still to come. */
  function Halfway(before: Flags, after: Flags, left: int): Flags {
    Flags(if left < 3 then after.play else before.play, if left < 2 then after.pause else before.pause,
          if left < 1 then after.stop else before.stop)
  }

  predicate OneMode(f: Flags) { !(f.play && f.pause) && !(f.play && f.stop) && !(f.pause && f.stop) }

  lemma {:induction false} FlagsAfterIsMode(polls: seq<Poll>)
    ensures OneMode(FlagsAfter(polls))
  {
    if polls != [] {
      FlagsAfterIsMode(polls[..|polls| - 1]);
    }
  }

  function FlagPart(w: Write): seq<Write> { if SetsFlag(w) then [w] else [] }

  lemma FlagWritesFirst(w: Write, ws: seq<Write>)
    ensures FlagWrites([w] + ws) == FlagPart(w) + FlagWrites(ws)
  {
    assert ([w] + ws)[1..] == ws;
  }

  lemma Regroup(a: seq<Write>, b: seq<Write>, c: seq<Write>)
    ensures a + b + c == a + (b + c)
  {
  }

  lemma {:induction false} FlagWritesConcat(a: seq<Write>, b: seq<Write>)
    ensures FlagWrites(a + b) == FlagWrites(a) + FlagWrites(b)
    decreases |a|
  {
    if a == [] {
      assert a + b == b;
    } else {
      hide FlagWrites, FlagPart;
      FlagWritesConcat(a[1..], b);
      FlagWritesFirst(a[0], a[1..]);
      FlagWritesFirst(a[0], a[1..] + b);
      assert [a[0]] + a[1..] == a;
      Regroup([a[0]], a[1..], b);
      Regroup(FlagPart(a[0]), FlagWrites(a[1..]), FlagWrites(b));
    }
  }

  lemma {:induction false} NoFlagWrites(ws: seq<Write>)
    requires forall w :: w in ws ==> !SetsFlag(w)
    ensures FlagWrites(ws) == []
  {
    if ws != [] {
      NoFlagWrites(ws[1..]);
    }
  }

  lemma ControlFlagWrites(b: Button)
    ensures FlagWrites(ControlProgram(b))
            == match b
               case PlayButton => ModeWrites(Flags(true, false, false))
               case StopButton => ModeWrites(Flags(false, false, true))
               case PauseButton => ModeWrites(Flags(false, true, false))
               case _ => []
  {
    var ws := ControlProgram(b);
    FlagWritesFirst(ws[0], [ws[1], ws[2]]);
    FlagWritesFirst(ws[1], [ws[2]]);
    FlagWritesFirst(ws[2], []);
    assert ws == [ws[0]] + [ws[1], ws[2]] && [ws[1], ws[2]] == [ws[1]] + [ws[2]] && [ws[2]] == [ws[2]] + [];
  }

  /** A poll changes the mode by the three flag writes at the end of its program, or not at all. */
  lemma PollFlagWrites(polls: seq<Poll>, poll: Poll)
    ensures FlagWrites(Program(poll)) == ModeWrites(FlagsAfter(polls + [poll]))
            || (FlagWrites(Program(poll)) == [] && FlagsAfter(polls + [poll]) == FlagsAfter(polls))
  {
    assert (polls + [poll])[..|polls|] == polls;
    if poll.event == 1 {
      var a, b := ModulationProgram(ModulationAt(poll.x, poll.y)), SignalProgram(SignalAt(poll.x, poll.y));
      NoFlagWrites(a);
      NoFlagWrites(b);
      FlagWritesConcat(a, b);
      FlagWritesConcat(a + b, TransportProgram(ButtonAt(poll.x, poll.y)));
      if ButtonAt(poll.x, poll.y).Some? {
        var button := ButtonAt(poll.x, poll.y).value;
        NoFlagWrites(ImageProgram(button));
        FlagWritesConcat(ImageProgram(button), ControlProgram(button));
        ControlFlagWrites(button);
      }
    }
  }

  /** The flag write of a click with which `left` of the three are still to come. */
  function NextDue(after: Flags, left: int): Write {
    if left == 3 then SetPlay(after.play) else if left == 2 then SetPause(after.pause) else SetStop(after.stop)
  }

  /** The last `left` flag writes of a click. */
  function Due(after: Flags, left: int): (fs: seq<Write>)
    requires 0 <= left <= 3
    ensures |fs| == left
  {
    if left == 0 then [] else [NextDue(after, left)] + Due(after, left - 1)
  }

  lemma AllDue(after: Flags)
    ensures Due(after, 3) == ModeWrites(after)
  {
    assert Due(after, 1) == [NextDue(after, 1)];
    assert Due(after, 2) == [NextDue(after, 2), NextDue(after, 1)];
  }

  /** The flags stand between the mode before the click and the mode after it. */
  ghost predicate Between(flags: Flags, pending: seq<Write>, before: Flags, after: Flags) {
    var left := |FlagWrites(pending)|;
    && left <= 3
    && FlagWrites(pending) == Due(after, left)
    && flags == Halfway(before, after, left)
  }

  ghost predicate OnTheWay(m: Machine) {
    Between(m.panel.flags, m.pending, FlagsBefore(m.polls), FlagsAfter(m.polls))
  }

  /** The next flag write is the one that is due. */
  lemma FlagWriteDue(w: Write, rest: seq<Write>, after: Flags, left: int)
    requires SetsFlag(w) && 0 <= left <= 3 && FlagWrites([w] + rest) == Due(after, left)
    ensures 1 <= left && w == NextDue(after, left)
    ensures FlagWrites(rest) == Due(after, left - 1)
  {
    hide FlagWrites, NextDue;
    FlagWritesFirst(w, rest);
    SameFirst(w, FlagWrites(rest), NextDue(after, left), Due(after, left - 1));
  }

  lemma SameFirst<T>(a: T, s: seq<T>, b: T, t: seq<T>)
    requires [a] + s == [b] + t
    ensures a == b && s == t
  {
    assert ([a] + s)[0] == a && ([b] + t)[0] == b;
    assert ([a] + s)[1..] == s && ([b] + t)[1..] == t;
  }

  lemma FlagWriteMoves(p: Panel, w: Write, before: Flags, after: Flags, left: int)
    requires 1 <= left <= 3 && w == NextDue(after, left) && p.flags == Halfway(before, after, left)
    ensures Apply(p, w).flags == Halfway(before, after, left - 1)
  {
    hide Divider;
  }

  lemma OtherWriteKeepsFlags(p: Panel, w: Write)
    requires !SetsFlag(w)
    ensures Apply(p, w).flags == p.flags
  {
    hide Divider;
  }

  lemma OtherWriteIsNotCounted(w: Write, rest: seq<Write>)
    requires !SetsFlag(w)
    ensures FlagWrites([w] + rest) == FlagWrites(rest)
  {
    hide FlagWrites;
    FlagWritesFirst(w, rest);
  }

  lemma WriteKeepsBetween(p: Panel, w: Write, rest: seq<Write>, before: Flags, after: Flags)
    requires Between(p.flags, [w] + rest, before, after)
    ensures Between(Apply(p, w).flags, rest, before, after)
  {
    if SetsFlag(w) {
      hide FlagWrites, Apply, Halfway, NextDue, SetsFlag, Due;
      FlagWriteDue(w, rest, after, |FlagWrites([w] + rest)|);
      FlagWriteMoves(p, w, before, after, |FlagWrites([w] + rest)|);
    } else {
      hide FlagWrites, Apply, Halfway, NextDue, SetsFlag, Due;
      OtherWriteIsNotCounted(w, rest);
      OtherWriteKeepsFlags(p, w);
    }
  }

  lemma StatementOnTheWay(m: Machine, size: int)
    requires 0 < size && OnTheWay(m)
    ensures OnTheWay(Step(m, Statement, size))
  {
    if m.pending != [] {
      hide Between, Apply;
      assert [m.pending[0]] + m.pending[1..] == m.pending;
      WriteKeepsBetween(m.panel, m.pending[0], m.pending[1..], FlagsBefore(m.polls), FlagsAfter(m.polls));
    }
  }

  lemma ClickStartsBetween(program: seq<Write>, before: Flags, after: Flags)
    requires FlagWrites(program) == ModeWrites(after) || (FlagWrites(program) == [] && after == before)
    ensures Between(before, program, before, after)
  {
    hide FlagWrites;
    AllDue(after);
  }

  lemma NothingPending(flags: Flags, before: Flags, after: Flags)
    requires Between(flags, [], before, after)
    ensures flags == after
  {
  }

  lemma PollOnTheWay(m: Machine, p: Poll, size: int)
    requires 0 < size && OnTheWay(m)
    ensures OnTheWay(Step(m, TakePoll(p), size))
  {
    if m.pending == [] {
      hide Program, FlagsAfter, Between;
      PollFlagWrites(m.polls, p);
      assert (m.polls + [p])[..|m.polls|] == m.polls;
      NothingPending(m.panel.flags, FlagsBefore(m.polls), FlagsAfter(m.polls));
      ClickStartsBetween(Program(p), FlagsAfter(m.polls), FlagsAfter(m.polls + [p]));
    }
  }

  lemma {:induction false} AlwaysOnTheWay(events: seq<Event>, size: int)
    requires 0 < size
    ensures OnTheWay(Run(START, events, size))
  {
    if events != [] {
      AlwaysOnTheWay(events[..|events| - 1], size);
      OnTheWayStep(Run(START, events[..|events| - 1], size), events[|events| - 1], size);
    }
  }

  lemma OnTheWayStep(m: Machine, e: Event, size: int)
    requires 0 < size && OnTheWay(m)
    ensures OnTheWay(Step(m, e, size))
  {
    match e
    case Turn =>
    case Statement => StatementOnTheWay(m, size);
    case TakePoll(p) => PollOnTheWay(m, p, size);
  }

  /** Wherever a turn of task 1 interrupts a click, it acts on the mode before the click, on the mode after it, or
      holds; it resets the position only if one of the two modes is stop. */
  lemma InterruptedClick(events: seq<Event>, size: int)
    requires 0 < size
    ensures var m := Run(START, events, size);
            var before, after := FlagsBefore(m.polls), FlagsAfter(m.polls);
            var action := ActionOf(m.panel.flags);
            && (action == ActionOf(before) || action == ActionOf(after) || action == Hold)
            && (action == Reset ==> before.stop || after.stop)
            && (m.pending == [] ==> m.panel.flags == after && OneMode(after))
  {
    var polls := Run(START, events, size).polls;
    AlwaysOnTheWay(events, size);
    FlagsAfterIsMode(polls);
    if polls != [] {
      FlagsAfterIsMode(polls[..|polls| - 1]);
    }
  }
}
