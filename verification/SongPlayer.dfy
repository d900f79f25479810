/** hello_ucosii.c: the variables of the two tasks and the statements that change them. */
module SongPlayer {
  import opened SongMachine

  class Player {
    const sizeSong: int
    var playSong: int
    var pauseSong: int
    var stopSong: int
    var freqReader: int
    var addressCounter: int
    /** Indices of the song bytes pushed into the audio FIFO so far. */
    var fifo: seq<int>
    var frequencyDivider: int
    var modulationButtons: seq<bool>
    var modulationSelector: nat
    var signalButtons: seq<bool>
    var signalSelector: nat
    var transportImages: seq<bool>

    /** The state after main and the first statements of task 1. */
    constructor (sizeSong: int)
      requires 0 < sizeSong
      ensures this.sizeSong == sizeSong && At([])
      ensures freqReader == 44000 && frequencyDivider == 567 && addressCounter == 0 && fifo == []
    {
      this.sizeSong := sizeSong;
      playSong, pauseSong, stopSong := 0, 0, 0;
      freqReader := FREQ_NOMINAL;
      addressCounter, fifo := 0, [];
      frequencyDivider := 50000000 / (2 * FREQ_NOMINAL) - 1;
      modulationButtons, modulationSelector := [true, false, false, false], 0;
      signalButtons, signalSelector := [false, false, false, true], 3;
      transportImages := [false, false, false, false, false];
      new;
      assert Run(START, [], sizeSong) == START;
    }

    /** The variables hold the state `m` of the machine. */
    ghost predicate Holds(m: Machine)
      reads this
    {
      && 0 < sizeSong
      && 0 <= playSong <= 1 && 0 <= pauseSong <= 1 && 0 <= stopSong <= 1
      && m.panel == Panel(Flags(playSong == 1, pauseSong == 1, stopSong == 1), freqReader, frequencyDivider, false,
                          modulationButtons, modulationSelector, signalButtons, signalSelector, transportImages)
      && m.address == addressCounter
      && m.pushed == fifo
    }

    /** The variables after these events. */
    ghost predicate At(events: seq<Event>)
      reads this
    {
      0 < sizeSong && Holds(Run(START, events, sizeSong))
    }

    /** `send_audio_fifo`; the wait for room in the FIFO is left to the hardware. */
    method SendAudioFifo(at: int)
      requires 0 < sizeSong && at == addressCounter % sizeSong
      modifies this`fifo
      ensures fifo == old(fifo) + Samples(addressCounter, sizeSong)
      ensures |fifo| == |old(fifo)| + 1000
      ensures forall i :: 0 <= i < 1000 ==> fifo[|old(fifo)| + i] == at + i % sizeSong
    {
      ghost var samples := Samples(addressCounter, sizeSong);
      for i := 0 to SAMPLES
        invariant fifo == old(fifo) + samples[..i]
      {
        fifo := fifo + [at + i % sizeSong];
        assert samples[..i + 1] == samples[..i] + [samples[i]];
      }
      assert samples[..SAMPLES] == samples;
    }

    /** One turn of the loop of `task1`, which nothing interrupts. */
    method Task1Turn(ghost events: seq<Event>)
      requires At(events)
      modifies this
      ensures At(events + [Turn])
      ensures old(playSong) == 1 ==>
                && addressCounter == (if old(addressCounter) < sizeSong then old(addressCounter) + 1000 else 0)
                && fifo == old(fifo) + Samples(old(addressCounter), sizeSong)
      ensures old(playSong) != 1 && old(pauseSong) != 1 && old(stopSong) == 1 ==> addressCounter == 0
      ensures old(playSong) != 1 && (old(pauseSong) == 1 || old(stopSong) != 1) ==>
                addressCounter == old(addressCounter)
      ensures old(playSong) != 1 ==> fifo == old(fifo)
    {
      RunThen(START, events, Turn, sizeSong);
      if playSong == 1 {
        SendAudioFifo(addressCounter % sizeSong);
        if addressCounter < sizeSong {
          addressCounter := addressCounter + SAMPLES;
        } else {
          addressCounter := 0;
        }
      } else if pauseSong == 1 {
      } else if stopSong == 1 {
        addressCounter := 0;
      }
    }

    /** One statement of `task2`. The division in `set_audio_frequency_audio_controller` is safe in every run. */
    method Execute(w: Write, ghost events: seq<Event>)
      requires At(events)
      requires var m := Run(START, events, sizeSong);
               m.pending != [] && m.pending[0] == w
      modifies this
      ensures At(events + [Statement])
      ensures w.ProgramFreq? && 0 < freqReader ==>
                2 * freqReader * (frequencyDivider + 1) <= 50000000 < 2 * freqReader * (frequencyDivider + 2)
    {
      hide Run, Divider, Program;
      ghost var m := Run(START, events, sizeSong);
      RunThen(START, events, Statement, sizeSong);
      NeverDividesByZero(events + [Statement], sizeSong);
      match w {
        case SetPlay(on) => playSong := if on then 1 else 0;
        case SetPause(on) => pauseSong := if on then 1 else 0;
        case SetStop(on) => stopSong := if on then 1 else 0;
        case DrawModulation(i, on) =>
          if i < |modulationButtons| {
            modulationButtons := modulationButtons[i := on];
          }
        case SelectModulation(i) => modulationSelector := i;
        case DrawSignal(i, on) =>
          if i < |signalButtons| {
            signalButtons := signalButtons[i := on];
          }
        case SelectSignal(i) => signalSelector := i;
        case DrawTransport(b, down) =>
          if Index(b) < |transportImages| {
            transportImages := transportImages[Index(b) := down];
          }
        case LowerFreq => freqReader := freqReader - FREQ_INCREMENT;
        case ClampLow =>
          if freqReader < FREQ_INCREMENT {
            freqReader := FREQ_INCREMENT;
          }
        case RaiseFreq => freqReader := freqReader + FREQ_INCREMENT;
        case ClampHigh =>
          if freqReader > FREQ_MAX {
            freqReader := FREQ_MAX;
          }
        case ProgramFreq =>
          frequencyDivider := Divider(freqReader);
          if 0 < freqReader {
            DividerInBounds(freqReader);
          }
      }
    }

    /** `n` turns of `task1` in a row. */
    method Task1Turns(n: nat, ghost events: seq<Event>)
      requires At(events)
      modifies this
      ensures At(events + Repeated(n))
      ensures Run(START, events + Repeated(n), sizeSong).pending == Run(START, events, sizeSong).pending
      ensures Run(START, events + Repeated(n), sizeSong).polls == Run(START, events, sizeSong).polls
    {
      assert events + Repeated(0) == events;
      for t := 0 to n
        invariant At(events + Repeated(t))
        invariant Run(START, events + Repeated(t), sizeSong).pending == Run(START, events, sizeSong).pending
        invariant Run(START, events + Repeated(t), sizeSong).polls == Run(START, events, sizeSong).polls
      {
        Task1Turn(events + Repeated(t));
        RunThen(START, events + Repeated(t), Turn, sizeSong);
        assert events + Repeated(t) + [Turn] == events + Repeated(t + 1);
      }
    }

    /** Taking a poll changes no variable. */
    lemma PollTaken(poll: Poll, events: seq<Event>)
      requires At(events)
      ensures At(events + [TakePoll(poll)])
    {
      RunThen(START, events, TakePoll(poll), sizeSong);
    }

    /** One pass of the loop of `task2`, with `turns[k]` turns of `task1` before its statement `k`. */
    method Task2Poll(poll: Poll, turns: seq<nat>, ghost events: seq<Event>)
      requires At(events) && Run(START, events, sizeSong).pending == []
      modifies this
      ensures var after := events + [TakePoll(poll)] + Schedule(turns, |Program(poll)|);
              && At(after)
              && Run(START, after, sizeSong).pending == []
              && Run(START, after, sizeSong).polls == Run(START, events, sizeSong).polls + [poll]
    {
      hide Run, Apply, Program, Holds;
      ghost var taken := events + [TakePoll(poll)];
      PollTaken(poll, events);
      RunThen(START, events, TakePoll(poll), sizeSong);
      var program := Program(poll);
      assert taken + Schedule(turns, 0) == taken;
      for k := 0 to |program|
        invariant At(taken + Schedule(turns, k))
        invariant Run(START, taken + Schedule(turns, k), sizeSong).pending == program[k..]
        invariant Run(START, taken + Schedule(turns, k), sizeSong).polls == Run(START, taken, sizeSong).polls
      {
        var n := if k < |turns| then turns[k] else 0;
        ghost var now := taken + Schedule(turns, k);
        Task1Turns(n, now);
        Execute(program[k], now + Repeated(n));
        RunThen(START, now + Repeated(n), Statement, sizeSong);
        ScheduleGrows(taken, turns, k);
      }
    }
  }

  lemma ScheduleGrows(events: seq<Event>, turns: seq<nat>, k: nat)
    ensures events + Schedule(turns, k + 1)
            == events + Schedule(turns, k) + Repeated(if k < |turns| then turns[k] else 0) + [Statement]
  {
  }
}
