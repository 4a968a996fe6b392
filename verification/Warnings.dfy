/** The four warning flags: five-sample windows that freeze once their flag is set. */
module Warnings {
  import opened Machine

  const ENABLE: Word := 0x1111_1111
  const MOTOR_LOW_SPEED: Word := 100_000_000
  const LD_NO_WORK: Word := 7
  const TEMP_OUT: Word := 76
  const COLD_LIMIT: Word := 20
  const GOOD_TRAILER: Word := 0xeeee_eeee
  const WINDOW := 5

  datatype Kind = Motor | Laser | Dust | Temperature

  /** One status frame from the FPGA. */
  datatype Status = Status(motor: Word, zero: Word, dust: Word, temp: Word, pulse: Word, checksum: Word)

  type Samples = s: seq<Word> | |s| == WINDOW witness seq(WINDOW, _ => 0)

  datatype Channel = Channel(alarm: bool, window: Samples)

  datatype Warn = Warn(motor: Channel, laser: Channel, dust: Channel, temperature: Channel,
                       len: nat, motorEnable: Word, dustThreshold: Word)

  datatype Event = Frame(status: Status) | SetMotorEnable(value: Word) | SetDustThreshold(value: Word)

  function Chan(w: Warn, k: Kind): Channel {
    match k
    case Motor => w.motor
    case Laser => w.laser
    case Dust => w.dust
    case Temperature => w.temperature
  }

  function Sample(s: Status, k: Kind): Word {
    match k
    case Motor => s.motor
    case Laser => s.pulse
    case Dust => s.dust
    case Temperature => s.temp % 0x1_0000
  }

  /** Bit 13 marks a temperature below zero. */
  predicate TooHotOrCold(v: Word) {
    if (v / 0x2000) % 2 == 0 then v % 0x100 > TEMP_OUT else v % 0x100 > COLD_LIMIT
  }

  /** The flag the processing functions give a window; the temperature loop keeps only its last verdict. */
  predicate Verdict(w: Warn, k: Kind, s: Samples) {
    match k
    case Motor => w.motorEnable == ENABLE && forall i :: 0 <= i < WINDOW ==> s[i] >= MOTOR_LOW_SPEED
    case Laser => forall i :: 0 <= i < WINDOW ==> s[i] < LD_NO_WORK
    case Dust => forall i :: 0 <= i < WINDOW ==> s[i] > w.dustThreshold
    case Temperature => TooHotOrCold(s[WINDOW - 1])
  }

  /** A sample is stored only while the flag is clear. */
  function Store(c: Channel, at: nat, x: Word): Channel
    requires at < WINDOW
  {
    if c.alarm then c else c.(window := c.window[at := x])
  }

  function Judge(w: Warn, k: Kind): Channel { Chan(w, k).(alarm := Verdict(w, k, Chan(w, k).window)) }

  function Stored(w: Warn, s: Status): Warn {
    var at := w.len % WINDOW;
    w.(motor := Store(w.motor, at, Sample(s, Motor)), laser := Store(w.laser, at, Sample(s, Laser)),
       dust := Store(w.dust, at, Sample(s, Dust)), temperature := Store(w.temperature, at, Sample(s, Temperature)),
       len := at + 1)
  }

  function Judged(w: Warn): Warn {
    w.(motor := Judge(w, Motor), laser := Judge(w, Laser), dust := Judge(w, Dust), temperature := Judge(w, Temperature))
  }

  /** The status branch of fpga2nios_parse, and the two parameters the PC can change. */
  function Step(w: Warn, e: Event): Warn {
    match e
    case Frame(s) =>
      var w' := Stored(w, s);
      if s.checksum == GOOD_TRAILER && w'.len == WINDOW then Judged(w') else w'
    case SetMotorEnable(v) => w.(motorEnable := v)
    case SetDustThreshold(v) => w.(dustThreshold := v)
  }

  function Run(w: Warn, es: seq<Event>): Warn
    decreases |es|
  {
    if es == [] then w else Step(Run(w, es[..|es| - 1]), es[|es| - 1])
  }

  /** Nothing received yet and no flag set. */
  predicate Initial(w: Warn) {
    w.len == 0 && !w.motor.alarm && !w.laser.alarm && !w.dust.alarm && !w.temperature.alarm
  }

  /** The next frame begins a block of five. */
  predicate AtBlockStart(w: Warn) { w.len % WINDOW == 0 }

  /** The status frames of a run, in order. */
  function Frames(es: seq<Event>): seq<Status>
    decreases |es|
  {
    if es == [] then []
    else
      var e := es[|es| - 1];
      Frames(es[..|es| - 1]) + if e.Frame? then [e.status] else []
  }

  // ---------------------------------------------------------------- what one step does to one flag

  predicate Judges(w: Warn, e: Event) {
    e.Frame? && e.status.checksum == GOOD_TRAILER && w.len % WINDOW == WINDOW - 1
  }

  /** The window that a judging frame is judged on. */
  function JudgedWindow(w: Warn, k: Kind, s: Status): Samples { Store(Chan(w, k), w.len % WINDOW, Sample(s, k)).window }

  lemma StepOf(w: Warn, e: Event, k: Kind)
    ensures var c := Chan(w, k);
            && Chan(Step(w, e), k).alarm == (if Judges(w, e) then Verdict(w, k, JudgedWindow(w, k, e.status)) else c.alarm)
            && Chan(Step(w, e), k).window == (if e.Frame? then JudgedWindow(w, k, e.status) else c.window)
  {
    hide Verdict, Sample;
    if Judges(w, e) {
      SameVerdict(w, Stored(w, e.status), k, JudgedWindow(w, k, e.status));
    }
  }

  lemma SameVerdict(w: Warn, w': Warn, k: Kind, s: Samples)
    requires w.motorEnable == w'.motorEnable && w.dustThreshold == w'.dustThreshold
    ensures Verdict(w, k, s) == Verdict(w', k, s)
  {
  }

  // ---------------------------------------------------------------- history

  /** While a flag is clear, its window holds the samples of the current block of five. */
  predicate HoldsBlock(w: Warn, k: Kind, fs: seq<Status>) {
    && w.len % WINDOW == |fs| % WINDOW
    && (!Chan(w, k).alarm ==>
          forall i :: 0 <= i < |fs| % WINDOW ==> Chan(w, k).window[i] == Sample(fs[|fs| - |fs| % WINDOW + i], k))
  }

  lemma {:induction false} WindowHoldsBlock(w: Warn, es: seq<Event>, k: Kind)
    requires AtBlockStart(w)
    ensures HoldsBlock(Run(w, es), k, Frames(es))
    decreases |es|
  {
    hide Step, Verdict, Sample;
    if es != [] {
      var before, e := es[..|es| - 1], es[|es| - 1];
      WindowHoldsBlock(w, before, k);
      BlockGrows(Run(w, before), e, k, Frames(before));
    }
  }

  lemma BlockGrows(w: Warn, e: Event, k: Kind, fs: seq<Status>)
    requires HoldsBlock(w, k, fs)
    ensures HoldsBlock(Step(w, e), k, fs + if e.Frame? then [e.status] else [])
  {
    hide Step, Verdict, Sample;
    StepOf(w, e, k);
    StepLen(w, e);
    if e.Frame? {
      var fs' := fs + [e.status];
      NextInBlock(|fs|);
      if |fs'| % WINDOW != 0 && !Chan(w, k).alarm {
        var start := |fs| - |fs| % WINDOW;
        forall i | 0 <= i < |fs'| % WINDOW
          ensures Chan(Step(w, e), k).window[i] == Sample(fs'[start + i], k)
        {
          assert i < |fs| % WINDOW || start + i == |fs|;
        }
      }
    } else {
      assert fs + [] == fs;
    }
  }

  lemma StepLen(w: Warn, e: Event)
    ensures Step(w, e).len == if e.Frame? then w.len % WINDOW + 1 else w.len
  {
    hide Verdict;
  }

  lemma NextInBlock(n: nat)
    ensures (n + 1) % WINDOW == if n % WINDOW == WINDOW - 1 then 0 else n % WINDOW + 1
    ensures (n + 1) % WINDOW == (n % WINDOW + 1) % WINDOW
  {
    assert n == n / WINDOW * WINDOW + n % WINDOW;
  }

  /** The samples of the last five frames. */
  function LastBlock(fs: seq<Status>, k: Kind): Samples
    requires |fs| >= WINDOW
  {
    var n := |fs| - WINDOW;
    [Sample(fs[n], k), Sample(fs[n + 1], k), Sample(fs[n + 2], k), Sample(fs[n + 3], k), Sample(fs[n + 4], k)]
  }

  lemma BlockIsJudged(w: Warn, k: Kind, fs: seq<Status>, s: Status)
    requires HoldsBlock(w, k, fs) && !Chan(w, k).alarm && |fs| % WINDOW == WINDOW - 1
    ensures JudgedWindow(w, k, s) == LastBlock(fs + [s], k)
  {
    hide Sample;
    var n := |fs| - (WINDOW - 1);
    var c := Chan(w, k).window;
    assert c[0] == Sample(fs[n], k) && c[1] == Sample(fs[n + 1], k);
    assert c[2] == Sample(fs[n + 2], k) && c[3] == Sample(fs[n + 3], k);
  }

  /** A flag goes up exactly at a frame with a good trailer that is fifth in its block, on the samples of all five
      frames of that block, whether or not the first four had good trailers. */
  lemma RisesExactlyWhen(w: Warn, es: seq<Event>, e: Event, k: Kind)
    requires AtBlockStart(w) && !Chan(Run(w, es), k).alarm
    ensures Chan(Run(w, es + [e]), k).alarm
            <==> (&& e.Frame? && e.status.checksum == GOOD_TRAILER && |Frames(es + [e])| % WINDOW == 0
                  && Verdict(Run(w, es), k, LastBlock(Frames(es + [e]), k)))
  {
    hide Step, Verdict, LastBlock, JudgedWindow, Chan;
    var w1, fs := Run(w, es), Frames(es);
    assert (es + [e])[..|es + [e]| - 1] == es;
    WindowHoldsBlock(w, es, k);
    StepOf(w1, e, k);
    NextInBlock(|fs|);
    if e.Frame? && |fs| % WINDOW == WINDOW - 1 {
      BlockIsJudged(w1, k, fs, e.status);
    }
  }

  /** For the temperature that is the fifth sample alone. */
  lemma TemperatureRisesExactlyWhen(w: Warn, es: seq<Event>, e: Event)
    requires AtBlockStart(w) && !Run(w, es).temperature.alarm
    ensures Run(w, es + [e]).temperature.alarm
            <==> (&& e.Frame? && e.status.checksum == GOOD_TRAILER && |Frames(es + [e])| % WINDOW == 0
                  && TooHotOrCold(e.status.temp % 0x1_0000))
  {
    hide Step, TooHotOrCold, Run;
    RisesExactlyWhen(w, es, e, Temperature);
    assert (es + [e])[..|es + [e]| - 1] == es;
    assert e.Frame? ==> Frames(es + [e]) == Frames(es) + [e.status];
  }

  /** The other three flags, word by word: the motor needs slow counts while enabled, the laser short pulses, the dust
      counts above the threshold, in every frame of the block. */
  lemma FlagsRiseExactlyWhen(w: Warn, es: seq<Event>, e: Event)
    requires AtBlockStart(w)
    ensures var w1, w2, fs := Run(w, es), Run(w, es + [e]), Frames(es + [e]);
            var judged := e.Frame? && e.status.checksum == 0xeeee_eeee && |fs| % 5 == 0;
            && (!w1.motor.alarm ==>
                  (w2.motor.alarm <==> && judged && w1.motorEnable == 0x1111_1111 && |fs| >= 5
                                       && forall i :: |fs| - 5 <= i < |fs| ==> fs[i].motor >= 100_000_000))
            && (!w1.laser.alarm ==>
                  (w2.laser.alarm <==> judged && |fs| >= 5 && forall i :: |fs| - 5 <= i < |fs| ==> fs[i].pulse < 7))
            && (!w1.dust.alarm ==>
                  (w2.dust.alarm <==> && judged && |fs| >= 5
                                      && forall i :: |fs| - 5 <= i < |fs| ==> fs[i].dust > w1.dustThreshold))
  {
    hide Run, Frames, AtBlockStart;
    var w1, fs := Run(w, es), Frames(es + [e]);
    LastFrame(es, e);
    if e.Frame? && |fs| % WINDOW == 0 {
      BlockVerdicts(w1, fs);
    }
    if !w1.motor.alarm { RisesExactlyWhen(w, es, e, Motor); }
    if !w1.laser.alarm { RisesExactlyWhen(w, es, e, Laser); }
    if !w1.dust.alarm { RisesExactlyWhen(w, es, e, Dust); }
  }

  /** The verdicts on the last block, in terms of the words of its frames. */
  lemma BlockVerdicts(w: Warn, fs: seq<Status>)
    requires |fs| >= 5
    ensures Verdict(w, Motor, LastBlock(fs, Motor))
            <==> w.motorEnable == 0x1111_1111 && forall i :: |fs| - 5 <= i < |fs| ==> fs[i].motor >= 100_000_000
    ensures Verdict(w, Laser, LastBlock(fs, Laser)) <==> forall i :: |fs| - 5 <= i < |fs| ==> fs[i].pulse < 7
    ensures Verdict(w, Dust, LastBlock(fs, Dust)) <==> forall i :: |fs| - 5 <= i < |fs| ==> fs[i].dust > w.dustThreshold
  {
    var n := |fs| - 5;
    var m, l, d := LastBlock(fs, Motor), LastBlock(fs, Laser), LastBlock(fs, Dust);
    forall i | n <= i < |fs|
      ensures m[i - n] == fs[i].motor && l[i - n] == fs[i].pulse && d[i - n] == fs[i].dust
    {
      assert i == n || i == n + 1 || i == n + 2 || i == n + 3 || i == n + 4;
    }
    forall j | 0 <= j < 5
      ensures m[j] == fs[n + j].motor && l[j] == fs[n + j].pulse && d[j] == fs[n + j].dust
    {
    }
  }

  /** The temperature word in degrees: eight bits of magnitude, and bit 13 for the sign. */
  function Celsius(v: Word): int { if (v / 0x2000) % 2 == 1 then -(v % 0x100) else v % 0x100 }

  /** The verdict on a temperature sample: above 76 degrees or below -20. */
  lemma OutOfRangeMeans(v: Word)
    ensures TooHotOrCold(v) <==> Celsius(v) > 76 || Celsius(v) < -20
  {
  }

  /** What the processing functions claim to require, for comparison: five offending samples. The temperature flag can go
      up on one. */
  lemma OneHotSampleSuffices() returns (w: Warn, es: seq<Event>)
    ensures Initial(w) && Run(w, es).temperature.alarm
    ensures |Frames(es)| == WINDOW
    ensures forall i :: 0 <= i < WINDOW - 1 ==> !TooHotOrCold(Frames(es)[i].temp)
  {
    var quiet := Channel(false, [0, 0, 0, 0, 0]);
    w := Warn(quiet, quiet, quiet, quiet, 0, ENABLE, 400);
    var cool, hot := Frame(Status(0, 0, 0, 25, 100, GOOD_TRAILER)), Frame(Status(0, 0, 0, 80, 100, GOOD_TRAILER));
    es := [cool, cool, cool, cool];
    FourFrames(cool);
    var w4 := Run(w, es);
    if !w4.temperature.alarm {
      TemperatureRisesExactlyWhen(w, es, hot);
    } else {
      NoRiseInFour(w, cool);
    }
    assert (es + [hot])[..|es + [hot]| - 1] == es;
    es := es + [hot];
  }

  lemma FourFrames(e: Event)
    requires e.Frame?
    ensures Frames([e, e, e, e]) == [e.status, e.status, e.status, e.status]
  {
    assert [e, e, e, e][..3] == [e, e, e] && [e, e, e][..2] == [e, e] && [e, e][..1] == [e] && [e][..0] == [];
    assert Frames([e]) == [e.status];
    assert Frames([e, e]) == [e.status, e.status];
    assert Frames([e, e, e]) == [e.status, e.status, e.status];
  }

  lemma NoRiseInFour(w: Warn, e: Event)
    requires Initial(w) && e.Frame?
    ensures !Run(w, [e, e, e, e]).temperature.alarm
  {
    hide Verdict;
    assert [e, e, e, e][..3] == [e, e, e] && [e, e, e][..2] == [e, e] && [e, e][..1] == [e] && [e][..0] == [];
    assert Run(w, []) == w;
    assert Run(w, [e]).len == 1 && !Run(w, [e]).temperature.alarm;
    assert Run(w, [e, e]).len == 2 && !Run(w, [e, e]).temperature.alarm;
    assert Run(w, [e, e, e]).len == 3 && !Run(w, [e, e, e]).temperature.alarm;
  }

  /** Frame n of the run raised the flag: it was clear before, and the block ending there met the verdict. */
  ghost predicate RaisedAt(w: Warn, es: seq<Event>, k: Kind, n: nat) {
    && n < |es| && !Chan(Run(w, es[..n]), k).alarm
    && es[n].Frame? && es[n].status.checksum == GOOD_TRAILER
    && |Frames(es[..n + 1])| >= WINDOW && |Frames(es[..n + 1])| % WINDOW == 0
    && Verdict(Run(w, es[..n]), k, LastBlock(Frames(es[..n + 1]), k))
  }

  /** At every later moment the flag is still set, on the samples of the block that raised it. */
  ghost predicate FrozenSince(w: Warn, es: seq<Event>, k: Kind, n: nat) {
    && n < |es| && |Frames(es[..n + 1])| >= WINDOW
    && forall m :: n < m <= |es| ==>
                     Chan(Run(w, es[..m]), k) == Channel(true, LastBlock(Frames(es[..n + 1]), k))
  }

  lemma RaisedNow(w: Warn, es: seq<Event>, e: Event, k: Kind)
    requires AtBlockStart(w) && !Chan(Run(w, es), k).alarm && Chan(Run(w, es + [e]), k).alarm
    ensures RaisedAt(w, es + [e], k, |es|)
  {
    hide Step, Verdict, LastBlock, JudgedWindow, Chan, Run, Frames, AtBlockStart;
    var all := es + [e];
    assert all[..|es|] == es && all[..|es| + 1] == all && all[|es|] == e;
    RisesExactlyWhen(w, es, e, k);
    LastFrame(es, e);
  }

  lemma FrozenNow(w: Warn, es: seq<Event>, e: Event, k: Kind)
    requires AtBlockStart(w) && !Chan(Run(w, es), k).alarm && Chan(Run(w, es + [e]), k).alarm
    requires RaisedAt(w, es + [e], k, |es|)
    ensures FrozenSince(w, es + [e], k, |es|)
  {
    hide Step, Verdict, LastBlock, JudgedWindow, Chan, Run, Frames, AtBlockStart;
    var all := es + [e];
    assert all[..|all|] == all && all[|es|] == e;
    LastStep(w, es, e);
    LastFrame(es, e);
    RaisedWindow(w, es, e, k);
    assert Chan(Run(w, all), k) == Channel(true, LastBlock(Frames(all), k));
  }

  /** The window of a flag that has just been raised is the block it was raised on. */
  lemma RaisedWindow(w: Warn, es: seq<Event>, e: Event, k: Kind)
    requires AtBlockStart(w) && !Chan(Run(w, es), k).alarm && e.Frame? && (|Frames(es)| + 1) % WINDOW == 0
    ensures |Frames(es)| + 1 >= WINDOW
    ensures Chan(Step(Run(w, es), e), k).window == LastBlock(Frames(es) + [e.status], k)
  {
    hide Step, Verdict, LastBlock, JudgedWindow, Chan, Run, Frames, AtBlockStart;
    WindowHoldsBlock(w, es, k);
    NextInBlock(|Frames(es)|);
    StepOf(Run(w, es), e, k);
    BlockIsJudged(Run(w, es), k, Frames(es), e.status);
  }

  lemma LastFrame(es: seq<Event>, e: Event)
    ensures Frames(es + [e]) == Frames(es) + if e.Frame? then [e.status] else []
  {
    assert (es + [e])[..|es + [e]| - 1] == es;
  }

  lemma StillRaised(w: Warn, es: seq<Event>, e: Event, k: Kind, n: nat)
    requires RaisedAt(w, es, k, n) && FrozenSince(w, es, k, n) && Chan(Run(w, es + [e]), k).alarm
    ensures RaisedAt(w, es + [e], k, n) && FrozenSince(w, es + [e], k, n)
  {
    hide Step, Verdict, LastBlock, Chan, Run, Frames;
    var all := es + [e];
    SamePrefixes(es, e);
    assert es[..|es|] == es && all[..|all|] == all;
    LastStep(w, es, e);
    FrozenStep(Run(w, es), e, k);
  }

  lemma LastStep(w: Warn, es: seq<Event>, e: Event)
    ensures Run(w, es + [e]) == Step(Run(w, es), e)
  {
    assert (es + [e])[..|es + [e]| - 1] == es;
  }

  /** Every set flag, of all four kinds, was justified at the frame that raised it, and its window is frozen since. */
  lemma {:induction false} SetFlagHasCause(w: Warn, es: seq<Event>, k: Kind) returns (n: nat)
    requires Initial(w) && Chan(Run(w, es), k).alarm
    ensures RaisedAt(w, es, k, n) && FrozenSince(w, es, k, n)
    decreases |es|
  {
    hide Step, Chan, Run, RaisedAt, FrozenSince;
    if es == [] {
      assert false by { NothingSet(w, k); }
    }
    var before, e := es[..|es| - 1], es[|es| - 1];
    assert es == before + [e];
    if Chan(Run(w, before), k).alarm {
      n := SetFlagHasCause(w, before, k);
      StillRaised(w, before, e, k, n);
    } else {
      n := |before|;
      RaisedNow(w, before, e, k);
      FrozenNow(w, before, e, k);
    }
  }

  lemma NothingSet(w: Warn, k: Kind)
    requires Initial(w)
    ensures !Chan(Run(w, []), k).alarm
  {
  }

  /** A set flag keeps its window over any step. */
  lemma FrozenStep(w: Warn, e: Event, k: Kind)
    requires Chan(w, k).alarm
    ensures Chan(Step(w, e), k).window == Chan(w, k).window
  {
    hide Step, Verdict;
    StepOf(w, e, k);
  }

  lemma SamePrefixes(es: seq<Event>, e: Event)
    ensures forall m :: 0 <= m <= |es| ==> (es + [e])[..m] == es[..m]
  {
  }

  // ---------------------------------------------------------------- latches

  /** A set flag freezes a window that still justifies it. */
  predicate Justified(w: Warn) {
    && (w.laser.alarm ==> forall i :: 0 <= i < WINDOW ==> w.laser.window[i] < LD_NO_WORK)
    && (w.temperature.alarm ==> TooHotOrCold(w.temperature.window[WINDOW - 1]))
    && (w.motor.alarm ==> forall i :: 0 <= i < WINDOW ==> w.motor.window[i] >= MOTOR_LOW_SPEED)
  }

  lemma StepJustified(w: Warn, e: Event)
    requires Justified(w)
    ensures Justified(Step(w, e))
    ensures w.laser.alarm ==> Step(w, e).laser == w.laser
    ensures w.temperature.alarm ==> Step(w, e).temperature == w.temperature
    ensures w.motor.alarm ==> Step(w, e).motor.window == w.motor.window
    ensures w.dust.alarm ==> Step(w, e).dust.window == w.dust.window
  {
    hide Step, TooHotOrCold, Sample;
    StepOf(w, e, Motor);
    StepOf(w, e, Laser);
    StepOf(w, e, Dust);
    StepOf(w, e, Temperature);
  }

  lemma {:induction false} RunJustified(w: Warn, es: seq<Event>)
    requires Justified(w)
    ensures Justified(Run(w, es))
    ensures w.laser.alarm ==> Run(w, es).laser == w.laser
    ensures w.temperature.alarm ==> Run(w, es).temperature == w.temperature
    decreases |es|
  {
    hide Step, Justified;
    if es != [] {
      RunJustified(w, es[..|es| - 1]);
      StepJustified(Run(w, es[..|es| - 1]), es[|es| - 1]);
    }
  }

  lemma {:induction false} RunJoins(w: Warn, a: seq<Event>, b: seq<Event>)
    ensures Run(w, a + b) == Run(Run(w, a), b)
    decreases |b|
  {
    hide Step;
    var ab := a + b;
    if b == [] {
      assert ab == a;
    } else {
      RunJoins(w, a, b[..|b| - 1]);
      assert ab[..|ab| - 1] == a + b[..|b| - 1];
    }
  }

  /** Once set, the laser and temperature flags are never cleared. */
  lemma LaserAndTemperatureLatch(w: Warn, es: seq<Event>, later: seq<Event>)
    requires Initial(w)
    ensures Run(w, es).laser.alarm ==> Run(w, es + later).laser.alarm
    ensures Run(w, es).temperature.alarm ==> Run(w, es + later).temperature.alarm
  {
    hide Run;
    RunJoins(w, es, later);
    RunJustified(w, es);
    RunJustified(Run(w, es), later);
  }

  /** A set motor flag is cleared exactly by a judging frame while the motor is not enabled. */
  lemma MotorFallsExactlyWhen(w: Warn, e: Event)
    requires Justified(w) && w.motor.alarm
    ensures !Step(w, e).motor.alarm <==> Judges(w, e) && w.motorEnable != ENABLE
  {
    hide Step, TooHotOrCold, Sample;
    StepOf(w, e, Motor);
  }

  /** A set dust flag is cleared exactly by a judging frame while some frozen sample is not above the threshold. */
  lemma DustFallsExactlyWhen(w: Warn, e: Event)
    requires w.dust.alarm
    ensures !Step(w, e).dust.alarm
            <==> Judges(w, e) && exists i :: 0 <= i < WINDOW && w.dust.window[i] <= w.dustThreshold
  {
    hide Step, TooHotOrCold, Sample;
    StepOf(w, e, Dust);
  }

  predicate KeepsMotorEnabled(e: Event) { e.SetMotorEnable? ==> e.value == ENABLE }

  lemma {:induction false} MotorLatch(w: Warn, later: seq<Event>)
    requires Justified(w) && w.motor.alarm && w.motorEnable == ENABLE
    requires forall i :: 0 <= i < |later| ==> KeepsMotorEnabled(later[i])
    ensures Run(w, later).motor.alarm && Run(w, later).motorEnable == ENABLE
    decreases |later|
  {
    hide Step, Justified;
    if later != [] {
      var before, e := later[..|later| - 1], later[|later| - 1];
      MotorLatch(w, before);
      RunJustified(w, before);
      MotorFallsExactlyWhen(Run(w, before), e);
      StepParameters(Run(w, before), e);
    }
  }

  lemma StepParameters(w: Warn, e: Event)
    ensures Step(w, e).motorEnable == if e.SetMotorEnable? then e.value else w.motorEnable
    ensures Step(w, e).dustThreshold == if e.SetDustThreshold? then e.value else w.dustThreshold
  {
    hide Verdict;
  }

  predicate Above(s: Samples, threshold: Word) { forall i :: 0 <= i < WINDOW ==> s[i] > threshold }

  predicate KeepsBelow(e: Event, s: Samples) { e.SetDustThreshold? ==> Above(s, e.value) }

  /** The dust flag stays while the threshold is not raised to any frozen sample. */
  lemma {:induction false} DustLatch(w: Warn, later: seq<Event>)
    requires Justified(w) && w.dust.alarm && Above(w.dust.window, w.dustThreshold)
    requires forall i :: 0 <= i < |later| ==> KeepsBelow(later[i], w.dust.window)
    ensures Run(w, later).dust == w.dust && Above(w.dust.window, Run(w, later).dustThreshold)
    decreases |later|
  {
    hide Step, Justified;
    if later != [] {
      var before, e := later[..|later| - 1], later[|later| - 1];
      DustLatch(w, before);
      RunJustified(w, before);
      var w1 := Run(w, before);
      DustFallsExactlyWhen(w1, e);
      StepJustified(w1, e);
      StepParameters(w1, e);
      assert KeepsBelow(e, w.dust.window);
    }
  }
}
