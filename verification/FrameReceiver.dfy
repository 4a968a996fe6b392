/** The firmware's side of the scan stream: parse, keep the scan text, judge the status, send. */
module FrameReceiver {
  import opened Machine
  import LaserQueue
  import opened FrameIngest
  import opened ScanText
  import W = Warnings
  import T = Telegram
  import R = TelegramReader
  import ScanSender

  // ---------------------------------------------------------------- what a frame does

  /** Region alarm bits of a scan's trailer; NPN boards drive their outputs low. */
  function RegionBits(trailer: Word, boardType: Word): Word {
    var bits := (trailer / 0x1000_0000) % 8;
    if boardType == 1 then 7 - bits else bits
  }

  function Flag(set_: bool): seq<Byte> { [if set_ then 1 else 0, 0, 0, 0] }

  predicate AnyAlarm(w: W.Warn) { w.motor.alarm || w.laser.alarm || w.dust.alarm || w.temperature.alarm }

  /** The packet that goes out after a status frame while any flag is set. */
  function WarningPacket(w: W.Warn): seq<Byte> {
    [0x12, 0x34, UP_FPGA_STATUS / 0x100, UP_FPGA_STATUS % 0x100, 0, 0, 0, 16]
    + Flag(w.motor.alarm) + Flag(w.laser.alarm) + Flag(w.dust.alarm) + Flag(w.temperature.alarm)
    + [0xee, 0xee, 0xee, 0xee]
  }

  /** The warning state, and what each socket has been sent. */
  datatype Effects = Effects(warn: W.Warn, sent: seq<seq<Byte>>)

  function ScanOut(words: seq<Word>, trailer: Word, boardType: Word): seq<seq<Byte>> {
    T.Sends(T.TelegramOf(DistanceText(words), GrayText(words)), RegionBits(trailer, boardType))
  }

  function Effect(e: Effects, f: Frame, boardType: Word): Effects {
    match f
    case Scan(words, trailer) =>
      if ScanTrailer(trailer) then e.(sent := e.sent + ScanOut(words, trailer, boardType)) else e
    case Report(s) =>
      var w := W.Step(e.warn, W.Frame(s));
      Effects(w, e.sent + if AnyAlarm(w) then [WarningPacket(w)] else [])
    case Other(_) => e
    case Overrun => e
  }

  function EffectAll(e: Effects, fs: seq<Frame>, boardType: Word): Effects
    decreases |fs|
  {
    if fs == [] then e else Effect(EffectAll(e, fs[..|fs| - 1], boardType), fs[|fs| - 1], boardType)
  }

  // ---------------------------------------------------------------- what the packets say

  /** The bit with the given place value. */
  function BitAt(w: Word, place: nat): nat
    requires place > 0
  {
    (w / place) % 2
  }

  /** Bit k of the alarm is bit 28 + k of the trailer, or its complement on NPN boards, for the three regions. */
  predicate ShowsRegions(alarm: Word, trailer: Word, boardType: Word) {
    && alarm < 8
    && (BitAt(alarm, 1) == BitAt(trailer, 0x1000_0000) <==> boardType != 1)
    && (BitAt(alarm, 2) == BitAt(trailer, 0x2000_0000) <==> boardType != 1)
    && (BitAt(alarm, 4) == BitAt(trailer, 0x4000_0000) <==> boardType != 1)
  }

  lemma RegionBitsAre(trailer: Word, boardType: Word)
    ensures ShowsRegions(RegionBits(trailer, boardType), trailer, boardType)
  {
    hide BitAt;
    var high := trailer / 0x1000_0000;
    HighBits(trailer);
    LowThree(high);
    Complement(high % 8);
  }

  lemma HighBits(w: Word)
    ensures var high := w / 0x1000_0000;
            && BitAt(w, 0x1000_0000) == BitAt(high, 1)
            && BitAt(w, 0x2000_0000) == BitAt(high, 2)
            && BitAt(w, 0x4000_0000) == BitAt(high, 4)
  {
    assert w / 0x2000_0000 == w / 0x1000_0000 / 2;
    assert w / 0x4000_0000 == w / 0x1000_0000 / 4;
  }

  lemma LowThree(n: Word)
    requires n < 16
    ensures BitAt(n % 8, 1) == BitAt(n, 1) && BitAt(n % 8, 2) == BitAt(n, 2) && BitAt(n % 8, 4) == BitAt(n, 4)
  {
    if n >= 8 {
      assert n % 8 == n - 8;
      assert (n - 8) / 2 == n / 2 - 4 && (n - 8) / 4 == n / 4 - 2;
    }
  }

  lemma Complement(n: Word)
    requires n < 8
    ensures BitAt(7 - n, 1) != BitAt(n, 1) && BitAt(7 - n, 2) != BitAt(n, 2) && BitAt(7 - n, 4) != BitAt(n, 4)
    ensures BitAt(n, 1) < 2 && BitAt(n, 2) < 2 && BitAt(n, 4) < 2
  {
  }

  /** The region status packet, byte by byte. */
  lemma RegionPacketIs(alarm: Word)
    requires alarm < 0x100
    ensures T.RegionPacket(alarm) == [0x12, 0x34, 0xc1, 0x01, 0, 0, 0, 4, 0, 0, 0, alarm, 0xee, 0xee, 0xee, 0xee]
  {
  }

  /** The four flags as a host reads them from a warning packet: little-endian words behind the head. */
  function Said(set_: bool): seq<Byte> { if set_ then [1, 0, 0, 0] else [0, 0, 0, 0] }

  predicate ShowsFlags(p: seq<Byte>, w: W.Warn) {
    && |p| == 28 && p[..8] == [0x12, 0x34, 0xc1, 0, 0, 0, 0, 16] && p[24..] == [0xee, 0xee, 0xee, 0xee]
    && p[8..12] == Said(w.motor.alarm) && p[12..16] == Said(w.laser.alarm)
    && p[16..20] == Said(w.dust.alarm) && p[20..24] == Said(w.temperature.alarm)
  }

  lemma WarningPacketSays(w: W.Warn)
    ensures ShowsFlags(WarningPacket(w), w)
  {
    FlagParts([0x12, 0x34, 0xc1, 0, 0, 0, 0, 16], Flag(w.motor.alarm), Flag(w.laser.alarm), Flag(w.dust.alarm),
              Flag(w.temperature.alarm), [0xee, 0xee, 0xee, 0xee]);
  }

  lemma FlagParts(head: seq<Byte>, a: seq<Byte>, b: seq<Byte>, c: seq<Byte>, d: seq<Byte>, tail: seq<Byte>)
    requires |head| == 8 && |a| == 4 && |b| == 4 && |c| == 4 && |d| == 4 && |tail| == 4
    ensures var p := head + a + b + c + d + tail;
            && |p| == 28 && p[..8] == head && p[24..] == tail
            && p[8..12] == a && p[12..16] == b && p[16..20] == c && p[20..24] == d
  {
  }

  // ---------------------------------------------------------------- end to end

  /** The status frames of a stream, as the warnings see them. */
  function EventsOf(ss: seq<Segment>): seq<W.Event>
    decreases |ss|
  {
    if ss == [] then []
    else
      var s := ss[|ss| - 1];
      EventsOf(ss[..|ss| - 1]) + if s.StatusSegment? then [W.Frame(s.status)] else []
  }

  /** What one segment makes the loop send, with the warnings as they stand behind it. */
  function SegmentOut(s: Segment, w: W.Warn, boardType: Word): seq<seq<Byte>> {
    match s
    case ScanSegment(_, payload, trailer) => if ScanTrailer(trailer) then ScanOut(payload, trailer, boardType) else []
    case StatusSegment(_, _, _) => if AnyAlarm(w) then [WarningPacket(w)] else []
  }

  function StreamOut(ss: seq<Segment>, w: W.Warn, boardType: Word): seq<seq<Byte>>
    decreases |ss|
  {
    if ss == [] then []
    else
      StreamOut(ss[..|ss| - 1], w, boardType) + SegmentOut(ss[|ss| - 1], W.Run(w, EventsOf(ss)), boardType)
  }

  lemma SegmentEffect(e: Effects, s: Segment, boardType: Word)
    ensures var w := if s.StatusSegment? then W.Step(e.warn, W.Frame(s.status)) else e.warn;
            Effect(e, FrameOf(s), boardType) == Effects(w, e.sent + SegmentOut(s, w, boardType))
  {
    hide ScanOut, ScanTrailer, W.Step, WarningPacket, AnyAlarm;
    assert e.sent + [] == e.sent;
  }

  lemma {:induction false} StreamEffects(e: Effects, ss: seq<Segment>, boardType: Word)
    ensures EffectAll(e, FramesOf(ss), boardType)
         == Effects(W.Run(e.warn, EventsOf(ss)), e.sent + StreamOut(ss, e.warn, boardType))
    decreases |ss|
  {
    hide Effect, SegmentOut, FrameOf, W.Step;
    if ss == [] {
      assert e.sent + [] == e.sent;
    } else {
      var before, s := ss[..|ss| - 1], ss[|ss| - 1];
      StreamEffects(e, before, boardType);
      assert FramesOf(ss)[..|ss| - 1] == FramesOf(before);
      var e1 := EffectAll(e, FramesOf(before), boardType);
      SegmentEffect(e1, s, boardType);
      EventsStep(e.warn, before, s);
      assert ss == before + [s];
      var a, b := StreamOut(before, e.warn, boardType), SegmentOut(s, W.Run(e.warn, EventsOf(ss)), boardType);
      assert e.sent + a + b == e.sent + (a + b);
    }
  }

  lemma EventsStep(w: W.Warn, before: seq<Segment>, s: Segment)
    ensures W.Run(w, EventsOf(before + [s]))
         == if s.StatusSegment? then W.Step(W.Run(w, EventsOf(before)), W.Frame(s.status)) else W.Run(w, EventsOf(before))
  {
    hide W.Step;
    assert (before + [s])[..|before + [s]| - 1] == before;
    if s.StatusSegment? {
      W.LastStep(w, EventsOf(before), W.Frame(s.status));
    } else {
      assert EventsOf(before) + [] == EventsOf(before);
    }
  }

  /** A reader of the joined segments that is told the number of measurements gets them back, and one that believes the
      number declared in the telegram does so exactly when the scan is full. */
  predicate Readable(segments: seq<seq<Byte>>, payload: seq<Word>) {
    var t, reading := T.Flatten(segments), R.Reading(Distances(payload), Grays(payload));
    && R.Read(t, |payload|) == Some(reading)
    && (R.ReadDeclared(t) == Some(reading) <==> |payload| == TARGETS)
  }

  /** What goes out for a scan with a good trailer: readable segments, then sixteen bytes that show its region alarms. */
  ghost predicate ShowsScan(out: seq<seq<Byte>>, payload: seq<Word>, trailer: Word, boardType: Word) {
    out != [] && Readable(out[..|out| - 1], payload)
    && exists alarm: Byte :: ShowsRegions(alarm, trailer, boardType)
         && out[|out| - 1] == [0x12, 0x34, 0xc1, 0x01, 0, 0, 0, 4, 0, 0, 0, alarm, 0xee, 0xee, 0xee, 0xee]
  }

  lemma ScanReadable(payload: seq<Word>, trailer: Word, boardType: Word)
    requires |payload| <= TARGETS
    ensures ShowsScan(ScanOut(payload, trailer, boardType), payload, trailer, boardType)
  {
    hide T.Segments, T.Flatten, T.TelegramOf, DistanceText, GrayText, T.RegionPacket, RegionBits, T.Sends, ZeroFree,
      Distances, Grays, R.Read, R.ReadDeclared, Fields, ShowsRegions;
    var out, segments := ScanOut(payload, trailer, boardType), T.Segments(R.TelegramFor(payload));
    ScanSender.ScanSends(payload, RegionBits(trailer, boardType));
    assert out == segments + [T.RegionPacket(RegionBits(trailer, boardType))];
    T.SegmentsAreSlices(R.TelegramFor(payload));
    R.TelegramReadsBack(payload);
    R.DeclaredReadsBackExactlyWhen(payload);
    RegionBitsAre(trailer, boardType);
    assert RegionBits(trailer, boardType) < 8 by { RegionsBelow(trailer, boardType); }
    RegionPacketIs(RegionBits(trailer, boardType));
    assert out[..|out| - 1] == segments;
  }

  lemma RegionsBelow(trailer: Word, boardType: Word)
    ensures RegionBits(trailer, boardType) < 8
  {
  }

  /** The whole chain: a stream of scans and status frames with junk between them, arriving in any bursts, makes the loop
      judge the warnings by exactly the status frames and send, segment by segment and in order, what each calls for. For
      a scan with a good trailer that is segments its measurements read back from and its region alarms, for one with a
      bad trailer nothing, for a status frame the four flags if any is set. */
  lemma StreamSent(l: Line, e: Effects, ss: seq<Segment>, bursts: seq<seq<Word>>, boardType: Word)
    requires !l.lost && l.frames == [] && Held(l.q) == [] && AllGood(ss)
    requires FrameIngest.Flatten(bursts) == StreamOf(ss) && Passes(l, bursts).1 == []
    ensures EffectAll(e, Passes(l, bursts).0.frames, boardType)
         == Effects(W.Run(e.warn, EventsOf(ss)), e.sent + StreamOut(ss, e.warn, boardType))
    ensures forall i, w :: 0 <= i < |ss| ==> SegmentSays(SegmentOut(ss[i], w, boardType), ss[i], w, boardType)
  {
    hide Passes, FrameIngest.Flatten, StreamOf, EffectAll, StreamOut, Held, SegmentOut, SegmentSays, EventsOf, W.Run,
      GoodSegment, FrameOf;
    StreamInBurstsDelivered(l, ss, bursts);
    assert [] + FramesOf(ss) == FramesOf(ss);
    StreamEffects(e, ss, boardType);
    forall i, w | 0 <= i < |ss| ensures SegmentSays(SegmentOut(ss[i], w, boardType), ss[i], w, boardType) {
      assert GoodSegment(ss[i]);
      SegmentSaid(ss[i], w, boardType);
    }
  }

  ghost predicate SegmentSays(out: seq<seq<Byte>>, s: Segment, w: W.Warn, boardType: Word) {
    match s
    case ScanSegment(_, payload, trailer) =>
      if trailer % 0x1000_0000 == 0xeee_eeee then ShowsScan(out, payload, trailer, boardType) else out == []
    case StatusSegment(_, _, _) =>
      if w.motor.alarm || w.laser.alarm || w.dust.alarm || w.temperature.alarm
      then |out| == 1 && ShowsFlags(out[0], w) else out == []
  }

  lemma SegmentSaid(s: Segment, w: W.Warn, boardType: Word)
    requires GoodSegment(s)
    ensures SegmentSays(SegmentOut(s, w, boardType), s, w, boardType)
  {
    hide ScanOut, ShowsScan, WarningPacket, HeaderFree, EndFree, EndsFrame, StatusEnds;
    match s
    case ScanSegment(_, payload, trailer) => ScanReadable(payload, trailer, boardType);
    case StatusSegment(_, _, _) => WarningPacketSays(w);
  }

  /** From the wire to the PC: when the last five status frames of a stream, scans between them or not, complete a block
      with short laser pulses and the last has a good trailer, the laser flag is set and the last packet sent says so. */
  lemma LaserAlarmReported(l: Line, e: Effects, ss: seq<Segment>, bursts: seq<seq<Word>>, boardType: Word)
    requires !l.lost && l.frames == [] && Held(l.q) == [] && AllGood(ss)
    requires FrameIngest.Flatten(bursts) == StreamOf(ss) && Passes(l, bursts).1 == []
    requires W.AtBlockStart(e.warn) && W.Justified(e.warn)
    requires ss != [] && ss[|ss| - 1].StatusSegment? && ss[|ss| - 1].status.checksum == 0xeeee_eeee
    requires var fs := W.Frames(EventsOf(ss));
             |fs| >= 5 && |fs| % 5 == 0 && forall i :: |fs| - 5 <= i < |fs| ==> fs[i].pulse < 7
    ensures var e' := EffectAll(e, Passes(l, bursts).0.frames, boardType);
            && e'.warn.laser.alarm
            && e'.sent != [] && |e'.sent[|e'.sent| - 1]| == 28 && e'.sent[|e'.sent| - 1][12..16] == [1, 0, 0, 0]
  {
    hide Passes, FrameIngest.Flatten, StreamOf, EffectAll, Held, W.Run, W.Frames, GoodSegment, W.Step, WarningPacket,
      W.AtBlockStart, W.Justified, Readable, SegmentSays;
    StreamSent(l, e, ss, bursts, boardType);
    var before, s := ss[..|ss| - 1], ss[|ss| - 1];
    assert ss == before + [s];
    LaserRaised(e.warn, EventsOf(before), W.Frame(s.status));
    var w := W.Run(e.warn, EventsOf(ss));
    WarningPacketSays(w);
    var sent := e.sent + (StreamOut(before, e.warn, boardType) + [WarningPacket(w)]);
    assert sent[|sent| - 1] == WarningPacket(w);
  }

  lemma LaserRaised(w: W.Warn, es: seq<W.Event>, e: W.Event)
    requires W.AtBlockStart(w) && W.Justified(w) && e.Frame? && e.status.checksum == 0xeeee_eeee
    requires var fs := W.Frames(es + [e]);
             |fs| >= 5 && |fs| % 5 == 0 && forall i :: |fs| - 5 <= i < |fs| ==> fs[i].pulse < 7
    ensures W.Run(w, es + [e]).laser.alarm
  {
    hide W.Run, W.Frames, W.Step, W.Justified;
    var w1 := W.Run(w, es);
    if w1.laser.alarm {
      W.RunJustified(w, es);
      W.StepJustified(w1, e);
      W.LastStep(w, es, e);
    } else {
      W.FlagsRiseExactlyWhen(w, es, e);
    }
  }

  // ---------------------------------------------------------------- parsing from the queue object

  /** The loop that pops until it sees a frame header. */
  method NextHeader(queue: LaserQueue.Queue) returns (last: Word)
    requires queue.Valid() && !LaserQueue.Empty(queue.Value())
    modifies queue`front
    ensures queue.Valid() && (queue.Value(), last) == FindHeader(old(queue.Value()))
  {
    hide LaserQueue.Count, LaserQueue.Pop, LaserQueue.Head, IsHeader;
    ghost var goal := FindHeader(queue.Value());
    LaserQueue.CountMeans(queue.Value());
    var empty := queue.IsEmpty();
    last := 0;
    while !empty
      invariant queue.Valid()
      invariant empty <==> LaserQueue.Empty(queue.Value())
      invariant if empty then (queue.Value(), last) == goal else FindHeader(queue.Value()) == goal
      decreases LaserQueue.Count(queue.Value())
    {
      LaserQueue.PopCount(queue.Value());
      last := queue.Dequeue();
      if last / 0x1_0000 == FRAME_HEAD {
        HeaderIs(last);
        break;
      }
      HeaderIs(last);
      LaserQueue.CountMeans(queue.Value());
      empty := queue.IsEmpty();
    }
  }

  lemma HeaderIs(w: Word)
    ensures IsHeader(w) <==> w / 0x1_0000 == FRAME_HEAD
  {
  }

  /** The loop that turns the words of a distance frame into text. */
  method ReadScan(queue: LaserQueue.Queue, n: nat, distance: array<Byte>, gray: array<Byte>)
    returns (distanceLen: nat, grayLen: nat)
    requires queue.Valid() && n <= TARGETS && distance.Length == T.TEXT && gray.Length == T.TEXT && distance != gray
    modifies queue`front, distance, gray
    ensures queue.Valid() && unchanged(queue.data)
    ensures queue.Value() == PopN(old(queue.Value()), n)
    ensures distanceLen == 5 * n && distance[..distanceLen] == DistanceText(WordsN(old(queue.Value()), n))
    ensures grayLen == 3 * n && gray[..grayLen] == GrayText(WordsN(old(queue.Value()), n))
  {
    hide DistanceEntry, GrayEntry, DistanceText, GrayText, PopN, WordsN, LaserQueue.Head, LaserQueue.Pop;
    ghost var q0 := queue.Value();
    NothingRead(q0);
    distanceLen, grayLen := 0, 0;
    for i := 0 to n
      invariant queue.Valid() && queue.Value() == PopN(q0, i)
      invariant distanceLen == 5 * i && distance[..distanceLen] == DistanceText(WordsN(q0, i))
      invariant grayLen == 3 * i && gray[..grayLen] == GrayText(WordsN(q0, i))
    {
      ghost var words := WordsN(q0, i);
      var w := queue.Dequeue();
      TextGrows(words, w);
      OneMoreWord(q0, i);
      PutDistance(distance, distanceLen, w, DistanceText(words));
      distanceLen := distanceLen + 5;
      PutGray(gray, grayLen, w, GrayText(words));
      grayLen := grayLen + 3;
    }
  }

  lemma NothingRead(q: LaserQueue.Q)
    ensures PopN(q, 0) == q && DistanceText(WordsN(q, 0)) == [] && GrayText(WordsN(q, 0)) == []
  {
  }

  lemma OneMoreWord(q: LaserQueue.Q, n: nat)
    ensures WordsN(q, n + 1) == WordsN(q, n) + [LaserQueue.Head(PopN(q, n))]
    ensures PopN(q, n + 1) == LaserQueue.Pop(PopN(q, n))
  {
  }

  lemma TextGrows(ws: seq<Word>, w: Word)
    ensures DistanceText(ws + [w]) == DistanceText(ws) + DistanceEntry(w)
    ensures GrayText(ws + [w]) == GrayText(ws) + GrayEntry(w)
  {
    assert (ws + [w])[..|ws + [w]| - 1] == ws;
  }

  /** The bytes of one distance, unpacked from the word that hex2ascii returns. */
  method PutDistance(distance: array<Byte>, at: nat, w: Word, ghost before: seq<Byte>)
    requires at + 5 <= distance.Length && distance[..at] == before
    modifies distance
    ensures distance[..at + 5] == before + DistanceEntry(w)
  {
    hide Hex2Ascii, ByteOf;
    var d := Hex2Ascii(w);
    distance[at] := SPACE;
    distance[at + 1] := ByteOf(d, 3);
    distance[at + 2] := ByteOf(d, 2);
    distance[at + 3] := ByteOf(d, 1);
    distance[at + 4] := ByteOf(d, 0);
    assert distance[..at + 5] == distance[..at] + [SPACE, ByteOf(d, 3), ByteOf(d, 2), ByteOf(d, 1), ByteOf(d, 0)];
  }

  method PutGray(gray: array<Byte>, at: nat, w: Word, ghost before: seq<Byte>)
    requires at + 3 <= gray.Length && gray[..at] == before
    modifies gray
    ensures gray[..at + 3] == before + GrayEntry(w)
  {
    hide Hex2Ascii, ByteOf;
    var g := Hex2Ascii(w / 0x1_0000);
    gray[at] := SPACE;
    gray[at + 1] := ByteOf(g, 1);
    gray[at + 2] := ByteOf(g, 0);
    assert gray[..at + 3] == gray[..at] + [SPACE, ByteOf(g, 1), ByteOf(g, 0)];
  }

  /** The six words of a status frame. */
  method ReadStatus(queue: LaserQueue.Queue) returns (s: W.Status)
    requires queue.Valid()
    modifies queue`front
    ensures queue.Valid() && unchanged(queue.data)
    ensures var ws := WordsN(old(queue.Value()), 6); s == W.Status(ws[0], ws[1], ws[2], ws[3], ws[4], ws[5])
    ensures queue.Value() == PopN(old(queue.Value()), 6)
  {
    hide LaserQueue.Head, LaserQueue.Pop;
    ghost var q0 := queue.Value();
    SixPops(q0);
    var motor := queue.Dequeue();
    var zero := queue.Dequeue();
    var dust := queue.Dequeue();
    var temp := queue.Dequeue();
    var pulse := queue.Dequeue();
    var checksum := queue.Dequeue();
    s := W.Status(motor, zero, dust, temp, pulse, checksum);
  }

  lemma SixPops(q: LaserQueue.Q)
    ensures PopN(q, 0) == q
    ensures forall n :: 0 <= n < 6 ==> PopN(q, n + 1) == LaserQueue.Pop(PopN(q, n))
    ensures WordsN(q, 6) == [LaserQueue.Head(PopN(q, 0)), LaserQueue.Head(PopN(q, 1)), LaserQueue.Head(PopN(q, 2)),
                             LaserQueue.Head(PopN(q, 3)), LaserQueue.Head(PopN(q, 4)), LaserQueue.Head(PopN(q, 5))]
  {
    assert WordsN(q, 1) == [LaserQueue.Head(PopN(q, 0))];
    assert WordsN(q, 2) == WordsN(q, 1) + [LaserQueue.Head(PopN(q, 1))];
    assert WordsN(q, 3) == WordsN(q, 2) + [LaserQueue.Head(PopN(q, 2))];
    assert WordsN(q, 4) == WordsN(q, 3) + [LaserQueue.Head(PopN(q, 3))];
    assert WordsN(q, 5) == WordsN(q, 4) + [LaserQueue.Head(PopN(q, 4))];
  }
}
