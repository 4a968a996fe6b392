/** One pass of the main loop over the scan stream: ingest, parse, pack, send. */
module MainLoop {
  import opened Machine
  import LaserQueue
  import opened FrameIngest
  import opened ScanText
  import opened FrameReceiver
  import W = Warnings
  import WarningMonitor
  import T = Telegram
  import ScanSender

  class Receiver {
    const queue: LaserQueue.Queue
    const monitor: WarningMonitor.Monitor
    const sender: ScanSender.Sender
    const distance: array<Byte>
    const gray: array<Byte>
    const boardType: Word
    var distanceLen: nat
    var grayLen: nat
    var posFinish: bool
    var regionAlarm: Word
    /** A distance frame was longer than the text buffers; nothing is claimed from then on. */
    var overrun: bool
    ghost var frames: seq<Frame>

    ghost function Parts(): set<object>
    {
      {queue, queue.data, monitor, sender, sender.sendBuffer, distance, gray} + monitor.Arrays()
    }

    ghost predicate Valid()
      reads this, Parts()
    {
      && queue.Valid() && monitor.Valid() && sender.Valid()
      && distance.Length == T.TEXT && gray.Length == T.TEXT && distance != gray
      && sender.sendBuffer != distance && sender.sendBuffer != gray
      && queue.data !in monitor.Arrays()
      && distanceLen <= T.TEXT && grayLen <= T.TEXT
      && sender.socket0 == sender.socket1
    }

    ghost function Stream(): Line
      reads this, queue, queue.data
      requires queue.Valid()
    {
      Line(queue.Value(), frames, overrun)
    }

    ghost function State(): Effects
      reads this, Parts()
      requires Valid()
    {
      Effects(monitor.Value(), sender.socket0)
    }

    constructor (board: Word, enable: Word, threshold: Word)
      ensures Valid() && fresh(Parts()) && boardType == board
      ensures !posFinish && !overrun && frames == [] && LaserQueue.Empty(queue.Value())
      ensures W.Initial(monitor.Value()) && sender.socket0 == []
    {
      queue := new LaserQueue.Queue();
      monitor := new WarningMonitor.Monitor(enable, threshold);
      sender := new ScanSender.Sender();
      distance := new Byte[T.TEXT](_ => 0);
      gray := new Byte[T.TEXT](_ => 0);
      boardType := board;
      distanceLen, grayLen, posFinish, regionAlarm, overrun := 0, 0, false, 0, false;
      frames := [];
    }

    /** The packet that fpga2nios_parse sends while a flag is set */
    method SendWarning()
      requires Valid()
      modifies sender, sender.sendBuffer
      ensures Valid()
      ensures sender.socket0 == old(sender.socket0) + [WarningPacket(monitor.Value())]
    {
      hide WarningPacket;
      var packet := BuildWarning(sender.sendBuffer, monitor.motorLowSpeedAlarm, monitor.ldNotWorkAlarm,
                                 monitor.windowDustAlarm, monitor.tempOutAlarm, monitor.Value());
      sender.socket0 := sender.socket0 + [packet];
      sender.socket1 := sender.socket1 + [packet];
    }

    static method BuildWarning(buf: array<Byte>, motor: bool, laser: bool, dust: bool, temperature: bool, ghost w: W.Warn)
      returns (packet: seq<Byte>)
      requires buf.Length == T.BUFFER
      requires w.motor.alarm == motor && w.laser.alarm == laser && w.dust.alarm == dust
      requires w.temperature.alarm == temperature
      modifies buf
      ensures packet == WarningPacket(w)
    {
      hide Flag;
      buf[0], buf[1], buf[2], buf[3] := 0x12, 0x34, UP_FPGA_STATUS / 0x100, UP_FPGA_STATUS % 0x100;
      buf[4], buf[5], buf[6], buf[7] := 0, 0, 0, 16;
      assert buf[..8] == [0x12, 0x34, UP_FPGA_STATUS / 0x100, UP_FPGA_STATUS % 0x100, 0, 0, 0, 16];
      PutFlag(buf, 8, motor);
      PutFlag(buf, 12, laser);
      PutFlag(buf, 16, dust);
      PutFlag(buf, 20, temperature);
      ghost var before := buf[..24];
      buf[24], buf[25], buf[26], buf[27] := 0xee, 0xee, 0xee, 0xee;
      packet := buf[..28];
      assert packet == before + [0xee, 0xee, 0xee, 0xee];
    }

    /** Four bytes of a little-endian 0 or 1. */
    static method PutFlag(buf: array<Byte>, at: nat, set_: bool)
      requires at + 4 <= buf.Length
      modifies buf
      ensures buf[..at + 4] == old(buf[..at]) + Flag(set_)
    {
      ghost var before := buf[..at];
      buf[at], buf[at + 1], buf[at + 2], buf[at + 3] := if set_ then 1 else 0, 0, 0, 0;
      assert buf[..at + 4] == before + Flag(set_);
    }

    /** The distance branch of fpga2nios_parse, from its length word on */
    method ParseScan(n: nat, ghost q0: LaserQueue.Q)
      requires Valid() && n <= TARGETS && q0 == queue.Value()
      modifies this`distanceLen, this`grayLen, this`posFinish, this`regionAlarm, queue, distance, gray
      ensures Valid()
      ensures queue.Value() == LaserQueue.Clear(PopN(q0, n + 1))
      ensures var words, trailer := WordsN(q0, n), LaserQueue.Head(PopN(q0, n));
              && posFinish == ScanTrailer(trailer)
              && (posFinish ==>
                    && distance[..distanceLen] == DistanceText(words) && gray[..grayLen] == GrayText(words)
                    && regionAlarm == RegionBits(trailer, boardType))
    {
      hide LaserQueue.Head, LaserQueue.Pop, LaserQueue.Clear, DistanceText, GrayText, WordsN;
      distanceLen, grayLen := ReadScan(queue, n, distance, gray);
      var trailer := queue.Dequeue();
      if trailer % 0x1000_0000 == 0xeee_eeee {
        var bits := (trailer / 0x1000_0000) % 8;
        if boardType == 1 {
          regionAlarm := 7 - bits;
        } else {
          regionAlarm := bits;
        }
        posFinish := true;
      } else {
        posFinish := false;
        forall i | 0 <= i < distance.Length {
          distance[i] := 0;
        }
        forall i | 0 <= i < gray.Length {
          gray[i] := 0;
        }
      }
      queue.ClearAll();
    }

    /** The status branch of fpga2nios_parse, from its length word on */
    method ParseStatus(ghost q0: LaserQueue.Q) returns (s: W.Status)
      requires Valid() && q0 == queue.Value()
      modifies queue, monitor, monitor.Arrays(), sender, sender.sendBuffer
      ensures Valid()
      ensures queue.Value() == LaserQueue.Clear(PopN(q0, 6))
      ensures var ws := WordsN(q0, 6); s == W.Status(ws[0], ws[1], ws[2], ws[3], ws[4], ws[5])
      ensures State() == Effect(old(State()), Report(s), boardType)
    {
      hide LaserQueue.Clear, WordsN, PopN, W.Step, WarningPacket;
      s := ReadStatus(queue);
      monitor.OnStatus(s);
      queue.ClearAll();
      if monitor.motorLowSpeedAlarm || monitor.ldNotWorkAlarm || monitor.windowDustAlarm || monitor.tempOutAlarm {
        SendWarning();
      } else {
        assert sender.socket0 + [] == sender.socket0;
      }
    }

    /** fpga2nios_parse once it has a command and a length */
    method ParseBody(command: Half, len: Word) returns (ghost f: Frame)
      requires Valid() && !posFinish && !overrun
      modifies this, Parts()
      ensures Valid()
      ensures (queue.Value(), f) == Framed(command, len, old(queue.Value())) && overrun == f.Overrun?
      ensures frames == old(frames) + [f]
      ensures Interpreted(f, old(State()))
    {
      hide LaserQueue.Head, LaserQueue.Pop, LaserQueue.Clear, LaserQueue.Empty, DistanceText, GrayText,
        ScanTrailer, RegionBits, WarningPacket, W.Step, PopN, WordsN;
      ghost var q2 := queue.Value();
      if command == DISTANCE_DATA {
        if len > TARGETS {
          overrun := true;
          f := Overrun;
        } else {
          ParseScan(len, q2);
          f := Scan(WordsN(q2, len), LaserQueue.Head(PopN(q2, len)));
        }
      } else if command == UP_FPGA_STATUS {
        var s := ParseStatus(q2);
        f := Report(s);
      } else {
        f := Other(command);
      }
      frames := frames + [f];
    }

    /** A parsed scan waits in the buffers, to be sent; any other frame has had its effect. */
    ghost predicate Interpreted(f: Frame, before: Effects)
      reads this, Parts()
      requires Valid()
    {
      if f.Scan? then
        && State() == before && posFinish == ScanTrailer(f.trailer)
        && (posFinish ==>
              && distance[..distanceLen] == DistanceText(f.words) && gray[..grayLen] == GrayText(f.words)
              && regionAlarm == RegionBits(f.trailer, boardType))
      else !posFinish && State() == Effect(before, f, boardType)
    }

    /** fpga2nios_parse */
    method Parse() returns (ghost f: Frame)
      requires Valid() && !posFinish && !overrun && !LaserQueue.Empty(queue.Value())
      modifies this, Parts()
      ensures Valid()
      ensures (queue.Value(), f) == Deframe(old(queue.Value()))
      ensures frames == old(frames) + [f] && overrun == f.Overrun?
      ensures Interpreted(f, old(State()))
    {
      hide FindHeader, Framed, LaserQueue.Head, LaserQueue.Pop, LaserQueue.Empty, Effect, State, Interpreted;
      var command, len := TakeCommand();
      f := ParseBody(command, len);
    }

    method TakeCommand() returns (command: Half, len: Word)
      requires Valid() && !LaserQueue.Empty(queue.Value())
      modifies queue`front
      ensures Valid() && State() == old(State())
      ensures var (q1, last) := FindHeader(old(queue.Value()));
              command == last % 0x1_0000 && len == LaserQueue.Head(q1) && queue.Value() == LaserQueue.Pop(q1)
    {
      hide FindHeader, LaserQueue.Head, LaserQueue.Pop, LaserQueue.Empty;
      var last := NextHeader(queue);
      command := last % 0x1_0000;
      len := queue.Dequeue();
    }

    /** Packing and sending a finished scan */
    method SendFinishedScan(ghost words: seq<Word>, ghost trailer: Word)
      requires Valid() && posFinish
      requires distance[..distanceLen] == DistanceText(words) && gray[..grayLen] == GrayText(words)
      requires regionAlarm == RegionBits(trailer, boardType)
      modifies this`posFinish, sender, sender.sendBuffer
      ensures Valid() && !posFinish
      ensures State() == old(State()).(sent := old(State()).sent + ScanOut(words, trailer, boardType))
    {
      hide T.TelegramOf, T.Sends, DistanceText, GrayText, T.StrLen, RegionBits, ZeroFree;
      posFinish := false;
      TextZeroFree(words);
      ScanSender.PackedTelegramSeen(DistanceText(words), GrayText(words));
      sender.PackTelegram(distance, distanceLen, gray, grayLen);
      sender.SendScan(regionAlarm);
    }

    /** The ingest loop: words from the FIFO until it is empty or one ends a frame */
    method IngestWords(fifo: seq<Word>) returns (rest: seq<Word>, frameOver: bool)
      requires Valid() && !overrun
      modifies queue, queue.data
      ensures Valid() && queue.Valid()
      ensures !frameOver ==> (Stream(), rest) == FrameIngest.Pass(old(Stream()), fifo)
      ensures frameOver ==>
                && !LaserQueue.Empty(queue.Value())
                && var (q', f) := Deframe(queue.Value());
                   (Line(q', frames + [f], f.Overrun?), rest) == FrameIngest.Pass(old(Stream()), fifo)
    {
      hide LaserQueue.Push, LaserQueue.Clear, LaserQueue.Full, LaserQueue.Empty, Deframe;
      ghost var goal := FrameIngest.Pass(Stream(), fifo);
      rest, frameOver := fifo, false;
      while rest != []
        invariant Valid() && unchanged(this)
        invariant FrameIngest.Pass(Stream(), rest) == goal
        decreases |rest|
      {
        ghost var q0 := queue.Value();
        ghost var l0 := Stream();
        FullIsFull(q0);
        var full := queue.IsFull();
        if full {
          queue.ClearAll();
        }
        var w := rest[0];
        queue.Enqueue(w);
        PushNeverEmpty(q0, w);
        rest := rest[1..];
        if w % 0x1_0000 == 0xeeee {
          frameOver := true;
          break;
        }
        assert Stream() == Ingest(l0, w);
      }
    }

    /** One pass: ingest, and if a frame ended, parse it and send what it calls for; rest stays in the FIFO. */
    method Pass(fifo: seq<Word>) returns (rest: seq<Word>)
      requires Valid() && !posFinish && !overrun
      modifies this, Parts()
      ensures Valid()
      ensures (Stream(), rest) == FrameIngest.Pass(old(Stream()), fifo)
      ensures |old(frames)| <= |frames| && frames[..|old(frames)|] == old(frames)
      ensures !overrun ==> !posFinish
      ensures !overrun ==> State() == EffectAll(old(State()), frames[|old(frames)|..], boardType)
    {
      hide FrameIngest.Pass, Deframe, LaserQueue.Empty, DistanceText, GrayText, RegionBits, ScanTrailer, ScanOut,
        WarningPacket, W.Step;
      ghost var s0 := State();
      ghost var fs0 := frames;
      var frameOver;
      rest, frameOver := IngestWords(fifo);
      assert State() == s0;
      if frameOver {
        ghost var f := Parse();
        assert frames[|fs0|..] == [f];
        OneEffect(s0, f, boardType);
        if !overrun && posFinish {
          SendFinishedScan(f.words, f.trailer);
        }
      } else {
        assert frames[|fs0|..] == [];
      }
    }
  }

  lemma FullIsFull(q: LaserQueue.Q)
    ensures LaserQueue.Full(q) <==> LaserQueue.Count(q) == LaserQueue.DEPTH - 1
  {
    LaserQueue.CountMeans(q);
  }

  lemma OneEffect(e: Effects, f: Frame, boardType: Word)
    ensures EffectAll(e, [f], boardType) == Effect(e, f, boardType)
  {
    assert [f][..0] == [];
    assert EffectAll(e, [], boardType) == e;
  }
}
