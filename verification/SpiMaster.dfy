/** alt_avalon_spi_command over the registers of an SPI core. */
module SpiMaster {
  import opened Machine
  import opened SpiTransfer

  /** The core's registers with a device behind them; the device acts on a frame when its select is released. */
  class Core<D> {
    const exchange: (D, Byte) -> (D, Byte)
    const release: D -> D
    var dev: D
    var inFlight: seq<Byte>
    var sso: bool
    /** What the coming status reads will show. */
    var polls: seq<Poll>

    constructor (exchange: (D, Byte) -> (D, Byte), release: D -> D, dev: D, polls: seq<Poll>)
      ensures this.exchange == exchange && this.release == release && this.polls == polls
      ensures inFlight == [] && !sso
    {
      this.exchange, this.release, this.dev, this.polls := exchange, release, dev, polls;
      inFlight := [];
      sso := false;
    }

    method ReadStatus() returns (p: Poll)
      requires polls != []
      modifies this`polls
      ensures p == old(polls)[0] && polls == old(polls)[1..]
    {
      p := polls[0];
      polls := polls[1..];
    }

    method WriteTx(b: Byte)
      modifies this`dev, this`inFlight
      ensures dev == exchange(old(dev), b).0 && inFlight == old(inFlight) + [exchange(old(dev), b).1]
    {
      var (d, reply) := exchange(dev, b);
      dev := d;
      inFlight := inFlight + [reply];
    }

    /** Reading the receive register; without a word waiting it shows an old one. */
    method ReadRx() returns (b: Byte)
      modifies this`inFlight
      ensures old(inFlight) == [] ==> inFlight == []
      ensures old(inFlight) != [] ==> b == old(inFlight)[0] && inFlight == old(inFlight)[1..]
    {
      b := 0;
      if inFlight != [] {
        b := inFlight[0];
        inFlight := inFlight[1..];
      }
    }

    method WriteControl(on: bool)
      modifies this`sso, this`dev
      ensures sso == on
      ensures dev == if old(sso) && !on then release(old(dev)) else old(dev)
    {
      if sso && !on {
        dev := release(dev);
      }
      sso := on;
    }
  }

  /** A reply that has to be stored finds room in the caller's buffer. */
  lemma RoomToStore<D>(x: (D, Byte) -> (D, Byte), dev: D, write: seq<Byte>, readLen: nat, polls: seq<Poll>)
    ensures var s := Run(x, readLen, Start(dev, write, readLen), polls);
            !s.done && s.inFlight != [] && s.ignore == 0 ==> |s.stored| < readLen
  {
    hide Run, Exchange, All;
    if |write| + readLen > 0 {
      Conservation(x, dev, write, readLen, polls);
    } else {
      NothingToMoveHangs(x, dev, polls);
    }
  }

  /** Sending leaves the receiving side alone, and the word waiting in front. */
  lemma SendKeeps<D>(x: (D, Byte) -> (D, Byte), s: Xfer<D>)
    ensures var t := SendOne(x, s);
            && t.ignore == s.ignore && t.stored == s.stored && t.done == s.done
            && (s.inFlight != [] ==> t.inFlight != [] && t.inFlight[0] == s.inFlight[0])
  {
  }

  lemma OneMorePoll<D>(x: (D, Byte) -> (D, Byte), readLen: nat, s: Xfer<D>, polls: seq<Poll>, i: nat)
    requires i < |polls|
    ensures Run(x, readLen, s, polls[..i + 1]) == Step(x, readLen, Run(x, readLen, s, polls[..i]), polls[i])
  {
    assert polls[..i + 1][..i] == polls[..i];
  }

  ghost predicate Mirrors<D>(core: Core<D>, writeData: seq<Byte>, credits: int, sent: nat, zeros: nat, s: Xfer<D>)
    reads core
  {
    && s.dev == core.dev && s.inFlight == core.inFlight && s.credits == credits
    && sent <= |writeData| && s.toWrite == writeData[sent..] && s.zeros == zeros
  }

  /** The local variables and registers show the state s. */
  ghost predicate Shows<D>(core: Core<D>, readData: array<Byte>, writeData: seq<Byte>, credits: int, sent: nat,
                           zeros: nat, ignore: nat, stored: nat, done: bool, s: Xfer<D>)
    reads core, readData
  {
    && Mirrors(core, writeData, credits, sent, zeros, s)
    && stored <= readData.Length && s.ignore == ignore && s.stored == readData[..stored] && s.done == done
  }

  /** One transaction. The polls are the status bits the core will show; running out of them means still waiting.
      Once finished, the device has seen the write data and the zeros, and the buffer holds its last replies. */
  method Command<D>(core: Core<D>, writeData: seq<Byte>, readData: array<Byte>, merge: bool, toggle: bool)
    returns (finished: bool)
    requires |core.inFlight| <= 1
    modifies core, readData
    ensures var (d, replies) := Exchange(core.exchange, old(core.dev), All(writeData, readData.Length));
            finished ==>
              && |writeData| + readData.Length > 0 && core.inFlight == []
              && |replies| == |writeData| + readData.Length && readData[..] == replies[|writeData|..]
              && core.sso == (merge && (!toggle || old(core.sso)))
              && core.dev == if !merge && (!toggle || old(core.sso)) then core.release(d) else d
    ensures !finished ==> core.polls == []
  {
    hide Run, Exchange, All;
    if !toggle {
      core.WriteControl(true);
    }
    var stale := core.ReadRx();
    finished := Transfer(core, writeData, readData);
    if finished {
      var p := Poll(false, false, false);
      ghost var dev, sso, got := core.dev, core.sso, readData[..];
      while core.polls != [] && !p.tmt
        invariant core.inFlight == [] && readData[..] == got && core.dev == dev && core.sso == sso
        decreases |core.polls|
      {
        p := core.ReadStatus();
      }
      finished := p.tmt;
      if finished && !merge {
        core.WriteControl(false);
      }
    }
  }

  /** The loop that moves the words. */
  method Transfer<D>(core: Core<D>, writeData: seq<Byte>, readData: array<Byte>) returns (finished: bool)
    requires core.inFlight == []
    modifies core`dev, core`inFlight, core`polls, readData
    ensures var (d, replies) := Exchange(core.exchange, old(core.dev), All(writeData, readData.Length));
            finished ==>
              && |writeData| + readData.Length > 0 && core.inFlight == [] && core.dev == d
              && |replies| == |writeData| + readData.Length && readData[..] == replies[|writeData|..]
    ensures !finished ==> core.polls == []
  {
    hide Run, Exchange, All, Step;
    var readLen := readData.Length;
    var sent: nat, stored: nat, credits := 0, 0, 1;
    var zeros: nat, ignore: nat := readLen, |writeData|;
    finished := false;
    ghost var i, polls, s0 := 0, core.polls, Start(core.dev, writeData, readLen);
    NoPolls(core.exchange, readLen, s0, polls);
    while core.polls != [] && !finished
      invariant i <= |polls| && core.polls == polls[i..]
      invariant Shows(core, readData, writeData, credits, sent, zeros, ignore, stored, finished,
                      Run(core.exchange, readLen, s0, polls[..i]))
      decreases |core.polls|
    {
      RoomToStore(core.exchange, s0.dev, writeData, readLen, polls[..i]);
      OneMorePoll(core.exchange, readLen, s0, polls, i);
      sent, zeros, ignore, stored, credits, finished :=
        Round(core, writeData, readData, sent, zeros, ignore, stored, credits,
              Run(core.exchange, readLen, s0, polls[..i]));
      i := i + 1;
    }
    if finished {
      FinishedMeans(core.exchange, s0.dev, writeData, readLen, polls[..i]);
      assert readData[..stored] == readData[..];
    }
  }

  /** One status read and what it leads to. */
  method Round<D>(core: Core<D>, writeData: seq<Byte>, readData: array<Byte>, sent: nat, zeros: nat, ignore: nat,
                  stored: nat, credits: int, ghost s: Xfer<D>)
    returns (sent': nat, zeros': nat, ignore': nat, stored': nat, credits': int, finished: bool)
    requires core.polls != [] && Shows(core, readData, writeData, credits, sent, zeros, ignore, stored, false, s)
    requires s.inFlight != [] && s.ignore == 0 ==> |s.stored| < readData.Length
    modifies core`dev, core`inFlight, core`polls, readData
    ensures core.polls == old(core.polls)[1..]
    ensures Shows(core, readData, writeData, credits', sent', zeros', ignore', stored', finished,
                  Step(core.exchange, readData.Length, s, old(core.polls)[0]))
  {
    hide SendOne, ReceiveOne;
    sent', zeros', ignore', stored', credits', finished := sent, zeros, ignore, stored, credits, false;
    var status := core.ReadStatus();
    var ready := status.rrdy && core.inFlight != [];
    ghost var s1 := s;
    SendKeeps(core.exchange, s);
    if status.trdy && credits > 0 {
      sent', zeros', credits' := SendWord(core, writeData, sent, zeros, credits, s);
      s1 := SendOne(core.exchange, s);
    }
    if ready {
      ReceiveKeeps(s1, readData.Length);
      ignore', stored', finished := ReceiveWord(core, readData, ignore, stored, s1);
      credits' := credits' + 1;
    }
  }

  /** The branch taken while a credit is left and the transmitter is ready. */
  method SendWord<D>(core: Core<D>, writeData: seq<Byte>, sent: nat, zeros: nat, credits: int, ghost s: Xfer<D>)
    returns (sent': nat, zeros': nat, credits': int)
    requires Mirrors(core, writeData, credits, sent, zeros, s)
    modifies core`dev, core`inFlight
    ensures Mirrors(core, writeData, credits', sent', zeros', SendOne(core.exchange, s))
  {
    sent', zeros', credits' := sent, zeros, credits - 1;
    if sent < |writeData| {
      core.WriteTx(writeData[sent]);
      sent' := sent + 1;
    } else if zeros > 0 {
      zeros' := zeros - 1;
      core.WriteTx(0);
    } else {
      credits' := -1024;
    }
  }

  /** The branch taken while a received word is ready. */
  method ReceiveWord<D>(core: Core<D>, readData: array<Byte>, ignore: nat, stored: nat, ghost s: Xfer<D>)
    returns (ignore': nat, stored': nat, finished: bool)
    requires core.inFlight != [] && s.inFlight == core.inFlight && s.ignore == ignore
    requires stored <= readData.Length && s.stored == readData[..stored] && (ignore == 0 ==> stored < readData.Length)
    modifies core`inFlight, readData
    ensures var r := ReceiveOne(s, readData.Length);
            && r.inFlight == core.inFlight && r.ignore == ignore' && r.done == finished
            && stored' <= readData.Length && r.stored == readData[..stored']
  {
    ignore', stored' := ignore, stored;
    var rx := core.ReadRx();
    if ignore > 0 {
      ignore' := ignore - 1;
    } else {
      readData[stored] := rx;
      stored' := stored + 1;
    }
    finished := ignore' == 0 && stored' == readData.Length;
  }

  /** Receiving leaves the sending side alone, but for the credit. */
  lemma ReceiveKeeps<D>(s: Xfer<D>, readLen: nat)
    ensures s.inFlight != [] ==>
              var r := ReceiveOne(s, readLen);
              r.dev == s.dev && r.toWrite == s.toWrite && r.zeros == s.zeros && r.credits == s.credits + 1
  {
  }

  lemma NoPolls<D>(x: (D, Byte) -> (D, Byte), readLen: nat, s: Xfer<D>, polls: seq<Poll>)
    ensures Run(x, readLen, s, polls[..0]) == s
  {
  }

  lemma FinishedMeans<D>(x: (D, Byte) -> (D, Byte), dev: D, write: seq<Byte>, readLen: nat, polls: seq<Poll>)
    ensures var s := Run(x, readLen, Start(dev, write, readLen), polls);
            var (d, replies) := Exchange(x, dev, All(write, readLen));
            s.done ==>
              && |write| + readLen > 0 && s.inFlight == [] && s.dev == d
              && |replies| == |write| + readLen && s.stored == replies[|write|..] && |s.stored| == readLen
  {
    hide Run, Exchange, All;
    if |write| + readLen > 0 {
      DoneExactlyWhen(x, dev, write, readLen, polls);
    } else {
      NothingToMoveHangs(x, dev, polls);
    }
  }
}
