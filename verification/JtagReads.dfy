/** What a read call is for: it returns the bytes that were waiting when it was made, whatever happens during the call. */
module JtagReads {
  import opened Machine
  import opened JtagRing
  import opened JtagReceive

  function Min(a: int, b: int): int { if a < b then a else b }

  /** The bytes a read of the given size would find. */
  function Waiting(r: RxRing, space: int): seq<Byte>
    requires space > 0
  {
    Unread(r)[..Min(space, |Unread(r)|)]
  }

  /** A call in progress still has these bytes ahead of it, and has them all once it stops looking. */
  ghost predicate Promised(s: Receive, waiting: seq<Byte>) {
    var rd := s.reader;
    && waiting <= rd.got + Unread(s.ring) && |waiting| <= rd.want
    && match rd.pc
       case SnapOut => |waiting| <= |rd.got| + Used(s.ring.rxOut, rd.inSnap)
       case Wait => |waiting| <= |rd.got|
       case Recheck => |waiting| <= |rd.got|
       case Leave => |waiting| <= |rd.got|
       case _ => true
  }

  /** The call has not returned yet, or has returned what it promised. */
  ghost predicate Kept(s: Receive, n: nat, space: int, nonblock: bool, waiting: seq<Byte>) {
    if |s.results| == n
    then s.reader.pc != Idle && s.reader.want == space && s.reader.nonblock == nonblock && Promised(s, waiting)
    else |s.results| > n && Returns(s.results[n], space, nonblock, waiting)
  }

  predicate Returns(r: ReadResult, space: int, nonblock: bool, waiting: seq<Byte>) {
    r.want == space && r.nonblock == nonblock && waiting <= r.bytes
  }

  lemma PrefixGrows(w: seq<Byte>, got: seq<Byte>, a: seq<Byte>, b: seq<Byte>)
    requires w <= got + a && a <= b
    ensures w <= got + b
  {
    assert b == a + b[|a|..];
    assert got + b == got + a + b[|a|..];
  }

  lemma InterruptPromised(s: Receive, hw: DataReads, waiting: seq<Byte>)
    requires Inv(s, hw) && Promised(s, waiting)
    ensures Promised(Step(s, hw, Interrupt), waiting)
  {
    hide Contents, Fill;
    FillAppends(s.ring, hw, 0x1_0000, Handed(s));
    var s' := Step(s, hw, Interrupt);
    PrefixGrows(waiting, s.reader.got, Unread(s.ring), Unread(s'.ring));
  }

  lemma SnapshotPromised(s: Receive, hw: DataReads, waiting: seq<Byte>)
    requires Inv(s, hw) && Promised(s, waiting) && (s.reader.pc == SnapIn || s.reader.pc == SnapOut)
    ensures Promised(ReaderStep(s), waiting)
  {
    ReadableMeans(s.ring.rxOut, s.reader.inSnap);
  }

  lemma CopyPromised(s: Receive, hw: DataReads, waiting: seq<Byte>)
    requires Inv(s, hw) && Promised(s, waiting) && s.reader.pc == Copy
    ensures Promised(ReaderStep(s), waiting)
  {
    hide Contents, Used, Fill;
    var s' := ReaderStep(s);
    if |s.reader.staged| < s.reader.n {
      assert Unread(s'.ring) == Unread(s.ring);
    } else {
      PublishHandsOver(s, hw);
      var got, staged, left := s.reader.got, s.reader.staged, Unread(s'.ring);
      assert got + (staged + left) == got + staged + left;
    }
  }

  lemma WaitPromised(s: Receive, hw: DataReads, waiting: seq<Byte>)
    requires Inv(s, hw) && Promised(s, waiting) && (s.reader.pc == Wait || s.reader.pc == Recheck)
    ensures Promised(ReaderStep(s), waiting)
  {
  }

  /** A call that is not over yet keeps its promise with every step of anybody. */
  lemma StepPromised(s: Receive, hw: DataReads, waiting: seq<Byte>, a: Action)
    requires Inv(s, hw) && Promised(s, waiting) && s.reader.pc != Idle
    requires a == Advance ==> s.reader.pc != Leave
    ensures var s' := Step(s, hw, a);
            && s'.results == s.results && s'.reader.pc != Idle && Promised(s', waiting)
            && s'.reader.want == s.reader.want && s'.reader.nonblock == s.reader.nonblock
  {
    hide Promised, Contents, Used, Fill;
    match a
    case Interrupt => InterruptPromised(s, hw, waiting);
    case Call(_, _) =>
    case Advance =>
      match s.reader.pc {
        case SnapIn => SnapshotPromised(s, hw, waiting);
        case SnapOut => SnapshotPromised(s, hw, waiting);
        case Copy => CopyPromised(s, hw, waiting);
        case _ => WaitPromised(s, hw, waiting);
      }
  }

  lemma LeaveReturns(s: Receive, hw: DataReads, waiting: seq<Byte>)
    requires Inv(s, hw) && Promised(s, waiting) && s.reader.pc == Leave
    ensures var s' := Step(s, hw, Advance);
            && |s'.results| == |s.results| + 1 && s'.results[..|s.results|] == s.results
            && Returns(s'.results[|s.results|], s.reader.want, s.reader.nonblock, waiting)
  {
    hide Contents, Used;
    var got, left := s.reader.got, Unread(s.ring);
    assert waiting == (got + left)[..|waiting|] == got[..|waiting|];
  }

  lemma ResultsStay(s: Receive, hw: DataReads, a: Action)
    ensures s.results <= Step(s, hw, a).results
  {
    hide RxPass;
  }

  lemma StepKept(s: Receive, hw: DataReads, a: Action, n: nat, space: int, nonblock: bool, waiting: seq<Byte>)
    requires Inv(s, hw) && Kept(s, n, space, nonblock, waiting)
    ensures Kept(Step(s, hw, a), n, space, nonblock, waiting)
    ensures n <= |s.results| <= |Step(s, hw, a).results| && Step(s, hw, a).results[..n] == s.results[..n]
  {
    hide Promised, Step, Inv, Returns;
    ResultsStay(s, hw, a);
    if |s.results| == n {
      if a == Advance && s.reader.pc == Leave {
        LeaveReturns(s, hw, waiting);
      } else {
        StepPromised(s, hw, waiting, a);
      }
    }
  }

  lemma RunOneMore(rxBuf: Buffer, hw: DataReads, actions: seq<Action>, a: Action)
    ensures Run(rxBuf, hw, actions + [a]) == Step(Run(rxBuf, hw, actions), hw, a)
  {
    assert (actions + [a])[..|actions|] == actions;
  }

  lemma CallPromises(s: Receive, hw: DataReads, space: int, nonblock: bool)
    requires Inv(s, hw) && s.reader.pc == Idle && space > 0
    ensures var s' := Step(s, hw, Call(space, nonblock));
            Kept(s', |s.results|, space, nonblock, Waiting(s.ring, space)) && s'.results == s.results && s'.ring == s.ring
  {
    hide Contents;
    assert [] + Unread(s.ring) == Unread(s.ring);
  }

  /** Whatever else runs during a read call, it returns at least the bytes that were waiting when it was made, as many as
      it asked for, in front of anything that came later. */
  lemma {:induction false} ReadReturnsWaiting(rxBuf: Buffer, hw: DataReads, before: seq<Action>, space: int,
                                              nonblock: bool, during: seq<Action>)
    requires Run(rxBuf, hw, before).reader.pc == Idle && space > 0
    ensures var s0, s := Run(rxBuf, hw, before), Run(rxBuf, hw, before + [Call(space, nonblock)] + during);
            && |s.results| >= |s0.results| && s.results[..|s0.results|] == s0.results
            && Kept(s, |s0.results|, space, nonblock, Waiting(s0.ring, space))
            && (|s.results| > |s0.results| ==>
                  Returns(s.results[|s0.results|], space, nonblock, Waiting(s0.ring, space)))
    decreases |during|
  {
    hide Kept, Step, Run, Waiting, Returns, Inv;
    var s0, called := Run(rxBuf, hw, before), before + [Call(space, nonblock)];
    if during == [] {
      RunOneMore(rxBuf, hw, before, Call(space, nonblock));
      RunKeepsInv(rxBuf, hw, before);
      CallPromises(s0, hw, space, nonblock);
      assert called + during == called && s0.results[..|s0.results|] == s0.results;
    } else {
      var earlier, a := during[..|during| - 1], during[|during| - 1];
      ReadReturnsWaiting(rxBuf, hw, before, space, nonblock, earlier);
      RunKeepsInv(rxBuf, hw, called + earlier);
      RunOneMore(rxBuf, hw, called + earlier, a);
      assert called + during == called + earlier + [a];
      StepKept(Run(rxBuf, hw, called + earlier), hw, a, |s0.results|, space, nonblock, Waiting(s0.ring, space));
    }
    KeptReturns(Run(rxBuf, hw, called + during), |s0.results|, space, nonblock, Waiting(s0.ring, space));
  }

  lemma KeptReturns(s: Receive, n: nat, space: int, nonblock: bool, waiting: seq<Byte>)
    requires Kept(s, n, space, nonblock, waiting)
    ensures |s.results| > n ==> Returns(s.results[n], space, nonblock, waiting)
  {
  }

  // ---------------------------------------------------------------- a call with no interrupt in between

  predicate Quiet(during: seq<Action>) { forall i :: 0 <= i < |during| ==> !during[i].Interrupt? }

  lemma {:induction false} QuietReadsNothing(rxBuf: Buffer, hw: DataReads, before: seq<Action>, during: seq<Action>)
    requires Quiet(during)
    ensures Run(rxBuf, hw, before + during).ring.dataReads == Run(rxBuf, hw, before).ring.dataReads
    decreases |during|
  {
    hide Run, RxPass;
    if during == [] {
      assert before + during == before;
    } else {
      var earlier := during[..|during| - 1];
      QuietReadsNothing(rxBuf, hw, before, earlier);
      assert before + during == before + earlier + [during[|during| - 1]];
      RunOneMore(rxBuf, hw, before + earlier, during[|during| - 1]);
    }
  }

  /** Between two moments without a call in progress and without a word read from the hardware, one more result holds
      exactly what has left the ring. */
  lemma ResultLeftRing(s0: Receive, s: Receive, hw: DataReads, r: ReadResult)
    requires Inv(s0, hw) && Inv(s, hw) && s0.reader.pc == Idle && s.reader.pc == Idle
    requires s.results == s0.results + [r] && s.ring.dataReads == s0.ring.dataReads
    ensures Unread(s0.ring) == r.bytes + Unread(s.ring) && ResultOk(r)
  {
    hide Contents, Used, ValidBytes;
    assert s.results[..|s0.results|] == s0.results && s.results[|s0.results|] == r;
    var returned, left := Returned(s0.results), Unread(s.ring);
    assert returned + [] == returned && returned + r.bytes + [] == returned + r.bytes;
    assert returned + r.bytes + left == returned + (r.bytes + left);
    assert (returned + Unread(s0.ring))[|returned|..] == Unread(s0.ring);
    assert (returned + (r.bytes + left))[|returned|..] == r.bytes + left;
  }

  /** A read that returns without an interrupt in between returns exactly the bytes that were waiting. */
  lemma QuietReadIsExact(s0: Receive, s: Receive, hw: DataReads, r: ReadResult, space: int, nonblock: bool)
    requires Inv(s0, hw) && Inv(s, hw) && s0.reader.pc == Idle && s.reader.pc == Idle && space > 0
    requires s.results == s0.results + [r] && s.ring.dataReads == s0.ring.dataReads
    requires Returns(r, space, nonblock, Waiting(s0.ring, space))
    ensures r.bytes == Waiting(s0.ring, space)
    ensures r.code == if r.bytes != [] then |r.bytes| else if nonblock then -EWOULDBLOCK else -EIO
  {
    hide Contents, Used, Inv;
    ResultLeftRing(s0, s, hw, r);
    assert |r.bytes| <= |Unread(s0.ring)|;
  }

  function Advances(k: nat): seq<Action> { seq(k, _ => Advance) }

  /** Steps the call in progress may still take without an interrupt, in lexicographic order. */
  function Rank(pc: ReadPc): nat {
    match pc case Idle => 0 case Leave => 1 case Recheck => 2 case Wait => 3 case Copy => 4 case SnapOut => 5 case SnapIn => 6
  }

  ghost predicate Settled(s: Receive) {
    (s.reader.pc == SnapOut || s.reader.pc == Wait || s.reader.pc == Recheck ==> s.reader.inSnap == s.ring.rxIn)
    && (s.reader.pc == SnapIn ==> s.reader.space > 0)
  }

  lemma StepSettles(s: Receive, hw: DataReads)
    requires Inv(s, hw) && Settled(s) && s.reader.pc != Idle && s.reader.pc != Leave
    ensures var s' := ReaderStep(s);
            && Settled(s') && s'.reader.pc != Idle && s'.results == s.results
            && Rest(s'.reader.space) <= Rest(s.reader.space)
            && (Rest(s'.reader.space) == Rest(s.reader.space) ==>
                  && Rank(s'.reader.pc) <= Rank(s.reader.pc)
                  && (Rank(s'.reader.pc) == Rank(s.reader.pc) ==> Uncopied(s'.reader) < Uncopied(s.reader)))
  {
    hide Contents, Used, Fill;
  }

  function Rest(space: int): nat { if space > 0 then space else 0 }
  function Uncopied(rd: Reader): nat { if rd.n > |rd.staged| then rd.n - |rd.staged| else 0 }

  /** Left to itself, a call in progress returns. */
  lemma {:induction false} CallReturns(rxBuf: Buffer, hw: DataReads, actions: seq<Action>) returns (k: nat)
    requires Settled(Run(rxBuf, hw, actions)) && Run(rxBuf, hw, actions).reader.pc != Idle
    ensures var s, s' := Run(rxBuf, hw, actions), Run(rxBuf, hw, actions + Advances(k));
            && s'.reader.pc == Idle && |s'.results| == |s.results| + 1
            && s'.results[..|s.results|] == s.results
    decreases Rest(Run(rxBuf, hw, actions).reader.space), Rank(Run(rxBuf, hw, actions).reader.pc),
              Uncopied(Run(rxBuf, hw, actions).reader)
  {
    hide Run, Settled, Inv;
    var s := Run(rxBuf, hw, actions);
    RunKeepsInv(rxBuf, hw, actions);
    RunOneMore(rxBuf, hw, actions, Advance);
    if s.reader.pc == Leave {
      k := 1;
      assert actions + Advances(1) == actions + [Advance];
    } else {
      StepSettles(s, hw);
      var k' := CallReturns(rxBuf, hw, actions + [Advance]);
      k := k' + 1;
      assert actions + Advances(k) == actions + [Advance] + Advances(k');
    }
  }

  /** A read call with no interrupt in between returns, and with exactly the bytes that were waiting, as many as asked for;
      if there were none, with the error for its mode. */
  lemma ReadCompletes(rxBuf: Buffer, hw: DataReads, before: seq<Action>, space: int, nonblock: bool) returns (k: nat)
    requires Run(rxBuf, hw, before).reader.pc == Idle && space > 0
    ensures var s0, s := Run(rxBuf, hw, before), Run(rxBuf, hw, before + [Call(space, nonblock)] + Advances(k));
            var bytes := Waiting(s0.ring, space);
            var code := if bytes != [] then |bytes| else if nonblock then -EWOULDBLOCK else -EIO;
            s.reader.pc == Idle && s.results == s0.results + [ReadResult(space, nonblock, code, bytes)]
  {
    hide Run, Inv, Returns, Kept, Contents, Waiting;
    var s0, called := Run(rxBuf, hw, before), before + [Call(space, nonblock)];
    RunOneMore(rxBuf, hw, before, Call(space, nonblock));
    k := CallReturns(rxBuf, hw, called);
    var s := Run(rxBuf, hw, called + Advances(k));
    ReadReturnsWaiting(rxBuf, hw, before, space, nonblock, Advances(k));
    var r := s.results[|s0.results|];
    assert s.results == s0.results + [r];
    RunKeepsInv(rxBuf, hw, before);
    RunKeepsInv(rxBuf, hw, called + Advances(k));
    QuietReadsNothing(rxBuf, hw, before, [Call(space, nonblock)] + Advances(k));
    assert before + ([Call(space, nonblock)] + Advances(k)) == called + Advances(k);
    QuietReadIsExact(s0, s, hw, r, space, nonblock);
    ReturnedFor(r, space, nonblock, Waiting(s0.ring, space));
  }

  lemma ReturnedFor(r: ReadResult, space: int, nonblock: bool, waiting: seq<Byte>)
    requires Returns(r, space, nonblock, waiting)
    ensures r.want == space && r.nonblock == nonblock
  {
  }
}
