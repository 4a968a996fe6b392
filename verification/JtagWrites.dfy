/** What a write call is for: it takes as much of its data as the ring has room for, and all of it if it may wait. */
module JtagWrites {
  import opened Machine
  import opened JtagRing
  import opened JtagTransmit

  function Min(a: int, b: int): int { if a < b then a else b }

  /** Bytes the ring can still take; one slot always stays free. */
  function Free(r: TxRing): int { BUF_LEN - 1 - |Unsent(r)| }

  /** A call in progress can still get to m bytes, and has got there once it stops looking for room. */
  ghost predicate Promised(s: Transmit, m: nat) {
    var w := s.writer;
    && m <= |w.data| && m <= w.ptr + Free(s.ring)
    && (w.pc == Enable || w.pc == Wait || w.pc == Leave ==> m <= w.ptr)
  }

  /** A blocking call on its way out has placed all its data. */
  ghost predicate Patient(s: Transmit) {
    s.writer.pc == Leave && !s.writer.nonblock ==> s.writer.ptr == |s.writer.data|
  }

  /** The call has not returned yet, or has returned what it promised. */
  ghost predicate Kept(s: Transmit, n: nat, data: seq<Byte>, nonblock: bool, m: nat, patient: bool) {
    if |s.results| == n then
      && s.writer.pc != Idle && s.writer.data == data && s.writer.nonblock == nonblock
      && Promised(s, m) && (patient ==> Patient(s))
    else |s.results| > n && Takes(s.results[n], data, nonblock, m, patient)
  }

  /** At least m bytes were accepted, and all of them if the call could block and was never told to give up. */
  predicate Takes(r: WriteResult, data: seq<Byte>, nonblock: bool, m: nat, patient: bool) {
    && r.data == data && r.nonblock == nonblock
    && (m > 0 ==> r.code >= m)
    && (patient && !nonblock && data != [] ==> r.code == |data|)
  }

  /** Nobody told the call that the host is gone. */
  predicate NeverQuit(during: seq<Action>) { forall i :: 0 <= i < |during| ==> during[i] != Advance(true) }

  lemma InterruptPromised(s: Transmit, control: Word, m: nat)
    requires Promised(s, m)
    ensures Promised(Step(s, Interrupt(control)), m)
  {
    hide Contents, TxPass;
    TxPassIs(s.ring, WriteSpace(control));
  }

  lemma SnapshotPromised(s: Transmit, quit: bool, m: nat)
    requires Inv(s) && Promised(s, m) && (s.writer.pc == SnapIn || s.writer.pc == SnapOut)
    ensures Promised(WriterStep(s, quit), m) && Patient(WriterStep(s, quit))
  {
    WritableLeavesOneSlot(s.ring.txOut, s.ring.txIn);
  }

  lemma CopyPromised(s: Transmit, quit: bool, m: nat)
    requires Inv(s) && Promised(s, m) && s.writer.pc == Copy
    ensures Promised(WriterStep(s, quit), m)
  {
    hide Contents, Used, Published, AllAccepted;
    if s.writer.copied < s.writer.n {
      SameUnsent(s, quit);
    } else {
      PublishAppends(s, quit);
    }
  }

  lemma SameUnsent(s: Transmit, quit: bool)
    requires Inv(s) && s.writer.pc == Copy && s.writer.copied < s.writer.n
    ensures |Unsent(WriterStep(s, quit).ring)| == |Unsent(s.ring)|
  {
  }

  lemma StepPromised(s: Transmit, a: Action, m: nat)
    requires Inv(s) && Promised(s, m) && s.writer.pc != Idle
    requires a.Advance? ==> s.writer.pc != Leave
    ensures var s' := Step(s, a);
            && s'.results == s.results && s'.writer.pc != Idle && Promised(s', m)
            && s'.writer.data == s.writer.data && s'.writer.nonblock == s.writer.nonblock
            && (a != Advance(true) && Patient(s) ==> Patient(s'))
  {
    hide Contents, Used, Published, TxPass;
    match a
    case Interrupt(control) => InterruptPromised(s, control, m);
    case Call(_, _) =>
    case Advance(quit) =>
      match s.writer.pc {
        case SnapIn => SnapshotPromised(s, quit, m);
        case SnapOut => SnapshotPromised(s, quit, m);
        case Copy => CopyPromised(s, quit, m);
        case _ =>
      }
  }

  lemma LeaveTakes(s: Transmit, quit: bool, m: nat, patient: bool)
    requires Inv(s) && Promised(s, m) && (patient ==> Patient(s)) && s.writer.pc == Leave
    ensures var s' := WriterStep(s, quit);
            && |s'.results| == |s.results| + 1 && s'.results[..|s.results|] == s.results
            && Takes(s'.results[|s.results|], s.writer.data, s.writer.nonblock, m, patient)
  {
    hide Contents, Used;
  }

  lemma ResultsStay(s: Transmit, a: Action)
    ensures s.results <= Step(s, a).results
  {
    hide TxPass;
  }

  lemma StepKept(s: Transmit, a: Action, n: nat, data: seq<Byte>, nonblock: bool, m: nat, patient: bool)
    requires Inv(s) && Kept(s, n, data, nonblock, m, patient) && (patient ==> a != Advance(true))
    ensures Kept(Step(s, a), n, data, nonblock, m, patient)
    ensures n <= |s.results| <= |Step(s, a).results| && Step(s, a).results[..n] == s.results[..n]
  {
    hide Promised, Patient, Step, Inv, Takes;
    ResultsStay(s, a);
    if |s.results| == n {
      if a.Advance? && s.writer.pc == Leave {
        assert Step(s, a) == WriterStep(s, a.quit) by { AdvanceIs(s, a.quit); }
        LeaveTakes(s, a.quit, m, patient);
      } else {
        StepPromised(s, a, m);
      }
    }
  }

  lemma AdvanceIs(s: Transmit, quit: bool)
    ensures Step(s, Advance(quit)) == WriterStep(s, quit)
  {
  }

  lemma RunOneMore(txBuf: Buffer, actions: seq<Action>, a: Action)
    ensures Run(txBuf, actions + [a]) == Step(Run(txBuf, actions), a)
  {
    assert (actions + [a])[..|actions|] == actions;
  }

  /** How much a call of this size is sure to place. */
  function Room(r: TxRing, data: seq<Byte>): (m: nat)
    ensures m <= |data| && m <= BUF_LEN - 1 - |Unsent(r)|
  {
    UsedBound(r.txOut, r.txIn);
    Min(|data|, Free(r))
  }

  lemma UsedBound(out: Index, in_: Index)
    ensures Used(out, in_) < BUF_LEN
  {
  }

  lemma CallPromises(s: Transmit, data: seq<Byte>, nonblock: bool, patient: bool)
    requires s.writer.pc == Idle
    ensures var s' := Step(s, Call(data, nonblock));
            Kept(s', |s.results|, data, nonblock, Room(s.ring, data), patient) && s'.results == s.results && s'.ring == s.ring
  {
    hide Contents;
  }

  /** Whatever else runs during a write call, it takes at least what there was room for when it was made, and all of its
      data if it may block and is never told that the host is gone. */
  lemma {:induction false} WriteTakesWhatFits(txBuf: Buffer, before: seq<Action>, data: seq<Byte>, nonblock: bool,
                                              during: seq<Action>)
    requires Run(txBuf, before).writer.pc == Idle
    ensures var s0, s := Run(txBuf, before), Run(txBuf, before + [Call(data, nonblock)] + during);
            && |s.results| >= |s0.results| && s.results[..|s0.results|] == s0.results
            && Kept(s, |s0.results|, data, nonblock, Room(s0.ring, data), NeverQuit(during))
            && (|s.results| > |s0.results| ==>
                  Takes(s.results[|s0.results|], data, nonblock, Room(s0.ring, data), NeverQuit(during)))
    decreases |during|
  {
    hide Kept, Step, Run, Room, Takes, Inv;
    var s0, called := Run(txBuf, before), before + [Call(data, nonblock)];
    if during == [] {
      RunOneMore(txBuf, before, Call(data, nonblock));
      CallPromises(s0, data, nonblock, true);
      assert called + during == called && s0.results[..|s0.results|] == s0.results;
    } else {
      var earlier, a := during[..|during| - 1], during[|during| - 1];
      WriteTakesWhatFits(txBuf, before, data, nonblock, earlier);
      RunKeepsInv(txBuf, called + earlier);
      RunOneMore(txBuf, called + earlier, a);
      assert called + during == called + earlier + [a];
      var s := Run(txBuf, called + earlier);
      KeptLess(s, |s0.results|, data, nonblock, Room(s0.ring, data), NeverQuit(earlier), NeverQuit(during));
      StepKept(s, a, |s0.results|, data, nonblock, Room(s0.ring, data), NeverQuit(during));
    }
    KeptTakes(Run(txBuf, called + during), |s0.results|, data, nonblock, Room(s0.ring, data), NeverQuit(during));
  }

  lemma KeptLess(s: Transmit, n: nat, data: seq<Byte>, nonblock: bool, m: nat, patient: bool, patient': bool)
    requires Kept(s, n, data, nonblock, m, patient) && (patient' ==> patient)
    ensures Kept(s, n, data, nonblock, m, patient')
  {
  }

  lemma KeptTakes(s: Transmit, n: nat, data: seq<Byte>, nonblock: bool, m: nat, patient: bool)
    requires Kept(s, n, data, nonblock, m, patient)
    ensures |s.results| > n ==> Takes(s.results[n], data, nonblock, m, patient)
  {
  }

  // ---------------------------------------------------------------- a call with no interrupt in between

  predicate Quiet(during: seq<Action>) { forall i :: 0 <= i < |during| ==> !during[i].Interrupt? }

  lemma {:induction false} QuietSendsNothing(txBuf: Buffer, before: seq<Action>, during: seq<Action>)
    requires Quiet(during)
    ensures Run(txBuf, before + during).ring.sent == Run(txBuf, before).ring.sent
    decreases |during|
  {
    hide Run, TxPass;
    if during == [] {
      assert before + during == before;
    } else {
      var earlier := during[..|during| - 1];
      QuietSendsNothing(txBuf, before, earlier);
      assert before + during == before + earlier + [during[|during| - 1]];
      RunOneMore(txBuf, before + earlier, during[|during| - 1]);
    }
  }

  /** Between two moments without a call in progress and without a byte sent, one more result says what entered the ring. */
  lemma ResultEnteredRing(s0: Transmit, s: Transmit, r: WriteResult)
    requires Inv(s0) && Inv(s) && s0.writer.pc == Idle && s.writer.pc == Idle
    requires s.results == s0.results + [r] && s.ring.sent == s0.ring.sent
    ensures Unsent(s.ring) == Unsent(s0.ring) + Accepted(r) && ResultOk(r)
  {
    hide Contents, Used;
    assert s.results[..|s0.results|] == s0.results && s.results[|s0.results|] == r;
    var sent, all := s.ring.sent, AllAccepted(s0.results);
    assert all + [] == all && all + Accepted(r) + [] == all + Accepted(r);
    assert sent + Unsent(s0.ring) + Accepted(r) == sent + (Unsent(s0.ring) + Accepted(r));
    assert (sent + Unsent(s.ring))[|sent|..] == Unsent(s.ring);
    assert (sent + (Unsent(s0.ring) + Accepted(r)))[|sent|..] == Unsent(s0.ring) + Accepted(r);
  }

  /** A write that returns without an interrupt in between has placed exactly what there was room for. */
  lemma QuietWriteIsExact(s0: Transmit, s: Transmit, r: WriteResult, data: seq<Byte>, nonblock: bool, patient: bool)
    requires Inv(s0) && Inv(s) && s0.writer.pc == Idle && s.writer.pc == Idle
    requires s.results == s0.results + [r] && s.ring.sent == s0.ring.sent
    requires Takes(r, data, nonblock, Room(s0.ring, data), patient)
    ensures var m := Room(s0.ring, data);
            && r == WriteResult(data, nonblock, if m > 0 then m else if nonblock then -EWOULDBLOCK else -EIO)
            && Unsent(s.ring) == Unsent(s0.ring) + data[..m]
  {
    hide Contents, Used, Inv;
    ResultEnteredRing(s0, s, r);
    UsedBound(s.ring.txOut, s.ring.txIn);
    assert |Unsent(s.ring)| == |Unsent(s0.ring)| + |Accepted(r)|;
    assert |Unsent(s.ring)| < BUF_LEN by { UnsentBound(s.ring); }
  }

  lemma UnsentBound(r: TxRing)
    ensures |Unsent(r)| < BUF_LEN
  {
  }

  /** The writer on its own; a wait is given up. */
  function Advances(k: nat): seq<Action> { seq(k, _ => Advance(true)) }

  function Rank(pc: WritePc): nat {
    match pc case Idle => 0 case Leave => 1 case Wait => 2 case Enable => 3 case Copy => 4 case SnapOut => 5 case SnapIn => 6
  }

  function Uncopied(w: Writer): nat { if w.n > w.copied then w.n - w.copied else 0 }
  function Left(w: Writer): nat { if |w.data| > w.ptr then |w.data| - w.ptr else 0 }

  lemma StepNearer(s: Transmit)
    requires Inv(s) && s.writer.pc != Idle && s.writer.pc != Leave
    ensures var s' := WriterStep(s, true);
            && s'.writer.pc != Idle && s'.results == s.results && Left(s'.writer) <= Left(s.writer)
            && (Left(s'.writer) == Left(s.writer) ==>
                  && Rank(s'.writer.pc) <= Rank(s.writer.pc)
                  && (Rank(s'.writer.pc) == Rank(s.writer.pc) ==> Uncopied(s'.writer) < Uncopied(s.writer)))
  {
    hide Contents, Used, Published;
  }

  /** Left to itself, a call in progress returns. */
  lemma {:induction false} CallReturns(txBuf: Buffer, actions: seq<Action>) returns (k: nat)
    requires Run(txBuf, actions).writer.pc != Idle
    ensures var s, s' := Run(txBuf, actions), Run(txBuf, actions + Advances(k));
            && s'.writer.pc == Idle && |s'.results| == |s.results| + 1 && s'.results[..|s.results|] == s.results
    decreases Left(Run(txBuf, actions).writer), Rank(Run(txBuf, actions).writer.pc), Uncopied(Run(txBuf, actions).writer)
  {
    hide Run, Inv;
    var s := Run(txBuf, actions);
    RunKeepsInv(txBuf, actions);
    RunOneMore(txBuf, actions, Advance(true));
    if s.writer.pc == Leave {
      k := 1;
      assert actions + Advances(1) == actions + [Advance(true)];
    } else {
      StepNearer(s);
      var k' := CallReturns(txBuf, actions + [Advance(true)]);
      k := k' + 1;
      assert actions + Advances(k) == actions + [Advance(true)] + Advances(k');
    }
  }

  /** A write call with no interrupt in between returns with exactly as many bytes as there was room for, which now stand
      behind the unsent ones; if there was none, with the error for its mode. */
  lemma WriteCompletes(txBuf: Buffer, before: seq<Action>, data: seq<Byte>, nonblock: bool) returns (k: nat)
    requires Run(txBuf, before).writer.pc == Idle
    ensures var s0, s := Run(txBuf, before), Run(txBuf, before + [Call(data, nonblock)] + Advances(k));
            var m := Room(s0.ring, data);
            var code := if m > 0 then m else if nonblock then -EWOULDBLOCK else -EIO;
            && s.writer.pc == Idle && s.results == s0.results + [WriteResult(data, nonblock, code)]
            && Unsent(s.ring) == Unsent(s0.ring) + data[..m]
  {
    hide Run, Inv, Takes, Kept, Contents, Room;
    var s0, called := Run(txBuf, before), before + [Call(data, nonblock)];
    RunOneMore(txBuf, before, Call(data, nonblock));
    k := CallReturns(txBuf, called);
    var s := Run(txBuf, called + Advances(k));
    WriteTakesWhatFits(txBuf, before, data, nonblock, Advances(k));
    var r := s.results[|s0.results|];
    assert s.results == s0.results + [r];
    RunKeepsInv(txBuf, before);
    RunKeepsInv(txBuf, called + Advances(k));
    QuietSendsNothing(txBuf, before, [Call(data, nonblock)] + Advances(k));
    assert before + ([Call(data, nonblock)] + Advances(k)) == called + Advances(k);
    QuietWriteIsExact(s0, s, r, data, nonblock, NeverQuit(Advances(k)));
  }
}
