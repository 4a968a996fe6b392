/** The fast read and write calls of the JTAG UART driver as they run: loops over the driver's state block, with an
    interrupt let in after every access to it. Each call is proved to be a run of the steps of the two ring models. */
module JtagForeground {
  import opened Machine
  import opened JtagRing
  import R = JtagReceive
  import T = JtagTransmit
  import JtagReads
  import JtagWrites
  import opened JtagUart

  // ---------------------------------------------------------------- interrupts as actions of the models

  function RxActions(controls: seq<Word>): seq<R.Action>
    decreases |controls|
  {
    if controls == [] || !(ReadPending(controls[0]) || WritePending(controls[0])) then []
    else (if ReadPending(controls[0]) then [R.Interrupt] else []) + RxActions(controls[1..])
  }

  function TxActions(controls: seq<Word>): seq<T.Action>
    decreases |controls|
  {
    if controls == [] || !(ReadPending(controls[0]) || WritePending(controls[0])) then []
    else (if WritePending(controls[0]) then [T.Interrupt(controls[0])] else []) + TxActions(controls[1..])
  }

  lemma RxOneMore(buf: Buffer, hw: R.DataReads, as_: seq<R.Action>, a: R.Action)
    ensures R.Run(buf, hw, as_ + [a]) == R.Step(R.Run(buf, hw, as_), hw, a)
  {
    assert (as_ + [a])[..|as_|] == as_;
  }

  lemma TxOneMore(buf: Buffer, as_: seq<T.Action>, a: T.Action)
    ensures T.Run(buf, as_ + [a]) == T.Step(T.Run(buf, as_), a)
  {
    assert (as_ + [a])[..|as_|] == as_;
  }

  lemma RxOnePass(buf: Buffer, hw: R.DataReads, as_: seq<R.Action>)
    ensures var r := R.Run(buf, hw, as_); R.Run(buf, hw, as_ + [R.Interrupt]) == r.(ring := R.RxPass(r.ring, hw))
  {
    hide R.Run, R.RxPass;
    RxOneMore(buf, hw, as_, R.Interrupt);
  }

  lemma TxOnePass(buf: Buffer, as_: seq<T.Action>, control: Word)
    ensures var t := T.Run(buf, as_);
            T.Run(buf, as_ + [T.Interrupt(control)]) == t.(ring := T.TxPass(t.ring, WriteSpace(control)))
  {
    hide T.Run, T.TxPass;
    TxOneMore(buf, as_, T.Interrupt(control));
  }

  /** An interrupt is a few interrupt actions in each model. */
  lemma {:induction false} RxInterrupt(buf: Buffer, hw: R.DataReads, as_: seq<R.Action>, tx: T.TxRing,
                                       controls: seq<Word>)
    ensures var r := R.Run(buf, hw, as_);
            && R.Run(buf, hw, as_ + RxActions(controls)) == r.(ring := Passes(r.ring, tx, hw, controls).0)
            && R.Unread(r.ring) <= R.Unread(Passes(r.ring, tx, hw, controls).0)
    decreases |controls|
  {
    hide R.RxPass, T.TxPass, R.Run, R.Unread, ReadPending, WritePending, WriteSpace;
    if controls == [] || !(ReadPending(controls[0]) || WritePending(controls[0])) {
      assert as_ + [] == as_;
    } else {
      var tx' := if WritePending(controls[0]) then T.TxPass(tx, WriteSpace(controls[0])) else tx;
      var more := RxActions(controls[1..]);
      if ReadPending(controls[0]) {
        RxOnePass(buf, hw, as_);
        var k := R.RxPassIs(R.Run(buf, hw, as_).ring, hw);
        RxInterrupt(buf, hw, as_ + [R.Interrupt], tx', controls[1..]);
        assert as_ + ([R.Interrupt] + more) == as_ + [R.Interrupt] + more;
      } else {
        RxInterrupt(buf, hw, as_, tx', controls[1..]);
        assert [] + more == more;
      }
    }
  }

  lemma {:induction false} TxInterrupt(buf: Buffer, hw: R.DataReads, as_: seq<T.Action>, rx: R.RxRing,
                                       controls: seq<Word>)
    ensures var t := T.Run(buf, as_);
            T.Run(buf, as_ + TxActions(controls)) == t.(ring := Passes(rx, t.ring, hw, controls).1)
    decreases |controls|
  {
    hide R.RxPass, T.TxPass, T.Run, ReadPending, WritePending, WriteSpace;
    if controls == [] || !(ReadPending(controls[0]) || WritePending(controls[0])) {
      assert as_ + [] == as_;
    } else {
      var rx' := if ReadPending(controls[0]) then R.RxPass(rx, hw) else rx;
      var a, more := T.Interrupt(controls[0]), TxActions(controls[1..]);
      if WritePending(controls[0]) {
        TxOnePass(buf, as_, controls[0]);
        TxInterrupt(buf, hw, as_ + [a], rx', controls[1..]);
        assert as_ + ([a] + more) == as_ + [a] + more;
      } else {
        TxInterrupt(buf, hw, as_, rx', controls[1..]);
        assert [] + more == more;
      }
    }
  }

  /** A step of the copy moves one byte. */
  lemma CopyStep(s: R.Receive)
    requires s.reader.pc == R.Copy && |s.reader.staged| < s.reader.n && s.reader.outSnap + |s.reader.staged| < BUF_LEN
    ensures var b := s.ring.rxBuf[s.reader.outSnap + |s.reader.staged|];
            R.ReaderStep(s) == s.(reader := s.reader.(staged := s.reader.staged + [b]))
  {
  }

  /** No test of the timeout among these finds the host gone. */
  predicate HostStays(tests: seq<bool>) { forall i :: 0 <= i < |tests| ==> !tests[i] }

  /** What a completed read has returned, by the theorems about reads. */
  lemma ReadReturned(rxBuf: Buffer, hw: R.DataReads, before: seq<R.Action>, after: seq<R.Action>, want: int,
                     nonblock: bool, code: int, bytes: seq<Byte>)
    requires R.Run(rxBuf, hw, before).reader.pc == R.Idle && want > 0
    requires before + [R.Call(want, nonblock)] <= after && R.Run(rxBuf, hw, after).reader.pc == R.Idle
    requires R.Run(rxBuf, hw, after).results
          == R.Run(rxBuf, hw, before).results + [R.ReadResult(want, nonblock, code, bytes)]
    ensures var s0 := R.Run(rxBuf, hw, before);
            var waiting := JtagReads.Waiting(s0.ring, want);
            && waiting <= bytes
            && (R.Run(rxBuf, hw, after).ring.dataReads == s0.ring.dataReads ==> bytes == waiting)
  {
    hide R.Run, R.Inv, JtagReads.Kept, JtagReads.Waiting;
    var called := before + [R.Call(want, nonblock)];
    assert called + after[|called|..] == after;
    JtagReads.ReadReturnsWaiting(rxBuf, hw, before, want, nonblock, after[|called|..]);
    R.RunKeepsInv(rxBuf, hw, before);
    R.RunKeepsInv(rxBuf, hw, after);
    if R.Run(rxBuf, hw, after).ring.dataReads == R.Run(rxBuf, hw, before).ring.dataReads {
      JtagReads.QuietReadIsExact(R.Run(rxBuf, hw, before), R.Run(rxBuf, hw, after), hw,
                                 R.ReadResult(want, nonblock, code, bytes), want, nonblock);
    }
  }

  /** What a completed write has taken, by the theorems about writes. */
  lemma WriteTook(txBuf: Buffer, before: seq<T.Action>, after: seq<T.Action>, data: seq<Byte>, nonblock: bool, code: int)
    requires T.Run(txBuf, before).writer.pc == T.Idle && T.Run(txBuf, after).writer.pc == T.Idle
    requires before + [T.Call(data, nonblock)] <= after
    requires T.Run(txBuf, after).results == T.Run(txBuf, before).results + [T.WriteResult(data, nonblock, code)]
    ensures var s0 := T.Run(txBuf, before);
            var m := JtagWrites.Room(s0.ring, data);
            && (m > 0 ==> code >= m)
            && (T.Run(txBuf, after).ring.sent == s0.ring.sent ==>
                  code == if m > 0 then m else if nonblock then -EWOULDBLOCK else -EIO)
  {
    hide T.Run, T.Inv, JtagWrites.Kept, JtagWrites.Room;
    var called := before + [T.Call(data, nonblock)];
    var during := after[|called|..];
    assert called + during == after;
    JtagWrites.WriteTakesWhatFits(txBuf, before, data, nonblock, during);
    T.RunKeepsInv(txBuf, before);
    T.RunKeepsInv(txBuf, after);
    if T.Run(txBuf, after).ring.sent == T.Run(txBuf, before).ring.sent {
      JtagWrites.QuietWriteIsExact(T.Run(txBuf, before), T.Run(txBuf, after), T.WriteResult(data, nonblock, code), data,
                                   nonblock, JtagWrites.NeverQuit(during));
    }
  }

  class Foreground {
    const sp: UartState
    const hw: R.DataReads
    ghost const rxStart: Buffer
    ghost const txStart: Buffer
    /** Control words that the coming interrupts will read; an empty one stands for no interrupt at that point. */
    var interrupts: seq<seq<Word>>
    /** What the coming tests of host_inactive against the timeout will see, and those after a wait for space. Behind
        the end of these the host counts as gone when no interrupt is left that could end the wait. */
    var expired: seq<bool>
    var inactive: seq<bool>
    ghost var rxActions: seq<R.Action>
    ghost var txActions: seq<T.Action>

    ghost function Rx(): R.Receive
      reads this
    {
      R.Run(rxStart, hw, rxActions)
    }

    ghost function Tx(): T.Transmit
      reads this
    {
      T.Run(txStart, txActions)
    }

    /** The state block is in the state that the actions so far have led to. */
    ghost predicate Valid()
      reads this, sp, sp.rxBuf, sp.txBuf
    {
      sp.Valid() && sp.Rx() == Rx().ring && sp.Tx() == Tx().ring
    }

    constructor (hw: R.DataReads, interrupts: seq<seq<Word>>, expired: seq<bool>, inactive: seq<bool>)
      ensures Valid() && fresh(sp) && fresh(sp.rxBuf) && fresh(sp.txBuf)
      ensures this.hw == hw && this.interrupts == interrupts && this.expired == expired && this.inactive == inactive
      ensures rxActions == [] && txActions == []
    {
      var state := new UartState();
      sp := state;
      this.hw := hw;
      this.interrupts, this.expired, this.inactive := interrupts, expired, inactive;
      rxStart, txStart := state.rxBuf[..], state.txBuf[..];
      rxActions, txActions := [], [];
    }

    /** Actions are only ever added, and with no interrupt to come nothing is read from or given to the hardware. */
    twostate predicate Onward()
      reads this, sp
    {
      && old(rxActions) <= rxActions && old(txActions) <= txActions
      && (old(interrupts) == [] ==> interrupts == [] && sp.dataReads == old(sp.dataReads) && sp.sent == old(sp.sent))
    }

    /** A point at which the interrupt routine may run. */
    method Preempt()
      requires Valid()
      modifies this`interrupts, this`rxActions, this`txActions
      modifies sp`rxIn, sp`dataReads, sp`readIrq, sp.rxBuf, sp`txOut, sp`sent, sp`writeIrq
      ensures Valid() && Onward()
      ensures R.Unread(old(sp.Rx())) <= R.Unread(sp.Rx())
      ensures Rx() == old(Rx()).(ring := Rx().ring) && Tx() == old(Tx()).(ring := Tx().ring)
      ensures if old(interrupts) == [] then interrupts == [] && sp.Rx() == old(sp.Rx()) && sp.Tx() == old(sp.Tx())
              else interrupts == old(interrupts)[1..]
    {
      if interrupts != [] {
        var controls := interrupts[0];
        interrupts := interrupts[1..];
        RxInterrupt(rxStart, hw, rxActions, sp.Tx(), controls);
        TxInterrupt(txStart, hw, txActions, sp.Rx(), controls);
        sp.Irq(hw, controls);
        rxActions := rxActions + RxActions(controls);
        txActions := txActions + TxActions(controls);
      }
    }

    /** The reader's step that the state block has just taken, and a point for an interrupt behind it */
    method RxStep()
      requires sp.Valid() && sp.Rx() == R.ReaderStep(Rx()).ring && sp.Tx() == Tx().ring
      modifies this`interrupts, this`rxActions, this`txActions
      modifies sp`rxIn, sp`dataReads, sp`readIrq, sp.rxBuf, sp`txOut, sp`sent, sp`writeIrq
      ensures Valid() && Onward() && |interrupts| <= |old(interrupts)|
      ensures Rx() == R.ReaderStep(old(Rx())).(ring := Rx().ring) && Tx() == old(Tx()).(ring := Tx().ring)
      ensures R.Unread(old(sp.Rx())) <= R.Unread(sp.Rx())
      ensures sp.Rx() != old(sp.Rx()) || sp.Tx() != old(sp.Tx()) ==> |interrupts| < |old(interrupts)|
    {
      hide R.Run, T.Run, R.ReaderStep, R.Unread;
      RxOneMore(rxStart, hw, rxActions, R.Advance);
      assert R.Step(Rx(), hw, R.Advance) == R.ReaderStep(Rx());
      rxActions := rxActions + [R.Advance];
      Preempt();
    }

    /** The same for the writer */
    method TxStep()
      requires sp.Valid() && sp.Tx() == T.WriterStep(Tx(), false).ring && sp.Rx() == Rx().ring
      modifies this`interrupts, this`rxActions, this`txActions
      modifies sp`rxIn, sp`dataReads, sp`readIrq, sp.rxBuf, sp`txOut, sp`sent, sp`writeIrq
      ensures Valid() && Onward() && |interrupts| <= |old(interrupts)|
      ensures Tx() == T.WriterStep(old(Tx()), false).(ring := Tx().ring) && Rx() == old(Rx()).(ring := Rx().ring)
      ensures sp.Rx() != old(sp.Rx()) || sp.Tx() != old(sp.Tx()) ==> |interrupts| < |old(interrupts)|
    {
      hide R.Run, T.Run, T.WriterStep, R.Unread;
      TxOneMore(txStart, txActions, T.Advance(false));
      assert T.Step(Tx(), T.Advance(false)) == T.WriterStep(Tx(), false);
      txActions := txActions + [T.Advance(false)];
      Preempt();
    }

    /** One test of host_inactive against the timeout */
    method HostGone() returns (gone: bool)
      modifies this`expired
      ensures gone == if old(expired) == [] then interrupts == [] else old(expired)[0]
      ensures expired == if old(expired) == [] then [] else old(expired)[1..]
    {
      gone := if expired == [] then interrupts == [] else expired[0];
      expired := if expired == [] then [] else expired[1..];
    }

    /** So the refinement theorems speak about the state block itself, at any point of either call. */
    lemma Conserved()
      requires Valid()
      ensures R.Returned(Rx().results) + Rx().reader.got + R.Unread(sp.Rx()) == R.ValidBytes(hw, sp.dataReads)
      ensures Tx().writer.ptr <= |Tx().writer.data|
      ensures sp.sent + T.Unsent(sp.Tx()) == T.AllAccepted(Tx().results) + Tx().writer.data[..Tx().writer.ptr]
      ensures R.Honest(hw) && Rx().reader.pc == R.Idle && !sp.readIrq ==> R.Full(sp.Rx())
      ensures Tx().writer.pc == T.Idle && T.Unsent(sp.Tx()) != [] ==> sp.writeIrq
    {
      R.RunKeepsInv(rxStart, hw, rxActions);
      T.RunKeepsInv(txStart, txActions);
    }

    // -------------------------------------------------------------- reading

    /** What a read call leaves alone until it returns. */
    ghost function Others(): (seq<R.ReadResult>, T.Writer, seq<T.WriteResult>)
      reads this
    {
      (Rx().results, Tx().writer, Tx().results)
    }

    /** Where the read call in progress is; got is what it has put into the caller's buffer. */
    ghost predicate Reading(pc: R.ReadPc, want: int, space: int, nonblock: bool, got: seq<Byte>)
      reads this
    {
      var rd := Rx().reader;
      rd.pc == pc && rd.want == want && rd.space == space && rd.nonblock == nonblock && rd.got == got && rd.staged == []
    }

    /** The first snapshot */
    method SnapRxIn(want: int, space: int, nonblock: bool, ghost got: seq<Byte>) returns (in_: Index)
      requires Valid() && Reading(R.SnapIn, want, space, nonblock, got)
      modifies this`interrupts, this`rxActions, this`txActions
      modifies sp`rxIn, sp`dataReads, sp`readIrq, sp.rxBuf, sp`txOut, sp`sent, sp`writeIrq
      ensures Valid() && Others() == old(Others()) && |interrupts| <= |old(interrupts)|
      ensures Onward()
      ensures Reading(R.SnapOut, want, space, nonblock, got) && Rx().reader.inSnap == in_
      ensures sp.rxIn != in_ ==> |interrupts| < |old(interrupts)|
    {
      hide R.Run, T.Run, R.RxPass;
      in_ := sp.rxIn;
      RxStep();
    }

    /** The second snapshot and the number of bytes they allow */
    method SnapRxOut(in_: Index, want: int, space: int, nonblock: bool, ghost got: seq<Byte>)
      returns (out: Index, n: nat)
      requires Valid() && Reading(R.SnapOut, want, space, nonblock, got) && space > 0 && Rx().reader.inSnap == in_
      modifies this`interrupts, this`rxActions, this`txActions
      modifies sp`rxIn, sp`dataReads, sp`readIrq, sp.rxBuf, sp`txOut, sp`sent, sp`writeIrq
      ensures Valid() && Others() == old(Others()) && |interrupts| <= |old(interrupts)|
      ensures Onward()
      ensures n == 0 ==>
                && Rx().reader.inSnap == in_ == sp.rxOut
                && Reading(if got != [] || nonblock then R.Leave else R.Wait, want, space, nonblock, got)
                && (sp.rxIn != old(sp.rxIn) ==> |interrupts| < |old(interrupts)|)
      ensures n > 0 ==>
                && Reading(R.Copy, want, space, nonblock, got) && Rx().reader.outSnap == out && Rx().reader.n == n
                && n <= space && out + n <= BUF_LEN
    {
      hide R.Run, T.Run, R.RxPass;
      out := sp.rxOut;
      n := if in_ >= out then in_ - out else BUF_LEN - out;
      if n > space {
        n := space;
      }
      R.RunKeepsInv(rxStart, hw, rxActions);
      R.ReadableMeans(out, in_);
      RxStep();
    }

    /** One byte of the copy has been made; then an interrupt may run. */
    method CopiedByte(ghost rd: R.Reader, ghost staged: seq<Byte>, ghost b: Byte)
      requires Valid() && Rx().reader == rd.(staged := staged) && rd.pc == R.Copy
      requires |staged| < rd.n && rd.outSnap + |staged| < BUF_LEN && b == sp.rxBuf[rd.outSnap + |staged|]
      modifies this`interrupts, this`rxActions, this`txActions
      modifies sp`rxIn, sp`dataReads, sp`readIrq, sp.rxBuf, sp`txOut, sp`sent, sp`writeIrq
      ensures Valid() && Others() == old(Others()) && |interrupts| <= |old(interrupts)|
      ensures Onward()
      ensures Rx().reader == rd.(staged := staged + [b])
    {
      hide R.Run, T.Run, R.RxPass, R.ReaderStep, R.Unread;
      CopyStep(Rx());
      RxStep();
    }

    /** The copy out of the ring, byte by byte, and the update of rx_out that publishes it */
    method CopyOut(buffer: array<Byte>, ptr: nat, out: Index, n: nat, want: int, space: int, nonblock: bool)
      requires Valid() && buffer != sp.rxBuf && buffer != sp.txBuf
      requires 0 < n <= space && out + n <= BUF_LEN && ptr + n <= buffer.Length
      requires Reading(R.Copy, want, space, nonblock, buffer[..ptr])
      requires Rx().reader.outSnap == out && Rx().reader.n == n
      modifies this`interrupts, this`rxActions, this`txActions, buffer
      modifies sp`rxIn, sp`rxOut, sp`dataReads, sp`readIrq, sp.rxBuf, sp`txOut, sp`sent, sp`writeIrq
      ensures Valid() && Others() == old(Others()) && |interrupts| <= |old(interrupts)|
      ensures Onward()
      ensures Reading(if space - n > 0 then R.SnapIn else R.Leave, want, space - n, nonblock, buffer[..ptr + n])
    {
      hide R.Run, T.Run, R.RxPass;
      ghost var rd := Rx().reader;
      ghost var got := buffer[..ptr];
      for j := 0 to n
        invariant Valid() && Others() == old(Others()) && |interrupts| <= |old(interrupts)|
        invariant Onward()
        invariant buffer[..ptr] == got
        invariant Rx().reader == rd.(staged := buffer[ptr..ptr + j])
      {
        buffer[ptr + j] := sp.rxBuf[out + j];
        assert buffer[ptr..ptr + j + 1] == buffer[ptr..ptr + j] + [buffer[ptr + j]];
        CopiedByte(rd, buffer[ptr..ptr + j], buffer[ptr + j]);
      }
      assert buffer[..ptr + n] == got + buffer[ptr..ptr + n];
      sp.rxOut := (out + n) % BUF_LEN;
      RxStep();
    }

    /** The inner loop: all that can be read without waiting */
    method ReadAll(buffer: array<Byte>, want: int, nonblock: bool) returns (ptr: nat, space: int, in_: Index)
      requires Valid() && buffer != sp.rxBuf && buffer != sp.txBuf && 0 < want <= buffer.Length
      requires Reading(R.SnapIn, want, want, nonblock, [])
      modifies this`interrupts, this`rxActions, this`txActions, buffer
      modifies sp`rxIn, sp`rxOut, sp`dataReads, sp`readIrq, sp.rxBuf, sp`txOut, sp`sent, sp`writeIrq
      ensures Valid() && Others() == old(Others()) && |interrupts| <= |old(interrupts)|
      ensures Onward()
      ensures ptr + space == want && space >= 0
      ensures Reading(if ptr > 0 || nonblock then R.Leave else R.Wait, want, space, nonblock, buffer[..ptr])
      ensures ptr == 0 && !nonblock ==>
                Rx().reader.inSnap == in_ == sp.rxOut && (sp.rxIn != in_ ==> |interrupts| < |old(interrupts)|)
    {
      hide R.Run, T.Run, Valid, Others, Reading;
      ptr, space, in_ := 0, want, 0;
      while true
        invariant Valid() && Others() == old(Others()) && |interrupts| <= |old(interrupts)|
        invariant Onward()
        invariant ptr + space == want && space > 0
        invariant Reading(R.SnapIn, want, space, nonblock, buffer[..ptr])
        decreases space
      {
        in_ := SnapRxIn(want, space, nonblock, buffer[..ptr]);
        var out, n := SnapRxOut(in_, want, space, nonblock, buffer[..ptr]);
        if n == 0 {
          break;
        }
        CopyOut(buffer, ptr, out, n, want, space, nonblock);
        ptr := ptr + n;
        space := space - n;
        if space <= 0 {
          break;
        }
      }
    }

    /** Spinning until data arrive or the host is gone */
    method SpinForData(in_: Index)
      requires Valid()
      modifies this`interrupts, this`expired, this`rxActions, this`txActions
      modifies sp`rxIn, sp`dataReads, sp`readIrq, sp.rxBuf, sp`txOut, sp`sent, sp`writeIrq
      ensures Valid() && Others() == old(Others()) && |interrupts| <= |old(interrupts)|
      ensures Onward() && Rx().reader == old(Rx().reader)
      ensures sp.rxIn != old(sp.rxIn) ==> |interrupts| < |old(interrupts)|
      ensures HostStays(old(expired)) ==> HostStays(expired) && (expired != [] ==> in_ != sp.rxIn)
    {
      hide R.Run, T.Run;
      while in_ == sp.rxIn
        invariant Valid() && Others() == old(Others()) && |interrupts| <= |old(interrupts)|
        invariant Onward() && Rx().reader == old(Rx().reader)
        invariant sp.rxIn != old(sp.rxIn) ==> |interrupts| < |old(interrupts)|
        invariant HostStays(old(expired)) ==> HostStays(expired)
        decreases |interrupts| + |expired|
      {
        var gone := HostGone();
        if gone {
          break;
        }
        Preempt();
      }
    }

    /** The wait, and the test that follows it: it reads rx_in once more. */
    method AwaitData(in_: Index, want: int, space: int) returns (arrived: bool)
      requires Valid() && Reading(R.Wait, want, space, false, []) && Rx().reader.inSnap == in_ == sp.rxOut
      modifies this`interrupts, this`expired, this`rxActions, this`txActions
      modifies sp`rxIn, sp`dataReads, sp`readIrq, sp.rxBuf, sp`txOut, sp`sent, sp`writeIrq
      ensures Valid() && Others() == old(Others()) && |interrupts| <= |old(interrupts)|
      ensures Onward()
      ensures Reading(if arrived then R.SnapIn else R.Leave, want, space, false, [])
      ensures arrived && old(sp.rxIn) == in_ ==> |interrupts| < |old(interrupts)|
      ensures HostStays(old(expired)) ==> HostStays(expired) && (expired != [] ==> arrived)
    {
      hide R.Run, T.Run, R.RxPass;
      SpinForData(in_);
      ghost var came := in_ != sp.rxIn;
      assert came ==> R.Unread(sp.Rx()) != [];
      RxStep();
      assert came ==> R.Unread(sp.Rx()) != [];
      arrived := in_ != sp.rxIn;
      RxOneMore(rxStart, hw, rxActions, R.Advance);
      rxActions := rxActions + [R.Advance];
    }

    /** Re-enabling receive interrupts if anything was read, and the return code */
    method FinishRead(ptr: nat, want: int, space: int, nonblock: bool, ghost got: seq<Byte>) returns (code: int)
      requires Valid() && Reading(R.Leave, want, space, nonblock, got) && ptr == |got|
      modifies this`rxActions, sp`readIrq
      ensures Valid() && Rx().reader.pc == R.Idle && (Tx().writer, Tx().results) == old((Tx().writer, Tx().results))
      ensures Onward()
      ensures code == if ptr != 0 then ptr else if nonblock then -EWOULDBLOCK else -EIO
      ensures Rx().results == old(Rx().results) + [R.ReadResult(want, nonblock, code, got)]
    {
      hide R.Run, T.Run;
      if ptr != 0 {
        sp.readIrq := true;
      }
      RxOneMore(rxStart, hw, rxActions, R.Advance);
      rxActions := rxActions + [R.Advance];
      code := if ptr != 0 then ptr else if nonblock then -EWOULDBLOCK else -EIO;
    }

    /** altera_avalon_jtag_uart_read, as one complete read call of the receive model */
    method Read(buffer: array<Byte>, want: int, nonblock: bool) returns (code: int)
      requires Valid() && buffer != sp.rxBuf && buffer != sp.txBuf && want <= buffer.Length
      requires Rx().reader.pc == R.Idle
      modifies this`interrupts, this`expired, this`rxActions, this`txActions, buffer
      modifies sp`rxIn, sp`rxOut, sp`dataReads, sp`readIrq, sp.rxBuf, sp`txOut, sp`sent, sp`writeIrq
      ensures Valid() && Rx().reader.pc == R.Idle && (Tx().writer, Tx().results) == old((Tx().writer, Tx().results))
      ensures code <= buffer.Length
      ensures Rx().results
           == old(Rx().results) + [R.ReadResult(want, nonblock, code, buffer[..if code > 0 then code else 0])]
      ensures want > 0 ==>
                var waiting, bytes := JtagReads.Waiting(old(sp.Rx()), want), buffer[..if code > 0 then code else 0];
                waiting <= bytes && (old(interrupts) == [] ==> bytes == waiting)
      ensures want > 0 && !nonblock && HostStays(old(expired)) && expired != [] ==> code > 0
    {
      hide R.Run, T.Run, JtagReads.Waiting;
      ghost var before := rxActions;
      RxOneMore(rxStart, hw, rxActions, R.Call(want, nonblock));
      rxActions := rxActions + [R.Call(want, nonblock)];
      var ptr: nat, space := 0, want;
      assert buffer[..0] == [];
      while space > 0
        invariant Valid() && Others() == old(Others()) && ptr == 0 && space == want
        invariant before + [R.Call(want, nonblock)] <= rxActions && Onward()
        invariant HostStays(old(expired)) ==> HostStays(expired)
        invariant Onward()
        invariant Reading(if space > 0 then R.SnapIn else R.Leave, want, space, nonblock, buffer[..ptr])
        decreases |interrupts|
      {
        var in_: Index;
        ptr, space, in_ := ReadAll(buffer, want, nonblock);
        if ptr != 0 {
          break;
        }
        if nonblock {
          break;
        }
        var arrived := AwaitData(in_, want, space);
        if !arrived {
          break;
        }
      }
      code := FinishRead(ptr, want, space, nonblock, buffer[..ptr]);
      if want > 0 {
        ReadReturned(rxStart, hw, before, rxActions, want, nonblock, code, buffer[..ptr]);
      }
    }

    // -------------------------------------------------------------- writing

    /** What a write call leaves alone until it returns. */
    ghost function Elsewhere(): (R.Reader, seq<R.ReadResult>, seq<T.WriteResult>)
      reads this
    {
      (Rx().reader, Rx().results, Tx().results)
    }

    /** Where the write call in progress is; ptr bytes of its data are published. */
    ghost predicate Writing(pc: T.WritePc, data: seq<Byte>, ptr: nat, nonblock: bool)
      reads this
    {
      var w := Tx().writer;
      w.pc == pc && w.data == data && w.ptr == ptr && w.nonblock == nonblock
    }

    method SnapTxIn(data: seq<Byte>, ptr: nat, nonblock: bool) returns (in_: Index)
      requires Valid() && Writing(T.SnapIn, data, ptr, nonblock) && ptr < |data|
      modifies this`interrupts, this`rxActions, this`txActions
      modifies sp`rxIn, sp`dataReads, sp`readIrq, sp.rxBuf, sp`txOut, sp`sent, sp`writeIrq
      ensures Valid() && Elsewhere() == old(Elsewhere()) && |interrupts| <= |old(interrupts)|
      ensures Onward()
      ensures Writing(T.SnapOut, data, ptr, nonblock) && Tx().writer.inSnap == in_
    {
      hide R.Run, T.Run, T.TxPass;
      in_ := sp.txIn;
      TxStep();
    }

    /** The second snapshot and the three-way space computation */
    method SnapTxOut(in_: Index, data: seq<Byte>, ptr: nat, nonblock: bool) returns (out: Index, n: nat)
      requires Valid() && Writing(T.SnapOut, data, ptr, nonblock) && ptr < |data| && Tx().writer.inSnap == in_
      modifies this`interrupts, this`rxActions, this`txActions
      modifies sp`rxIn, sp`dataReads, sp`readIrq, sp.rxBuf, sp`txOut, sp`sent, sp`writeIrq
      ensures Valid() && Elsewhere() == old(Elsewhere()) && |interrupts| <= |old(interrupts)|
      ensures Onward()
      ensures n == 0 ==>
                Writing(T.Enable, data, ptr, nonblock) && (sp.txOut != out ==> |interrupts| < |old(interrupts)|)
      ensures n > 0 ==>
                && Writing(T.Copy, data, ptr, nonblock)
                && Tx().writer.inSnap == in_ && Tx().writer.n == n && Tx().writer.copied == 0
                && ptr + n <= |data| && in_ + n <= BUF_LEN
    {
      hide R.Run, T.Run, T.TxPass;
      out := sp.txOut;
      if in_ < out {
        n := out - 1 - in_;
      } else if out > 0 {
        n := BUF_LEN - in_;
      } else {
        n := BUF_LEN - 1 - in_;
      }
      if n > |data| - ptr {
        n := |data| - ptr;
      }
      T.RunKeepsInv(txStart, txActions);
      T.WritableLeavesOneSlot(out, in_);
      TxStep();
    }

    /** One byte into the ring; then an interrupt may run. */
    method CopyByte(ghost w: T.Writer, to: Index, b: Byte, ghost j: nat)
      requires Valid() && Tx().writer == w.(copied := j) && w.pc == T.Copy && j < w.n
      requires to == w.inSnap + j && w.ptr + j < |w.data| && b == w.data[w.ptr + j]
      modifies this`interrupts, this`rxActions, this`txActions
      modifies sp`rxIn, sp`dataReads, sp`readIrq, sp.rxBuf, sp`txOut, sp.txBuf, sp`sent, sp`writeIrq
      ensures Valid() && Elsewhere() == old(Elsewhere()) && |interrupts| <= |old(interrupts)|
      ensures Onward()
      ensures Tx().writer == w.(copied := j + 1)
    {
      hide R.Run, T.Run, T.TxPass;
      sp.txBuf[to] := b;
      TxStep();
    }

    /** The copy into the ring and the update of tx_in that publishes it */
    method CopyIn(data: seq<Byte>, ptr: nat, in_: Index, n: nat, nonblock: bool)
      requires Valid() && 0 < n && ptr + n <= |data| && in_ + n <= BUF_LEN
      requires Writing(T.Copy, data, ptr, nonblock)
      requires Tx().writer.inSnap == in_ && Tx().writer.n == n && Tx().writer.copied == 0
      modifies this`interrupts, this`rxActions, this`txActions
      modifies sp`rxIn, sp`dataReads, sp`readIrq, sp.rxBuf, sp`txIn, sp`txOut, sp.txBuf, sp`sent, sp`writeIrq
      ensures Valid() && Elsewhere() == old(Elsewhere()) && |interrupts| <= |old(interrupts)|
      ensures Onward()
      ensures Writing(T.SnapIn, data, ptr + n, nonblock)
    {
      hide R.Run, T.Run, T.TxPass;
      ghost var w := Tx().writer;
      for j := 0 to n
        invariant Valid() && Elsewhere() == old(Elsewhere()) && |interrupts| <= |old(interrupts)|
        invariant Onward()
        invariant Tx().writer == w.(copied := j)
      {
        CopyByte(w, in_ + j, data[ptr + j], j);
      }
      sp.txIn := (in_ + n) % BUF_LEN;
      TxStep();
    }

    /** The inner loop: all that fits now, then the request for a transmit interrupt */
    method WriteAll(data: seq<Byte>, ptr0: nat, nonblock: bool) returns (ptr: nat, out: Index)
      requires Valid() && Writing(T.SnapIn, data, ptr0, nonblock) && ptr0 <= |data|
      modifies this`interrupts, this`rxActions, this`txActions
      modifies sp`rxIn, sp`dataReads, sp`readIrq, sp.rxBuf, sp`txIn, sp`txOut, sp.txBuf, sp`sent, sp`writeIrq
      ensures Valid() && Elsewhere() == old(Elsewhere()) && |interrupts| <= |old(interrupts)|
      ensures Onward()
      ensures ptr0 <= ptr <= |data|
      ensures Writing(if ptr < |data| && !nonblock then T.Wait else T.Leave, data, ptr, nonblock)
      ensures ptr < |data| && sp.txOut != out ==> |interrupts| < |old(interrupts)|
    {
      hide R.Run, T.Run, Valid, Elsewhere, Writing;
      ptr, out := ptr0, 0;
      ghost var pc := T.SnapIn;
      while ptr < |data|
        invariant Valid() && Elsewhere() == old(Elsewhere()) && |interrupts| <= |old(interrupts)|
        invariant Onward()
        invariant ptr0 <= ptr <= |data| && Writing(T.SnapIn, data, ptr, nonblock) && pc == T.SnapIn
        decreases |data| - ptr
      {
        var in_ := SnapTxIn(data, ptr, nonblock);
        var n: nat;
        out, n := SnapTxOut(in_, data, ptr, nonblock);
        if n == 0 {
          pc := T.Enable;
          break;
        }
        CopyIn(data, ptr, in_, n, nonblock);
        ptr := ptr + n;
      }
      EnableWrites(data, ptr, nonblock, pc);
    }

    /** Interrupts are enabled on every round, whether or not anything is left. */
    method EnableWrites(data: seq<Byte>, ptr: nat, nonblock: bool, ghost pc: T.WritePc)
      requires Valid() && Writing(pc, data, ptr, nonblock) && ptr <= |data|
      requires pc == T.Enable || (pc == T.SnapIn && ptr == |data|)
      modifies this`txActions, sp`writeIrq
      ensures Valid() && Elsewhere() == old(Elsewhere())
      ensures Onward()
      ensures Writing(if ptr < |data| && !nonblock then T.Wait else T.Leave, data, ptr, nonblock)
    {
      hide R.Run, T.Run;
      if pc == T.SnapIn {
        TxOneMore(txStart, txActions, T.Advance(false));
        txActions := txActions + [T.Advance(false)];
      }
      sp.writeIrq := true;
      TxOneMore(txStart, txActions, T.Advance(false));
      txActions := txActions + [T.Advance(false)];
    }

    /** Spinning until the interrupt routine has taken something or the host is gone */
    method SpinForSpace(out: Index)
      requires Valid()
      modifies this`interrupts, this`expired, this`rxActions, this`txActions
      modifies sp`rxIn, sp`dataReads, sp`readIrq, sp.rxBuf, sp`txOut, sp`sent, sp`writeIrq
      ensures Valid() && Elsewhere() == old(Elsewhere()) && Tx().writer == old(Tx().writer)
      ensures Onward()
      ensures |interrupts| <= |old(interrupts)|
      ensures sp.txOut != old(sp.txOut) ==> |interrupts| < |old(interrupts)|
    {
      hide R.Run, T.Run;
      while out == sp.txOut
        invariant Valid() && Elsewhere() == old(Elsewhere()) && Tx().writer == old(Tx().writer)
        invariant Onward()
        invariant |interrupts| <= |old(interrupts)|
        invariant sp.txOut != old(sp.txOut) ==> |interrupts| < |old(interrupts)|
        decreases |interrupts| + |expired|
      {
        var gone := HostGone();
        if gone {
          break;
        }
        Preempt();
      }
      Preempt();
    }

    /** The wait and the test of host_inactive that follows it */
    method AwaitSpace(out: Index, data: seq<Byte>, ptr: nat) returns (quit: bool)
      requires Valid() && Writing(T.Wait, data, ptr, false)
      modifies this`interrupts, this`expired, this`inactive, this`rxActions, this`txActions
      modifies sp`rxIn, sp`dataReads, sp`readIrq, sp.rxBuf, sp`txOut, sp`sent, sp`writeIrq
      ensures Valid() && Elsewhere() == old(Elsewhere()) && |interrupts| <= |old(interrupts)|
      ensures Onward()
      ensures Writing(if quit then T.Leave else T.SnapIn, data, ptr, false)
      ensures quit == if old(inactive) == [] then out == sp.txOut else old(inactive)[0]
      ensures inactive == if old(inactive) == [] then [] else old(inactive)[1..]
      ensures !quit && old(sp.txOut) == out ==> |interrupts| + |inactive| < |old(interrupts)| + |old(inactive)|
    {
      hide R.Run, T.Run, T.TxPass;
      SpinForSpace(out);
      quit := if inactive == [] then out == sp.txOut else inactive[0];
      inactive := if inactive == [] then [] else inactive[1..];
      TxOneMore(txStart, txActions, T.Advance(quit));
      txActions := txActions + [T.Advance(quit)];
    }

    /** The return code */
    method FinishWrite(data: seq<Byte>, ptr: nat, nonblock: bool) returns (code: int)
      requires Valid() && Writing(T.Leave, data, ptr, nonblock)
      modifies this`txActions
      ensures Valid() && Tx().writer.pc == T.Idle && (Rx().reader, Rx().results) == old((Rx().reader, Rx().results))
      ensures Onward()
      ensures code == if ptr != 0 then ptr else if nonblock then -EWOULDBLOCK else -EIO
      ensures Tx().results == old(Tx().results) + [T.WriteResult(data, nonblock, code)]
    {
      hide R.Run, T.Run;
      TxOneMore(txStart, txActions, T.Advance(false));
      txActions := txActions + [T.Advance(false)];
      code := if ptr != 0 then ptr else if nonblock then -EWOULDBLOCK else -EIO;
    }

    /** altera_avalon_jtag_uart_write, as one complete write call of the transmit model */
    method Write(data: seq<Byte>, nonblock: bool) returns (code: int)
      requires Valid() && Tx().writer.pc == T.Idle
      modifies this`interrupts, this`expired, this`inactive, this`rxActions, this`txActions
      modifies sp`rxIn, sp`dataReads, sp`readIrq, sp.rxBuf, sp`txIn, sp`txOut, sp.txBuf, sp`sent, sp`writeIrq
      ensures Valid() && Tx().writer.pc == T.Idle && (Rx().reader, Rx().results) == old((Rx().reader, Rx().results))
      ensures Tx().results == old(Tx().results) + [T.WriteResult(data, nonblock, code)]
      ensures var m := JtagWrites.Room(old(sp.Tx()), data);
              && (m > 0 ==> code >= m)
              && (old(interrupts) == [] ==> code == if m > 0 then m else if nonblock then -EWOULDBLOCK else -EIO)
      ensures data != [] && !nonblock && HostStays(old(inactive)) && inactive != [] ==> code == |data|
    {
      hide R.Run, T.Run, JtagWrites.Room;
      ghost var before := txActions;
      TxOneMore(txStart, txActions, T.Call(data, nonblock));
      txActions := txActions + [T.Call(data, nonblock)];
      var ptr: nat := 0;
      while true
        invariant Valid() && Elsewhere() == old(Elsewhere())
        invariant before + [T.Call(data, nonblock)] <= txActions && Onward()
        invariant ptr <= |data| && Writing(T.SnapIn, data, ptr, nonblock)
        invariant HostStays(old(inactive)) ==> HostStays(inactive)
        decreases |interrupts| + |inactive|
      {
        var out: Index;
        ptr, out := WriteAll(data, ptr, nonblock);
        if ptr == |data| {
          break;
        }
        if nonblock {
          break;
        }
        var quit := AwaitSpace(out, data, ptr);
        if quit {
          break;
        }
      }
      code := FinishWrite(data, ptr, nonblock);
      WriteTook(txStart, before, txActions, data, nonblock, code);
    }
  }
}
