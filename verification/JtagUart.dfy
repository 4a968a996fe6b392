/** The interrupt routine of the JTAG UART driver on the driver's own state block, proved against the passes of
    the two ring models, so that what holds for their interrupt steps holds for it. */
module JtagUart {
  import opened Machine
  import opened JtagRing
  import opened JtagReceive
  import T = JtagTransmit

  /** What the routine does with the control words it reads: it returns at the first one that asks for nothing. */
  function Passes(rx: RxRing, tx: T.TxRing, hw: DataReads, controls: seq<Word>): (RxRing, T.TxRing)
    decreases |controls|
  {
    if controls == [] || !(ReadPending(controls[0]) || WritePending(controls[0])) then (rx, tx)
    else
      var rx' := if ReadPending(controls[0]) then RxPass(rx, hw) else rx;
      var tx' := if WritePending(controls[0]) then T.TxPass(tx, WriteSpace(controls[0])) else tx;
      Passes(rx', tx', hw, controls[1..])
  }

  /** One round of the routine serves just what its control word asks for: bit 8 the ring with what the hardware holds,
      bit 9 the hardware with as much of the other ring as it has space for; a word with neither ends the routine. */
  lemma RoundServes(rx: RxRing, tx: T.TxRing, hw: DataReads, control: Word)
    ensures var (rx', tx') := Passes(rx, tx, hw, [control]);
            var ri, wi, space := (control / 0x100) % 2 == 1, (control / 0x200) % 2 == 1, control / 0x1_0000;
            var n := if space < |T.Unsent(tx)| then space else |T.Unsent(tx)|;
            && (!ri ==> rx' == rx) && (!wi ==> tx' == tx)
            && (ri && |Unread(rx)| < BUF_LEN - 1 && DataValid(hw(rx.dataReads)) ==>
                  Unread(rx) + [hw(rx.dataReads) % 0x100] <= Unread(rx'))
            && (wi ==> tx'.sent == tx.sent + T.Unsent(tx)[..n] && T.Unsent(tx') == T.Unsent(tx)[n..])
  {
    hide RxPass, T.TxPass, Contents;
    var ri, wi := ReadPending(control), WritePending(control);
    if ri {
      var k := RxPassIs(rx, hw);
      if |Unread(rx)| < BUF_LEN - 1 && DataValid(hw(rx.dataReads)) {
        assert k > 0;
        OneMoreRead(hw, rx.dataReads, k - 1);
      }
    }
    if wi {
      T.TxPassIs(tx, WriteSpace(control));
    }
    assert [control][1..] == [];
    if ri || wi {
      assert Passes(rx, tx, hw, [control])
          == (if ri then RxPass(rx, hw) else rx, if wi then T.TxPass(tx, WriteSpace(control)) else tx);
    }
  }

  /** Both rings survive a whole interrupt, whatever the foreground was in the middle of. */
  lemma {:induction false} IrqKeepsInvariants(s: Receive, t: T.Transmit, hw: DataReads, controls: seq<Word>)
    requires Inv(s, hw) && T.Inv(t)
    ensures var (rx, tx) := Passes(s.ring, t.ring, hw, controls);
            Inv(s.(ring := rx), hw) && T.Inv(t.(ring := tx))
    decreases |controls|
  {
    if controls != [] && (ReadPending(controls[0]) || WritePending(controls[0])) {
      InterruptKeepsInv(s, hw);
      T.InterruptKeepsInv(t, controls[0]);
      var s' := if ReadPending(controls[0]) then Step(s, hw, Interrupt) else s;
      var t' := if WritePending(controls[0]) then T.Step(t, T.Interrupt(controls[0])) else t;
      IrqKeepsInvariants(s', t', hw, controls[1..]);
      assert s'.(ring := Passes(s'.ring, t'.ring, hw, controls[1..]).0)
          == s.(ring := Passes(s.ring, t.ring, hw, controls).0);
      assert t'.(ring := Passes(s'.ring, t'.ring, hw, controls[1..]).1)
          == t.(ring := Passes(s.ring, t.ring, hw, controls).1);
    }
  }

  /** The driver state block. The device side is kept beside it: how often DATA was read, what was written to it. */
  class UartState {
    var rxIn: Index
    var rxOut: Index
    var txIn: Index
    var txOut: Index
    const rxBuf: array<Byte>
    const txBuf: array<Byte>
    var readIrq: bool
    var writeIrq: bool
    var dataReads: nat
    var sent: seq<Byte>

    ghost predicate Valid() {
      rxBuf.Length == BUF_LEN && txBuf.Length == BUF_LEN && rxBuf != txBuf
    }

    ghost function Rx(): RxRing
      requires Valid()
      reads this, rxBuf
    {
      RxRing(rxIn, rxOut, rxBuf[..], readIrq, dataReads)
    }

    ghost function Tx(): T.TxRing
      requires Valid()
      reads this, txBuf
    {
      T.TxRing(txIn, txOut, txBuf[..], writeIrq, sent)
    }

    /** Driver initialisation: both rings empty, only receive interrupts on. */
    constructor ()
      ensures Valid() && fresh(rxBuf) && fresh(txBuf)
      ensures Rx() == Initial(rxBuf[..]).ring && Tx() == T.Initial(txBuf[..]).ring
    {
      rxBuf := new Byte[BUF_LEN](_ => 0);
      txBuf := new Byte[BUF_LEN](_ => 0);
      rxIn, rxOut, txIn, txOut := 0, 0, 0, 0;
      readIrq, writeIrq := true, false;
      dataReads, sent := 0, [];
    }

    method ReceivePending(hw: DataReads)
      requires Valid()
      modifies this`rxIn, this`dataReads, this`readIrq, rxBuf
      ensures Valid()
      ensures Rx() == RxPass(old(Rx()), hw)
    {
      var data: Word := 0x1_0000;
      while true
        invariant Valid()
        invariant Fill(Rx(), hw, data) == Fill(old(Rx()), hw, 0x1_0000)
        invariant rxOut == old(rxOut) && readIrq == old(readIrq)
        decreases BUF_LEN - Used(rxOut, rxIn)
      {
        ghost var before := Rx();
        var next := (rxIn + 1) % BUF_LEN;
        if next == rxOut {
          break;
        }
        data := hw(dataReads);
        dataReads := dataReads + 1;
        if !DataValid(data) {
          assert Fill(before, hw, 0) == (Rx(), data);
          break;
        }
        rxBuf[rxIn] := DataByte(data);
        rxIn := (rxIn + 1) % BUF_LEN;
        assert Rx() == Store(before, DataByte(data));
      }
      if DataAvail(data) != 0 {
        readIrq := false;
      }
    }

    method TransmitPending(space0: nat)
      requires Valid()
      modifies this`txOut, this`sent, this`writeIrq
      ensures Tx() == T.TxPass(old(Tx()), space0)
    {
      var space := space0;
      while space > 0 && txOut != txIn
        invariant T.Drain(Tx(), space) == T.Drain(old(Tx()), space0)
        invariant txIn == old(txIn) && writeIrq == old(writeIrq)
      {
        sent := sent + [txBuf[txOut]];
        txOut := (txOut + 1) % BUF_LEN;
        space := space - 1;
      }
      if space > 0 {
        writeIrq := false;
      }
    }

    /** altera_avalon_jtag_uart_irq; controls are the control words it reads. */
    method Irq(hw: DataReads, controls: seq<Word>)
      requires Valid()
      modifies this`rxIn, this`dataReads, this`readIrq, rxBuf, this`txOut, this`sent, this`writeIrq
      ensures Valid()
      ensures (Rx(), Tx()) == Passes(old(Rx()), old(Tx()), hw, controls)
    {
      var i := 0;
      while i < |controls| && (ReadPending(controls[i]) || WritePending(controls[i]))
        invariant 0 <= i <= |controls|
        invariant Passes(Rx(), Tx(), hw, controls[i..]) == Passes(old(Rx()), old(Tx()), hw, controls)
      {
        ghost var rest := controls[i..];
        assert rest[0] == controls[i] && rest[1..] == controls[i + 1..];
        if ReadPending(controls[i]) {
          ReceivePending(hw);
        }
        if WritePending(controls[i]) {
          TransmitPending(WriteSpace(controls[i]));
        }
        i := i + 1;
      }
    }
  }
}
