/** Read transactions on the bit-banged bus: a repeated START, bytes clocked in from the slave, the master's acknowledge. */
module I2cRead {
  import opened Machine
  import opened I2cBus

  /** While the clock is low the slave puts its next bit on SDA; the master samples it with the clock high. */
  function ReadBit(b: Bus, bit: bool): Bus { SetScl(Log(SetScl(b, false).(slave := bit)), true) }

  function ReadBits(b: Bus, bits: seq<bool>): Bus
    decreases |bits|
  {
    if bits == [] then b else ReadBit(ReadBits(b, bits[..|bits| - 1]), bits[|bits| - 1])
  }

  /** iic_read, with the byte the slave sends */
  function ReadByte(b: Bus, dat: Byte): Bus { ReadBits(FreeSda(b, b.slave), BitsOf(dat, 8)) }

  /** master_send_ack and no_ack: a clock pulse with SDA low or high */
  function MasterAck(b: Bus, ack: bool): Bus { SetScl(SetScl(SetSda(DriveSda(SetScl(b, false)), !ack), true), false) }

  /** Every byte read is acknowledged, the last one too. */
  function ReadBytes(b: Bus, data: seq<Byte>): Bus
    decreases |data|
  {
    if data == [] then b else MasterAck(ReadByte(ReadBytes(b, data[..|data| - 1]), data[|data| - 1]), true)
  }

  /** The head of a random read: the address is written, then the slave is selected again for reading. */
  function Selected(b: Bus, head: seq<Byte>, cmd: Byte): Bus {
    AwaitAck(SendByte(Start(SendBytes(Start(b), head)), cmd), true)
  }

  /** eeprom_sequential_read up to its stop condition */
  function ReadTransaction(b: Bus, head: seq<Byte>, cmd: Byte, data: seq<Byte>): Bus {
    Stop(MasterAck(ReadBytes(Selected(b, head, cmd), data), false))
  }

  /** eeprom_read_byte: one byte, not acknowledged */
  function ReadOne(b: Bus, head: seq<Byte>, cmd: Byte, dat: Byte): Bus {
    Stop(MasterAck(ReadByte(Selected(b, head, cmd), dat), false))
  }

  // ---------------------------------------------------------------- what a decoder of the lines sees

  /** Between bytes: the clock is low. */
  ghost predicate Low(b: Bus) { InStep(b) && !b.scl }

  lemma RestartSeen(b: Bus)
    requires Low(b)
    ensures var b' := Start(b);
            && InStep(b') && b'.scl && !b'.sda && b'.driven && !View(b').steady
            && View(b').seen == View(b).seen + [StartCondition]
  {
    var b1 := DriveSda(b);
    var b2 := SetSda(b1, true);
    var b3 := SetScl(b2, true);
    LogObserved(b, b.(driven := true));
    LogObserved(b1, b1.(sda := true));
    LogObserved(b2, b2.(scl := true));
    LogObserved(b3, b3.(sda := false));
  }

  lemma ReadBitSeen(b: Bus, bit: bool)
    requires InStep(b) && !b.driven
    ensures var b' := ReadBit(b, bit);
            && InStep(b') && !b'.driven && b'.scl && View(b').steady && Line(b').sda == bit
            && Completed(View(b')) == Completed(View(b)) + [Bit(bit)]
  {
    var b1 := SetScl(b, false);
    var b2 := Log(b1.(slave := bit));
    LogObserved(b, b.(scl := false));
    LogObserved(b1, b1.(slave := bit));
    LogObserved(b2, b2.(scl := true));
  }

  lemma {:induction false} ReadBitsSeen(b: Bus, bits: seq<bool>)
    requires InStep(b) && !b.driven
    ensures var b' := ReadBits(b, bits);
            && InStep(b') && !b'.driven && (bits != [] ==> b'.scl && View(b').steady)
            && Completed(View(b')) == Completed(View(b)) + BitSymbols(bits)
    decreases |bits|
  {
    hide View, Completed, ReadBit;
    if bits == [] {
      assert Completed(View(b)) + [] == Completed(View(b));
    } else {
      var before, last := bits[..|bits| - 1], bits[|bits| - 1];
      ReadBitsSeen(b, before);
      ReadBitSeen(ReadBits(b, before), last);
      assert Completed(View(b)) + BitSymbols(before) + [Bit(last)]
          == Completed(View(b)) + (BitSymbols(before) + [Bit(last)]);
    }
  }

  lemma MasterAckSeen(b: Bus, ack: bool)
    requires InStep(b)
    ensures var b' := MasterAck(b, ack);
            Low(b') && View(b').seen == Completed(View(b)) + [Bit(!ack)]
  {
    var b1 := SetScl(b, false);
    var b2 := DriveSda(b1);
    var b3 := SetSda(b2, !ack);
    var b4 := SetScl(b3, true);
    LogObserved(b, b.(scl := false));
    LogObserved(b1, b1.(driven := true));
    LogObserved(b2, b2.(sda := !ack));
    LogObserved(b3, b3.(scl := true));
    LogObserved(b4, b4.(scl := false));
  }

  lemma FreeSeen(b: Bus)
    requires Low(b)
    ensures var b' := FreeSda(b, b.slave); InStep(b') && !b'.driven && Completed(View(b')) == View(b).seen
  {
    LogObserved(b, b.(driven := false, slave := b.slave));
  }

  lemma ByteReadSeen(b: Bus, dat: Byte)
    requires Low(b)
    ensures InStep(ReadByte(b, dat))
    ensures Completed(View(ReadByte(b, dat))) == View(b).seen + BitSymbols(BitsOf(dat, 8))
  {
    hide View, Completed, BitsOf, ReadBits;
    FreeSeen(b);
    ReadBitsSeen(FreeSda(b, b.slave), BitsOf(dat, 8));
  }

  /** Clocked bytes look to a decoder like written ones: eight bits and a low acknowledge bit each. */
  lemma {:induction false} BytesReadSeen(b: Bus, data: seq<Byte>)
    requires Low(b)
    ensures Low(ReadBytes(b, data)) && View(ReadBytes(b, data)).seen == View(b).seen + BytesSymbols(data)
    decreases |data|
  {
    hide View, Completed, BitsOf, ReadByte, MasterAck;
    if data == [] {
      assert View(b).seen + [] == View(b).seen;
    } else {
      var before, last := data[..|data| - 1], data[|data| - 1];
      BytesReadSeen(b, before);
      var b1 := ReadBytes(b, before);
      ByteReadSeen(b1, last);
      MasterAckSeen(ReadByte(b1, last), true);
      assert View(b).seen + BytesSymbols(before) + BitSymbols(BitsOf(last, 8)) + [Bit(false)]
          == View(b).seen + (BytesSymbols(before) + ByteSymbols(last));
    }
  }

  lemma LowAfterBytes(b: Bus, bytes: seq<Byte>)
    requires Ready(b) && bytes != []
    ensures Low(SendBytes(b, bytes)) && View(SendBytes(b, bytes)).seen == View(b).seen + BytesSymbols(bytes)
  {
    BytesSeen(b, bytes);
  }

  lemma SelectedSeen(b: Bus, head: seq<Byte>, cmd: Byte)
    requires Idle(b) && head != []
    ensures var b' := Selected(b, head, cmd);
            && Low(b')
            && View(b').seen
               == View(b).seen + ([StartCondition] + BytesSymbols(head) + [StartCondition] + BytesSymbols([cmd]))
  {
    hide View, Start, SendBytes, AwaitAck, SendByte, BytesSymbols;
    StartSeen(b);
    LowAfterBytes(Start(b), head);
    var b1 := SendBytes(Start(b), head);
    RestartSeen(b1);
    OneByte(Start(b1), cmd);
    LowAfterBytes(Start(b1), [cmd]);
    assert View(b).seen + [StartCondition] + BytesSymbols(head) + [StartCondition] + BytesSymbols([cmd])
        == View(b).seen + ([StartCondition] + BytesSymbols(head) + [StartCondition] + BytesSymbols([cmd]));
  }

  lemma OneByte(b: Bus, dat: Byte)
    ensures SendBytes(b, [dat]) == AwaitAck(SendByte(b, dat), true)
  {
    hide AwaitAck, SendByte;
    assert [dat][..0] == [];
    assert SendBytes(b, []) == b;
  }

  lemma EndSeen(b: Bus)
    requires InStep(b)
    ensures var b' := Stop(MasterAck(b, false));
            Idle(b') && View(b').seen == Completed(View(b)) + [Bit(true), StopCondition]
  {
    hide View, Completed, MasterAck, Stop;
    MasterAckSeen(b, false);
    StopSeen(MasterAck(b, false));
    assert Completed(View(b)) + [Bit(true)] + [StopCondition] == Completed(View(b)) + [Bit(true), StopCondition];
  }

  /** At any point of a sequential read a decoder has recovered the address, the repeated START and the bytes so far. */
  lemma ExchangeDecodes(b: Bus, head: seq<Byte>, cmd: Byte, data: seq<Byte>)
    requires Idle(b) && head != []
    ensures var b' := ReadBytes(Selected(b, head, cmd), data);
            MessagesSince(b, b') == [MStart] + Received(head) + [MStart] + Received([cmd]) + Received(data)
  {
    hide View, BytesSymbols, Messages, Received, Selected, ReadBytes;
    SelectedSeen(b, head, cmd);
    BytesReadSeen(Selected(b, head, cmd), data);
    var h, c, d := BytesSymbols(head), BytesSymbols([cmd]), BytesSymbols(data);
    var after := View(ReadBytes(Selected(b, head, cmd), data)).seen;
    var symbols := [StartCondition] + (h + ([StartCondition] + (c + d)));
    assert after == View(b).seen + ([StartCondition] + h + [StartCondition] + c) + d;
    assert after[|View(b).seen|..] == symbols;
    ConditionsDecode(h + ([StartCondition] + (c + d)));
    MessagesOfBytes(head, [StartCondition] + (c + d));
    ConditionsDecode(c + d);
    MessagesOfBytes([cmd], d);
    MessagesOfBytes(data, []);
    assert d + [] == d;
    NoMessages();
    assert [MStart] + (Received(head) + ([MStart] + (Received([cmd]) + (Received(data) + []))))
        == [MStart] + Received(head) + [MStart] + Received([cmd]) + Received(data);
  }

  /** What a sequential read puts on the lines: the address written, a repeated START, the bytes each with a low
      acknowledge bit, one more clocked bit that is high, and STOP. */
  lemma ReadTransactionSeen(b: Bus, head: seq<Byte>, cmd: Byte, data: seq<Byte>)
    requires Idle(b) && head != []
    ensures var b' := ReadTransaction(b, head, cmd, data);
            && Idle(b')
            && View(b').seen
               == View(b).seen + ([StartCondition] + BytesSymbols(head) + [StartCondition] + BytesSymbols([cmd])
                                  + BytesSymbols(data) + [Bit(true), StopCondition])
  {
    hide View, Completed, Selected, ReadBytes, MasterAck, Stop, BytesSymbols;
    SelectedSeen(b, head, cmd);
    var b1 := Selected(b, head, cmd);
    BytesReadSeen(b1, data);
    var b2 := ReadBytes(b1, data);
    LowCompleted(b2);
    EndSeen(b2);
    var a := [StartCondition] + BytesSymbols(head) + [StartCondition] + BytesSymbols([cmd]);
    assert View(b).seen + a + BytesSymbols(data) + [Bit(true), StopCondition]
        == View(b).seen + (a + BytesSymbols(data) + [Bit(true), StopCondition]);
  }

  lemma LowCompleted(b: Bus)
    requires Low(b)
    ensures Completed(View(b)) == View(b).seen
  {
  }

  lemma ReadOneSeen(b: Bus, head: seq<Byte>, cmd: Byte, dat: Byte)
    requires Idle(b) && head != []
    ensures var b' := ReadOne(b, head, cmd, dat);
            && Idle(b')
            && View(b').seen
               == View(b).seen + ([StartCondition] + BytesSymbols(head) + [StartCondition] + BytesSymbols([cmd])
                                  + BitSymbols(BitsOf(dat, 8)) + [Bit(true), StopCondition])
  {
    hide View, Completed, Selected, ReadByte, MasterAck, Stop, BytesSymbols, BitSymbols, BitsOf;
    SelectedSeen(b, head, cmd);
    ByteReadSeen(Selected(b, head, cmd), dat);
    EndSeen(ReadByte(Selected(b, head, cmd), dat));
    var a, bits := [StartCondition] + BytesSymbols(head) + [StartCondition] + BytesSymbols([cmd]), BitSymbols(BitsOf(dat, 8));
    assert View(b).seen + a + bits + [Bit(true), StopCondition]
        == View(b).seen + (a + bits + [Bit(true), StopCondition]);
  }

  /** A decoder recovers the whole exchange. The two symbols behind it are a clock pulse that belongs to no byte, since
      the last byte had been acknowledged already, and the STOP. */
  lemma ReadTransactionDecodes(b: Bus, head: seq<Byte>, cmd: Byte, data: seq<Byte>)
    requires Idle(b) && head != []
    ensures var b' := ReadTransaction(b, head, cmd, data);
            && Idle(b') && |View(b).seen| + 2 <= |View(b').seen|
            && var new_ := View(b').seen[|View(b).seen|..];
               && Messages(new_[..|new_| - 2]) == [MStart] + Received(head) + [MStart] + Received([cmd]) + Received(data)
               && new_[|new_| - 2..] == [Bit(true), StopCondition]
  {
    hide View, BytesSymbols, Messages, Received, ReadTransaction;
    ReadTransactionSeen(b, head, cmd, data);
    var new_ := View(ReadTransaction(b, head, cmd, data)).seen[|View(b).seen|..];
    var h, c, d := BytesSymbols(head), BytesSymbols([cmd]), BytesSymbols(data);
    var last := c + d;
    assert new_[..|new_| - 2] == [StartCondition] + (h + ([StartCondition] + last));
    ConditionsDecode(h + ([StartCondition] + last));
    MessagesOfBytes(head, [StartCondition] + last);
    ConditionsDecode(last);
    MessagesOfBytes([cmd], d);
    MessagesOfBytes(data, []);
    assert d + [] == d;
    NoMessages();
    assert [MStart] + (Received(head) + ([MStart] + (Received([cmd]) + (Received(data) + []))))
        == [MStart] + Received(head) + [MStart] + Received([cmd]) + Received(data);
  }

  lemma NoMessages()
    ensures Messages([]) == []
  {
  }

  // ---------------------------------------------------------------- what the master samples

  lemma ReadBitSamples(b: Bus, bit: bool)
    requires !b.driven
    ensures Line(ReadBit(b, bit)).sda == bit && !ReadBit(b, bit).driven
  {
  }

  lemma {:induction false} ReadBitsFront(b: Bus, bits: seq<bool>)
    requires bits != []
    ensures ReadBits(b, bits) == ReadBits(ReadBit(b, bits[0]), bits[1..])
    decreases |bits|
  {
    hide ReadBit;
    var before := bits[..|bits| - 1];
    if before != [] {
      ReadBitsFront(b, before);
      assert bits[1..][..|bits| - 2] == before[1..];
    } else {
      assert ReadBits(b, before) == b && bits[1..] == [];
    }
  }

  /** One turn of the shift loop: the slave's first bit is sampled, the others are still to come. */
  lemma SampleOneBit(b: Bus, rest: Byte, n: nat, acc: nat)
    requires n > 0
    ensures var bit, more := rest / 0x80 == 1, BitsOf((rest * 2) % 0x100, n - 1);
            && ReadBits(b, BitsOf(rest, n)) == ReadBits(ReadBit(b, bit), more)
            && ShiftIn(acc, BitsOf(rest, n)) == ShiftIn(2 * acc + (if bit then 1 else 0), more)
  {
    hide ReadBit, ReadBits;
    ReadBitsFront(b, BitsOf(rest, n));
    assert BitsOf(rest, n)[1..] == BitsOf((rest * 2) % 0x100, n - 1);
  }

  lemma NoneLeft(b: Bus, rest: Byte, acc: nat)
    ensures ReadBits(b, BitsOf(rest, 0)) == b && ShiftIn(acc, BitsOf(rest, 0)) == acc
  {
  }

  lemma {:induction false} ShiftInGrows(acc: nat, bits: seq<bool>)
    ensures ShiftIn(acc, bits) >= acc
    decreases |bits|
  {
    if bits != [] {
      ShiftInGrows(2 * acc + (if bits[0] then 1 else 0), bits[1..]);
    }
  }
}
