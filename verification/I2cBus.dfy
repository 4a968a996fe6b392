/** The bit-banged I2C bus: what the EEPROM code drives onto SDA and SCL, and what a slave makes of it. */
module I2cBus {
  import opened Machine

  /** Levels of the two lines after a pin register was written. */
  datatype Level = Level(scl: bool, sda: bool)

  /** Pin registers: SCL, SDA, and whether SDA is driven; the trace records the lines after every write. While SDA is
      an input the line shows what the slave does with it. */
  datatype Bus = Bus(scl: bool, sda: bool, driven: bool, slave: bool, trace: seq<Level>)

  function Line(b: Bus): Level { Level(b.scl, if b.driven then b.sda else b.slave) }
  function Log(b: Bus): Bus { b.(trace := b.trace + [Line(b)]) }
  function SetScl(b: Bus, v: bool): Bus { Log(b.(scl := v)) }
  function SetSda(b: Bus, v: bool): Bus { Log(b.(sda := v)) }
  function DriveSda(b: Bus): Bus { Log(b.(driven := true)) }
  function FreeSda(b: Bus, slave: bool): Bus { Log(b.(driven := false, slave := slave)) }

  function Start(b: Bus): Bus { SetSda(SetScl(SetSda(DriveSda(b), true), true), false) }
  function Stop(b: Bus): Bus { SetSda(SetScl(SetScl(SetSda(DriveSda(b), false), false), true), true) }

  /** wait_slave_ack: a slave that does not pull SDA low makes the master issue a stop. */
  function AwaitAck(b: Bus, acked: bool): Bus {
    var clocked := SetScl(SetScl(FreeSda(SetScl(b, false), !acked), true), false);
    if acked then clocked else Stop(clocked)
  }

  function SendBit(b: Bus, bit: bool): Bus { SetScl(SetSda(SetScl(b, false), bit), true) }

  function SendBits(b: Bus, bits: seq<bool>): Bus {
    if bits == [] then b else SendBit(SendBits(b, bits[..|bits| - 1]), bits[|bits| - 1])
  }

  /** The first n bits of a byte, most significant first, as the shift loop takes them. */
  function BitsOf(dat: Byte, n: nat): (bits: seq<bool>)
    ensures |bits| == n
    decreases n
  {
    if n == 0 then [] else [dat / 0x80 == 1] + BitsOf((dat * 2) % 0x100, n - 1)
  }

  /** iic_write */
  function SendByte(b: Bus, dat: Byte): Bus { SendBits(DriveSda(b), BitsOf(dat, 8)) }

  function SendBytes(b: Bus, bytes: seq<Byte>): Bus {
    if bytes == [] then b else AwaitAck(SendByte(SendBytes(b, bytes[..|bytes| - 1]), bytes[|bytes| - 1]), true)
  }

  /** A write transaction in which the slave acknowledges every byte. */
  function WriteTransaction(b: Bus, bytes: seq<Byte>): Bus { Stop(SendBytes(Start(b), bytes)) }

  // ---------------------------------------------------------------- the slave, per UM10204 sections 3.1.3 to 3.1.6

  datatype Symbol = StartCondition | StopCondition | Bit(b: bool)

  /** What a slave knows: the lines, whether SDA kept still since the clock rose, and the symbols seen. */
  datatype Slave = Slave(line: Level, steady: bool, seen: seq<Symbol>)

  /** SDA falling or rising while SCL stays high is a START or STOP condition; a clock pulse during which SDA keeps
      still carries one bit, complete when the clock falls. */
  function Observe(s: Slave, l: Level): Slave {
    if s.line.scl && l.scl then
      if s.line.sda == l.sda then s
      else Slave(l, false, s.seen + [if l.sda then StopCondition else StartCondition])
    else if l.scl then Slave(l, true, s.seen)
    else Slave(l, false, Completed(s))
  }

  /** The symbols seen once the clock pulse in progress is over. */
  function Completed(s: Slave): seq<Symbol> {
    if s.line.scl && s.steady then s.seen + [Bit(s.line.sda)] else s.seen
  }

  function ObserveAll(s: Slave, trace: seq<Level>): Slave {
    if trace == [] then s else Observe(ObserveAll(s, trace[..|trace| - 1]), trace[|trace| - 1])
  }

  datatype Message = MStart | MStop | MByte(data: Byte, acked: bool)

  /** A shift register taking in bits from the right. */
  function ShiftIn(acc: nat, bits: seq<bool>): nat
    decreases |bits|
  {
    if bits == [] then acc else ShiftIn(2 * acc + (if bits[0] then 1 else 0), bits[1..])
  }

  predicate NineBits(symbols: seq<Symbol>) {
    |symbols| >= 9 && forall i :: 0 <= i < 9 ==> symbols[i].Bit?
  }

  /** Groups symbols into bytes of eight bits, most significant first, each followed by an acknowledge bit. */
  function Messages(symbols: seq<Symbol>): seq<Message> {
    if symbols == [] then []
    else match symbols[0]
      case StartCondition => [MStart] + Messages(symbols[1..])
      case StopCondition => [MStop] + Messages(symbols[1..])
      case Bit(_) =>
        if NineBits(symbols) then
          var data := ShiftIn(0, seq(8, i requires 0 <= i < 8 => symbols[i].b));
          [MByte(data % 0x100, !symbols[8].b)] + Messages(symbols[9..])
        else []
  }

  // ---------------------------------------------------------------- what the slave sees of each step

  const IDLE := Slave(Level(true, true), false, [])

  /** The slave after everything on the bus so far, starting from an idle bus. */
  function View(b: Bus): Slave { ObserveAll(IDLE, b.trace) }

  /** What a slave has decoded since the lines were as in `before`. */
  function MessagesSince(before: Bus, now: Bus): seq<Message> {
    var old_, seen := View(before).seen, View(now).seen;
    if |old_| <= |seen| then Messages(seen[|old_|..]) else []
  }

  /** The slave and the master agree on the lines. */
  ghost predicate InStep(b: Bus) { View(b).line == Line(b) }

  /** The bus between transactions: both lines high, SDA driven by the master, no clock pulse in progress. */
  ghost predicate Idle(b: Bus) { InStep(b) && b.scl && b.sda && b.driven && !View(b).steady }

  lemma LogObserved(b: Bus, b': Bus)
    requires b'.trace == b.trace
    ensures View(Log(b')) == Observe(View(b), Line(b')) && InStep(Log(b'))
  {
    var t := Log(b').trace;
    assert t[..|t| - 1] == b.trace;
  }

  lemma StartSeen(b: Bus)
    requires Idle(b)
    ensures var b' := Start(b);
            && InStep(b') && b'.scl && !b'.sda && b'.driven && !View(b').steady
            && View(b').seen == View(b).seen + [StartCondition]
  {
    var b1 := DriveSda(b);
    var b2 := SetSda(b1, true);
    var b3 := SetScl(b2, true);
    LogObserved(b, b.(driven := true));
    LogObserved(b1, b1.(sda := true));
    LogObserved(b2, b2.(scl := true));
    LogObserved(b3, b3.(sda := false));
  }

  lemma StopSeen(b: Bus)
    requires InStep(b) && (b.scl ==> b.driven && !b.sda && !View(b).steady)
    ensures var b' := Stop(b); Idle(b') && View(b').seen == View(b).seen + [StopCondition]
  {
    var b1 := DriveSda(b);
    var b2 := SetSda(b1, false);
    var b3 := SetScl(b2, false);
    var b4 := SetScl(b3, true);
    LogObserved(b, b.(driven := true));
    LogObserved(b1, b1.(sda := false));
    LogObserved(b2, b2.(scl := false));
    LogObserved(b3, b3.(scl := true));
    LogObserved(b4, b4.(sda := true));
  }

  lemma SendBitSeen(b: Bus, bit: bool)
    requires InStep(b) && b.driven
    ensures var b' := SendBit(b, bit);
            && InStep(b') && b'.driven && b'.scl && View(b').steady
            && Completed(View(b')) == Completed(View(b)) + [Bit(bit)]
  {
    var b1 := SetScl(b, false);
    var b2 := SetSda(b1, bit);
    LogObserved(b, b.(scl := false));
    LogObserved(b1, b1.(sda := bit));
    LogObserved(b2, b2.(scl := true));
  }

  function BitSymbols(bits: seq<bool>): seq<Symbol> {
    if bits == [] then [] else BitSymbols(bits[..|bits| - 1]) + [Bit(bits[|bits| - 1])]
  }

  lemma {:induction false} SendBitsSeen(b: Bus, bits: seq<bool>)
    requires InStep(b) && b.driven
    ensures var b' := SendBits(b, bits);
            && InStep(b') && b'.driven
            && Completed(View(b')) == Completed(View(b)) + BitSymbols(bits)
  {
    if bits != [] {
      SendBitsSeen(b, bits[..|bits| - 1]);
      SendBitSeen(SendBits(b, bits[..|bits| - 1]), bits[|bits| - 1]);
    }
  }

  /** Before a byte the clock is low, or the bus was just started. */
  ghost predicate Ready(b: Bus) { InStep(b) && (b.scl ==> b.driven && !b.sda && !View(b).steady) }

  function ByteSymbols(dat: Byte): seq<Symbol> { BitSymbols(BitsOf(dat, 8)) + [Bit(false)] }

  lemma ByteSeen(b: Bus, dat: Byte)
    requires Ready(b)
    ensures var b' := AwaitAck(SendByte(b, dat), true);
            Ready(b') && View(b').seen == View(b).seen + ByteSymbols(dat)
  {
    hide View;
    LogObserved(b, b.(driven := true));
    var b0 := DriveSda(b);
    SendBitsSeen(b0, BitsOf(dat, 8));
    var b1 := SendByte(b, dat);
    var b2 := SetScl(b1, false);
    var b3 := FreeSda(b2, false);
    var b4 := SetScl(b3, true);
    LogObserved(b1, b1.(scl := false));
    LogObserved(b2, b2.(driven := false, slave := false));
    LogObserved(b3, b3.(scl := true));
    LogObserved(b4, b4.(scl := false));
    assert View(b2).seen == View(b).seen + BitSymbols(BitsOf(dat, 8));
  }

  function BytesSymbols(bytes: seq<Byte>): seq<Symbol> {
    if bytes == [] then [] else BytesSymbols(bytes[..|bytes| - 1]) + ByteSymbols(bytes[|bytes| - 1])
  }

  lemma {:induction false} BytesSeen(b: Bus, bytes: seq<Byte>)
    requires Ready(b)
    ensures var b' := SendBytes(b, bytes); Ready(b') && View(b').seen == View(b).seen + BytesSymbols(bytes)
  {
    if bytes != [] {
      BytesSeen(b, bytes[..|bytes| - 1]);
      ByteSeen(SendBytes(b, bytes[..|bytes| - 1]), bytes[|bytes| - 1]);
    }
  }

  /** For every byte sequence the slave sees one START, the bits of the bytes each with a low acknowledge bit, and one
      STOP: SDA moves during a high clock nowhere else. The bus is idle again afterwards. */
  lemma TransactionSeen(b: Bus, bytes: seq<Byte>)
    requires Idle(b)
    ensures var b' := WriteTransaction(b, bytes);
            Idle(b') && View(b').seen == View(b).seen + ([StartCondition] + BytesSymbols(bytes) + [StopCondition])
  {
    hide View, Start, Stop, SendBytes, BytesSymbols, InStep;
    StartSeen(b);
    BytesSeen(Start(b), bytes);
    StopSeen(SendBytes(Start(b), bytes));
    var seen, symbols := View(b).seen, BytesSymbols(bytes);
    assert seen + [StartCondition] + symbols + [StopCondition] == seen + ([StartCondition] + symbols + [StopCondition]);
  }

  // ---------------------------------------------------------------- decoding

  lemma {:induction false} BitSymbolsAt(bits: seq<bool>)
    ensures |BitSymbols(bits)| == |bits|
    ensures forall i :: 0 <= i < |bits| ==> BitSymbols(bits)[i] == Bit(bits[i])
  {
    if bits != [] {
      BitSymbolsAt(bits[..|bits| - 1]);
    }
  }

  function Pow2(n: nat): (p: nat)
    ensures p > 0
  {
    if n == 0 then 1 else 2 * Pow2(n - 1)
  }

  lemma PowersOfTwo()
    ensures Pow2(0) == 1 && Pow2(1) == 2 && Pow2(2) == 4 && Pow2(3) == 8 && Pow2(4) == 16
    ensures Pow2(5) == 32 && Pow2(6) == 64 && Pow2(7) == 128 && Pow2(8) == 256
  {
  }

  lemma PowerStep(acc: nat, hi: nat, n: nat)
    requires n > 0
    ensures (2 * acc + hi) * Pow2(n - 1) == acc * Pow2(n) + hi * Pow2(n - 1)
  {
    assert acc * Pow2(n) == 2 * acc * Pow2(n - 1);
  }

  lemma {:induction false} ShiftedBits(acc: nat, dat: Byte, n: nat)
    requires n <= 8
    ensures ShiftIn(acc, BitsOf(dat, n)) == acc * Pow2(n) + dat / Pow2(8 - n)
    decreases n
  {
    hide Pow2;
    PowersOfTwo();
    if n != 0 {
      var hi := if dat / 0x80 == 1 then 1 else 0;
      ShiftedBits(2 * acc + hi, (dat * 2) % 0x100, n - 1);
      TopBitOut(dat, n);
      PowerStep(acc, hi, n);
    }
  }

  lemma TopBitOut(dat: Byte, n: nat)
    requires 1 <= n <= 8
    ensures dat / Pow2(8 - n) == (if dat / 0x80 == 1 then 1 else 0) * Pow2(n - 1) + ((dat * 2) % 0x100) / Pow2(9 - n)
  {
    var top, rest := dat / 0x80, dat % 0x80;
    assert (dat * 2) % 0x100 == 2 * rest;
    TopBitAt(top, rest, n);
  }

  lemma TopBitAt(top: nat, rest: nat, n: nat)
    requires top <= 1 && rest < 0x80 && 1 <= n <= 8
    ensures (0x80 * top + rest) / Pow2(8 - n) == top * Pow2(n - 1) + 2 * rest / Pow2(9 - n)
  {
    hide Pow2;
    PowersOfTwo();
    if top == 0 {
      match n
      case 1 => case 2 => case 3 => case 4 => case 5 => case 6 => case 7 => case _ =>
    } else {
      match n
      case 1 => case 2 => case 3 => case 4 => case 5 => case 6 => case 7 => case _ =>
    }
  }

  /** Bits sent most significant first shift back into the byte. */
  lemma BitsSpellByte(dat: Byte)
    ensures ShiftIn(0, BitsOf(dat, 8)) == dat
  {
    ShiftedBits(0, dat, 8);
  }

  lemma MessagesOfByte(dat: Byte, rest: seq<Symbol>)
    ensures Messages(ByteSymbols(dat) + rest) == [MByte(dat, true)] + Messages(rest)
  {
    hide BitsOf, ShiftIn;
    var bits, all := BitsOf(dat, 8), ByteSymbols(dat) + rest;
    BitSymbolsAt(bits);
    assert forall i :: 0 <= i < 8 ==> all[i] == Bit(bits[i]);
    assert all[8] == Bit(false) && all[9..] == rest;
    assert seq(8, i requires 0 <= i < 8 => all[i].b) == bits;
    BitsSpellByte(dat);
  }

  /** What a slave should receive in a write transaction. */
  function Received(bytes: seq<Byte>): seq<Message> {
    if bytes == [] then [] else [MByte(bytes[0], true)] + Received(bytes[1..])
  }

  lemma {:induction false} FirstByteFirst(bytes: seq<Byte>)
    requires bytes != []
    ensures BytesSymbols(bytes) == ByteSymbols(bytes[0]) + BytesSymbols(bytes[1..])
  {
    hide ByteSymbols;
    var before, rest := bytes[..|bytes| - 1], bytes[1..];
    if before != [] {
      FirstByteFirst(before);
      assert before[1..] == rest[..|rest| - 1];
    }
  }

  lemma {:induction false} MessagesOfBytes(bytes: seq<Byte>, rest: seq<Symbol>)
    ensures Messages(BytesSymbols(bytes) + rest) == Received(bytes) + Messages(rest)
  {
    hide ByteSymbols, Messages;
    if bytes == [] {
      assert BytesSymbols(bytes) + rest == rest && Received(bytes) + Messages(rest) == Messages(rest);
    } else {
      FirstByteFirst(bytes);
      var after := BytesSymbols(bytes[1..]) + rest;
      assert BytesSymbols(bytes) + rest == ByteSymbols(bytes[0]) + after;
      MessagesOfByte(bytes[0], after);
      MessagesOfBytes(bytes[1..], rest);
    }
  }

  lemma ConditionsDecode(rest: seq<Symbol>)
    ensures Messages([StartCondition] + rest) == [MStart] + Messages(rest)
    ensures Messages([StopCondition]) == [MStop]
  {
    assert ([StartCondition] + rest)[1..] == rest;
    assert Messages([StopCondition]) == [MStop] + Messages([StopCondition][1..]);
  }

  /** For every byte sequence, a slave that decodes the lines as UM10204 says receives exactly START, those bytes, all
      acknowledged, and STOP. */
  lemma TransactionDecodes(b: Bus, bytes: seq<Byte>)
    requires Idle(b)
    ensures var b' := WriteTransaction(b, bytes);
            && Idle(b')
            && View(b).seen <= View(b').seen
            && Messages(View(b').seen[|View(b).seen|..]) == [MStart] + Received(bytes) + [MStop]
  {
    hide View, WriteTransaction, BytesSymbols, Messages;
    TransactionSeen(b, bytes);
    var before, after := View(b).seen, View(WriteTransaction(b, bytes)).seen;
    var new_ := [StartCondition] + BytesSymbols(bytes) + [StopCondition];
    assert after[|before|..] == new_;
    assert new_ == [StartCondition] + (BytesSymbols(bytes) + [StopCondition]);
    MessagesOfBytes(bytes, [StopCondition]);
    ConditionsDecode(BytesSymbols(bytes) + [StopCondition]);
  }

  // ---------------------------------------------------------------- the levels on the lines

  /** START is a falling SDA under a high clock, STOP a rising one. */
  lemma ConditionLevels(b: Bus)
    ensures b.scl && b.sda && b.driven ==>
              Start(b).trace == b.trace + [Level(true, true), Level(true, true), Level(true, true), Level(true, false)]
    ensures !b.scl && !b.sda && b.driven ==>
              Stop(b).trace == b.trace + [Level(false, false), Level(false, false), Level(false, false),
                                          Level(true, false), Level(true, true)]
  {
  }

  /** A bit is put on SDA under a low clock and held while the clock is high. */
  lemma BitLevels(b: Bus, bit: bool)
    requires b.driven
    ensures SendBit(b, bit).trace == b.trace + [Level(false, b.sda), Level(false, bit), Level(true, bit)]
  {
  }

  /** Bit i of the sequence is bit 7 - i of the byte: the most significant goes first. */
  lemma MostSignificantFirst(dat: Byte)
    ensures var bits := BitsOf(dat, 8);
            && bits[0] == ((dat / 128) % 2 == 1) && bits[1] == ((dat / 64) % 2 == 1)
            && bits[2] == ((dat / 32) % 2 == 1) && bits[3] == ((dat / 16) % 2 == 1)
            && bits[4] == ((dat / 8) % 2 == 1) && bits[5] == ((dat / 4) % 2 == 1)
            && bits[6] == ((dat / 2) % 2 == 1) && bits[7] == (dat % 2 == 1)
  {
    hide Pow2, BitsOf;
    PowersOfTwo();
    BitAt(dat, 8, 0);
    BitAt(dat, 8, 1);
    BitAt(dat, 8, 2);
    BitAt(dat, 8, 3);
    BitAt(dat, 8, 4);
    BitAt(dat, 8, 5);
    BitAt(dat, 8, 6);
    BitAt(dat, 8, 7);
  }

  lemma {:induction false} BitAt(dat: Byte, n: nat, i: nat)
    requires i < n <= 8
    ensures BitsOf(dat, n)[i] == ((dat / Pow2(7 - i)) % 2 == 1)
    decreases n
  {
    PowersOfTwo();
    if i > 0 {
      BitAt((dat * 2) % 0x100, n - 1, i - 1);
      Doubled(dat, i);
    }
  }

  lemma Doubled(dat: Byte, i: nat)
    requires 1 <= i <= 7
    ensures ((dat * 2) % 0x100 / Pow2(8 - i)) % 2 == (dat / Pow2(7 - i)) % 2
  {
    hide Pow2;
    var rest := dat % 128;
    assert (dat * 2) % 0x100 == 2 * rest;
    Halved(rest, i);
    if dat >= 128 {
      assert dat == 128 + rest;
      TopBitDropped(rest, i);
    } else {
      assert dat == rest;
    }
  }

  lemma Halved(rest: nat, i: nat)
    requires 1 <= i <= 7
    ensures 2 * rest / Pow2(8 - i) == rest / Pow2(7 - i)
  {
    hide Pow2;
    PowersOfTwo();
    match i
    case 1 => assert 2 * rest / 128 == rest / 64;
    case 2 => assert 2 * rest / 64 == rest / 32;
    case 3 => assert 2 * rest / 32 == rest / 16;
    case 4 => assert 2 * rest / 16 == rest / 8;
    case 5 => assert 2 * rest / 8 == rest / 4;
    case 6 => assert 2 * rest / 4 == rest / 2;
    case _ => assert 2 * rest / 2 == rest / 1;
  }

  lemma TopBitDropped(rest: nat, i: nat)
    requires 1 <= i <= 7
    ensures ((128 + rest) / Pow2(7 - i)) % 2 == (rest / Pow2(7 - i)) % 2
  {
    hide Pow2;
    TopBitAdds(rest, i);
    SameParity(Pow2(i - 1), rest / Pow2(7 - i));
  }

  lemma SameParity(m: nat, x: nat)
    ensures (2 * m + x) % 2 == x % 2
  {
  }

  lemma TopBitAdds(rest: nat, i: nat)
    requires 1 <= i <= 7
    ensures (128 + rest) / Pow2(7 - i) == 2 * Pow2(i - 1) + rest / Pow2(7 - i)
  {
    hide Pow2;
    PowersOfTwo();
    match i
    case 1 => assert (128 + rest) / 64 == 2 + rest / 64;
    case 2 => assert (128 + rest) / 32 == 4 + rest / 32;
    case 3 => assert (128 + rest) / 16 == 8 + rest / 16;
    case 4 => assert (128 + rest) / 8 == 16 + rest / 8;
    case 5 => assert (128 + rest) / 4 == 32 + rest / 4;
    case 6 => assert (128 + rest) / 2 == 64 + rest / 2;
    case _ => assert (128 + rest) / 1 == 128 + rest / 1;
  }

  /** A byte that is not acknowledged ends in a high bit and a STOP. */
  lemma UnackedSeen(b: Bus, dat: Byte)
    requires Ready(b)
    ensures var b' := AwaitAck(SendByte(b, dat), false);
            Idle(b') && View(b').seen == View(b).seen + BitSymbols(BitsOf(dat, 8)) + [Bit(true), StopCondition]
  {
    hide View;
    LogObserved(b, b.(driven := true));
    var b0 := DriveSda(b);
    SendBitsSeen(b0, BitsOf(dat, 8));
    var b1 := SendByte(b, dat);
    var b2 := SetScl(b1, false);
    var b3 := FreeSda(b2, true);
    var b4 := SetScl(b3, true);
    var b5 := SetScl(b4, false);
    LogObserved(b1, b1.(scl := false));
    LogObserved(b2, b2.(driven := false, slave := true));
    LogObserved(b3, b3.(scl := true));
    LogObserved(b4, b4.(scl := false));
    assert View(b2).seen == View(b).seen + BitSymbols(BitsOf(dat, 8));
    StopSeen(b5);
    assert View(b5).seen == View(b).seen + BitSymbols(BitsOf(dat, 8)) + [Bit(true)];
  }
}
