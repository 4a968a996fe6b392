/** The EEPROM on the bus: everything it stores and everything it sends is decided by what it decodes from the lines. */
module EepromLines {
  import opened Machine
  import opened I2cBus
  import opened I2cRead
  import opened EepromDevice

  /** The data bytes of the messages a device receives. */
  function Payload(ms: seq<Message>): seq<Byte> {
    if ms == [] then [] else (if ms[0].MByte? then [ms[0].data] else []) + Payload(ms[1..])
  }

  lemma {:induction false} PayloadOfReceived(bytes: seq<Byte>)
    ensures Payload(Received(bytes) + [MStop]) == bytes
  {
    var ms := Received(bytes) + [MStop];
    if bytes != [] {
      PayloadOfReceived(bytes[1..]);
      assert ms[1..] == Received(bytes[1..]) + [MStop];
    }
  }

  /** A write transaction: START, bytes, STOP. */
  predicate IsWrite(ms: seq<Message>) {
    && |ms| >= 2 && ms[0] == MStart && ms[|ms| - 1] == MStop
    && forall i :: 1 <= i < |ms| - 1 ==> ms[i].MByte?
  }

  /** What the device has stored at a stop condition, from what it decoded since the transaction began. */
  function Commit(mem: Memory, before: Bus, after: Bus): Memory {
    var ms := MessagesSince(before, after);
    if IsWrite(ms) then DeviceWrite(mem, Payload(ms)) else mem
  }

  /** A random read so far: three bytes that begin with a write select, a repeated START, a read select, and then bytes
      the master acknowledged. */
  predicate IsRead(ms: seq<Message>) {
    && |ms| >= 6 && ms[0] == MStart && ms[4] == MStart
    && ms[1].MByte? && ms[2].MByte? && ms[3].MByte? && IsWriteSelect(ms[1].data)
    && ms[5].MByte? && IsReadSelect(ms[5].data)
    && forall i :: 6 <= i < |ms| ==> ms[i].MByte? && ms[i].acked
  }

  /** The address a random read begins at. */
  function ReadAddress(ms: seq<Message>): nat
    requires IsRead(ms)
  {
    ((ms[1].data / 2) % 2) * BANK + ms[2].data * PAGE + ms[3].data
  }

  /** The next byte the device shifts out: the memory behind the address and the bytes read since, rolling over at the
      end. A device that was not asked leaves SDA high. */
  function Answer(mem: Memory, before: Bus, now: Bus): Byte {
    var ms := MessagesSince(before, now);
    if IsRead(ms) then mem[(ReadAddress(ms) + |ms| - 6) % SIZE] else 0xff
  }

  lemma {:induction false} ReceivedAt(bytes: seq<Byte>)
    ensures |Received(bytes)| == |bytes|
    ensures forall i :: 0 <= i < |bytes| ==> Received(bytes)[i] == MByte(bytes[i], true)
  {
    if bytes != [] {
      ReceivedAt(bytes[1..]);
    }
  }

  /** Across the two layers: the device ends up with exactly the bytes the driver meant to send. */
  lemma CommitStoresBytes(mem: Memory, b: Bus, bytes: seq<Byte>)
    requires Idle(b)
    ensures Commit(mem, b, WriteTransaction(b, bytes)) == DeviceWrite(mem, bytes)
    ensures Idle(WriteTransaction(b, bytes))
  {
    hide View, WriteTransaction, Messages, DeviceWrite, Received;
    TransactionDecodes(b, bytes);
    PayloadOfReceived(bytes);
    ReceivedAt(bytes);
    var ms := [MStart] + Received(bytes) + [MStop];
    assert ms[1..] == Received(bytes) + [MStop];
    assert Payload(ms) == Payload(ms[1..]);
  }

  /** The three bytes that carry an address. */
  function AddressHead(addr: nat): (head: seq<Byte>)
    ensures |head| == 3
  {
    [Select(addr), (addr / PAGE) % 0x100, addr % 0x100]
  }

  /** The bytes that select a device and address for writing: 0xa0 or, with address bit 16, 0xa2, then bits 15 to 8, then
      bits 7 to 0; for reading the select byte is one more. */
  lemma AddressBytesAre(addr: nat)
    ensures var head := AddressHead(addr);
            && head[0] == (if (addr / 0x1_0000) % 2 == 1 then 0xa2 else 0xa0) == Select(addr)
            && 256 * (head[1] as int) + head[2] == addr % 0x1_0000
  {
  }

  /** Behind the driver's selection and the bytes read since, the device sends the byte the driver means to read. */
  lemma AnswerIs(mem: Memory, b: Bus, addr: nat, data: seq<Byte>)
    requires Idle(b)
    ensures Answer(mem, b, ReadBytes(Selected(b, AddressHead(addr), Select(addr) + 1), data)) == mem[(addr + |data|) % SIZE]
  {
    hide MessagesSince, Selected, ReadBytes, Received, Idle, AddressHead, IsRead, ReadAddress;
    ExchangeDecodes(b, AddressHead(addr), Select(addr) + 1, data);
    ReadOf(addr, data);
    SameSlot(addr, |data|);
  }

  /** The messages of a random read, as long as the driver's selection heads them. */
  lemma ReadOf(addr: nat, data: seq<Byte>)
    ensures var ms := [MStart] + Received(AddressHead(addr)) + [MStart] + Received([Select(addr) + 1]) + Received(data);
            IsRead(ms) && ReadAddress(ms) == addr % SIZE && |ms| == 6 + |data|
  {
    hide Received, AddressHead;
    var head, cmd := AddressHead(addr), Select(addr) + 1;
    ReceivedAt(head);
    ReceivedAt([cmd]);
    ReceivedAt(data);
    HeadIs(addr);
    var h, c, d := Received(head), Received([cmd]), Received(data);
    var ms := [MStart] + h + [MStart] + c + d;
    assert ms == [MStart, h[0], h[1], h[2], MStart, c[0]] + d;
  }

  lemma HeadIs(addr: nat)
    ensures var head := AddressHead(addr);
            && IsWriteSelect(head[0]) && IsReadSelect(Select(addr) + 1)
            && ((head[0] / 2) % 2) * BANK + head[1] * PAGE + head[2] == addr % SIZE
  {
    ChunkPage(addr, addr, []);
    assert ChunkBytes(addr, addr, []) == AddressHead(addr);
    OwnTarget(addr);
  }

  lemma SameSlot(addr: nat, n: nat)
    ensures (addr % SIZE + n) % SIZE == (addr + n) % SIZE
  {
    assert addr == addr / SIZE * SIZE + addr % SIZE;
  }

  /** Symbols of a repeated START: whatever follows, the device does not take them for a write. */
  lemma RestartIsNoWrite(head: seq<Byte>, rest: seq<Symbol>)
    requires |head| == 3
    ensures !IsWrite(Messages([StartCondition] + BytesSymbols(head) + [StartCondition] + rest))
  {
    hide BytesSymbols, Messages, Received;
    var h, tail := BytesSymbols(head), [StartCondition] + rest;
    assert [StartCondition] + h + [StartCondition] + rest == [StartCondition] + (h + tail);
    ConditionsDecode(h + tail);
    MessagesOfBytes(head, tail);
    ConditionsDecode(rest);
    ReceivedAt(head);
    var ms := [MStart] + (Received(head) + ([MStart] + Messages(rest)));
    assert ms[4] == MStart;
  }

  /** A sequential read stores nothing. */
  lemma ReadCommitsNothing(mem: Memory, b: Bus, head: seq<Byte>, cmd: Byte, data: seq<Byte>)
    requires Idle(b) && |head| == 3
    ensures Idle(ReadTransaction(b, head, cmd, data))
    ensures Commit(mem, b, ReadTransaction(b, head, cmd, data)) == mem
  {
    hide View, BytesSymbols, Messages, ReadTransaction, IsWrite, DeviceWrite;
    ReadTransactionSeen(b, head, cmd, data);
    var rest := BytesSymbols([cmd]) + BytesSymbols(data) + [Bit(true), StopCondition];
    var symbols := [StartCondition] + BytesSymbols(head) + [StartCondition] + rest;
    RestartIsNoWrite(head, rest);
    assert View(ReadTransaction(b, head, cmd, data)).seen == View(b).seen + symbols;
    assert (View(b).seen + symbols)[|View(b).seen|..] == symbols;
  }

  /** Nor does a read of one byte. */
  lemma ReadOneCommitsNothing(mem: Memory, b: Bus, head: seq<Byte>, cmd: Byte, dat: Byte)
    requires Idle(b) && |head| == 3
    ensures Idle(ReadOne(b, head, cmd, dat))
    ensures Commit(mem, b, ReadOne(b, head, cmd, dat)) == mem
  {
    hide View, BytesSymbols, Messages, ReadOne, IsWrite, DeviceWrite;
    ReadOneSeen(b, head, cmd, dat);
    var rest := BytesSymbols([cmd]) + BitSymbols(BitsOf(dat, 8)) + [Bit(true), StopCondition];
    var symbols := [StartCondition] + BytesSymbols(head) + [StartCondition] + rest;
    RestartIsNoWrite(head, rest);
    assert View(ReadOne(b, head, cmd, dat)).seen == View(b).seen + symbols;
    assert (View(b).seen + symbols)[|View(b).seen|..] == symbols;
  }
}
