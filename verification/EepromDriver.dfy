/** The EEPROM driver: bit-banged transactions on the bus, and a device that stores what it decodes from the lines. */
module EepromDriver {
  import opened Machine
  import opened I2cBus
  import opened I2cRead
  import opened EepromDevice
  import opened EepromLines

  lemma SendMore(b: Bus, bytes: seq<Byte>, next: Byte)
    ensures SendBytes(b, bytes + [next]) == AwaitAck(SendByte(SendBytes(b, bytes), next), true)
  {
    assert (bytes + [next])[..|bytes + [next]| - 1] == bytes;
  }

  /** Taking bits from the front of the byte, as the shift loop does. */
  lemma {:induction false} SendBitsFront(b: Bus, bits: seq<bool>)
    requires bits != []
    ensures SendBits(b, bits) == SendBits(SendBit(b, bits[0]), bits[1..])
    decreases |bits|
  {
    var before := bits[..|bits| - 1];
    if before != [] {
      SendBitsFront(b, before);
      assert bits[1..][..|bits| - 2] == before[1..];
    } else {
      assert SendBits(b, before) == b && bits[1..] == [];
    }
  }

  lemma ShiftOneBit(b: Bus, dat: Byte, n: nat)
    requires n > 0
    ensures SendBits(b, BitsOf(dat, n)) == SendBits(SendBit(b, dat / 0x80 == 1), BitsOf((dat * 2) % 0x100, n - 1))
  {
    SendBitsFront(b, BitsOf(dat, n));
    assert BitsOf(dat, n)[1..] == BitsOf((dat * 2) % 0x100, n - 1);
  }

  lemma SendBitIs(b: Bus, bit: bool)
    ensures SendBit(b, bit) == SetScl(SetSda(SetScl(b, false), bit), true)
  {
  }

  lemma NoBitsLeft(b: Bus, dat: Byte)
    ensures SendBits(b, BitsOf(dat, 0)) == b
  {
  }

  lemma SendNothing(b: Bus)
    ensures SendBytes(b, []) == b
  {
  }

  lemma ChunkOfOneByte(mem: Memory, addr: nat, b: Byte)
    ensures DeviceWrite(mem, ChunkBytes(addr, addr, [b])) == mem[addr % SIZE := b]
  {
    hide ChunkBytes, Target, StoreInPage;
    ChunkPage(addr, addr, [b]);
    OwnTarget(addr);
    StoreOneByte(mem, Target(addr, addr) - addr % PAGE, addr % PAGE, b);
  }

  class Eeprom {
    var bus: Bus
    var mem: Memory

    ghost predicate Valid()
      reads this
    {
      Idle(bus)
    }

    constructor (contents: Memory)
      ensures Valid() && mem == contents
    {
      bus := Bus(true, true, true, true, []);
      mem := contents;
    }

    method StartCondition()
      modifies this`bus
      ensures bus == Start(old(bus))
    {
      bus := DriveSda(bus);
      bus := SetSda(bus, true);
      bus := SetScl(bus, true);
      bus := SetSda(bus, false);
    }

    method StopCondition()
      modifies this`bus
      ensures bus == Stop(old(bus))
    {
      bus := DriveSda(bus);
      bus := SetSda(bus, false);
      bus := SetScl(bus, false);
      bus := SetScl(bus, true);
      bus := SetSda(bus, true);
    }

    /** wait_slave_ack */
    method WaitSlaveAck(acked: bool)
      modifies this`bus
      ensures bus == AwaitAck(old(bus), acked)
    {
      bus := SetScl(bus, false);
      bus := FreeSda(bus, !acked);
      bus := SetScl(bus, true);
      var sampled := Line(bus).sda;
      bus := SetScl(bus, false);
      if sampled {
        StopCondition();
      }
    }

    /** iic_write */
    method IicWrite(byte: Byte)
      modifies this`bus
      ensures bus == SendByte(old(bus), byte)
    {
      hide SendBits, BitsOf, SendBit;
      bus := DriveSda(bus);
      var dat: Byte := byte;
      for i := 0 to 8
        invariant SendBits(bus, BitsOf(dat, 8 - i)) == SendByte(old(bus), byte)
      {
        ShiftOneBit(bus, dat, 8 - i);
        ghost var before := bus;
        bus := SetScl(bus, false);
        var bit := dat / 0x80 == 1;
        dat := (dat * 2) % 0x100;
        bus := SetSda(bus, bit);
        bus := SetScl(bus, true);
        SendBitIs(before, bit);
      }
      NoBitsLeft(bus, dat);
    }

    /** One byte and its acknowledge slot; bytes are those already sent since the start condition. */
    method SendAcked(b: Byte, ghost begun: Bus, ghost bytes: seq<Byte>)
      requires bus == SendBytes(begun, bytes)
      modifies this`bus
      ensures bus == SendBytes(begun, bytes + [b])
    {
      hide SendBytes, SendByte, AwaitAck;
      SendMore(begun, bytes, b);
      IicWrite(b);
      WaitSlaveAck(true);
    }

    /** One transaction of eeprom_write_page, with the select byte computed beforehand. */
    method WriteChunk(cmd: Byte, at: nat, dat: seq<Byte>, from: nat, n: nat)
      requires Valid() && from + n <= |dat|
      modifies this
      ensures Valid()
      ensures mem == DeviceWrite(old(mem), [cmd, (at / PAGE) % 0x100, at % 0x100] + dat[from..from + n])
    {
      hide Start, Stop, SendBytes, Idle, Commit, DeviceWrite;
      ghost var begun, head := Start(bus), [cmd, (at / PAGE) % 0x100, at % 0x100];
      var before := bus;
      StartCondition();
      SendNothing(begun);
      SendAcked(cmd, begun, []);
      assert [] + [cmd] == head[..1] && head[..1] + [(at / PAGE) % 0x100] == head[..2];
      SendAcked((at / PAGE) % 0x100, begun, head[..1]);
      SendAcked(at % 0x100, begun, head[..2]);
      assert head[..2] + [at % 0x100] == head + dat[from..from];
      for j := 0 to n
        invariant bus == SendBytes(begun, head + dat[from..from + j])
        invariant mem == old(mem)
      {
        SendAcked(dat[from + j], begun, head + dat[from..from + j]);
        assert head + dat[from..from + j] + [dat[from + j]] == head + dat[from..from + j + 1];
      }
      StopCondition();
      CommitStoresBytes(mem, before, head + dat[from..from + n]);
      mem := Commit(mem, before, bus);
    }

    /** eeprom_write_page; the caller's length is a 16-bit argument. */
    method WritePage(addr: Word, dat: seq<Byte>)
      requires Valid() && |dat| < 0x1_0000
      modifies this
      ensures Valid()
      ensures mem == PagedWrite(old(mem), addr, dat)
    {
      hide DeviceWrite, Idle;
      var cmd := Select(addr);
      var number, remain := |dat| / PAGE, |dat| % PAGE;
      for i := 0 to number
        invariant Valid()
        invariant mem == FullPages(old(mem), addr, dat, i)
      {
        WriteChunk(cmd, addr + i * PAGE, dat, i * PAGE, PAGE);
      }
      if remain != 0 {
        WriteChunk(cmd, addr + number * PAGE, dat, number * PAGE, remain);
        assert dat[number * PAGE..number * PAGE + remain] == dat[number * PAGE..];
      }
    }

    /** eeprom_write_byte */
    method WriteByte(addr: Word, b: Byte)
      requires Valid()
      modifies this
      ensures Valid()
      ensures mem == old(mem)[addr % SIZE := b]
    {
      assert [b][0..1] == [b];
      ChunkOfOneByte(mem, addr, b);
      WriteChunk(Select(addr), addr, [b], 0, 1);
    }

    /** iic_read; slaveByte is what the slave shifts out. */
    method IicRead(slaveByte: Byte) returns (dat: Byte)
      modifies this`bus
      ensures bus == ReadByte(old(bus), slaveByte) && dat == slaveByte
    {
      hide ReadBits, BitsOf, ReadBit, ShiftIn;
      BitsSpellByte(slaveByte);
      dat := 0;
      bus := FreeSda(bus, bus.slave);
      var rest: Byte := slaveByte;
      for i := 0 to 8
        invariant !bus.driven
        invariant ReadBits(bus, BitsOf(rest, 8 - i)) == ReadByte(old(bus), slaveByte)
        invariant ShiftIn(dat, BitsOf(rest, 8 - i)) == slaveByte
      {
        SampleOneBit(bus, rest, 8 - i, dat);
        ReadBitSamples(bus, rest / 0x80 == 1);
        bus := ReadBit(bus, rest / 0x80 == 1);
        var bit := if Line(bus).sda then 1 else 0;
        rest := (rest * 2) % 0x100;
        ShiftInGrows(2 * dat + bit, BitsOf(rest, 8 - i - 1));
        dat := (dat * 2) % 0x100 + bit;
      }
      NoneLeft(bus, rest, dat);
    }

    /** master_send_ack and no_ack */
    method MasterSendAck(ack: bool)
      modifies this`bus
      ensures bus == MasterAck(old(bus), ack)
    {
      bus := SetScl(bus, false);
      bus := DriveSda(bus);
      bus := SetSda(bus, !ack);
      bus := SetScl(bus, true);
      bus := SetScl(bus, false);
    }

    /** Writing the address and selecting the device again for reading */
    method SelectForRead(addr: Word)
      requires Valid()
      modifies this`bus
      ensures bus == Selected(old(bus), AddressHead(addr), Select(addr) + 1)
    {
      hide Start, SendBytes, SendByte, AwaitAck;
      ghost var begun, head := Start(bus), AddressHead(addr);
      StartCondition();
      SendNothing(begun);
      assert [] + [Select(addr)] == head[..1] && head[..1] + [head[1]] == head[..2] && head[..2] + [head[2]] == head;
      SendAcked(Select(addr), begun, []);
      SendAcked((addr / PAGE) % 0x100, begun, head[..1]);
      SendAcked(addr % 0x100, begun, head[..2]);
      StartCondition();
      IicWrite(Select(addr) + 1);
      WaitSlaveAck(true);
    }

    /** eeprom_read_byte: beyond the driver's limit it returns all ones. */
    method ReadByteAt(addr: Word) returns (dat: Byte)
      requires Valid()
      modifies this
      ensures Valid() && mem == old(mem)
      ensures dat == if addr > MAX_ADDR then 0xff else mem[addr % SIZE]
    {
      hide Selected, ReadByte, MasterAck, Stop, Idle, Answer, Commit;
      if addr > MAX_ADDR {
        return 0xff;
      }
      var before := bus;
      SelectForRead(addr);
      NoBytesRead(bus);
      AnswerIs(mem, before, addr, []);
      dat := IicRead(Answer(mem, before, bus));
      MasterSendAck(false);
      StopCondition();
      ReadOneCommitsNothing(mem, before, AddressHead(addr), Select(addr) + 1, dat);
      mem := Commit(mem, before, bus);
    }

    /** eeprom_sequential_read: beyond the driver's limit it returns without touching the buffer. Each byte is taken bit
        by bit from the lines; a single byte is read again at the end. */
    method SequentialRead(addr: Word, buf: array<Byte>, at: nat, len: nat)
      requires Valid() && at + len <= buf.Length
      modifies this, buf
      ensures Valid() && mem == old(mem)
      ensures buf[..] == Overlaid(old(buf[..]), at, ReadBack(mem, addr, old(buf[..])[at..at + len]), len)
    {
      hide ReadBack, Idle;
      ghost var was := buf[..];
      if addr > MAX_ADDR {
        NothingRead(mem, addr, was[at..at + len]);
        Rejoins(was, at, len);
        return;
      }
      ReadRange(addr, buf, at, len);
      var again := ReadByteAt(addr);
    }

    /** The read transaction itself */
    method ReadRange(addr: Word, buf: array<Byte>, at: nat, len: nat)
      requires Valid() && at + len <= buf.Length && addr <= MAX_ADDR
      modifies this, buf
      ensures Valid() && mem == old(mem)
      ensures buf[..] == Overlaid(old(buf[..]), at, ReadBack(mem, addr, old(buf[..])[at..at + len]), len)
    {
      hide Selected, ReadBytes, ReadBack, MasterAck, Stop, Idle, Overlaid, Commit;
      ghost var was := buf[..];
      var before := bus;
      ghost var read := ReadBack(mem, addr, was[at..at + len]);
      SelectForRead(addr);
      ghost var selected := bus;
      NoBytesRead(selected);
      NothingOverlaid(was, at, read);
      for i := 0 to len
        invariant buf[..] == Overlaid(was, at, read, i)
        invariant bus == ReadBytes(selected, read[..i]) && mem == old(mem)
      {
        OverwriteOne(was, at, read, i);
        ReadBackAt(mem, addr, was[at..at + len], i);
        assert read[..i + 1] == read[..i] + [read[i]];
        AnswerIs(mem, before, addr, read[..i]);
        var dat := ReadAcked(before, selected, read[..i]);
        buf[at + i] := dat;
      }
      assert read[..len] == read;
      MasterSendAck(false);
      StopCondition();
      ReadLeaves(mem, before, AddressHead(addr), Select(addr) + 1, read);
      mem := Commit(mem, before, bus);
    }

    /** One byte from the device, acknowledged; the device began to listen at `before`. */
    method ReadAcked(before: Bus, ghost selected: Bus, ghost sofar: seq<Byte>) returns (dat: Byte)
      requires bus == ReadBytes(selected, sofar)
      modifies this`bus
      ensures dat == Answer(mem, before, old(bus)) && bus == ReadBytes(selected, sofar + [dat])
    {
      hide ReadByte, MasterAck, Answer;
      dat := IicRead(Answer(mem, before, bus));
      MasterSendAck(true);
      assert (sofar + [dat])[..|sofar|] == sofar;
    }
  }

  /** A buffer with the first n bytes of a block put at an index. */
  function Overlaid(s: seq<Byte>, at: nat, block: seq<Byte>, n: nat): (r: seq<Byte>)
    requires at + |block| <= |s| && n <= |block|
    ensures |r| == |s|
  {
    s[..at] + block[..n] + s[at + n..]
  }

  lemma NothingOverlaid(s: seq<Byte>, at: nat, block: seq<Byte>)
    requires at + |block| <= |s|
    ensures Overlaid(s, at, block, 0) == s && block[..0] == []
  {
  }

  lemma Rejoins(s: seq<Byte>, at: nat, n: nat)
    requires at + n <= |s|
    ensures Overlaid(s, at, s[at..at + n], n) == s
  {
  }

  lemma NoBytesRead(b: Bus)
    ensures ReadBytes(b, []) == b
  {
  }

  lemma ReadBackAt(mem: Memory, addr: nat, buf: seq<Byte>, i: nat)
    requires addr <= MAX_ADDR && i < |buf|
    ensures ReadBack(mem, addr, buf)[i] == mem[(addr + i) % SIZE]
  {
  }

  lemma NothingRead(mem: Memory, addr: nat, buf: seq<Byte>)
    requires addr > MAX_ADDR
    ensures ReadBack(mem, addr, buf) == buf
  {
  }

  lemma ReadLeaves(mem: Memory, b: Bus, head: seq<Byte>, cmd: Byte, data: seq<Byte>)
    requires Idle(b) && |head| == 3
    ensures var b' := Stop(MasterAck(ReadBytes(Selected(b, head, cmd), data), false));
            Idle(b') && Commit(mem, b, b') == mem
  {
    hide Idle, View, Selected, ReadBytes, MasterAck, Stop, Commit;
    ReadCommitsNothing(mem, b, head, cmd, data);
  }

  lemma OverwriteOne(before: seq<Byte>, at: nat, read: seq<Byte>, i: nat)
    requires at + |read| <= |before| && i < |read|
    ensures Overlaid(before, at, read, i)[at + i := read[i]] == Overlaid(before, at, read, i + 1)
  {
  }

  /** What a sequential read leaves in a buffer: the device's bytes, its counter rolling over at the end of memory. */
  function ReadBack(mem: Memory, addr: nat, buf: seq<Byte>): (r: seq<Byte>)
    ensures |r| == |buf|
  {
    if addr > MAX_ADDR then buf else seq(|buf|, k requires 0 <= k => mem[(addr + k) % SIZE])
  }

  /** The driver refuses start addresses above 120000 and reads from all others, rolling over behind the last byte. */
  lemma ReadLimitIs(mem: Memory, addr: nat, buf: seq<Byte>)
    ensures addr > 120000 ==> ReadBack(mem, addr, buf) == buf
    ensures addr <= 120000 ==> forall k :: 0 <= k < |buf| ==> ReadBack(mem, addr, buf)[k] == mem[(addr + k) % 0x2_0000]
  {
  }
}
