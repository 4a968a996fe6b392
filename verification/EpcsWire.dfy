/** The flash calls byte by byte, as they appear on the wire, and what programming does to the bits of a byte. */
module EpcsWire {
  import opened Machine
  import opened SpiTransfer
  import opened EpcsChip
  import opened EpcsProtocol

  /** The address as the chip takes it: the most significant byte first, three or four of them. */
  function OnWire(offset: nat, fourByte: bool): seq<Byte> {
    (if fourByte then [(offset / 0x100_0000) % 0x100] else [])
    + [(offset / 0x1_0000) % 0x100, (offset / 0x100) % 0x100, offset % 0x100]
  }

  /** Frames of a call that changes memory: the mode and the write enable, the command, status reads until the chip is
      ready, and the mode again. */
  function CallFrames(body: seq<Byte>, busy: nat, fourByte: bool): seq<seq<Byte>> {
    var polls := seq(busy + 1, _ => [0x05, 0x00]);
    if fourByte then [[0x06], [0xb7], [0x06], body] + polls + [[0x06], [0xe9]] else [[0x06], body] + polls
  }

  lemma WriteFramesAre(c: Chip, body: seq<Byte>, fourByte: bool)
    ensures WriteFrames(c, body, fourByte) == CallFrames(body, NextTime(c), fourByte)
  {
    if fourByte {
      assert EnterFrames(true) + [[WRITE_ENABLE], body] == [[0x06], [0xb7], [0x06], body];
    } else {
      assert EnterFrames(false) + [[WRITE_ENABLE], body] == [[0x06], body];
    }
  }

  /** The three calls on the wire: erase is command 0xd8 with its address, program 0x02 with address and data in one frame,
      read 0x03 with its address and a zero for every byte wanted, behind one status read. */
  lemma CallsOnWire(c: Chip, offset: nat, data: seq<Byte>, n: nat, fourByte: bool)
    requires Settled(c) && Reachable(c.mem, offset, fourByte)
    ensures EraseAt(c, offset, fourByte).frames
         == c.frames + CallFrames([0xd8] + OnWire(offset, fourByte), NextTime(c), fourByte)
    ensures data != [] ==>
              WriteBuffer(c, offset, data, fourByte).frames
              == c.frames + CallFrames([0x02] + OnWire(offset, fourByte) + data, NextTime(c), fourByte)
    ensures ReadBuffer(c, offset, n, fourByte).0.frames
         == c.frames + (if fourByte then [[0x06], [0xb7]] else []) + [[0x05, 0x00]]
            + [[0x03] + OnWire(offset, fourByte) + seq(n, _ => 0)] + (if fourByte then [[0x06], [0xe9]] else [])
  {
    hide EraseAt, WriteBuffer, ReadBuffer, WriteFrames, CallFrames, Settled;
    EraseMeans(c, offset, fourByte);
    WriteFramesAre(c, [SECTOR_ERASE] + AddressBytes(offset, fourByte), fourByte);
    if data != [] {
      WriteMeans(c, offset, data, fourByte);
      WriteFramesAre(c, [PAGE_PROGRAM] + AddressBytes(offset, fourByte) + data, fourByte);
    }
    ReadMeans(c, offset, n, fourByte);
    ReadFramesAre(c.frames, offset, n, fourByte);
  }

  lemma ReadFramesAre(before: seq<seq<Byte>>, offset: nat, n: nat, fourByte: bool)
    ensures before + ReadFrames(offset, n, fourByte)
         == before + (if fourByte then [[0x06], [0xb7]] else []) + [[0x05, 0x00]]
            + [[0x03] + OnWire(offset, fourByte) + seq(n, _ => 0)] + (if fourByte then [[0x06], [0xe9]] else [])
  {
    var enter, exit := EnterFrames(fourByte), ExitFrames(fourByte);
    var body := [READ] + AddressBytes(offset, fourByte) + Zeros(n);
    assert StatusReads(1) == [[0x05, 0x00]];
    assert body == [0x03] + OnWire(offset, fourByte) + seq(n, _ => 0);
    assert before + (enter + [[0x05, 0x00]] + [body] + exit) == before + enter + [[0x05, 0x00]] + [body] + exit;
  }

  /** Bit k of a number, counted from the least significant. */
  function Bit(x: nat, k: nat): nat { if k == 0 then x % 2 else Bit(x / 2, k - 1) }

  lemma {:induction false} AndBitsAt(a: nat, b: nat, n: nat, k: nat)
    requires k < n
    ensures Bit(AndBits(a, b, n), k) == 1 <==> Bit(a, k) == 1 && Bit(b, k) == 1
  {
    var rest := AndBits(a / 2, b / 2, n - 1);
    LowBit(a, b);
    assert AndBits(a, b, n) / 2 == rest && AndBits(a, b, n) % 2 == (a % 2) * (b % 2);
    if k > 0 {
      AndBitsAt(a / 2, b / 2, n - 1, k - 1);
    }
  }

  lemma LowBit(a: nat, b: nat)
    ensures 0 <= (a % 2) * (b % 2) <= 1
    ensures (a % 2) * (b % 2) == 1 <==> a % 2 == 1 && b % 2 == 1
  {
  }

  /** Programming a byte leaves exactly the bits set that were set and are set in the data. */
  lemma ProgrammedBits(old_: Byte, data: Byte, k: nat)
    requires k < 8
    ensures Bit(AndByte(old_, data), k) == 1 <==> Bit(old_, k) == 1 && Bit(data, k) == 1
  {
    AndBitsAt(old_, data, 8, k);
  }
}
