/** The firmware side of region storage: the load and request cases of the PC protocol and the region record they use. */
module RegionServer {
  import opened Machine
  import opened EepromDevice
  import EepromDriver
  import opened Regions

  function PairSwappedUpTo(s: seq<Byte>, n: nat): (t: seq<Byte>)
    requires |s| % 2 == 0 && n <= |s|
    ensures |t| == |s|
  {
    seq(|s|, i requires 0 <= i < |s| => if i >= n then s[i] else if i % 2 == 0 then s[i + 1] else s[i - 1])
  }

  class Server {
    const eeprom: EepromDriver.Eeprom
    const buffer: array<Half>
    const zenithSave: array<Byte>
    var wrWhich: Byte
    var rdWhich: Byte
    var select: Word

    ghost predicate Valid()
      reads this, eeprom
    {
      && buffer.Length == TARGETS
      && zenithSave.Length == 150
      && eeprom.Valid()
    }

    ghost function Abstract(): State
      reads this, eeprom
    {
      State(eeprom.mem, select)
    }

    constructor (chip: EepromDriver.Eeprom)
      requires chip.Valid()
      ensures Valid() && eeprom == chip && fresh(buffer) && fresh(zenithSave)
      ensures Abstract() == State(chip.mem, 0)
    {
      eeprom := chip;
      buffer := new Half[TARGETS](_ => 0);
      zenithSave := new Byte[150](_ => 0);
      wrWhich := 0;
      rdWhich := 0;
      select := 0;
    }

    /** region_save2eeprom */
    method SaveToEeprom()
      requires Valid()
      modifies eeprom
      ensures Valid()
      ensures eeprom.mem == SaveRegion(old(eeprom.mem), wrWhich, select, buffer[..], zenithSave[..ZENITHS])
    {
      hide PagedWrite, InMemory;
      eeprom.WriteByte(3, select % 0x100);
      var offset := GROUP_OFFSET + SLOT_SPACE * wrWhich;
      var bytes := InMemory(buffer[..]);
      eeprom.WritePage(offset, bytes);
      offset := offset + BOUNDARY_BYTES;
      eeprom.WritePage(offset, zenithSave[..ZENITHS]);
    }

    /** PC_LOAD_REGION_DATA */
    method LoadRegion(packet: Packet)
      requires Valid()
      modifies this, buffer, zenithSave, eeprom
      ensures Valid()
      ensures Abstract() == Apply(old(Abstract()), Load(packet))
    {
      hide SaveRegion;
      wrWhich := packet[8];
      for k := 0 to TARGETS
        invariant buffer[..k] == BoundaryOf(packet)[..k]
        invariant unchanged(eeprom) && unchanged(`select) && wrWhich == packet[8]
      {
        buffer[k] := BigEndian(packet[9 + 2 * k], packet[10 + 2 * k]);
      }
      for i := 0 to ZENITHS
        invariant zenithSave[..i] == VerticesOf(packet)[..i]
        invariant buffer[..] == BoundaryOf(packet)
        invariant unchanged(eeprom) && unchanged(`select) && wrWhich == packet[8]
      {
        zenithSave[i] := packet[1631 + i];
      }
      assert buffer[..TARGETS] == buffer[..] && zenithSave[..ZENITHS] == VerticesOf(packet);
      SaveToEeprom();
    }

    /** region_read_from_rom, up to the transfer to the FPGA: the bytes of the slot are read over the points in memory. */
    method ReadFromRom(num: nat)
      requires Valid() && num < 256
      modifies buffer, eeprom
      ensures Valid() && Abstract() == old(Abstract())
      ensures buffer[..] == FromMemory(EepromDriver.ReadBack(eeprom.mem, SlotAddr(num), InMemory(old(buffer[..]))))
    {
      hide InMemory, EepromDriver.ReadBack, EepromDriver.Overlaid, FromMemory, EepromDriver.Eeprom.Valid;
      var offset := GROUP_OFFSET + num * SLOT_SPACE;
      var bytes := BytesOf(buffer);
      ghost var was := bytes[..];
      assert was[0..BOUNDARY_BYTES] == was;
      OverlaidWhole(was, EepromDriver.ReadBack(eeprom.mem, offset, was));
      eeprom.SequentialRead(offset, bytes, 0, BOUNDARY_BYTES);
      TakeBytes(bytes);
    }

    method TakeBytes(bytes: array<Byte>)
      requires Valid() && bytes.Length == BOUNDARY_BYTES
      modifies buffer
      ensures buffer[..] == FromMemory(bytes[..])
    {
      for k := 0 to TARGETS
        invariant buffer[..k] == FromMemory(bytes[..])[..k]
      {
        buffer[k] := LittleEndian(bytes[2 * k], bytes[2 * k + 1]);
      }
      assert buffer[..TARGETS] == buffer[..];
    }

    /** The points as the bytes they are stored in */
    method BytesOf(points: array<Half>) returns (bytes: array<Byte>)
      requires points.Length == TARGETS
      ensures fresh(bytes) && bytes[..] == InMemory(points[..])
    {
      bytes := new Byte[BOUNDARY_BYTES](_ => 0);
      for i := 0 to BOUNDARY_BYTES
        invariant bytes[..i] == InMemory(points[..])[..i]
      {
        bytes[i] := if i % 2 == 0 then points[i / 2] % 0x100 else points[i / 2] / 0x100;
      }
      assert bytes[..BOUNDARY_BYTES] == bytes[..];
    }

    /** PC_SET_ALARM_REGION up to its two byte writes */
    method SelectAlarmRegion(para: Word)
      requires Valid()
      modifies this`select, eeprom
      ensures Valid()
      ensures Abstract() == Apply(old(Abstract()), SelectGroup(para))
    {
      select := para;
      if select <= 15 {
        eeprom.WriteByte(2, (para / 0x100) % 0x100);
        eeprom.WriteByte(3, para % 0x100);
      }
    }

    /** save_sys_para; the record is copied into a zeroed buffer first. */
    method SaveSysPara(bytes: Parameters)
      requires Valid()
      modifies eeprom
      ensures Valid()
      ensures Abstract() == Apply(old(Abstract()), SaveParams(bytes))
    {
      hide PagedWrite;
      var buf := bytes + seq(384 - SYS_PARA_BYTES, _ => 0);
      assert buf[..SYS_PARA_BYTES] == bytes;
      eeprom.WritePage(SYS_PARA_ADDR, buf[..SYS_PARA_BYTES]);
    }

    /** The body of the region reply, from its slot byte on; the request names the slot in the low byte of para. */
    method ReplyRegion(para: Word, buf: array<Byte>)
      requires Valid() && buf.Length >= 9 + SLOT_BYTES && buf != zenithSave
      modifies this`rdWhich, eeprom, buf
      ensures Valid() && Abstract() == old(Abstract())
      ensures buf[8..9 + SLOT_BYTES] == ReplyBody(eeprom.mem, para % 0x100, old(buf[9..9 + SLOT_BYTES]))
      ensures buf[..8] == old(buf[..8]) && buf[9 + SLOT_BYTES..] == old(buf[9 + SLOT_BYTES..])
    {
      hide ReplyBody, SwapPairs, EepromDriver.ReadBack;
      ghost var was := buf[..];
      rdWhich := para % 0x100;
      var offset := GROUP_OFFSET + rdWhich * SLOT_SPACE;
      buf[8] := rdWhich;
      ghost var before := buf[..];
      eeprom.SequentialRead(offset, buf, 9, SLOT_BYTES);
      ghost var read := buf[..];
      SwapBytes(buf);
      ReplyAssembles(eeprom.mem, rdWhich, was, before, read, buf[..]);
    }

    /** The loop that exchanges the bytes of every point in the reply. */
    method SwapBytes(buf: array<Byte>)
      requires buf.Length >= 9 + BOUNDARY_BYTES
      modifies buf
      ensures buf[..] == old(buf[..9]) + SwapPairs(old(buf[9..9 + BOUNDARY_BYTES])) + old(buf[9 + BOUNDARY_BYTES..])
    {
      ghost var before := buf[..];
      ghost var points := buf[9..9 + BOUNDARY_BYTES];
      var i := 9;
      while i < 9 + BOUNDARY_BYTES
        invariant 9 <= i <= 9 + BOUNDARY_BYTES && i % 2 == 1
        invariant buf[..] == before[..9] + PairSwappedUpTo(points, i - 9) + before[9 + BOUNDARY_BYTES..]
      {
        SwapOne(before[..9], points, before[9 + BOUNDARY_BYTES..], i - 9);
        var temp := buf[i + 1];
        buf[i + 1] := buf[i];
        buf[i] := temp;
        i := i + 2;
      }
      assert PairSwappedUpTo(points, BOUNDARY_BYTES) == SwapPairs(points);
    }
  }

  /** The buffer before the call, after the slot byte, after the read and after the swap. */
  lemma ReplyAssembles(mem: Memory, slot: Byte, was: seq<Byte>, before: seq<Byte>, read: seq<Byte>, after: seq<Byte>)
    requires |was| >= 9 + SLOT_BYTES && before == was[8 := slot]
    requires read == before[..9] + EepromDriver.ReadBack(mem, SlotAddr(slot), before[9..9 + SLOT_BYTES])
                     + before[9 + SLOT_BYTES..]
    requires after == read[..9] + SwapPairs(read[9..9 + BOUNDARY_BYTES]) + read[9 + BOUNDARY_BYTES..]
    ensures |after| == |was|
    ensures after[8..9 + SLOT_BYTES] == ReplyBody(mem, slot, was[9..9 + SLOT_BYTES])
    ensures after[..8] == was[..8] && after[9 + SLOT_BYTES..] == was[9 + SLOT_BYTES..]
  {
    hide EepromDriver.ReadBack, SwapPairs;
    var r := EepromDriver.ReadBack(mem, SlotAddr(slot), before[9..9 + SLOT_BYTES]);
    assert before[9..9 + SLOT_BYTES] == was[9..9 + SLOT_BYTES];
    var head, points, rest, tail := was[..8], r[..BOUNDARY_BYTES], r[BOUNDARY_BYTES..], was[9 + SLOT_BYTES..];
    assert before[..9] == head + [slot];
    assert before[9 + SLOT_BYTES..] == tail;
    assert r == points + rest;
    assert read == (head + [slot]) + points + (rest + tail);
    ThreeParts(head + [slot], points, rest + tail);
    var body := [slot] + SwapPairs(points) + rest;
    assert after == head + body + tail;
    ThreeParts(head, body, tail);
  }

  lemma OverlaidWhole(s: seq<Byte>, block: seq<Byte>)
    requires |s| == |block|
    ensures EepromDriver.Overlaid(s, 0, block, |block|) == block
  {
  }

  lemma ThreeParts(a: seq<Byte>, b: seq<Byte>, c: seq<Byte>)
    ensures var s := a + b + c;
            s[..|a|] == a && s[|a|..|a| + |b|] == b && s[|a| + |b|..] == c
  {
  }

  lemma SwapOne(front: seq<Byte>, s: seq<Byte>, back: seq<Byte>, n: nat)
    requires |s| % 2 == 0 && n % 2 == 0 && n + 2 <= |s|
    ensures var t, i := front + PairSwappedUpTo(s, n) + back, |front| + n;
            front + PairSwappedUpTo(s, n + 2) + back == t[i + 1 := t[i]][i := t[i + 1]]
  {
  }
}
