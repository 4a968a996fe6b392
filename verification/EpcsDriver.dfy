/** The flash driver as the firmware runs it: commands in order, status polling, page and sector loops. */
module EpcsDriver {
  import opened Machine
  import opened SpiTransfer
  import opened EpcsChip
  import opened EpcsProtocol
  import opened EpcsFlash

  lemma CommandLength(c: Chip, write: seq<Byte>, readLen: nat, merge: bool)
    ensures |Command(c, write, readLen, merge).1| == readLen
  {
    ExchangeLength(Clock, c, All(write, readLen));
  }

  lemma ReleaseDeselects(c: Chip)
    ensures Release(c).frame == []
  {
  }

  lemma CommandDeselects(c: Chip, write: seq<Byte>, readLen: nat)
    ensures Command(c, write, readLen, false).0.frame == []
  {
    hide Release, Exchange;
    ReleaseDeselects(Exchange(Clock, c, All(write, readLen)).0);
  }

  /** Reading the status once more before an idle chip is seen. */
  lemma AwaitUnfolds(c: Chip)
    ensures c.busy > 0 ==>
              Await(c.(busy := c.busy - 1, frames := c.frames + [[READ_STATUS, 0]])) == Await(c)
    ensures c.busy == 0 ==> c.(frames := c.frames + [[READ_STATUS, 0]]) == Await(c)
  {
    if c.busy > 0 {
      assert [[READ_STATUS, 0]] + StatusReads(c.busy) == StatusReads(c.busy + 1);
      assert c.frames + [[READ_STATUS, 0]] + StatusReads(c.busy) == c.frames + StatusReads(c.busy + 1);
    } else {
      assert StatusReads(1) == [[READ_STATUS, 0]];
    }
  }

  class Epcs {
    var chip: Chip
    const fourByte: bool

    constructor (device: Chip, fourByte: bool)
      ensures chip == device && this.fourByte == fourByte
    {
      chip := device;
      this.fourByte := fourByte;
    }

    /** A completed SPI transaction (see EpcsChip.TransferIsCommand) */
    method Transaction(write: seq<Byte>, readLen: nat, merge: bool) returns (read: seq<Byte>)
      modifies this
      ensures (chip, read) == Command(old(chip), write, readLen, merge) && |read| == readLen
    {
      CommandLength(chip, write, readLen, merge);
      var (c, r) := Command(chip, write, readLen, merge);
      chip := c;
      read := r;
    }

    /** epcs_read_status_register */
    method ReadStatusRegister() returns (status: Byte)
      requires chip.frame == []
      modifies this
      ensures chip == old(chip).(busy := if old(chip).busy > 0 then old(chip).busy - 1 else 0,
                                 frames := old(chip).frames + [[READ_STATUS, 0]])
      ensures status % 2 == (if old(chip).busy > 0 then 1 else 0)
    {
      hide Command;
      StatusRead(chip);
      var r := Transaction([READ_STATUS], 1, false);
      status := r[0];
    }

    /** epcs_await_wip_released */
    method AwaitWipReleased()
      requires chip.frame == []
      modifies this
      ensures chip == Await(old(chip))
    {
      hide Await;
      AwaitUnfolds(chip);
      var status := ReadStatusRegister();
      while status % 2 != 0
        invariant chip.frame == []
        invariant if status % 2 != 0 then Await(chip) == Await(old(chip)) else chip == Await(old(chip))
        decreases chip.busy, status % 2
      {
        AwaitUnfolds(chip);
        status := ReadStatusRegister();
      }
    }

    /** epcs_write_enable */
    method WriteEnableChip()
      modifies this
      ensures chip == WriteEnable(old(chip))
    {
      hide Command;
      var r := Transaction([WRITE_ENABLE], 0, false);
    }

    /** epcs_enter_4_bytes_mode */
    method Enter4BytesMode()
      modifies this
      ensures chip == Enter4Bytes(old(chip))
    {
      hide Command, WriteEnable;
      WriteEnableChip();
      var r := Transaction([ENTER_4_BYTES], 0, false);
    }

    /** epcs_exit_4_bytes_mode */
    method Exit4BytesMode()
      modifies this
      ensures chip == Exit4Bytes(old(chip))
    {
      hide Command, WriteEnable;
      WriteEnableChip();
      var r := Transaction([EXIT_4_BYTES], 0, false);
    }

    /** epcs_sector_erase */
    method EraseSectorAt(offset: nat)
      modifies this
      ensures chip == EraseAt(old(chip), offset, fourByte)
    {
      hide Command, WriteEnable, Enter4Bytes, Exit4Bytes, AddressBytes, Await;
      var se := [SECTOR_ERASE] + AddressBytes(offset, fourByte);
      if fourByte {
        Enter4BytesMode();
      }
      WriteEnableChip();
      CommandDeselects(chip, se, 0);
      var r := Transaction(se, 0, false);
      AwaitWipReleased();
      if fourByte {
        Exit4BytesMode();
      }
    }

    /** epcs_write_buffer */
    method WriteBufferAt(offset: nat, data: seq<Byte>)
      requires data != []
      modifies this
      ensures chip == WriteBuffer(old(chip), offset, data, fourByte)
    {
      hide Command, WriteEnable, Enter4Bytes, Exit4Bytes, AddressBytes, Await;
      var pp := [PAGE_PROGRAM] + AddressBytes(offset, fourByte);
      if fourByte {
        Enter4BytesMode();
      }
      WriteEnableChip();
      var r := Transaction(pp, 0, true);
      CommandDeselects(chip, data, 0);
      r := Transaction(data, 0, false);
      AwaitWipReleased();
      if fourByte {
        Exit4BytesMode();
      }
    }

    /** epcs_read_buffer */
    method ReadBufferAt(offset: nat, n: nat) returns (bytes: seq<Byte>)
      requires chip.frame == []
      modifies this
      ensures (chip, bytes) == ReadBuffer(old(chip), offset, n, fourByte) && |bytes| == n
    {
      hide Command, WriteEnable, Enter4Bytes, Exit4Bytes, AddressBytes, Await;
      if fourByte {
        EnterDeselects(chip);
        Enter4BytesMode();
      }
      AwaitWipReleased();
      bytes := Transaction([READ] + AddressBytes(offset, fourByte), n, false);
      if fourByte {
        Exit4BytesMode();
      }
    }

    /** alt_epcs_test_address */
    method TestAddress(offset: nat) returns (code: int)
      ensures code == if offset < |chip.mem| then 0 else -EIO
    {
      var last := |chip.mem| - 1;
      code := 0;
      if offset > last {
        code := -EIO;
      }
    }

    /** alt_epcs_flash_erase_block */
    method EraseBlock(offset: nat) returns (code: int)
      modifies this
      ensures code == if offset < |old(chip).mem| then 0 else -EIO
      ensures chip == if code == 0 then EraseAt(old(chip), offset, fourByte) else old(chip)
    {
      code := TestAddress(offset);
      if code >= 0 {
        EraseSectorAt(offset);
      }
    }

    /** alt_epcs_flash_write_block */
    method WriteBlockAt(offset: nat, data: seq<Byte>) returns (code: int)
      modifies this
      ensures code == if offset < |old(chip).mem| then 0 else -EIO
      ensures chip == if code == 0 then WriteBlock(old(chip), offset, data, fourByte) else old(chip)
    {
      hide WriteBuffer;
      code := TestAddress(offset);
      if code >= 0 {
        var dataOffset, bufferOffset, length := offset, 0, |data|;
        assert data[0..] == data;
        while length != 0
          invariant 0 <= length && bufferOffset + length == |data|
          invariant WriteBlock(chip, dataOffset, data[bufferOffset..], fourByte)
                 == WriteBlock(old(chip), offset, data, fourByte)
        {
          var nextPageStart := NextPage(dataOffset);
          var n := Min(length, nextPageStart - dataOffset);
          ghost var rest := data[bufferOffset..];
          assert data[bufferOffset..bufferOffset + n] == rest[..n] && data[bufferOffset + n..] == rest[n..];
          WriteBufferAt(dataOffset, data[bufferOffset..bufferOffset + n]);
          length := length - n;
          bufferOffset := bufferOffset + n;
          dataOffset := nextPageStart;
        }
      }
    }

    /** alt_epcs_flash_read */
    method ReadFlash(offset: nat, n: nat) returns (code: int, bytes: seq<Byte>)
      requires chip.frame == []
      modifies this
      ensures code == if offset < |old(chip).mem| then 0 else -EIO
      ensures code == 0 ==> (chip, bytes) == ReadBuffer(old(chip), offset, n, fourByte)
      ensures code != 0 ==> chip == old(chip)
    {
      code := TestAddress(offset);
      bytes := [];
      if code >= 0 {
        bytes := ReadBufferAt(offset, n);
        code := |bytes|;
        if code == n {
          code := 0;
        }
      }
    }

    /** alt_epcs_flash_memcmp, inside the device */
    method CompareAt(offset: nat, data: seq<Byte>) returns (same: bool)
      requires Settled(chip) && Guarded(chip.frames) && |chip.mem| <= (if fourByte then WORD else 0x100_0000)
      requires offset + |data| <= |chip.mem|
      modifies this
      ensures (chip, same) == Compare(old(chip), offset, data, fourByte)
    {
      hide ReadBuffer, Guarded, Settled;
      var done := 0;
      same := true;
      assert data[0..] == data;
      while done < |data|
        invariant done <= |data| && same
        invariant Compare(chip, offset + done, data[done..], fourByte) == Compare(old(chip), offset, data, fourByte)
        invariant Settled(chip) && Guarded(chip.frames) && chip.mem == old(chip).mem
      {
        var n := Min(|data| - done, COMPARE);
        ghost var rest := data[done..];
        assert data[done..done + n] == rest[..n] && data[done + n..] == rest[n..];
        ReadIs(chip, offset + done, n, fourByte);
        SettledDeselected(chip);
        var code, piece := ReadFlash(offset + done, n);
        if piece != data[done..done + n] {
          same := false;
          break;
        }
        done := done + n;
      }
    }

    /** alt_epcs_flash_write: the outer loop walks the sectors until it has written all or left the device. */
    method WriteFlash(offset: nat, data: seq<Byte>) returns (code: int)
      requires Settled(chip) && Guarded(chip.frames) && |chip.mem| <= (if fourByte then WORD else 0x100_0000)
      modifies this
      ensures code == 0
      ensures chip == FlashWrite(old(chip), offset, data, fourByte)
    {
      hide Guarded, Settled, Compare, WriteBlock, EraseAt, FlashWrite, Stores;
      code := 0;
      var at, rest := offset, data;
      while at < |chip.mem| && rest != []
        invariant code == 0 && 0 <= at
        invariant Settled(chip) && Guarded(chip.frames) && |chip.mem| == |old(chip).mem|
        invariant FlashWrite(chip, at, rest, fourByte) == FlashWrite(old(chip), offset, data, fourByte)
        decreases |rest|
      {
        var start := at / SECTOR * SECTOR;
        var n := Min(|rest|, start + SECTOR - at);
        SectorInside(chip.mem, at);
        WriteSectorFirst(chip, at, rest, fourByte);
        WriteSectorMeans(chip, at, rest[..n], fourByte);
        SameSize(chip.mem, WriteSector(chip, at, rest[..n], fourByte).mem, at, rest[..n]);
        CompareMeans(chip, at, rest[..n], fourByte);
        var same := CompareAt(at, rest[..n]);
        if !same {
          ghost var c1 := chip;
          EraseMeans(chip, start, fourByte);
          ServeKeeps(chip, Erase(start), fourByte);
          code := EraseBlock(start);
          if code == 0 {
            code := WriteBlockAt(at, rest[..n]);
          }
        }
        at := start + SECTOR;
        rest := rest[n..];
      }
      NothingFits(chip, at, rest, fourByte);
    }
  }

  lemma EnterDeselects(c: Chip)
    ensures Enter4Bytes(c).frame == []
  {
    hide Command;
    CommandDeselects(WriteEnable(c), [ENTER_4_BYTES], 0);
  }

  lemma SettledDeselected(c: Chip)
    ensures Settled(c) ==> c.frame == []
  {
  }
}
