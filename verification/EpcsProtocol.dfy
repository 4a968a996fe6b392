/** The flash commands built from SPI transactions, and what they do to the chip over any run of calls. */
module EpcsProtocol {
  import opened Machine
  import opened SpiTransfer
  import opened EpcsChip

  // ---------------------------------------------------------------- the commands

  function WriteEnable(c: Chip): Chip { Command(c, [WRITE_ENABLE], 0, false).0 }
  function Enter4Bytes(c: Chip): Chip { Command(WriteEnable(c), [ENTER_4_BYTES], 0, false).0 }
  function Exit4Bytes(c: Chip): Chip { Command(WriteEnable(c), [EXIT_4_BYTES], 0, false).0 }

  function StatusReads(n: nat): seq<seq<Byte>> { seq(n, _ => [READ_STATUS, 0]) }

  /** epcs_await_wip_released: status reads until one shows the chip idle */
  function Await(c: Chip): Chip { c.(busy := 0, frames := c.frames + StatusReads(c.busy + 1)) }

  function Enter(c: Chip, fourByte: bool): Chip { if fourByte then Enter4Bytes(c) else c }
  function Exit(c: Chip, fourByte: bool): Chip { if fourByte then Exit4Bytes(c) else c }

  /** epcs_sector_erase */
  function EraseAt(c: Chip, offset: nat, fourByte: bool): Chip {
    var ready := WriteEnable(Enter(c, fourByte));
    Exit(Await(Command(ready, [SECTOR_ERASE] + AddressBytes(offset, fourByte), 0, false).0), fourByte)
  }

  /** epcs_write_buffer: the merge flag keeps the chip selected between the command and the data */
  function WriteBuffer(c: Chip, offset: nat, data: seq<Byte>, fourByte: bool): Chip {
    var ready := WriteEnable(Enter(c, fourByte));
    var headed := Command(ready, [PAGE_PROGRAM] + AddressBytes(offset, fourByte), 0, true).0;
    Exit(Await(Command(headed, data, 0, false).0), fourByte)
  }

  /** epcs_read_buffer */
  function ReadBuffer(c: Chip, offset: nat, n: nat, fourByte: bool): (Chip, seq<Byte>) {
    var ready := Await(Enter(c, fourByte));
    var (c', bytes) := Command(ready, [READ] + AddressBytes(offset, fourByte), n, false);
    (Exit(c', fourByte), bytes)
  }

  // ---------------------------------------------------------------- what each does

  /** Between calls: deselected, idle, in 3-byte mode, write latch down. */
  predicate Settled(c: Chip) { c.frame == [] && c.busy == 0 && !c.fourByte && !c.wel }

  function EnterFrames(fourByte: bool): seq<seq<Byte>> { if fourByte then [[WRITE_ENABLE], [ENTER_4_BYTES]] else [] }
  function ExitFrames(fourByte: bool): seq<seq<Byte>> { if fourByte then [[WRITE_ENABLE], [EXIT_4_BYTES]] else [] }

  lemma EnableOf(c: Chip)
    requires c.frame == [] && c.busy == 0
    ensures WriteEnable(c) == c.(wel := true, frames := c.frames + [[WRITE_ENABLE]])
  {
    hide Command, Clock, Exchange, All;
    assert [] + [WRITE_ENABLE] == [WRITE_ENABLE];
    WriteOnly(c, [WRITE_ENABLE], false);
  }

  lemma ModeOf(c: Chip)
    requires c.frame == [] && c.busy == 0
    ensures Enter4Bytes(c) == c.(fourByte := true, wel := false, frames := c.frames + EnterFrames(true))
    ensures Exit4Bytes(c) == c.(fourByte := false, wel := false, frames := c.frames + ExitFrames(true))
  {
    hide Command, WriteEnable;
    EnableOf(c);
    var e := WriteEnable(c);
    assert [] + [ENTER_4_BYTES] == [ENTER_4_BYTES] && [] + [EXIT_4_BYTES] == [EXIT_4_BYTES];
    WriteOnly(e, [ENTER_4_BYTES], false);
    WriteOnly(e, [EXIT_4_BYTES], false);
    assert c.frames + [[WRITE_ENABLE]] + [[ENTER_4_BYTES]] == c.frames + EnterFrames(true);
    assert c.frames + [[WRITE_ENABLE]] + [[EXIT_4_BYTES]] == c.frames + ExitFrames(true);
  }

  lemma EnterOf(c: Chip, fourByte: bool)
    requires Settled(c)
    ensures Enter(c, fourByte) == c.(fourByte := fourByte, frames := c.frames + EnterFrames(fourByte))
  {
    hide Enter4Bytes;
    ModeOf(c);
    assert c.frames + [] == c.frames;
  }

  lemma ExitOf(c: Chip, fourByte: bool)
    requires c.frame == [] && c.busy == 0 && !c.wel && c.fourByte == fourByte
    ensures Exit(c, fourByte) == c.(fourByte := false, frames := c.frames + ExitFrames(fourByte))
  {
    hide Exit4Bytes;
    ModeOf(c);
    assert c.frames + [] == c.frames;
  }

  /** Status reads the next program or erase will take. */
  function NextTime(c: Chip): nat { if c.times == [] then 0 else c.times[0] }
  function LaterTimes(c: Chip): seq<nat> { if c.times == [] then [] else c.times[1..] }

  /** The frames of a program or erase: mode and enable commands, one frame of its own, status reads. */
  function WriteFrames(c: Chip, body: seq<Byte>, fourByte: bool): seq<seq<Byte>> {
    EnterFrames(fourByte) + [[WRITE_ENABLE], body] + StatusReads(NextTime(c) + 1) + ExitFrames(fourByte)
  }

  function Done(c: Chip, mem: FlashMemory, body: seq<Byte>, fourByte: bool): Chip {
    c.(mem := mem, times := LaterTimes(c), frames := c.frames + WriteFrames(c, body, fourByte))
  }

  lemma EraseReleased(c: Chip, offset: nat)
    requires c.busy == 0 && c.wel && Reachable(c.mem, offset, c.fourByte)
    requires c.frame == [SECTOR_ERASE] + AddressBytes(offset, c.fourByte)
    ensures Release(c) == Busy(c.(mem := EraseSector(c.mem, offset), frame := [], frames := c.frames + [c.frame]))
  {
    hide AddressBytes, EraseSector, Address, Program;
    assert c.frame[1..] == AddressBytes(offset, c.fourByte) + [];
    AddressIs(c, offset, []);
    AddressBytesLength(offset, c.fourByte);
  }

  lemma ProgramReleased(c: Chip, offset: nat, data: seq<Byte>)
    requires c.busy == 0 && c.wel && Reachable(c.mem, offset, c.fourByte) && data != []
    requires c.frame == [PAGE_PROGRAM] + AddressBytes(offset, c.fourByte) + data
    ensures offset / PAGE * PAGE + PAGE <= |c.mem|
    ensures Release(c) == Busy(c.(mem := Program(c.mem, offset / PAGE * PAGE, offset % PAGE, data), frame := [],
                                  frames := c.frames + [c.frame]))
  {
    hide AddressBytes, EraseSector, Address, Program;
    assert c.frame[1..] == AddressBytes(offset, c.fourByte) + data;
    AddressIs(c, offset, data);
    AddressBytesLength(offset, c.fourByte);
    PageInside(c.mem, offset);
  }

  lemma AddressBytesLength(offset: nat, fourByte: bool)
    ensures |AddressBytes(offset, fourByte)| == AddressLength(fourByte)
  {
  }

  /** The end of a program or erase, once the chip has started it. */
  lemma Finish(c: Chip, mem: FlashMemory, body: seq<Byte>, fourByte: bool)
    requires Settled(c)
    ensures var started := c.(fourByte := fourByte, frames := c.frames + EnterFrames(fourByte) + [[WRITE_ENABLE]] + [body],
                              wel := true, mem := mem);
            Exit(Await(Busy(started)), fourByte) == Done(c, mem, body, fourByte)
  {
    hide Exit, StatusReads;
    var started := c.(fourByte := fourByte, frames := c.frames + EnterFrames(fourByte) + [[WRITE_ENABLE]] + [body],
                      wel := true, mem := mem);
    var waited := Await(Busy(started));
    ExitOf(waited, fourByte);
    var f, polled := c.frames, StatusReads(NextTime(c) + 1);
    assert f + EnterFrames(fourByte) + [[WRITE_ENABLE]] + [body] + polled + ExitFrames(fourByte)
        == f + (EnterFrames(fourByte) + [[WRITE_ENABLE], body] + polled + ExitFrames(fourByte));
  }

  /** An erase is one frame behind a write enable; it fills its sector with ones and leaves the chip settled. */
  lemma EraseMeans(c: Chip, offset: nat, fourByte: bool)
    requires Settled(c) && Reachable(c.mem, offset, fourByte)
    ensures EraseAt(c, offset, fourByte)
         == Done(c, EraseSector(c.mem, offset), [SECTOR_ERASE] + AddressBytes(offset, fourByte), fourByte)
  {
    hide Command, WriteEnable, Enter, Exit, Await, EraseSector, Release, AddressBytes, Done, Busy;
    var body := [SECTOR_ERASE] + AddressBytes(offset, fourByte);
    EnterOf(c, fourByte);
    var c1 := Enter(c, fourByte);
    EnableOf(c1);
    var c2 := WriteEnable(c1);
    assert c2.frame + body == body;
    WriteOnly(c2, body, false);
    EraseReleased(c2.(frame := body), offset);
    Finish(c, EraseSector(c.mem, offset), body, fourByte);
  }

  /** A write is one frame behind a write enable, command and data joined. */
  lemma WriteMeans(c: Chip, offset: nat, data: seq<Byte>, fourByte: bool)
    requires Settled(c) && Reachable(c.mem, offset, fourByte) && data != []
    ensures offset / PAGE * PAGE + PAGE <= |c.mem|
    ensures WriteBuffer(c, offset, data, fourByte)
         == Done(c, Program(c.mem, offset / PAGE * PAGE, offset % PAGE, data),
                 [PAGE_PROGRAM] + AddressBytes(offset, fourByte) + data, fourByte)
  {
    hide Command, WriteEnable, Enter, Exit, Await, Program, Release, AddressBytes, Done, Busy;
    var head := [PAGE_PROGRAM] + AddressBytes(offset, fourByte);
    EnterOf(c, fourByte);
    var c1 := Enter(c, fourByte);
    EnableOf(c1);
    var c2 := WriteEnable(c1);
    assert c2.frame + head == head;
    WriteOnly(c2, head, true);
    var c3 := c2.(frame := head);
    WriteOnly(c3, data, false);
    ProgramReleased(c2.(frame := head + data), offset, data);
    Finish(c, Program(c.mem, offset / PAGE * PAGE, offset % PAGE, data), head + data, fourByte);
  }

  function ReadFrames(offset: nat, n: nat, fourByte: bool): seq<seq<Byte>> {
    EnterFrames(fourByte) + StatusReads(1) + [[READ] + AddressBytes(offset, fourByte) + Zeros(n)] + ExitFrames(fourByte)
  }

  /** A read returns the memory from the offset on and changes nothing but the log of frames. */
  lemma ReadMeans(c: Chip, offset: nat, n: nat, fourByte: bool)
    requires Settled(c) && Reachable(c.mem, offset, fourByte)
    ensures ReadBuffer(c, offset, n, fourByte)
         == (c.(frames := c.frames + ReadFrames(offset, n, fourByte)), MemoryFrom(c.mem, offset, n))
  {
    hide Enter, Exit, AddressBytes, Exchange, Clock, MemoryFrom, StatusReads, Zeros;
    EnterOf(c, fourByte);
    var c1 := Enter(c, fourByte);
    var c2 := Await(c1);
    var head := [READ] + AddressBytes(offset, fourByte);
    ReadStreams(c2, offset, n);
    var c3 := c2.(frame := head + Zeros(n));
    assert c3.frame[0] == READ;
    var c4 := Release(c3);
    assert c4 == c2.(frames := c2.frames + [head + Zeros(n)]);
    ExitOf(c4, fourByte);
    assert c.frames + EnterFrames(fourByte) + StatusReads(1) + [head + Zeros(n)] + ExitFrames(fourByte)
        == c.frames + ReadFrames(offset, n, fourByte);
  }

  // ---------------------------------------------------------------- the order of frames, over whole runs

  predicate NeedsEnable(f: seq<Byte>) { f != [] && f[0] in {PAGE_PROGRAM, SECTOR_ERASE, ENTER_4_BYTES, EXIT_4_BYTES} }

  /** Every program, erase and mode change comes directly behind a write enable. */
  predicate Guarded(fs: seq<seq<Byte>>) {
    forall i :: 0 <= i < |fs| && NeedsEnable(fs[i]) ==> i > 0 && fs[i - 1] == [WRITE_ENABLE]
  }

  lemma GuardedJoins(a: seq<seq<Byte>>, b: seq<seq<Byte>>)
    requires Guarded(a) && Guarded(b)
    ensures Guarded(a + b)
  {
    forall i | 0 <= i < |a + b| && NeedsEnable((a + b)[i])
      ensures i > 0 && (a + b)[i - 1] == [WRITE_ENABLE]
    {
      if i >= |a| {
        assert b[i - |a|] == (a + b)[i];
      }
    }
  }

  lemma FramesGuarded(c: Chip, body: seq<Byte>, fourByte: bool, offset: nat, n: nat)
    ensures Guarded(WriteFrames(c, body, fourByte)) && Guarded(ReadFrames(offset, n, fourByte))
  {
    hide AddressBytes, Zeros, Guarded, StatusReads, EnterFrames, ExitFrames;
    var e, x, w := EnterFrames(fourByte), ExitFrames(fourByte), [[WRITE_ENABLE], body];
    var frame := [READ] + AddressBytes(offset, fourByte) + Zeros(n);
    ModeGuarded(fourByte);
    BodyGuarded(body, NextTime(c) + 1);
    BodyGuarded(body, 1);
    PlainGuarded(frame);
    GuardedJoins(e, w);
    GuardedJoins(e + w, StatusReads(NextTime(c) + 1));
    GuardedJoins(e + w + StatusReads(NextTime(c) + 1), x);
    GuardedJoins(e, StatusReads(1));
    GuardedJoins(e + StatusReads(1), [frame]);
    GuardedJoins(e + StatusReads(1) + [frame], x);
  }

  lemma ModeGuarded(fourByte: bool)
    ensures Guarded(EnterFrames(fourByte)) && Guarded(ExitFrames(fourByte))
  {
  }

  lemma BodyGuarded(body: seq<Byte>, n: nat)
    ensures Guarded([[WRITE_ENABLE], body]) && Guarded(StatusReads(n))
  {
  }

  lemma PlainGuarded(f: seq<Byte>)
    requires !NeedsEnable(f)
    ensures Guarded([f])
  {
  }

  datatype Call = Erase(offset: nat) | Write(offset: nat, data: seq<Byte>) | Read(offset: nat, n: nat)

  /** A call the driver can serve; a write of nothing would never end (see SpiTransfer.NothingToMoveHangs). */
  predicate Servable(c: Chip, call: Call, fourByte: bool) {
    Reachable(c.mem, call.offset, fourByte) && (call.Write? ==> call.data != [])
  }

  function Serve(c: Chip, call: Call, fourByte: bool): Chip {
    match call
    case Erase(offset) => EraseAt(c, offset, fourByte)
    case Write(offset, data) => WriteBuffer(c, offset, data, fourByte)
    case Read(offset, n) => ReadBuffer(c, offset, n, fourByte).0
  }

  function ServeAll(c: Chip, calls: seq<Call>, fourByte: bool): Chip
    decreases |calls|
  {
    if calls == [] then c else Serve(ServeAll(c, calls[..|calls| - 1], fourByte), calls[|calls| - 1], fourByte)
  }

  lemma ServeKeeps(c: Chip, call: Call, fourByte: bool)
    requires Settled(c) && Servable(c, call, fourByte) && Guarded(c.frames)
    ensures var c' := Serve(c, call, fourByte);
            Settled(c') && Guarded(c'.frames) && |c'.mem| == |c.mem|
  {
    hide EraseAt, WriteBuffer, ReadBuffer, Program, EraseSector, AddressBytes, WriteFrames, ReadFrames, Guarded, MemoryFrom;
    match call
    case Erase(offset) =>
      EraseMeans(c, offset, fourByte);
      FramesGuarded(c, [SECTOR_ERASE] + AddressBytes(offset, fourByte), fourByte, 0, 0);
      GuardedJoins(c.frames, WriteFrames(c, [SECTOR_ERASE] + AddressBytes(offset, fourByte), fourByte));
      EraseKeepsSize(c.mem, offset);
    case Write(offset, data) =>
      WriteMeans(c, offset, data, fourByte);
      var body := [PAGE_PROGRAM] + AddressBytes(offset, fourByte) + data;
      FramesGuarded(c, body, fourByte, 0, 0);
      GuardedJoins(c.frames, WriteFrames(c, body, fourByte));
      ProgramKeepsSize(c.mem, offset / PAGE * PAGE, offset % PAGE, data);
    case Read(offset, n) =>
      ReadMeans(c, offset, n, fourByte);
      FramesGuarded(c, [], fourByte, offset, n);
      GuardedJoins(c.frames, ReadFrames(offset, n, fourByte));
  }

  lemma EraseKeepsSize(mem: FlashMemory, at: nat)
    requires at < |mem|
    ensures |EraseSector(mem, at)| == |mem|
  {
  }

  lemma {:induction false} ProgramKeepsSize(mem: FlashMemory, page: nat, off: nat, data: seq<Byte>)
    requires page + PAGE <= |mem| && off < PAGE
    ensures |Program(mem, page, off, data)| == |mem|
    decreases |data|
  {
    hide AndByte;
    if data != [] {
      ProgramKeepsSize(mem[page + off := AndByte(mem[page + off], data[0])], page, (off + 1) % PAGE, data[1..]);
    }
  }

  /** After any run of calls the chip is idle, deselected and in 3-byte mode, and every program, erase and mode change so
      far was a frame of its own behind a write enable. */
  lemma {:induction false} RunsKeepProtocol(c: Chip, calls: seq<Call>, fourByte: bool)
    requires Settled(c) && Guarded(c.frames)
    requires forall i :: 0 <= i < |calls| ==> Servable(c, calls[i], fourByte)
    ensures var c' := ServeAll(c, calls, fourByte);
            Settled(c') && Guarded(c'.frames) && |c'.mem| == |c.mem|
    decreases |calls|
  {
    hide Serve, Guarded, Settled;
    if calls != [] {
      var before, last := calls[..|calls| - 1], calls[|calls| - 1];
      RunsKeepProtocol(c, before, fourByte);
      assert Servable(c, last, fourByte);
      ServeKeeps(ServeAll(c, before, fourByte), last, fourByte);
    }
  }
}
