/** What flash writes, reads and erases mean for the data, from one page up to a whole write across sectors. */
module EpcsFlash {
  import opened Machine
  import opened SpiTransfer
  import opened EpcsChip
  import opened EpcsProtocol

  // ---------------------------------------------------------------- one page

  /** Memory with the range ANDed with the data: what programming can do. */
  function Programmed(mem: FlashMemory, at: nat, data: seq<Byte>): (r: FlashMemory)
    requires at + |data| <= |mem|
    ensures |r| == |mem|
  {
    seq(|mem|, i requires 0 <= i < |mem| => if at <= i < at + |data| then AndByte(mem[i], data[i - at]) else mem[i])
  }

  lemma ProgrammedJoins(mem: FlashMemory, at: nat, a: seq<Byte>, b: seq<Byte>)
    requires at + |a| + |b| <= |mem|
    ensures Programmed(Programmed(mem, at, a), at + |a|, b) == Programmed(mem, at, a + b)
  {
    hide AndByte;
  }

  lemma {:induction false} ProgramInPage(mem: FlashMemory, page: nat, off: nat, data: seq<Byte>)
    requires page + PAGE <= |mem| && off < PAGE && off + |data| <= PAGE
    ensures Program(mem, page, off, data) == Programmed(mem, page + off, data)
    decreases |data|
  {
    hide AndByte, Programmed;
    if data != [] {
      var mem' := mem[page + off := AndByte(mem[page + off], data[0])];
      ProgrammedOne(mem, page + off, data[0]);
      assert [data[0]] + data[1..] == data;
      if |data| == 1 {
        assert data[1..] == [] && data == [data[0]];
        assert Program(mem', page, (off + 1) % PAGE, []) == mem';
      } else {
        ProgramInPage(mem', page, off + 1, data[1..]);
        assert page + off + |[data[0]]| + |data[1..]| <= |mem|;
        ProgrammedJoins(mem, page + off, [data[0]], data[1..]);
      }
    } else {
      ProgrammedNothing(mem, page + off);
    }
  }

  lemma ProgrammedOne(mem: FlashMemory, at: nat, b: Byte)
    requires at < |mem|
    ensures Programmed(mem, at, [b]) == mem[at := AndByte(mem[at], b)]
  {
    hide AndByte;
  }

  predicate Blank(mem: FlashMemory, at: nat, n: nat)
    requires at + n <= |mem|
  {
    forall i :: at <= i < at + n ==> mem[i] == 0xff
  }

  lemma {:induction false} AndOfOnes(n: nat, b: nat)
    requires b <= Ones(n)
    ensures AndBits(Ones(n), b, n) == b
  {
    if n != 0 {
      assert Ones(n) / 2 == Ones(n - 1) && Ones(n) % 2 == 1;
      AndOfOnes(n - 1, b / 2);
    }
  }

  lemma AndOnes(b: Byte)
    ensures AndByte(0xff, b) == b
  {
    hide AndBits;
    OnesIs();
    AndOfOnes(8, b);
  }

  /** Programming blank flash stores the data. */
  lemma ProgrammedBlank(mem: FlashMemory, at: nat, data: seq<Byte>)
    requires at + |data| <= |mem| && Blank(mem, at, |data|)
    ensures Programmed(mem, at, data)[at..at + |data|] == data
  {
    hide AndByte;
    forall i | 0 <= i < |data|
      ensures Programmed(mem, at, data)[at + i] == data[i]
    {
      AndOnes(data[i]);
    }
  }

  /** A page-contained write ANDs its range; through it the chip stays settled and the frames guarded. */
  lemma PageWriteMeans(c: Chip, offset: nat, data: seq<Byte>, fourByte: bool)
    requires Settled(c) && Guarded(c.frames) && Reachable(c.mem, offset, fourByte)
    requires data != [] && offset % PAGE + |data| <= PAGE
    ensures offset + |data| <= |c.mem|
    ensures var c' := WriteBuffer(c, offset, data, fourByte);
            c'.mem == Programmed(c.mem, offset, data) && Settled(c') && Guarded(c'.frames)
  {
    hide WriteBuffer, Program, Programmed, Guarded, AddressBytes, WriteFrames;
    PageInside(c.mem, offset);
    WriteMeans(c, offset, data, fourByte);
    ProgramInPage(c.mem, offset / PAGE * PAGE, offset % PAGE, data);
    ServeKeeps(c, Write(offset, data), fourByte);
  }

  // ---------------------------------------------------------------- blocks

  /** Start of the page behind the one an offset lies in. */
  function NextPage(offset: nat): nat { offset / PAGE * PAGE + PAGE }

  /** alt_epcs_flash_write_block, on an offset inside the device */
  function WriteBlock(c: Chip, offset: nat, data: seq<Byte>, fourByte: bool): Chip
    decreases |data|
  {
    if data == [] then c
    else
      var n := Min(|data|, NextPage(offset) - offset);
      WriteBlock(WriteBuffer(c, offset, data[..n], fourByte), NextPage(offset), data[n..], fourByte)
  }

  lemma {:induction false} WriteBlockMeans(c: Chip, offset: nat, data: seq<Byte>, fourByte: bool)
    requires Settled(c) && Guarded(c.frames) && |c.mem| <= (if fourByte then WORD else 0x100_0000)
    requires offset + |data| <= |c.mem|
    ensures var c' := WriteBlock(c, offset, data, fourByte);
            c'.mem == Programmed(c.mem, offset, data) && Settled(c') && Guarded(c'.frames)
    decreases |data|
  {
    hide WriteBuffer, Programmed, Guarded;
    if data != [] {
      var n := Min(|data|, NextPage(offset) - offset);
      PageWriteMeans(c, offset, data[..n], fourByte);
      var c1 := WriteBuffer(c, offset, data[..n], fourByte);
      assert data[..n] + data[n..] == data;
      if n < |data| {
        WriteBlockMeans(c1, NextPage(offset), data[n..], fourByte);
        ProgrammedJoins(c.mem, offset, data[..n], data[n..]);
      } else {
        assert data[..n] == data && data[n..] == [];
      }
    } else {
      ProgrammedNothing(c.mem, offset);
    }
  }

  lemma ProgrammedNothing(mem: FlashMemory, at: nat)
    requires at <= |mem|
    ensures Programmed(mem, at, []) == mem
  {
  }

  lemma MemoryInside(mem: FlashMemory, at: nat, n: nat)
    requires at + n <= |mem|
    ensures MemoryFrom(mem, at, n) == mem[at..at + n]
  {
    forall i | 0 <= i < n
      ensures MemoryFrom(mem, at, n)[i] == mem[at..at + n][i]
    {
      Same(at + i, |mem|);
    }
  }

  /** Writing a blank range and reading it returns the data, for any offset and length inside the device. */
  lemma WriteThenRead(c: Chip, offset: nat, data: seq<Byte>, fourByte: bool)
    requires Settled(c) && Guarded(c.frames) && |c.mem| <= (if fourByte then WORD else 0x100_0000)
    requires offset + |data| <= |c.mem| && offset < |c.mem| && Blank(c.mem, offset, |data|)
    ensures ReadBuffer(WriteBlock(c, offset, data, fourByte), offset, |data|, fourByte).1 == data
  {
    hide ReadBuffer, WriteBlock, Programmed, Blank, ReadFrames, Guarded, MemoryFrom;
    WriteBlockMeans(c, offset, data, fourByte);
    var c' := WriteBlock(c, offset, data, fourByte);
    ReadMeans(c', offset, |data|, fourByte);
    MemoryInside(c'.mem, offset, |data|);
    ProgrammedBlank(c.mem, offset, data);
  }

  // ---------------------------------------------------------------- a whole write

  const COMPARE := 32

  /** alt_epcs_flash_memcmp: reads in pieces until one differs */
  function Compare(c: Chip, offset: nat, data: seq<Byte>, fourByte: bool): (Chip, bool)
    decreases |data|
  {
    if data == [] then (c, true)
    else
      var n := Min(|data|, COMPARE);
      var (c', bytes) := ReadBuffer(c, offset, n, fourByte);
      if bytes != data[..n] then (c', false) else Compare(c', offset + n, data[n..], fourByte)
  }

  /** alt_epcs_flash_write: sector by sector, erasing and writing those whose contents differ */
  function FlashWrite(c: Chip, offset: nat, data: seq<Byte>, fourByte: bool): Chip
    decreases |data|
  {
    if offset >= |c.mem| || data == [] then c
    else
      var start := offset / SECTOR * SECTOR;
      var n := Min(|data|, start + SECTOR - offset);
      var (c1, same) := Compare(c, offset, data[..n], fourByte);
      var c2 := if same then c1 else WriteBlock(EraseAt(c1, start, fourByte), offset, data[..n], fourByte);
      FlashWrite(c2, start + SECTOR, data[n..], fourByte)
  }

  lemma ReadIs(c: Chip, offset: nat, n: nat, fourByte: bool)
    requires Settled(c) && Guarded(c.frames) && |c.mem| <= (if fourByte then WORD else 0x100_0000)
    requires offset + n <= |c.mem| && offset < |c.mem|
    ensures var (c', bytes) := ReadBuffer(c, offset, n, fourByte);
            bytes == c.mem[offset..offset + n] && c'.mem == c.mem && Settled(c') && Guarded(c'.frames)
  {
    hide ReadBuffer, ReadFrames, Guarded, MemoryFrom;
    ReadMeans(c, offset, n, fourByte);
    MemoryInside(c.mem, offset, n);
    ServeKeeps(c, Read(offset, n), fourByte);
  }

  lemma {:induction false} CompareMeans(c: Chip, offset: nat, data: seq<Byte>, fourByte: bool)
    requires Settled(c) && Guarded(c.frames) && |c.mem| <= (if fourByte then WORD else 0x100_0000)
    requires offset + |data| <= |c.mem|
    ensures var (c', same) := Compare(c, offset, data, fourByte);
            && c'.mem == c.mem && Settled(c') && Guarded(c'.frames)
            && (same <==> c.mem[offset..offset + |data|] == data)
    decreases |data|
  {
    hide ReadBuffer, Guarded, Settled;
    if data != [] {
      var n := Min(|data|, COMPARE);
      ReadIs(c, offset, n, fourByte);
      var c' := ReadBuffer(c, offset, n, fourByte).0;
      var there := c.mem[offset..offset + |data|];
      assert there[..n] == c.mem[offset..offset + n] && there[n..] == c.mem[offset + n..offset + |data|];
      SplitMatch(there, data, n);
      if c.mem[offset..offset + n] == data[..n] {
        CompareMeans(c', offset + n, data[n..], fourByte);
      }
    }
  }

  lemma SplitMatch(a: seq<Byte>, b: seq<Byte>, n: nat)
    requires |a| == |b| && n <= |a|
    ensures a == b <==> a[..n] == b[..n] && a[n..] == b[n..]
  {
    assert a == a[..n] + a[n..] && b == b[..n] + b[n..];
  }

  /** One sector of a whole write. */
  function WriteSector(c: Chip, offset: nat, data: seq<Byte>, fourByte: bool): Chip {
    var (c1, same) := Compare(c, offset, data, fourByte);
    if same then c1 else WriteBlock(EraseAt(c1, offset / SECTOR * SECTOR, fourByte), offset, data, fourByte)
  }

  /** The memory already holds what the data put into one sector. */
  predicate Matches(mem: FlashMemory, offset: nat, data: seq<Byte>, sector: nat)
    requires offset + |data| <= |mem|
  {
    forall i :: offset <= i < offset + |data| && i / SECTOR == sector ==> mem[i] == data[i - offset]
  }

  /** After the write the range holds the data; elsewhere a byte keeps its value, or has been erased with its sector, which
      happens to exactly those sectors whose part of the range did not hold the data already. */
  predicate Stores(before: FlashMemory, after: FlashMemory, offset: nat, data: seq<Byte>)
    requires offset + |data| <= |before|
  {
    && |after| == |before|
    && after[offset..offset + |data|] == data
    && forall k :: 0 <= k < |before| && !(offset <= k < offset + |data|) ==>
                     after[k] == if Matches(before, offset, data, k / SECTOR) then before[k] else 0xff
  }

  lemma SectorInside(mem: FlashMemory, offset: nat)
    requires offset < |mem|
    ensures offset / SECTOR * SECTOR <= offset < offset / SECTOR * SECTOR + SECTOR <= |mem|
  {
  }

  /** A range inside one sector. */
  lemma OneSector(mem: FlashMemory, offset: nat, data: seq<Byte>, k: nat)
    requires offset < |mem| && offset + |data| <= offset / SECTOR * SECTOR + SECTOR <= |mem|
    ensures k / SECTOR == offset / SECTOR ==>
              (Matches(mem, offset, data, k / SECTOR) <==> mem[offset..offset + |data|] == data)
    ensures k / SECTOR != offset / SECTOR ==> Matches(mem, offset, data, k / SECTOR)
  {
    var s, range := offset / SECTOR, mem[offset..offset + |data|];
    forall i | offset <= i < offset + |data| ensures i / SECTOR == s && range[i - offset] == mem[i] {
      InSector(i, s);
    }
    if Matches(mem, offset, data, s) {
      forall j | 0 <= j < |data| ensures range[j] == data[j] {
        assert mem[offset + j] == data[offset + j - offset];
      }
    }
  }

  lemma KeptWhenSame(mem: FlashMemory, offset: nat, data: seq<Byte>)
    requires offset < |mem| && data != [] && offset + |data| <= offset / SECTOR * SECTOR + SECTOR <= |mem|
    requires mem[offset..offset + |data|] == data
    ensures Stores(mem, mem, offset, data)
  {
    hide Matches;
    forall k | 0 <= k < |mem| ensures Matches(mem, offset, data, k / SECTOR) {
      OneSector(mem, offset, data, k);
    }
  }

  lemma ErasedThenProgrammed(mem: FlashMemory, offset: nat, data: seq<Byte>)
    requires offset < |mem| && data != [] && offset + |data| <= offset / SECTOR * SECTOR + SECTOR <= |mem|
    requires mem[offset..offset + |data|] != data
    ensures |EraseSector(mem, offset / SECTOR * SECTOR)| == |mem|
    ensures Stores(mem, Programmed(EraseSector(mem, offset / SECTOR * SECTOR), offset, data), offset, data)
  {
    hide AndByte, Matches;
    var start := offset / SECTOR * SECTOR;
    assert start / SECTOR * SECTOR == start;
    var erased := EraseSector(mem, start);
    ProgrammedBlank(erased, offset, data);
    var after := Programmed(erased, offset, data);
    forall k | 0 <= k < |mem| && !(offset <= k < offset + |data|)
      ensures after[k] == if Matches(mem, offset, data, k / SECTOR) then mem[k] else 0xff
    {
      assert after[k] == erased[k];
      OneSector(mem, offset, data, k);
      if start <= k < start + SECTOR {
        InSector(k, offset / SECTOR);
      } else {
        NotInSector(k, offset / SECTOR);
      }
    }
  }

  lemma NotInSector(k: nat, s: nat)
    requires !(s * SECTOR <= k < s * SECTOR + SECTOR)
    ensures k / SECTOR != s
  {
  }

  lemma InSector(k: nat, s: nat)
    requires s * SECTOR <= k < s * SECTOR + SECTOR
    ensures k / SECTOR == s
  {
  }

  lemma WriteSectorMeans(c: Chip, offset: nat, data: seq<Byte>, fourByte: bool)
    requires Settled(c) && Guarded(c.frames) && |c.mem| <= (if fourByte then WORD else 0x100_0000)
    requires offset < |c.mem| && data != [] && offset + |data| <= offset / SECTOR * SECTOR + SECTOR
    ensures offset + |data| <= |c.mem|
    ensures var c' := WriteSector(c, offset, data, fourByte);
            Stores(c.mem, c'.mem, offset, data) && Settled(c') && Guarded(c'.frames)
  {
    hide EraseAt, WriteBlock, Compare, Guarded, Programmed, EraseSector, AddressBytes, WriteFrames;
    SectorInside(c.mem, offset);
    CompareMeans(c, offset, data, fourByte);
    var (c1, same) := Compare(c, offset, data, fourByte);
    if !same {
      var start := offset / SECTOR * SECTOR;
      EraseMeans(c1, start, fourByte);
      ServeKeeps(c1, Erase(start), fourByte);
      WriteBlockMeans(EraseAt(c1, start, fourByte), offset, data, fourByte);
      ErasedThenProgrammed(c.mem, offset, data);
    } else {
      KeptWhenSame(c.mem, offset, data);
    }
  }

  lemma StoresJoins(a: FlashMemory, b: FlashMemory, c: FlashMemory, offset: nat, d: seq<Byte>, e: seq<Byte>)
    requires offset + |d| + |e| <= |a| && d != [] && e != []
    requires Stores(a, b, offset, d) && Stores(b, c, offset + |d|, e)
    requires (offset + |d|) % SECTOR == 0
    ensures Stores(a, c, offset, d + e)
  {
    hide Matches;
    var mid, end := offset + |d|, offset + |d| + |e|;
    forall k | offset <= k < mid
      ensures c[k] == d[k - offset]
    {
      assert b[offset..mid][k - offset] == b[k];
      BelowMatches(b, mid, e, k);
    }
    assert c[offset..end] == c[offset..mid] + c[mid..end];
    assert c[offset..mid] == d;
    forall k | 0 <= k < |a| && !(offset <= k < end)
      ensures c[k] == if Matches(a, offset, d + e, k / SECTOR) then a[k] else 0xff
    {
      LaterSame(a, b, offset, d, e, k / SECTOR);
      MatchesJoin(a, offset, d, e, k / SECTOR);
    }
  }

  /** Nothing of a range that begins with a sector lies in an earlier sector. */
  lemma BelowMatches(mem: FlashMemory, mid: nat, e: seq<Byte>, k: nat)
    requires mid + |e| <= |mem| && k < mid && mid % SECTOR == 0
    ensures Matches(mem, mid, e, k / SECTOR)
  {
    BelowSector(k, mid);
    forall i | mid <= i < mid + |e| ensures i / SECTOR >= mid / SECTOR {
    }
  }

  /** Writing the first part leaves the range of the second, in later sectors, as it was. */
  lemma LaterSame(a: FlashMemory, b: FlashMemory, offset: nat, d: seq<Byte>, e: seq<Byte>, sector: nat)
    requires offset + |d| + |e| <= |a| && Stores(a, b, offset, d) && (offset + |d|) % SECTOR == 0
    ensures Matches(b, offset + |d|, e, sector) <==> Matches(a, offset + |d|, e, sector)
  {
    var mid := offset + |d|;
    forall i | mid <= i < mid + |e| ensures b[i] == a[i] {
      AboveMatches(a, offset, d, i);
    }
  }

  lemma AboveMatches(mem: FlashMemory, offset: nat, d: seq<Byte>, k: nat)
    requires offset + |d| <= |mem| && offset + |d| <= k && (offset + |d|) % SECTOR == 0
    ensures Matches(mem, offset, d, k / SECTOR)
  {
    forall i | offset <= i < offset + |d| ensures i / SECTOR < k / SECTOR {
      BelowSector(i, offset + |d|);
      assert (offset + |d|) / SECTOR <= k / SECTOR;
    }
  }

  lemma MatchesJoin(mem: FlashMemory, offset: nat, d: seq<Byte>, e: seq<Byte>, sector: nat)
    requires offset + |d| + |e| <= |mem|
    ensures Matches(mem, offset, d + e, sector)
            <==> Matches(mem, offset, d, sector) && Matches(mem, offset + |d|, e, sector)
  {
    var both := d + e;
    if Matches(mem, offset, both, sector) {
      forall i | offset <= i < offset + |d| && i / SECTOR == sector ensures mem[i] == d[i - offset] {
        assert mem[i] == both[i - offset];
      }
      forall i | offset + |d| <= i < offset + |both| && i / SECTOR == sector ensures mem[i] == e[i - (offset + |d|)] {
        assert mem[i] == both[i - offset];
      }
    }
    if Matches(mem, offset, d, sector) && Matches(mem, offset + |d|, e, sector) {
      forall i | offset <= i < offset + |both| && i / SECTOR == sector ensures mem[i] == both[i - offset] {
      }
    }
  }

  lemma BelowSector(k: nat, mid: nat)
    requires k < mid && mid % SECTOR == 0
    ensures k / SECTOR < mid / SECTOR
  {
  }

  /** The part of the data that lies inside the device. */
  function Fitting(mem: FlashMemory, offset: nat, data: seq<Byte>): seq<Byte>
    requires offset <= |mem|
  {
    data[..Min(|data|, |mem| - offset)]
  }

  /** A whole write that begins inside the device stores all that fits. */
  lemma {:induction false} FlashWriteStores(c: Chip, offset: nat, data: seq<Byte>, fourByte: bool)
    requires Settled(c) && Guarded(c.frames) && |c.mem| <= (if fourByte then WORD else 0x100_0000)
    requires offset < |c.mem| && data != []
    ensures var c' := FlashWrite(c, offset, data, fourByte);
            Stores(c.mem, c'.mem, offset, Fitting(c.mem, offset, data)) && Settled(c') && Guarded(c'.frames)
    decreases |data|
  {
    hide FlashWrite, WriteSector, Guarded, Stores, Settled;
    SectorInside(c.mem, offset);
    var next := offset / SECTOR * SECTOR + SECTOR;
    var n := Min(|data|, next - offset);
    WriteSectorMeans(c, offset, data[..n], fourByte);
    var c2 := WriteSector(c, offset, data[..n], fourByte);
    SameSize(c.mem, c2.mem, offset, data[..n]);
    var rest := data[n..];
    WriteSectorFirst(c, offset, data, fourByte);
    if rest == [] || next >= |c.mem| {
      NothingFits(c2, next, rest, fourByte);
      assert Fitting(c.mem, offset, data) == data[..n];
    } else {
      FlashWriteStores(c2, next, rest, fourByte);
      var fit := Fitting(c2.mem, next, rest);
      assert data[..n] + fit == Fitting(c.mem, offset, data);
      StoresJoins(c.mem, c2.mem, FlashWrite(c, offset, data, fourByte).mem, offset, data[..n], fit);
    }
  }

  lemma WriteSectorFirst(c: Chip, offset: nat, data: seq<Byte>, fourByte: bool)
    requires offset < |c.mem| && data != []
    ensures var next := offset / SECTOR * SECTOR + SECTOR;
            var n := Min(|data|, next - offset);
            FlashWrite(c, offset, data, fourByte)
            == FlashWrite(WriteSector(c, offset, data[..n], fourByte), next, data[n..], fourByte)
  {
    hide Compare, WriteBlock, EraseAt;
  }

  lemma NothingFits(c: Chip, offset: nat, data: seq<Byte>, fourByte: bool)
    requires offset >= |c.mem| || data == []
    ensures FlashWrite(c, offset, data, fourByte) == c
  {
  }

  lemma SameSize(a: FlashMemory, b: FlashMemory, offset: nat, data: seq<Byte>)
    requires offset + |data| <= |a| && Stores(a, b, offset, data)
    ensures |a| == |b|
  {
  }

  /** A whole write stores all that fits, over any previous contents; one that begins past the end stores nothing. */
  lemma FlashWriteMeans(c: Chip, offset: nat, data: seq<Byte>, fourByte: bool)
    requires Settled(c) && Guarded(c.frames) && |c.mem| <= (if fourByte then WORD else 0x100_0000)
    ensures var c' := FlashWrite(c, offset, data, fourByte);
            && Settled(c') && Guarded(c'.frames)
            && if offset < |c.mem| && data != [] then Stores(c.mem, c'.mem, offset, Fitting(c.mem, offset, data)) else c' == c
  {
    hide FlashWrite, Stores, Guarded, Settled, Fitting;
    if offset < |c.mem| && data != [] {
      FlashWriteStores(c, offset, data, fourByte);
    } else {
      NothingFits(c, offset, data, fourByte);
    }
  }

  /** Reading back a write that fits returns it, whatever the flash held before. */
  lemma FlashWriteThenRead(c: Chip, offset: nat, data: seq<Byte>, fourByte: bool)
    requires Settled(c) && Guarded(c.frames) && |c.mem| <= (if fourByte then WORD else 0x100_0000)
    requires offset + |data| <= |c.mem| && data != []
    ensures ReadBuffer(FlashWrite(c, offset, data, fourByte), offset, |data|, fourByte).1 == data
  {
    hide FlashWrite, ReadBuffer, Guarded;
    FlashWriteMeans(c, offset, data, fourByte);
    assert Fitting(c.mem, offset, data) == data;
    ReadIs(FlashWrite(c, offset, data, fourByte), offset, |data|, fourByte);
  }

  /** A byte that is neither zero nor ones, and not the given one. */
  function Other(b: Byte): Byte { if b == 1 then 2 else 1 }

  /** A write past the end loses its tail: the read wraps to the start of the device, which shows something else. */
  lemma TailIsLost(c: Chip, offset: nat, n: nat, fourByte: bool) returns (data: seq<Byte>)
    requires Settled(c) && Guarded(c.frames) && |c.mem| <= (if fourByte then WORD else 0x100_0000)
    requires offset < |c.mem| < offset + n
    ensures |data| == n
    ensures ReadBuffer(FlashWrite(c, offset, data, fourByte), offset, n, fourByte).1 != data
  {
    hide FlashWrite, ReadBuffer, Guarded, ReadFrames, Settled;
    var k := |c.mem| - offset;
    data := Zeros(k) + [Other(c.mem[0])] + Zeros(n - k - 1);
    FlashWriteMeans(c, offset, data, fourByte);
    var c' := FlashWrite(c, offset, data, fourByte);
    assert Fitting(c.mem, offset, data) == Zeros(k);
    StartShows(c.mem, c'.mem, offset, k);
    ReadMeans(c', offset, n, fourByte);
    assert MemoryFrom(c'.mem, offset, n)[k] == c'.mem[(offset + k) % |c.mem|];
    assert data[k] == Other(c.mem[0]);
  }

  lemma StartShows(before: FlashMemory, after: FlashMemory, offset: nat, n: nat)
    requires offset + n == |before| && n > 0 && Stores(before, after, offset, Zeros(n))
    ensures |after| == |before| && after[0] != Other(before[0])
  {
    if offset == 0 {
      assert after[offset..offset + n][0] == after[0];
    }
  }

  /** All data of a length read back after a whole write exactly when the range lies inside the device; the call reports
      success either way. */
  lemma ReadsBackExactlyWhen(c: Chip, offset: nat, n: nat, fourByte: bool)
    requires Settled(c) && Guarded(c.frames) && |c.mem| <= (if fourByte then WORD else 0x100_0000)
    requires offset < |c.mem| && n > 0
    ensures (forall data: seq<Byte> :: |data| == n ==>
               ReadBuffer(FlashWrite(c, offset, data, fourByte), offset, n, fourByte).1 == data)
            <==> offset + n <= |c.mem|
  {
    hide FlashWrite, ReadBuffer, Guarded, Settled;
    if offset + n <= |c.mem| {
      forall data: seq<Byte> | |data| == n
        ensures ReadBuffer(FlashWrite(c, offset, data, fourByte), offset, n, fourByte).1 == data
      {
        FlashWriteThenRead(c, offset, data, fourByte);
      }
    } else {
      var data := TailIsLost(c, offset, n, fourByte);
    }
  }

  /** Two bytes written to the last place of a blank one-sector device. */
  lemma PastTheEndWitness()
    ensures var c := Chip(seq(SECTOR, _ => 0xff), false, 0, false, [], [], []);
            ReadBuffer(FlashWrite(c, SECTOR - 1, [0, 1], false), SECTOR - 1, 2, false).1 != [0, 1]
  {
    hide FlashWrite, ReadBuffer;
    var c := Chip(seq(SECTOR, _ => 0xff), false, 0, false, [], [], []);
    FlashWriteMeans(c, SECTOR - 1, [0, 1], false);
    var c' := FlashWrite(c, SECTOR - 1, [0, 1], false);
    assert Fitting(c.mem, SECTOR - 1, [0, 1]) == Zeros(1);
    StartShows(c.mem, c'.mem, SECTOR - 1, 1);
    ReadMeans(c', SECTOR - 1, 2, false);
    assert MemoryFrom(c'.mem, SECTOR - 1, 2)[1] == c'.mem[0];
  }
}
