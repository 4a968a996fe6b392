/** A serial configuration flash as seen over SPI: chip-select frames, write enable latch, busy time, address width. */
module EpcsChip {
  import opened Machine
  import opened SpiTransfer

  const READ: Byte := 0x03
  const PAGE_PROGRAM: Byte := 0x02
  const WRITE_ENABLE: Byte := 0x06
  const READ_STATUS: Byte := 0x05
  const SECTOR_ERASE: Byte := 0xd8
  const ENTER_4_BYTES: Byte := 0xb7
  const EXIT_4_BYTES: Byte := 0xe9

  const PAGE := 256
  const SECTOR := 0x1_0000

  type FlashMemory = m: seq<Byte> | |m| > 0 && |m| % SECTOR == 0 witness seq(SECTOR, _ => 0xff)

  /** frame holds the bytes since the chip was selected, frames the finished frames. A program or erase keeps the chip
      busy for as many status reads as the next of times says. */
  datatype Chip = Chip(mem: FlashMemory, wel: bool, busy: nat, fourByte: bool, times: seq<nat>,
                       frame: seq<Byte>, frames: seq<seq<Byte>>)

  // ---------------------------------------------------------------- addresses

  function AddressLength(fourByte: bool): nat { if fourByte then 4 else 3 }

  function BigEndian(bytes: seq<Byte>): nat
    decreases |bytes|
  {
    if bytes == [] then 0 else BigEndian(bytes[..|bytes| - 1]) * 0x100 + bytes[|bytes| - 1]
  }

  /** The address bytes the driver puts behind a command. */
  function AddressBytes(offset: nat, fourByte: bool): (s: seq<Byte>)
    ensures |s| == AddressLength(fourByte)
  {
    (if fourByte then [(offset / 0x100_0000) % 0x100] else [])
    + [(offset / 0x1_0000) % 0x100, (offset / 0x100) % 0x100, offset % 0x100]
  }

  lemma BigEndianMore(bytes: seq<Byte>, b: Byte)
    ensures BigEndian(bytes + [b]) == BigEndian(bytes) * 0x100 + b
  {
    assert (bytes + [b])[..|bytes|] == bytes;
  }

  /** Decoding the driver's address bytes gives the offset, as far as the address width goes. */
  lemma AddressRoundTrip(offset: nat, fourByte: bool)
    ensures BigEndian(AddressBytes(offset, fourByte)) == offset % (if fourByte then WORD else 0x100_0000)
  {
    hide BigEndian;
    var a, b, c, d := (offset / 0x100_0000) % 0x100, (offset / 0x1_0000) % 0x100, (offset / 0x100) % 0x100, offset % 0x100;
    var front: seq<Byte> := if fourByte then [a] else [];
    BigEndianStarts(a);
    BigEndianMore(front, b);
    BigEndianMore(front + [b], c);
    BigEndianMore(front + [b] + [c], d);
    assert front + [b] + [c] + [d] == AddressBytes(offset, fourByte);
    ThreeBytes(offset);
    if fourByte {
      FourBytes(offset);
    }
  }

  lemma BigEndianStarts(b: Byte)
    ensures BigEndian([]) == 0 && BigEndian([b]) == b
  {
    BigEndianMore([], b);
    assert [] + [b] == [b];
  }

  lemma TwoBytes(n: nat)
    ensures (n / 0x100) % 0x100 * 0x100 + n % 0x100 == n % 0x1_0000
  {
  }

  lemma ThreeBytes(n: nat)
    ensures ((n / 0x1_0000) % 0x100 * 0x100 + (n / 0x100) % 0x100) * 0x100 + n % 0x100 == n % 0x100_0000
  {
    TwoBytes(n);
    var q := n / 0x1_0000;
    assert n == q * 0x1_0000 + n % 0x1_0000 && q == q / 0x100 * 0x100 + q % 0x100;
    LowBytes(q / 0x100, q % 0x100 * 0x1_0000 + n % 0x1_0000);
  }

  lemma LowBytes(k: nat, r: nat)
    requires r < 0x100_0000
    ensures (k * 0x100_0000 + r) % 0x100_0000 == r
  {
  }

  lemma FourBytes(n: nat)
    ensures (((n / 0x100_0000) % 0x100 * 0x100 + (n / 0x1_0000) % 0x100) * 0x100 + (n / 0x100) % 0x100) * 0x100 + n % 0x100
         == n % WORD
  {
    ThreeBytes(n);
    TopByte(n);
  }

  lemma TopByte(n: nat)
    ensures (n / 0x100_0000) % 0x100 * 0x100_0000 + n % 0x100_0000 == n % WORD
  {
    var q := n / 0x100_0000;
    assert n == q / 0x100 * WORD + (q % 0x100 * 0x100_0000 + n % 0x100_0000);
  }

  // ---------------------------------------------------------------- the chip while selected

  function Address(c: Chip): nat
    requires |c.frame| > AddressLength(c.fourByte)
  {
    BigEndian(c.frame[1..1 + AddressLength(c.fourByte)]) % |c.mem|
  }

  /** What the chip shifts out while byte number |frame| of a frame goes in. */
  function Reply(c: Chip): Byte {
    if c.frame != [] && c.frame[0] == READ_STATUS then (if c.busy > 0 then 1 else 0) + (if c.wel then 2 else 0)
    else if |c.frame| > AddressLength(c.fourByte) && c.frame[0] == READ && c.busy == 0 then
      c.mem[(Address(c) + |c.frame| - 1 - AddressLength(c.fourByte)) % |c.mem|]
    else 0xff
  }

  /** One byte in each direction. Time passes with status reads. */
  function Clock(c: Chip, b: Byte): (Chip, Byte) {
    var busy := if c.frame != [] && c.frame[0] == READ_STATUS && c.busy > 0 then c.busy - 1 else c.busy;
    (c.(frame := c.frame + [b], busy := busy), Reply(c))
  }

  // ---------------------------------------------------------------- the chip when released

  /** The greatest number of n bits. */
  function Ones(n: nat): nat { if n == 0 then 0 else 2 * Ones(n - 1) + 1 }

  /** The lowest n bits of two numbers, ANDed. */
  function AndBits(a: nat, b: nat, n: nat): (r: nat)
    ensures r <= Ones(n)
    decreases n
  {
    if n == 0 then 0 else 2 * AndBits(a / 2, b / 2, n - 1) + (a % 2) * (b % 2)
  }

  lemma OnesIs()
    ensures Ones(8) == 0xff
  {
    assert Ones(2) == 3 && Ones(4) == 15 && Ones(6) == 63;
  }

  function AndByte(a: Byte, b: Byte): Byte {
    OnesIs();
    AndBits(a, b, 8)
  }

  /** Programming only clears bits; the low eight address bits wrap inside the page. */
  function Program(mem: FlashMemory, page: nat, off: nat, data: seq<Byte>): FlashMemory
    requires page + PAGE <= |mem| && off < PAGE
    decreases |data|
  {
    if data == [] then mem
    else Program(mem[page + off := AndByte(mem[page + off], data[0])], page, (off + 1) % PAGE, data[1..])
  }

  function EraseSector(mem: FlashMemory, at: nat): FlashMemory
    requires at < |mem|
  {
    var start := at / SECTOR * SECTOR;
    seq(|mem|, i requires 0 <= i < |mem| => if start <= i < start + SECTOR then 0xff else mem[i])
  }

  function Busy(c: Chip): Chip {
    c.(wel := false, busy := if c.times == [] then 0 else c.times[0], times := if c.times == [] then [] else c.times[1..])
  }

  /** Releasing the select ends a frame; a busy chip takes no command, and a write needs the enable latch. */
  function Release(c: Chip): Chip {
    var f, head := c.frame, 1 + AddressLength(c.fourByte);
    var idle := c.(frame := [], frames := c.frames + [f]);
    if f == [] then c
    else if c.busy > 0 then idle
    else if f == [WRITE_ENABLE] then idle.(wel := true)
    else if !c.wel then idle
    else if f == [ENTER_4_BYTES] then idle.(fourByte := true, wel := false)
    else if f == [EXIT_4_BYTES] then idle.(fourByte := false, wel := false)
    else if f[0] == PAGE_PROGRAM && |f| > head then
      var a := Address(c);
      PageInside(c.mem, a);
      Busy(idle.(mem := Program(c.mem, a / PAGE * PAGE, a % PAGE, f[head..])))
    else if f[0] == SECTOR_ERASE && |f| == head then Busy(idle.(mem := EraseSector(c.mem, Address(c))))
    else idle
  }

  lemma PageInside(mem: FlashMemory, at: nat)
    requires at < |mem|
    ensures at / PAGE * PAGE + PAGE <= |mem|
  {
    var sectors, page := |mem| / SECTOR, at / PAGE;
    assert |mem| == sectors * SECTOR && at == page * PAGE + at % PAGE;
    assert page < 256 * sectors;
  }

  // ---------------------------------------------------------------- transactions

  /** A completed alt_avalon_spi_command with this chip behind the core; merge keeps the chip selected. */
  function Command(c: Chip, write: seq<Byte>, readLen: nat, merge: bool): (Chip, seq<Byte>) {
    var (c', replies) := Exchange(Clock, c, All(write, readLen));
    ExchangeLength(Clock, c, All(write, readLen));
    (if merge then c' else Release(c'), replies[|write|..])
  }

  /** Which is what the credit loop arrives at under every timing. */
  lemma TransferIsCommand(c: Chip, write: seq<Byte>, readLen: nat, polls: seq<Poll>)
    requires |write| + readLen > 0
    ensures var s := Run(Clock, readLen, Start(c, write, readLen), polls);
            s.done ==>
              && Command(c, write, readLen, false) == (Release(s.dev), s.stored)
              && Command(c, write, readLen, true) == (s.dev, s.stored)
  {
    hide Run, Release, Clock, Exchange, All;
    DoneExactlyWhen(Clock, c, write, readLen, polls);
  }

  /** Bytes of any command but a status read just collect in the frame. */
  lemma {:induction false} BytesCollect(c: Chip, bytes: seq<Byte>)
    requires (c.frame + bytes) != [] ==> (c.frame + bytes)[0] != READ_STATUS
    ensures Exchange(Clock, c, bytes).0 == c.(frame := c.frame + bytes)
    decreases |bytes|
  {
    hide Reply;
    if bytes == [] {
      assert c.frame + bytes == c.frame;
    } else {
      var before := bytes[..|bytes| - 1];
      assert c.frame + bytes == c.frame + before + [bytes[|bytes| - 1]];
      BytesCollect(c, before);
    }
  }

  lemma WriteOnly(c: Chip, write: seq<Byte>, merge: bool)
    requires write != [] && (c.frame + write)[0] != READ_STATUS
    ensures Command(c, write, 0, merge).0
         == if merge then c.(frame := c.frame + write) else Release(c.(frame := c.frame + write))
  {
    hide Release, Clock;
    assert All(write, 0) == write;
    BytesCollect(c, write);
  }

  lemma StatusRead(c: Chip)
    requires c.frame == []
    ensures Command(c, [READ_STATUS], 1, false)
         == (c.(busy := if c.busy > 0 then c.busy - 1 else 0, frames := c.frames + [[READ_STATUS, 0]]),
             [(if c.busy > 0 then 1 else 0) + (if c.wel then 2 else 0)])
  {
    var all := All([READ_STATUS], 1);
    assert all == [READ_STATUS, 0];
    assert all[..1] == [READ_STATUS] && [READ_STATUS][..0] == [];
    assert Exchange(Clock, c, []) == (c, []);
    var (c1, r1) := Exchange(Clock, c, [READ_STATUS]);
    assert c1 == c.(frame := [READ_STATUS]);
    var c2 := Exchange(Clock, c, all).0;
    assert c2.frame == [READ_STATUS, 0];
    assert Release(c2) == c2.(frame := [], frames := c.frames + [[READ_STATUS, 0]]);
  }

  /** The bytes of memory from an address on, rolling over at the end. */
  function MemoryFrom(mem: FlashMemory, at: nat, n: nat): seq<Byte> { seq(n, i requires 0 <= i => mem[(at + i) % |mem|]) }

  lemma {:induction false} ReadStreams(c: Chip, offset: nat, n: nat)
    requires c.frame == [] && c.busy == 0 && Reachable(c.mem, offset, c.fourByte)
    ensures var head := [READ] + AddressBytes(offset, c.fourByte);
            var (c', replies) := Exchange(Clock, c, head + Zeros(n));
            && c' == c.(frame := head + Zeros(n))
            && |replies| == |head| + n && replies[|head|..] == MemoryFrom(c.mem, offset, n)
    decreases n
  {
    hide Clock, BigEndian, AddressBytes, Exchange, Zeros, MemoryFrom;
    var head := [READ] + AddressBytes(offset, c.fourByte);
    BytesCollect(c, head + Zeros(n));
    ExchangeLength(Clock, c, head + Zeros(n));
    GrowByOne(c.mem, offset, n);
    if n > 0 {
      var before := head + Zeros(n - 1);
      ReadStreams(c, offset, n - 1);
      TransmitExchanges(Clock, c, before, 0);
      assert before + [0] == head + Zeros(n);
      var c1 := c.(frame := before);
      ReadReply(c1, offset, n - 1);
      ClockReplies(c1, 0);
      var replies := Exchange(Clock, c, before).1;
      assert (replies + [Reply(c1)])[|head|..] == replies[|head|..] + [Reply(c1)];
    }
  }

  lemma GrowByOne(mem: FlashMemory, offset: nat, n: nat)
    ensures Zeros(0) == [] && MemoryFrom(mem, offset, 0) == []
    ensures |Zeros(n)| == n && |MemoryFrom(mem, offset, n)| == n
    ensures n > 0 ==> Zeros(n) == Zeros(n - 1) + [0]
    ensures n > 0 ==> MemoryFrom(mem, offset, n) == MemoryFrom(mem, offset, n - 1) + [mem[(offset + n - 1) % |mem|]]
  {
  }

  lemma ClockReplies(c: Chip, b: Byte)
    ensures Clock(c, b).1 == Reply(c)
  {
  }

  predicate Reachable(mem: FlashMemory, offset: nat, fourByte: bool) {
    offset < |mem| <= if fourByte then WORD else 0x100_0000
  }

  /** A chip of a size its address width covers decodes the driver's address to the driver's offset. */
  lemma AddressIs(c: Chip, offset: nat, rest: seq<Byte>)
    requires Reachable(c.mem, offset, c.fourByte)
    requires c.frame != [] && c.frame[1..] == AddressBytes(offset, c.fourByte) + rest
    ensures |c.frame| > AddressLength(c.fourByte) && Address(c) == offset
    ensures c.frame[1 + AddressLength(c.fourByte)..] == rest
  {
    hide BigEndian, AddressBytes;
    AddressRoundTrip(offset, c.fourByte);
    assert c.frame[1..1 + AddressLength(c.fourByte)] == AddressBytes(offset, c.fourByte);
    Same(offset, |c.mem|);
    Same(offset, if c.fourByte then WORD else 0x100_0000);
  }

  lemma Same(n: nat, m: nat)
    requires n < m
    ensures n % m == n
  {
  }

  lemma ReadReply(c: Chip, offset: nat, n: nat)
    requires c.busy == 0 && Reachable(c.mem, offset, c.fourByte)
    requires c.frame == [READ] + AddressBytes(offset, c.fourByte) + Zeros(n)
    ensures Reply(c) == c.mem[(offset + n) % |c.mem|]
  {
    hide BigEndian, AddressBytes, Address;
    assert c.frame[1..] == AddressBytes(offset, c.fourByte) + Zeros(n);
    AddressIs(c, offset, Zeros(n));
    assert |c.frame| - 1 - AddressLength(c.fourByte) == n;
  }
}
