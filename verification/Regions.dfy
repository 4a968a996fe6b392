/** Storage of alarm regions: what the PC loads into a slot, what the EEPROM holds, what a later request returns. */
module Regions {
  import opened Machine
  import opened EepromDevice
  import opened EepromDriver

  const TARGETS := 811
  const ZENITHS := 103
  const BOUNDARY_BYTES := 2 * TARGETS
  const SLOT_BYTES := BOUNDARY_BYTES + ZENITHS
  const GROUP_OFFSET := 0x1000
  const SLOT_SPACE := 0x0800
  const SYS_PARA_ADDR := 0x0400
  const SYS_PARA_BYTES := 308

  /** Bytes of a load packet up to the end of the vertex data; the eighth byte names the slot. */
  type Packet = p: seq<Byte> | |p| >= 9 + SLOT_BYTES witness seq(9 + SLOT_BYTES, _ => 0)
  type Boundary = b: seq<Half> | |b| == TARGETS witness seq(TARGETS, _ => 0)
  type Vertices = v: seq<Byte> | |v| == ZENITHS witness seq(ZENITHS, _ => 0)

  function SlotOf(p: Packet): Byte { p[8] }
  function SlotAddr(slot: Byte): Word { GROUP_OFFSET + SLOT_SPACE * slot }

  // ---------------------------------------------------------------- byte orders

  function BigEndian(hi: Byte, lo: Byte): Half { hi * 0x100 + lo }

  /** The parse loop reads each point most significant byte first. */
  function BoundaryOf(p: Packet): Boundary {
    seq(TARGETS, k requires 0 <= k < TARGETS => BigEndian(p[9 + 2 * k], p[10 + 2 * k]))
  }

  function VerticesOf(p: Packet): Vertices { p[9 + BOUNDARY_BYTES..9 + SLOT_BYTES] }

  /** The same points as they lie in the memory of a little-endian machine. */
  function InMemory(b: Boundary): (s: seq<Byte>)
    ensures |s| == BOUNDARY_BYTES
  {
    seq(BOUNDARY_BYTES, i requires 0 <= i < BOUNDARY_BYTES => if i % 2 == 0 then b[i / 2] % 0x100 else b[i / 2] / 0x100)
  }

  function LittleEndian(lo: Byte, hi: Byte): Half { lo + hi * 0x100 }

  /** The points that bytes in memory stand for. */
  function FromMemory(s: seq<Byte>): Boundary
    requires |s| == BOUNDARY_BYTES
  {
    seq(TARGETS, k requires 0 <= k < TARGETS => LittleEndian(s[2 * k], s[2 * k + 1]))
  }

  lemma MemoryOrderUndone(b: Boundary)
    ensures FromMemory(InMemory(b)) == b
  {
    forall k | 0 <= k < TARGETS
      ensures FromMemory(InMemory(b))[k] == b[k]
    {
      assert (2 * k + 1) / 2 == k;
    }
  }

  /** The reply exchanges the bytes of every pair. */
  function SwapPairs(s: seq<Byte>): (t: seq<Byte>)
    requires |s| % 2 == 0
    ensures |t| == |s|
  {
    seq(|s|, i requires 0 <= i < |s| => if i % 2 == 0 then s[i + 1] else s[i - 1])
  }

  lemma SwappedAt(b: Boundary, k: nat)
    requires k < TARGETS
    ensures SwapPairs(InMemory(b))[2 * k] == b[k] / 0x100
    ensures SwapPairs(InMemory(b))[2 * k + 1] == b[k] % 0x100
  {
    assert (2 * k + 1) / 2 == k;
  }

  lemma BigEndianSplits(hi: Byte, lo: Byte)
    ensures BigEndian(hi, lo) / 0x100 == hi && BigEndian(hi, lo) % 0x100 == lo
  {
  }

  /** Big-endian parse, little-endian storage and the pair swap cancel. */
  lemma OrdersCancel(p: Packet)
    ensures SwapPairs(InMemory(BoundaryOf(p))) == p[9..9 + BOUNDARY_BYTES]
  {
    hide SwapPairs, InMemory, BigEndian;
    var b := BoundaryOf(p);
    forall i | 0 <= i < BOUNDARY_BYTES
      ensures SwapPairs(InMemory(b))[i] == p[9..9 + BOUNDARY_BYTES][i]
    {
      var k := i / 2;
      SwappedAt(b, k);
      BigEndianSplits(p[9 + 2 * k], p[10 + 2 * k]);
      assert i == 2 * k || i == 2 * k + 1;
    }
  }

  // ---------------------------------------------------------------- the EEPROM

  /** region_save2eeprom */
  function SaveRegion(mem: Memory, slot: Byte, select: Word, b: Boundary, v: Vertices): Memory {
    var selected := mem[3 := select % 0x100];
    PagedWrite(PagedWrite(selected, SlotAddr(slot), InMemory(b)), SlotAddr(slot) + BOUNDARY_BYTES, v)
  }

  /** The region reply from its slot byte to the end of the vertices; buf is what the send buffer held before. */
  function ReplyBody(mem: Memory, slot: Byte, buf: seq<Byte>): seq<Byte>
    requires |buf| == SLOT_BYTES
  {
    var read := ReadBack(mem, SlotAddr(slot), buf);
    [slot] + SwapPairs(read[..BOUNDARY_BYTES]) + read[BOUNDARY_BYTES..]
  }

  /** Where the device puts a slot: its 17 address bits make slot numbers 64 apart share a place. */
  function PlaceOf(slot: Byte): (place: nat)
    ensures place + SLOT_SPACE <= SIZE
  {
    SLOT_SPACE * ((slot + 2) % 64)
  }

  // ---------------------------------------------------------------- proofs about one save

  /** The device sees only 17 address bits. */
  lemma {:induction false} FullPagesAlias(mem: Memory, addr: nat, dat: seq<Byte>, n: nat)
    requires n * PAGE <= |dat|
    ensures FullPages(mem, addr, dat, n) == FullPages(mem, addr % SIZE, dat, n)
  {
    hide DeviceWrite;
    if n != 0 {
      FullPagesAlias(mem, addr, dat, n - 1);
      ChunkAlias(addr, (n - 1) * PAGE, dat[(n - 1) * PAGE..n * PAGE]);
    }
  }

  lemma ChunkAlias(addr: nat, off: nat, data: seq<Byte>)
    ensures ChunkBytes(addr, addr + off, data) == ChunkBytes(addr % SIZE, addr % SIZE + off, data)
  {
    var q, r := addr / SIZE, addr % SIZE;
    assert addr == q * SIZE + r;
    BankRepeats(q, r);
    PageRepeats(q, r + off);
    OffsetRepeats(q, r + off);
  }

  lemma BankRepeats(q: nat, r: nat)
    ensures ((q * SIZE + r) / BANK) % 2 == (r / BANK) % 2
  {
    assert (q * SIZE + r) / BANK == 2 * q + r / BANK;
  }

  lemma PageRepeats(q: nat, r: nat)
    ensures ((q * SIZE + r) / PAGE) % 0x100 == (r / PAGE) % 0x100
  {
    assert (q * SIZE + r) / PAGE == 512 * q + r / PAGE;
    PageNumberRepeats(q, r / PAGE);
  }

  lemma PageNumberRepeats(q: nat, page: nat)
    ensures (512 * q + page) % 0x100 == page % 0x100
  {
  }

  lemma OffsetRepeats(q: nat, r: nat)
    ensures (q * SIZE + r) % 0x100 == r % 0x100
  {
  }

  lemma PagedWriteAlias(mem: Memory, addr: nat, dat: seq<Byte>)
    ensures PagedWrite(mem, addr, dat) == PagedWrite(mem, addr % SIZE, dat)
  {
    hide DeviceWrite, ChunkBytes;
    var number := |dat| / PAGE;
    FullPagesAlias(mem, addr, dat, number);
    ChunkAlias(addr, number * PAGE, dat[number * PAGE..]);
  }

  /** Every call the region code makes meets the condition for paged writing. */
  lemma SlotFits(slot: Byte)
    ensures SlotAddr(slot) % SIZE == PlaceOf(slot)
    ensures (SlotAddr(slot) + BOUNDARY_BYTES) % SIZE == PlaceOf(slot) + BOUNDARY_BYTES
    ensures PlaceOf(slot) + SLOT_SPACE <= SIZE
    ensures Fits(PlaceOf(slot), BOUNDARY_BYTES) && Fits(PlaceOf(slot) + BOUNDARY_BYTES, ZENITHS)
    ensures Fits(SYS_PARA_ADDR, SYS_PARA_BYTES)
  {
    hide Fits;
    var q, m := (slot + 2) / 64, (slot + 2) % 64;
    assert SlotAddr(slot) == q * SIZE + SLOT_SPACE * m;
    WholeSizes(q, SLOT_SPACE * m);
    WholeSizes(q, SLOT_SPACE * m + BOUNDARY_BYTES);
    PlaceFits(m);
  }

  lemma WholeSizes(q: nat, r: nat)
    requires r < SIZE
    ensures (q * SIZE + r) % SIZE == r
  {
  }

  lemma PlaceFits(m: nat)
    requires m < 64
    ensures Fits(SLOT_SPACE * m, BOUNDARY_BYTES) && Fits(SLOT_SPACE * m + BOUNDARY_BYTES, ZENITHS)
    ensures Fits(SYS_PARA_ADDR, SYS_PARA_BYTES)
  {
    var bank, k := m / 32, m % 32;
    assert SLOT_SPACE * m == bank * BANK + SLOT_SPACE * k;
  }

  /** A save stores exactly the boundary and the vertices at the slot's place, and the selection in byte 3. */
  lemma SaveIsBlock(mem: Memory, slot: Byte, select: Word, b: Boundary, v: Vertices)
    ensures PlaceOf(slot) + SLOT_BYTES <= SIZE
    ensures SaveRegion(mem, slot, select, b, v)
         == BlockWrite(mem[3 := select % 0x100], PlaceOf(slot), InMemory(b) + v)
  {
    hide PagedWrite, Fits, InMemory;
    SlotFits(slot);
    var m0, a := mem[3 := select % 0x100], SlotAddr(slot);
    PagedWriteAlias(m0, a, InMemory(b));
    PagedWriteIsBlock(m0, PlaceOf(slot), InMemory(b));
    var m1 := PagedWrite(m0, a, InMemory(b));
    PagedWriteAlias(m1, a + BOUNDARY_BYTES, v);
    PagedWriteIsBlock(m1, PlaceOf(slot) + BOUNDARY_BYTES, v);
    BlockWritesJoin(m0, PlaceOf(slot), InMemory(b), v);
  }

  // ---------------------------------------------------------------- runs

  type Parameters = s: seq<Byte> | |s| == SYS_PARA_BYTES witness seq(SYS_PARA_BYTES, _ => 0)

  /** What the PC can have the firmware store. */
  datatype Command =
    | Load(packet: Packet)
    | SelectGroup(para: Word)
    | SaveParams(bytes: Parameters)

  datatype State = State(mem: Memory, select: Word)

  function Apply(s: State, c: Command): State {
    match c
    case Load(p) => s.(mem := SaveRegion(s.mem, SlotOf(p), s.select, BoundaryOf(p), VerticesOf(p)))
    case SelectGroup(para) =>
      if para <= 15 then State(s.mem[2 := (para / 0x100) % 0x100][3 := para % 0x100], para)
      else s.(select := para)
    case SaveParams(bytes) => s.(mem := PagedWrite(s.mem, SYS_PARA_ADDR, bytes))
  }

  function Run(s: State, cs: seq<Command>): State
    decreases |cs|
  {
    if cs == [] then s else Apply(Run(s, cs[..|cs| - 1]), cs[|cs| - 1])
  }

  function Body(p: Packet): seq<Byte> { p[9..9 + SLOT_BYTES] }

  predicate LoadsPlaceOf(c: Command, slot: Byte) { c.Load? && PlaceOf(SlotOf(c.packet)) == PlaceOf(slot) }

  /** The last packet of a run stored where the slot is stored, if any. */
  function LastLoad(cs: seq<Command>, slot: Byte): Option<Packet>
    decreases |cs|
  {
    if cs == [] then None
    else
      var last := cs[|cs| - 1];
      if LoadsPlaceOf(last, slot) then Some(last.packet) else LastLoad(cs[..|cs| - 1], slot)
  }

  /** The bytes of a slot as they lie in the EEPROM. */
  function Stored(mem: Memory, slot: Byte): seq<Byte> { mem[PlaceOf(slot)..PlaceOf(slot) + SLOT_BYTES] }

  function StoredParameters(mem: Memory): Parameters { mem[SYS_PARA_ADDR..SYS_PARA_ADDR + SYS_PARA_BYTES] }

  /** Bytes a command may change. */
  predicate Touches(c: Command, k: nat) {
    match c
    case Load(p) => k == 3 || PlaceOf(SlotOf(p)) <= k < PlaceOf(SlotOf(p)) + SLOT_BYTES
    case SelectGroup(_) => k == 2 || k == 3
    case SaveParams(_) => SYS_PARA_ADDR <= k < SYS_PARA_ADDR + SYS_PARA_BYTES
  }

  lemma TouchesOnly(s: State, c: Command, k: nat)
    requires k < SIZE && !Touches(c, k)
    ensures Apply(s, c).mem[k] == s.mem[k]
  {
    hide SaveRegion, PagedWrite, InMemory, BoundaryOf, VerticesOf, BlockWrite, Fits;
    match c
    case Load(p) =>
      var dat := InMemory(BoundaryOf(p)) + VerticesOf(p);
      SaveIsBlock(s.mem, SlotOf(p), s.select, BoundaryOf(p), VerticesOf(p));
      BlockWriteAt(s.mem[3 := s.select % 0x100], PlaceOf(SlotOf(p)), dat, k);
    case SelectGroup(_) =>
    case SaveParams(bytes) =>
      SlotFits(0);
      PagedWriteIsBlock(s.mem, SYS_PARA_ADDR, bytes);
      BlockWriteAt(s.mem, SYS_PARA_ADDR, bytes, k);
  }

  lemma BlockWriteStores(mem: Memory, addr: nat, dat: seq<Byte>)
    requires addr + |dat| <= SIZE
    ensures BlockWrite(mem, addr, dat)[addr..addr + |dat|] == dat
  {
  }

  lemma LoadStores(s: State, p: Packet)
    ensures Stored(Apply(s, Load(p)).mem, SlotOf(p)) == InMemory(BoundaryOf(p)) + VerticesOf(p)
  {
    hide SaveRegion, InMemory, BoundaryOf, VerticesOf, BlockWrite;
    SaveIsBlock(s.mem, SlotOf(p), s.select, BoundaryOf(p), VerticesOf(p));
    BlockWriteStores(s.mem[3 := s.select % 0x100], PlaceOf(SlotOf(p)), InMemory(BoundaryOf(p)) + VerticesOf(p));
  }

  /** The packet lies at this place: two bytes per point with the low one first, although the packet has the high one
      first, and the vertices behind them. */
  predicate LaidOut(mem: Memory, place: nat, p: Packet)
    requires place + SLOT_SPACE <= SIZE
  {
    && (forall k :: 0 <= k < 811 ==> mem[place + 2 * k] == p[10 + 2 * k] && mem[place + 2 * k + 1] == p[9 + 2 * k])
    && (forall i :: place + 1622 <= i < place + 1725 ==> mem[i] == p[9 + (i - place)])
  }

  /** Slots lie 2 KB apart from address 0x1000 on, within 128 KB. */
  lemma PlaceIs(slot: Byte)
    ensures PlaceOf(slot) == (0x1000 + 0x800 * (slot as int)) % 0x2_0000
  {
    SlotFits(slot);
  }

  /** A load puts its packet there, and the selection into byte 3. */
  lemma LoadLaysOut(s: State, p: Packet)
    ensures var mem := Apply(s, Load(p)).mem;
            && LaidOut(mem, PlaceOf(SlotOf(p)), p)
            && (PlaceOf(SlotOf(p)) != 0 ==> mem[3] == s.select % 0x100)
  {
    hide SaveRegion, BlockWrite, InMemory, BoundaryOf, VerticesOf, PlaceOf;
    var place, dat := PlaceOf(SlotOf(p)), InMemory(BoundaryOf(p)) + VerticesOf(p);
    SaveIsBlock(s.mem, SlotOf(p), s.select, BoundaryOf(p), VerticesOf(p));
    var mem0, mem := s.mem[3 := s.select % 0x100], Apply(s, Load(p)).mem;
    PointBytes(p, dat);
    forall i | place <= i < place + SLOT_BYTES ensures mem[i] == dat[i - place] {
      BlockWriteAt(mem0, place, dat, i);
    }
    forall k | 0 <= k < 811 ensures mem[place + 2 * k] == p[10 + 2 * k] && mem[place + 2 * k + 1] == p[9 + 2 * k] {
      assert mem[place + 2 * k] == dat[2 * k] && mem[place + 2 * k + 1] == dat[2 * k + 1];
    }
    PlacesApart(SlotOf(p), 62);
    BlockWriteAt(mem0, place, dat, 3);
  }

  lemma PointBytes(p: Packet, dat: seq<Byte>)
    requires dat == InMemory(BoundaryOf(p)) + VerticesOf(p)
    ensures |dat| == 1725
    ensures forall k :: 0 <= k < 811 ==> dat[2 * k] == p[10 + 2 * k] && dat[2 * k + 1] == p[9 + 2 * k]
    ensures forall i :: 1622 <= i < 1725 ==> dat[i] == p[9 + i]
  {
    hide InMemory;
    forall k | 0 <= k < 811 ensures dat[2 * k] == p[10 + 2 * k] && dat[2 * k + 1] == p[9 + 2 * k] {
      PointInMemory(BoundaryOf(p), k);
      assert dat[2 * k] == InMemory(BoundaryOf(p))[2 * k] && dat[2 * k + 1] == InMemory(BoundaryOf(p))[2 * k + 1];
      assert BoundaryOf(p)[k] == BigEndian(p[9 + 2 * k], p[10 + 2 * k]);
    }
  }

  lemma PointInMemory(b: Boundary, k: nat)
    requires k < TARGETS
    ensures InMemory(b)[2 * k] == b[k] % 0x100 && InMemory(b)[2 * k + 1] == b[k] / 0x100
  {
    assert (2 * k + 1) / 2 == k;
  }

  /** A group of up to 15 is stored at once, big-endian in bytes 2 and 3, and stays there and in memory over any commands
      that select nothing and load no slot whose place covers those bytes. */
  lemma {:induction false} SelectionKept(s: State, para: Word, cs: seq<Command>)
    requires para <= 15
    requires forall i :: 0 <= i < |cs| ==> !cs[i].SelectGroup? && (cs[i].Load? ==> SlotOf(cs[i].packet) % 64 != 62)
    ensures var t := Run(Apply(s, SelectGroup(para)), cs); t.mem[2] == 0 && t.mem[3] == para && t.select == para
    decreases |cs|
  {
    hide SaveRegion, PagedWrite, BlockWrite;
    var s1 := Apply(s, SelectGroup(para));
    if cs != [] {
      var before, c := cs[..|cs| - 1], cs[|cs| - 1];
      SelectionKept(s, para, before);
      var t := Run(s1, before);
      TouchesOnly(t, c, 2) by { SparesSelection(c, 2); }
      if c.Load? {
        LoadLaysOut(t, c.packet);
        SparesSelection(c, 2);
      } else {
        TouchesOnly(t, c, 3);
      }
    }
  }

  lemma SparesSelection(c: Command, k: nat)
    requires !c.SelectGroup? && (c.Load? ==> SlotOf(c.packet) % 64 != 62) && k <= 2
    ensures !Touches(c, k) && (c.Load? ==> PlaceOf(SlotOf(c.packet)) != 0)
  {
    if c.Load? {
      PlacesApart(SlotOf(c.packet), 62);
    }
  }

  /** A larger group is only remembered; its low byte reaches the device with the next load. */
  lemma LargeGroupRemembered(s: State, para: Word, p: Packet)
    requires para > 15 && SlotOf(p) % 64 != 62
    ensures var s1 := Apply(s, SelectGroup(para)); s1.mem == s.mem && s1.select == para
    ensures Apply(Apply(s, SelectGroup(para)), Load(p)).mem[3] == para % 0x100
  {
    hide SaveRegion;
    LoadLaysOut(Apply(s, SelectGroup(para)), p);
    PlacesApart(SlotOf(p), 62);
  }

  lemma ShiftedRemainder(slot: Byte)
    ensures (slot + 2) % 64 == (if slot % 64 < 62 then slot % 64 + 2 else slot % 64 - 62)
  {
    assert slot == 64 * (slot / 64) + slot % 64;
  }

  /** Places of slots that the device does not confuse lie apart, and apart from the parameters. */
  lemma PlacesApart(a: Byte, b: Byte)
    ensures PlaceOf(a) == PlaceOf(b) || PlaceOf(a) + SLOT_SPACE <= PlaceOf(b) || PlaceOf(b) + SLOT_SPACE <= PlaceOf(a)
    ensures PlaceOf(a) == PlaceOf(b) <==> a % 64 == b % 64
    ensures PlaceOf(a) == 0 <==> a % 64 == 62
    ensures PlaceOf(a) != 0 ==> PlaceOf(a) >= SLOT_SPACE
  {
    ShiftedRemainder(a);
    ShiftedRemainder(b);
    ScaledApart((a + 2) % 64, (b + 2) % 64);
  }

  lemma ScaledApart(m: nat, n: nat)
    ensures SLOT_SPACE * m == SLOT_SPACE * n <==> m == n
    ensures SLOT_SPACE * m == SLOT_SPACE * n || SLOT_SPACE * m + SLOT_SPACE <= SLOT_SPACE * n
         || SLOT_SPACE * n + SLOT_SPACE <= SLOT_SPACE * m
  {
  }

  /** A command that does not load the slot's place leaves the stored slot alone. */
  lemma OtherSlotsKept(s: State, c: Command, slot: Byte)
    requires slot % 64 != 62 && !LoadsPlaceOf(c, slot)
    ensures Stored(Apply(s, c).mem, slot) == Stored(s.mem, slot)
  {
    hide Apply, PlaceOf;
    PlacesApart(slot, slot);
    if c.Load? {
      PlacesApart(SlotOf(c.packet), slot);
    }
    forall k | PlaceOf(slot) <= k < PlaceOf(slot) + SLOT_BYTES
      ensures Apply(s, c).mem[k] == s.mem[k]
    {
      TouchesOnly(s, c, k);
    }
  }

  /** What a slot holds after any run: the last packet loaded to its place. */
  lemma {:induction false} StoredAfterRun(s: State, cs: seq<Command>, slot: Byte)
    requires slot % 64 != 62 && LastLoad(cs, slot).Some?
    ensures var p := LastLoad(cs, slot).value;
            Stored(Run(s, cs).mem, slot) == InMemory(BoundaryOf(p)) + VerticesOf(p)
    decreases |cs|
  {
    hide Apply, Stored, InMemory, BoundaryOf, VerticesOf, PlaceOf;
    if cs != [] {
      var before, last := Run(s, cs[..|cs| - 1]), cs[|cs| - 1];
      if LoadsPlaceOf(last, slot) {
        LoadStores(before, last.packet);
        SamePlaceSameBytes(Apply(before, last).mem, SlotOf(last.packet), slot);
      } else {
        StoredAfterRun(s, cs[..|cs| - 1], slot);
        OtherSlotsKept(before, last, slot);
      }
    }
  }

  lemma SamePlaceSameBytes(mem: Memory, a: Byte, b: Byte)
    requires PlaceOf(a) == PlaceOf(b)
    ensures Stored(mem, a) == Stored(mem, b)
  {
  }

  /** A request within the driver's address limit returns the stored bytes with every pair exchanged. */
  lemma ReplyIsStored(mem: Memory, slot: Byte, buf: seq<Byte>)
    requires |buf| == SLOT_BYTES && slot <= 56
    ensures ReplyBody(mem, slot, buf)
         == [slot] + SwapPairs(Stored(mem, slot)[..BOUNDARY_BYTES]) + Stored(mem, slot)[BOUNDARY_BYTES..]
  {
    hide SwapPairs;
    var read := ReadBack(mem, SlotAddr(slot), buf);
    assert SlotAddr(slot) <= MAX_ADDR;
    assert SlotAddr(slot) == PlaceOf(slot);
    forall k | 0 <= k < SLOT_BYTES
      ensures read[k] == Stored(mem, slot)[k]
    {
      assert (PlaceOf(slot) + k) % SIZE == PlaceOf(slot) + k;
    }
    assert read == Stored(mem, slot);
  }

  /** Region round trip over whole runs: a request for a slot up to 56 returns, byte for byte, the last packet that was
      loaded to its place, whatever else was stored before and after. */
  lemma RegionRoundTrip(s: State, cs: seq<Command>, slot: Byte, buf: seq<Byte>)
    requires |buf| == SLOT_BYTES && slot <= 56 && LastLoad(cs, slot).Some?
    ensures ReplyBody(Run(s, cs).mem, slot, buf) == [slot] + Body(LastLoad(cs, slot).value)
  {
    hide InMemory, BoundaryOf, VerticesOf, SwapPairs, ReplyBody, Stored, Run, LastLoad;
    var p, mem := LastLoad(cs, slot).value, Run(s, cs).mem;
    var points := InMemory(BoundaryOf(p));
    StoredAfterRun(s, cs, slot);
    ReplyIsStored(mem, slot, buf);
    assert Stored(mem, slot)[..BOUNDARY_BYTES] == points;
    assert Stored(mem, slot)[BOUNDARY_BYTES..] == VerticesOf(p);
    OrdersCancel(p);
    BodyParts(p);
    assert [slot] + p[9..9 + BOUNDARY_BYTES] + VerticesOf(p) == [slot] + (p[9..9 + BOUNDARY_BYTES] + VerticesOf(p));
  }

  /** Reading a slot back for the FPGA returns the points of the last packet loaded to its place. */
  lemma BoundaryReadsBack(s: State, cs: seq<Command>, slot: Byte, buf: seq<Byte>)
    requires |buf| == BOUNDARY_BYTES && slot <= 56 && LastLoad(cs, slot).Some?
    ensures FromMemory(ReadBack(Run(s, cs).mem, SlotAddr(slot), buf)) == BoundaryOf(LastLoad(cs, slot).value)
  {
    hide InMemory, BoundaryOf, VerticesOf, Run, LastLoad, FromMemory;
    var p, mem := LastLoad(cs, slot).value, Run(s, cs).mem;
    StoredAfterRun(s, cs, slot);
    var read := ReadBack(mem, SlotAddr(slot), buf);
    assert SlotAddr(slot) == PlaceOf(slot);
    forall k | 0 <= k < BOUNDARY_BYTES
      ensures read[k] == InMemory(BoundaryOf(p))[k]
    {
      assert (PlaceOf(slot) + k) % SIZE == PlaceOf(slot) + k;
      assert Stored(mem, slot)[k] == mem[PlaceOf(slot) + k];
    }
    assert read == InMemory(BoundaryOf(p));
    MemoryOrderUndone(BoundaryOf(p));
  }

  lemma BodyParts(p: Packet)
    ensures Body(p) == p[9..9 + BOUNDARY_BYTES] + VerticesOf(p)
  {
  }

  /** Loading twice to different places and asking for the first: the special case a PC relies on. */
  lemma LoadThenRequest(s: State, p: Packet, later: seq<Command>, buf: seq<Byte>)
    requires |buf| == SLOT_BYTES && SlotOf(p) <= 56
    requires forall c :: c in later && c.Load? ==> SlotOf(c.packet) % 64 != SlotOf(p) % 64
    ensures ReplyBody(Run(Apply(s, Load(p)), later).mem, SlotOf(p), buf) == p[8..9 + SLOT_BYTES]
  {
    hide Apply, ReplyBody, PlaceOf;
    RunAfterFirst(s, Load(p), later);
    LastLoadIsFirst(p, later);
    RegionRoundTrip(s, [Load(p)] + later, SlotOf(p), buf);
    assert [SlotOf(p)] + Body(p) == p[8..9 + SLOT_BYTES];
  }

  lemma {:induction false} RunAfterFirst(s: State, c: Command, cs: seq<Command>)
    ensures Run(s, [c] + cs) == Run(Apply(s, c), cs)
    decreases |cs|
  {
    hide Apply;
    var all := [c] + cs;
    if cs == [] {
      assert all[..|all| - 1] == [];
      assert Run(s, []) == s;
    } else {
      RunAfterFirst(s, c, cs[..|cs| - 1]);
      assert all[..|all| - 1] == [c] + cs[..|cs| - 1];
    }
  }

  lemma {:induction false} LastLoadIsFirst(p: Packet, cs: seq<Command>)
    requires forall c :: c in cs && c.Load? ==> SlotOf(c.packet) % 64 != SlotOf(p) % 64
    ensures LastLoad([Load(p)] + cs, SlotOf(p)) == Some(p)
    decreases |cs|
  {
    hide PlaceOf;
    var all := [Load(p)] + cs;
    if cs != [] {
      var last := cs[|cs| - 1];
      assert last in cs;
      if last.Load? {
        PlacesApart(SlotOf(last.packet), SlotOf(p));
      }
      LastLoadIsFirst(p, cs[..|cs| - 1]);
      assert all[..|all| - 1] == [Load(p)] + cs[..|cs| - 1];
    }
  }

  function PacketFor(slot: Byte, fill: Byte): Packet { seq(9 + SLOT_BYTES, i => if i == 8 then slot else fill) }

  /** The driver refuses reads above its limit: exactly the slots up to 56 come back for every packet and buffer. */
  lemma RoundTripExactlyWhen(s: State, slot: Byte)
    ensures (forall p: Packet, buf: seq<Byte> :: SlotOf(p) == slot && |buf| == SLOT_BYTES ==>
               ReplyBody(Apply(s, Load(p)).mem, slot, buf) == [slot] + Body(p))
            <==> slot <= 56
  {
    hide Apply, ReplyBody, LastLoad, PlaceOf, Run, Body;
    if slot <= 56 {
      forall p: Packet, buf: seq<Byte> | SlotOf(p) == slot && |buf| == SLOT_BYTES
        ensures ReplyBody(Apply(s, Load(p)).mem, slot, buf) == [slot] + Body(p)
      {
        LastLoadIsFirst(p, []);
        RunAfterFirst(s, Load(p), []);
        RunOfNothing(Apply(s, Load(p)));
        assert [Load(p)] + [] == [Load(p)];
        RegionRoundTrip(s, [Load(p)], slot, buf);
      }
    } else {
      var p, buf := PacketFor(slot, 1), seq(SLOT_BYTES, _ => 0);
      BeyondTheLimit(Apply(s, Load(p)).mem, slot, buf);
      assert Body(p)[0] == 1 by { BodyOfPacketFor(slot, 1); }
      assert ([slot] + Body(p))[1] == 1;
    }
  }

  lemma RunOfNothing(s: State)
    ensures Run(s, []) == s
  {
  }

  lemma BodyOfPacketFor(slot: Byte, fill: Byte)
    ensures |Body(PacketFor(slot, fill))| == SLOT_BYTES && Body(PacketFor(slot, fill))[0] == fill
  {
  }

  lemma BeyondTheLimit(mem: Memory, slot: Byte, buf: seq<Byte>)
    requires |buf| == SLOT_BYTES && slot > 56
    ensures |ReplyBody(mem, slot, buf)| == 1 + SLOT_BYTES && ReplyBody(mem, slot, buf)[1] == buf[1]
  {
    assert SlotAddr(slot) > MAX_ADDR;
  }

  // ---------------------------------------------------------------- the parameter block

  /** A load leaves the parameter block alone for every state and packet, except for the slot numbers whose place is
      address zero. */
  lemma LoadKeepsParametersExactlyWhen(slot: Byte)
    ensures (forall s: State, p: Packet :: SlotOf(p) == slot ==>
               StoredParameters(Apply(s, Load(p)).mem) == StoredParameters(s.mem))
            <==> slot % 64 != 62
  {
    hide Apply, PlaceOf, StoredParameters;
    if slot % 64 != 62 {
      forall s: State, p: Packet | SlotOf(p) == slot
        ensures StoredParameters(Apply(s, Load(p)).mem) == StoredParameters(s.mem)
      {
        ParametersKept(s, Load(p));
      }
    } else {
      var s, p := State(seq(SIZE, _ => 0), 0), PacketFor(slot, 1);
      ClobberedAt(s, slot);
    }
  }

  lemma ParametersKept(s: State, c: Command)
    requires !c.SaveParams? && (c.Load? ==> SlotOf(c.packet) % 64 != 62)
    ensures StoredParameters(Apply(s, c).mem) == StoredParameters(s.mem)
  {
    hide Apply, PlaceOf;
    if c.Load? {
      PlacesApart(SlotOf(c.packet), 0);
    }
    forall k | SYS_PARA_ADDR <= k < SYS_PARA_ADDR + SYS_PARA_BYTES
      ensures Apply(s, c).mem[k] == s.mem[k]
    {
      TouchesOnly(s, c, k);
    }
  }

  lemma ClobberedAt(s: State, slot: Byte)
    requires slot % 64 == 62 && s.mem == seq(SIZE, _ => 0)
    ensures StoredParameters(Apply(s, Load(PacketFor(slot, 1))).mem) != StoredParameters(s.mem)
  {
    hide Apply;
    var p := PacketFor(slot, 1);
    LoadStores(s, p);
    var after := Apply(s, Load(p)).mem;
    PlacesApart(slot, slot);
    var k := SYS_PARA_ADDR;
    assert Stored(after, slot)[k] == after[k];
    assert BoundaryOf(p)[k / 2] == BigEndian(1, 1);
    assert InMemory(BoundaryOf(p))[k] == 1;
    assert StoredParameters(after)[0] == after[k];
    assert StoredParameters(s.mem)[0] == 0;
  }

  /** Saved parameters come back after any run without another save or a load to address zero. */
  lemma {:induction false} ParametersRoundTrip(s: State, bytes: Parameters, later: seq<Command>)
    requires forall c :: c in later ==> !c.SaveParams? && (c.Load? ==> SlotOf(c.packet) % 64 != 62)
    ensures ReadBack(Run(Apply(s, SaveParams(bytes)), later).mem, SYS_PARA_ADDR, seq(SYS_PARA_BYTES, _ => 0)) == bytes
  {
    hide Apply, Run;
    ParametersStay(Apply(s, SaveParams(bytes)), later);
    ParametersStored(s, bytes);
    var mem := Run(Apply(s, SaveParams(bytes)), later).mem;
    var read := ReadBack(mem, SYS_PARA_ADDR, seq(SYS_PARA_BYTES, _ => 0));
    assert read == StoredParameters(mem);
  }

  lemma ParametersStored(s: State, bytes: Parameters)
    ensures StoredParameters(Apply(s, SaveParams(bytes)).mem) == bytes
  {
    hide PagedWrite, Fits, BlockWrite;
    SlotFits(0);
    PagedWriteIsBlock(s.mem, SYS_PARA_ADDR, bytes);
    BlockWriteStores(s.mem, SYS_PARA_ADDR, bytes);
  }

  lemma {:induction false} ParametersStay(s: State, later: seq<Command>)
    requires forall c :: c in later ==> !c.SaveParams? && (c.Load? ==> SlotOf(c.packet) % 64 != 62)
    ensures StoredParameters(Run(s, later).mem) == StoredParameters(s.mem)
    decreases |later|
  {
    hide Apply, StoredParameters;
    if later != [] {
      var last := later[|later| - 1];
      assert last in later;
      ParametersStay(s, later[..|later| - 1]);
      ParametersKept(Run(s, later[..|later| - 1]), last);
    }
  }
}
