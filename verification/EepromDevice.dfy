/** The AT24C1024 EEPROM behind the bus and the paged write the driver builds on it. */
module EepromDevice {
  import opened Machine

  const SIZE := 0x2_0000
  const BANK := 0x1_0000
  const PAGE := 256
  const MAX_ADDR := 131072 - 11072

  type Memory = m: seq<Byte> | |m| == SIZE witness seq(SIZE, _ => 0)

  // ---------------------------------------------------------------- the device

  /** Storing data from offset off of a page; the low eight address bits wrap inside the page. */
  function StoreInPage(mem: Memory, page: nat, off: nat, data: seq<Byte>): Memory
    requires page + PAGE <= SIZE && off < PAGE
    decreases |data|
  {
    if data == [] then mem
    else StoreInPage(mem[page + off := data[0]], page, (off + 1) % PAGE, data[1..])
  }

  /** Device select byte: write mode, with address bit 16 in bit 1. */
  function Select(addr: nat): Byte { 0xa0 + 2 * ((addr / BANK) % 2) }

  /** The select bytes this device answers to: type 1010, address bit 16, and the direction in bit 0. */
  predicate IsWriteSelect(b: Byte) { b == 0xa0 || b == 0xa2 }
  predicate IsReadSelect(b: Byte) { b == 0xa1 || b == 0xa3 }

  /** The effect of a write transaction: select byte, two address bytes, then data. */
  function DeviceWrite(mem: Memory, bytes: seq<Byte>): Memory {
    if |bytes| < 3 || !IsWriteSelect(bytes[0]) then mem
    else
      var page := ((bytes[0] / 2) % 2) * BANK + bytes[1] * PAGE;
      StoreInPage(mem, page, bytes[2], bytes[3..])
  }

  // ---------------------------------------------------------------- the driver

  /** Bytes of one transaction of eeprom_write_page; the select byte is computed once, from the start address. */
  function ChunkBytes(addr: nat, at: nat, data: seq<Byte>): seq<Byte> {
    [Select(addr), (at / PAGE) % 0x100, at % 0x100] + data
  }

  /** The first n full-page transactions of eeprom_write_page. */
  function FullPages(mem: Memory, addr: nat, dat: seq<Byte>, n: nat): Memory
    requires n * PAGE <= |dat|
  {
    if n == 0 then mem
    else
      var i := n - 1;
      DeviceWrite(FullPages(mem, addr, dat, i), ChunkBytes(addr, addr + i * PAGE, dat[i * PAGE..n * PAGE]))
  }

  /** What eeprom_write_page does to the memory. */
  function PagedWrite(mem: Memory, addr: nat, dat: seq<Byte>): Memory {
    var number := |dat| / PAGE;
    var full := FullPages(mem, addr, dat, number);
    if |dat| % PAGE == 0 then full
    else DeviceWrite(full, ChunkBytes(addr, addr + number * PAGE, dat[number * PAGE..]))
  }

  // ---------------------------------------------------------------- what it should do

  function BlockWrite(mem: Memory, addr: nat, dat: seq<Byte>): Memory
    requires addr + |dat| <= SIZE
  {
    mem[..addr] + dat + mem[addr + |dat|..]
  }

  /** The range stays in one 64 KB bank and either starts on a page boundary or fits in one page. */
  predicate Fits(addr: nat, len: nat) {
    len == 0
    || (addr / BANK == (addr + len - 1) / BANK && (addr % PAGE == 0 || addr % PAGE + len <= PAGE))
  }

  lemma BlockWriteAt(mem: Memory, addr: nat, dat: seq<Byte>, k: nat)
    requires addr + |dat| <= SIZE && k < SIZE
    ensures BlockWrite(mem, addr, dat)[k] == if addr <= k < addr + |dat| then dat[k - addr] else mem[k]
  {
  }

  lemma BlockWritesJoin(mem: Memory, addr: nat, a: seq<Byte>, b: seq<Byte>)
    requires addr + |a| + |b| <= SIZE
    ensures BlockWrite(BlockWrite(mem, addr, a), addr + |a|, b) == BlockWrite(mem, addr, a + b)
  {
  }

  lemma {:induction false} StoreWithoutWrap(mem: Memory, page: nat, off: nat, data: seq<Byte>)
    requires page + PAGE <= SIZE && off < PAGE && off + |data| <= PAGE
    ensures StoreInPage(mem, page, off, data) == BlockWrite(mem, page + off, data)
    decreases |data|
  {
    if data != [] {
      var mem' := mem[page + off := data[0]];
      assert mem' == BlockWrite(mem, page + off, [data[0]]);
      assert [data[0]] + data[1..] == data;
      if |data| > 1 {
        StoreWithoutWrap(mem', page, off + 1, data[1..]);
        BlockWritesJoin(mem, page + off, [data[0]], data[1..]);
      }
    }
  }

  /** A transaction that stays in its page and bank is a block write. */
  lemma ChunkIsBlock(mem: Memory, addr: nat, at: nat, data: seq<Byte>)
    requires at + |data| <= SIZE && at / BANK == addr / BANK && at % PAGE + |data| <= PAGE
    requires at < SIZE
    ensures DeviceWrite(mem, ChunkBytes(addr, at, data)) == BlockWrite(mem, at, data)
  {
    var bytes := ChunkBytes(addr, at, data);
    assert bytes[3..] == data;
    var bank := at / BANK;
    assert bank == 0 || bank == 1;
    assert (bytes[0] / 2) % 2 == bank;
    assert bank * BANK + ((at / PAGE) % 0x100) * PAGE + at % 0x100 == at;
    StoreWithoutWrap(mem, bank * BANK + bytes[1] * PAGE, bytes[2], data);
  }

  lemma {:induction false} FullPagesAreBlock(mem: Memory, addr: nat, dat: seq<Byte>, n: nat)
    requires n * PAGE <= |dat| && addr + |dat| <= SIZE
    requires dat != [] ==> addr / BANK == (addr + |dat| - 1) / BANK
    requires n > 0 ==> addr % PAGE == 0
    ensures FullPages(mem, addr, dat, n) == BlockWrite(mem, addr, dat[..n * PAGE])
  {
    hide DeviceWrite, ChunkBytes;
    if n != 0 {
      var i := n - 1;
      FullPagesAreBlock(mem, addr, dat, i);
      var at, data := addr + i * PAGE, dat[i * PAGE..n * PAGE];
      assert at % PAGE == 0 && addr <= at < addr + |dat|;
      assert addr / BANK <= at / BANK <= (addr + |dat| - 1) / BANK;
      ChunkIsBlock(FullPages(mem, addr, dat, i), addr, at, data);
      BlockWritesJoin(mem, addr, dat[..i * PAGE], data);
      assert dat[..i * PAGE] + data == dat[..n * PAGE];
    }
  }

  /** Paged writing refines a plain block write on every range that fits. */
  lemma PagedWriteIsBlock(mem: Memory, addr: nat, dat: seq<Byte>)
    requires addr + |dat| <= SIZE && Fits(addr, |dat|)
    ensures PagedWrite(mem, addr, dat) == BlockWrite(mem, addr, dat)
  {
    hide DeviceWrite, ChunkBytes;
    var number := |dat| / PAGE;
    if |dat| != 0 && number > 0 {
      assert addr % PAGE == 0;
    }
    FullPagesAreBlock(mem, addr, dat, number);
    if |dat| % PAGE != 0 {
      var at, data := addr + number * PAGE, dat[number * PAGE..];
      assert addr / BANK <= at / BANK <= (addr + |dat| - 1) / BANK;
      assert at % PAGE == addr % PAGE;
      ChunkIsBlock(FullPages(mem, addr, dat, number), addr, at, data);
      BlockWritesJoin(mem, addr, dat[..number * PAGE], data);
      assert dat[..number * PAGE] + data == dat;
    } else {
      assert dat[..number * PAGE] == dat;
    }
  }

  // ---------------------------------------------------------------- and only on those

  /** A store touches only its page, and storing ones never clears a one. */
  lemma {:induction false} StoreOnes(mem: Memory, page: nat, off: nat, data: seq<Byte>, k: nat)
    requires page + PAGE <= SIZE && off < PAGE && k < SIZE
    requires forall i :: 0 <= i < |data| ==> data[i] == 1
    ensures var after := StoreInPage(mem, page, off, data)[k];
            && (!(page <= k < page + PAGE) ==> after == mem[k])
            && (mem[k] == 1 ==> after == 1)
            && (k == page && data != [] && (off == 0 || off + |data| > PAGE) ==> after == 1)
    decreases |data|
  {
    if data != [] {
      StoreOnes(mem[page + off := data[0]], page, (off + 1) % PAGE, data[1..], k);
    }
  }

  /** The address a transaction starts at, as the device sees it. */
  function Target(addr: nat, at: nat): nat { (addr / BANK) % 2 * BANK + at % BANK }

  lemma OwnTarget(addr: nat)
    ensures Target(addr, addr) == addr % SIZE
  {
  }

  lemma StoreOneByte(mem: Memory, page: nat, off: nat, b: Byte)
    requires page + PAGE <= SIZE && off < PAGE
    ensures StoreInPage(mem, page, off, [b]) == mem[page + off := b]
  {
    assert [b][1..] == [];
  }

  /** Where a transaction's data go: the page and offset of its target, in the bank of the start address. */
  lemma ChunkPage(addr: nat, at: nat, data: seq<Byte>)
    ensures var bytes := ChunkBytes(addr, at, data);
            && |bytes| >= 3 && bytes[3..] == data && bytes[2] == at % PAGE && IsWriteSelect(bytes[0])
            && ((bytes[0] / 2) % 2) * BANK + bytes[1] * PAGE == Target(addr, at) - at % PAGE
    ensures var page, bank := Target(addr, at) - at % PAGE, (addr / BANK) % 2;
            bank * BANK <= page <= bank * BANK + BANK - PAGE
  {
    assert ChunkBytes(addr, at, data)[3..] == data;
    assert ((at / PAGE) % 0x100) * PAGE + at % PAGE == at % BANK;
  }

  lemma ChunkOnes(mem: Memory, addr: nat, at: nat, data: seq<Byte>, k: nat)
    requires k < SIZE && forall i :: 0 <= i < |data| ==> data[i] == 1
    ensures var after := DeviceWrite(mem, ChunkBytes(addr, at, data))[k];
            && (k / BANK != (addr / BANK) % 2 ==> after == mem[k])
            && (mem[k] == 1 ==> after == 1)
            && (k == Target(addr, at) - at % PAGE && at % PAGE + |data| > PAGE ==> after == 1)
  {
    hide ChunkBytes, StoreInPage, Target;
    ChunkPage(addr, at, data);
    StoreOnes(mem, Target(addr, at) - at % PAGE, at % PAGE, data, k);
  }

  lemma {:induction false} FullPagesOnes(mem: Memory, addr: nat, dat: seq<Byte>, n: nat, k: nat)
    requires n * PAGE <= |dat| && k < SIZE && forall i :: 0 <= i < |dat| ==> dat[i] == 1
    ensures var after := FullPages(mem, addr, dat, n)[k];
            && (k / BANK != (addr / BANK) % 2 ==> after == mem[k])
            && (mem[k] == 1 ==> after == 1)
            && (n > 0 && addr % PAGE != 0 && k == Target(addr, addr) - addr % PAGE ==> after == 1)
  {
    hide DeviceWrite, ChunkBytes;
    if n != 0 {
      var i := n - 1;
      FullPagesOnes(mem, addr, dat, i, k);
      ChunkOnes(FullPages(mem, addr, dat, i), addr, addr + i * PAGE, dat[i * PAGE..n * PAGE], k);
    }
  }

  /** Paged writing of ones stays in the bank it started in, and writes the start of the first page whenever the data
      run past the end of that page without starting there. */
  lemma PagedWriteOnes(mem: Memory, addr: nat, dat: seq<Byte>, k: nat)
    requires k < SIZE && forall i :: 0 <= i < |dat| ==> dat[i] == 1
    ensures var after := PagedWrite(mem, addr, dat)[k];
            && (k / BANK != (addr / BANK) % 2 ==> after == mem[k])
            && (addr % PAGE != 0 && addr % PAGE + |dat| > PAGE && k == Target(addr, addr) - addr % PAGE
                ==> after == 1)
  {
    hide DeviceWrite, ChunkBytes;
    var number := |dat| / PAGE;
    FullPagesOnes(mem, addr, dat, number, k);
    if |dat| % PAGE != 0 {
      ChunkOnes(FullPages(mem, addr, dat, number), addr, addr + number * PAGE, dat[number * PAGE..], k);
    }
  }

  /** On a range that does not fit, some write goes wrong. */
  lemma MisfitGoesWrong(addr: nat, len: nat) returns (mem: Memory, dat: seq<Byte>)
    requires addr + len <= SIZE && !Fits(addr, len)
    ensures |dat| == len && PagedWrite(mem, addr, dat) != BlockWrite(mem, addr, dat)
  {
    hide PagedWrite;
    mem := seq(SIZE, _ => 0);
    dat := seq(len, _ => 1);
    if addr % PAGE != 0 && addr % PAGE + len > PAGE {
      var k := addr - addr % PAGE;
      assert Target(addr, addr) == addr;
      PagedWriteOnes(mem, addr, dat, k);
      BlockWriteAt(mem, addr, dat, k);
    } else {
      var k := (addr / BANK + 1) * BANK;
      assert addr < k <= addr + len - 1;
      PagedWriteOnes(mem, addr, dat, k);
      BlockWriteAt(mem, addr, dat, k);
    }
  }

  /** Paged writing is a plain block write for all memories and data exactly on the ranges that fit. */
  lemma PagedWriteIsBlockExactlyWhen(addr: nat, len: nat)
    requires addr + len <= SIZE
    ensures (forall mem: Memory, dat: seq<Byte> :: |dat| == len ==> PagedWrite(mem, addr, dat) == BlockWrite(mem, addr, dat))
            <==> Fits(addr, len)
  {
    hide PagedWrite, BlockWrite;
    if Fits(addr, len) {
      forall mem: Memory, dat: seq<Byte> | |dat| == len
        ensures PagedWrite(mem, addr, dat) == BlockWrite(mem, addr, dat)
      {
        PagedWriteIsBlock(mem, addr, dat);
      }
    } else {
      var mem, dat := MisfitGoesWrong(addr, len);
    }
  }
}
