/** Registers of the JTAG UART core and the ring arithmetic its two driver buffers share. */
module JtagRing {
  import opened Machine

  const BUF_LEN := 2048

  /** DATA register: byte in bits 0-7, RVALID in bit 15, RAVAIL in bits 16-31. */
  function DataByte(w: Word): Byte { w % 0x100 }
  predicate DataValid(w: Word) { (w / 0x8000) % 2 == 1 }
  function DataAvail(w: Word): nat { w / 0x1_0000 }

  /** CONTROL register: RI in bit 8, WI in bit 9, WSPACE in bits 16-31. */
  predicate ReadPending(w: Word) { (w / 0x100) % 2 == 1 }
  predicate WritePending(w: Word) { (w / 0x200) % 2 == 1 }
  function WriteSpace(w: Word): nat { w / 0x1_0000 }

  function BitOf(b: bool): nat { if b then 1 else 0 }

  lemma OneBit(b: bool, rest: nat)
    ensures (BitOf(b) + 2 * rest) / 2 == rest && ((BitOf(b) + 2 * rest) % 2 == 1 <==> b)
  {
  }

  lemma LowByte(low: Byte, rest: nat)
    ensures (low + 0x100 * rest) / 0x100 == rest && (low + 0x100 * rest) % 0x100 == low
  {
  }

  lemma Nested(w: nat)
    ensures w / 0x200 == w / 0x100 / 2 && w / 0x400 == w / 0x200 / 2 && w / 0x1_0000 == w / 0x400 / 0x40
    ensures w / 0x8000 == w / 0x100 / 0x80 && w / 0x1_0000 == w / 0x8000 / 2
  {
  }

  /** A DATA word put together from its fields gives them back, whatever the reserved bits hold. */
  lemma DataFields(data: Byte, reserved: nat, valid: bool, avail: Half)
    requires reserved < 0x80
    ensures var w := data + 0x100 * (reserved + 0x80 * (BitOf(valid) + 2 * avail));
            w < WORD && DataByte(w) == data && DataValid(w) == valid && DataAvail(w) == avail
  {
    hide BitOf;
    var high := BitOf(valid) + 2 * avail;
    var w := data + 0x100 * (reserved + 0x80 * high);
    assert BitOf(valid) <= 1 by { BitIsSmall(valid); }
    LowByte(data, reserved + 0x80 * high);
    Nested(w);
    OneBit(valid, avail);
    assert (reserved + 0x80 * high) / 0x80 == high;
  }

  lemma BitIsSmall(b: bool)
    ensures BitOf(b) <= 1
  {
  }

  /** A CONTROL word likewise; the byte below RI holds the enables, the six bits above WI the activity flag. */
  lemma ControlFields(low: Byte, ri: bool, wi: bool, middle: nat, space: Half)
    requires middle < 0x40
    ensures var w := low + 0x100 * (BitOf(ri) + 2 * (BitOf(wi) + 2 * (middle + 0x40 * space)));
            w < WORD && ReadPending(w) == ri && WritePending(w) == wi && WriteSpace(w) == space
  {
    hide BitOf;
    var high := middle + 0x40 * space;
    var upper := BitOf(wi) + 2 * high;
    var w := low + 0x100 * (BitOf(ri) + 2 * upper);
    BitIsSmall(ri);
    BitIsSmall(wi);
    LowByte(low, BitOf(ri) + 2 * upper);
    OneBit(ri, upper);
    OneBit(wi, high);
    Nested(w);
    assert high / 0x40 == space;
  }

  type Index = i: int | 0 <= i < BUF_LEN
  type Buffer = b: seq<Byte> | |b| == BUF_LEN witness seq(BUF_LEN, _ => 0)

  /** Index n places further round the ring. */
  function Plus(i: Index, n: nat): Index { (i + n) % BUF_LEN }

  lemma PlusWraps(i: Index, n: nat)
    requires i + n <= BUF_LEN
    ensures Plus(i, n) == if i + n < BUF_LEN then i + n else 0
  {
  }

  /** Number of used slots between the two indices. */
  function Used(out: Index, in_: Index): nat {
    if out <= in_ then in_ - out else in_ + BUF_LEN - out
  }

  /** The used slots, oldest first. */
  function Contents(buf: Buffer, out: Index, in_: Index): (s: seq<Byte>)
    ensures |s| == Used(out, in_)
  {
    if out <= in_ then buf[out..in_] else buf[out..] + buf[..in_]
  }

  /** A full ring keeps one slot free: the test "next equals out" holds exactly with BUF_LEN - 1 bytes used. */
  lemma FullTest(out: Index, in_: Index)
    ensures Plus(in_, 1) == out <==> Used(out, in_) == BUF_LEN - 1
  {
  }

  lemma StoreAppends(buf: Buffer, out: Index, in_: Index, b: Byte)
    requires Plus(in_, 1) != out
    ensures Contents(buf[in_ := b], out, Plus(in_, 1)) == Contents(buf, out, in_) + [b]
  {
    PlusWraps(in_, 1);
  }

  /** Dropping n bytes that lie before the end of the buffer drops the oldest n bytes. */
  lemma DropBlock(buf: Buffer, out: Index, in_: Index, n: nat)
    requires n <= Used(out, in_) && out + n <= BUF_LEN
    ensures Contents(buf, Plus(out, n), in_) == Contents(buf, out, in_)[n..]
  {
    PlusWraps(out, n);
  }

  /** The k-th oldest byte, as long as the buffer has not wrapped before it. */
  lemma BlockByte(buf: Buffer, out: Index, in_: Index, k: nat)
    requires k < Used(out, in_) && out + k < BUF_LEN
    ensures buf[out + k] == Contents(buf, out, in_)[k]
  {
  }

  /** Moving in over n free slots appends what they hold. */
  lemma AppendBlock(buf: Buffer, out: Index, in_: Index, n: nat)
    requires Used(out, in_) + n < BUF_LEN && in_ + n <= BUF_LEN
    ensures Contents(buf, out, Plus(in_, n)) == Contents(buf, out, in_) + buf[in_..in_ + n]
  {
    PlusWraps(in_, n);
    if out <= in_ && in_ + n < BUF_LEN {
      assert buf[out..in_ + n] == buf[out..in_] + buf[in_..in_ + n];
    } else if out <= in_ {
      assert buf[out..] + buf[..0] == buf[out..in_] + buf[in_..in_ + n];
    } else {
      assert buf[out..] + buf[..in_ + n] == buf[out..] + buf[..in_] + buf[in_..in_ + n];
    }
  }

  /** Writing a free slot leaves the contents alone. */
  lemma FreeSlot(buf: Buffer, out: Index, in_: Index, ahead: nat, b: Byte)
    requires Used(out, in_) + ahead < BUF_LEN && in_ + ahead < BUF_LEN
    ensures Contents(buf[in_ + ahead := b], out, in_) == Contents(buf, out, in_)
  {
  }
}
