/** The text of a scan: four hex digits of distance and two of brightness per word, each after a space. */
module ScanText {
  import opened Machine

  const SPACE: Byte := 0x20

  function Digit(n: nat): Byte
    requires n < 16
  {
    if n <= 9 then n + 0x30 else n + 0x37
  }

  /** hex2ascii: the digits of the low half of a word, packed most significant first */
  function Hex2Ascii(data: Word): Word {
    Digit((data / 0x1000) % 16) * 0x100_0000 + Digit((data / 0x100) % 16) * 0x1_0000
    + Digit((data / 0x10) % 16) * 0x100 + Digit(data % 16)
  }

  /** Byte k of a word, counted from the least significant. */
  function ByteOf(w: Word, k: nat): Byte
    requires k < 4
  {
    if k == 0 then w % 0x100 else if k == 1 then (w / 0x100) % 0x100 else if k == 2 then (w / 0x1_0000) % 0x100
    else w / 0x100_0000
  }

  function DistanceEntry(w: Word): seq<Byte> {
    var d := Hex2Ascii(w);
    [SPACE, ByteOf(d, 3), ByteOf(d, 2), ByteOf(d, 1), ByteOf(d, 0)]
  }

  function GrayEntry(w: Word): seq<Byte> {
    var g := Hex2Ascii(w / 0x1_0000);
    [SPACE, ByteOf(g, 1), ByteOf(g, 0)]
  }

  function DistanceText(ws: seq<Word>): (t: seq<Byte>)
    ensures |t| == 5 * |ws|
    decreases |ws|
  {
    if ws == [] then [] else DistanceText(ws[..|ws| - 1]) + DistanceEntry(ws[|ws| - 1])
  }

  function GrayText(ws: seq<Word>): (t: seq<Byte>)
    ensures |t| == 3 * |ws|
    decreases |ws|
  {
    if ws == [] then [] else GrayText(ws[..|ws| - 1]) + GrayEntry(ws[|ws| - 1])
  }

  // ---------------------------------------------------------------- reading it back

  function DigitValue(c: Byte): Option<nat> {
    if 0x30 <= c <= 0x39 then Some(c - 0x30) else if 0x41 <= c <= 0x46 then Some(c - 0x37) else None
  }

  /** A reader of hex numbers that are each introduced by a space; None where the text is anything else. */
  function Fields(t: seq<Byte>): Option<seq<nat>>
    decreases |t|
  {
    if t == [] then Some([])
    else
      var before, c := Fields(t[..|t| - 1]), t[|t| - 1];
      if before.None? then None
      else if c == SPACE then Some(before.value + [0])
      else if DigitValue(c).None? || before.value == [] then None
      else
        var n := |before.value| - 1;
        Some(before.value[n := before.value[n] * 16 + DigitValue(c).value])
  }

  lemma DigitReads(n: nat)
    requires n < 16
    ensures DigitValue(Digit(n)) == Some(n) && Digit(n) != SPACE && Digit(n) != 0
  {
  }

  lemma PackedBytes(a: Byte, b: Byte, c: Byte, d: Byte)
    ensures var w := a * 0x100_0000 + b * 0x1_0000 + c * 0x100 + d;
            0 <= w < WORD && ByteOf(w, 3) == a && ByteOf(w, 2) == b && ByteOf(w, 1) == c && ByteOf(w, 0) == d
  {
    var w := a * 0x100_0000 + b * 0x1_0000 + c * 0x100 + d;
    assert w / 0x1_0000 == a * 0x100 + b;
    assert w / 0x100 == (a * 0x100 + b) * 0x100 + c;
  }

  /** hex2ascii packs four digit characters that spell the low half of its argument. */
  lemma EntriesSpell(w: Word)
    ensures DistanceEntry(w)
         == [SPACE, Digit((w / 0x1000) % 16), Digit((w / 0x100) % 16), Digit((w / 0x10) % 16), Digit(w % 16)]
    ensures GrayEntry(w) == [SPACE, Digit((w / 0x10_0000) % 16), Digit((w / 0x1_0000) % 16)]
  {
    hide Digit, ByteOf;
    PackedBytes(Digit((w / 0x1000) % 16), Digit((w / 0x100) % 16), Digit((w / 0x10) % 16), Digit(w % 16));
    var g := w / 0x1_0000;
    PackedBytes(Digit((g / 0x1000) % 16), Digit((g / 0x100) % 16), Digit((g / 0x10) % 16), Digit(g % 16));
    assert g / 0x10 == w / 0x10_0000;
  }

  lemma ReadSpace(t: seq<Byte>)
    requires Fields(t).Some?
    ensures Fields(t + [SPACE]) == Some(Fields(t).value + [0])
  {
    assert (t + [SPACE])[..|t|] == t;
  }

  lemma ReadDigit(t: seq<Byte>, before: seq<nat>, v: nat, n: nat)
    requires Fields(t) == Some(before + [v]) && n < 16
    ensures Fields(t + [Digit(n)]) == Some(before + [v * 16 + n])
  {
    DigitReads(n);
    assert (t + [Digit(n)])[..|t|] == t;
    assert (before + [v])[|before| := v * 16 + n] == before + [v * 16 + n];
  }

  lemma ReadDistance(t: seq<Byte>, before: seq<nat>, w: Word)
    requires Fields(t) == Some(before)
    ensures Fields(t + DistanceEntry(w)) == Some(before + [w % 0x1_0000])
  {
    hide Fields, Digit, Hex2Ascii, ByteOf, DistanceEntry, GrayEntry;
    EntriesSpell(w);
    ReadSpace(t);
    var s := t + [SPACE];
    var a, b, c, d := (w / 0x1000) % 16, (w / 0x100) % 16, (w / 0x10) % 16, w % 16;
    ReadDigit(s, before, 0, a);
    ReadDigit(s + [Digit(a)], before, a, b);
    ReadDigit(s + [Digit(a)] + [Digit(b)], before, a * 16 + b, c);
    ReadDigit(s + [Digit(a)] + [Digit(b)] + [Digit(c)], before, (a * 16 + b) * 16 + c, d);
    FourDigits(w);
    assert s + [Digit(a)] + [Digit(b)] + [Digit(c)] + [Digit(d)] == t + DistanceEntry(w);
  }

  lemma ReadGray(t: seq<Byte>, before: seq<nat>, w: Word)
    requires Fields(t) == Some(before)
    ensures Fields(t + GrayEntry(w)) == Some(before + [(w / 0x1_0000) % 0x100])
  {
    hide Fields, Digit, Hex2Ascii, ByteOf, DistanceEntry, GrayEntry;
    EntriesSpell(w);
    ReadSpace(t);
    var s := t + [SPACE];
    var g := w / 0x1_0000;
    var e, f := (w / 0x10_0000) % 16, (w / 0x1_0000) % 16;
    ReadDigit(s, before, 0, e);
    ReadDigit(s + [Digit(e)], before, e, f);
    TwoDigits(g);
    assert g / 0x10 == w / 0x10_0000;
    assert s + [Digit(e)] + [Digit(f)] == t + GrayEntry(w);
  }

  lemma FourDigits(w: Word)
    ensures (((w / 0x1000) % 16 * 16 + (w / 0x100) % 16) * 16 + (w / 0x10) % 16) * 16 + w % 16 == w % 0x1_0000
  {
    var h := w / 0x100;
    DigitsNest(w);
    TwoDigits(w);
    TwoDigits(h);
    TwoBytes(w);
    var high, low := (w / 0x1000) % 16 * 16 + (w / 0x100) % 16, (w / 0x10) % 16 * 16 + w % 16;
    assert high == h % 0x100 && low == w % 0x100;
  }

  lemma DigitsNest(n: nat)
    ensures n / 0x100 / 0x10 == n / 0x1000
  {
  }

  lemma TwoBytes(n: nat)
    ensures (n / 0x100) % 0x100 * 0x100 + n % 0x100 == n % 0x1_0000
  {
  }

  lemma TwoDigits(g: nat)
    ensures (g / 0x10) % 16 * 16 + g % 16 == g % 0x100
  {
  }

  /** What a scan measures: distances in the low halves of its words, brightness in the next byte up. */
  function Distances(ws: seq<Word>): seq<nat> { seq(|ws|, i requires 0 <= i < |ws| => ws[i] % 0x1_0000) }
  function Grays(ws: seq<Word>): seq<nat> { seq(|ws|, i requires 0 <= i < |ws| => (ws[i] / 0x1_0000) % 0x100) }

  /** The text of a scan reads back as its measurements. */
  lemma {:induction false} TextReadsBack(ws: seq<Word>)
    ensures Fields(DistanceText(ws)) == Some(Distances(ws))
    ensures Fields(GrayText(ws)) == Some(Grays(ws))
    decreases |ws|
  {
    hide Fields, DistanceEntry, GrayEntry;
    if ws == [] {
      NoFields();
    } else {
      var before, w := ws[..|ws| - 1], ws[|ws| - 1];
      TextReadsBack(before);
      ReadDistance(DistanceText(before), Distances(before), w);
      ReadGray(GrayText(before), Grays(before), w);
      assert Distances(ws) == Distances(before) + [w % 0x1_0000];
      assert Grays(ws) == Grays(before) + [(w / 0x1_0000) % 0x100];
    }
  }

  lemma NoFields()
    ensures Fields([]) == Some([])
  {
  }

  predicate ZeroFree(t: seq<Byte>) { forall i :: 0 <= i < |t| ==> t[i] != 0 }

  lemma {:induction false} TextZeroFree(ws: seq<Word>)
    ensures ZeroFree(DistanceText(ws)) && ZeroFree(GrayText(ws))
    decreases |ws|
  {
    if ws != [] {
      TextZeroFree(ws[..|ws| - 1]);
      EntriesSpell(ws[|ws| - 1]);
    }
  }
}
