/** The SICK scan telegram and the loop of main that sends it in segments. */
module Telegram {
  import opened Machine
  import opened ScanText

  // The two fixed texts before the measurements, in parts; both describe their channel by the same scale fields.
  const DEVICE := "sSI 5A 1 1 103B7B4 0 0"
  const COUNTERS := " 9D9 9DD B3E30A9 B3E44BC"
  const STATUS := " 0 0 1 0 0 5DC A2 0 2"
  const SCALE := " 3F800000 00000000"
  const ANGLES := " FFF92230 D05 32B"

  const FRAME_START := DEVICE + COUNTERS + STATUS + " DIST1" + SCALE + ANGLES
  const RSSI_FIELD_START := " RSSI1" + SCALE + ANGLES
  const RSSI_FIELD_END := " 0 0 0 0 0 0"
  const START_LENGTH := 108
  const RSSI_LENGTH := 41
  const END_LENGTH := 12

  const BUFFER := 8448
  const TEXT := 811 * 5
  const SEGMENT := 1460
  const UP_ALARM_REGION_STATUS := 0xc101
  const STX: Byte := 0x02
  const ETX: Byte := 0x03

  function Bytes(s: string): (b: seq<Byte>)
    ensures |b| == |s|
  {
    seq(|s|, i requires 0 <= i < |s| => s[i] as int % 0x100)
  }

  /** sick_pos_packet: the telegram around a scan's two texts */
  function TelegramOf(distance: seq<Byte>, gray: seq<Byte>): seq<Byte> {
    [STX] + Bytes(FRAME_START) + distance + Bytes(RSSI_FIELD_START) + gray + Bytes(RSSI_FIELD_END) + [ETX]
  }

  /** The pieces the send loop cuts a telegram into. */
  function Segments(t: seq<Byte>): seq<seq<Byte>>
    decreases |t|
  {
    if |t| >= SEGMENT then [t[..SEGMENT]] + Segments(t[SEGMENT..])
    else if t != [] then [t]
    else []
  }

  function RegionPacket(alarm: Word): seq<Byte> {
    [0x12, 0x34, UP_ALARM_REGION_STATUS / 0x100, UP_ALARM_REGION_STATUS % 0x100,
     0, 0, 0, 4, 0, 0, 0, alarm % 0x100, 0xee, 0xee, 0xee, 0xee]
  }

  /** Everything one scan makes the loop send; the region status follows only a short last segment. */
  function Sends(t: seq<Byte>, alarm: Word): seq<seq<Byte>> {
    Segments(t) + if |t| % SEGMENT != 0 then [RegionPacket(alarm)] else []
  }

  /** strlen */
  function StrLen(s: seq<Byte>): (n: nat)
    ensures n <= |s| && ZeroFree(s[..n]) && (n < |s| ==> s[n] == 0)
    decreases |s|
  {
    if s == [] || s[0] == 0 then 0 else 1 + StrLen(s[1..])
  }

  // ---------------------------------------------------------------- properties

  function Flatten(ss: seq<seq<Byte>>): seq<Byte> { if ss == [] then [] else ss[0] + Flatten(ss[1..]) }

  /** The segments are consecutive slices, none empty or too long, that make up the telegram. */
  lemma {:induction false} SegmentsAreSlices(t: seq<Byte>)
    ensures Flatten(Segments(t)) == t
    ensures forall i :: 0 <= i < |Segments(t)| ==> 1 <= |Segments(t)[i]| <= SEGMENT
    ensures forall i :: 0 <= i < |Segments(t)| - 1 ==> |Segments(t)[i]| == SEGMENT
    decreases |t|
  {
    if |t| >= SEGMENT {
      var rest := t[SEGMENT..];
      SegmentsAreSlices(rest);
      assert Segments(t)[1..] == Segments(rest);
      assert t == t[..SEGMENT] + rest;
    } else if t != [] {
      assert Segments(t)[1..] == [];
      assert t == t + Flatten([]);
    }
  }

  lemma FixedTexts()
    ensures |FRAME_START| == START_LENGTH && |RSSI_FIELD_START| == RSSI_LENGTH && |RSSI_FIELD_END| == END_LENGTH
  {
  }

  /** The text consists of printable characters. */
  predicate Plain(s: string) { forall i :: 0 <= i < |s| ==> ' ' <= s[i] <= '~' }

  lemma PlainJoins(a: string, b: string)
    requires Plain(a) && Plain(b)
    ensures Plain(a + b)
  {
  }

  lemma PlainZeroFree(s: string)
    requires Plain(s)
    ensures ZeroFree(Bytes(s))
  {
  }

  lemma PartsPlain()
    ensures Plain(DEVICE) && Plain(COUNTERS) && Plain(STATUS)
  {
  }

  lemma FieldsPlain()
    ensures Plain(SCALE) && Plain(ANGLES) && Plain(" DIST1") && Plain(" RSSI1") && Plain(RSSI_FIELD_END)
  {
  }

  lemma FixedTextsPlain()
    ensures Plain(FRAME_START) && Plain(RSSI_FIELD_START)
  {
    hide Plain;
    PartsPlain();
    FieldsPlain();
    PlainJoins(DEVICE, COUNTERS);
    PlainJoins(DEVICE + COUNTERS, STATUS);
    PlainJoins(DEVICE + COUNTERS + STATUS, " DIST1");
    PlainJoins(DEVICE + COUNTERS + STATUS + " DIST1", SCALE);
    PlainJoins(DEVICE + COUNTERS + STATUS + " DIST1" + SCALE, ANGLES);
    PlainJoins(" RSSI1", SCALE);
    PlainJoins(" RSSI1" + SCALE, ANGLES);
  }

  lemma FixedTextsZeroFree()
    ensures ZeroFree(Bytes(FRAME_START)) && ZeroFree(Bytes(RSSI_FIELD_START)) && ZeroFree(Bytes(RSSI_FIELD_END))
  {
    hide Plain, ZeroFree;
    FixedTextsPlain();
    FieldsPlain();
    PlainZeroFree(FRAME_START);
    PlainZeroFree(RSSI_FIELD_START);
    PlainZeroFree(RSSI_FIELD_END);
  }

  /** A telegram of full text buffers fits the send buffer and leaves room for the terminating zero. */
  lemma TelegramFits(distance: seq<Byte>, gray: seq<Byte>)
    ensures |TelegramOf(distance, gray)| == 163 + |distance| + |gray|
    ensures |distance| <= TEXT && |gray| <= TEXT ==> |TelegramOf(distance, gray)| < BUFFER
  {
    FixedTexts();
  }

  lemma TelegramZeroFree(distance: seq<Byte>, gray: seq<Byte>)
    requires ZeroFree(distance) && ZeroFree(gray)
    ensures ZeroFree(TelegramOf(distance, gray))
  {
    FixedTextsZeroFree();
    hide Bytes;
  }
}
