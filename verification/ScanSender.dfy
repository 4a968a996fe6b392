/** The send buffer: sick_pos_packet builds the telegram in it, the send loop of main hands it to both sockets. */
module ScanSender {
  import opened Machine
  import opened ScanText
  import opened Telegram

  function Zeros(n: nat): seq<Byte> { seq(n, _ => 0) }

  lemma {:induction false} StrLenOf(t: seq<Byte>, n: nat)
    requires ZeroFree(t) && n > 0
    ensures StrLen(t + Zeros(n)) == |t|
    decreases |t|
  {
    var s := t + Zeros(n);
    if t != [] {
      StrLenOf(t[1..], n);
      assert s[1..] == t[1..] + Zeros(n);
    }
  }

  lemma ZeroFreePrefix(s: seq<Byte>, n: nat)
    requires n <= |s| && ZeroFree(s[..n])
    ensures forall k :: 0 <= k < n ==> s[k] != 0
  {
    forall k | 0 <= k < n
      ensures s[k] != 0
    {
      assert s[..n][k] == s[k];
    }
  }

  lemma StrLenOneMore(s: seq<Byte>, n: nat)
    requires n <= |s| && ZeroFree(s[..n])
    ensures n <= StrLen(s) && (n < |s| && s[n] == 0 ==> StrLen(s) == n)
  {
    var m := StrLen(s);
    ZeroFreePrefix(s, n);
    ZeroFreePrefix(s, m);
  }

  lemma SegmentsFromOffset(t: seq<Byte>, offset: nat)
    requires offset <= |t|
    ensures |t| - offset >= SEGMENT ==>
              Segments(t[offset..]) == [t[offset..offset + SEGMENT]] + Segments(t[offset + SEGMENT..])
    ensures 0 < |t| - offset < SEGMENT ==> Segments(t[offset..]) == [t[offset..]]
    ensures offset == |t| ==> Segments(t[offset..]) == []
  {
    if |t| - offset >= SEGMENT {
      assert t[offset..][..SEGMENT] == t[offset..offset + SEGMENT];
      assert t[offset..][SEGMENT..] == t[offset + SEGMENT..];
    }
  }

  lemma AppendOne(log: seq<seq<Byte>>, done: seq<seq<Byte>>, s: seq<Byte>)
    ensures log + done + [s] == log + (done + [s])
  {
  }

  class Sender {
    const sendBuffer: array<Byte>
    /** What send() was given, socket by socket. */
    var socket0: seq<seq<Byte>>
    var socket1: seq<seq<Byte>>

    ghost predicate Valid()
      reads this
    {
      sendBuffer.Length == BUFFER
    }

    constructor ()
      ensures Valid() && fresh(sendBuffer) && socket0 == [] && socket1 == []
    {
      sendBuffer := new Byte[BUFFER](_ => 0);
      socket0 := [];
      socket1 := [];
    }

    /** memcpy into the send buffer, behind what has been built so far */
    method CopyIn(src: seq<Byte>, offset: nat, ghost built: seq<Byte>)
      requires Valid() && |built| == offset && offset + |src| <= BUFFER
      requires sendBuffer[..] == built + Zeros(BUFFER - offset)
      modifies sendBuffer
      ensures sendBuffer[..] == built + src + Zeros(BUFFER - offset - |src|)
    {
      for i := 0 to |src|
        invariant sendBuffer[..] == built + src[..i] + Zeros(BUFFER - offset - i)
      {
        OneMoreByte(built, src, i, BUFFER - offset);
        sendBuffer[offset + i] := src[i];
      }
      assert src[..|src|] == src;
    }

    /** sick_pos_packet */
    method PackTelegram(distance: array<Byte>, distanceLen: nat, gray: array<Byte>, grayLen: nat)
      requires Valid() && distance.Length == TEXT && gray.Length == TEXT
      requires distanceLen <= TEXT && grayLen <= TEXT && sendBuffer !in {distance, gray}
      modifies sendBuffer
      ensures var t := TelegramOf(distance[..distanceLen], gray[..grayLen]);
              |t| < BUFFER && sendBuffer[..] == t + Zeros(BUFFER - |t|)
    {
      hide Bytes;
      ghost var d, g := distance[..distanceLen], gray[..grayLen];
      TelegramFits(d, g);
      FixedTexts();
      for i := 0 to BUFFER
        invariant forall k :: 0 <= k < i ==> sendBuffer[k] == 0
      {
        sendBuffer[i] := 0;
      }
      assert sendBuffer[..] == Zeros(BUFFER);
      sendBuffer[0] := STX;
      ghost var t := [STX];
      assert sendBuffer[..] == t + Zeros(BUFFER - 1);
      var len := |FRAME_START|;
      CopyIn(Bytes(FRAME_START), 1, t);
      t := t + Bytes(FRAME_START);
      var offset := len + 1;
      CopyIn(distance[..distanceLen], offset, t);
      t := t + d;
      offset := offset + distanceLen;
      len := |RSSI_FIELD_START|;
      CopyIn(Bytes(RSSI_FIELD_START), offset, t);
      t := t + Bytes(RSSI_FIELD_START);
      offset := offset + len;
      CopyIn(gray[..grayLen], offset, t);
      t := t + g;
      offset := offset + grayLen;
      len := |RSSI_FIELD_END|;
      CopyIn(Bytes(RSSI_FIELD_END), offset, t);
      t := t + Bytes(RSSI_FIELD_END);
      offset := offset + len;
      LastByte(t, BUFFER - offset);
      sendBuffer[offset] := ETX;
    }

    /** strlen of the send buffer; without a zero in it, the real one would run on. */
    method Strlen() returns (n: nat)
      requires Valid() && StrLen(sendBuffer[..]) < BUFFER
      ensures n == StrLen(sendBuffer[..])
    {
      n := 0;
      while sendBuffer[n] != 0
        invariant n < BUFFER && ZeroFree(sendBuffer[..n])
        decreases BUFFER - n
      {
        assert sendBuffer[..n + 1] == sendBuffer[..n] + [sendBuffer[n]];
        StrLenOneMore(sendBuffer[..], n + 1);
        n := n + 1;
      }
      StrLenOneMore(sendBuffer[..], n);
    }

    /** The segmenting loop of main: it measures the telegram anew on every round. */
    method SendScan(regionAlarm: Word)
      requires Valid() && StrLen(sendBuffer[..]) < BUFFER
      modifies this, sendBuffer
      ensures var t := old(sendBuffer[..StrLen(sendBuffer[..])]);
              && socket0 == old(socket0) + Sends(t, regionAlarm)
              && socket1 == old(socket1) + Sends(t, regionAlarm)
    {
      hide Segments, StrLen;
      ghost var whole := sendBuffer[..];
      ghost var t := whole[..StrLen(whole)];
      ghost var done: seq<seq<Byte>> := [];
      var offset := 0;
      assert t[0..] == t;
      assert socket0 + [] == socket0 && socket1 + [] == socket1;
      while true
        invariant sendBuffer[..] == whole && offset <= |t| && offset % SEGMENT == 0
        invariant done + Segments(t[offset..]) == Segments(t)
        invariant socket0 == old(socket0) + done && socket1 == old(socket1) + done
        decreases |t| - offset
      {
        SegmentsFromOffset(t, offset);
        var len := Strlen();
        if len - offset >= SEGMENT {
          var piece := sendBuffer[offset..offset + SEGMENT];
          assert piece == t[offset..offset + SEGMENT];
          AppendOne(old(socket0), done, piece);
          AppendOne(old(socket1), done, piece);
          assert done + ([piece] + Segments(t[offset + SEGMENT..])) == done + [piece] + Segments(t[offset + SEGMENT..]);
          socket0 := socket0 + [piece];
          socket1 := socket1 + [piece];
          done := done + [piece];
          offset := offset + SEGMENT;
        } else if len - offset < SEGMENT && len - offset > 0 {
          var piece := sendBuffer[offset..len];
          assert piece == t[offset..];
          AppendOne(old(socket0), done, piece);
          AppendOne(old(socket1), done, piece);
          AppendOne(old(socket0), done + [piece], RegionPacket(regionAlarm));
          AppendOne(old(socket1), done + [piece], RegionPacket(regionAlarm));
          socket0 := socket0 + [piece];
          socket1 := socket1 + [piece];
          var packet := BuildRegionPacket(regionAlarm);
          socket0 := socket0 + [packet];
          socket1 := socket1 + [packet];
          ShortRemainder(|t|, offset);
          break;
        } else {
          assert done + [] == done;
          assert Segments(t) + [] == Segments(t);
          break;
        }
      }
    }

    /** The region status packet overwrites the start of the send buffer. */
    method BuildRegionPacket(regionAlarm: Word) returns (packet: seq<Byte>)
      requires Valid()
      modifies sendBuffer
      ensures packet == RegionPacket(regionAlarm)
    {
      sendBuffer[0], sendBuffer[1] := 0x12, 0x34;
      sendBuffer[2], sendBuffer[3] := UP_ALARM_REGION_STATUS / 0x100, UP_ALARM_REGION_STATUS % 0x100;
      sendBuffer[4], sendBuffer[5], sendBuffer[6], sendBuffer[7] := 0, 0, 0, 4;
      sendBuffer[8], sendBuffer[9], sendBuffer[10], sendBuffer[11] := 0, 0, 0, regionAlarm % 0x100;
      sendBuffer[12], sendBuffer[13], sendBuffer[14], sendBuffer[15] := 0xee, 0xee, 0xee, 0xee;
      packet := sendBuffer[..16];
    }
  }

  lemma ShortRemainder(n: nat, offset: nat)
    requires offset % SEGMENT == 0 && 0 < n - offset < SEGMENT
    ensures n % SEGMENT != 0
  {
    assert n % SEGMENT == (n - offset) % SEGMENT;
  }

  lemma OneMoreByte(built: seq<Byte>, src: seq<Byte>, i: nat, room: nat)
    requires i < |src| <= room
    ensures (built + src[..i] + Zeros(room - i))[|built| + i := src[i]] == built + src[..i + 1] + Zeros(room - i - 1)
  {
  }

  lemma LastByte(t: seq<Byte>, room: nat)
    requires room > 0
    ensures (t + Zeros(room))[|t| := ETX] == t + [ETX] + Zeros(room - 1)
  {
  }

  // ---------------------------------------------------------------- telegram and segments together

  /** What the buffer holds after packing is, to strlen and the loop, exactly the telegram. */
  lemma PackedTelegramSeen(distance: seq<Byte>, gray: seq<Byte>)
    requires ZeroFree(distance) && ZeroFree(gray) && |distance| <= TEXT && |gray| <= TEXT
    ensures var t := TelegramOf(distance, gray);
            |t| < BUFFER && StrLen(t + Zeros(BUFFER - |t|)) == |t|
            && (t + Zeros(BUFFER - |t|))[..|t|] == t
  {
    hide TelegramOf;
    TelegramFits(distance, gray);
    TelegramZeroFree(distance, gray);
    StrLenOf(TelegramOf(distance, gray), BUFFER - |TelegramOf(distance, gray)|);
  }

  /** For every scan: the segments put the telegram together again, none exceeds 1460 bytes, and the region status
      packet always follows, because no scan's telegram is a whole number of segments. */
  lemma ScanSends(ws: seq<Word>, alarm: Word)
    requires |ws| <= 811
    ensures var t := TelegramOf(DistanceText(ws), GrayText(ws));
            && |t| == 163 + 8 * |ws| < BUFFER && ZeroFree(t)
            && Sends(t, alarm) == Segments(t) + [RegionPacket(alarm)]
            && Flatten(Segments(t)) == t
            && (forall i :: 0 <= i < |Segments(t)| ==> 1 <= |Segments(t)[i]| <= SEGMENT)
  {
    hide TelegramOf, Segments, Flatten, DistanceText, GrayText, ZeroFree, RegionPacket;
    var d, g := DistanceText(ws), GrayText(ws);
    TextZeroFree(ws);
    TelegramFits(d, g);
    TelegramZeroFree(d, g);
    SegmentsAreSlices(TelegramOf(d, g));
    NotWhole(|ws|);
  }

  lemma NotWhole(n: nat)
    ensures (163 + 8 * n) % SEGMENT != 0
  {
    var len := 163 + 8 * n;
    assert len == 4 * (365 * (len / SEGMENT)) + len % SEGMENT;
    assert len == 4 * (40 + 2 * n) + 3;
  }
}
