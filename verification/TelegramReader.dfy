/** A reader of scan telegrams that knows only how a telegram is laid out: words between spaces, inside STX and ETX. */
module TelegramReader {
  import opened Machine
  import opened ScanText
  import opened Telegram

  datatype Reading = Reading(distances: seq<nat>, grays: seq<nat>)

  // Where a reader finds things, counted in words; the second channel follows the measurements of the first.
  const CHANNEL_AT := 20
  const COUNT_AT := 25
  const DATA_AT := 26
  const SECOND_HEAD := 6
  const TAIL_WORDS := 6

  /** The text cut at its spaces. */
  function Words(t: seq<Byte>): (w: seq<seq<Byte>>)
    ensures w != []
    decreases |t|
  {
    if t == [] then [[]]
    else
      var w, c := Words(t[..|t| - 1]), t[|t| - 1];
      if c == SPACE then w + [[]] else w[|w| - 1 := w[|w| - 1] + [c]]
  }

  /** The hex number a word spells. */
  function Number(word: seq<Byte>): Option<nat> {
    match Fields([SPACE] + word)
    case Some(ns) => if |ns| == 1 then Some(ns[0]) else None
    case None => None
  }

  function Numbers(words: seq<seq<Byte>>): Option<seq<nat>>
    decreases |words|
  {
    if words == [] then Some([])
    else
      match (Numbers(words[..|words| - 1]), Number(words[|words| - 1]))
      case (Some(ns), Some(n)) => Some(ns + [n])
      case _ => None
  }

  predicate Enclosed(t: seq<Byte>) { |t| >= 2 && t[0] == STX && t[|t| - 1] == ETX }

  function Body(t: seq<Byte>): seq<seq<Byte>>
    requires Enclosed(t)
  {
    Words(t[1..|t| - 1])
  }

  /** Both channels of a telegram, taken to hold this many measurements each. */
  function Read(t: seq<Byte>, n: nat): Option<Reading> {
    if !Enclosed(t) then None
    else
      var w := Body(t);
      var second := DATA_AT + n;
      if |w| != second + SECOND_HEAD + n + TAIL_WORDS then None
      else if w[CHANNEL_AT] != Bytes("DIST1") || w[second] != Bytes("RSSI1") then None
      else
        match (Numbers(w[DATA_AT..second]), Numbers(w[second + SECOND_HEAD..second + SECOND_HEAD + n]))
        case (Some(d), Some(g)) => Some(Reading(d, g))
        case _ => None
  }

  /** The number of measurements the telegram says it holds. */
  function Declared(t: seq<Byte>): Option<nat> {
    if !Enclosed(t) || |Body(t)| <= COUNT_AT then None else Number(Body(t)[COUNT_AT])
  }

  /** A reader that believes the declared number. */
  function ReadDeclared(t: seq<Byte>): Option<Reading> {
    match Declared(t)
    case Some(n) => Read(t, n)
    case None => None
  }

  // ---------------------------------------------------------------- words of joined texts

  predicate SpaceFree(t: seq<Byte>) { forall i :: 0 <= i < |t| ==> t[i] != SPACE }

  /** One more word. */
  lemma {:induction false} WordsGrow(a: seq<Byte>, word: seq<Byte>)
    requires SpaceFree(word)
    ensures Words(a + [SPACE] + word) == Words(a) + [word]
    decreases |word|
  {
    var t := a + [SPACE] + word;
    if word == [] {
      assert t[..|t| - 1] == a;
    } else {
      var before := word[..|word| - 1];
      WordsGrow(a, before);
      assert t[..|t| - 1] == a + [SPACE] + before;
      assert before + [word[|word| - 1]] == word;
    }
  }

  lemma {:induction false} WordsOfOne(word: seq<Byte>)
    requires SpaceFree(word)
    ensures Words(word) == [word]
    decreases |word|
  {
    if word != [] {
      WordsOfOne(word[..|word| - 1]);
      assert word[..|word| - 1] + [word[|word| - 1]] == word;
    }
  }

  /** Appending this text appends these words. */
  ghost predicate Adds(s: string, words: seq<seq<Byte>>) {
    forall a :: Words(a + Bytes(s)) == Words(a) + words
  }

  lemma BytesJoin(a: string, b: string)
    ensures Bytes(a + b) == Bytes(a) + Bytes(b)
  {
  }

  lemma AddsJoin(s1: string, w1: seq<seq<Byte>>, s2: string, w2: seq<seq<Byte>>)
    requires Adds(s1, w1) && Adds(s2, w2)
    ensures Adds(s1 + s2, w1 + w2)
  {
    hide Words, Bytes;
    BytesJoin(s1, s2);
    forall a ensures Words(a + Bytes(s1 + s2)) == Words(a) + (w1 + w2) {
      assert a + Bytes(s1 + s2) == a + Bytes(s1) + Bytes(s2);
      assert Words(a) + w1 + w2 == Words(a) + (w1 + w2);
    }
  }

  function One(x: string): string { " " + x }
  function Two(x: string, y: string): string { One(x) + One(y) }
  function Three(x: string, y: string, z: string): string { Two(x, y) + One(z) }

  lemma AddsOne(x: string)
    requires SpaceFree(Bytes(x))
    ensures Adds(One(x), [Bytes(x)])
  {
    BytesJoin(" ", x);
    assert Bytes(" ") == [SPACE];
    hide Words, Bytes, SpaceFree;
    forall a ensures Words(a + Bytes(One(x))) == Words(a) + [Bytes(x)] {
      WordsGrow(a, Bytes(x));
      assert a + Bytes(One(x)) == a + [SPACE] + Bytes(x);
    }
  }

  lemma AddsTwo(x: string, y: string)
    requires SpaceFree(Bytes(x)) && SpaceFree(Bytes(y))
    ensures Adds(Two(x, y), [Bytes(x), Bytes(y)])
  {
    hide Adds, Bytes, SpaceFree, One;
    AddsOne(x);
    AddsOne(y);
    AddsJoin(One(x), [Bytes(x)], One(y), [Bytes(y)]);
    assert [Bytes(x)] + [Bytes(y)] == [Bytes(x), Bytes(y)];
  }

  lemma AddsThree(x: string, y: string, z: string)
    requires SpaceFree(Bytes(x)) && SpaceFree(Bytes(y)) && SpaceFree(Bytes(z))
    ensures Adds(Three(x, y, z), [Bytes(x), Bytes(y), Bytes(z)])
  {
    hide Adds, Bytes, SpaceFree, One, Two;
    AddsTwo(x, y);
    AddsOne(z);
    AddsJoin(Two(x, y), [Bytes(x), Bytes(y)], One(z), [Bytes(z)]);
    assert [Bytes(x), Bytes(y)] + [Bytes(z)] == [Bytes(x), Bytes(y), Bytes(z)];
  }

  // ---------------------------------------------------------------- the fixed texts, word by word

  lemma DeviceIs()
    ensures DEVICE == "sSI" + (Three("5A", "1", "1") + Three("103B7B4", "0", "0"))
  {
  }

  lemma CountersAre()
    ensures COUNTERS == Two("9D9", "9DD") + Two("B3E30A9", "B3E44BC")
  {
  }

  lemma StatusIs()
    ensures STATUS == Three("0", "0", "1") + Three("0", "0", "5DC") + Three("A2", "0", "2")
  {
  }

  lemma ChannelIs()
    ensures SCALE == Two("3F800000", "00000000") && ANGLES == Three("FFF92230", "D05", "32B")
    ensures RSSI_FIELD_END == Three("0", "0", "0") + Three("0", "0", "0")
  {
  }

  lemma ShortWords()
    ensures SpaceFree(Bytes("sSI")) && SpaceFree(Bytes("5A")) && SpaceFree(Bytes("1")) && SpaceFree(Bytes("0"))
    ensures SpaceFree(Bytes("9D9")) && SpaceFree(Bytes("9DD")) && SpaceFree(Bytes("5DC")) && SpaceFree(Bytes("A2"))
    ensures SpaceFree(Bytes("2"))
  {
  }

  lemma ChannelShortWords()
    ensures SpaceFree(Bytes("D05")) && SpaceFree(Bytes("32B"))
    ensures SpaceFree(Bytes("DIST1")) && SpaceFree(Bytes("RSSI1"))
  {
  }

  lemma LongWords()
    ensures SpaceFree(Bytes("103B7B4")) && SpaceFree(Bytes("B3E30A9")) && SpaceFree(Bytes("B3E44BC"))
    ensures SpaceFree(Bytes("3F800000")) && SpaceFree(Bytes("00000000")) && SpaceFree(Bytes("FFF92230"))
  {
  }

  lemma DeviceWords()
    ensures |Words(Bytes(DEVICE))| == 7
  {
    hide Words, Bytes, SpaceFree, Adds, Three;
    ShortWords();
    LongWords();
    DeviceIs();
    var x, y := Three("5A", "1", "1"), Three("103B7B4", "0", "0");
    AddsThree("5A", "1", "1");
    AddsThree("103B7B4", "0", "0");
    AddsJoin(x, [Bytes("5A"), Bytes("1"), Bytes("1")], y, [Bytes("103B7B4"), Bytes("0"), Bytes("0")]);
    AddsTo("sSI", x + y, [Bytes("5A"), Bytes("1"), Bytes("1")] + [Bytes("103B7B4"), Bytes("0"), Bytes("0")]);
    WordsOfOne(Bytes("sSI"));
  }

  lemma AddsTo(a: string, s: string, words: seq<seq<Byte>>)
    requires Adds(s, words)
    ensures Words(Bytes(a + s)) == Words(Bytes(a)) + words
  {
    hide Words, Bytes;
    BytesJoin(a, s);
  }

  lemma CounterWords() returns (w: seq<seq<Byte>>)
    ensures |w| == 4 && Adds(COUNTERS, w)
  {
    hide Bytes, SpaceFree, Adds, Two;
    ShortWords();
    LongWords();
    CountersAre();
    AddsTwo("9D9", "9DD");
    AddsTwo("B3E30A9", "B3E44BC");
    w := [Bytes("9D9"), Bytes("9DD")] + [Bytes("B3E30A9"), Bytes("B3E44BC")];
    AddsJoin(Two("9D9", "9DD"), w[..2], Two("B3E30A9", "B3E44BC"), w[2..]);
    assert w[..2] + w[2..] == w;
  }

  lemma StatusWords() returns (w: seq<seq<Byte>>)
    ensures |w| == 9 && Adds(STATUS, w)
  {
    hide Bytes, SpaceFree, Adds, Three;
    ShortWords();
    StatusIs();
    var x, y, z := Three("0", "0", "1"), Three("0", "0", "5DC"), Three("A2", "0", "2");
    AddsThree("0", "0", "1");
    AddsThree("0", "0", "5DC");
    AddsThree("A2", "0", "2");
    w := [Bytes("0"), Bytes("0"), Bytes("1")] + [Bytes("0"), Bytes("0"), Bytes("5DC")];
    AddsJoin(x, [Bytes("0"), Bytes("0"), Bytes("1")], y, [Bytes("0"), Bytes("0"), Bytes("5DC")]);
    AddsJoin(x + y, w, z, [Bytes("A2"), Bytes("0"), Bytes("2")]);
    w := w + [Bytes("A2"), Bytes("0"), Bytes("2")];
  }

  /** The name of a channel, its scale and angles, and the declared number of measurements. */
  lemma ChannelWords(name: string) returns (w: seq<seq<Byte>>)
    requires SpaceFree(Bytes(name))
    ensures |w| == 6 && w[0] == Bytes(name) && w[5] == Bytes("32B") && Adds(One(name) + SCALE + ANGLES, w)
  {
    hide Bytes, SpaceFree, Adds, One, Two, Three;
    ChannelShortWords();
    LongWords();
    ChannelIs();
    AddsOne(name);
    AddsTwo("3F800000", "00000000");
    AddsThree("FFF92230", "D05", "32B");
    w := [Bytes(name)] + [Bytes("3F800000"), Bytes("00000000")];
    AddsJoin(One(name), [Bytes(name)], SCALE, [Bytes("3F800000"), Bytes("00000000")]);
    AddsJoin(One(name) + SCALE, w, ANGLES, [Bytes("FFF92230"), Bytes("D05"), Bytes("32B")]);
    w := w + [Bytes("FFF92230"), Bytes("D05"), Bytes("32B")];
  }

  lemma EndWords() returns (w: seq<seq<Byte>>)
    ensures |w| == TAIL_WORDS && Adds(RSSI_FIELD_END, w)
  {
    hide Bytes, SpaceFree, Adds, Three;
    ShortWords();
    ChannelIs();
    AddsThree("0", "0", "0");
    w := [Bytes("0"), Bytes("0"), Bytes("0")] + [Bytes("0"), Bytes("0"), Bytes("0")];
    AddsJoin(Three("0", "0", "0"), w[..3], Three("0", "0", "0"), w[3..]);
    assert w[..3] + w[3..] == w;
  }

  /** Everything in front of the distances. */
  lemma StartWords() returns (w: seq<seq<Byte>>)
    ensures Words(Bytes(FRAME_START)) == w && |w| == DATA_AT
    ensures w[CHANNEL_AT] == Bytes("DIST1") && w[COUNT_AT] == Bytes("32B")
  {
    hide Words, Bytes, SpaceFree, Adds;
    ChannelShortWords();
    DeviceWords();
    var counters := CounterWords();
    var status := StatusWords();
    var channel := ChannelWords("DIST1");
    AddsTo(DEVICE, COUNTERS, counters);
    AddsTo(DEVICE + COUNTERS, STATUS, status);
    AddsTo(DEVICE + COUNTERS + STATUS, One("DIST1") + SCALE + ANGLES, channel);
    assert DEVICE + COUNTERS + STATUS + (One("DIST1") + SCALE + ANGLES) == FRAME_START;
    w := Words(Bytes(DEVICE)) + counters + status + channel;
  }

  // ---------------------------------------------------------------- the measurements, word by word

  lemma EntryWord(w: Word)
    ensures SpaceFree(DistanceEntry(w)[1..]) && [SPACE] + DistanceEntry(w)[1..] == DistanceEntry(w)
    ensures SpaceFree(GrayEntry(w)[1..]) && [SPACE] + GrayEntry(w)[1..] == GrayEntry(w)
  {
    hide DistanceEntry, GrayEntry;
    EntriesSpell(w);
  }

  /** The word of one measurement is appended whole, and spells its number. */
  lemma EntryAdds(a: seq<Byte>, w: Word)
    ensures var d := DistanceEntry(w)[1..];
            Words(a + DistanceEntry(w)) == Words(a) + [d] && Number(d) == Some(w % 0x1_0000)
    ensures var g := GrayEntry(w)[1..];
            Words(a + GrayEntry(w)) == Words(a) + [g] && Number(g) == Some((w / 0x1_0000) % 0x100)
  {
    hide Words, SpaceFree, DistanceEntry, GrayEntry, Fields;
    EntryWord(w);
    var d, g := DistanceEntry(w)[1..], GrayEntry(w)[1..];
    WordsGrow(a, d);
    WordsGrow(a, g);
    assert a + [SPACE] + d == a + DistanceEntry(w) && a + [SPACE] + g == a + GrayEntry(w);
    NoFields();
    ReadDistance([], [], w);
    ReadGray([], [], w);
    assert [] + DistanceEntry(w) == DistanceEntry(w) && [] + GrayEntry(w) == GrayEntry(w);
  }

  lemma NumbersGrow(words: seq<seq<Byte>>, word: seq<Byte>)
    requires Numbers(words).Some? && Number(word).Some?
    ensures Numbers(words + [word]) == Some(Numbers(words).value + [Number(word).value])
  {
    assert (words + [word])[..|words|] == words;
  }

  lemma {:induction false} DistanceWords(a: seq<Byte>, ws: seq<Word>) returns (d: seq<seq<Byte>>)
    ensures Words(a + DistanceText(ws)) == Words(a) + d && |d| == |ws| && Numbers(d) == Some(Distances(ws))
    decreases |ws|
  {
    hide Words, DistanceEntry, Number;
    if ws == [] {
      assert a + DistanceText(ws) == a;
      d := [];
    } else {
      var before, w := ws[..|ws| - 1], ws[|ws| - 1];
      var d0 := DistanceWords(a, before);
      var t := a + DistanceText(before);
      EntryAdds(t, w);
      assert a + DistanceText(ws) == t + DistanceEntry(w);
      d := d0 + [DistanceEntry(w)[1..]];
      NumbersGrow(d0, DistanceEntry(w)[1..]);
      assert Distances(ws) == Distances(before) + [w % 0x1_0000];
    }
  }

  lemma {:induction false} GrayWords(a: seq<Byte>, ws: seq<Word>) returns (g: seq<seq<Byte>>)
    ensures Words(a + GrayText(ws)) == Words(a) + g && |g| == |ws| && Numbers(g) == Some(Grays(ws))
    decreases |ws|
  {
    hide Words, GrayEntry, Number;
    if ws == [] {
      assert a + GrayText(ws) == a;
      g := [];
    } else {
      var before, w := ws[..|ws| - 1], ws[|ws| - 1];
      var g0 := GrayWords(a, before);
      var t := a + GrayText(before);
      EntryAdds(t, w);
      assert a + GrayText(ws) == t + GrayEntry(w);
      g := g0 + [GrayEntry(w)[1..]];
      NumbersGrow(g0, GrayEntry(w)[1..]);
      assert Grays(ws) == Grays(before) + [(w / 0x1_0000) % 0x100];
    }
  }

  // ---------------------------------------------------------------- reading a telegram back

  function TelegramFor(ws: seq<Word>): seq<Byte> { TelegramOf(DistanceText(ws), GrayText(ws)) }

  function Inside(distance: seq<Byte>, gray: seq<Byte>): seq<Byte> {
    Bytes(FRAME_START) + distance + Bytes(RSSI_FIELD_START) + gray + Bytes(RSSI_FIELD_END)
  }

  lemma TelegramEncloses(distance: seq<Byte>, gray: seq<Byte>)
    ensures var t := TelegramOf(distance, gray); Enclosed(t) && t[1..|t| - 1] == Inside(distance, gray)
  {
    hide Bytes;
    var t := TelegramOf(distance, gray);
    assert t == [STX] + Inside(distance, gray) + [ETX];
  }

  /** The words of a telegram: the start, the distances, the second head, the brightness, the end. */
  lemma TelegramWords(ws: seq<Word>)
    returns (start: seq<seq<Byte>>, d: seq<seq<Byte>>, head: seq<seq<Byte>>, g: seq<seq<Byte>>, end: seq<seq<Byte>>)
    ensures Enclosed(TelegramFor(ws)) && Body(TelegramFor(ws)) == start + d + head + g + end
    ensures |start| == DATA_AT && |d| == |ws| && |head| == SECOND_HEAD && |g| == |ws| && |end| == TAIL_WORDS
    ensures start[CHANNEL_AT] == Bytes("DIST1") && head[0] == Bytes("RSSI1") && start[COUNT_AT] == Bytes("32B")
    ensures Numbers(d) == Some(Distances(ws)) && Numbers(g) == Some(Grays(ws))
  {
    hide Words, Bytes, DistanceText, GrayText, Numbers, SpaceFree, TelegramOf, Distances, Grays;
    ChannelShortWords();
    TelegramEncloses(DistanceText(ws), GrayText(ws));
    start := StartWords();
    head := ChannelWords("RSSI1");
    assert RSSI_FIELD_START == One("RSSI1") + SCALE + ANGLES;
    end := EndWords();
    var t1 := Bytes(FRAME_START) + DistanceText(ws);
    d := DistanceWords(Bytes(FRAME_START), ws);
    var t2 := t1 + Bytes(RSSI_FIELD_START);
    g := GrayWords(t2, ws);
    assert Words(t2) == Words(t1) + head;
    assert Words(t2 + GrayText(ws) + Bytes(RSSI_FIELD_END)) == Words(t2 + GrayText(ws)) + end;
  }

  /** Whatever the number of measurements, a reader that is told it gets all of them back, in order. */
  lemma TelegramReadsBack(ws: seq<Word>)
    ensures Read(TelegramFor(ws), |ws|) == Some(Reading(Distances(ws), Grays(ws)))
  {
    hide Words, Bytes, Numbers, TelegramFor, Distances, Grays, Body;
    var start, d, head, g, end := TelegramWords(ws);
    var w, second := Body(TelegramFor(ws)), DATA_AT + |ws|;
    assert w[DATA_AT..second] == d && w[second] == head[0];
    assert w[second + SECOND_HEAD..second + SECOND_HEAD + |ws|] == g;
  }

  lemma FullCountSpells()
    ensures Number(Bytes("32B")) == Some(811)
  {
    hide Fields;
    var none: seq<Byte> := [];
    assert none + [SPACE] == [SPACE];
    NoFields();
    ReadSpace(none);
    ReadDigit([SPACE], [], 0, 3);
    ReadDigit([SPACE] + [Digit(3)], [], 3, 2);
    ReadDigit([SPACE] + [Digit(3)] + [Digit(2)], [], 0x32, 0xb);
    assert [SPACE] + Bytes("32B") == [SPACE] + [Digit(3)] + [Digit(2)] + [Digit(0xb)];
  }

  /** Every telegram declares 811 measurements, so a reader that believes it gets the scan exactly when that is how many
      the scan has. */
  lemma DeclaredReadsBackExactlyWhen(ws: seq<Word>)
    ensures Declared(TelegramFor(ws)) == Some(811)
    ensures ReadDeclared(TelegramFor(ws)) == Some(Reading(Distances(ws), Grays(ws))) <==> |ws| == 811
    ensures |ws| != 811 ==> ReadDeclared(TelegramFor(ws)) == None
  {
    hide Words, Bytes, Numbers, TelegramFor, Distances, Grays, Body, Number;
    var start, d, head, g, end := TelegramWords(ws);
    var w := Body(TelegramFor(ws));
    assert w[COUNT_AT] == start[COUNT_AT];
    FullCountSpells();
    TelegramReadsBack(ws);
  }

  /** A telegram stands between the two control characters of the protocol. */
  lemma TelegramEnds(ws: seq<Word>)
    ensures var t := TelegramFor(ws); |t| > 2 && t[0] == 0x02 && t[|t| - 1] == 0x03
  {
    hide DistanceText, GrayText, Bytes;
  }
}
