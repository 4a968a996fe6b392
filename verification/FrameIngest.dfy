/** How words from the FPGA become frames: the ingest loop of main and the framing half of fpga2nios_parse. */
module FrameIngest {
  import opened Machine
  import opened LaserQueue
  import opened Warnings

  const FRAME_HEAD := 0x1234
  const DISTANCE_DATA := 0xa003
  const UP_FPGA_STATUS := 0xc100
  const TARGETS := 811
  /** Words the queue can hold. */
  const CAPACITY := DEPTH - 1

  /** What one parse finds. Overrun: a distance frame longer than the scan buffers, whose copy leaves them. */
  datatype Frame =
    | Scan(words: seq<Word>, trailer: Word)
    | Report(status: Status)
    | Other(command: Half)
    | Overrun

  predicate IsHeader(w: Word) { w / 0x1_0000 == FRAME_HEAD }
  predicate EndsFrame(w: Word) { w % 0x1_0000 == 0xeeee }

  // ---------------------------------------------------------------- taking a frame out of the queue

  /** The words popped until a header or the end of the queue; the result holds the last word popped. */
  function FindHeader(q: Q): (Q, Word)
    requires !Empty(q)
    decreases Count(q)
  {
    PopCount(q);
    if IsHeader(Head(q)) || Empty(Pop(q)) then (Pop(q), Head(q)) else FindHeader(Pop(q))
  }

  function PopN(q: Q, n: nat): Q { if n == 0 then q else Pop(PopN(q, n - 1)) }

  function WordsN(q: Q, n: nat): (s: seq<Word>)
    ensures |s| == n
  {
    if n == 0 then [] else WordsN(q, n - 1) + [Head(PopN(q, n - 1))]
  }

  /** The rest of a parse, given the command, the length word and the queue behind them. */
  function Framed(command: Half, len: Word, q: Q): (Q, Frame) {
    if command == DISTANCE_DATA then
      if len > TARGETS then (q, Overrun)
      else (Clear(PopN(q, len + 1)), Scan(WordsN(q, len), Head(PopN(q, len))))
    else if command == UP_FPGA_STATUS then
      var s := WordsN(q, 6);
      (Clear(PopN(q, 6)), Report(Status(s[0], s[1], s[2], s[3], s[4], s[5])))
    else (q, Other(command))
  }

  function Deframe(q: Q): (Q, Frame)
    requires !Empty(q)
  {
    var (q1, last) := FindHeader(q);
    Framed(last % 0x1_0000, Head(q1), Pop(q1))
  }

  // ---------------------------------------------------------------- the ingest loop

  /** The queue, the frames parsed so far, and whether one of them left the scan buffers. */
  datatype Line = Line(q: Q, frames: seq<Frame>, lost: bool)

  /** One word of the inner loop, and the parse that follows it if the word ends a frame. */
  function Ingest(l: Line, w: Word): Line {
    if l.lost then l
    else
      var q := Push(if Full(l.q) then Clear(l.q) else l.q, w);
      if EndsFrame(w) then
        PushNeverEmpty(l.q, w);
        var (q', f) := Deframe(q);
        Line(q', l.frames + [f], f.Overrun?)
      else l.(q := q)
  }

  lemma PushNeverEmpty(q: Q, w: Word)
    ensures !Empty(Push(if Full(q) then Clear(q) else q, w))
  {
  }

  function IngestAll(l: Line, ws: seq<Word>): Line
    decreases |ws|
  {
    if ws == [] then l else Ingest(IngestAll(l, ws[..|ws| - 1]), ws[|ws| - 1])
  }

  lemma {:induction false} IngestJoins(l: Line, a: seq<Word>, b: seq<Word>)
    ensures IngestAll(l, a + b) == IngestAll(IngestAll(l, a), b)
    decreases |b|
  {
    hide Ingest;
    var ab := a + b;
    if b == [] {
      assert ab == a;
    } else {
      IngestJoins(l, a, b[..|b| - 1]);
      assert ab[..|ab| - 1] == a + b[..|b| - 1];
    }
  }

  /** One pass of the main loop: it takes words until the FIFO is empty or a frame ends, and leaves the rest. */
  function Pass(l: Line, fifo: seq<Word>): (Line, seq<Word>)
    decreases |fifo|
  {
    if fifo == [] then (l, fifo)
    else
      var l' := Ingest(l, fifo[0]);
      if EndsFrame(fifo[0]) then (l', fifo[1..]) else Pass(l', fifo[1..])
  }

  /** Passes over bursts of arriving words; words left by one pass come first in the next. */
  function Passes(l: Line, bursts: seq<seq<Word>>): (Line, seq<Word>)
    decreases |bursts|
  {
    if bursts == [] then (l, [])
    else
      var (l', rest) := Passes(l, bursts[..|bursts| - 1]);
      Pass(l', rest + bursts[|bursts| - 1])
  }

  function Flatten(bursts: seq<seq<Word>>): seq<Word>
    decreases |bursts|
  {
    if bursts == [] then [] else Flatten(bursts[..|bursts| - 1]) + bursts[|bursts| - 1]
  }

  lemma IngestOne(l: Line, w: Word)
    ensures IngestAll(l, [w]) == Ingest(l, w)
  {
    assert [w][..0] == [];
    assert IngestAll(l, []) == l;
  }

  lemma {:induction false} PassConserves(l: Line, fifo: seq<Word>)
    ensures var (l', rest) := Pass(l, fifo);
            IngestAll(l', rest) == IngestAll(l, fifo) && (fifo != [] ==> |rest| < |fifo|)
    decreases |fifo|
  {
    hide Ingest;
    if fifo != [] {
      var w := fifo[0];
      IngestOne(l, w);
      IngestJoins(l, [w], fifo[1..]);
      assert [w] + fifo[1..] == fifo;
      if !EndsFrame(w) {
        PassConserves(Ingest(l, w), fifo[1..]);
      }
    }
  }

  /** How the words are split over passes does not matter: what has been done, continued with the words still waiting,
      is what the words do in one go. */
  lemma {:induction false} SplittingIsIrrelevant(l: Line, bursts: seq<seq<Word>>)
    ensures var (l', rest) := Passes(l, bursts);
            IngestAll(l', rest) == IngestAll(l, Flatten(bursts))
    decreases |bursts|
  {
    hide Ingest, Pass, IngestAll;
    if bursts == [] {
    } else {
      var before, last := bursts[..|bursts| - 1], bursts[|bursts| - 1];
      SplittingIsIrrelevant(l, before);
      var (l', rest) := Passes(l, before);
      IngestJoins(l', rest, last);
      IngestJoins(l, Flatten(before), last);
      PassConserves(l', rest + last);
    }
  }

  // ---------------------------------------------------------------- what the queue holds between words

  /** What the next push will keep: a full queue is cleared before it. */
  function Held(q: Q): seq<Word> { if Full(q) then [] else Contents(q) }

  predicate HeaderFree(ws: seq<Word>) { forall i :: 0 <= i < |ws| ==> !IsHeader(ws[i]) }
  predicate EndFree(ws: seq<Word>) { forall i :: 0 <= i < |ws| ==> !EndsFrame(ws[i]) }

  /** What is held after a stretch of words that ends no frame: every 2047 words it starts over. */
  function Kept(held: seq<Word>, ws: seq<Word>): seq<Word>
    decreases |ws|
  {
    if ws == [] then held
    else
      var k := Kept(held, ws[..|ws| - 1]) + [ws[|ws| - 1]];
      if |k| == CAPACITY then [] else k
  }

  lemma PushHeld(q: Q, w: Word)
    ensures |Held(q)| < CAPACITY
    ensures Contents(Push(if Full(q) then Clear(q) else q, w)) == Held(q) + [w]
    ensures Held(Push(if Full(q) then Clear(q) else q, w)) == if |Held(q)| + 1 == CAPACITY then [] else Held(q) + [w]
  {
    hide Push, Count, Clear, Full, Empty, Contents;
    var p := if Full(q) then Clear(q) else q;
    ClearIsEmpty(q);
    CountMeans(q);
    CountMeans(p);
    assert Contents(p) == Held(q);
    PushContents(p, w);
    CountMeans(Push(p, w));
  }

  lemma ClearIsEmpty(q: Q)
    ensures Contents(Clear(q)) == [] && Count(Clear(q)) == 0
  {
  }

  lemma {:induction false} IngestKeeps(l: Line, ws: seq<Word>)
    requires !l.lost && EndFree(ws)
    ensures var l' := IngestAll(l, ws); !l'.lost && l'.frames == l.frames && Held(l'.q) == Kept(Held(l.q), ws)
    decreases |ws|
  {
    hide Held, Push, Clear, Full, Deframe;
    if ws != [] {
      var before := ws[..|ws| - 1];
      IngestKeeps(l, before);
      PushHeld(IngestAll(l, before).q, ws[|ws| - 1]);
    }
  }

  lemma {:induction false} KeptLength(held: seq<Word>, ws: seq<Word>)
    requires |held| < CAPACITY
    ensures |Kept(held, ws)| == (|held| + |ws|) % CAPACITY
    decreases |ws|
  {
    if ws != [] {
      KeptLength(held, ws[..|ws| - 1]);
      NextRemainder(|held| + |ws| - 1);
    }
  }

  lemma NextRemainder(n: nat)
    ensures (n + 1) % CAPACITY == if n % CAPACITY + 1 == CAPACITY then 0 else n % CAPACITY + 1
  {
    assert n == n / CAPACITY * CAPACITY + n % CAPACITY;
  }

  lemma {:induction false} KeptHeaderFree(held: seq<Word>, ws: seq<Word>)
    requires HeaderFree(held) && HeaderFree(ws)
    ensures HeaderFree(Kept(held, ws))
    decreases |ws|
  {
    if ws != [] {
      KeptHeaderFree(held, ws[..|ws| - 1]);
    }
  }

  lemma {:induction false} KeptAll(held: seq<Word>, ws: seq<Word>)
    requires |held| + |ws| < CAPACITY
    ensures Kept(held, ws) == held + ws
    decreases |ws|
  {
    if ws != [] {
      KeptAll(held, ws[..|ws| - 1]);
      assert held + ws[..|ws| - 1] + [ws[|ws| - 1]] == held + ws;
    }
  }

  /** Once the queue has filled up, everything older is gone. */
  lemma {:induction false} KeptTail(held: seq<Word>, ws: seq<Word>)
    requires |held| < CAPACITY <= |held| + |ws| < 2 * CAPACITY
    ensures Kept(held, ws) == ws[CAPACITY - |held|..]
    decreases |ws|
  {
    var before := ws[..|ws| - 1];
    if |held| + |before| < CAPACITY {
      KeptAll(held, before);
    } else {
      KeptTail(held, before);
      assert before[CAPACITY - |held|..] + [ws[|ws| - 1]] == ws[CAPACITY - |held|..];
    }
  }

  // ---------------------------------------------------------------- parsing what is held

  lemma {:induction false} HeaderFound(q: Q, junk: seq<Word>, head: Word, rest: seq<Word>)
    requires HeaderFree(junk) && IsHeader(head) && Contents(q) == junk + [head] + rest
    ensures !Empty(q) && FindHeader(q).1 == head && Contents(FindHeader(q).0) == rest
    decreases |junk|
  {
    hide Pop, Head, Count, Contents, Empty;
    CountMeans(q);
    PopContents(q);
    var c := Contents(q);
    assert c[0] == Head(q) && c[1..] == Contents(Pop(q));
    if junk == [] {
      assert c == [head] + rest;
    } else {
      CountMeans(Pop(q));
      assert c[1..] == junk[1..] + [head] + rest;
      HeaderFound(Pop(q), junk[1..], head, rest);
    }
  }

  lemma {:induction false} NoHeaderFound(q: Q)
    requires !Empty(q) && HeaderFree(Contents(q))
    ensures FindHeader(q).1 == Contents(q)[|Contents(q)| - 1] && Empty(FindHeader(q).0)
    decreases Count(q)
  {
    hide Pop, Head, Count, Contents, Empty;
    CountMeans(q);
    PopContents(q);
    CountMeans(Pop(q));
    var c := Contents(q);
    assert c[0] == Head(q) && c[1..] == Contents(Pop(q));
    if !Empty(Pop(q)) {
      NoHeaderFound(Pop(q));
    }
  }

  lemma {:induction false} PoppedWords(q: Q, n: nat)
    requires n <= Count(q)
    ensures WordsN(q, n) == Contents(q)[..n] && Contents(PopN(q, n)) == Contents(q)[n..]
  {
    hide Pop, Head, Count, Contents, Empty;
    if n != 0 {
      PoppedWords(q, n - 1);
      var p := PopN(q, n - 1);
      CountMeans(p);
      PopContents(p);
      assert Contents(q)[n - 1..] == [Head(p)] + Contents(Pop(p));
      assert Contents(q)[n - 1..][1..] == Contents(q)[n..];
    }
  }

  const SCAN_HEADER := 0x1234_a003

  function FrameWords(payload: seq<Word>, trailer: Word): seq<Word>
    requires |payload| <= TARGETS
  {
    [SCAN_HEADER, |payload|] + payload + [trailer]
  }

  lemma DeframeScan(q: Q, junk: seq<Word>, payload: seq<Word>, trailer: Word)
    requires HeaderFree(junk) && |payload| <= TARGETS && Contents(q) == junk + FrameWords(payload, trailer)
    ensures !Empty(q) && Deframe(q).1 == Scan(payload, trailer) && Empty(Deframe(q).0)
  {
    hide Pop, Head, Count, Contents, Empty, FindHeader, PopN, WordsN, Clear;
    var tail := [|payload|] + payload + [trailer];
    assert junk + FrameWords(payload, trailer) == junk + [SCAN_HEADER] + tail;
    HeaderFound(q, junk, SCAN_HEADER, tail);
    var q1 := FindHeader(q).0;
    CountMeans(q1);
    PopContents(q1);
    assert tail[0] == Head(q1) && tail[1..] == Contents(Pop(q1));
    assert tail[1..] == payload + [trailer];
    var q2, n := Pop(q1), |payload|;
    PoppedWords(q2, n);
    assert (payload + [trailer])[..n] == payload && (payload + [trailer])[n..] == [trailer];
    var q3 := PopN(q2, n);
    CountMeans(q3);
    PopContents(q3);
    assert Contents(q3)[0] == Head(q3);
    ClearContents(PopN(q2, n + 1));
  }

  const STATUS_HEADER := 0x1234_c100

  /** A status frame as the FPGA sends it; the parser skips the length word. */
  function StatusBody(len: Word, s: Status): seq<Word> {
    [STATUS_HEADER, len, s.motor, s.zero, s.dust, s.temp, s.pulse]
  }

  function StatusWords(len: Word, s: Status): seq<Word> { StatusBody(len, s) + [s.checksum] }

  /** What follows a header behind junk: the length word is taken, and the branch works on the rest. */
  lemma HeadTaken(q: Q, junk: seq<Word>, head: Word, len: Word, rest: seq<Word>)
    requires HeaderFree(junk) && IsHeader(head) && Contents(q) == junk + [head, len] + rest
    ensures !Empty(q)
    ensures FindHeader(q).1 == head && Head(FindHeader(q).0) == len && Contents(Pop(FindHeader(q).0)) == rest
  {
    hide Pop, Head, Count, Contents, Empty, FindHeader, IsHeader;
    assert junk + [head, len] + rest == junk + [head] + ([len] + rest);
    HeaderFound(q, junk, head, [len] + rest);
    var q1 := FindHeader(q).0;
    CountMeans(q1);
    PopContents(q1);
    assert ([len] + rest)[0] == Head(q1) && ([len] + rest)[1..] == Contents(Pop(q1));
  }

  /** A status frame behind junk is parsed to its six words, whatever its length word says, and empties the queue. */
  lemma DeframeReport(q: Q, junk: seq<Word>, len: Word, s: Status)
    requires HeaderFree(junk) && Contents(q) == junk + StatusWords(len, s)
    ensures !Empty(q) && Deframe(q).1 == Report(s) && Empty(Deframe(q).0)
  {
    hide Pop, Head, Count, Contents, Empty, FindHeader, PopN, WordsN, Clear;
    var rest := [s.motor, s.zero, s.dust, s.temp, s.pulse, s.checksum];
    assert junk + StatusWords(len, s) == junk + [STATUS_HEADER, len] + rest;
    HeadTaken(q, junk, STATUS_HEADER, len, rest);
    var q2 := Pop(FindHeader(q).0);
    CountMeans(q2);
    PoppedWords(q2, 6);
    assert rest[..6] == rest;
    ClearContents(PopN(q2, 6));
  }

  /** Any other command takes its header and length word and leaves what is behind them in the queue; a scan that claims
      more words than the text buffers hold goes past their end. */
  lemma DeframeOthers(q: Q, junk: seq<Word>, command: Half, len: Word, rest: seq<Word>)
    requires HeaderFree(junk) && Contents(q) == junk + [0x1234_0000 + command, len] + rest
    ensures !Empty(q)
    ensures command != 0xa003 && command != 0xc100 ==> Deframe(q).1 == Other(command) && Contents(Deframe(q).0) == rest
    ensures command == 0xa003 && len > 811 ==> Deframe(q).1 == Overrun
  {
    hide Pop, Head, Count, Contents, Empty, FindHeader, PopN, WordsN, Clear;
    HeadTaken(q, junk, 0x1234_0000 + command, len, rest);
  }

  lemma DeframeNothing(q: Q)
    requires !Empty(q) && HeaderFree(Contents(q)) && EndsFrame(Contents(q)[|Contents(q)| - 1])
    ensures Deframe(q).1 == Other(0xeeee) && Full(Deframe(q).0)
  {
    hide Pop, Head, Count, Contents, Empty, FindHeader, PopN, WordsN, Clear;
    NoHeaderFound(q);
    PopContents(FindHeader(q).0);
  }

  // ---------------------------------------------------------------- end to end

  /** The receiver is between frames: nothing held could be taken for a header. */
  predicate Ready(l: Line) { !l.lost && HeaderFree(Held(l.q)) }

  predicate ScanTrailer(w: Word) { w % 0x1000_0000 == 0xeee_eeee }

  lemma TrailerEnds(w: Word)
    requires ScanTrailer(w)
    ensures EndsFrame(w) && !IsHeader(w)
  {
    var k := w / 0x1000_0000;
    assert w == k * 0x1000_0000 + 0xeee_eeee;
    assert w / 0x1_0000 == k * 0x1000 + 0xeee;
  }

  /** Words held when the header of a frame arrives after this much junk. */
  function Residue(l: Line, junk: seq<Word>): nat { (|Held(l.q)| + |junk|) % CAPACITY }

  /** The words of a frame before its trailer. */
  function FrameBody(payload: seq<Word>): seq<Word>
    requires |payload| <= TARGETS
  {
    [SCAN_HEADER, |payload|] + payload
  }

  lemma BodyEndFree(payload: seq<Word>)
    requires |payload| <= TARGETS && EndFree(payload)
    ensures EndFree(FrameBody(payload))
  {
    assert SCAN_HEADER % 0x1_0000 == 0xa003;
  }

  /** The word that ends a frame makes the loop parse what is kept by then, followed by that word. */
  lemma EndParses(l: Line, ws: seq<Word>, w: Word) returns (q: Q)
    requires !l.lost && EndFree(ws) && EndsFrame(w)
    ensures !Empty(q) && Contents(q) == Kept(Held(l.q), ws) + [w]
    ensures IngestAll(l, ws + [w]) == Line(Deframe(q).0, l.frames + [Deframe(q).1], Deframe(q).1.Overrun?)
  {
    hide Held, Push, Clear, Full, Deframe, Kept, Empty, Contents, EndsFrame;
    assert (ws + [w])[..|ws + [w]| - 1] == ws;
    IngestKeeps(l, ws);
    var l1 := IngestAll(l, ws);
    PushHeld(l1.q, w);
    PushNeverEmpty(l1.q, w);
    q := Push(if Full(l1.q) then Clear(l1.q) else l1.q, w);
  }

  /** Words that end a frame behind junk: the junk is kept first, then they are. */
  lemma BehindParses(l: Line, junk: seq<Word>, body: seq<Word>, w: Word) returns (q: Q)
    requires !l.lost && EndFree(junk) && EndFree(body) && EndsFrame(w)
    ensures |Kept(Held(l.q), junk)| == Residue(l, junk)
    ensures !Empty(q) && Contents(q) == Kept(Kept(Held(l.q), junk), body) + [w]
    ensures IngestAll(l, junk + (body + [w])) == Line(Deframe(q).0, l.frames + [Deframe(q).1], Deframe(q).1.Overrun?)
  {
    hide Held, Deframe, Kept, Empty, Contents, EndsFrame, IngestAll;
    assert junk + (body + [w]) == junk + body + [w];
    q := EndParses(l, junk + body, w);
    HeldBound(l.q);
    KeptLength(Held(l.q), junk);
    KeptJoins(Held(l.q), junk, body);
  }

  /** If they fit behind what is held, all of it is parsed together. */
  lemma FittingParses(l: Line, junk: seq<Word>, body: seq<Word>, w: Word) returns (q: Q, held: seq<Word>)
    requires Ready(l) && HeaderFree(junk) && EndFree(junk) && EndFree(body) && EndsFrame(w)
    requires Residue(l, junk) + |body| + 1 <= CAPACITY
    ensures HeaderFree(held) && !Empty(q) && Contents(q) == held + (body + [w])
    ensures IngestAll(l, junk + (body + [w])) == Line(Deframe(q).0, l.frames + [Deframe(q).1], Deframe(q).1.Overrun?)
  {
    hide Held, Deframe, Kept, Empty, Contents, EndsFrame, IsHeader, IngestAll, Residue;
    q := BehindParses(l, junk, body, w);
    held := Kept(Held(l.q), junk);
    KeptAll(held, body);
    KeptHeaderFree(Held(l.q), junk);
    assert held + body + [w] == held + (body + [w]);
  }

  /** A distance frame after junk is delivered, payload and trailer intact, if it fits behind what is held. */
  lemma FrameDelivered(l: Line, junk: seq<Word>, payload: seq<Word>, trailer: Word)
    requires Ready(l) && HeaderFree(junk) && EndFree(junk)
    requires |payload| <= TARGETS && EndFree(payload) && EndsFrame(trailer)
    requires Residue(l, junk) + |payload| + 3 <= CAPACITY
    ensures var l' := IngestAll(l, junk + FrameWords(payload, trailer));
            l'.frames == l.frames + [Scan(payload, trailer)] && !l'.lost && Empty(l'.q) && Held(l'.q) == []
  {
    hide Held, Deframe, Empty, Contents, EndsFrame, IsHeader, IngestAll, Residue;
    BodyEndFree(payload);
    var q, held := FittingParses(l, junk, FrameBody(payload), trailer);
    DeframeScan(q, held, payload, trailer);
    HeldOfEmpty(Deframe(q).0);
  }

  predicate StatusEnds(len: Word, s: Status) { EndFree(StatusBody(len, s)) && EndsFrame(s.checksum) }

  /** A status frame after junk is delivered, all six words in place, if it fits behind what is held. */
  lemma ReportDelivered(l: Line, junk: seq<Word>, len: Word, s: Status)
    requires Ready(l) && HeaderFree(junk) && EndFree(junk) && StatusEnds(len, s)
    requires Residue(l, junk) + 8 <= CAPACITY
    ensures var l' := IngestAll(l, junk + StatusWords(len, s));
            l'.frames == l.frames + [Report(s)] && !l'.lost && Empty(l'.q) && Held(l'.q) == []
  {
    hide Held, Deframe, Empty, Contents, EndsFrame, IsHeader, IngestAll, Residue;
    var q, held := FittingParses(l, junk, StatusBody(len, s), s.checksum);
    DeframeReport(q, held, len, s);
    HeldOfEmpty(Deframe(q).0);
  }

  lemma HeldBound(q: Q)
    ensures |Held(q)| < CAPACITY
  {
    CountMeans(q);
  }

  lemma HeldOfEmpty(q: Q)
    ensures Empty(q) || Full(q) ==> Held(q) == []
  {
  }

  lemma {:induction false} KeptJoins(held: seq<Word>, a: seq<Word>, b: seq<Word>)
    ensures Kept(held, a + b) == Kept(Kept(held, a), b)
    decreases |b|
  {
    var ab := a + b;
    if b == [] {
      assert ab == a;
    } else {
      KeptJoins(held, a, b[..|b| - 1]);
      assert ab[..|ab| - 1] == a + b[..|b| - 1];
    }
  }

  lemma TailHeaderFree(payload: seq<Word>, from: nat)
    requires HeaderFree(payload) && |payload| <= TARGETS && 1 <= from <= |payload| + 2
    ensures HeaderFree(FrameBody(payload)[from..])
  {
  }

  /** If it does not fit, the queue is cleared in its middle and only what follows is parsed. */
  lemma OverfullParses(l: Line, junk: seq<Word>, payload: seq<Word>, trailer: Word) returns (q: Q, from: nat)
    requires Ready(l) && EndFree(junk)
    requires |payload| <= TARGETS && EndFree(payload) && ScanTrailer(trailer)
    requires Residue(l, junk) + |payload| + 3 > CAPACITY
    ensures 1 <= from <= |payload| + 2
    ensures !Empty(q) && Contents(q) == FrameBody(payload)[from..] + [trailer]
    ensures IngestAll(l, junk + FrameWords(payload, trailer))
         == Line(Deframe(q).0, l.frames + [Deframe(q).1], Deframe(q).1.Overrun?)
  {
    hide Held, Deframe, Kept, Empty, Contents, EndsFrame, IsHeader, IngestAll;
    BodyEndFree(payload);
    TrailerEnds(trailer);
    q := BehindParses(l, junk, FrameBody(payload), trailer);
    from := CAPACITY - Residue(l, junk);
    KeptTail(Kept(Held(l.q), junk), FrameBody(payload));
  }

  /** With no header in its payload the frame is then lost as an unknown command, and the receiver is ready again. */
  lemma FrameDropped(l: Line, junk: seq<Word>, payload: seq<Word>, trailer: Word)
    requires Ready(l) && HeaderFree(junk) && EndFree(junk)
    requires |payload| <= TARGETS && EndFree(payload) && HeaderFree(payload) && ScanTrailer(trailer)
    requires Residue(l, junk) + |payload| + 3 > CAPACITY
    ensures var l' := IngestAll(l, junk + FrameWords(payload, trailer));
            l'.frames == l.frames + [Other(0xeeee)] && !l'.lost && Held(l'.q) == []
  {
    hide IsHeader, Held, Deframe, Empty, Contents, IngestAll, Residue;
    var q, from := OverfullParses(l, junk, payload, trailer);
    TailHeaderFree(payload, from);
    TrailerEnds(trailer);
    DeframeNothing(q);
    HeldOfEmpty(Deframe(q).0);
  }

  lemma {:induction false} FirstHeader(ws: seq<Word>) returns (j: nat)
    requires !HeaderFree(ws)
    ensures j < |ws| && HeaderFree(ws[..j]) && IsHeader(ws[j])
  {
    hide IsHeader;
    if IsHeader(ws[0]) {
      j := 0;
    } else {
      j := FirstHeader(ws[1..]);
      j := j + 1;
      assert forall i :: 1 <= i < j ==> ws[i] == ws[1..][..j - 1][i - 1];
    }
  }

  lemma {:induction false} WordsNPrefix(q: Q, k: nat, n: nat)
    requires k <= n
    ensures WordsN(q, n)[..k] == WordsN(q, k)
    decreases n
  {
    hide Head, PopN;
    if k < n {
      WordsNPrefix(q, k, n - 1);
    }
  }

  /** A scan read from a header inside the payload has the trailer among its words, where the payload has none. */
  lemma InnerScanDiffers(q: Q, rest: seq<Word>, payload: seq<Word>, trailer: Word)
    requires Contents(q) == rest + [trailer] && |rest| < |payload|
    requires EndFree(payload) && EndsFrame(trailer)
    ensures WordsN(q, |payload|) != payload
  {
    hide Pop, Head, Contents, PopN, WordsN, EndsFrame;
    var k := |rest| + 1;
    CountMeans(q);
    PoppedWords(q, k);
    WordsNPrefix(q, k, |payload|);
    assert WordsN(q, |payload|)[..k] == rest + [trailer];
    assert WordsN(q, |payload|)[|rest|] == trailer;
  }

  /** What is left of a frame that did not fit is never taken for that frame, even if its payload holds headers. */
  lemma TailIsNotTheFrame(q: Q, payload: seq<Word>, trailer: Word, from: nat)
    requires |payload| <= TARGETS && EndFree(payload) && ScanTrailer(trailer) && 1 <= from <= |payload| + 2
    requires Contents(q) == FrameBody(payload)[from..] + [trailer] && !Empty(q)
    ensures Deframe(q).1 != Scan(payload, trailer)
  {
    hide Pop, Head, Count, Contents, Empty, FindHeader, PopN, WordsN, Clear, IsHeader;
    var tail := FrameBody(payload)[from..];
    TrailerEnds(trailer);
    if HeaderFree(tail) {
      DeframeNothing(q);
    } else {
      var j := FirstHeader(tail);
      SmallIsNoHeader(|payload|);
      assert tail[j] == payload[from + j - 2];
      var rest := tail[j + 1..] + [trailer];
      assert tail + [trailer] == tail[..j] + [tail[j]] + rest;
      HeaderFound(q, tail[..j], tail[j], rest);
      var q1 := FindHeader(q).0;
      CountMeans(q1);
      PopContents(q1);
      assert rest[0] == Head(q1) && rest[1..] == Contents(Pop(q1));
      if j + 1 == |tail| {
        TrailerIsLong(trailer);
      } else if Head(q1) == |payload| {
        assert rest[1..] == tail[j + 2..] + [trailer];
        InnerScanDiffers(Pop(q1), tail[j + 2..], payload, trailer);
      }
    }
  }

  lemma SmallIsNoHeader(n: nat)
    requires n <= TARGETS
    ensures !IsHeader(n)
  {
  }

  lemma TrailerIsLong(w: Word)
    requires ScanTrailer(w)
    ensures w > TARGETS
  {
  }

  /** A frame that does not fit is not delivered, whatever its payload holds. */
  lemma FrameNotDelivered(l: Line, junk: seq<Word>, payload: seq<Word>, trailer: Word)
    requires Ready(l) && EndFree(junk)
    requires |payload| <= TARGETS && EndFree(payload) && ScanTrailer(trailer)
    requires Residue(l, junk) + |payload| + 3 > CAPACITY
    ensures IngestAll(l, junk + FrameWords(payload, trailer)).frames != l.frames + [Scan(payload, trailer)]
  {
    hide IsHeader, Deframe, Empty, Contents, IngestAll, Residue;
    var q, from := OverfullParses(l, junk, payload, trailer);
    TailIsNotTheFrame(q, payload, trailer, from);
    assert (l.frames + [Deframe(q).1])[|l.frames|] != (l.frames + [Scan(payload, trailer)])[|l.frames|];
  }

  /** Exactly the frames that fit behind the held words are delivered, and with no header in the payload the receiver is
      between frames again either way. */
  lemma DeliveredExactlyWhen(l: Line, junk: seq<Word>, payload: seq<Word>, trailer: Word)
    requires Ready(l) && HeaderFree(junk) && EndFree(junk)
    requires |payload| <= TARGETS && EndFree(payload) && ScanTrailer(trailer)
    ensures var l' := IngestAll(l, junk + FrameWords(payload, trailer));
            && (l'.frames == l.frames + [Scan(payload, trailer)] <==> Residue(l, junk) + |payload| + 3 <= CAPACITY)
            && (HeaderFree(payload) ==> Ready(l') && Held(l'.q) == [])
  {
    hide IngestAll, Held, FrameWords, Residue;
    if Residue(l, junk) + |payload| + 3 <= CAPACITY {
      FrameDelivered(l, junk, payload, trailer);
    } else {
      FrameNotDelivered(l, junk, payload, trailer);
      if HeaderFree(payload) {
        FrameDropped(l, junk, payload, trailer);
      }
    }
  }

  // ---------------------------------------------------------------- a whole stream

  /** A frame of either kind, with the junk in front of it. */
  datatype Segment =
    | ScanSegment(junk: seq<Word>, payload: seq<Word>, trailer: Word)
    | StatusSegment(junk: seq<Word>, len: Word, status: Status)

  predicate GoodSegment(s: Segment) {
    && HeaderFree(s.junk) && EndFree(s.junk)
    && match s
       case ScanSegment(junk, payload, trailer) =>
         |payload| <= TARGETS && EndFree(payload) && EndsFrame(trailer) && |junk| % CAPACITY + |payload| + 3 <= CAPACITY
       case StatusSegment(junk, len, status) => StatusEnds(len, status) && |junk| % CAPACITY + 8 <= CAPACITY
  }

  predicate AllGood(ss: seq<Segment>) { forall i :: 0 <= i < |ss| ==> GoodSegment(ss[i]) }

  function SegmentWords(s: Segment): seq<Word>
    requires GoodSegment(s)
  {
    match s
    case ScanSegment(junk, payload, trailer) => junk + FrameWords(payload, trailer)
    case StatusSegment(junk, len, status) => junk + StatusWords(len, status)
  }

  function StreamOf(ss: seq<Segment>): seq<Word>
    requires AllGood(ss)
    decreases |ss|
  {
    if ss == [] then [] else StreamOf(ss[..|ss| - 1]) + SegmentWords(ss[|ss| - 1])
  }

  function FrameOf(s: Segment): Frame {
    match s
    case ScanSegment(_, payload, trailer) => Scan(payload, trailer)
    case StatusSegment(_, _, status) => Report(status)
  }

  function FramesOf(ss: seq<Segment>): seq<Frame> { seq(|ss|, i requires 0 <= i < |ss| => FrameOf(ss[i])) }

  lemma SegmentDelivered(l: Line, s: Segment)
    requires !l.lost && Held(l.q) == [] && GoodSegment(s)
    ensures var l' := IngestAll(l, SegmentWords(s));
            l'.frames == l.frames + [FrameOf(s)] && !l'.lost && Held(l'.q) == []
  {
    hide IngestAll, Held, FrameWords, StatusWords, StatusEnds, EndsFrame, IsHeader;
    match s
    case ScanSegment(junk, payload, trailer) => FrameDelivered(l, junk, payload, trailer);
    case StatusSegment(junk, len, status) => ReportDelivered(l, junk, len, status);
  }

  lemma {:induction false} StreamDelivered(l: Line, ss: seq<Segment>)
    requires !l.lost && Held(l.q) == []
    requires AllGood(ss)
    ensures var l' := IngestAll(l, StreamOf(ss));
            l'.frames == l.frames + FramesOf(ss) && !l'.lost && Held(l'.q) == []
    decreases |ss|
  {
    hide IngestAll, Held, SegmentWords, GoodSegment, FrameOf;
    if ss == [] {
      IngestNothing(l);
    } else {
      var before, s := ss[..|ss| - 1], ss[|ss| - 1];
      StreamDelivered(l, before);
      var l1 := IngestAll(l, StreamOf(before));
      SegmentDelivered(l1, s);
      IngestJoins(l, StreamOf(before), SegmentWords(s));
      assert FramesOf(ss) == FramesOf(before) + [FrameOf(s)];
      assert l.frames + FramesOf(before) + [FrameOf(s)] == l.frames + (FramesOf(before) + [FrameOf(s)]);
    }
  }

  lemma IngestNothing(l: Line)
    ensures IngestAll(l, []) == l
  {
  }

  /** The same stream cut into bursts in any way: once the passes have emptied the FIFO, all frames have been delivered
      in order. */
  lemma StreamInBurstsDelivered(l: Line, ss: seq<Segment>, bursts: seq<seq<Word>>)
    requires !l.lost && Held(l.q) == []
    requires AllGood(ss)
    requires Flatten(bursts) == StreamOf(ss) && Passes(l, bursts).1 == []
    ensures Passes(l, bursts).0.frames == l.frames + FramesOf(ss) && !Passes(l, bursts).0.lost
  {
    hide IngestAll, Held, Passes, StreamOf, Flatten;
    SplittingIsIrrelevant(l, bursts);
    StreamDelivered(l, ss);
    IngestNothing(Passes(l, bursts).0);
  }
}
