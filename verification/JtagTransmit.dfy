/** Transmit half of the fast JTAG UART driver. A writer fills the ring in small steps; the interrupt routine
    drains it into the hardware and may run between any two of them, including between two bytes of the copy. */
module JtagTransmit {
  import opened Machine
  import opened JtagRing

  /** The fields of the driver state the transmit side uses, and the bytes written to the DATA register so far. */
  datatype TxRing = TxRing(txIn: Index, txOut: Index, txBuf: Buffer, writeIrq: bool, sent: seq<Byte>)

  datatype WritePc = Idle | SnapIn | SnapOut | Copy | Enable | Wait | Leave

  /** Locals of a write call: ptr bytes of data are published, copied more are in the ring but not yet published. */
  datatype Writer = Writer(pc: WritePc, data: seq<Byte>, ptr: nat, nonblock: bool,
                           inSnap: Index, outSnap: Index, n: nat, copied: nat, unannounced: bool)

  datatype WriteResult = WriteResult(data: seq<Byte>, nonblock: bool, code: int)

  datatype Transmit = Transmit(ring: TxRing, writer: Writer, results: seq<WriteResult>)

  /** Advance moves the writer; quit is what it sees when it tests host_inactive after waiting. */
  datatype Action = Interrupt(control: Word) | Call(data: seq<Byte>, nonblock: bool) | Advance(quit: bool)

  // ---------------------------------------------------------------- the interrupt routine

  function SendOne(r: TxRing): TxRing {
    r.(sent := r.sent + [r.txBuf[r.txOut]], txOut := Plus(r.txOut, 1))
  }

  /** The transmit loop of the interrupt routine; the second result is the hardware space left. */
  function Drain(r: TxRing, space: nat): (TxRing, nat)
    decreases space
  {
    if space > 0 && r.txOut != r.txIn then Drain(SendOne(r), space - 1) else (r, space)
  }

  /** One pass of the interrupt routine over a pending transmit interrupt. */
  function TxPass(r: TxRing, space: nat): TxRing {
    var (drained, left) := Drain(r, space);
    if left > 0 then drained.(writeIrq := false) else drained
  }

  // ---------------------------------------------------------------- the writer, one shared access at a time

  const NoWriter := Writer(Idle, [], 0, false, 0, 0, 0, 0, false)

  /** Free slots that can be filled without wrapping, computed from the two snapshots. */
  function Writable(inSnap: Index, outSnap: Index): nat {
    if inSnap < outSnap then outSnap - 1 - inSnap
    else if outSnap > 0 then BUF_LEN - inSnap
    else BUF_LEN - 1 - inSnap
  }

  function Begin(s: Transmit, data: seq<Byte>, nonblock: bool): Transmit {
    s.(writer := NoWriter.(pc := SnapIn, data := data, nonblock := nonblock))
  }

  function ReturnCode(w: Writer): int {
    if w.ptr > 0 then w.ptr else if w.nonblock then -EWOULDBLOCK else -EIO
  }

  /** The next step of the write call in progress. Waiting may end at any time: with freed space or a host timeout. */
  function WriterStep(s: Transmit, quit: bool): Transmit {
    var w, ring := s.writer, s.ring;
    var left := |w.data| - w.ptr;
    match w.pc
    case Idle => s
    case SnapIn => s.(writer := if left > 0 then w.(pc := SnapOut, inSnap := ring.txIn) else w.(pc := Enable))
    case SnapOut =>
      var n := Writable(w.inSnap, ring.txOut);
      s.(writer := w.(outSnap := ring.txOut, n := if n > left >= 0 then left else n, copied := 0,
                      pc := if n == 0 then Enable else Copy))
    case Copy =>
      if w.copied < w.n then
        var to, from := w.inSnap + w.copied, w.ptr + w.copied;
        if to < BUF_LEN && from < |w.data| then
          Transmit(ring.(txBuf := ring.txBuf[to := w.data[from]]), w.(copied := w.copied + 1), s.results)
        else s
      else
        Transmit(ring.(txIn := Plus(w.inSnap, w.n)),
                 w.(pc := SnapIn, ptr := w.ptr + w.n, copied := 0, unannounced := true), s.results)
    case Enable =>
      Transmit(ring.(writeIrq := true),
               w.(unannounced := false, pc := if left > 0 && !w.nonblock then Wait else Leave), s.results)
    case Wait => s.(writer := w.(pc := if quit then Leave else SnapIn))
    case Leave =>
      Transmit(ring, NoWriter, s.results + [WriteResult(w.data, w.nonblock, ReturnCode(w))])
  }

  /** Any action may be attempted in any state: a call during a call does nothing, as there is one writer. */
  function Step(s: Transmit, a: Action): Transmit {
    match a
    case Interrupt(control) => s.(ring := TxPass(s.ring, WriteSpace(control)))
    case Call(data, nonblock) => if s.writer.pc == Idle then Begin(s, data, nonblock) else s
    case Advance(quit) => WriterStep(s, quit)
  }

  /** State after initialisation: empty ring, transmit interrupts off. */
  function Initial(txBuf: Buffer): Transmit {
    Transmit(TxRing(0, 0, txBuf, false, []), NoWriter, [])
  }

  function Run(txBuf: Buffer, actions: seq<Action>): Transmit {
    if actions == [] then Initial(txBuf)
    else Step(Run(txBuf, actions[..|actions| - 1]), actions[|actions| - 1])
  }

  // ---------------------------------------------------------------- what the run means

  /** The part of its data a completed write call reported as accepted. */
  function Accepted(r: WriteResult): seq<Byte> {
    if 0 < r.code <= |r.data| then r.data[..r.code] else []
  }

  function AllAccepted(results: seq<WriteResult>): seq<Byte> {
    if results == [] then [] else AllAccepted(results[..|results| - 1]) + Accepted(results[|results| - 1])
  }

  /** The unsent bytes of the ring, oldest first. */
  function Unsent(r: TxRing): seq<Byte> { Contents(r.txBuf, r.txOut, r.txIn) }

  // ---------------------------------------------------------------- invariant

  /** Every byte published so far. */
  function Published(s: Transmit): seq<Byte> {
    AllAccepted(s.results) + if s.writer.ptr <= |s.writer.data| then s.writer.data[..s.writer.ptr] else []
  }

  ghost predicate WriterOk(w: Writer, r: TxRing) {
    && w.ptr <= |w.data|
    && match w.pc
       case Idle => w == NoWriter
       case SnapIn => true
       case SnapOut => w.inSnap == r.txIn && w.ptr < |w.data|
       case Copy =>
         && w.inSnap == r.txIn
         && 0 < w.n <= |w.data| - w.ptr
         && w.inSnap + w.n <= BUF_LEN
         && |Unsent(r)| + w.n < BUF_LEN
         && w.copied <= w.n
         && r.txBuf[w.inSnap..w.inSnap + w.copied] == w.data[w.ptr..w.ptr + w.copied]
       case Enable => true
       case Wait => !w.unannounced
       case Leave => !w.unannounced
  }

  /** A call reports a prefix of its data as accepted, or the right error when nothing was. */
  predicate ResultOk(r: WriteResult) {
    if r.code > 0 then r.code <= |r.data| else r.code == if r.nonblock then -EWOULDBLOCK else -EIO
  }

  /** Unsent bytes always have an interrupt coming, or a writer that has yet to ask for one. */
  predicate WakeupPending(s: Transmit) {
    s.ring.txOut != s.ring.txIn ==> s.ring.writeIrq || s.writer.unannounced
  }

  ghost predicate Inv(s: Transmit) {
    && s.ring.sent + Unsent(s.ring) == Published(s)
    && WriterOk(s.writer, s.ring)
    && WakeupPending(s)
    && forall i :: 0 <= i < |s.results| ==> ResultOk(s.results[i])
  }

  // ---------------------------------------------------------------- the interrupt keeps it

  lemma SendOneMoves(r: TxRing)
    requires r.txOut != r.txIn
    ensures SendOne(r).sent + Unsent(SendOne(r)) == r.sent + Unsent(r)
    ensures |Unsent(SendOne(r))| == |Unsent(r)| - 1
  {
    DropBlock(r.txBuf, r.txOut, r.txIn, 1);
    BlockByte(r.txBuf, r.txOut, r.txIn, 0);
    assert Unsent(r) == [Unsent(r)[0]] + Unsent(r)[1..];
  }

  /** Draining moves bytes from the ring to the hardware and spends one unit of space on each. */
  lemma {:induction false} DrainMoves(r: TxRing, space: nat)
    ensures var (d, left) := Drain(r, space);
            && d.sent + Unsent(d) == r.sent + Unsent(r)
            && |Unsent(d)| <= |Unsent(r)|
            && r.sent <= d.sent
            && |d.sent| + left == |r.sent| + space
            && (left > 0 ==> d.txOut == d.txIn)
            && d == r.(txOut := d.txOut, sent := d.sent)
    decreases space
  {
    if space > 0 && r.txOut != r.txIn {
      SendOneMoves(r);
      DrainMoves(SendOne(r), space - 1);
    }
  }

  /** A transmit pass sends as much as the hardware takes, oldest first, and switches its interrupt off exactly when it
      has run out of bytes before the hardware has run out of space. */
  lemma TxPassIs(r: TxRing, space: nat)
    ensures var r', n := TxPass(r, space), if space < |Unsent(r)| then space else |Unsent(r)|;
            && r'.sent == r.sent + Unsent(r)[..n] && Unsent(r') == Unsent(r)[n..]
            && r'.writeIrq == (r.writeIrq && space <= |Unsent(r)|)
  {
    hide Contents;
    DrainMoves(r, space);
    var (d, left) := Drain(r, space);
    var n := |d.sent| - |r.sent|;
    assert d.sent + Unsent(d) == r.sent + Unsent(r);
    assert (d.sent + Unsent(d))[|d.sent|..] == Unsent(d) && (r.sent + Unsent(r))[|d.sent|..] == Unsent(r)[n..];
    assert d.sent == (r.sent + Unsent(r))[..|d.sent|] == r.sent + Unsent(r)[..n];
  }

  lemma InterruptKeepsInv(s: Transmit, control: Word)
    requires Inv(s)
    ensures Inv(Step(s, Interrupt(control)))
  {
    DrainMoves(s.ring, WriteSpace(control));
    assert Published(Step(s, Interrupt(control))) == Published(s);
  }

  // ---------------------------------------------------------------- the writer keeps it

  /** The three-way space computation never offers the slot that would make a full ring look empty. */
  lemma WritableLeavesOneSlot(out: Index, in_: Index)
    ensures Used(out, in_) + Writable(in_, out) < BUF_LEN
    ensures in_ + Writable(in_, out) <= BUF_LEN
    ensures Writable(in_, out) == 0 <==> Used(out, in_) == BUF_LEN - 1
    ensures Used(out, in_) + Writable(in_, out) < BUF_LEN - 1 ==> in_ + Writable(in_, out) == BUF_LEN
  {
  }

  lemma SnapshotsKeepInv(s: Transmit, quit: bool)
    requires Inv(s) && (s.writer.pc == SnapIn || s.writer.pc == SnapOut)
    ensures Inv(WriterStep(s, quit))
  {
    WritableLeavesOneSlot(s.ring.txOut, s.ring.txIn);
    assert Published(WriterStep(s, quit)) == Published(s);
  }

  lemma CopyKeepsInv(s: Transmit, quit: bool)
    requires Inv(s) && s.writer.pc == Copy && s.writer.copied < s.writer.n
    ensures Inv(WriterStep(s, quit))
  {
    hide AllAccepted, Used;
    var w, r, s' := s.writer, s.ring, WriterStep(s, quit);
    var to, from := w.inSnap + w.copied, w.ptr + w.copied;
    FreeSlot(r.txBuf, r.txOut, r.txIn, w.copied, w.data[from]);
    assert Published(s') == Published(s) && Unsent(s'.ring) == Unsent(r);
    CopiedSlice(r.txBuf, w.inSnap, w.copied, w.data, w.ptr);
  }

  /** Copying one byte more extends the copied slice. */
  lemma CopiedSlice(buf: Buffer, in_: nat, k: nat, data: seq<Byte>, ptr: nat)
    requires in_ + k < BUF_LEN && ptr + k < |data| && buf[in_..in_ + k] == data[ptr..ptr + k]
    ensures buf[in_ + k := data[ptr + k]][in_..in_ + k + 1] == data[ptr..ptr + k + 1]
  {
    assert data[ptr..ptr + k + 1] == data[ptr..ptr + k] + [data[ptr + k]];
  }

  /** Publishing moves the copied block into the ring and into what counts as published. */
  lemma PublishAppends(s: Transmit, quit: bool)
    requires Inv(s) && s.writer.pc == Copy && s.writer.copied == s.writer.n
    ensures var w, s' := s.writer, WriterStep(s, quit);
            var more := w.data[w.ptr..w.ptr + w.n];
            Unsent(s'.ring) == Unsent(s.ring) + more && Published(s') == Published(s) + more
  {
    hide Contents, Used, AllAccepted;
    var w, r, s' := s.writer, s.ring, WriterStep(s, quit);
    var base, more := AllAccepted(s.results), w.data[w.ptr..w.ptr + w.n];
    AppendBlock(r.txBuf, r.txOut, r.txIn, w.n);
    assert r.txBuf[w.inSnap..w.inSnap + w.n] == more;
    assert w.data[..w.ptr + w.n] == w.data[..w.ptr] + more;
    assert base + (w.data[..w.ptr] + more) == base + w.data[..w.ptr] + more;
  }

  lemma PublishKeepsInv(s: Transmit, quit: bool)
    requires Inv(s) && s.writer.pc == Copy && s.writer.copied == s.writer.n
    ensures Inv(WriterStep(s, quit))
  {
    hide Unsent, Published;
    PublishAppends(s, quit);
    var w, s' := s.writer, WriterStep(s, quit);
    var more := w.data[w.ptr..w.ptr + w.n];
    assert s.ring.sent + (Unsent(s.ring) + more) == s.ring.sent + Unsent(s.ring) + more;
  }

  lemma ReturnKeepsInv(s: Transmit, quit: bool)
    requires Inv(s) && s.writer.pc == Leave
    ensures Inv(WriterStep(s, quit))
  {
    hide Contents, Used, SendOne, Drain;
    var s' := WriterStep(s, quit);
    assert s'.ring == s.ring;
    assert s'.results[..|s'.results| - 1] == s.results;
    assert Published(s') == Published(s);
  }

  lemma AdvanceKeepsInv(s: Transmit, quit: bool)
    requires Inv(s)
    ensures Inv(Step(s, Advance(quit)))
  {
    match s.writer.pc
    case SnapIn => SnapshotsKeepInv(s, quit);
    case SnapOut => SnapshotsKeepInv(s, quit);
    case Copy => if s.writer.copied < s.writer.n { CopyKeepsInv(s, quit); } else { PublishKeepsInv(s, quit); }
    case Leave => ReturnKeepsInv(s, quit);
    case _ => assert Published(WriterStep(s, quit)) == Published(s);
  }

  lemma {:induction false} RunKeepsInv(txBuf: Buffer, actions: seq<Action>)
    ensures Inv(Run(txBuf, actions))
  {
    if actions != [] {
      var before := actions[..|actions| - 1];
      RunKeepsInv(txBuf, before);
      var s := Run(txBuf, before);
      match actions[|actions| - 1]
      case Interrupt(control) => InterruptKeepsInv(s, control);
      case Advance(quit) => AdvanceKeepsInv(s, quit);
      case Call(data, nonblock) => assert Published(Begin(s, data, nonblock)) == AllAccepted(s.results);
    }
  }

  // ---------------------------------------------------------------- main results

  /** For every interleaving: the bytes given to the hardware, then the ring, are exactly the prefixes the completed
      writes reported as accepted, then what the current write has published; and every report is truthful. */
  lemma TransmitRefinement(txBuf: Buffer, actions: seq<Action>)
    ensures var s := Run(txBuf, actions);
            && s.writer.ptr <= |s.writer.data|
            && s.ring.sent + Unsent(s.ring) == AllAccepted(s.results) + s.writer.data[..s.writer.ptr]
    ensures var s := Run(txBuf, actions);
            forall i :: 0 <= i < |s.results| ==> ResultOk(s.results[i])
  {
    RunKeepsInv(txBuf, actions);
  }

  /** No lost wakeup: unsent bytes never sit in the ring with interrupts off and nobody about to enable them. */
  lemma NoLostWriteWakeup(txBuf: Buffer, actions: seq<Action>)
    ensures var s := Run(txBuf, actions);
            Unsent(s.ring) != [] && !s.writer.unannounced ==> s.ring.writeIrq
  {
    RunKeepsInv(txBuf, actions);
  }

  /** One interrupt pass, in any reachable state, moves at most as many bytes as the hardware had space for. */
  lemma PassRespectsSpace(txBuf: Buffer, actions: seq<Action>, control: Word)
    ensures var s := Run(txBuf, actions);
            var s' := Step(s, Interrupt(control));
            && s.ring.sent <= s'.ring.sent
            && |s'.ring.sent| <= |s.ring.sent| + WriteSpace(control)
            && s'.ring.sent + Unsent(s'.ring) == s.ring.sent + Unsent(s.ring)
  {
    var s := Run(txBuf, actions);
    var (d, left) := Drain(s.ring, WriteSpace(control));
    DrainMoves(s.ring, WriteSpace(control));
    assert Unsent(Step(s, Interrupt(control)).ring) == Unsent(d);
  }
}
