/** Receive half of the fast JTAG UART driver. The interrupt routine fills the ring; a reader drains it in
    small steps, and the interrupt may run between any two of them, including between two bytes of the copy. */
module JtagReceive {
  import opened Machine
  import opened JtagRing

  /** What the n-th read of the DATA register returns: any device behaviour over a run is some such function. */
  type DataReads = nat -> Word

  /** The fields of the driver state the receive side uses, and how often DATA has been read. */
  datatype RxRing = RxRing(rxIn: Index, rxOut: Index, rxBuf: Buffer, readIrq: bool, dataReads: nat)

  datatype ReadPc = Idle | SnapIn | SnapOut | Copy | Wait | Recheck | Leave

  /** Locals of a read call; got is what lies before ptr in the caller's buffer, staged what memcpy has moved. */
  datatype Reader = Reader(pc: ReadPc, want: int, space: int, nonblock: bool, got: seq<Byte>,
                           inSnap: Index, outSnap: Index, n: nat, staged: seq<Byte>)

  datatype ReadResult = ReadResult(want: int, nonblock: bool, code: int, bytes: seq<Byte>)

  datatype Receive = Receive(ring: RxRing, reader: Reader, results: seq<ReadResult>)

  datatype Action = Interrupt | Call(space: int, nonblock: bool) | Advance

  // ---------------------------------------------------------------- the interrupt routine

  /** The receive loop of the interrupt routine; data is the word read last, or the initial guess. */
  function Fill(r: RxRing, hw: DataReads, data: Word): (RxRing, Word)
    decreases BUF_LEN - Used(r.rxOut, r.rxIn)
  {
    if Full(r) then (r, data)
    else
      var w := hw(r.dataReads);
      if !DataValid(w) then (r.(dataReads := r.dataReads + 1), w)
      else Fill(Store(r, DataByte(w)), hw, w)
  }

  predicate Full(r: RxRing) { Plus(r.rxIn, 1) == r.rxOut }

  function Store(r: RxRing, b: Byte): RxRing {
    r.(rxBuf := r.rxBuf[r.rxIn := b], rxIn := Plus(r.rxIn, 1), dataReads := r.dataReads + 1)
  }

  /** One pass of the interrupt routine over a pending receive interrupt. */
  function RxPass(r: RxRing, hw: DataReads): RxRing {
    var (filled, data) := Fill(r, hw, 0x1_0000);
    if DataAvail(data) != 0 then filled.(readIrq := false) else filled
  }

  // ---------------------------------------------------------------- the reader, one shared access at a time

  const NoReader := Reader(Idle, 0, 0, false, [], 0, 0, 0, [])

  /** Bytes that can be copied without wrapping, computed from the two snapshots. */
  function Readable(inSnap: Index, outSnap: Index): nat {
    if inSnap >= outSnap then inSnap - outSnap else BUF_LEN - outSnap
  }

  function Begin(s: Receive, space: int, nonblock: bool): Receive {
    s.(reader := NoReader.(pc := if space > 0 then SnapIn else Leave, want := space, space := space,
                           nonblock := nonblock))
  }

  function ReturnCode(rd: Reader): int {
    if rd.got != [] then |rd.got| else if rd.nonblock then -EWOULDBLOCK else -EIO
  }

  /** The next step of the read call in progress. Waiting may end at any time: with new data or a host timeout. */
  function ReaderStep(s: Receive): Receive {
    var rd, ring := s.reader, s.ring;
    match rd.pc
    case Idle => s
    case SnapIn => s.(reader := rd.(pc := SnapOut, inSnap := ring.rxIn))
    case SnapOut =>
      var n := Readable(rd.inSnap, ring.rxOut);
      var rd' := rd.(outSnap := ring.rxOut, staged := [], n := if n > rd.space >= 0 then rd.space else n);
      s.(reader := rd'.(pc := if n != 0 then Copy else if rd.got != [] || rd.nonblock then Leave else Wait))
    case Copy =>
      if |rd.staged| < rd.n then
        var from := rd.outSnap + |rd.staged|;
        if from < BUF_LEN then s.(reader := rd.(staged := rd.staged + [ring.rxBuf[from]])) else s
      else
        Receive(ring.(rxOut := Plus(rd.outSnap, rd.n)),
                rd.(got := rd.got + rd.staged, space := rd.space - rd.n, staged := [],
                    pc := if rd.space - rd.n > 0 then SnapIn else Leave),
                s.results)
    case Wait => s.(reader := rd.(pc := Recheck))
    case Recheck => s.(reader := rd.(pc := if rd.inSnap == ring.rxIn then Leave else SnapIn))
    case Leave =>
      Receive(if rd.got != [] then ring.(readIrq := true) else ring,
              NoReader,
              s.results + [ReadResult(rd.want, rd.nonblock, ReturnCode(rd), rd.got)])
  }

  /** Any action may be attempted in any state: a call during a call does nothing, as there is one reader. */
  function Step(s: Receive, hw: DataReads, a: Action): Receive {
    match a
    case Interrupt => s.(ring := RxPass(s.ring, hw))
    case Call(space, nonblock) => if s.reader.pc == Idle then Begin(s, space, nonblock) else s
    case Advance => ReaderStep(s)
  }

  /** State after initialisation: empty ring with receive interrupts on. */
  function Initial(rxBuf: Buffer): Receive {
    Receive(RxRing(0, 0, rxBuf, true, 0), NoReader, [])
  }

  function Run(rxBuf: Buffer, hw: DataReads, actions: seq<Action>): Receive {
    if actions == [] then Initial(rxBuf)
    else Step(Run(rxBuf, hw, actions[..|actions| - 1]), hw, actions[|actions| - 1])
  }

  // ---------------------------------------------------------------- what the run means

  /** The valid bytes among the first n reads of the DATA register. */
  function ValidBytes(hw: DataReads, n: nat): seq<Byte> {
    if n == 0 then []
    else if DataValid(hw(n - 1)) then ValidBytes(hw, n - 1) + [DataByte(hw(n - 1))]
    else ValidBytes(hw, n - 1)
  }

  /** Everything completed read calls returned, in order. */
  function Returned(results: seq<ReadResult>): seq<Byte> {
    if results == [] then [] else Returned(results[..|results| - 1]) + results[|results| - 1].bytes
  }

  /** The unread bytes of the ring, oldest first. */
  function Unread(r: RxRing): seq<Byte> { Contents(r.rxBuf, r.rxOut, r.rxIn) }

  /** An invalid read reports no further characters. */
  ghost predicate Honest(hw: DataReads) {
    forall k: nat :: !DataValid(hw(k)) ==> DataAvail(hw(k)) == 0
  }

  // ---------------------------------------------------------------- invariant

  function Handed(s: Receive): seq<Byte> { Returned(s.results) + s.reader.got }

  ghost predicate ReaderOk(rd: Reader, r: RxRing) {
    && rd.want == |rd.got| + rd.space
    && (rd.got != [] ==> rd.space >= 0)
    && match rd.pc
       case Idle => rd.got == []
       case SnapIn => rd.space > 0
       case SnapOut => rd.space > 0 && Used(r.rxOut, rd.inSnap) <= |Unread(r)|
       case Copy =>
         && rd.outSnap == r.rxOut
         && 0 < rd.n <= rd.space
         && rd.outSnap + rd.n <= BUF_LEN
         && |rd.staged| <= rd.n <= |Unread(r)|
         && rd.staged == Unread(r)[..|rd.staged|]
       case Wait => rd.space > 0 && rd.got == []
       case Recheck => rd.space > 0 && rd.got == []
       case Leave => true
  }

  /** A call reports exactly the bytes it returned, never more than asked for, and the right error otherwise. */
  predicate ResultOk(r: ReadResult) {
    if r.bytes != [] then r.code == |r.bytes| <= r.want
    else r.code == if r.nonblock then -EWOULDBLOCK else -EIO
  }

  ghost predicate Inv(s: Receive, hw: DataReads) {
    && Handed(s) + Unread(s.ring) == ValidBytes(hw, s.ring.dataReads)
    && ReaderOk(s.reader, s.ring)
    && forall i :: 0 <= i < |s.results| ==> ResultOk(s.results[i])
  }

  /** Receive interrupts are off only while the ring is full or a reader that freed space has yet to re-enable them. */
  predicate WakeupPending(s: Receive) {
    s.ring.readIrq || Full(s.ring) || s.reader.got != []
  }

  // ---------------------------------------------------------------- the interrupt keeps it

  /** Filling only appends valid bytes to what is unread. */
  lemma {:induction false} FillAppends(r: RxRing, hw: DataReads, data: Word, handed: seq<Byte>)
    requires handed + Unread(r) == ValidBytes(hw, r.dataReads)
    ensures var (f, d) := Fill(r, hw, data);
            && handed + Unread(f) == ValidBytes(hw, f.dataReads)
            && Unread(r) <= Unread(f)
            && f.rxOut == r.rxOut && f.readIrq == r.readIrq
            && (Honest(hw) && DataAvail(d) != 0 ==> Full(f))
    decreases BUF_LEN - Used(r.rxOut, r.rxIn)
  {
    if !Full(r) && DataValid(hw(r.dataReads)) {
      var r' := Store(r, DataByte(hw(r.dataReads)));
      assert Unread(r') == Unread(r) + [DataByte(hw(r.dataReads))] by {
        StoreAppends(r.rxBuf, r.rxOut, r.rxIn, DataByte(hw(r.dataReads)));
      }
      assert handed + Unread(r') == (handed + Unread(r)) + [DataByte(hw(r.dataReads))];
      FillAppends(r', hw, hw(r.dataReads), handed);
    }
  }

  /** The bytes of k words read from the n-th on. */
  function BytesRead(hw: DataReads, n: nat, k: nat): seq<Byte> { seq(k, i requires 0 <= i => hw(n + i) % 0x100) }

  ghost predicate AllValid(hw: DataReads, n: nat, k: nat) { forall m: nat :: n <= m < n + k ==> DataValid(hw(m)) }

  lemma OneMoreRead(hw: DataReads, n: nat, k: nat)
    ensures BytesRead(hw, n, 0) == []
    ensures BytesRead(hw, n, k + 1) == [hw(n) % 0x100] + BytesRead(hw, n + 1, k)
    ensures DataValid(hw(n)) && AllValid(hw, n + 1, k) ==> AllValid(hw, n, k + 1)
  {
    var more, later := BytesRead(hw, n, k + 1), BytesRead(hw, n + 1, k);
    forall j | 1 <= j < k + 1 ensures more[j] == later[j - 1] {
      assert n + j == n + 1 + (j - 1);
    }
  }

  /** The receive loop takes valid words while there is room, and ends at the first invalid one, which it has read. */
  lemma {:induction false} FillIs(r: RxRing, hw: DataReads, data: Word) returns (k: nat)
    ensures var (f, d) := Fill(r, hw, data);
            && k <= BUF_LEN - 1 - |Unread(r)| && AllValid(hw, r.dataReads, k)
            && Unread(f) == Unread(r) + BytesRead(hw, r.dataReads, k)
            && f.rxOut == r.rxOut && f.readIrq == r.readIrq
            && if k == BUF_LEN - 1 - |Unread(r)|
               then f.dataReads == r.dataReads + k && d == if k == 0 then data else hw(r.dataReads + k - 1)
               else !DataValid(hw(r.dataReads + k)) && f.dataReads == r.dataReads + k + 1 && d == hw(r.dataReads + k)
    decreases BUF_LEN - Used(r.rxOut, r.rxIn)
  {
    hide Contents, BytesRead, AllValid, DataValid;
    FullTest(r.rxOut, r.rxIn);
    var n := r.dataReads;
    var w := hw(n);
    OneMoreRead(hw, n, 0);
    if Full(r) || !DataValid(w) {
      k := 0;
      assert AllValid(hw, n, 0) by { NoneRead(hw, n); }
    } else {
      var r' := Store(r, DataByte(w));
      StoreAppends(r.rxBuf, r.rxOut, r.rxIn, DataByte(w));
      var k' := FillIs(r', hw, w);
      OneMoreRead(hw, n, k');
      var more := BytesRead(hw, n + 1, k');
      assert Unread(r) + [w % 0x100] + more == Unread(r) + ([w % 0x100] + more);
      k := k' + 1;
    }
  }

  lemma NoneRead(hw: DataReads, n: nat)
    ensures AllValid(hw, n, 0)
  {
  }

  /** A receive pass appends the bytes of the valid words up to the first invalid one or as many as fit, and switches its
      interrupt off exactly when the last word read says that more characters wait; on a full ring it reads nothing and
      switches it off. */
  lemma RxPassIs(r: RxRing, hw: DataReads) returns (k: nat)
    ensures var r', n, room := RxPass(r, hw), r.dataReads, BUF_LEN - 1 - |Unread(r)|;
            && k <= room && AllValid(hw, n, k)
            && Unread(r') == Unread(r) + BytesRead(hw, n, k)
            && (k < room ==> !DataValid(hw(n + k)) && r'.dataReads == n + k + 1
                             && r'.readIrq == (r.readIrq && hw(n + k) / 0x1_0000 == 0))
            && (k == room ==> r'.dataReads == n + k
                              && r'.readIrq == (r.readIrq && k > 0 && hw(n + k - 1) / 0x1_0000 == 0))
  {
    hide Contents, Fill;
    k := FillIs(r, hw, 0x1_0000);
    var (f, d) := Fill(r, hw, 0x1_0000);
    assert Unread(RxPass(r, hw)) == Unread(f);
  }

  lemma InterruptKeepsInv(s: Receive, hw: DataReads)
    requires Inv(s, hw)
    ensures Inv(Step(s, hw, Interrupt), hw)
    ensures Honest(hw) && WakeupPending(s) ==> WakeupPending(Step(s, hw, Interrupt))
  {
    FillAppends(s.ring, hw, 0x1_0000, Handed(s));
    FullTest(s.ring.rxOut, s.ring.rxIn);
    FullTest(s.ring.rxOut, RxPass(s.ring, hw).rxIn);
  }

  // ---------------------------------------------------------------- the reader keeps it

  /** A read takes from the ring whenever there is something in it, and all of it up to the end of the buffer. */
  lemma ReadableMeans(out: Index, in_: Index)
    ensures Readable(in_, out) <= Used(out, in_)
    ensures Readable(in_, out) == 0 <==> Used(out, in_) == 0
    ensures Readable(in_, out) < Used(out, in_) ==> out + Readable(in_, out) == BUF_LEN
  {
  }

  lemma SnapshotsKeepInv(s: Receive, hw: DataReads)
    requires Inv(s, hw) && (s.reader.pc == SnapIn || s.reader.pc == SnapOut)
    ensures Inv(ReaderStep(s), hw)
    ensures ReaderStep(s).ring == s.ring && ReaderStep(s).reader.got == s.reader.got
  {
  }

  lemma CopyKeepsInv(s: Receive, hw: DataReads)
    requires Inv(s, hw) && s.reader.pc == Copy && |s.reader.staged| < s.reader.n
    ensures Inv(ReaderStep(s), hw)
  {
    var r, j := s.ring, |s.reader.staged|;
    BlockByte(r.rxBuf, r.rxOut, r.rxIn, j);
    assert Unread(r)[..j] + [Unread(r)[j]] == Unread(r)[..j + 1];
  }

  /** Publishing hands over exactly the staged bytes. */
  lemma PublishHandsOver(s: Receive, hw: DataReads)
    requires Inv(s, hw) && s.reader.pc == Copy && |s.reader.staged| == s.reader.n
    ensures var s' := ReaderStep(s);
            Unread(s.ring) == s.reader.staged + Unread(s'.ring) && Handed(s') == Handed(s) + s.reader.staged
  {
    hide Contents;
    var rd, r, s' := s.reader, s.ring, ReaderStep(s);
    DropBlock(r.rxBuf, r.rxOut, r.rxIn, rd.n);
    assert Unread(r)[..rd.n] + Unread(r)[rd.n..] == Unread(r);
    assert Handed(s') == Handed(s) + rd.staged;
  }

  lemma PublishKeepsInv(s: Receive, hw: DataReads)
    requires Inv(s, hw) && s.reader.pc == Copy && |s.reader.staged| == s.reader.n
    ensures Inv(ReaderStep(s), hw)
    ensures ReaderStep(s).reader.got != []
  {
    PublishHandsOver(s, hw);
    var s' := ReaderStep(s);
    assert Handed(s') + Unread(s'.ring) == Handed(s) + (s.reader.staged + Unread(s'.ring));
  }

  lemma ReturnKeepsInv(s: Receive, hw: DataReads)
    requires Inv(s, hw) && s.reader.pc == Leave
    ensures Inv(ReaderStep(s), hw)
  {
    hide Contents, Used, Fill;
    var s' := ReaderStep(s);
    assert Unread(s'.ring) == Unread(s.ring) && s'.ring.dataReads == s.ring.dataReads;
    assert s'.results[..|s'.results| - 1] == s.results;
    assert Handed(s') == Handed(s);
  }

  lemma AdvanceKeepsInv(s: Receive, hw: DataReads)
    requires Inv(s, hw)
    ensures Inv(Step(s, hw, Advance), hw)
    ensures WakeupPending(s) ==> WakeupPending(Step(s, hw, Advance))
  {
    match s.reader.pc
    case SnapIn => SnapshotsKeepInv(s, hw);
    case SnapOut => SnapshotsKeepInv(s, hw);
    case Copy => if |s.reader.staged| < s.reader.n { CopyKeepsInv(s, hw); } else { PublishKeepsInv(s, hw); }
    case Leave => ReturnKeepsInv(s, hw);
    case _ =>
  }

  lemma {:induction false} RunKeepsInv(rxBuf: Buffer, hw: DataReads, actions: seq<Action>)
    ensures Inv(Run(rxBuf, hw, actions), hw)
    ensures Honest(hw) ==> WakeupPending(Run(rxBuf, hw, actions))
  {
    if actions != [] {
      var before := actions[..|actions| - 1];
      RunKeepsInv(rxBuf, hw, before);
      var s := Run(rxBuf, hw, before);
      match actions[|actions| - 1]
      case Interrupt => InterruptKeepsInv(s, hw);
      case Advance => AdvanceKeepsInv(s, hw);
      case Call(_, _) =>
    }
  }

  // ---------------------------------------------------------------- main results

  /** For every interleaving: what reads returned, then what the current read holds, then the ring, is exactly
      the valid bytes taken from the hardware, in order; and every read reported its own bytes truthfully. */
  lemma ReceiveRefinement(rxBuf: Buffer, hw: DataReads, actions: seq<Action>)
    ensures var s := Run(rxBuf, hw, actions);
            Returned(s.results) + s.reader.got + Unread(s.ring) == ValidBytes(hw, s.ring.dataReads)
    ensures var s := Run(rxBuf, hw, actions);
            forall i :: 0 <= i < |s.results| ==> ResultOk(s.results[i])
  {
    RunKeepsInv(rxBuf, hw, actions);
  }

  /** No lost wakeup: with honest hardware the interrupt is never left off while nobody is going to turn it on. */
  lemma NoLostReadWakeup(rxBuf: Buffer, hw: DataReads, actions: seq<Action>)
    requires Honest(hw)
    ensures WakeupPending(Run(rxBuf, hw, actions))
  {
    RunKeepsInv(rxBuf, hw, actions);
  }

  /** Honesty is needed: one invalid read that still reports characters switches interrupts off on an empty ring. */
  lemma DishonestReadLosesWakeup(rxBuf: Buffer, hw: DataReads)
    requires !DataValid(hw(0)) && DataAvail(hw(0)) != 0
    ensures var s := Run(rxBuf, hw, [Interrupt]);
            !WakeupPending(s) && Unread(s.ring) == [] && s.reader.pc == Idle
  {
    var actions := [Interrupt];
    assert actions[..0] == [];
    assert Run(rxBuf, hw, actions) == Step(Initial(rxBuf), hw, Interrupt);
    assert Fill(Initial(rxBuf).ring, hw, 0x1_0000) == (Initial(rxBuf).ring.(dataReads := 1), hw(0));
  }

  // ---------------------------------------------------------------- when wakeups are never lost

  ghost predicate Reached(rxBuf: Buffer, hw: DataReads, s: Receive) {
    exists actions :: Run(rxBuf, hw, actions) == s
  }

  lemma StepReached(rxBuf: Buffer, hw: DataReads, s: Receive, a: Action)
    requires Reached(rxBuf, hw, s)
    ensures Reached(rxBuf, hw, Step(s, hw, a))
  {
    hide Step;
    var actions :| Run(rxBuf, hw, actions) == s;
    var longer := actions + [a];
    assert longer[..|longer| - 1] == actions;
    assert Run(rxBuf, hw, longer) == Step(s, hw, a);
  }

  /** Reading one byte of a full ring makes room without touching the hardware. */
  lemma RoomReached(rxBuf: Buffer, hw: DataReads, s: Receive) returns (s': Receive)
    requires Reached(rxBuf, hw, s) && s.reader == NoReader && Full(s.ring)
    ensures Reached(rxBuf, hw, s') && s'.reader == NoReader && !Full(s'.ring)
    ensures s'.ring.dataReads == s.ring.dataReads
  {
    hide Reached, Run, Fill, Contents;
    s' := Step(s, hw, Call(1, true));
    StepReached(rxBuf, hw, s, Call(1, true));
    var i := 0;
    while i < 5
      invariant 0 <= i <= 5 && Reached(rxBuf, hw, s') && s'.ring.rxIn == s.ring.rxIn
      invariant s'.ring.dataReads == s.ring.dataReads
      invariant s'.ring.rxOut == if i < 4 then s.ring.rxOut else Plus(s.ring.rxOut, 1)
      invariant s'.reader.space == if i < 4 then 1 else 0
      invariant s'.reader.pc == [SnapIn, SnapOut, Copy, Copy, Leave, Idle][i]
      invariant i == 1 ==> s'.reader.inSnap == s.ring.rxIn
      invariant 2 <= i < 4 ==> s'.reader.n == 1 && |s'.reader.staged| == i - 2 && s'.reader.outSnap == s.ring.rxOut
      invariant i == 5 ==> s'.reader == NoReader
    {
      StepReached(rxBuf, hw, s', Advance);
      s' := Step(s', hw, Advance);
      i := i + 1;
    }
  }

  /** The receive loop reads at least once and cannot read past a bad word, which it leaves as the word read last. */
  lemma {:induction false} FillStopsAt(r: RxRing, hw: DataReads, data: Word, k: nat)
    requires !Full(r) && r.dataReads <= k && !DataValid(hw(k))
    ensures var (f, d) := Fill(r, hw, data);
            if f.dataReads <= k then f.dataReads > r.dataReads
            else f.dataReads == k + 1 && d == hw(k) && !Full(f)
    decreases k - r.dataReads
  {
    if DataValid(hw(r.dataReads)) {
      var r' := Store(r, DataByte(hw(r.dataReads)));
      if !Full(r') {
        FillStopsAt(r', hw, hw(r.dataReads), k);
      }
    }
  }

  /** From any idle state with room, interrupts and single-byte reads lead to the bad word, and it loses the wakeup. */
  lemma {:induction false} BadReadLosesWakeup(rxBuf: Buffer, hw: DataReads, s: Receive, k: nat)
    requires Reached(rxBuf, hw, s) && s.reader == NoReader && !Full(s.ring) && s.ring.dataReads <= k
    requires !DataValid(hw(k)) && DataAvail(hw(k)) != 0
    ensures exists actions :: !WakeupPending(Run(rxBuf, hw, actions))
    decreases k - s.ring.dataReads
  {
    var s' := Step(s, hw, Interrupt);
    StepReached(rxBuf, hw, s, Interrupt);
    FillStopsAt(s.ring, hw, 0x1_0000, k);
    if s'.ring.dataReads > k {
      var actions :| Run(rxBuf, hw, actions) == s';
      assert !WakeupPending(Run(rxBuf, hw, actions));
    } else {
      if Full(s'.ring) {
        s' := RoomReached(rxBuf, hw, s');
      }
      BadReadLosesWakeup(rxBuf, hw, s', k);
    }
  }

  /** Over all runs: no wakeup is ever lost exactly when the hardware never reports characters behind an invalid read. */
  lemma WakeupsKeptExactlyWhen(rxBuf: Buffer, hw: DataReads)
    ensures (forall actions :: WakeupPending(Run(rxBuf, hw, actions))) <==> Honest(hw)
  {
    if Honest(hw) {
      forall actions ensures WakeupPending(Run(rxBuf, hw, actions)) {
        NoLostReadWakeup(rxBuf, hw, actions);
      }
    } else {
      var k: nat :| !DataValid(hw(k)) && DataAvail(hw(k)) != 0;
      assert Run(rxBuf, hw, []) == Initial(rxBuf);
      BadReadLosesWakeup(rxBuf, hw, Initial(rxBuf), k);
    }
  }
}
