/** One SPI master transaction: a credit loop that polls the core's ready bits, against any device and any timing. */
module SpiTransfer {
  import opened Machine

  /** The bits of one status read. A reply can only be ready while one is owed. */
  datatype Poll = Poll(trdy: bool, rrdy: bool, tmt: bool)

  /** The loop's variables, the device, and the words on their way back. */
  datatype Xfer<D> = Xfer(dev: D, credits: int, toWrite: seq<Byte>, zeros: nat, ignore: nat, stored: seq<Byte>,
                          inFlight: seq<Byte>, sent: seq<Byte>, done: bool)

  function Start<D>(dev: D, write: seq<Byte>, readLen: nat): Xfer<D> {
    Xfer(dev, 1, write, readLen, |write|, [], [], [], false)
  }

  /** Writing the transmit register starts an exchange; its reply is owed from then on. */
  function Transmit<D>(x: (D, Byte) -> (D, Byte), s: Xfer<D>, b: Byte): Xfer<D> {
    var (dev', reply) := x(s.dev, b);
    s.(dev := dev', inFlight := s.inFlight + [reply], sent := s.sent + [b])
  }

  function SendOne<D>(x: (D, Byte) -> (D, Byte), s: Xfer<D>): Xfer<D> {
    if s.toWrite != [] then Transmit(x, s, s.toWrite[0]).(credits := s.credits - 1, toWrite := s.toWrite[1..])
    else if s.zeros > 0 then Transmit(x, s, 0).(credits := s.credits - 1, zeros := s.zeros - 1)
    else s.(credits := -1024)
  }

  function ReceiveOne<D>(s: Xfer<D>, readLen: nat): Xfer<D>
    requires s.inFlight != []
  {
    var r := s.(inFlight := s.inFlight[1..], credits := s.credits + 1);
    var t := if s.ignore > 0 then r.(ignore := s.ignore - 1) else r.(stored := s.stored + [s.inFlight[0]]);
    t.(done := t.ignore == 0 && |t.stored| == readLen)
  }

  /** One round of the outer loop. A poll that lets neither branch run is one more turn of the inner loop. */
  function Step<D>(x: (D, Byte) -> (D, Byte), readLen: nat, s: Xfer<D>, p: Poll): Xfer<D> {
    if s.done then s
    else
      var s1 := if p.trdy && s.credits > 0 then SendOne(x, s) else s;
      if p.rrdy && s.inFlight != [] then ReceiveOne(s1, readLen) else s1
  }

  function Run<D>(x: (D, Byte) -> (D, Byte), readLen: nat, s: Xfer<D>, polls: seq<Poll>): Xfer<D>
    decreases |polls|
  {
    if polls == [] then s
    else Step(x, readLen, Run(x, readLen, s, polls[..|polls| - 1]), polls[|polls| - 1])
  }

  // ---------------------------------------------------------------- what a transaction should be

  function Zeros(n: nat): seq<Byte> { seq(n, _ => 0) }

  /** The device's replies to a sequence of words, with no timing in it. */
  function Exchange<D>(x: (D, Byte) -> (D, Byte), dev: D, bytes: seq<Byte>): (D, seq<Byte>)
    decreases |bytes|
  {
    if bytes == [] then (dev, [])
    else
      var (d, replies) := Exchange(x, dev, bytes[..|bytes| - 1]);
      var (d', reply) := x(d, bytes[|bytes| - 1]);
      (d', replies + [reply])
  }

  lemma {:induction false} ExchangeLength<D>(x: (D, Byte) -> (D, Byte), dev: D, bytes: seq<Byte>)
    ensures |Exchange(x, dev, bytes).1| == |bytes|
    decreases |bytes|
  {
    if bytes != [] {
      ExchangeLength(x, dev, bytes[..|bytes| - 1]);
    }
  }

  function All(write: seq<Byte>, readLen: nat): seq<Byte> { write + Zeros(readLen) }

  function Min(a: nat, b: nat): nat { if a < b then a else b }

  /** Where the loop is: k words sent, of which all but those in flight have come back. */
  ghost predicate Consistent<D>(x: (D, Byte) -> (D, Byte), dev: D, write: seq<Byte>, readLen: nat, s: Xfer<D>) {
    var n, k := |write| + readLen, |s.sent|;
    var (d, replies) := Exchange(x, dev, s.sent);
    && k <= n && s.sent == All(write, readLen)[..k]
    && s.toWrite == write[Min(k, |write|)..] && s.zeros == n - k - |s.toWrite|
    && s.dev == d && |replies| == k
    && s.credits + |s.inFlight| == 1 && |s.inFlight| <= 1 && |s.inFlight| <= k
    && var r := k - |s.inFlight|;
       && s.inFlight == replies[r..]
       && s.ignore == |write| - Min(r, |write|)
       && s.stored == replies[Min(r, |write|)..r]
       && (s.done <==> r == n)
  }

  lemma StartConsistent<D>(x: (D, Byte) -> (D, Byte), dev: D, write: seq<Byte>, readLen: nat)
    requires |write| + readLen > 0
    ensures Consistent(x, dev, write, readLen, Start(dev, write, readLen))
  {
  }

  lemma TransmitExchanges<D>(x: (D, Byte) -> (D, Byte), dev: D, bytes: seq<Byte>, b: Byte)
    ensures var (d, replies) := Exchange(x, dev, bytes);
            var (d', reply) := x(d, b);
            Exchange(x, dev, bytes + [b]) == (d', replies + [reply])
  {
    assert (bytes + [b])[..|bytes + [b]| - 1] == bytes;
  }

  lemma SendConsistent<D>(x: (D, Byte) -> (D, Byte), dev: D, write: seq<Byte>, readLen: nat, s: Xfer<D>)
    requires Consistent(x, dev, write, readLen, s) && !s.done && s.credits > 0
    ensures Consistent(x, dev, write, readLen, SendOne(x, s))
    ensures |SendOne(x, s).sent| == |s.sent| + 1
  {
    hide Exchange;
    var all, k := All(write, readLen), |s.sent|;
    assert s.inFlight == [] && k < |all|;
    TransmitExchanges(x, dev, s.sent, all[k]);
    assert all[..k + 1] == all[..k] + [all[k]];
    if s.toWrite != [] {
      assert all[k] == write[k] == s.toWrite[0];
    } else {
      assert all[k] == 0;
    }
  }

  lemma ReceiveConsistent<D>(x: (D, Byte) -> (D, Byte), dev: D, write: seq<Byte>, readLen: nat, s: Xfer<D>)
    requires Consistent(x, dev, write, readLen, s) && !s.done && s.inFlight != []
    ensures Consistent(x, dev, write, readLen, ReceiveOne(s, readLen))
  {
    hide Exchange, All;
    var replies, k := Exchange(x, dev, s.sent).1, |s.sent|;
    assert s.inFlight == [replies[k - 1]];
    if s.ignore == 0 {
      assert replies[|write|..k - 1] + [replies[k - 1]] == replies[|write|..k];
    }
  }

  /** Words still to send count twice: once to be sent, once to come back. */
  function Left<D>(write: seq<Byte>, readLen: nat, s: Xfer<D>): int {
    2 * (|write| + readLen - |s.sent|) + |s.inFlight|
  }

  /** A poll that finds what the loop is waiting for. */
  predicate Useful<D>(s: Xfer<D>, p: Poll) { !s.done && if s.inFlight == [] then p.trdy else p.rrdy }

  lemma StepConsistent<D>(x: (D, Byte) -> (D, Byte), dev: D, write: seq<Byte>, readLen: nat, s: Xfer<D>, p: Poll)
    requires Consistent(x, dev, write, readLen, s)
    ensures Consistent(x, dev, write, readLen, Step(x, readLen, s, p))
    ensures Left(write, readLen, Step(x, readLen, s, p)) == Left(write, readLen, s) - if Useful(s, p) then 1 else 0
  {
    hide Exchange, All;
    if !s.done {
      if s.inFlight == [] && p.trdy {
        SendConsistent(x, dev, write, readLen, s);
        SentIsOwed(x, dev, write, readLen, s);
      } else if s.inFlight != [] && p.rrdy {
        ReceiveConsistent(x, dev, write, readLen, s);
      }
    }
  }

  lemma SentIsOwed<D>(x: (D, Byte) -> (D, Byte), dev: D, write: seq<Byte>, readLen: nat, s: Xfer<D>)
    requires Consistent(x, dev, write, readLen, s) && !s.done && s.credits > 0
    ensures |SendOne(x, s).inFlight| == 1
  {
    hide Exchange, All;
  }

  function UsefulPolls<D>(x: (D, Byte) -> (D, Byte), readLen: nat, s: Xfer<D>, polls: seq<Poll>): nat
    decreases |polls|
  {
    if polls == [] then 0
    else
      var before := polls[..|polls| - 1];
      UsefulPolls(x, readLen, s, before)
      + if Useful(Run(x, readLen, s, before), polls[|polls| - 1]) then 1 else 0
  }

  /** Whatever the timing: one credit or one word in flight, words out and back in order, and never the branch that sets
      the credits to -1024. */
  lemma {:induction false} Conservation<D>(x: (D, Byte) -> (D, Byte), dev: D, write: seq<Byte>, readLen: nat,
                                           polls: seq<Poll>)
    requires |write| + readLen > 0
    ensures var s := Run(x, readLen, Start(dev, write, readLen), polls);
            && Consistent(x, dev, write, readLen, s) && s.credits >= 0
            && Left(write, readLen, s)
               == 2 * (|write| + readLen) - UsefulPolls(x, readLen, Start(dev, write, readLen), polls)
    decreases |polls|
  {
    hide Consistent, Step, Useful;
    var s0 := Start(dev, write, readLen);
    if polls == [] {
      StartConsistent(x, dev, write, readLen);
    } else {
      var before := polls[..|polls| - 1];
      Conservation(x, dev, write, readLen, before);
      StepConsistent(x, dev, write, readLen, Run(x, readLen, s0, before), polls[|polls| - 1]);
      CreditsBounded(x, dev, write, readLen, Run(x, readLen, s0, polls));
    }
  }

  lemma CreditsBounded<D>(x: (D, Byte) -> (D, Byte), dev: D, write: seq<Byte>, readLen: nat, s: Xfer<D>)
    requires Consistent(x, dev, write, readLen, s)
    ensures s.credits >= 0
    ensures s.done <==> Left(write, readLen, s) == 0
  {
    hide Exchange, All;
  }

  /** The transaction is over exactly when twice as many polls have found something as there are words to move; then
      exactly the write data and the zeros have gone out, and the replies behind the write data have been stored. */
  lemma DoneExactlyWhen<D>(x: (D, Byte) -> (D, Byte), dev: D, write: seq<Byte>, readLen: nat, polls: seq<Poll>)
    requires |write| + readLen > 0
    ensures var s := Run(x, readLen, Start(dev, write, readLen), polls);
            && (s.done <==> UsefulPolls(x, readLen, Start(dev, write, readLen), polls) == 2 * (|write| + readLen))
            && (s.done ==>
                  var (d, replies) := Exchange(x, dev, All(write, readLen));
                  && s.sent == All(write, readLen) && s.dev == d && s.inFlight == []
                  && |replies| == |write| + readLen && s.stored == replies[|write|..])
  {
    hide Run, UsefulPolls;
    Conservation(x, dev, write, readLen, polls);
    var s := Run(x, readLen, Start(dev, write, readLen), polls);
    CreditsBounded(x, dev, write, readLen, s);
    if s.done {
      DoneMeans(x, dev, write, readLen, s);
    }
  }

  lemma DoneMeans<D>(x: (D, Byte) -> (D, Byte), dev: D, write: seq<Byte>, readLen: nat, s: Xfer<D>)
    requires Consistent(x, dev, write, readLen, s) && s.done
    ensures var (d, replies) := Exchange(x, dev, All(write, readLen));
            && s.sent == All(write, readLen) && s.dev == d && s.inFlight == []
            && |replies| == |write| + readLen && s.stored == replies[|write|..]
  {
    hide Exchange;
    var all := All(write, readLen);
    assert all[..|all|] == all;
  }

  /** Without a word to move the loop never ends: the branch that sets the credits to -1024 is reached at the first ready
      transmitter, and nothing leads out of it. */
  lemma {:induction false} NothingToMoveHangs<D>(x: (D, Byte) -> (D, Byte), dev: D, polls: seq<Poll>)
    ensures var s := Run(x, 0, Start(dev, [], 0), polls);
            && !s.done && s.sent == [] && s.inFlight == [] && s.toWrite == [] && s.zeros == 0
            && (s.credits == -1024 <==> exists i :: 0 <= i < |polls| && polls[i].trdy)
            && (s.credits == 1 || s.credits == -1024)
    decreases |polls|
  {
    if polls != [] {
      NothingToMoveHangs(x, dev, polls[..|polls| - 1]);
    }
  }
}
