/** Alarms on an unbounded clock: the meaning the 32-bit implementation has to keep. */
module AlarmSchedule {
  import opened Machine
  import opened LinkedList

  /** A registered alarm and the tick it is due at. */
  datatype Due = Due(id: Entry, at: nat)
  datatype Firing = Firing(tick: nat, id: Entry)

  /** Registered alarms in list order, and every callback made so far. */
  datatype Schedule = Schedule(now: nat, alarms: seq<Due>, log: seq<Firing>)

  /** What an alarm's callback returns when it runs at a tick: ticks to the next call, or zero to stop. */
  type Callbacks = (nat, Entry) -> Word

  datatype Op = Tick | Start(id: Entry, nticks: Word) | Stop(id: Entry)

  function Ids(alarms: seq<Due>): seq<Entry> { seq(|alarms|, i requires 0 <= i < |alarms| => alarms[i].id) }

  /** One tick's walk over the list: each due alarm runs once and is rescheduled or leaves the list. */
  function Walk(alarms: seq<Due>, now: nat, cb: Callbacks): (seq<Due>, seq<Firing>) {
    if alarms == [] then ([], [])
    else
      var d := alarms[0];
      var (rest, fired) := Walk(alarms[1..], now, cb);
      if d.at != now then ([d] + rest, fired)
      else if cb(now, d.id) == 0 then (rest, [Firing(now, d.id)] + fired)
      else ([Due(d.id, now + cb(now, d.id))] + rest, [Firing(now, d.id)] + fired)
  }

  function Ticked(s: Schedule, cb: Callbacks): Schedule {
    var (left, fired) := Walk(s.alarms, s.now + 1, cb);
    Schedule(s.now + 1, left, s.log + fired)
  }

  function Started(s: Schedule, id: Entry, nticks: Word): Schedule {
    s.(alarms := [Due(id, s.now + nticks + 1)] + s.alarms)
  }

  function Without(alarms: seq<Due>, id: Entry): seq<Due> {
    if alarms == [] then [] else (if alarms[0].id == id then [] else [alarms[0]]) + Without(alarms[1..], id)
  }

  function Stopped(s: Schedule, id: Entry): Schedule { s.(alarms := Without(s.alarms, id)) }

  /** Starting an alarm that is already registered is not a legal call; the schedule ignores it. */
  function Apply(s: Schedule, op: Op, cb: Callbacks): Schedule {
    match op
    case Tick => Ticked(s, cb)
    case Start(id, nticks) => if id in Ids(s.alarms) then s else Started(s, id, nticks)
    case Stop(id) => Stopped(s, id)
  }

  function ApplyAll(s: Schedule, ops: seq<Op>, cb: Callbacks): Schedule {
    if ops == [] then s else Apply(ApplyAll(s, ops[..|ops| - 1], cb), ops[|ops| - 1], cb)
  }

  // ---------------------------------------------------------------- when an alarm should run

  /** The ticks up to a limit at which an alarm first due at d runs: d, then the running sums of the non-zero
      values its callback returns, until it returns zero. */
  function FiringTimes(d: nat, until: nat, id: Entry, cb: Callbacks): seq<nat>
    decreases until + 1 - d
  {
    if d > until then [] else [d] + if cb(d, id) == 0 then [] else FiringTimes(d + cb(d, id), until, id, cb)
  }

  /** The tick an alarm first due at d is due at after the limit, if it is still registered. */
  function Pending(d: nat, until: nat, id: Entry, cb: Callbacks): (next: seq<nat>)
    ensures |next| <= 1 && (next != [] ==> next[0] > until)
    decreases until + 1 - d
  {
    if d > until then [d] else if cb(d, id) == 0 then [] else Pending(d + cb(d, id), until, id, cb)
  }

  lemma {:induction false} OneTickLater(d: nat, until: nat, id: Entry, cb: Callbacks)
    ensures var due := Pending(d, until, id, cb) == [until + 1];
            && FiringTimes(d, until + 1, id, cb) == FiringTimes(d, until, id, cb) + (if due then [until + 1] else [])
            && Pending(d, until + 1, id, cb)
            == if !due then Pending(d, until, id, cb)
               else if cb(until + 1, id) == 0 then [] else [until + 1 + cb(until + 1, id)]
    decreases until + 1 - d
  {
    if d <= until {
      if cb(d, id) != 0 { OneTickLater(d + cb(d, id), until, id, cb); }
    } else if d == until + 1 && cb(d, id) != 0 {
      assert FiringTimes(d + cb(d, id), until + 1, id, cb) == [];
    }
  }

  // ---------------------------------------------------------------- what one alarm sees of the schedule

  /** Ticks at which one alarm's callback ran. */
  function RunsOf(log: seq<Firing>, id: Entry): seq<nat> {
    if log == [] then []
    else (if log[0].id == id then [log[0].tick] else []) + RunsOf(log[1..], id)
  }

  /** Due ticks one alarm is registered with. */
  function DuesOf(alarms: seq<Due>, id: Entry): seq<nat> {
    if alarms == [] then []
    else (if alarms[0].id == id then [alarms[0].at] else []) + DuesOf(alarms[1..], id)
  }

  lemma {:induction false} RunsOfAppend(a: seq<Firing>, b: seq<Firing>, id: Entry)
    ensures RunsOf(a + b, id) == RunsOf(a, id) + RunsOf(b, id)
  {
    if a == [] {
      assert a + b == b;
    } else {
      RunsOfAppend(a[1..], b, id);
      assert (a + b)[0] == a[0] && (a + b)[1..] == a[1..] + b;
      var first := if a[0].id == id then [a[0].tick] else [];
      assert RunsOf(a + b, id) == first + (RunsOf(a[1..], id) + RunsOf(b, id));
    }
  }

  /** A walk treats an alarm the same wherever it is in the list and whatever the others do. */
  lemma {:induction false} WalkOf(alarms: seq<Due>, now: nat, cb: Callbacks, id: Entry)
    requires |DuesOf(alarms, id)| <= 1
    ensures var (left, fired) := Walk(alarms, now, cb);
            var dues := DuesOf(alarms, id);
            && RunsOf(fired, id) == (if dues == [now] then [now] else [])
            && DuesOf(left, id)
            == if dues != [now] then dues else if cb(now, id) == 0 then [] else [now + cb(now, id)]
  {
    if alarms != [] {
      WalkOf(alarms[1..], now, cb, id);
      var d := alarms[0];
      var (left, fired) := Walk(alarms, now, cb);
      var (rest, fired') := Walk(alarms[1..], now, cb);
      if d.id == id {
        assert |DuesOf(alarms, id)| == 1 + |DuesOf(alarms[1..], id)|;
        assert DuesOf(alarms[1..], id) == [] && DuesOf(alarms, id) == [d.at];
        assert RunsOf(fired', id) == [];
      }
      if d.at == now {
        assert fired[0] == Firing(now, d.id) && fired[1..] == fired';
        assert RunsOf(fired, id) == (if d.id == id then [now] else []) + RunsOf(fired', id);
      }
      if d.id != id {
        assert DuesOf(alarms, id) == DuesOf(alarms[1..], id);
      } else if d.at != now {
        assert [d.at][0] != [now][0];
      }
      if left != rest {
        assert left[1..] == rest;
      }
    }
  }

  lemma {:induction false} WithoutOthers(alarms: seq<Due>, id: Entry, other: Entry)
    requires id != other
    ensures DuesOf(Without(alarms, other), id) == DuesOf(alarms, id)
  {
    if alarms != [] {
      WithoutOthers(alarms[1..], id, other);
      var w := Without(alarms, other);
      assert w == Without(alarms[1..], other) || w[1..] == Without(alarms[1..], other);
    }
  }

  lemma {:induction false} UnregisteredHasNoDue(alarms: seq<Due>, id: Entry)
    requires id !in Ids(alarms)
    ensures DuesOf(alarms, id) == []
  {
    if alarms != [] {
      assert Ids(alarms)[0] == alarms[0].id && Ids(alarms)[1..] == Ids(alarms[1..]);
      UnregisteredHasNoDue(alarms[1..], id);
    }
  }

  predicate Mentions(op: Op, id: Entry) { !op.Tick? && op.id == id }

  /** One operation on other alarms, or one tick, seen by one alarm. */
  lemma ApplyOf(s: Schedule, op: Op, cb: Callbacks, id: Entry)
    requires |DuesOf(s.alarms, id)| <= 1 && !Mentions(op, id)
    ensures var s', dues := Apply(s, op, cb), DuesOf(s.alarms, id);
            var runs := op.Tick? && dues == [s.now + 1];
            && s'.now == s.now + (if op.Tick? then 1 else 0)
            && RunsOf(s'.log, id) == RunsOf(s.log, id) + (if runs then [s.now + 1] else [])
            && DuesOf(s'.alarms, id)
            == if !runs then dues else if cb(s.now + 1, id) == 0 then [] else [s.now + 1 + cb(s.now + 1, id)]
  {
    match op
    case Tick =>
      WalkOf(s.alarms, s.now + 1, cb, id);
      RunsOfAppend(s.log, Walk(s.alarms, s.now + 1, cb).1, id);
    case Start(other, n) => assert Started(s, other, n).alarms[1..] == s.alarms;
    case Stop(other) => WithoutOthers(s.alarms, id, other);
  }

  /** A fresh alarm is registered with its first due tick and has not run. */
  lemma NotYet(s: Schedule, id: Entry, nticks: Word, cb: Callbacks)
    requires id !in Ids(s.alarms)
    ensures var first := s.now + nticks + 1;
            && FiringTimes(first, s.now, id, cb) == []
            && DuesOf(Started(s, id, nticks).alarms, id) == [first] == Pending(first, s.now, id, cb)
  {
    UnregisteredHasNoDue(s.alarms, id);
    assert Started(s, id, nticks).alarms[1..] == s.alarms;
  }

  /** Exact alarms. An alarm started at tick T with delay n runs first at T + n + 1 and then at exactly the running
      sums of its callback's returns until a zero, whatever is started and stopped around it, and it stays registered
      with exactly its next due tick. */
  lemma {:induction false} RunsExactly(s: Schedule, id: Entry, nticks: Word, ops: seq<Op>, cb: Callbacks)
    requires id !in Ids(s.alarms)
    requires forall i :: 0 <= i < |ops| ==> !Mentions(ops[i], id)
    ensures var s' := ApplyAll(Started(s, id, nticks), ops, cb);
            var first := s.now + nticks + 1;
            && RunsOf(s'.log, id) == RunsOf(s.log, id) + FiringTimes(first, s'.now, id, cb)
            && DuesOf(s'.alarms, id) == Pending(first, s'.now, id, cb)
    decreases |ops|
  {
    hide Apply, RunsOf, FiringTimes, Pending;
    var first := s.now + nticks + 1;
    if ops == [] {
      NotYet(s, id, nticks, cb);
    } else {
      var before, op := ops[..|ops| - 1], ops[|ops| - 1];
      RunsExactly(s, id, nticks, before, cb);
      var p := ApplyAll(Started(s, id, nticks), before, cb);
      ApplyOf(p, op, cb, id);
      assert ApplyAll(Started(s, id, nticks), ops, cb) == Apply(p, op, cb);
      if op.Tick? {
        OneTickLater(first, p.now, id, cb);
        var was := FiringTimes(first, p.now, id, cb);
        var more := FiringTimes(first, p.now + 1, id, cb)[|was|..];
        assert RunsOf(s.log, id) + (was + more) == (RunsOf(s.log, id) + was) + more;
      }
    }
  }

  /** A firing follows the one before it by what the callback returned there. */
  predicate Follows(ts: seq<nat>, i: nat, id: Entry, cb: Callbacks)
    requires 0 < i < |ts|
  {
    cb(ts[i - 1], id) != 0 && ts[i] == ts[i - 1] + cb(ts[i - 1], id)
  }

  /** These are all the ticks up to a limit at which an alarm first due at d runs: the first is d, each later one follows
      the one before, and the last is the last up to the limit or the one at which the callback returned zero. */
  predicate AllFirings(ts: seq<nat>, d: nat, until: nat, id: Entry, cb: Callbacks) {
    && (ts == [] <==> d > until)
    && (forall i :: 0 < i < |ts| ==> Follows(ts, i, id, cb))
    && (ts != [] ==>
          var last := ts[|ts| - 1];
          ts[0] == d && last <= until && (cb(last, id) == 0 || last + cb(last, id) > until))
  }

  lemma {:induction false} FiringTimesAre(d: nat, until: nat, id: Entry, cb: Callbacks)
    ensures AllFirings(FiringTimes(d, until, id, cb), d, until, id, cb)
    decreases until + 1 - d
  {
    if d <= until && cb(d, id) != 0 {
      FiringTimesAre(d + cb(d, id), until, id, cb);
      FiringsFollow(d, FiringTimes(d + cb(d, id), until, id, cb), until, id, cb);
    }
  }

  lemma FiringsFollow(d: nat, later: seq<nat>, until: nat, id: Entry, cb: Callbacks)
    requires d <= until && cb(d, id) != 0 && AllFirings(later, d + cb(d, id), until, id, cb)
    ensures AllFirings([d] + later, d, until, id, cb)
  {
    var ts := [d] + later;
    forall i | 0 < i < |ts| ensures Follows(ts, i, id, cb) {
      if i > 1 {
        assert Follows(later, i - 1, id, cb);
      }
    }
  }

  /** So the runs of an alarm from its start on: the first at T + n + 1. */
  lemma RunsAre(s: Schedule, id: Entry, nticks: Word, ops: seq<Op>, cb: Callbacks) returns (ts: seq<nat>)
    requires id !in Ids(s.alarms)
    requires forall i :: 0 <= i < |ops| ==> !Mentions(ops[i], id)
    ensures var s' := ApplyAll(Apply(s, Start(id, nticks), cb), ops, cb);
            && RunsOf(s'.log, id) == RunsOf(s.log, id) + ts
            && AllFirings(ts, s.now + nticks + 1, s'.now, id, cb)
            && s'.now == s.now + |Ticks(ops)|
  {
    hide AllFirings;
    RunsExactly(s, id, nticks, ops, cb);
    TicksCount(Started(s, id, nticks), ops, cb);
    var now := ApplyAll(Started(s, id, nticks), ops, cb).now;
    FiringTimesAre(s.now + nticks + 1, now, id, cb);
    ts := FiringTimes(s.now + nticks + 1, now, id, cb);
  }

  predicate Starts(op: Op, id: Entry) { op.Start? && op.id == id }

  lemma {:induction false} WithoutIt(alarms: seq<Due>, id: Entry)
    ensures DuesOf(Without(alarms, id), id) == []
  {
    if alarms != [] {
      WithoutIt(alarms[1..], id);
      var w := Without(alarms, id);
      assert w == Without(alarms[1..], id) || (w[0].id != id && w[1..] == Without(alarms[1..], id));
    }
  }

  /** A stopped alarm never runs again unless it is started again. */
  lemma {:induction false} StoppedStaysSilent(s: Schedule, id: Entry, ops: seq<Op>, cb: Callbacks)
    requires forall i :: 0 <= i < |ops| ==> !Starts(ops[i], id)
    ensures var s' := ApplyAll(Apply(s, Stop(id), cb), ops, cb); RunsOf(s'.log, id) == RunsOf(s.log, id) && DuesOf(s'.alarms, id) == []
    decreases |ops|
  {
    hide Apply, RunsOf, DuesOf;
    StopIs(s, id, cb);
    if ops == [] {
      WithoutIt(s.alarms, id);
    } else {
      var before, op := ops[..|ops| - 1], ops[|ops| - 1];
      StoppedStaysSilent(s, id, before, cb);
      var p := ApplyAll(Stopped(s, id), before, cb);
      if op.Stop? && op.id == id {
        WithoutIt(p.alarms, id);
        assert Apply(p, op, cb) == Stopped(p, id) by { StopIs(p, id, cb); }
      } else {
        ApplyOf(p, op, cb, id);
        assert RunsOf(p.log, id) + [] == RunsOf(p.log, id);
      }
    }
  }

  lemma StopIs(s: Schedule, id: Entry, cb: Callbacks)
    ensures Apply(s, Stop(id), cb) == Stopped(s, id)
  {
  }

  /** A tick advances the clock by one. */
  lemma {:induction false} TicksCount(s: Schedule, ops: seq<Op>, cb: Callbacks)
    ensures ApplyAll(s, ops, cb).now == s.now + |Ticks(ops)|
    decreases |ops|
  {
    if ops != [] {
      TicksCount(s, ops[..|ops| - 1], cb);
    }
  }

  function Ticks(ops: seq<Op>): seq<Op>
    decreases |ops|
  {
    if ops == [] then [] else Ticks(ops[..|ops| - 1]) + if ops[|ops| - 1].Tick? then [Tick] else []
  }
}
