/** The HAL alarm facility: a wrapping 32-bit tick counter and a rollover bit per alarm, proved to run the schedule
    on the unbounded clock. */
module AlarmClock {
  import opened Machine
  import opened LinkedList
  import opened AlarmSchedule

  /** The fields of an alarm record the tick looks at. */
  datatype Record = Record(time: Word, rollover: bool)

  // ---------------------------------------------------------------- 32-bit time

  function StartRecord(current: Word, nticks: Word): Record {
    var time := (nticks + current + 1) % WORD;
    Record(time, time < current)
  }

  /** The rollover bit as the tick leaves it, before the test for expiry. */
  function Rolled(rec: Record, current: Word): Record {
    if rec.rollover && current == 0 then rec.(rollover := false) else rec
  }

  predicate Expired(rec: Record, current: Word) { rec.time <= current && !rec.rollover }

  function Rescheduled(rec: Record, current: Word, next: Word): Record {
    var time := (rec.time + next) % WORD;
    Record(time, time < current || rec.rollover)
  }

  /** How a record represents the unbounded due tick `at` between two ticks. The last case is an alarm started with
      the longest delay on the very last tick before the counter wraps. */
  ghost predicate Represented(rec: Record, at: nat, now: nat) {
    && rec.time == at % WORD
    && now < at
    && if at - now < WORD then rec.rollover <==> at / WORD > now / WORD
       else at == now + WORD && now % WORD == WORD - 1 && !rec.rollover
  }

  /** A delay the counter can express: all but the longest, and that one only on the last tick of an epoch. */
  predicate Expressible(now: nat, nticks: Word) { nticks < WORD - 1 || now % WORD == WORD - 1 }

  /** Starting represents the due tick T + n + 1 exactly when the delay is expressible. */
  lemma StartRepresents(now: nat, nticks: Word)
    ensures Represented(StartRecord(now % WORD, nticks), now + nticks + 1, now) <==> Expressible(now, nticks)
  {
    var t := now % WORD + nticks + 1;
    assert (now + nticks + 1) % WORD == t % WORD;
    assert (now + nticks + 1) / WORD == now / WORD + t / WORD;
  }

  /** The longest delay is not honoured otherwise: the alarm runs at the very next tick. */
  lemma LongestDelayRunsAtOnce(now: nat)
    requires now % WORD != WORD - 1
    ensures var rec, next := StartRecord(now % WORD, WORD - 1), (now + 1) % WORD;
            Expired(Rolled(rec, next), next)
  {
  }

  /** The machine's test for expiry is the unbounded one, across every wrap of the counter. */
  lemma TickDecides(rec: Record, at: nat, now: nat)
    requires Represented(rec, at, now)
    ensures var current := (now + 1) % WORD;
            && (Expired(Rolled(rec, current), current) <==> at == now + 1)
            && (at != now + 1 ==> Represented(Rolled(rec, current), at, now + 1))
  {
    var q, r := now / WORD, now % WORD;
    if r == WORD - 1 {
      assert now + 1 == (q + 1) * WORD;
      assert (now + 1) / WORD == q + 1 && (now + 1) % WORD == 0;
    } else {
      assert (now + 1) / WORD == q && (now + 1) % WORD == r + 1;
    }
  }

  lemma RescheduleRepresents(rec: Record, now: nat, next: Word)
    requires rec.time == now % WORD && !rec.rollover && next != 0
    ensures Represented(Rescheduled(rec, now % WORD, next), now + next, now)
  {
    var t := now % WORD + next;
    assert (now + next) % WORD == t % WORD;
    assert (now + next) / WORD == now / WORD + t / WORD;
  }

  // ---------------------------------------------------------------- the alarm list

  ghost predicate AllRepresented(recs: map<Entry, Record>, alarms: seq<Due>, now: nat) {
    forall i :: 0 <= i < |alarms| ==> alarms[i].id in recs && Represented(recs[alarms[i].id], alarms[i].at, now)
  }

  ghost predicate Absent(alarms: seq<Due>, id: Entry) { forall i :: 0 <= i < |alarms| ==> alarms[i].id != id }

  lemma {:induction false} WithoutSplits(alarms: seq<Due>, k: nat)
    requires k < |alarms| && Distinct(Ids(alarms))
    ensures Without(alarms, alarms[k].id) == alarms[..k] + alarms[k + 1..]
  {
    var id, ids, rest := alarms[k].id, Ids(alarms), alarms[1..];
    assert forall i :: 0 <= i < |rest| ==> Ids(rest)[i] == ids[i + 1];
    if k == 0 {
      forall i | 0 <= i < |rest| ensures rest[i].id != id {
        assert ids[0] != ids[i + 1];
      }
      WithoutNothing(rest, id);
    } else {
      assert ids[0] != ids[k];
      WithoutSplits(rest, k - 1);
      assert rest[..k - 1] + rest[k..] == (alarms[..k] + alarms[k + 1..])[1..];
    }
  }

  lemma {:induction false} WithoutNothing(alarms: seq<Due>, id: Entry)
    requires Absent(alarms, id)
    ensures Without(alarms, id) == alarms
  {
    if alarms != [] {
      WithoutNothing(alarms[1..], id);
    }
  }

  /** Changing one alarm's record leaves the others represented. */
  lemma Untouched(older: map<Entry, Record>, newer: map<Entry, Record>, alarms: seq<Due>, id: Entry, now: nat)
    requires AllRepresented(older, alarms, now)
    requires forall e :: e in older && e != id ==> e in newer && newer[e] == older[e]
    requires Absent(alarms, id)
    ensures AllRepresented(newer, alarms, now)
  {
  }

  /** The cursor of the walk: alarms in kept have been visited, todo is still ahead. */
  ghost predicate Cursor(links: Links, kept: seq<Due>, todo: seq<Due>, alarm: Entry) {
    Represents(links, Ids(kept + todo)) && alarm == Path(Ids(kept + todo))[|kept| + 1]
  }

  lemma CursorAtEnds(links: Links, alarms: seq<Due>)
    ensures Represents(links, Ids(alarms)) ==> HEAD in links.next && Cursor(links, [], alarms, links.next[HEAD])
    ensures Cursor(links, alarms, [], HEAD) ==> Represents(links, Ids(alarms))
  {
    assert [] + alarms == alarms && alarms + [] == alarms;
    if Represents(links, Ids(alarms)) {
      assert Linked(links, Path(Ids(alarms))[0], Path(Ids(alarms))[1]);
    }
  }

  lemma CursorAtAlarm(links: Links, kept: seq<Due>, todo: seq<Due>, alarm: Entry)
    requires Cursor(links, kept, todo, alarm)
    ensures alarm == HEAD <==> todo == []
    ensures todo != [] ==>
              && alarm == todo[0].id && alarm in links.next && alarm in links.prev
              && Absent(kept, alarm) && Absent(todo[1..], alarm)
  {
    var order := Ids(kept + todo);
    if todo != [] {
      assert order[|kept|] == todo[0].id == alarm;
      assert Linked(links, Path(order)[|kept|], Path(order)[|kept| + 1]);
      assert Linked(links, Path(order)[|kept| + 1], Path(order)[|kept| + 2]);
      assert forall i :: 0 <= i < |kept| ==> order[i] == kept[i].id;
      assert forall i :: 0 <= i < |todo[1..]| ==> order[|kept| + 1 + i] == todo[1..][i].id;
    }
  }

  /** The saved next pointer is the cursor's next place, whether or not the visited alarm removed itself. */
  lemma CursorMoves(links: Links, kept: seq<Due>, todo: seq<Due>, alarm: Entry, now: Due)
    requires Cursor(links, kept, todo, alarm) && todo != [] && now.id == alarm
    requires alarm in links.next && alarm in links.prev
    ensures Cursor(links, kept + [now], todo[1..], links.next[alarm])
    ensures Cursor(Remove(links, alarm), kept, todo[1..], links.next[alarm])
  {
    var order := Ids(kept + todo);
    assert order[|kept|] == todo[0].id == alarm;
    assert Linked(links, Path(order)[|kept| + 1], Path(order)[|kept| + 2]);
    assert Ids((kept + [now]) + todo[1..]) == order;
    RemoveCloses(links, order, |kept|);
    assert order[..|kept|] + order[|kept| + 1..] == Ids(kept + todo[1..]);
  }

  datatype Walked = Walked(kept: seq<Due>, fired: seq<Firing>, todo: seq<Due>)

  /** The walk's outcome is what has been done so far, followed by the walk over what is ahead. */
  ghost predicate WalkSplits(alarms: seq<Due>, now: nat, cb: Callbacks,
                             kept: seq<Due>, fired: seq<Firing>, todo: seq<Due>) {
    var (left, ran) := Walk(todo, now, cb);
    Walk(alarms, now, cb) == (kept + left, fired + ran)
  }

  /** A visited alarm that stays registered: unchanged if it was not due, else due when its callback asked. */
  function Visited(d: Due, now: nat, cb: Callbacks): Due {
    if d.at == now then Due(d.id, now + cb(now, d.id)) else d
  }

  lemma WalkStep(alarms: seq<Due>, now: nat, cb: Callbacks, kept: seq<Due>, fired: seq<Firing>, todo: seq<Due>)
    requires WalkSplits(alarms, now, cb, kept, fired, todo) && todo != []
    ensures var d := todo[0];
            WalkSplits(alarms, now, cb,
                       if d.at == now && cb(now, d.id) == 0 then kept else kept + [Visited(d, now, cb)],
                       if d.at == now then fired + [Firing(now, d.id)] else fired,
                       todo[1..])
  {
    var d := todo[0];
    var (rest, ran) := Walk(todo[1..], now, cb);
    assert kept + ([Visited(d, now, cb)] + rest) == (kept + [Visited(d, now, cb)]) + rest;
    assert fired + ([Firing(now, d.id)] + ran) == (fired + [Firing(now, d.id)]) + ran;
  }

  lemma WalkEnds(alarms: seq<Due>, now: nat, cb: Callbacks)
    ensures WalkSplits(alarms, now, cb, [], [], alarms)
    ensures forall kept, fired :: WalkSplits(alarms, now, cb, kept, fired, []) ==> Walk(alarms, now, cb) == (kept, fired)
  {
    var (left, ran) := Walk(alarms, now, cb);
    assert [] + left == left && [] + ran == ran;
    forall kept: seq<Due>, fired: seq<Firing> | WalkSplits(alarms, now, cb, kept, fired, [])
      ensures Walk(alarms, now, cb) == (kept, fired)
    {
      assert kept + [] == kept && fired + [] == fired;
    }
  }

  lemma RepresentedHeadAndTail(recs: map<Entry, Record>, alarms: seq<Due>, now: nat)
    requires AllRepresented(recs, alarms, now) && alarms != []
    ensures alarms[0].id in recs && Represented(recs[alarms[0].id], alarms[0].at, now)
    ensures AllRepresented(recs, alarms[1..], now)
  {
  }

  lemma RepresentedExtend(recs: map<Entry, Record>, alarms: seq<Due>, d: Due, now: nat)
    requires AllRepresented(recs, alarms, now)
    requires d.id in recs && Represented(recs[d.id], d.at, now)
    ensures AllRepresented(recs, alarms + [d], now)
  {
  }

  class AlarmSystem {
    var nticks: Word
    var tickRate: Word
    var links: Links
    var recs: map<Entry, Record>
    ghost var schedule: Schedule

    ghost predicate Valid()
      reads this
    {
      && nticks == schedule.now % WORD
      && Represents(links, Ids(schedule.alarms))
      && AllRepresented(recs, schedule.alarms, schedule.now)
    }

    constructor (rate: Word)
      ensures Valid() && tickRate == rate
      ensures schedule == Schedule(0, [], [])
    {
      nticks, tickRate := 0, rate;
      links := Links(map[HEAD := HEAD], map[HEAD := HEAD]);
      recs := map[];
      schedule := Schedule(0, [], []);
    }

    /** alt_alarm_start; no alarm stands for a null pointer. An inexpressible delay leaves an early alarm behind. */
    method Start(alarm: Option<Entry>, delay: Word) returns (rc: int)
      requires Valid()
      requires alarm.Some? ==> alarm.value != HEAD && alarm.value !in Ids(schedule.alarms)
      modifies this`links, this`recs, this`schedule
      ensures rc == if tickRate == 0 then -ENOTSUP else if alarm.None? then -EINVAL else 0
      ensures rc != 0 ==> Valid() && schedule == old(schedule)
      ensures rc == 0 ==> schedule == Started(old(schedule), alarm.value, delay)
      ensures rc == 0 && Expressible(old(schedule.now), delay) ==> Valid()
    {
      if tickRate == 0 {
        return -ENOTSUP;
      }
      if alarm.None? {
        return -EINVAL;
      }
      var id := alarm.value;
      ghost var order := Ids(schedule.alarms);
      InsertAtFront(links, order, id);
      StartRepresents(schedule.now, delay);
      recs := recs[id := StartRecord(nticks, delay)];
      links := Insert(links, id);
      schedule := Started(schedule, id, delay);
      assert Ids(schedule.alarms) == [id] + order;
      assert schedule.alarms[1..] == old(schedule.alarms);
      forall i | 1 <= i < |schedule.alarms| ensures schedule.alarms[i].id != id {
        assert order[i - 1] == old(schedule.alarms)[i - 1].id;
      }
      return 0;
    }

    /** alt_alarm_stop, of a registered alarm or of one that already stopped. */
    method Stop(id: Entry)
      requires Valid()
      requires id in Ids(schedule.alarms) || Detached(links, id)
      modifies this`links, this`schedule
      ensures Valid()
      ensures schedule == Stopped(old(schedule), id)
      ensures Detached(links, id)
    {
      ghost var alarms := schedule.alarms;
      if id in Ids(alarms) {
        ghost var k :| 0 <= k < |alarms| && Ids(alarms)[k] == id;
        RemoveCloses(links, Ids(alarms), k);
        WithoutSplits(alarms, k);
        assert Ids(alarms[..k] + alarms[k + 1..]) == Ids(alarms)[..k] + Ids(alarms)[k + 1..];
      } else {
        RemoveAgain(links, Ids(alarms), id);
        forall i | 0 <= i < |alarms| ensures alarms[i].id != id {
          assert Ids(alarms)[i] == alarms[i].id;
        }
        WithoutNothing(alarms, id);
      }
      links := Remove(links, id);
      schedule := Stopped(schedule, id);
    }

    /** The body of the walk in alt_tick for one alarm, which is due at the unbounded tick at; now is the new tick. */
    method Visit(alarm: Entry, run: Entry -> Word, ghost at: nat, ghost now: nat) returns (ghost fires: bool)
      requires alarm in recs && alarm in links.next && alarm in links.prev
      requires now > 0 && nticks == now % WORD && Represented(recs[alarm], at, now - 1)
      modifies this`links, this`recs
      ensures fires <==> at == now
      ensures links == if fires && run(alarm) == 0 then Remove(old(links), alarm) else old(links)
      ensures recs.Keys == old(recs).Keys
      ensures forall e :: e in recs && e != alarm ==> recs[e] == old(recs)[e]
      ensures !fires ==> Represented(recs[alarm], at, now)
      ensures fires && run(alarm) != 0 ==> Represented(recs[alarm], now + run(alarm), now)
    {
      TickDecides(recs[alarm], at, now - 1);
      fires := at == now;
      if recs[alarm].rollover && nticks == 0 {
        recs := recs[alarm := recs[alarm].(rollover := false)];
      }
      if recs[alarm].time <= nticks && !recs[alarm].rollover {
        var nextCallback := run(alarm);
        if nextCallback == 0 {
          links := Remove(links, alarm);
        } else {
          RescheduleRepresents(recs[alarm], now, nextCallback);
          var time := (recs[alarm].time + nextCallback) % WORD;
          recs := recs[alarm := recs[alarm].(time := time)];
          if time < nticks {
            recs := recs[alarm := recs[alarm].(rollover := true)];
          }
        }
      }
    }

    /** The walk in alt_tick, between two alarms: kept were visited and stay, fired ran, todo is still ahead. */
    ghost predicate Walking(walk: Walked, alarm: Entry, now: nat, cb: Callbacks)
      reads this
    {
      && now > 0 && nticks == now % WORD
      && Cursor(links, walk.kept, walk.todo, alarm)
      && AllRepresented(recs, walk.kept, now)
      && AllRepresented(recs, walk.todo, now - 1)
      && WalkSplits(schedule.alarms, now, cb, walk.kept, walk.fired, walk.todo)
    }

    /** One turn of the loop in alt_tick: the next pointer is saved before the alarm may remove itself. */
    method VisitAndMove(alarm: Entry, run: Entry -> Word, ghost walk: Walked, ghost now: nat, ghost cb: Callbacks)
      returns (next: Entry, ghost walk': Walked)
      requires Walking(walk, alarm, now, cb) && alarm != HEAD
      requires cb(now, alarm) == run(alarm)
      modifies this`links, this`recs
      ensures Walking(walk', next, now, cb)
      ensures |walk'.todo| < |walk.todo|
    {
      hide Represented, AllRepresented, Absent, Cursor, Represents, Remove, WalkSplits;
      var Walked(kept, fired, todo) := walk;
      CursorAtAlarm(links, kept, todo, alarm);
      RepresentedHeadAndTail(recs, todo, now - 1);
      ghost var d, older, after := todo[0], recs, Visited(todo[0], now, cb);
      CursorMoves(links, kept, todo, alarm, after);
      WalkStep(schedule.alarms, now, cb, kept, fired, todo);
      next := links.next[alarm];
      ghost var fires := Visit(alarm, run, d.at, now);
      Untouched(older, recs, kept, alarm, now);
      Untouched(older, recs, todo[1..], alarm, now - 1);
      if fires && run(alarm) == 0 {
        walk' := Walked(kept, fired + [Firing(now, d.id)], todo[1..]);
      } else {
        RepresentedExtend(recs, kept, after, now);
        walk' := Walked(kept + [after], if fires then fired + [Firing(now, d.id)] else fired, todo[1..]);
      }
    }

    /** alt_tick. run says what each alarm's callback returns if it is called during this tick. */
    method Tick(run: Entry -> Word, ghost cb: Callbacks)
      requires Valid()
      requires forall e: Entry :: cb(schedule.now + 1, e) == run(e)
      modifies this`nticks, this`links, this`recs, this`schedule
      ensures Valid()
      ensures schedule == Ticked(old(schedule), cb)
    {
      hide Represented, Cursor, Represents, WalkSplits, Walk, Path;
      ghost var now, walk := schedule.now + 1, Walked([], [], schedule.alarms);
      CursorAtEnds(links, schedule.alarms);
      WalkEnds(schedule.alarms, now, cb);
      var alarm := links.next[HEAD];
      nticks := (nticks + 1) % WORD;
      while alarm != HEAD
        invariant Walking(walk, alarm, now, cb) && schedule == old(schedule)
        decreases |walk.todo|
      {
        alarm, walk := VisitAndMove(alarm, run, walk, now, cb);
      }
      CursorAtAlarm(links, walk.kept, walk.todo, alarm);
      CursorAtEnds(links, walk.kept);
      WalkEnds(schedule.alarms, now, cb);
      schedule := Ticked(schedule, cb);
    }
  }
}
