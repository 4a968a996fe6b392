/** settimeofday and gettimeofday on a wrapping tick counter, in the 32-bit arithmetic the code uses. */
module TimeOfDay {
  import opened Machine

  /** Microseconds in a second. */
  const US := 1_000_000

  /** One more second than a C long can count. */
  const SECONDS := 0x8000_0000

  /** A C long. */
  type Long = n: int | -0x8000_0000 <= n < 0x8000_0000

  datatype Time = Time(sec: Long, usec: Long)

  /** The long with the same low 32 bits. */
  function Signed(n: int): (r: Long)
    ensures (n - r) % WORD == 0
  {
    var w := n % WORD;
    if w < 0x8000_0000 then w else w - WORD
  }

  /** Microseconds per tick, as the integer division has it. */
  function Period(rate: Word): Word
    requires rate > 0
  {
    US / rate
  }

  function Times(a: nat, b: nat): nat { a * b }

  /** Microseconds that n ticks stand for. */
  function Product(n: Word, rate: Word): nat
    requires rate > 0
  {
    Times(n, Period(rate))
  }

  /** What a set at tick n stores as the reset time; the product is taken in 32 bits. */
  function Reset(t: Time, n: Word, rate: Word): Time
    requires rate > 0
  {
    Time(Signed(t.sec - n / rate), Signed(t.usec - (Product(n, rate) % WORD) % US))
  }

  /** What a get at tick n starts from; the product is taken in 64 bits. */
  function Sampled(reset: Time, n: Word, rate: Word): Time
    requires rate > 0
  {
    Time(Signed(reset.sec + n / rate), Signed(reset.usec + Product(n, rate) % US))
  }

  /** Microseconds since zero. */
  function Total(t: Time): int { t.sec * US + t.usec }

  /** What the normalising loops make of a sample: the same moment, or zero for a moment before zero. */
  function Moment(s: Time): (int, int) {
    if s.usec < 0 && Total(s) < 0 then (0, 0) else (Total(s) / US, Total(s) % US)
  }

  function Get(reset: Time, n: Word, rate: Word): (int, int)
    requires rate > 0
  {
    Moment(Sampled(reset, n, rate))
  }

  predicate Normalised(t: Time) { t.sec >= 0 && 0 <= t.usec < US }

  // ---------------------------------------------------------------- arithmetic

  lemma SignedInRange(n: int)
    ensures -0x8000_0000 <= n < 0x8000_0000 ==> Signed(n) == n
  {
  }

  /** A difference wrapped once and corrected comes out right if the result fits. */
  lemma SignedCancels(a: int, b: int)
    ensures -0x8000_0000 <= a + b < 0x8000_0000 ==> Signed(Signed(a) + b) == a + b
  {
    var r := Signed(a);
    var k := (a - r) / WORD;
    assert a == r + k * WORD;
    SameWord(r + b, k);
    SignedInRange(a + b);
  }

  lemma SameWord(n: int, k: int)
    ensures Signed(n) == Signed(n + k * WORD)
  {
    Shifted(n, k);
  }

  lemma Shifted(n: int, k: int)
    ensures (n + k * WORD) % WORD == n % WORD
  {
    assert n == n / WORD * WORD + n % WORD;
    assert n + k * WORD == (n / WORD + k) * WORD + n % WORD;
  }

  // ---------------------------------------------------------------- what a get returns after a set

  /** Microseconds a set subtracts. */
  function Subtracted(n: Word, rate: Word): nat
    requires rate > 0
  {
    (Product(n, rate) % WORD) % US
  }

  /** Microseconds a get adds. */
  function Added(n: Word, rate: Word): nat
    requires rate > 0
  {
    Product(n, rate) % US
  }

  /** A get at tick n1 after a set of t at tick n0 samples t plus the whole seconds and the microseconds between. */
  lemma SampleAfterSet(t: Time, n0: Word, n1: Word, rate: Word)
    requires rate > 0 && Normalised(t) && t.sec - n0 / rate + n1 / rate < 0x8000_0000
    requires n0 <= n1
    ensures n0 / rate <= n1 / rate
    ensures Sampled(Reset(t, n0, rate), n1, rate)
         == Time(t.sec - n0 / rate + n1 / rate, t.usec - Subtracted(n0, rate) + Added(n1, rate))
  {
    hide Signed;
    Ordered(n0, n1, rate);
    SignedCancels(t.sec - n0 / rate, n1 / rate);
    SignedCancels(t.usec - Subtracted(n0, rate), Added(n1, rate));
  }

  lemma Ordered(a: nat, b: nat, d: nat)
    requires a <= b && d > 0
    ensures a / d <= b / d
  {
    var qa, qb := a / d, b / d;
    assert a == qa * d + a % d && b == qb * d + b % d;
    Larger(qb + 1, qa, d);
    assert (qb + 1) * d == qb * d + d;
  }

  lemma Larger(a: nat, b: nat, d: nat)
    ensures a <= b ==> a * d <= b * d
  {
  }

  /** High word of the tick product at the set; the 32-bit multiplication loses it. */
  function Lost(n: Word, rate: Word): nat
    requires rate > 0
  {
    Product(n, rate) / WORD
  }

  /** The lost part is a whole number of seconds. */
  predicate Harmless(n: Word, rate: Word)
    requires rate > 0
  {
    Lost(n, rate) % 15625 == 0
  }

  /** What is lost does not show exactly when it is a whole number of seconds: a lost unit is 2^32 microseconds, and
      15625 of them are the least number that make whole seconds. */
  lemma LossShows(n: Word, rate: Word)
    requires rate > 0
    ensures Subtracted(n, rate) == Added(n, rate) <==> Harmless(n, rate)
  {
    hide Product;
    var p := Product(n, rate);
    assert p == p / WORD * WORD + p % WORD;
    SplitRemainder(p / WORD, p % WORD);
  }

  lemma SplitRemainder(q: nat, r: nat)
    ensures r % US == (q * WORD + r) % US <==> q % 15625 == 0
  {
    SumRemainder(q * WORD, r);
    WholeSeconds(q);
  }

  lemma SumRemainder(d: nat, r: nat)
    ensures r % US == (d + r) % US <==> d % US == 0
  {
    assert d == d / US * US + d % US && r == r / US * US + r % US;
    var s := d % US + r % US;
    assert d + r == (d / US + r / US) * US + s;
    assert (d + r) % US == s % US;
  }

  /** 2^32 is 64 times 2^26, a million is 64 times 15625, and 12659 inverts 2^26 modulo 15625. */
  lemma WholeSeconds(q: nat)
    ensures (q * WORD) % US == 0 <==> q % 15625 == 0
  {
    var n := q * 0x400_0000;
    var m, rest := n / 15625, n % 15625;
    assert n == 15625 * m + rest;
    assert q * WORD == US * m + 64 * rest;
    RemainderOf(m, 64 * rest);
    assert q == 15625 * (12659 * m - 54369991 * q) + 12659 * rest;
    if rest == 0 {
      Divides(12659 * m - 54369991 * q);
    }
    if q % 15625 == 0 {
      assert n == 15625 * (q / 15625 * 0x400_0000);
      Divides(q / 15625 * 0x400_0000);
    }
  }

  lemma Divides(k: int)
    ensures (15625 * k) % 15625 == 0
  {
  }

  lemma MomentOf(sec: Long, usec: Long)
    requires sec * US + usec >= 0
    ensures Moment(Time(sec, usec)) == ((sec * US + usec) / US, (sec * US + usec) % US)
  {
  }

  lemma NormalisedMoment(t: Time)
    requires Normalised(t)
    ensures Total(t) >= 0 && Total(t) / US == t.sec && Total(t) % US == t.usec
  {
  }

  /** A get right behind a set returns the time set, for every time, exactly when the lost part is whole seconds. */
  lemma SetThenGetExactlyWhen(n: Word, rate: Word)
    requires rate > 0
    ensures (forall t: Time :: Normalised(t) ==> Get(Reset(t, n, rate), n, rate) == (t.sec, t.usec))
            <==> Harmless(n, rate)
  {
    hide Reset, Sampled, Moment, Harmless, Added, Subtracted;
    LossShows(n, rate);
    if Harmless(n, rate) {
      forall t: Time | Normalised(t)
        ensures Get(Reset(t, n, rate), n, rate) == (t.sec, t.usec)
      {
        SampleAfterSet(t, n, n, rate);
        MomentOf(t.sec, t.usec);
        NormalisedMoment(t);
      }
    } else {
      var t := Time(5, 0);
      GetIsOff(t, n, rate);
      assert Normalised(t);
    }
  }

  lemma GetIsOff(t: Time, n: Word, rate: Word)
    requires rate > 0 && t == Time(5, 0) && Subtracted(n, rate) != Added(n, rate)
    ensures Get(Reset(t, n, rate), n, rate) != (t.sec, t.usec)
  {
    hide Reset, Sampled, Product;
    SampleAfterSet(t, n, n, rate);
  }

  /** With the period the exact length of a tick, a tick count is its whole seconds and its added microseconds. */
  lemma TicksAreMicroseconds(n: Word, rate: Word)
    requires rate > 0 && US % rate == 0
    ensures n / rate * US + Added(n, rate) == Times(n, Period(rate))
  {
    var p, q, r := Period(rate), n / rate, n % rate;
    assert US == rate * p by { Exact(US, rate); }
    assert n == q * rate + r;
    Distribute(q, rate, r, p);
    Smaller(r, rate, p);
    RemainderOf(q, r * p);
  }

  lemma Exact(a: nat, d: nat)
    requires d > 0 && a % d == 0
    ensures a == d * (a / d)
  {
  }

  lemma Distribute(q: nat, d: nat, r: nat, p: nat)
    ensures (q * d + r) * p == q * (d * p) + r * p
  {
  }

  lemma Smaller(r: nat, d: nat, p: nat)
    requires r < d && d * p == US
    ensures r * p < US
  {
    Larger(r + 1, d, p);
    assert (r + 1) * p == r * p + p;
  }

  lemma RemainderOf(q: nat, r: nat)
    requires r < US
    ensures (q * US + r) % US == r
  {
  }

  /** Time of a moment the given number of ticks after t. */
  function After(t: Time, ticks: nat, rate: Word): (int, int)
    requires rate > 0
  {
    var total := Total(t) + Times(ticks, Period(rate));
    (total / US, total % US)
  }

  /** What the normalising loops make of a sample: the same moment with the microseconds in range, but time zero for one
      that lies before zero and has its microseconds below zero. */
  lemma MomentMeans(s: Time)
    ensures var (sec, usec) := Moment(s);
            && 0 <= usec < 1_000_000
            && (if s.usec < 0 && s.sec * 1_000_000 + s.usec < 0 then sec == 0 && usec == 0
                else sec * 1_000_000 + usec == s.sec * 1_000_000 + s.usec)
  {
  }

  /** So many ticks are so many seconds divided by the rate, when a tick is a whole number of microseconds. */
  lemma AfterMeans(t: Time, ticks: nat, rate: Word)
    requires rate > 0 && US % rate == 0 && Normalised(t)
    ensures var (sec, usec) := After(t, ticks, rate);
            && 0 <= usec < 1_000_000
            && rate * ((sec * 1_000_000 + usec) - (t.sec * 1_000_000 + t.usec)) == ticks * 1_000_000
  {
    var p := Period(rate);
    Exact(US, rate);
    var total := Total(t) + Times(ticks, p);
    assert total == total / US * US + total % US;
    Rearranged(rate, ticks, p);
  }

  lemma Rearranged(rate: nat, ticks: nat, p: nat)
    ensures rate * (ticks * p) == ticks * (rate * p)
  {
  }

  lemma TimesAdds(a: nat, b: nat, p: nat)
    ensures Times(a + b, p) == Times(a, p) + Times(b, p)
  {
  }

  /** The sample a get starts from is the exact moment, so the clamp to zero is not taken. */
  lemma SampleIsExact(t: Time, n: Word, k: nat, rate: Word)
    requires rate > 0 && US % rate == 0 && Normalised(t) && n + k < WORD && Harmless(n, rate)
    requires t.sec - n / rate + (n + k) / rate < 0x8000_0000
    ensures Total(Sampled(Reset(t, n, rate), n + k, rate)) == Total(t) + Times(k, Period(rate))
  {
    hide Reset, Sampled, Harmless, Added, Subtracted, Times;
    LossShows(n, rate);
    SampleAfterSet(t, n, n + k, rate);
    TicksAreMicroseconds(n, rate);
    TicksAreMicroseconds(n + k, rate);
    TimesAdds(n, k, Period(rate));
  }

  /** A time and a number of ticks for which no 32-bit second count overflows: neither the one a get starts from nor the
      one it returns, which a carry may have raised. */
  predicate InRange(t: Time, n: Word, k: nat, rate: Word)
    requires rate > 0
  {
    && Normalised(t) && n + k < WORD
    && t.sec - n / rate + (n + k) / rate < SECONDS
    && After(t, k, rate).0 < SECONDS
  }

  /** A get k ticks after a set of t returns exactly t plus k tick periods, for every time and k in range, exactly when
      the part of the tick product lost at the set is whole seconds. */
  lemma TickRoundTripExactlyWhen(n: Word, rate: Word)
    requires rate > 0 && US % rate == 0
    ensures (forall t: Time, k: nat ::
               InRange(t, n, k, rate) ==> Get(Reset(t, n, rate), n + k, rate) == After(t, k, rate))
            <==> Harmless(n, rate)
  {
    hide Reset, Sampled, Harmless, Added, Subtracted, Times, Get, After;
    if Harmless(n, rate) {
      forall t: Time, k: nat | InRange(t, n, k, rate)
        ensures Get(Reset(t, n, rate), n + k, rate) == After(t, k, rate)
      {
        ExactGet(t, n, k, rate);
      }
    } else {
      LossShows(n, rate);
      var t := Time(5, 0);
      GetIsOff(t, n, rate);
      AfterNothing(t, rate);
      assert n + 0 == n && InRange(t, n, 0, rate);
    }
  }

  /** Both bounds of the range are needed: where the result fits, the get is exact exactly when the second count it starts
      from fits too. In the last second that fits it may not, and then the clamp sets the clock to zero. */
  lemma ExactGetExactlyWhen(t: Time, n: Word, k: nat, rate: Word)
    requires rate > 0 && US % rate == 0 && Normalised(t) && n + k < WORD && Harmless(n, rate)
    requires After(t, k, rate).0 < SECONDS
    ensures Get(Reset(t, n, rate), n + k, rate) == After(t, k, rate)
            <==> t.sec - n / rate + (n + k) / rate < SECONDS
    ensures t.sec - n / rate + (n + k) / rate >= SECONDS ==> Get(Reset(t, n, rate), n + k, rate) == (0, 0)
  {
    hide Harmless, Reset, Sampled, Get, After, Added, Subtracted, Times;
    var sec := t.sec - n / rate + (n + k) / rate;
    if sec < SECONDS {
      ExactGet(t, n, k, rate);
    } else {
      OverflowingSample(t, n, k, rate);
      LastSecond(t, k, rate);
    }
  }

  lemma LastSecond(t: Time, k: nat, rate: Word)
    requires rate > 0 && Total(t) >= 0
    ensures Total(t) + Times(k, Period(rate)) > US ==> After(t, k, rate) != (0, 0)
  {
    assert Times(k, Period(rate)) >= 0;
  }

  /** A sampled second count of 2^31 reads as the least one there is. */
  lemma OverflowingSample(t: Time, n: Word, k: nat, rate: Word)
    requires rate > 0 && US % rate == 0 && Normalised(t) && n + k < WORD && Harmless(n, rate)
    requires After(t, k, rate).0 < SECONDS && t.sec - n / rate + (n + k) / rate >= SECONDS
    ensures Get(Reset(t, n, rate), n + k, rate) == (0, 0)
    ensures Total(t) + Times(k, Period(rate)) > US
  {
    hide Harmless, Reset, Product, Times;
    var sec, usec := t.sec - n / rate + (n + k) / rate, t.usec - Subtracted(n, rate) + Added(n + k, rate);
    LossShows(n, rate);
    Ordered(n, n + k, rate);
    TicksAreMicroseconds(n, rate);
    TicksAreMicroseconds(n + k, rate);
    TimesAdds(n, k, Period(rate));
    assert sec * US + usec == Total(t) + Times(k, Period(rate));
    assert sec == SECONDS && usec < 0;
    SampleWraps(t, n, n + k, rate);
  }

  lemma SampleWraps(t: Time, n0: Word, n1: Word, rate: Word)
    requires rate > 0 && Normalised(t) && t.sec - n0 / rate + n1 / rate == SECONDS
    ensures Sampled(Reset(t, n0, rate), n1, rate) == Time(-SECONDS, t.usec - Subtracted(n0, rate) + Added(n1, rate))
  {
    hide Signed;
    SignedWraps(t.sec - n0 / rate, n1 / rate);
    SignedCancels(t.usec - Subtracted(n0, rate), Added(n1, rate));
  }

  lemma SignedWraps(a: int, b: int)
    requires a + b == SECONDS
    ensures Signed(Signed(a) + b) == -SECONDS
  {
    var r := Signed(a);
    var k := (a - r) / WORD;
    assert a == r + k * WORD;
    SameWord(r + b, k);
  }

  /** It happens: a clock set 999 ticks after the start to the last second there is reads zero one tick later. */
  lemma LastSecondWitness()
    ensures var t := Time(0x7fff_ffff, 0);
            && After(t, 1, 1000) == (0x7fff_ffff, 1000)
            && Get(Reset(t, 999, 1000), 1000, 1000) == (0, 0)
  {
    var t := Time(0x7fff_ffff, 0);
    assert Period(1000) == 1000 && Product(999, 1000) == 999000 && Lost(999, 1000) == 0;
    assert Times(1, Period(1000)) == 1000;
    ExactGetExactlyWhen(t, 999, 1, 1000);
  }

  lemma ExactGet(t: Time, n: Word, k: nat, rate: Word)
    requires rate > 0 && US % rate == 0 && Normalised(t) && n + k < WORD && Harmless(n, rate)
    requires t.sec - n / rate + (n + k) / rate < 0x8000_0000
    ensures Get(Reset(t, n, rate), n + k, rate) == After(t, k, rate)
  {
    hide Reset, Sampled, Harmless;
    SampleIsExact(t, n, k, rate);
  }

  lemma AfterNothing(t: Time, rate: Word)
    requires rate > 0 && Normalised(t)
    ensures After(t, 0, rate) == (t.sec, t.usec)
  {
  }

  /** A thousand ticks a second and 72 minutes of running time are enough to lose something. */
  lemma LossWitness()
    ensures !Harmless(4294968, 1000)
    ensures Get(Reset(Time(5, 0), 4294968, 1000), 4294968, 1000) != (5, 0)
  {
    assert Period(1000) == 1000 && Product(4294968, 1000) == 4294968000;
    assert Lost(4294968, 1000) == 1;
    LossShows(4294968, 1000);
    GetIsOff(Time(5, 0), 4294968, 1000);
  }

  // ---------------------------------------------------------------- the calls

  class SystemClock {
    var nticks: Word
    var tickRate: Word
    var resetTime: Time
    var minutesWest: int
    var dstTime: int
    var errno: int

    constructor (rate: Word)
      ensures nticks == 0 && tickRate == rate && resetTime == Time(0, 0)
    {
      nticks, tickRate, resetTime := 0, rate, Time(0, 0);
      minutesWest, dstTime, errno := 0, 0, 0;
    }

    /** settimeofday */
    method SetTimeOfDay(t: Time, west: int, dst: int) returns (code: int)
      modifies this`resetTime, this`minutesWest, this`dstTime, this`errno
      ensures tickRate != 0 ==>
                code == 0 && resetTime == Reset(t, nticks, tickRate) && minutesWest == west && dstTime == dst
                && errno == old(errno)
      ensures tickRate == 0 ==>
                code == -1 && errno == ENOSYS && resetTime == old(resetTime) && minutesWest == old(minutesWest)
                && dstTime == old(dstTime)
    {
      if tickRate != 0 {
        resetTime := Time(Signed(t.sec - nticks / tickRate), Signed(t.usec - Subtracted(nticks, tickRate)));
        minutesWest := west;
        dstTime := dst;
        return 0;
      }
      errno := ENOSYS;
      return -1;
    }

    /** gettimeofday; now holds the caller's structure before and after. A carry past the last second there is would
        overflow a signed number. */
    method GetTimeOfDay(now: (int, int)) returns (code: int, time: (int, int))
      requires tickRate != 0 ==> Get(resetTime, nticks, tickRate).0 < SECONDS
      ensures tickRate != 0 ==> code == 0 && time == Get(resetTime, nticks, tickRate) && 0 <= time.1 < US
      ensures tickRate == 0 ==> code == -ENOTSUP && time == now
    {
      hide Signed, Moment, Product;
      if tickRate != 0 {
        var sec, usec := Signed(resetTime.sec + nticks / tickRate), Signed(resetTime.usec + Added(nticks, tickRate));
        time := Normalise(Time(sec, usec));
        return 0, time;
      }
      return -ENOTSUP, now;
    }

    /** The two normalising loops, in longs */
    static method Normalise(s: Time) returns (time: (int, int))
      requires Moment(s).0 < SECONDS
      ensures time == Moment(s) && 0 <= time.1 < US
    {
      var sec: Long, usec: Long := s.sec, s.usec;
      while usec < 0
        invariant sec * US + usec == Total(s) && (s.usec < 0 ==> usec < US) && (s.usec >= 0 ==> sec == s.sec)
        invariant s.usec < 0 && usec >= 0 ==> sec >= 0
        decreases -(usec as int)
      {
        if sec <= 0 {
          return (0, 0);
        } else {
          sec := sec - 1;
          usec := usec + US;
        }
      }
      MomentIs(s, sec, usec);
      while usec >= US
        invariant usec >= 0 && sec * US + usec == Total(s) && sec <= Moment(s).0
        decreases usec
      {
        MomentIs(s, sec, usec);
        sec := sec + 1;
        usec := usec - US;
      }
      MomentIs(s, sec, usec);
      time := (sec, usec);
    }
  }

  /** Where the loops stand once the microseconds are not negative. */
  lemma MomentIs(s: Time, sec: int, usec: nat)
    requires sec * US + usec == Total(s) && (s.usec < 0 ==> sec >= 0)
    ensures Moment(s) == (sec + usec / US, usec % US)
  {
  }
}
