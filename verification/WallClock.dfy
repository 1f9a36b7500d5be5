/** The wall clock: settimeofday and gettimeofday over the tick counter. */
module WallClock {
  import AlarmTime
  import opened Errno
  import opened Numerals
  import opened Words

  const US := 1_000_000

  type s32 = x: int | -0x8000_0000 <= x < 0x8000_0000

  /** A number stored in a signed word. */
  function Signed(x: int): s32 {
    var w := x % WORD;
    if w < 0x8000_0000 then w else w - WORD
  }

  // ---- What the two calls compute ----

  datatype Time = Time(sec: s32, usec: s32)

  /** A time that a caller may set. */
  predicate Normal(t: Time) {
    t.sec >= 0 && 0 <= t.usec < US
  }

  function Total(t: Time): int {
    t.sec * US + t.usec
  }

  function Seconds(nticks: u32, rate: u32): nat
    requires rate > 0
  {
    nticks / rate
  }

  /** Ticks in microseconds, but for what the whole seconds of a rate that does not divide a million
      take more. */
  function Product(nticks: u32, rate: u32): nat
    requires rate > 0
  {
    nticks * (US / rate)
  }

  /** The reset time that setting t at count nticks stores: this product is a 32-bit one. */
  function ResetTime(t: Time, nticks: u32, rate: u32): Time
    requires rate > 0
  {
    Time(Signed(t.sec - Seconds(nticks, rate)), Signed(t.usec - Product(nticks, rate) % WORD % US))
  }

  /** The sum that the getter starts with: this product is a 64-bit one. */
  function RawTime(reset: Time, nticks: u32, rate: u32): Time
    requires rate > 0
  {
    Time(Signed(reset.sec + Seconds(nticks, rate)), Signed(reset.usec + Product(nticks, rate) % US))
  }

  /** Is a time too far below zero to be normalised? */
  predicate Clamped(t: Time) {
    t.usec < 0 && t.sec + t.usec / US < 0
  }

  /** The same time with a proper count of microseconds; / rounds down here. */
  function Normalised(t: Time): (r: Time)
    ensures 0 <= r.usec < US
    ensures if Clamped(t) then Total(r) == 0
            else t.sec + t.usec / US < 0x8000_0000 ==> Total(r) == Total(t)
  {
    if Clamped(t) then Time(0, 0) else Time(Signed(t.sec + t.usec / US), t.usec % US)
  }

  // ---- The code ----

  class TimeVal {
    var sec: s32
    var usec: s32

    constructor ()
      ensures sec == usec == 0
    {
      sec, usec := 0, 0;
    }

    ghost function View(): Time
      reads this
    {
      Time(sec, usec)
    }
  }

  class TimeZone {
    var minutesWest: int
    var dstTime: int

    constructor ()
      ensures minutesWest == dstTime == 0
    {
      minutesWest, dstTime := 0, 0;
    }
  }

  class Clock {
    var resetTime: TimeVal
    var timeZone: TimeZone
    var errno: int

    constructor ()
      ensures fresh(resetTime) && fresh(timeZone)
      ensures resetTime.View() == Time(0, 0) && timeZone.minutesWest == timeZone.dstTime == 0
    {
      resetTime := new TimeVal();
      timeZone := new TimeZone();
      errno := 0;
    }

    method SetTimeOfDay(t: TimeVal, tz: TimeZone, nticks: u32, rate: u32) returns (r: int)
      modifies resetTime, timeZone, this`errno
      ensures r == if rate > 0 then 0 else -1
      ensures rate == 0 ==> errno == ENOSYS && unchanged(resetTime) && unchanged(timeZone)
      ensures rate > 0 ==> errno == old(errno) && resetTime.View() == ResetTime(old(t.View()), nticks, rate)
      ensures rate > 0 ==> timeZone.minutesWest == old(tz.minutesWest) && timeZone.dstTime == old(tz.dstTime)
    {
      if rate > 0 {
        resetTime.sec := Signed(t.sec - nticks / rate);
        resetTime.usec := Signed(t.usec - nticks * (US / rate) % WORD % US);
        timeZone.minutesWest := tz.minutesWest;
        timeZone.dstTime := tz.dstTime;
        return 0;
      }
      errno := ENOSYS;
      return -1;
    }

    method GetTimeOfDay(tv: TimeVal, tz: TimeZone?, nticks: u32, rate: u32) returns (r: int)
      requires tv != resetTime && (tz == null || tz != timeZone)
      modifies tv, tz
      ensures r == if rate > 0 then 0 else -ENOTSUP
      ensures rate == 0 ==> unchanged(tv) && (tz != null ==> unchanged(tz))
      ensures rate > 0 ==> tv.View() == Normalised(RawTime(resetTime.View(), nticks, rate))
      ensures rate > 0 && tz != null ==> tz.minutesWest == timeZone.minutesWest && tz.dstTime == timeZone.dstTime
    {
      if rate > 0 {
        tv.sec := Signed(resetTime.sec + nticks / rate);
        tv.usec := Signed(resetTime.usec + nticks * (US / rate) % US);
        Normalise(tv);
        if tz != null {
          tz.minutesWest := timeZone.minutesWest;
          tz.dstTime := timeZone.dstTime;
        }
        return 0;
      }
      return -ENOTSUP;
    }
  }

  /** The two loops of the getter; both end. */
  method Normalise(tv: TimeVal)
    modifies tv
    ensures tv.View() == Normalised(old(tv.View()))
  {
    Borrow(tv);
    Carry(tv);
  }

  method Borrow(tv: TimeVal)
    modifies tv
    ensures tv.usec >= 0
    ensures if Clamped(old(tv.View())) then tv.sec == tv.usec == 0
            else tv.sec + tv.usec / US == old(tv.sec) + old(tv.usec) / US && tv.usec % US == old(tv.usec) % US
  {
    while tv.usec < 0
      invariant tv.sec + tv.usec / US == old(tv.sec) + old(tv.usec) / US && tv.usec % US == old(tv.usec) % US
      invariant old(tv.usec) < 0 ==> tv.usec < US && (tv.usec >= 0 ==> tv.sec >= 0)
      invariant old(tv.usec) >= 0 ==> unchanged(tv)
      decreases 0 - tv.usec
    {
      if tv.sec <= 0 {
        tv.sec := 0;
        tv.usec := 0;
        break;
      } else {
        tv.sec := tv.sec - 1;
        tv.usec := tv.usec + US;
      }
    }
  }

  method Carry(tv: TimeVal)
    requires tv.usec >= 0
    modifies tv
    ensures tv.sec == Signed(old(tv.sec) + old(tv.usec) / US) && tv.usec == old(tv.usec) % US
  {
    while tv.usec >= US
      invariant tv.usec >= 0
      invariant Signed(tv.sec + tv.usec / US) == Signed(old(tv.sec) + old(tv.usec) / US)
      invariant tv.usec % US == old(tv.usec) % US
      decreases tv.usec
    {
      SignedSum(tv.sec + 1, tv.usec / US - 1);
      tv.sec := Signed(tv.sec + 1);
      tv.usec := tv.usec - US;
    }
  }

  /** Wrapping around early changes nothing. */
  lemma SignedSum(x: int, y: int)
    ensures Signed(Signed(x) + y) == Signed(x + y)
  {}

  // ---- Setting and getting ----

  /** Microseconds that the clock shows after some ticks. */
  function Elapsed(nticks: u32, rate: u32): nat
    requires rate > 0
  {
    Seconds(nticks, rate) * US + Product(nticks, rate) % US
  }

  /** The product in the setter and the one in the getter give the same part of a second exactly when
      the product has wrapped around a multiple of 5^6 times. */
  lemma WrapIsHarmless(a: nat)
    ensures a % US == a % WORD % US <==> a / WORD % 15625 == 0
  {
    var m, w := a / WORD, a % WORD;
    var b, c := m / 15625, m % 15625;
    assert a == US * (0x400_0000 * b) + (c * WORD + w);
    assert a % US == (c * WORD + w) % US;
    if a % US == w % US {
      var j := (c * WORD + w) / US - w / US;
      assert c * WORD == US * j;
      // 0x400_0000 has the inverse 12659 modulo 15625
      assert c * 0x400_0000 == 15625 * j;
      assert c == 15625 * (12659 * j - 54369991 * c);
    }
  }

  /** Before the time is ever set, the clock shows what the count stands for, in seconds that fit a signed
      word; at a rate that divides a million that is one period a tick. */
  lemma NeverSet(n: u32, rate: u32)
    requires rate > 0 && n / rate < 0x8000_0000
    ensures Total(Normalised(RawTime(Time(0, 0), n, rate))) == n / rate * US + n * (US / rate) % US
    ensures US % rate == 0 ==> Total(Normalised(RawTime(Time(0, 0), n, rate))) == n * (US / rate)
  {
    var sec, usec := n / rate, n * (US / rate) % US;
    assert RawTime(Time(0, 0), n, rate) == Time(sec, usec);
    hide RawTime;
    if US % rate == 0 {
      ElapsedIsExact(n, rate);
    }
  }

  /** What the clock shows at count n1 when t was set at count n0. */
  function Shown(t: Time, n0: u32, n1: u32, rate: u32): Time
    requires rate > 0
  {
    Normalised(RawTime(ResetTime(t, n0, rate), n1, rate))
  }

  /** What the counts say that it should show, in microseconds: the set time moved by the difference of
      the two counts. */
  function Expected(t: Time, n0: u32, n1: u32, rate: u32): int
    requires rate > 0
  {
    Total(t) + Elapsed(n1, rate) - Elapsed(n0, rate)
  }

  /** What the setter's product gains or loses by wrapping around. */
  function Lost(n0: u32, rate: u32): int
    requires rate > 0
  {
    Product(n0, rate) % US - Product(n0, rate) % WORD % US
  }

  /** The seconds and microseconds of the getter's sum, before the seconds are stored in a word. */
  function SumSeconds(t: Time, n0: u32, n1: u32, rate: u32): int
    requires rate > 0
  {
    t.sec + Seconds(n1, rate) - Seconds(n0, rate)
  }

  function SumMicroseconds(t: Time, n0: u32, n1: u32, rate: u32): int
    requires rate > 0
  {
    t.usec - Product(n0, rate) % WORD % US + Product(n1, rate) % US
  }

  /** The sum of the getter misses what it should be by what the setter's product lost and by what the
      word of the seconds does not hold. */
  lemma RawTotal(t: Time, n0: u32, n1: u32, rate: u32)
    requires rate > 0 && Normal(t)
    ensures var raw, sec := RawTime(ResetTime(t, n0, rate), n1, rate), SumSeconds(t, n0, n1, rate);
            && raw.sec == Signed(sec) && raw.usec == SumMicroseconds(t, n0, n1, rate) && -US < raw.usec < 2 * US
            && sec * US + raw.usec == Expected(t, n0, n1, rate) + Lost(n0, rate)
            && Total(raw) == Expected(t, n0, n1, rate) + Lost(n0, rate) + (Signed(sec) - sec) * US
  {
    hide Signed, Seconds, Product;
    SignedSum(t.sec - Seconds(n0, rate), Seconds(n1, rate));
    RawMicroseconds(t.usec, Product(n0, rate) % WORD % US, Product(n1, rate) % US);
  }

  lemma RawMicroseconds(usec: s32, x0: nat, x1: nat)
    requires 0 <= usec < US && x0 < US && x1 < US
    ensures Signed(usec - x0) == usec - x0 && Signed(usec - x0 + x1) == usec - x0 + x1
  {}

  lemma LaterSeconds(m: u32, n: u32, rate: u32)
    requires m <= n && rate > 0
    ensures Seconds(m, rate) <= Seconds(n, rate)
  {
    if m / rate > n / rate {
      TimesMonotone(n / rate + 1, m / rate, rate);
    }
  }

  /** For any two counts, the later time is the set time moved by their difference exactly when it and
      its seconds fit, the setter's product has wrapped around a multiple of 5^6 times, and a negative
      one is not clamped; or when it is zero and the clamp hides that the sum came out too small. */
  lemma SetThenGet(t: Time, n0: u32, n1: u32, rate: u32)
    requires rate > 0 && Normal(t)
    ensures var a, e, usec := Product(n0, rate), Expected(t, n0, n1, rate), SumMicroseconds(t, n0, n1, rate);
            Total(Shown(t, n0, n1, rate)) == e <==>
            && e < 0x8000_0000 * US && -0x8000_0000 <= SumSeconds(t, n0, n1, rate) < 0x8000_0000
            && if e == 0 then a / WORD % 15625 == 0 || (a % US < a % WORD % US && usec < 0)
               else a / WORD % 15625 == 0 && (e > 0 || usec >= 0)
  {
    hide Seconds, Product, Normalised, RawTime, ResetTime, Elapsed, SumSeconds, SumMicroseconds, Expected, Normal;
    var raw := RawTime(ResetTime(t, n0, rate), n1, rate);
    WrapIsHarmless(Product(n0, rate));
    RawTotal(t, n0, n1, rate);
    SumRange(t, n0, n1, rate);
    SumIsRight(SumSeconds(t, n0, n1, rate), raw, Expected(t, n0, n1, rate), Lost(n0, rate));
  }

  lemma SumIsRight(sec: int, raw: Time, e: int, lost: int)
    requires -WORD < sec < WORD + 0x8000_0000 && (sec < -0x8000_0000 ==> raw.usec < US)
    requires raw.sec == Signed(sec) && -US < raw.usec < 2 * US && sec * US + raw.usec == e + lost && -US < lost < US
    ensures Total(Normalised(raw)) == e <==>
            && e < 0x8000_0000 * US && -0x8000_0000 <= sec < 0x8000_0000
            && if e == 0 then lost == 0 || (lost < 0 && raw.usec < 0) else lost == 0 && (e > 0 || raw.usec >= 0)
  {
    SignedNear(sec);
    ShownTotal(raw);
    hide Normalised, Signed;
  }

  lemma SignedNear(x: int)
    requires -WORD < x < WORD + 0x8000_0000
    ensures Signed(x) == if x < -0x8000_0000 then x + WORD else if x < 0x8000_0000 then x else x - WORD
  {}

  lemma SumRange(t: Time, n0: u32, n1: u32, rate: u32)
    requires rate > 0 && Normal(t)
    ensures -WORD < SumSeconds(t, n0, n1, rate) < WORD + 0x8000_0000
    ensures if rate == 1 then SumMicroseconds(t, n0, n1, rate) < US
            else -0x8000_0000 < SumSeconds(t, n0, n1, rate) < WORD
    ensures n0 <= n1 ==> SumSeconds(t, n0, n1, rate) >= 0
  {
    SecondsRange(n0, rate);
    SecondsRange(n1, rate);
    if rate == 1 {
      WholeSeconds(Product(n1, rate), n1, 0);
    }
    if n0 <= n1 {
      LaterSeconds(n0, n1, rate);
    }
  }

  lemma SecondsRange(n: u32, rate: u32)
    requires rate > 0
    ensures Seconds(n, rate) <= n && (rate > 1 ==> Seconds(n, rate) < 0x8000_0000)
  {
    TimesMonotone(1, rate, n / rate);
    if rate > 1 {
      TimesMonotone(2, rate, n / rate);
    }
  }

  lemma ShownTotal(raw: Time)
    requires -US < raw.usec < 2 * US
    ensures Total(Normalised(raw)) == if raw.usec < 0 && Total(raw) < 0 then 0
                                      else if Total(raw) < 0x8000_0000 * US then Total(raw)
                                      else Total(raw) - WORD * US
  {}

  /** When the rate divides a million the clock moves on by the same period at every tick. */
  lemma ElapsedIsExact(n: u32, rate: u32)
    requires rate > 0 && US % rate == 0
    ensures Elapsed(n, rate) == Product(n, rate)
  {
    var q, e, r := US / rate, n / rate, n % rate;
    assert n * q == e * (rate * q) + r * q;
    TimesMonotone(r, rate - 1, q);
    assert (rate - 1) * q == US - q;
    WholeSeconds(n * q, e, r * q);
  }

  lemma WholeSeconds(p: nat, e: nat, x: nat)
    requires p == e * US + x && x < US
    ensures p % US == x
  {}

  // ---- On an unbounded clock ----

  /** The time shown at true time c1, counted in ticks, when t was set at true time c0. */
  function ShownAt(t: Time, c0: nat, c1: nat, rate: u32): Time
    requires rate > 0
  {
    Shown(t, AlarmTime.Count(c0), AlarmTime.Count(c1), rate)
  }

  /** The true time then, at a rate that divides a million. */
  function TrueTime(t: Time, c0: nat, c1: nat, rate: u32): int
    requires rate > 0 && c0 <= c1
  {
    Total(t) + (c1 - c0) * (US / rate)
  }

  /** Have the counter and its seconds not lost anything since the set? At one tick a second the seconds
      wrap around together with the counter, so that nothing is lost. */
  predicate SameEpoch(c0: nat, c1: nat, rate: u32) {
    c0 / WORD == c1 / WORD || rate == 1
  }

  predicate Fits(t: Time, c0: nat, c1: nat, rate: u32)
    requires rate > 0 && c0 <= c1
  {
    && TrueTime(t, c0, c1, rate) < 0x8000_0000 * US
    && SumSeconds(t, AlarmTime.Count(c0), AlarmTime.Count(c1), rate) < 0x8000_0000
  }

  /** At a rate that divides a million, a get shows the true time exactly when that fits, the setter's
      product has wrapped around a multiple of 5^6 times, and the tick counter has not wrapped around
      since the set; or, at time zero, when the clamp hides that the product lost time. */
  lemma SetThenGetIff(t: Time, c0: nat, c1: nat, rate: u32)
    requires rate > 0 && US % rate == 0 && Normal(t) && c0 <= c1
    ensures var a, now := Product(AlarmTime.Count(c0), rate), TrueTime(t, c0, c1, rate);
            Total(ShownAt(t, c0, c1, rate)) == now <==>
            || (Fits(t, c0, c1, rate) && a / WORD % 15625 == 0 && SameEpoch(c0, c1, rate))
            || (now == 0 && a % US < a % WORD % US)
  {
    hide Seconds, Product, Shown, Elapsed, TrueTime, Fits, ShownAt, Normal, AlarmTime.Count;
    if c0 / WORD == c1 / WORD {
      SameEpochGet(t, c0, c1, rate);
    } else if rate == 1 {
      SlowClockGet(t, c0, c1);
    } else {
      LaterEpochGet(t, c0, c1, rate);
    }
  }

  lemma SameEpochGet(t: Time, c0: nat, c1: nat, rate: u32)
    requires rate > 0 && US % rate == 0 && Normal(t) && c0 <= c1 && c0 / WORD == c1 / WORD
    ensures var a, now := Product(AlarmTime.Count(c0), rate), TrueTime(t, c0, c1, rate);
            Total(ShownAt(t, c0, c1, rate)) == now <==>
            (Fits(t, c0, c1, rate) && a / WORD % 15625 == 0) || (now == 0 && a % US < a % WORD % US)
  {
    var n0, n1 := AlarmTime.Count(c0), AlarmTime.Count(c1);
    assert n1 - n0 == c1 - c0;
    ExpectedTicks(t, n0, n1, rate);
    assert (c1 - c0) * (US / rate) >= 0 by { Difference(n0, n1, US / rate); }
    hide Seconds, Product, Shown, Elapsed;
    SetThenGet(t, n0, n1, rate);
    SumRange(t, n0, n1, rate);
    RawTotal(t, n0, n1, rate);
    WrapIsHarmless(Product(n0, rate));
  }

  lemma ExpectedTicks(t: Time, n0: u32, n1: u32, rate: u32)
    requires rate > 0 && US % rate == 0
    ensures Expected(t, n0, n1, rate) == Total(t) + (n1 - n0) * (US / rate)
  {
    ElapsedIsExact(n0, rate);
    ElapsedIsExact(n1, rate);
    hide Elapsed;
  }

  /** Once the counter has wrapped around, the time shown is too early. */
  lemma LaterEpochGet(t: Time, c0: nat, c1: nat, rate: u32)
    requires rate > 1 && US % rate == 0 && Normal(t) && c0 / WORD < c1 / WORD
    ensures c0 <= c1 && 0 < TrueTime(t, c0, c1, rate) && Total(ShownAt(t, c0, c1, rate)) < TrueTime(t, c0, c1, rate)
  {
    hide Seconds, Product, Elapsed, Normalised, RawTime, ResetTime, TrueTime, Expected, SumMicroseconds;
    var n0, n1 := AlarmTime.Count(c0), AlarmTime.Count(c1);
    var raw := RawTime(ResetTime(t, n0, rate), n1, rate);
    TrueTimeIsLater(t, c0, c1, rate);
    RawTotal(t, n0, n1, rate);
    SumRange(t, n0, n1, rate);
    ShownTotal(raw);
  }

  lemma TrueTimeIsLater(t: Time, c0: nat, c1: nat, rate: u32)
    requires rate > 0 && US % rate == 0 && Normal(t) && c0 / WORD < c1 / WORD
    ensures c0 <= c1 && TrueTime(t, c0, c1, rate) > 0
    ensures TrueTime(t, c0, c1, rate) >= Expected(t, AlarmTime.Count(c0), AlarmTime.Count(c1), rate) + WORD
  {
    ExpectedTicks(t, AlarmTime.Count(c0), AlarmTime.Count(c1), rate);
    hide Expected, AlarmTime.Count;
    EpochTicks(c0, c1, US / rate);
  }

  lemma EpochTicks(c0: nat, c1: nat, q: nat)
    requires c0 / WORD < c1 / WORD && q > 0
    ensures (c1 - c0) * q >= WORD + (AlarmTime.Count(c1) - AlarmTime.Count(c0)) * q
    ensures (c1 - c0) * q > 0
  {
    var d, m := AlarmTime.Count(c1) - AlarmTime.Count(c0), c1 / WORD - c0 / WORD;
    assert c1 - c0 == m * WORD + d;
    assert (c1 - c0) * q == m * WORD * q + d * q;
    TimesMonotone(WORD, m * WORD, q);
    TimesMonotone(1, q, WORD);
    TimesMonotone(1, c1 - c0, q);
  }

  /** At one tick a second it is not, whatever has wrapped around. */
  lemma SlowClockGet(t: Time, c0: nat, c1: nat)
    requires Normal(t) && c0 < c1
    ensures Total(ShownAt(t, c0, c1, 1)) == TrueTime(t, c0, c1, 1) <==>
            Fits(t, c0, c1, 1) && Product(AlarmTime.Count(c0), 1) / WORD % 15625 == 0
    ensures TrueTime(t, c0, c1, 1) > 0
  {
    var n0, n1, d := AlarmTime.Count(c0), AlarmTime.Count(c1), t.sec + c1 - c0;
    WholeSeconds(Product(n0, 1), n0, 0);
    WholeSeconds(Product(n1, 1), n1, 0);
    WrapIsHarmless(Product(n0, 1));
    RawTotal(t, n0, n1, 1);
    assert SumSeconds(t, n0, n1, 1) == t.sec + n1 - n0;
    SameSigned(t.sec, c0, c1);
    hide Normalised, RawTime, ResetTime, Product, Seconds, Elapsed;
    ShownTotal(RawTime(ResetTime(t, n0, 1), n1, 1));
  }

  lemma SameSigned(sec: s32, c0: nat, c1: nat)
    requires sec >= 0 && c0 <= c1
    ensures Signed(sec + AlarmTime.Count(c1) - AlarmTime.Count(c0)) == Signed(sec + c1 - c0)
    ensures sec + c1 - c0 < 0x8000_0000 ==>
            Signed(sec + c1 - c0) == sec + c1 - c0 && sec + AlarmTime.Count(c1) - AlarmTime.Count(c0) < 0x8000_0000
  {}

  /** In particular: at such a rate, while the product has not wrapped around and the counter has not
      since the set, a get returns the time that was set and the tick periods since, and the clamp is
      not reached. */
  lemma SetThenGetTicks(t: Time, c0: nat, c1: nat, rate: u32)
    requires rate > 0 && US % rate == 0 && Normal(t) && c0 <= c1
    requires Product(AlarmTime.Count(c0), rate) < WORD && SameEpoch(c0, c1, rate) && Fits(t, c0, c1, rate)
    ensures Total(ShownAt(t, c0, c1, rate)) == TrueTime(t, c0, c1, rate)
    ensures 0 <= ShownAt(t, c0, c1, rate).usec < US
    ensures !Clamped(RawTime(ResetTime(t, AlarmTime.Count(c0), rate), AlarmTime.Count(c1), rate))
  {
    hide TrueTime, SameEpoch, Seconds, Product, Fits, Normal, AlarmTime.Count, ShownAt;
    NoWrap(Product(AlarmTime.Count(c0), rate));
    SetThenGetIff(t, c0, c1, rate);
    NothingClamped(t, c0, c1, rate);
  }

  lemma NothingClamped(t: Time, c0: nat, c1: nat, rate: u32)
    requires rate > 0 && US % rate == 0 && Normal(t) && c0 <= c1 && Product(AlarmTime.Count(c0), rate) < WORD
    requires Total(ShownAt(t, c0, c1, rate)) == TrueTime(t, c0, c1, rate)
    ensures 0 <= ShownAt(t, c0, c1, rate).usec < US
    ensures !Clamped(RawTime(ResetTime(t, AlarmTime.Count(c0), rate), AlarmTime.Count(c1), rate))
  {
    hide Seconds, Product, Signed, AlarmTime.Count;
    if c0 == c1 {
      Immediate(t, AlarmTime.Count(c0), rate);
    } else {
      TimesMonotone(1, c1 - c0, US / rate);
    }
  }

  /** A get right after the set starts with the time that was set, while the product does not wrap. */
  lemma Immediate(t: Time, n: u32, rate: u32)
    requires rate > 0 && Normal(t) && Product(n, rate) < WORD
    ensures RawTime(ResetTime(t, n, rate), n, rate) == t
  {
    hide Seconds, Product;
    RawTotal(t, n, n, rate);
  }

  lemma NoWrap(a: nat)
    requires a < WORD
    ensures a % WORD == a && a / WORD % 15625 == 0
  {}

  lemma Difference(m: nat, n: nat, q: nat)
    requires m <= n
    ensures n * q - m * q == (n - m) * q >= 0
  {}

  /** Where it is wrong: at 100 ticks a second the product first wraps after 429497 ticks. */
  lemma WrapLosesTime()
    ensures Shown(Time(1, 0), 429497, 429497, 100) == Time(1, 967_296)
  {
    assert Product(429497, 100) == 4_294_970_000 == WORD + 2704 && Seconds(429497, 100) == 4294;
    hide Product, Seconds;
    assert ResetTime(Time(1, 0), 429497, 100) == Time(-4293, -2704);
    assert RawTime(Time(-4293, -2704), 429497, 100) == Time(1, 967_296);
  }

  /** Between two wraps of the counter, its readings never run backwards at a rate that divides a million
      or exceeds it. */
  lemma RunsForward(n: u32, rate: u32)
    requires rate > 0 && (US % rate == 0 || rate > US) && n + 1 < WORD
    ensures Elapsed(n, rate) <= Elapsed(n + 1, rate)
  {
    if US % rate == 0 {
      ElapsedIsExact(n, rate);
      ElapsedIsExact(n + 1, rate);
      Difference(n, n + 1, US / rate);
    } else {
      hide Seconds;
      NoMicroseconds(n, rate);
      NoMicroseconds(n + 1, rate);
      LaterSeconds(n, n + 1, rate);
    }
  }

  lemma NoMicroseconds(n: u32, rate: u32)
    requires rate > US
    ensures Product(n, rate) == 0
  {
    assert US / rate == 0;
  }

  /** At every other rate they do, in the second second, when the microseconds wrap around. */
  lemma RunsBackward(rate: u32) returns (n: u32)
    requires 0 < rate < US && US % rate != 0
    ensures n + 1 < WORD && Elapsed(n + 1, rate) < Elapsed(n, rate) && Seconds(n, rate) == Seconds(n + 1, rate) == 1
  {
    var q := US / rate;
    assert q > 0 && rate > 1;
    n := LastBelow(q);
    SecondSecond(n, q, rate);
    Unique(n, rate, 1, n - rate);
    Unique(n + 1, rate, 1, n + 1 - rate);
    Difference(n, n + 1, q);
    assert Product(n, rate) % US == n * q && Product(n + 1, rate) % US == (n + 1) * q - US;
  }

  lemma LastBelow(q: nat) returns (n: nat)
    requires 0 < q < US
    ensures n < US && n * q < US <= (n + 1) * q
  {
    n := (US - 1) / q;
    Difference(n, n + 1, q);
    TimesMonotone(1, q, n);
  }

  lemma SecondSecond(n: nat, q: nat, rate: u32)
    requires 0 < rate < US && US % rate != 0 && q == US / rate && n * q < US <= (n + 1) * q
    ensures rate <= n < n + 1 < 2 * rate && 2 * q <= US
  {}

  /** At the wrap of the counter they do at every rate. */
  lemma FallsAtWrap(rate: u32)
    requires rate > 0
    ensures Elapsed(0, rate) == 0 && Elapsed(WORD - 1, rate) >= US
  {
    Unique(rate, rate, 1, 0);
    LaterSeconds(rate, WORD - 1, rate);
  }

  /** The getter's sum. */
  function Sum(t: Time, n0: u32, n1: u32, rate: u32): int
    requires rate > 0
  {
    Expected(t, n0, n1, rate) + Lost(n0, rate)
  }

  /** Does the sum fit in a time? */
  predicate SumFits(t: Time, n0: u32, n1: u32, rate: u32)
    requires rate > 0
  {
    SumSeconds(t, n0, n1, rate) < 0x8000_0000 && Sum(t, n0, n1, rate) < 0x8000_0000 * US
  }

  /** What a get shows of a sum that fits: nothing less than zero, when the counter has not wrapped. */
  lemma ShownSum(t: Time, n0: u32, n1: u32, rate: u32)
    requires rate > 0 && Normal(t) && SumFits(t, n0, n1, rate) && (n0 <= n1 || rate > 1)
    ensures var sum, shown := Sum(t, n0, n1, rate), Total(Shown(t, n0, n1, rate));
            shown == if sum < 0 && (n0 <= n1 || SumMicroseconds(t, n0, n1, rate) < 0) then 0 else sum
  {
    hide Seconds, Product, Normalised, RawTime, ResetTime, Elapsed, Expected, Lost, SumSeconds, SumMicroseconds;
    var raw := RawTime(ResetTime(t, n0, rate), n1, rate);
    RawTotal(t, n0, n1, rate);
    SumRange(t, n0, n1, rate);
    ShownTotal(raw);
  }

  /** So a later get of the same epoch never shows an earlier time, whenever the time was set. */
  lemma GetRunsForward(t: Time, n0: u32, n: u32, rate: u32)
    requires rate > 0 && (US % rate == 0 || rate > US) && Normal(t) && n0 <= n < WORD - 1
    requires SumFits(t, n0, n + 1, rate)
    ensures Total(Shown(t, n0, n, rate)) <= Total(Shown(t, n0, n + 1, rate))
  {
    hide Seconds, Product, Shown, Elapsed, SumMicroseconds;
    RunsForward(n, rate);
    LaterSeconds(n, n + 1, rate);
    ShownSum(t, n0, n, rate);
    ShownSum(t, n0, n + 1, rate);
  }

  /** At every rate but one, the get at the wrap of the counter shows an earlier time than the get one
      tick before, whenever and to whatever the time was set, unless that get showed no time yet. */
  lemma GetFallsAtWrap(t: Time, n0: u32, rate: u32)
    requires rate > 1 && Normal(t) && SumFits(t, n0, WORD - 1, rate) && Total(Shown(t, n0, WORD - 1, rate)) > 0
    ensures Total(Shown(t, n0, 0, rate)) < Total(Shown(t, n0, WORD - 1, rate))
  {
    LaterSeconds(0, WORD - 1, rate);
    FallsAtWrap(rate);
    hide Seconds, Product, Shown, Elapsed, SumMicroseconds;
    ShownSum(t, n0, WORD - 1, rate);
    ShownSum(t, n0, 0, rate);
  }

  /** An input: at 1000 ticks a second, the rate of this system, the clock falls back by 49.7 days. */
  lemma FallsBackByWeeks()
    ensures Total(Shown(Time(0, 0), 0, WORD - 1, 1000)) == 4_294_967_295_000
    ensures Total(Shown(Time(0, 0), 0, 0, 1000)) == 0
  {
    assert Product(WORD - 1, 1000) == 4_294_967_295_000 && Seconds(WORD - 1, 1000) == 4_294_967;
    assert Product(0, 1000) == 0 && Seconds(0, 1000) == 0;
    hide Product, Seconds;
    assert ResetTime(Time(0, 0), 0, 1000) == Time(0, 0);
    assert RawTime(Time(0, 0), WORD - 1, 1000) == Time(4_294_967, 295_000);
  }

  /** A caller sees it: after setting any time at count zero, some later get shows an earlier time than
      the get before it. */
  lemma GetRunsBackward(t: Time, rate: u32) returns (n: u32)
    requires 0 < rate < US && US % rate != 0 && Normal(t) && t.sec + 3 < 0x8000_0000
    ensures n + 1 < WORD && Total(Shown(t, 0, n + 1, rate)) < Total(Shown(t, 0, n, rate))
  {
    n := RunsBackward(rate);
    ShownFromZero(t, n, rate);
    ShownFromZero(t, n + 1, rate);
  }

  /** Nothing is lost by a set at count zero. */
  lemma ShownFromZero(t: Time, n: u32, rate: u32)
    requires rate > 0 && Normal(t) && t.sec + Seconds(n, rate) + 2 < 0x8000_0000
    ensures Total(Shown(t, 0, n, rate)) == Total(t) + Elapsed(n, rate)
  {
    assert Seconds(0, rate) == 0 && Product(0, rate) == 0;
    hide Seconds, Product, Shown;
    ShownSum(t, 0, n, rate);
  }
}
