/** How a 32-bit time and a one-bit rollover flag stand for a deadline on an unbounded clock. */
module AlarmTime {
  import opened Words

  /** The count that alt_nticks returns at a true time. */
  function Count(clock: nat): u32 {
    clock % WORD
  }

  /** A deadline on the unbounded clock. One that is late was passed already when it was set: the
      tick after it meets it. */
  datatype Deadline = Deadline(due: nat, late: bool)

  /** The tick that meets a deadline. */
  function RunTick(d: Deadline): nat {
    if d.late then d.due + 1 else d.due
  }

  /** Between ticks, at true time clock, the fields stand for a deadline. In one corner the deadline
      is in the next epoch without the flag: a whole epoch's delay set in an epoch's last tick. */
  predicate StandsFor(time: u32, rollover: bool, d: Deadline, clock: nat) {
    && (if d.late then d.due == clock && Count(clock) != WORD - 1 else clock < d.due <= clock + WORD)
    && time == Count(d.due)
    && (if d.due / WORD == clock / WORD then !rollover
        else d.due / WORD == clock / WORD + 1 && (rollover || Count(clock) == WORD - 1))
  }

  lemma Split(x: nat) returns (q: nat, r: u32)
    ensures x == q * WORD + r && q == x / WORD && r == Count(x)
  {
    q, r := x / WORD, Count(x);
  }

  lemma Join(x: nat, q: nat, r: u32)
    requires x == q * WORD + r
    ensures q == x / WORD && r == Count(x)
  {}

  /** The fields that alt_alarm_start computes. */
  function StartTime(nticks: u32, clock: nat): u32 {
    (nticks + Count(clock) + 1) % WORD
  }

  function StartRollover(nticks: u32, clock: nat): bool {
    StartTime(nticks, clock) < Count(clock)
  }

  /** The deadline that they stand for. */
  function Start(nticks: u32, clock: nat): Deadline {
    if nticks == WORD - 1 && Count(clock) != WORD - 1 then Deadline(clock, true)
    else Deadline(clock + nticks + 1, false)
  }

  lemma StartStandsFor(nticks: u32, clock: nat)
    ensures StandsFor(StartTime(nticks, clock), StartRollover(nticks, clock), Start(nticks, clock), clock)
  {}

  /** Is the callback made at this tick, and what becomes of the flag? */
  function RolloverAtTick(rollover: bool, clock: nat): bool {
    rollover && Count(clock) != 0
  }

  predicate Expires(time: u32, rollover: bool, clock: nat) {
    time <= Count(clock) && !RolloverAtTick(rollover, clock)
  }

  /** A tick makes the callback exactly when it is the one that meets the deadline, in every epoch. */
  lemma ExpiresWhenDue(time: u32, rollover: bool, d: Deadline, clock: nat)
    requires clock > 0 && StandsFor(time, rollover, d, clock - 1)
    ensures RunTick(d) >= clock
    ensures Expires(time, rollover, clock) <==> RunTick(d) == clock
    ensures RunTick(d) != clock ==> StandsFor(time, RolloverAtTick(rollover, clock), d, clock)
  {}

  /** The deadline after d when the callback returns period. A late deadline stays late when the
      period is one tick, but the counter's last value is met only in the next epoch. */
  function Renew(d: Deadline, period: nat): Deadline {
    var next := d.due + period;
    if !d.late || period > 1 then Deadline(next, false)
    else if Count(next) == WORD - 1 then Deadline(next + WORD, false)
    else Deadline(next, true)
  }

  /** Adding the period that the callback returned gives the fields of the next deadline. */
  lemma RenewedStandsFor(time: u32, rollover: bool, d: Deadline, period: u32, clock: nat)
    requires clock > 0 && StandsFor(time, rollover, d, clock - 1) && RunTick(d) == clock && period > 0
    ensures StandsFor((time + period) % WORD, (time + period) % WORD < Count(clock), Renew(d, period), clock)
  {
    var q, r := Split(clock);
    var dq, dr := Split(d.due);
    var s := dr + period;
    if r > 0 {
      Join(clock - 1, q, r - 1);
    }
    if s < WORD {
      Join(d.due + period, dq, s);
      Join(s, 0, s);
      if Renew(d, period).due != d.due + period {
        Join(d.due + period + WORD, dq + 1, s);
      }
    } else {
      Join(d.due + period, dq + 1, s - WORD);
      Join(s, 1, s - WORD);
    }
  }

  // ---- When an alarm runs ----

  /** Deadline k of an alarm whose first deadline is first and whose callback returns periods(0),
      periods(1), ... */
  function Nth(first: Deadline, periods: nat -> u32, k: nat): Deadline {
    if k == 0 then first else Renew(Nth(first, periods, k - 1), periods(k - 1))
  }

  /** The tick at which the callback runs for the k-th time. */
  function RunsAt(first: Deadline, periods: nat -> u32, k: nat): nat {
    RunTick(Nth(first, periods, k))
  }

  /** How many one-tick periods bring a late deadline to the counter's last value. */
  function TicksToWrap(first: Deadline): nat {
    WORD - 1 - Count(first.due)
  }

  /** A first deadline that fields can stand for. */
  predicate CanBeFirst(first: Deadline) {
    first.late ==> Count(first.due) != WORD - 1
  }

  ghost predicate Always(periods: nat -> u32, c: u32) {
    forall i: nat :: periods(i) == c
  }

  lemma BeforeWrap(due: nat, k: nat)
    requires Count(due) + k < WORD
    ensures Count(due + k) == Count(due) + k
  {
    var q, r := Split(due);
    Join(due + k, q, r + k);
  }

  /** The deadlines of a callback that always returns c, from every first deadline: they never drift,
      but a late deadline with a period of one tick loses an epoch when the counter wraps. */
  lemma {:induction false} Periodic(first: Deadline, periods: nat -> u32, c: u32, k: nat)
    requires c > 0 && Always(periods, c) && CanBeFirst(first)
    ensures Nth(first, periods, k) ==
            if first.late && c == 1 && k >= TicksToWrap(first) then Deadline(first.due + k + WORD, false)
            else Deadline(first.due + k * c, first.late && (k == 0 || c == 1))
  {
    if k > 0 {
      Periodic(first, periods, c, k - 1);
      if first.late && c == 1 && k <= TicksToWrap(first) {
        BeforeWrap(first.due, k);
      }
    }
  }

  /** The run after run k comes one period later exactly when run k was not late, as the first run of a
      late alarm with a longer period is, or the last one before the counter wraps with a period of
      one tick. */
  lemma NextRunIff(first: Deadline, periods: nat -> u32, c: u32, k: nat)
    requires c > 0 && Always(periods, c) && CanBeFirst(first)
    ensures RunsAt(first, periods, k + 1) == RunsAt(first, periods, k) + c <==>
            !(first.late && if c == 1 then k + 1 == TicksToWrap(first) else k == 0)
  {
    Periodic(first, periods, c, k);
    Periodic(first, periods, c, k + 1);
    hide Nth;
    Difference(k, c);
  }

  lemma Difference(k: nat, c: nat)
    ensures (k + 1) * c == k * c + c
  {}

  ghost predicate RunsEvery(first: Deadline, periods: nat -> u32, c: u32, from: nat) {
    forall k: nat :: RunsAt(first, periods, k) == from + k * c
  }

  /** The runs are evenly spaced from the first one on exactly when the first deadline is not late. */
  lemma NeverDriftsIff(first: Deadline, periods: nat -> u32, c: u32)
    requires c > 0 && Always(periods, c) && CanBeFirst(first)
    ensures RunsEvery(first, periods, c, RunTick(first)) <==> !first.late
  {
    if first.late {
      var k := if c == 1 then TicksToWrap(first) else 1;
      Periodic(first, periods, c, k);
      assert RunsAt(first, periods, k) != RunTick(first) + k * c;
    } else {
      forall k: nat
        ensures RunsAt(first, periods, k) == RunTick(first) + k * c
      {
        Periodic(first, periods, c, k);
      }
    }
  }

  /** An alarm started with a delay runs at the end of the delay and then once every period, for ever,
      exactly when the delay is not the whole range of the counter or the counter is about to wrap. */
  lemma StartedAlarmIsPeriodicIff(nticks: u32, clock: nat, periods: nat -> u32, c: u32)
    requires c > 0 && Always(periods, c)
    ensures RunsEvery(Start(nticks, clock), periods, c, clock + nticks + 1) <==>
            nticks != WORD - 1 || Count(clock) == WORD - 1
  {
    var first := Start(nticks, clock);
    NeverDriftsIff(first, periods, c);
    if first.late {
      assert RunsAt(first, periods, 0) == clock + 1;
      assert RunsAt(first, periods, 0) != clock + nticks + 1 + 0 * c;
    }
  }

  /** Runs are at different ticks, in order. */
  lemma {:induction false} RunsInOrder(first: Deadline, periods: nat -> u32, j: nat, k: nat)
    requires j < k && forall i | 0 <= i < k :: periods(i) > 0
    ensures RunsAt(first, periods, j) < RunsAt(first, periods, k)
  {
    if j < k - 1 {
      RunsInOrder(first, periods, j, k - 1);
    }
  }

  /** The fields make their first callback at a tick, when they are examined at every tick from the
      one after clock on. */
  predicate ExpiresFirstAt(time: u32, rollover: bool, clock: nat, at: nat)
    requires clock < at
    decreases at - clock
  {
    if at == clock + 1 then Expires(time, rollover, at)
    else !Expires(time, rollover, clock + 1) &&
         ExpiresFirstAt(time, RolloverAtTick(rollover, clock + 1), clock + 1, at)
  }

  lemma {:induction false} FirstExpiry(time: u32, rollover: bool, d: Deadline, clock: nat, at: nat)
    requires clock < at && StandsFor(time, rollover, d, clock)
    ensures ExpiresFirstAt(time, rollover, clock, at) <==> at == RunTick(d)
    decreases at - clock
  {
    hide StandsFor, Expires, RolloverAtTick;
    ExpiresWhenDue(time, rollover, d, clock + 1);
    if at > clock + 1 && RunTick(d) > clock + 1 {
      FirstExpiry(time, RolloverAtTick(rollover, clock + 1), d, clock + 1, at);
    }
  }

  /** A started alarm first runs nticks + 1 ticks later, whatever wraps on the way, exactly when the
      delay is not the whole range of the counter or the counter is about to wrap; otherwise it runs
      at the next tick. */
  lemma StartIsExact(nticks: u32, clock: nat)
    ensures var time, rollover := StartTime(nticks, clock), StartRollover(nticks, clock);
            && (ExpiresFirstAt(time, rollover, clock, clock + nticks + 1) <==>
                nticks != WORD - 1 || Count(clock) == WORD - 1)
            && (nticks == WORD - 1 && Count(clock) != WORD - 1 ==> ExpiresFirstAt(time, rollover, clock, clock + 1))
  {
    var time, rollover, d := StartTime(nticks, clock), StartRollover(nticks, clock), Start(nticks, clock);
    StartStandsFor(nticks, clock);
    FirstExpiry(time, rollover, d, clock, clock + nticks + 1);
    FirstExpiry(time, rollover, d, clock, clock + 1);
    hide StandsFor, StartTime, StartRollover, Count;
  }

  /** An input on which it does not: at time 0, a delay of 2^32 - 1 ticks ends at the first tick. */
  lemma WholeRangeRunsAtOnce()
    ensures ExpiresFirstAt(StartTime(WORD - 1, 0), StartRollover(WORD - 1, 0), 0, 1)
  {}

  /** The other cost, in full: such an alarm with a period of one tick runs at every tick until the
      counter is at its last value, and then not for 2^32 ticks. */
  lemma LateAlarmSkipsTheWrap(clock: nat, periods: nat -> u32, k: nat)
    requires Always(periods, 1) && Count(clock) != WORD - 1
    ensures var first := Start(WORD - 1, clock);
            && TicksToWrap(first) > 0
            && (k < TicksToWrap(first) ==> RunsAt(first, periods, k) == clock + 1 + k)
            && RunsAt(first, periods, TicksToWrap(first)) == RunsAt(first, periods, TicksToWrap(first) - 1) + WORD
  {
    var first := Start(WORD - 1, clock);
    Periodic(first, periods, 1, k);
    Periodic(first, periods, 1, TicksToWrap(first));
    Periodic(first, periods, 1, TicksToWrap(first) - 1);
  }

  // ---- The record of one alarm ----

  /** The fields of an alarm, with the history of its runs: its first deadline and the ticks at which
      its callback was made since it was started. Call number k of the callback returns callback(k). */
  datatype Record = Record(time: u32, rollover: bool, callback: nat -> u32, calls: nat,
                           first: Deadline, fired: seq<nat>)

  /** The record is right at a true time: the fields stand for its next deadline, and every earlier
      deadline was met at its tick. */
  predicate OnSchedule(a: Record, clock: nat) {
    && a.calls == |a.fired|
    && StandsFor(a.time, a.rollover, Nth(a.first, a.callback, a.calls), clock)
    && PastRuns(a, a.calls, clock)
    && forall k | 0 <= k < a.calls :: a.callback(k) > 0
  }

  predicate PastRuns(a: Record, n: nat, clock: nat)
    requires n == |a.fired|
  {
    forall k | 0 <= k < n :: a.fired[k] == RunsAt(a.first, a.callback, k) && a.fired[k] <= clock
  }

  /** Does the tick remove the alarm? */
  predicate Ends(a: Record, clock: nat) {
    RunTick(Nth(a.first, a.callback, a.calls)) == clock && a.callback(a.calls) == 0
  }

  /** The record after the tick at which the clock gets this value. */
  function AtTick(a: Record, clock: nat): Record {
    var rollover := RolloverAtTick(a.rollover, clock);
    if Expires(a.time, a.rollover, clock) then
      var period := a.callback(a.calls);
      var time := (a.time + period) % WORD;
      var b := a.(calls := a.calls + 1, fired := a.fired + [clock]);
      if period == 0 then b.(rollover := rollover) else b.(time := time, rollover := time < Count(clock))
    else a.(rollover := rollover)
  }

  /** A tick keeps an alarm on its schedule or removes it after its last run. */
  lemma TickKeepsSchedule(a: Record, clock: nat)
    requires clock > 0 && OnSchedule(a, clock - 1)
    ensures var b := AtTick(a, clock);
            && |b.fired| == b.calls && PastRuns(b, b.calls, clock)
            && (Ends(a, clock) <==> Expires(a.time, a.rollover, clock) && a.callback(a.calls) == 0)
            && (!Ends(a, clock) ==> OnSchedule(b, clock))
  {
    hide StandsFor, Expires, RolloverAtTick, Renew, RunTick;
    var d, b := Nth(a.first, a.callback, a.calls), AtTick(a, clock);
    ExpiresWhenDue(a.time, a.rollover, d, clock);
    if Expires(a.time, a.rollover, clock) && a.callback(a.calls) > 0 {
      RenewedStandsFor(a.time, a.rollover, d, a.callback(a.calls), clock);
      assert Nth(b.first, b.callback, b.calls) == Renew(d, a.callback(a.calls));
    }
  }

  /** The callbacks made so far are exactly those whose ticks have come. */
  lemma RunsSoFar(a: Record, clock: nat, k: nat)
    requires OnSchedule(a, clock) && forall i | 0 <= i < k :: a.callback(i) > 0
    ensures k < |a.fired| <==> RunsAt(a.first, a.callback, k) <= clock
    ensures k < |a.fired| ==> a.fired[k] == RunsAt(a.first, a.callback, k)
  {
    if k > a.calls {
      RunsInOrder(a.first, a.callback, a.calls, k);
    }
  }

  /** The tick is the one that meets the next deadline. */
  predicate Due(a: Record, clock: nat) {
    RunTick(Nth(a.first, a.callback, a.calls)) == clock
  }

  /** A tick makes the callback exactly if it is due, and leaves the schedule of the alarm alone. */
  ghost predicate Ticked(a: Record, b: Record, clock: nat) {
    b.first == a.first && b.callback == a.callback && b.fired == if Due(a, clock) then a.fired + [clock] else a.fired
  }

  /** The last call of the callback returned zero. */
  predicate Ended(a: Record) {
    a.fired != [] && a.callback(|a.fired| - 1) == 0
  }

  /** One tick of an alarm that is on its schedule. */
  lemma TickRuns(a: Record, clock: nat)
    requires clock > 0 && OnSchedule(a, clock - 1)
    ensures Ticked(a, AtTick(a, clock), clock) && !Ended(a)
    ensures Ends(a, clock) <==> Ended(AtTick(a, clock))
  {
    hide StandsFor, Expires, Nth, RunTick;
    ExpiresWhenDue(a.time, a.rollover, Nth(a.first, a.callback, a.calls), clock);
  }

  /** The record after n more ticks; once its callback has returned zero no tick examines it. */
  function AfterTicks(a: Record, clock: nat, n: nat): Record {
    if n == 0 then a
    else
      var b := AfterTicks(a, clock, n - 1);
      if Ended(b) then b else AtTick(b, clock + n)
  }

  /** An alarm that the next ticks will find on its schedule, or that has ended on it. */
  predicate RunSoFar(b: Record, clock: nat) {
    if Ended(b) then
      && b.calls == |b.fired| && PastRuns(b, b.calls, clock)
      && forall k | 0 <= k < b.calls - 1 :: b.callback(k) > 0
    else OnSchedule(b, clock)
  }

  /** Over any number of ticks an alarm keeps its first deadline and its callback and runs on schedule. */
  lemma {:induction false} TicksKeepSchedule(a: Record, clock: nat, n: nat)
    requires OnSchedule(a, clock)
    ensures var b := AfterTicks(a, clock, n);
            b.first == a.first && b.callback == a.callback && RunSoFar(b, clock + n)
  {
    hide StandsFor, Expires, Nth, RunTick, Due;
    if n > 0 {
      TicksKeepSchedule(a, clock, n - 1);
      var b := AfterTicks(a, clock, n - 1);
      if !Ended(b) {
        hide AtTick;
        TickRuns(b, clock + n);
        TickKeepsSchedule(b, clock + n);
      }
    }
  }

  /** The callbacks of an alarm, over any number of ticks after it was started with a delay, are at the
      ticks at which an alarm of that delay and that callback runs, up to the first that returns zero. */
  lemma StartedAlarmRuns(a: Record, nticks: u32, clock: nat, n: nat, k: nat)
    requires OnSchedule(a, clock) && a.fired == [] && a.first == Start(nticks, clock)
    ensures var b, at := AfterTicks(a, clock, n), RunsAt(Start(nticks, clock), a.callback, k);
            && (k < |b.fired| <==> at <= clock + n && forall i | 0 <= i < k :: a.callback(i) > 0)
            && (k < |b.fired| ==> b.fired[k] == at)
  {
    TicksKeepSchedule(a, clock, n);
    hide StandsFor, AfterTicks, Nth, RunTick;
    var b := AfterTicks(a, clock, n);
    if k < |b.fired| {
      assert b.fired[k] <= clock + n;
    } else if !Ended(b) && forall i | 0 <= i < k :: a.callback(i) > 0 {
      RunsSoFar(b, clock + n, k);
    }
  }

  /** After alt_alarm_start the alarm is on its schedule. */
  lemma StartedOnSchedule(a: Record, nticks: u32, clock: nat)
    requires a.time == StartTime(nticks, clock) && a.rollover == StartRollover(nticks, clock)
    requires a.calls == 0 && a.fired == [] && a.first == Start(nticks, clock)
    ensures OnSchedule(a, clock)
  {}
}
