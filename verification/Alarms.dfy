/** The list of registered alarms and the tick that processes it. */
module Alarms {
  import opened AlarmTime
  import opened Errno
  import opened Words

  class Alarm {
    var next: Alarm
    var previous: Alarm
    var time: u32
    var rollover: bool
    /** What the callback returns when it is called for the k-th time; calls counts them. */
    var callback: nat -> u32
    var calls: nat
    ghost var first: Deadline
    ghost var fired: seq<nat>

    constructor ()
      ensures next == previous == this
    {
      next, previous, time, rollover, callback, calls := this, this, 0, false, k => 0, 0;
      first, fired := Deadline(0, false), [];
    }

    ghost function View(): Record
      reads this
    {
      Record(time, rollover, callback, calls, first, fired)
    }
  }

  function After<T>(ring: seq<T>, i: nat): T
    requires i < |ring|
  {
    ring[if i == |ring| - 1 then 0 else i + 1]
  }

  function Ahead<T>(ring: seq<T>, i: nat): T
    requires i < |ring|
  {
    ring[if i == 0 then |ring| - 1 else i - 1]
  }

  ghost predicate LinkedAt(ring: seq<Alarm>, i: nat)
    requires i < |ring|
    reads ring`next, ring`previous
  {
    ring[i].next == After(ring, i) && ring[i].previous == Ahead(ring, i)
  }

  ghost predicate Distinct(ring: seq<Alarm>) {
    forall i, j | 0 <= i < j < |ring| :: ring[i] != ring[j]
  }

  /** The entries form a doubly linked ring in this order. */
  ghost predicate Linked(ring: seq<Alarm>)
    reads ring`next, ring`previous
  {
    Distinct(ring) && forall i | 0 <= i < |ring| :: LinkedAt(ring, i)
  }

  /** s without the entry in place i; s itself when there is no such place. */
  function Without<T>(s: seq<T>, i: nat): seq<T> {
    if i < |s| then s[..i] + s[i + 1..] else s
  }

  ghost function Views(ring: seq<Alarm>): (r: seq<Record>)
    reads ring
    ensures |r| == |ring|
  {
    seq(|ring|, i requires 0 <= i < |ring| reads ring => ring[i].View())
  }

  /** All alarms but the head are on their schedule. */
  predicate Scheduled(records: seq<Record>, clock: nat) {
    forall k | 0 < k < |records| :: OnSchedule(records[k], clock)
  }

  lemma OneMoreScheduled(was: seq<Record>, records: seq<Record>, clock: nat)
    requires |records| == |was| + 1 && Scheduled(was, clock)
    requires |records| > 1 ==> OnSchedule(records[1], clock)
    requires forall k | 1 < k < |records| :: records[k] == was[k - 1]
    ensures Scheduled(records, clock)
  {}

  lemma OneLessScheduled(was: seq<Record>, i: nat, clock: nat)
    requires i > 0
    ensures Scheduled(was, clock) ==> Scheduled(Without(was, i), clock)
  {
    assert forall k | 0 < k < |Without(was, i)| :: Without(was, i)[k] == was[if k < i then k else k + 1];
  }

  /** The alarms in places 1 to n - 1 that the tick at clock does not remove, in order, from their
      records before it. */
  function Survivors<T>(alarms: seq<T>, records: seq<Record>, clock: nat, n: nat): seq<T>
    requires n <= |alarms| == |records|
  {
    if n <= 1 then [] else
      var rest := Survivors(alarms, records, clock, n - 1);
      if Ends(records[n - 1], clock) then rest else rest + [alarms[n - 1]]
  }

  lemma {:induction false} SurvivorStays<T>(alarms: seq<T>, records: seq<Record>, clock: nat, n: nat, j: nat)
    returns (k: nat)
    requires n <= |alarms| == |records| && j < |Survivors(alarms, records, clock, n)|
    ensures 0 < k < n && Survivors(alarms, records, clock, n)[j] == alarms[k] && !Ends(records[k], clock)
  {
    if j < |Survivors(alarms, records, clock, n - 1)| {
      k := SurvivorStays(alarms, records, clock, n - 1, j);
    } else {
      k := n - 1;
    }
  }

  /** Each alarm that did not end is a survivor, after those before it. */
  lemma {:induction false} SurvivorPlace<T>(alarms: seq<T>, records: seq<Record>, clock: nat, n: nat, k: nat)
    requires 0 < k < n <= |alarms| == |records| && !Ends(records[k], clock)
    ensures |Survivors(alarms, records, clock, k)| < |Survivors(alarms, records, clock, n)|
    ensures Survivors(alarms, records, clock, n)[|Survivors(alarms, records, clock, k)|] == alarms[k]
  {
    if k < n - 1 {
      SurvivorPlace(alarms, records, clock, n - 1, k);
    }
  }

  lemma WithoutWithin<T>(s: seq<T>, i: nat, all: seq<T>)
    requires i < |s| && forall j | 0 <= j < |s| :: s[j] in all
    ensures forall j | 0 <= j < |Without(s, i)| :: Without(s, i)[j] in all
  {}

  lemma OneMore(alarms: seq<Alarm>, records: seq<Record>, clock: nat, i: nat)
    requires 1 <= i < |alarms| == |records|
    ensures Survivors(alarms, records, clock, i + 1) ==
            Survivors(alarms, records, clock, i) + (if Ends(records[i], clock) then [] else [alarms[i]])
  {}

  lemma NextInRing(ring: seq<Alarm>, i: nat)
    requires i < |ring| && Linked(ring)
    ensures ring[i].next == After(ring, i) && Distinct(ring)
  {
    assert LinkedAt(ring, i);
  }

  /** Where the tick is in the ring when it has kept some alarms and has those from i on to examine. */
  function During<T>(head: T, kept: seq<T>, all: seq<T>, i: nat): seq<T>
    requires i <= |all|
  {
    [head] + kept + all[i..]
  }

  lemma Position<T>(head: T, kept: seq<T>, all: seq<T>, i: nat)
    requires i < |all|
    ensures var ring := During(head, kept, all, i);
            var p := 1 + |kept|;
            && p < |ring| && ring[0] == head
            && ring[p] == all[i] && After(ring, p) == (if i + 1 < |all| then all[i + 1] else head)
            && ring == During(head, kept + [all[i]], all, i + 1)
            && Without(ring, p) == During(head, kept + [], all, i + 1)
  {}

  lemma DuringAll<T>(head: T, kept: seq<T>, all: seq<T>)
    ensures During(head, kept, all, |all|) == [head] + kept
  {}

  /** The alarms before place i have been examined by the tick, and the others not yet. */
  ghost predicate Examined(alarms: seq<Alarm>, records: seq<Record>, i: nat, clock: nat)
    requires |alarms| == |records|
    reads alarms
  {
    forall k | 0 < k < |alarms| :: alarms[k].View() == if k < i then AtTick(records[k], clock) else records[k]
  }

  /** What the tick's loop starts with. */
  lemma Begin(ring: seq<Alarm>, clock: nat)
    requires |ring| > 0 && Linked(ring)
    ensures Distinct(ring) && ring == During(ring[0], [], ring, 1) && forall j | 0 <= j < |ring| :: ring[j] in ring
    ensures ring[0].next == if 1 < |ring| then ring[1] else ring[0]
    ensures Survivors(ring, Views(ring), clock, 1) == []
    ensures Examined(ring, Views(ring), 1, clock)
  {
    NextInRing(ring, 0);
  }

  lemma AllOnSchedule(head: Alarm, all: seq<Alarm>, records: seq<Record>, clock: nat)
    requires |all| == |records| && clock > 0 && Scheduled(records, clock - 1)
    requires Examined(all, records, |all|, clock)
    ensures Scheduled(Views([head] + Survivors(all, records, clock, |all|)), clock)
  {
    hide OnSchedule, Ends, AtTick;
    var ring := [head] + Survivors(all, records, clock, |all|);
    forall j | 0 < j < |ring|
      ensures OnSchedule(ring[j].View(), clock)
    {
      var k := SurvivorStays(all, records, clock, |all|, j - 1);
      TickKeepsSchedule(records[k], clock);
    }
  }

  lemma AllTicked(alarms: seq<Alarm>, records: seq<Record>, clock: nat)
    requires |alarms| == |records| && clock > 0 && Scheduled(records, clock - 1)
    requires Examined(alarms, records, |alarms|, clock)
    ensures forall k | 0 < k < |alarms| :: Ticked(records[k], alarms[k].View(), clock)
  {
    hide OnSchedule, AtTick, Ticked;
    forall k | 0 < k < |alarms|
      ensures Ticked(records[k], alarms[k].View(), clock)
    {
      TickRuns(records[k], clock);
    }
  }

  class AlarmSystem {
    /** alt_alarm_list */
    const head: Alarm
    var nticks: u32
    var tickRate: u32
    ghost var clock: nat
    /** The head and the registered alarms, the latest first. */
    ghost var ring: seq<Alarm>

    ghost predicate Valid()
      reads this, ring
    {
      && |ring| > 0 && ring[0] == head && Linked(ring)
      && nticks == Count(clock)
      && Scheduled(Views(ring), clock)
    }

    constructor (rate: u32)
      ensures Valid() && clock == 0 && ring == [head] && fresh(head) && tickRate == rate
    {
      var h := new Alarm();
      head, nticks, tickRate, clock, ring := h, 0, rate, 0, [h];
    }

    method AlarmStart(alarm: Alarm?, delay: u32, callback: nat -> u32) returns (r: int)
      requires Valid() && (alarm == null || alarm !in ring)
      modifies this`ring, ring, alarm
      ensures Valid()
      ensures r == if tickRate == 0 then -ENOTSUP else if alarm == null then -EINVAL else 0
      ensures r != 0 ==> ring == old(ring) && (alarm != null ==> alarm.View() == old(alarm.View()))
      ensures r == 0 ==> ring == [head, alarm] + old(ring)[1..]
      ensures r == 0 ==> alarm.first == Start(delay, clock) && alarm.fired == [] && alarm.callback == callback
      ensures forall a | a in old(ring) :: a.View() == old(a.View())
    {
      hide Linked, Scheduled, OnSchedule, Start;
      if tickRate == 0 {
        return -ENOTSUP;
      }
      if alarm == null {
        return -EINVAL;
      }
      alarm.callback, alarm.calls := callback, 0;
      SetTime(alarm, delay);
      Register(alarm);
      return 0;
    }

    /** The time and the flag of a started alarm. */
    method SetTime(alarm: Alarm, delay: u32)
      requires nticks == Count(clock) && alarm.calls == 0
      modifies alarm`time, alarm`rollover, alarm`first, alarm`fired
      ensures alarm.first == Start(delay, clock) && alarm.fired == [] && OnSchedule(alarm.View(), clock)
    {
      hide OnSchedule, Start;
      alarm.time := (delay + nticks + 1) % WORD;
      alarm.rollover := alarm.time < nticks;
      alarm.first, alarm.fired := Start(delay, clock), [];
      StartedOnSchedule(alarm.View(), delay, clock);
    }

    /** An alarm on its schedule joins the others. */
    method Register(alarm: Alarm)
      requires Valid() && alarm !in ring && OnSchedule(alarm.View(), clock)
      modifies this`ring, ring`next, ring`previous, alarm`next, alarm`previous
      ensures Valid() && ring == [head, alarm] + old(ring)[1..]
      ensures alarm.View() == old(alarm.View()) && forall a | a in old(ring) :: a.View() == old(a.View())
    {
      hide Linked, Scheduled, OnSchedule;
      ghost var was := Views(ring);
      Insert(alarm);
      assert forall k | 1 < k < |ring| :: Views(ring)[k] == was[k - 1];
      OneMoreScheduled(was, Views(ring), clock);
    }

    /** alt_llist_insert at the head of the ring. */
    method Insert(entry: Alarm)
      requires |ring| > 0 && ring[0] == head && Linked(ring) && entry !in ring
      modifies this`ring, ring`next, ring`previous, entry`next, entry`previous
      ensures Linked(ring) && ring == [head, entry] + old(ring)[1..]
    {
      ghost var r0 := ring;
      assert LinkedAt(r0, 0) && head.next == After(r0, 0);
      label L:
      entry.previous, entry.next := head, head.next;
      head.next.previous := entry;
      head.next := entry;
      ring := [head, entry] + ring[1..];
      forall i | 0 <= i < |ring|
        ensures LinkedAt(ring, i)
      {
        if i >= 2 {
          assert old@L(LinkedAt(r0, i - 1)) && ring[i] == r0[i - 1];
        }
      }
    }

    /** alt_llist_remove of the entry in place i of the ring; an entry that is in no ring has no place
        in this one and points to itself. */
    method Unlink(entry: Alarm, ghost i: nat)
      requires |ring| > 0 && Linked(ring) && i > 0
      requires if i < |ring| then ring[i] == entry else entry !in ring && entry.next == entry.previous == entry
      modifies this`ring, ring`next, ring`previous, entry`next, entry`previous
      ensures ring == Without(old(ring), i) && Linked(ring) && entry !in ring
      ensures entry.next == entry.previous == entry
      ensures i >= |old(ring)| ==> unchanged(set a | a in ring)
    {
      ghost var r0 := ring;
      assert i < |r0| ==> LinkedAt(r0, i) && entry.next == After(r0, i) && entry.previous == Ahead(r0, i);
      label L:
      entry.next.previous := entry.previous;
      entry.previous.next := entry.next;
      entry.previous, entry.next := entry, entry;
      ring := Without(ring, i);
      forall k | 0 <= k < |ring|
        ensures LinkedAt(ring, k)
      {
        assert if k < i then old@L(LinkedAt(r0, k)) && ring[k] == r0[k]
               else old@L(LinkedAt(r0, k + 1)) && ring[k] == r0[k + 1];
      }
    }

    /** Removes the alarm in place i of the ring and makes it point to itself; an alarm that is not
        registered has no place, and stopping it does nothing. The other alarms stay on schedule. */
    method AlarmStop(alarm: Alarm, ghost i: nat)
      requires |ring| > 0 && Linked(ring) && i > 0
      requires if i < |ring| then ring[i] == alarm else alarm !in ring && alarm.next == alarm.previous == alarm
      modifies this`ring, ring`next, ring`previous, alarm`next, alarm`previous
      ensures ring == Without(old(ring), i) && Linked(ring) && alarm !in ring
      ensures alarm.next == alarm.previous == alarm
      ensures i >= |old(ring)| ==> unchanged(set a | a in ring)
      ensures forall a | a in old(ring) :: a.View() == old(a.View())
      ensures old(Valid()) ==> Valid()
    {
      hide Scheduled, Linked;
      ghost var was := Views(ring);
      Unlink(alarm, i);
      assert Views(ring) == Without(was, i);
      OneLessScheduled(was, i, clock);
    }

    /** The body of alt_tick's loop: examines the alarm in place i of the ring. */
    method Examine(alarm: Alarm, ghost i: nat)
      requires 0 < i < |ring| && ring[i] == alarm && Linked(ring)
      requires nticks == Count(clock) && clock > 0 && OnSchedule(alarm.View(), clock - 1)
      modifies this`ring, ring`next, ring`previous, alarm
      ensures alarm.View() == AtTick(old(alarm.View()), clock)
      ensures Ticked(old(alarm.View()), alarm.View(), clock)
      ensures Linked(ring) && ring == if Ends(old(alarm.View()), clock) then Without(old(ring), i) else old(ring)
      ensures forall a | a in old(ring) && a != alarm :: a.View() == old(a.View())
    {
      hide Linked, OnSchedule, Ends, Ticked;
      ghost var before := alarm.View();
      TickKeepsSchedule(before, clock);
      TickRuns(before, clock);
      if alarm.rollover && nticks == 0 {
        alarm.rollover := false;
      }
      if alarm.time <= nticks && !alarm.rollover {
        var period := alarm.callback(alarm.calls);
        alarm.calls, alarm.fired := alarm.calls + 1, alarm.fired + [clock];
        if period == 0 {
          AlarmStop(alarm, i);
        } else {
          alarm.time := (alarm.time + period) % WORD;
          if alarm.time < nticks {
            alarm.rollover := true;
          }
        }
      }
    }

    /** One pass of the loop, when the tick has kept some of the alarms before place i of the ring
        that it found, and has all those from i on to examine. */
    method Pass(alarm: Alarm, ghost all: seq<Alarm>, ghost records: seq<Record>, ghost kept: seq<Alarm>, ghost i: nat)
      returns (next: Alarm, ghost left: seq<Alarm>)
      requires 0 < i < |all| == |records| && alarm == all[i] && Distinct(all)
      requires Linked(ring) && ring == During(head, kept, all, i) && forall j | 0 <= j < |ring| :: ring[j] in all
      requires nticks == Count(clock) && clock > 0 && Scheduled(records, clock - 1)
      requires Examined(all, records, i, clock)
      modifies this`ring, ring
      ensures Linked(ring) && next == if i + 1 < |all| then all[i + 1] else head
      ensures left == kept + (if Ends(records[i], clock) then [] else [alarm])
      ensures ring == During(head, left, all, i + 1)
      ensures Examined(all, records, i + 1, clock) && forall j | 0 <= j < |ring| :: ring[j] in all
    {
      hide Linked, OnSchedule, Ends, AtTick, Without, After, During;
      Position(head, kept, all, i);
      NextInRing(ring, 1 + |kept|);
      next := alarm.next;
      assert alarm in ring;
      WithoutWithin(ring, 1 + |kept|, all);
      Examine(alarm, 1 + |kept|);
      left := kept + if Ends(records[i], clock) then [] else [alarm];
    }

    /** The loop of alt_tick examines every registered alarm once, although alarms are unlinked on
        the way: those that their callback ends are removed and the others keep their order. */
    method ProcessAlarms()
      requires |ring| > 0 && ring[0] == head && Linked(ring)
      requires nticks == Count(clock) && clock > 0 && Scheduled(Views(ring), clock - 1)
      modifies this`ring, ring
      ensures |ring| > 0 && ring[0] == head && Linked(ring) && Scheduled(Views(ring), clock)
      ensures ring == [head] + Survivors(old(ring), old(Views(ring)), clock, |old(ring)|)
      ensures Examined(old(ring), old(Views(ring)), |old(ring)|, clock)
      ensures forall k | 0 < k < |old(ring)| :: Ticked(old(Views(ring))[k], old(ring)[k].View(), clock)
    {
      hide *;
      ghost var all, records, i, kept := ring, Views(ring), 1, [];
      Begin(all, clock);
      var alarm := head.next;
      while alarm != head
        invariant 1 <= i <= |all| && alarm == if i < |all| then all[i] else head
        invariant Linked(ring) && ring == During(head, kept, all, i)
        invariant forall j | 0 <= j < |ring| :: ring[j] in all
        invariant kept == Survivors(all, records, clock, i)
        invariant Examined(all, records, i, clock)
        decreases |all| - i
      {
        OneMore(all, records, clock, i);
        alarm, kept := Pass(alarm, all, records, kept, i);
        i := i + 1;
      }
      AllOnSchedule(head, all, records, clock);
      AllTicked(all, records, clock);
      DuringAll(head, kept, all);
    }

    /** At one tick each registered alarm runs exactly if its deadline is met, and keeps its schedule. */
    method Tick()
      requires Valid()
      modifies this`ring, this`nticks, this`clock, ring
      ensures Valid() && clock == old(clock) + 1
      ensures forall k | 0 < k < |old(ring)| :: Ticked(old(Views(ring))[k], old(ring)[k].View(), clock)
      ensures ring == [head] + Survivors(old(ring), old(Views(ring)), clock, |old(ring)|)
      ensures forall k | 0 < k < |old(ring)| :: old(ring)[k].View() == AtTick(old(Views(ring))[k], clock)
    {
      hide Linked, Scheduled, AtTick, Survivors, Ticked;
      nticks := (nticks + 1) % WORD;
      clock := clock + 1;
      ProcessAlarms();
    }
  }
}
