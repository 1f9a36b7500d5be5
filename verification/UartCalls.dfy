/** What a call of read or write has seen of the rings, and what it returns. */
module UartCalls {
  import opened Errno
  import opened Ring
  import opened UartMachine
  import opened UartSafety
  import opened Wrappers

  lemma InRange(s: State)
    requires Inv(s)
    ensures RxRange(s.rx) && TxRange(s.tx)
  {}

  // ---- Reading ----

  /** The ring is empty, with so much delivered; when gone is set, the host has been away for its time. */
  predicate EmptyAt(s: State, delivered: seq<byte>, gone: bool) {
    && RxRange(s.rx) && RxHeld(s.rx) == [] && s.rx.delivered == delivered
    && (gone ==> s.hostInactive >= s.timeout)
  }

  /** A call of read is under way in every state from run[k] to run[j]. */
  predicate Reads(run: seq<State>, k: nat, j: nat)
    requires j < |run|
  {
    forall m | k <= m <= j :: !run[m].reader.RIdle?
  }

  /** The call that is under way in run[j] found the ring empty, and nothing has been delivered since. */
  ghost predicate FoundEmpty(run: seq<State>, j: nat, gone: bool)
    requires j < |run|
  {
    exists k: nat | k <= j :: Reads(run, k, j) && EmptyAt(run[k], run[j].rx.delivered, gone)
  }

  lemma StillFoundEmpty(run: seq<State>, j: nat, gone: bool)
    requires j + 1 < |run| && !run[j + 1].reader.RIdle? && run[j + 1].rx.delivered == run[j].rx.delivered
    ensures FoundEmpty(run, j, gone) ==> FoundEmpty(run, j + 1, gone)
  {
    hide EmptyAt;
    if FoundEmpty(run, j, gone) {
      var k: nat :| k <= j && Reads(run, k, j) && EmptyAt(run[k], run[j].rx.delivered, gone);
      assert Reads(run, k, j + 1);
    }
  }

  lemma WeakerFoundEmpty(run: seq<State>, j: nat)
    requires j < |run| && FoundEmpty(run, j, true)
    ensures FoundEmpty(run, j, false)
  {
    var k: nat :| k <= j && Reads(run, k, j) && EmptyAt(run[k], run[j].rx.delivered, true);
    assert EmptyAt(run[k], run[j].rx.delivered, false);
  }

  lemma FindsEmpty(run: seq<State>, j: nat, gone: bool)
    requires j < |run| && RxRange(run[j].rx) && run[j].rx.inn == run[j].rx.out && !run[j].reader.RIdle?
    requires gone ==> run[j].hostInactive >= run[j].timeout
    ensures FoundEmpty(run, j, gone)
  {
    FullWhenNextIsOut(run[j].rx.buf, run[j].rx.out, run[j].rx.inn);
    assert Reads(run, j, j) && EmptyAt(run[j], run[j].rx.delivered, gone);
  }

  /** What the place of the reader says about what the call has found: an empty ring, and an empty ring
      when the host had been away for its time. */
  predicate ReaderKnows(s: State, empty: bool, gone: bool) {
    match s.reader
    case RLoadOut(c, inn) => inn == s.rx.out ==> empty
    case RSpin(c, inn) => inn == s.rx.out && empty
    case RAfterSpin(c, inn) => inn == s.rx.out && (inn == s.rx.inn ==> gone)
    case RFinish(c) => c.space > 0 ==> if c.got == [] && !c.nonblock then gone else empty
    case _ => ReaderEnables(s.reader) ==> s.reader.c.got != [] && (s.reader.c.space > 0 ==> empty)
  }

  /** What a step leaves of that, and what it may add to it. */
  predicate Learns(s: State, t: State, empty: bool, gone: bool, empty': bool, gone': bool) {
    && (!t.reader.RIdle? && t.rx.delivered == s.rx.delivered ==> (empty ==> empty') && (gone ==> gone'))
    && (!t.reader.RIdle? && t.rx.inn == t.rx.out ==> empty' && (t.hostInactive >= t.timeout ==> gone'))
    && (gone' ==> empty')
  }

  lemma ReaderStepKnows(s: State, t: State, empty: bool, gone: bool, empty': bool, gone': bool)
    requires Inv(s) && Can(s, ReaderStep) && DoReader(s) == Some(t)
    requires ReaderKnows(s, empty, gone) && Learns(s, t, empty, gone, empty', gone')
    ensures ReaderKnows(t, empty', gone')
  {
    if s.reader.RCopy? {
      RunKnows(s, t, empty', gone');
    } else {
      assert s.reader.RSpin? || s.reader.RAfterSpin? ==> s.reader.c.got == [];
      hide Inv, DoCopyOut, DoPublishOut, Available;
    }
  }

  /** After a run has been copied and published the call has bytes, and looks at the ring again when it
      wants more. */
  lemma RunKnows(s: State, t: State, empty: bool, gone: bool)
    requires Inv(s) && s.reader.RCopy? && DoReader(s) == Some(t)
    ensures ReaderKnows(t, empty, gone)
  {
    hide Contents, WriterInv, MaskInv, WakeInv, TxFifoInv;
  }

  /** The other parties leave the reader, its end of the ring and what has been delivered as they were,
      and do not make the ring empty. */
  lemma OthersLeaveRx(s: State, a: Step)
    requires Inv(s) && Can(s, a) && !a.ReaderStep? && !a.CallRead? && Do(s, a).Some?
    ensures var t := Do(s, a).value;
            && t.reader == s.reader && t.rx.out == s.rx.out && t.rx.delivered == s.rx.delivered
            && (t.rx.inn == t.rx.out ==> s.rx.inn == s.rx.out)
  {}

  lemma StepKnows(s: State, t: State, a: Step, empty: bool, gone: bool, empty': bool, gone': bool)
    requires Inv(s) && Can(s, a) && Do(s, a) == Some(t)
    requires ReaderKnows(s, empty, gone) && Learns(s, t, empty, gone, empty', gone')
    ensures ReaderKnows(t, empty', gone')
  {
    if a.ReaderStep? {
      hide Inv, DoReader, ReaderKnows;
      ReaderStepKnows(s, t, empty, gone, empty', gone');
    } else if !a.CallRead? {
      OthersLeaveRx(s, a);
      hide Inv, Can, Do;
    }
  }

  lemma RunLearns(run: seq<State>, j: nat)
    requires j + 1 < |run| && RxRange(run[j + 1].rx)
    ensures Learns(run[j], run[j + 1], FoundEmpty(run, j, false), FoundEmpty(run, j, true),
                   FoundEmpty(run, j + 1, false), FoundEmpty(run, j + 1, true))
  {
    hide FoundEmpty;
    var t := run[j + 1];
    if FoundEmpty(run, j + 1, true) {
      WeakerFoundEmpty(run, j + 1);
    }
    if !t.reader.RIdle? {
      if t.rx.delivered == run[j].rx.delivered {
        StillFoundEmpty(run, j, false);
        StillFoundEmpty(run, j, true);
      }
      if t.rx.inn == t.rx.out {
        FindsEmpty(run, j + 1, false);
        FindsEmpty(run, j + 1, t.hostInactive >= t.timeout);
      }
    }
  }

  /** In every state of every run the reader is where it is because of what its call has found. */
  lemma {:induction false} ReaderAlwaysKnows(run: seq<State>, steps: seq<Step>, j: nat)
    requires IsRun(run, steps) && j < |run|
    ensures ReaderKnows(run[j], FoundEmpty(run, j, false), FoundEmpty(run, j, true))
  {
    hide Inv, Learns, FoundEmpty, Do, Can;
    if j > 0 {
      hide ReaderKnows, IsRun;
      ReaderAlwaysKnows(run, steps, j - 1);
      InvAlways(run, steps, j - 1);
      InvAlways(run, steps, j);
      StepOfRun(run, steps, j - 1);
      InRange(run[j]);
      RunLearns(run, j - 1);
      StepKnows(run[j - 1], run[j], steps[j - 1], FoundEmpty(run, j - 1, false), FoundEmpty(run, j - 1, true),
                FoundEmpty(run, j, false), FoundEmpty(run, j, true));
    }
  }

  predicate Reading(run: seq<State>, i: nat, j: nat)
    requires j < |run|
  {
    forall k | i < k <= j :: !run[k].reader.RIdle?
  }

  lemma OthersLeaveReader(s: State, a: Step)
    requires Can(s, a) && !a.ReaderStep? && !a.CallRead?
    ensures Do(s, a).Some? ==> Do(s, a).value.reader == s.reader
  {}

  lemma ReaderStepKeepsCall(s: State)
    requires Inv(s) && Can(s, ReaderStep)
    ensures var t := DoReader(s);
            t.Some? && !t.value.reader.RIdle? ==>
              var c, c' := s.reader.c, t.value.reader.c;
              c'.before == c.before && c'.nonblock == c.nonblock && |c'.got| + c'.space == |c.got| + c.space
  {}

  /** What a call was made with, and how far it is. */
  predicate ReadFor(r: Reader, delivered: seq<byte>, nonblock: bool, space: nat) {
    !r.RIdle? ==> r.c.before == delivered && r.c.nonblock == nonblock && |r.c.got| + r.c.space == space
  }

  lemma StepKeepsReadFor(s: State, a: Step, delivered: seq<byte>, nonblock: bool, space: nat)
    requires Inv(s) && Can(s, a) && Do(s, a).Some? && !s.reader.RIdle? && ReadFor(s.reader, delivered, nonblock, space)
    ensures ReadFor(Do(s, a).value.reader, delivered, nonblock, space)
  {
    if a.ReaderStep? {
      ReaderStepKeepsCall(s);
      hide DoReader, Inv;
    } else {
      hide Inv;
      OthersLeaveReader(s, a);
    }
  }

  lemma CallReadBegins(s: State, a: Step)
    requires Can(s, a) && a.CallRead?
    ensures Do(s, a).Some? && ReadFor(Do(s, a).value.reader, s.rx.delivered, a.nonblock, a.space)
  {}

  lemma {:induction false} ReadSoFar(run: seq<State>, steps: seq<Step>, i: nat, j: nat)
    requires IsRun(run, steps) && i < j < |run| && Reading(run, i, j) && steps[i].CallRead?
    ensures ReadFor(run[j].reader, run[i].rx.delivered, steps[i].nonblock, steps[i].space)
  {
    hide Inv, Do, Can, ReadFor;
    assert Can(run[j - 1], steps[j - 1]) && Do(run[j - 1], steps[j - 1]) == Some(run[j]);
    if i == j - 1 {
      CallReadBegins(run[i], steps[i]);
    } else {
      InvAlways(run, steps, j - 1);
      ReadSoFar(run, steps, i, j - 1);
      StepKeepsReadFor(run[j - 1], steps[j - 1], run[i].rx.delivered, steps[i].nonblock, steps[i].space);
    }
  }

  /** A call of read, whatever happens around it: a positive result is the number of bytes stored at
      the caller's buffer, they are the bytes that left the queue during the call, and there are
      never more than asked for; any other result is an error and nothing left the queue. There are
      fewer than asked for only when the call found the ring empty after the last of them, and a call
      that may wait gives up only when it found that with the host away for its time. */
  lemma ReadReturns(run: seq<State>, steps: seq<Step>, i: nat, j: nat)
    requires IsRun(run, steps) && i < j < |run| && Reading(run, i, j)
    requires steps[i].CallRead? && run[j].reader.RFinish?
    ensures var c := run[j].reader.c;
            && run[j].rx.delivered == run[i].rx.delivered + c.got && |c.got| <= steps[i].space
            && (ReadResult(c) > 0 ==> ReadResult(c) == |c.got|)
            && (ReadResult(c) <= 0 ==> c.got == [] && ReadResult(c) == if steps[i].nonblock then -EWOULDBLOCK else -EIO)
            && (|c.got| < steps[i].space ==>
                exists k: nat | i < k <= j :: EmptyAt(run[k], run[j].rx.delivered, c.got == [] && !steps[i].nonblock))
  {
    ReadSoFar(run, steps, i, j);
    InvAlways(run, steps, j);
    var c := run[j].reader.c;
    if |c.got| < steps[i].space {
      ReaderAlwaysKnows(run, steps, j);
      StepOfRun(run, steps, i);
      hide Inv, Do, EmptyAt;
      var k: nat :| k <= j && Reads(run, k, j) && EmptyAt(run[k], run[j].rx.delivered, c.got == [] && !c.nonblock);
    }
  }

  /** A test of the wait loop of read goes on waiting exactly while the ring is empty and the host is
      there; after the loop the call gives up exactly when the ring is still empty. */
  lemma ReaderWaitsIff(run: seq<State>, steps: seq<Step>, i: nat)
    requires IsRun(run, steps) && i < |steps| && steps[i].ReaderStep?
    ensures RxRange(run[i].rx)
    ensures run[i].reader.RSpin? ==>
            (run[i + 1].reader == run[i].reader <==>
             RxHeld(run[i].rx) == [] && run[i].hostInactive < run[i].timeout)
    ensures run[i].reader.RAfterSpin? ==> (run[i + 1].reader.RFinish? <==> RxHeld(run[i].rx) == [])
  {
    InvAlways(run, steps, i);
    ReaderAlwaysKnows(run, steps, i);
    StepOfRun(run, steps, i);
    FullWhenNextIsOut(run[i].rx.buf, run[i].rx.out, run[i].rx.inn);
    hide Inv, Contents, FoundEmpty;
  }

  // ---- Writing ----

  /** The ring is full, with so much accepted. */
  predicate FullAt(s: State, accepted: seq<byte>) {
    TxRange(s.tx) && |TxHeld(s.tx)| == |s.tx.buf| - 1 && s.tx.accepted == accepted
  }

  /** The host has been away, with so much accepted. */
  predicate AwayAt(s: State, accepted: seq<byte>) {
    s.hostInactive > 0 && s.tx.accepted == accepted
  }

  /** A call of write is under way in every state from run[k] to run[j]. */
  predicate Writes(run: seq<State>, k: nat, j: nat)
    requires j < |run|
  {
    forall m | k <= m <= j :: !run[m].writer.WIdle?
  }

  /** The call that is under way in run[j] found the ring full, and nothing has been accepted since. */
  ghost predicate FoundFull(run: seq<State>, j: nat)
    requires j < |run|
  {
    exists k: nat | k <= j :: Writes(run, k, j) && FullAt(run[k], run[j].tx.accepted)
  }

  ghost predicate FoundAway(run: seq<State>, j: nat)
    requires j < |run|
  {
    exists k: nat | k <= j :: Writes(run, k, j) && AwayAt(run[k], run[j].tx.accepted)
  }

  lemma StillFoundFull(run: seq<State>, j: nat)
    requires j + 1 < |run| && !run[j + 1].writer.WIdle? && run[j + 1].tx.accepted == run[j].tx.accepted
    ensures FoundFull(run, j) ==> FoundFull(run, j + 1)
    ensures FoundAway(run, j) ==> FoundAway(run, j + 1)
  {
    hide FullAt, AwayAt;
    if FoundFull(run, j) {
      var k: nat :| k <= j && Writes(run, k, j) && FullAt(run[k], run[j].tx.accepted);
      assert Writes(run, k, j + 1);
    }
    if FoundAway(run, j) {
      var k: nat :| k <= j && Writes(run, k, j) && AwayAt(run[k], run[j].tx.accepted);
      assert Writes(run, k, j + 1);
    }
  }

  lemma FindsFull(run: seq<State>, j: nat)
    requires j < |run| && TxRange(run[j].tx) && !run[j].writer.WIdle?
    ensures Wrap(run[j].tx.inn + 1, |run[j].tx.buf|) == run[j].tx.out ==> FoundFull(run, j)
    ensures run[j].hostInactive > 0 ==> FoundAway(run, j)
  {
    var tx := run[j].tx;
    FullWhenNextIsOut(tx.buf, tx.out, tx.inn);
    assert Writes(run, j, j);
    assert Wrap(tx.inn + 1, |tx.buf|) == tx.out ==> FullAt(run[j], tx.accepted);
    assert run[j].hostInactive > 0 ==> AwayAt(run[j], tx.accepted);
  }

  /** A snapshot of tx_out says that the ring is full. */
  predicate SeenFull(tx: TxSide, out: nat) {
    |tx.buf| > 0 && Wrap(tx.inn + 1, |tx.buf|) == out
  }

  function SnapshotOut(w: Writer): nat
    requires WriterEnables(w) || w.WSpin?
  {
    w.out
  }

  /** What the place of the writer says about what the call has found: a full ring, and a host that had
      been away. */
  predicate WriterKnows(s: State, full: bool, away: bool) {
    match s.writer
    case WSpin(c, out) => SeenFull(s.tx, out) && full
    case WAfterSpin(c) => full
    case WFinish(c) => c.done < |c.data| ==> full && (c.nonblock || away)
    case _ =>
      WriterEnables(s.writer) && s.writer.c.done < |s.writer.c.data| ==>
        SeenFull(s.tx, SnapshotOut(s.writer)) && full
  }

  predicate WriterLearns(s: State, t: State, full: bool, away: bool, full': bool, away': bool) {
    && (!t.writer.WIdle? && t.tx.accepted == s.tx.accepted ==> (full ==> full') && (away ==> away'))
    && (!t.writer.WIdle? && SeenFull(t.tx, t.tx.out) ==> full')
    && (!t.writer.WIdle? && t.hostInactive > 0 ==> away')
  }

  /** The three ways to compute n give zero exactly for a full ring. */
  lemma NoRoomIffFull(len: nat, inn: nat, out: nat)
    requires inn < len && out < len && len >= 2
    ensures Room(len, inn, out) == 0 <==> Wrap(inn + 1, len) == out
  {}

  lemma WriterStepKnows(s: State, t: State, full: bool, away: bool, full': bool, away': bool)
    requires Inv(s) && Can(s, WriterStep) && DoWriter(s) == Some(t)
    requires WriterKnows(s, full, away) && WriterLearns(s, t, full, away, full', away')
    ensures WriterKnows(t, full', away')
  {
    if s.writer.WCopy? {
      WriterRunKnows(s, t, full', away');
    } else if s.writer.WLoadOut? {
      TxSnapshotKnows(s, t, full', away');
    } else if WriterEnables(s.writer) {
      hide Inv, Wrap;
      EnableKnows(s, t, full, away, full', away');
    } else {
      hide Inv, DoCopyIn, DoPublishIn, AfterTxSnapshot, DoWriterEnable, Wrap;
    }
  }

  lemma WriterRunKnows(s: State, t: State, full: bool, away: bool)
    requires s.writer.WCopy? && DoWriter(s) == Some(t)
    ensures WriterKnows(t, full, away)
  {
    hide Wrap;
  }

  lemma EnableKnows(s: State, t: State, full: bool, away: bool, full': bool, away': bool)
    requires WriterEnables(s.writer) && t == DoWriterEnable(s)
    requires WriterKnows(s, full, away) && WriterLearns(s, t, full, away, full', away')
    ensures WriterKnows(t, full', away')
  {
    hide Wrap;
  }

  lemma TxSnapshotKnows(s: State, t: State, full: bool, away: bool)
    requires Inv(s) && s.writer.WLoadOut? && DoWriter(s) == Some(t) && (SeenFull(t.tx, t.tx.out) ==> full)
    ensures WriterKnows(t, full, away)
  {
    NoRoomIffFull(|s.tx.buf|, s.writer.inn, s.tx.out);
    assert s.writer.inn == s.tx.inn;
    hide Inv, Wrap, Room;
  }

  lemma OthersLeaveTx(s: State, a: Step)
    requires Can(s, a) && !a.WriterStep? && !a.CallWrite? && Do(s, a).Some?
    ensures var t := Do(s, a).value;
            && t.writer == s.writer && t.tx.inn == s.tx.inn && t.tx.buf == s.tx.buf
            && t.tx.accepted == s.tx.accepted
  {}

  lemma StepTeachesWriter(s: State, t: State, a: Step, full: bool, away: bool, full': bool, away': bool)
    requires Inv(s) && Can(s, a) && Do(s, a) == Some(t)
    requires WriterKnows(s, full, away) && WriterLearns(s, t, full, away, full', away')
    ensures WriterKnows(t, full', away')
  {
    if a.WriterStep? {
      hide Inv, DoWriter, WriterKnows;
      WriterStepKnows(s, t, full, away, full', away');
    } else if !a.CallWrite? {
      OthersLeaveTx(s, a);
      hide Inv, Can, Do, Wrap;
    }
  }

  lemma RunTeachesWriter(run: seq<State>, j: nat)
    requires j + 1 < |run| && TxRange(run[j + 1].tx)
    ensures WriterLearns(run[j], run[j + 1], FoundFull(run, j), FoundAway(run, j),
                         FoundFull(run, j + 1), FoundAway(run, j + 1))
  {
    hide FoundFull, FoundAway, Wrap;
    if !run[j + 1].writer.WIdle? {
      FindsFull(run, j + 1);
      if run[j + 1].tx.accepted == run[j].tx.accepted {
        StillFoundFull(run, j);
      }
    }
  }

  /** In every state of every run the writer is where it is because of what its call has found. */
  lemma {:induction false} WriterAlwaysKnows(run: seq<State>, steps: seq<Step>, j: nat)
    requires IsRun(run, steps) && j < |run|
    ensures WriterKnows(run[j], FoundFull(run, j), FoundAway(run, j))
  {
    hide Inv, WriterLearns, FoundFull, FoundAway, Do, Can;
    if j > 0 {
      hide WriterKnows, IsRun;
      WriterAlwaysKnows(run, steps, j - 1);
      InvAlways(run, steps, j - 1);
      InvAlways(run, steps, j);
      StepOfRun(run, steps, j - 1);
      InRange(run[j]);
      RunTeachesWriter(run, j - 1);
      StepTeachesWriter(run[j - 1], run[j], steps[j - 1], FoundFull(run, j - 1), FoundAway(run, j - 1),
                        FoundFull(run, j), FoundAway(run, j));
    }
  }

  predicate Writing(run: seq<State>, i: nat, j: nat)
    requires j < |run|
  {
    forall k | i < k <= j :: !run[k].writer.WIdle?
  }

  predicate WriteFor(w: Writer, accepted: seq<byte>, nonblock: bool, data: seq<byte>) {
    !w.WIdle? ==> w.c.before == accepted && w.c.nonblock == nonblock && w.c.data == data
  }

  lemma StepKeepsWriteFor(s: State, a: Step, accepted: seq<byte>, nonblock: bool, data: seq<byte>)
    requires Can(s, a) && Do(s, a).Some? && !s.writer.WIdle? && WriteFor(s.writer, accepted, nonblock, data)
    ensures WriteFor(Do(s, a).value.writer, accepted, nonblock, data)
  {}

  lemma CallWriteBegins(s: State, a: Step)
    requires Can(s, a) && a.CallWrite?
    ensures Do(s, a).Some? && WriteFor(Do(s, a).value.writer, s.tx.accepted, a.nonblock, a.data)
  {}

  lemma {:induction false} WriteSoFar(run: seq<State>, steps: seq<Step>, i: nat, j: nat)
    requires IsRun(run, steps) && i < j < |run| && Writing(run, i, j) && steps[i].CallWrite?
    ensures WriteFor(run[j].writer, run[i].tx.accepted, steps[i].nonblock, steps[i].data)
  {
    hide Do, Can, WriteFor;
    assert Can(run[j - 1], steps[j - 1]) && Do(run[j - 1], steps[j - 1]) == Some(run[j]);
    if i == j - 1 {
      CallWriteBegins(run[i], steps[i]);
    } else {
      WriteSoFar(run, steps, i, j - 1);
      StepKeepsWriteFor(run[j - 1], steps[j - 1], run[i].tx.accepted, steps[i].nonblock, steps[i].data);
    }
  }

  /** A call of write, whatever happens around it: a positive result is the length of the prefix of
      the caller's bytes that joined the queue during the call; any other result is an error and
      nothing joined the queue. Fewer than all of them joined only when the call found the ring full
      after the last of them, and a call that may wait gives up only when it found the host away. */
  lemma WriteReturns(run: seq<State>, steps: seq<Step>, i: nat, j: nat)
    requires IsRun(run, steps) && i < j < |run| && Writing(run, i, j)
    requires steps[i].CallWrite? && run[j].writer.WFinish?
    ensures var c, data := run[j].writer.c, steps[i].data;
            && (WriteResult(c) > 0 ==> WriteResult(c) <= |data| &&
                                       run[j].tx.accepted == run[i].tx.accepted + data[..WriteResult(c)])
            && (WriteResult(c) <= 0 ==> run[j].tx.accepted == run[i].tx.accepted &&
                                        WriteResult(c) == if steps[i].nonblock then -EWOULDBLOCK else -EIO)
            && (|run[j].tx.accepted| < |run[i].tx.accepted| + |data| ==>
                && (exists k: nat | i < k <= j :: FullAt(run[k], run[j].tx.accepted))
                && (!steps[i].nonblock ==> exists k: nat | i < k <= j :: AwayAt(run[k], run[j].tx.accepted)))
  {
    WriteSoFar(run, steps, i, j);
    InvAlways(run, steps, j);
    var c := run[j].writer.c;
    if c.done < |c.data| {
      WriterAlwaysKnows(run, steps, j);
      StepOfRun(run, steps, i);
      hide Inv, Do, FullAt, AwayAt;
      var k: nat :| k <= j && Writes(run, k, j) && FullAt(run[k], run[j].tx.accepted);
      if !c.nonblock {
        var m: nat :| m <= j && Writes(run, m, j) && AwayAt(run[m], run[j].tx.accepted);
      }
    }
  }

  /** A test of the wait loop of write goes on waiting exactly while the ring is full and the host is
      there; after the loop the call gives up exactly when the host has been away. */
  lemma WriterWaitsIff(run: seq<State>, steps: seq<Step>, i: nat)
    requires IsRun(run, steps) && i < |steps| && steps[i].WriterStep?
    ensures TxRange(run[i].tx)
    ensures run[i].writer.WSpin? ==>
            (run[i + 1].writer == run[i].writer <==>
             |TxHeld(run[i].tx)| == |run[i].tx.buf| - 1 && run[i].hostInactive < run[i].timeout)
    ensures run[i].writer.WAfterSpin? ==> (run[i + 1].writer.WFinish? <==> run[i].hostInactive > 0)
  {
    InvAlways(run, steps, i);
    WriterAlwaysKnows(run, steps, i);
    StepOfRun(run, steps, i);
    FullWhenNextIsOut(run[i].tx.buf, run[i].tx.out, run[i].tx.inn);
    assert TxRange(run[i].tx);
    hide Inv, Contents, FoundFull, FoundAway, Wrap;
  }

  // ---- How long the host has been away ----

  /** The expiries of the interval timer since the last one that found the host active. */
  function Quiet(steps: seq<Step>, i: nat): nat
    requires i <= |steps|
  {
    if i == 0 then 0
    else match steps[i - 1]
      case Timer(active) => if active then 0 else Quiet(steps, i - 1) + 1
      case _ => Quiet(steps, i - 1)
  }

  /** host_inactive counts them, up to the largest count that is never taken for a driver without a
      timer. */
  lemma {:induction false} HostInactiveCounts(run: seq<State>, steps: seq<Step>, i: nat)
    requires IsRun(run, steps) && i < |run|
    ensures run[i].hostInactive == if Quiet(steps, i) <= INT_MAX - 2 then Quiet(steps, i) else INT_MAX - 2
  {
    if i > 0 {
      HostInactiveCounts(run, steps, i - 1);
      StepOfRun(run, steps, i - 1);
      hide DoReader, DoWriter, IsRun;
      TimerCounts(run[i - 1], steps[i - 1]);
    }
  }

  lemma TimerCounts(s: State, a: Step)
    requires Can(s, a) && Do(s, a).Some?
    ensures var n := Do(s, a).value.hostInactive;
            if a == Timer(true) then n == 0
            else if a == Timer(false) && s.hostInactive < INT_MAX - 2 then n == s.hostInactive + 1
            else n == s.hostInactive
  {}
}
