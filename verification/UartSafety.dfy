/** The invariant of the JTAG UART step system holds in every reachable state, and what follows. */
module UartSafety {
  import opened Errno
  import opened Ring
  import opened UartMachine
  import opened Wrappers

  /** After altera_avalon_jtag_uart_init. */
  predicate Initial(s: State) {
    && |s.rx.buf| >= 2 && |s.tx.buf| >= 2
    && s.rx.inn == s.rx.out == s.tx.inn == s.tx.out == 0
    && s.rx.fifo == s.rx.sent == s.rx.delivered == []
    && s.tx.fifo == s.tx.accepted == s.tx.received == []
    && s.irq == Irq(true, false, true, false, Nobody)
    && s.reader.RIdle? && s.writer.WIdle? && s.isr.Idle?
    && s.hostInactive == 0
  }

  predicate IsRun(run: seq<State>, steps: seq<Step>)
    ensures IsRun(run, steps) ==> |run| == |steps| + 1
  {
    && |run| == |steps| + 1
    && Initial(run[0])
    && forall i | 0 <= i < |steps| :: Can(run[i], steps[i]) && Do(run[i], steps[i]) == Some(run[i + 1])
  }

  // ---- Every step keeps the invariant and stays within the buffers ----

  lemma RxLoopKeepsInv(s: State)
    requires Inv(s) && s.isr.RxLoop?
    ensures DoRxLoop(s).Some? && Inv(DoRxLoop(s).value)
  {
    FullWhenNextIsOut(s.rx.buf, s.rx.out, s.rx.inn);
    hide Contents;
    if Wrap(s.rx.inn + 1, |s.rx.buf|) != s.rx.out && s.rx.fifo != [] {
      ReceiveKeepsInv(s);
    } else {
      hide ReaderInv, WriterInv;
    }
  }

  /** A byte taken from the device into the ring. */
  lemma ReceiveSafe(rx: RxSide, rx': RxSide, r: Reader)
    requires RxFifoInv(rx) && ReaderInv(rx, r)
    requires Wrap(rx.inn + 1, |rx.buf|) != rx.out && rx.fifo != []
    requires rx' == rx.(buf := rx.buf[rx.inn := rx.fifo[0]], inn := Wrap(rx.inn + 1, |rx.buf|), fifo := rx.fifo[1..])
    ensures RxFifoInv(rx') && ReaderInv(rx', r)
  {
    hide Contents, ReaderInv;
    Push(rx.buf, rx.out, rx.inn, rx.fifo[0]);
    assert RxHeld(rx') == RxHeld(rx) + [rx.fifo[0]];
    assert rx.fifo == [rx.fifo[0]] + rx'.fifo;
    RxPushKeepsReader(rx, rx', r);
  }

  lemma ReceiveKeepsInv(s: State)
    requires Inv(s) && s.isr.RxLoop?
    requires Wrap(s.rx.inn + 1, |s.rx.buf|) != s.rx.out && s.rx.fifo != []
    ensures DoRxLoop(s).Some? && Inv(DoRxLoop(s).value)
  {
    var t := DoRxLoop(s).value;
    ReceiveSafe(s.rx, t.rx, s.reader);
    MaskInvIgnoresIsr(s.irq, s.reader, s.writer, s.isr, t.isr);
    FullWhenNextIsOut(s.rx.buf, s.rx.out, s.rx.inn);
    Push(s.rx.buf, s.rx.out, s.rx.inn, s.rx.fifo[0]);
    hide Contents, ReaderInv, WriterInv, TxFifoInv, RxFifoInv, MaskInv;
  }

  lemma MaskInvIgnoresIsr(q: Irq, r: Reader, w: Writer, isr: Isr, isr': Isr)
    requires MaskInv(q, r, w, isr) && !isr.Idle?
    ensures MaskInv(q, r, w, isr')
  {}

  /** A byte more at the end of the ring does not disturb the reader. */
  lemma RxPushKeepsReader(rx: RxSide, rx': RxSide, r: Reader)
    requires RxRange(rx) && RxRange(rx') && ReaderInv(rx, r)
    requires |rx'.buf| == |rx.buf| && rx'.out == rx.out && rx'.delivered == rx.delivered
    requires RxHeld(rx) < RxHeld(rx')
    ensures ReaderInv(rx', r)
  {}

  lemma TxLoopKeepsInv(s: State)
    requires Inv(s) && s.isr.TxLoop?
    ensures DoTxLoop(s).Some? && Inv(DoTxLoop(s).value)
  {
    var tx := s.tx;
    FullWhenNextIsOut(tx.buf, tx.out, tx.inn);
    if s.isr.space > 0 && tx.out != tx.inn {
      Pop(tx.buf, tx.out, tx.inn);
      var tx' := DoTxLoop(s).value.tx;
      assert TxHeld(tx) == [tx.buf[tx.out]] + TxHeld(tx');
    }
  }

  lemma CopyOutKeepsInv(s: State)
    requires Inv(s) && s.reader.RCopy? && |s.reader.chunk| < s.reader.n
    ensures DoCopyOut(s).Some? && Inv(DoCopyOut(s).value)
  {}

  lemma PublishOutSafe(rx: RxSide, rx': RxSide, r: Reader)
    requires RxFifoInv(rx) && ReaderInv(rx, r) && r.RCopy? && |r.chunk| == r.n
    requires rx' == rx.(out := Wrap(r.out + r.n, |rx.buf|), delivered := rx.delivered + r.chunk)
    ensures r.n <= r.c.space && RxFifoInv(rx')
    ensures var c := r.c.(space := r.c.space - r.n, got := r.c.got + r.chunk, dirty := true);
            ReaderInv(rx', if c.space > 0 then RLoadIn(c) else AfterReadLoop(c, 0))
  {
    hide Contents;
    PopRun(rx.buf, rx.out, rx.inn, r.n);
    assert RxHeld(rx) == r.chunk + RxHeld(rx');
  }

  lemma PublishOutKeepsInv(s: State)
    requires Inv(s) && s.reader.RCopy? && |s.reader.chunk| == s.reader.n
    ensures DoPublishOut(s).Some? && Inv(DoPublishOut(s).value)
  {
    hide Contents, ReaderInv, WriterInv, TxFifoInv;
    var r := s.reader;
    PublishOutSafe(s.rx, s.rx.(out := Wrap(r.out + r.n, |s.rx.buf|), delivered := s.rx.delivered + r.chunk), r);
  }

  lemma RxSnapshotKeepsInv(s: State)
    requires Inv(s) && s.reader.RLoadOut?
    ensures DoReader(s).Some? && Inv(DoReader(s).value)
  {}

  lemma ReaderEnableKeepsInv(s: State)
    requires Inv(s) && ReaderEnables(s.reader) && Can(s, ReaderStep)
    ensures Inv(DoReaderEnable(s))
  {}

  lemma ReaderKeepsInv(s: State)
    requires Inv(s) && Can(s, ReaderStep)
    ensures DoReader(s).Some? && Inv(DoReader(s).value)
  {
    hide DoCopyOut, DoPublishOut, DoReaderEnable, Contents;
    match s.reader
    case RCopy(_, _, n, chunk) => if |chunk| < n { CopyOutKeepsInv(s); } else { PublishOutKeepsInv(s); }
    case RLoadOut(_, _) => RxSnapshotKeepsInv(s);
    case _ => if ReaderEnables(s.reader) { ReaderEnableKeepsInv(s); }
  }

  lemma CopyInSafe(tx: TxSide, tx': TxSide, w: Writer)
    requires TxFifoInv(tx) && WriterInv(tx, w) && w.WCopy? && w.i < w.n
    requires w.inn + w.i < |tx.buf| && tx' == tx.(buf := tx.buf[w.inn + w.i := w.c.data[w.c.done + w.i]])
    ensures TxFifoInv(tx') && WriterInv(tx', w.(i := w.i + 1)) && TxHeld(tx') == TxHeld(tx)
  {
    hide Contents;
    StoreFree(tx.buf, tx.out, tx.inn, w.inn + w.i, w.c.data[w.c.done + w.i]);
    assert tx'.buf[w.inn .. w.inn + w.i + 1] == tx.buf[w.inn .. w.inn + w.i] + [w.c.data[w.c.done + w.i]];
  }

  lemma CopyInKeepsInv(s: State)
    requires Inv(s) && s.writer.WCopy? && s.writer.i < s.writer.n
    ensures DoCopyIn(s).Some? && Inv(DoCopyIn(s).value)
  {
    hide Contents, ReaderInv, TxFifoInv, RxFifoInv;
    var w := s.writer;
    CopyInSafe(s.tx, s.tx.(buf := s.tx.buf[w.inn + w.i := w.c.data[w.c.done + w.i]]), w);
  }

  lemma Append(before: seq<byte>, data: seq<byte>, done: nat, n: nat)
    requires done + n <= |data|
    ensures before + data[..done] + data[done .. done + n] == before + data[..done + n]
  {}

  lemma PublishInSafe(tx: TxSide, tx': TxSide, w: Writer)
    requires TxFifoInv(tx) && WriterInv(tx, w) && w.WCopy? && w.i == w.n
    requires tx' == tx.(inn := Wrap(w.inn + w.n, |tx.buf|),
                        accepted := tx.accepted + w.c.data[w.c.done .. w.c.done + w.n])
    ensures w.c.done + w.n <= |w.c.data| && TxFifoInv(tx')
    ensures var c := w.c.(done := w.c.done + w.n, dirty := true);
            WriterInv(tx', if c.done < |c.data| then WLoadIn(c) else WMask(c, w.out))
  {
    hide Contents;
    var added := w.c.data[w.c.done .. w.c.done + w.n];
    PushRun(tx.buf, tx.out, tx.inn, w.n);
    assert TxHeld(tx') == TxHeld(tx) + added;
    assert TxFifoInv(tx') by {
      assert tx.received + tx.fifo + (TxHeld(tx) + added) == (tx.received + tx.fifo + TxHeld(tx)) + added;
    }
    Append(w.c.before, w.c.data, w.c.done, w.n);
  }

  lemma PublishInKeepsInv(s: State)
    requires Inv(s) && s.writer.WCopy? && s.writer.i == s.writer.n
    ensures DoPublishIn(s).Some? && Inv(DoPublishIn(s).value)
  {
    hide Contents, ReaderInv, RxFifoInv;
    var w := s.writer;
    assert w.inn + w.n <= |s.tx.buf| && w.c.done + w.n <= |w.c.data|;
    hide WriterInv;
    PublishInSafe(s.tx, s.tx.(inn := Wrap(w.inn + w.n, |s.tx.buf|),
                              accepted := s.tx.accepted + w.c.data[w.c.done .. w.c.done + w.n]), w);
  }

  /** All three ways to compute n keep the copied run clear of the bytes in use, whatever the
      interrupt routine does afterwards. */
  lemma TxSnapshotKeepsInv(s: State)
    requires Inv(s) && s.writer.WLoadOut?
    ensures DoWriter(s).Some? && Inv(DoWriter(s).value)
  {}

  lemma WriterEnableKeepsInv(s: State)
    requires Inv(s) && WriterEnables(s.writer) && Can(s, WriterStep)
    ensures Inv(DoWriterEnable(s))
  {}

  lemma WriterKeepsInv(s: State)
    requires Inv(s) && Can(s, WriterStep)
    ensures DoWriter(s).Some? && Inv(DoWriter(s).value)
  {
    hide DoCopyIn, DoPublishIn, DoWriterEnable, Contents;
    match s.writer
    case WCopy(_, _, _, n, i) => if i < n { CopyInKeepsInv(s); } else { PublishInKeepsInv(s); }
    case WLoadOut(_, _) => TxSnapshotKeepsInv(s);
    case _ => if WriterEnables(s.writer) { WriterEnableKeepsInv(s); }
  }

  lemma StepKeepsInv(s: State, a: Step)
    requires Inv(s) && Can(s, a)
    ensures Do(s, a).Some? && Inv(Do(s, a).value)
  {
    hide DoReader, DoWriter, DoRxLoop, DoTxLoop;
    match a
    case IsrStep => if s.isr.RxLoop? { RxLoopKeepsInv(s); } else { TxLoopKeepsInv(s); }
    case ReaderStep => ReaderKeepsInv(s);
    case WriterStep => WriterKeepsInv(s);
    case _ =>
  }

  // ---- Every reachable state ----

  lemma RingsLeaveOneFree(s: State)
    requires Inv(s)
    ensures |RxHeld(s.rx)| <= |s.rx.buf| - 1 && |TxHeld(s.tx)| <= |s.tx.buf| - 1
  {}

  lemma InvInitially(s: State)
    requires Initial(s)
    ensures Inv(s)
  {}

  lemma StepOfRun(run: seq<State>, steps: seq<Step>, i: nat)
    requires IsRun(run, steps) && i < |steps|
    ensures Can(run[i], steps[i]) && Do(run[i], steps[i]) == Some(run[i + 1])
  {}

  lemma {:induction false} InvAlways(run: seq<State>, steps: seq<Step>, i: nat)
    requires IsRun(run, steps) && i < |run|
    ensures Inv(run[i])
  {
    if i == 0 {
      InvInitially(run[0]);
    } else {
      InvAlways(run, steps, i - 1);
      StepKeepsInv(run[i - 1], steps[i - 1]);
    }
  }

  /** Whatever can happen next in a reachable state happens within the buffers. */
  lemma NoStepFails(run: seq<State>, steps: seq<Step>, i: nat, a: Step)
    requires IsRun(run, steps) && i < |run| && Can(run[i], a)
    ensures Do(run[i], a).Some?
  {
    InvAlways(run, steps, i);
    StepKeepsInv(run[i], a);
  }

  /** The receive path is a FIFO queue: what the host has sent is, in order, what callers have been
      given, then what the ring holds, then what the device holds; a memcpy under way has copied the
      oldest bytes of the ring and nothing has overwritten the rest of its run. */
  lemma ReceiveIsFifo(run: seq<State>, steps: seq<Step>, i: nat)
    requires IsRun(run, steps) && i < |run|
    ensures var rx := run[i].rx;
            && RxRange(rx) && |RxHeld(rx)| <= |rx.buf| - 1
            && rx.sent == rx.delivered + RxHeld(rx) + rx.fifo
    ensures run[i].reader.RCopy? ==>
            var r, rx := run[i].reader, run[i].rx;
            && r.n <= |RxHeld(rx)| && r.out + r.n <= |rx.buf| && |r.chunk| <= r.n
            && r.chunk + rx.buf[r.out + |r.chunk| .. r.out + r.n] == RxHeld(rx)[..r.n]
  {
    InvAlways(run, steps, i);
    RingsLeaveOneFree(run[i]);
    if run[i].reader.RCopy? {
      CopyUnderWay(run[i].rx, run[i].reader);
    }
  }

  lemma CopyUnderWay(rx: RxSide, r: Reader)
    requires RxRange(rx) && ReaderInv(rx, r) && r.RCopy?
    ensures r.n <= |RxHeld(rx)| && r.out + r.n <= |rx.buf| && |r.chunk| <= r.n
    ensures r.chunk + rx.buf[r.out + |r.chunk| .. r.out + r.n] == RxHeld(rx)[..r.n]
  {}

  /** The transmit path is a FIFO queue: what callers have had accepted is, in order, what the host
      has received, then what the device holds, then what the ring holds; the run that a memcpy
      fills stays clear of the ring's bytes, however old the snapshot of tx_out is. */
  lemma TransmitIsFifo(run: seq<State>, steps: seq<Step>, i: nat)
    requires IsRun(run, steps) && i < |run|
    ensures var tx := run[i].tx;
            && TxRange(tx) && |TxHeld(tx)| <= |tx.buf| - 1 && |tx.fifo| <= tx.cap
            && tx.accepted == tx.received + tx.fifo + TxHeld(tx)
    ensures run[i].writer.WCopy? ==>
            var w, tx := run[i].writer, run[i].tx;
            && |TxHeld(tx)| + w.n <= |tx.buf| - 1 && w.inn == tx.inn && w.inn + w.n <= |tx.buf|
            && Contents(tx.buf, tx.out, Wrap(w.inn + w.n, |tx.buf|)) == TxHeld(tx) + tx.buf[w.inn .. w.inn + w.n]
  {
    InvAlways(run, steps, i);
    var s := run[i];
    FullWhenNextIsOut(s.tx.buf, s.tx.out, s.tx.inn);
    if s.writer.WCopy? {
      PushRun(s.tx.buf, s.tx.out, s.tx.inn, s.writer.n);
    }
  }

  /** No lost wakeup, in every state: bytes waiting in the transmit ring have the transmit interrupt
      enabled, unless a call of write still owes its enable; room in the receive ring has the receive
      interrupt enabled, unless a call of read still owes its enable. A call that owes an enable has
      not finished, and the device has what irq_enable says unless a thread, with interrupts disabled,
      is about to write it. */
  lemma NoLostWakeup(run: seq<State>, steps: seq<Step>, i: nat)
    requires IsRun(run, steps) && i < |run|
    ensures RxRange(run[i].rx) && TxRange(run[i].tx)
    ensures TxHeld(run[i].tx) != [] && !WriterDirty(run[i].writer) ==> run[i].irq.we
    ensures |RxHeld(run[i].rx)| < |run[i].rx.buf| - 1 && !ReaderDirty(run[i].reader) ==> run[i].irq.re
    ensures run[i].irq.mask.Nobody? || (!run[i].reader.RWriteControl? && !run[i].writer.WWriteControl?) ==>
            run[i].irq.ctlRe == run[i].irq.re && run[i].irq.ctlWe == run[i].irq.we
    ensures WriterDirty(run[i].writer) ==> BeforeWriteEnable(run[i].writer)
    ensures ReaderDirty(run[i].reader) ==> BeforeReadEnable(run[i].reader)
  {
    InvAlways(run, steps, i);
  }

  /** When an interrupt is turned off: the receive one exactly by the routine when the ring is full and the
      last byte that it took left more in the device, and the transmit one exactly by the routine when
      the device has room and the ring is empty. */
  lemma TurnedOffIff(run: seq<State>, steps: seq<Step>, i: nat)
    requires IsRun(run, steps) && i < |steps|
    ensures RxRange(run[i].rx) && TxRange(run[i].tx)
    ensures var s, t := run[i], run[i + 1];
            && (s.irq.re && !t.irq.re <==> s.irq.re && steps[i].IsrStep? && s.isr.RxLoop? && s.isr.avail &&
                                           |RxHeld(s.rx)| == |s.rx.buf| - 1)
            && (s.irq.we && !t.irq.we <==> s.irq.we && steps[i].IsrStep? && s.isr.TxLoop? && s.isr.space > 0 &&
                                           TxHeld(s.tx) == [])
            && (steps[i].IsrStep? && s.isr.RxLoop? && t.isr.RxLoop? ==> (t.isr.avail <==> t.rx.fifo != []))
  {
    var s := run[i];
    InvAlways(run, steps, i);
    StepOfRun(run, steps, i);
    FullWhenNextIsOut(s.rx.buf, s.rx.out, s.rx.inn);
    FullWhenNextIsOut(s.tx.buf, s.tx.out, s.tx.inn);
    assert RxRange(s.rx) && TxRange(s.tx) && MaskInv(s.irq, s.reader, s.writer, s.isr);
    hide Inv, Contents, Wrap, IsRun, DoCopyOut, DoPublishOut, DoCopyIn, DoPublishIn, AfterRxSnapshot, AfterTxSnapshot;
  }

  // ---- The interrupt routine ends ----

  /** Free slots of the receive ring, used slots of the transmit ring, and enabled interrupts. */
  function Work(s: State): nat
    requires Inv(s)
  {
    RingsLeaveOneFree(s);
    |s.rx.buf| - 1 - |RxHeld(s.rx)| + |TxHeld(s.tx)| + (if s.irq.re then 1 else 0) + (if s.irq.we then 1 else 0)
  }

  /** The routine has just read a control register that gave it something to do. */
  predicate Fresh(s: State) {
    match s.isr
    case RxLoop(avail, _, _) => avail && s.irq.re && s.rx.fifo != []
    case TxLoop(space) => s.irq.we && space > 0
    case _ => false
  }

  lemma IsrStepWorks(s: State)
    requires Inv(s) && Can(s, IsrStep)
    ensures Do(s, IsrStep).Some? && Inv(Do(s, IsrStep).value)
    ensures var t := Do(s, IsrStep).value;
            && Work(t) <= Work(s)
            && (Fresh(s) || (s.isr.RxLoop? && t.isr.RxLoop?) ==> Work(t) < Work(s))
  {
    StepKeepsInv(s, IsrStep);
    FullWhenNextIsOut(s.rx.buf, s.rx.out, s.rx.inn);
    FullWhenNextIsOut(s.tx.buf, s.tx.out, s.tx.inn);
    hide Contents;
    if s.isr.RxLoop? {
      if Wrap(s.rx.inn + 1, |s.rx.buf|) != s.rx.out && s.rx.fifo != [] {
        Push(s.rx.buf, s.rx.out, s.rx.inn, s.rx.fifo[0]);
      }
    } else if s.isr.space > 0 && s.tx.out != s.tx.inn {
      Pop(s.tx.buf, s.tx.out, s.tx.inn);
    }
  }

  /** Passes of the outer loop that begin between run[i] and run[j]. */
  function Passes(steps: seq<Step>, i: nat, j: nat): nat
    requires i <= j <= |steps|
  {
    if i == j then 0
    else Passes(steps, i, j - 1) + (if BeginsPass(steps[j - 1]) then 1 else 0)
  }

  predicate BeginsPass(a: Step) {
    a.IsrControl? && (a.ri || a.wi)
  }

  /** A step while the routine runs: what it pays for. */
  lemma StepPays(s: State, a: Step, t: State)
    requires Inv(s) && Can(s, a) && Do(s, a) == Some(t) && !s.isr.Idle?
    ensures Inv(t)
    ensures (if BeginsPass(a) then 1 else 0) + Work(t) + (if Fresh(s) then 1 else 0)
              <= Work(s) + (if Fresh(t) then 1 else 0)
  {
    if a.IsrStep? {
      hide Inv, Do, Can;
      IsrStepWorks(s);
    } else {
      StepKeepsInv(s, a);
      hide RxHeld, TxHeld;
    }
  }

  lemma {:induction false} PassesPaid(run: seq<State>, steps: seq<Step>, i: nat, j: nat)
    requires IsRun(run, steps) && i <= j < |run|
    requires run[i].isr.Control? && forall k | i <= k < j :: !run[k].isr.Idle?
    ensures Inv(run[i]) && Inv(run[j])
    ensures Passes(steps, i, j) + Work(run[j]) <= Work(run[i]) + (if Fresh(run[j]) then 1 else 0)
  {
    hide Do, Can, Work, Inv, Fresh, IsRun, BeginsPass;
    InvAlways(run, steps, i);
    InvAlways(run, steps, j);
    if i < j {
      PassesPaid(run, steps, i, j - 1);
      StepOfRun(run, steps, j - 1);
      StepPays(run[j - 1], steps[j - 1], run[j]);
    }
  }

  /** One invocation of the interrupt routine makes at most one pass of its outer loop for each free
      receive slot, each used transmit slot and each enabled interrupt that it found, however fast
      the host sends and takes bytes meanwhile. */
  lemma IsrPassesBounded(run: seq<State>, steps: seq<Step>, i: nat, j: nat)
    requires IsRun(run, steps) && i <= j < |run|
    requires run[i].isr.Control? && forall k | i <= k < j :: !run[k].isr.Idle?
    ensures Inv(run[i]) && Passes(steps, i, j) <= Work(run[i])
    ensures Work(run[i]) <= |run[i].rx.buf| + |run[i].tx.buf|
  {
    PassesPaid(run, steps, i, j);
    InvAlways(run, steps, i);
    InvAlways(run, steps, j);
    RingsLeaveOneFree(run[i]);
    if Fresh(run[j]) {
      IsrStepWorks(run[j]);
    }
  }
}
