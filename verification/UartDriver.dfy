/** The JTAG UART fast driver in the source's own form: an object whose methods update its fields and
    buffers. Every access that another party can see is one step of UartMachine, recorded in a ghost
    history, so that each execution of these methods is a run of that machine. */
module UartDriver {
  import opened Errno
  import opened Ring
  import opened UartCalls
  import opened UartMachine
  import opened UartSafety
  import opened Wrappers

  /** What a call returns; Waiting stands for a call that is still polling in its wait loop. */
  datatype Outcome = Returned(rc: int) | Waiting

  /** The interrupt routine runs in every state of the run from one on. */
  ghost predicate Busy(run: seq<State>, from: nat) {
    forall k | from <= k < |run| :: !run[k].isr.Idle?
  }

  /** The timeout of a new driver, in seconds. */
  const DEFAULT_TIMEOUT := 10

  class JtagUart {
    // altera_avalon_jtag_uart_state
    const rxBuf: array<byte>
    const txBuf: array<byte>
    var rxIn: nat
    var rxOut: nat
    var txIn: nat
    var txOut: nat
    var irqRe: bool
    var irqWe: bool
    var hostInactive: nat
    var timeout: nat
    const hasAlarm: bool

    // the device
    var ctlRe: bool
    var ctlWe: bool
    var rxFifo: seq<byte>
    var txFifo: seq<byte>
    const txCap: nat

    ghost var mask: Mask
    ghost var reader: Reader
    ghost var writer: Writer
    ghost var isr: Isr
    ghost var sent: seq<byte>
    ghost var delivered: seq<byte>
    ghost var accepted: seq<byte>
    ghost var received: seq<byte>
    ghost var run: seq<State>
    ghost var steps: seq<Step>

    ghost function Abs(): State
      reads this, rxBuf, txBuf
    {
      State(RxSide(rxBuf[..], rxIn, rxOut, rxFifo, sent, delivered),
            TxSide(txBuf[..], txIn, txOut, txFifo, txCap, accepted, received),
            Irq(irqRe, irqWe, ctlRe, ctlWe, mask), reader, writer, isr, hostInactive, timeout)
    }

    /** The history is a run of the machine and ends in the present state. */
    ghost predicate Valid()
      reads this, rxBuf, txBuf
      ensures Valid() ==> Inv(Abs())
    {
      && rxBuf != txBuf
      && IsRun(run, steps) && run[|steps|] == Abs() && Inv(Abs())
    }

    /** The thread is not in the interrupt routine and may be interrupted. */
    ghost predicate Open()
      reads this
    {
      isr.Idle? && mask.Nobody?
    }

    ghost method Record(a: Step)
      requires rxBuf != txBuf && IsRun(run, steps) && Inv(run[|steps|])
      requires Can(run[|steps|], a) && Do(run[|steps|], a) == Some(Abs())
      modifies this`run, this`steps
      ensures Valid() && run == old(run) + [Abs()] && steps == old(steps) + [a]
      ensures old(run) <= run && old(steps) <= steps
      ensures !isr.Idle? ==> Busy(run, |old(run)|)
    {
      hide Do, Can, Inv;
      StepKeepsInv(run[|steps|], a);
      run := run + [Abs()];
      steps := steps + [a];
    }

    /** altera_avalon_jtag_uart_init, with whether its alarm could be started. Without the alarm
        nothing counts how long the host has been away, and INT_MAX says so. */
    constructor (len: nat, cap: nat, alarmStarted: bool)
      requires len >= 2
      ensures Valid() && Open() && fresh(rxBuf) && fresh(txBuf)
      ensures rxBuf.Length == txBuf.Length == len && txCap == cap
      ensures reader.RIdle? && writer.WIdle? && delivered == accepted == []
      ensures hasAlarm == alarmStarted && hostInactive == 0 && (timeout == INT_MAX <==> !alarmStarted)
    {
      var rx, tx := new byte[len], new byte[len];
      rxBuf, txBuf, txCap := rx, tx, cap;
      rxIn, rxOut, txIn, txOut := 0, 0, 0, 0;
      irqRe, irqWe := true, false;
      ctlRe, ctlWe := true, false;
      hasAlarm := alarmStarted;
      hostInactive, timeout := 0, if alarmStarted then DEFAULT_TIMEOUT else INT_MAX;
      rxFifo, txFifo := [], [];
      mask, reader, writer, isr := Nobody, RIdle, WIdle, Idle;
      sent, delivered, accepted, received := [], [], [], [];
      new;
      run, steps := [Abs()], [];
      InvInitially(Abs());
    }

    // ---- The device, the host and the interval timer ----

    method HostSends(b: byte)
      requires Valid()
      modifies this`rxFifo, this`sent, this`run, this`steps
      ensures Valid() && old(run) <= run && old(steps) <= steps
      ensures rxFifo == old(rxFifo) + [b]
      ensures Work(Abs()) == old(Work(Abs())) && (old(Fresh(Abs())) ==> Fresh(Abs()))
      ensures !old(isr).Idle? ==> Busy(run, |old(run)|)
    {
      hide Inv, IsRun, Busy;
      rxFifo, sent := rxFifo + [b], sent + [b];
      Record(HostSend(b));
    }

    method HostTakes()
      requires Valid() && txFifo != []
      modifies this`txFifo, this`received, this`run, this`steps
      ensures Valid() && old(run) <= run && old(steps) <= steps
      ensures txFifo == old(txFifo)[1..]
      ensures Work(Abs()) == old(Work(Abs())) && (old(Fresh(Abs())) ==> Fresh(Abs()))
      ensures !old(isr).Idle? ==> Busy(run, |old(run)|)
    {
      hide Inv, IsRun, Busy;
      txFifo, received := txFifo[1..], received + [txFifo[0]];
      Record(HostTake);
    }

    /** The host sends and takes bytes while nothing else happens. */
    method DeviceActivity()
      requires Valid()
      modifies this`rxFifo, this`txFifo, this`sent, this`received, this`run, this`steps
      ensures Valid() && old(run) <= run && old(steps) <= steps
      ensures old(rxFifo) <= rxFifo && |txFifo| <= |old(txFifo)|
      ensures Work(Abs()) == old(Work(Abs())) && (old(Fresh(Abs())) ==> Fresh(Abs()))
      ensures !old(isr).Idle? ==> Busy(run, |old(run)|)
    {
      hide Inv, IsRun, Work, Fresh, Abs, Valid;
      var k: nat := *;
      while k > 0
        invariant Valid() && old(run) <= run && old(steps) <= steps
        invariant old(rxFifo) <= rxFifo && |txFifo| <= |old(txFifo)|
        invariant isr == old(isr) && (!isr.Idle? ==> Busy(run, |old(run)|))
        invariant Work(Abs()) == old(Work(Abs())) && (old(Fresh(Abs())) ==> Fresh(Abs()))
      {
        if * {
          var b: byte := *;
          HostSends(b);
        } else if txFifo != [] {
          HostTakes();
        }
        k := k - 1;
      }
    }

    /** altera_avalon_jtag_uart_timeout. */
    method Timeout()
      requires Valid() && Open()
      modifies this`ctlRe, this`ctlWe, this`hostInactive, this`run, this`steps
      ensures Valid() && old(run) <= run && exists active :: steps == old(steps) + [Timer(active)]
    {
      hide Inv, IsRun;
      var active: bool := *;
      if active {
        ctlRe, ctlWe := irqRe, irqWe;
        hostInactive := 0;
      } else if hostInactive < INT_MAX - 2 {
        hostInactive := hostInactive + 1;
      }
      Record(Timer(active));
    }

    /** A read of the control register: RI, WI and WSPACE. The device raises RI only with RE set and
        a byte to read, and WI only with WE set and room to write. */
    method ReadControl() returns (ri: bool, wi: bool, wspace: nat)
      requires Valid() && isr.Control?
      ensures ri ==> ctlRe && rxFifo != []
      ensures wi ==> ctlWe && wspace > 0
      ensures wspace == WSpace(Abs().tx)
    {
      wspace := txCap - |txFifo|;
      ri, wi := *, *;
      ri, wi := ri && ctlRe && rxFifo != [], wi && ctlWe && wspace > 0;
    }

    /** A read of the data register: RVALID, whether RAVAIL is not zero, and the byte. */
    method ReadData() returns (rvalid: bool, ravail: bool, b: byte)
      modifies this`rxFifo
      ensures rvalid == (old(rxFifo) != [])
      ensures if rvalid then b == old(rxFifo)[0] && rxFifo == old(rxFifo)[1..] && ravail == (|old(rxFifo)| > 1)
              else rxFifo == old(rxFifo) && !ravail
    {
      if rxFifo == [] {
        rvalid, ravail, b := false, false, 0;
      } else {
        rvalid, ravail, b := true, |rxFifo| > 1, rxFifo[0];
        rxFifo := rxFifo[1..];
      }
    }

    // ---- The interrupt routine ----

    ghost method RecordIsrStep(s: State)
      requires rxBuf != txBuf && IsRun(run, steps) && run[|steps|] == s && Inv(s)
      requires Can(s, IsrStep) && Do(s, IsrStep) == Some(Abs())
      modifies this`run, this`steps
      ensures Valid() && run == old(run) + [Abs()] && old(run) <= run && old(steps) <= steps
      ensures Work(Abs()) <= Work(s)
      ensures Fresh(s) || (s.isr.RxLoop? && isr.RxLoop?) ==> Work(Abs()) < Work(s)
      ensures !isr.Idle? ==> Busy(run, |old(run)|)
    {
      hide Do, Can, Inv, IsRun, Work, Fresh;
      IsrStepWorks(s);
      Record(IsrStep);
    }

    method Enter()
      requires Valid() && Open()
      modifies this`isr, this`run, this`steps
      ensures Valid() && isr.Control? && run == old(run) + [Abs()] && steps == old(steps) + [IsrEnter]
      ensures Busy(run, |old(run)|)
    {
      hide Inv, IsRun, Busy;
      isr := Control;
      Record(IsrEnter);
    }

    /** The read of the control register at the head of the outer loop. */
    method LoadControl() returns (ri: bool, wi: bool, wspace: nat)
      requires Valid() && isr.Control?
      modifies this`isr, this`run, this`steps
      ensures Valid() && run == old(run) + [Abs()] && steps == old(steps) + [IsrControl(ri, wi)]
      ensures isr == if ri then RxLoop(true, wi, wspace) else if wi then TxLoop(wspace) else Idle
      ensures Work(Abs()) == old(Work(Abs())) && (ri || wi ==> Fresh(Abs()) && Busy(run, |old(run)|))
    {
      ri, wi, wspace := ReadControl();
      hide IsRun;
      isr := AfterControl(Abs().tx, ri, wi);
      Record(IsrControl(ri, wi));
    }

    /** altera_avalon_jtag_uart_irq. The outer loop has no bound in the source; it ends because every
        pass uses up a free receive slot, a used transmit slot or an enabled interrupt. */
    method Interrupt()
      requires Valid() && Open()
      modifies this`rxIn, this`txOut, this`irqRe, this`irqWe, this`ctlRe, this`ctlWe, this`rxFifo, this`txFifo,
               this`isr, this`sent, this`received, this`run, this`steps, rxBuf
      ensures Valid() && Open() && old(run) <= run && old(steps) + [IsrEnter] <= steps
      ensures Busy(run[..|run| - 1], |old(run)|) && steps[|steps| - 1] == IsrControl(false, false)
    {
      hide Inv, IsRun, Work, Fresh, Abs, Valid;
      Enter();
      ghost var entered := steps;
      while true
        invariant Valid() && isr.Control? && old(run) <= run && entered <= steps
        invariant |run| > |old(run)| && Busy(run, |old(run)|)
        decreases Work(Abs())
      {
        DeviceActivity();
        var ri, wi, wspace := LoadControl();
        if !ri && !wi {
          break;
        }
        if ri {
          ReceivePart(wi, wspace);
        }
        if wi {
          TransmitPart(wspace);
        }
      }
    }

    /** The receive part of a pass. */
    method ReceivePart(wi: bool, wspace: nat)
      requires Valid() && isr == RxLoop(true, wi, wspace) && Fresh(Abs())
      modifies this`rxIn, this`irqRe, this`ctlRe, this`ctlWe, this`rxFifo, this`txFifo,
               this`isr, this`sent, this`received, this`run, this`steps, rxBuf
      ensures Valid() && old(run) <= run && old(steps) <= steps
      ensures isr == if wi then TxLoop(wspace) else Control
      ensures Work(Abs()) < old(Work(Abs()))
      ensures Busy(run, |old(run)|)
    {
      hide Inv, IsRun, Work, Fresh, Abs, Valid;
      var avail := true;
      while true
        invariant Busy(run, |old(run)|)
        invariant Valid() && isr == RxLoop(avail, wi, wspace) && old(run) <= run && old(steps) <= steps
        invariant Work(Abs()) <= old(Work(Abs())) && (Fresh(Abs()) || Work(Abs()) < old(Work(Abs())))
        decreases Work(Abs())
      {
        DeviceActivity();
        Bounds();
        var next := Wrap(rxIn + 1, rxBuf.Length);
        if next == rxOut {
          break;
        }
        var rvalid, ravail := ReceiveByte(next, avail, wi, wspace);
        avail := ravail;
        if !rvalid {
          break;
        }
      }
      EndReceive(avail, wi, wspace);
    }

    lemma Bounds()
      requires Valid()
      ensures rxBuf.Length >= 2 && rxIn < rxBuf.Length && rxOut < rxBuf.Length
      ensures txBuf.Length >= 2 && txIn < txBuf.Length && txOut < txBuf.Length
      ensures |txFifo| <= txCap && hostInactive <= INT_MAX - 2
    {}

    lemma IsrStepMeans(s: State)
      requires s.isr.RxLoop? || s.isr.TxLoop?
      ensures Can(s, IsrStep) && Do(s, IsrStep) == if s.isr.RxLoop? then DoRxLoop(s) else DoTxLoop(s)
    {}

    /** Takes one character from the device, if there is one. */
    method ReceiveByte(next: nat, avail: bool, wi: bool, wspace: nat) returns (rvalid: bool, ravail: bool)
      requires Valid() && isr == RxLoop(avail, wi, wspace)
      requires rxIn < rxBuf.Length && next == Wrap(rxIn + 1, rxBuf.Length) && next != rxOut
      modifies this`rxIn, this`rxFifo, this`isr, this`run, this`steps, rxBuf
      ensures Valid() && old(run) <= run && old(steps) <= steps
      ensures rvalid ==> isr == RxLoop(ravail, wi, wspace) && Work(Abs()) < old(Work(Abs()))
      ensures !rvalid ==> !ravail && rxFifo == [] && rxIn == old(rxIn) && isr == old(isr)
      ensures !rvalid ==> Work(Abs()) == old(Work(Abs())) && Fresh(Abs()) == old(Fresh(Abs()))
      ensures Busy(run, |old(run)|)
    {
      hide Inv, IsRun, Work, Fresh, DoReader, DoWriter, DoTxLoop;
      ghost var s := Abs();
      var b: byte;
      rvalid, ravail, b := ReadData();
      if rvalid {
        rxBuf[rxIn] := b;
        rxIn := next;
        isr := RxLoop(ravail, wi, wspace);
        RecordIsrStep(s);
      }
    }

    /** Data still available here means that the ring is full: turns receive interrupts off. */
    method EndReceive(avail: bool, wi: bool, wspace: nat)
      requires Valid() && isr.RxLoop? && isr.wi == wi && isr.wspace == wspace && rxIn < rxBuf.Length
      requires if Wrap(rxIn + 1, rxBuf.Length) == rxOut then avail == isr.avail else rxFifo == [] && !avail
      modifies this`irqRe, this`ctlRe, this`ctlWe, this`isr, this`run, this`steps
      ensures Valid() && old(run) <= run && old(steps) <= steps
      ensures isr == if wi then TxLoop(wspace) else Control
      ensures Work(Abs()) <= old(Work(Abs())) && (old(Fresh(Abs())) ==> Work(Abs()) < old(Work(Abs())))
      ensures Busy(run, |old(run)|)
    {
      hide Inv, IsRun, Work, Fresh, Do, Can, Busy;
      ghost var s := Abs();
      IsrStepMeans(s);
      if avail {
        irqRe := false;
        ctlRe, ctlWe := irqRe, irqWe;
      }
      isr := if wi then TxLoop(wspace) else Control;
      RecordIsrStep(s);
    }

    /** The transmit part of a pass. */
    method TransmitPart(wspace: nat)
      requires Valid() && isr == TxLoop(wspace)
      modifies this`txOut, this`irqWe, this`ctlRe, this`ctlWe, this`rxFifo, this`txFifo,
               this`isr, this`sent, this`received, this`run, this`steps
      ensures Valid() && isr == Control && old(run) <= run && old(steps) <= steps
      ensures Work(Abs()) <= old(Work(Abs())) && (old(Fresh(Abs())) ==> Work(Abs()) < old(Work(Abs())))
      ensures Busy(run, |old(run)|)
    {
      hide Inv, IsRun, Work, Fresh, Abs, Valid;
      var space := wspace;
      while space > 0 && txOut != txIn
        invariant Busy(run, |old(run)|)
        invariant Valid() && isr == TxLoop(space) && old(run) <= run && old(steps) <= steps
        invariant Work(Abs()) <= old(Work(Abs()))
        invariant old(Fresh(Abs())) ==> Fresh(Abs()) || Work(Abs()) < old(Work(Abs()))
        decreases space
      {
        DeviceActivity();
        TransmitByte(space);
        space := space - 1;
      }
      EndTransmit(space);
    }

    method TransmitByte(space: nat)
      requires Valid() && isr == TxLoop(space) && space > 0 && txOut != txIn
      modifies this`txOut, this`txFifo, this`isr, this`run, this`steps
      ensures Valid() && isr == TxLoop(space - 1) && old(run) <= run && old(steps) <= steps
      ensures Work(Abs()) <= old(Work(Abs())) && (old(Fresh(Abs())) ==> Work(Abs()) < old(Work(Abs())))
      ensures Busy(run, |old(run)|)
    {
      hide Inv, IsRun, Work, Fresh, Do, Can, Busy;
      ghost var s := Abs();
      Bounds();
      IsrStepMeans(s);
      txFifo := if |txFifo| < txCap then txFifo + [txBuf[txOut]] else txFifo;
      txOut := Wrap(txOut + 1, txBuf.Length);
      isr := TxLoop(space - 1);
      RecordIsrStep(s);
    }

    /** Room left here means that there is nothing to send: turns transmit interrupts off. */
    method EndTransmit(space: nat)
      requires Valid() && isr == TxLoop(space) && (space == 0 || txOut == txIn)
      modifies this`irqWe, this`ctlRe, this`ctlWe, this`isr, this`run, this`steps
      ensures Valid() && isr == Control && old(run) <= run && old(steps) <= steps
      ensures Work(Abs()) <= old(Work(Abs())) && (old(Fresh(Abs())) ==> Work(Abs()) < old(Work(Abs())))
      ensures Busy(run, |old(run)|)
    {
      hide Inv, IsRun, Work, Fresh, Do, Can, Busy;
      ghost var s := Abs();
      IsrStepMeans(s);
      if space > 0 {
        irqWe := false;
        ctlRe, ctlWe := irqRe, irqWe;
      }
      isr := Control;
      RecordIsrStep(s);
    }

    /** Anything that can come between two accesses of the thread. */
    method Preempt()
      requires Valid() && Open()
      modifies this`rxIn, this`txOut, this`irqRe, this`irqWe, this`ctlRe, this`ctlWe, this`rxFifo, this`txFifo,
               this`hostInactive, this`isr, this`sent, this`received, this`run, this`steps, rxBuf
      ensures Valid() && Open() && old(run) <= run && old(steps) <= steps
    {
      hide Inv, IsRun, Work, Fresh, Abs, Valid;
      var k: nat := *;
      while k > 0
        invariant Valid() && Open() && old(run) <= run && old(steps) <= steps
      {
        if * {
          DeviceActivity();
        } else if * {
          Interrupt();
        } else if hasAlarm {
          Timeout();
        }
        k := k - 1;
      }
    }

    // ---- read ----

    /** A call that began at this place of the history found the ring empty after its last byte. */
    ghost predicate SawEmpty(from: nat, gone: bool)
      reads this
    {
      exists k: nat | from <= k < |run| :: EmptyAt(run[k], delivered, gone)
    }

    lemma LastState()
      requires Valid()
      ensures |run| == |steps| + 1 && run[|steps|].reader == reader && run[|steps|].writer == writer
      ensures run[|steps|].rx.delivered == delivered && run[|steps|].tx.accepted == accepted
    {}

    lemma CallSawEmpty(from: nat)
      requires Valid() && 0 < from <= |run| && run[from - 1].reader.RIdle?
      ensures reader.RSpin? ==> SawEmpty(from, false)
      ensures reader.RFinish? && reader.c.space > 0 ==> SawEmpty(from, reader.c.got == [] && !reader.c.nonblock)
    {
      LastState();
      assert IsRun(run, steps);
      hide Valid, Inv, IsRun, EmptyAt;
      ReaderAlwaysKnows(run, steps, |steps|);
      if reader.RSpin? {
        EmptyInCall(from, false);
      } else if reader.RFinish? && reader.c.space > 0 {
        EmptyInCall(from, reader.c.got == [] && !reader.c.nonblock);
      }
    }

    lemma EmptyInCall(from: nat, gone: bool)
      requires |run| > 0 && FoundEmpty(run, |run| - 1, gone) && run[|run| - 1].rx.delivered == delivered
      requires 0 < from <= |run| && run[from - 1].reader.RIdle?
      ensures SawEmpty(from, gone)
    {
      hide EmptyAt;
      var k: nat :| k <= |run| - 1 && Reads(run, k, |run| - 1) && EmptyAt(run[k], run[|run| - 1].rx.delivered, gone);
    }

    /** Steps of the reading thread that change nothing but its place. */
    method LoadRxIn() returns (inn: nat)
      requires Valid() && Open() && reader.RLoadIn?
      modifies this`reader, this`run, this`steps
      ensures Valid() && old(run) <= run && old(steps) <= steps
      ensures reader == RLoadOut(old(reader).c, inn)
    {
      hide Inv, IsRun, Work, Fresh;
      inn := rxIn;
      reader := RLoadOut(reader.c, inn);
      Record(ReaderStep);
    }

    /** Takes the snapshot of rxOut and chooses how many bytes to copy. */
    method LoadRxOut(inn: nat, space: nat) returns (out: nat, n: nat)
      requires Valid() && Open() && reader.RLoadOut? && reader.inn == inn && reader.c.space == space
      modifies this`reader, this`run, this`steps
      ensures Valid() && old(run) <= run && old(steps) <= steps
      ensures n <= space
      ensures reader == if n == 0 then AfterReadLoop(old(reader).c, inn) else RCopy(old(reader).c, out, n, [])
    {
      Bounds();
      ghost var c := reader.c;
      assert c.space > 0;
      hide Inv, IsRun, Work, Fresh;
      out := rxOut;
      if inn >= out {
        n := inn - out;
      } else {
        n := rxBuf.Length - out;
      }
      reader := AfterRxSnapshot(c, rxBuf.Length, inn, out);
      Record(ReaderStep);
      if n > space {
        n := space;
      }
    }

    /** One byte of the memcpy; the caller's buffer is its target. */
    method CopyOut(buffer: array<byte>, ptr: nat, out: nat, i: nat)
      requires Valid() && Open() && reader.RCopy? && reader.out == out && |reader.chunk| == i < reader.n
      requires ptr + i < buffer.Length && buffer != rxBuf && buffer != txBuf
      modifies this`reader, this`run, this`steps, buffer
      ensures Valid() && old(run) <= run && old(steps) <= steps
      ensures reader == old(reader).(chunk := old(reader).chunk + [buffer[ptr + i]])
      ensures buffer[..ptr + i] == old(buffer[..ptr + i])
    {
      CopyWithinRing();
      hide Inv, IsRun, Work, Fresh;
      buffer[ptr + i] := rxBuf[out + i];
      reader := reader.(chunk := reader.chunk + [buffer[ptr + i]]);
      Record(ReaderStep);
    }

    lemma CopyWithinRing()
      requires Valid() && reader.RCopy?
      ensures reader.out + reader.n <= rxBuf.Length && reader.n <= reader.c.space && rxBuf.Length >= 2
    {}

    lemma CopyOutEnds(s: State)
      requires s.isr.Idle? && s.irq.mask.Nobody? && s.reader.RCopy? && |s.reader.chunk| == s.reader.n
      ensures Can(s, ReaderStep) && Do(s, ReaderStep) == DoPublishOut(s)
    {}

    /** Moves rxOut past the bytes that were copied. */
    method PublishOut(out: nat, n: nat)
      requires Valid() && Open() && reader.RCopy? && reader.out == out && reader.n == n == |reader.chunk|
      modifies this`rxOut, this`delivered, this`reader, this`run, this`steps
      ensures Valid() && old(run) <= run && old(steps) <= steps && n <= old(reader).c.space
      ensures var c := old(reader).c;
              var c' := c.(space := c.space - n, got := c.got + old(reader).chunk, dirty := true);
              reader == if c'.space > 0 then RLoadIn(c') else AfterReadLoop(c', 0)
      ensures delivered == old(delivered) + old(reader).chunk
    {
      hide Inv, IsRun, Work, Fresh, Do, Can;
      CopyWithinRing();
      CopyOutEnds(Abs());
      ghost var c := reader.c.(space := reader.c.space - n, got := reader.c.got + reader.chunk, dirty := true);
      rxOut := Wrap(out + n, rxBuf.Length);
      delivered := delivered + reader.chunk;
      reader := if c.space > 0 then RLoadIn(c) else AfterReadLoop(c, 0);
      Record(ReaderStep);
    }

    /** One test of the reader's wait loop. */
    method PollRx(inn: nat) returns (waits: bool)
      requires Valid() && Open() && reader.RSpin? && reader.inn == inn
      modifies this`reader, this`run, this`steps
      ensures Valid() && old(run) <= run && old(steps) <= steps
      ensures reader == if waits then old(reader) else RAfterSpin(old(reader).c, inn)
      ensures |steps| == |old(steps)| + 1
    {
      hide Inv, IsRun, Work, Fresh;
      waits := inn == rxIn && hostInactive < timeout;
      if !waits {
        reader := RAfterSpin(reader.c, inn);
      }
      Record(ReaderStep);
    }

    /** Looks once more whether rxIn is where it was. */
    method TestRxAgain(inn: nat) returns (same: bool)
      requires Valid() && Open() && reader.RAfterSpin? && reader.inn == inn
      modifies this`reader, this`run, this`steps
      ensures Valid() && old(run) <= run && old(steps) <= steps
      ensures reader == if same then RFinish(old(reader).c) else RLoadIn(old(reader).c)
    {
      hide Inv, IsRun, Work, Fresh;
      same := inn == rxIn;
      reader := if same then RFinish(reader.c) else RLoadIn(reader.c);
      Record(ReaderStep);
    }

    /** Sets RE in irq_enable and in the device, with interrupts disabled. */
    method EnableRx()
      requires Valid() && Open() && reader.RMask?
      modifies this`irqRe, this`irqWe, this`ctlRe, this`ctlWe, this`rxFifo, this`txFifo,
               this`mask, this`reader, this`sent, this`received, this`run, this`steps
      ensures Valid() && Open() && old(run) <= run && old(steps) <= steps
      ensures reader == RFinish(old(reader).c.(dirty := false))
    {
      hide Inv, IsRun, Work, Fresh, Abs, Valid;
      DisableForReader();
      ProgramRx();
      EnableForReader();
    }

    /** irq_enable |= RE, and the write of the control register. */
    method ProgramRx()
      requires Valid() && isr.Idle? && mask.ByReader? && reader.RLoadEnable?
      modifies this`irqRe, this`irqWe, this`ctlRe, this`ctlWe, this`rxFifo, this`txFifo,
               this`reader, this`sent, this`received, this`run, this`steps
      ensures Valid() && old(run) <= run && old(steps) <= steps
      ensures reader == RUnmask(old(reader).c.(dirty := false))
    {
      hide Inv, IsRun, Work, Fresh, Abs, Valid, Busy;
      DeviceActivity();
      var we := LoadEnableForReader();
      DeviceActivity();
      StoreEnableForReader(we);
      DeviceActivity();
      WriteControlForReader();
      DeviceActivity();
    }

    method DisableForReader()
      requires Valid() && Open() && reader.RMask?
      modifies this`mask, this`reader, this`run, this`steps
      ensures Valid() && old(run) <= run && old(steps) <= steps
      ensures isr.Idle? && mask.ByReader? && reader == RLoadEnable(old(reader).c)
    {
      hide Inv, IsRun, Work, Fresh;
      mask, reader := ByReader, RLoadEnable(reader.c);
      Record(ReaderStep);
    }

    method LoadEnableForReader() returns (we: bool)
      requires Valid() && isr.Idle? && mask.ByReader? && reader.RLoadEnable?
      modifies this`reader, this`run, this`steps
      ensures Valid() && old(run) <= run && old(steps) <= steps
      ensures reader == RStoreEnable(old(reader).c, we)
    {
      hide Inv, IsRun, Work, Fresh;
      we := irqWe;
      reader := RStoreEnable(reader.c, we);
      Record(ReaderStep);
    }

    method StoreEnableForReader(we: bool)
      requires Valid() && isr.Idle? && mask.ByReader? && reader.RStoreEnable? && reader.we == we
      modifies this`irqRe, this`irqWe, this`reader, this`run, this`steps
      ensures Valid() && old(run) <= run && old(steps) <= steps
      ensures reader == RWriteControl(old(reader).c.(dirty := false))
    {
      hide Inv, IsRun, Work, Fresh;
      irqRe, irqWe := true, we;
      reader := RWriteControl(reader.c.(dirty := false));
      Record(ReaderStep);
    }

    method WriteControlForReader()
      requires Valid() && isr.Idle? && mask.ByReader? && reader.RWriteControl?
      modifies this`ctlRe, this`ctlWe, this`reader, this`run, this`steps
      ensures Valid() && old(run) <= run && old(steps) <= steps
      ensures reader == RUnmask(old(reader).c)
    {
      hide Inv, IsRun, Work, Fresh;
      ctlRe, ctlWe := irqRe, irqWe;
      reader := RUnmask(reader.c);
      Record(ReaderStep);
    }

    method EnableForReader()
      requires Valid() && isr.Idle? && mask.ByReader? && reader.RUnmask?
      modifies this`mask, this`reader, this`run, this`steps
      ensures Valid() && Open() && old(run) <= run && old(steps) <= steps
      ensures reader == RFinish(old(reader).c)
    {
      hide Inv, IsRun, Work, Fresh;
      mask, reader := Nobody, RFinish(reader.c);
      Record(ReaderStep);
    }

    ghost method EnterRead(space: nat, nonblock: bool)
      requires Valid() && Open() && reader.RIdle?
      modifies this`reader, this`run, this`steps
      ensures Valid() && old(run) <= run && steps == old(steps) + [CallRead(space, nonblock)]
      ensures var c := ReadCall(space, [], nonblock, delivered, false);
              reader == if space > 0 then RLoadIn(c) else RFinish(c)
    {
      hide Inv, IsRun, Work, Fresh;
      reader := BeginRead(Abs().rx, space, nonblock);
      Record(CallRead(space, nonblock));
    }

    ghost method LeaveRead()
      requires Valid() && Open() && reader.RFinish?
      modifies this`reader, this`run, this`steps
      ensures Valid() && reader.RIdle? && old(run) <= run && old(steps) <= steps
    {
      hide Inv, IsRun, Work, Fresh;
      reader := RIdle;
      Record(ReaderStep);
    }

    /** The inner loop of read, which a call enters with nothing read yet. */
    method ReadAvailable(buffer: array<byte>, space0: nat) returns (ptr: nat, space: nat, inn: nat)
      requires Valid() && Open() && reader.RLoadIn? && space0 > 0
      requires space0 <= buffer.Length && buffer != rxBuf && buffer != txBuf
      requires reader.c.space == space0 && reader.c.got == [] && !reader.c.dirty
      modifies this`rxIn, this`rxOut, this`txOut, this`irqRe, this`irqWe, this`ctlRe, this`ctlWe,
               this`rxFifo, this`txFifo, this`hostInactive, this`isr, this`sent, this`received,
               this`delivered, this`reader, this`run, this`steps, rxBuf, buffer
      ensures Valid() && Open() && old(run) <= run && old(steps) <= steps
      ensures ptr + space == space0 && delivered == old(delivered) + buffer[..ptr]
      ensures reader == AfterReadLoop(Progress(old(reader).c, buffer[..ptr], space), inn)
    {
      hide Inv, IsRun, Work, Fresh, Abs, Valid;
      ptr, space := 0, space0;
      while true
        invariant Valid() && Open() && old(run) <= run && old(steps) <= steps
        invariant 0 < space && ptr + space == space0
        invariant reader == RLoadIn(Progress(old(reader).c, buffer[..ptr], space))
        invariant delivered == old(delivered) + buffer[..ptr]
        decreases space
      {
        var n: nat;
        inn, n := ReadRun(buffer, ptr, space);
        if n == 0 {
          break;
        }
        assert buffer[..ptr + n] == buffer[..ptr] + buffer[ptr .. ptr + n];
        ptr := ptr + n;
        space := space - n;
        if space == 0 {
          inn := 0;
          break;
        }
      }
    }

    /** One pass of the inner loop of read. */
    method ReadRun(buffer: array<byte>, ptr: nat, space: nat) returns (inn: nat, n: nat)
      requires Valid() && Open() && reader.RLoadIn?
      requires ptr + space <= buffer.Length && buffer != rxBuf && buffer != txBuf
      requires reader.c.space == space && reader.c.got == buffer[..ptr]
      modifies this`rxIn, this`rxOut, this`txOut, this`irqRe, this`irqWe, this`ctlRe, this`ctlWe,
               this`rxFifo, this`txFifo, this`hostInactive, this`isr, this`sent, this`received,
               this`delivered, this`reader, this`run, this`steps, rxBuf, buffer
      ensures Valid() && Open() && old(run) <= run && old(steps) <= steps
      ensures n <= space && buffer[..ptr] == old(buffer[..ptr])
      ensures delivered == old(delivered) + buffer[ptr .. ptr + n]
      ensures n == 0 ==> reader == AfterReadLoop(old(reader).c, inn)
      ensures n > 0 ==> var c := Progress(old(reader).c, buffer[..ptr + n], space - n);
                        reader == if space > n then RLoadIn(c) else AfterReadLoop(c, 0)
    {
      hide Inv, IsRun, Work, Fresh, Abs, Valid;
      Preempt();
      inn := LoadRxIn();
      Preempt();
      var out: nat;
      out, n := LoadRxOut(inn, space);
      if n != 0 {
        TakeRun(buffer, ptr, space, out, n);
      }
    }

    /** A call that has read these bytes so far. */
    ghost function Progress(c: ReadCall, got: seq<byte>, space: nat): ReadCall {
      ReadCall(space, got, c.nonblock, c.before, got != [] || c.dirty)
    }

    /** Copies a run out of the ring and publishes it. */
    method TakeRun(buffer: array<byte>, ptr: nat, space: nat, out: nat, n: nat)
      requires Valid() && Open() && 0 < n <= space && reader.RCopy?
      requires ptr + space <= buffer.Length && buffer != rxBuf && buffer != txBuf
      requires reader.c.space == space && reader.c.got == buffer[..ptr] && reader == RCopy(reader.c, out, n, [])
      modifies this`rxIn, this`rxOut, this`txOut, this`irqRe, this`irqWe, this`ctlRe, this`ctlWe,
               this`rxFifo, this`txFifo, this`hostInactive, this`isr, this`sent, this`received,
               this`delivered, this`reader, this`run, this`steps, rxBuf, buffer
      ensures Valid() && Open() && old(run) <= run && old(steps) <= steps
      ensures buffer[..ptr] == old(buffer[..ptr])
      ensures delivered == old(delivered) + buffer[ptr .. ptr + n]
      ensures var c := Progress(old(reader).c, buffer[..ptr + n], space - n);
              reader == if space > n then RLoadIn(c) else AfterReadLoop(c, 0)
    {
      hide Inv, IsRun, Work, Fresh, Abs, Valid;
      CopyRun(buffer, ptr, out, n);
      Preempt();
      PublishOut(out, n);
      assert buffer[..ptr + n] == buffer[..ptr] + buffer[ptr .. ptr + n];
    }

    /** The memcpy of read. */
    method CopyRun(buffer: array<byte>, ptr: nat, out: nat, n: nat)
      requires Valid() && Open() && reader.RCopy? && reader.out == out && reader.n == n && reader.chunk == []
      requires ptr + n <= buffer.Length && buffer != rxBuf && buffer != txBuf
      modifies this`rxIn, this`txOut, this`irqRe, this`irqWe, this`ctlRe, this`ctlWe, this`rxFifo, this`txFifo,
               this`hostInactive, this`isr, this`sent, this`received, this`reader, this`run, this`steps, rxBuf, buffer
      ensures Valid() && Open() && old(run) <= run && old(steps) <= steps
      ensures reader == RCopy(old(reader).c, out, n, buffer[ptr .. ptr + n])
      ensures buffer[..ptr] == old(buffer[..ptr])
    {
      hide Inv, IsRun, Work, Fresh, Abs, Valid;
      var i := 0;
      while i < n
        invariant 0 <= i <= n
        invariant Valid() && Open() && old(run) <= run && old(steps) <= steps
        invariant reader == RCopy(old(reader).c, out, n, buffer[ptr .. ptr + i])
        invariant buffer[..ptr] == old(buffer[..ptr])
      {
        Preempt();
        ghost var before := buffer[..ptr + i];
        CopyOut(buffer, ptr, out, i);
        assert buffer[..ptr] == before[..ptr] && buffer[ptr .. ptr + i] == before[ptr..];
        assert buffer[ptr .. ptr + i + 1] == buffer[ptr .. ptr + i] + [buffer[ptr + i]];
        i := i + 1;
      }
    }

    /** The reader's wait loop, for as long as patience lasts. */
    method WaitForBytes(inn: nat, patience: nat) returns (left: nat, still: bool)
      requires Valid() && Open() && reader.RSpin? && reader.inn == inn
      modifies this`rxIn, this`txOut, this`irqRe, this`irqWe, this`ctlRe, this`ctlWe, this`rxFifo, this`txFifo,
               this`hostInactive, this`isr, this`sent, this`received, this`reader, this`run, this`steps, rxBuf
      ensures Valid() && Open() && old(run) <= run && old(steps) <= steps
      ensures left <= patience && (if still then left == 0 else left < patience)
      ensures |steps| + left >= |old(steps)| + patience
      ensures reader == if still then old(reader) else RAfterSpin(old(reader).c, inn)
    {
      hide Inv, IsRun, Work, Fresh, Abs, Valid;
      left, still := patience, true;
      while still
        invariant Valid() && Open() && old(run) <= run && old(steps) <= steps
        invariant left <= patience && (!still ==> left < patience)
        invariant |steps| + left >= |old(steps)| + patience
        invariant reader == if still then old(reader) else RAfterSpin(old(reader).c, inn)
        decreases left, still
      {
        if left == 0 {
          break;
        }
        left := left - 1;
        Preempt();
        still := PollRx(inn);
      }
    }

    /** The outer loop of read. It is left with bytes, or with an error, or in the wait loop after
        `patience` tests that tell it to go on waiting. */
    method ReadAll(buffer: array<byte>, space0: nat, nonblock: bool, patience: nat) returns (ptr: nat, still: bool)
      requires Valid() && Open()
      requires space0 <= buffer.Length && buffer != rxBuf && buffer != txBuf
      requires var c := ReadCall(space0, [], nonblock, delivered, false);
               reader == if space0 > 0 then RLoadIn(c) else RFinish(c)
      modifies this`rxIn, this`rxOut, this`txOut, this`irqRe, this`irqWe, this`ctlRe, this`ctlWe,
               this`rxFifo, this`txFifo, this`hostInactive, this`isr, this`sent, this`received,
               this`delivered, this`reader, this`run, this`steps, rxBuf, buffer
      ensures Valid() && Open() && old(run) <= run && old(steps) <= steps
      ensures ptr <= space0 && delivered == old(delivered) + buffer[..ptr]
      ensures still ==> |steps| >= |old(steps)| + patience
      ensures if still then reader.RSpin? && ptr == 0 && !nonblock && space0 > 0
              else if ptr > 0 then reader.RMask? else reader.RFinish?
      ensures !still ==>
              reader.c.got == buffer[..ptr] && reader.c.space == space0 - ptr && reader.c.nonblock == nonblock
    {
      hide Inv, IsRun, Work, Fresh, Abs, Valid;
      var space, waits := space0, patience;
      ptr, still := 0, false;
      while space > 0
        invariant Valid() && Open() && old(run) <= run && old(steps) <= steps
        invariant !still && ptr == 0 && space == space0 && delivered == old(delivered)
        invariant |steps| + waits >= |old(steps)| + patience
        invariant var c := ReadCall(space0, [], nonblock, old(delivered), false);
                  reader == if space > 0 then RLoadIn(c) else RFinish(c)
        decreases waits
      {
        var inn: nat;
        ptr, space, inn := ReadAvailable(buffer, space);
        if ptr != 0 {
          break;
        }
        if nonblock {
          break;
        }
        waits, still := WaitForBytes(inn, waits);
        if still {
          break;
        }
        Preempt();
        var same := TestRxAgain(inn);
        if same {
          break;
        }
      }
    }

    /** altera_avalon_jtag_uart_read. The outcome is Waiting when patience runs out in the wait loop. */
    method Read(buffer: array<byte>, space0: nat, nonblock: bool, patience: nat) returns (outcome: Outcome)
      requires Valid() && Open() && reader.RIdle?
      requires space0 <= buffer.Length && buffer != rxBuf && buffer != txBuf
      modifies this`rxIn, this`rxOut, this`txOut, this`irqRe, this`irqWe, this`ctlRe, this`ctlWe,
               this`rxFifo, this`txFifo, this`hostInactive, this`isr, this`mask, this`sent, this`received,
               this`delivered, this`reader, this`run, this`steps, rxBuf, buffer
      ensures Valid() && Open() && old(run) <= run && old(steps) + [CallRead(space0, nonblock)] <= steps
      ensures outcome.Returned? && outcome.rc > 0 ==>
              outcome.rc <= space0 && delivered == old(delivered) + buffer[..outcome.rc]
      ensures outcome.Returned? && outcome.rc <= 0 ==>
              delivered == old(delivered) && outcome.rc == if nonblock then -EWOULDBLOCK else -EIO
      ensures outcome.Returned? ==> reader.RIdle?
      ensures outcome.Returned? && outcome.rc < space0 && space0 > 0 ==>
              SawEmpty(|old(run)|, outcome.rc <= 0 && !nonblock)
      ensures outcome.Waiting? ==> reader.RSpin? && delivered == old(delivered) && !nonblock && space0 > 0
      ensures outcome.Waiting? ==> SawEmpty(|old(run)|, false) && |steps| > |old(steps)| + patience
    {
      hide Inv, IsRun, Work, Fresh, Abs, Valid, EmptyAt;
      LastState();
      EnterRead(space0, nonblock);
      var ptr, still := ReadAll(buffer, space0, nonblock, patience);
      if still {
        CallSawEmpty(|old(run)|);
        return Waiting;
      }
      if ptr != 0 {
        Preempt();
        EnableRx();
      }
      Preempt();
      CallSawEmpty(|old(run)|);
      ghost var gone := reader.c.got == [] && !nonblock;
      LeaveRead();
      assert ptr < space0 ==> SawEmpty(|old(run)|, gone);
      return Returned(if ptr != 0 then ptr else if nonblock then -EWOULDBLOCK else -EIO);
    }

    // ---- write ----

    /** A call that began at this place of the history found the ring full after its last byte; and it
        found the host away. */
    ghost predicate SawFull(from: nat)
      reads this
    {
      exists k: nat | from <= k < |run| :: FullAt(run[k], accepted)
    }

    ghost predicate SawAway(from: nat)
      reads this
    {
      exists k: nat | from <= k < |run| :: AwayAt(run[k], accepted)
    }

    lemma CallSawFull(from: nat)
      requires Valid() && 0 < from <= |run| && run[from - 1].writer.WIdle?
      ensures writer.WSpin? ==> SawFull(from)
      ensures writer.WFinish? && writer.c.done < |writer.c.data| ==>
              SawFull(from) && (!writer.c.nonblock ==> SawAway(from))
    {
      LastState();
      assert IsRun(run, steps);
      hide Valid, Inv, IsRun, FullAt, AwayAt;
      WriterAlwaysKnows(run, steps, |steps|);
      if FoundFull(run, |steps|) {
        var k: nat :| k <= |steps| && Writes(run, k, |steps|) && FullAt(run[k], run[|steps|].tx.accepted);
        assert SawFull(from);
      }
      if FoundAway(run, |steps|) {
        var k: nat :| k <= |steps| && Writes(run, k, |steps|) && AwayAt(run[k], run[|steps|].tx.accepted);
        assert SawAway(from);
      }
    }

    ghost method EnterWrite(data: seq<byte>, nonblock: bool)
      requires Valid() && Open() && writer.WIdle?
      modifies this`writer, this`run, this`steps
      ensures Valid() && old(run) <= run && steps == old(steps) + [CallWrite(data, nonblock)]
      ensures var c := WriteCall(data, 0, nonblock, accepted, false);
              writer == if data != [] then WLoadIn(c) else WMask(c, 0)
    {
      hide Inv, IsRun, Work, Fresh;
      writer := BeginWrite(Abs().tx, data, nonblock);
      Record(CallWrite(data, nonblock));
    }

    ghost method LeaveWrite()
      requires Valid() && Open() && writer.WFinish?
      modifies this`writer, this`run, this`steps
      ensures Valid() && writer.WIdle? && old(run) <= run && old(steps) <= steps
    {
      hide Inv, IsRun, Work, Fresh;
      writer := WIdle;
      Record(WriterStep);
    }

    /** Takes the snapshot of txIn. */
    method LoadTxIn() returns (inn: nat)
      requires Valid() && Open() && writer.WLoadIn?
      modifies this`writer, this`run, this`steps
      ensures Valid() && old(run) <= run && old(steps) <= steps
      ensures inn == txIn && writer == WLoadOut(old(writer).c, inn)
    {
      hide Inv, IsRun, Work, Fresh;
      inn := txIn;
      writer := WLoadOut(writer.c, inn);
      Record(WriterStep);
    }

    /** Takes the snapshot of txOut and chooses how many bytes to copy. */
    method LoadTxOut(inn: nat, count: nat) returns (out: nat, n: nat)
      requires Valid() && Open() && writer.WLoadOut? && writer.inn == inn && inn == txIn
      requires writer.c.done + count == |writer.c.data|
      modifies this`writer, this`run, this`steps
      ensures Valid() && old(run) <= run && old(steps) <= steps
      ensures n <= count
      ensures writer == if n == 0 then WMask(old(writer).c, out) else WCopy(old(writer).c, inn, out, n, 0)
    {
      Bounds();
      ghost var c := writer.c;
      assert c.done < |c.data|;
      hide Inv, IsRun, Work, Fresh;
      out := txOut;
      if inn < out {
        n := out - 1 - inn;
      } else if out > 0 {
        n := txBuf.Length - inn;
      } else {
        n := txBuf.Length - 1 - inn;
      }
      writer := AfterTxSnapshot(c, txBuf.Length, inn, out);
      Record(WriterStep);
      if n > count {
        n := count;
      }
    }

    lemma FillWithinRing()
      requires Valid() && writer.WCopy?
      ensures writer.inn + writer.n <= txBuf.Length && writer.c.done + writer.n <= |writer.c.data| && txBuf.Length >= 2
    {}

    /** One byte of the memcpy of write. */
    method CopyIn(data: seq<byte>, ptr: nat, inn: nat, i: nat)
      requires Valid() && Open() && writer.WCopy? && writer.inn == inn && writer.i == i < writer.n
      requires writer.c.data == data && writer.c.done == ptr && ptr + i < |data|
      modifies this`writer, this`run, this`steps, txBuf
      ensures Valid() && old(run) <= run && old(steps) <= steps
      ensures writer == old(writer).(i := i + 1)
    {
      FillWithinRing();
      hide Inv, IsRun, Work, Fresh;
      txBuf[inn + i] := data[ptr + i];
      writer := writer.(i := i + 1);
      Record(WriterStep);
    }

    lemma CopyEnds(s: State)
      requires s.isr.Idle? && s.irq.mask.Nobody? && s.writer.WCopy? && s.writer.i == s.writer.n
      ensures Can(s, WriterStep) && Do(s, WriterStep) == DoPublishIn(s)
    {}

    /** Moves txIn past the bytes that were copied. */
    method PublishIn(inn: nat, n: nat)
      requires Valid() && Open() && writer.WCopy? && writer.inn == inn && writer.n == n == writer.i
      modifies this`txIn, this`accepted, this`writer, this`run, this`steps
      ensures Valid() && old(run) <= run && old(steps) <= steps
      ensures var c := old(writer).c;
              var c' := c.(done := c.done + n, dirty := true);
              && c'.done <= |c.data| && accepted == old(accepted) + c.data[c.done .. c'.done]
              && writer == if c'.done < |c.data| then WLoadIn(c') else WMask(c', old(writer).out)
    {
      hide Inv, IsRun, Work, Fresh, Do, Can;
      FillWithinRing();
      CopyEnds(Abs());
      ghost var c, out := writer.c, writer.out;
      ghost var c' := c.(done := c.done + n, dirty := true);
      txIn := Wrap(inn + n, txBuf.Length);
      accepted := accepted + c.data[c.done .. c'.done];
      writer := if c'.done < |c.data| then WLoadIn(c') else WMask(c', out);
      Record(WriterStep);
    }

    /** One test of the writer's wait loop. */
    method PollTx(out: nat) returns (waits: bool)
      requires Valid() && Open() && writer.WSpin? && writer.out == out
      modifies this`writer, this`run, this`steps
      ensures Valid() && old(run) <= run && old(steps) <= steps
      ensures writer == if waits then old(writer) else WAfterSpin(old(writer).c)
      ensures |steps| == |old(steps)| + 1
    {
      hide Inv, IsRun, Work, Fresh;
      waits := out == txOut && hostInactive < timeout;
      if !waits {
        writer := WAfterSpin(writer.c);
      }
      Record(WriterStep);
    }

    /** Looks whether the host has been away. */
    method TestHost() returns (gone: bool)
      requires Valid() && Open() && writer.WAfterSpin?
      modifies this`writer, this`run, this`steps
      ensures Valid() && old(run) <= run && old(steps) <= steps
      ensures writer == if gone then WFinish(old(writer).c) else WLoadIn(old(writer).c)
    {
      hide Inv, IsRun, Work, Fresh;
      gone := hostInactive != 0;
      writer := if gone then WFinish(writer.c) else WLoadIn(writer.c);
      Record(WriterStep);
    }

    /** Sets WE in irq_enable and in the device, with interrupts disabled. */
    method EnableTx()
      requires Valid() && Open() && writer.WMask?
      modifies this`irqRe, this`irqWe, this`ctlRe, this`ctlWe, this`rxFifo, this`txFifo,
               this`mask, this`writer, this`sent, this`received, this`run, this`steps
      ensures Valid() && Open() && old(run) <= run && old(steps) <= steps
      ensures var c := old(writer).c.(dirty := false);
              writer == if c.done < |c.data| && !c.nonblock then WSpin(c, old(writer).out) else WFinish(c)
    {
      hide Inv, IsRun, Work, Fresh, Abs, Valid;
      DisableForWriter();
      ProgramTx();
      EnableForWriter();
    }

    /** irq_enable |= WE, and the write of the control register. */
    method ProgramTx()
      requires Valid() && isr.Idle? && mask.ByWriter? && writer.WLoadEnable?
      modifies this`irqRe, this`irqWe, this`ctlRe, this`ctlWe, this`rxFifo, this`txFifo,
               this`writer, this`sent, this`received, this`run, this`steps
      ensures Valid() && old(run) <= run && old(steps) <= steps
      ensures writer == WUnmask(old(writer).c.(dirty := false), old(writer).out)
    {
      hide Inv, IsRun, Work, Fresh, Abs, Valid, Busy;
      DeviceActivity();
      var re := LoadEnableForWriter();
      DeviceActivity();
      StoreEnableForWriter(re);
      DeviceActivity();
      WriteControlForWriter();
      DeviceActivity();
    }

    method DisableForWriter()
      requires Valid() && Open() && writer.WMask?
      modifies this`mask, this`writer, this`run, this`steps
      ensures Valid() && old(run) <= run && old(steps) <= steps
      ensures isr.Idle? && mask.ByWriter? && writer == WLoadEnable(old(writer).c, old(writer).out)
    {
      hide Inv, IsRun, Work, Fresh;
      mask, writer := ByWriter, WLoadEnable(writer.c, writer.out);
      Record(WriterStep);
    }

    method LoadEnableForWriter() returns (re: bool)
      requires Valid() && isr.Idle? && mask.ByWriter? && writer.WLoadEnable?
      modifies this`writer, this`run, this`steps
      ensures Valid() && old(run) <= run && old(steps) <= steps
      ensures writer == WStoreEnable(old(writer).c, old(writer).out, re)
    {
      hide Inv, IsRun, Work, Fresh;
      re := irqRe;
      writer := WStoreEnable(writer.c, writer.out, re);
      Record(WriterStep);
    }

    method StoreEnableForWriter(re: bool)
      requires Valid() && isr.Idle? && mask.ByWriter? && writer.WStoreEnable? && writer.re == re
      modifies this`irqRe, this`irqWe, this`writer, this`run, this`steps
      ensures Valid() && old(run) <= run && old(steps) <= steps
      ensures writer == WWriteControl(old(writer).c.(dirty := false), old(writer).out)
    {
      hide Inv, IsRun, Work, Fresh;
      irqRe, irqWe := re, true;
      writer := WWriteControl(writer.c.(dirty := false), writer.out);
      Record(WriterStep);
    }

    method WriteControlForWriter()
      requires Valid() && isr.Idle? && mask.ByWriter? && writer.WWriteControl?
      modifies this`ctlRe, this`ctlWe, this`writer, this`run, this`steps
      ensures Valid() && old(run) <= run && old(steps) <= steps
      ensures writer == WUnmask(old(writer).c, old(writer).out)
    {
      hide Inv, IsRun, Work, Fresh;
      ctlRe, ctlWe := irqRe, irqWe;
      writer := WUnmask(writer.c, writer.out);
      Record(WriterStep);
    }

    method EnableForWriter()
      requires Valid() && isr.Idle? && mask.ByWriter? && writer.WUnmask?
      modifies this`mask, this`writer, this`run, this`steps
      ensures Valid() && Open() && old(run) <= run && old(steps) <= steps
      ensures var c := old(writer).c;
              writer == if c.done < |c.data| && !c.nonblock then WSpin(c, old(writer).out) else WFinish(c)
    {
      hide Inv, IsRun, Work, Fresh;
      ghost var c, out := writer.c, writer.out;
      mask, writer := Nobody, if c.done < |c.data| && !c.nonblock then WSpin(c, out) else WFinish(c);
      Record(WriterStep);
    }

    /** Copies a run into the ring and publishes it. */
    method GiveRun(data: seq<byte>, ptr: nat, inn: nat, n: nat)
      requires Valid() && Open() && writer.WCopy? && writer.inn == inn && writer.n == n && writer.i == 0
      requires writer.c.data == data && writer.c.done == ptr && ptr + n <= |data|
      modifies this`rxIn, this`txIn, this`txOut, this`irqRe, this`irqWe, this`ctlRe, this`ctlWe,
               this`rxFifo, this`txFifo, this`hostInactive, this`isr, this`sent, this`received,
               this`accepted, this`writer, this`run, this`steps, rxBuf, txBuf
      ensures Valid() && Open() && old(run) <= run && old(steps) <= steps
      ensures accepted == old(accepted) + data[ptr .. ptr + n]
      ensures var c := old(writer).c.(done := ptr + n, dirty := true);
              writer == if ptr + n < |data| then WLoadIn(c) else WMask(c, old(writer).out)
    {
      hide Inv, IsRun, Work, Fresh, Abs, Valid;
      var i := 0;
      while i < n
        invariant 0 <= i <= n
        invariant Valid() && Open() && old(run) <= run && old(steps) <= steps
        invariant writer == old(writer).(i := i) && accepted == old(accepted)
      {
        Preempt();
        CopyIn(data, ptr, inn, i);
        i := i + 1;
      }
      Preempt();
      ghost var w := writer;
      PublishIn(inn, n);
      assert w.c.data[w.c.done .. w.c.done + n] == data[ptr .. ptr + n];
    }

    /** One pass of the inner loop of write. */
    method WriteRun(data: seq<byte>, ptr: nat) returns (out: nat, n: nat)
      requires Valid() && Open() && writer.WLoadIn? && writer.c.data == data && writer.c.done == ptr < |data|
      modifies this`rxIn, this`txIn, this`txOut, this`irqRe, this`irqWe, this`ctlRe, this`ctlWe,
               this`rxFifo, this`txFifo, this`hostInactive, this`isr, this`sent, this`received,
               this`accepted, this`writer, this`run, this`steps, rxBuf, txBuf
      ensures Valid() && Open() && old(run) <= run && old(steps) <= steps
      ensures ptr + n <= |data| && accepted == old(accepted) + data[ptr .. ptr + n]
      ensures n == 0 ==> writer == WMask(old(writer).c, out)
      ensures n > 0 ==> var c := old(writer).c.(done := ptr + n, dirty := true);
                        writer == if ptr + n < |data| then WLoadIn(c) else WMask(c, out)
    {
      hide Inv, IsRun, Work, Fresh, Abs, Valid;
      Preempt();
      var inn := LoadTxIn();
      Preempt();
      out, n := LoadTxOut(inn, |data| - ptr);
      if n != 0 {
        GiveRun(data, ptr, inn, n);
      }
    }

    /** The inner loop of write. */
    method WriteAvailable(data: seq<byte>, ptr0: nat, out0: nat) returns (ptr: nat, out: nat)
      requires Valid() && Open() && ptr0 <= |data|
      requires ptr0 < |data| ==> writer.WLoadIn? && writer.c.data == data && writer.c.done == ptr0
      requires ptr0 == |data| ==> writer.WMask? && writer.c.data == data && writer.c.done == ptr0 && writer.out == out0
      modifies this`rxIn, this`txIn, this`txOut, this`irqRe, this`irqWe, this`ctlRe, this`ctlWe,
               this`rxFifo, this`txFifo, this`hostInactive, this`isr, this`sent, this`received,
               this`accepted, this`writer, this`run, this`steps, rxBuf, txBuf
      ensures Valid() && Open() && old(run) <= run && old(steps) <= steps
      ensures ptr0 <= ptr <= |data| && accepted == old(accepted) + data[ptr0..ptr]
      ensures writer == WMask(old(writer).c.(done := ptr, dirty := ptr > ptr0 || old(writer).c.dirty), out)
    {
      hide Inv, IsRun, Work, Fresh, Abs, Valid;
      ptr, out := ptr0, out0;
      ghost var c := writer.c;
      while ptr < |data|
        invariant Valid() && Open() && old(run) <= run && old(steps) <= steps
        invariant ptr0 <= ptr <= |data| && accepted == old(accepted) + data[ptr0..ptr]
        invariant var d := c.(done := ptr, dirty := ptr > ptr0 || c.dirty);
                  writer == if ptr < |data| then WLoadIn(d) else WMask(d, out)
        decreases |data| - ptr
      {
        var n: nat;
        out, n := WriteRun(data, ptr);
        assert data[ptr0 .. ptr + n] == data[ptr0..ptr] + data[ptr .. ptr + n];
        if n == 0 {
          break;
        }
        ptr := ptr + n;
      }
    }

    /** The inner loop of write and the enable that follows it. */
    method WriteAndEnable(data: seq<byte>, nonblock: bool, ptr0: nat, out0: nat) returns (ptr: nat, out: nat)
      requires Valid() && Open() && ptr0 <= |data| && !writer.WIdle?
      requires writer.c.data == data && writer.c.done == ptr0 && writer.c.nonblock == nonblock && !writer.c.dirty
      requires if ptr0 < |data| then writer.WLoadIn? else writer.WMask? && writer.out == out0
      modifies this`rxIn, this`txIn, this`txOut, this`irqRe, this`irqWe, this`ctlRe, this`ctlWe,
               this`rxFifo, this`txFifo, this`hostInactive, this`isr, this`mask, this`sent, this`received,
               this`accepted, this`writer, this`run, this`steps, rxBuf, txBuf
      ensures Valid() && Open() && old(run) <= run && old(steps) <= steps
      ensures ptr0 <= ptr <= |data| && accepted == old(accepted) + data[ptr0..ptr]
      ensures var c := old(writer).c.(done := ptr);
              writer == if ptr < |data| && !nonblock then WSpin(c, out) else WFinish(c)
    {
      hide Inv, IsRun, Work, Fresh, Abs, Valid;
      ptr, out := WriteAvailable(data, ptr0, out0);
      Preempt();
      EnableTx();
    }

    /** The writer's wait loop, for as long as patience lasts. */
    method WaitForRoom(out: nat, patience: nat) returns (left: nat, still: bool)
      requires Valid() && Open() && writer.WSpin? && writer.out == out
      modifies this`rxIn, this`txOut, this`irqRe, this`irqWe, this`ctlRe, this`ctlWe, this`rxFifo, this`txFifo,
               this`hostInactive, this`isr, this`sent, this`received, this`writer, this`run, this`steps, rxBuf
      ensures Valid() && Open() && old(run) <= run && old(steps) <= steps
      ensures left <= patience && (if still then left == 0 else left < patience)
      ensures |steps| + left >= |old(steps)| + patience
      ensures writer == if still then old(writer) else WAfterSpin(old(writer).c)
    {
      hide Inv, IsRun, Work, Fresh, Abs, Valid;
      left, still := patience, true;
      while still
        invariant Valid() && Open() && old(run) <= run && old(steps) <= steps
        invariant left <= patience && (!still ==> left < patience)
        invariant |steps| + left >= |old(steps)| + patience
        invariant writer == if still then old(writer) else WAfterSpin(old(writer).c)
        decreases left, still
      {
        if left == 0 {
          break;
        }
        left := left - 1;
        Preempt();
        still := PollTx(out);
      }
    }

    /** Waits for room and then looks whether the host is still there. */
    method AwaitRoom(out: nat, patience: nat) returns (left: nat, still: bool, gone: bool)
      requires Valid() && Open() && writer.WSpin? && writer.out == out
      modifies this`rxIn, this`txOut, this`irqRe, this`irqWe, this`ctlRe, this`ctlWe, this`rxFifo, this`txFifo,
               this`hostInactive, this`isr, this`sent, this`received, this`writer, this`run, this`steps, rxBuf
      ensures Valid() && Open() && old(run) <= run && old(steps) <= steps
      ensures left <= patience && (if still then left == 0 else left < patience)
      ensures |steps| + left >= |old(steps)| + patience
      ensures writer == if still then old(writer) else if gone then WFinish(old(writer).c) else WLoadIn(old(writer).c)
    {
      hide Inv, IsRun, Work, Fresh, Abs, Valid;
      gone := false;
      left, still := WaitForRoom(out, patience);
      if !still {
        Preempt();
        gone := TestHost();
      }
    }

    /** The outer loop of write. Each wait and each repetition uses up some of
        `patience`. */
    method WriteAll(data: seq<byte>, nonblock: bool, patience: nat) returns (ptr: nat, still: bool)
      requires Valid() && Open()
      requires var c := WriteCall(data, 0, nonblock, accepted, false);
               writer == if data != [] then WLoadIn(c) else WMask(c, 0)
      modifies this`rxIn, this`txIn, this`txOut, this`irqRe, this`irqWe, this`ctlRe, this`ctlWe,
               this`rxFifo, this`txFifo, this`hostInactive, this`isr, this`mask, this`sent, this`received,
               this`accepted, this`writer, this`run, this`steps, rxBuf, txBuf
      ensures Valid() && Open() && old(run) <= run && old(steps) <= steps
      ensures ptr <= |data| && accepted == old(accepted) + data[..ptr]
      ensures still ==> writer.WSpin? && ptr < |data| && !nonblock && |steps| >= |old(steps)| + patience
      ensures !still ==>
              writer.WFinish? && writer.c.done == ptr && writer.c.data == data && writer.c.nonblock == nonblock
    {
      hide Inv, IsRun, Work, Fresh, Abs, Valid;
      var out, waits := 0, patience;
      ptr, still := 0, false;
      ghost var c := WriteCall(data, 0, nonblock, accepted, false);
      while true
        invariant Valid() && Open() && old(run) <= run && old(steps) <= steps
        invariant !still && ptr <= |data| && accepted == old(accepted) + data[..ptr]
        invariant |steps| + waits >= |old(steps)| + patience
        invariant writer == if ptr < |data| then WLoadIn(c.(done := ptr)) else WMask(c.(done := ptr), out)
        decreases waits
      {
        ghost var ptr0 := ptr;
        ptr, out := WriteAndEnable(data, nonblock, ptr, out);
        assert data[..ptr] == data[..ptr0] + data[ptr0..ptr];
        if ptr == |data| || nonblock {
          break;
        }
        var gone;
        waits, still, gone := AwaitRoom(out, waits);
        if still || gone {
          break;
        }
      }
    }

    /** altera_avalon_jtag_uart_write. The caller's bytes are a value, which nothing else can change.
        The outcome is Waiting when patience runs out in the wait loop. */
    method Write(data: seq<byte>, nonblock: bool, patience: nat) returns (outcome: Outcome)
      requires Valid() && Open() && writer.WIdle?
      modifies this`rxIn, this`txIn, this`txOut, this`irqRe, this`irqWe, this`ctlRe, this`ctlWe,
               this`rxFifo, this`txFifo, this`hostInactive, this`isr, this`mask, this`sent, this`received,
               this`accepted, this`writer, this`run, this`steps, rxBuf, txBuf
      ensures Valid() && Open() && old(run) <= run && old(steps) + [CallWrite(data, nonblock)] <= steps
      ensures outcome.Returned? && outcome.rc > 0 ==>
              outcome.rc <= |data| && accepted == old(accepted) + data[..outcome.rc]
      ensures outcome.Returned? && outcome.rc <= 0 ==>
              accepted == old(accepted) && outcome.rc == if nonblock then -EWOULDBLOCK else -EIO
      ensures outcome.Returned? ==> writer.WIdle?
      ensures outcome.Returned? && outcome.rc < |data| && data != [] ==>
              SawFull(|old(run)|) && (!nonblock ==> SawAway(|old(run)|))
      ensures outcome.Waiting? ==>
              writer.WSpin? && !nonblock && exists n | 0 <= n < |data| :: accepted == old(accepted) + data[..n]
      ensures outcome.Waiting? ==> SawFull(|old(run)|) && |steps| > |old(steps)| + patience
    {
      hide Inv, IsRun, Work, Fresh, Abs, Valid, FullAt, AwayAt;
      LastState();
      EnterWrite(data, nonblock);
      var ptr, still := WriteAll(data, nonblock, patience);
      if still {
        CallSawFull(|old(run)|);
        return Waiting;
      }
      Preempt();
      CallSawFull(|old(run)|);
      LeaveWrite();
      assert ptr < |data| ==> SawFull(|old(run)|) && (!nonblock ==> SawAway(|old(run)|));
      return Returned(if ptr != 0 then ptr else if nonblock then -EWOULDBLOCK else -EIO);
    }

    // ---- ioctl ----

    /** altera_avalon_jtag_uart_ioctl with TIOCSTIMEOUT. A driver without its alarm keeps INT_MAX; any
        other timeout is at least two ticks and never INT_MAX. */
    method SetTimeLimit(limit: int) returns (rc: int)
      requires Valid() && isr.Idle?
      modifies this`timeout, this`run, this`steps
      ensures Valid() && old(run) <= run && old(steps) <= steps
      ensures rc == 0 <==> old(timeout) != INT_MAX
      ensures rc != 0 ==> rc == -ENOTTY && timeout == old(timeout)
      ensures rc == 0 ==> 2 <= timeout < INT_MAX && (2 <= limit < INT_MAX ==> timeout == limit)
      ensures rc == 0 && !(2 <= limit < INT_MAX) ==> hostInactive < timeout
    {
      Bounds();
      hide Inv, IsRun, Work, Fresh;
      rc := -ENOTTY;
      if timeout != INT_MAX {
        timeout := if 2 <= limit < INT_MAX then limit else INT_MAX - 1;
        rc := 0;
        Record(SetTimeout(timeout));
      }
    }

    /** The same with TIOCGCONNECTED. */
    method IsConnected() returns (rc: int, connected: bool)
      requires Valid()
      ensures rc == 0 <==> timeout != INT_MAX
      ensures rc == 0 ==> connected == (hostInactive < timeout)
      ensures rc == 0 && timeout == INT_MAX - 1 ==> connected
    {
      Bounds();
      rc, connected := -ENOTTY, false;
      if timeout != INT_MAX {
        rc, connected := 0, hostInactive < timeout;
      }
    }
  }
}
