/** The JTAG UART fast driver as a step system.

    Four parties take turns in any order: a thread in altera_avalon_jtag_uart_read, a thread in
    altera_avalon_jtag_uart_write, the interrupt routine, and the device with the host behind it.
    Each access of a thread to a variable that it shares with the interrupt routine is a step of
    its own, and memcpy is one step a byte. While the interrupt routine runs no thread takes a
    step; while a thread has interrupts disabled nothing but the device and that thread does. */
module UartMachine {
  import opened Errno
  import opened Ring
  import opened Wrappers

  type byte = bv8

  const INT_MAX := 0x7FFF_FFFF

  /** Who called alt_irq_disable_all. */
  datatype Mask = Nobody | ByReader | ByWriter

  /** One call of read: what is left of space, what has been stored at the caller's buffer, the
      bytes that had been delivered when the call began, and whether rx_out has moved since the
      call last enabled the receive interrupt. */
  datatype ReadCall = ReadCall(space: nat, got: seq<byte>, nonblock: bool, before: seq<byte>, dirty: bool)

  /** Where the reading thread is. */
  datatype Reader =
    | RIdle
    | RLoadIn(c: ReadCall)
    | RLoadOut(c: ReadCall, inn: nat)
    | RCopy(c: ReadCall, out: nat, n: nat, chunk: seq<byte>)
    | RSpin(c: ReadCall, inn: nat)
    | RAfterSpin(c: ReadCall, inn: nat)
    | RMask(c: ReadCall)
    | RLoadEnable(c: ReadCall)
    | RStoreEnable(c: ReadCall, we: bool)
    | RWriteControl(c: ReadCall)
    | RUnmask(c: ReadCall)
    | RFinish(c: ReadCall)

  /** One call of write: the caller's bytes, how many have been accepted, the bytes that had been
      accepted when the call began, and whether tx_in has moved since the call last enabled the
      transmit interrupt. */
  datatype WriteCall = WriteCall(data: seq<byte>, done: nat, nonblock: bool, before: seq<byte>, dirty: bool)

  /** Where the writing thread is. */
  datatype Writer =
    | WIdle
    | WLoadIn(c: WriteCall)
    | WLoadOut(c: WriteCall, inn: nat)
    | WCopy(c: WriteCall, inn: nat, out: nat, n: nat, i: nat)
    | WMask(c: WriteCall, out: nat)
    | WLoadEnable(c: WriteCall, out: nat)
    | WStoreEnable(c: WriteCall, out: nat, re: bool)
    | WWriteControl(c: WriteCall, out: nat)
    | WUnmask(c: WriteCall, out: nat)
    | WSpin(c: WriteCall, out: nat)
    | WAfterSpin(c: WriteCall)
    | WFinish(c: WriteCall)

  /** Where the interrupt routine is: before its read of the control register, in its receive loop
      (with the RAVAIL field of the last data read, and WI and WSPACE of the control read), or in
      its transmit loop. */
  datatype Isr =
    | Idle
    | Control
    | RxLoop(avail: bool, wi: bool, wspace: nat)
    | TxLoop(space: nat)

  /** The receive side: the ring, the device's receive FIFO, and what the host has sent and callers
      of read have been given. */
  datatype RxSide = RxSide(buf: seq<byte>, inn: nat, out: nat, fifo: seq<byte>,
                           sent: seq<byte>, delivered: seq<byte>)

  /** The transmit side: the ring, the device's transmit FIFO and its size, and what has been
      accepted from callers of write and received by the host. */
  datatype TxSide = TxSide(buf: seq<byte>, inn: nat, out: nat, fifo: seq<byte>, cap: nat,
                           accepted: seq<byte>, received: seq<byte>)

  /** irq_enable, the enable bits of the control register, and the processor's interrupt mask. */
  datatype Irq = Irq(re: bool, we: bool, ctlRe: bool, ctlWe: bool, mask: Mask)

  datatype State = State(rx: RxSide, tx: TxSide, irq: Irq, reader: Reader, writer: Writer, isr: Isr,
                         hostInactive: nat, timeout: nat)

  datatype Step =
    | HostSend(b: byte)
    | HostTake
    | Timer(active: bool)
    | SetTimeout(timeout: nat)
    | IsrEnter
    | IsrControl(ri: bool, wi: bool)
    | IsrStep
    | CallRead(space: nat, nonblock: bool)
    | ReaderStep
    | CallWrite(data: seq<byte>, nonblock: bool)
    | WriterStep

  // ---- What each step does; None stands for an access outside a buffer ----

  /** Free places in the device's transmit FIFO, the WSPACE field. */
  function WSpace(tx: TxSide): nat {
    if |tx.fifo| <= tx.cap then tx.cap - |tx.fifo| else 0
  }

  predicate ReaderRuns(s: State) {
    s.isr.Idle? && !s.irq.mask.ByWriter?
  }

  predicate WriterRuns(s: State) {
    s.isr.Idle? && !s.irq.mask.ByReader?
  }

  predicate Can(s: State, a: Step) {
    match a
    case HostSend(_) => true
    case HostTake => s.tx.fifo != []
    case Timer(_) => s.isr.Idle? && s.irq.mask.Nobody?
    case SetTimeout(_) => s.isr.Idle?
    case IsrEnter => s.isr.Idle? && s.irq.mask.Nobody?
    case IsrControl(ri, wi) =>
      s.isr.Control? && (ri ==> s.irq.ctlRe && s.rx.fifo != []) && (wi ==> s.irq.ctlWe && WSpace(s.tx) > 0)
    case IsrStep => s.isr.RxLoop? || s.isr.TxLoop?
    case CallRead(_, _) => ReaderRuns(s) && s.reader.RIdle?
    case ReaderStep => ReaderRuns(s) && !s.reader.RIdle? && (s.reader.RMask? ==> s.irq.mask.Nobody?)
    case CallWrite(_, _) => WriterRuns(s) && s.writer.WIdle?
    case WriterStep => WriterRuns(s) && !s.writer.WIdle? && (s.writer.WMask? ==> s.irq.mask.Nobody?)
  }

  function Do(s: State, a: Step): Option<State>
    requires Can(s, a)
  {
    match a
    case HostSend(b) => Some(s.(rx := s.rx.(fifo := s.rx.fifo + [b], sent := s.rx.sent + [b])))
    case HostTake => Some(s.(tx := s.tx.(fifo := s.tx.fifo[1..], received := s.tx.received + [s.tx.fifo[0]])))
    case Timer(active) => Some(DoTimer(s, active))
    case SetTimeout(t) => Some(s.(timeout := t))
    case IsrEnter => Some(s.(isr := Control))
    case IsrControl(ri, wi) => Some(s.(isr := AfterControl(s.tx, ri, wi)))
    case IsrStep => if s.isr.RxLoop? then DoRxLoop(s) else DoTxLoop(s)
    case CallRead(space, nonblock) => Some(s.(reader := BeginRead(s.rx, space, nonblock)))
    case ReaderStep => DoReader(s)
    case CallWrite(data, nonblock) => Some(s.(writer := BeginWrite(s.tx, data, nonblock)))
    case WriterStep => DoWriter(s)
  }

  /** altera_avalon_jtag_uart_timeout; active is the AC bit. */
  function DoTimer(s: State, active: bool): State {
    if active then s.(irq := Program(s.irq), hostInactive := 0)
    else if s.hostInactive < INT_MAX - 2 then s.(hostInactive := s.hostInactive + 1)
    else s
  }

  /** A write of irq_enable to the control register. */
  function Program(q: Irq): Irq {
    q.(ctlRe := q.re, ctlWe := q.we)
  }

  function AfterControl(tx: TxSide, ri: bool, wi: bool): Isr {
    if ri then RxLoop(true, wi, WSpace(tx)) else if wi then TxLoop(WSpace(tx)) else Idle
  }

  /** One pass of the receive loop, or what follows the loop. */
  function DoRxLoop(s: State): Option<State>
    requires s.isr.RxLoop?
  {
    var rx := s.rx;
    if rx.inn >= |rx.buf| then None else
    var next := Wrap(rx.inn + 1, |rx.buf|);
    if next == rx.out then Some(AfterRxLoop(s, s.isr.avail))
    else if rx.fifo == [] then Some(AfterRxLoop(s, false))
    else Some(s.(rx := rx.(buf := rx.buf[rx.inn := rx.fifo[0]], inn := next, fifo := rx.fifo[1..]),
                 isr := s.isr.(avail := |rx.fifo| > 1)))
  }

  function AfterRxLoop(s: State, avail: bool): State
    requires s.isr.RxLoop?
  {
    s.(irq := if avail then Program(s.irq.(re := false)) else s.irq,
       isr := if s.isr.wi then TxLoop(s.isr.wspace) else Control)
  }

  /** One pass of the transmit loop, or what follows the loop. A byte written to a full FIFO is
      lost. */
  function DoTxLoop(s: State): Option<State>
    requires s.isr.TxLoop?
  {
    var tx, space := s.tx, s.isr.space;
    if space > 0 && tx.out != tx.inn then
      if tx.out >= |tx.buf| then None
      else Some(s.(tx := tx.(fifo := if |tx.fifo| < tx.cap then tx.fifo + [tx.buf[tx.out]] else tx.fifo,
                             out := Wrap(tx.out + 1, |tx.buf|)),
                   isr := TxLoop(space - 1)))
    else Some(s.(irq := if space > 0 then Program(s.irq.(we := false)) else s.irq, isr := Control))
  }

  function BeginRead(rx: RxSide, space: nat, nonblock: bool): Reader {
    var c := ReadCall(space, [], nonblock, rx.delivered, false);
    if space > 0 then RLoadIn(c) else RFinish(c)
  }

  /** What read does once its inner loop has ended. */
  function AfterReadLoop(c: ReadCall, inn: nat): Reader {
    if c.got != [] then RMask(c) else if c.nonblock then RFinish(c) else RSpin(c, inn)
  }

  /** How many bytes can be copied without wrapping, seen from snapshots of rx_in and rx_out. */
  function Available(len: nat, inn: nat, out: nat): nat
    requires out <= len
  {
    if inn >= out then inn - out else len - out
  }

  function DoReader(s: State): Option<State> {
    var rx := s.rx;
    match s.reader
    case RIdle => Some(s)
    case RLoadIn(c) => Some(s.(reader := RLoadOut(c, rx.inn)))
    case RLoadOut(c, inn) =>
      if rx.out > |rx.buf| then None else Some(s.(reader := AfterRxSnapshot(c, |rx.buf|, inn, rx.out)))
    case RCopy(c, out, n, chunk) => if |chunk| < n then DoCopyOut(s) else DoPublishOut(s)
    case RSpin(c, inn) =>
      Some(if inn == rx.inn && s.hostInactive < s.timeout then s else s.(reader := RAfterSpin(c, inn)))
    case RAfterSpin(c, inn) => Some(s.(reader := if inn == rx.inn then RFinish(c) else RLoadIn(c)))
    case RFinish(c) => Some(s.(reader := RIdle))
    case _ => Some(DoReaderEnable(s))
  }

  function AfterRxSnapshot(c: ReadCall, len: nat, inn: nat, out: nat): Reader
    requires out <= len
  {
    var n := Available(len, inn, out);
    if n == 0 then AfterReadLoop(c, inn) else RCopy(c, out, if n > c.space then c.space else n, [])
  }

  /** One byte of the memcpy of read. */
  function DoCopyOut(s: State): Option<State>
    requires s.reader.RCopy?
  {
    var i := s.reader.out + |s.reader.chunk|;
    if i >= |s.rx.buf| then None
    else Some(s.(reader := s.reader.(chunk := s.reader.chunk + [s.rx.buf[i]])))
  }

  /** The advance of ptr, space and rx_out after the memcpy. */
  function DoPublishOut(s: State): Option<State>
    requires s.reader.RCopy?
  {
    var RCopy(c, out, n, chunk) := s.reader;
    if n > c.space || |s.rx.buf| == 0 then None else
    var c' := c.(space := c.space - n, got := c.got + chunk, dirty := true);
    Some(s.(rx := s.rx.(out := Wrap(out + n, |s.rx.buf|), delivered := s.rx.delivered + chunk),
            reader := if c'.space > 0 then RLoadIn(c') else AfterReadLoop(c', 0)))
  }

  predicate ReaderEnables(r: Reader) {
    r.RMask? || r.RLoadEnable? || r.RStoreEnable? || r.RWriteControl? || r.RUnmask?
  }

  /** irq_enable |= RE, written to the device, with interrupts disabled. */
  function DoReaderEnable(s: State): State
    requires ReaderEnables(s.reader)
  {
    match s.reader
    case RMask(c) => s.(irq := s.irq.(mask := ByReader), reader := RLoadEnable(c))
    case RLoadEnable(c) => s.(reader := RStoreEnable(c, s.irq.we))
    case RStoreEnable(c, we) => s.(irq := s.irq.(re := true, we := we), reader := RWriteControl(c.(dirty := false)))
    case RWriteControl(c) => s.(irq := Program(s.irq), reader := RUnmask(c))
    case RUnmask(c) => s.(irq := s.irq.(mask := Nobody), reader := RFinish(c))
  }

  function BeginWrite(tx: TxSide, data: seq<byte>, nonblock: bool): Writer {
    var c := WriteCall(data, 0, nonblock, tx.accepted, false);
    if data != [] then WLoadIn(c) else WMask(c, 0)
  }

  /** How many bytes fit without wrapping, seen from snapshots of tx_in and tx_out. */
  function Room(len: nat, inn: nat, out: nat): nat
    requires inn < len
  {
    if inn < out then out - 1 - inn
    else if out > 0 then len - inn
    else len - 1 - inn
  }

  function DoWriter(s: State): Option<State> {
    var tx := s.tx;
    match s.writer
    case WIdle => Some(s)
    case WLoadIn(c) => Some(s.(writer := WLoadOut(c, tx.inn)))
    case WLoadOut(c, inn) =>
      if inn >= |tx.buf| || c.done > |c.data| then None
      else Some(s.(writer := AfterTxSnapshot(c, |tx.buf|, inn, tx.out)))
    case WCopy(c, inn, out, n, i) => if i < n then DoCopyIn(s) else DoPublishIn(s)
    case WSpin(c, out) =>
      Some(if out == tx.out && s.hostInactive < s.timeout then s else s.(writer := WAfterSpin(c)))
    case WAfterSpin(c) => Some(s.(writer := if s.hostInactive != 0 then WFinish(c) else WLoadIn(c)))
    case WFinish(c) => Some(s.(writer := WIdle))
    case _ => Some(DoWriterEnable(s))
  }

  function AfterTxSnapshot(c: WriteCall, len: nat, inn: nat, out: nat): Writer
    requires inn < len && c.done <= |c.data|
  {
    var n, count := Room(len, inn, out), |c.data| - c.done;
    if n == 0 then WMask(c, out) else WCopy(c, inn, out, if n > count then count else n, 0)
  }

  /** One byte of the memcpy of write. */
  function DoCopyIn(s: State): Option<State>
    requires s.writer.WCopy?
  {
    var WCopy(c, inn, out, n, i) := s.writer;
    if inn + i >= |s.tx.buf| || c.done + i >= |c.data| then None
    else Some(s.(tx := s.tx.(buf := s.tx.buf[inn + i := c.data[c.done + i]]), writer := WCopy(c, inn, out, n, i + 1)))
  }

  /** The advance of ptr, count and tx_in after the memcpy. */
  function DoPublishIn(s: State): Option<State>
    requires s.writer.WCopy?
  {
    var WCopy(c, inn, out, n, i) := s.writer;
    if c.done + n > |c.data| || |s.tx.buf| == 0 then None else
    var c' := c.(done := c.done + n, dirty := true);
    Some(s.(tx := s.tx.(inn := Wrap(inn + n, |s.tx.buf|), accepted := s.tx.accepted + c.data[c.done .. c.done + n]),
            writer := if c'.done < |c.data| then WLoadIn(c') else WMask(c', out)))
  }

  predicate WriterEnables(w: Writer) {
    w.WMask? || w.WLoadEnable? || w.WStoreEnable? || w.WWriteControl? || w.WUnmask?
  }

  /** irq_enable |= WE, written to the device, with interrupts disabled; then, when bytes are left,
      return or wait. */
  function DoWriterEnable(s: State): State
    requires WriterEnables(s.writer)
  {
    match s.writer
    case WMask(c, out) => s.(irq := s.irq.(mask := ByWriter), writer := WLoadEnable(c, out))
    case WLoadEnable(c, out) => s.(writer := WStoreEnable(c, out, s.irq.re))
    case WStoreEnable(c, out, re) =>
      s.(irq := s.irq.(re := re, we := true), writer := WWriteControl(c.(dirty := false), out))
    case WWriteControl(c, out) => s.(irq := Program(s.irq), writer := WUnmask(c, out))
    case WUnmask(c, out) =>
      s.(irq := s.irq.(mask := Nobody),
         writer := if c.done < |c.data| && !c.nonblock then WSpin(c, out) else WFinish(c))
  }

  /** What a call returns. */
  function ReadResult(c: ReadCall): int {
    if c.got != [] then |c.got| else if c.nonblock then -EWOULDBLOCK else -EIO
  }

  function WriteResult(c: WriteCall): int {
    if c.done != 0 then c.done else if c.nonblock then -EWOULDBLOCK else -EIO
  }

  // ---- The invariant ----

  predicate RxRange(rx: RxSide) {
    |rx.buf| >= 2 && rx.inn < |rx.buf| && rx.out < |rx.buf|
  }

  predicate TxRange(tx: TxSide) {
    |tx.buf| >= 2 && tx.inn < |tx.buf| && tx.out < |tx.buf| && |tx.fifo| <= tx.cap
  }

  function RxHeld(rx: RxSide): seq<byte>
    requires RxRange(rx)
  {
    Contents(rx.buf, rx.out, rx.inn)
  }

  function TxHeld(tx: TxSide): seq<byte>
    requires TxRange(tx)
  {
    Contents(tx.buf, tx.out, tx.inn)
  }

  /** A call of read that still owes an enable of the receive interrupt, and where it can be. */
  predicate ReaderDirty(r: Reader) {
    !r.RIdle? && r.c.dirty
  }

  predicate BeforeReadEnable(r: Reader) {
    r.RLoadIn? || r.RLoadOut? || r.RCopy? || r.RMask? || r.RLoadEnable? || r.RStoreEnable?
  }

  predicate WriterDirty(w: Writer) {
    !w.WIdle? && w.c.dirty
  }

  predicate BeforeWriteEnable(w: Writer) {
    w.WLoadIn? || w.WLoadOut? || w.WCopy? || w.WMask? || w.WLoadEnable? || w.WStoreEnable?
  }

  /** No received byte is lost, repeated or reordered. */
  predicate RxFifoInv(rx: RxSide) {
    RxRange(rx) && rx.sent == rx.delivered + RxHeld(rx) + rx.fifo
  }

  /** What the reader has seen is still true: bytes behind its snapshot of rx_in are still there, and
      what it has copied is what is oldest in the ring. */
  predicate ReaderInv(rx: RxSide, r: Reader)
    requires RxRange(rx)
  {
    && (!r.RIdle? ==> rx.delivered == r.c.before + r.c.got)
    && (ReaderDirty(r) ==> r.c.got != [] && BeforeReadEnable(r))
    && (match r
        case RLoadIn(c) => c.space > 0
        case RLoadOut(c, inn) =>
          c.space > 0 && inn < |rx.buf| && |Contents(rx.buf, rx.out, inn)| <= |RxHeld(rx)|
        case RCopy(c, out, n, chunk) =>
          && out == rx.out && 0 < n <= c.space && n <= |RxHeld(rx)| && out + n <= |rx.buf|
          && |chunk| <= n && chunk == RxHeld(rx)[..|chunk|]
        case RSpin(c, _) => c.got == [] && c.space > 0
        case RAfterSpin(c, _) => c.got == [] && c.space > 0
        case _ => true)
  }

  /** No accepted byte is lost, repeated or reordered. */
  predicate TxFifoInv(tx: TxSide) {
    TxRange(tx) && tx.accepted == tx.received + tx.fifo + TxHeld(tx)
  }

  /** The writer copies into free slots only, and what it has copied is there. */
  predicate WriterInv(tx: TxSide, w: Writer)
    requires TxRange(tx)
  {
    && (!w.WIdle? ==> w.c.done <= |w.c.data| && tx.accepted == w.c.before + w.c.data[..w.c.done])
    && (WriterDirty(w) ==> w.c.done > 0 && BeforeWriteEnable(w))
    && (match w
        case WLoadIn(c) => c.done < |c.data|
        case WLoadOut(c, inn) => c.done < |c.data| && inn == tx.inn
        case WCopy(c, inn, _, n, i) =>
          && inn == tx.inn && 0 < n && c.done + n <= |c.data| && inn + n <= |tx.buf|
          && |TxHeld(tx)| + n < |tx.buf|
          && i <= n && tx.buf[inn .. inn + i] == c.data[c.done .. c.done + i]
        case WSpin(c, _) => c.done < |c.data|
        case WAfterSpin(c) => c.done < |c.data|
        case _ => true)
  }

  /** The interrupt routine never writes more to the device than the device can take. */
  predicate IsrInv(tx: TxSide, isr: Isr) {
    match isr
    case RxLoop(_, _, wspace) => wspace <= WSpace(tx)
    case TxLoop(space) => space <= WSpace(tx)
    case _ => true
  }

  /** Who has interrupts disabled, and what is in the control register. */
  predicate MaskInv(q: Irq, r: Reader, w: Writer, isr: Isr) {
    && (q.mask.ByReader? <==> r.RLoadEnable? || r.RStoreEnable? || r.RWriteControl? || r.RUnmask?)
    && (q.mask.ByWriter? <==> w.WLoadEnable? || w.WStoreEnable? || w.WWriteControl? || w.WUnmask?)
    && (!isr.Idle? ==> q.mask.Nobody?)
    && (r.RStoreEnable? ==> r.we == q.we)
    && (w.WStoreEnable? ==> w.re == q.re)
    && (!r.RWriteControl? && !w.WWriteControl? ==> q == Program(q))
  }

  /** No lost wakeup. */
  predicate WakeInv(q: Irq, rx: RxSide, tx: TxSide, r: Reader, w: Writer)
    requires RxRange(rx) && TxRange(tx)
  {
    && (q.re || |RxHeld(rx)| == |rx.buf| - 1 || ReaderDirty(r))
    && (q.we || TxHeld(tx) == [] || WriterDirty(w))
  }

  predicate Inv(s: State) {
    && RxFifoInv(s.rx) && ReaderInv(s.rx, s.reader)
    && TxFifoInv(s.tx) && WriterInv(s.tx, s.writer) && IsrInv(s.tx, s.isr)
    && MaskInv(s.irq, s.reader, s.writer, s.isr)
    && WakeInv(s.irq, s.rx, s.tx, s.reader, s.writer)
    && s.hostInactive <= INT_MAX - 2
  }
}
