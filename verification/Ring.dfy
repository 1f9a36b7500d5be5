/** A circular buffer of one producer and one consumer, as both JTAG UART buffers are: the slots from
    out up to and not including inn, cyclically, are in use, and one slot always stays free. */
module Ring {

  /** x modulo the length of the buffer. */
  function Wrap(x: nat, len: nat): (w: nat)
    requires 0 < len
    ensures w < len
    ensures x < len ==> w == x
    ensures len <= x < 2 * len ==> w == x - len
  {
    WrapOnce(x, len);
    x % len
  }

  lemma WrapOnce(x: nat, len: nat)
    requires 0 < len
    ensures len <= x < 2 * len ==> x % len == x - len
  {}

  /** The bytes in use, oldest first. */
  function Contents<T>(buf: seq<T>, out: nat, inn: nat): seq<T>
    requires out < |buf| && inn < |buf|
  {
    if out <= inn then buf[out..inn] else buf[out..] + buf[..inn]
  }

  /** The next slot of the producer is the consumer's exactly when no slot but the spare is free. */
  lemma FullWhenNextIsOut<T>(buf: seq<T>, out: nat, inn: nat)
    requires out < |buf| && inn < |buf|
    ensures Wrap(inn + 1, |buf|) == out <==> |Contents(buf, out, inn)| == |buf| - 1
    ensures |Contents(buf, out, inn)| <= |buf| - 1
    ensures inn == out <==> Contents(buf, out, inn) == []
  {}

  lemma Push<T>(buf: seq<T>, out: nat, inn: nat, x: T)
    requires out < |buf| && inn < |buf| && Wrap(inn + 1, |buf|) != out
    ensures Contents(buf[inn := x], out, Wrap(inn + 1, |buf|)) == Contents(buf, out, inn) + [x]
  {}

  lemma Pop<T>(buf: seq<T>, out: nat, inn: nat)
    requires out < |buf| && inn < |buf| && inn != out
    ensures Contents(buf, out, inn)[0] == buf[out]
    ensures Contents(buf, Wrap(out + 1, |buf|), inn) == Contents(buf, out, inn)[1..]
  {}

  /** A run of n used slots that does not wrap holds the n oldest bytes. */
  lemma PopRun<T>(buf: seq<T>, out: nat, inn: nat, n: nat)
    requires out < |buf| && inn < |buf| && n <= |Contents(buf, out, inn)| && out + n <= |buf|
    ensures buf[out .. out + n] == Contents(buf, out, inn)[..n]
    ensures Contents(buf, Wrap(out + n, |buf|), inn) == Contents(buf, out, inn)[n..]
  {}

  /** A run of n free slots that does not wrap becomes the n newest bytes. */
  lemma PushRun<T>(buf: seq<T>, out: nat, inn: nat, n: nat)
    requires out < |buf| && inn < |buf| && |Contents(buf, out, inn)| + n < |buf| && inn + n <= |buf|
    ensures Contents(buf, out, Wrap(inn + n, |buf|)) == Contents(buf, out, inn) + buf[inn .. inn + n]
  {}

  /** A store into a free slot is not seen. */
  lemma StoreFree<T>(buf: seq<T>, out: nat, inn: nat, i: nat, x: T)
    requires out < |buf| && inn <= i < |buf| && |Contents(buf, out, inn)| + (i - inn) < |buf|
    ensures Contents(buf[i := x], out, inn) == Contents(buf, out, inn)
  {}
}
