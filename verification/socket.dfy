/** The three byte-level operations the server handler performs on the TCP
    socket, stated over the bytes the socket currently has buffered. A value
    of type `seq<byte>` stands for that buffer; each operation returns what
    it observed and the buffer it leaves behind. */
module Socket {
  import opened Common

  /** `peek`: looks at the first buffered byte without removing it; when
      nothing is buffered the untouched `'\xFF'` initialiser is returned.
      What it sees is what a one-byte read would take. */
  function Peek(avail: seq<byte>): (c: byte)
    ensures |avail| == 0 ==> c == NoData
    ensures |avail| > 0 ==> [c] == Read(avail, 1).0
  {
    if |avail| > 0 then avail[0] else NoData
  }

  /** `consume`: removes one byte if there is one, leaving what a one-byte
      read would leave. */
  function Consume(avail: seq<byte>): (rest: seq<byte>)
    ensures rest == Read(avail, 1).1
  {
    if |avail| > 0 then avail[1..] else avail
  }

  /** A peek followed by a consume takes the first byte off the socket and
      nothing else: the byte peeked, put back in front of what is left, is
      exactly what was buffered. */
  lemma PeekConsume(avail: seq<byte>)
    requires |avail| > 0
    ensures [Peek(avail)] + Consume(avail) == avail
    ensures Peek(Consume(avail)) == if |avail| > 1 then avail[1] else NoData
  {
  }

  /** `QIODevice::read(data, max)`: removes and returns up to `max` bytes,
      fewer when fewer are buffered. */
  function Read(avail: seq<byte>, max: nat): (r: (seq<byte>, seq<byte>))
    ensures |r.0| == if max <= |avail| then max else |avail|
    ensures r.0 + r.1 == avail
  {
    var n := if max <= |avail| then max else |avail|;
    (avail[..n], avail[n..])
  }
}
