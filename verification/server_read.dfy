/** `MainWindow::onServerReadyRead`: one readyRead event on the server
    connection, as a pure function of the bytes buffered at that moment.
    The digit buffer is a local variable of the handler, so nothing carries
    over from one event to the next. */
module ServerRead {
  import opened Common
  import opened Decimal
  import opened Socket
  import opened NumberParsing
  import opened PeerFilter
  import opened PeerCombo

  /** Outcome of the netstring header: the window closes, or the handler
      asks the socket for `count` more bytes after the length `digits`. */
  datatype Header = Close | Request(digits: seq<byte>, count: nat)

  /** `parseNumber` and the `<= 0` guard, applied to the digits the loop
      collected; `rest` is what the socket holds after the loop. */
  function Decide(digits: seq<byte>, rest: seq<byte>): (r: (Header, seq<byte>))
    ensures r.1 == rest
    ensures r.0.Request? ==> r.0.digits == digits && r.0.count >= 3
  {
    match ParseNumber(digits)
    case None => (Close, rest)
    case Some(length) =>
      if length <= 0 then (Close, rest)
      else (Request(digits, length + 1 + 1), rest)
  }

  /** The peek/consume loop that gathers the length digits: while the byte
      peeked at is a digit, append it to `digits` and consume it; once it
      stops, decide on what was gathered. */
  function ScanHeader(avail: seq<byte>, digits: seq<byte>): (r: (Header, seq<byte>))
    ensures r.1 == avail[DigitPrefixLength(avail)..]
    ensures r.0.Request? ==> r.0.count >= 3
    decreases |avail|
  {
    var c := Peek(avail);
    if IsDigit(c) then ScanHeader(Consume(avail), digits + [c]) else Decide(digits, avail)
  }

  /** The header read by one readyRead event, and the bytes the socket
      still holds after the digit loop. */
  function ReadHeader(avail: seq<byte>): (r: (Header, seq<byte>))
    ensures r.1 == avail[DigitPrefixLength(avail)..]
    ensures r.0.Request? ==> r.0.count >= 3
  {
    ScanHeader(avail, [])
  }

  /** The loop consumes a digit run up to the first non-digit, which stays
      unconsumed because `peek` does not advance; an empty socket stops it
      through the `'\xFF'` sentinel. */
  lemma {:induction false} ScanHeaderRun(run: seq<byte>, tail: seq<byte>, digits: seq<byte>)
    requires AllDigits(run)
    requires tail == [] || !IsDigit(tail[0])
    ensures ScanHeader(run + tail, digits) == Decide(digits + run, tail)
    decreases |run|
  {
    if |run| == 0 {
      assert run + tail == tail;
      assert digits + run == digits;
    } else {
      assert (run + tail)[0] == run[0];
      assert (run + tail)[1..] == run[1..] + tail;
      ScanHeaderRun(run[1..], tail, digits + [run[0]]);
      assert digits + [run[0]] + run[1..] == digits + run;
    }
  }

  /** On a digit run, the decision depends only on the value the run
      denotes: a request for that value plus two bytes when the value lies
      in `1..LLONG_MAX`, closing otherwise. */
  lemma DecideRun(digits: seq<byte>, rest: seq<byte>)
    requires AllDigits(digits)
    ensures Decide(digits, rest)
            == if 0 < DecimalValue(digits) <= LLongMax then (Request(digits, DecimalValue(digits) + 2), rest)
               else (Close, rest)
  {
    ParseDigitRun(digits);
  }

  /** The header is decided on the longest digit prefix of what is
      buffered, and what follows it stays in the socket. */
  lemma ReadHeaderDecides(avail: seq<byte>)
    ensures var k := DigitPrefixLength(avail);
            ReadHeader(avail) == Decide(avail[..k], avail[k..])
  {
    var k := DigitPrefixLength(avail);
    DigitPrefixIsDigits(avail);
    assert avail[..k] + avail[k..] == avail;
    assert avail[k..] == [] || !IsDigit(avail[k..][0]);
    ScanHeaderRun(avail[..k], avail[k..], []);
    assert [] + avail[..k] == avail[..k];
  }

  /** The header is accepted exactly when the longest digit prefix is
      non-empty and denotes a length in `1..LLONG_MAX`; the request is then
      for that length plus two bytes, after those digits. */
  lemma ReadHeaderSpec(avail: seq<byte>)
    ensures var k := DigitPrefixLength(avail);
            var h := ReadHeader(avail).0;
            && (h.Request? <==> k > 0 && 0 < DecimalValue(avail[..k]) <= LLongMax)
            && (h.Request? ==> h.digits == avail[..k] && h.count == DecimalValue(avail[..k]) + 2)
  {
    var k := DigitPrefixLength(avail);
    DigitPrefixIsDigits(avail);
    ParseDigitRun(avail[..k]);
    ReadHeaderDecides(avail);
  }

  /** What the handler hands to the netstring decoder, if anything, and what
      it leaves in the socket. */
  datatype Delivery = Closed(unread: seq<byte>) | Deliver(buffer: seq<byte>, unread: seq<byte>)

  /** The buffer is resized to `digits + length + 2` bytes, the socket read
      fills as many of the new bytes as it has (`rest` is what the socket
      holds after the digits), and the rest stay `'\0'`. */
  function FillBuffer(digits: seq<byte>, rest: seq<byte>, count: nat): (r: Delivery)
    ensures r.Deliver? && |r.buffer| == |digits| + count
    ensures count <= |rest| ==>
              r.buffer == digits + rest[..count] && r.unread == rest[count..]
    ensures count > |rest| ==>
              r.buffer == digits + rest + Zeros(count - |rest|) && r.unread == []
    ensures |r.unread| <= |rest| && r.unread == rest[|rest| - |r.unread|..]
  {
    var got := Read(rest, count);
    Deliver(digits + got.0 + Zeros(count - |got.0|), got.1)
  }

  /** The whole handler up to the decoders: read the header, then either
      close or fill the buffer. What stays unread is always a suffix of
      what was buffered. */
  function HandOff(avail: seq<byte>): (r: Delivery)
    ensures |r.unread| <= |avail| && r.unread == avail[|avail| - |r.unread|..]
  {
    var h := ReadHeader(avail);
    var r := HandOffFrom(h.0, h.1);
    SuffixOfSuffix(avail, h.1, r.unread);
    r
  }

  /** The part of the handler after the header has been read, given the
      bytes the socket holds at that point. */
  function HandOffFrom(header: Header, rest: seq<byte>): (r: Delivery)
    ensures |r.unread| <= |rest| && r.unread == rest[|rest| - |r.unread|..]
  {
    match header
    case Close => Closed(rest)
    case Request(digits, count) => FillBuffer(digits, rest, count)
  }

  lemma SuffixOfSuffix(s: seq<byte>, t: seq<byte>, u: seq<byte>)
    requires |t| <= |s| && t == s[|s| - |t|..]
    requires |u| <= |t| && u == t[|t| - |u|..]
    ensures u == s[|s| - |u|..]
  {
  }

  /** The window closes exactly when the buffered bytes do not start with
      a digit run denoting a length in `1..LLONG_MAX`, and then only the
      digits are consumed; otherwise the decoder gets a buffer of exactly
      the digits plus the length plus two bytes. */
  lemma HandOffSpec(avail: seq<byte>)
    ensures var k := DigitPrefixLength(avail);
            var d := HandOff(avail);
            && (d.Closed? <==> k == 0 || DecimalValue(avail[..k]) == 0 || DecimalValue(avail[..k]) > LLongMax)
            && (d.Closed? ==> d.unread == avail[k..])
            && (d.Deliver? ==> |d.buffer| == k + DecimalValue(avail[..k]) + 2)
  {
    ReadHeaderSpec(avail);
  }

  /** A well-formed netstring `<length>:<payload>,` with its length written
      without leading zeros. */
  function Frame(payload: seq<byte>): (f: seq<byte>)
    ensures |f| == |ShowDecimal(|payload|)| + |payload| + 2
  {
    ShowDecimal(|payload|) + [Colon] + payload + [Comma]
  }

  /** A digit run that denotes a usable length, followed by a non-digit or
      by nothing, yields a request for that length plus two. */
  lemma HeaderOfRun(digits: seq<byte>, tail: seq<byte>)
    requires AllDigits(digits)
    requires tail == [] || !IsDigit(tail[0])
    requires 0 < DecimalValue(digits) <= LLongMax
    ensures ReadHeader(digits + tail) == (Request(digits, DecimalValue(digits) + 2), tail)
  {
    assert [] + digits == digits;
    ScanHeaderRun(digits, tail, []);
    DecideRun(digits, tail);
  }

  /** A digit run that does not denote a usable length closes the window. */
  lemma HeaderOfBadRun(digits: seq<byte>, tail: seq<byte>)
    requires AllDigits(digits)
    requires tail == [] || !IsDigit(tail[0])
    requires DecimalValue(digits) == 0 || DecimalValue(digits) > LLongMax
    ensures ReadHeader(digits + tail) == (Close, tail)
  {
    assert [] + digits == digits;
    ScanHeaderRun(digits, tail, []);
    DecideRun(digits, tail);
  }

  /** When at least `length + 2` bytes follow the length digits, exactly
      that many are read; the rest stay in the socket. */
  lemma CompleteHandOff(digits: seq<byte>, tail: seq<byte>)
    requires AllDigits(digits)
    requires tail == [] || !IsDigit(tail[0])
    requires 0 < DecimalValue(digits) <= LLongMax
    requires DecimalValue(digits) + 2 <= |tail|
    ensures var n := DecimalValue(digits) + 2;
            HandOff(digits + tail) == Deliver(digits + tail[..n], tail[n..])
  {
    HeaderOfRun(digits, tail);
  }

  /** A complete netstring at the head of the socket, its length spelt by
      any digit run (leading zeros included), is handed to the decoder byte
      for byte, whatever its payload holds (digits, commas, NULs), and
      everything after it stays in the socket. */
  lemma NetstringHandOff(digits: seq<byte>, payload: seq<byte>, rest: seq<byte>)
    requires AllDigits(digits) && DecimalValue(digits) == |payload|
    requires 1 <= |payload| <= LLongMax
    ensures var netstring := digits + [Colon] + payload + [Comma];
            HandOff(netstring + rest) == Deliver(netstring, rest)
  {
    // The sequence facts come first, before any HandOff term is in scope.
    var body := [Colon] + payload + [Comma];
    var tail := body + rest;
    var netstring := digits + [Colon] + payload + [Comma];
    assert tail[..|payload| + 2] == body;
    assert tail[|payload| + 2..] == rest;
    assert netstring == digits + body;
    assert netstring + rest == digits + tail;
    CompleteHandOff(digits, tail);
  }

  lemma FrameHandOff(payload: seq<byte>, rest: seq<byte>)
    requires 1 <= |payload| <= LLongMax
    ensures HandOff(Frame(payload) + rest) == Deliver(Frame(payload), rest)
  {
    DecimalValueOfShow(|payload|);
    NetstringHandOff(ShowDecimal(|payload|), payload, rest);
  }

  /** When the length digits are complete but fewer than `length + 2` bytes
      follow them, the handler reads what there is and hands over a buffer
      padded with `'\0'` to the full size, leaving the socket empty. */
  lemma PartialHandOff(avail: seq<byte>, digits: seq<byte>, tail: seq<byte>)
    requires avail == digits + tail
    requires AllDigits(digits)
    requires tail == [] || !IsDigit(tail[0])
    requires 0 < DecimalValue(digits) <= LLongMax
    requires |tail| < DecimalValue(digits) + 2
    ensures HandOff(avail) == Deliver(avail + Zeros(DecimalValue(digits) + 2 - |tail|), [])
  {
    HeaderOfRun(digits, tail);
  }

  /** A frame split over two readyRead events is not reassembled: once the
      length digits are in, the first event hands over the bytes it has,
      padded with `'\0'` up to the frame size, so the decoder sees a NUL
      where the terminating comma belongs. */
  lemma SplitFrameIsPadded(payload: seq<byte>, k: nat)
    requires 1 <= |payload| <= LLongMax
    requires |ShowDecimal(|payload|)| <= k < |Frame(payload)|
    ensures var f := Frame(payload);
            var d := HandOff(f[..k]);
            && d.Deliver? && d.unread == []
            && |d.buffer| == |f|
            && d.buffer[..k] == f[..k]
            && (forall i :: k <= i < |f| ==> d.buffer[i] == 0)
            && d.buffer != f
  {
    var digits := ShowDecimal(|payload|);
    FrameSplit(payload, k);
    DecimalValueOfShow(|payload|);
    PaddedHandOff(Frame(payload), digits, k);
  }

  /** The same for any byte string `f` that starts with a usable length
      run, is exactly as long as that length announces, and does not end
      in NUL: a proper prefix of it that holds the whole run is delivered
      padded with NULs to the size of `f`, and so differs from `f`. */
  lemma PaddedHandOff(f: seq<byte>, digits: seq<byte>, k: nat)
    requires AllDigits(digits) && 0 < DecimalValue(digits) <= LLongMax
    requires |digits| <= k < |f| == |digits| + DecimalValue(digits) + 2
    requires f[..k] == digits + f[|digits|..k]
    requires k == |digits| || !IsDigit(f[|digits|])
    requires f[|f| - 1] != 0
    ensures var d := HandOff(f[..k]);
            && d.Deliver? && d.unread == []
            && |d.buffer| == |f|
            && d.buffer[..k] == f[..k]
            && (forall i :: k <= i < |f| ==> d.buffer[i] == 0)
            && d.buffer != f
  {
    var tail := f[|digits|..k];
    assert tail == [] || !IsDigit(tail[0]);
    assert DecimalValue(digits) + 2 - |tail| == |f| - k;
    PaddedPrefix(f, k);
    PartialHandOff(f[..k], digits, tail);
    assert HandOff(f[..k]) == Deliver(f[..k] + Zeros(|f| - k), []);
  }

  /** Cutting a frame inside its body leaves its length digits followed by
      nothing or by the colon. */
  lemma FrameSplit(payload: seq<byte>, k: nat)
    requires |ShowDecimal(|payload|)| <= k < |Frame(payload)|
    ensures var f := Frame(payload);
            var digits := ShowDecimal(|payload|);
            && f[..k] == digits + f[|digits|..k]
            && (k == |digits| || f[|digits|] == Colon)
            && f[|f| - 1] == Comma
  {
    var f := Frame(payload);
    var digits := ShowDecimal(|payload|);
    assert f == digits + ([Colon] + payload + [Comma]);
  }

  /** Padding a proper prefix with NULs up to the full size keeps the prefix
      and differs from the whole whenever the whole does not end in NUL. */
  lemma PaddedPrefix(f: seq<byte>, k: nat)
    requires k < |f| && f[|f| - 1] != 0
    ensures var p := f[..k] + Zeros(|f| - k);
            && |p| == |f| && p[..k] == f[..k]
            && (forall i :: k <= i < |f| ==> p[i] == 0)
            && p != f
  {
    var p := f[..k] + Zeros(|f| - k);
    assert p[|f| - 1] == 0;
  }

  /** The external decoders the handler relies on: `lib::NetString` with
      `asPlainString`, and `lib::ClientListMessage` with `ipAddresses`.
      `None` stands for the `std::runtime_error` they throw on bad input. */
  datatype Codecs = Codecs(
    netString: seq<byte> -> Option<seq<byte>>,
    clientList: seq<byte> -> Option<seq<string>>)

  /** The decode chain inside the handler's `try` block. */
  function DecodePeerList(codecs: Codecs, buffer: seq<byte>): (r: Option<seq<string>>)
    ensures r.Some? <==> codecs.netString(buffer).Some? && codecs.clientList(codecs.netString(buffer).value).Some?
    ensures r.Some? ==> r == codecs.clientList(codecs.netString(buffer).value)
  {
    match codecs.netString(buffer)
    case None => None
    case Some(json) => codecs.clientList(json)
  }

  /** The reported address list a hand-off yields, `None` when the window
      closes instead. */
  function Reported(d: Delivery, codecs: Codecs): (r: Option<seq<string>>)
    ensures d.Closed? ==> r.None?
    ensures d.Deliver? ==> r == DecodePeerList(codecs, d.buffer)
  {
    match d
    case Closed(_) => None
    case Deliver(buffer, _) => DecodePeerList(codecs, buffer)
  }

  /** The part of the window the server handler touches. */
  datatype Window = Window(peers: seq<string>, combo: ComboView, closed: bool)

  datatype Step = Step(window: Window, unread: seq<byte>)

  /** The end of the handler: on failure `close()` and nothing else; on
      success the filtered list replaces the peer list and the box is
      rebuilt from it. */
  function UpdateWindow(w: Window, reported: Option<seq<string>>, hosts: seq<string>,
                        currentText: string): (w': Window)
    ensures w'.closed <==> w.closed || reported.None?
    ensures reported.None? ==> w'.peers == w.peers && w'.combo == w.combo
    ensures reported.Some? ==>
              && (forall a :: a in w'.peers <==> a in reported.value && a !in hosts)
              && |w'.peers| <= |reported.value|
              && w'.combo.items == w'.peers
              && (w'.combo.restored.Some? <==> currentText in w'.peers)
    ensures reported.Some? ==>
              && w'.peers == FilterPeers(reported.value, hosts)
              && w'.combo == ShowPeerAddresses(currentText, w'.peers)
  {
    match reported
    case None => w.(closed := true)
    case Some(ipAddresses) =>
      var peers := FilterPeers(ipAddresses, hosts);
      w.(peers := peers, combo := ShowPeerAddresses(currentText, peers))
  }

  /** One readyRead event. `hosts` is the result of
      `collectHostMachineAddresses` and `currentText` the combo box text
      before the refresh. Any failure closes the window and leaves the peer
      list and the combo box as they were; success replaces the peer list by
      the reported addresses minus the host's own, and refreshes the box. */
  function OnServerReadyRead(w: Window, avail: seq<byte>, hosts: seq<string>,
                             currentText: string, codecs: Codecs): (r: Step)
    ensures |r.unread| <= |avail| && r.unread == avail[|avail| - |r.unread|..]
    ensures r.window.closed <==> w.closed || Reported(HandOff(avail), codecs).None?
    ensures Reported(HandOff(avail), codecs).None? ==>
              r.window.peers == w.peers && r.window.combo == w.combo
    ensures Reported(HandOff(avail), codecs).Some? ==>
              forall a :: a in r.window.peers <==> a in Reported(HandOff(avail), codecs).value && a !in hosts
    ensures Reported(HandOff(avail), codecs).Some? ==>
              && r.window.peers == FilterPeers(Reported(HandOff(avail), codecs).value, hosts)
              && r.window.combo == ShowPeerAddresses(currentText, r.window.peers)
  {
    var d := HandOff(avail);
    Step(UpdateWindow(w, Reported(d, codecs), hosts, currentText), d.unread)
  }

  /** End to end: when the socket holds a complete frame, the outcome is
      decided by what the decoders make of exactly that frame, and the bytes
      after it are left for the next event. */
  lemma FrameDecidesUpdate(w: Window, payload: seq<byte>, rest: seq<byte>, hosts: seq<string>,
                           currentText: string, codecs: Codecs)
    requires 1 <= |payload| <= LLongMax
    ensures var r := OnServerReadyRead(w, Frame(payload) + rest, hosts, currentText, codecs);
            && r.unread == rest
            && match DecodePeerList(codecs, Frame(payload))
               case None => r.window == w.(closed := true)
               case Some(reported) =>
                 r.window == Window(FilterPeers(reported, hosts),
                                    ShowPeerAddresses(currentText, FilterPeers(reported, hosts)),
                                    w.closed)
  {
    FrameHandOff(payload, rest);
  }

  /** Bytes that do not start with a digit, including no bytes at all, close
      the window and consume nothing. */
  lemma NoDigitsCloses(w: Window, avail: seq<byte>, hosts: seq<string>,
                       currentText: string, codecs: Codecs)
    requires avail == [] || !IsDigit(avail[0])
    ensures OnServerReadyRead(w, avail, hosts, currentText, codecs) == Step(w.(closed := true), avail)
  {
    assert [] + avail == avail;
    HeaderOfBadRun([], avail);
  }

  /** A declared length of zero, however many zeros spell it, closes the
      window; the digits are consumed, the byte after them is not. */
  lemma ZeroLengthCloses(w: Window, zeros: seq<byte>, tail: seq<byte>, hosts: seq<string>,
                         currentText: string, codecs: Codecs)
    requires 1 <= |zeros| && forall i :: 0 <= i < |zeros| ==> zeros[i] == Zero
    requires tail == [] || !IsDigit(tail[0])
    ensures OnServerReadyRead(w, zeros + tail, hosts, currentText, codecs) == Step(w.(closed := true), tail)
  {
    ZeroRunValue(zeros);
    HeaderOfBadRun(zeros, tail);
  }

  lemma {:induction false} ZeroRunValue(zeros: seq<byte>)
    requires forall i :: 0 <= i < |zeros| ==> zeros[i] == Zero
    ensures AllDigits(zeros) && DecimalValue(zeros) == 0
  {
    if |zeros| > 0 {
      ZeroRunValue(zeros[..|zeros| - 1]);
    }
  }

  /** A length beyond `LLONG_MAX` (here 2^63, one past it) closes the window. */
  lemma OverflowingLengthCloses(w: Window, tail: seq<byte>, hosts: seq<string>,
                                currentText: string, codecs: Codecs)
    requires tail == [] || !IsDigit(tail[0])
    ensures OnServerReadyRead(w, ShowDecimal(LLongMax + 1) + tail, hosts, currentText, codecs)
            == Step(w.(closed := true), tail)
  {
    DecimalValueOfShow(LLongMax + 1);
    HeaderOfBadRun(ShowDecimal(LLongMax + 1), tail);
  }
}
