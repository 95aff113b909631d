/** The chat half of the window: `onSendMessageButtonClicked` and
    `onUdpSocketReadyRead`. The UDP socket becomes a list of datagrams to
    write and a list of datagrams waiting to be read. */
module Chat {
  import opened Common
  import opened Utf8

  /** A UDP port number (`quint16`). */
  type Port = p: int | 0 <= p < 0x1_0000

  /** A datagram: the peer address as text (the destination of an outgoing
      one, the sender of an incoming one), the port and the payload. */
  datatype Datagram = Datagram(address: string, port: Port, data: seq<byte>)

  /** The chat widgets: the line edit holding the text to send, and the
      lines of the messages text edit. */
  datatype ChatView = ChatView(draft: string, transcript: seq<string>)

  /** What the window needs from Qt for chat: whether `QHostAddress` parses
      a text to its null address, how `QString{QByteArray}` turns bytes into
      text, and `lib::udpPort`. */
  datatype ChatEnv = ChatEnv(isNullAddress: string -> bool, fromUtf8: seq<byte> -> string, udpPort: Port)

  datatype SendOutcome = SendOutcome(view: ChatView, sent: seq<Datagram>)

  /** Sending does nothing for empty text or a combo box text that is no
      address. Otherwise it clears the line edit, writes one datagram with
      the UTF-8 bytes of the text to the selected peer on the chat port, and
      echoes the text as "You: <text>". */
  function OnSendMessageButtonClicked(v: ChatView, currentText: string, env: ChatEnv): (r: SendOutcome)
    ensures |r.sent| <= 1
    ensures r.sent == [] <==> v.draft == [] || env.isNullAddress(currentText)
    ensures r.sent == [] ==> r.view == v
    ensures r.sent != [] ==>
              && r.sent[0].address == currentText
              && r.sent[0].port == env.udpPort
              && Decode(r.sent[0].data) == Some(v.draft)
              && r.view.draft == []
              && |r.view.transcript| == |v.transcript| + 1
              && r.view.transcript[..|v.transcript|] == v.transcript
  {
    if v.draft == [] then
      SendOutcome(v, [])
    else if env.isNullAddress(currentText) then
      SendOutcome(v, [])
    else
      var utf8 := Encode(v.draft);
      DecodeEncode(v.draft);
      var echo := "You: " + env.fromUtf8(utf8);
      SendOutcome(ChatView([], v.transcript + [echo]), [Datagram(currentText, env.udpPort, utf8)])
  }

  /** The byte order mark U+FEFF. */
  const Bom: char := '\U{FEFF}'

  /** Qt's UTF-8 decoder treats one leading byte order mark as a header and
      drops it from the text. */
  function StripBom(s: string): (t: string)
    ensures |s| > 0 && s[0] == Bom ==> [Bom] + t == s
    ensures (|s| == 0 || s[0] != Bom) ==> t == s
  {
    if |s| > 0 && s[0] == Bom then s[1..] else s
  }

  /** The Qt conversion from bytes to text agrees with strict UTF-8 decoding
      wherever the bytes are well-formed, except that a leading byte order
      mark is dropped. */
  ghost predicate ReadsUtf8(fromUtf8: seq<byte> -> string) {
    forall bs :: Decode(bs).Some? ==> fromUtf8(bs) == StripBom(Decode(bs).value)
  }

  /** The echo line shows the text that was sent, without a leading byte
      order mark; any other text is echoed exactly as typed. */
  lemma EchoShowsDraft(v: ChatView, currentText: string, env: ChatEnv)
    requires ReadsUtf8(env.fromUtf8)
    requires v.draft != [] && !env.isNullAddress(currentText)
    ensures var r := OnSendMessageButtonClicked(v, currentText, env);
            r.view.transcript == v.transcript + ["You: " + StripBom(v.draft)]
    ensures v.draft[0] != Bom ==>
              OnSendMessageButtonClicked(v, currentText, env).view.transcript == v.transcript + ["You: " + v.draft]
  {
    DecodeEncode(v.draft);
  }

  /** One received datagram as a line: "<sender>: <text>". The sender can
      be read back from the line up to the separator, and the rest is the
      converted payload. */
  function FormatReceived(d: Datagram, fromUtf8: seq<byte> -> string): (line: string)
    ensures |line| == |d.address| + 2 + |fromUtf8(d.data)|
    ensures line[..|d.address|] == d.address
    ensures line[|d.address|..|d.address| + 2] == ": "
    ensures line[|d.address| + 2..] == fromUtf8(d.data)
  {
    d.address + ": " + fromUtf8(d.data)
  }

  /** Drains every pending datagram, in order, appending one line each. */
  function OnUdpSocketReadyRead(v: ChatView, pending: seq<Datagram>,
                                fromUtf8: seq<byte> -> string): (r: ChatView)
    ensures r.draft == v.draft
    ensures |r.transcript| == |v.transcript| + |pending|
    ensures r.transcript[..|v.transcript|] == v.transcript
    ensures forall i :: 0 <= i < |pending| ==>
              r.transcript[|v.transcript| + i] == FormatReceived(pending[i], fromUtf8)
    decreases |pending|
  {
    if |pending| == 0 then v
    else
      var line := FormatReceived(pending[0], fromUtf8);
      OnUdpSocketReadyRead(v.(transcript := v.transcript + [line]), pending[1..], fromUtf8)
  }

  /** Receiving in two events is receiving in one: the lines only depend on
      the order in which the datagrams arrive. */
  lemma {:induction false} ReceiveSplit(v: ChatView, a: seq<Datagram>, b: seq<Datagram>,
                                        fromUtf8: seq<byte> -> string)
    ensures OnUdpSocketReadyRead(OnUdpSocketReadyRead(v, a, fromUtf8), b, fromUtf8)
            == OnUdpSocketReadyRead(v, a + b, fromUtf8)
    decreases |a|
  {
    if |a| > 0 {
      var line := FormatReceived(a[0], fromUtf8);
      assert (a + b)[1..] == a[1..] + b;
      ReceiveSplit(v.(transcript := v.transcript + [line]), a[1..], b, fromUtf8);
    } else {
      assert a + b == b;
    }
  }

  /** A message sent by one window and received by another shows up there
      as "<sender>: <text>", with the text as typed less a leading byte
      order mark. */
  lemma SendThenReceive(v: ChatView, currentText: string, env: ChatEnv,
                        peerView: ChatView, sender: string)
    requires ReadsUtf8(env.fromUtf8)
    requires v.draft != [] && !env.isNullAddress(currentText)
    ensures var d := OnSendMessageButtonClicked(v, currentText, env).sent[0];
            var r := OnUdpSocketReadyRead(peerView, [Datagram(sender, d.port, d.data)], env.fromUtf8);
            r.transcript == peerView.transcript + [sender + ": " + StripBom(v.draft)]
  {
    var d := OnSendMessageButtonClicked(v, currentText, env).sent[0];
    var r := OnUdpSocketReadyRead(peerView, [Datagram(sender, d.port, d.data)], env.fromUtf8);
    assert r.transcript[..|peerView.transcript|] == peerView.transcript;
    assert r.transcript == r.transcript[..|peerView.transcript|] + [r.transcript[|peerView.transcript|]];
  }
}
