# Chat client window: server framing, peer filter, chat send and receive

This project models the logic of the chat client's main window
(`MainWindow` in `mainwindow.cpp`) with its Qt sockets and widgets taken
away, and proves properties of that model in Dafny.

The window does four things that are modelled here:

- **Server handler** (`onServerReadyRead`). On every readyRead event of
  the TCP connection to the directory server, the handler reads a
  netstring header `<length>:`. It collects the leading ASCII digits with
  `peek`/`consume`, converts them with `parseNumber` (a wrapper around
  `std::stoll`), and rejects a missing, overflowing or non-positive
  length by closing the window. Otherwise it resizes its local buffer to
  `digits + length + 2` bytes and reads up to `length + 2` bytes into it.
  It hands the buffer to the netstring and client-list decoders, removes
  the host's own addresses from the reported list, and refreshes the
  peer combo box. Any decoder failure closes the window instead.
- **Peer filter**. Every reported address is kept, in order, unless its
  text equals one of the host machine's addresses.
- **Combo box refresh** (`showPeerAddressesInGui`). The box is rebuilt
  from the peer list. The previous selection is restored at its first
  occurrence if that exact text is still an item.
- **Chat** (`onSendMessageButtonClicked`, `onUdpSocketReadyRead`).
  Sending empty text, or sending to a combo box text that `QHostAddress`
  parses as null, does nothing. Otherwise the line edit is cleared, one
  datagram with the UTF-8 bytes of the text goes to the selected peer on
  the chat port, and `You: <text>` is echoed. Receiving drains every
  pending datagram in order and appends `<sender>: <text>` for each.

Each event is a pure function.
- The server handler works over the bytes the socket has buffered at
  that moment. It returns the new window state (peer list, combo box,
  closed flag) and the bytes it left unread. Its digit buffer is a local
  variable, so nothing else carries over between events.
- The send handler returns the new chat view and the list of datagrams
  written.
- The receive handler takes the pending datagrams as a list.

Modules, one per file:
- `Common`: bytes, `Option`, digits, `long long` limits.
- `Decimal`: digit runs and their values.
- `Socket`: `peek`, `consume`, `read`.
- `NumberParsing`: `parseNumber`.
- `PeerFilter`.
- `PeerCombo`.
- `ServerRead`: the server handler.
- `Utf8`: `QString::toUtf8` and a strict decoder.
- `Chat`.

### Where the code falls short of a stream reader

The model follows the code in both cases.

- **Frames split over events.** A reader of a TCP stream would be expected
  to keep a partially received frame across events and to finish it on a
  later one, so that the result does not depend on how the stream is
  chunked. The handler has no such state. When the length
  digits have arrived but the rest of the frame has not, it reads what
  there is and passes a buffer padded with NULs to the full size to the
  decoder. `ServerRead.SplitFrameIsPadded` proves that this buffer
  differs from the frame. A frame whose digits are themselves split is
  parsed on the digits seen so far.
- **Address comparison.** Two spellings of one address (for example an
  IPv6 address in full and in compressed form) would be expected to count
  as the same host. The code compares the address texts with `==`, and the
  model does the same.

## Model

| member | source | states |
|---|---|---|
| Socket.Peek | mainwindow.cpp:21-26 | the byte seen is the one a one-byte `read` would take; with nothing buffered the `'\xFF'` initialiser comes back |
| Socket.Consume | mainwindow.cpp:28-32 | the socket is left as a one-byte `read` leaves it |
| Socket.PeekConsume | mainwindow.cpp:21-32 | a peek does not remove the byte: the byte peeked, followed by what a consume leaves, is exactly what was buffered, and the next peek sees the second byte |
| Common.DigitClass | mainwindow.cpp:96 | the digit test of the loop accepts exactly the ten decimal digits `'0'` to `'9'` |
| Common.Zeros | mainwindow.cpp:116-117 | the fill that `resize` appends has the requested length and is all NULs |
| Socket.Read | mainwindow.cpp:118 | `read` takes `min(max, available)` bytes from the front, and what it took followed by what is left is exactly what was buffered |
| Decimal.DigitPrefixLength | mainwindow.cpp:96 | the loop condition: the byte just after the longest digit prefix, if any, is not a digit |
| Decimal.DigitPrefixIsDigits | mainwindow.cpp:96-97 | every byte the loop appends is a digit |
| Decimal.DigitPrefixOfRun | mainwindow.cpp:96-99 | a digit run followed by a non-digit or by nothing is exactly the longest digit prefix |
| ServerRead.ScanHeader | mainwindow.cpp:96-99 | after the digit loop the socket holds exactly the bytes after the longest digit prefix |
| ServerRead.ScanHeaderRun | mainwindow.cpp:96-101 | on a digit run followed by a non-digit or by nothing, the loop collects exactly the run and stops there (an empty socket stops it through the `'\xFF'` sentinel); `parseNumber` then sees exactly that run |
| ServerRead.ReadHeaderDecides | mainwindow.cpp:96-113 | the header is decided on the longest digit prefix of the buffered bytes, and everything after that prefix stays in the socket |
| NumberParsing.CString | mainwindow.cpp:37 | `c_str()` is the longest NUL-free prefix of the string |
| NumberParsing.ParseNumber | mainwindow.cpp:34-45 | any value `parseNumber` yields lies in `[LLONG_MIN, LLONG_MAX]` |
| NumberParsing.SpaceClass | mainwindow.cpp:37 | the white-space test inside `strtoll` accepts exactly space, `\t`, `\n`, `\v`, `\f` and `\r` |
| NumberParsing.SkipSpace | mainwindow.cpp:37 | `strtoll` drops the leading white space and nothing else: the result is a suffix of the input, every byte dropped is white space, and the result does not start with white space |
| NumberParsing.ParseSigned | mainwindow.cpp:37-44 | after white space, any value read lies in `[LLONG_MIN, LLONG_MAX]`; ParseSignedSpec gives the exact result |
| NumberParsing.Accumulate | mainwindow.cpp:37 | the conversion loop never decreases its accumulator; AccumulateValue gives the exact value |
| NumberParsing.ParseNumberSpec | mainwindow.cpp:34-45 | `parseNumber` equals the reference reading of `std::stoll`: cut at the first NUL, skip white space, then read a signed number |
| NumberParsing.AccumulateValue | mainwindow.cpp:37 | the multiply-by-ten conversion loop of `strtoll` yields the decimal value of the longest digit prefix |
| NumberParsing.ParseSignedSpec | mainwindow.cpp:37-44 | after white space: an optional sign, then the value of the longest digit prefix; `None` (invalid_argument) when that prefix is empty, `None` (out_of_range) when the signed value leaves `long long` |
| NumberParsing.CStringOfDigits | mainwindow.cpp:37 | a digit string has no NUL, so `c_str()` is all of it |
| NumberParsing.ParseSignedDigits | mainwindow.cpp:37-44 | on a digit run (no sign, no space) the conversion is the run's value, or `None` when the run is empty or its value exceeds `LLONG_MAX` |
| NumberParsing.ParseDigitRun | mainwindow.cpp:34-45 | on a digit run, `parseNumber` fails exactly for the empty run and for a value above `LLONG_MAX`, and otherwise returns the run's decimal value |
| NumberParsing.ParseShowDecimal | mainwindow.cpp:34-45 | a rendered number reads back as itself up to `LLONG_MAX` and fails above it |
| ServerRead.Decide | mainwindow.cpp:101-117 | the decision never consumes bytes; a request carries the parsed digits and asks for at least three bytes |
| ServerRead.DecideRun | mainwindow.cpp:101-117 | on a digit run: a request for value + 2 bytes exactly when `0 < value <= LLONG_MAX`, and close otherwise |
| ServerRead.ReadHeader | mainwindow.cpp:93-113 | the digit loop leaves exactly the bytes after the longest digit prefix; a request asks for at least three bytes |
| ServerRead.ReadHeaderSpec | mainwindow.cpp:96-117 | the header is accepted exactly when the longest digit prefix is non-empty and denotes a length in `1..LLONG_MAX`; the request is for that length + 2 bytes after those digits |
| ServerRead.HeaderOfRun | mainwindow.cpp:96-117 | a digit run with value in `1..LLONG_MAX`, followed by a non-digit or by nothing, yields a request for value + 2 and leaves the following bytes unread |
| ServerRead.HeaderOfBadRun | mainwindow.cpp:101-113 | a digit run with value 0 or above `LLONG_MAX` leads to close, with only the digits consumed |
| ServerRead.FillBuffer | mainwindow.cpp:115-118 | the buffer has size `digits + count`; with enough bytes buffered it is the digits plus the next `count` bytes, otherwise the digits plus everything buffered plus NULs, and the socket is left empty |
| ServerRead.HandOffFrom | mainwindow.cpp:103-118 | after the header, the handler only ever removes bytes from the front of the socket |
| ServerRead.HandOff | mainwindow.cpp:93-118 | what the handler leaves unread is a suffix of what was buffered |
| ServerRead.HandOffSpec | mainwindow.cpp:96-118 | the handler closes the window before reaching the decoders exactly when the buffered bytes do not start with a digit run denoting a length in `1..LLONG_MAX`, consuming only the digits; otherwise the decoder gets a buffer of size `digits + length + 2` |
| ServerRead.CompleteHandOff | mainwindow.cpp:115-118 | with at least `length + 2` bytes after the digits, exactly those bytes are read and the rest stay in the socket |
| ServerRead.NetstringHandOff | mainwindow.cpp:115-122 | a complete netstring at the head of the socket, its length spelt with any digits (leading zeros included), goes to the decoder byte for byte whatever its payload holds, and the bytes after it stay unread |
| ServerRead.FrameHandOff | mainwindow.cpp:115-122 | a canonically written frame at the head of the socket goes to the decoder unchanged, and the bytes after it stay unread |
| ServerRead.PartialHandOff | mainwindow.cpp:115-118 | with fewer than `length + 2` bytes after the digits, the handler takes all of them and pads the buffer with NULs to full size |
| ServerRead.PaddedHandOff | mainwindow.cpp:115-118 | a proper prefix that contains the whole length run is delivered padded with NULs to the announced size, and so differs from the full frame |
| ServerRead.SplitFrameIsPadded | mainwindow.cpp:93-118 | a frame cut anywhere after its length digits is not waited for: the first event delivers the prefix padded with NULs, which differs from the frame |
| ServerRead.DecodePeerList | mainwindow.cpp:120-125 | a peer list comes out exactly when the netstring decodes and its payload decodes as a client list, and it is that client list |
| ServerRead.Reported | mainwindow.cpp:101-125 | a closed hand-off reports nothing; a delivered buffer reports what the decoders make of it |
| ServerRead.UpdateWindow | mainwindow.cpp:128-144 | on failure only the closed flag changes; on success the peer list holds exactly the reported addresses that are no host address, is the filter's result in the reported order with duplicates kept, and the combo box is rebuilt from it with the previous text restored exactly when present |
| ServerRead.OnServerReadyRead | mainwindow.cpp:91-145 | the unread bytes are a suffix of the buffered ones; the window closes exactly when the header or a decoder fails, in which case the peer list and combo box are unchanged; otherwise the peer list is the filter's result on the reported addresses and the combo box is rebuilt from it |
| ServerRead.FrameDecidesUpdate | mainwindow.cpp:115-145 | with a complete frame buffered, the outcome depends only on what the decoders make of that frame, and the bytes after it stay unread |
| ServerRead.NoDigitsCloses | mainwindow.cpp:96-106 | bytes that do not start with a digit, including no bytes, close the window and consume nothing |
| ServerRead.ZeroLengthCloses | mainwindow.cpp:108-113 | a declared length of zero, however many zeros spell it, closes the window; the digits are consumed and the byte after them is not |
| ServerRead.OverflowingLengthCloses | mainwindow.cpp:101-106 | a declared length of `2^63` (one past `LLONG_MAX`) closes the window |
| PeerFilter.IsRemote | mainwindow.cpp:133-136 | the `none_of` test holds exactly when the address equals no host address |
| PeerFilter.FilterPeers | mainwindow.cpp:128-137 | an address is kept exactly when it was reported and equals no host address; each kept address occurs as often as it was reported (duplicates preserved), and host addresses not at all |
| PeerFilter.FilterPeersAppend | mainwindow.cpp:129-137 | the filter works address by address, so kept addresses stay in the order they were reported |
| PeerFilter.FilterPeersSingle | mainwindow.cpp:132-136 | one address survives exactly when it is not a host address |
| PeerFilter.FilterPeersIdempotent | mainwindow.cpp:128-137 | filtering the filtered list again changes nothing |
| PeerFilter.FilterPeersNoHosts | mainwindow.cpp:128-137 | with no host addresses the reported list is kept whole |
| PeerFilter.FilterPeersExample | mainwindow.cpp:128-137 | with hosts 10.0.0.5 and 127.0.0.1, the reported list 10.0.0.5, 10.0.0.9, 127.0.0.1 leaves only 10.0.0.9 |
| PeerCombo.FindText | mainwindow.cpp:225 | `findText` returns the first index holding the exact text, and -1 exactly when no item equals it |
| PeerCombo.ShowPeerAddresses | mainwindow.cpp:216-230 | the items are the peer list in order; the previous selection is restored exactly when its text is an item, at its first occurrence |
| Utf8.EncodeChar | mainwindow.cpp:172 | one to four bytes per character, a single byte exactly for ASCII |
| Utf8.Encode | mainwindow.cpp:172 | the encoding has between one and four bytes per character |
| Utf8.DecodeEncode | mainwindow.cpp:172 | the bytes `toUtf8` writes decode back to the text |
| Chat.OnSendMessageButtonClicked | mainwindow.cpp:157-175 | at most one datagram; none exactly when the text is empty or the address is null, and then nothing changes; otherwise it goes to the selected address on the chat port and carries bytes that decode to the text, the line edit is cleared and one line is appended to the transcript |
| Chat.StripBom | mainwindow.cpp:152 | the conversion back to text drops exactly one leading byte order mark and leaves any other text as it is |
| Chat.EchoShowsDraft | mainwindow.cpp:172-174 | the echoed line is `You: ` followed by the text sent less a leading byte order mark, so any text not starting with one is echoed exactly |
| Chat.FormatReceived | mainwindow.cpp:151-152 | a received line is the sender address, then `: `, then the converted payload |
| Chat.OnUdpSocketReadyRead | mainwindow.cpp:147-155 | every pending datagram is appended in arrival order as `<sender>: <text>`, with earlier lines and the line edit untouched |
| Chat.ReceiveSplit | mainwindow.cpp:149-154 | draining in two events gives the same transcript as draining in one |
| Chat.SendThenReceive | mainwindow.cpp:147-175 | a message sent by one window shows up at the receiver as `<sender>: <text>`, with the text as typed less a leading byte order mark |

## Left out

- Qt socket lifecycle and signal wiring (`setupTcpSocket`, `setupUdpSocket`, `connect`, `bind`, the destructor's `disconnectFromHost`, `onServerConnectionLost`). This is I/O plumbing: the TCP socket is the byte sequence it has buffered, and the UDP socket is a list of datagrams.
- `collectHostMachineAddresses`: a wrapper over `QNetworkInterface`. The host addresses are a parameter of the server handler.
- `lib::NetString`, `lib::ClientListMessage` and their JSON parsing: their sources are not part of this model. They are opaque function parameters (`ServerRead.Codecs`) that may fail; `None` stands for the `std::runtime_error` they throw. No round trip is claimed for them.
- `QHostAddress` text parsing: a predicate parameter that says whether a text parses to the null address.
- `lib::udpPort`: `lib/ports.hpp` is not part of this model. The port is a parameter.
- `QString{QByteArray}`, the conversion from received or echoed bytes back to text: a parameter. It replaces ill-formed input and so is lossy. The echo and the received line are stated under the assumption `Chat.ReadsUtf8`: on well-formed input the conversion agrees with strict UTF-8 decoding except that it drops one leading byte order mark, as Qt's UTF-8 decoder does. Qt's decoder itself is not part of this model.
- Chat.OnSendMessageButtonClicked: the text is a sequence of Unicode scalar values. A `QString` holding a lone surrogate, which `toUtf8` replaces, is not modelled.
- PeerCombo.ShowPeerAddresses: the model records only whether `setCurrentIndex` was called and with which index. The item Qt selects by default after `addItem`, when nothing is restored, is not modelled.
- ServerRead.OnServerReadyRead: `buffer.resize` with a length the process cannot allocate (`99999999999:` already asks for about 100 GB) throws `std::length_error` or `std::bad_alloc` outside the `try` block and ends the program. The model treats every length in `1..LLONG_MAX` as allocatable.
- NumberParsing.Accumulate: its own contract gives only the lower bound; its exact value is stated by `NumberParsing.AccumulateValue`.
- Common.IsDigit: where `char` is signed, `std::isdigit` at mainwindow.cpp:96 receives bytes 0x80 to 0xFE as negative values other than `EOF`, which is undefined behaviour in C++. The model treats them as non-digits. The `'\xFF'` sentinel is -1, which is `EOF` on the usual platforms, so for it the test is defined and false, as modelled.
- Address texts: the model treats every address as a `string`. The code compares `std::string` bytes in the filter. The host addresses come from `QString::toStdString`, and the combo box is filled through `QString::fromStdString`, a UTF-8 decode that replaces ill-formed bytes. The model takes the client-list decoder's addresses to be well-formed UTF-8, so that both conversions act as the identity. PeerCombo.ShowPeerAddresses's `items == peers` relies on this.
- `QTextEdit::append`: the transcript records the strings passed to `append`. Qt renders a string that looks like HTML as rich text, and that rendering is not modelled.
- The effects of `close()` beyond the handler returning: the model records a closed flag.
- The window title, the widget set-up in the constructor, `mainwindow.hpp` (declarations only) and `main.cpp` (argument checking and start-up).
