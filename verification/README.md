# STOMP client core of AutobahnPython, modelled in Dafny

This project models the STOMP client subset of AutobahnPython
(`autobahn/autobahn/stomp/`). That subset has three sequential parts, none of
which does I/O itself.

- **Messages** (`messages.dfy`, module `Messages`) model `message.py`. The six
  frame variants STOMP, CONNECT, CONNECTED, SEND, ERROR and RECEIPT become one
  `Msg` datatype. A `Disconnect` variant is added; the details are below. Each
  variant's `marshal` and static `parse` become the functions `Marshal` and
  `ParseStomp` … `ParseReceipt`, and `Parse` dispatches on the command. The
  per-instance serialization cache is the class `Message`.
- **Frame codec** (`serializer.dfy`, module `Serializer`) models
  `serializer.py`:
  - the encoder (`Serializer.serialize`) is the method `EncodeLines`, proved
    equal to the function `EncodeFrame`;
  - the decoder (`Serializer.unserialize`) is the method `Unserialize`, proved
    equal to the function `Decode`.
- **Session engine** (`protocol.dfy`, module `Protocol`) models
  `ApplicationSession` in `protocol.py` as a class. Its fields are the
  handshake flags, the transport flag and the table of pending SEND requests.
  The table maps each receipt id to a future, and a future is a status:
  `Pending`, `Resolved` or `Rejected(reason)`. A ghost `log` records every
  frame handed to the transport, every `close` and every callback fired
  (`onAttach`, `onDetach`, `onDisconnect`).
- `wrappers.dfy` (module `Wrappers`) holds `Option`, `Result`, `Outcome` and
  `Fault`. `Fault` covers the exceptions the core raises: ProtocolError,
  TransportLost, SessionNotReady, and the two plain exceptions "not attached"
  and "transport disconnected".

## Modelling choices

- **Headers.** A header dictionary is a sequence of `(key, value)` pairs with
  distinct keys. The sequence order fixes the order in which the encoder writes
  the dictionary. Two header dictionaries are equal when `Lookup` agrees on
  every key (`SameHeaders`).
- **Strings.** Frames are character strings. Lines are split on LF or on CR LF,
  as the regular expression `\n|\r\n` does (`Split`). `Join` is `"\n".join`.
- **Repaired decoder.** The decoder as written cannot run. The model repairs it
  as little as possible:
  - The undefined regex names are read as the class constants.
  - The missing `:` on the `while` line is supplied.
  - The trailing NUL is required and stripped before splitting. If it is
    missing, decoding fails with ProtocolError.
  - The blank separator line is not made part of the body.
  - Running out of lines in the header loop is a ProtocolError, not an
    IndexError.
  - The set of recognised commands is a parameter, `known`:
    - `WrittenCommands` is `MESSAGE_TYPE_MAP` as written: STOMP, CONNECT,
      CONNECTED and SEND;
    - `FullCommands` adds RECEIPT and ERROR;
    - the round trip is proved for any `known` that contains the message's
      command, and so for `FullCommands`.
  - The "## Findings" section shows what the unrepaired decoder does.
- **Added `Disconnect`.** `Disconnect` is exported by `message.py` and sent by
  `detach`, but it is never defined. It is added as a variant with command
  `DISCONNECT`, no headers and no body. It is outbound only, so `Parse` does
  not accept it.
- **Session repairs.**
  - **Receipt id types.** The RECEIPT branch converts the receipt id to `int`
    for the membership test but pops the string. `send` keys the table by
    `util.id()` but puts `str(receipt)` on the wire. The model uses one string
    key throughout.
  - **ERROR lookup.** The ERROR branch looks up `msg.request`, which does not
    exist. The model looks up the message's `receipt-id`.
  - **`send` names.** `send` mentions the undefined names `procedure` and
    `topic`. Those lines are dropped.
  - **Id generation.** `util.id()` is not part of this model. `Send` takes the
    id as a parameter, with the precondition that no pending request uses it.
- **Behaviour kept as the code has it:**
  - No `content-length` header is emitted or consulted, although STOMP 1.2
    recommends one for frames with a body.
  - A frame whose header lines are followed by two line feeds and then NUL
    decodes with the empty body `Some("")`, not with no body. The encoder
    writes an absent body as the header lines followed directly by NUL, so
    the extra blank line denotes an empty body.
  - The session has no single state value. It has the flags
    `receivedConnected` and `goodbyeSent` and the transport flag.
  - An ERROR without `receipt-id` after CONNECTED is ignored, not a
    ProtocolError.
  - `send` checks only the transport, not whether the session is
    established.
  - A ProtocolError is returned as `Fail(ProtocolError(..))` and the session
    state is left as the code leaves it. Nothing makes the error fatal.
- **Transport.** The transport is abstract. The single flag `transportBound`
  stands both for "the session holds a transport" and for "that transport is
  open". While it is false, handing over a frame fails with TransportLost and
  `disconnect` fails with "transport disconnected".

## Model

| member | source | states |
|---|---|---|
| Messages.Marshal | autobahn/autobahn/stomp/message.py:115-387 | the command is the variant's type; the headers have distinct keys and include every mandatory key and only allowed keys; every header value is that field of the message, and an optional field that is None is omitted; the body is the stored body for SEND/ERROR and None otherwise |
| Messages.ParseStomp | autobahn/autobahn/stomp/message.py:99-113 | fails with "missing host in STOMP" when host is absent, then with "missing accept-version in STOMP"; succeeds exactly when both are present, taking both fields from the headers |
| Messages.ParseConnect | autobahn/autobahn/stomp/message.py:151-165 | fails with "missing host in CONNECT" exactly when host is absent; an absent accept-version becomes None |
| Messages.ParseConnected | autobahn/autobahn/stomp/message.py:202-212 | fails with "missing version in CONNECTED" exactly when version is absent; otherwise the version is the header's value |
| Messages.ParseSend | autobahn/autobahn/stomp/message.py:256-272 | a missing destination is reported first, then a missing (None) body; an empty body is accepted; succeeds exactly when destination and a body are present |
| Messages.ParseError | autobahn/autobahn/stomp/message.py:317-331 | never fails; message and receipt-id come from the headers (absent gives None) and the body is kept as given |
| Messages.ParseReceipt | autobahn/autobahn/stomp/message.py:370-380 | fails with "missing receipt-id in RECEIPT" exactly when receipt-id is absent |
| Messages.Parse | autobahn/autobahn/stomp/serializer.py:129 | for a recognised command, succeeds exactly when that command's mandatory headers are present (and, for SEND, a body); the result has that command, takes every allowed header from the input and, for SEND/ERROR, the body |
| Messages.ParseMarshal | autobahn/autobahn/stomp/message.py:99-387 | parsing the marshalled triple of any message gives the same message back, for every variant |
| Messages.MarshalParse | autobahn/autobahn/stomp/test/test_message.py:63-69 | for headers holding the mandatory keys and only allowed keys, parse then marshal gives back the same command, the same header dictionary and the same body |
| Messages.ConnectDefaults | autobahn/autobahn/stomp/message.py:138-174 | CONNECT with the default accept-version marshals host and accept-version 1.2; with None it marshals host only |
| Messages.Message.constructor | autobahn/autobahn/stomp/message.py:53-55 | a new message has an empty cache |
| Messages.Message.Serialize | autobahn/autobahn/stomp/message.py:64-71 | returns the marshalled triple and caches it; with a cached value returns that value without marshalling again |
| Messages.Message.Uncache | autobahn/autobahn/stomp/message.py:57-61 | empties the cache |
| Messages.Message.Equals | autobahn/autobahn/stomp/interfaces.py:112-117 | two messages are equal exactly when their declared fields are equal, whatever their caches hold |
| Serializer.Split | autobahn/autobahn/stomp/serializer.py:47 | splitting on LF or CR LF gives at least one line, and no line contains LF |
| Serializer.SplitLineCRLF | autobahn/autobahn/stomp/serializer.py:47 | a line without CR or LF followed by CR LF is split off as one line, exactly as when it is followed by LF (`SplitLine`) |
| Serializer.DecodesCRLFFrame | autobahn/autobahn/stomp/serializer.py:97 | a CONNECTED frame whose lines end in CR LF decodes to `Connected("1.2")` |
| Serializer.JoinSplit | autobahn/autobahn/stomp/serializer.py:47 | joining the lines of a text without CR LF with LF gives the text back |
| Serializer.EncodeLines | autobahn/autobahn/stomp/serializer.py:67-84 | the loop over the headers builds exactly `EncodeFrame`: the command line, one `key:value` line per header, a blank line, then the body if present, then NUL |
| Serializer.Serialize | autobahn/autobahn/stomp/serializer.py:62-84 | encodes the message's marshalled triple and leaves it in the message's cache |
| Serializer.EncodeEndsWithSingleNul | autobahn/autobahn/stomp/serializer.py:76-82 | an encoded frame ends in NUL, and when no field holds NUL it is the only NUL in the frame |
| Serializer.MatchHeader | autobahn/autobahn/stomp/serializer.py:49 | a line matches exactly when it holds a colon that is not its first character; the key is the text before the first colon, the value the rest of the line |
| Serializer.MatchHeaderLine | autobahn/autobahn/stomp/serializer.py:113-118 | a written `key:value` line with a non-empty, colon-free key is matched back into that key and value |
| Serializer.AddFirst | autobahn/autobahn/stomp/serializer.py:119-121 | a key already present keeps its value; a new key is added with the line's value |
| Serializer.FirstHeaderWins | autobahn/autobahn/stomp/serializer.py:119-121 | the first header line for a key, reached through header lines only, gives that key's value in `FirstMatch`, whatever repeats follow |
| Serializer.AcceptsHeaderRun | autobahn/autobahn/stomp/serializer.py:107-121 | header lines up to a blank line are accepted for any lines; the loop stops at that blank line, and every key not seen before holds the value of its first line (`FirstMatch`) |
| Serializer.HeaderLoopSucceeds | autobahn/autobahn/stomp/serializer.py:107-121 | the header loop succeeds exactly when the lines reach a blank line through header lines only |
| Serializer.ParseHeaders | autobahn/autobahn/stomp/serializer.py:107-121 | on success the remaining lines start with the blank line, the keys are distinct and earlier headers keep their values |
| Serializer.RejectsBadHeaderLine | autobahn/autobahn/stomp/serializer.py:113-115 | for any lines, a line that is not `key:value` reached through header lines only is a ProtocolError whose reason quotes that line, whatever follows it |
| Serializer.RejectsMissingBlankLine | autobahn/autobahn/stomp/serializer.py:109-111 | for any lines, header lines with no blank line after them are a ProtocolError |
| Serializer.RejectsUnknownCommand | autobahn/autobahn/stomp/serializer.py:101-105 | a first line that is not a recognised command is a ProtocolError whose reason names that command |
| Serializer.DecodeFrame | autobahn/autobahn/stomp/serializer.py:87-126 | a binary payload is refused before any parsing with "invalid serialization of STOMP message (binary True, but expected False)"; a frame without NUL terminator is refused with "STOMP frame not terminated by NUL"; a decoded frame has a recognised command and distinct header keys |
| Serializer.Decode | autobahn/autobahn/stomp/serializer.py:87-132 | a binary payload is refused; a decoded message's command is recognised; once the frame decodes, decoding fails exactly when the variant's parse fails |
| Serializer.Unserialize | autobahn/autobahn/stomp/serializer.py:87-132 | the loop that pops the command and the header lines computes exactly `Decode` |
| Serializer.DecodeEncodeFrame | autobahn/autobahn/stomp/serializer.py:62-126 | decoding an encoded well-formed frame with a recognised command gives the frame back |
| Serializer.MarshalWellFormed | autobahn/autobahn/stomp/serializer.py:69-75 | a message without line breaks in its fields and without CR LF in its body marshals to a frame the codec can carry |
| Serializer.DecodeEncode | autobahn/autobahn/stomp/test/test_serializer.py:54-66 | for every variant, decoding the encoding of a well-formed message gives the message back |
| Serializer.DecodeFrameAsWritten | autobahn/autobahn/stomp/serializer.py:96-126 | the unrepaired decoder still refuses binary payloads and unknown commands |
| Serializer.AsWrittenRefusesBodylessFrame | autobahn/autobahn/stomp/serializer.py:109-115 | as written, every encoded frame without a body is refused |
| Serializer.AsWrittenCorruptsBody | autobahn/autobahn/stomp/serializer.py:123-126 | as written, an encoded body comes back with a leading LF and the trailing NUL |
| Serializer.AsWrittenRefusesReceiptAndError | autobahn/autobahn/stomp/serializer.py:55-60 | with the command map as written, every encoded RECEIPT and ERROR is refused |
| Serializer.DecodeEncodeFullCommands | autobahn/autobahn/stomp/serializer.py:55-60 | with RECEIPT and ERROR added to the map, every well-formed message of every variant round-trips |
| Protocol.ApplicationSession.constructor | autobahn/autobahn/stomp/protocol.py:142-154 | a new session is not connected, has not said goodbye, has no transport and no pending request |
| Protocol.ApplicationSession.TransportSend | autobahn/autobahn/stomp/websocket.py:94-107 | with a transport, hands the frame over; without one, fails with TransportLost and sends nothing |
| Protocol.ApplicationSession.OnOpen | autobahn/autobahn/stomp/protocol.py:156-167 | stores the transport, clears the goodbye flag and sends exactly one CONNECT for the session's host with accept-version 1.2 |
| Protocol.ApplicationSession.Attach | autobahn/autobahn/stomp/protocol.py:169-176 | clears the goodbye flag and sends one CONNECT, or fails with TransportLost |
| Protocol.ApplicationSession.Disconnect | autobahn/autobahn/stomp/protocol.py:178-185 | closes the transport, or fails with "transport disconnected" when there is none |
| Protocol.ApplicationSession.OnDetach | autobahn/autobahn/stomp/protocol.py:261-265 | fires onDetach, which by default disconnects |
| Protocol.ApplicationSession.OnMessage | autobahn/autobahn/stomp/protocol.py:187-234 | before CONNECTED: CONNECTED sets the flag and fires onAttach, ERROR fires onDetach and leaves the flag false, anything else is a ProtocolError; afterwards: a RECEIPT or ERROR for a pending id settles exactly that future and removes only that key, an unknown id is a ProtocolError whose reason carries that id, an ERROR without receipt-id changes nothing, any other frame is a ProtocolError; every pending future stays in the table |
| Protocol.ApplicationSession.Settle | autobahn/autobahn/stomp/protocol.py:208-229 | pops one id and settles its future, keeping the table equal to the set of pending futures |
| Protocol.ApplicationSession.OnClose | autobahn/autobahn/stomp/protocol.py:237-254 | forgets the transport; if established, fires onDetach (whose failure is swallowed) and resets the flag; fires onDisconnect last; the table is untouched |
| Protocol.ApplicationSession.Detach | autobahn/autobahn/stomp/protocol.py:267-279 | refused before CONNECTED; the first call afterwards sends one DISCONNECT and sets the goodbye flag; a second call is SessionNotReady and sends nothing |
| Protocol.ApplicationSession.Send | autobahn/autobahn/stomp/protocol.py:281-298 | without a transport, fails with TransportLost and changes nothing; otherwise adds exactly one pending future under the fresh id, sends exactly one SEND carrying that id, leaves other entries untouched, and ignores the handshake and goodbye flags |
| Protocol.AcknowledgedSession | autobahn/autobahn/stomp/protocol.py:156-298 | open, CONNECTED, one SEND and its RECEIPT leave the request resolved and the table empty, and a second detach is refused |

## Left out

- WebSocket transport plumbing (`websocket.py`): subprotocol checks, close codes, `sendMessage`, `failConnection`, `abort` and the ProtocolError bail-out are not modelled. The transport is a flag plus the ghost log.
- UTF-8 encoding of frames is not modelled: frames are character strings.
- Twisted `Deferred`s (`twisted/stomp.py`): a future is a status, and the `_as_future` wrapping of `onAttach` is a log entry.
- `Send` does not model `util.id()`: the caller supplies an id that is not pending. The uniqueness guarantee is a precondition, not something the model proves.
- `_message_from_exception` and `_exception_from_message` are not modelled. A rejected future carries the ERROR's `message` header as its reason.
- `ApplicationSessionFactory`, `Handler`, the `__str__` methods, the debug flags and their print logging are not modelled.
- Cancelling a send future is not modelled: no code implements it.
- The user callbacks `onConnect`, `onAttach` and `onDisconnect` use their default bodies. `onDetach` uses its default, which disconnects.
- Protocol.ApplicationSession.TransportSend: `attach` and `detach` call `self._transport.send(...)` with no check. When the session holds no transport, before `onOpen` (no `_transport` attribute) or after `onClose` (`_transport` is None), that raises AttributeError. The model reports TransportLost instead.
- Protocol.ApplicationSession.Send: before `onOpen` the session has no `_transport` attribute, so the source's check raises AttributeError. The model reports TransportLost. After `onClose` the model agrees with the source, which raises TransportLost itself when `_transport` is None.
- Protocol.ApplicationSession.Disconnect: before `onOpen` the source's `if self._transport:` raises AttributeError. The model reports "transport disconnected". After `onClose` the model agrees with the source.
- Protocol.ApplicationSession.OnMessage: the reasons for a frame before CONNECTED and for an unexpected frame afterwards leave out the Python class name that the source formats into them. The RECEIPT and ERROR reasons carry the receipt id as the source's do.
- Serializer.DecodeEncode: the round trip needs fields without line breaks, keys without colons and a body without CR LF, because the codec does no escaping.
- Serializer.DecodeFrameAsWritten: running out of lines in the header loop raises IndexError in the source; this member reports the repaired ProtocolError instead, since both findings below hold either way.

## Findings

| source | as written | input that shows it | evidently intended | confidence | as-written member | corrected member |
|---|---|---|---|---|---|---|
| autobahn/autobahn/stomp/serializer.py:55-60 | `MESSAGE_TYPE_MAP` lists only STOMP, CONNECT, CONNECTED and SEND, so decoding any RECEIPT or ERROR frame raises "invalid STOMP message type" | `Receipt("123456")` serialized and then unserialized | the map also holds RECEIPT and ERROR: the round-trip test encodes both and the session consumes both | not executed | Serializer.AsWrittenRefusesReceiptAndError | Serializer.DecodeEncodeFullCommands |
| autobahn/autobahn/stomp/serializer.py:97-115 | the trailing NUL is never removed, so in a frame without body the last line holds only NUL and the header loop rejects it as a header | `Connected("1.2")` encodes to `CONNECTED\nversion:1.2\n` plus NUL; decoding raises "invalid header line" | strip the NUL before splitting, so a frame without body decodes with body None | not executed | Serializer.AsWrittenRefusesBodylessFrame | Serializer.DecodeEncodeFrame |
| autobahn/autobahn/stomp/serializer.py:123-126 | the blank separator line is never popped and the NUL never removed, so a body comes back as LF, the body, then NUL | `Send("/test", "x")` decodes with body `"\nx"` plus NUL | join only the lines after the blank one, NUL stripped, so that decoding inverts encoding | not executed | Serializer.AsWrittenCorruptsBody | Serializer.DecodeEncodeFrame |
