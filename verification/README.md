# A verified model of the ChatApp WebSocket chat

ChatApp is a small chat system. A Python server (`Part_2/ChatApp/server`)
serves static files over HTTP and upgrades connections to WebSocket. It keeps
a registry of connected sockets and their usernames, and it relays
`USERNAME|MESSAGE|TIMESTAMP` strings between browsers. A browser page
(`Part_2/ChatApp/client/script.js`) sends and displays those strings.

This project models the protocol and state logic of both sides as pure Dafny
functions over byte sequences, strings and an insertion-ordered registry. It
then proves what that logic promises.

| file | module | models |
|---|---|---|
| `wrappers.dfy` | `Wrappers` | `Option`, map lookup (`dict.get`), `min` |
| `bytes.dfy` | `Bytes` | bytes as integers 0..255, XOR, the `'>H'` / `'>Q'` big-endian packings |
| `text.dfy` | `Text` | `split`/`join`, `strip`/`trim`, ASCII `lower`, `in` on strings, `str(n)`, decimal `parseInt` |
| `frame.dfy` | `Frame` | RFC 6455 framing: `encode_frame`, `decode_frame`, `unmask_payload`, the `send_close` payload |
| `session.dfy` | `Session` | `perform_handshake` and the loop of `handle_websocket_connection`, as a trace of events |
| `http.dfy` | `Http` | `parse_request`, `build_response`, `is_websocket_upgrade`, the path checks of `serve_static_file`, `handle_http` |
| `registry.dfy` | `Registry` | `client_manager.py`: add/remove/lookup/list/count, `broadcast` with pruning, the `SYSTEM` and `USERLIST` formats |
| `chat.dfy` | `Chat` | `on_message` / `on_close` of `server.py`, and one connection's events driving them |
| `browser.dfy` | `Browser` | `ws.onmessage` classification, the strings `onopen`/`sendMessage`/`disconnect` send, the checks of `connect` |

## How the model represents the system

- **The socket stream.** A socket is read as a `seq<byte>` input stream. `recv(n)` returns
  `min(n, remaining)` bytes. The frames the server writes itself (PONG, the
  closing frame) and the calls it makes (`on_message`, `on_close`) form a
  trace of `Session.Event`s.
- **Failing writes.** A write on the connection's own socket can fail. This is the parameter
  `sendable`: the number of writes that still succeed.
- **Failing broadcast sends.** Which sends fail during a `broadcast` is a parameter. A `Chat.Failures` value holds two sets for one event:
  - `first`, for the system notice or the relayed line;
  - `second`, for the user list that follows a notice.

  The two broadcasts are separate `sendall` loops, so a socket can take the notice and fail the list. A connection's events take their failures from a sequence, one `Failures` per event.
- **Parameters for what the model cannot compute.** SHA-1 with base64 (`sha1Base64`), UTF-8 decoding of a
  TEXT payload (`decodeText`) and of an HTTP request (`decodeUtf8`), where None stands for `UnicodeDecodeError`,
  the clock (`now`, `timestamp`) and the filesystem part of
  `serve_static_file` (`readFile`) are all parameters.
- **The registry.** `connected_clients` is a sequence of `(socket, username)` entries in
  insertion order, as a Python dict iterates, with distinct sockets.
  `Registry.AsMap` is its view as a `map`. Broadcast order and the
  `USERLIST` text depend on that order.
- **Server state.** The server's state (`Chat.State`) holds three things:
  - the registry;
  - the log of every `(socket, message)` it sent;
  - the sockets it closed after a failed send.

  `Registry.Inbox` projects the log onto one socket.

## Behaviour of the code that the model keeps

- **Truncated payload.** A stream that ends inside a payload is not a decode failure. `decode_frame`
  returns the opcode and the bytes that did arrive
  (`websocket_handler.py:106-111`). See `Frame.DecodeTruncatedPayload`.
- **Empty key.** An empty `sec-websocket-key` fails the handshake just as a missing one does.
  The code checks `not websocket_key`.
- **Failed handshake write.** If writing the 101 response fails, the exception escapes before the
  `try`, so `on_close` is not called. A handshake that is refused for its
  key is treated the same way (`websocket_handler.py:220-221`).
- **CLOSE reply.** A CLOSE frame is answered with a fresh closing frame of status 1000. It is
  not an echo of the peer's payload (`send_close()` with its defaults).
- **`on_close` condition.** `on_close` announces a departure only when the removed name is truthy.
  An empty username is removed silently, as is a socket that was never
  registered.

## Model

| member | source | states |
|---|---|---|
| Bytes.XorTwice | Part_2/ChatApp/server/websocket_handler.py:135 | XOR-ing a byte twice with the same key byte gives the byte back |
| Bytes.ToBigEndian | Part_2/ChatApp/server/websocket_handler.py:166-171 | `struct.pack('>H'/'>Q')`: exactly `width` bytes that read back as the number |
| Bytes.BigEndianInjective | Part_2/ChatApp/server/websocket_handler.py:88-96 | `struct.unpack` followed by `struct.pack` at the same width gives the bytes back |
| Frame.EncodeFrame | Part_2/ChatApp/server/websocket_handler.py:138-176 | first byte is `0x80 + opcode` with FIN and `opcode` without; second byte < 0x80 (no mask); <126 gives one length byte, 126..65535 gives 126 then 2 big-endian bytes, 65536 and up gives 127 then 8 bytes; total size 2 + {0,2,8} + n; the payload is the verbatim suffix |
| Frame.UnmaskPayload | Part_2/ChatApp/server/websocket_handler.py:124-135 | unmasking preserves the payload length |
| Frame.UnmaskInvolution | Part_2/ChatApp/server/websocket_handler.py:124-135 | unmasking twice with the same 4-byte key restores the payload |
| Frame.Recv | Part_2/ChatApp/server/websocket_handler.py:107 | `recv(n)` yields `min(n, remaining)` bytes and leaves the rest of the stream |
| Frame.ReadPayload | Part_2/ChatApp/server/websocket_handler.py:103-111 | the chunked payload loop reads `min(len, available)` bytes; a stream that ends early just stops it |
| Frame.ReadLength | Part_2/ChatApp/server/websocket_handler.py:88-96 | the extended length fails (None) exactly when fewer than 2 or 8 bytes remain after 126 or 127 |
| Frame.DecodeFrameFails | Part_2/ChatApp/server/websocket_handler.py:72-121 | `decode_frame` gives `(None, None)` exactly when the stream ends inside the 2 header bytes or the extended length |
| Frame.DecodeFrameFields | Part_2/ChatApp/server/websocket_handler.py:78-117 | a decoded frame has the opcode of the low 4 bits of byte 0, a payload below 2^64 bytes, and consumes a prefix of the stream |
| Frame.DecodeEncodeFrame | Part_2/ChatApp/server/websocket_handler.py:62-121 | round trip: decoding `encode_frame(data, op, fin)` followed by anything gives `(op, data)` and consumes exactly that frame |
| Frame.DecodeMaskedBytes | Part_2/ChatApp/server/websocket_handler.py:98-115 | a frame with the mask bit set decodes to the payload XOR-ed with `key[i mod 4]` |
| Frame.DecodeClientFrame | Part_2/ChatApp/server/websocket_handler.py:62-121 | a frame masked by a client as section 5.3 of RFC 6455 requires decodes to the client's data |
| Frame.DecodeTruncatedPayload | Part_2/ChatApp/server/websocket_handler.py:103-117 | a stream ending k > 0 bytes inside the payload decodes to the opcode and the shorter, partial payload |
| Frame.DecodeTruncatedClientFrame | Part_2/ChatApp/server/websocket_handler.py:98-117 | a client's masked frame cut k > 0 bytes inside its payload decodes to the opcode and the data that arrived, unmasked |
| Frame.UnmaskPrefix | Part_2/ChatApp/server/websocket_handler.py:113-115 | unmasking a prefix of a masked payload gives that prefix of the data |
| Frame.FirstByteFields | Part_2/ChatApp/server/websocket_handler.py:78-81 | the decoder reads back the opcode the encoder put in the first byte |
| Frame.SecondByteFields | Part_2/ChatApp/server/websocket_handler.py:83-86 | the decoder reads back the mask bit and 7-bit length code the encoder wrote |
| Frame.ClosePayload | Part_2/ChatApp/server/websocket_handler.py:191-201 | the close payload is the 2-byte big-endian code followed by the reason |
| Frame.DefaultCloseFrame | Part_2/ChatApp/server/websocket_handler.py:191-205 | `send_close()` writes exactly `88 02 03 E8` |
| Session.HandshakeResponse | Part_2/ChatApp/server/websocket_handler.py:22-59 | no response exactly when `sec-websocket-key` is missing or empty; otherwise the 101 response carrying `accept(key)` for that key |
| Session.SwitchingProtocolsParses | Part_2/ChatApp/server/websocket_handler.py:46-53 | the 101 response reads back as status line `HTTP/1.1 101 Switching Protocols` with `Upgrade: websocket`, `Connection: Upgrade` and `Sec-WebSocket-Accept: accept(key)` |
| Session.UpgradeRequestParses | Part_2/ChatApp/server/http_handler.py:21-66 | a browser's upgrade request text parses to its path and the `upgrade`, `connection` and `sec-websocket-key` fields |
| Session.UpgradeDetected | Part_2/ChatApp/server/http_handler.py:158-167 | `Upgrade: websocket` with `Connection: Upgrade` passes the upgrade check |
| Session.UpgradeRequestAccepted | Part_2/ChatApp/server/http_handler.py:184-193 | bytes that decode to a browser's upgrade request get nothing written back by `handle_http` and are handed on, and `perform_handshake` answers them with the 101 response for its key |
| Session.Dispatch | Part_2/ChatApp/server/websocket_handler.py:224-255 | whatever the frames, `on_close` is called exactly once, as the last event |
| Session.FrameLoop | Part_2/ChatApp/server/websocket_handler.py:222-255 | the loop over a byte stream calls `on_close` exactly once, last |
| Session.RunSession | Part_2/ChatApp/server/websocket_handler.py:208-255 | no event at all (no frame read, no `on_close`) exactly when the handshake fails or its response cannot be written; otherwise the 101 response comes first and `on_close` once at the end |
| Session.ReceivedFits | Part_2/ChatApp/server/websocket_handler.py:88-96 | every frame read from any stream has a payload that fits the 64-bit length field |
| Session.ReceivedWire | Part_2/ChatApp/server/websocket_handler.py:62-121 | the server reads back exactly the frames a client sent, in order |
| Session.CloseEndsLoop | Part_2/ChatApp/server/websocket_handler.py:236-240 | a CLOSE frame is answered with `88 02 03 E8` (when the write succeeds) and ends the loop |
| Session.TextsInOrder | Part_2/ChatApp/server/websocket_handler.py:231-234 | every TEXT payload reaches `on_message`, in stream order |
| Session.PongsInOrder | Part_2/ChatApp/server/websocket_handler.py:242-245 | the server's own writes are one PONG per PING, with identical payload, in order |
| Session.StreamInOrder | Part_2/ChatApp/server/websocket_handler.py:222-255 | the same two facts at the byte level, for a client's stream of masked frames |
| Http.ParseRequest | Part_2/ChatApp/server/http_handler.py:36-62 | on the decoded text: None exactly when the first CRLF line does not split on single spaces into 3 tokens; otherwise the headers are those of the lines after it |
| Http.ParseRequestBytes | Part_2/ChatApp/server/http_handler.py:21-66 | bytes that do not decode as UTF-8 give no request; otherwise the request is that of the decoded text |
| Http.AddFieldSetsOne | Part_2/ChatApp/server/http_handler.py:53-55 | a header line sets the one field it defines to its stripped value, and leaves every other field, present or absent, as it was |
| Http.FieldAtFirstColon | Part_2/ChatApp/server/http_handler.py:53-55 | a line `name:value` whose name has no `:` sets the stripped, lower-cased name to the stripped value, so a value keeps any later `:` |
| Http.UndecodableRequestNotFound | Part_2/ChatApp/server/http_handler.py:182-186 | bytes that are not UTF-8 get the 404 page and no request, whatever request line they would spell |
| Http.BlankIndex | Part_2/ChatApp/server/http_handler.py:50-52 | the index of the first empty line: every line before it is non-empty |
| Http.HeadersStopAtBlank | Part_2/ChatApp/server/http_handler.py:50-52 | nothing after the first empty line becomes a header |
| Http.HeadersSnoc | Part_2/ChatApp/server/http_handler.py:53-55 | a later line is applied last, so a duplicate overwrites an earlier one |
| Http.HeaderPresent | Part_2/ChatApp/server/http_handler.py:50-55 | a field is present iff some line before the first empty line defines it |
| Http.HeaderLastWins | Part_2/ChatApp/server/http_handler.py:53-55 | a field's value is that of the last line defining it |
| Http.HeaderUntouched | Part_2/ChatApp/server/http_handler.py:50-55 | lines that do not define a field leave it as it was |
| Http.ParseRequestText | Part_2/ChatApp/server/http_handler.py:21-66 | round trip: a well-formed request text parses back to its three tokens and its normalised fields |
| Http.IsWebSocketUpgrade | Part_2/ChatApp/server/http_handler.py:148-167 | False for None; otherwise True iff lower-cased `upgrade` contains `websocket` and lower-cased `connection` contains `upgrade` |
| Http.BuildResponse | Part_2/ChatApp/server/http_handler.py:69-90 | the body follows the head unchanged |
| Http.ResponseHeadParses | Part_2/ChatApp/server/http_handler.py:83-90 | the head reads back as the status line, `Content-Type`, a `Content-Length` equal to `len(body)` and `Connection: close` |
| Http.StaticTargetFor | Part_2/ChatApp/server/http_handler.py:103-109 | `/` becomes `/index.html`; a path containing `..` is refused; an accepted path has no `..` |
| Http.ServeStaticFile | Part_2/ChatApp/server/http_handler.py:93-109 | a path containing `..` gets the 404 page before any filesystem access |
| Http.HandleHttp | Part_2/ChatApp/server/http_handler.py:170-199 | undecodable or unparsable: 404 sent, None returned; upgrade: nothing sent, request returned; otherwise the static file is sent |
| Text.Split | Part_2/ChatApp/server/server.py:48 | the pieces of a split join back into the string |
| Text.SplitJoin | Part_2/ChatApp/server/client_manager.py:141 | splitting a join of separator-free parts gives the parts back |
| Text.SplitLength | Part_2/ChatApp/server/server.py:48-50 | a split on one character has one more piece than the string has occurrences of it |
| Text.SplitTwoFields | Part_2/ChatApp/server/server.py:48-55 | whatever follows two separator-free fields, the split begins with those two fields |
| Text.Decimal | Part_2/ChatApp/server/client_manager.py:142 | `str(n)` is a digit string with no leading zero denoting n |
| Text.ParseInt | Part_2/ChatApp/client/script.js:141 | NaN (None) exactly when the text does not begin with a digit |
| Text.ParseIntDecimal | Part_2/ChatApp/client/script.js:141 | on exact integers, `parseInt(String(n))` is n; the page's double agrees for n up to 2^53 |
| Text.TrimCut | Part_2/ChatApp/client/script.js:219 | trimming removes only white space, from the two ends |
| Text.TrimEmpty | Part_2/ChatApp/client/script.js:93-100 | a trimmed string is empty iff every character is white space |
| Text.TrimIdempotent | Part_2/ChatApp/client/script.js:219 | trimming twice is trimming once |
| Text.Contains | Part_2/ChatApp/server/http_handler.py:108 | `needle in hay` iff the needle occurs at some index |
| Text.IndexOf | Part_2/ChatApp/server/http_handler.py:54 | the first occurrence of the character, or None when it does not occur |
| Registry.AddMap | Part_2/ChatApp/server/client_manager.py:22-23 | the map becomes `map[sock := name]` (overwriting, others unchanged); a known socket keeps its place, a new one is appended |
| Registry.Remove | Part_2/ChatApp/server/client_manager.py:39-47 | a socket without an entry returns None and leaves the registry unchanged |
| Registry.RemoveMap | Part_2/ChatApp/server/client_manager.py:39-47 | returns the stored name or None, deletes exactly that entry, keeps the order of the rest |
| Registry.RemoveTwice | Part_2/ChatApp/server/client_manager.py:39-47 | a second removal of the same socket returns None |
| Registry.GetUsernameMap | Part_2/ChatApp/server/client_manager.py:60-62 | the lookup is the map's value or None |
| Registry.UsernamesOfMap | Part_2/ChatApp/server/client_manager.py:72-73 | a name is listed exactly when some registered socket has it |
| Registry.CountMatches | Part_2/ChatApp/server/client_manager.py:65-84 | the count equals the number of map entries and the length of the username list |
| Registry.Attempts | Part_2/ChatApp/server/client_manager.py:95-103 | the snapshot's sockets except `exclude_socket` |
| Registry.BroadcastOutcome | Part_2/ChatApp/server/client_manager.py:87-117 | attempted sockets are distinct; the message reaches exactly the registered, non-excluded, non-failing sockets; the failures are exactly the registered, non-excluded, failing sockets; the registry loses exactly them |
| Registry.BroadcastInbox | Part_2/ChatApp/server/client_manager.py:99-109 | per socket: exactly one copy of the message to each registered, non-excluded, non-failing socket, and none to any other (so none to `exclude_socket`, and one failure does not stop later sends) |
| Registry.PruneMap | Part_2/ChatApp/server/client_manager.py:111-117 | the clean-up loop removes exactly the failed sockets |
| Registry.BroadcastPrunesBroken | Part_2/ChatApp/server/client_manager.py:87-117 | with nothing excluded, the registry afterwards is the old one minus the failing sockets, and those are the ones closed |
| Registry.BroadcastHealthy | Part_2/ChatApp/server/client_manager.py:111-117 | a broadcast in which no send fails leaves the registry as it was |
| Registry.EmptyUserList | Part_2/ChatApp/server/client_manager.py:139-143 | an empty registry announces `USERLIST|0|` |
| Chat.OnMessage | Part_2/ChatApp/server/server.py:40-71 | the registry keeps one entry per socket |
| Chat.OnClose | Part_2/ChatApp/server/server.py:74-80 | the registry keeps one entry per socket |
| Chat.AnnounceTable | Part_2/ChatApp/server/client_manager.py:111-143 | the system notice then the user list: the registry loses, and the server closes, exactly the registered sockets that fail either round |
| Chat.AnnounceInbox | Part_2/ChatApp/server/client_manager.py:120-143 | a socket gets the `SYSTEM|text|now` notice iff it is registered and does not fail it; it then gets the `USERLIST` of the registry the notice left iff it is in that registry and does not fail the list; nothing else is sent |
| Chat.AnnounceListCurrent | Part_2/ChatApp/server/client_manager.py:134-143 | when no registered socket fails the list, the list sent names exactly the registry the announcement leaves |
| Chat.ListFailsAfterNotice | Part_2/ChatApp/server/client_manager.py:99-117 | a socket that takes the notice and fails the list gets the notice alone and is dropped, while the list the others get still names it |
| Chat.ShortMessageIgnored | Part_2/ChatApp/server/server.py:47-50 | a message with fewer than two `|` changes nothing and sends nothing |
| Chat.LeaveIgnored | Part_2/ChatApp/server/server.py:66-68 | `name|LEAVE|…` changes nothing and sends nothing |
| Chat.JoinTable | Part_2/ChatApp/server/server.py:57-64 | `name|JOIN|…` maps the socket to `name`, and the registered sockets failing either round are then dropped |
| Chat.JoinEffect | Part_2/ChatApp/server/server.py:57-64 | `name|JOIN|…` (any tail) maps the socket to `name`, and then the sockets failing either round are dropped; every registered socket, the joiner included, gets `name joined the chat` unless it fails the notice, and then the user list of the registry left by the notice unless it failed either round |
| Chat.JoinListsJoiner | Part_2/ChatApp/server/server.py:57-64 | a joiner that fails neither round receives a user list that names it |
| Chat.RejoinKeepsCount | Part_2/ChatApp/server/server.py:52-63 | when no send fails, a second JOIN on a registered socket renames it without changing the count |
| Chat.RelayEffect | Part_2/ChatApp/server/server.py:70-71 | any other message of 3 or more fields goes verbatim to every registered socket that does not fail it, the sender included; those that fail are dropped and closed |
| Chat.CloseEffect | Part_2/ChatApp/server/server.py:74-80 | the socket is unregistered; with a non-empty name, every other registered socket gets `name left the chat` unless it fails the notice, then the user list of the registry the notice left unless it failed either round; an empty or missing name sends nothing |
| Chat.PrunedCloseSilent | Part_2/ChatApp/server/server.py:74-80 | a socket that a failed broadcast already removed gets no leave notice when it closes |
| Chat.ServeUnregisters | Part_2/ChatApp/server/websocket_handler.py:253-255 | a connection whose loop ends with `on_close` leaves its socket unregistered |
| Chat.ConnectionEnds | Part_2/ChatApp/server/websocket_handler.py:208-255 | a failed handshake leaves the server state untouched; any other connection ends with its socket unregistered |
| Chat.ServeAfterOwnClose | Part_2/ChatApp/server/websocket_handler.py:223-229 | once a failed broadcast has closed the connection's own socket, the rest of the connection is its `on_close` alone: no later text is read |
| Chat.JoinOnBrokenSocket | Part_2/ChatApp/server/client_manager.py:111-117 | a JOIN whose notice or user list fails on the joiner's own socket leaves that socket closed and unregistered |
| Chat.JoinOnBrokenSocketEnds | Part_2/ChatApp/server/client_manager.py:111-117 | after such a JOIN nothing the connection does reaches anyone: its later texts are never read and its close announces nothing |
| Browser.Classify | Part_2/ChatApp/client/script.js:133-162 | ignored iff fewer than two `|`; a shown line is never from `USERLIST`; system iff the sender is `SYSTEM`; own iff the sender is the page's username and not `SYSTEM` |
| Browser.SendMessage | Part_2/ChatApp/client/script.js:218-227 | nothing is sent iff the socket is not open or the input is all white space |
| Browser.DisconnectLeavesToClose | Part_2/ChatApp/client/script.js:185-192 | on an open socket one leave message is sent; the server ignores it, so the connection's end is exactly what `on_close` does |
| Browser.Connect | Part_2/ChatApp/client/script.js:92-106 | a connection goes ahead only with a non-empty username |
| Browser.ConnectChecks | Part_2/ChatApp/client/script.js:92-106 | nothing happens iff the username or the address is all white space; the name used has no white space at either end |
| Browser.JoinRegistersName | Part_2/ChatApp/client/script.js:127 | for a username without `|`, the page's join message maps its socket on the server to exactly that username |
| Browser.PipeNameNotRegistered | Part_2/ChatApp/client/script.js:92-100 | a username `a|b` with one `|` and `b` neither `JOIN` nor `LEAVE`, which `connect` accepts, is not registered by its join message: that message is relayed as a chat line |
| Browser.PipeJoinNameRegistersPrefix | Part_2/ChatApp/client/script.js:127 | a username `a|JOIN` is registered as `a` |
| Browser.PipeLeaveNameIgnored | Part_2/ChatApp/client/script.js:127 | a username `a|LEAVE` is never registered: its join message changes nothing |
| Browser.LeaveChangesNothing | Part_2/ChatApp/client/script.js:188 | the page's leave message changes nothing on the server |
| Browser.TypedLeaveDropped | Part_2/ChatApp/client/script.js:219-227 | a chat input that trims to `LEAVE` is sent and then silently dropped by the server |
| Browser.UserListRoundTrip | Part_2/ChatApp/client/script.js:140-145 | the page reads the server's `USERLIST` back as exactly its count and names, if the names are non-empty and free of `,` and `|` |
| Browser.EmptyNameLost | Part_2/ChatApp/client/script.js:142 | a registry holding one empty name is shown as count 1 with an empty list |
| Browser.SystemRoundTrip | Part_2/ChatApp/client/script.js:147-158 | the server's `SYSTEM|m|t` is shown as a system line with text m and time t |
| Browser.OwnLineRoundTrip | Part_2/ChatApp/client/script.js:218-227 | a chat line the page sends and gets relayed back is shown as its own, with the trimmed text and the time |
| Browser.OthersLine | Part_2/ChatApp/client/script.js:153-158 | another sender's line is shown as "other" |
| Browser.SystemNameSpoofs | Part_2/ChatApp/client/script.js:153-155 | a user named `SYSTEM` has every chat line shown as a system notice |
| Browser.UserListNameSpoofs | Part_2/ChatApp/client/script.js:140-141 | a user named `USERLIST` who types a number replaces every page's count with it, read as an exact integer |
| Browser.PipeCutsMessage | Part_2/ChatApp/client/script.js:147-150 | a `|` typed into a message cuts it: the text after it is shown as the time and the real time is dropped |

## Left out

- Sockets, `bind`/`accept`, `handle_client`, `get_local_ip`, `main` in `server.py` and all of `run.py`: these are process start-up and I/O plumbing. The stream is a given byte sequence, and write failures are the `sendable` count and the `Chat.Failures` per event.
- Threads and `clients_lock`: the registry is modelled as one sequential history, and the lock-free window between the snapshot and the sends is not modelled.
- SHA-1 and base64 in `perform_handshake`: these are library calls, modelled as the uninterpreted parameter `sha1Base64`. No known SHA-1 value is assumed.
- UTF-8: decoding a TEXT payload is the parameter `decodeText`, and decoding a request is `decodeUtf8`. Encoding the outgoing strings into frames is not modelled. `Registry.Send` records the string sent, not its frame.
- `datetime.now()` and the page's `getTimestamp()`: both are parameters. One `now` is used for every notice in a connection.
- The filesystem part of `serve_static_file`: `normpath`, the directory-prefix check, `isfile`, reading the file, the content-type table and `build_500` are all the parameter `readFile`.
- The DOM, alerts, focus and event-listener wiring of `script.js`: the display is returned as a `Browser.Shown` value, and `updateUserList`/`addMessage` are not modelled.
- Text.ParseInt: models `parseInt` on decimal digits only. Leading white space, a sign and the hexadecimal prefix are not modelled. The result is an exact `nat`, but `parseInt` yields a double, so values above 2^53 are rounded in the page and very large ones are shown in exponent form.
- Text.ParseIntDecimal, Browser.UserListNameSpoofs: they state the exact integer. The page's count agrees with it only for n up to 2^53, for the rounding reason given under Text.ParseInt. `Browser.UserListRoundTrip` is not affected in practice, since its count is the registry's size.
- Text.Lower: lower-cases ASCII letters only, where Python's `lower` covers all of Unicode.
- Fragmentation: the FIN bit is read but ignored, as in the code. A continuation frame is skipped, like any other unknown opcode.
- Session.FrameLoop: decodes every frame first and acts on them afterwards. The code interleaves the two. Since the whole stream is given up front and the loop reads nothing after it stops, the session's own events are the same. The session trace does not see the registry, though. A broadcast that closes the connection's own socket ends the real loop at its next read, but the trace goes on. `Chat.Step` closes that gap by ignoring the texts after that point (`Chat.ServeAfterOwnClose`). The session's PONG writes after that point are not removed from the trace.
- Chat.Serve: models one connection at a time. When a broadcast closes another connection's socket, that connection's loop would also stop, but that is only visible when its own events are served.
- Browser.PipeNameNotRegistered: covers the names with exactly one `|`; the JOIN and LEAVE cases are `PipeJoinNameRegistersPrefix` and `PipeLeaveNameIgnored`, and names with more than one `|` are not covered.
- Frame.EncodeFrame: requires a payload shorter than 2^64 bytes. The `struct.error` that `struct.pack('>Q')` raises above that is not modelled, since no payload held in memory reaches that size.
- `print` statements and the exception-logging branches have no effect on state and are not modelled.
