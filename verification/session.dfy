/**
 * One WebSocket connection on the server side: the opening handshake of
 * RFC 6455 section 4.2.2 and the frame loop of `handle_websocket_connection`.
 *
 * The connection is modelled as the trace of what the server does, in
 * order: the handshake response it writes, the frames it writes itself
 * (PONG and the closing frame), the texts it hands to `on_message`, and the
 * single call of `on_close`. The input is the client's byte stream; SHA-1
 * with base64 and UTF-8 decoding are parameters, and so is the number of
 * the connection's own writes that succeed before the peer is gone.
 */
module Session {
  import opened Wrappers
  import opened Bytes
  import opened Text
  import opened Frame
  import opened Http

  /** The GUID section 1.3 of RFC 6455 appends to the client's key. */
  const WEBSOCKET_GUID: string := "258EAFA5-E914-47DA-95CA-C5AB0DC85B11"

  const SWITCHING_PROTOCOLS: string := "HTTP/1.1 101 Switching Protocols"

  /** `base64(sha1(key + GUID))`, with the digest and its encoding given as `sha1Base64`. */
  function AcceptKey(key: string, sha1Base64: string -> string): string
  {
    sha1Base64(key + WEBSOCKET_GUID)
  }

  /** The header fields of the 101 response, in the order they are written. */
  function UpgradeFields(acceptKey: string): seq<(string, string)>
  {
    [("Upgrade", "websocket"), ("Connection", "Upgrade"), ("Sec-WebSocket-Accept", acceptKey)]
  }

  /** The 101 response `perform_handshake` writes. */
  function SwitchingProtocols(acceptKey: string): string
  {
    Head(SWITCHING_PROTOCOLS, UpgradeFields(acceptKey))
  }

  /**
   * `perform_handshake`: None (nothing written, False returned) when the
   * request has no `sec-websocket-key` or an empty one; otherwise the
   * response to write.
   */
  function HandshakeResponse(headers: map<string, string>, sha1Base64: string -> string): (r: Option<string>)
    ensures r.None? <==> "sec-websocket-key" !in headers || headers["sec-websocket-key"] == ""
    ensures r.Some? ==> r.value == SwitchingProtocols(AcceptKey(headers["sec-websocket-key"], sha1Base64))
  {
    match Get(headers, "sec-websocket-key")
    case None => None
    case Some(key) =>
      if key == "" then None else Some(SwitchingProtocols(AcceptKey(key, sha1Base64)))
  }

  /** What the server does on the connection, in order. */
  datatype Event =
    | Upgraded(response: string)  // the 101 response is written
    | Wrote(frame: seq<byte>)     // a frame the loop writes itself: PONG or the closing frame
    | Delivered(text: string)     // `on_message(sock, text)`
    | Closed                      // `on_close(sock)`

  /** The frame `send_close()` writes: status 1000 and no reason. */
  function CloseFrame(): seq<byte>
  {
    EncodeFrame(ClosePayload(NORMAL_CLOSURE, []), CLOSE, true)
  }

  /** `on_close` is called once, as the last thing the loop does. */
  predicate ClosesOnceAtEnd(events: seq<Event>)
  {
    && |events| >= 1
    && events[|events| - 1] == Closed
    && Closed !in events[..|events| - 1]
  }

  /** An event that is not `on_close`, put in front of a trace that closes once at its end. */
  function Prepend(e: Event, events: seq<Event>): (r: seq<Event>)
    requires e != Closed && ClosesOnceAtEnd(events)
    ensures ClosesOnceAtEnd(r)
    ensures r[0] == e && r[1..] == events
  {
    [e] + events
  }

  /** A frame as `decode_frame` hands it to the loop: its opcode and its unmasked payload. */
  datatype Incoming = Incoming(opcode: Opcode, payload: seq<byte>)

  /** Every payload fits the 64-bit length field, so it can be sent back. */
  predicate Fits(frames: seq<Incoming>)
  {
    forall i :: 0 <= i < |frames| ==> |frames[i].payload| < MAX_PAYLOAD
  }

  /**
   * The frames `decode_frame` reads from `s` one after another, up to the
   * first call that finds no frame.
   */
  function Received(s: seq<byte>): (frames: seq<Incoming>)
    decreases |s|
  {
    var d := DecodeFrame(s);
    if d.NoFrame? then [] else [Incoming(d.opcode, d.payload)] + Received(d.rest)
  }

  /** Every frame read from a stream has a payload that fits the 64-bit length field. */
  lemma {:induction false} ReceivedFits(s: seq<byte>)
    ensures Fits(Received(s))
    decreases |s|
  {
    var d := DecodeFrame(s);
    if d.Decoded? {
      DecodedPayloadFits(s);
      ReceivedFits(d.rest);
      FitsCons(Incoming(d.opcode, d.payload), Received(d.rest));
    }
  }

  lemma FitsCons(f: Incoming, frames: seq<Incoming>)
    requires |f.payload| < MAX_PAYLOAD && Fits(frames)
    ensures Fits([f] + frames)
  {
  }

  /**
   * The body of the `while True` loop of `handle_websocket_connection`, over
   * the frames it reads, with `sendable` writes left before a write fails.
   * The end of the frames (a decode failure) ends the loop; TEXT is decoded
   * and delivered, and a payload that is not UTF-8 raises and ends it; CLOSE
   * is answered (a failed answer is swallowed) and ends it; PING is answered
   * with a PONG of the same payload, and a failed PONG raises and ends it;
   * PONG and every other opcode are skipped. However the loop ends, the
   * `finally` clause calls `on_close`.
   */
  function Dispatch(frames: seq<Incoming>, decodeText: seq<byte> -> Option<string>, sendable: nat): (events: seq<Event>)
    requires Fits(frames)
    ensures ClosesOnceAtEnd(events)
  {
    if |frames| == 0 then [Closed]
    else
      var f := frames[0];
      assert Fits(frames[1..]) && |f.payload| < MAX_PAYLOAD;
      if f.opcode == TEXT then
        match decodeText(f.payload)
        case None => [Closed]
        case Some(text) => Prepend(Delivered(text), Dispatch(frames[1..], decodeText, sendable))
      else if f.opcode == CLOSE then
        if sendable > 0 then [Wrote(CloseFrame()), Closed] else [Closed]
      else if f.opcode == PING then
        if sendable == 0 then [Closed]
        else Prepend(Wrote(EncodeFrame(f.payload, PONG, true)), Dispatch(frames[1..], decodeText, sendable - 1))
      else Dispatch(frames[1..], decodeText, sendable)
  }

  /**
   * The connection loop over the stream `s`. The loop reads a frame only
   * after it has acted on the previous one; since the stream is given in
   * full and a loop that stops reads nothing more, reading first and acting
   * afterwards gives the same events.
   */
  function FrameLoop(s: seq<byte>, decodeText: seq<byte> -> Option<string>, sendable: nat): (events: seq<Event>)
    ensures ClosesOnceAtEnd(events)
  {
    ReceivedFits(s);
    Dispatch(Received(s), decodeText, sendable)
  }

  /**
   * `handle_websocket_connection`: when the handshake fails nothing happens
   * at all, not even `on_close`; when writing the 101 response fails the
   * exception leaves before the `try`, so again `on_close` is not called.
   */
  function RunSession(headers: map<string, string>, input: seq<byte>, sha1Base64: string -> string,
                      decodeText: seq<byte> -> Option<string>, sendable: nat): (events: seq<Event>)
    ensures events == [] <==> HandshakeResponse(headers, sha1Base64).None? || sendable == 0
    ensures events != [] ==>
              (events[0] == Upgraded(HandshakeResponse(headers, sha1Base64).value) && ClosesOnceAtEnd(events[1..]))
  {
    match HandshakeResponse(headers, sha1Base64)
    case None => []
    case Some(response) =>
      if sendable == 0 then []
      else
        var loop := FrameLoop(input, decodeText, sendable - 1);
        assert ([Upgraded(response)] + loop)[1..] == loop;
        [Upgraded(response)] + loop
  }

  /** A frame as a client sends it (section 5.3 of RFC 6455): masked with a 4-byte key. */
  datatype ClientFrame = ClientFrame(fin: bool, opcode: Opcode, data: seq<byte>, key: seq<byte>)
  {
    predicate Valid()
    {
      |data| < MAX_PAYLOAD && |key| == 4
    }

    function Bytes(): seq<byte>
      requires Valid()
    {
      EncodeMaskedFrame(data, opcode, fin, key)
    }
  }

  predicate AllValid(frames: seq<ClientFrame>)
  {
    forall i :: 0 <= i < |frames| ==> frames[i].Valid()
  }

  /** The byte stream a client produces by sending `frames` one after another. */
  function Wire(frames: seq<ClientFrame>): seq<byte>
    requires AllValid(frames)
  {
    if |frames| == 0 then [] else frames[0].Bytes() + Wire(frames[1..])
  }

  /** What the server should read from `frames`: each one's opcode and data. */
  function Sent(frames: seq<ClientFrame>): (r: seq<Incoming>)
    requires AllValid(frames)
    ensures |r| == |frames| && Fits(r)
  {
    if |frames| == 0 then []
    else
      var more := Sent(frames[1..]);
      assert Fits([Incoming(frames[0].opcode, frames[0].data)] + more) by { assert frames[0].Valid(); }
      [Incoming(frames[0].opcode, frames[0].data)] + more
  }

  /** The first frame of a client's stream is decoded as sent, and the rest of the stream is left. */
  lemma DecodeFirstFrame(frames: seq<ClientFrame>)
    requires AllValid(frames) && |frames| > 0
    ensures DecodeFrame(Wire(frames)) == Decoded(frames[0].opcode, frames[0].data, Wire(frames[1..]))
  {
    var f := frames[0];
    DecodeClientFrame(f.data, f.opcode, f.fin, f.key, Wire(frames[1..]));
  }

  /** Round trip over a whole stream: the server reads back exactly the frames the client sent, in order. */
  lemma {:induction false} ReceivedWire(frames: seq<ClientFrame>)
    requires AllValid(frames)
    ensures Received(Wire(frames)) == Sent(frames)
    decreases |frames|
  {
    if |frames| > 0 {
      DecodeFirstFrame(frames);
      assert AllValid(frames[1..]);
      ReceivedWire(frames[1..]);
    } else {
      DecodeFrameFails([]);
    }
  }

  /** A CLOSE frame is answered with the closing frame of status 1000, bytes 88 02 03 E8, and the loop ends. */
  lemma CloseEndsLoop(frames: seq<Incoming>, decodeText: seq<byte> -> Option<string>, sendable: nat)
    requires Fits(frames) && |frames| > 0 && frames[0].opcode == CLOSE
    ensures Dispatch(frames, decodeText, sendable) == if sendable > 0 then [Wrote([0x88, 0x02, 0x03, 0xE8]), Closed] else [Closed]
  {
    DefaultCloseFrame();
  }

  /** The texts handed to `on_message`, in order. */
  function DeliveredTexts(events: seq<Event>): (texts: seq<string>)
    ensures |texts| <= |events|
  {
    if |events| == 0 then []
    else (if events[0].Delivered? then [events[0].text] else []) + DeliveredTexts(events[1..])
  }

  /** The frames the loop writes itself, in order. */
  function Written(events: seq<Event>): (frames: seq<seq<byte>>)
    ensures |frames| <= |events|
  {
    if |events| == 0 then []
    else (if events[0].Wrote? then [events[0].frame] else []) + Written(events[1..])
  }

  lemma EventsCons(e: Event, events: seq<Event>)
    ensures DeliveredTexts([e] + events) == (if e.Delivered? then [e.text] else []) + DeliveredTexts(events)
    ensures Written([e] + events) == (if e.Wrote? then [e.frame] else []) + Written(events)
  {
    assert ([e] + events)[1..] == events;
  }

  /** Nothing in `frames` ends the loop early: no CLOSE frame, and every TEXT payload decodes. */
  predicate Orderly(frames: seq<Incoming>, decodeText: seq<byte> -> Option<string>)
  {
    forall i :: 0 <= i < |frames| ==>
      frames[i].opcode != CLOSE && (frames[i].opcode == TEXT ==> decodeText(frames[i].payload).Some?)
  }

  /** The decoded payloads of the TEXT frames among `frames`, in order. */
  function TextsOf(frames: seq<Incoming>, decodeText: seq<byte> -> Option<string>): seq<string>
    requires Orderly(frames, decodeText)
  {
    if |frames| == 0 then []
    else if frames[0].opcode == TEXT then [decodeText(frames[0].payload).value] + TextsOf(frames[1..], decodeText)
    else TextsOf(frames[1..], decodeText)
  }

  /** A PONG for each PING among `frames`, with the PING's payload, in order. */
  function PongsFor(frames: seq<Incoming>): seq<seq<byte>>
    requires Fits(frames)
  {
    if |frames| == 0 then []
    else if frames[0].opcode == PING then [EncodeFrame(frames[0].payload, PONG, true)] + PongsFor(frames[1..])
    else PongsFor(frames[1..])
  }

  /** The number of PING frames among `frames`: each costs the server one write. */
  function PingCount(frames: seq<Incoming>): nat
  {
    if |frames| == 0 then 0 else (if frames[0].opcode == PING then 1 else 0) + PingCount(frames[1..])
  }

  /** The loop's budget after the first frame: a PING's answer uses up one write. */
  function Budget(f: Incoming, sendable: nat): nat
  {
    if f.opcode == PING && sendable > 0 then sendable - 1 else sendable
  }

  /** One frame that does not end the loop: it contributes its text, or its PONG, and the loop goes on. */
  lemma DispatchStep(frames: seq<Incoming>, decodeText: seq<byte> -> Option<string>, sendable: nat)
    requires Fits(frames) && |frames| > 0
    requires frames[0].opcode != CLOSE
    requires frames[0].opcode == TEXT ==> decodeText(frames[0].payload).Some?
    requires frames[0].opcode == PING ==> sendable > 0
    ensures Fits(frames[1..])
    ensures var f := frames[0];
      Dispatch(frames, decodeText, sendable)
      == (if f.opcode == TEXT then [Delivered(decodeText(f.payload).value)]
          else if f.opcode == PING then [Wrote(EncodeFrame(f.payload, PONG, true))]
          else [])
         + Dispatch(frames[1..], decodeText, Budget(f, sendable))
  {
  }

  lemma DeliveredStep(frames: seq<Incoming>, decodeText: seq<byte> -> Option<string>, sendable: nat)
    requires Fits(frames) && |frames| > 0
    requires frames[0].opcode != CLOSE
    requires frames[0].opcode == TEXT ==> decodeText(frames[0].payload).Some?
    requires frames[0].opcode == PING ==> sendable > 0
    ensures Fits(frames[1..])
    ensures var f := frames[0];
      DeliveredTexts(Dispatch(frames, decodeText, sendable))
      == (if f.opcode == TEXT then [decodeText(f.payload).value] else [])
         + DeliveredTexts(Dispatch(frames[1..], decodeText, Budget(f, sendable)))
  {
    var f := frames[0];
    DispatchStep(frames, decodeText, sendable);
    var rest := Dispatch(frames[1..], decodeText, Budget(f, sendable));
    if f.opcode == TEXT {
      EventsCons(Delivered(decodeText(f.payload).value), rest);
    } else if f.opcode == PING {
      EventsCons(Wrote(EncodeFrame(f.payload, PONG, true)), rest);
    } else {
      assert [] + rest == rest;
    }
  }

  lemma WrittenStep(frames: seq<Incoming>, decodeText: seq<byte> -> Option<string>, sendable: nat)
    requires Fits(frames) && |frames| > 0
    requires frames[0].opcode != CLOSE
    requires frames[0].opcode == TEXT ==> decodeText(frames[0].payload).Some?
    requires frames[0].opcode == PING ==> sendable > 0
    ensures Fits(frames[1..])
    ensures var f := frames[0];
      Written(Dispatch(frames, decodeText, sendable))
      == (if f.opcode == PING then [EncodeFrame(f.payload, PONG, true)] else [])
         + Written(Dispatch(frames[1..], decodeText, Budget(f, sendable)))
  {
    var f := frames[0];
    DispatchStep(frames, decodeText, sendable);
    var rest := Dispatch(frames[1..], decodeText, Budget(f, sendable));
    if f.opcode == TEXT {
      EventsCons(Delivered(decodeText(f.payload).value), rest);
    } else if f.opcode == PING {
      EventsCons(Wrote(EncodeFrame(f.payload, PONG, true)), rest);
    } else {
      assert [] + rest == rest;
    }
  }

  /** As long as nothing ends the connection early, every TEXT payload reaches `on_message`, in the order it was sent. */
  lemma {:induction false} TextsInOrder(frames: seq<Incoming>, decodeText: seq<byte> -> Option<string>, sendable: nat)
    requires Fits(frames) && Orderly(frames, decodeText) && PingCount(frames) <= sendable
    ensures DeliveredTexts(Dispatch(frames, decodeText, sendable)) == TextsOf(frames, decodeText)
    decreases |frames|
  {
    if |frames| > 0 {
      var f := frames[0];
      assert Orderly(frames[1..], decodeText);
      assert f.opcode != CLOSE && (f.opcode == TEXT ==> decodeText(f.payload).Some?);
      DeliveredStep(frames, decodeText, sendable);
      TextsInOrder(frames[1..], decodeText, Budget(f, sendable));
    }
  }

  /**
   * As long as nothing ends the connection early, every PING is answered by
   * a PONG with the same payload, in order, and the loop writes nothing else.
   */
  lemma {:induction false} PongsInOrder(frames: seq<Incoming>, decodeText: seq<byte> -> Option<string>, sendable: nat)
    requires Fits(frames) && Orderly(frames, decodeText) && PingCount(frames) <= sendable
    ensures Written(Dispatch(frames, decodeText, sendable)) == PongsFor(frames)
    decreases |frames|
  {
    if |frames| > 0 {
      var f := frames[0];
      assert Orderly(frames[1..], decodeText);
      assert f.opcode != CLOSE && (f.opcode == TEXT ==> decodeText(f.payload).Some?);
      WrittenStep(frames, decodeText, sendable);
      PongsInOrder(frames[1..], decodeText, Budget(f, sendable));
    }
  }

  /** The same at the byte level: a client's stream of frames gets its texts delivered and its PINGs answered in order. */
  lemma StreamInOrder(frames: seq<ClientFrame>, decodeText: seq<byte> -> Option<string>, sendable: nat)
    requires AllValid(frames) && Orderly(Sent(frames), decodeText) && PingCount(Sent(frames)) <= sendable
    ensures DeliveredTexts(FrameLoop(Wire(frames), decodeText, sendable)) == TextsOf(Sent(frames), decodeText)
    ensures Written(FrameLoop(Wire(frames), decodeText, sendable)) == PongsFor(Sent(frames))
  {
    ReceivedWire(frames);
    TextsInOrder(Sent(frames), decodeText, sendable);
    PongsInOrder(Sent(frames), decodeText, sendable);
  }

  lemma UpgradeName()
    ensures FieldName("Upgrade") == "upgrade"
  {
    FieldNameOf("Upgrade", "upgrade");
  }

  lemma AcceptName()
    ensures FieldName("Sec-WebSocket-Accept") == "sec-websocket-accept"
  {
    FieldNameOf("Sec-WebSocket-Accept", "sec-websocket-accept");
  }

  lemma WebsocketStripped()
    ensures PyStrip("websocket") == "websocket"
  {
    TrimUnchanged("websocket", IsPySpace);
  }

  lemma UpgradeStripped()
    ensures PyStrip("Upgrade") == "Upgrade"
  {
    TrimUnchanged("Upgrade", IsPySpace);
  }

  lemma UpgradeFieldsMap(acceptKey: string)
    ensures FieldsMap(UpgradeFields(acceptKey))
         == map["upgrade" := "websocket", "connection" := "Upgrade", "sec-websocket-accept" := PyStrip(acceptKey)]
  {
    UpgradeName();
    ConnectionName();
    AcceptName();
    WebsocketStripped();
    UpgradeStripped();
    FieldsMap3(("Upgrade", "websocket"), ("Connection", "Upgrade"), ("Sec-WebSocket-Accept", acceptKey));
  }

  /**
   * A client reading the 101 response finds the status line, and the
   * Upgrade, Connection and Sec-WebSocket-Accept fields with their values.
   */
  lemma SwitchingProtocolsParses(acceptKey: string)
    requires '\r' !in acceptKey
    ensures var lines := Split(SwitchingProtocols(acceptKey), CRLF);
      && lines[0] == SWITCHING_PROTOCOLS
      && ParseHeaders(lines[1..]) == map["upgrade" := "websocket", "connection" := "Upgrade",
                                        "sec-websocket-accept" := PyStrip(acceptKey)]
  {
    assert '\r' !in SWITCHING_PROTOCOLS;
    HeadFields(SWITCHING_PROTOCOLS, UpgradeFields(acceptKey));
    UpgradeFieldsMap(acceptKey);
  }

  lemma KeyName()
    ensures FieldName("Sec-WebSocket-Key") == "sec-websocket-key"
  {
    FieldNameOf("Sec-WebSocket-Key", "sec-websocket-key");
  }

  lemma UpgradeLower()
    ensures Lower("Upgrade") == "upgrade" && Lower("websocket") == "websocket"
  {
    LowerEach("Upgrade", "upgrade");
    LowerEach("websocket", "websocket");
  }

  /** The header fields of a browser's upgrade request, in the order it writes them. */
  function UpgradeRequestFields(key: string): seq<(string, string)>
  {
    [("Upgrade", "websocket"), ("Connection", "Upgrade"), ("Sec-WebSocket-Key", key)]
  }

  lemma UpgradeRequestMap(key: string)
    requires |key| > 0 && !IsPySpace(key[0]) && !IsPySpace(key[|key| - 1])
    ensures FieldsMap(UpgradeRequestFields(key))
         == map["upgrade" := "websocket", "connection" := "Upgrade", "sec-websocket-key" := key]
  {
    UpgradeName();
    ConnectionName();
    KeyName();
    WebsocketStripped();
    UpgradeStripped();
    TrimUnchanged(key, IsPySpace);
    FieldsMap3(("Upgrade", "websocket"), ("Connection", "Upgrade"), ("Sec-WebSocket-Key", key));
  }

  lemma UpgradeRequestPlain(key: string)
    requires '\r' !in key
    ensures var fields := UpgradeRequestFields(key);
      forall i :: 0 <= i < |fields| ==> PlainName(fields[i].0) && '\r' !in fields[i].1
  {
  }

  /** The upgrade condition of `handle_http` holds for the fields a browser sends. */
  lemma UpgradeDetected(req: Request)
    requires "upgrade" in req.headers && req.headers["upgrade"] == "websocket"
    requires "connection" in req.headers && req.headers["connection"] == "Upgrade"
    ensures IsWebSocketUpgrade(Some(req))
  {
    UpgradeLower();
    assert IsPrefix("websocket", "websocket") && IsPrefix("upgrade", "upgrade");
  }

  /** A browser's upgrade request parses to its path and the three fields it carries. */
  lemma UpgradeRequestParses(path: string, key: string)
    requires ' ' !in path && '\r' !in path
    requires |key| > 0 && !IsPySpace(key[0]) && !IsPySpace(key[|key| - 1]) && '\r' !in key
    ensures ParseRequest(RequestText("GET", path, "HTTP/1.1", UpgradeRequestFields(key)))
         == Some(Request("GET", path, "HTTP/1.1",
                         map["upgrade" := "websocket", "connection" := "Upgrade", "sec-websocket-key" := key]))
  {
    UpgradeRequestPlain(key);
    ParseRequestText("GET", path, "HTTP/1.1", UpgradeRequestFields(key));
    UpgradeRequestMap(key);
  }

  /**
   * An upgrade request as a browser writes it, given bytes that decode to
   * its text, gets through `handle_http`:
   * it parses, counts as a WebSocket upgrade, gets nothing written back and
   * is handed on; `perform_handshake` then answers it with the 101
   * response for the key it carried.
   */
  lemma UpgradeRequestAccepted(path: string, key: string, data: seq<byte>, decodeUtf8: seq<byte> -> Option<string>,
                               sha1Base64: string -> string, readFile: string -> Response)
    requires ' ' !in path && '\r' !in path
    requires |key| > 0 && !IsPySpace(key[0]) && !IsPySpace(key[|key| - 1]) && '\r' !in key
    requires decodeUtf8(data) == Some(RequestText("GET", path, "HTTP/1.1", UpgradeRequestFields(key)))
    ensures var out := HandleHttp(data, decodeUtf8, readFile);
      && out.sent.None?
      && out.request.Some? && out.request.value.path == path
      && HandshakeResponse(out.request.value.headers, sha1Base64) == Some(SwitchingProtocols(AcceptKey(key, sha1Base64)))
  {
    UpgradeRequestParses(path, key);
    var m := map["upgrade" := "websocket", "connection" := "Upgrade", "sec-websocket-key" := key];
    UpgradeDetected(Request("GET", path, "HTTP/1.1", m));
    assert "sec-websocket-key" in m && m["sec-websocket-key"] == key;
  }
}
