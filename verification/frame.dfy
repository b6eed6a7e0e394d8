/**
 * The WebSocket frame codec of RFC 6455 section 5: the server-to-client
 * encoder (never masked), the decoder that reads one frame from the
 * incoming byte stream and unmasks it, and the close-frame payload of
 * sections 5.5.1 and 7.4.
 *
 * The socket is a byte sequence: `recv(n)` yields the first min(n, |s|)
 * bytes and leaves the rest for the next read.
 */
module Frame {
  import opened Wrappers
  import opened Bytes

  /** The low four bits of the first header byte. */
  type Opcode = x: nat | x < 16

  const CONTINUATION: Opcode := 0x0
  const TEXT: Opcode := 0x1
  const BINARY: Opcode := 0x2
  const CLOSE: Opcode := 0x8
  const PING: Opcode := 0x9
  const PONG: Opcode := 0xA

  /** One more than the largest length the '>Q' extended field holds. */
  const MAX_PAYLOAD: nat := 0x1_0000_0000_0000_0000

  /** The decoder's largest single `recv` while reading a payload. */
  const CHUNK: nat := 4096

  /** Status code 1000, "Normal Closure". */
  const NORMAL_CLOSURE: nat := 1000

  /**
   * The header bytes are computed as numbers: with opcode < 16 and a base
   * length < 128, `0x80 | x` is `0x80 + x`, `b & 0x0F` is `b % 16`,
   * `b & 0x7F` is `b % 128`, and the top bit is set iff `b >= 0x80`.
   */
  function FinBit(fin: bool): nat
  {
    if fin then 0x80 else 0x00
  }

  function OpcodeOf(b0: byte): Opcode
  {
    b0 % 16
  }

  predicate IsMasked(b1: byte)
  {
    b1 >= 0x80
  }

  function BaseLength(b1: byte): (n: nat)
    ensures n < 128
  {
    b1 % 128
  }

  /** The 7-bit length field: the length itself, or 126 / 127 announcing a 16- / 64-bit extension. */
  function LengthCode(len: nat): nat
  {
    if len < 126 then len else if len < 0x1_0000 then 126 else 127
  }

  /** How many extended-length bytes follow the second header byte. */
  function ExtendedLengthSize(len: nat): nat
  {
    if len < 126 then 0 else if len < 0x1_0000 then 2 else 8
  }

  /** FIN bit and opcode: `(0x80 if fin else 0x00) | opcode`. */
  function FirstByte(opcode: Opcode, fin: bool): byte
  {
    FinBit(fin) + opcode
  }

  /** Mask bit and 7-bit length field. */
  function SecondByte(masked: bool, len: nat): byte
  {
    (if masked then 0x80 else 0x00) + LengthCode(len)
  }

  /** The first two header bytes and the extended length, for a payload of `len` bytes. */
  function Header(opcode: Opcode, fin: bool, masked: bool, len: nat): (h: seq<byte>)
    requires len < MAX_PAYLOAD
    ensures |h| == 2 + ExtendedLengthSize(len)
    ensures h[0] == FirstByte(opcode, fin)
    ensures h[1] == SecondByte(masked, len)
    ensures ExtendedLengthSize(len) == 2 ==> h[2..] == ToBigEndian(len, 2)
    ensures ExtendedLengthSize(len) == 8 ==> h[2..] == ToBigEndian(len, 8)
  {
    Pow256Values();
    var b0 := FirstByte(opcode, fin);
    var b1 := SecondByte(masked, len);
    if len < 126 then [b0, b1]
    else if len < 0x1_0000 then [b0, b1] + ToBigEndian(len, 2)
    else [b0, b1] + ToBigEndian(len, 8)
  }

  /** `encode_frame(data, opcode, fin)`: an unmasked server-to-client frame. */
  function EncodeFrame(data: seq<byte>, opcode: Opcode, fin: bool): (frame: seq<byte>)
    requires |data| < MAX_PAYLOAD
    ensures |frame| == 2 + ExtendedLengthSize(|data|) + |data|
    ensures frame[0] == FinBit(fin) + opcode
    ensures frame[1] < 0x80
    ensures |data| < 126 ==> frame[1] == |data|
    ensures 126 <= |data| < 0x1_0000 ==> frame[1] == 126 && FromBigEndian(frame[2..4]) == |data|
    ensures 0x1_0000 <= |data| ==> frame[1] == 127 && FromBigEndian(frame[2..10]) == |data|
    ensures frame[|frame| - |data|..] == data
  {
    Pow256Values();
    FirstByteFields(opcode, fin);
    SecondByteFields(false, |data|);
    var h := Header(opcode, fin, false, |data|);
    var frame := h + data;
    assert frame[..|h|] == h;
    frame
  }

  /** `unmask_payload(payload, key)`: byte i is XOR-ed with key[i mod 4]. */
  function UnmaskPayload(payload: seq<byte>, key: seq<byte>): (r: seq<byte>)
    requires |key| == 4
    ensures |r| == |payload|
  {
    seq(|payload|, i requires 0 <= i < |payload| => Xor(payload[i], key[i % 4]))
  }

  /** Masking is its own inverse: the client masks and the server unmasks with the same key. */
  lemma UnmaskInvolution(payload: seq<byte>, key: seq<byte>)
    requires |key| == 4
    ensures UnmaskPayload(UnmaskPayload(payload, key), key) == payload
  {
    var once := UnmaskPayload(payload, key);
    var twice := UnmaskPayload(once, key);
    forall i | 0 <= i < |payload|
      ensures twice[i] == payload[i]
    {
      XorTwice(payload[i], key[i % 4]);
    }
  }


  /**
   * A client-to-server frame as section 5.3 requires a client to send it:
   * mask bit set, the 4-byte key, then the masked payload. The server never
   * produces one; it is the counterpart the decoder is checked against.
   */
  function EncodeMaskedFrame(data: seq<byte>, opcode: Opcode, fin: bool, key: seq<byte>): seq<byte>
    requires |data| < MAX_PAYLOAD && |key| == 4
  {
    Header(opcode, fin, true, |data|) + key + UnmaskPayload(data, key)
  }

  /** `sock.recv(n)`: the bytes delivered and the stream left behind. */
  function Recv(s: seq<byte>, n: nat): (r: (seq<byte>, seq<byte>))
    ensures r.0 + r.1 == s
    ensures |r.0| == Min(n, |s|)
  {
    var k := Min(n, |s|);
    assert s[..k] + s[k..] == s;
    (s[..k], s[k..])
  }

  /**
   * The payload loop of `decode_frame`: reads chunks of at most CHUNK bytes
   * until `remaining` bytes have arrived or a read comes back empty. The
   * result is the payload read (possibly short) and the rest of the stream.
   */
  function ReadPayload(s: seq<byte>, remaining: nat): (r: (seq<byte>, seq<byte>))
    ensures r.0 + r.1 == s
    ensures |r.0| == Min(remaining, |s|)
    decreases remaining
  {
    if remaining == 0 then ([], s)
    else
      var read := Recv(s, Min(remaining, CHUNK));
      if |read.0| == 0 then ([], s)
      else
        var more := ReadPayload(read.1, remaining - |read.0|);
        ConcatAssoc(read.0, more.0, more.1);
        (read.0 + more.0, more.1)
  }

  lemma ConcatAssoc(a: seq<byte>, b: seq<byte>, c: seq<byte>)
    ensures (a + b) + c == a + (b + c)
  {
  }

  /** Reads the 16- or 64-bit extended length announced by `base`; None when the stream ends inside it. */
  function ReadLength(base: nat, s: seq<byte>): (r: Option<(nat, seq<byte>)>)
    requires base < 128
    ensures r.None? <==> (base == 126 && |s| < 2) || (base == 127 && |s| < 8)
    ensures r.Some? ==> r.value.0 < MAX_PAYLOAD && |r.value.1| <= |s| && r.value.1 == s[|s| - |r.value.1|..]
  {
    Pow256Values();
    if base == 126 then
      var (ext, rest) := Recv(s, 2);
      if |ext| < 2 then None else Some((FromBigEndian(ext), rest))
    else if base == 127 then
      var (ext, rest) := Recv(s, 8);
      if |ext| < 8 then None else Some((FromBigEndian(ext), rest))
    else Some((base, s))
  }

  /** What `decode_frame` returns: `(opcode, payload)`, or `(None, None)`. */
  datatype Decoded = Decoded(opcode: Opcode, payload: seq<byte>, rest: seq<byte>) | NoFrame

  /**
   * `decode_frame`: reads one frame from the front of `s`. `recv(2)` comes
   * back short exactly when fewer than two bytes remain, and then there is
   * no frame.
   */
  function DecodeFrame(s: seq<byte>): (r: Decoded)
    ensures r.Decoded? ==> |r.rest| <= |s| - 2
  {
    if |s| < 2 then NoFrame
    else DecodeBody(s[0], s[1], s[2..])
  }

  /**
   * The rest of `decode_frame` after the header bytes `b0` and `b1`: the
   * stream ending inside the extended length gives NoFrame (the struct.unpack
   * error), the stream ending inside the payload gives the bytes that did arrive.
   */
  function DecodeBody(b0: byte, b1: byte, t: seq<byte>): (r: Decoded)
    ensures r.Decoded? ==> |r.rest| <= |t|
  {
    var ext := ReadLength(BaseLength(b1), t);
    if ext.None? then NoFrame
    else
      var body := ReadMaskedPayload(IsMasked(b1), ext.value.0, ext.value.1);
      Decoded(OpcodeOf(b0), body.0, body.1)
  }

  /** A suffix of a suffix of `s` is a suffix of `s`. */
  lemma SuffixOfSuffix(s: seq<byte>, a: seq<byte>, b: seq<byte>, c: seq<byte>)
    requires |a| <= |s| && a == s[|s| - |a|..]
    requires |b| <= |a| && b == a[|a| - |b|..]
    requires |c| <= |b| && c == b[|b| - |c|..]
    ensures c == s[|s| - |c|..]
  {
  }

  /** `decode_frame` finds no frame exactly when the stream ends inside the header or the extended length. */
  lemma DecodeFrameFails(s: seq<byte>)
    ensures DecodeFrame(s).NoFrame?
        <==> |s| < 2 || (BaseLength(s[1]) == 126 && |s| < 4) || (BaseLength(s[1]) == 127 && |s| < 10)
  {
    if |s| >= 2 {
      var t := s[2..];
      assert DecodeFrame(s) == DecodeBody(s[0], s[1], t);
      assert |t| == |s| - 2;
      assert DecodeBody(s[0], s[1], t).NoFrame? <==> ReadLength(BaseLength(s[1]), t).None?;
    }
  }

  /** A decoded frame carries the opcode of the first byte, a payload within the 64-bit range, and the unread rest of the stream. */
  lemma DecodeFrameFields(s: seq<byte>)
    ensures var r := DecodeFrame(s);
            r.Decoded? ==> r.opcode == OpcodeOf(s[0]) && |r.payload| < MAX_PAYLOAD && r.rest == s[|s| - |r.rest|..]
  {
    if |s| >= 2 {
      var t := s[2..];
      assert DecodeFrame(s) == DecodeBody(s[0], s[1], t);
      var ext := ReadLength(BaseLength(s[1]), t);
      if ext.Some? {
        var body := ReadMaskedPayload(IsMasked(s[1]), ext.value.0, ext.value.1);
        assert DecodeFrame(s) == Decoded(OpcodeOf(s[0]), body.0, body.1);
        assert t == s[|s| - |t|..];
        SuffixOfSuffix(s, t, ext.value.1, body.1);
      }
    }
  }

  /** A decoded payload fits the 64-bit length field. */
  lemma DecodedPayloadFits(s: seq<byte>)
    ensures DecodeFrame(s).Decoded? ==> |DecodeFrame(s).payload| < MAX_PAYLOAD
  {
    DecodeFrameFields(s);
  }

  /** Reads the masking key when `masked`, then the payload, and unmasks it. */
  function ReadMaskedPayload(masked: bool, len: nat, s: seq<byte>): (r: (seq<byte>, seq<byte>))
    requires len < MAX_PAYLOAD
    ensures |r.0| < MAX_PAYLOAD
    ensures |r.1| <= |s| && r.1 == s[|s| - |r.1|..]
  {
    var keyRead := if masked then Recv(s, 4) else ([], s);
    var key := keyRead.0;
    var payloadRead := ReadPayload(keyRead.1, len);
    var payload := payloadRead.0;
    var rest := payloadRead.1;
    assert rest == s[|s| - |rest|..];
    // A key shorter than four bytes means the stream ended inside it, so
    // no payload byte follows and unmasking would leave it unchanged.
    var data := if masked && |key| == 4 then UnmaskPayload(payload, key) else payload;
    (data, rest)
  }

  /** `send_close(code, reason)`: the 2-byte big-endian status code, then the reason. */
  function ClosePayload(code: nat, reason: seq<byte>): (p: seq<byte>)
    requires code < 0x1_0000
    ensures |p| == 2 + |reason|
    ensures FromBigEndian(p[..2]) == code && p[2..] == reason
  {
    Pow256Values();
    var p := ToBigEndian(code, 2) + reason;
    assert p[..2] == ToBigEndian(code, 2);
    p
  }

  /** The frame `send_close()` writes with its defaults: FIN+CLOSE, length 2, code 1000. */
  lemma DefaultCloseFrame()
    ensures EncodeFrame(ClosePayload(NORMAL_CLOSURE, []), CLOSE, true) == [0x88, 0x02, 0x03, 0xE8]
  {
    Pow256Values();
    var p := ClosePayload(NORMAL_CLOSURE, []);
    assert p == ToBigEndian(1000, 2);
    assert ToBigEndian(1000, 2) == ToBigEndian(3, 1) + [0xE8];
    assert ToBigEndian(3, 1) == ToBigEndian(0, 0) + [0x03];
    assert p == [0x03, 0xE8];
  }

  lemma FirstByteFields(opcode: Opcode, fin: bool)
    ensures OpcodeOf(FirstByte(opcode, fin)) == opcode
  {
  }

  lemma SecondByteFields(masked: bool, len: nat)
    ensures BaseLength(SecondByte(masked, len)) == LengthCode(len)
    ensures IsMasked(SecondByte(masked, len)) == masked
  {
  }

  /** One step of `decode_frame` once the length field has been read. */
  lemma DecodeFrameUnfold(s: seq<byte>, len: nat, t: seq<byte>)
    requires |s| >= 2 && ReadLength(BaseLength(s[1]), s[2..]) == Some((len, t))
    ensures var body := ReadMaskedPayload(IsMasked(s[1]), len, t);
            DecodeFrame(s) == Decoded(OpcodeOf(s[0]), body.0, body.1)
  {
  }

  lemma ReadLengthOfHeader(opcode: Opcode, fin: bool, masked: bool, len: nat, t: seq<byte>)
    requires len < MAX_PAYLOAD
    ensures var h := Header(opcode, fin, masked, len);
            ReadLength(BaseLength(h[1]), (h + t)[2..]) == Some((len, t))
  {
    var h := Header(opcode, fin, masked, len);
    SecondByteFields(masked, len);
    assert (h + t)[2..] == h[2..] + t;
    if len < 126 {
      assert h[2..] + t == t;
    } else if len < 0x1_0000 {
      RecvPrefix(h[2..], t);
    } else {
      RecvPrefix(h[2..], t);
    }
  }

  lemma RecvPrefix(a: seq<byte>, t: seq<byte>)
    ensures Recv(a + t, |a|) == (a, t)
  {
    assert (a + t)[..|a|] == a;
    assert (a + t)[|a|..] == t;
  }

  /** The header is read back as the opcode and length it was built from. */
  lemma DecodeAfterHeader(opcode: Opcode, fin: bool, masked: bool, len: nat, t: seq<byte>)
    requires len < MAX_PAYLOAD
    ensures var body := ReadMaskedPayload(masked, len, t);
            DecodeFrame(Header(opcode, fin, masked, len) + t) == Decoded(opcode, body.0, body.1)
  {
    var h := Header(opcode, fin, masked, len);
    var s := h + t;
    FirstByteFields(opcode, fin);
    SecondByteFields(masked, len);
    assert s[0] == h[0] && s[1] == h[1];
    ReadLengthOfHeader(opcode, fin, masked, len, t);
    DecodeFrameUnfold(s, len, t);
  }

  lemma ReadWholePayload(payload: seq<byte>, more: seq<byte>)
    ensures ReadPayload(payload + more, |payload|) == (payload, more)
  {
    var r := ReadPayload(payload + more, |payload|);
    assert r.0 == (payload + more)[..|payload|];
  }

  /** Round trip: the decoder reads back exactly the frame the encoder wrote, and stops where it ends. */
  lemma DecodeEncodeFrame(data: seq<byte>, opcode: Opcode, fin: bool, more: seq<byte>)
    requires |data| < MAX_PAYLOAD
    ensures DecodeFrame(EncodeFrame(data, opcode, fin) + more) == Decoded(opcode, data, more)
  {
    var h := Header(opcode, fin, false, |data|);
    assert EncodeFrame(data, opcode, fin) + more == h + (data + more);
    DecodeAfterHeader(opcode, fin, false, |data|, data + more);
    ReadWholePayload(data, more);
  }

  /** A frame with the mask bit set decodes to its payload XOR-ed with the key, byte i with key[i mod 4]. */
  lemma DecodeMaskedBytes(payload: seq<byte>, opcode: Opcode, fin: bool, key: seq<byte>, more: seq<byte>)
    requires |payload| < MAX_PAYLOAD && |key| == 4
    ensures DecodeFrame(Header(opcode, fin, true, |payload|) + key + payload + more)
         == Decoded(opcode, UnmaskPayload(payload, key), more)
  {
    var h := Header(opcode, fin, true, |payload|);
    var t := key + payload + more;
    assert h + key + payload + more == h + t;
    DecodeAfterHeader(opcode, fin, true, |payload|, t);
    ReadKeyAndPayload(payload, key, more);
  }

  lemma ReadKeyAndPayload(payload: seq<byte>, key: seq<byte>, more: seq<byte>)
    requires |payload| < MAX_PAYLOAD && |key| == 4
    ensures ReadMaskedPayload(true, |payload|, key + payload + more) == (UnmaskPayload(payload, key), more)
  {
    assert key + payload + more == key + (payload + more);
    RecvPrefix(key, payload + more);
    ReadWholePayload(payload, more);
  }

  /** A frame masked the way section 5.3 obliges a client to mask decodes to the data the client meant. */
  lemma DecodeClientFrame(data: seq<byte>, opcode: Opcode, fin: bool, key: seq<byte>, more: seq<byte>)
    requires |data| < MAX_PAYLOAD && |key| == 4
    ensures DecodeFrame(EncodeMaskedFrame(data, opcode, fin, key) + more) == Decoded(opcode, data, more)
  {
    var masked := UnmaskPayload(data, key);
    DecodeMaskedBytes(masked, opcode, fin, key, more);
    UnmaskInvolution(data, key);
  }

  /**
   * A stream that ends `k` bytes before the end of a frame's payload is not an
   * error: the decoder returns the opcode with the bytes that did arrive.
   */
  lemma DecodeTruncatedPayload(data: seq<byte>, opcode: Opcode, fin: bool, k: nat)
    requires |data| < MAX_PAYLOAD && 0 < k <= |data|
    ensures var frame := EncodeFrame(data, opcode, fin);
            DecodeFrame(frame[..|frame| - k]) == Decoded(opcode, data[..|data| - k], [])
  {
    var h := Header(opcode, fin, false, |data|);
    var frame := EncodeFrame(data, opcode, fin);
    var cut := data[..|data| - k];
    assert frame[..|frame| - k] == h + cut;
    DecodeAfterHeader(opcode, fin, false, |data|, cut);
    var r := ReadPayload(cut, |data|);
    assert r.0 == cut;
  }

  /** Unmasking a prefix of a masked payload gives the same prefix of the data. */
  lemma UnmaskPrefix(data: seq<byte>, key: seq<byte>, m: nat)
    requires |key| == 4 && m <= |data|
    ensures UnmaskPayload(UnmaskPayload(data, key)[..m], key) == data[..m]
  {
    var cut := UnmaskPayload(data, key)[..m];
    var r := UnmaskPayload(cut, key);
    forall i | 0 <= i < m
      ensures r[i] == data[i]
    {
      XorTwice(data[i], key[i % 4]);
    }
  }

  /**
   * A client's masked frame cut `k` bytes before the end of its payload
   * decodes, like an unmasked one, to the opcode and the data that arrived,
   * unmasked.
   */
  lemma DecodeTruncatedClientFrame(data: seq<byte>, opcode: Opcode, fin: bool, key: seq<byte>, k: nat)
    requires |data| < MAX_PAYLOAD && |key| == 4 && 0 < k <= |data|
    ensures var frame := EncodeMaskedFrame(data, opcode, fin, key);
            DecodeFrame(frame[..|frame| - k]) == Decoded(opcode, data[..|data| - k], [])
  {
    var h := Header(opcode, fin, true, |data|);
    var frame := EncodeMaskedFrame(data, opcode, fin, key);
    var cut := UnmaskPayload(data, key)[..|data| - k];
    assert frame[..|frame| - k] == h + (key + cut);
    DecodeAfterHeader(opcode, fin, true, |data|, key + cut);
    RecvPrefix(key, cut);
    var r := ReadPayload(cut, |data|);
    assert r.0 == cut;
    UnmaskPrefix(data, key, |data| - k);
  }
}
