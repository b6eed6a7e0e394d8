/**
 * The HTTP side of the server: the request-line and header-field parser
 * (RFC 9112 sections 3 and 5, field names compared case-insensitively as
 * RFC 9110 section 5.1 requires), the response builder, the WebSocket
 * upgrade check, the checks `serve_static_file` makes before it touches the
 * filesystem, and the dispatch of `handle_http`.
 */
module Http {
  import opened Wrappers
  import opened Bytes
  import opened Text

  const CRLF: string := "\r\n"

  datatype Request = Request(verb: string, path: string, version: string, headers: map<string, string>)

  /** A response as `build_response` assembles it: the text head, then the body bytes. */
  datatype Response = Response(head: string, body: seq<byte>)

  /** `key.strip().lower()`. */
  function FieldName(raw: string): string
  {
    Lower(PyStrip(raw))
  }

  /** The line is a header field line whose name normalises to `name`. */
  predicate Defines(line: string, name: string)
  {
    match IndexOf(line, ':')
    case None => false
    case Some(i) => FieldName(line[..i]) == name
  }

  /** The stripped text after the first ':' of a field line. */
  function FieldValue(line: string): string
    requires ':' in line
  {
    var i := IndexOf(line, ':').value;
    PyStrip(line[i + 1..])
  }

  /** One pass of the header loop: a line with ':' sets its field, any other line is skipped. */
  function AddField(acc: map<string, string>, line: string): map<string, string>
  {
    match IndexOf(line, ':')
    case None => acc
    case Some(i) => acc[FieldName(line[..i]) := PyStrip(line[i + 1..])]
  }

  /**
   * A header line sets at most the one field it defines, to its value:
   * every other field, present or absent, is left as it was.
   */
  lemma AddFieldSetsOne(acc: map<string, string>, line: string, k: string)
    ensures var r := AddField(acc, line);
      && (Defines(line, k) ==> k in r && r[k] == FieldValue(line))
      && (!Defines(line, k) ==> (k in r <==> k in acc) && (k in r ==> r[k] == acc[k]))
  {
  }

  /**
   * A line is cut at its first ':': with no ':' before it, the name is the
   * normalised text before it and the value is everything after it,
   * stripped, later ':' included.
   */
  lemma FieldAtFirstColon(acc: map<string, string>, name: string, value: string)
    requires ':' !in name
    ensures AddField(acc, name + ":" + value) == acc[FieldName(name) := PyStrip(value)]
  {
    var line := name + ":" + value;
    assert line == name + [':'] + value;
    IndexOfAfter(name, ':', value);
    assert line[..|name|] == name;
    assert line[|name| + 1..] == value;
  }

  /** The header loop of `parse_request`, from the line after the request line until the first empty line. */
  function HeadersFrom(lines: seq<string>, acc: map<string, string>): map<string, string>
    decreases |lines|
  {
    if |lines| == 0 || lines[0] == "" then acc
    else HeadersFrom(lines[1..], AddField(acc, lines[0]))
  }

  function ParseHeaders(lines: seq<string>): map<string, string>
  {
    HeadersFrom(lines, map[])
  }

  /** The number of lines before the first empty one. */
  function BlankIndex(lines: seq<string>): (n: nat)
    ensures n <= |lines|
    ensures forall i :: 0 <= i < n ==> lines[i] != ""
    ensures n < |lines| ==> lines[n] == ""
  {
    if |lines| == 0 || lines[0] == "" then 0 else 1 + BlankIndex(lines[1..])
  }

  /**
   * `parse_request`: None unless the first CRLF-delimited line splits on
   * single spaces into exactly three tokens.
   */
  function ParseRequest(text: string): (r: Option<Request>)
    ensures r.None? <==> |Split(Split(text, CRLF)[0], " ")| != 3
    ensures r.Some? ==> r.value.headers == ParseHeaders(Split(text, CRLF)[1..])
  {
    var lines := Split(text, CRLF);
    var tokens := Split(lines[0], " ");
    if |tokens| != 3 then None
    else Some(Request(tokens[0], tokens[1], tokens[2], ParseHeaders(lines[1..])))
  }

  /**
   * `parse_request(data)` on the raw bytes: `decodeUtf8` stands for
   * `data.decode('utf-8')`, None for the `UnicodeDecodeError` that the
   * `except` turns into no request.
   */
  function ParseRequestBytes(data: seq<byte>, decodeUtf8: seq<byte> -> Option<string>): (r: Option<Request>)
    ensures decodeUtf8(data).None? ==> r.None?
    ensures r.Some? ==> decodeUtf8(data).Some? && r == ParseRequest(decodeUtf8(data).value)
  {
    match decodeUtf8(data)
    case None => None
    case Some(text) => ParseRequest(text)
  }

  /** Nothing after the first empty line becomes a header. */
  lemma {:induction false} HeadersStopAtBlank(lines: seq<string>, more: seq<string>, acc: map<string, string>)
    requires forall i :: 0 <= i < |lines| ==> lines[i] != ""
    ensures HeadersFrom(lines + [""] + more, acc) == HeadersFrom(lines, acc)
    decreases |lines|
  {
    if |lines| > 0 {
      assert (lines + [""] + more)[1..] == lines[1..] + [""] + more;
      HeadersStopAtBlank(lines[1..], more, AddField(acc, lines[0]));
    }
  }

  /** A field line appended to the header block is applied last, so it overrides any earlier line with the same name. */
  lemma {:induction false} HeadersSnoc(lines: seq<string>, line: string, acc: map<string, string>)
    requires forall i :: 0 <= i < |lines| ==> lines[i] != ""
    requires line != ""
    ensures HeadersFrom(lines + [line], acc) == AddField(HeadersFrom(lines, acc), line)
    decreases |lines|
  {
    if |lines| == 0 {
      assert ([line])[1..] == [];
    } else {
      assert (lines + [line])[1..] == lines[1..] + [line];
      HeadersSnoc(lines[1..], line, AddField(acc, lines[0]));
    }
  }

  /** A field is present iff it was already there or some line before the first empty line defines it. */
  lemma {:induction false} HeaderPresent(lines: seq<string>, name: string, acc: map<string, string>)
    ensures name in HeadersFrom(lines, acc)
            <==> name in acc || exists i :: 0 <= i < BlankIndex(lines) && Defines(lines[i], name)
    decreases |lines|
  {
    if |lines| > 0 && lines[0] != "" {
      var acc' := AddField(acc, lines[0]);
      HeaderPresent(lines[1..], name, acc');
      assert BlankIndex(lines[1..]) == BlankIndex(lines) - 1;
      assert forall i :: 1 <= i < BlankIndex(lines) ==> lines[1..][i - 1] == lines[i];
      assert name in acc' <==> name in acc || Defines(lines[0], name);
    }
  }

  /** The value of a field is that of the last line before the first empty line that defines it. */
  lemma {:induction false} HeaderLastWins(lines: seq<string>, name: string, acc: map<string, string>, i: nat)
    requires i < BlankIndex(lines) && Defines(lines[i], name)
    requires forall j :: i < j < BlankIndex(lines) ==> !Defines(lines[j], name)
    ensures name in HeadersFrom(lines, acc) && HeadersFrom(lines, acc)[name] == FieldValue(lines[i])
    decreases |lines|
  {
    var acc' := AddField(acc, lines[0]);
    assert BlankIndex(lines[1..]) == BlankIndex(lines) - 1;
    if i == 0 {
      assert name in acc' && acc'[name] == FieldValue(lines[0]);
      HeaderUntouched(lines[1..], name, acc');
    } else {
      HeaderLastWins(lines[1..], name, acc', i - 1);
    }
  }

  /** Lines that do not define a field leave it as it was. */
  lemma {:induction false} HeaderUntouched(lines: seq<string>, name: string, acc: map<string, string>)
    requires forall j :: 0 <= j < BlankIndex(lines) ==> !Defines(lines[j], name)
    ensures name in HeadersFrom(lines, acc) <==> name in acc
    ensures name in acc ==> HeadersFrom(lines, acc)[name] == acc[name]
    decreases |lines|
  {
    if |lines| > 0 && lines[0] != "" {
      assert BlankIndex(lines[1..]) == BlankIndex(lines) - 1;
      assert forall j :: 0 <= j < BlankIndex(lines) - 1 ==> lines[1..][j] == lines[j + 1];
      assert !Defines(lines[0], name);
      HeaderUntouched(lines[1..], name, AddField(acc, lines[0]));
    }
  }

  function HeaderOr(headers: map<string, string>, name: string): string
  {
    Get(headers, name).GetOr("")
  }

  /**
   * `is_websocket_upgrade`: the lower-cased `upgrade` field contains
   * "websocket" and the lower-cased `connection` field contains "upgrade";
   * a missing field reads as "".
   */
  function IsWebSocketUpgrade(request: Option<Request>): (b: bool)
    ensures request.None? ==> !b
    ensures b <==> request.Some?
                   && "upgrade" in request.value.headers && "connection" in request.value.headers
                   && Contains(Lower(request.value.headers["upgrade"]), "websocket")
                   && Contains(Lower(request.value.headers["connection"]), "upgrade")
  {
    match request
    case None => false
    case Some(req) =>
      var upgrade := Lower(HeaderOr(req.headers, "upgrade"));
      var connection := Lower(HeaderOr(req.headers, "connection"));
      Contains(upgrade, "websocket") && Contains(connection, "upgrade")
  }

  /** `build_response`: status line, Content-Type, Content-Length, Connection: close, blank line, body. */
  function BuildResponse(code: nat, reason: string, contentType: string, body: seq<byte>): (r: Response)
    ensures r.body == body
  {
    Response(Head(StatusLine(code, reason), ResponseFields(contentType, |body|)), body)
  }

  function StatusLine(code: nat, reason: string): string
  {
    "HTTP/1.1 " + Decimal(code) + " " + reason
  }

  /** The bytes b"<html><body><h1>404 Not Found</h1></body></html>". */
  const NOT_FOUND_BODY: seq<byte> :=
    [0x3C, 0x68, 0x74, 0x6D, 0x6C, 0x3E, 0x3C, 0x62, 0x6F, 0x64, 0x79, 0x3E,
     0x3C, 0x68, 0x31, 0x3E, 0x34, 0x30, 0x34, 0x20, 0x4E, 0x6F, 0x74, 0x20,
     0x46, 0x6F, 0x75, 0x6E, 0x64, 0x3C, 0x2F, 0x68, 0x31, 0x3E, 0x3C, 0x2F,
     0x62, 0x6F, 0x64, 0x79, 0x3E, 0x3C, 0x2F, 0x68, 0x74, 0x6D, 0x6C, 0x3E]

  /** `build_404`. */
  function NotFound(): Response
  {
    BuildResponse(404, "Not Found", "text/html; charset=utf-8", NOT_FOUND_BODY)
  }

  /** Where `serve_static_file` goes after its pre-filesystem checks. */
  datatype StaticTarget = Reject | File(path: string)

  /** `/` is served as `/index.html`; any path containing ".." is refused before the filesystem is consulted. */
  function StaticTargetFor(path: string): (t: StaticTarget)
    ensures path == "/" ==> t == File("/index.html")
    ensures Contains(path, "..") ==> t == Reject
    ensures t.File? ==> !Contains(t.path, "..") && (t.path == path || path == "/")
  {
    IndexHtmlIsPlain();
    var p := if path == "/" then "/index.html" else path;
    if Contains(p, "..") then Reject else File(p)
  }

  lemma IndexHtmlIsPlain()
    ensures !Contains("/index.html", "..")
  {
    var s := "/index.html";
    forall i | 0 <= i && i + 2 <= |s|
      ensures s[i] != '.' || s[i + 1] != '.'
    {
    }
    forall i
      ensures !OccursAt(s, "..", i)
    {
      if 0 <= i && i + 2 <= |s| {
        assert s[i..i + 2][0] == s[i];
        assert s[i..i + 2][1] == s[i + 1];
      }
    }
  }

  /**
   * `serve_static_file`. `readFile` stands for everything after the
   * pre-checks: the normalised-path check, the existence check, reading the
   * file and choosing its content type.
   */
  function ServeStaticFile(path: string, readFile: string -> Response): (r: Response)
    ensures Contains(path, "..") ==> r == NotFound()
  {
    match StaticTargetFor(path)
    case Reject => NotFound()
    case File(p) => readFile(p)
  }

  /** What `handle_http` wrote to the socket and what it returned. */
  datatype HttpOutcome = HttpOutcome(sent: Option<Response>, request: Option<Request>)

  /**
   * `handle_http`: an unparsable request gets the 404 page and yields None;
   * an upgrade request gets nothing and is handed back; anything else is
   * served as a static file and handed back.
   */
  function HandleHttp(data: seq<byte>, decodeUtf8: seq<byte> -> Option<string>, readFile: string -> Response): (r: HttpOutcome)
    ensures r.request == ParseRequestBytes(data, decodeUtf8)
    ensures r.request.None? ==> r.sent == Some(NotFound())
    ensures IsWebSocketUpgrade(r.request) ==> r.sent.None?
    ensures r.request.Some? && !IsWebSocketUpgrade(r.request) ==> r.sent == Some(ServeStaticFile(r.request.value.path, readFile))
  {
    var request := ParseRequestBytes(data, decodeUtf8);
    match request
    case None => HttpOutcome(Some(NotFound()), None)
    case Some(req) =>
      if IsWebSocketUpgrade(request) then HttpOutcome(None, request)
      else HttpOutcome(Some(ServeStaticFile(req.path, readFile)), request)
  }

  /**
   * Bytes that are not valid UTF-8 get the 404 page and no request,
   * whatever the request line they would spell.
   */
  lemma UndecodableRequestNotFound(data: seq<byte>, decodeUtf8: seq<byte> -> Option<string>, readFile: string -> Response)
    requires decodeUtf8(data).None?
    ensures HandleHttp(data, decodeUtf8, readFile) == HttpOutcome(Some(NotFound()), None)
  {
  }

  /** A header field line as a client writes it. */
  function FieldLine(field: (string, string)): string
  {
    field.0 + ": " + field.1
  }

  function FieldLines(fields: seq<(string, string)>): (lines: seq<string>)
    ensures |lines| == |fields|
    ensures forall i :: 0 <= i < |fields| ==> lines[i] == FieldLine(fields[i])
  {
    if |fields| == 0 then [] else FieldLines(fields[..|fields| - 1]) + [FieldLine(fields[|fields| - 1])]
  }

  /** The header map a server should see for `fields`: names normalised, values stripped, a later name winning. */
  function FieldsMap(fields: seq<(string, string)>): map<string, string>
  {
    if |fields| == 0 then map[]
    else
      var (name, value) := fields[|fields| - 1];
      FieldsMap(fields[..|fields| - 1])[FieldName(name) := PyStrip(value)]
  }

  /** The lines of a message head: the first line, one line per field, then the empty line that ends the head. */
  function HeadLines(first: string, fields: seq<(string, string)>): seq<string>
  {
    [first] + FieldLines(fields) + ["", ""]
  }

  /** A message head as written on the wire, every line ended by CRLF. */
  function Head(first: string, fields: seq<(string, string)>): string
  {
    Join(HeadLines(first, fields), CRLF)
  }

  function RequestLine(verb: string, path: string, version: string): string
  {
    verb + " " + path + " " + version
  }

  /** A request as a client writes it. */
  function RequestText(verb: string, path: string, version: string, fields: seq<(string, string)>): string
  {
    Head(RequestLine(verb, path, version), fields)
  }

  /** A field name a parser can split off: no ':' and no line break in it. */
  predicate PlainName(name: string)
  {
    ':' !in name && '\r' !in name && |name| > 0
  }

  lemma AddFieldLine(field: (string, string), acc: map<string, string>)
    requires PlainName(field.0)
    ensures AddField(acc, FieldLine(field)) == acc[FieldName(field.0) := PyStrip(field.1)]
  {
    var (name, value) := field;
    var line := FieldLine(field);
    assert line == name + [':'] + (" " + value);
    IndexOfAfter(name, ':', " " + value);
    assert line[..|name|] == name;
    assert line[|name| + 1..] == " " + value;
    TrimLeading(' ', value, IsPySpace);
  }

  lemma {:induction false} ParseFieldLines(fields: seq<(string, string)>)
    requires forall i :: 0 <= i < |fields| ==> PlainName(fields[i].0)
    ensures HeadersFrom(FieldLines(fields), map[]) == FieldsMap(fields)
    ensures forall i :: 0 <= i < |FieldLines(fields)| ==> FieldLines(fields)[i] != ""
  {
    if |fields| > 0 {
      var init := fields[..|fields| - 1];
      var last := fields[|fields| - 1];
      ParseFieldLines(init);
      var line := FieldLine(last);
      assert FieldLines(fields) == FieldLines(init) + [line];
      assert line != "" by { assert line[0] == last.0[0]; }
      HeadersSnoc(FieldLines(init), line, map[]);
      AddFieldLine(last, HeadersFrom(FieldLines(init), map[]));
    }
  }

  lemma FieldLinesNoCR(fields: seq<(string, string)>)
    requires forall i :: 0 <= i < |fields| ==> PlainName(fields[i].0) && '\r' !in fields[i].1
    ensures NoneContain(FieldLines(fields), '\r')
  {
    var fl := FieldLines(fields);
    forall i | 0 <= i < |fl|
      ensures '\r' !in fl[i]
    {
      var (name, value) := fields[i];
      assert fl[i] == name + ": " + value;
      assert '\r' !in ": ";
    }
  }

  /** A head whose lines hold no CR splits back into exactly its lines. */
  lemma HeadSplits(first: string, fields: seq<(string, string)>)
    requires '\r' !in first
    requires forall i :: 0 <= i < |fields| ==> PlainName(fields[i].0) && '\r' !in fields[i].1
    ensures Split(Head(first, fields), CRLF) == HeadLines(first, fields)
  {
    var fl := FieldLines(fields);
    FieldLinesNoCR(fields);
    var lines := [first] + fl + ["", ""];
    assert NoneContain([first], '\r');
    assert NoneContain(["", ""], '\r');
    NoneContainConcat([first], fl, '\r');
    NoneContainConcat([first] + fl, ["", ""], '\r');
    assert CRLF[0] == '\r';
    assert lines == HeadLines(first, fields);
    SplitJoin(HeadLines(first, fields), CRLF);
  }

  lemma RequestLineTokens(verb: string, path: string, version: string)
    requires ' ' !in verb && ' ' !in path && ' ' !in version
    ensures Split(verb + " " + path + " " + version, " ") == [verb, path, version]
  {
    var parts := [verb, path, version];
    assert Join([version], " ") == version;
    JoinCons(path, [version], " ");
    assert [path] + [version] == [path, version];
    assert parts == [verb] + [path, version];
    JoinCons(verb, [path, version], " ");
    assert Join(parts, " ") == verb + " " + path + " " + version;
    assert NoneContain(parts, " "[0]);
    SplitJoin(parts, " ");
  }

  /** Dropping the request line leaves the field lines and the terminating blank lines. */
  lemma DropRequestLine(first: string, fl: seq<string>)
    ensures ([first] + fl + ["", ""])[1..] == fl + [""] + [""]
  {
    assert ([first] + fl + ["", ""])[1..] == fl + ["", ""];
    assert ["", ""] == [""] + [""];
  }

  /** A head splits into its first line and field lines that parse to FieldsMap. */
  lemma HeadFields(first: string, fields: seq<(string, string)>)
    requires '\r' !in first
    requires forall i :: 0 <= i < |fields| ==> PlainName(fields[i].0) && '\r' !in fields[i].1
    ensures Split(Head(first, fields), CRLF)[0] == first
    ensures ParseHeaders(Split(Head(first, fields), CRLF)[1..]) == FieldsMap(fields)
  {
    var fl := FieldLines(fields);
    HeadSplits(first, fields);
    var lines := Split(Head(first, fields), CRLF);
    assert lines == [first] + fl + ["", ""];
    assert lines[0] == first;
    ParseFieldLines(fields);
    DropRequestLine(first, fl);
    HeadersStopAtBlank(fl, [""], map[]);
  }

  /** The pieces a request text splits into: its three request-line tokens and the header map of its field lines. */
  lemma RequestTextParts(verb: string, path: string, version: string, fields: seq<(string, string)>)
    requires ' ' !in verb && ' ' !in path && ' ' !in version
    requires '\r' !in verb && '\r' !in path && '\r' !in version
    requires forall i :: 0 <= i < |fields| ==> PlainName(fields[i].0) && '\r' !in fields[i].1
    ensures Split(Split(RequestText(verb, path, version, fields), CRLF)[0], " ") == [verb, path, version]
    ensures ParseHeaders(Split(RequestText(verb, path, version, fields), CRLF)[1..]) == FieldsMap(fields)
  {
    HeadFields(RequestLine(verb, path, version), fields);
    RequestLineTokens(verb, path, version);
  }

  /**
   * Round trip: a request written with single spaces in its request line and
   * well-formed field lines parses back to its three tokens and its fields.
   */
  lemma ParseRequestText(verb: string, path: string, version: string, fields: seq<(string, string)>)
    requires ' ' !in verb && ' ' !in path && ' ' !in version
    requires '\r' !in verb && '\r' !in path && '\r' !in version
    requires forall i :: 0 <= i < |fields| ==> PlainName(fields[i].0) && '\r' !in fields[i].1
    ensures ParseRequest(RequestText(verb, path, version, fields)) == Some(Request(verb, path, version, FieldsMap(fields)))
  {
    RequestTextParts(verb, path, version, fields);
  }

  /** The header fields `build_response` writes, in order. */
  function ResponseFields(contentType: string, length: nat): seq<(string, string)>
  {
    [("Content-Type", contentType), ("Content-Length", Decimal(length)), ("Connection", "close")]
  }

  /**
   * A client reading what `build_response` wrote finds the status line first,
   * then Content-Type, a Content-Length whose digits spell the body's length,
   * and Connection: close.
   */
  lemma ResponseHeadParses(code: nat, reason: string, contentType: string, body: seq<byte>)
    requires '\r' !in reason && '\r' !in contentType
    ensures var lines := Split(BuildResponse(code, reason, contentType, body).head, CRLF);
      && lines[0] == StatusLine(code, reason)
      && ParseHeaders(lines[1..]) == map["content-type" := PyStrip(contentType),
                                        "content-length" := Decimal(|body|),
                                        "connection" := "close"]
      && DigitsValue(ParseHeaders(lines[1..])["content-length"]) == |body|
  {
    var fields := ResponseFields(contentType, |body|);
    ResponseFieldsPlain(contentType, |body|);
    StatusLineNoCR(code, reason);
    HeadFields(StatusLine(code, reason), fields);
    ResponseFieldsMap(contentType, |body|);
  }

  lemma StatusLineNoCR(code: nat, reason: string)
    requires '\r' !in reason
    ensures '\r' !in StatusLine(code, reason)
  {
    DecimalNoCR(code);
    assert '\r' !in "HTTP/1.1 ";
  }

  lemma DecimalNoCR(n: nat)
    ensures '\r' !in Decimal(n)
  {
    var d := Decimal(n);
    assert forall i :: 0 <= i < |d| ==> IsDigit(d[i]);
  }

  lemma ResponseFieldsPlain(contentType: string, length: nat)
    requires '\r' !in contentType
    ensures var fields := ResponseFields(contentType, length);
      forall i :: 0 <= i < |fields| ==> PlainName(fields[i].0) && '\r' !in fields[i].1
  {
    DecimalNoCR(length);
  }

  /** The normalised name of a field name without surrounding blanks is its lower-case form. */
  lemma FieldNameOf(name: string, lower: string)
    requires |name| > 0 && !IsPySpace(name[0]) && !IsPySpace(name[|name| - 1])
    requires |name| == |lower| && forall i :: 0 <= i < |name| ==> LowerChar(name[i]) == lower[i]
    ensures FieldName(name) == lower
  {
    TrimUnchanged(name, IsPySpace);
    LowerEach(name, lower);
  }

  lemma DecimalStripped(n: nat)
    ensures PyStrip(Decimal(n)) == Decimal(n)
  {
    var d := Decimal(n);
    assert IsDigit(d[0]) && IsDigit(d[|d| - 1]);
    TrimUnchanged(d, IsPySpace);
  }

  lemma CloseStripped()
    ensures PyStrip("close") == "close"
  {
    TrimUnchanged("close", IsPySpace);
  }

  lemma ContentTypeName()
    ensures FieldName("Content-Type") == "content-type"
  {
    FieldNameOf("Content-Type", "content-type");
  }

  lemma ContentLengthName()
    ensures FieldName("Content-Length") == "content-length"
  {
    FieldNameOf("Content-Length", "content-length");
  }

  lemma ConnectionName()
    ensures FieldName("Connection") == "connection"
  {
    FieldNameOf("Connection", "connection");
  }

  lemma FieldsMapSnoc(fields: seq<(string, string)>, f: (string, string))
    ensures FieldsMap(fields + [f]) == FieldsMap(fields)[FieldName(f.0) := PyStrip(f.1)]
  {
    assert (fields + [f])[..|fields|] == fields;
  }

  lemma FieldsMap3(a: (string, string), b: (string, string), c: (string, string))
    ensures FieldsMap([a, b, c]) == map[FieldName(a.0) := PyStrip(a.1)][FieldName(b.0) := PyStrip(b.1)][FieldName(c.0) := PyStrip(c.1)]
  {
    var f1 := [a];
    var f2 := f1 + [b];
    var f3 := f2 + [c];
    assert f3 == [a, b, c];
    FieldsMapSnoc([], a);
    assert [] + [a] == f1;
    FieldsMapSnoc(f1, b);
    FieldsMapSnoc(f2, c);
  }

  lemma ResponseFieldsMap(contentType: string, length: nat)
    ensures FieldsMap(ResponseFields(contentType, length))
         == map["content-type" := PyStrip(contentType), "content-length" := Decimal(length), "connection" := "close"]
  {
    var d := Decimal(length);
    DecimalStripped(length);
    CloseStripped();
    ContentTypeName();
    ContentLengthName();
    ConnectionName();
    FieldsMap3(("Content-Type", contentType), ("Content-Length", d), ("Connection", "close"));
  }
}
