/**
 * `HttpConnection` of httpserver.rs: serving one connection from the first
 * byte read to the log line printed at the end. The header is framed into a
 * 1024-byte buffer, decoded as UTF-8 and parsed; the request is handled, or
 * answered with 400 Bad Request when it does not parse; the response is
 * written and the connection's log line completed with the peer's address.
 *
 * The connection is the sequence of bytes the peer sends; what the server
 * writes back is collected in `written`.
 */
module Server {
  import opened Wrappers
  import opened Text
  import opened Status
  import opened Logging
  import Framer
  import Request
  import Response

  /** How serving a connection ends: bytes written and a log line, or a panic of the connection's thread. */
  datatype Outcome = Served(written: seq<Byte>, log: string) | Crashed

  /** The entry `send_response` logs: `format!("{} {}", code, reason)`. */
  function StatusEntry(status: ResponseCode): (e: string)
    ensures StartsWith(e, Decimal(status.Code())) && e[|e| - 1] == ' '
  {
    Decimal(status.Get().0) + " " + status.Get().1
  }

  /** The framer's buffer: the bytes it consumed, then the zeros it was created with. */
  function HeaderBuffer(input: seq<Byte>): (buffer: seq<Byte>)
    ensures |buffer| == Framer.MAX_HEADER
  {
    Framer.Buffer(input, Framer.FrameLength(input))
  }

  /** The reply for the outcome of parsing: the handled request, or 400 Bad Request. */
  function ReplyTo(parsed: Request.ParseOutcome, files: Request.Files): (r: Request.Reply)
    requires !parsed.Panicked?
    ensures r.WellFormed()
  {
    if parsed.Parsed? then Request.Dispatch(parsed.request, files) else Request.Reply(BadRequest, None, None)
  }

  /** The log entries of the request before `send_response` adds the status: its request line, if it parsed. */
  function RequestEntries(parsed: Request.ParseOutcome): string
  {
    if parsed.Parsed? then Logged([], Request.RequestLine(parsed.request)) else []
  }

  /**
   * What a connection writes and logs for a reply, with `entries` already
   * in its logs: the serialised response, and the log line with the status
   * entry added and the peer's address in front.
   */
  function Delivered(reply: Request.Reply, entries: string, remote: string): (r: Outcome)
    requires reply.WellFormed()
    ensures r.Served?
  {
    Served(Response.Wire(reply.status, reply.data, reply.contentType),
           Prepended(Logged(entries, StatusEntry(reply.status)), remote))
  }

  /** What is written and logged for a request that parsed or failed to parse. */
  function Answer(parsed: Request.ParseOutcome, files: Request.Files, remote: string): (r: Outcome)
    requires !parsed.Panicked?
    ensures r.Served?
  {
    Delivered(ReplyTo(parsed, files), RequestEntries(parsed), remote)
  }

  /**
   * `handle_connection` from framing to the printed log line. A header
   * buffer that is not UTF-8 and a panic while parsing end the connection's
   * thread with nothing written.
   */
  function Serve(input: seq<Byte>, files: Request.Files, remote: string): (r: Outcome)
    ensures r.Served? ==> StartsWith(r.log, remote + SEPARATOR)
  {
    var buffer := HeaderBuffer(input);
    if !ValidUtf8(buffer) then Crashed
    else
      var parsed := Request.ParseRequest(Chars(buffer), input[Framer.FrameLength(input)..]);
      if parsed.Panicked? then Crashed else Answer(parsed, files, remote)
  }

  class HttpConnection {
    /** `remote_addr.to_string()`. */
    const remote: string
    var logs: Logs
    /** Everything written to the stream so far. */
    var written: seq<Byte>

    constructor New(remote: string, logs: Logs)
      ensures this.remote == remote && this.logs == logs && written == []
    {
      this.remote := remote;
      this.logs := logs;
      written := [];
    }

    /** `send_response`: logs the status, then writes the serialised response. */
    method SendResponse(response: Response.HttpResponse)
      requires response.data.Some? ==> response.contentType.Some?
      requires logs != response as object
      modifies logs, this`written, response`contentType
      ensures logs.content == Logged(old(logs.content), StatusEntry(response.status))
      ensures written == old(written) + Response.Wire(response.status, response.data, old(response.contentType))
    {
      var (code, reason) := response.status.Get();
      logs.Log(Decimal(code) + " " + reason);
      var bytes := response.Response();
      written := written + bytes;
    }

    /** `send_logs`: puts the peer's address in front of the log line, which is then printed. */
    method SendLogs()
      modifies logs
      ensures logs.content == Prepended(old(logs.content), remote)
    {
      logs.Append(remote);
    }
  }

  /**
   * The first part of `handle_connection` after parsing: handle the request,
   * which logs its request line, or make a 400 Bad Request response.
   */
  method MakeResponse(parsed: Request.ParseOutcome, files: Request.Files) returns (response: Response.HttpResponse, logs: Logs)
    requires !parsed.Panicked?
    ensures fresh(logs) && fresh(response)
    ensures logs.content == RequestEntries(parsed)
    ensures var reply := ReplyTo(parsed, files);
      response.status == reply.status && response.data == reply.data && response.contentType == reply.contentType
  {
    logs := new Logs.New();
    if parsed.Parsed? {
      response := Request.HandleMethod(parsed.request, logs, files);
    } else {
      response := new Response.HttpResponse.New(BadRequest, None, None);
    }
  }

  /** The end of `handle_connection`: a connection sends the response, then its logs. */
  method Deliver(response: Response.HttpResponse, logs: Logs, remote: string) returns (r: Outcome)
    requires response.data.Some? ==> response.contentType.Some?
    requires logs != response as object
    modifies logs, response`contentType
    ensures r == Delivered(Request.Reply(response.status, response.data, old(response.contentType)), old(logs.content), remote)
  {
    ghost var reply := Request.Reply(response.status, response.data, response.contentType);
    ghost var entries := logs.content;
    var connection := new HttpConnection.New(remote, logs);
    connection.SendResponse(response);
    ghost var wire := Response.Wire(reply.status, reply.data, reply.contentType);
    ghost var line := Logged(entries, StatusEntry(reply.status));
    assert connection.written == wire && logs.content == line;
    connection.SendLogs();
    assert logs.content == Prepended(line, remote) && connection.written == wire;
    r := Served(connection.written, logs.content);
    assert Delivered(reply, entries, remote) == Served(wire, Prepended(line, remote));
  }

  /** The part of `handle_connection` after parsing: make the response, then deliver it. */
  method Respond(parsed: Request.ParseOutcome, files: Request.Files, remote: string) returns (r: Outcome)
    requires !parsed.Panicked?
    ensures r == Answer(parsed, files, remote)
  {
    var response, logs := MakeResponse(parsed, files);
    r := Deliver(response, logs, remote);
  }

  /** `HttpConnection::handle_connection` on one accepted connection. */
  method HandleConnection(input: seq<Byte>, files: Request.Files, remote: string) returns (r: Outcome)
    ensures r == Serve(input, files, remote)
  {
    var data, consumed := Framer.ReadHeader(input);
    if !ValidUtf8(data) {
      // String::from_utf8(...).unwrap() panics
      return Crashed;
    }
    var parsed := Request.Parse(Chars(data), input[consumed..]);
    if parsed.Panicked? {
      return Crashed;
    }
    r := Respond(parsed, files, remote);
  }

  /** A request that does not parse is answered with 400 Bad Request and its default page, and only the status is logged. */
  lemma MalformedRequestAnswered(files: Request.Files, remote: string)
    ensures Answer(Request.ParseError, files, remote)
         == Served(Response.Wire(BadRequest, None, None), remote + SEPARATOR + "400 Bad Request ")
  {
    assert ReplyTo(Request.ParseError, files) == Request.Reply(BadRequest, None, None);
    assert RequestEntries(Request.ParseError) == [];
    BadRequestEntry();
  }

  lemma BadRequestEntry()
    ensures StatusEntry(BadRequest) == "400 Bad Request "
  {
    assert Decimal(400) == "400" by {
      assert Decimal(40) == Decimal(4) + [DigitChar(0)] == "40";
    }
    assert BadRequest.Get().1 == "Bad Request ";
  }

  /**
   * The printed line: the peer's address, then the request line when the
   * request parsed, then the status, separated by " -- ".
   */
  lemma ServedLog(parsed: Request.ParseOutcome, files: Request.Files, remote: string)
    requires !parsed.Panicked?
    ensures var status := ReplyTo(parsed, files).status;
      Answer(parsed, files, remote).log
        == remote + SEPARATOR + (if parsed.Parsed? then Request.RequestLine(parsed.request) + SEPARATOR + StatusEntry(status)
                                 else StatusEntry(status))
  {
    var entry := StatusEntry(ReplyTo(parsed, files).status);
    assert Answer(parsed, files, remote).log == remote + SEPARATOR + Logged(RequestEntries(parsed), entry);
    EntriesLogged(parsed, entry);
  }

  /** The status entry goes after the request line, or alone when the request did not parse. */
  lemma EntriesLogged(parsed: Request.ParseOutcome, entry: string)
    ensures Logged(RequestEntries(parsed), entry)
         == if parsed.Parsed? then Request.RequestLine(parsed.request) + SEPARATOR + entry else entry
  {
    if parsed.Parsed? {
      assert Request.RequestLine(parsed.request) != [];
    }
  }

  /** A header that is not UTF-8 panics the connection's thread before anything is written: here a lone 0xFF byte. */
  lemma InvalidUtf8Crashes(files: Request.Files, remote: string)
    ensures Serve([0xFF], files, remote) == Crashed
  {
    var input: seq<Byte> := [0xFF];
    assert input[..1] == input;
    assert Framer.StateAfter(input) == Framer.Normal;
    assert Framer.FrameLength(input) == 1;
    var buffer := HeaderBuffer(input);
    assert buffer[0] == 0xFF;
    assert CharWidth(buffer) == 0;
  }

  // ---------------------------------------------------------------------
  // A GET request from the first byte to the log line

  /** ASCII text without line breaks, as a request line sent by a well-behaved client is. */
  predicate PlainLine(s: string)
  {
    forall i :: 0 <= i < |s| ==> s[i] as int < 0x80 && s[i] != '\r' && s[i] != '\n'
  }

  /** `n` zero bytes, as the header buffer starts out. */
  function Zeros(n: nat): (z: seq<Byte>)
    ensures |z| == n && forall i :: 0 <= i < n ==> z[i] == 0
  {
    seq(n, _ => 0)
  }

  /**
   * A header in which every '\r' has a byte other than '\r' two places on
   * has no blank line before the one that ends it.
   */
  lemma NoEarlierBlankLine(p: seq<Byte>)
    requires forall k :: 0 <= k < |p| && p[k] == Framer.CR ==> k + 2 < |p| && p[k + 2] != Framer.CR
    ensures forall j :: 0 < j < |p| + 4 ==> !Framer.EndsWithBlankLine((p + Framer.BLANK_LINE)[..j])
  {
    var h := p + Framer.BLANK_LINE;
    forall j | 0 < j < |p| + 4
      ensures !Framer.EndsWithBlankLine(h[..j])
    {
      if j >= 4 {
        assert h[..j][j - 4..][0] == p[j - 4];
        if p[j - 4] == Framer.CR {
          assert h[..j][j - 4..][2] == p[j - 2];
        }
      }
    }
  }

  /** ASCII text in which every '\r' has a character other than '\r' two places on, ending in neither '\r' nor '\n'. */
  predicate HeaderLines(head: string)
  {
    && head != []
    && (forall i :: 0 <= i < |head| ==> head[i] as int < 0x80)
    && (forall k :: 0 <= k < |head| && head[k] == '\r' ==> k + 2 < |head| && head[k + 2] != '\r')
    && head[|head| - 1] != '\r' && head[|head| - 1] != '\n'
  }

  /** Header lines and a blank line are framed exactly; the buffer holds them and then zeros. */
  lemma FrameHeader(head: string, more: seq<Byte>)
    requires HeaderLines(head) && |head| + 4 <= Framer.MAX_HEADER
    ensures var input := Bytes(head + "\r\n\r\n") + more;
      && Framer.FrameLength(input) == |head| + 4
      && HeaderBuffer(input) == Bytes(head + "\r\n\r\n") + Zeros(Framer.MAX_HEADER - |head| - 4)
  {
    var p := Bytes(head);
    BytesAppend(head, "\r\n\r\n");
    assert Bytes("\r\n\r\n") == Framer.BLANK_LINE;
    forall k | 0 <= k < |p|
      ensures p[k] == head[k] as int
    {
    }
    NoEarlierBlankLine(p);
    Framer.FrameHeaderBlock(p, more);
    var input := Bytes(head + "\r\n\r\n") + more;
    assert input == p + Framer.BLANK_LINE + more;
    assert input[..|head| + 4] == Bytes(head + "\r\n\r\n");
  }

  /** One plain request line and a blank line are framed exactly; the buffer holds them and then zeros. */
  lemma FrameRequestLine(line: string, more: seq<Byte>)
    requires line != [] && PlainLine(line) && |line| + 4 <= Framer.MAX_HEADER
    ensures var input := Bytes(line + "\r\n\r\n") + more;
      && Framer.FrameLength(input) == |line| + 4
      && HeaderBuffer(input) == Bytes(line + "\r\n\r\n") + Zeros(Framer.MAX_HEADER - |line| - 4)
  {
    assert HeaderLines(line);
    FrameHeader(line, more);
  }

  /** The zero padding, read as text, is one line that does not mention Content-Length. */
  lemma PaddingHasNoLength(z: seq<Byte>)
    requires forall i :: 0 <= i < |z| ==> z[i] == 0
    ensures forall i :: 0 <= i < |Lines(Chars(z))| ==> !Request.IsLengthLine(Lines(Chars(z))[i])
  {
    var t := Chars(z);
    assert '\n' !in t by {
      forall i | 0 <= i < |t| ensures t[i] != '\n' {
        assert t[i] == 0 as char;
      }
    }
    if t != [] {
      assert Lines(t) == [t];
      forall i: nat | i + |Request.CONTENT_LENGTH| <= |t|
        ensures !OccursAt(t, Request.CONTENT_LENGTH, i)
      {
        assert t[i..i + |Request.CONTENT_LENGTH|][0] == t[i] == 0 as char;
      }
      ContainsAt(t, Request.CONTENT_LENGTH);
    }
  }

  /** The buffer holding ASCII text and then zeros is valid UTF-8 and reads as the text and the padding. */
  lemma AsciiBufferText(text: string)
    requires |text| <= Framer.MAX_HEADER
    requires forall i :: 0 <= i < |text| ==> text[i] as int < 0x80
    ensures var buffer := Bytes(text) + Zeros(Framer.MAX_HEADER - |text|);
      && ValidUtf8(buffer)
      && Chars(buffer) == text + Chars(Zeros(Framer.MAX_HEADER - |text|))
  {
    var z := Zeros(Framer.MAX_HEADER - |text|);
    var buffer := Bytes(text) + z;
    CharsOfBytes(text);
    assert Chars(buffer) == Chars(Bytes(text)) + Chars(z);
    assert IsAscii(buffer) by {
      forall i | 0 <= i < |buffer| ensures buffer[i] < 0x80 {
        if i < |text| {
          assert buffer[i] == ByteOf(text[i]);
        }
      }
    }
    AsciiIsUtf8(buffer);
  }

  /**
   * The buffer of a plain request line is valid UTF-8 and reads as that
   * line, an empty line, and the padding.
   */
  lemma RequestBufferText(line: string)
    requires PlainLine(line) && |line| + 4 <= Framer.MAX_HEADER
    ensures var buffer := Bytes(line + "\r\n\r\n") + Zeros(Framer.MAX_HEADER - |line| - 4);
      && ValidUtf8(buffer)
      && Chars(buffer) == line + "\r\n" + ("\r\n" + Chars(Zeros(Framer.MAX_HEADER - |line| - 4)))
  {
    var text := line + "\r\n\r\n";
    assert forall i :: 0 <= i < |text| ==> text[i] as int < 0x80;
    AsciiBufferText(text);
  }

  /** The log entry of a 200 response. */
  lemma OkEntry()
    ensures StatusEntry(OK) == "200 OK "
  {
    assert Decimal(200) == "200" by {
      assert Decimal(20) == Decimal(2) + [DigitChar(0)] == "20";
    }
    assert OK.Get().1 == "OK ";
  }

  /** The fields of a plain request line are free of line breaks. */
  lemma PlainFields(request: Request.HttpRequest)
    requires PlainLine(Request.RequestLine(request))
    ensures '\n' !in request.uri && '\n' !in request.version
  {
    var line := Request.RequestLine(request);
    var k := |request.verb.Name()| + 1;
    assert line == request.verb.Name() + " " + request.uri + " " + request.version;
    forall i | 0 <= i < |request.uri| ensures request.uri[i] != '\n' {
      assert request.uri[i] == line[k + i];
    }
    forall i | 0 <= i < |request.version| ensures request.version[i] != '\n' {
      assert request.version[i] == line[|line| - |request.version| + i];
    }
  }

  /** The text after the request line, an empty line then the padding, has no Content-Length line. */
  lemma HeadersAfterBlankLine(z: seq<Byte>)
    requires forall i :: 0 <= i < |z| ==> z[i] == 0
    ensures var headers := "\r\n" + Chars(z);
      forall i :: 0 <= i < |Lines(headers)| ==> !Request.IsLengthLine(Lines(headers)[i])
  {
    var headers := "\r\n" + Chars(z);
    LinesCRLF("", Chars(z));
    assert "" + "\r\n" + Chars(z) == headers;
    PaddingHasNoLength(z);
    assert Lines(headers) == [""] + Lines(Chars(z));
    assert !Request.IsLengthLine("");
    forall i | 0 <= i < |Lines(headers)| ensures !Request.IsLengthLine(Lines(headers)[i]) {
      if i > 0 {
        assert Lines(headers)[i] == Lines(Chars(z))[i - 1];
      }
    }
  }

  /**
   * A plain request line followed by a blank line is framed exactly, its
   * buffer is valid UTF-8, and it parses back to the request.
   */
  lemma PlainRequestParses(request: Request.HttpRequest, more: seq<Byte>)
    requires request.data.None?
    requires ' ' !in request.uri && ' ' !in request.version
    requires Request.ValidateVersion(request.version).Some?
    requires PlainLine(Request.RequestLine(request)) && |Request.RequestLine(request)| + 4 <= Framer.MAX_HEADER
    ensures var input := Bytes(Request.RequestLine(request) + "\r\n\r\n") + more;
      && Framer.FrameLength(input) == |Request.RequestLine(request)| + 4
      && ValidUtf8(HeaderBuffer(input))
      && Request.ParseRequest(Chars(HeaderBuffer(input)), input[Framer.FrameLength(input)..]) == Request.Parsed(request)
  {
    var line := Request.RequestLine(request);
    var input := Bytes(line + "\r\n\r\n") + more;
    var z := Zeros(Framer.MAX_HEADER - |line| - 4);
    FrameRequestLine(line, more);
    RequestBufferText(line);
    PlainFields(request);
    var headers := "\r\n" + Chars(z);
    HeadersAfterBlankLine(z);
    Request.ParseRequestRoundTrip(request, headers, input[|line| + 4..]);
  }

  /** A GET for a file that exists is answered with the file and its content type, and logged with 200 OK. */
  lemma AnswerGetFile(request: Request.HttpRequest, files: Request.Files, remote: string)
    requires request.verb == Request.Get && request.uri in files
    ensures Answer(Request.Parsed(request), files, remote)
         == Served(Response.Wire(OK, Some(files[request.uri]), Some(Request.ContentType(request.uri))),
                   remote + SEPARATOR + Request.RequestLine(request) + SEPARATOR + "200 OK ")
  {
    ServedLog(Request.Parsed(request), files, remote);
    OkEntry();
    Regroup(remote + SEPARATOR, Request.RequestLine(request), SEPARATOR, "200 OK ");
  }

  /**
   * End to end: a client sending a plain GET request line and a blank line
   * for a file that exists receives the file with its content type, and the
   * server prints "address -- request line -- 200 OK ", whatever the client
   * sends after the header.
   */
  lemma ServeGetFile(request: Request.HttpRequest, files: Request.Files, remote: string, more: seq<Byte>)
    requires request.verb == Request.Get && request.data.None?
    requires ' ' !in request.uri && ' ' !in request.version
    requires Request.ValidateVersion(request.version).Some?
    requires PlainLine(Request.RequestLine(request)) && |Request.RequestLine(request)| + 4 <= Framer.MAX_HEADER
    requires request.uri in files
    ensures Serve(Bytes(Request.RequestLine(request) + "\r\n\r\n") + more, files, remote)
         == Served(Response.Wire(OK, Some(files[request.uri]), Some(Request.ContentType(request.uri))),
                   remote + SEPARATOR + Request.RequestLine(request) + SEPARATOR + "200 OK ")
  {
    PlainRequestParses(request, more);
    AnswerGetFile(request, files, remote);
  }

  // ---------------------------------------------------------------------
  // A request whose announced body does not arrive

  /** A plain request line and a Content-Length header form header lines the framer reads as such. */
  lemma LengthHeaderLines(line: string, n: nat)
    requires PlainLine(line)
    ensures HeaderLines(line + "\r\n" + Request.LengthHeader(n))
  {
    var header := Request.LengthHeader(n);
    var head := line + "\r\n" + header;
    DecimalHasNo(n, '\r');
    assert header == Request.CONTENT_LENGTH + Decimal(n);
    forall i | 0 <= i < |header|
      ensures header[i] as int < 0x80 && header[i] != '\r'
    {
      if i >= |Request.CONTENT_LENGTH| {
        assert header[i] == Decimal(n)[i - |Request.CONTENT_LENGTH|];
      }
    }
    forall i | 0 <= i < |head|
      ensures head[i] as int < 0x80
      ensures head[i] == '\r' ==> i == |line|
    {
      if i >= |line| + 2 {
        assert head[i] == header[i - |line| - 2];
      }
    }
    assert head[|line| + 2] == header[0] == 'C';
    assert head[|head| - 1] == header[|header| - 1];
  }

  /** Header lines followed by the blank line are still ASCII. */
  lemma AsciiWithBlankLine(head: string)
    requires HeaderLines(head)
    ensures forall i :: 0 <= i < |head + "\r\n\r\n"| ==> (head + "\r\n\r\n")[i] as int < 0x80
  {
    var text := head + "\r\n\r\n";
    forall i | 0 <= i < |text| ensures text[i] as int < 0x80 {
      if i >= |head| {
        assert text[i] == "\r\n\r\n"[i - |head|];
      }
    }
  }

  /** Two header lines, the blank line and the padding, regrouped line by line. */
  lemma TwoLinesText(line: string, header: string, padding: string)
    ensures line + "\r\n" + header + "\r\n\r\n" + padding == line + "\r\n" + (header + "\r\n" + ("\r\n" + padding))
  {
    assert "\r\n\r\n" == "\r\n" + "\r\n";
  }

  /**
   * A request line and a Content-Length header announcing n > 0 bytes are
   * framed exactly and decode as UTF-8, and when fewer than n bytes follow
   * the header the request does not parse.
   */
  lemma ShortBodyFails(request: Request.HttpRequest, n: nat, more: seq<Byte>)
    requires ' ' !in request.uri && ' ' !in request.version
    requires Request.ValidateVersion(request.version).Some?
    requires PlainLine(Request.RequestLine(request))
    requires |Request.RequestLine(request)| + |Request.LengthHeader(n)| + 6 <= Framer.MAX_HEADER
    requires 0 < n <= Request.ISIZE_MAX && |more| < n
    ensures var input := Bytes(Request.RequestLine(request) + "\r\n" + Request.LengthHeader(n) + "\r\n\r\n") + more;
      && ValidUtf8(HeaderBuffer(input))
      && Request.ParseRequest(Chars(HeaderBuffer(input)), input[Framer.FrameLength(input)..]) == Request.ParseError
  {
    var line := Request.RequestLine(request);
    var header := Request.LengthHeader(n);
    var head := line + "\r\n" + header;
    var text := head + "\r\n\r\n";
    var input := Bytes(text) + more;
    LengthHeaderLines(line, n);
    FrameHeader(head, more);
    var z := Zeros(Framer.MAX_HEADER - |text|);
    AsciiWithBlankLine(head);
    AsciiBufferText(text);
    assert input[|text|..] == more;
    TwoLinesText(line, header, Chars(z));
    PlainFields(request);
    HeadersAfterBlankLine(z);
    Request.ParseRequestShortBody(request, "\r\n" + Chars(z), n, more);
  }

  /**
   * End to end: a request line and a Content-Length header announcing n > 0
   * bytes, when fewer than n bytes follow the header, are answered with
   * 400 Bad Request, and only the status is logged.
   */
  lemma ServeShortBody(request: Request.HttpRequest, n: nat, files: Request.Files, remote: string, more: seq<Byte>)
    requires ' ' !in request.uri && ' ' !in request.version
    requires Request.ValidateVersion(request.version).Some?
    requires PlainLine(Request.RequestLine(request))
    requires |Request.RequestLine(request)| + |Request.LengthHeader(n)| + 6 <= Framer.MAX_HEADER
    requires 0 < n <= Request.ISIZE_MAX && |more| < n
    ensures Serve(Bytes(Request.RequestLine(request) + "\r\n" + Request.LengthHeader(n) + "\r\n\r\n") + more, files, remote)
         == Served(Response.Wire(BadRequest, None, None), remote + SEPARATOR + "400 Bad Request ")
  {
    ShortBodyFails(request, n, more);
    MalformedRequestAnswered(files, remote);
  }
}
