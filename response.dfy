/**
 * `HttpResponse` of httpresponse.rs: a status with an optional body and
 * content type, and its serialisation into the bytes sent to the client
 * (status line, two headers, blank line, body; section 6.1 of RFC 2616).
 */
module Response {
  import opened Wrappers
  import opened Text
  import opened Status
  import opened Defaults

  /** The content type forced on a response that has no body of its own. */
  const HTML: string := "text/html"

  /** The status line and the Content-Type header, each with its line break. */
  function TypeLines(code: nat, reason: string, contentType: string): string
  {
    "HTTP/1.1 " + Decimal(code) + " " + reason + "\r\nContent-Type: " + contentType + "\r\n"
  }

  /** The Content-Length header and the blank line that ends the head. */
  function LengthLines(length: nat): string
  {
    "Content-Length: " + Decimal(length) + "\r\n\r\n"
  }

  /** The text before the body: `format!("HTTP/1.1 {} {}\r\nContent-Type: {}\r\nContent-Length: {}\r\n\r\n", ...)`. */
  function Head(code: nat, reason: string, contentType: string, length: nat): string
  {
    TypeLines(code, reason, contentType) + LengthLines(length)
  }

  /** The body that is sent: the response's own data, or else the default page of its status. */
  function Body(status: ResponseCode, data: Option<seq<Byte>>): seq<Byte>
  {
    if data.Some? then data.value else DefaultMessage(status)
  }

  /** The content type that is sent: the caller's when there is data, otherwise text/html. */
  function SentType(data: Option<seq<Byte>>, contentType: Option<string>): string
    requires data.Some? ==> contentType.Some?
  {
    if data.Some? then contentType.value else HTML
  }

  /** A head followed by its body. */
  function Message(code: nat, reason: string, contentType: string, body: seq<Byte>): seq<Byte>
  {
    Bytes(Head(code, reason, contentType, |body|)) + body
  }

  /**
   * The bytes `HttpResponse::response` returns. Data without a content type
   * makes the source unwrap `None` and panic, so callers must not ask for it.
   */
  function Wire(status: ResponseCode, data: Option<seq<Byte>>, contentType: Option<string>): (r: seq<Byte>)
    requires data.Some? ==> contentType.Some?
    ensures |r| > |Body(status, data)| && r[|r| - |Body(status, data)|..] == Body(status, data)
  {
    var (code, reason) := status.Get();
    Message(code, reason, SentType(data, contentType), Body(status, data))
  }

  /**
   * The layout: the status line with the code and the reason (its trailing
   * space kept), the content type, then the body verbatim with nothing after it.
   */
  lemma MessageLayout(code: nat, reason: string, contentType: string, body: seq<Byte>)
    ensures var out := Message(code, reason, contentType, body);
      var head := Head(code, reason, contentType, |body|);
      && |out| == |head| + |body|
      && out[..|head|] == Bytes(head)
      && out[|head|..] == body
      && StartsWith(head, TypeLines(code, reason, contentType))
  {
    var line := TypeLines(code, reason, contentType);
    var head := Head(code, reason, contentType, |body|);
    assert head[..|line|] == line;
  }

  /**
   * The Content-Length header is the last header, and read back as a `usize`
   * its value is exactly the number of bytes that follow the blank line.
   */
  lemma DeclaredLengthIsBodyLength(code: nat, reason: string, contentType: string, body: seq<Byte>)
    requires |body| <= USIZE_MAX
    ensures exists headers: string, digits: string ::
      && Message(code, reason, contentType, body) == Bytes(headers + "Content-Length: " + digits + "\r\n\r\n") + body
      && ParseUnsigned(digits, USIZE_MAX) == Some(|body|)
  {
    var headers := TypeLines(code, reason, contentType);
    var digits := Decimal(|body|);
    assert Head(code, reason, contentType, |body|) == headers + "Content-Length: " + digits + "\r\n\r\n";
    ParseDecimal(|body|, USIZE_MAX);
  }

  /**
   * Without data the body is the default page of the status, whatever
   * content type the response carried.
   */
  lemma DefaultBodyWithoutData(status: ResponseCode, a: Option<string>, b: Option<string>)
    ensures Wire(status, None, a) == Wire(status, None, b)
    ensures var out := Wire(status, None, a);
      |DefaultMessage(status)| <= |out| && out[|out| - |DefaultMessage(status)|..] == DefaultMessage(status)
  {
    var (code, reason) := status.Get();
    MessageLayout(code, reason, HTML, DefaultMessage(status));
  }

  /**
   * Idempotence: serialising again after the first call's only state change
   * (text/html stored as the content type when there is no data) gives the
   * same bytes.
   */
  lemma WireIdempotent(status: ResponseCode, data: Option<seq<Byte>>, contentType: Option<string>)
    requires data.Some? ==> contentType.Some?
    ensures Wire(status, data, if data.None? then Some(HTML) else contentType) == Wire(status, data, contentType)
  {
  }

  class HttpResponse {
    /** Never changed after `new`; only the content type is. */
    const status: ResponseCode
    const data: Option<seq<Byte>>
    var contentType: Option<string>

    /** `HttpResponse::new`: the three parts are stored unchanged. */
    constructor New(status: ResponseCode, data: Option<seq<Byte>>, contentType: Option<string>)
      ensures this.status == status && this.data == data && this.contentType == contentType
    {
      this.status := status;
      this.data := data;
      this.contentType := contentType;
    }

    /**
     * `HttpResponse::response`: builds the header text, then extends it with
     * the body. With no data it first stores text/html as the content type.
     */
    method Response() returns (out: seq<Byte>)
      requires data.Some? ==> contentType.Some?
      modifies this`contentType
      ensures out == Wire(status, data, old(contentType))
      ensures contentType == if data.None? then Some(HTML) else old(contentType)
      ensures data.Some? ==> contentType.Some?
    {
      var (code, reason) := status.Get();
      var body: seq<Byte>;
      if data.Some? {
        body := data.value;
      } else {
        contentType := Some(HTML);
        body := DefaultMessage(status);
      }
      out := Bytes(Head(code, reason, contentType.value, |body|));
      out := out + body;
    }
  }

  /** Calling `response()` twice on one response gives byte-identical output. */
  method ResponseTwice(r: HttpResponse) returns (first: seq<Byte>, second: seq<Byte>)
    requires r.data.Some? ==> r.contentType.Some?
    modifies r
    ensures first == second
  {
    first := r.Response();
    second := r.Response();
    WireIdempotent(r.status, r.data, old(r.contentType));
  }
}
