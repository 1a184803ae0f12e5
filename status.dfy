/**
 * `ResponseCode` of httpresponse.rs: the status codes of section 10 of
 * RFC 2616 that the server knows, each with its number and reason phrase.
 */
module Status {
  import opened Wrappers

  datatype ResponseCode =
      Continue
    | SwitchingProtocols
    | OK
    | Created
    | Accepted
    | NonAuthoritativeInformation
    | NoContent
    | ResetContent
    | PartialContent
    | MultipleChoices
    | MovedPermanently
    | Found
    | SeeOther
    | NotModified
    | UseProxy
    | TemporaryRedirect
    | BadRequest
    | Unauthorized
    | PaymentRequired
    | Forbidden
    | NotFound
    | MethodNotAllowed
    | NotAcceptable
    | ProxyAuthenticationRequired
    | RequestTimeout
    | Conflict
    | Gone
    | LengthRequired
    | PreconditionFailed
    | RequestEntityTooLarge
    | RequestURITooLarge
    | UnsupportedMediaType
    | RequestedRangeNotSatisfiable
    | ExpectationFailed
    | InternalServerError
    | NotImplemented
    | BadGateway
    | ServiceUnavailable
    | GatewayTimeOut
    | HttpVersionNotSupported
  {
    /** The numeric code, the first half of `ResponseCode::get`. */
    function Code(): (c: nat)
      ensures 100 <= c <= 505
    {
      match this
      case Continue => 100
      case SwitchingProtocols => 101
      case OK => 200
      case Created => 201
      case Accepted => 202
      case NonAuthoritativeInformation => 203
      case NoContent => 204
      case ResetContent => 205
      case PartialContent => 206
      case MultipleChoices => 300
      case MovedPermanently => 301
      case Found => 302
      case SeeOther => 303
      case NotModified => 304
      case UseProxy => 305
      case TemporaryRedirect => 307
      case BadRequest => 400
      case Unauthorized => 401
      case PaymentRequired => 402
      case Forbidden => 403
      case NotFound => 404
      case MethodNotAllowed => 405
      case NotAcceptable => 406
      case ProxyAuthenticationRequired => 407
      case RequestTimeout => 408
      case Conflict => 409
      case Gone => 410
      case LengthRequired => 411
      case PreconditionFailed => 412
      case RequestEntityTooLarge => 413
      case RequestURITooLarge => 414
      case UnsupportedMediaType => 415
      case RequestedRangeNotSatisfiable => 416
      case ExpectationFailed => 417
      case InternalServerError => 500
      case NotImplemented => 501
      case BadGateway => 502
      case ServiceUnavailable => 503
      case GatewayTimeOut => 504
      case HttpVersionNotSupported => 505
    }

    /** The reason phrase of the status line, without the space that follows it. */
    function Phrase(): (p: string)
      ensures p != [] && p[0] != ' ' && p[|p| - 1] != ' '
    {
      match this
      case Continue => "Continue"
      case SwitchingProtocols => "Switching Protocols"
      case OK => "OK"
      case Created => "Created"
      case Accepted => "Accepted"
      case NonAuthoritativeInformation => "Non-Authoritative Information"
      case NoContent => "No Content"
      case ResetContent => "Reset Content"
      case PartialContent => "Partial Content"
      case MultipleChoices => "Multiple Choices"
      case MovedPermanently => "Moved Permanently"
      case Found => "Found"
      case SeeOther => "See Other"
      case NotModified => "Not Modified"
      case UseProxy => "Use Proxy"
      case TemporaryRedirect => "Temporary Redirect"
      case BadRequest => "Bad Request"
      case Unauthorized => "Unauthorized"
      case PaymentRequired => "Payment Required"
      case Forbidden => "Forbidden"
      case NotFound => "Not Found"
      case MethodNotAllowed => "Method Not Allowed"
      case NotAcceptable => "Not Acceptable"
      case ProxyAuthenticationRequired => "Proxy Authentication Required"
      case RequestTimeout => "Request Time-out"
      case Conflict => "Conflict"
      case Gone => "Gone"
      case LengthRequired => "Length Required"
      case PreconditionFailed => "Precondition Failed"
      case RequestEntityTooLarge => "Request Entity Too Large"
      case RequestURITooLarge => "Request-URI Too Large"
      case UnsupportedMediaType => "Unsupported Media Type"
      case RequestedRangeNotSatisfiable => "Requested range not satisfiable"
      case ExpectationFailed => "Expectation Failed"
      case InternalServerError => "Internal Server Error"
      case NotImplemented => "Not Implemented"
      case BadGateway => "Bad Gateway"
      case ServiceUnavailable => "Service Unavailable"
      case GatewayTimeOut => "Gateway Time-out"
      case HttpVersionNotSupported => "Http Version not supported"
    }

    /**
     * `ResponseCode::get`: the numeric code and the reason phrase. Every
     * reason phrase keeps a trailing space, which therefore appears in the
     * status line and in the log.
     */
    function Get(): (r: (nat, string))
      ensures 100 <= r.0 <= 505
      ensures r.1 != [] && r.1[|r.1| - 1] == ' '
    {
      (Code(), Phrase() + " ")
    }
  }

  /** The status a numeric code stands for; the inverse of `Get` on codes. */
  function FromCode(code: nat): (r: Option<ResponseCode>)
    ensures r.Some? ==> 100 <= code <= 505
  {
    match code
    case 100 => Some(Continue)
    case 101 => Some(SwitchingProtocols)
    case 200 => Some(OK)
    case 201 => Some(Created)
    case 202 => Some(Accepted)
    case 203 => Some(NonAuthoritativeInformation)
    case 204 => Some(NoContent)
    case 205 => Some(ResetContent)
    case 206 => Some(PartialContent)
    case 300 => Some(MultipleChoices)
    case 301 => Some(MovedPermanently)
    case 302 => Some(Found)
    case 303 => Some(SeeOther)
    case 304 => Some(NotModified)
    case 305 => Some(UseProxy)
    case 307 => Some(TemporaryRedirect)
    case 400 => Some(BadRequest)
    case 401 => Some(Unauthorized)
    case 402 => Some(PaymentRequired)
    case 403 => Some(Forbidden)
    case 404 => Some(NotFound)
    case 405 => Some(MethodNotAllowed)
    case 406 => Some(NotAcceptable)
    case 407 => Some(ProxyAuthenticationRequired)
    case 408 => Some(RequestTimeout)
    case 409 => Some(Conflict)
    case 410 => Some(Gone)
    case 411 => Some(LengthRequired)
    case 412 => Some(PreconditionFailed)
    case 413 => Some(RequestEntityTooLarge)
    case 414 => Some(RequestURITooLarge)
    case 415 => Some(UnsupportedMediaType)
    case 416 => Some(RequestedRangeNotSatisfiable)
    case 417 => Some(ExpectationFailed)
    case 500 => Some(InternalServerError)
    case 501 => Some(NotImplemented)
    case 502 => Some(BadGateway)
    case 503 => Some(ServiceUnavailable)
    case 504 => Some(GatewayTimeOut)
    case 505 => Some(HttpVersionNotSupported)
    case _ => None
  }

  /** Every status is recovered from its code alone. */
  lemma CodeIdentifiesStatus(s: ResponseCode)
    ensures FromCode(s.Code()) == Some(s)
  {
  }

  /** A code that names a status is that status's code: `FromCode` inverts `Code` from both sides. */
  lemma FromCodeInverse(code: nat)
    requires FromCode(code).Some?
    ensures FromCode(code).value.Code() == code
  {
    if code < 300 {
      InverseBelow300(code);
    } else if code < 400 {
      Inverse3xx(code);
    } else if code < 500 {
      Inverse4xx(code);
    } else {
      Inverse5xx(code);
    }
  }

  lemma InverseBelow300(code: nat)
    requires FromCode(code).Some? && code < 300
    ensures FromCode(code).value.Code() == code
  {
  }

  lemma Inverse3xx(code: nat)
    requires FromCode(code).Some? && 300 <= code < 400
    ensures FromCode(code).value.Code() == code
  {
  }

  lemma Inverse4xx(code: nat)
    requires FromCode(code).Some? && 400 <= code < 500
    ensures FromCode(code).value.Code() == code
  {
  }

  lemma Inverse5xx(code: nat)
    requires FromCode(code).Some? && 500 <= code
    ensures FromCode(code).value.Code() == code
  {
  }

  /** So the 40 codes are pairwise distinct. */
  lemma CodesDistinct(s: ResponseCode, t: ResponseCode)
    requires s != t
    ensures s.Get().0 != t.Get().0
  {
    CodeIdentifiesStatus(s);
    CodeIdentifiesStatus(t);
  }
}
