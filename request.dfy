/**
 * `HttpRequest` of httprequest.rs: the request line (method, URI, version),
 * the Content-Length scan over the header lines, reading the body from the
 * connection, and the GET / POST handlers with their content types.
 *
 * The request text is the header buffer decoded as UTF-8; the connection is
 * the sequence of bytes the peer still has to send after the framer stopped.
 * The file system is a map from request URI to file contents.
 */
module Request {
  import opened Wrappers
  import opened Text
  import opened Status
  import opened Logging
  import Response

  // ---------------------------------------------------------------------
  // Methods (section 9 of RFC 2616)

  datatype Method = Options | Get | Head | Post | Put | Delete | Trace | Connect
  {
    /** `From<&RequestMethod> for &str`: the method's token. */
    function Name(): (s: string)
      ensures |s| >= 3 && ' ' !in s && '\n' !in s
    {
      match this
      case Options => "OPTIONS"
      case Get => "GET"
      case Head => "HEAD"
      case Post => "POST"
      case Put => "PUT"
      case Delete => "DELETE"
      case Trace => "TRACE"
      case Connect => "CONNECT"
    }
  }

  /** `TryFrom<&str> for RequestMethod`: exact, case-sensitive match of the token. */
  function MethodFromToken(token: string): (r: Option<Method>)
    ensures r.Some? ==> r.value.Name() == token
  {
    if token == "OPTIONS" then Some(Options)
    else if token == "GET" then Some(Get)
    else if token == "HEAD" then Some(Head)
    else if token == "POST" then Some(Post)
    else if token == "PUT" then Some(Put)
    else if token == "DELETE" then Some(Delete)
    else if token == "TRACE" then Some(Trace)
    else if token == "CONNECT" then Some(Connect)
    else None
  }

  /** Every method's token is read back as that method. */
  lemma MethodRoundTrip(m: Method)
    ensures MethodFromToken(m.Name()) == Some(m)
  {
  }

  /** A token is accepted exactly when it is the token of some method. */
  lemma MethodTokenExact(token: string)
    ensures MethodFromToken(token).Some? <==> exists m: Method :: m.Name() == token
  {
    if exists m: Method :: m.Name() == token {
      var m: Method :| m.Name() == token;
      MethodRoundTrip(m);
    }
  }

  /** No two methods share a token. */
  lemma MethodNameInjective(m: Method, n: Method)
    requires m.Name() == n.Name()
    ensures m == n
  {
    MethodRoundTrip(m);
    MethodRoundTrip(n);
  }

  /** Tokens are case-sensitive and the set is closed. */
  lemma MethodRejects()
    ensures MethodFromToken("get") == None
    ensures MethodFromToken("PATCH") == None
    ensures MethodFromToken("") == None
  {
  }

  // ---------------------------------------------------------------------
  // Version

  /** The text after "HTTP/" or "http/", as the two `strip_prefix` steps of `validate_version` find it. */
  function VersionNumbers(version: string): (r: Option<string>)
    ensures r.Some? ==> version == "HTTP/" + r.value || version == "http/" + r.value
  {
    var scheme := StripPrefix(version, "HTTP");
    var rest := if scheme.Some? then scheme else StripPrefix(version, "http");
    if rest.None? then None
    else
      var numbers := StripPrefix(rest.value, "/");
      if numbers.Some? then
        assert version == "HTTP/" + numbers.value || version == "http/" + numbers.value;
        numbers
      else None
  }

  /** The version numbers split on '.' give at least two pieces, the first two of which parse as `u8`. */
  predicate NumbersValid(numbers: string)
  {
    var parts := Split(numbers, '.');
    |parts| >= 2 && ParseUnsigned(parts[0], U8_MAX).Some? && ParseUnsigned(parts[1], U8_MAX).Some?
  }

  /**
   * `validate_version`: "HTTP" or "http", then "/", then numbers as
   * `NumbersValid` says; pieces after the second are not looked at.
   * Accepted, the version is kept as sent.
   */
  function ValidateVersion(version: string): (r: Option<string>)
    ensures r.Some? ==> r.value == version
  {
    match VersionNumbers(version)
    case None => None
    case Some(numbers) => if NumbersValid(numbers) then Some(version) else None
  }

  /** An accepted version is "HTTP/" or "http/" followed by valid numbers. */
  lemma AcceptedVersionShape(version: string)
    requires ValidateVersion(version).Some?
    ensures exists numbers :: NumbersValid(numbers) && (version == "HTTP/" + numbers || version == "http/" + numbers)
  {
    var numbers := VersionNumbers(version).value;
    assert NumbersValid(numbers);
  }

  /** "a.b" with `u8` numbers written in decimal is a valid pair of version numbers. */
  lemma DecimalNumbersValid(major: nat, minor: nat)
    requires major <= U8_MAX && minor <= U8_MAX
    ensures NumbersValid(Decimal(major) + "." + Decimal(minor))
  {
    var parts := [Decimal(major), Decimal(minor)];
    DecimalHasNo(major, '.');
    DecimalHasNo(minor, '.');
    assert parts[1..] == [Decimal(minor)];
    assert Join(parts[1..], '.') == Decimal(minor);
    assert Join(parts, '.') == Decimal(major) + "." + Decimal(minor);
    SplitJoin(parts, '.');
    ParseDecimal(major, U8_MAX);
    ParseDecimal(minor, U8_MAX);
  }

  /** Both spellings of the scheme are stripped, leaving the numbers. */
  lemma VersionNumbersOf(prefix: string, numbers: string)
    requires prefix == "HTTP" || prefix == "http"
    ensures VersionNumbers(prefix + "/" + numbers) == Some(numbers)
  {
    var v := prefix + ("/" + numbers);
    assert prefix + "/" + numbers == v;
    StripPrefixOf(prefix, "/" + numbers);
    StripPrefixOf("/", numbers);
    if prefix == "http" {
      assert v[0] != 'H';
    }
  }

  /** Every version "HTTP/a.b" or "http/a.b" with `u8` numbers, written in decimal, is accepted as it is. */
  lemma VersionAccepted(prefix: string, major: nat, minor: nat)
    requires prefix == "HTTP" || prefix == "http"
    requires major <= U8_MAX && minor <= U8_MAX
    ensures var version := prefix + "/" + (Decimal(major) + "." + Decimal(minor));
      ValidateVersion(version) == Some(version)
  {
    DecimalNumbersValid(major, minor);
    VersionNumbersOf(prefix, Decimal(major) + "." + Decimal(minor));
  }

  /** A version with a single number, such as "HTTP/1", is rejected. */
  lemma VersionNeedsMinor(prefix: string, numbers: string)
    requires prefix == "HTTP" || prefix == "http"
    requires '.' !in numbers
    ensures ValidateVersion(prefix + "/" + numbers) == None
  {
    VersionNumbersOf(prefix, numbers);
    assert Split(numbers, '.') == [numbers];
  }

  /** A major number beyond `u8`, such as in "HTTP/256.0", is rejected. */
  lemma VersionMajorTooLarge(prefix: string, major: nat, minor: string)
    requires prefix == "HTTP" || prefix == "http"
    requires major > U8_MAX
    ensures ValidateVersion(prefix + "/" + (Decimal(major) + "." + minor)) == None
  {
    var numbers := Decimal(major) + "." + minor;
    VersionNumbersOf(prefix, numbers);
    DecimalHasNo(major, '.');
    SplitFirst(Decimal(major), minor, '.');
    DecimalValue(major);
  }

  /** A version that starts with neither "HTTP" nor "http" is rejected. */
  lemma UnknownScheme(version: string)
    requires !StartsWith(version, "HTTP") && !StartsWith(version, "http")
    ensures ValidateVersion(version) == None
  {
  }

  /** "HTTP" not followed by "/" is rejected, even when "http/" cannot be stripped either. */
  lemma SchemeWithoutSlash(rest: string)
    requires rest == [] || rest[0] != '/'
    ensures ValidateVersion("HTTP" + rest) == None
  {
    StripPrefixOf("HTTP", rest);
    if rest != [] {
      assert rest[..1][0] == rest[0];
    }
  }

  /** Only "HTTP" and "http" are accepted as the scheme: "HTTPS/1.1" and "Http/1.1" are rejected. */
  lemma VersionScheme()
    ensures ValidateVersion("HTTPS/1.1") == None
    ensures ValidateVersion("Http/1.1") == None
  {
    SchemeWithoutSlash("S/1.1");
    assert "HTTP" + "S/1.1" == "HTTPS/1.1";
    var other := "Http/1.1";
    assert other[..4] == "Http";
    assert "Http"[1] != "HTTP"[1] && "Http"[0] != "http"[0];
    UnknownScheme(other);
  }

  // ---------------------------------------------------------------------
  // Content type: `Path::new(uri).extension()` and the table of types

  const OCTET_STREAM: string := "application/octet-stream"

  /** The last component that names something, skipping empty and "." components. */
  function LastNormal(parts: seq<string>): (r: Option<string>)
    requires forall i :: 0 <= i < |parts| ==> '/' !in parts[i]
    ensures r.Some? ==> r.value != "" && r.value != "." && '/' !in r.value
    decreases |parts|
  {
    if parts == [] then None
    else
      var last := parts[|parts| - 1];
      if last == "" || last == "." then LastNormal(parts[..|parts| - 1]) else Some(last)
  }

  /** `Path::file_name`: the last component, unless the path ends in ".." or has none. */
  function FileName(path: string): (r: Option<string>)
    ensures r.Some? ==> r.value != "" && r.value != "." && r.value != ".." && '/' !in r.value
  {
    var last := LastNormal(Split(path, '/'));
    if last.None? || last.value == ".." then None else last
  }

  /** `Path::extension`: the text after the last '.' of the file name, when that '.' is not its first character. */
  function Extension(path: string): (r: Option<string>)
    ensures r.Some? ==> '.' !in r.value && '/' !in r.value
  {
    var name := FileName(path);
    if name.None? || '.' !in name.value then None
    else
      var i := LastIndexOf(name.value, '.');
      if i == 0 then None else Some(name.value[i + 1..])
  }

  /** The content types the server knows, by extension. */
  function MimeType(extension: string): (r: Option<string>)
    ensures r.Some? ==> 2 <= |extension| <= 4
    ensures r.Some? ==> '/' in r.value && r.value != OCTET_STREAM
  {
    if extension == "html" then Some("text/html")
    else if extension == "txt" then Some("text/plain")
    else if extension == "css" then Some("text/css")
    else if extension == "csv" then Some("text/csv")
    else if extension == "xml" then Some("application/xml")
    else if extension == "zip" then Some("application/zip")
    else if extension == "js" then Some("application/javascript")
    else if extension == "json" then Some("application/json")
    else if extension == "gif" then Some("image/gif")
    else if extension == "jpeg" then Some("image/jpeg")
    else if extension == "jpg" then Some("image/jpeg")
    else if extension == "png" then Some("image/png")
    else if extension == "tiff" then Some("image/tiff")
    else if extension == "mpeg" then Some("video/mpeg")
    else if extension == "mp4" then Some("video/mp4")
    else None
  }

  /** `get_content_type`: the type of the URI's extension, or application/octet-stream. */
  function ContentType(uri: string): (r: string)
    ensures Extension(uri).None? ==> r == OCTET_STREAM
    ensures Extension(uri).Some? && MimeType(Extension(uri).value).Some? ==> r == MimeType(Extension(uri).value).value
    ensures Extension(uri).Some? && MimeType(Extension(uri).value).None? ==> r == OCTET_STREAM
  {
    var extension := Extension(uri);
    if extension.None? then OCTET_STREAM
    else
      var t := MimeType(extension.value);
      if t.Some? then t.value else OCTET_STREAM
  }

  /** The file name of "dir/name" is "name", for a name that is a normal component. */
  lemma FileNameOf(dir: string, name: string)
    requires name != "" && name != "." && name != ".." && '/' !in name
    ensures FileName(dir + "/" + name) == Some(name)
  {
    SplitLast(dir, name, '/');
    var parts := Split(dir + "/" + name, '/');
    assert parts[|parts| - 1] == name;
    assert LastNormal(parts) == Some(name);
  }

  /** The last '.' of "stem.ext" is the one after the stem. */
  lemma LastDotOf(stem: string, ext: string)
    requires '.' !in stem && '.' !in ext
    ensures '.' in stem + "." + ext
    ensures LastIndexOf(stem + "." + ext, '.') == |stem|
  {
    var name := stem + "." + ext;
    assert name[|stem|] == '.';
    var i := LastIndexOf(name, '.');
  }

  /**
   * A file "stem.ext" in any directory has the content type of "ext", or
   * application/octet-stream when "ext" is not in the table.
   */
  lemma ContentTypeOfFile(dir: string, stem: string, ext: string)
    requires stem != [] && '.' !in stem && '/' !in stem
    requires '.' !in ext && '/' !in ext
    ensures ContentType(dir + "/" + (stem + "." + ext))
         == if MimeType(ext).Some? then MimeType(ext).value else OCTET_STREAM
  {
    var name := stem + "." + ext;
    assert name[0] == stem[0] && name[|stem|] == '.';
    assert name != "." && name != "..";
    FileNameOf(dir, name);
    LastDotOf(stem, ext);
    assert name[|stem| + 1..] == ext;
    assert Extension(dir + "/" + name) == Some(ext);
  }

  /** A hidden file such as ".bashrc", whose only '.' is its first character, has no extension. */
  lemma HiddenFileHasNoType(dir: string, rest: string)
    requires rest != [] && '.' !in rest && '/' !in rest
    ensures ContentType(dir + "/" + ("." + rest)) == OCTET_STREAM
  {
    var name := "." + rest;
    assert name[1] == rest[0];
    FileNameOf(dir, name);
    LastDotOf([], rest);
    assert [] + "." + rest == name;
  }

  /** A path ending in ".." names no file and so has no extension. */
  lemma ParentDirHasNoType(dir: string)
    ensures ContentType(dir + "/..") == OCTET_STREAM
  {
    assert dir + "/.." == dir + ['/'] + "..";
    SplitLast(dir, "..", '/');
    var parts := Split(dir + "/..", '/');
    assert parts[|parts| - 1] == "..";
    assert LastNormal(parts) == Some("..");
  }

  /** A path made of slashes only, such as "/", names no file. */
  lemma RootHasNoType()
    ensures ContentType("/") == OCTET_STREAM
  {
    assert "/" == Join(["", ""], '/');
    SplitJoin(["", ""], '/');
    assert ["", ""][..1] == [""];
    assert [""][..0] == [];
  }

  // ---------------------------------------------------------------------
  // Content-Length

  /** The text whose presence anywhere in a header line makes the server read a length from it. */
  const CONTENT_LENGTH: string := "Content-Length: "

  /** `isize::MAX` on 64-bit targets: the largest capacity `Vec::with_capacity` accepts for bytes. */
  const ISIZE_MAX: nat := 0x7FFF_FFFF_FFFF_FFFF

  /** What one Content-Length line gives: a size, a failed `parse`, or a panicking slice. */
  datatype Length = Size(n: nat) | BadLength | LengthPanic

  predicate IsLengthLine(line: string)
  {
    Contains(line, CONTENT_LENGTH)
  }

  /**
   * `line[16..].parse::<usize>()`: the number is read from byte 16 of the
   * line wherever "Content-Length: " occurs in it; slicing inside a
   * character panics.
   */
  function LineLength(line: string): (r: Length)
    requires IsLengthLine(line)
    ensures r.Size? ==> r.n <= USIZE_MAX
    ensures r.LengthPanic? <==> !IsCharBoundary(line, |CONTENT_LENGTH|)
  {
    if !IsCharBoundary(line, |CONTENT_LENGTH|) then LengthPanic
    else match ParseUnsigned(line[|CONTENT_LENGTH|..], USIZE_MAX)
      case Some(n) => Size(n)
      case None => BadLength
  }

  /** A well-formed header gives the size it was written with. */
  lemma LineLengthOfHeader(n: nat)
    requires n <= USIZE_MAX
    ensures IsLengthLine(CONTENT_LENGTH + Decimal(n))
    ensures LineLength(CONTENT_LENGTH + Decimal(n)) == Size(n)
  {
    var line := CONTENT_LENGTH + Decimal(n);
    assert StartsWith(line, CONTENT_LENGTH);
    assert line[|CONTENT_LENGTH|..] == Decimal(n);
    ParseDecimal(n, USIZE_MAX);
  }

  /** A header that merely ends in "Content-Length" is read from the wrong offset and fails. */
  lemma LineLengthMisreadsOtherHeader()
    ensures IsLengthLine("X-Content-Length: 5")
    ensures LineLength("X-Content-Length: 5") == BadLength
  {
    var line := "X-Content-Length: 5";
    assert line[2..] == CONTENT_LENGTH + "5";
    assert StartsWith(line[2..], CONTENT_LENGTH);
    assert StartsWith(line[1..][1..], CONTENT_LENGTH);
    assert line[|CONTENT_LENGTH|..] == ": 5";
  }

  /**
   * The `for line in lines` loop: every Content-Length line overwrites the
   * size, and the first one that fails ends the parse.
   */
  function ScanLength(lines: seq<string>, size: nat): (r: Length)
    ensures r.Size? && r.n != size ==> r.n <= USIZE_MAX
    ensures r.Size? && r.n != size ==>
      exists i :: 0 <= i < |lines| && IsLengthLine(lines[i]) && LineLength(lines[i]) == Size(r.n)
    decreases |lines|
  {
    if lines == [] then Size(size)
    else if IsLengthLine(lines[0]) then
      match LineLength(lines[0])
      case Size(n) => ScanLength(lines[1..], n)
      case BadLength => BadLength
      case LengthPanic => LengthPanic
    else ScanLength(lines[1..], size)
  }

  /** The scan succeeds exactly when every Content-Length line gives a size. */
  lemma {:induction false} ScanLengthSucceeds(lines: seq<string>, size: nat)
    ensures ScanLength(lines, size).Size? <==>
            forall i :: 0 <= i < |lines| && IsLengthLine(lines[i]) ==> LineLength(lines[i]).Size?
    decreases |lines|
  {
    if lines != [] {
      var next := if IsLengthLine(lines[0]) && LineLength(lines[0]).Size? then LineLength(lines[0]).n else size;
      ScanLengthSucceeds(lines[1..], next);
      assert forall i :: 1 <= i < |lines| ==> lines[i] == lines[1..][i - 1];
    }
  }

  /** A request parses only if every Content-Length line after the request line gives a number. */
  lemma ParsedLengthsValid(lines: seq<string>, stream: seq<Byte>)
    requires ParseLines(lines, stream).Parsed?
    ensures forall i :: 1 <= i < |lines| && IsLengthLine(lines[i]) ==> LineLength(lines[i]).Size?
  {
    ScanLengthSucceeds(lines[1..], 0);
    assert forall i :: 1 <= i < |lines| ==> lines[i] == lines[1..][i - 1];
  }

  /** So "X-Content-Length: 5" among the header lines fails the parse. */
  lemma OtherHeaderFailsParse(line: string, stream: seq<Byte>)
    ensures ParseLines([line, "X-Content-Length: 5"], stream) == ParseError
  {
    var lines := [line, "X-Content-Length: 5"];
    LineLengthMisreadsOtherHeader();
    if ParseLines(lines, stream).Parsed? {
      ParsedLengthsValid(lines, stream);
      assert false;
    }
  }

  /**
   * The last Content-Length line wins: a successful scan gives the size of
   * the last such line, or the starting size when there is none.
   */
  lemma {:induction false} ScanLengthLastWins(lines: seq<string>, size: nat)
    requires ScanLength(lines, size).Size?
    ensures var n := ScanLength(lines, size).n;
      || (n == size && forall i :: 0 <= i < |lines| ==> !IsLengthLine(lines[i]))
      || (exists k :: 0 <= k < |lines| && IsLengthLine(lines[k]) && LineLength(lines[k]) == Size(n)
                      && forall i :: k < i < |lines| ==> !IsLengthLine(lines[i]))
    decreases |lines|
  {
    if lines != [] {
      var n := ScanLength(lines, size).n;
      var tail := lines[1..];
      var next := if IsLengthLine(lines[0]) then LineLength(lines[0]).n else size;
      assert ScanLength(tail, next) == ScanLength(lines, size);
      ScanLengthLastWins(tail, next);
      if exists k :: 0 <= k < |tail| && IsLengthLine(tail[k]) && LineLength(tail[k]) == Size(n)
                     && forall i :: k < i < |tail| ==> !IsLengthLine(tail[i]) {
        var k :| 0 <= k < |tail| && IsLengthLine(tail[k]) && LineLength(tail[k]) == Size(n)
                 && forall i :: k < i < |tail| ==> !IsLengthLine(tail[i]);
        LastInTail(lines, k);
      } else {
        assert forall i :: 1 <= i < |lines| ==> lines[i] == tail[i - 1];
        if IsLengthLine(lines[0]) {
          assert IsLengthLine(lines[0]) && LineLength(lines[0]) == Size(n);
        }
      }
    }
  }

  /** A line of the tail with no length line after it is such a line of the whole sequence. */
  lemma LastInTail(lines: seq<string>, k: nat)
    requires 0 <= k < |lines| - 1
    requires forall i :: k < i < |lines| - 1 ==> !IsLengthLine(lines[1..][i])
    ensures lines[k + 1] == lines[1..][k]
    ensures forall i :: k + 1 < i < |lines| ==> !IsLengthLine(lines[i])
  {
    assert forall i :: k + 1 < i < |lines| ==> lines[i] == lines[1..][i - 1];
  }

  // ---------------------------------------------------------------------
  // The request

  datatype HttpRequest = HttpRequest(verb: Method, uri: string, version: string, data: Option<seq<Byte>>)

  /** How `parse` ends: a request, an `Err` (answered with 400 Bad Request), or a panic of the connection's thread. */
  datatype ParseOutcome = Parsed(request: HttpRequest) | ParseError | Panicked

  /** The line `handle_method` logs: method, URI and version separated by single spaces. */
  function RequestLine(request: HttpRequest): string
  {
    request.verb.Name() + " " + request.uri + " " + request.version
  }

  /** A URI and a version without a line break give a request line without one. */
  lemma RequestLineIsOneLine(request: HttpRequest)
    requires '\n' !in request.uri && '\n' !in request.version
    ensures '\n' !in RequestLine(request)
  {
  }

  /**
   * The request line: split on single spaces, a known method token first,
   * the URI second and an accepted version third; further words are ignored.
   */
  function ParseRequestLine(line: string): (r: Option<HttpRequest>)
    ensures r.Some? ==> StartsWith(line, RequestLine(r.value))
    ensures r.Some? ==> r.value.data.None? && ' ' !in r.value.uri && ' ' !in r.value.version
    ensures r.Some? ==> ValidateVersion(r.value.version).Some?
  {
    var words := Split(line, ' ');
    var verb := MethodFromToken(words[0]);
    if verb.None? || |words| < 3 || ValidateVersion(words[2]).None? then None
    else
      RequestLinePrefix(words);
      Some(HttpRequest(verb.value, words[1], words[2], None))
  }

  /**
   * The end of `HttpRequest::parse`, once the request line gave `request`
   * and the header scan gave `length`. A body is read only for a non-zero
   * length; a length beyond `isize::MAX` makes `Vec::with_capacity` panic,
   * a body that is not UTF-8 makes `unwrap` panic.
   */
  function WithBody(request: HttpRequest, length: Length, stream: seq<Byte>): (r: ParseOutcome)
    ensures r.Parsed? ==> r.request.(data := None) == request.(data := None)
    ensures length.Size? && 0 < length.n <= ISIZE_MAX && |stream| < length.n ==> r == ParseError
    ensures length.Size? && 0 < length.n <= ISIZE_MAX && length.n <= |stream| && !ValidUtf8(stream[..length.n])
      ==> r == Panicked
    ensures length.Size? && length.n > ISIZE_MAX ==> r == Panicked
    ensures length == BadLength ==> r == ParseError
    ensures length == LengthPanic ==> r == Panicked
  {
    match length
    case LengthPanic => Panicked
    case BadLength => ParseError
    case Size(size) =>
      if size == 0 then Parsed(request)
      else if size > ISIZE_MAX then Panicked
      else if |stream| < size then ParseError
      else if !ValidUtf8(stream[..size]) then Panicked
      else Parsed(request.(data := Some(stream[..size])))
  }

  /** `HttpRequest::parse` on the lines of the request text and the rest of the connection. */
  function ParseLines(lines: seq<string>, stream: seq<Byte>): (r: ParseOutcome)
    ensures lines == [] ==> r == ParseError
    ensures r.Parsed? ==> lines != [] && ParseRequestLine(lines[0]) == Some(r.request.(data := None))
  {
    if lines == [] then ParseError
    else match ParseRequestLine(lines[0])
      case None => ParseError
      case Some(request) => WithBody(request, ScanLength(lines[1..], 0), stream)
  }

  /** `HttpRequest::parse` on the request text. */
  function ParseRequest(text: string, stream: seq<Byte>): (r: ParseOutcome)
    ensures text == [] ==> r == ParseError
    ensures r.Parsed? ==> StartsWith(Lines(text)[0], RequestLine(r.request))
  {
    ParseLines(Lines(text), stream)
  }

  /** A body is what the Content-Length header announced: the next bytes of the connection, well-formed UTF-8. */
  lemma BodyAsAnnounced(request: HttpRequest, length: Length, stream: seq<Byte>)
    requires request.data.None?
    requires WithBody(request, length, stream).Parsed? && WithBody(request, length, stream).request.data.Some?
    ensures var body := WithBody(request, length, stream).request.data.value;
      && length == Size(|body|)
      && 0 < |body| <= |stream| && body == stream[..|body|] && ValidUtf8(body)
  {
  }

  /** `BodyAsAnnounced` for the whole request: the length is the one the header lines announce. */
  lemma ParsedBody(lines: seq<string>, stream: seq<Byte>)
    requires ParseLines(lines, stream).Parsed? && ParseLines(lines, stream).request.data.Some?
    ensures var body := ParseLines(lines, stream).request.data.value;
      && ScanLength(lines[1..], 0) == Size(|body|)
      && 0 < |body| <= |stream| && body == stream[..|body|] && ValidUtf8(body)
  {
    BodyAsAnnounced(ParseRequestLine(lines[0]).value, ScanLength(lines[1..], 0), stream);
  }

  /** Without a Content-Length header, or with a length of 0, nothing is read from the connection. */
  lemma ParsedWithoutBody(lines: seq<string>, stream: seq<Byte>)
    requires lines != [] && ParseRequestLine(lines[0]).Some?
    requires ScanLength(lines[1..], 0) == Size(0)
    ensures ParseLines(lines, stream) == Parsed(ParseRequestLine(lines[0]).value)
  {
  }

  /** The words joined back: the first two words, each with its space, then the join of the rest, which starts with the third word. */
  lemma JoinedWords(words: seq<string>)
    requires |words| >= 3
    ensures Join(words, ' ') == words[0] + [' '] + (words[1] + [' '] + Join(words[2..], ' '))
    ensures StartsWith(Join(words[2..], ' '), words[2])
  {
    JoinStartsWithFirst(words[2..], ' ');
    assert words[1..][1..] == words[2..];
  }

  /** Three or more words joined by spaces start with the first three words and their two spaces. */
  lemma RequestLinePrefix(words: seq<string>)
    requires |words| >= 3
    ensures StartsWith(Join(words, ' '), words[0] + " " + words[1] + " " + words[2])
  {
    var rest := Join(words[2..], ' ');
    JoinedWords(words);
    StartsWithAfter(words[1] + [' '], rest, words[2]);
    StartsWithAfter(words[0] + [' '], words[1] + [' '] + rest, words[1] + [' '] + words[2]);
    Regroup(words[0] + [' '], words[1], [' '], words[2]);
  }

  /**
   * Reading the body: `size` bytes, one `read_exact` at a time; a read past
   * the end of what the peer sends fails the parse.
   */
  method ReadBody(stream: seq<Byte>, size: nat) returns (body: Option<seq<Byte>>)
    ensures body == if size <= |stream| then Some(stream[..size]) else None
  {
    var v: seq<Byte> := [];
    var i := 0;
    while i < size
      invariant i <= size && i <= |stream|
      invariant v == stream[..i]
    {
      if i >= |stream| {
        return None;
      }
      v := v + [stream[i]];
      i := i + 1;
    }
    return Some(v);
  }

  /** The `for line in lines` loop over the header lines, with its early exits. */
  method ScanHeaders(lines: seq<string>) returns (r: Length)
    ensures r == ScanLength(lines, 0)
  {
    var size := 0;
    var i := 0;
    while i < |lines|
      invariant 0 <= i <= |lines|
      invariant ScanLength(lines, 0) == ScanLength(lines[i..], size)
    {
      assert lines[i..][1..] == lines[i + 1..];
      if IsLengthLine(lines[i]) {
        var length := LineLength(lines[i]);
        if !length.Size? {
          return length;
        }
        size := length.n;
      }
      i := i + 1;
    }
    return Size(size);
  }

  /** `HttpRequest::parse`, step by step as the source does it. */
  method Parse(text: string, stream: seq<Byte>) returns (r: ParseOutcome)
    ensures r == ParseRequest(text, stream)
  {
    var lines := Lines(text);
    if lines == [] {
      return ParseError;
    }
    var request := ParseRequestLine(lines[0]);
    if request.None? {
      return ParseError;
    }
    var length := ScanHeaders(lines[1..]);
    if length.LengthPanic? {
      return Panicked;
    } else if length.BadLength? {
      return ParseError;
    }
    var size := length.n;
    if size == 0 {
      return Parsed(request.value);
    }
    if size > ISIZE_MAX {
      return Panicked;
    }
    var body := ReadBody(stream, size);
    if body.None? {
      return ParseError;
    }
    if !ValidUtf8(body.value) {
      return Panicked;
    }
    return Parsed(request.value.(data := body));
  }

  /** A request line splits into exactly its method token, URI and version. */
  lemma RequestLineWords(request: HttpRequest)
    requires ' ' !in request.uri && ' ' !in request.version
    ensures Split(RequestLine(request), ' ') == [request.verb.Name(), request.uri, request.version]
  {
    var words := [request.verb.Name(), request.uri, request.version];
    assert words[1..][1..] == [request.version];
    assert Join(words[1..], ' ') == request.uri + [' '] + request.version;
    assert RequestLine(request) == Join(words, ' ');
    assert forall i :: 0 <= i < |words| ==> ' ' !in words[i];
    SplitJoin(words, ' ');
  }

  /** A request line written by `RequestLine` is parsed back to the request it was written from. */
  lemma RequestLineRoundTrip(request: HttpRequest)
    requires request.data.None?
    requires ' ' !in request.uri && ' ' !in request.version
    requires ValidateVersion(request.version).Some?
    ensures ParseRequestLine(RequestLine(request)) == Some(request)
  {
    RequestLineWords(request);
    MethodRoundTrip(request.verb);
  }

  /** Words after the version are ignored: whatever follows it after a space, the request line parses as if it were not there. */
  lemma ExtraWordsIgnored(request: HttpRequest, rest: string)
    requires request.data.None?
    requires ' ' !in request.uri && ' ' !in request.version
    requires ValidateVersion(request.version).Some?
    ensures ParseRequestLine(RequestLine(request) + " " + rest) == Some(request)
  {
    var words := ExtraWordSplit(request, rest);
    MethodRoundTrip(request.verb);
    ParseWords(RequestLine(request) + " " + rest, words, request.verb);
  }

  /** A request line followed by a space and more text splits into its three words, then the words of that text. */
  lemma ExtraWordSplit(request: HttpRequest, rest: string) returns (words: seq<string>)
    requires ' ' !in request.uri && ' ' !in request.version
    ensures words == [request.verb.Name(), request.uri, request.version] + Split(rest, ' ')
    ensures Split(RequestLine(request) + " " + rest, ' ') == words
  {
    var name, uri, version := request.verb.Name(), request.uri, request.version;
    var afterUri := version + [' '] + rest;
    var afterName := uri + [' '] + afterUri;
    assert RequestLine(request) + " " + rest == name + [' '] + afterName;
    var tail := Split(rest, ' ');
    SplitFirst(version, rest, ' ');
    SplitFirst(uri, afterUri, ' ');
    assert Split(afterName, ' ') == [uri] + ([version] + tail);
    SplitFirst(name, afterName, ' ');
    words := [name, uri, version] + tail;
    ConsThree(name, uri, version, tail);
  }

  /** A line whose words are a method token, a URI and an accepted version, and maybe more, parses to them. */
  lemma ParseWords(line: string, words: seq<string>, verb: Method)
    requires Split(line, ' ') == words && |words| >= 3
    requires MethodFromToken(words[0]) == Some(verb) && ValidateVersion(words[2]).Some?
    ensures ParseRequestLine(line) == Some(HttpRequest(verb, words[1], words[2], None))
  {
  }

  /** Header lines that never mention Content-Length leave the size as it was. */
  lemma {:induction false} ScanWithoutLength(lines: seq<string>, size: nat)
    requires forall i :: 0 <= i < |lines| ==> !IsLengthLine(lines[i])
    ensures ScanLength(lines, size) == Size(size)
    decreases |lines|
  {
    if lines != [] {
      assert forall i :: 0 <= i < |lines[1..]| ==> lines[1..][i] == lines[i + 1];
      ScanWithoutLength(lines[1..], size);
    }
  }

  /**
   * A request whose first line is `RequestLine` of a request without data,
   * followed by header lines none of which mentions Content-Length, is
   * parsed back to that request, whatever the connection holds.
   */
  lemma ParseRequestRoundTrip(request: HttpRequest, headers: string, stream: seq<Byte>)
    requires request.data.None?
    requires ' ' !in request.uri && '\n' !in request.uri
    requires ' ' !in request.version && '\n' !in request.version
    requires ValidateVersion(request.version).Some?
    requires forall i :: 0 <= i < |Lines(headers)| ==> !IsLengthLine(Lines(headers)[i])
    ensures ParseRequest(RequestLine(request) + "\r\n" + headers, stream) == Parsed(request)
  {
    var line := RequestLine(request);
    RequestLineIsOneLine(request);
    LinesCRLF(line, headers);
    RequestLineRoundTrip(request);
    ScanWithoutLength(Lines(headers), 0);
    var lines := [line] + Lines(headers);
    assert lines[1..] == Lines(headers);
    ParsedWithoutBody(lines, stream);
  }

  /** The header `format!("Content-Length: {}", n)` as a client writes it. */
  function LengthHeader(n: nat): (line: string)
    ensures '\n' !in line
  {
    DecimalHasNo(n, '\n');
    CONTENT_LENGTH + Decimal(n)
  }

  /** One Content-Length header followed by header lines that do not mention it gives its size. */
  lemma ScanOneLength(n: nat, lines: seq<string>)
    requires n <= USIZE_MAX
    requires forall i :: 0 <= i < |lines| ==> !IsLengthLine(lines[i])
    ensures ScanLength([LengthHeader(n)] + lines, 0) == Size(n)
  {
    LineLengthOfHeader(n);
    assert ([LengthHeader(n)] + lines)[1..] == lines;
    ScanWithoutLength(lines, n);
  }

  /** `parse` once the request line and the scan are known, and the body is there. */
  lemma ParseWithBody(lines: seq<string>, stream: seq<Byte>, n: nat)
    requires lines != [] && ParseRequestLine(lines[0]).Some?
    requires ScanLength(lines[1..], 0) == Size(n)
    requires 0 < n <= ISIZE_MAX && n <= |stream| && ValidUtf8(stream[..n])
    ensures ParseLines(lines, stream) == Parsed(ParseRequestLine(lines[0]).value.(data := Some(stream[..n])))
  {
    var request := ParseRequestLine(lines[0]).value;
    assert ParseLines(lines, stream) == WithBody(request, Size(n), stream);
    BodyRead(request, n, stream);
  }

  /** A positive length whose bytes are on the connection and are UTF-8 gives the request those bytes as its body. */
  lemma BodyRead(request: HttpRequest, n: nat, stream: seq<Byte>)
    requires 0 < n <= ISIZE_MAX && n <= |stream| && ValidUtf8(stream[..n])
    ensures WithBody(request, Size(n), stream) == Parsed(request.(data := Some(stream[..n])))
  {
  }

  /**
   * With one Content-Length header of n > 0 and a UTF-8 body of n bytes on
   * the connection, the request carries exactly that body, whatever the
   * peer sends after it.
   */
  lemma ParseRequestWithBody(request: HttpRequest, headers: string, body: seq<Byte>, more: seq<Byte>)
    requires 0 < |body| <= ISIZE_MAX && ValidUtf8(body)
    requires ' ' !in request.uri && '\n' !in request.uri
    requires ' ' !in request.version && '\n' !in request.version
    requires ValidateVersion(request.version).Some?
    requires forall i :: 0 <= i < |Lines(headers)| ==> !IsLengthLine(Lines(headers)[i])
    ensures ParseRequest(RequestLine(request) + "\r\n" + (LengthHeader(|body|) + "\r\n" + headers), body + more)
         == Parsed(request.(data := Some(body)))
  {
    var bare := request.(data := None);
    var line := RequestLine(request);
    assert line == RequestLine(bare);
    RequestLineIsOneLine(request);
    RequestLineRoundTrip(bare);
    var lines := LinesWithLength(line, |body|, headers);
    var stream := body + more;
    assert stream[..|body|] == body;
    ParseWithBody(lines, stream, |body|);
    assert ParseLines(lines, stream) == Parsed(bare.(data := Some(body)));
  }

  /**
   * A Content-Length of n > 0 with fewer than n bytes left on the connection
   * makes the parse fail, which the server answers with 400 Bad Request.
   */
  lemma ParseRequestShortBody(request: HttpRequest, headers: string, n: nat, stream: seq<Byte>)
    requires 0 < n <= ISIZE_MAX && |stream| < n
    requires ' ' !in request.uri && '\n' !in request.uri
    requires ' ' !in request.version && '\n' !in request.version
    requires ValidateVersion(request.version).Some?
    requires forall i :: 0 <= i < |Lines(headers)| ==> !IsLengthLine(Lines(headers)[i])
    ensures ParseRequest(RequestLine(request) + "\r\n" + (LengthHeader(n) + "\r\n" + headers), stream) == ParseError
  {
    var bare := request.(data := None);
    var line := RequestLine(request);
    assert line == RequestLine(bare);
    RequestLineIsOneLine(request);
    RequestLineRoundTrip(bare);
    var lines := LinesWithLength(line, n, headers);
    assert ParseLines(lines, stream) == WithBody(bare, Size(n), stream);
  }

  /** The lines of a request line, a Content-Length header and further header lines, and the size they announce. */
  lemma LinesWithLength(line: string, n: nat, headers: string) returns (lines: seq<string>)
    requires '\n' !in line && n <= USIZE_MAX
    requires forall i :: 0 <= i < |Lines(headers)| ==> !IsLengthLine(Lines(headers)[i])
    ensures lines == Lines(line + "\r\n" + (LengthHeader(n) + "\r\n" + headers))
    ensures lines != [] && lines[0] == line && ScanLength(lines[1..], 0) == Size(n)
  {
    var header := LengthHeader(n);
    LinesCRLF(header, headers);
    LinesCRLF(line, header + "\r\n" + headers);
    ScanOneLength(n, Lines(headers));
    lines := [line] + ([header] + Lines(headers));
    assert lines[1..] == [header] + Lines(headers);
  }

  // ---------------------------------------------------------------------
  // Handling

  /** The file system the server reads from, by request URI. */
  type Files = map<string, seq<Byte>>

  /** The three parts `HttpResponse::new` is given. */
  datatype Reply = Reply(status: ResponseCode, data: Option<seq<Byte>>, contentType: Option<string>)
  {
    /** `response()` would not unwrap a missing content type. */
    predicate WellFormed()
    {
      data.Some? ==> contentType.Some?
    }
  }

  /** `handle_get`: the file with its content type, or 404 Not Found without a body. */
  function HandleGet(uri: string, files: Files): (r: Reply)
    ensures r.WellFormed()
    ensures r.status == OK <==> uri in files
    ensures r.status == OK ==> r.data == Some(files[uri]) && r.contentType == Some(ContentType(uri))
    ensures r.status != OK ==> r.status == NotFound && r.data.None?
  {
    if uri in files then Reply(OK, Some(files[uri]), Some(ContentType(uri)))
    else Reply(NotFound, None, None)
  }

  /** `handle_post`: the data is only printed; the answer is always "OK" as text/plain. */
  function HandlePost(): (r: Reply)
    ensures r.WellFormed() && r.status == OK
    ensures r.data == Some(Bytes("OK")) && r.contentType == Some("text/plain")
  {
    Reply(OK, Some(Bytes("OK")), Some("text/plain"))
  }

  /** The dispatch in `handle_method`: GET and POST are served, every other method is 501. */
  function Dispatch(request: HttpRequest, files: Files): (r: Reply)
    ensures r.WellFormed()
    ensures r.status == NotImplemented <==> request.verb != Get && request.verb != Post
    ensures r.data.None? ==> r.status in {NotFound, NotImplemented}
  {
    match request.verb
    case Get => HandleGet(request.uri, files)
    case Post => HandlePost()
    case _ => Reply(NotImplemented, None, None)
  }

  /** A POST is answered the same way whatever its body and URI. */
  lemma PostIgnoresRequest(a: HttpRequest, b: HttpRequest, files: Files, other: Files)
    requires a.verb == Post && b.verb == Post
    ensures Dispatch(a, files) == Dispatch(b, other)
  {
  }

  /**
   * `handle_method`: logs the request line on the connection's log, then
   * builds the response for the method.
   */
  method HandleMethod(request: HttpRequest, logs: Logs, files: Files) returns (response: Response.HttpResponse)
    modifies logs
    ensures logs.content == Logged(old(logs.content), RequestLine(request))
    ensures fresh(response)
    ensures Reply(response.status, response.data, response.contentType) == Dispatch(request, files)
  {
    logs.Log(RequestLine(request));
    var reply := Dispatch(request, files);
    response := new Response.HttpResponse.New(reply.status, reply.data, reply.contentType);
  }
}
