# anduin, modelled in Dafny

anduin is a small multi-threaded HTTP/1.1 file server. This project models
what one worker thread does with one accepted TCP connection, and the
command-line parsing that starts the server:

- **Framer** (`framer.dfy`): the byte-at-a-time reader at the top of
  `HttpConnection::handle_connection`. It stores the bytes in a 1024-byte
  buffer. It stops when its five-state machine reaches STATE_4 (after
  "\r\n\r\n"), when the buffer is full, or when a read fails. `ReadHeader`
  keeps the source's loop over an `array`.
- **Request** (`request.dfy`): `HttpRequest::parse` and what it relies on:
  - the request line, split on single spaces;
  - the method table;
  - `validate_version`;
  - the `Content-Length` scan over the remaining lines;
  - reading the body byte by byte from the rest of the connection.

  It also covers `handle_method`, `handle_get`, `handle_post` and
  `get_content_type`. `Parse`, `ScanHeaders` and `ReadBody` are the
  source's loops, each proved equal to a function.
- **Status, Defaults, Response** (`status.dfy`, `defaults.dfy`,
  `response.dfy`):
  - `ResponseCode::get`, whose reason phrases keep their trailing space;
  - the default HTML page;
  - `HttpResponse`, a class whose `response()` stores text/html as the
    content type when there is no data and returns the serialised message.
- **Logging** (`logs.dfy`): `Logs`, the one log line a connection builds.
  `log` inserts " -- " between entries; `append` puts the peer's address in
  front.
- **Server** (`server.dfy`): `HttpConnection::send_response`, `send_logs`
  and the whole of `handle_connection`:
  - the function `Serve` maps the bytes a peer sends to the bytes written
    back and the printed log line;
  - the method `HandleConnection` is proved equal to it;
  - a panic of the connection's thread is the outcome `Crashed`.
- **CmdLine** (`cmdline.dfy`): `CmdLineOptions::parse` over the argument
  list, with its `skip` flag, as a loop proved equal to a recursive
  function.

**Representations**
- Text is a sequence of `char`, one per UTF-8 byte. Every text operation of
  the source (`lines`, `split`, `contains`, `line[16..]`, `strip_prefix`)
  indexes by byte, so this representation is exact.
- The peer is the sequence of bytes it sends. A read fails exactly when that
  sequence is exhausted.
- The file system is a map from request URI to file contents.
- `usize` and `isize` are the 64-bit types.
- `str::lines` is the current Rust one: a line ends at '\n', and one '\r'
  right before that '\n' is removed. A final '\r' with no '\n' after it
  stays in the last line (older Rust releases removed it too). This matters
  when the 1024-byte header buffer fills up and its last byte is '\r': the
  last header line then ends in '\r'.

**Behaviour of the code that the model keeps, though HTTP/1.1 suggests otherwise:**
- The version must start with exactly "HTTP" or "http", not any mix of
  case: `Request.VersionScheme`.
- The request line needs at least three words. Words after the third are
  ignored: `Request.ExtraWordsIgnored`.
- A body that is not UTF-8 panics the thread (`String::from_utf8(..).unwrap()`):
  `parse` returns no error, and no response is written.
- A body shorter than its declared length makes `parse` return an error,
  which is answered with 400 Bad Request: `Server.ServeShortBody`.
- The framer does not recognise every "\r\n\r\n". A '\r' in state SawCR or
  SawCRLFCR resets the machine to Normal, so "\r\r\n\r\n" never reaches
  Done: `Framer.MissesBlankLineAfterCR`.
- A header line counts as a Content-Length line wherever
  "Content-Length: " occurs in it. The number is always read from byte 16
  of the line, so "X-Content-Length: 5" fails the parse:
  `Request.OtherHeaderFailsParse`.

## Model

| member | source | states |
|---|---|---|
| Framer.Step | src/httpserver.rs:163-181 | a transition either resets the count of matched "\r\n\r\n" bytes to 0 or extends it by one, and a non-zero count means the byte just read is the next byte of "\r\n\r\n" |
| Framer.StateAfter | src/httpserver.rs:163-181 | the machine never claims more matched "\r\n\r\n" bytes than it has read |
| Framer.StateAfterSound | src/httpserver.rs:163-181 | the machine's invariant: in a state standing for k matched bytes, the last k bytes read are the first k bytes of "\r\n\r\n" |
| Framer.DoneAfterBlankLine | src/httpserver.rs:183-185 | the machine reaches STATE_4 only right after the input ends with "\r\n\r\n" |
| Framer.DoneExactly | src/httpserver.rs:163-181 | STATE_4 is reached exactly when the input ends with "\r\n\r\n" and the machine was in STATE_0 just before those four bytes (both directions) |
| Framer.DoneFromNormal | src/httpserver.rs:163-181 | STATE_4 is only reached from STATE_0 through the three intermediate states on the last four bytes |
| Framer.NormalToDone | src/httpserver.rs:163-181 | from STATE_0, "\r\n\r\n" drives the machine to STATE_4 |
| Framer.CompleteAfterOrdinaryByte | src/httpserver.rs:163-185 | a header whose last byte before "\r\n\r\n" is not CR or LF (or an empty one) completes the machine |
| Framer.MissesBlankLineAfterCR | src/httpserver.rs:163-170 | "\r\r\n\r\n" contains "\r\n\r\n" yet leaves the machine in SawCRLF, not Done |
| Framer.FrameFrom | src/httpserver.rs:151-188 | from k stored bytes the loop stops within the buffer and the input, and stops either at Done or at the buffer or input limit |
| Framer.FrameFromStopsAtFirstDone | src/httpserver.rs:183-185 | the loop never passes a position at which the machine is Done |
| Framer.FrameLength | src/httpserver.rs:151-188 | the framer consumes at most 1024 bytes and never more than the peer sent |
| Framer.FrameLengthBounds | src/httpserver.rs:151-188 | at most 1024 bytes are consumed, never more than were sent; the loop ends only at the first Done, a full buffer or a failed read |
| Framer.FrameFromReachesDone | src/httpserver.rs:151-188 | from any position before the first Done the loop runs on to exactly that Done |
| Framer.FrameLengthAtFirstDone | src/httpserver.rs:151-188 | the first Done within the buffer is exactly where framing stops |
| Framer.FrameHeaderBlock | src/httpserver.rs:151-188 | a header block ending in its first "\r\n\r\n", within 1024 bytes, is framed exactly, whatever the peer sends after it |
| Framer.Buffer | src/httpserver.rs:136-161 | the buffer is 1024 bytes: the consumed bytes at their indices, then the zeros it was created with |
| Framer.BufferNext | src/httpserver.rs:161 | storing the next byte at `data[idx]` extends the stored prefix by that byte |
| Framer.ReadHeader | src/httpserver.rs:136-188 | the framing loop over the array consumes exactly `FrameLength(input)` bytes and leaves the buffer holding them followed by zeros |
| Logging.Logged | src/httpserver.rs:36-41 | `log` lengthens the content by the entry's length, plus the four characters of " -- " exactly when there was content already |
| Logging.Prepended | src/httpserver.rs:47-50 | `append` lengthens the content by the entry's length plus the four characters of " -- " |
| Logging.LogAllJoins | src/httpserver.rs:36-41 | logging non-empty entries into empty logs gives the entries joined by " -- ", with no separator before the first |
| Logging.EmptyFirstEntry | src/httpserver.rs:36-41 | an empty first entry leaves no trace: the next entry gets no separator in front |
| Logging.Logs.New | src/httpserver.rs:28-30 | new logs are empty |
| Logging.Logs.Log | src/httpserver.rs:36-41 | the content gains " -- " only if it was non-empty, then the entry |
| Logging.Logs.Append | src/httpserver.rs:47-50 | two insertions at the front leave the entry, " -- ", then the old content |
| Request.Method.Name | src/httprequest.rs:53-66 | each method's token has at least three characters and no space or line break |
| Request.MethodFromToken | src/httprequest.rs:38-50 | an accepted token is exactly the token of the method it gives |
| Request.MethodRoundTrip | src/httprequest.rs:38-66 | every method's token is read back as that method |
| Request.MethodTokenExact | src/httprequest.rs:38-50 | a token is accepted if and only if it is the token of some method |
| Request.MethodNameInjective | src/httprequest.rs:53-66 | no two methods share a token |
| Request.MethodRejects | src/httprequest.rs:48 | lower-case "get", an unknown "PATCH" and the empty token are rejected |
| Request.VersionNumbers | src/httprequest.rs:138-144 | what is left after stripping "HTTP" (or else "http") and "/" is what follows "HTTP/" or "http/" |
| Request.ValidateVersion | src/httprequest.rs:137-152 | an accepted version is returned unchanged |
| Request.AcceptedVersionShape | src/httprequest.rs:137-152 | an accepted version is "HTTP/" or "http/" followed by numbers whose first two '.'-pieces parse as `u8` |
| Request.DecimalNumbersValid | src/httprequest.rs:146-149 | "a.b" with both numbers within `u8` passes the numbers check |
| Request.VersionNumbersOf | src/httprequest.rs:138-144 | for both spellings of the scheme, the numbers after "/" are what remains |
| Request.VersionAccepted | src/httprequest.rs:137-152 | every "HTTP/a.b" or "http/a.b" with `u8` numbers is accepted as it is |
| Request.VersionNeedsMinor | src/httprequest.rs:149 | a version with one number and no '.' is rejected |
| Request.VersionMajorTooLarge | src/httprequest.rs:148 | a major number beyond 255 is rejected |
| Request.UnknownScheme | src/httprequest.rs:138-142 | a version starting with neither "HTTP" nor "http" is rejected |
| Request.SchemeWithoutSlash | src/httprequest.rs:144 | "HTTP" not followed by "/" is rejected |
| Request.VersionScheme | src/httprequest.rs:138-144 | "HTTPS/1.1" and "Http/1.1" are rejected |
| Request.LastNormal | src/httprequest.rs:232-233 | the component found is non-empty, not ".", and has no '/' |
| Request.FileName | src/httprequest.rs:232-233 | a file name is a non-empty component other than "." and "..", without '/' |
| Request.Extension | src/httprequest.rs:233-237 | an extension contains neither '.' nor '/' |
| Request.MimeType | src/httprequest.rs:238-260 | a known extension has two to four characters and maps to a "type/subtype" other than application/octet-stream |
| Request.ContentType | src/httprequest.rs:231-262 | no extension, or one outside the table, gives application/octet-stream; a known extension gives its table entry |
| Request.FileNameOf | src/httprequest.rs:232-233 | the file name of "dir/name" is "name" |
| Request.LastDotOf | src/httprequest.rs:233-237 | the last '.' of "stem.ext" is the one after the stem |
| Request.ContentTypeOfFile | src/httprequest.rs:231-262 | "dir/stem.ext" has the table's type for "ext", or application/octet-stream when "ext" is not in the table |
| Request.HiddenFileHasNoType | src/httprequest.rs:233-235 | a file whose only '.' is its first character has no extension, so it is application/octet-stream |
| Request.ParentDirHasNoType | src/httprequest.rs:233-235 | a path ending in ".." has no extension |
| Request.RootHasNoType | src/httprequest.rs:233-235 | "/" has no extension |
| Request.LineLength | src/httprequest.rs:108 | a parsed length fits `usize`; the slice at byte 16 panics exactly when byte 16 is not a character boundary |
| Request.LineLengthOfHeader | src/httprequest.rs:107-108 | "Content-Length: n" is a length line and gives n |
| Request.LineLengthMisreadsOtherHeader | src/httprequest.rs:107-108 | "X-Content-Length: 5" counts as a length line but is read from the wrong offset and fails |
| Request.ScanLength | src/httprequest.rs:104-110 | a size other than the starting one is the value some Content-Length line gives, and fits `usize` |
| Request.ParsedLengthsValid | src/httprequest.rs:104-110 | a request parses only if every Content-Length line after the request line gives a number |
| Request.OtherHeaderFailsParse | src/httprequest.rs:104-110 | a request whose header is "X-Content-Length: 5" fails to parse, whatever its request line |
| Request.ScanLengthSucceeds | src/httprequest.rs:106-110 | the scan succeeds if and only if every Content-Length line gives a number |
| Request.ScanLengthLastWins | src/httprequest.rs:106-110 | a successful scan gives the starting size when no line mentions Content-Length, and otherwise the size of the last such line |
| Request.ScanWithoutLength | src/httprequest.rs:104-110 | lines without Content-Length leave the size as it was |
| Request.ScanOneLength | src/httprequest.rs:104-110 | one Content-Length header followed by lines without one gives its size |
| Request.ParseRequestLine | src/httprequest.rs:89-101 | an accepted line starts with the method token, URI and version joined by single spaces; the URI and the version have no space and the version is accepted |
| Request.ExtraWordsIgnored | src/httprequest.rs:89-101 | words after the version are ignored: a request line followed by a space and any text parses to the same request |
| Request.WithBody | src/httprequest.rs:112-131 | reading the body changes only the request's data; a positive length within `isize` with fewer bytes left on the connection is an error; a body that is not UTF-8 panics; a length beyond `isize::MAX` panics; a Content-Length value that does not parse is an error, and a slice inside a character panics |
| Request.ParseLines | src/httprequest.rs:84-133 | no lines is an error; a parsed request without its data is what its first line gives |
| Request.ParseRequest | src/httprequest.rs:84-133 | empty text is an error; a parsed request's line begins the first line of the text |
| Request.BodyAsAnnounced | src/httprequest.rs:112-123 | a body read after the request line is a non-empty prefix of the rest of the connection, valid UTF-8, whose length is the announced one |
| Request.ParsedBody | src/httprequest.rs:104-123 | a parsed body is the next bytes of the connection, of the length the header lines announce, and valid UTF-8 |
| Request.ParsedWithoutBody | src/httprequest.rs:112 | with a length of 0 nothing is read and the request line alone is the result |
| Request.RequestLinePrefix | src/httprequest.rs:89-101 | three or more words joined by spaces start with the first three words and their two spaces |
| Request.ReadBody | src/httprequest.rs:113-119 | the loop returns the first `size` bytes of the connection, or fails when fewer were sent |
| Request.ScanHeaders | src/httprequest.rs:104-110 | the header loop with its early exit gives the same result as the scan |
| Request.Parse | src/httprequest.rs:84-133 | `parse`, step by step, gives exactly `ParseRequest` |
| Request.RequestLineWords | src/httprequest.rs:89-91 | a request line splits into exactly its method token, URI and version |
| Request.RequestLineRoundTrip | src/httprequest.rs:89-101 | a request line written from a request parses back to that request |
| Request.ParseRequestRoundTrip | src/httprequest.rs:84-133 | a request line followed by header lines without Content-Length parses back to its request, whatever the connection holds |
| Request.ParseWithBody | src/httprequest.rs:112-131 | with a positive, announced length whose bytes are present and valid UTF-8, the request carries those bytes |
| Request.ParseRequestShortBody | src/httprequest.rs:104-119 | a request with one Content-Length header of n > 0 and fewer than n bytes after it fails to parse |
| Request.ParseRequestWithBody | src/httprequest.rs:84-133 | a request with one Content-Length header of n > 0 and n valid UTF-8 bytes after it carries exactly those bytes, whatever follows |
| Request.HandleGet | src/httprequest.rs:220-229 | 200 with the file and its content type exactly when the file exists, else 404 without body |
| Request.HandlePost | src/httprequest.rs:207-218 | always 200 with body "OK" as text/plain |
| Request.Dispatch | src/httprequest.rs:157-164 | 501 exactly for methods other than GET and POST; a reply without data is 404 or 501; data always comes with a content type |
| Request.PostIgnoresRequest | src/httprequest.rs:207-218 | every POST is answered the same, whatever its URI, body or the files |
| Request.HandleMethod | src/httprequest.rs:154-165 | the request line is logged, then the response built is the dispatch's reply |
| Status.ResponseCode.Code | src/httpresponse.rs:48-92 | every code lies between 100 and 505 |
| Status.ResponseCode.Phrase | src/httpresponse.rs:48-92 | a reason phrase is non-empty and neither starts nor ends with a space (`get` adds the trailing one) |
| Status.ResponseCode.Get | src/httpresponse.rs:48-92 | the code lies between 100 and 505 and the reason phrase is non-empty and ends in a space |
| Status.FromCode | src/httpresponse.rs:48-92 | only codes from 100 to 505 name a status |
| Status.FromCodeInverse | src/httpresponse.rs:48-92 | a code that names a status is that status's code |
| Status.CodeIdentifiesStatus | src/httpresponse.rs:48-92 | every status is recovered from its code alone |
| Status.CodesDistinct | src/httpresponse.rs:48-92 | two different statuses have different codes |
| Defaults.DefaultPageFrame | src/defaults.rs:8-14 | the page begins with "\n<html>" and ends with "</html>" |
| Defaults.DefaultPageHeading | src/defaults.rs:12 | the `<h1>` line holds the code in decimal, then a space and the reason phrase |
| Defaults.DefaultPage | src/defaults.rs:8-14 | the page is 81 characters of template plus the code's digits and the reason phrase |
| Defaults.DefaultMessage | src/defaults.rs:6-15 | a status's page is 84 bytes plus the length of its reason phrase |
| Defaults.ReasonInPage | src/defaults.rs:12 | every part of the reason phrase occurs in the page right after the code and a space |
| Defaults.NotFoundStatus | src/httpresponse.rs:71 | NotFound is 404, written "404", with the reason "Not Found " |
| Defaults.NotFoundPage | src/defaults.rs:6-15 | the 404 page shows "404" and then "Not Found" in its heading |
| Response.Wire | src/httpresponse.rs:130-138 | the serialised response ends with its body, after a non-empty head |
| Response.MessageLayout | src/httpresponse.rs:130-138 | the message is the head followed by the body verbatim; the head starts with the status line and the Content-Type line |
| Response.DeclaredLengthIsBodyLength | src/httpresponse.rs:130-136 | the last header, Content-Length, read back as `usize`, is exactly the number of bytes after the blank line |
| Response.DefaultBodyWithoutData | src/httpresponse.rs:122-126 | without data the output ignores the stored content type and ends with the status's default page |
| Response.WireIdempotent | src/httpresponse.rs:115-139 | serialising again after the first call's only state change gives the same bytes |
| Response.HttpResponse.New | src/httpresponse.rs:105-112 | the three parts are stored unchanged |
| Response.HttpResponse.Response | src/httpresponse.rs:115-139 | returns the serialised message; text/html becomes the content type exactly when there is no data |
| Response.ResponseTwice | src/httpresponse.rs:115-139 | two calls to `response()` on one response give byte-identical output |
| Server.StatusEntry | src/httpserver.rs:216-218 | the status entry starts with the code in decimal and ends with the reason's trailing space |
| Server.Serve | src/httpserver.rs:63-208 | every line printed for a served connection starts with the peer's address and " -- " |
| Server.HeaderBuffer | src/httpserver.rs:136-190 | the text handed to the parser is always the full 1024-byte buffer |
| Server.ReplyTo | src/httpserver.rs:194-197 | the reply to any parse result never asks `response()` to unwrap a missing content type |
| Server.Delivered | src/httpserver.rs:205-207 | delivering a reply always writes a response and completes a log line |
| Server.Answer | src/httpserver.rs:194-207 | a request that parsed or failed to parse is always answered |
| Server.HttpConnection.New | src/httpserver.rs:199-205 | a connection starts with the given logs and nothing written |
| Server.HttpConnection.SendResponse | src/httpserver.rs:214-224 | logs "code reason" then writes the serialised response |
| Server.HttpConnection.SendLogs | src/httpserver.rs:226-236 | the peer's address and " -- " go in front of the log line |
| Server.MakeResponse | src/httpserver.rs:192-197 | the logs hold the request line when the request parsed (empty otherwise), and the response is the handled request's or 400 Bad Request |
| Server.Deliver | src/httpserver.rs:199-207 | sending the response then the logs writes the serialised reply and prints address, old entries and status |
| Server.Respond | src/httpserver.rs:192-207 | everything after parsing gives exactly `Answer` |
| Server.HandleConnection | src/httpserver.rs:63-208 | the whole connection, from framing to the printed line, gives exactly `Serve` |
| Server.MalformedRequestAnswered | src/httpserver.rs:194-197 | a request that does not parse gets 400 Bad Request with its default page, and the line logged is "address -- 400 Bad Request " |
| Server.BadRequestEntry | src/httpserver.rs:218 | the status entry for 400 is "400 Bad Request " |
| Server.ServedLog | src/httpserver.rs:192-236 | the printed line is the address, then the request line if the request parsed, then the status, joined by " -- " |
| Server.EntriesLogged | src/httprequest.rs:156 | the status entry follows the request line with one separator, or stands alone when the request did not parse |
| Server.InvalidUtf8Crashes | src/httpserver.rs:190 | a header that is not UTF-8 (a lone 0xFF) panics the thread before anything is written |
| Server.NoEarlierBlankLine | src/httpserver.rs:163-185 | a header in which every '\r' has a byte other than '\r' two places on has no blank line before its final one |
| Server.FrameHeader | src/httpserver.rs:136-188 | ASCII header lines ending in an ordinary byte and a blank line are framed exactly and the buffer holds them then zeros |
| Server.FrameRequestLine | src/httpserver.rs:136-188 | a plain request line and a blank line are framed exactly and the buffer holds them then zeros |
| Server.PaddingHasNoLength | src/httprequest.rs:106-110 | the zero padding of the buffer, read as text, has no Content-Length line |
| Server.AsciiBufferText | src/httpserver.rs:190 | a buffer of ASCII text then zeros is valid UTF-8 and reads as the text and the padding |
| Server.RequestBufferText | src/httpserver.rs:190 | the buffer of a plain request line is valid UTF-8 and reads as that line, an empty line and the padding |
| Server.OkEntry | src/httpserver.rs:218 | the status entry for 200 is "200 OK " |
| Server.PlainFields | src/httprequest.rs:156 | the URI and version of a request whose logged line is plain text have no line breaks |
| Server.HeadersAfterBlankLine | src/httprequest.rs:106-110 | the text after the request line has no Content-Length line |
| Server.PlainRequestParses | src/httpserver.rs:136-197 | a plain request line and a blank line are framed exactly, decode as UTF-8 and parse back to the request |
| Server.AnswerGetFile | src/httprequest.rs:220-229 | a GET for an existing file is answered with the file and its type and logged with "200 OK " |
| Server.ServeGetFile | src/httpserver.rs:63-208 | a client sending a plain GET line and a blank line for an existing file receives it and the server prints "address -- request line -- 200 OK ", whatever follows the header |
| Server.LengthHeaderLines | src/httpserver.rs:163-185 | a plain request line, "\r\n" and a Content-Length header are ASCII, end in an ordinary byte and have no '\r' that could start an early blank line |
| Server.ShortBodyFails | src/httpserver.rs:136-197 | a request line and a Content-Length header of n > 0 followed by fewer than n bytes are framed exactly, decode as UTF-8 and fail to parse |
| Server.ServeShortBody | src/httpserver.rs:63-208 | such a request is answered with 400 Bad Request and its default page, and the line printed is "address -- 400 Bad Request " |
| CmdLine.Default | src/cmdline.rs:23-31 | the default port fits `u32` (that parsing nothing gives host 0.0.0.0, port 8000 and the sandbox on is `CmdLine.NoArguments`) |
| CmdLine.ParseFrom | src/cmdline.rs:42-91 | a parsed port fits `u32`; the only errors are the three messages of the source; the recursion never panics |
| CmdLine.ParseArgs | src/cmdline.rs:36-95 | parsing panics exactly when even the program name is missing |
| CmdLine.Parse | src/cmdline.rs:36-95 | the loop with its skip flag gives exactly `ParseArgs` |
| CmdLine.NoArguments | src/cmdline.rs:23-31 | with no arguments the defaults are used: host 0.0.0.0, port 8000, sandbox on |
| CmdLine.ParseAppend | src/cmdline.rs:42-91 | arguments that parse leave a longer parse where they end, with the options they produced |
| CmdLine.LastHostWins | src/cmdline.rs:51-60 | a later -i or --host overrides the host |
| CmdLine.LastPortWins | src/cmdline.rs:63-77 | a later -p or --port with a `u32` in decimal sets the port |
| CmdLine.PortOutOfRange | src/cmdline.rs:67-71 | any port value that `parse::<u32>` rejects is the error "Invalid Port" |
| CmdLine.PortBeyondU32 | src/cmdline.rs:67-71 | a port beyond `u32::MAX`, written in decimal, is the error "Invalid Port" |
| CmdLine.NegativePort | src/cmdline.rs:67-71 | the port "-1" is the error "Invalid Port" |
| CmdLine.MissingValue | src/cmdline.rs:51-77 | an option missing its value at the end is "No host provided" or "No port provided" |
| CmdLine.HelpWins | src/cmdline.rs:83-87 | help ends the parse, whatever follows it |
| CmdLine.NoSandbox | src/cmdline.rs:79-81 | --no-sandbox turns the sandbox off and changes nothing else |
| CmdLine.UnknownIgnored | src/cmdline.rs:89 | an unrecognised argument changes nothing |
| Text.BytesOfChars | src/httpserver.rs:190 | reading bytes as text and back gives the bytes |
| Text.CharsOfBytes | src/httpserver.rs:190 | text of characters below 256 survives the trip to bytes and back |
| Text.DecimalValue | src/httpresponse.rs:130-134 | the digits `format!` writes for n have the value n |
| Text.ParseDecimal | src/httprequest.rs:108 | parsing what `format!` writes gives the number back |
| Text.ParseUnsigned | src/httprequest.rs:148-149 | a parsed number fits the type's maximum and comes from a digit or '+' first |
| Text.Split | src/httprequest.rs:89-91 | at least one piece, none containing the separator, joined back to the text |
| Text.SplitJoin | src/httprequest.rs:146 | splitting text made of separator-free pieces gives those pieces back |
| Text.StripPrefix | src/httprequest.rs:138-144 | a prefix is stripped exactly when present, and what is left completes the text |
| Text.ContainsAt | src/httprequest.rs:107 | `contains` holds exactly when the pattern occurs at some offset |
| Text.Lines | src/httprequest.rs:88 | no lines exactly for empty text, and no line contains '\n' |
| Text.LinesCRLF | src/httprequest.rs:88 | the first line of "line\r\nrest" is "line", then come the lines of "rest" |
| Text.CharWidth | src/httpserver.rs:190 | a character takes at most four bytes, and one byte exactly when that byte is ASCII |
| Text.AsciiIsUtf8 | src/httpserver.rs:190 | ASCII bytes are valid UTF-8 |

## Left out

- The thread pool (`threadpool.rs`), `main.rs`, the accept loop and the sandbox (chroot, setuid) are not part of this model.
- Console output is not modelled. This covers every `println!`: the printed log line is the model's `log`, the help text, the "Invalid arg passed" message and the POST body echo.
- `process::exit(0)` after printing help is the outcome `Help`.
- Failures to obtain the TCP stream or `peer_addr`, and the peer's address format, are not modelled. The address is a parameter.
- Writing the response is not modelled. `stream.write` may write only part of the buffer, or fail; the model records the whole response as written.
- Allocation failure is not modelled. For an announced length up to `isize::MAX` that the allocator cannot provide (2^40 bytes, say), `Vec::with_capacity` in `parse` fails and the whole process aborts, every connection with it. The model instead takes the allocation to succeed: it reads the body when enough bytes follow, and answers 400 Bad Request when fewer do. A length beyond `isize::MAX` panics the connection's thread in both.
- Directories are not modelled. Files are a map from URI to contents, so a directory is not resolved to its `index.html`.
- I/O errors other than a missing file are not modelled; `read_uri_path` is a map lookup.
- `_unhex` is never called by the server and is not modelled.
- `Logs::none` and `Logs::as_str` are not modelled. The connection's logs are never `None`, so `HttpConnection::log` always reaches `Logs::log`.
- The `u16` code, the `u32` port and `usize`/`isize` are integers with their 64-bit bounds stated where the source relies on them; nothing wraps around.
- Request.ParseRequest: a body is only checked for well-formed UTF-8, not turned into a `String`. The request keeps the bytes.
