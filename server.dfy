/**
 The per-connection path of src/server.cpp: handle_client receives at most
 1023 bytes into a 1024-character buffer of NULs, and parse_request parses
 the whole buffer, dispatches it and serialises the response. Nothing
 catches an exception thrown by the parser or by std::stoi: it leaves
 handle_client, which runs as the function of a detached std::thread, so
 std::terminate ends the whole server process; send and close are never
 reached. The model returns such an outcome as a ServeError, which stands
 for that termination, not for a refusal sent to the client. A connection
 that sends nothing takes this path (EmptyReceive). The one exception is
 Malformed(EmptyTarget): a request line with no target reaches back() of an
 empty string in split, which is undefined behaviour rather than a throw.
 */
module Server {
  import opened Text
  import opened OrderedMap
  import opened Request
  import opened Response
  import opened Context
  import opened Handlers

  /** The exception that escapes parse_request: the server process terminates.
      Malformed(EmptyTarget) stands instead for the undefined behaviour of split on an
      empty target, not for termination. */
  datatype ServeError = Malformed(ParseError) | HandlerFailed(HandlerError)

  /** The size handle_client gives its buffer; recv may fill one less. */
  const BufferSize: nat := 1024

  /** `n` NUL characters. */
  function Padding(n: nat): (r: string)
    ensures |r| == n && forall i :: 0 <= i < n ==> r[i] == '\0'
  {
    seq(n, _ => '\0')
  }

  /** The string parse_request receives: the bytes read, then NULs up to the buffer size. */
  function ReceiveBuffer(data: string): string
    requires |data| < BufferSize
  {
    data + Padding(BufferSize - |data|)
  }

  /** The buffer is always full size and starts with the bytes read, and the padding holds no
      line break. */
  lemma ReceiveBufferLayout(data: string)
    requires |data| < BufferSize
    ensures var b := ReceiveBuffer(data);
      && |b| == BufferSize && b[..|data|] == data
      && forall i :: |data| <= i < BufferSize ==> b[i] == '\0' && b[i] !in LineBreaks
  {
    var b := ReceiveBuffer(data);
    assert b[..|data|] == data;
  }

  /** The reply to a parsed request: dispatch, then str(). */
  function Respond(req: HttpRequest, ctx: ServerContext, p: Platform, versionText: HttpVersion -> string,
                   compress: string -> string): Result<string, HandlerError>
    requires WellFormed(req.status)
  {
    match Dispatch(req, ctx, p)
    case Failure(e) => Failure(e)
    case Success(v) =>
      var prepared := Prepared(v, compress);
      Success(Serialize(prepared, versionText(prepared.version)))
  }

  /** parse_request as a value: parse, then respond. */
  function Serve(raw: string, ctx: ServerContext, p: Platform, versionText: HttpVersion -> string,
                 compress: string -> string): Result<string, ServeError>
  {
    match Parse(raw)
    case Failure(e) => Failure(Malformed(e))
    case Success(req) =>
      ParsedWellFormed(raw);
      match Respond(req, ctx, p, versionText, compress)
      case Failure(e) => Failure(HandlerFailed(e))
      case Success(text) => Success(text)
  }

  /** parse_request. */
  method ParseAndRespond(raw: string, ctx: ServerContext, p: Platform, versionText: HttpVersion -> string,
                         compress: string -> string) returns (r: Result<string, ServeError>)
    ensures r == Serve(raw, ctx, p, versionText, compress)
  {
    var req := ParseRequest(raw);
    if req.Failure? {
      return Failure(Malformed(req.error));
    }
    ParsedWellFormed(raw);
    var response := HandleHttpRequest(req.value, ctx, p);
    if response.Failure? {
      return Failure(HandlerFailed(response.error));
    }
    var text := response.value.Str(versionText, compress);
    return Success(text);
  }

  /** handle_client: no reply when recv fails (None), else the outcome for the padded buffer,
      where a ServeError means the exception escapes and the server terminates (or, for
      Malformed(EmptyTarget), the undefined behaviour of split on an empty target). */
  method HandleClient(received: Option<string>, ctx: ServerContext, p: Platform, versionText: HttpVersion -> string,
                      compress: string -> string) returns (r: Option<Result<string, ServeError>>)
    requires received.Some? ==> |received.value| < BufferSize
    ensures received.None? ==> r.None?
    ensures received.Some? ==> r == Some(Serve(ReceiveBuffer(received.value), ctx, p, versionText, compress))
  {
    if received.None? {
      return None;
    }
    var request := received.value + Padding(BufferSize - |received.value|);
    var response := ParseAndRespond(request, ctx, p, versionText, compress);
    return Some(response);
  }

  /** A connection that sends nothing leaves a buffer of NULs with no line break: the parser
      throws, which terminates the server, and the empty-request path of the parser is never
      taken from the network. */
  lemma EmptyReceive(ctx: ServerContext, p: Platform, versionText: HttpVersion -> string, compress: string -> string)
    ensures ReceiveBuffer("") != []
    ensures Serve(ReceiveBuffer(""), ctx, p, versionText, compress) == Failure(Malformed(MissingLineTerminator))
  {
    ReceiveBufferLayout("");
    var b := ReceiveBuffer("");
    assert FirstOf(b, LineBreaks).None?;
  }

  /** The body of a request read from the network is what follows the last line break of the
      bytes read, followed by all the NUL padding of the buffer. */
  lemma ReceivedBody(data: string)
    requires |data| < BufferSize && Parse(ReceiveBuffer(data)).Success?
    ensures LastOf(data, LineBreaks).Some?
    ensures Parse(ReceiveBuffer(data)).value.body
         == data[LastOf(data, LineBreaks).value + 1..] + Padding(BufferSize - |data|)
  {
    ParsedBody(ReceiveBuffer(data));
    BufferTail(data);
  }

  /** The text after the last line break of the buffer is the text after the last line break
      of the bytes read, followed by the padding. */
  lemma BufferTail(data: string)
    requires |data| < BufferSize && LastOf(ReceiveBuffer(data), LineBreaks).Some?
    ensures LastOf(data, LineBreaks).Some?
    ensures var b := ReceiveBuffer(data);
      b[LastOf(b, LineBreaks).value + 1..] == data[LastOf(data, LineBreaks).value + 1..] + Padding(BufferSize - |data|)
  {
    var pad := Padding(BufferSize - |data|);
    var b := ReceiveBuffer(data);
    assert b == data + pad;
    NoBreakInPadding(pad);
    AfterLastOfPadded(data, pad, LineBreaks);
    assert b[LastOf(b, LineBreaks).value + 1..] == data[LastOf(data, LineBreaks).value + 1..] + pad;
  }

  lemma NoBreakInPadding(pad: string)
    requires forall k :: 0 <= k < |pad| ==> pad[k] == '\0'
    ensures forall k :: 0 <= k < |pad| ==> pad[k] !in LineBreaks
  {
  }

  /** A reply to raw text is the reply to the request parsed from it. */
  lemma ServeParsed(raw: string, ctx: ServerContext, p: Platform, versionText: HttpVersion -> string,
                    compress: string -> string)
    requires Serve(raw, ctx, p, versionText, compress).Success?
    ensures Parse(raw).Success? && WellFormed(Parse(raw).value.status)
    ensures Respond(Parse(raw).value, ctx, p, versionText, compress) == Success(Serve(raw, ctx, p, versionText, compress).value)
  {
    ParsedWellFormed(raw);
  }

  /** A reply is the serialised, prepared value the dispatcher chose. */
  lemma RespondValue(req: HttpRequest, ctx: ServerContext, p: Platform, versionText: HttpVersion -> string,
                     compress: string -> string) returns (v: ResponseValue)
    requires WellFormed(req.status) && Respond(req, ctx, p, versionText, compress).Success?
    ensures Dispatch(req, ctx, p) == Success(v)
    ensures Respond(req, ctx, p, versionText, compress).value == Serialize(Prepared(v, compress), versionText(HV_1_1))
  {
    v := Dispatch(req, ctx, p).value;
    var prepared := Prepared(v, compress);
    assert prepared.version == HV_1_1;
    assert Respond(req, ctx, p, versionText, compress) == Success(Serialize(prepared, versionText(prepared.version)));
  }

  /** The reply to a request is a status line with 200, 201 or 404. */
  lemma ServeStatusLine(raw: string, ctx: ServerContext, p: Platform, versionText: HttpVersion -> string,
                        compress: string -> string)
    requires Serve(raw, ctx, p, versionText, compress).Success?
    ensures var s, h := Serve(raw, ctx, p, versionText, compress).value, versionText(HV_1_1) + " ";
      || OccursAt(s, h + "200 OK" + CRLF, 0)
      || OccursAt(s, h + "201 Created" + CRLF, 0)
      || OccursAt(s, h + "404 Not Found" + CRLF, 0)
  {
    ServeParsed(raw, ctx, p, versionText, compress);
    var v := RespondValue(Parse(raw).value, ctx, p, versionText, compress);
    DispatchOutcomes(Parse(raw).value, ctx, p);
    var prepared := Prepared(v, compress);
    assert prepared.answer == v.answer && prepared.version == HV_1_1;
    SerializeLayout(prepared, versionText(HV_1_1));
  }

  /** Content-Length in the reply is the length of the body actually sent, compressed or not,
      and Content-Encoding is present exactly when the request asked for gzip. */
  lemma ServedContentLength(req: HttpRequest, ctx: ServerContext, p: Platform, compress: string -> string)
    requires WellFormed(req.status) && Dispatch(req, ctx, p).Success?
    requires Dispatch(req, ctx, p).value.headers != []
    ensures var sent := Prepared(Dispatch(req, ctx, p).value, compress);
      && Sorted(sent.headers)
      && Lookup(sent.headers, ContentLength) == Some(NatToString(|sent.body|))
      && Lookup(sent.headers, ContentEncoding) == (if WantsGzip(req.headers) then Some("gzip") else None)
  {
    var v := Dispatch(req, ctx, p).value;
    DispatchHeaders(req, ctx, p);
    if Compresses(v) {
      PreparedCompresses(v, compress);
    }
  }
}
