/**
 The router and the five handlers of src/handlers.cpp. The route key is the
 first target token followed by the second, looked up in a table of five
 routes; each handler gates on method, token count, headers and served
 directory, and builds a 200, 201 or 404 response by successive setter
 calls. The file system and std::stoi are reached through a Platform of
 functions the model takes as a parameter.
 */
module Handlers {
  import opened Text
  import opened OrderedMap
  import opened RequestMethod
  import opened Request
  import opened Status
  import opened Response
  import opened Context

  /** The library calls the handlers make.
      readFile: read_file, "" when the file cannot be opened or is empty;
      writeFile: write_file(path, content, size), false when the file cannot be opened;
      parseLength: std::stoi converted to size_t, None where it throws. */
  datatype Platform = Platform(
    readFile: string -> string,
    writeFile: (string, string, nat) -> bool,
    parseLength: string -> Option<nat>)

  /** The exception handle_post lets escape when Content-Length is not a number. */
  datatype HandlerError = InvalidContentLength

  const AcceptEncoding: string := "Accept-Encoding"
  const UserAgent: string := "User-Agent"

  /** g_ok_response and g_not_found_response. */
  const OkResponseText: string := "HTTP/1.1 200 OK\r\n\r\n"
  const NotFoundResponseText: string := "HTTP/1.1 404 Not Found\r\n\r\n"

  /** A response with no headers and no body. */
  function Bare(a: ResponseAnswer): ResponseValue {
    ResponseValue(a, HV_1_1, [], "")
  }

  /** Rendered as HTTP/1.1, bare RT_OK and RT_NOT_FOUND responses are exactly the fixed replies
      g_ok_response and g_not_found_response: a status line and a blank line. */
  lemma BareResponses()
    ensures Serialize(Bare(RT_OK), "HTTP/1.1") == OkResponseText
    ensures Serialize(Bare(RT_NOT_FOUND), "HTTP/1.1") == NotFoundResponseText
  {
  }

  /** The request asked for gzip: its Accept-Encoding value is exactly "gzip". */
  predicate WantsGzip(headers: map<string, string>) {
    AcceptEncoding in headers && headers[AcceptEncoding] == "gzip"
  }

  /** The headers of a 200 response carrying `body`, in the order std::map keeps them. */
  function BodyHeaders(contentType: string, body: string, gzip: bool): Entries {
    var length := (ContentLength, NatToString(|body|));
    var typ := (ContentType, contentType);
    if gzip then [(ContentEncoding, "gzip"), length, typ] else [length, typ]
  }

  /** A 200 response carrying `body` of the given type, marked gzip when asked for. */
  function BodyResponse(contentType: string, body: string, gzip: bool): ResponseValue {
    ResponseValue(RT_OK, HV_1_1, BodyHeaders(contentType, body, gzip), body)
  }

  /** The three header names compare as "Content-Encoding" < "Content-Length" < "Content-Type". */
  lemma KeyOrder()
    ensures Less(ContentEncoding, ContentLength) && Less(ContentLength, ContentType) && Less(ContentEncoding, ContentType)
    ensures !Less(ContentLength, ContentEncoding) && !Less(ContentType, ContentLength)
  {
    var p := "Content-";
    assert ContentEncoding == p + "Encoding" && ContentLength == p + "Length" && ContentType == p + "Type";
    LessCommonPrefix(p, "Encoding", "Length");
    LessCommonPrefix(p, "Length", "Type");
    LessTransitive(ContentEncoding, ContentLength, ContentType);
    LessAsymmetric(ContentEncoding, ContentLength);
    LessAsymmetric(ContentLength, ContentType);
  }

  /** Two or three entries with ascending keys are sorted. */
  lemma SortedListed(x: (string, string), y: (string, string), z: (string, string))
    requires Less(x.0, y.0) && Less(y.0, z.0)
    ensures Sorted([y, z]) && Sorted([x, y, z])
  {
    LessTransitive(x.0, y.0, z.0);
    assert [z][1..] == [] && [y, z][1..] == [z] && [x, y, z][1..] == [y, z];
  }

  /** Looking up each key of two or three entries with different keys. */
  lemma LookupListed(x: (string, string), y: (string, string), z: (string, string))
    requires x.0 != y.0 && y.0 != z.0 && x.0 != z.0
    ensures Lookup([y, z], y.0) == Some(y.1) && Lookup([y, z], z.0) == Some(z.1) && Lookup([y, z], x.0) == None
    ensures Lookup([x, y, z], x.0) == Some(x.1) && Lookup([x, y, z], y.0) == Some(y.1) && Lookup([x, y, z], z.0) == Some(z.1)
  {
    assert [z][1..] == [] && [y, z][1..] == [z] && [x, y, z][1..] == [y, z];
  }

  /** The body headers are a valid std::map image: keys ascending. */
  lemma BodyHeadersSorted(contentType: string, body: string, gzip: bool)
    ensures Sorted(BodyHeaders(contentType, body, gzip))
  {
    KeyOrder();
    SortedListed((ContentEncoding, "gzip"), (ContentLength, NatToString(|body|)), (ContentType, contentType));
  }

  /** The three header names are different. */
  lemma KeysDistinct()
    ensures ContentEncoding != ContentLength && ContentLength != ContentType && ContentEncoding != ContentType
  {
    KeyOrder();
    LessIrreflexive(ContentEncoding);
    LessIrreflexive(ContentLength);
  }

  /** Setting type, then length, then (for gzip) encoding, as handle_get, UserAgentHandler and
      HtmlHandler do, gives the body headers. */
  lemma TypeLengthEncoding(contentType: string, body: string, gzip: bool)
    ensures var e := Upsert(Upsert([], ContentType, contentType), ContentLength, NatToString(|body|));
      (if gzip then Upsert(e, ContentEncoding, "gzip") else e) == BodyHeaders(contentType, body, gzip)
  {
    var len := NatToString(|body|);
    var e1 := Upsert([], ContentType, contentType);
    var e2 := Upsert(e1, ContentLength, len);
    var r := if gzip then Upsert(e2, ContentEncoding, "gzip") else e2;
    UpsertSorted([], ContentType, contentType);
    UpsertSorted(e1, ContentLength, len);
    UpsertSorted(e2, ContentEncoding, "gzip");
    BodyHeadersSorted(contentType, body, gzip);
    SortedCanonical(r, BodyHeaders(contentType, body, gzip));
  }

  /** Setting type, then (for gzip) encoding, then length, as EchoHandler does, gives the same
      headers: the order of the setter calls does not show. */
  lemma TypeEncodingLength(contentType: string, body: string, gzip: bool)
    ensures var e := Upsert([], ContentType, contentType);
      Upsert(if gzip then Upsert(e, ContentEncoding, "gzip") else e, ContentLength, NatToString(|body|))
        == BodyHeaders(contentType, body, gzip)
  {
    var len := NatToString(|body|);
    var e1 := Upsert([], ContentType, contentType);
    UpsertSorted([], ContentType, contentType);
    if gzip {
      KeysDistinct();
      UpsertCommutes(e1, ContentEncoding, "gzip", ContentLength, len);
    }
    TypeLengthEncoding(contentType, body, gzip);
  }

  /** What the body headers say: the body's length, the type, and gzip exactly when asked for. */
  lemma BodyHeadersLookup(contentType: string, body: string, gzip: bool)
    ensures var e := BodyHeaders(contentType, body, gzip);
      && Lookup(e, ContentLength) == Some(NatToString(|body|))
      && Lookup(e, ContentType) == Some(contentType)
      && Lookup(e, ContentEncoding) == (if gzip then Some("gzip") else None)
  {
    KeysDistinct();
    LookupListed((ContentEncoding, "gzip"), (ContentLength, NatToString(|body|)), (ContentType, contentType));
  }

  // ---------------------------------------------------------------------------
  // What each handler returns
  // ---------------------------------------------------------------------------

  /** RootHandler::Handle. */
  function RootResponse(req: HttpRequest): ResponseValue {
    if req.status.requestType == Some(RT_GET) then Bare(RT_OK) else Bare(RT_NOT_FOUND)
  }

  /** EchoHandler::Handle. */
  function EchoResponse(req: HttpRequest): ResponseValue {
    var target := req.status.target;
    if req.status.requestType == Some(RT_GET) && |target| >= 4 then
      BodyResponse("text/plain", target[3], WantsGzip(req.headers))
    else Bare(RT_NOT_FOUND)
  }

  /** UserAgentHandler::Handle: the header name is matched case-sensitively. */
  function UserAgentResponse(req: HttpRequest): ResponseValue {
    if req.status.requestType == Some(RT_GET) && UserAgent in req.headers then
      BodyResponse("text/plain", req.headers[UserAgent], WantsGzip(req.headers))
    else Bare(RT_NOT_FOUND)
  }

  /** FileHandler::handle_post: store the body, cut to the declared length. */
  function PostResponse(path: string, req: HttpRequest, p: Platform): Result<ResponseValue, HandlerError> {
    if ContentLength !in req.headers then Success(Bare(RT_NOT_FOUND))
    else match p.parseLength(req.headers[ContentLength])
      case None => Failure(InvalidContentLength)
      case Some(size) =>
        if !p.writeFile(path, req.body, size) then Success(Bare(RT_NOT_FOUND))
        else Success(Bare(RT_CREATED))
  }

  /** FileHandler::handle_get. */
  function GetResponse(path: string, req: HttpRequest, p: Platform): ResponseValue {
    var file := p.readFile(path);
    if file == [] then Bare(RT_NOT_FOUND)
    else BodyResponse("application/octet-stream", file, WantsGzip(req.headers))
  }

  /** The file a /files request names: the directory, a slash and the fourth token. */
  function FilePath(dir: string, target: seq<string>): string
    requires |target| >= 4
  {
    dir + "/" + target[3]
  }

  /** FileHandler::Handle. */
  function FileResponse(req: HttpRequest, ctx: ServerContext, p: Platform): Result<ResponseValue, HandlerError> {
    var dir, target := ctx.GetDirectory(), req.status.target;
    if dir == [] || |target| < 4 then Success(Bare(RT_NOT_FOUND))
    else if req.status.requestType == Some(RT_POST) then PostResponse(FilePath(dir, target), req, p)
    else if req.status.requestType == Some(RT_GET) then Success(GetResponse(FilePath(dir, target), req, p))
    else Success(Bare(RT_NOT_FOUND))
  }

  /** HtmlHandler::Handle: reads target[1] without checking, so a served directory needs
      at least two tokens; there is no method gate. */
  function HtmlResponse(req: HttpRequest, ctx: ServerContext, p: Platform): ResponseValue
    requires ctx.GetDirectory() != [] ==> |req.status.target| >= 2
  {
    var dir := ctx.GetDirectory();
    if dir == [] then Bare(RT_NOT_FOUND)
    else
      var data := p.readFile(dir + "/" + req.status.target[1]);
      if data == [] then Bare(RT_NOT_FOUND)
      else BodyResponse("text/html", data, WantsGzip(req.headers))
  }

  // ---------------------------------------------------------------------------
  // Routing
  // ---------------------------------------------------------------------------

  datatype Route = RootRoute | EchoRoute | FilesRoute | UserAgentRoute | HtmlRoute

  /** g_router_map. */
  const RouterMap: map<string, Route> := map[
    "/" := RootRoute,
    "/echo" := EchoRoute,
    "/files" := FilesRoute,
    "/user-agent" := UserAgentRoute,
    "/test_example.html" := HtmlRoute]

  /** The first token followed by the second, when there is one. */
  function RouteKey(target: seq<string>): string
    requires target != []
  {
    target[0] + (if |target| > 1 then target[1] else "")
  }

  /** What a parsed request's status always satisfies: a non-empty target starts with the
      "/" token and comes with a method. */
  predicate WellFormed(st: RequestStatus) {
    st.target != [] ==> st.requestType.Some? && st.target[0] == "/"
  }

  /** The key "/test_example.html" needs a second token, since the first is "/": the
      unchecked target[1] in HtmlHandler is in range. */
  lemma HtmlTargetIndexSafe(target: seq<string>)
    requires target != [] && target[0] == "/" && RouteKey(target) == "/test_example.html"
    ensures |target| >= 2
  {
  }

  /** handle_http_request. */
  function Dispatch(req: HttpRequest, ctx: ServerContext, p: Platform): Result<ResponseValue, HandlerError>
    requires WellFormed(req.status)
  {
    var target := req.status.target;
    if target == [] then Success(Bare(RT_NOT_FOUND))
    else
      var key := RouteKey(target);
      if key !in RouterMap then Success(Bare(RT_NOT_FOUND))
      else match RouterMap[key]
        case RootRoute => Success(RootResponse(req))
        case EchoRoute => Success(EchoResponse(req))
        case FilesRoute => FileResponse(req, ctx, p)
        case UserAgentRoute => Success(UserAgentResponse(req))
        case HtmlRoute =>
          HtmlTargetIndexSafe(target);
          Success(HtmlResponse(req, ctx, p))
  }

  // ---------------------------------------------------------------------------
  // The handlers as the code runs them: a response built by setter calls
  // ---------------------------------------------------------------------------

  /** RootHandler::Handle. */
  method RootHandler(req: HttpRequest, ctx: ServerContext) returns (r: HttpResponse)
    ensures fresh(r) && r.Valid() && r.Value() == RootResponse(req)
  {
    if req.status.requestType == Some(RT_GET) {
      r := new HttpResponse(RT_OK, HV_1_1);
    } else {
      r := new HttpResponse(RT_NOT_FOUND, HV_1_1);
    }
  }

  /** EchoHandler::Handle: type, then encoding, then length, then body. */
  method EchoHandler(req: HttpRequest, ctx: ServerContext) returns (r: HttpResponse)
    ensures fresh(r) && r.Valid() && r.Value() == EchoResponse(req)
  {
    var targets := req.status.target;
    if req.status.requestType == Some(RT_GET) {
      if targets == [] || |targets| < 4 {
        r := new HttpResponse(RT_NOT_FOUND, HV_1_1);
        return;
      }
      var gzip := AcceptEncoding in req.headers && req.headers[AcceptEncoding] == "gzip";
      r := EchoReply(targets[3], gzip);
    } else {
      r := new HttpResponse(RT_NOT_FOUND, HV_1_1);
    }
  }

  /** The 200 reply of EchoHandler::Handle, built as it is: type, then encoding when gzip
      is asked for, then length, then the echoed body. */
  method EchoReply(echo: string, gzip: bool) returns (r: HttpResponse)
    ensures fresh(r) && r.Valid() && r.Value() == BodyResponse("text/plain", echo, gzip)
  {
    r := new HttpResponse(RT_OK, HV_1_1);
    r.SetContentType("text/plain");
    if gzip {
      r.SetEncoding("gzip");
    }
    r.SetContentLength(|echo|);
    r.SetBody(echo);
    TypeEncodingLength("text/plain", echo, gzip);
  }

  /** UserAgentHandler::Handle: type, length, then encoding, then body. */
  method UserAgentHandler(req: HttpRequest, ctx: ServerContext) returns (r: HttpResponse)
    ensures fresh(r) && r.Valid() && r.Value() == UserAgentResponse(req)
  {
    if req.status.requestType == Some(RT_GET) {
      if UserAgent !in req.headers {
        r := new HttpResponse(RT_NOT_FOUND, HV_1_1);
        return;
      }
      var userAgent := req.headers[UserAgent];
      r := new HttpResponse(RT_OK, HV_1_1);
      r.SetContentType("text/plain");
      r.SetContentLength(|userAgent|);
      var gzip := AcceptEncoding in req.headers && req.headers[AcceptEncoding] == "gzip";
      if gzip {
        r.SetEncoding("gzip");
      }
      r.SetBody(userAgent);
      TypeLengthEncoding("text/plain", userAgent, gzip);
    } else {
      r := new HttpResponse(RT_NOT_FOUND, HV_1_1);
    }
  }

  /** FileHandler::handle_post. */
  method HandlePost(path: string, req: HttpRequest, p: Platform) returns (r: Result<HttpResponse, HandlerError>)
    ensures r.Failure? <==> PostResponse(path, req, p).Failure?
    ensures r.Failure? ==> r.error == PostResponse(path, req, p).error
    ensures r.Success? ==> fresh(r.value) && r.value.Valid() && r.value.Value() == PostResponse(path, req, p).value
  {
    if ContentLength !in req.headers {
      var response := new HttpResponse(RT_NOT_FOUND, HV_1_1);
      return Success(response);
    }
    var size := p.parseLength(req.headers[ContentLength]);
    if size.None? {
      return Failure(InvalidContentLength);
    }
    if !p.writeFile(path, req.body, size.value) {
      var response := new HttpResponse(RT_NOT_FOUND, HV_1_1);
      return Success(response);
    }
    var response := new HttpResponse(RT_CREATED, HV_1_1);
    return Success(response);
  }

  /** FileHandler::handle_get: type, length, then encoding, then body. */
  method HandleGet(path: string, req: HttpRequest, p: Platform) returns (r: HttpResponse)
    ensures fresh(r) && r.Valid() && r.Value() == GetResponse(path, req, p)
  {
    var file := p.readFile(path);
    if file == [] {
      r := new HttpResponse(RT_NOT_FOUND, HV_1_1);
      return;
    }
    r := new HttpResponse(RT_OK, HV_1_1);
    r.SetContentType("application/octet-stream");
    r.SetContentLength(|file|);
    var gzip := AcceptEncoding in req.headers && req.headers[AcceptEncoding] == "gzip";
    if gzip {
      r.SetEncoding("gzip");
    }
    r.SetBody(file);
    TypeLengthEncoding("application/octet-stream", file, gzip);
  }

  /** FileHandler::Handle. */
  method FileHandler(req: HttpRequest, ctx: ServerContext, p: Platform) returns (r: Result<HttpResponse, HandlerError>)
    ensures r.Failure? <==> FileResponse(req, ctx, p).Failure?
    ensures r.Failure? ==> r.error == FileResponse(req, ctx, p).error
    ensures r.Success? ==> fresh(r.value) && r.value.Valid() && r.value.Value() == FileResponse(req, ctx, p).value
  {
    var path := ctx.GetDirectory();
    var target := req.status.target;
    if path == [] || |target| < 4 {
      var response := new HttpResponse(RT_NOT_FOUND, HV_1_1);
      return Success(response);
    }
    if req.status.requestType == Some(RT_POST) {
      r := HandlePost(path + "/" + target[3], req, p);
    } else if req.status.requestType == Some(RT_GET) {
      var response := HandleGet(path + "/" + target[3], req, p);
      r := Success(response);
    } else {
      var response := new HttpResponse(RT_NOT_FOUND, HV_1_1);
      r := Success(response);
    }
  }

  /** HtmlHandler::Handle: type, length, then encoding, then body. */
  method HtmlHandler(req: HttpRequest, ctx: ServerContext, p: Platform) returns (r: HttpResponse)
    requires ctx.GetDirectory() != [] ==> |req.status.target| >= 2
    ensures fresh(r) && r.Valid() && r.Value() == HtmlResponse(req, ctx, p)
  {
    var path := ctx.GetDirectory();
    if path == [] {
      r := new HttpResponse(RT_NOT_FOUND, HV_1_1);
      return;
    }
    var data := p.readFile(path + "/" + req.status.target[1]);
    if data == [] {
      r := new HttpResponse(RT_NOT_FOUND, HV_1_1);
      return;
    }
    r := new HttpResponse(RT_OK, HV_1_1);
    r.SetContentType("text/html");
    r.SetContentLength(|data|);
    var gzip := AcceptEncoding in req.headers && req.headers[AcceptEncoding] == "gzip";
    if gzip {
      r.SetEncoding("gzip");
    }
    r.SetBody(data);
    TypeLengthEncoding("text/html", data, gzip);
  }

  /** handle_http_request: 404 for an empty target or an unknown key, else the route's handler. */
  method HandleHttpRequest(req: HttpRequest, ctx: ServerContext, p: Platform) returns (r: Result<HttpResponse, HandlerError>)
    requires WellFormed(req.status)
    ensures r.Failure? <==> Dispatch(req, ctx, p).Failure?
    ensures r.Failure? ==> r.error == Dispatch(req, ctx, p).error
    ensures r.Success? ==> fresh(r.value) && r.value.Valid() && r.value.Value() == Dispatch(req, ctx, p).value
  {
    var target := req.status.target;
    if target == [] {
      var response := new HttpResponse(RT_NOT_FOUND, HV_1_1);
      return Success(response);
    }
    var key := target[0] + (if |target| > 1 then target[1] else "");
    if key !in RouterMap {
      var response := new HttpResponse(RT_NOT_FOUND, HV_1_1);
      return Success(response);
    }
    match RouterMap[key]
    case RootRoute =>
      var response := RootHandler(req, ctx);
      r := Success(response);
    case EchoRoute =>
      var response := EchoHandler(req, ctx);
      r := Success(response);
    case FilesRoute =>
      r := FileHandler(req, ctx, p);
    case UserAgentRoute =>
      var response := UserAgentHandler(req, ctx);
      r := Success(response);
    case HtmlRoute =>
      HtmlTargetIndexSafe(target);
      var response := HtmlHandler(req, ctx, p);
      r := Success(response);
  }

  // ---------------------------------------------------------------------------
  // Properties of the dispatcher
  // ---------------------------------------------------------------------------

  /** An empty target, or a key outside the table, is answered 404 with nothing else. */
  lemma DispatchNotFound(req: HttpRequest, ctx: ServerContext, p: Platform)
    requires WellFormed(req.status)
    requires req.status.target == [] || RouteKey(req.status.target) !in RouterMap
    ensures Dispatch(req, ctx, p) == Success(Bare(RT_NOT_FOUND))
  {
  }

  /** The route table knows exactly five keys. */
  lemma RouteKeys()
    ensures RouterMap.Keys == {"/", "/echo", "/files", "/user-agent", "/test_example.html"}
  {
  }

  /** Every response is 200, 201 or 404: the 500 after FileHandler's switch is never reached.
      201 comes only from a stored POST to /files, and the only error is an unreadable Content-Length
      in such a POST. */
  lemma DispatchOutcomes(req: HttpRequest, ctx: ServerContext, p: Platform)
    requires WellFormed(req.status)
    ensures var r, t := Dispatch(req, ctx, p), req.status.target;
      && (r.Success? ==> r.value.answer in {RT_OK, RT_CREATED, RT_NOT_FOUND})
      && (r.Failure? || r.value.answer == RT_CREATED ==>
            && |t| >= 4 && RouteKey(t) == "/files" && ctx.GetDirectory() != []
            && req.status.requestType == Some(RT_POST) && ContentLength in req.headers)
      && (r.Success? && r.value.answer == RT_CREATED ==>
            p.writeFile(FilePath(ctx.GetDirectory(), t), req.body, p.parseLength(req.headers[ContentLength]).value))
      && (r.Failure? ==> p.parseLength(req.headers[ContentLength]).None?)
  {
  }

  /** A response the handlers build: a bare status, or a 200 carrying a body whose type is
      the last header. */
  predicate Shaped(v: ResponseValue, gzip: bool) {
    v == Bare(v.answer) || (|v.headers| >= 2 && v == BodyResponse(v.headers[|v.headers| - 1].1, v.body, gzip))
  }

  /** Every response is bare, or carries a body with the headers a body comes with. */
  lemma DispatchShaped(req: HttpRequest, ctx: ServerContext, p: Platform)
    requires WellFormed(req.status) && Dispatch(req, ctx, p).Success?
    ensures Shaped(Dispatch(req, ctx, p).value, WantsGzip(req.headers))
  {
  }

  /** The headers of a response: none for a bare one, else Content-Length giving the body's length,
      the Content-Type, and Content-Encoding "gzip" exactly when the request asked for gzip. */
  lemma DispatchHeaders(req: HttpRequest, ctx: ServerContext, p: Platform)
    requires WellFormed(req.status) && Dispatch(req, ctx, p).Success?
    ensures var v := Dispatch(req, ctx, p).value;
      && Sorted(v.headers)
      && (v.headers == [] ==> v.body == [])
      && (v.headers != [] ==>
            && v.answer == RT_OK
            && Lookup(v.headers, ContentLength) == Some(NatToString(|v.body|))
            && Lookup(v.headers, ContentType).Some?
            && Lookup(v.headers, ContentEncoding) == (if WantsGzip(req.headers) then Some("gzip") else None))
  {
    var v, gzip := Dispatch(req, ctx, p).value, WantsGzip(req.headers);
    DispatchShaped(req, ctx, p);
    if v.headers != [] {
      var ct := v.headers[|v.headers| - 1].1;
      assert v == BodyResponse(ct, v.body, gzip);
      BodyHeadersSorted(ct, v.body, gzip);
      BodyHeadersLookup(ct, v.body, gzip);
    } else {
      assert Sorted(v.headers);
    }
  }

  /** A 200 response carrying `body`: its length as Content-Length, the type, and
      Content-Encoding "gzip" exactly when asked for. */
  ghost predicate Carries(v: ResponseValue, contentType: string, body: string, gzip: bool) {
    && v.answer == RT_OK && v.body == body && Sorted(v.headers)
    && Lookup(v.headers, ContentLength) == Some(NatToString(|body|))
    && Lookup(v.headers, ContentType) == Some(contentType)
    && Lookup(v.headers, ContentEncoding) == (if gzip then Some("gzip") else None)
  }

  lemma BodyResponseCarries(contentType: string, body: string, gzip: bool)
    ensures Carries(BodyResponse(contentType, body, gzip), contentType, body, gzip)
  {
    BodyHeadersSorted(contentType, body, gzip);
    BodyHeadersLookup(contentType, body, gzip);
  }

  /** Echo: a GET with at least four target tokens is answered with the fourth token as
      text/plain; anything else is 404. */
  lemma EchoReplies(req: HttpRequest)
    ensures var t := req.status.target;
      && (req.status.requestType == Some(RT_GET) && |t| >= 4 ==>
            Carries(EchoResponse(req), "text/plain", t[3], WantsGzip(req.headers)))
      && (req.status.requestType != Some(RT_GET) || |t| < 4 ==> EchoResponse(req) == Bare(RT_NOT_FOUND))
  {
    var t := req.status.target;
    if req.status.requestType == Some(RT_GET) && |t| >= 4 {
      BodyResponseCarries("text/plain", t[3], WantsGzip(req.headers));
    }
  }

  /** User agent: a GET with a User-Agent header (exact case) is answered with its value as
      text/plain; anything else is 404. */
  lemma UserAgentReplies(req: HttpRequest)
    ensures req.status.requestType == Some(RT_GET) && UserAgent in req.headers ==>
      Carries(UserAgentResponse(req), "text/plain", req.headers[UserAgent], WantsGzip(req.headers))
    ensures req.status.requestType != Some(RT_GET) || UserAgent !in req.headers ==>
      UserAgentResponse(req) == Bare(RT_NOT_FOUND)
  {
    if req.status.requestType == Some(RT_GET) && UserAgent in req.headers {
      BodyResponseCarries("text/plain", req.headers[UserAgent], WantsGzip(req.headers));
    }
  }

  /** A file GET: a readable, non-empty file is answered with its content as
      application/octet-stream; an empty or unreadable one is 404. */
  lemma GetReplies(path: string, req: HttpRequest, p: Platform)
    ensures p.readFile(path) != [] ==>
      Carries(GetResponse(path, req, p), "application/octet-stream", p.readFile(path), WantsGzip(req.headers))
    ensures p.readFile(path) == [] ==> GetResponse(path, req, p) == Bare(RT_NOT_FOUND)
  {
    if p.readFile(path) != [] {
      BodyResponseCarries("application/octet-stream", p.readFile(path), WantsGzip(req.headers));
    }
  }

  /** The HTML page: with a served directory and a non-empty file directory/target[1], that
      file as text/html, whatever the method; otherwise 404. */
  lemma HtmlReplies(req: HttpRequest, ctx: ServerContext, p: Platform)
    requires ctx.GetDirectory() != [] ==> |req.status.target| >= 2
    ensures var dir := ctx.GetDirectory();
      && (dir == [] ==> HtmlResponse(req, ctx, p) == Bare(RT_NOT_FOUND))
      && (dir != [] ==>
            var data := p.readFile(dir + "/" + req.status.target[1]);
            && (data == [] ==> HtmlResponse(req, ctx, p) == Bare(RT_NOT_FOUND))
            && (data != [] ==> Carries(HtmlResponse(req, ctx, p), "text/html", data, WantsGzip(req.headers))))
  {
    var dir := ctx.GetDirectory();
    if dir != [] {
      var data := p.readFile(dir + "/" + req.status.target[1]);
      if data != [] {
        BodyResponseCarries("text/html", data, WantsGzip(req.headers));
      }
    }
  }

  /** A file POST: without Content-Length 404; an unreadable length is the error; otherwise the
      body and the parsed length go to the write, and its outcome decides 201 or 404. */
  lemma PostReplies(path: string, req: HttpRequest, p: Platform)
    ensures ContentLength !in req.headers ==> PostResponse(path, req, p) == Success(Bare(RT_NOT_FOUND))
    ensures ContentLength in req.headers && p.parseLength(req.headers[ContentLength]).None? ==>
      PostResponse(path, req, p) == Failure(InvalidContentLength)
    ensures ContentLength in req.headers && p.parseLength(req.headers[ContentLength]).Some? ==>
      var size := p.parseLength(req.headers[ContentLength]).value;
      PostResponse(path, req, p) == Success(Bare(if p.writeFile(path, req.body, size) then RT_CREATED else RT_NOT_FOUND))
  {
  }

  /** Without a served directory, /files and /test_example.html are 404. */
  lemma NoDirectoryNotFound(req: HttpRequest, ctx: ServerContext, p: Platform)
    requires WellFormed(req.status) && req.status.target != [] && ctx.GetDirectory() == []
    requires RouteKey(req.status.target) in {"/files", "/test_example.html"}
    ensures Dispatch(req, ctx, p) == Success(Bare(RT_NOT_FOUND))
  {
  }
}
