/** The Simulator's HTTP server: one connection from recv to the response on the wire. */
module HttpServer {
  import opened Bytes
  import opened CText
  import opened HttpSocket
  import opened HttpFramer
  import opened HttpRequestLine
  import opened HttpRoutes
  import opened HttpResponse

  /** What a callback receives. */
  datatype Request = Request(verb: HttpMethod, path: string, query: Option<string>, body: string, bodyLength: uint16)

  /** What a connection comes to: a bare status, or a callback's answer. */
  datatype Verdict = Status(code: uint16) | Call(route: Route, request: Request)

  /** The request a callback sees: C strings and body as they stand in the final buffer. */
  function RequestIn(buffer: string, verb: Option<HttpMethod>, sp: Split, h: nat, n: uint16): Request
    requires sp.methodEnd < |buffer| && h + n <= |buffer|
    requires sp.queryMark.Some? ==> sp.queryMark.value < |buffer|
  {
    Request(if verb.Some? then verb.value else GET,
            CStr(buffer[sp.methodEnd + 1..]),
            if sp.queryMark.Some? then Some(CStr(buffer[sp.queryMark.value + 1..])) else None,
            buffer[h..h + n], n)
  }

  /** The route's answer if there is one, else 405 for a path registered under another method, else 404. */
  function Answer(table: seq<Route>, fallback: Option<Route>, line: RequestLine, request: Request): Verdict {
    match Select(table, fallback, line.path, MethodOf(line.token))
    case None => Status(if PathExists(table, line.path) then 405 else 404)
    case Some(route) => Call(route, request)
  }

  /**
   * The first endpoint for the path and method gets the request, else the default one; without either
   * the answer is 405 if some endpoint has the path, else 404.
   */
  ghost predicate Answers(
    table: seq<Route>, fallback: Option<Route>, line: RequestLine, request: Request, v: Verdict)
  {
    && (forall k :: && 0 <= k < |table| && IsFor(table[k], line.path, line.token)
                    && (forall j :: 0 <= j < k ==> !IsFor(table[j], line.path, line.token))
          ==> v == Call(table[k], request))
    && ((forall k :: 0 <= k < |table| ==> !IsFor(table[k], line.path, line.token)) ==>
          if fallback.Some? then v == Call(fallback.value, request)
          else v == Status(if exists k :: 0 <= k < |table| && table[k].path == line.path then 405 else 404))
  }

  /** Which of the five answers a request gets, read off the registered endpoints. */
  lemma {:induction false} AnswerMeaning(
      table: seq<Route>, fallback: Option<Route>, line: RequestLine, request: Request)
    ensures Answers(table, fallback, line, request, Answer(table, fallback, line, request))
    ensures var nobody := forall k :: 0 <= k < |table| ==> !IsFor(table[k], line.path, line.token);
            var known := exists k :: 0 <= k < |table| && table[k].path == line.path;
            && (Answer(table, fallback, line, request) == Status(405) <==> nobody && fallback.None? && known)
            && (Answer(table, fallback, line, request) == Status(404) <==> nobody && fallback.None? && !known)
  {
    var verb := MethodOf(line.token);
    forall k | 0 <= k < |table|
      ensures Hits(table[k], line.path, verb) <==> IsFor(table[k], line.path, line.token)
    {
    }
    var k := FirstHit(table, line.path, verb);
    assert k < |table| ==> Hits(table[k], line.path, verb);
  }

  /** Parsing the request line, picking a route and cutting out the body, from a filled buffer. */
  function Dispatch(table: seq<Route>, fallback: Option<Route>, img: string, h: nat, n: uint16): Verdict
    requires h + n < |img|
  {
    match SplitLine(img)
    case None => Status(400)
    case Some(sp) =>
      var line := Tokens(img, sp);
      Answer(table, fallback, line, RequestIn(Punch(img, sp)[h + n := NUL], MethodOf(line.token), sp, h, n))
  }

  lemma {:induction false} LineDecides(
      table: seq<Route>, fallback: Option<Route>, img: string, sp: Split, h: nat, n: uint16, i: nat)
    requires SplitLine(img) == Some(sp) && i == h + n < |img|
    ensures Dispatch(table, fallback, img, h, n) ==
            Answer(table, fallback, Tokens(img, sp),
                   RequestIn(Punch(img, sp)[i := NUL], MethodOf(Tokens(img, sp).token), sp, h, n))
  {
    assert Punch(img, sp)[h + n := NUL] == Punch(img, sp)[i := NUL];
  }

  /** The answer is 400 exactly when there is no request line. */
  lemma {:induction false} BadIffNoLine(table: seq<Route>, fallback: Option<Route>, img: string, h: nat, n: uint16)
    requires h + n < |img|
    ensures Dispatch(table, fallback, img, h, n) == Status(400) <==> SplitLine(img).None?
    ensures Dispatch(table, fallback, img, h, n) != Status(413)
  {
  }

  /** The verdict of ServeConnection on a script of recv results. */
  function Serve(table: seq<Route>, fallback: Option<Route>, script: seq<RecvEvent>): Verdict {
    VerdictOf(table, fallback, ReadAll(script))
  }

  /** What the server makes of the way the loop ends. */
  function VerdictOf(table: seq<Route>, fallback: Option<Route>, f: Fill): Verdict
    requires f.Framed? ==> f.headerEnd + f.bodyLength <= |f.data| <= CAPACITY
  {
    match f
    case Refused(_, _) => Status(413)
    case Framed(data, h, n, _) => Dispatch(table, fallback, data + [NUL], h, n)
  }

  // ---------------------------------------------------------------------------
  // What an earlier request left behind the NUL does not matter
  // ---------------------------------------------------------------------------

  lemma {:induction false} ScanBeforeNul(img: string, stale: string, stops: set<char>, from: nat)
    requires img != "" && img[|img| - 1] == NUL && from < |img|
    ensures Scan(img + stale, stops, from) == Scan(img, stops, from)
    decreases |img| - from
  {
    if from >= |img| - 1 {
    } else {
      ScanBeforeNul(img, stale, stops, from + 1);
    }
  }

  lemma {:induction false} SplitBeforeNul(img: string, stale: string)
    requires img != "" && img[|img| - 1] == NUL
    ensures SplitLine(img + stale) == SplitLine(img)
  {
    ScanBeforeNul(img, stale, SPACE, 0);
    match Scan(img, SPACE, 0)
    case None =>
    case Some(m) =>
      ScanBeforeNul(img, stale, DELIMITERS, m + 1);
      match Scan(img, DELIMITERS, m + 1)
      case None =>
      case Some(p) =>
        assert (img + stale)[..p] == img[..p];
  }

  lemma {:induction false} CStrBeforeNul(img: string, all: string, k: nat)
    requires img <= all && img != "" && img[|img| - 1] == NUL && k < |img|
    ensures CStr(all[k..]) == CStr(img[k..])
  {
    var token := CStr(img[k..]);
    assert img[k..][|img| - 1 - k] == NUL;
    assert all[k..][..|token|] == token;
    CStrIs(all[k..], |token|);
  }

  lemma {:induction false} PrefixTokens(img: string, stale: string, sp: Split)
    requires sp.methodEnd < sp.pathEnd < |img|
    requires sp.queryMark.Some? ==> sp.methodEnd < sp.queryMark.value < sp.pathEnd
    ensures Tokens(img + stale, sp) == Tokens(img, sp)
  {
    var buffer := img + stale;
    var m, p := sp.methodEnd, sp.pathEnd;
    var q := if sp.queryMark.Some? then sp.queryMark.value else p;
    assert buffer[..m] == img[..m] && buffer[m + 1..q] == img[m + 1..q];
    if q < p {
      assert buffer[q + 1..p] == img[q + 1..p];
    }
  }

  lemma {:induction false} PrefixPunch(img: string, stale: string, sp: Split, k: nat)
    requires sp.methodEnd < sp.pathEnd < |img| && k < |img|
    requires sp.queryMark.Some? ==> sp.queryMark.value < |img|
    ensures Punch(img + stale, sp)[k := NUL] == Punch(img, sp)[k := NUL] + stale
  {
  }

  lemma {:induction false} StaleBytesDoNotMatter(
      table: seq<Route>, fallback: Option<Route>, img: string, stale: string, h: nat, n: uint16)
    requires img != "" && img[|img| - 1] == NUL && h + n < |img|
    ensures Dispatch(table, fallback, img + stale, h, n) == Dispatch(table, fallback, img, h, n)
  {
    SplitBeforeNul(img, stale);
    if SplitLine(img).Some? {
      var sp := SplitLine(img).value;
      PrefixTokens(img, stale, sp);
      CutRequestBeforeNul(img, stale, MethodOf(Tokens(img, sp).token), sp, h, n);
    }
  }

  lemma {:induction false} CutRequestBeforeNul(
      img: string, stale: string, verb: Option<HttpMethod>, sp: Split, h: nat, n: uint16)
    requires img != "" && img[|img| - 1] == NUL && h + n < |img|
    requires sp.methodEnd < sp.pathEnd < |img|
    requires sp.queryMark.Some? ==> sp.queryMark.value < sp.pathEnd
    ensures RequestIn(Punch(img + stale, sp)[h + n := NUL], verb, sp, h, n) ==
            RequestIn(Punch(img, sp)[h + n := NUL], verb, sp, h, n)
  {
    PrefixPunch(img, stale, sp, h + n);
    var cut := Punch(img, sp)[h + n := NUL];
    RequestBeforeNul(cut, cut + stale, verb, sp, h, n);
  }

  lemma {:induction false} RequestBeforeNul(
      img: string, all: string, verb: Option<HttpMethod>, sp: Split, h: nat, n: uint16)
    requires img <= all && img != "" && img[|img| - 1] == NUL && h + n < |img|
    requires sp.methodEnd + 1 < |img| && (sp.queryMark.Some? ==> sp.queryMark.value + 1 < |img|)
    ensures RequestIn(all, verb, sp, h, n) == RequestIn(img, verb, sp, h, n)
  {
    CStrBeforeNul(img, all, sp.methodEnd + 1);
    if sp.queryMark.Some? {
      CStrBeforeNul(img, all, sp.queryMark.value + 1);
    }
    SliceOfPrefix(img, all, h, h + n);
    SameFields(img, all, verb, sp, h, n);
  }

  lemma {:induction false} SameFields(
      a: string, b: string, verb: Option<HttpMethod>, sp: Split, h: nat, n: uint16)
    requires sp.methodEnd < |a| && h + n <= |a| && sp.methodEnd < |b| && h + n <= |b|
    requires sp.queryMark.Some? ==> sp.queryMark.value < |a| && sp.queryMark.value < |b|
    requires CStr(b[sp.methodEnd + 1..]) == CStr(a[sp.methodEnd + 1..]) && b[h..h + n] == a[h..h + n]
    requires sp.queryMark.Some? ==> CStr(b[sp.queryMark.value + 1..]) == CStr(a[sp.queryMark.value + 1..])
    ensures RequestIn(b, verb, sp, h, n) == RequestIn(a, verb, sp, h, n)
  {
  }

  lemma {:induction false} SliceOfPrefix(img: string, all: string, i: nat, j: nat)
    requires img <= all && i <= j <= |img|
    ensures all[i..j] == img[i..j]
  {
    assert all[..|img|] == img;
  }

  /**
   * The NUL that ends the body falls into a path that runs on behind it: the endpoint is chosen by the whole
   * path, and its callback is given the part up to the end of the body.
   */
  lemma {:induction false} PathIsCut(
      table: seq<Route>, fallback: Option<Route>, img: string, h: nat, n: uint16, sp: Split, end: nat)
    requires SplitLine(img) == Some(sp) && end == (if sp.queryMark.Some? then sp.queryMark.value else sp.pathEnd)
    requires sp.methodEnd < h + n < end && h + n < |img|
    ensures var v := Dispatch(table, fallback, img, h, n);
            v.Call? ==>
              && v.request.path == img[sp.methodEnd + 1..h + n]
              && Some(v.route) == Select(table, fallback, img[sp.methodEnd + 1..end], MethodOf(img[..sp.methodEnd]))
  {
    var k := h + n;
    var cut, line := Punch(img, sp)[k := NUL], Tokens(img, sp);
    LineDecides(table, fallback, img, sp, h, n, k);
    CallIsSelected(table, fallback, line, RequestIn(cut, MethodOf(line.token), sp, h, n));
    SplitChars(img);
    PathBeforeCut(img, cut, sp, k, img[sp.methodEnd + 1..k]);
  }

  lemma {:induction false} CallIsSelected(
      table: seq<Route>, fallback: Option<Route>, line: RequestLine, request: Request)
    ensures var v := Answer(table, fallback, line, request);
            v.Call? ==>
              v.request == request && Select(table, fallback, line.path, MethodOf(line.token)) == Some(v.route)
  {
  }

  lemma {:induction false} PathBeforeCut(img: string, cut: string, sp: Split, k: nat, path: string)
    requires sp.methodEnd < sp.pathEnd < |img| && sp.methodEnd < k < sp.pathEnd
    requires sp.queryMark.Some? ==> k < sp.queryMark.value < |img|
    requires cut == Punch(img, sp)[k := NUL] && path == img[sp.methodEnd + 1..k]
    requires forall j :: sp.methodEnd < j < sp.pathEnd ==> img[j] != NUL
    ensures PointsAt(cut, sp.methodEnd + 1, path)
  {
    PunchElsewhere(img, sp, sp.methodEnd + 1, k);
    assert cut[sp.methodEnd + 1..k] == Punch(img, sp)[sp.methodEnd + 1..k];
    assert NUL !in path;
    TokenAt(cut, sp.methodEnd + 1, k, path);
  }

  // ---------------------------------------------------------------------------
  // The server
  // ---------------------------------------------------------------------------

  /** A callback turns a request and the prepared response into the response to send. */
  type Application = (Route, Request, Response) -> Response

  ghost predicate WellBehaved(app: Application) {
    forall route, request, initial :: Sendable(app(route, request, initial))
  }

  /** The bare status response; the custom header is whatever the uninitialised field holds. */
  function StatusResponse(code: uint16, stray: Option<string>): (r: Response)
    ensures r.body.Some? && |r.body.value| == r.bodyLength
  {
    Response(code, Some("text/plain"), stray, Some(ReasonPhrase(code)), |ReasonPhrase(code)|)
  }

  /** What a callback finds in the response it is given. */
  function InitialResponse(stray: Option<string>): Response {
    Response(200, Some(DEFAULT_CONTENT_TYPE), stray, None, 0)
  }

  function ResponseTo(verdict: Verdict, app: Application, stray: Option<string>): (r: Response)
    requires WellBehaved(app)
    ensures Sendable(r)
  {
    match verdict
    case Status(code) => StatusResponse(code, stray)
    case Call(route, request) => app(route, request, InitialResponse(stray))
  }

  /**
   * A callback is given the request and a response of status 200, type text/html and no body, and its own
   * response is sent; a bare status is sent with its phrase as plain text.
   */
  ghost predicate Answered(
    verdict: Verdict, app: Application, stray: Option<string>, sends: seq<SendEvent>, wire: string)
    requires WellBehaved(app)
  {
    match verdict
    case Status(code) => Delivers(StatusPage(code, stray), sends, wire)
    case Call(route, request) =>
      Delivers(app(route, request, Response(200, Some("text/html"), stray, None, 0)), sends, wire)
  }

  lemma {:induction false} ResponseIsAnswer(verdict: Verdict, app: Application, stray: Option<string>)
    requires WellBehaved(app)
    ensures ResponseTo(verdict, app, stray) ==
            match verdict
            case Status(code) => StatusPage(code, stray)
            case Call(route, request) => app(route, request, Response(200, Some("text/html"), stray, None, 0))
  {
  }

  lemma {:induction false} WrittenAnswers(
      verdict: Verdict, app: Application, stray: Option<string>, sends: seq<SendEvent>)
    requires WellBehaved(app)
    ensures Answered(verdict, app, stray, sends, Written(ResponseTo(verdict, app, stray), sends).1)
  {
    ResponseIsAnswer(verdict, app, stray);
    WrittenDelivers(ResponseTo(verdict, app, stray), sends);
  }

  /** Parses, routes and prepares the callback's request in place. */
  method DispatchBuffer(registry: Registry, buffer: array<char>, h: nat, n: uint16) returns (verdict: Verdict)
    requires registry.Valid() && buffer.Length == BUFFER_SIZE && h + n < BUFFER_SIZE && NUL in buffer[..]
    modifies buffer
    ensures verdict == Dispatch(registry.Table(), registry.Default(), old(buffer[..]), h, n)
  {
    ghost var img := buffer[..];
    var ok, path, query := ParseRequestLine(buffer);
    if !ok {
      return Status(400);
    }
    ghost var sp := SplitLine(img).value;
    SplitReadsBack(img);
    LineDecides(registry.Table(), registry.Default(), img, sp, h, n, h + n);
    var verb := MethodOf(CStr(buffer[0..]));
    var found, pathExists := registry.MatchRoute(CStr(buffer[path..]), verb);
    if found.None? {
      return Status(if pathExists then 405 else 404);
    }
    var request := CutRequest(buffer, verb, sp, path, query, h, n);
    verdict := Call(found.value, request);
  }

  /** Ends the body with a NUL and points the callback's request into the buffer. */
  method CutRequest(
      buffer: array<char>, verb: Option<HttpMethod>, ghost sp: Split, path: nat, query: Option<nat>, h: nat, n: uint16)
    returns (request: Request)
    requires buffer.Length == BUFFER_SIZE && h + n < BUFFER_SIZE
    requires path == sp.methodEnd + 1 <= BUFFER_SIZE
    requires query == if sp.queryMark.Some? then Some(sp.queryMark.value + 1) else None
    requires query.Some? ==> query.value <= BUFFER_SIZE
    modifies buffer
    ensures request == RequestIn(old(buffer[..])[h + n := NUL], verb, sp, h, n)
  {
    ghost var cut := buffer[..][h + n := NUL];
    buffer[h + n] := NUL;
    assert buffer[..] == cut;
    assert buffer[path..] == cut[path..] && buffer[h..h + n] == cut[h..h + n];
    assert query.Some? ==> buffer[query.value..] == cut[query.value..];
    request := Request(if verb.Some? then verb.value else GET,
                       CStr(buffer[path..]),
                       if query.Some? then Some(CStr(buffer[query.value..])) else None,
                       buffer[h..h + n], n);
  }

  /** The same of a buffer whose bytes behind the final NUL are left over from earlier requests. */
  method DispatchFilled(registry: Registry, buffer: array<char>, total: nat, h: nat, n: uint16)
    returns (verdict: Verdict)
    requires registry.Valid() && buffer.Length == BUFFER_SIZE
    requires h + n <= total < BUFFER_SIZE && buffer[total] == NUL
    modifies buffer
    ensures verdict == Dispatch(registry.Table(), registry.Default(), old(buffer[..total]) + [NUL], h, n)
  {
    ghost var img := buffer[..total] + [NUL];
    ghost var stale := buffer[total + 1..];
    assert buffer[..] == img + stale;
    assert buffer[..][total] == NUL;
    StaleBytesDoNotMatter(registry.Table(), registry.Default(), img, stale, h, n);
    verdict := DispatchBuffer(registry, buffer, h, n);
  }

  class Server {
    const registry: Registry
    const requestBuffer: array<char>

    ghost predicate Valid()
      reads registry
    {
      registry.Valid() && requestBuffer.Length == BUFFER_SIZE
    }

    constructor ()
      ensures Valid() && fresh(registry) && fresh(registry.routes) && fresh(requestBuffer)
      ensures registry.Table() == [] && registry.Default() == None
    {
      registry := new Registry();
      requestBuffer := new char[BUFFER_SIZE](_ => NUL);
    }

    /** Serves one connection; the registered endpoints stay as they are. */
    method ServeConnection(socket: Socket, app: Application, stray: Option<string>) returns (verdict: Verdict)
      requires Valid() && WellBehaved(app)
      modifies socket, requestBuffer
      ensures Valid()
      ensures verdict == Serve(registry.Table(), registry.Default(), old(socket.incoming))
      ensures socket.wire == old(socket.wire) + Written(ResponseTo(verdict, app, stray), old(socket.outgoing)).1
      ensures Answered(verdict, app, stray, old(socket.outgoing), socket.wire[|old(socket.wire)|..])
    {
      var framed, totalRead, bodyOffset, bodyLength := ReadRequest(socket, requestBuffer);
      if !framed {
        verdict := Status(413);
      } else {
        verdict := DispatchFilled(registry, requestBuffer, totalRead, bodyOffset, bodyLength);
      }
      WrittenAnswers(verdict, app, stray, socket.outgoing);
      var sent := WriteResponse(socket, ResponseTo(verdict, app, stray));
    }
  }
}
