/** End to end: a printed request, under any split into recv results, reaches the right callback intact. */
module HttpRoundTrip {
  import opened Bytes
  import opened CText
  import opened HttpHeaders
  import opened HttpSocket
  import opened HttpFramer
  import opened HttpSegmentation
  import opened HttpRequestLine
  import opened HttpRoutes
  import opened HttpServer
  import opened HttpRp2040
  import opened HttpAgreement
  import opened HttpMessage

  /** The request a callback is to be given; an unknown method reads as GET. */
  function RequestOf(line: RequestLine, body: string): Request
    requires |body| <= CAPACITY
  {
    Request(if line.token == "POST" then POST else GET, line.path, line.query, body, |body|)
  }

  // ---------------------------------------------------------------------------
  // The stream
  // ---------------------------------------------------------------------------

  lemma {:induction false} StreamHeader(m: Message, stream: string)
    requires WellFormedHead(m) && |Head(m)| <= CAPACITY && Head(m) <= stream
    ensures HeaderEnd(stream) == Some(|Head(m)|) && stream[..|Head(m)|] == Head(m)
  {
    HeadEnds(m);
    HeaderIsFirst(Head(m), stream);
  }

  lemma {:induction false} HeaderIsFirst(h: string, stream: string)
    requires h <= stream && |h| <= CAPACITY && NUL !in h
    requires |h| >= 4 && Find(h, BLANK_LINE, 0) == Some(|h| - 4)
    ensures HeaderEnd(stream) == Some(|h|) && stream[..|h|] == h
  {
    var a := Bufferable(stream);
    assert h <= a;
    HeadIsCString(h, a);
    FirstBlank(h, CStr(a));
  }

  lemma {:induction false} HeadIsCString(h: string, a: string)
    requires h <= a && NUL !in h
    ensures h <= CStr(a)
  {
    assert a[..|h|] == h == h[..|h|];
    CStrIs(h, |h|);
    CStrOfPrefix(a, |h|);
  }

  lemma {:induction false} FirstBlank(h: string, c: string)
    requires h <= c && |h| >= 4 && Find(h, BLANK_LINE, 0) == Some(|h| - 4)
    ensures Find(c, BLANK_LINE, 0) == Some(|h| - 4)
  {
    FindInPrefix(h, c, BLANK_LINE, 0);
    AtInPrefix(h, c, BLANK_LINE, |h| - 4);
  }

  /** Bytes after the request are harmless if it announces its length. */
  ghost predicate Carries(stream: string, m: Message) {
    Text(m) <= stream && (m.field.None? ==> stream == Text(m))
  }

  lemma {:induction false} StreamIsSettled(m: Message, stream: string)
    requires WellFormed(m) && Carries(stream, m)
    ensures LengthIsSettled(stream)
  {
    StreamHeader(m, stream);
    HeadAnnounces(m);
    if m.field.None? {
      HeadEnds(m);
      assert stream == Head(m);
      CStrIs(stream, |stream|);
      assert stream[..|stream|] == stream;
    }
  }

  /** Whatever the slicing, the buffer holds the request and the framer knows where its body is. */
  lemma {:induction false} RequestIsFramed(m: Message, script: seq<RecvEvent>)
    requires WellFormed(m) && Carries(Stream(script), m)
    ensures Holds(Stream(script), |Head(m)|, |m.body|, ReadAll(script))
    ensures Text(m) <= ReadAll(script).data
  {
    var stream, f := Stream(script), ReadAll(script);
    StreamIsSettled(m, stream);
    StreamHeader(m, stream);
    HeadAnnounces(m);
    RequestCompletes(script, |Head(m)|, |m.body|);
    ShorterPrefix(Text(m), f.data, stream);
  }

  lemma {:induction false} ShorterPrefix(a: string, b: string, s: string)
    requires a <= s && b <= s && |a| <= |b|
    ensures a <= b
  {
    assert a == s[..|a|] && b == s[..|b|];
  }

  // ---------------------------------------------------------------------------
  // Dispatch
  // ---------------------------------------------------------------------------

  lemma {:induction false} TokenBeforeCut(b: string, cut: string, p: nat, token: string, k: nat)
    requires PointsAt(b, p, token) && p + |token| < k < |b| && cut == b[k := NUL]
    ensures PointsAt(cut, p, token)
  {
    var s := b[p..];
    var s' := cut[p..];
    assert s'[..|token|] == s[..|token|] == token;
    assert s'[|token|] == s[|token|];
    CStrIs(s', |token|);
  }

  /** The query pointer, if there is one, is at the query; no more than limit bytes matter to it. */
  predicate QueryAt(b: string, mark: Option<nat>, query: Option<string>, limit: nat) {
    && (mark.Some? <==> query.Some?)
    && (mark.Some? ==> && mark.value < |b| && mark.value + 1 + |query.value| < limit
                       && PointsAt(b, mark.value + 1, query.value))
  }

  lemma {:induction false} QueryBeforeCut(b: string, cut: string, mark: Option<nat>, query: Option<string>, k: nat)
    requires k < |b| && cut == b[k := NUL] && QueryAt(b, mark, query, k)
    ensures QueryAt(cut, mark, query, k)
  {
    if mark.Some? {
      var p := mark.value + 1;
      TokenBeforeCut(b, cut, p, query.value, k);
    }
  }

  /** A printed request line splits into its tokens. */
  lemma {:induction false} LineIsSplit(line: RequestLine, img: string) returns (sp: Split)
    requires Delimited(line) && Print(line, ' ') <= img
    ensures SplitLine(img) == Some(sp) && Tokens(img, sp) == line
    ensures sp.pathEnd + 1 == |Print(line, ' ')|
  {
    var start := Print(line, ' ');
    assert img == start + img[|start|..];
    JoinThenSplit(line, ' ', img[|start|..]);
    sp := SplitLine(img).value;
  }

  /** The pointers into the split buffer find the tokens. */
  lemma {:induction false} PointersFindTokens(line: RequestLine, img: string, b: string, sp: Split, limit: nat)
    requires SplitLine(img) == Some(sp) && Tokens(img, sp) == line && b == Punch(img, sp) && sp.pathEnd < limit
    ensures |b| == |img| && sp.methodEnd + 1 + |line.path| < limit
    ensures PointsAt(b, sp.methodEnd + 1, line.path) && QueryAt(b, sp.queryMark, line.query, limit)
  {
    TokensFit(line, img, sp);
    QueryIsFound(line, img, b, sp);
    SplitReadsBack(img);
  }

  lemma {:induction false} QueryIsFound(line: RequestLine, img: string, b: string, sp: Split)
    requires SplitLine(img) == Some(sp) && Tokens(img, sp) == line && b == Punch(img, sp)
    ensures sp.queryMark.Some? ==> line.query.Some? && PointsAt(b, sp.queryMark.value + 1, line.query.value)
  {
    if sp.queryMark.Some? {
      QueryReadsBack(img, sp, sp.queryMark.value + 1);
    }
  }

  lemma {:induction false} TokensFit(line: RequestLine, img: string, sp: Split)
    requires SplitLine(img) == Some(sp) && Tokens(img, sp) == line
    ensures sp.methodEnd + 1 + |line.path| <= sp.pathEnd
    ensures sp.queryMark.Some? <==> line.query.Some?
    ensures line.query.Some? ==> sp.queryMark.value + 1 + |line.query.value| == sp.pathEnd
  {
  }

  lemma {:induction false} RequestReadsLine(b: string, sp: Split, line: RequestLine, h: nat, body: string, k: nat)
    requires |body| <= CAPACITY && k == h + |body| < |b| && b[h..k] == body
    requires sp.methodEnd + 1 + |line.path| < k && PointsAt(b, sp.methodEnd + 1, line.path)
    requires QueryAt(b, sp.queryMark, line.query, k)
    ensures RequestIn(b[k := NUL], MethodOf(line.token), sp, h, |body|) == RequestOf(line, body)
  {
    var cut := b[k := NUL];
    TokenBeforeCut(b, cut, sp.methodEnd + 1, line.path, k);
    QueryBeforeCut(b, cut, sp.queryMark, line.query, k);
    CutIsAfter(b, h, k);
    RequestFromTokens(cut, sp, h, line, body, k);
  }

  lemma {:induction false} LineIsRead(
      line: RequestLine, img: string, b: string, sp: Split, h: nat, k: nat, body: string)
    requires SplitLine(img) == Some(sp) && Tokens(img, sp) == line && b == Punch(img, sp) && sp.pathEnd < h
    requires |body| <= CAPACITY && k == h + |body| < |img| && img[h..k] == body
    ensures RequestIn(b[k := NUL], MethodOf(line.token), sp, h, |body|) == RequestOf(line, body)
  {
    PointersFindTokens(line, img, b, sp, k);
    BodyIsKept(img, b, sp, h, k);
    RequestReadsLine(b, sp, line, h, body, k);
  }

  lemma {:induction false} BodyIsKept(img: string, b: string, sp: Split, h: nat, k: nat)
    requires SplitLine(img) == Some(sp) && b == Punch(img, sp) && sp.pathEnd < h <= k <= |img|
    ensures b[h..k] == img[h..k]
  {
    PunchElsewhere(img, sp, h, k);
  }

  /** A request line inside the header block is dispatched with its tokens and body intact. */
  lemma {:induction false} LineIsDispatched(
      table: seq<Route>, fallback: Option<Route>, line: RequestLine, img: string, h: nat, n: nat, k: nat, body: string)
    requires Delimited(line) && n == |body| <= CAPACITY && Print(line, ' ') <= img
    requires |Print(line, ' ')| <= h && k == h + n < |img| && img[h..k] == body
    ensures Dispatch(table, fallback, img, h, n) == Answer(table, fallback, line, RequestOf(line, body))
  {
    var sp := LineIsSplit(line, img);
    LineDecides(table, fallback, img, sp, h, n, k);
    LineIsRead(line, img, Punch(img, sp), sp, h, k, body);
  }

  lemma {:induction false} CutIsAfter(b: string, h: nat, k: nat)
    requires h <= k < |b|
    ensures b[k := NUL][h..k] == b[h..k]
  {
  }

  lemma {:induction false} RequestFromTokens(
      buffer: string, sp: Split, h: nat, line: RequestLine, body: string, limit: nat)
    requires |body| <= CAPACITY && h + |body| <= |buffer| && buffer[h..h + |body|] == body
    requires sp.methodEnd < |buffer| && PointsAt(buffer, sp.methodEnd + 1, line.path)
    requires QueryAt(buffer, sp.queryMark, line.query, limit)
    ensures RequestIn(buffer, MethodOf(line.token), sp, h, |body|) == RequestOf(line, body)
  {
  }

  /** A buffer that holds the whole message is dispatched as the message means. */
  lemma {:induction false} MessageIsDispatched(
      table: seq<Route>, fallback: Option<Route>, m: Message, data: string, h: nat, n: nat, body: string)
    requires WellFormedHead(m) && Head(m) <= data && h == |Head(m)| && n == |body| <= CAPACITY
    requires h + n <= |data| && data[h..h + n] == body
    ensures Dispatch(table, fallback, data + [NUL], h, n) == Answer(table, fallback, m.line, RequestOf(m.line, body))
  {
    var img := data + [NUL];
    HeadStartsWithLine(m, img);
    assert img[h..h + n] == data[h..h + n];
    LineIsDispatched(table, fallback, m.line, img, h, n, h + n, body);
  }

  /**
   * End to end: for every way recv can slice a stream that starts with the printed request, the
   * server answers by the first registered (path, method) match, else the default route, else 405 or
   * 404, and the callback gets the method, path, query and body bytes that were sent.
   */
  lemma {:induction false} RequestRoundTrip(
      table: seq<Route>, fallback: Option<Route>, m: Message, script: seq<RecvEvent>)
    requires WellFormed(m) && Carries(Stream(script), m)
    ensures Serve(table, fallback, script) == Answer(table, fallback, m.line, RequestOf(m.line, m.body))
    ensures Answers(table, fallback, m.line, RequestOf(m.line, m.body), Serve(table, fallback, script))
  {
    AnswerMeaning(table, fallback, m.line, RequestOf(m.line, m.body));
    RequestIsFramed(m, script);
    var f := ReadAll(script);
    assert f.data[|Head(m)|..|Text(m)|] == Text(m)[|Head(m)|..] == m.body;
    MessageIsDispatched(table, fallback, m, f.data, f.headerEnd, f.bodyLength, m.body);
  }

  lemma {:induction false} HeadStartsWithLine(m: Message, img: string)
    requires Head(m) <= img
    ensures Print(m.line, ' ') <= img && |Print(m.line, ' ')| <= |Head(m)|
  {
    var ls := Front(m) + Back(m);
    assert ls[0] == StartLine(m);
    assert Lines(ls) == StartLine(m) + CRLF + Lines(ls[1..]);
    assert Print(m.line, ' ') <= StartLine(m) <= Head(m);
  }

  /** The same on the RP2040, which gives up when a recv is interrupted. */
  lemma {:induction false} RequestRoundTripRp2040(
      table: seq<Route>, fallback: Option<Route>, m: Message, script: seq<RecvEvent>)
    requires WellFormed(m) && Carries(Stream(script), m) && Uninterrupted(script)
    ensures ServeRp2040(table, fallback, script) == Some(Answer(table, fallback, m.line, RequestOf(m.line, m.body)))
    ensures Answers(table, fallback, m.line, RequestOf(m.line, m.body), ServeRp2040(table, fallback, script).value)
  {
    RequestRoundTrip(table, fallback, m, script);
    StreamIsSettled(m, Stream(script));
    StreamHeader(m, Stream(script));
    HeadAnnounces(m);
    SettledSeen(Stream(script), |Head(m)|, |Head(m)|);
    ServersAgree(table, fallback, script);
  }
}
