/** Requests on which slicing matters or the two servers differ: families of them, and concrete ones. */
module HttpWitnesses {
  import opened Bytes
  import opened CText
  import opened HttpHeaders
  import opened HttpSocket
  import opened HttpFramer
  import opened HttpSegmentation
  import opened HttpIndependence
  import opened HttpRequestLine
  import opened HttpRoutes
  import opened HttpResponse
  import opened HttpServer
  import opened HttpRp2040
  import opened HttpAgreement
  import opened HttpMessage
  import opened HttpRoundTrip

  // ---------------------------------------------------------------------------
  // A body that looks like a header line
  // ---------------------------------------------------------------------------

  /** A request without Content-Length, followed by bytes that read as a Content-Length line. */
  function Impostor(m: Message, f: LengthField, rest: string): string {
    Head(m) + (FieldLine(f) + CRLF) + rest
  }

  /** Such a stream is not settled, because the length scan runs on past the blank line. */
  lemma {:induction false} ImpostorUnsettles(m: Message, f: LengthField, rest: string)
    requires WellFormed(m) && m.field.None?
    requires IsLengthField(f) && 0 < NatOf(f.digits) < TWO_64 && NUL !in FieldLine(f)
    requires |Head(m)| + |FieldLine(f)| + 2 <= 2047
    ensures !LengthIsSettled(Impostor(m, f, rest))
  {
    var stream := Impostor(m, f, rest);
    var t := Head(m) + (FieldLine(f) + CRLF);
    assert Text(m) == Head(m);
    StreamHeader(m, stream);
    HeadEnds(m);
    HeadIsSilent(m);
    ImpostorIsRead(m, f);
    assert stream[..|t|] == t;
    TextIsCString(t);
    assert LengthSeen(stream, |t|) != 0;
  }

  lemma {:induction false} TextIsCString(t: string)
    requires NUL !in t
    ensures CStr(t) == t
  {
    assert t[..|t|] == t;
    CStrIs(t, |t|);
  }

  lemma {:induction false} ImpostorIsRead(m: Message, f: LengthField)
    requires WellFormed(m) && m.field.None?
    requires IsLengthField(f) && NatOf(f.digits) < TWO_64
    ensures ContentLength(Head(m) + (FieldLine(f) + CRLF), TWO_64) == NatOf(f.digits)
  {
    HeadIsSilent(m);
    HeadEnds(m);
    FieldBelowIsRead(Head(m), f, Head(m) + (FieldLine(f) + CRLF), |Head(m)|);
  }

  lemma {:induction false} FieldBelowIsRead(head: string, f: LengthField, t: string, h: nat)
    requires EndsLine(head) && AnnouncementLine(head, 0).None? && t == head + (FieldLine(f) + CRLF) && h == |head|
    requires IsLengthField(f) && NatOf(f.digits) < TWO_64
    ensures ContentLength(t, TWO_64) == NatOf(f.digits)
  {
    ScanIsStable(head, t, 0);
    assert FieldLine(f) + CRLF == FieldLine(f) + CRLF + "";
    LineStands(t, head, FieldLine(f), "", h);
    FieldIsRead(t, h, f, NatOf(f.digits));
  }

  /** So how recv slices it decides what the server sees: here is a stream on which two slicings differ. */
  lemma {:induction false} SlicingMatters(m: Message, f: LengthField, rest: string, ending: Ending)
    requires WellFormed(m) && m.field.None?
    requires IsLengthField(f) && 0 < NatOf(f.digits) < TWO_64 && NUL !in FieldLine(f)
    requires |Head(m)| + |FieldLine(f)| + 2 <= 2047
    ensures !SlicingIsIrrelevant(Impostor(m, f, rest), ending)
    ensures !AlwaysServedAlike(Impostor(m, f, rest), ending)
  {
    var stream, h := Impostor(m, f, rest), |Head(m)|;
    ImpostorUnsettles(m, f, rest);
    IndependentIffSettled(stream, ending);
    HeadHoldsLine(m, stream);
    BodyShows(stream, ending, h);
  }

  lemma {:induction false} HeadHoldsLine(m: Message, stream: string)
    requires WellFormedHead(m) && |Head(m)| <= CAPACITY && Head(m) <= stream
    ensures HeaderEnd(stream) == Some(|Head(m)|) && SplitLine(Buffered(stream, |Head(m)|)).Some?
  {
    StreamHeader(m, stream);
    var img := Buffered(stream, |Head(m)|);
    HeadStartsWithLine(m, img);
    var sp := LineIsSplit(m.line, img);
  }

  const BARE_GET := Message(RequestLine("GET", "/", None), "HTTP/1.1", [], None, [], "")

  lemma {:induction false} GetLineIsPlain(m: Message)
    requires m.line == RequestLine("GET", "/", None) && m.version == "HTTP/1.1"
    ensures Delimited(m.line) && StartLine(m) == "GET / HTTP/1.1"
    ensures IsHeaderLine(StartLine(m)) && !Announces(StartLine(m))
  {
    var l := "GET / HTTP/1.1";
    assert StartLine(m) == l;
    PrefixedLine(l, "");
    assert l + "" == l;
    OtherName(l, 0);
  }

  lemma {:induction false} BareGetIsWellFormed()
    ensures WellFormed(BARE_GET) && Head(BARE_GET) == "GET / HTTP/1.1" + CRLF + CRLF
  {
    var l := "GET / HTTP/1.1";
    GetLineIsPlain(BARE_GET);
    assert Front(BARE_GET) + Back(BARE_GET) == [l];
    assert Lines([l]) == l + CRLF + Lines([l][1..]) == l + CRLF;
  }

  /** The same on one concrete stream. */
  lemma {:induction false} BareGetIsSliced(ending: Ending)
    ensures var stream := "GET / HTTP/1.1" + CRLF + CRLF + (LENGTH_NAME + " 5" + CRLF);
            !SlicingIsIrrelevant(stream, ending) && !AlwaysServedAlike(stream, ending)
  {
    BareGetIsWellFormed();
    FiveBytesIsField();
    var stream := Impostor(BARE_GET, FIVE_BYTES, "");
    assert stream == "GET / HTTP/1.1" + CRLF + CRLF + (LENGTH_NAME + " 5" + CRLF);
    assert |Head(BARE_GET)| + |FieldLine(FIVE_BYTES)| + 2 <= CAPACITY;
    SlicingMatters(BARE_GET, FIVE_BYTES, "", ending);
  }

  // ---------------------------------------------------------------------------
  // A request line after the request
  // ---------------------------------------------------------------------------

  /** A head without a request line, followed by bytes that read as one. */
  const LATE_LINE := "GET" + BLANK_LINE + "a b c"

  lemma {:induction false} ShortTextIsSilent(t: string, line: nat)
    requires |t| < |LENGTH_NAME|
    ensures AnnouncementLine(t, line).None?
    decreases |t| - line
  {
    if line >= |t| || Find(t, CRLF, line).None? {
    } else {
      ShortTextIsSilent(t, Find(t, CRLF, line).value + 2);
    }
  }

  lemma {:induction false} ShortStreamIsSettled(stream: string)
    requires |stream| < |LENGTH_NAME|
    ensures LengthIsSettled(stream)
  {
    if HeaderEnd(stream).Some? {
      forall k | HeaderEnd(stream).value <= k <= |Bufferable(stream)|
        ensures ContentLength(CStr(stream[..k]), TWO_64) == 0
      {
        ShortTextIsSilent(CStr(stream[..k]), 0);
      }
    }
  }

  lemma {:induction false} LateLineHeader()
    ensures HeaderEnd(LATE_LINE) == Some(7) && LengthSeen(LATE_LINE, 7) == 0
  {
    var s := LATE_LINE;
    assert |s| == 12 && NUL !in "GET" && NUL !in BLANK_LINE && NUL !in "a b c";
    assert Bufferable(s) == s;
    TextIsCString(s);
    assert s[3..7] == BLANK_LINE;
    forall j | 0 <= j < 3
      ensures !At(s, BLANK_LINE, j)
    {
      AtChars(s, BLANK_LINE, j);
      assert s[j + 0] == "GET"[j] && BLANK_LINE[0] == '\r';
    }
    FindIs(s, BLANK_LINE, 3);
    ShortTextIsSilent(CStr(s[..7]), 0);
  }

  lemma {:induction false} FindIs(s: string, pat: string, i: nat)
    requires At(s, pat, i) && forall j :: 0 <= j < i ==> !At(s, pat, j)
    ensures Find(s, pat, 0) == Some(i)
  {
  }

  lemma {:induction false} LateLineIsUnsettled()
    ensures !LineIsSettled(LATE_LINE, 7)
  {
    var head := Buffered(LATE_LINE, 7);
    assert head == "GET" + BLANK_LINE + [NUL];
    ScanIsNone(head, SPACE, 0, 7);
    var img := LATE_LINE + [NUL];
    assert Bufferable(LATE_LINE) == LATE_LINE;
    assert img == "GET" + BLANK_LINE + "a b c" + [NUL];
    assert img[7..12] == "a b c";
    assert img[8] == img[7..12][1] && img[9] == img[7..12][2] && img[10] == img[7..12][3] && img[7] == img[7..12][0];
    SplitFromChars(img, 8, 10, None);
  }

  /**
   * The length of that stream is settled, and yet every server answers it by how it is sliced: 400 if
   * the head comes alone, else as the late line says.
   */
  lemma {:induction false} LateLineIsSliced(table: seq<Route>, fallback: Option<Route>, ending: Ending)
    ensures LengthIsSettled(LATE_LINE) && !ServedAlike(table, fallback, LATE_LINE, ending)
  {
    ShortStreamIsSettled(LATE_LINE);
    LateLineHeader();
    LateLineIsUnsettled();
    ServedAlikeIffSettled(table, fallback, LATE_LINE, ending);
  }

  // ---------------------------------------------------------------------------
  // A length that wraps
  // ---------------------------------------------------------------------------

  lemma {:induction false} HeadIsHeader(m: Message)
    requires WellFormedHead(m) && Announced(m) < TWO_64
    ensures HeaderOf(Head(m), TWO_64) == Some(Header(|Head(m)|, Announced(m)))
  {
    HeadEnds(m);
    TextIsCString(Head(m));
    HeadAnnounces(m);
  }

  /** Every printed head whose announced length wraps the RP2040's sum is a 413 on the Simulator only. */
  lemma {:induction false} HugeLengthDiverges(
      table: seq<Route>, fallback: Option<Route>, m: Message, rest: seq<RecvEvent>)
    requires WellFormedHead(m) && |Head(m)| <= CAPACITY && Announced(m) < TWO_64
    requires Wraps(Header(|Head(m)|, Announced(m)))
    ensures Serve(table, fallback, [Chunk(Head(m))] + rest) == Status(413)
    ensures ServeRp2040(table, fallback, [Chunk(Head(m))] + rest) != Some(Status(413))
  {
    HeadEnds(m);
    HeadIsHeader(m);
    WrapDiverges(table, fallback, Head(m), Header(|Head(m)|, Announced(m)), rest);
  }

  /** A head with which the RP2040 is content as it is. */
  lemma {:induction false} HeadIsServed(
      table: seq<Route>, fallback: Option<Route>, data: string, narrow: Header, rest: seq<RecvEvent>)
    requires HeaderOf(data, TWO_32) == Some(narrow) && narrow.end == |data| <= CAPACITY
    requires TotalLength(narrow) <= |data|
    ensures ServeRp2040(table, fallback, [Chunk(data)] + rest) ==
            Some(Dispatch(table, fallback, data + [NUL], |data|, 0))
  {
    FirstRecvRp2040(data, rest);
    HeadIsReady(data, narrow, rest);
    EmptyBodyIsServed(table, fallback, Ready(data, |data|, narrow.length));
  }

  lemma {:induction false} HeadIsReady(data: string, narrow: Header, rest: seq<RecvEvent>)
    requires HeaderOf(data, TWO_32) == Some(narrow) && narrow.end == |data| <= CAPACITY
    requires TotalLength(narrow) <= |data|
    ensures RunOn(data, None, rest) == Ready(data, |data|, narrow.length)
  {
  }

  lemma {:induction false} EmptyBodyIsServed(table: seq<Route>, fallback: Option<Route>, e: Ended)
    requires e.Ready? && e.headerLength == |e.data| <= CAPACITY
    ensures VerdictOn(table, fallback, e) == Some(Dispatch(table, fallback, e.data + [NUL], |e.data|, 0))
  {
    assert BodyLength(e) == 0;
  }

  /** If the sum wraps back into the head the RP2040 serves the request at once, with an empty body. */
  lemma {:induction false} HugeLengthIsServed(
      table: seq<Route>, fallback: Option<Route>, m: Message, rest: seq<RecvEvent>)
    requires WellFormedHead(m) && |Head(m)| <= CAPACITY && Announced(m) < TWO_64
    requires TotalLength(Header(|Head(m)|, Announced(m))) <= |Head(m)|
    ensures ServeRp2040(table, fallback, [Chunk(Head(m))] + rest) ==
            Some(Answer(table, fallback, m.line, RequestOf(m.line, "")))
  {
    var data, h := Head(m), |Head(m)|;
    HeadEnds(m);
    HeadIsHeader(m);
    var narrow := NarrowHeader(data, Header(h, Announced(m)));
    SameHeader(data);
    HeadIsServed(table, fallback, data, narrow, rest);
    MessageIsDispatched(table, fallback, m, data, h, 0, "");
  }

  /** A Content-Length line as printed. */
  function Printed(n: nat): LengthField {
    LengthField(LENGTH_NAME, " ", Decimal(n), "")
  }

  function HugeGet(n: nat): Message {
    Message(RequestLine("GET", "/", None), "HTTP/1.1", [], Some(Printed(n)), [], "")
  }

  lemma {:induction false} PrintedIsField(n: nat)
    ensures IsLengthField(Printed(n)) && NatOf(Printed(n).digits) == n && IsHeaderLine(FieldLine(Printed(n)))
    ensures |FieldLine(Printed(n))| == 16 + |Decimal(n)|
  {
    DecimalValue(n);
    NameAnnounces();
    assert FieldLine(Printed(n)) == LENGTH_NAME + " " + Decimal(n);
    DigitsMakeLine(Decimal(n));
  }

  lemma {:induction false} DigitsMakeLine(digits: string)
    requires forall c :: c in digits ==> IsDigit(c)
    ensures IsHeaderLine(LENGTH_NAME + " " + digits)
  {
    var line := LENGTH_NAME + " " + digits;
    assert forall i :: 0 <= i < |digits| ==> digits[i] in digits;
    PlainConcat(LENGTH_NAME + " ", digits);
    PrefixedLine(line, "");
    assert line + "" == line;
  }

  lemma {:induction false} TwoLinesLength(a: string, b: string)
    ensures |Lines([a, b])| == |a| + |b| + 4
  {
    assert [a, b][1..] == [b] && [b][1..] == [];
    assert Lines([b]) == b + CRLF + Lines([]);
  }

  lemma {:induction false} HugeGetIsWellFormed(n: nat)
    requires n < TWO_32
    ensures WellFormedHead(HugeGet(n)) && Announced(HugeGet(n)) == n && 36 < |Head(HugeGet(n))| <= 46
  {
    var l, f := "GET / HTTP/1.1", FieldLine(Printed(n));
    PrintedIsField(n);
    assert Pow10(10) == 10_000_000_000;
    DecimalWidth(n, 10);
    GetLineIsPlain(HugeGet(n));
    assert Front(HugeGet(n)) + Back(HugeGet(n)) == [l, f];
    TwoLinesLength(l, f);
  }

  /**
   * A GET for the root that announces one of the 36 largest 32-bit lengths, 4294967295 among them: 413
   * from the Simulator, the root's callback on the RP2040.
   */
  lemma {:induction false} HugeGetDiverges(table: seq<Route>, fallback: Option<Route>, n: nat, rest: seq<RecvEvent>)
    requires TWO_32 - 36 <= n < TWO_32
    ensures var m := HugeGet(n);
            && Serve(table, fallback, [Chunk(Head(m))] + rest) == Status(413)
            && ServeRp2040(table, fallback, [Chunk(Head(m))] + rest) ==
               Some(Answer(table, fallback, m.line, RequestOf(m.line, "")))
  {
    var m := HugeGet(n);
    HugeGetIsWellFormed(n);
    assert TotalLength(Header(|Head(m)|, n)) == |Head(m)| + n - TWO_32;
    HugeLengthDiverges(table, fallback, m, rest);
    HugeLengthIsServed(table, fallback, m, rest);
  }
}
