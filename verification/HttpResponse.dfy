/** Writing responses: the header text, and what reaches the wire under any script of send results. */
module HttpResponse {
  import opened Bytes
  import opened CText
  import opened HttpHeaders
  import opened HttpSocket

  const RESPONSE_HEADER_SIZE := 256
  const DEFAULT_CONTENT_TYPE := "text/html"

  /** The callback owns the body, which must hold at least bodyLength bytes. */
  datatype Response = Response(
    status: uint16, contentType: Option<string>, customHeader: Option<string>,
    body: Option<string>, bodyLength: uint32)

  predicate Sendable(r: Response) {
    r.body.Some? ==> r.bodyLength <= |r.body.value|
  }

  function ReasonPhrase(status: nat): string {
    match status
    case 400 => "Bad Request"
    case 404 => "Not Found"
    case 405 => "Method Not Allowed"
    case 413 => "Payload Too Large"
    case 500 => "Internal Server Error"
    case _ => "OK"
  }

  const VERSION := "HTTP/1.1 "

  function StatusLine(r: Response): string {
    VERSION + Decimal(r.status) + " " + ReasonPhrase(r.status)
  }

  const TYPE_NAME := "Content-Type: "

  function TypeText(r: Response): string {
    CStr(if r.contentType.Some? then r.contentType.value else DEFAULT_CONTENT_TYPE)
  }

  function TypeLine(r: Response): string {
    TYPE_NAME + TypeText(r)
  }

  function LengthLine(r: Response): string {
    FieldLine(LengthFieldOf(r))
  }

  /** What snprintf would print, given room enough. */
  function HeaderText(r: Response): string {
    StatusLine(r) + CRLF + (TypeLine(r) + CRLF + (LengthLine(r) + CRLF + RestOfHeader(r)))
  }

  function RestOfHeader(r: Response): string {
    "Connection: close" + CRLF + CustomText(r) + CRLF
  }

  function CustomText(r: Response): string {
    CStr(if r.customHeader.Some? then r.customHeader.value else "")
  }

  function Payload(r: Response): string
    requires Sendable(r)
  {
    if r.body.Some? then r.body.value[..r.bodyLength] else ""
  }

  // ---------------------------------------------------------------------------
  // The Simulator's writer
  // ---------------------------------------------------------------------------

  datatype SendOutcome = SendOutcome(ok: bool, sent: nat, rest: seq<SendEvent>)

  /** The send loop of WriteAll. */
  function SendAll(data: string, script: seq<SendEvent>): (r: SendOutcome)
    ensures r.sent <= |data| && (r.ok <==> r.sent == |data|)
    decreases |script|
  {
    if data == "" then SendOutcome(true, 0, script)
    else
      var (result, rest) := Send(script, |data|);
      match result
      case SendError => SendOutcome(false, 0, rest)
      case SendRetry => SendAll(data, rest)
      case Took(n) => var r := SendAll(data[n..], rest); SendOutcome(r.ok, n + r.sent, r.rest)
  }

  /** How many bytes the script takes before its first failure. */
  function Budget(script: seq<SendEvent>): nat {
    if script == [] then 0
    else
      match script[0]
      case SendFails => 0
      case SendInterrupted => Budget(script[1..])
      case Takes(n) => if n == 0 then 0 else n + Budget(script[1..])
  }

  /** A write gets across exactly what the script takes, up to the whole of it. */
  lemma {:induction false} SendAllMeaning(data: string, script: seq<SendEvent>)
    ensures SendAll(data, script).sent == Min(|data|, Budget(script))
    decreases |script|
  {
    if data == "" || script == [] {
    } else {
      var (result, rest) := Send(script, |data|);
      if result.Took? {
        SendAllMeaning(data[result.n..], rest);
      } else if result.SendRetry? {
        SendAllMeaning(data, rest);
      }
    }
  }

  lemma {:induction false} TakeMore(data: string, k: nat, n: nat)
    requires k <= |data| && n <= |data[k..]|
    ensures data[k..][n..] == data[k + n..] && data[..k] + data[k..][..n] == data[..k + n]
  {
  }

  method WriteAll(socket: Socket, data: string) returns (ok: bool)
    modifies socket`outgoing, socket`wire
    ensures var r := SendAll(data, old(socket.outgoing));
            ok == r.ok && socket.outgoing == r.rest && socket.wire == old(socket.wire) + data[..r.sent]
  {
    ghost var goal, wire := SendAll(data, socket.outgoing), socket.wire;
    var written := 0;
    while written < |data|
      invariant written <= |data|
      invariant socket.wire == wire + data[..written]
      invariant var r := SendAll(data[written..], socket.outgoing);
                goal == SendOutcome(r.ok, written + r.sent, r.rest)
      decreases |socket.outgoing|
    {
      var result := socket.Transmit(data[written..]);
      match result
      case SendRetry =>
      case SendError =>
        return false;
      case Took(n) =>
        TakeMore(data, written, n);
        written := written + n;
    }
    ok := true;
  }

  /** What a send loop may come to: it gets some of the data across, and succeeds if that is all of it. */
  predicate Sends(r: SendOutcome, data: string) {
    r.sent <= |data| && (r.ok <==> r.sent == |data|)
  }

  /** A header that fits the header buffer, then the payload: the result and the bytes on the wire. */
  function Parts(header: string, payload: string, h: SendOutcome, b: SendOutcome): (bool, string)
    requires Sends(h, header) && Sends(b, payload)
  {
    if |header| >= RESPONSE_HEADER_SIZE then (false, "")
    else if !h.ok then (false, header[..h.sent])
    else (b.ok, header + payload[..b.sent])
  }

  lemma {:induction false} PartsHoldPrefix(header: string, payload: string, h: SendOutcome, b: SendOutcome)
    requires Sends(h, header) && Sends(b, payload)
    ensures var (ok, wire) := Parts(header, payload, h, b);
            && wire <= header + payload
            && (ok <==> |header| < 256 && wire == header + payload)
  {
    assert |header[..h.sent]| == |header + payload| ==> h.sent == |header|;
  }

  function WrittenParts(header: string, payload: string, script: seq<SendEvent>): (bool, string) {
    var h := SendAll(header, script);
    Parts(header, payload, h, SendAll(payload, h.rest))
  }

  function Written(r: Response, script: seq<SendEvent>): (bool, string)
    requires Sendable(r)
  {
    WrittenParts(HeaderText(r), Payload(r), script)
  }

  method WriteParts(socket: Socket, header: string, body: Option<string>) returns (ok: bool)
    modifies socket`outgoing, socket`wire
    ensures var w := WrittenParts(header, if body.Some? then body.value else "", old(socket.outgoing));
            ok == w.0 && socket.wire == old(socket.wire) + w.1
  {
    if |header| >= RESPONSE_HEADER_SIZE {
      return false;
    }
    ok := WriteAll(socket, header);
    if !ok {
      return;
    }
    assert header[..|header|] == header;
    if body.None? || body.value == "" {
      return true;
    }
    ok := WriteAll(socket, body.value);
  }

  method WriteResponse(socket: Socket, r: Response) returns (ok: bool)
    requires Sendable(r)
    modifies socket`outgoing, socket`wire
    ensures var w := Written(r, old(socket.outgoing));
            ok == w.0 && socket.wire == old(socket.wire) + w.1
  {
    ok := WriteParts(socket, HeaderText(r), if r.body.Some? then Some(Payload(r)) else None);
  }

  /** The wire holds a prefix of header and body, and success means all of both. */
  lemma {:induction false} WireHoldsPrefix(r: Response, script: seq<SendEvent>)
    requires Sendable(r)
    ensures var (ok, wire) := Written(r, script);
            && wire <= HeaderText(r) + Payload(r)
            && (ok <==> |HeaderText(r)| < 256 && wire == HeaderText(r) + Payload(r))
  {
    var h := SendAll(HeaderText(r), script);
    PartsHoldPrefix(HeaderText(r), Payload(r), h, SendAll(Payload(r), h.rest));
  }

  // ---------------------------------------------------------------------------
  // What is to arrive
  // ---------------------------------------------------------------------------

  /** The phrases of the six codes that have one; any other code has that of 200. */
  function Phrase(status: nat): string {
    if status == 400 then "Bad Request"
    else if status == 404 then "Not Found"
    else if status == 405 then "Method Not Allowed"
    else if status == 413 then "Payload Too Large"
    else if status == 500 then "Internal Server Error"
    else "OK"
  }

  /** The header of a response, line by line. */
  function FormattedHeader(r: Response): string {
    "HTTP/1.1 " + Decimal(r.status) + " " + Phrase(r.status) + "\r\n" + FormattedLines(r)
  }

  function FormattedLines(r: Response): string {
    "Content-Type: " + CStr(if r.contentType.Some? then r.contentType.value else "text/html") + "\r\n"
    + ("Content-Length: " + Decimal(r.bodyLength) + "\r\n"
       + ("Connection: close\r\n" + CStr(if r.customHeader.Some? then r.customHeader.value else "") + "\r\n"))
  }

  /** The first bytes of the body, as many as the response says. */
  function BodyBytes(r: Response): string
    requires Sendable(r)
  {
    if r.body.Some? then r.body.value[..r.bodyLength] else ""
  }

  /** A bare status is plain text: its phrase. */
  function StatusPage(code: uint16, stray: Option<string>): (r: Response)
    ensures Sendable(r)
  {
    Response(code, Some("text/plain"), stray, Some(Phrase(code)), |Phrase(code)|)
  }

  lemma {:induction false} HeaderIsFormatted(r: Response)
    ensures HeaderText(r) == FormattedHeader(r)
  {
    assert LENGTH_NAME + (" " + (Decimal(r.bodyLength) + "")) == "Content-Length: " + Decimal(r.bodyLength);
    assert "Connection: close" + CRLF == "Connection: close\r\n";
  }

  /** At least n sends, each of which takes something. */
  ghost predicate Progresses(script: seq<SendEvent>, n: nat) {
    |script| >= n && forall e :: e in script ==> e.Takes? && e.n > 0
  }

  /** The wire holds a prefix of header and body, all of both if every send makes progress, nothing of a long header. */
  ghost predicate Delivers(r: Response, sends: seq<SendEvent>, wire: string)
    requires Sendable(r)
  {
    var header, body := FormattedHeader(r), BodyBytes(r);
    && wire <= header + body
    && (|header| >= 256 ==> wire == "")
    && (|header| < 256 && Progresses(sends, |header + body|) ==> wire == header + body)
  }

  lemma {:induction false} SendAllProgresses(data: string, script: seq<SendEvent>, n: nat)
    requires Progresses(script, |data| + n)
    ensures SendAll(data, script).ok && Progresses(SendAll(data, script).rest, n)
    decreases |script|
  {
    if data == "" {
    } else {
      var (result, rest) := Send(script, |data|);
      assert script[0] in script;
      SendAllProgresses(data[result.n..], rest, n);
    }
  }

  lemma {:induction false} WrittenDelivers(r: Response, sends: seq<SendEvent>)
    requires Sendable(r)
    ensures Delivers(r, sends, Written(r, sends).1)
  {
    HeaderIsFormatted(r);
    PartsDeliver(HeaderText(r), Payload(r), sends);
  }

  lemma {:induction false} PartsDeliver(header: string, payload: string, sends: seq<SendEvent>)
    ensures var wire := WrittenParts(header, payload, sends).1;
            && wire <= header + payload
            && (|header| >= 256 ==> wire == "")
            && (|header| < 256 && Progresses(sends, |header + payload|) ==> wire == header + payload)
  {
    var h := SendAll(header, sends);
    PartsHoldPrefix(header, payload, h, SendAll(payload, h.rest));
    if Progresses(sends, |header + payload|) {
      SendAllProgresses(header, sends, |payload|);
      SendAllProgresses(payload, h.rest, 0);
    }
  }

  // ---------------------------------------------------------------------------
  // Reading the header back
  // ---------------------------------------------------------------------------

  /** No control characters. */
  predicate Plain(s: string) {
    forall i :: 0 <= i < |s| ==> ' ' <= s[i]
  }

  lemma {:induction false} PhrasesArePlain()
    ensures Plain("Bad Request") && Plain("Not Found") && Plain("Method Not Allowed")
    ensures Plain("Payload Too Large") && Plain("Internal Server Error") && Plain("OK")
  {
  }

  lemma {:induction false} ReasonIsPlain(status: nat)
    ensures Plain(ReasonPhrase(status))
  {
    PhrasesArePlain();
  }

  lemma {:induction false} PlainConcat(a: string, b: string)
    requires Plain(a) && Plain(b)
    ensures Plain(a + b)
  {
  }

  /** A plain text in front of a line makes a line. */
  lemma {:induction false} PrefixedLine(head: string, t: string)
    requires Plain(head) && IsLine(t)
    ensures IsLine(head + t)
  {
    var l := head + t;
    forall j: int
      ensures !At(l, CRLF, j)
    {
      CrlfAt(l, j);
      CrlfAt(t, j - |head|);
      assert !At(t, CRLF, j - |head|);
      assert 0 <= j < |head| ==> l[j] == head[j];
    }
    assert forall i :: 0 <= i < |l| ==> l[i] == (if i < |head| then head[i] else t[i - |head|]);
  }

  /** A line that differs from the field name somewhere does not announce. */
  lemma {:induction false} OtherName(l: string, k: nat)
    requires k < |LENGTH_NAME| && (k < |l| ==> Lower(l[k]) != Lower(LENGTH_NAME[k]))
    ensures !Announces(l)
  {
    NameInAnyCase(l);
  }

  lemma {:induction false} StatusLineIsPlain(r: Response)
    ensures IsLine(StatusLine(r)) && !Announces(StatusLine(r))
  {
    var digits := Decimal(r.status);
    ReasonIsPlain(r.status);
    assert forall i :: 0 <= i < |digits| ==> digits[i] in digits;
    PlainConcat(VERSION, digits);
    PlainConcat(VERSION + digits, " ");
    PlainConcat(VERSION + digits + " ", ReasonPhrase(r.status));
    PrefixedLine(StatusLine(r), "");
    assert StatusLine(r) + "" == StatusLine(r);
    assert StatusLine(r)[0] == VERSION[0] == 'H';
    OtherName(StatusLine(r), 0);
  }

  /** No line break inside the content type. */
  ghost predicate PlainType(r: Response) {
    IsLine(TypeText(r))
  }

  lemma {:induction false} TypeLineIsPlain(r: Response)
    requires PlainType(r)
    ensures IsLine(TypeLine(r)) && !Announces(TypeLine(r))
  {
    TypeNameIsPlain(TypeText(r));
  }

  lemma {:induction false} TypeNameIsPlain(t: string)
    requires IsLine(t)
    ensures IsLine(TYPE_NAME + t) && !Announces(TYPE_NAME + t)
  {
    PrefixedLine(TYPE_NAME, t);
    assert (TYPE_NAME + t)[8] == TYPE_NAME[8] == 'T' && LENGTH_NAME[8] == 'L';
    OtherName(TYPE_NAME + t, 8);
  }

  function LengthFieldOf(r: Response): LengthField {
    LengthField(LENGTH_NAME, " ", Decimal(r.bodyLength), "")
  }

  /** The header text above the length line. */
  function Above(r: Response): string {
    StatusLine(r) + CRLF + (TypeLine(r) + CRLF)
  }

  lemma {:induction false} Regroup(a: string, b: string, rest: string)
    ensures a + CRLF + (b + CRLF + rest) == a + CRLF + (b + CRLF) + rest
  {
  }

  lemma {:induction false} LineStands(t: string, above: string, line: string, rest: string, j: nat)
    requires t == above + (line + CRLF + rest) && j == |above|
    ensures above <= t && At(t, line, j) && At(t, CRLF, j + |line|)
  {
    assert t[0..|t|] == t;
    AtConcat(t, above, line + CRLF + rest, 0, j);
    AtConcat(t, line + CRLF, rest, j, j + |line| + 2);
    AtConcat(t, line, CRLF, j, j + |line|);
  }

  lemma {:induction false} LengthLineStands(r: Response)
    ensures HeaderText(r) == Above(r) + (LengthLine(r) + CRLF + RestOfHeader(r)) && EndsLine(Above(r))
  {
    Regroup(StatusLine(r), TypeLine(r), LengthLine(r) + CRLF + RestOfHeader(r));
  }

  /** A length line below complete lines is what the scan reads, unless those lines announce a length. */
  lemma {:induction false} LengthBelow(t: string, above: string, f: LengthField, rest: string, n: nat, word: WordSize)
    requires t == above + (FieldLine(f) + CRLF + rest) && EndsLine(above)
    requires IsLengthField(f) && NatOf(f.digits) == n < word
    ensures ContentLength(t, word) == if AnnouncementLine(above, 0).None? then n else ContentLength(above, word)
  {
    var j := |above|;
    LineStands(t, above, FieldLine(f), rest, j);
    if AnnouncementLine(above, 0).Some? {
      LengthIsStable(above, t, word);
    } else {
      ScanIsStable(above, t, 0);
      ScanReadsValue(t, j, f, n, word);
      LengthByHops(t, j, j, n, word);
    }
  }

  /**
   * The server's own header parser reads the emitted body length back, for every 32-bit value, if and
   * only if the text above the length line announces no other length.
   */
  lemma {:induction false} LengthRoundTripIff(r: Response, word: WordSize)
    ensures ContentLength(HeaderText(r), word) == r.bodyLength <==>
            AnnouncementLine(Above(r), 0).None? || ContentLength(Above(r), word) == r.bodyLength
  {
    LengthLineStands(r);
    NameAnnounces();
    DecimalValue(r.bodyLength);
    LengthBelow(HeaderText(r), Above(r), LengthFieldOf(r), RestOfHeader(r), r.bodyLength, word);
  }

  lemma {:induction false} TwoLines(t: string, a: string, b: string, i: nat, j: nat)
    requires t == a + CRLF + (b + CRLF) && i == |a| + 2 && j == i + |b|
    ensures At(t, a, 0) && At(t, CRLF, |a|) && At(t, b, i) && At(t, CRLF, j) && |t| == j + 2
  {
    assert t[0..|t|] == t;
    AtConcat(t, a + CRLF, b + CRLF, 0, i);
    AtConcat(t, a, CRLF, 0, |a|);
    AtConcat(t, b, CRLF, i, j);
  }

  lemma {:induction false} TwoSilentLines(t: string, a: string, b: string)
    requires t == a + CRLF + (b + CRLF)
    requires IsLine(a) && !Announces(a)
    requires IsLine(b) && !Announces(b)
    ensures AnnouncementLine(t, 0).None?
  {
    var i := |a| + 2;
    TwoLines(t, a, b, i, i + |b|);
    ScanSkipsLine(t, 0, a, i);
    ScanSkipsLine(t, i, b, i + |b| + 2);
  }

  /** A content type without a line break announces nothing, so the length is read back. */
  lemma {:induction false} LengthRoundTrip(r: Response, word: WordSize)
    requires PlainType(r)
    ensures ContentLength(HeaderText(r), word) == r.bodyLength
  {
    StatusLineIsPlain(r);
    TypeLineIsPlain(r);
    TwoSilentLines(Above(r), StatusLine(r), TypeLine(r));
    LengthRoundTripIff(r, word);
  }

  /** A content type that carries a length line of its own is believed instead. */
  lemma {:induction false} ForgedTypeAnnounces(r: Response, kind: string, f: LengthField, word: WordSize)
    requires TypeText(r) == kind + CRLF + FieldLine(f) && IsLine(kind) && IsLengthField(f)
    ensures ContentLength(HeaderText(r), word) == NatOf(f.digits) % word
  {
    ForgedAbove(r, kind, f, word);
    AboveDecides(r, word);
  }

  lemma {:induction false} Reassociate(a: string, b: string, c: string, d: string)
    ensures a + (b + c + d) == a + b + c + d
  {
  }

  lemma {:induction false} ForgedAbove(r: Response, kind: string, f: LengthField, word: WordSize)
    requires TypeText(r) == kind + CRLF + FieldLine(f) && IsLine(kind) && IsLengthField(f)
    ensures AnnouncementLine(Above(r), 0).Some? && ContentLength(Above(r), word) == NatOf(f.digits) % word
  {
    StatusLineIsPlain(r);
    TypeNameIsPlain(kind);
    Reassociate(TYPE_NAME, kind, CRLF, FieldLine(f));
    SecondLineForges(Above(r), StatusLine(r), TYPE_NAME + kind, f, word);
  }

  lemma {:induction false} AboveDecides(r: Response, word: WordSize)
    requires AnnouncementLine(Above(r), 0).Some?
    ensures ContentLength(HeaderText(r), word) == ContentLength(Above(r), word)
  {
    LengthLineStands(r);
    LengthIsStable(Above(r), HeaderText(r), word);
  }

  lemma {:induction false} ThreeLines(t: string, a: string, b: string, c: string, i: nat, j: nat)
    requires t == a + CRLF + (b + CRLF + c + CRLF) && i == |a| + 2 && j == i + |b| + 2
    ensures At(t, a, 0) && At(t, CRLF, |a|) && At(t, b, i) && At(t, CRLF, i + |b|)
    ensures At(t, c, j) && At(t, CRLF, j + |c|)
  {
    TwoLines(t, a, b + CRLF + c, i, j + |c|);
    AtConcat(t, b + CRLF, c, i, j);
    AtConcat(t, b, CRLF, i, j - 2);
  }

  lemma {:induction false} SecondLineForges(t: string, a: string, b: string, f: LengthField, word: WordSize)
    requires t == a + CRLF + (b + CRLF + FieldLine(f) + CRLF) && IsLengthField(f)
    requires IsLine(a) && !Announces(a)
    requires IsLine(b) && !Announces(b)
    ensures AnnouncementLine(t, 0).Some? && ContentLength(t, word) == NatOf(f.digits) % word
  {
    var i := |a| + 2;
    var j := i + |b| + 2;
    ThreeLines(t, a, b, FieldLine(f), i, j);
    ScanSkipsLine(t, 0, a, i);
    ScanSkipsLine(t, i, b, j);
    ScanReadsField(t, j, f, word);
    LengthByHops(t, i, j, NatOf(f.digits) % word, word);
  }

  const FORGED := Response(200, Some("text/html" + CRLF + (LENGTH_NAME + " 5")), None, None, 0)

  /** One such response, of no body, that announces five bytes. */
  lemma {:induction false} ForgedResponseAnnouncesFive(word: WordSize)
    ensures Sendable(FORGED) && FORGED.bodyLength == 0 && ContentLength(HeaderText(FORGED), word) == 5
  {
    FiveBytesIsField();
    var kind := "text/html";
    var text := kind + CRLF + FieldLine(FIVE_BYTES);
    assert FORGED.contentType == Some(text);
    assert NUL !in kind && NUL !in CRLF;
    assert text[..|text|] == text;
    CStrIs(text, |text|);
    PrefixedLine(kind, "");
    assert kind + "" == kind;
    ForgedTypeAnnounces(FORGED, kind, FIVE_BYTES, word);
    SmallModulo(5, word);
  }
}
