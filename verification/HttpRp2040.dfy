/** The RP2040's HTTP server: its own framer over 32-bit lengths, and its own send loop. */
module HttpRp2040 {
  import opened Bytes
  import opened CText
  import opened HttpHeaders
  import opened HttpSocket
  import opened HttpFramer
  import opened HttpRoutes
  import opened HttpResponse
  import opened HttpServer

  /** How the connection loop ends: silently, with 413, or with a request to dispatch. */
  datatype Ended = Dropped | Oversized | Ready(data: string, headerLength: nat, expectedBodyLength: nat)

  /** HeaderLength + ExpectedBodyLength in 32-bit arithmetic. */
  function TotalLength(h: Header): nat {
    (h.end + h.length) % TWO_32
  }

  /** What the bytes received so far call for; the size check is repeated after every recv. */
  function Weigh(data: string, known: Option<Header>): (r: (Decision, Option<Header>))
    requires known.Some? ==> known.value.end <= |data|
    ensures r.1.Some? ==> r.1.value.end <= |data|
    ensures r.0.Complete? ==> r.1.Some?
  {
    var header := if known.Some? then known else HeaderOf(data, TWO_32);
    if header.None? then (ReadOn, None) else (Measure(|data|, header.value), header)
  }

  function Measure(received: nat, h: Header): Decision {
    if TotalLength(h) > CAPACITY then GiveUp
    else if received >= TotalLength(h) then Complete
    else ReadOn
  }

  /** The loop of ServeConnection, step by step over the script. */
  function Run(data: string, header: Option<Header>, script: seq<RecvEvent>): (r: Ended)
    requires |data| <= CAPACITY
    requires header.Some? ==> header.value.end <= |data|
    ensures r.Ready? ==> r.headerLength <= |r.data| <= CAPACITY
    decreases Weight(script), 0
  {
    if |data| >= CAPACITY then Oversized
    else
      var (got, rest) := Recv(script, CAPACITY - |data|);
      if got.Got? then RunOn(data + got.data, header, rest) else Dropped
  }

  /** How the loop goes on after a recv that left data in the buffer. */
  function RunOn(data: string, known: Option<Header>, rest: seq<RecvEvent>): (r: Ended)
    requires |data| <= CAPACITY
    requires known.Some? ==> known.value.end <= |data|
    ensures r.Ready? ==> r.headerLength <= |r.data| <= CAPACITY
    decreases Weight(rest), 1
  {
    var (decision, header) := Weigh(data, known);
    match decision
    case ReadOn => Run(data, header, rest)
    case GiveUp => Oversized
    case Complete => Ready(data, header.value.end, header.value.length)
  }

  lemma {:induction false} RunStep(
      data: string, header: Option<Header>, script: seq<RecvEvent>, d: string, rest: seq<RecvEvent>)
    requires |data| < CAPACITY && (header.Some? ==> header.value.end <= |data|)
    requires Recv(script, CAPACITY - |data|) == (Got(d), rest)
    ensures Run(data, header, script) == RunOn(data + d, header, rest)
  {
  }

  lemma {:induction false} WeighStep(data: string, known: Option<Header>, rest: seq<RecvEvent>)
    requires |data| <= CAPACITY && (known.Some? ==> known.value.end <= |data|)
    ensures var (decision, header) := Weigh(data, known);
            RunOn(data, known, rest) ==
            match decision
            case ReadOn => Run(data, header, rest)
            case GiveUp => Oversized
            case Complete => Ready(data, header.value.end, header.value.length)
  {
  }

  lemma {:induction false} WeighKnown(data: string, known: Option<Header>, header: Option<Header>)
    requires known.Some? ==> known.value.end <= |data|
    requires header == if known.Some? then known else HeaderOf(data, TWO_32)
    ensures Weigh(data, known) == (if header.None? then ReadOn else Measure(|data|, header.value), header)
  {
  }

  /** The body length a callback is given. */
  function BodyLength(e: Ended): (n: uint16)
    requires e.Ready? && e.headerLength <= |e.data| <= CAPACITY
    ensures e.headerLength + n <= |e.data|
  {
    Min(e.expectedBodyLength, |e.data| - e.headerLength)
  }

  /** The verdict on a script, or None when the connection is closed without a response. */
  function ServeRp2040(table: seq<Route>, fallback: Option<Route>, script: seq<RecvEvent>): Option<Verdict> {
    VerdictOn(table, fallback, Run("", None, script))
  }

  function VerdictOn(table: seq<Route>, fallback: Option<Route>, e: Ended): Option<Verdict>
    requires e.Ready? ==> e.headerLength <= |e.data| <= CAPACITY
  {
    match e
    case Dropped => None
    case Oversized => Some(Status(413))
    case Ready(data, h, _) => Some(Dispatch(table, fallback, data + [NUL], h, BodyLength(e)))
  }

  /**
   * For every script the NUL written after the body stays inside the 2048-byte buffer, even when
   * the announced length makes the 32-bit sum wrap.
   */
  lemma BodyNulInBounds(script: seq<RecvEvent>)
    requires Run("", None, script).Ready?
    ensures var e := Run("", None, script);
            e.headerLength + BodyLength(e) < 2048
  {
  }

  // ---------------------------------------------------------------------------
  // The connection
  // ---------------------------------------------------------------------------

  const SEND_CHUNK := 1460

  /** The send loop: at most one TCP segment a call, and no retry. */
  function SendChunks(data: string, script: seq<SendEvent>): (r: SendOutcome)
    ensures r.sent <= |data| && (r.ok <==> r.sent == |data|)
    decreases |script|
  {
    if data == "" then SendOutcome(true, 0, script)
    else
      var (result, rest) := Send(script, Min(|data|, SEND_CHUNK));
      if result.Took? then
        var r := SendChunks(data[result.n..], rest);
        SendOutcome(r.ok, result.n + r.sent, r.rest)
      else SendOutcome(false, 0, rest)
  }

  /** How many bytes the script takes before its first failure or interruption, a segment at most each time. */
  function ChunkBudget(script: seq<SendEvent>): nat {
    if script == [] || !script[0].Takes? || script[0].n == 0 then 0
    else Min(script[0].n, 1460) + ChunkBudget(script[1..])
  }

  /** The chunked loop gets across exactly that much, up to the whole of the data. */
  lemma {:induction false} SendChunksMeaning(data: string, script: seq<SendEvent>)
    ensures SendChunks(data, script).sent == Min(|data|, ChunkBudget(script))
    decreases |script|
  {
    if data == "" || script == [] {
    } else {
      var (result, rest) := Send(script, Min(|data|, SEND_CHUNK));
      if result.Took? {
        SendChunksMeaning(data[result.n..], rest);
      }
    }
  }

  lemma {:induction false} CursorMoves(data: string, cursor: nat, n: nat)
    requires cursor + n <= |data|
    ensures data[..cursor] + data[cursor..cursor + n] == data[..cursor + n]
  {
  }

  /** What is left of the loop once the first bytes are on the wire. */
  ghost predicate Continues(goal: SendOutcome, data: string, cursor: nat, script: seq<SendEvent>)
    requires cursor <= |data|
  {
    var r := SendChunks(data[cursor..], script);
    goal == SendOutcome(r.ok, cursor + r.sent, r.rest)
  }

  lemma {:induction false} SendStep(goal: SendOutcome, data: string, cursor: nat, chunk: nat, script: seq<SendEvent>)
    requires cursor < |data| && chunk == Min(|data| - cursor, SEND_CHUNK) && Continues(goal, data, cursor, script)
    ensures var (result, rest) := Send(script, chunk);
            if result.Took? then Continues(goal, data, cursor + result.n, rest)
            else goal == SendOutcome(false, cursor, rest)
  {
    var (result, rest) := Send(script, chunk);
    if result.Took? {
      assert data[cursor..][result.n..] == data[cursor + result.n..];
    }
  }

  method SendBytes(socket: Socket, data: string) returns (ok: bool)
    modifies socket`outgoing, socket`wire
    ensures var r := SendChunks(data, old(socket.outgoing));
            ok == r.ok && socket.outgoing == r.rest && socket.wire == old(socket.wire) + data[..r.sent]
  {
    ghost var goal, wire := SendChunks(data, socket.outgoing), socket.wire;
    var cursor: nat := 0;
    assert data[0..] == data;
    while cursor < |data|
      invariant cursor <= |data|
      invariant socket.wire == wire + data[..cursor]
      invariant Continues(goal, data, cursor, socket.outgoing)
      decreases |socket.outgoing|
    {
      var chunk := Min(|data| - cursor, SEND_CHUNK);
      SendStep(goal, data, cursor, chunk, socket.outgoing);
      var result := SendChunk(socket, data, cursor, chunk);
      if !result.Took? {
        return false;
      }
      CursorMoves(data, cursor, result.n);
      cursor := cursor + result.n;
    }
    ok := true;
  }

  /** One send of the bytes from the cursor on. */
  method SendChunk(socket: Socket, data: string, cursor: nat, chunk: nat) returns (result: SendResult)
    requires 0 < chunk <= |data| - cursor
    modifies socket`outgoing, socket`wire
    ensures (result, socket.outgoing) == Send(old(socket.outgoing), chunk)
    ensures socket.wire == old(socket.wire) + if result.Took? then data[cursor..cursor + result.n] else ""
  {
    result := socket.Transmit(data[cursor..cursor + chunk]);
    if result.Took? {
      SliceOfSlice(data, cursor, cursor + chunk, 0, result.n);
    }
  }

  /** The bytes SendResponse puts on the wire: the header if it fits its buffer, then the body. */
  function SentParts(header: string, payload: string, script: seq<SendEvent>): (bool, string) {
    var h := SendChunks(header, script);
    Parts(header, payload, h, SendChunks(payload, h.rest))
  }

  /** Here too the wire holds a prefix of header and body, and success means all of both. */
  lemma {:induction false} SentPartsHoldPrefix(header: string, payload: string, script: seq<SendEvent>)
    ensures var (ok, wire) := SentParts(header, payload, script);
            && wire <= header + payload
            && (ok <==> |header| < 256 && wire == header + payload)
  {
    var h := SendChunks(header, script);
    PartsHoldPrefix(header, payload, h, SendChunks(payload, h.rest));
  }

  lemma {:induction false} SendChunksProgresses(data: string, script: seq<SendEvent>, n: nat)
    requires Progresses(script, |data| + n)
    ensures SendChunks(data, script).ok && Progresses(SendChunks(data, script).rest, n)
    decreases |script|
  {
    if data == "" {
    } else {
      var (result, rest) := Send(script, Min(|data|, SEND_CHUNK));
      assert script[0] in script;
      SendChunksProgresses(data[result.n..], rest, n);
    }
  }

  lemma {:induction false} SentPartsDeliver(header: string, payload: string, sends: seq<SendEvent>)
    ensures var wire := SentParts(header, payload, sends).1;
            && wire <= header + payload
            && (|header| >= 256 ==> wire == "")
            && (|header| < 256 && Progresses(sends, |header + payload|) ==> wire == header + payload)
  {
    var h := SendChunks(header, sends);
    PartsHoldPrefix(header, payload, h, SendChunks(payload, h.rest));
    if Progresses(sends, |header + payload|) {
      SendChunksProgresses(header, sends, |payload|);
      SendChunksProgresses(payload, h.rest, 0);
    }
  }

  lemma {:induction false} SentAnswers(
      verdict: Verdict, app: Application, stray: Option<string>, sends: seq<SendEvent>)
    requires WellBehaved(app)
    ensures Answered(verdict, app, stray, sends, Sent(Some(verdict), app, stray, sends))
  {
    var r := ResponseTo(verdict, app, stray);
    ResponseIsAnswer(verdict, app, stray);
    HeaderIsFormatted(r);
    SentPartsDeliver(HeaderText(r), Payload(r), sends);
  }

  method SendResponse(socket: Socket, r: Response) returns (ok: bool)
    requires Sendable(r)
    modifies socket`outgoing, socket`wire
    ensures var w := SentParts(HeaderText(r), Payload(r), old(socket.outgoing));
            ok == w.0 && socket.wire == old(socket.wire) + w.1
  {
    var header := HeaderText(r);
    ok := SendHeaderAndBody(socket, header, if r.body.Some? then Some(Payload(r)) else None);
  }

  method SendHeaderAndBody(socket: Socket, header: string, body: Option<string>) returns (ok: bool)
    modifies socket`outgoing, socket`wire
    ensures var w := SentParts(header, if body.Some? then body.value else "", old(socket.outgoing));
            ok == w.0 && socket.wire == old(socket.wire) + w.1
  {
    if |header| >= RESPONSE_HEADER_SIZE {
      return false;
    }
    ok := SendBytes(socket, header);
    if !ok {
      return;
    }
    assert header[..|header|] == header;
    if body.None? || body.value == "" {
      return true;
    }
    ok := SendBytes(socket, body.value);
  }

  class ConnectionContext {
    const requestBuffer: array<char>
    var requestLength: nat
    var headerLength: nat
    var expectedBodyLength: nat
    var headersComplete: bool

    ghost predicate Valid()
      reads this, requestBuffer
    {
      && requestBuffer.Length == BUFFER_SIZE && requestLength <= CAPACITY
      && (requestLength > 0 ==> requestBuffer[requestLength] == NUL)
      && (headersComplete ==> 4 <= headerLength <= requestLength && expectedBodyLength < TWO_32)
    }

    ghost function Data(): string
      requires Valid()
      reads this, requestBuffer
    {
      requestBuffer[..requestLength]
    }

    ghost function Known(): Option<Header>
      reads this
    {
      if headersComplete then Some(Header(headerLength, expectedBodyLength)) else None
    }

    /** The context is cleared before every connection. */
    constructor ()
      ensures Valid() && fresh(requestBuffer) && Data() == "" && Known() == None
    {
      requestBuffer := new char[BUFFER_SIZE](_ => NUL);
      requestLength, headerLength, expectedBodyLength, headersComplete := 0, 0, 0, false;
    }

    /** Records the header once the blank line has arrived. */
    method CompleteHeaders()
      requires Valid() && !headersComplete
      modifies `headersComplete, `headerLength, `expectedBodyLength
      ensures Valid() && Data() == old(Data()) && Known() == HeaderOf(Data(), TWO_32)
    {
      var found := FindHeader(CStr(requestBuffer[..requestLength]), TWO_32);
      if found.Some? {
        LengthFitsWord(CStr(Data()), 0, TWO_32);
        headersComplete, headerLength, expectedBodyLength := true, found.value.end, found.value.length;
      }
    }

    predicate RequestIsComplete()
      reads this
    {
      headersComplete && requestLength >= (headerLength + expectedBodyLength) % TWO_32
    }

    /** One recv into the free part of the buffer; false when it returns no bytes. */
    method Fill(socket: Socket) returns (received: bool)
      requires Valid() && requestLength < CAPACITY
      modifies `requestLength, requestBuffer, socket`incoming
      ensures Valid() && Known() == old(Known())
      ensures var (got, rest) := Recv(old(socket.incoming), CAPACITY - old(requestLength));
              && received == got.Got? && socket.incoming == rest
              && (received ==> Data() == old(Data()) + got.data)
    {
      var result;
      result, requestLength := ReceiveInto(socket, requestBuffer, requestLength);
      received := result.Got?;
    }

    /** What follows a successful recv. */
    method Consider() returns (decision: Decision)
      requires Valid()
      modifies `headersComplete, `headerLength, `expectedBodyLength
      ensures Valid() && Data() == old(Data())
      ensures (decision, Known()) == Weigh(Data(), old(Known()))
    {
      ghost var known := Known();
      if !headersComplete {
        CompleteHeaders();
      }
      WeighKnown(Data(), known, Known());
      decision := Decide();
    }

    /** The size check and the test for a complete request. */
    method Decide() returns (decision: Decision)
      requires Valid()
      ensures decision == if Known().None? then ReadOn else Measure(|Data()|, Known().value)
    {
      if !headersComplete {
        return ReadOn;
      }
      if (headerLength + expectedBodyLength) % TWO_32 > CAPACITY {
        return GiveUp;
      }
      decision := if RequestIsComplete() then Complete else ReadOn;
    }

    /** Reads until there is something to say about the request. */
    method ReadRequest(socket: Socket) returns (ended: Option<Decision>)
      requires Valid() && Data() == "" && Known() == None
      modifies this, requestBuffer, socket`incoming
      ensures Valid()
      ensures match Run("", None, old(socket.incoming))
              case Dropped => ended == None
              case Oversized => ended == Some(GiveUp)
              case Ready(data, h, e) => ended == Some(Complete) && Data() == data && Known() == Some(Header(h, e))
    {
      ghost var goal := Run("", None, socket.incoming);
      while true
        invariant Valid() && goal == Run(Data(), Known(), socket.incoming)
        decreases Weight(socket.incoming)
      {
        if requestLength >= CAPACITY {
          return Some(GiveUp);
        }
        var received, decision := Pass(socket);
        if !received {
          return None;
        }
        if decision != ReadOn {
          return Some(decision);
        }
      }
    }

    /** One pass of the loop. */
    method Pass(socket: Socket) returns (received: bool, decision: Decision)
      requires Valid() && requestLength < CAPACITY
      modifies this, requestBuffer, socket`incoming
      ensures Valid()
      ensures var r := Run(old(Data()), old(Known()), old(socket.incoming));
              if !received then r.Dropped?
              else
                match decision
                case ReadOn =>
                  && r == Run(Data(), Known(), socket.incoming)
                  && Weight(socket.incoming) < Weight(old(socket.incoming))
                case GiveUp => r.Oversized?
                case Complete => Known().Some? && r == Ready(Data(), Known().value.end, Known().value.length)
    {
      ghost var before, known, script := Data(), Known(), socket.incoming;
      ghost var goal := Run(before, known, script);
      decision := GiveUp;
      received := Fill(socket);
      if !received {
        return;
      }
      ghost var data := Data();
      RunStep(before, known, script, Recv(script, CAPACITY - |before|).0.data, socket.incoming);
      assert goal == RunOn(data, known, socket.incoming);
      decision := Consider();
      WeighStep(data, known, socket.incoming);
    }

    /** Parses, routes and prepares the callback's request. */
    method DispatchRequest(registry: Registry) returns (verdict: Verdict)
      requires Valid() && registry.Valid() && headersComplete
      modifies requestBuffer
      ensures var e := old(Ready(Data(), headerLength, expectedBodyLength));
              verdict == Dispatch(registry.Table(), registry.Default(), old(Data()) + [NUL],
                                  headerLength, BodyLength(e))
    {
      var bodyLength := Min(expectedBodyLength, requestLength - headerLength);
      assert bodyLength == BodyLength(Ready(Data(), headerLength, expectedBodyLength));
      verdict := DispatchFilled(registry, requestBuffer, requestLength, headerLength, bodyLength);
    }

    /** Serves one accepted connection; None when it is closed without a response. */
    method ServeConnection(socket: Socket, registry: Registry, app: Application, stray: Option<string>)
      returns (verdict: Option<Verdict>)
      requires Valid() && Data() == "" && Known() == None && registry.Valid() && WellBehaved(app)
      modifies this, requestBuffer, socket
      ensures verdict == ServeRp2040(registry.Table(), registry.Default(), old(socket.incoming))
      ensures socket.wire == old(socket.wire) + Sent(verdict, app, stray, old(socket.outgoing))
      ensures if verdict.None? then socket.wire == old(socket.wire)
              else Answered(verdict.value, app, stray, old(socket.outgoing), socket.wire[|old(socket.wire)|..])
    {
      var ended := ReadRequest(socket);
      if ended.None? {
        return None;
      }
      if ended.value == GiveUp {
        verdict := Some(Status(413));
      } else {
        var answer := DispatchRequest(registry);
        verdict := Some(answer);
      }
      SentAnswers(verdict.value, app, stray, socket.outgoing);
      var sent := SendResponse(socket, ResponseTo(verdict.value, app, stray));
    }
  }

  /** The bytes a connection sends for its verdict; nothing when it is dropped. */
  ghost function Sent(verdict: Option<Verdict>, app: Application, stray: Option<string>, script: seq<SendEvent>): string
    requires WellBehaved(app)
  {
    if verdict.None? then ""
    else
      var r := ResponseTo(verdict.value, app, stray);
      SentParts(HeaderText(r), Payload(r), script).1
  }
}
