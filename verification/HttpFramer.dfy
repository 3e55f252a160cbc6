/** The Simulator's request framer: filling the request buffer from recv until the body is there. */
module HttpFramer {
  import opened Bytes
  import opened CText
  import opened HttpHeaders
  import opened HttpSocket

  const BUFFER_SIZE := 2048
  /** One byte of the buffer is kept for the final NUL. */
  const CAPACITY := 2047

  /** Where the body starts and how long the request says it is. */
  datatype Header = Header(end: nat, length: nat)

  datatype Reason = TooLarge | NoHeader | PeerClosed | ReadFailed

  /** How the loop ends, with the bytes then in the buffer. */
  datatype Fill =
    | Refused(data: string, why: Reason)
    | Framed(data: string, headerEnd: nat, bodyLength: nat, complete: bool)

  function HeaderOf(data: string, word: WordSize): (r: Option<Header>)
    ensures r.Some? ==> 4 <= r.value.end <= |CStr(data)|
  {
    match Find(CStr(data), BLANK_LINE, 0)
    case None => None
    case Some(p) => Some(Header(p + 4, ContentLength(CStr(data), word)))
  }

  /** What a request has when the loop stops with its header complete. */
  function Finish(data: string, h: Header, complete: bool): Fill
    requires h.end <= |data|
  {
    Framed(data, h.end, Min(|data| - h.end, h.length), complete)
  }

  /** One recv at the end of the buffered bytes. */
  method ReceiveInto(socket: Socket, buffer: array<char>, received: nat) returns (result: RecvResult, total: nat)
    requires received < CAPACITY < buffer.Length
    modifies socket`incoming, buffer
    ensures (result, socket.incoming) == Recv(old(socket.incoming), CAPACITY - received)
    ensures if result.Got? then
              && total == received + |result.data| <= CAPACITY && buffer[total] == NUL
              && buffer[..total] == old(buffer[..received]) + result.data
            else total == received && buffer[..] == old(buffer[..])
  {
    total := received;
    result := socket.Receive(CAPACITY - received);
    if result.Got? {
      total := Store(buffer, received, result.data);
    }
  }

  /** The search for the blank line, and the announced length once it is there. */
  method FindHeader(text: string, word: WordSize) returns (h: Option<Header>)
    requires NUL !in text
    ensures forall data: string :: CStr(data) == text ==> h == HeaderOf(data, word)
  {
    var separator := Find(text, BLANK_LINE, 0);
    if separator.None? {
      return None;
    }
    var length := ContentLengthOf(text, word);
    h := Some(Header(separator.value + 4, length));
  }

  datatype Decision = ReadOn | Complete | GiveUp

  function Await(received: nat, h: Header): Decision {
    if received >= h.end + h.length then Complete else ReadOn
  }

  /** What the bytes received so far call for, given what was known of the header before them. */
  function Judge(data: string, known: Option<Header>): (r: (Decision, Option<Header>))
    requires known.Some? ==> known.value.end <= |data|
    ensures r.1.Some? ==> r.1.value.end <= |data|
    ensures r.1.None? ==> r.0.ReadOn?
    ensures r.0.ReadOn? && r.1.Some? ==> |data| < r.1.value.end + r.1.value.length
    ensures known.None? && r.1.Some? && !r.0.GiveUp? ==> r.1.value.end + r.1.value.length <= CAPACITY
    ensures known.Some? ==> r.1 == known && !r.0.GiveUp?
  {
    if known.Some? then (Await(|data|, known.value), known)
    else
      var h := HeaderOf(data, TWO_64);
      if h.None? then (ReadOn, None)
      else if h.value.length > CAPACITY - h.value.end then (GiveUp, h)
      else (Await(|data|, h.value), h)
  }

  /** The loop of ReadRequest, step by step over the script. */
  function Loop(data: string, header: Option<Header>, script: seq<RecvEvent>): (r: Fill)
    requires |data| <= CAPACITY
    requires header.Some? ==> header.value.end <= |data|
    ensures |r.data| <= CAPACITY
    ensures r.Framed? ==> r.headerEnd + r.bodyLength <= |r.data|
    decreases Weight(script), 0
  {
    if |data| == CAPACITY then
      if header.None? then Refused(data, NoHeader) else Finish(data, header.value, true)
    else
      var (got, rest) := Recv(script, CAPACITY - |data|);
      match got
      case Retry => Loop(data, header, rest)
      case Error => Refused(data, ReadFailed)
      case Closed => if header.None? then Refused(data, PeerClosed) else Finish(data, header.value, false)
      case Got(d) => GoOn(data + d, header, rest)
  }

  /** How the loop goes on after a recv that left data in the buffer. */
  function GoOn(data: string, known: Option<Header>, rest: seq<RecvEvent>): (r: Fill)
    requires |data| <= CAPACITY
    requires known.Some? ==> known.value.end <= |data|
    ensures |r.data| <= CAPACITY
    ensures r.Framed? ==> r.headerEnd + r.bodyLength <= |r.data|
    decreases Weight(rest), 1
  {
    var (decision, header) := Judge(data, known);
    match decision
    case ReadOn => Loop(data, header, rest)
    case GiveUp => Refused(data, TooLarge)
    case Complete => Finish(data, header.value, true)
  }

  /** The loop from an empty buffer. */
  function ReadAll(script: seq<RecvEvent>): Fill {
    Loop("", None, script)
  }

  /** What recv writes at the end of the buffered bytes, and the NUL put after it. */
  method Store(buffer: array<char>, received: nat, data: string) returns (total: nat)
    requires received + |data| < buffer.Length
    modifies buffer
    ensures total == received + |data|
    ensures buffer[..total] == old(buffer[..received]) + data && buffer[total] == NUL
  {
    forall k | 0 <= k < |data| {
      buffer[received + k] := data[k];
    }
    total := received + |data|;
    buffer[total] := NUL;
  }

  /** The body of the loop after a successful recv. */
  method Consider(requestBuffer: array<char>, received: nat, known: Option<Header>)
    returns (decision: Decision, header: Option<Header>)
    requires received <= CAPACITY < requestBuffer.Length
    requires known.Some? ==> known.value.end <= received
    ensures (decision, header) == Judge(requestBuffer[..received], known)
  {
    header := known;
    if known.None? {
      header := FindHeader(CStr(requestBuffer[..received]), TWO_64);
      if header.None? {
        return ReadOn, None;
      }
      if header.value.length > CAPACITY - header.value.end {
        return GiveUp, header;
      }
    }
    decision := if received >= header.value.end + header.value.length then Complete else ReadOn;
  }

  lemma {:induction false} JudgeStep(data: string, known: Option<Header>, rest: seq<RecvEvent>)
    requires |data| <= CAPACITY && (known.Some? ==> known.value.end <= |data|)
    ensures var (decision, header) := Judge(data, known);
            GoOn(data, known, rest) ==
            match decision
            case ReadOn => Loop(data, header, rest)
            case GiveUp => Refused(data, TooLarge)
            case Complete => Finish(data, header.value, true)
  {
  }

  lemma {:induction false} LoopStep(
      data: string, header: Option<Header>, script: seq<RecvEvent>, d: string, rest: seq<RecvEvent>)
    requires |data| < CAPACITY && (header.Some? ==> header.value.end <= |data|)
    requires Recv(script, CAPACITY - |data|) == (Got(d), rest)
    ensures Loop(data, header, script) == GoOn(data + d, header, rest)
  {
  }

  /** What is known between two passes of the loop: short of the announced body, or of the header. */
  predicate Waits(received: nat, header: Option<Header>) {
    && received <= CAPACITY
    && (header.Some? ==>
          && 4 <= header.value.end <= received
          && received < header.value.end + header.value.length <= CAPACITY)
  }

  /** The loop ends with these bytes: refused, or finished with a header. */
  ghost predicate Stops(r: Fill, ok: bool, data: string, header: Option<Header>, complete: bool)
    requires header.Some? ==> header.value.end <= |data|
  {
    if ok && header.Some? then r == Finish(data, header.value, complete) else r.Refused?
  }

  /** One pass of the loop. */
  method Pass(socket: Socket, requestBuffer: array<char>, received: nat, known: Option<Header>)
    returns (decision: Decision, closed: bool, total: nat, header: Option<Header>)
    requires requestBuffer.Length == BUFFER_SIZE && Waits(received, known) && received < CAPACITY
    modifies socket`incoming, requestBuffer
    ensures header.Some? ==> 4 <= header.value.end <= total
    ensures received <= total <= CAPACITY
    ensures if total > received then requestBuffer[total] == NUL else requestBuffer[..] == old(requestBuffer[..])
    ensures var r := Loop(old(requestBuffer[..received]), known, old(socket.incoming));
            if decision.ReadOn? then
              && r == Loop(requestBuffer[..total], header, socket.incoming)
              && Waits(total, header) && Weight(socket.incoming) < Weight(old(socket.incoming))
            else
              Stops(r, decision.Complete? || closed, requestBuffer[..total], header, decision.Complete?)
  {
    ghost var before, script := requestBuffer[..received], socket.incoming;
    header, closed := known, false;
    var result;
    result, total := ReceiveInto(socket, requestBuffer, received);
    match result
    case Retry =>
      decision := ReadOn;
    case Error =>
      decision := GiveUp;
    case Closed =>
      decision, closed := GiveUp, true;
    case Got(d) =>
      LoopStep(before, known, script, d, socket.incoming);
      decision, header := Consider(requestBuffer, total, known);
      JudgeStep(requestBuffer[..total], known, socket.incoming);
  }

  /** The recv loop; false when it gives up, else what it buffered. */
  method FillBuffer(socket: Socket, requestBuffer: array<char>)
    returns (ok: bool, received: nat, header: Option<Header>, ghost complete: bool)
    requires requestBuffer.Length == BUFFER_SIZE
    modifies socket`incoming, requestBuffer
    ensures received <= CAPACITY && (received > 0 ==> ok ==> requestBuffer[received] == NUL)
    ensures header.Some? ==> 4 <= header.value.end <= received
    ensures var r := ReadAll(old(socket.incoming));
            if ok && header.Some? then r == Finish(requestBuffer[..received], header.value, complete) else r.Refused?
  {
    received, header, ok, complete := 0, None, true, false;
    ghost var goal := ReadAll(socket.incoming);
    while received < CAPACITY
      invariant Waits(received, header) && ok && !complete
      invariant received > 0 ==> requestBuffer[received] == NUL
      invariant goal == Loop(requestBuffer[..received], header, socket.incoming)
      decreases Weight(socket.incoming)
    {
      var decision, closed;
      decision, closed, received, header := Pass(socket, requestBuffer, received, header);
      if decision != ReadOn {
        ok, complete := decision == Complete || closed, decision == Complete;
        return;
      }
    }
    assert header.None? && |requestBuffer[..received]| == CAPACITY;
  }

  /** The in-memory framer: fills the buffer in place and reports what it framed. */
  method ReadRequest(socket: Socket, requestBuffer: array<char>)
    returns (ok: bool, totalRead: nat, bodyOffset: nat, bodyLength: nat)
    requires requestBuffer.Length == BUFFER_SIZE
    modifies socket`incoming, requestBuffer
    ensures var r := ReadAll(old(socket.incoming));
            && ok == r.Framed?
            && (ok ==> && totalRead == |r.data| && bodyOffset == r.headerEnd && bodyLength == r.bodyLength
                       && requestBuffer[..totalRead] == r.data && requestBuffer[totalRead] == NUL)
  {
    var filled, received, header, complete := FillBuffer(socket, requestBuffer);
    if !filled || header.None? {
      return false, 0, 0, 0;
    }
    ok := true;
    totalRead := received;
    bodyOffset := header.value.end;
    bodyLength := Min(received - header.value.end, header.value.length);
  }
}
