/** Exactly when the Simulator's and the RP2040's servers say the same about a connection. */
module HttpAgreement {
  import opened Bytes
  import opened CText
  import opened HttpHeaders
  import opened HttpSocket
  import opened HttpFramer
  import opened HttpSegmentation
  import opened HttpRoutes
  import opened HttpServer
  import opened HttpRp2040

  /** The Simulator's loop stopped because the peer closed or recv failed, not on its own account. */
  predicate CutShort(f: Fill) {
    (f.Refused? && (f.why == PeerClosed || f.why == ReadFailed)) || (f.Framed? && !f.complete)
  }

  /** The announced length is too large for the buffer, but its 32-bit sum with the header wraps to one that fits. */
  predicate SumWraps(f: Fill) {
    f.Refused? && f.why == TooLarge && HeaderOf(f.data, TWO_64).Some? && Wraps(HeaderOf(f.data, TWO_64).value)
  }

  predicate Wraps(h: Header) {
    h.length > 2047 - h.end && (h.end + h.length) % 0x1_0000_0000 <= 2047
  }

  lemma {:induction false} SameHeader(data: string)
    ensures match HeaderOf(data, TWO_64)
            case None => HeaderOf(data, TWO_32).None?
            case Some(h) => HeaderOf(data, TWO_32) == Some(Header(h.end, h.length % TWO_32))
  {
    NarrowLength(CStr(data));
  }

  lemma NarrowSum(end: nat, length: nat)
    ensures (end + length % TWO_32) % TWO_32 == (end + length) % TWO_32
  {
    assert end + length == end + length % TWO_32 + length / TWO_32 * TWO_32;
  }

  /** Once the RP2040 accepts a length it never answers 413. */
  lemma {:induction false} AcceptedNeverOversized(data: string, h: Header, script: seq<RecvEvent>)
    requires h.end <= |data| < TotalLength(h) <= CAPACITY
    ensures !Run(data, Some(h), script).Oversized?
    decreases Weight(script)
  {
    var (got, rest) := Recv(script, CAPACITY - |data|);
    if !got.Got? || |data + got.data| >= TotalLength(h) {
    } else {
      AcceptedNeverOversized(data + got.data, h, rest);
    }
  }

  /** What the RP2040's loop does where the Simulator's does that. */
  ghost predicate Mirrors(f: Fill, e: Ended) {
    match f
    case Refused(_, NoHeader) => e == Oversized
    case Refused(_, TooLarge) => e == Oversized <==> !SumWraps(f)
    case Refused(_, _) => e == Dropped
    case Framed(data, h, n, complete) => e == if complete then Ready(data, h, n) else Dropped
  }

  /** Both loops know the same header and are waiting for the same body. */
  ghost predicate InStep(data: string, header: Option<Header>) {
    |data| <= CAPACITY &&
    (header.Some? ==> header.value.end <= |data| < header.value.end + header.value.length <= CAPACITY)
  }

  /** A length that fits the buffer is measured alike in 32 and 64 bits. */
  lemma {:induction false} MeasuresMatch(received: nat, h: Header)
    requires h.end + h.length <= CAPACITY
    ensures Header(h.end, h.length % TWO_32) == h
    ensures Measure(received, h) == Await(received, h)
  {
  }

  /** Both servers judge the buffered bytes alike, but for a length that is too large. */
  lemma {:induction false} JudgementsMatch(data: string, known: Option<Header>)
    requires known.Some? ==> known.value.end <= |data| && known.value.end + known.value.length <= CAPACITY
    requires Judge(data, known).0 != GiveUp
    ensures Weigh(data, known) == Judge(data, known)
  {
    SameHeader(data);
    var h := Judge(data, known).1;
    if h.Some? {
      MeasuresMatch(|data|, h.value);
    }
  }

  lemma {:induction false} StepsMirror(data: string, header: Option<Header>, rest: seq<RecvEvent>)
    requires |data| <= CAPACITY && Uninterrupted(rest)
    requires header.Some? ==> header.value.end <= |data| && header.value.end + header.value.length <= CAPACITY
    ensures Mirrors(GoOn(data, header, rest), RunOn(data, header, rest))
    decreases Weight(rest), 1
  {
    var (decision, h) := Judge(data, header);
    if decision.GiveUp? {
      OversizedMirrors(data, rest);
    } else {
      JudgementsMatch(data, header);
      if decision.ReadOn? {
        LoopsMirror(data, h, rest);
      }
    }
  }

  /** A length that is too large: 413 from both, unless the narrow sum wraps. */
  lemma {:induction false} OversizedMirrors(data: string, rest: seq<RecvEvent>)
    requires |data| <= CAPACITY && Judge(data, None).0.GiveUp?
    ensures GoOn(data, None, rest) == Refused(data, TooLarge)
    ensures RunOn(data, None, rest).Oversized? <==> !SumWraps(Refused(data, TooLarge))
  {
    var h := HeaderOf(data, TWO_64).value;
    var narrow := NarrowHeader(data, h);
    NarrowRun(data, narrow, rest);
    assert Wraps(h) <==> TotalLength(narrow) <= CAPACITY;
  }

  lemma {:induction false} NarrowHeader(data: string, h: Header) returns (narrow: Header)
    requires HeaderOf(data, TWO_64) == Some(h)
    ensures HeaderOf(data, TWO_32) == Some(narrow) && TotalLength(narrow) == TotalLength(h)
  {
    SameHeader(data);
    NarrowSum(h.end, h.length);
    narrow := Header(h.end, h.length % TWO_32);
  }

  lemma {:induction false} NarrowRun(data: string, narrow: Header, rest: seq<RecvEvent>)
    requires |data| <= CAPACITY && HeaderOf(data, TWO_32) == Some(narrow)
    ensures RunOn(data, None, rest).Oversized? <==> TotalLength(narrow) > CAPACITY
  {
    if |data| < TotalLength(narrow) <= CAPACITY {
      AcceptedNeverOversized(data, narrow, rest);
    }
  }

  lemma {:induction false} LoopsMirror(data: string, header: Option<Header>, script: seq<RecvEvent>)
    requires InStep(data, header) && Uninterrupted(script)
    ensures Mirrors(Loop(data, header, script), Run(data, header, script))
    decreases Weight(script), 0
  {
    if |data| < CAPACITY {
      var room := CAPACITY - |data|;
      UninterruptedRecv(script, room);
      var (got, rest) := Recv(script, room);
      if got.Got? {
        StepsMirror(data + got.data, header, rest);
      }
    }
  }

  /** Both servers say the same of the connection. */
  ghost predicate Agree(table: seq<Route>, fallback: Option<Route>, script: seq<RecvEvent>) {
    ServeRp2040(table, fallback, script) == Some(Serve(table, fallback, script))
  }

  /** They do unless the Simulator was cut short or the RP2040's sum wraps an oversized length back into the buffer. */
  lemma {:induction false} AgreeByOutcome(table: seq<Route>, fallback: Option<Route>, script: seq<RecvEvent>)
    requires Uninterrupted(script)
    ensures Agree(table, fallback, script) <==> !CutShort(ReadAll(script)) && !SumWraps(ReadAll(script))
  {
    LoopsMirror("", None, script);
    var e := Run("", None, script);
    if e.Ready? {
      BadIffNoLine(table, fallback, e.data + [NUL], e.headerLength, BodyLength(e));
    }
  }

  // ---------------------------------------------------------------------------
  // Agreement read off the stream
  // ---------------------------------------------------------------------------

  /** A header that ends at h and announces n bytes: an oversized sum does not wrap, or the body is all sent. */
  predicate SameFor(stream: string, h: nat, n: nat) {
    if h + n > 2047 then !Wraps(Header(h, n)) else |stream| >= h + n
  }

  lemma {:induction false} OutcomeByStream(stream: string, h: nat, n: nat, ending: Ending, f: Fill)
    requires h <= |Bufferable(stream)| && EndsAs(stream, h, n, ending, f)
    ensures !CutShort(f) && !SumWraps(f) <==> SameFor(stream, h, n)
  {
  }

  /**
   * On an uninterrupted connection whose length is settled the two servers agree if and only if:
   * without a header, the stream fills the buffer; with one, an oversized length does not wrap the
   * RP2040's sum, and a body that fits is all sent.
   */
  lemma {:induction false} ServersAgree(table: seq<Route>, fallback: Option<Route>, script: seq<RecvEvent>)
    requires Uninterrupted(script) && LengthIsSettled(Stream(script))
    ensures Agree(table, fallback, script) <==>
            match HeaderEnd(Stream(script))
            case None => |Stream(script)| >= 2047
            case Some(h) => SameFor(Stream(script), h, LengthSeen(Stream(script), h))
  {
    AgreeByOutcome(table, fallback, script);
    match HeaderEnd(Stream(script))
    case None =>
      LoopEndsHeadless(script);
    case Some(h) =>
      SettledEnds(script, h);
      OutcomeByStream(Stream(script), h, LengthSeen(Stream(script), h), EndingOf(script), ReadAll(script));
  }

  lemma {:induction false} SlicesAreUninterrupted(stream: string, k: nat, ending: Ending)
    requires k <= |stream|
    ensures Uninterrupted(Slices(stream, k, ending))
  {
  }

  /** A stream without a header in a single slice. */
  lemma {:induction false} OneSlice(stream: string, ending: Ending) returns (script: seq<RecvEvent>)
    ensures Uninterrupted(script) && Stream(script) == stream && EndingOf(script) == ending
  {
    if stream == "" {
      script := if ending.ReadFails? then [Failed] else [];
    } else {
      script := Slices(stream, |stream|, ending);
      SlicesDeliver(stream, |stream|, ending);
      SlicesAreUninterrupted(stream, |stream|, ending);
    }
  }

  /** Every uninterrupted way of delivering the stream has both servers say the same. */
  ghost predicate AlwaysAgree(table: seq<Route>, fallback: Option<Route>, stream: string, ending: Ending) {
    forall s :: Uninterrupted(s) && Stream(s) == stream && EndingOf(s) == ending ==> Agree(table, fallback, s)
  }

  /** For every stream, settled or not: all slicings agree exactly when they would for every length that one sees. */
  lemma {:induction false} AlwaysAgreeIff(table: seq<Route>, fallback: Option<Route>, stream: string, ending: Ending)
    ensures AlwaysAgree(table, fallback, stream, ending) <==>
            match HeaderEnd(stream)
            case None => |stream| >= 2047
            case Some(h) => forall k :: h <= k <= |Bufferable(stream)| ==> SameFor(stream, h, LengthSeen(stream, k))
  {
    match HeaderEnd(stream)
    case None =>
      forall s | Uninterrupted(s) && Stream(s) == stream && EndingOf(s) == ending
        ensures Agree(table, fallback, s) <==> |stream| >= CAPACITY
      {
        ServersAgree(table, fallback, s);
      }
      var s := OneSlice(stream, ending);
    case Some(h) =>
      forall k | AlwaysAgree(table, fallback, stream, ending) && h <= k <= |Bufferable(stream)|
        ensures SameFor(stream, h, LengthSeen(stream, k))
      {
        SliceAgrees(table, fallback, stream, ending, h, k);
      }
      if forall k :: h <= k <= |Bufferable(stream)| ==> SameFor(stream, h, LengthSeen(stream, k)) {
        forall s | Uninterrupted(s) && Stream(s) == stream && EndingOf(s) == ending
          ensures Agree(table, fallback, s)
        {
          ScriptAgrees(table, fallback, s, h);
        }
      }
  }

  lemma {:induction false} SliceAgrees(
      table: seq<Route>, fallback: Option<Route>, stream: string, ending: Ending, h: nat, k: nat)
    requires HeaderEnd(stream) == Some(h) && h <= k <= |Bufferable(stream)|
    requires AlwaysAgree(table, fallback, stream, ending)
    ensures SameFor(stream, h, LengthSeen(stream, k))
  {
    var s := Slices(stream, k, ending);
    SliceEnds(stream, k, ending, h);
    SlicesAreUninterrupted(stream, k, ending);
    AgreeByOutcome(table, fallback, s);
    OutcomeByStream(stream, h, LengthSeen(stream, k), ending, ReadAll(s));
  }

  lemma {:induction false} ScriptAgrees(table: seq<Route>, fallback: Option<Route>, s: seq<RecvEvent>, h: nat)
    requires Uninterrupted(s) && HeaderEnd(Stream(s)) == Some(h)
    requires forall k :: h <= k <= |Bufferable(Stream(s))| ==> SameFor(Stream(s), h, LengthSeen(Stream(s), k))
    ensures Agree(table, fallback, s)
  {
    var k := LoopEnds(s, h);
    AgreeByOutcome(table, fallback, s);
    OutcomeByStream(Stream(s), h, LengthSeen(Stream(s), k), EndingOf(s), ReadAll(s));
  }

  /** A first recv that announces such a length: 413 from the Simulator, anything else from the RP2040. */
  lemma {:induction false} WrapDiverges(
      table: seq<Route>, fallback: Option<Route>, data: string, h: Header, rest: seq<RecvEvent>)
    requires 0 < |data| <= CAPACITY && HeaderOf(data, TWO_64) == Some(h) && Wraps(h)
    ensures Serve(table, fallback, [Chunk(data)] + rest) == Status(413)
    ensures ServeRp2040(table, fallback, [Chunk(data)] + rest) != Some(Status(413))
  {
    FirstRecv(data, rest);
    FirstRecvRp2040(data, rest);
    OversizedMirrors(data, rest);
    var e := RunOn(data, None, rest);
    if e.Ready? {
      BadIffNoLine(table, fallback, e.data + [NUL], e.headerLength, BodyLength(e));
    }
  }

  lemma {:induction false} FirstRecvRp2040(data: string, rest: seq<RecvEvent>)
    requires 0 < |data| <= CAPACITY
    ensures Run("", None, [Chunk(data)] + rest) == RunOn(data, None, rest)
  {
    var script := [Chunk(data)] + rest;
    assert script[1..] == rest;
    assert Recv(script, CAPACITY) == (Got(data), rest);
    assert "" + data == data;
  }

  /** In particular they agree on a whole request that announces less than 2^31 bytes. */
  lemma {:induction false} ModestLengthsAgree(
      table: seq<Route>, fallback: Option<Route>, script: seq<RecvEvent>, h: nat, n: nat)
    requires Uninterrupted(script) && LengthIsSettled(Stream(script))
    requires HeaderEnd(Stream(script)) == Some(h) && LengthSeen(Stream(script), h) == n < TWO_31
    requires h + n <= CAPACITY ==> h + n <= |Stream(script)|
    ensures Agree(table, fallback, script)
  {
    ServersAgree(table, fallback, script);
    ModestIsSame(Stream(script), h, n);
  }

  lemma {:induction false} ModestIsSame(stream: string, h: nat, n: nat)
    requires h <= CAPACITY && n < TWO_31 && (h + n <= CAPACITY ==> h + n <= |stream|)
    ensures SameFor(stream, h, n)
  {
    assert h + n < TWO_32;
  }
}
