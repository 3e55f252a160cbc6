/**
 * When the RP2040's answer depends only on the bytes sent, whatever the endpoints. The request line is
 * searched for in everything that is buffered, and a wrapped length makes a body of whatever is.
 */
module HttpNarrowAnswers {
  import opened Bytes
  import opened CText
  import opened HttpSocket
  import opened HttpFramer
  import opened HttpSegmentation
  import opened HttpRequestLine
  import opened HttpRoutes
  import opened HttpServer
  import opened HttpIndependence
  import opened HttpRp2040
  import opened HttpAgreement
  import opened HttpNarrow

  /** Every uninterrupted way of delivering the stream gets the same answer, or the same silence. */
  ghost predicate AlwaysAnsweredAlike(stream: string, ending: Ending) {
    forall table, fallback, s, s' ::
      && Uninterrupted(s) && Uninterrupted(s')
      && Stream(s) == Stream(s') == stream && EndingOf(s) == EndingOf(s') == ending
      ==> ServeRp2040(table, fallback, s) == ServeRp2040(table, fallback, s')
  }

  /** No request line shows in what can be buffered. */
  predicate NeverALine(stream: string) {
    SplitLine(Bufferable(stream) + [NUL]).None?
  }

  /** The loop waits for that many bytes, and they are sent. */
  predicate IsServed(stream: string, total: nat) {
    total <= 2047 && total <= |stream|
  }

  /**
   * A request with a settled length is refused or dropped, or its sum does not wrap and its line is
   * settled, or it wraps and there is nothing after the header, or no request line.
   */
  predicate NarrowIsAnswered(stream: string, h: nat, n: nat)
    requires h <= |Bufferable(stream)|
  {
    var total := TotalLength(Header(h, n));
    IsServed(stream, total) ==>
      if total == h + n then LineIsSettled(stream, total) else |Bufferable(stream)| == h || NeverALine(stream)
  }

  /** No request line shows, and no length that is seen makes a refusal or a silence of that. */
  ghost predicate AlwaysBadNarrow(stream: string, h: nat) {
    && NeverALine(stream)
    && forall k :: h <= k <= |Bufferable(stream)| ==> IsServed(stream, TotalLength(Header(h, NarrowSeen(stream, k))))
  }

  // ---------------------------------------------------------------------------
  // Answered alike
  // ---------------------------------------------------------------------------

  /** A request that is served finds at least those bytes in the buffer. */
  lemma {:induction false} ServedData(stream: string, h: nat, n: nat, e: Ended, total: nat)
    requires EndsNarrow(stream, h, n, e) && total == TotalLength(Header(h, n)) && IsServed(stream, total)
    ensures e.Ready? && e.headerLength == h && e.expectedBodyLength == n
    ensures h <= |e.data| <= |Bufferable(stream)| && total <= |e.data| && e == Ready(stream[..|e.data|], h, n)
  {
  }

  lemma {:induction false} ReadyVerdict(
      table: seq<Route>, fallback: Option<Route>, stream: string, j: nat, h: nat, n: nat, m: uint16)
    requires h <= j <= |Bufferable(stream)| && m == Min(n, j - h)
    ensures VerdictOn(table, fallback, Ready(stream[..j], h, n)) ==
            Some(Dispatch(table, fallback, Buffered(stream, j), h, m))
  {
    assert BodyLength(Ready(stream[..j], h, n)) == m;
  }

  /** The sum does not wrap, and the line is settled. */
  lemma {:induction false} PlainIsAnswered(
      table: seq<Route>, fallback: Option<Route>, stream: string, h: nat, n: nat, e: Ended, total: nat)
    requires EndsNarrow(stream, h, n, e) && total == TotalLength(Header(h, n)) == h + n && IsServed(stream, total)
    requires LineIsSettled(stream, total) && (e.Ready? ==> e.headerLength <= |e.data| <= CAPACITY)
    ensures VerdictOn(table, fallback, e) == Some(Dispatch(table, fallback, Buffered(stream, total), h, n))
  {
    ServedData(stream, h, n, e, total);
    var j := |e.data|;
    ReadyVerdict(table, fallback, stream, j, h, n, n);
    SettledLineIsAnswered(table, fallback, stream, h, n, total, j);
  }

  lemma {:induction false} LinelessIsBad(
      table: seq<Route>, fallback: Option<Route>, stream: string, h: nat, n: nat, e: Ended, total: nat)
    requires EndsNarrow(stream, h, n, e) && total == TotalLength(Header(h, n)) && IsServed(stream, total)
    requires NeverALine(stream) && (e.Ready? ==> e.headerLength <= |e.data| <= CAPACITY)
    ensures VerdictOn(table, fallback, e) == Some(Status(400))
  {
    ServedData(stream, h, n, e, total);
    var j := |e.data|;
    NoLineAnywhere(stream, j);
    ReadyVerdict(table, fallback, stream, j, h, n, Min(n, j - h));
    BadIffNoLine(table, fallback, Buffered(stream, j), h, Min(n, j - h));
  }

  /** Nothing but the header can be buffered. */
  lemma {:induction false} HeadIsAnswered(
      table: seq<Route>, fallback: Option<Route>, stream: string, h: nat, n: nat, e: Ended, total: nat)
    requires EndsNarrow(stream, h, n, e) && total == TotalLength(Header(h, n)) && IsServed(stream, total)
    requires |Bufferable(stream)| == h && (e.Ready? ==> e.headerLength <= |e.data| <= CAPACITY)
    ensures VerdictOn(table, fallback, e) == Some(Dispatch(table, fallback, Buffered(stream, h), h, 0))
  {
    ServedData(stream, h, n, e, total);
    assert |e.data| == h;
    ReadyVerdict(table, fallback, stream, h, h, n, 0);
  }

  /** The answer read off a stream whose 32-bit length is settled. */
  function NarrowAnswer(table: seq<Route>, fallback: Option<Route>, stream: string, h: nat, n: nat): Option<Verdict>
    requires h <= |Bufferable(stream)|
  {
    var total := TotalLength(Header(h, n));
    if total > 2047 then Some(Status(413))
    else if |stream| < total then None
    else if total == h + n then Some(Dispatch(table, fallback, Buffered(stream, total), h, n))
    else if |Bufferable(stream)| == h then Some(Dispatch(table, fallback, Buffered(stream, h), h, 0))
    else Some(Status(400))
  }

  lemma {:induction false} EndIsNarrowAnswer(
      table: seq<Route>, fallback: Option<Route>, stream: string, h: nat, n: nat, e: Ended)
    requires h <= |Bufferable(stream)| && EndsNarrow(stream, h, n, e) && NarrowIsAnswered(stream, h, n)
    requires e.Ready? ==> e.headerLength <= |e.data| <= CAPACITY
    ensures VerdictOn(table, fallback, e) == NarrowAnswer(table, fallback, stream, h, n)
  {
    var total := TotalLength(Header(h, n));
    if IsServed(stream, total) {
      if total == h + n {
        PlainIsAnswered(table, fallback, stream, h, n, e, total);
      } else if |Bufferable(stream)| == h {
        HeadIsAnswered(table, fallback, stream, h, n, e, total);
      } else {
        LinelessIsBad(table, fallback, stream, h, n, e, total);
      }
    }
  }

  /** On a stream whose 32-bit length and answer are settled the RP2040's answer is read off the stream. */
  lemma {:induction false} NarrowIsServed(
      table: seq<Route>, fallback: Option<Route>, script: seq<RecvEvent>, h: nat, n: nat)
    requires Uninterrupted(script) && HeaderEnd(Stream(script)) == Some(h) && NarrowIsSettled(Stream(script), h)
    requires n == NarrowSeen(Stream(script), h) && NarrowIsAnswered(Stream(script), h, n)
    ensures ServeRp2040(table, fallback, script) == NarrowAnswer(table, fallback, Stream(script), h, n)
  {
    var k := RunEnds(script, h);
    EndIsNarrowAnswer(table, fallback, Stream(script), h, n, Run("", None, script));
  }

  lemma {:induction false} BadIsAnsweredAlike(
      table: seq<Route>, fallback: Option<Route>, script: seq<RecvEvent>, h: nat)
    requires Uninterrupted(script) && HeaderEnd(Stream(script)) == Some(h) && AlwaysBadNarrow(Stream(script), h)
    ensures ServeRp2040(table, fallback, script) == Some(Status(400))
  {
    var k := RunEnds(script, h);
    var n := NarrowSeen(Stream(script), k);
    LinelessIsBad(table, fallback, Stream(script), h, n, Run("", None, script), TotalLength(Header(h, n)));
  }

  // ---------------------------------------------------------------------------
  // Answered differently
  // ---------------------------------------------------------------------------

  lemma {:induction false} AnswersDiffer(
      table: seq<Route>, fallback: Option<Route>, stream: string, ending: Ending, i: nat, j: nat)
    requires 0 < i <= |stream| && 0 < j <= |stream|
    requires ServeRp2040(table, fallback, Slices(stream, i, ending)) !=
             ServeRp2040(table, fallback, Slices(stream, j, ending))
    ensures !AlwaysAnsweredAlike(stream, ending)
  {
    SlicesDeliver(stream, i, ending);
    SlicesDeliver(stream, j, ending);
    SlicesAreUninterrupted(stream, i, ending);
    SlicesAreUninterrupted(stream, j, ending);
  }

  /** A first slice that completes the request. */
  lemma {:induction false} SliceIsServed(
      table: seq<Route>, fallback: Option<Route>, stream: string, k: nat, ending: Ending, h: nat, n: nat, m: uint16)
    requires HeaderEnd(stream) == Some(h) && h <= k <= |Bufferable(stream)|
    requires n == NarrowSeen(stream, k) && TotalLength(Header(h, n)) <= k && m == Min(n, k - h)
    ensures ServeRp2040(table, fallback, Slices(stream, k, ending)) ==
            Some(Dispatch(table, fallback, Buffered(stream, k), h, m))
  {
    SliceIsReady(stream, k, ending, h, n);
    ReadyVerdict(table, fallback, stream, k, h, n, m);
  }

  /** The line shows only in later bytes: sliced before them the request is bad, sliced after them it is not. */
  lemma {:induction false} LateLineDiffers(stream: string, ending: Ending, h: nat, n: nat, i: nat, j: nat)
    requires HeaderEnd(stream) == Some(h) && NarrowIsSettled(stream, h) && n == NarrowSeen(stream, h)
    requires TotalLength(Header(h, n)) == h + n == i <= j == |Bufferable(stream)|
    ensures AlwaysAnsweredAlike(stream, ending) ==> LineIsSettled(stream, i)
  {
    if !LineIsSettled(stream, i) {
      SliceIsServed([], None, stream, i, ending, h, n, n);
      SliceIsServed([], None, stream, j, ending, h, n, n);
      assert stream[..j] == Bufferable(stream);
      BadIffNoLine([], None, Buffered(stream, i), h, n);
      BadIffNoLine([], None, Buffered(stream, j), h, n);
      AnswersDiffer([], None, stream, ending, i, j);
    }
  }

  lemma {:induction false} LengthIsHuge(h: nat, n: nat)
    requires h <= CAPACITY && n < TWO_32 && TotalLength(Header(h, n)) <= CAPACITY && TotalLength(Header(h, n)) != h + n
    ensures TotalLength(Header(h, n)) < h && n > CAPACITY
  {
    WrapIsShort(h, n);
  }

  /** A wrapped length makes a body of everything that is buffered. */
  lemma {:induction false} WrappedBodyDiffers(stream: string, ending: Ending, h: nat, n: nat)
    requires HeaderEnd(stream) == Some(h) && NarrowIsSettled(stream, h) && n == NarrowSeen(stream, h)
    requires TotalLength(Header(h, n)) <= CAPACITY && TotalLength(Header(h, n)) != h + n
    requires h < |Bufferable(stream)| && !NeverALine(stream)
    ensures !AlwaysAnsweredAlike(stream, ending)
  {
    var j := |Bufferable(stream)|;
    LengthIsHuge(h, n);
    AllBodyDiffers(stream, ending, h, n, j, j - h);
  }

  lemma {:induction false} AllBodyDiffers(stream: string, ending: Ending, h: nat, n: nat, j: nat, m: uint16)
    requires HeaderEnd(stream) == Some(h) && j == |Bufferable(stream)| && !NeverALine(stream)
    requires NarrowSeen(stream, h) == n == NarrowSeen(stream, j)
    requires TotalLength(Header(h, n)) <= h && 0 < m == j - h < n
    ensures !AlwaysAnsweredAlike(stream, ending)
  {
    SliceIsServed([], Some(ANY_ROUTE), stream, h, ending, h, n, 0);
    SliceIsServed([], Some(ANY_ROUTE), stream, j, ending, h, n, m);
    assert stream[..j] == Bufferable(stream);
    LaterBodyShows(Buffered(stream, h), Buffered(stream, j), h, m);
    AnswersDiffer([], Some(ANY_ROUTE), stream, ending, h, j);
  }

  /** Nothing or an empty body in one buffer, some body in the other. */
  lemma {:induction false} LaterBodyShows(a: string, b: string, h: nat, n: uint16)
    requires h < |a| && h + n < |b| && 0 < n && SplitLine(b).Some?
    ensures Dispatch([], Some(ANY_ROUTE), a, h, 0) != Dispatch([], Some(ANY_ROUTE), b, h, n)
  {
    DefaultIsCalled(b, h, n);
    if SplitLine(a).Some? {
      DefaultIsCalled(a, h, 0);
    } else {
      BadIffNoLine([], Some(ANY_ROUTE), a, h, 0);
    }
  }

  lemma {:induction false} SettledDiffers(stream: string, ending: Ending, h: nat, n: nat)
    requires HeaderEnd(stream) == Some(h) && NarrowIsSettled(stream, h) && n == NarrowSeen(stream, h)
    ensures AlwaysAnsweredAlike(stream, ending) ==> NarrowIsAnswered(stream, h, n)
  {
    var total := TotalLength(Header(h, n));
    if IsServed(stream, total) {
      if total == h + n {
        LateLineDiffers(stream, ending, h, n, total, |Bufferable(stream)|);
      } else if |Bufferable(stream)| != h && !NeverALine(stream) {
        WrappedBodyDiffers(stream, ending, h, n);
      }
    }
  }

  /** What a slicing in which a length is seen comes to, with nothing but a default endpoint. */
  lemma {:induction false} LongerSlice(stream: string, ending: Ending, h: nat, k: nat) returns (v: Option<Verdict>)
    requires HeaderEnd(stream) == Some(h) && h < k <= |Bufferable(stream)| && NarrowSeen(stream, k) != 0
    requires SplitLine(Buffered(stream, k)).Some?
    ensures v == ServeRp2040([], Some(ANY_ROUTE), Slices(stream, k, ending))
    ensures v.Some? && v.value.Call? ==> v.value.request.bodyLength > 0
  {
    var e, n := Run("", None, Slices(stream, k, ending)), NarrowSeen(stream, k);
    var total := TotalLength(Header(h, n));
    v := ServeRp2040([], Some(ANY_ROUTE), Slices(stream, k, ending));
    SliceRuns(stream, k, ending, h);
    if IsServed(stream, total) {
      ServedData(stream, h, n, e, total);
      var j := |e.data|;
      ReadyVerdict([], Some(ANY_ROUTE), stream, j, h, n, Min(n, j - h));
      SplitIsKept(stream, k, j);
      DefaultIsCalled(Buffered(stream, j), h, Min(n, j - h));
    }
  }

  lemma {:induction false} HeaderSlice(
      table: seq<Route>, fallback: Option<Route>, stream: string, ending: Ending, h: nat)
    requires HeaderEnd(stream) == Some(h) && NarrowSeen(stream, h) == 0
    ensures ServeRp2040(table, fallback, Slices(stream, h, ending)) ==
            Some(Dispatch(table, fallback, Buffered(stream, h), h, 0))
  {
    assert TotalLength(Header(h, 0)) == h;
    SliceIsServed(table, fallback, stream, h, ending, h, 0, 0);
  }

  /** The header alone holds the request line: it is served with an empty body, or with some, or not at all. */
  lemma {:induction false} NarrowBodyShows(stream: string, ending: Ending, h: nat)
    requires HeaderEnd(stream) == Some(h) && !NarrowIsSettled(stream, h) && SplitLine(Buffered(stream, h)).Some?
    ensures !AlwaysAnsweredAlike(stream, ending)
  {
    var k := NarrowUnsettled(stream, h);
    HeaderSlice([], Some(ANY_ROUTE), stream, ending, h);
    DefaultIsCalled(Buffered(stream, h), h, 0);
    SplitIsKept(stream, h, k);
    var v := LongerSlice(stream, ending, h, k);
    AnswersDiffer([], Some(ANY_ROUTE), stream, ending, h, k);
  }

  /** A slicing that is refused or dropped, or holds all that can be buffered and finds a request line there. */
  lemma {:induction false} NarrowIsNotBad(stream: string, ending: Ending, h: nat, k: nat, n: nat, total: nat)
    requires HeaderEnd(stream) == Some(h) && h <= k <= |Bufferable(stream)|
    requires n == NarrowSeen(stream, k) && total == TotalLength(Header(h, n))
    requires IsServed(stream, total) ==> k == |Bufferable(stream)| && !NeverALine(stream)
    ensures ServeRp2040([], None, Slices(stream, k, ending)) != Some(Status(400))
  {
    SliceRuns(stream, k, ending, h);
    var e := Run("", None, Slices(stream, k, ending));
    if IsServed(stream, total) {
      ServedData(stream, h, n, e, total);
      assert |e.data| == k;
      FullBufferIsNotBad(stream, h, k, n);
    } else {
      assert !e.Ready?;
    }
  }

  lemma {:induction false} FullBufferIsNotBad(stream: string, h: nat, k: nat, n: nat)
    requires h <= k == |Bufferable(stream)| && !NeverALine(stream)
    ensures VerdictOn([], None, Ready(stream[..k], h, n)) != Some(Status(400))
  {
    assert stream[..k] == Bufferable(stream);
    ReadyVerdict([], None, stream, k, h, n, Min(n, k - h));
    BadIffNoLine([], None, Buffered(stream, k), h, Min(n, k - h));
  }

  /** The header alone is bad; some other slicing is refused or dropped, or finds a request line. */
  lemma {:induction false} NarrowLineShows(stream: string, ending: Ending, h: nat)
    requires HeaderEnd(stream) == Some(h) && !NarrowIsSettled(stream, h) && SplitLine(Buffered(stream, h)).None?
    requires !AlwaysBadNarrow(stream, h)
    ensures !AlwaysAnsweredAlike(stream, ending)
  {
    var k' := NarrowUnsettled(stream, h);
    HeaderSlice([], None, stream, ending, h);
    BadIffNoLine([], None, Buffered(stream, h), h, 0);
    var k := |Bufferable(stream)|;
    if NeverALine(stream) {
      k :| h <= k <= |Bufferable(stream)| && !IsServed(stream, TotalLength(Header(h, NarrowSeen(stream, k))));
    }
    var n := NarrowSeen(stream, k);
    NarrowIsNotBad(stream, ending, h, k, n, TotalLength(Header(h, n)));
    AnswersDiffer([], None, stream, ending, h, k);
  }

  // ---------------------------------------------------------------------------
  // All streams
  // ---------------------------------------------------------------------------

  lemma {:induction false} HeadlessIsAnsweredAlike(stream: string, ending: Ending)
    requires HeaderEnd(stream).None?
    ensures AlwaysAnsweredAlike(stream, ending)
  {
    assert "" + stream == stream;
    forall table, fallback, s | Uninterrupted(s) && Stream(s) == stream
      ensures ServeRp2040(table, fallback, s) == if |stream| >= CAPACITY then Some(Status(413)) else None
    {
      RunsHeadless(stream, "", s);
    }
  }

  lemma {:induction false} SettledIsAnsweredAlike(stream: string, ending: Ending, h: nat, n: nat)
    requires HeaderEnd(stream) == Some(h) && NarrowIsSettled(stream, h) && n == NarrowSeen(stream, h)
    requires NarrowIsAnswered(stream, h, n)
    ensures AlwaysAnsweredAlike(stream, ending)
  {
    forall table, fallback, s | Uninterrupted(s) && Stream(s) == stream
      ensures ServeRp2040(table, fallback, s) == NarrowAnswer(table, fallback, stream, h, n)
    {
      NarrowIsServed(table, fallback, s, h, n);
    }
  }

  lemma {:induction false} AlwaysBadIsAlike(stream: string, ending: Ending, h: nat)
    requires HeaderEnd(stream) == Some(h) && AlwaysBadNarrow(stream, h)
    ensures AlwaysAnsweredAlike(stream, ending)
  {
    forall table, fallback, s | Uninterrupted(s) && Stream(s) == stream
      ensures ServeRp2040(table, fallback, s) == Some(Status(400))
    {
      BadIsAnsweredAlike(table, fallback, s, h);
    }
  }

  /**
   * For every stream: all uninterrupted slicings get the same answer from the RP2040, or the same
   * silence, whatever the endpoints, if and only if there is no header, the 32-bit length and the answer
   * are settled, or every slicing is a bad request.
   */
  lemma {:induction false} AlwaysAnsweredAlikeIff(stream: string, ending: Ending)
    ensures AlwaysAnsweredAlike(stream, ending) <==>
            match HeaderEnd(stream)
            case None => true
            case Some(h) =>
              if NarrowIsSettled(stream, h) then NarrowIsAnswered(stream, h, NarrowSeen(stream, h))
              else AlwaysBadNarrow(stream, h)
  {
    match HeaderEnd(stream)
    case None =>
      HeadlessIsAnsweredAlike(stream, ending);
    case Some(h) =>
      if NarrowIsSettled(stream, h) {
        SettledDiffers(stream, ending, h, NarrowSeen(stream, h));
        if NarrowIsAnswered(stream, h, NarrowSeen(stream, h)) {
          SettledIsAnsweredAlike(stream, ending, h, NarrowSeen(stream, h));
        }
      } else if AlwaysBadNarrow(stream, h) {
        AlwaysBadIsAlike(stream, ending, h);
      } else if SplitLine(Buffered(stream, h)).Some? {
        NarrowBodyShows(stream, ending, h);
      } else {
        NarrowLineShows(stream, ending, h);
      }
  }
}
