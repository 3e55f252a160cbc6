/**
 * When the Simulator's answer depends only on the bytes sent, and not on how recv slices them. The
 * request line is searched for in everything that is buffered, so a settled length is not enough.
 */
module HttpIndependence {
  import opened Bytes
  import opened CText
  import opened HttpSocket
  import opened HttpFramer
  import opened HttpSegmentation
  import opened HttpRequestLine
  import opened HttpRoutes
  import opened HttpServer

  // ---------------------------------------------------------------------------
  // The request line in a longer buffer
  // ---------------------------------------------------------------------------

  /** The first k bytes of the stream as they stand in the buffer. */
  function Buffered(stream: string, k: nat): string
    requires k <= |stream|
  {
    stream[..k] + [NUL]
  }

  /** A request line found in the first bytes is found in more of them, at the same place. */
  lemma {:induction false} SplitIsKept(stream: string, i: nat, j: nat)
    requires i <= j <= |stream| && SplitLine(Buffered(stream, i)).Some?
    ensures SplitLine(Buffered(stream, j)) == SplitLine(Buffered(stream, i))
    ensures SplitLine(Buffered(stream, i)).value.pathEnd < i
  {
    var a, b := Buffered(stream, i), Buffered(stream, j);
    var sp := SplitLine(a).value;
    SplitChars(a);
    assert forall k :: 0 <= k < i ==> a[k] == b[k];
    assert a[i] == NUL && sp.pathEnd < i;
    SplitFromChars(b, sp.methodEnd, sp.pathEnd, sp.queryMark);
  }

  lemma {:induction false} TokensAreKept(stream: string, i: nat, j: nat, sp: Split)
    requires i <= j <= |stream| && SplitLine(Buffered(stream, i)) == SplitLine(Buffered(stream, j)) == Some(sp)
    requires sp.pathEnd < i
    ensures Tokens(Buffered(stream, j), sp) == Tokens(Buffered(stream, i), sp)
  {
    var head := stream[..i];
    assert Buffered(stream, j) == head + (stream[i..j] + [NUL]);
    PrefixTokens(head, [NUL], sp);
    PrefixTokens(head, stream[i..j] + [NUL], sp);
  }

  lemma {:induction false} CutsAgree(stream: string, i: nat, j: nat, sp: Split)
    requires i < j <= |stream| && sp.methodEnd < sp.pathEnd < i
    requires sp.queryMark.Some? ==> sp.queryMark.value < sp.pathEnd
    ensures Punch(Buffered(stream, i), sp) <= Punch(Buffered(stream, j), sp)[i := NUL]
  {
    var a, b := Punch(Buffered(stream, i), sp), Punch(Buffered(stream, j), sp)[i := NUL];
    assert |a| == i + 1 <= |b|;
    assert forall k :: 0 <= k <= i ==> a[k] == b[k];
    assert b[..i + 1] == a;
  }

  /** Once the request line is in the request itself, later bytes do not change the answer. */
  lemma {:induction false} LaterBytesDoNotMatter(
      table: seq<Route>, fallback: Option<Route>, stream: string, h: nat, n: uint16, i: nat, j: nat)
    requires i == h + n <= j <= |stream| && SplitLine(Buffered(stream, i)).Some?
    ensures Dispatch(table, fallback, Buffered(stream, j), h, n) == Dispatch(table, fallback, Buffered(stream, i), h, n)
  {
    if i < j {
      var sp := SplitLine(Buffered(stream, i)).value;
      SplitIsKept(stream, i, j);
      TokensAreKept(stream, i, j, sp);
      CutsAgree(stream, i, j, sp);
      SameDispatch(table, fallback, Buffered(stream, i), Buffered(stream, j), sp, h, n, i);
    }
  }

  /** Two buffers with the same request line, alike up to the NUL put after the body. */
  lemma {:induction false} SameDispatch(
      table: seq<Route>, fallback: Option<Route>, a: string, b: string, sp: Split, h: nat, n: uint16, i: nat)
    requires SplitLine(a) == SplitLine(b) == Some(sp) && Tokens(b, sp) == Tokens(a, sp)
    requires sp.pathEnd < i == h + n && |a| == i + 1 <= |b| && a[i] == NUL
    requires Punch(a, sp) <= Punch(b, sp)[i := NUL]
    ensures Dispatch(table, fallback, b, h, n) == Dispatch(table, fallback, a, h, n)
  {
    LineDecides(table, fallback, a, sp, h, n, i);
    LineDecides(table, fallback, b, sp, h, n, i);
    SameRequest(a, b, Punch(a, sp), Punch(b, sp)[i := NUL], MethodOf(Tokens(a, sp).token), sp, h, n, i);
  }

  lemma {:induction false} SameRequest(
      a: string, b: string, cut: string, cut': string, verb: Option<HttpMethod>, sp: Split, h: nat, n: uint16, i: nat)
    requires SplitLine(a) == Some(sp) && sp.pathEnd < i == h + n && |a| == i + 1 <= |b| && a[i] == NUL
    requires cut == Punch(a, sp) && cut <= cut'
    ensures cut[i := NUL] == cut && RequestIn(cut', verb, sp, h, n) == RequestIn(cut, verb, sp, h, n)
  {
    CutIsNul(a, sp, i);
    RequestBeforeNul(cut, cut', verb, sp, h, n);
  }

  lemma {:induction false} CutIsNul(img: string, sp: Split, i: nat)
    requires sp.methodEnd < sp.pathEnd < |img| && (sp.queryMark.Some? ==> sp.queryMark.value < |img|)
    requires i < |img| && img[i] == NUL
    ensures Punch(img, sp)[i := NUL] == Punch(img, sp) && Punch(img, sp)[i] == NUL
  {
  }

  // ---------------------------------------------------------------------------
  // Settled streams
  // ---------------------------------------------------------------------------

  /** Every way of delivering the stream gets the same answer. */
  ghost predicate ServedAlike(table: seq<Route>, fallback: Option<Route>, stream: string, ending: Ending) {
    forall s, s' :: Stream(s) == Stream(s') == stream && EndingOf(s) == EndingOf(s') == ending ==>
      Serve(table, fallback, s) == Serve(table, fallback, s')
  }

  /** The request line is in the request itself, or nowhere in what can be buffered. */
  predicate LineIsSettled(stream: string, end: nat)
    requires end <= |stream|
  {
    SplitLine(Buffered(stream, end)).Some? || SplitLine(Bufferable(stream) + [NUL]).None?
  }

  /** A request that fits and is all there has a settled line. */
  predicate RequestIsSettled(stream: string, h: nat, n: nat) {
    var end := h + n;
    end <= 2047 && end <= |stream| ==> LineIsSettled(stream, end)
  }

  /** The body does not fit, or recv fails before all of it is there. */
  predicate Refuses(stream: string, h: nat, n: nat, ending: Ending) {
    h + n > 2047 || (|stream| < h + n && ending.ReadFails?)
  }

  /** The answer to the request that takes the first end bytes of the stream. */
  function AnswerUpTo(table: seq<Route>, fallback: Option<Route>, stream: string, h: nat, end: nat): Verdict
    requires h <= end <= |Bufferable(stream)|
  {
    Dispatch(table, fallback, Buffered(stream, end), h, end - h)
  }

  /** However many later bytes are buffered with it, a request with a settled line is answered alike. */
  lemma {:induction false} SettledLineIsAnswered(
      table: seq<Route>, fallback: Option<Route>, stream: string, h: nat, n: nat, i: nat, j: nat)
    requires i == h + n <= j <= |Bufferable(stream)| && LineIsSettled(stream, i)
    ensures Dispatch(table, fallback, Buffered(stream, j), h, n) == Dispatch(table, fallback, Buffered(stream, i), h, n)
  {
    if SplitLine(Buffered(stream, i)).Some? {
      LaterBytesDoNotMatter(table, fallback, stream, h, n, i, j);
    } else {
      NoLineAnywhere(stream, j);
      BadIffNoLine(table, fallback, Buffered(stream, i), h, n);
      BadIffNoLine(table, fallback, Buffered(stream, j), h, n);
    }
  }

  lemma {:induction false} HeldIsAnswered(
      table: seq<Route>, fallback: Option<Route>, stream: string, f: Fill, h: nat, n: nat, end: nat)
    requires Holds(stream, h, n, f) && end == h + n && LineIsSettled(stream, end)
    ensures VerdictOf(table, fallback, f) == AnswerUpTo(table, fallback, stream, h, end)
  {
    var j := |f.data|;
    HeldData(stream, h, n, f, j);
    FramedIsDispatched(table, fallback, stream, j, h, n);
    SettledLineIsAnswered(table, fallback, stream, h, n, end, j);
    AnswerAt(table, fallback, stream, h, n, end);
  }

  lemma {:induction false} HeldData(stream: string, h: nat, n: nat, f: Fill, j: nat)
    requires Holds(stream, h, n, f) && j == |f.data|
    ensures h + n <= j <= |Bufferable(stream)| && f == Framed(stream[..j], h, n, true)
  {
    assert f.data == stream[..j];
  }

  lemma {:induction false} AnswerAt(
      table: seq<Route>, fallback: Option<Route>, stream: string, h: nat, n: nat, end: nat)
    requires end == h + n <= |Bufferable(stream)|
    ensures AnswerUpTo(table, fallback, stream, h, end) == Dispatch(table, fallback, Buffered(stream, end), h, n)
  {
    assert end - h == n;
  }

  lemma {:induction false} FramedIsDispatched(
      table: seq<Route>, fallback: Option<Route>, stream: string, j: nat, h: nat, n: nat)
    requires h + n <= j <= |Bufferable(stream)|
    ensures VerdictOf(table, fallback, Framed(stream[..j], h, n, true)) ==
            Dispatch(table, fallback, Buffered(stream, j), h, n)
  {
  }

  lemma {:induction false} CutShortIsAnswered(
      table: seq<Route>, fallback: Option<Route>, stream: string, f: Fill, h: nat)
    requires h <= |stream| <= CAPACITY && f == Framed(stream, h, |stream| - h, false)
    ensures VerdictOf(table, fallback, f) == AnswerUpTo(table, fallback, stream, h, |stream|)
  {
    assert stream[..|stream|] == stream;
  }

  lemma {:induction false} RefusalEnds(stream: string, h: nat, n: nat, ending: Ending, f: Fill)
    requires h <= |Bufferable(stream)| && EndsAs(stream, h, n, ending, f)
    ensures f.Refused? <==> Refuses(stream, h, n, ending)
    ensures !f.Refused? ==>
              if |stream| >= h + n then Holds(stream, h, n, f) else f == Framed(stream, h, |stream| - h, false)
  {
  }

  lemma {:induction false} EndIsAnswered(
      table: seq<Route>, fallback: Option<Route>, stream: string, ending: Ending, f: Fill, h: nat, n: nat, end: nat)
    requires h <= |Bufferable(stream)| && EndsAs(stream, h, n, ending, f) && !Refuses(stream, h, n, ending)
    requires f.Framed? ==> f.headerEnd + f.bodyLength <= |f.data| <= CAPACITY
    requires end == Min(|stream|, h + n) && (end == h + n ==> LineIsSettled(stream, end))
    ensures VerdictOf(table, fallback, f) == AnswerUpTo(table, fallback, stream, h, end)
  {
    RefusalEnds(stream, h, n, ending, f);
    if end == h + n {
      HeldIsAnswered(table, fallback, stream, f, h, n, end);
    } else {
      CutShortIsAnswered(table, fallback, stream, f, h);
    }
  }

  lemma {:induction false} NoLineAnywhere(stream: string, j: nat)
    requires j <= |Bufferable(stream)| && SplitLine(Bufferable(stream) + [NUL]).None?
    ensures SplitLine(Buffered(stream, j)).None?
  {
    var k := |Bufferable(stream)|;
    assert Buffered(stream, k) == Bufferable(stream) + [NUL];
    if SplitLine(Buffered(stream, j)).Some? {
      SplitIsKept(stream, j, k);
    }
  }

  /** Where slicing cannot show: no header, no room, not all there, or a settled request line. */
  predicate AnswerIsSettled(stream: string) {
    match HeaderEnd(stream)
    case None => true
    case Some(h) =>
      RequestIsSettled(stream, h, LengthSeen(stream, h))
  }

  lemma {:induction false} SettledEndIsAnswered(
      table: seq<Route>, fallback: Option<Route>, stream: string, ending: Ending, f: Fill, h: nat, n: nat)
    requires h <= |Bufferable(stream)| && EndsAs(stream, h, n, ending, f)
    requires f.Framed? ==> f.headerEnd + f.bodyLength <= |f.data| <= CAPACITY
    requires RequestIsSettled(stream, h, n)
    ensures VerdictOf(table, fallback, f) ==
            if Refuses(stream, h, n, ending) then Status(413)
            else AnswerUpTo(table, fallback, stream, h, Min(|stream|, h + n))
  {
    if Refuses(stream, h, n, ending) {
      RefusalEnds(stream, h, n, ending, f);
    } else {
      EndIsAnswered(table, fallback, stream, ending, f, h, n, Min(|stream|, h + n));
    }
  }

  /** On a settled stream the answer is read off the stream, whatever the slicing. */
  lemma {:induction false} SettledIsServed(
      table: seq<Route>, fallback: Option<Route>, script: seq<RecvEvent>, stream: string, h: nat, n: nat)
    requires stream == Stream(script) && LengthIsSettled(stream)
    requires HeaderEnd(stream) == Some(h) && n == LengthSeen(stream, h)
    requires RequestIsSettled(stream, h, n)
    ensures Serve(table, fallback, script) ==
            if Refuses(stream, h, n, EndingOf(script)) then Status(413)
            else AnswerUpTo(table, fallback, stream, h, Min(|stream|, h + n))
  {
    SettledEnds(script, h);
    SettledEndIsAnswered(table, fallback, stream, EndingOf(script), ReadAll(script), h, n);
  }

  /** Slicing the stream after the request gives 400, slicing it later does not. */
  lemma {:induction false} LineInLaterBytes(
      table: seq<Route>, fallback: Option<Route>, stream: string, ending: Ending, h: nat, n: nat, i: nat, j: nat)
    requires HeaderEnd(stream) == Some(h) && h + n == i <= j == |Bufferable(stream)|
    requires LengthSeen(stream, i) == n == LengthSeen(stream, j)
    ensures ServedAlike(table, fallback, stream, ending) ==> RequestIsSettled(stream, h, n)
  {
    var s, s' := Slices(stream, i, ending), Slices(stream, j, ending);
    SliceEnds(stream, i, ending, h);
    SliceEnds(stream, j, ending, h);
    assert stream[..j] == Bufferable(stream);
    BadIffNoLine(table, fallback, Buffered(stream, i), h, n);
    BadIffNoLine(table, fallback, Buffered(stream, j), h, n);
    assert ServedAlike(table, fallback, stream, ending) ==> Serve(table, fallback, s) == Serve(table, fallback, s');
  }

  /**
   * On a stream whose length is settled, all slicings get the same answer, whatever the endpoints, if
   * and only if the request does not fit, is not all there, holds its request line, or no request line
   * shows in what can be buffered.
   */
  lemma {:induction false} ServedAlikeIffSettled(
      table: seq<Route>, fallback: Option<Route>, stream: string, ending: Ending)
    requires LengthIsSettled(stream)
    ensures ServedAlike(table, fallback, stream, ending) <==> AnswerIsSettled(stream)
  {
    match HeaderEnd(stream)
    case None =>
      HeadlessServedAlike(table, fallback, stream, ending);
    case Some(h) =>
      HeadedServedAlike(table, fallback, stream, ending, h, LengthSeen(stream, h));
  }

  lemma {:induction false} OnlySettledIsServedAlike(
      table: seq<Route>, fallback: Option<Route>, stream: string, ending: Ending, h: nat, n: nat)
    requires LengthIsSettled(stream) && HeaderEnd(stream) == Some(h) && n == LengthSeen(stream, h)
    ensures ServedAlike(table, fallback, stream, ending) ==> RequestIsSettled(stream, h, n)
  {
    var i, j := h + n, |Bufferable(stream)|;
    if i <= j {
      SettledSeen(stream, i, h);
      SettledSeen(stream, j, h);
      LineInLaterBytes(table, fallback, stream, ending, h, n, i, j);
    }
  }

  lemma {:induction false} HeadedServedAlike(
      table: seq<Route>, fallback: Option<Route>, stream: string, ending: Ending, h: nat, n: nat)
    requires LengthIsSettled(stream) && HeaderEnd(stream) == Some(h) && n == LengthSeen(stream, h)
    ensures ServedAlike(table, fallback, stream, ending) <==> RequestIsSettled(stream, h, n)
  {
    if RequestIsSettled(stream, h, n) {
      SettledServedAlike(table, fallback, stream, ending, h, n);
    }
    OnlySettledIsServedAlike(table, fallback, stream, ending, h, n);
  }

  lemma {:induction false} HeadlessServedAlike(
      table: seq<Route>, fallback: Option<Route>, stream: string, ending: Ending)
    requires HeaderEnd(stream).None?
    ensures ServedAlike(table, fallback, stream, ending)
  {
    forall s | Stream(s) == stream
      ensures Serve(table, fallback, s) == Status(413)
    {
      LoopEndsHeadless(s);
    }
  }

  lemma {:induction false} SettledServedAlike(
      table: seq<Route>, fallback: Option<Route>, stream: string, ending: Ending, h: nat, n: nat)
    requires LengthIsSettled(stream) && HeaderEnd(stream) == Some(h) && n == LengthSeen(stream, h)
    requires RequestIsSettled(stream, h, n)
    ensures ServedAlike(table, fallback, stream, ending)
  {
    forall s, s' | Stream(s) == Stream(s') == stream && EndingOf(s) == EndingOf(s') == ending
      ensures Serve(table, fallback, s) == Serve(table, fallback, s')
    {
      SettledIsServed(table, fallback, s, stream, h, n);
      SettledIsServed(table, fallback, s', stream, h, n);
    }
  }

  /**
   * On a settled stream the server answers 413 exactly when there is no header, when the announced body
   * does not fit, or when recv fails before all of it is there.
   */
  lemma {:induction false} TooLargeIff(table: seq<Route>, fallback: Option<Route>, script: seq<RecvEvent>)
    requires LengthIsSettled(Stream(script))
    ensures Serve(table, fallback, script) == Status(413) <==>
            match HeaderEnd(Stream(script))
            case None => true
            case Some(h) => Refuses(Stream(script), h, LengthSeen(Stream(script), h), EndingOf(script))
  {
    var f := ReadAll(script);
    match HeaderEnd(Stream(script))
    case None =>
      LoopEndsHeadless(script);
    case Some(h) =>
      SettledEnds(script, h);
      RefusalEnds(Stream(script), h, LengthSeen(Stream(script), h), EndingOf(script), f);
      if f.Framed? {
        BadIffNoLine(table, fallback, f.data + [NUL], f.headerEnd, f.bodyLength);
      }
  }

  // ---------------------------------------------------------------------------
  // All streams
  // ---------------------------------------------------------------------------

  ghost predicate AlwaysServedAlike(stream: string, ending: Ending) {
    forall table, fallback :: ServedAlike(table, fallback, stream, ending)
  }

  /** No request line shows in what can be buffered, and no length that is seen makes a 413 of that. */
  ghost predicate AlwaysBad(stream: string, h: nat, ending: Ending) {
    && SplitLine(Bufferable(stream) + [NUL]).None?
    && forall k :: h <= k <= |Bufferable(stream)| ==> !Refuses(stream, h, LengthSeen(stream, k), ending)
  }

  lemma {:induction false} BadIsServedAlike(table: seq<Route>, fallback: Option<Route>, script: seq<RecvEvent>, h: nat)
    requires HeaderEnd(Stream(script)) == Some(h) && AlwaysBad(Stream(script), h, EndingOf(script))
    ensures Serve(table, fallback, script) == Status(400)
  {
    var stream, f := Stream(script), ReadAll(script);
    var k := LoopEnds(script, h);
    RefusalEnds(stream, h, LengthSeen(stream, k), EndingOf(script), f);
    assert f.data <= Bufferable(stream) && f.data == stream[..|f.data|];
    NoLineAnywhere(stream, |f.data|);
    BadIffNoLine(table, fallback, f.data + [NUL], f.headerEnd, f.bodyLength);
  }

  const ANY_ROUTE := Route(GET, "/", 0, 0)

  /** With nothing but a default endpoint every request line reaches it, with the body length framed. */
  lemma {:induction false} DefaultIsCalled(img: string, h: nat, n: uint16)
    requires h + n < |img| && SplitLine(img).Some?
    ensures var v := Dispatch([], Some(ANY_ROUTE), img, h, n); v.Call? && v.request.bodyLength == n
  {
    LineDecides([], Some(ANY_ROUTE), img, SplitLine(img).value, h, n, h + n);
  }

  /** What the slicing after k bytes frames. */
  lemma {:induction false} SliceFrames(stream: string, k: nat, ending: Ending, h: nat)
    requires HeaderEnd(stream) == Some(h) && h <= k <= |Bufferable(stream)|
    ensures var f, n := ReadAll(Slices(stream, k, ending)), LengthSeen(stream, k);
            && (f.Refused? <==> Refuses(stream, h, n, ending))
            && (f.Framed? ==> && f.headerEnd == h && k <= |f.data| <= |Bufferable(stream)|
                              && f.data == stream[..|f.data|]
                              && (f.bodyLength == 0 <==> n == 0 || |stream| == h))
  {
    var f, n := ReadAll(Slices(stream, k, ending)), LengthSeen(stream, k);
    SliceEnds(stream, k, ending, h);
    RefusalEnds(stream, h, n, ending, f);
    assert stream[..|stream|] == stream;
    if f.Framed? {
      assert f.data == stream[..|f.data|];
    }
  }

  lemma {:induction false} SlicesDiffer(
      table: seq<Route>, fallback: Option<Route>, stream: string, ending: Ending, h: nat, i: nat, j: nat)
    requires HeaderEnd(stream) == Some(h) && h <= i <= |Bufferable(stream)| && h <= j <= |Bufferable(stream)|
    requires Serve(table, fallback, Slices(stream, i, ending)) != Serve(table, fallback, Slices(stream, j, ending))
    ensures !AlwaysServedAlike(stream, ending)
  {
    SlicesDeliver(stream, i, ending);
    SlicesDeliver(stream, j, ending);
    assert !ServedAlike(table, fallback, stream, ending);
  }

  /** The header alone holds the request line: it is served with an empty body, or with some. */
  lemma {:induction false} BodyShows(stream: string, ending: Ending, h: nat)
    requires HeaderEnd(stream) == Some(h) && !LengthIsSettled(stream) && SplitLine(Buffered(stream, h)).Some?
    ensures !AlwaysServedAlike(stream, ending)
  {
    var k := UnsettledSeen(stream, h);
    var f, f' := ReadAll(Slices(stream, h, ending)), ReadAll(Slices(stream, k, ending));
    SliceFrames(stream, h, ending, h);
    SliceFrames(stream, k, ending, h);
    SplitIsKept(stream, h, |f.data|);
    DefaultIsCalled(Buffered(stream, |f.data|), h, f.bodyLength);
    if f'.Framed? {
      SplitIsKept(stream, h, |f'.data|);
      DefaultIsCalled(Buffered(stream, |f'.data|), h, f'.bodyLength);
    }
    SlicesDiffer([], Some(ANY_ROUTE), stream, ending, h, h, k);
  }

  /** The header alone is bad; some other slicing is refused, or finds a request line. */
  lemma {:induction false} LineShows(stream: string, ending: Ending, h: nat)
    requires HeaderEnd(stream) == Some(h) && !LengthIsSettled(stream) && SplitLine(Buffered(stream, h)).None?
    requires !AlwaysBad(stream, h, ending)
    ensures !AlwaysServedAlike(stream, ending)
  {
    HeaderSliceIsBad(stream, ending, h);
    var k := |Bufferable(stream)|;
    if SplitLine(Bufferable(stream) + [NUL]).None? {
      k :| h <= k <= |Bufferable(stream)| && Refuses(stream, h, LengthSeen(stream, k), ending);
    }
    SliceIsNotBad(stream, ending, h, k);
    SlicesDiffer([], None, stream, ending, h, h, k);
  }

  lemma {:induction false} HeaderSliceIsBad(stream: string, ending: Ending, h: nat)
    requires HeaderEnd(stream) == Some(h) && !LengthIsSettled(stream) && SplitLine(Buffered(stream, h)).None?
    ensures Serve([], None, Slices(stream, h, ending)) == Status(400)
  {
    var k := UnsettledSeen(stream, h);
    SliceEnds(stream, h, ending, h);
    BadIffNoLine([], None, Buffered(stream, h), h, 0);
  }

  lemma {:induction false} SliceIsNotBad(stream: string, ending: Ending, h: nat, k: nat)
    requires HeaderEnd(stream) == Some(h) && h <= k <= |Bufferable(stream)|
    requires Refuses(stream, h, LengthSeen(stream, k), ending)
             || (k == |Bufferable(stream)| && SplitLine(Bufferable(stream) + [NUL]).Some?)
    ensures Serve([], None, Slices(stream, k, ending)) != Status(400)
  {
    SliceFrames(stream, k, ending, h);
    FramedIsNotBad(stream, k, ReadAll(Slices(stream, k, ending)));
  }

  lemma {:induction false} FramedIsNotBad(stream: string, k: nat, f: Fill)
    requires f.Framed? ==> f.headerEnd + f.bodyLength <= |f.data| <= CAPACITY
    requires f.Framed? ==> k == |Bufferable(stream)| == |f.data| && f.data == stream[..k]
    requires f.Framed? ==> SplitLine(Bufferable(stream) + [NUL]).Some?
    ensures VerdictOf([], None, f) != Status(400)
  {
    BadIffFramedWithoutLine([], None, f);
  }

  lemma {:induction false} BadIffFramedWithoutLine(table: seq<Route>, fallback: Option<Route>, f: Fill)
    requires f.Framed? ==> f.headerEnd + f.bodyLength <= |f.data| <= CAPACITY
    ensures VerdictOf(table, fallback, f) == Status(400) <==> f.Framed? && SplitLine(f.data + [NUL]).None?
  {
    if f.Framed? {
      BadIffNoLine(table, fallback, f.data + [NUL], f.headerEnd, f.bodyLength);
    }
  }

  /**
   * For every stream: all slicings get the same answer, whatever the endpoints, if and only if either
   * the length and the answer are settled, or every slicing is a bad request.
   */
  lemma {:induction false} AlwaysServedAlikeIff(stream: string, ending: Ending)
    ensures AlwaysServedAlike(stream, ending) <==>
            if LengthIsSettled(stream) then AnswerIsSettled(stream)
            else AlwaysBad(stream, HeaderEnd(stream).value, ending)
  {
    if LengthIsSettled(stream) {
      forall table, fallback
        ensures ServedAlike(table, fallback, stream, ending) <==> AnswerIsSettled(stream)
      {
        ServedAlikeIffSettled(table, fallback, stream, ending);
      }
      assert ServedAlike([], None, stream, ending) <==> AnswerIsSettled(stream);
    } else {
      var h := HeaderEnd(stream).value;
      if AlwaysBad(stream, h, ending) {
        forall table, fallback, s | Stream(s) == stream && EndingOf(s) == ending
          ensures Serve(table, fallback, s) == Status(400)
        {
          BadIsServedAlike(table, fallback, s, h);
        }
      } else if SplitLine(Buffered(stream, h)).Some? {
        BodyShows(stream, ending, h);
      } else {
        LineShows(stream, ending, h);
      }
    }
  }
}
