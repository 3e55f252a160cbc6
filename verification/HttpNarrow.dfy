/** How the RP2040's loop ends, read off the bytes sent to it, and when that does not depend on the slicing. */
module HttpNarrow {
  import opened Bytes
  import opened CText
  import opened HttpHeaders
  import opened HttpSocket
  import opened HttpFramer
  import opened HttpSegmentation
  import opened HttpRp2040
  import opened HttpAgreement

  /** What the loop reports: nothing, an oversized request, or a header end and a body. */
  datatype Sight = Silence | TooBig | Sees(headerEnd: nat, body: string)

  function SightOf(e: Ended): Sight
    requires e.Ready? ==> e.headerLength <= |e.data| <= CAPACITY
  {
    match e
    case Dropped => Silence
    case Oversized => TooBig
    case Ready(data, h, _) => Sees(h, data[h..h + BodyLength(e)])
  }

  function Look(script: seq<RecvEvent>): Sight {
    SightOf(Run("", None, script))
  }

  /** The 32-bit length announced by the first k bytes. */
  function NarrowSeen(stream: string, k: nat): (n: nat)
    requires k <= |stream|
    ensures n < TWO_32
  {
    LengthFitsWord(CStr(stream[..k]), 0, TWO_32);
    ContentLength(CStr(stream[..k]), TWO_32)
  }

  /** How the loop ends once the header, which ends at h, is known to announce n bytes. */
  ghost predicate EndsNarrow(stream: string, h: nat, n: nat, e: Ended) {
    var total := TotalLength(Header(h, n));
    if total > CAPACITY then e.Oversized?
    else if |stream| < total then e.Dropped?
    else && e.Ready? && e.headerLength == h && e.expectedBodyLength == n
         && h <= |e.data| && total <= |e.data| && e.data <= Bufferable(stream)
  }

  lemma {:induction false} NarrowPrefix(stream: string, data: string)
    requires data <= stream && |data| <= CAPACITY
    ensures HeaderOf(data, TWO_32) ==
            match HeaderEnd(stream)
            case None => None
            case Some(h) => if |data| < h then None else Some(Header(h, NarrowSeen(stream, |data|)))
  {
    assert stream[..|data|] == data;
    PrefixHeader(stream, data);
  }

  lemma {:induction false} RunsHeadless(stream: string, data: string, script: seq<RecvEvent>)
    requires HeaderEnd(stream).None? && stream == data + Stream(script) && |data| <= CAPACITY
    requires Uninterrupted(script)
    ensures Run(data, None, script) == if |stream| >= CAPACITY then Oversized else Dropped
    decreases Weight(script)
  {
    if |data| >= CAPACITY {
    } else {
      var room := CAPACITY - |data|;
      RecvTakesFromStream(script, room);
      UninterruptedRecv(script, room);
      var (got, rest) := Recv(script, room);
      if got.Got? {
        NextBytes(stream, data, got.data, Stream(script), Stream(rest));
        NarrowPrefix(stream, data + got.data);
        RunsHeadless(stream, data + got.data, rest);
      }
    }
  }

  /** While bytes are left, an uninterrupted recv brings some. */
  lemma {:induction false} NextRecv(stream: string, data: string, script: seq<RecvEvent>)
    returns (d: string, rest: seq<RecvEvent>)
    requires stream == data + Stream(script) && |data| < CAPACITY && |data| < |stream| && Uninterrupted(script)
    ensures d != "" && |data + d| <= CAPACITY && Uninterrupted(rest) && Weight(rest) < Weight(script)
    ensures stream == data + d + Stream(rest) && data + d <= stream
    ensures Run(data, None, script) == RunOn(data + d, None, rest)
  {
    var room := CAPACITY - |data|;
    RecvTakesFromStream(script, room);
    UninterruptedRecv(script, room);
    var (got, next) := Recv(script, room);
    d, rest := got.data, next;
    NextBytes(stream, data, d, Stream(script), Stream(next));
  }

  lemma {:induction false} RunReadsOn(data: string, rest: seq<RecvEvent>)
    requires |data| <= CAPACITY && HeaderOf(data, TWO_32).None?
    ensures RunOn(data, None, rest) == Run(data, None, rest)
  {
  }

  /** Some recv completes the header. */
  lemma {:induction false} RunReachesHeader(stream: string, data: string, script: seq<RecvEvent>, h: nat)
    returns (k: nat, rest: seq<RecvEvent>)
    requires HeaderEnd(stream) == Some(h) && stream == data + Stream(script) && |data| < h
    requires Uninterrupted(script)
    ensures h <= k <= |Bufferable(stream)| && stream == stream[..k] + Stream(rest) && Uninterrupted(rest)
    ensures Run(data, None, script) == RunOn(stream[..k], None, rest)
    decreases Weight(script)
  {
    var d, next := NextRecv(stream, data, script);
    var data' := data + d;
    if |data'| < h {
      NarrowPrefix(stream, data');
      RunReadsOn(data', next);
      k, rest := RunReachesHeader(stream, data', next, h);
    } else {
      k, rest := |data'|, next;
      assert stream[..k] == data';
    }
  }

  lemma {:induction false} RunCollectsBody(stream: string, data: string, header: Header, script: seq<RecvEvent>)
    requires header.end <= |data| < TotalLength(header) <= CAPACITY
    requires stream == data + Stream(script) && Uninterrupted(script)
    ensures EndsNarrow(stream, header.end, header.length, Run(data, Some(header), script))
    decreases Weight(script)
  {
    var room := CAPACITY - |data|;
    RecvTakesFromStream(script, room);
    UninterruptedRecv(script, room);
    var (got, rest) := Recv(script, room);
    if !got.Got? {
    } else {
      NextBytes(stream, data, got.data, Stream(script), Stream(rest));
      if |data + got.data| < TotalLength(header) {
        RunCollectsBody(stream, data + got.data, header, rest);
      }
    }
  }

  lemma {:induction false} ArrivalRuns(stream: string, k: nat, h: nat, rest: seq<RecvEvent>)
    requires HeaderEnd(stream) == Some(h) && h <= k <= |Bufferable(stream)|
    requires stream == stream[..k] + Stream(rest) && Uninterrupted(rest)
    ensures EndsNarrow(stream, h, NarrowSeen(stream, k), RunOn(stream[..k], None, rest))
  {
    var header := Header(h, NarrowSeen(stream, k));
    NarrowPrefix(stream, stream[..k]);
    if k < TotalLength(header) <= CAPACITY {
      RunCollectsBody(stream, stream[..k], header, rest);
    }
  }

  /** The loop ends as the stream says, for a length seen by one of its prefixes. */
  lemma {:induction false} RunEnds(script: seq<RecvEvent>, h: nat) returns (k: nat)
    requires HeaderEnd(Stream(script)) == Some(h) && Uninterrupted(script)
    ensures h <= k <= |Bufferable(Stream(script))|
    ensures EndsNarrow(Stream(script), h, NarrowSeen(Stream(script), k), Run("", None, script))
  {
    var stream := Stream(script);
    assert "" + stream == stream;
    var rest;
    k, rest := RunReachesHeader(stream, "", script, h);
    ArrivalRuns(stream, k, h, rest);
  }

  /** Any of those prefixes can be the one, and then at least that much is buffered. */
  lemma {:induction false} SliceRuns(stream: string, k: nat, ending: Ending, h: nat)
    requires HeaderEnd(stream) == Some(h) && h <= k <= |Bufferable(stream)|
    ensures var e := Run("", None, Slices(stream, k, ending));
            && EndsNarrow(stream, h, NarrowSeen(stream, k), e)
            && (e.Ready? ==> k <= |e.data|)
  {
    var rest := SecondSlice(stream, k, ending);
    SlicesDeliver(stream, k, ending);
    SlicesAreUninterrupted(stream, k, ending);
    SecondDelivers(stream, k, ending);
    FirstRecvRp2040(stream[..k], rest);
    SecondIsUninterrupted(stream, k, ending);
    ArrivalRuns(stream, k, h, rest);
    NarrowPrefix(stream, stream[..k]);
  }

  /** With the first slice the request may already be all there. */
  lemma {:induction false} SliceIsReady(stream: string, k: nat, ending: Ending, h: nat, n: nat)
    requires HeaderEnd(stream) == Some(h) && h <= k <= |Bufferable(stream)|
    requires n == NarrowSeen(stream, k) && TotalLength(Header(h, n)) <= k
    ensures Run("", None, Slices(stream, k, ending)) == Ready(stream[..k], h, n)
  {
    SlicesDeliver(stream, k, ending);
    FirstRecvRp2040(stream[..k], SecondSlice(stream, k, ending));
    NarrowPrefix(stream, stream[..k]);
  }

  lemma {:induction false} SecondIsUninterrupted(stream: string, k: nat, ending: Ending)
    requires k <= |stream|
    ensures Uninterrupted(SecondSlice(stream, k, ending))
  {
  }

  // ---------------------------------------------------------------------------
  // Independence
  // ---------------------------------------------------------------------------

  /** Every uninterrupted way of delivering the stream shows the loop the same. */
  ghost predicate SightIsSettled(stream: string, ending: Ending) {
    forall s, s' ::
      && Uninterrupted(s) && Uninterrupted(s')
      && Stream(s) == Stream(s') == stream && EndingOf(s) == EndingOf(s') == ending
      ==> Look(s) == Look(s')
  }

  /** All prefixes that hold the header announce the same 32-bit length. */
  ghost predicate NarrowIsSettled(stream: string, h: nat)
    requires h <= |Bufferable(stream)|
  {
    forall k :: h <= k <= |Bufferable(stream)| ==> NarrowSeen(stream, k) == NarrowSeen(stream, h)
  }

  /** The sum of header and body does not wrap, or wraps to something too large, or nothing follows the header. */
  predicate NoWrapShows(stream: string, h: nat, n: nat) {
    h + n <= 2047 || (h + n) % 0x1_0000_0000 > 2047 || |Bufferable(stream)| == h
  }

  lemma {:induction false} SettledSight(stream: string, h: nat, n: nat, e: Ended)
    requires h <= |Bufferable(stream)| && n < TWO_32 && EndsNarrow(stream, h, n, e) && NoWrapShows(stream, h, n)
    requires e.Ready? ==> e.headerLength <= |e.data| <= CAPACITY
    ensures SightOf(e) ==
            if TotalLength(Header(h, n)) > CAPACITY then TooBig
            else if |stream| < TotalLength(Header(h, n)) then Silence
            else if |Bufferable(stream)| == h then Sees(h, "")
            else Sees(h, stream[h..h + n])
  {
    if e.Ready? {
      assert e.data == stream[..|e.data|];
      if |Bufferable(stream)| == h {
        EmptySight(e.data, n);
      } else {
        assert TotalLength(Header(h, n)) == h + n && BodyLength(e) == n;
        assert e.data[h..h + n] == stream[h..h + n];
      }
    }
  }

  /** A sum that wraps into the header: the body is whatever has been received. */
  lemma {:induction false} WrappedSight(stream: string, ending: Ending, h: nat, n: nat, k: nat)
    requires HeaderEnd(stream) == Some(h) && h <= k <= |Bufferable(stream)|
    requires n == NarrowSeen(stream, k) && !NoWrapShows(stream, h, n)
    ensures Look(Slices(stream, k, ending)) == Sees(h, stream[h..k])
  {
    WrapIsShort(h, n);
    SliceIsReady(stream, k, ending, h, n);
    AllIsBody(stream, k, h, n);
  }

  lemma {:induction false} WrapIsShort(h: nat, n: nat)
    requires h <= CAPACITY && n < TWO_32 && h + n > CAPACITY && TotalLength(Header(h, n)) <= CAPACITY
    ensures h + n >= TWO_32 && TotalLength(Header(h, n)) < h
  {
  }

  lemma {:induction false} AllIsBody(stream: string, k: nat, h: nat, n: nat)
    requires h <= k <= |Bufferable(stream)| && h + n >= TWO_32
    ensures SightOf(Ready(stream[..k], h, n)) == Sees(h, stream[h..k])
  {
    assert BodyLength(Ready(stream[..k], h, n)) == k - h;
    assert stream[..k][h..k] == stream[h..k];
  }

  /** On an unsettled stream the header alone announces nothing. */
  lemma {:induction false} NarrowUnsettled(stream: string, h: nat) returns (k: nat)
    requires HeaderEnd(stream) == Some(h) && !NarrowIsSettled(stream, h)
    ensures NarrowSeen(stream, h) == 0
    ensures h < k <= |Bufferable(stream)| && NarrowSeen(stream, k) != 0
  {
    k :| h <= k <= |Bufferable(stream)| && NarrowSeen(stream, k) != NarrowSeen(stream, h);
    HeaderBlock(stream, h);
    HeaderBlock(stream, k);
    if AnnouncementLine(stream[..h], 0).Some? {
      LengthIsStable(stream[..h], CStr(stream[..k]), TWO_32);
    }
  }

  lemma {:induction false} LooksDiffer(stream: string, ending: Ending, i: nat, j: nat)
    requires 0 < i <= |stream| && 0 < j <= |stream|
    requires Look(Slices(stream, i, ending)) != Look(Slices(stream, j, ending))
    ensures !SightIsSettled(stream, ending)
  {
    SlicesDeliver(stream, i, ending);
    SlicesDeliver(stream, j, ending);
    SlicesAreUninterrupted(stream, i, ending);
    SlicesAreUninterrupted(stream, j, ending);
  }

  lemma {:induction false} SilentHeaderSight(stream: string, ending: Ending, h: nat)
    requires HeaderEnd(stream) == Some(h) && NarrowSeen(stream, h) == 0
    ensures Look(Slices(stream, h, ending)) == Sees(h, "")
  {
    SilentHeaderRuns(stream, ending, h);
    EmptySight(stream[..h], 0);
  }

  lemma {:induction false} SilentHeaderRuns(stream: string, ending: Ending, h: nat)
    requires HeaderEnd(stream) == Some(h) && NarrowSeen(stream, h) == 0
    ensures Run("", None, Slices(stream, h, ending)) == Ready(stream[..h], h, 0)
  {
    assert TotalLength(Header(h, 0)) == h;
    SliceIsReady(stream, h, ending, h, 0);
  }

  lemma {:induction false} EmptySight(data: string, n: nat)
    requires |data| <= CAPACITY
    ensures SightOf(Ready(data, |data|, n)) == Sees(|data|, "")
  {
    assert data[|data|..|data|] == "";
  }

  lemma {:induction false} BodySight(stream: string, ending: Ending, h: nat, k: nat)
    requires HeaderEnd(stream) == Some(h) && h < k <= |Bufferable(stream)| && NarrowSeen(stream, k) != 0
    ensures Look(Slices(stream, k, ending)) != Sees(h, "")
  {
    SliceRuns(stream, k, ending, h);
    var e := Run("", None, Slices(stream, k, ending));
    if e.Ready? {
      assert BodyLength(e) > 0;
    }
  }

  lemma {:induction false} NarrowSlicesDiffer(stream: string, ending: Ending, h: nat)
    requires HeaderEnd(stream) == Some(h) && !NarrowIsSettled(stream, h)
    ensures !SightIsSettled(stream, ending)
  {
    var k := NarrowUnsettled(stream, h);
    SilentHeaderSight(stream, ending, h);
    BodySight(stream, ending, h, k);
    LooksDiffer(stream, ending, h, k);
  }

  lemma {:induction false} WrappedSlicesDiffer(stream: string, ending: Ending, h: nat)
    requires HeaderEnd(stream) == Some(h) && NarrowIsSettled(stream, h)
    requires !NoWrapShows(stream, h, NarrowSeen(stream, h))
    ensures !SightIsSettled(stream, ending)
  {
    var n, k := NarrowSeen(stream, h), |Bufferable(stream)|;
    WrappedSight(stream, ending, h, n, h);
    WrappedSight(stream, ending, h, n, k);
    assert |stream[h..h]| != |stream[h..k]|;
    LooksDiffer(stream, ending, h, k);
  }

  lemma {:induction false} SettledSlicesAlike(stream: string, ending: Ending, h: nat, n: nat)
    requires HeaderEnd(stream) == Some(h) && NarrowIsSettled(stream, h)
    requires n == NarrowSeen(stream, h) && NoWrapShows(stream, h, n)
    ensures SightIsSettled(stream, ending)
  {
    forall s, s' | && Uninterrupted(s) && Uninterrupted(s')
                   && Stream(s) == Stream(s') == stream && EndingOf(s) == EndingOf(s') == ending
      ensures Look(s) == Look(s')
    {
      var k := RunEnds(s, h);
      var k' := RunEnds(s', h);
      SettledSight(stream, h, n, Run("", None, s));
      SettledSight(stream, h, n, Run("", None, s'));
    }
  }

  /**
   * For every stream: all uninterrupted slicings show the RP2040's loop the same header end and body,
   * or the same refusal or silence, if and only if all prefixes with the header announce the same 32-bit
   * length, and no bytes follow a header with which that length wraps around.
   */
  lemma {:induction false} SightIsSettledIff(stream: string, ending: Ending)
    ensures SightIsSettled(stream, ending) <==>
            match HeaderEnd(stream)
            case None => true
            case Some(h) => NarrowIsSettled(stream, h) && NoWrapShows(stream, h, NarrowSeen(stream, h))
  {
    match HeaderEnd(stream)
    case None =>
      assert "" + stream == stream;
      forall s | Uninterrupted(s) && Stream(s) == stream
        ensures Look(s) == if |stream| >= CAPACITY then TooBig else Silence
      {
        RunsHeadless(stream, "", s);
      }
    case Some(h) =>
      if !NarrowIsSettled(stream, h) {
        NarrowSlicesDiffer(stream, ending, h);
      } else if !NoWrapShows(stream, h, NarrowSeen(stream, h)) {
        WrappedSlicesDiffer(stream, ending, h);
      } else {
        SettledSlicesAlike(stream, ending, h, NarrowSeen(stream, h));
      }
  }
}
