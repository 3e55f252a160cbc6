/**
 * How the Simulator's framer ends, read off the bytes sent to it, and when that does not depend on how
 * recv slices them.
 */
module HttpSegmentation {
  import opened Bytes
  import opened CText
  import opened HttpHeaders
  import opened HttpSocket
  import opened HttpFramer

  /** What the framer reports of a request; the buffer holds more than that, and the server looks at all of it. */
  datatype View = Rejected | Accepted(headerEnd: nat, body: string)

  function ViewOf(f: Fill): View
    requires f.Framed? ==> f.headerEnd + f.bodyLength <= |f.data|
  {
    if f.Framed? then Accepted(f.headerEnd, f.data[f.headerEnd..f.headerEnd + f.bodyLength]) else Rejected
  }

  function See(script: seq<RecvEvent>): View {
    ViewOf(ReadAll(script))
  }

  /** The part of a stream that can ever be buffered. */
  function Bufferable(stream: string): string {
    stream[..Min(|stream|, 2047)]
  }

  function HeaderEnd(stream: string): (r: Option<nat>)
    ensures r.Some? ==> 4 <= r.value <= |CStr(Bufferable(stream))| <= |Bufferable(stream)|
  {
    match Find(CStr(Bufferable(stream)), BLANK_LINE, 0)
    case None => None
    case Some(p) => Some(p + 4)
  }

  /** The verdict read off the whole stream at once; only the header block announces the length. */
  function ViewOfStream(stream: string, ending: Ending): View {
    match HeaderEnd(stream)
    case None => Rejected
    case Some(h) => Deliver(stream, h, ContentLength(stream[..h], TWO_64), ending)
  }

  function Deliver(stream: string, h: nat, n: nat, ending: Ending): View
    requires h <= |stream| && h <= 2047
  {
    if n > 2047 - h then Rejected
    else if |stream| >= h + n then Accepted(h, stream[h..h + n])
    else if ending == ReadFails then Rejected
    else Accepted(h, stream[h..])
  }

  /**
   * The header block has its own Content-Length line, or no prefix of the bufferable bytes that
   * reaches past it reads as a nonzero length.
   */
  ghost predicate LengthIsSettled(stream: string) {
    match HeaderEnd(stream)
    case None => true
    case Some(h) =>
      AnnouncementLine(stream[..h], 0).Some?
      || forall k :: h <= k <= |Bufferable(stream)| ==> LengthSeen(stream, k) == 0
  }

  /** The length announced by the first k bytes, with whatever they hold of the body. */
  function LengthSeen(stream: string, k: nat): nat
    requires k <= |stream|
  {
    ContentLength(CStr(stream[..k]), TWO_64)
  }

  // ---------------------------------------------------------------------------
  // Prefixes of the stream
  // ---------------------------------------------------------------------------

  /** The header is found in a prefix of the stream as soon as the prefix holds it, and not before. */
  lemma {:induction false} HeaderInPrefix(stream: string, k: nat)
    requires k <= |Bufferable(stream)|
    ensures match HeaderEnd(stream)
            case None => HeaderOf(stream[..k], TWO_64).None?
            case Some(h) =>
              if k < h then HeaderOf(stream[..k], TWO_64).None?
              else HeaderOf(stream[..k], TWO_64) == Some(Header(h, ContentLength(CStr(stream[..k]), TWO_64)))
  {
    var a := Bufferable(stream);
    assert a[..k] == stream[..k];
    CStrOfPrefix(a, k);
    FindInPrefix(CStr(a[..k]), CStr(a), BLANK_LINE, 0);
  }

  lemma {:induction false} BlankLineEndsLine(c: string, h: nat)
    requires h >= 4 && At(c, BLANK_LINE, h - 4)
    ensures EndsLine(c[..h])
  {
    AtChars(c, BLANK_LINE, h - 4);
    assert c[h - 4 + 2] == BLANK_LINE[2] && c[h - 4 + 3] == BLANK_LINE[3];
  }

  /** The header block is a run of complete lines at the front of every buffer that holds it. */
  lemma {:induction false} HeaderBlock(stream: string, k: nat)
    requires HeaderEnd(stream).Some? && HeaderEnd(stream).value <= k <= |Bufferable(stream)|
    ensures var h := HeaderEnd(stream).value;
            stream[..h] <= CStr(stream[..k]) && EndsLine(stream[..h])
    ensures k == HeaderEnd(stream).value ==> CStr(stream[..k]) == stream[..k]
  {
    var a, h := Bufferable(stream), HeaderEnd(stream).value;
    var c := CStr(a);
    assert a[..k] == stream[..k] && a[..h] == stream[..h];
    CStrOfPrefix(a, k);
    BlankLineEndsLine(c, h);
    CommonPrefix(c, a, h, k);
  }

  lemma {:induction false} CommonPrefix(c: string, a: string, h: nat, k: nat)
    requires c <= a && h <= |c| && h <= k <= |a|
    ensures c[..h] == a[..h] <= c[..Min(k, |c|)]
    ensures k == h ==> c[..Min(k, |c|)] == a[..k]
  {
  }

  // ---------------------------------------------------------------------------
  // The loop
  // ---------------------------------------------------------------------------

  /** When the length is settled every prefix with the header announces the same length. */
  lemma {:induction false} SettledSeen(stream: string, k: nat, h: nat)
    requires LengthIsSettled(stream) && HeaderEnd(stream) == Some(h) && h <= k <= |Bufferable(stream)|
    ensures LengthSeen(stream, k) == LengthSeen(stream, h) == ContentLength(stream[..h], TWO_64)
  {
    HeaderBlock(stream, h);
    HeaderBlock(stream, k);
    if AnnouncementLine(stream[..h], 0).Some? {
      LengthIsStable(stream[..h], CStr(stream[..k]), TWO_64);
    }
  }

  /** Without a header the loop is refused: for want of room, by the close or by the failure. */
  function Headless(stream: string, ending: Ending): Reason {
    if |stream| >= 2047 then NoHeader else if ending.PeerCloses? then PeerClosed else ReadFailed
  }

  /** How the loop ends once the header, which ends at h, is known to announce n bytes. */
  ghost predicate EndsAs(stream: string, h: nat, n: nat, ending: Ending, f: Fill)
    requires h <= |Bufferable(stream)|
  {
    if n > 2047 - h then f.Refused? && f.why.TooLarge? && HeaderOf(f.data, TWO_64) == Some(Header(h, n))
    else if |stream| >= h + n then Holds(stream, h, n, f)
    else if ending.PeerCloses? then f == Framed(stream, h, |stream| - h, false)
    else f.Refused? && f.why.ReadFailed?
  }

  /** The request is complete; how many bytes after it are buffered too is up to the slicing. */
  ghost predicate Holds(stream: string, h: nat, n: nat, f: Fill) {
    f.Framed? && h + n <= |f.data| && f.data <= Bufferable(stream) && f == Framed(f.data, h, n, true)
  }

  lemma {:induction false} NextBytes(stream: string, data: string, d: string, s: string, s': string)
    requires stream == data + s && s == d + s'
    ensures stream == data + d + s' && data + d <= stream
  {
  }

  lemma {:induction false} NothingHeadless(stream: string, data: string, script: seq<RecvEvent>)
    requires HeaderEnd(stream).None? && stream == data + Stream(script) && |data| <= CAPACITY
    ensures var f := Loop(data, None, script); f.Refused? && f.why == Headless(stream, EndingOf(script))
    decreases Weight(script)
  {
    if |data| >= CAPACITY {
    } else {
      RecvTakesFromStream(script, CAPACITY - |data|);
      var (got, rest) := Recv(script, CAPACITY - |data|);
      match got
      case Retry =>
        NothingHeadless(stream, data, rest);
      case Error =>
      case Closed =>
      case Got(d) =>
        NextBytes(stream, data, d, Stream(script), Stream(rest));
        PrefixHeader(stream, data + d);
        NothingHeadless(stream, data + d, rest);
    }
  }

  /** What the buffered bytes show of the header. */
  lemma {:induction false} PrefixHeader(stream: string, data: string)
    requires data <= stream && |data| <= CAPACITY
    ensures HeaderOf(data, TWO_64) ==
            match HeaderEnd(stream)
            case None => None
            case Some(h) => if |data| < h then None else Some(Header(h, LengthSeen(stream, |data|)))
  {
    assert stream[..|data|] == data;
    HeaderInPrefix(stream, |data|);
  }

  /** Some recv completes the header; the bytes it brings along decide which length is seen. */
  lemma {:induction false} HeaderComes(stream: string, data: string, script: seq<RecvEvent>, h: nat)
    returns (k: nat, rest: seq<RecvEvent>)
    requires HeaderEnd(stream) == Some(h) && stream == data + Stream(script) && |data| < h
    ensures h <= k <= |Bufferable(stream)| && stream == stream[..k] + Stream(rest)
    ensures EndingOf(rest) == EndingOf(script) && Loop(data, None, script) == GoOn(stream[..k], None, rest)
    decreases Weight(script)
  {
    RecvTakesFromStream(script, CAPACITY - |data|);
    var (got, next) := Recv(script, CAPACITY - |data|);
    if got.Retry? {
      k, rest := HeaderComes(stream, data, next, h);
    } else {
      var data' := data + got.data;
      NextBytes(stream, data, got.data, Stream(script), Stream(next));
      if |data'| < h {
        PrefixHeader(stream, data');
        k, rest := HeaderComes(stream, data', next, h);
      } else {
        k, rest := |data'|, next;
        assert stream[..k] == data';
      }
    }
  }

  lemma {:induction false} BodyComes(stream: string, data: string, header: Header, script: seq<RecvEvent>)
    requires header.end <= |data| < header.end + header.length <= CAPACITY
    requires stream == data + Stream(script)
    ensures EndsAs(stream, header.end, header.length, EndingOf(script), Loop(data, Some(header), script))
    decreases Weight(script)
  {
    var room := CAPACITY - |data|;
    RecvTakesFromStream(script, room);
    var (got, rest) := Recv(script, room);
    match got
    case Retry =>
      BodyComes(stream, data, header, rest);
    case Error =>
      assert data + "" == data;
    case Closed =>
      assert data + "" == data;
    case Got(d) =>
      NextBytes(stream, data, d, Stream(script), Stream(rest));
      if |data + d| < header.end + header.length {
        BodyComes(stream, data + d, header, rest);
      }
  }

  /** The rest of the loop, from the recv that completes the header on. */
  lemma {:induction false} ArrivalEnds(stream: string, k: nat, h: nat, rest: seq<RecvEvent>)
    requires HeaderEnd(stream) == Some(h) && h <= k <= |Bufferable(stream)|
    requires stream == stream[..k] + Stream(rest)
    ensures EndsAs(stream, h, LengthSeen(stream, k), EndingOf(rest), GoOn(stream[..k], None, rest))
  {
    var header := Header(h, LengthSeen(stream, k));
    PrefixHeader(stream, stream[..k]);
    if header.length <= CAPACITY - h && k < h + header.length {
      BodyComes(stream, stream[..k], header, rest);
    }
  }

  /** The loop ends as the stream says, for a length seen by one of its prefixes. */
  lemma {:induction false} LoopEnds(script: seq<RecvEvent>, h: nat) returns (k: nat)
    requires HeaderEnd(Stream(script)) == Some(h)
    ensures h <= k <= |Bufferable(Stream(script))|
    ensures EndsAs(Stream(script), h, LengthSeen(Stream(script), k), EndingOf(script), ReadAll(script))
  {
    var stream := Stream(script);
    assert "" + stream == stream;
    var rest;
    k, rest := HeaderComes(stream, "", script, h);
    ArrivalEnds(stream, k, h, rest);
  }

  // ---------------------------------------------------------------------------
  // Settled streams: the slicing does not matter
  // ---------------------------------------------------------------------------

  lemma {:induction false} LoopEndsHeadless(script: seq<RecvEvent>)
    requires HeaderEnd(Stream(script)).None?
    ensures var f := ReadAll(script); f.Refused? && f.why == Headless(Stream(script), EndingOf(script))
  {
    assert "" + Stream(script) == Stream(script);
    NothingHeadless(Stream(script), "", script);
  }

  lemma {:induction false} SettledEnds(script: seq<RecvEvent>, h: nat)
    requires LengthIsSettled(Stream(script)) && HeaderEnd(Stream(script)) == Some(h)
    ensures EndsAs(Stream(script), h, LengthSeen(Stream(script), h), EndingOf(script), ReadAll(script))
  {
    var k := LoopEnds(script, h);
    SettledSeen(Stream(script), k, h);
  }

  /** On a settled stream the framer reads the request off the stream, however recv slices it. */
  lemma {:induction false} SlicingDoesNotMatter(script: seq<RecvEvent>)
    requires LengthIsSettled(Stream(script))
    ensures See(script) == ViewOfStream(Stream(script), EndingOf(script))
  {
    match HeaderEnd(Stream(script))
    case None =>
      LoopEndsHeadless(script);
    case Some(h) =>
      var k := LoopEnds(script, h);
      SettledSeen(Stream(script), k, h);
      EndIsDelivery(Stream(script), h, LengthSeen(Stream(script), k), EndingOf(script), ReadAll(script));
  }

  lemma {:induction false} EndIsDelivery(stream: string, h: nat, n: nat, ending: Ending, f: Fill)
    requires h <= |Bufferable(stream)| && EndsAs(stream, h, n, ending, f)
    requires f.Framed? ==> f.headerEnd + f.bodyLength <= |f.data|
    ensures ViewOf(f) == Deliver(stream, h, n, ending)
  {
    if f.Framed? && f.complete {
      assert f.data[h..h + n] == stream[h..h + n];
    }
  }

  /** On a settled stream that holds a whole request the loop never stops for want of bytes. */
  lemma {:induction false} RequestCompletes(script: seq<RecvEvent>, h: nat, n: nat)
    requires LengthIsSettled(Stream(script)) && HeaderEnd(Stream(script)) == Some(h)
    requires n == ContentLength(Stream(script)[..h], TWO_64) && h + n <= CAPACITY && h + n <= |Stream(script)|
    ensures Holds(Stream(script), h, n, ReadAll(script))
  {
    var k := LoopEnds(script, h);
    SettledSeen(Stream(script), k, h);
  }

  // ---------------------------------------------------------------------------
  // Unsettled streams: it does
  // ---------------------------------------------------------------------------

  /** The stream in at most two slices, the first of k bytes. */
  function Slices(stream: string, k: nat, ending: Ending): seq<RecvEvent>
    requires k <= |stream|
  {
    (if k == 0 then [] else [Chunk(stream[..k])])
    + (if k == |stream| then [] else [Chunk(stream[k..])])
    + (if ending == ReadFails then [Failed] else [])
  }

  /** The tail of Slices once the first slice is received. */
  function SecondSlice(stream: string, k: nat, ending: Ending): seq<RecvEvent>
    requires k <= |stream|
  {
    (if k == |stream| then [] else [Chunk(stream[k..])]) + (if ending == ReadFails then [Failed] else [])
  }

  lemma {:induction false} SlicesDeliver(stream: string, k: nat, ending: Ending)
    requires 0 < k <= |stream|
    ensures Stream(Slices(stream, k, ending)) == stream && EndingOf(Slices(stream, k, ending)) == ending
    ensures Slices(stream, k, ending) == [Chunk(stream[..k])] + SecondSlice(stream, k, ending)
  {
    var last := if ending == ReadFails then [Failed] else [];
    var second := SecondSlice(stream, k, ending);
    assert Stream(last) == "" && EndingOf(last) == ending;
    if k < |stream| {
      assert second[1..] == last;
      assert stream[k..] + "" == stream[k..];
    } else {
      assert second == last;
    }
    assert Stream(second) == stream[k..] && EndingOf(second) == ending;
    assert Slices(stream, k, ending)[1..] == second;
    assert stream[..k] + stream[k..] == stream;
  }

  lemma {:induction false} FirstRecv(data: string, rest: seq<RecvEvent>)
    requires 0 < |data| <= CAPACITY
    ensures ReadAll([Chunk(data)] + rest) == GoOn(data, None, rest)
  {
    var script := [Chunk(data)] + rest;
    assert script[1..] == rest;
    assert Recv(script, CAPACITY) == (Got(data), rest);
    assert "" + data == data;
  }

  /** Any of those prefixes can be the one. */
  lemma {:induction false} SliceEnds(stream: string, k: nat, ending: Ending, h: nat)
    requires HeaderEnd(stream) == Some(h) && h <= k <= |Bufferable(stream)|
    ensures Stream(Slices(stream, k, ending)) == stream && EndingOf(Slices(stream, k, ending)) == ending
    ensures EndsAs(stream, h, LengthSeen(stream, k), ending, ReadAll(Slices(stream, k, ending)))
    ensures var n := LengthSeen(stream, k);
            h + n <= k ==> ReadAll(Slices(stream, k, ending)) == Framed(stream[..k], h, n, true)
  {
    var rest := SecondSlice(stream, k, ending);
    SlicesDeliver(stream, k, ending);
    FirstRecv(stream[..k], rest);
    SecondDelivers(stream, k, ending);
    ArrivalEnds(stream, k, h, rest);
    PrefixHeader(stream, stream[..k]);
  }

  lemma {:induction false} SecondDelivers(stream: string, k: nat, ending: Ending)
    requires 0 < k <= |stream|
    ensures stream == stream[..k] + Stream(SecondSlice(stream, k, ending))
    ensures EndingOf(SecondSlice(stream, k, ending)) == ending
  {
    var first := [Chunk(stream[..k])];
    var second := SecondSlice(stream, k, ending);
    SlicesDeliver(stream, k, ending);
    assert (first + second)[1..] == second;
  }

  /** What the framer sees when the first slice holds the header. */
  lemma {:induction false} FirstSlice(stream: string, k: nat, ending: Ending, h: nat)
    requires HeaderEnd(stream) == Some(h) && h <= k <= |Bufferable(stream)|
    ensures var v := See(Slices(stream, k, ending));
            if LengthSeen(stream, k) == 0 then v == Accepted(h, "") else h < k ==> v != Accepted(h, "")
  {
    SliceEnds(stream, k, ending, h);
    BodyIsSeen(stream, k, ending, h, LengthSeen(stream, k), ReadAll(Slices(stream, k, ending)));
  }

  lemma {:induction false} BodyIsSeen(stream: string, k: nat, ending: Ending, h: nat, n: nat, f: Fill)
    requires h <= k <= |Bufferable(stream)| && EndsAs(stream, h, n, ending, f)
    requires f.Framed? ==> f.headerEnd + f.bodyLength <= |f.data|
    requires h + n <= k ==> f == Framed(stream[..k], h, n, true)
    ensures if n == 0 then ViewOf(f) == Accepted(h, "") else h < k ==> ViewOf(f) != Accepted(h, "")
  {
    if f.Framed? && n > 0 && h < k {
      assert f.bodyLength > 0;
    }
  }

  /** Every way of delivering the stream gives the same verdict, header end and body. */
  ghost predicate SlicingIsIrrelevant(stream: string, ending: Ending) {
    forall s, s' :: Stream(s) == Stream(s') == stream && EndingOf(s) == EndingOf(s') == ending ==> See(s) == See(s')
  }

  /** On an unsettled stream the header alone announces nothing, and some longer prefix does. */
  lemma {:induction false} UnsettledSeen(stream: string, h: nat) returns (k: nat)
    requires !LengthIsSettled(stream) && HeaderEnd(stream) == Some(h)
    ensures LengthSeen(stream, h) == 0
    ensures h < k <= |Bufferable(stream)| && LengthSeen(stream, k) != 0
  {
    k :| h <= k <= |Bufferable(stream)| && LengthSeen(stream, k) != 0;
    SilentHeader(stream, h);
    assert k != h;
  }

  lemma {:induction false} SilentHeader(stream: string, h: nat)
    requires HeaderEnd(stream) == Some(h) && AnnouncementLine(stream[..h], 0).None?
    ensures LengthSeen(stream, h) == 0
  {
    HeaderBlock(stream, h);
  }

  /** Segmentation independence of the framer holds exactly of the streams whose length is settled. */
  lemma {:induction false} IndependentIffSettled(stream: string, ending: Ending)
    ensures SlicingIsIrrelevant(stream, ending) <==> LengthIsSettled(stream)
  {
    if LengthIsSettled(stream) {
      forall s, s' | Stream(s) == Stream(s') == stream && EndingOf(s) == EndingOf(s') == ending
        ensures See(s) == See(s')
      {
        SlicingDoesNotMatter(s);
        SlicingDoesNotMatter(s');
      }
    } else {
      var h := HeaderEnd(stream).value;
      var k := UnsettledSeen(stream, h);
      FirstSlice(stream, h, ending, h);
      FirstSlice(stream, k, ending, h);
      SlicesDeliver(stream, h, ending);
      SlicesDeliver(stream, k, ending);
    }
  }
}
