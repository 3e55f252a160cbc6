/** The Simulator's download: stripping the response header from the stream and writing the rest to a file. */
module Download {
  import opened Bytes
  import opened CText
  import opened HttpSocket

  const HTTP_BUFFER_SIZE := 4096
  const HEADER_BUFFER_SIZE := 8192

  /** The header buffer as the stack left it, and the memory after it, into which the search may run on. */
  type Junk = j: string | |j| >= HEADER_BUFFER_SIZE witness seq(HEADER_BUFFER_SIZE, _ => NUL)

  /** Whether the file was opened and what was written to it. */
  datatype Outcome = Outcome(ok: bool, file: Option<string>)

  /** Where the search over the header buffer puts the start of the body. */
  function SkipHeaders(buffer: string): (r: Option<nat>)
    ensures r.Some? ==> 4 <= r.value <= |buffer|
  {
    match Find(CStr(buffer), BLANK_LINE, 0)
    case None => None
    case Some(p) => Some(p + 4)
  }

  /** The loop of ReadResponseToFile; file is None until the header is skipped. */
  function Receive(buffer: Junk, len: nat, file: Option<string>, canOpen: bool, script: seq<RecvEvent>): Outcome
    requires len <= HEADER_BUFFER_SIZE
    decreases Weight(script), 0
  {
    var (got, rest) := Recv(script, HTTP_BUFFER_SIZE);
    if !got.Got? then Outcome(file.Some?, file)
    else if file.Some? then Receive(buffer, len, Some(file.value + got.data), canOpen, rest)
    else
      var toCopy := Min(|got.data|, HEADER_BUFFER_SIZE - len);
      Inspect(Splice(buffer, len, got.data[..toCopy]), len + toCopy, canOpen, rest)
  }

  /** How the loop goes on once a chunk has been added to the header buffer. */
  function Inspect(buffer: Junk, len: nat, canOpen: bool, rest: seq<RecvEvent>): Outcome
    requires len <= HEADER_BUFFER_SIZE
    decreases Weight(rest), 1
  {
    match SkipHeaders(buffer)
    case None => Receive(buffer, len, None, canOpen, rest)
    case Some(body) =>
      if !canOpen then Outcome(false, None)
      else Receive(buffer, len, Some(FirstBytes(buffer, body, len)), canOpen, rest)
  }

  /** The body bytes that arrived with the end of the header. */
  function FirstBytes(buffer: Junk, body: nat, len: nat): string
    requires len <= HEADER_BUFFER_SIZE
  {
    if body < len then buffer[body..len] else ""
  }

  function Run(junk: Junk, canOpen: bool, script: seq<RecvEvent>): Outcome {
    Receive(junk, 0, None, canOpen, script)
  }

  /** Accumulates the received bytes into the header buffer. */
  method Accumulate(headerBuffer: array<char>, len: nat, data: string) returns (total: nat)
    requires headerBuffer.Length >= HEADER_BUFFER_SIZE && len <= HEADER_BUFFER_SIZE
    modifies headerBuffer
    ensures var toCopy := Min(|data|, HEADER_BUFFER_SIZE - len);
            && total == len + toCopy
            && headerBuffer[..] == Splice(old(headerBuffer[..]), len, data[..toCopy])
  {
    var toCopy := Min(|data|, HEADER_BUFFER_SIZE - len);
    forall k | 0 <= k < toCopy {
      headerBuffer[len + k] := data[k];
    }
    total := len + toCopy;
  }

  method ReadResponseToFile(socket: Socket, junk: Junk, canOpen: bool) returns (ok: bool, file: Option<string>)
    modifies socket`incoming
    ensures Outcome(ok, file) == Run(junk, canOpen, old(socket.incoming))
  {
    var headerBuffer := new char[|junk|](i requires 0 <= i < |junk| => junk[i]);
    assert headerBuffer[..] == junk;
    var headerBufferLen: nat := 0;
    ghost var goal := Run(junk, canOpen, socket.incoming);
    file := None;
    while true
      invariant headerBufferLen <= HEADER_BUFFER_SIZE <= headerBuffer.Length && fresh(headerBuffer)
      invariant goal == Receive(headerBuffer[..], headerBufferLen, file, canOpen, socket.incoming)
      decreases Weight(socket.incoming)
    {
      var got := socket.Receive(HTTP_BUFFER_SIZE);
      if !got.Got? {
        break;
      }
      if file.None? {
        headerBufferLen := Accumulate(headerBuffer, headerBufferLen, got.data);
        assert goal == Inspect(headerBuffer[..], headerBufferLen, canOpen, socket.incoming);
        var body := SkipHeaders(headerBuffer[..]);
        if body.None? {
          continue;
        }
        if !canOpen {
          return false, None;
        }
        file := Some(if headerBufferLen > body.value then headerBuffer[body.value..headerBufferLen] else "");
      } else {
        file := Some(file.value + got.data);
      }
    }
    ok := file.Some?;
  }

  // ---------------------------------------------------------------------------
  // What the search sees
  // ---------------------------------------------------------------------------

  /** The header buffer after data has been received into it. */
  function Filled(data: string, junk: Junk): Junk
    requires |data| <= HEADER_BUFFER_SIZE
  {
    data + junk[|data|..]
  }

  /** A header that has been received is found whatever lies behind it; otherwise only a later one can be. */
  lemma {:induction false} SearchOverJunk(data: string, junk: Junk)
    requires |data| <= HEADER_BUFFER_SIZE
    ensures SkipHeaders(data).Some? ==> SkipHeaders(Filled(data, junk)) == SkipHeaders(data)
    ensures SkipHeaders(data).None? && SkipHeaders(Filled(data, junk)).Some? ==>
              SkipHeaders(Filled(data, junk)).value > |data|
  {
    assert Filled(data, junk)[..|data|] == data;
    CStrOfPrefix(Filled(data, junk), |data|);
    FindInPrefix(CStr(data), CStr(Filled(data, junk)), BLANK_LINE, 0);
  }

  /** The part of a response that can ever be buffered. */
  function Bufferable(response: string): string {
    response[..Min(|response|, 8192)]
  }

  /** However much has been received, the stale bytes behind it show no header that is not there. */
  ghost predicate JunkIsSafe(response: string, junk: Junk) {
    forall k :: 0 < k <= |Bufferable(response)| && SkipHeaders(response[..k]).None? ==>
      SkipHeaders(Filled(response[..k], junk)).None?
  }

  lemma {:induction false} JunkIsInvisible(response: string, data: string, junk: Junk)
    requires JunkIsSafe(response, junk) && data != "" && data <= Bufferable(response)
    ensures SkipHeaders(Filled(data, junk)) == SkipHeaders(data)
  {
    assert response[..|data|] == data;
    SearchOverJunk(data, junk);
  }

  lemma {:induction false} BlankEnds(s: string, j: int)
    requires At(s, BLANK_LINE, j)
    ensures s[j + 3] == '\n'
  {
    AtChars(s, BLANK_LINE, j);
    assert s[j + 3] == BLANK_LINE[3];
  }

  lemma {:induction false} StaleHeaderHasLineFeed(data: string, junk: Junk)
    requires |data| <= HEADER_BUFFER_SIZE
    requires SkipHeaders(data).None? && SkipHeaders(Filled(data, junk)).Some?
    ensures '\n' in junk
  {
    var full := Filled(data, junk);
    var end := SkipHeaders(full).value;
    SearchOverJunk(data, junk);
    BlankEnds(CStr(full), end - 4);
    assert full[end - 1] == CStr(full)[end - 1] == '\n';
    assert full[end - 1] == junk[end - 1];
  }

  /** Stale bytes without a line feed are safe under every response. */
  lemma {:induction false} NoLineFeedIsSafe(response: string, junk: Junk)
    requires '\n' !in junk
    ensures JunkIsSafe(response, junk)
  {
    forall k | 0 < k <= |Bufferable(response)| && SkipHeaders(response[..k]).None?
      ensures SkipHeaders(Filled(response[..k], junk)).None?
    {
      if SkipHeaders(Filled(response[..k], junk)).Some? {
        StaleHeaderHasLineFeed(response[..k], junk);
      }
    }
  }

  /** In a prefix of the response the header is found once it is all there. */
  lemma {:induction false} HeaderInPrefix(response: string, k: nat)
    requires k <= |response|
    ensures SkipHeaders(response[..k]) ==
            match SkipHeaders(response)
            case None => None
            case Some(h) => if h <= k then Some(h) else None
  {
    CStrOfPrefix(response, k);
    FindInPrefix(CStr(response[..k]), CStr(response), BLANK_LINE, 0);
  }

  /** One received chunk, before the header is complete. */
  lemma {:induction false} ReceiveStep(
      buffer: Junk, buffer': Junk, len: nat, len': nat, script: seq<RecvEvent>, d: string, rest: seq<RecvEvent>)
    requires len <= len' == Min(len + |d|, HEADER_BUFFER_SIZE) && Recv(script, HTTP_BUFFER_SIZE) == (Got(d), rest)
    requires buffer' == Splice(buffer, len, d[..len' - len])
    ensures Receive(buffer, len, None, true, script) == Inspect(buffer', len', true, rest)
  {
  }

  lemma {:induction false} FillMore(data: string, d: string, junk: Junk)
    requires |data + d| <= HEADER_BUFFER_SIZE
    ensures Splice(Filled(data, junk), |data|, d) == Filled(data + d, junk)
  {
  }

  // ---------------------------------------------------------------------------
  // Lossless downloads
  // ---------------------------------------------------------------------------

  /** After the header everything received is appended. */
  lemma {:induction false} BodyPhase(buffer: Junk, len: nat, file: string, script: seq<RecvEvent>)
    requires len <= HEADER_BUFFER_SIZE
    ensures Receive(buffer, len, Some(file), true, script) == Outcome(true, Some(file + Arriving(script)))
    decreases Weight(script)
  {
    RecvTakesArriving(script, HTTP_BUFFER_SIZE);
    var (got, rest) := Recv(script, HTTP_BUFFER_SIZE);
    if got.Got? {
      BodyPhase(buffer, len, file + got.data, rest);
      assert file + got.data + Arriving(rest) == file + (got.data + Arriving(rest));
    } else {
      assert file + "" == file;
    }
  }

  /** The whole outcome of a response: the body if there is a header, else no file. */
  function Body(response: string): Outcome {
    match SkipHeaders(response)
    case None => Outcome(false, None)
    case Some(h) => Outcome(true, Some(response[h..]))
  }

  /** The header buffer holds whatever arrives before the header is complete. */
  predicate HeaderFits(response: string) {
    |response| <= 8192
    || match SkipHeaders(response)
       case None => true
       case Some(h) => h <= 4097
  }

  lemma {:induction false} DataGrows(response: string, data: string, d: string, s: string, s': string)
    requires response == data + s && s == d + s'
    ensures response == data + d + s'
  {
  }

  lemma {:induction false} HeaderSoFar(response: string, data: string)
    requires data <= response
    ensures SkipHeaders(data) ==
            match SkipHeaders(response)
            case None => None
            case Some(h) => if h <= |data| then Some(h) else None
  {
    assert response[..|data|] == data;
    HeaderInPrefix(response, |data|);
  }

  lemma {:induction false} HeaderPhase(response: string, data: string, junk: Junk, script: seq<RecvEvent>)
    requires JunkIsSafe(response, junk) && HeaderFits(response) && SkipHeaders(response).Some?
    requires response == data + Arriving(script) && |data| <= HEADER_BUFFER_SIZE
    requires SkipHeaders(data).None?
    ensures Receive(Filled(data, junk), |data|, None, true, script) == Body(response)
    decreases Weight(script)
  {
    RecvTakesArriving(script, HTTP_BUFFER_SIZE);
    HeaderSoFar(response, data);
    var (got, rest) := Recv(script, HTTP_BUFFER_SIZE);
    if !got.Got? {
    } else {
      var data' := data + got.data;
      DataGrows(response, data, got.data, Arriving(script), Arriving(rest));
      assert data' <= response && |data'| <= HEADER_BUFFER_SIZE;
      HeaderSoFar(response, data');
      NextChunk(response, data, junk, script, got.data, rest);
      if SkipHeaders(data').None? {
        HeaderPhase(response, data', junk, rest);
      } else {
        HeaderSkipped(response, data', junk, rest);
      }
    }
  }

  /** A chunk that fits the header buffer. */
  lemma {:induction false} NextChunk(
      response: string, data: string, junk: Junk, script: seq<RecvEvent>, d: string, rest: seq<RecvEvent>)
    requires JunkIsSafe(response, junk) && Recv(script, HTTP_BUFFER_SIZE) == (Got(d), rest)
    requires data + d <= response && |data + d| <= HEADER_BUFFER_SIZE
    ensures var data' := data + d;
            Receive(Filled(data, junk), |data|, None, true, script) ==
            match SkipHeaders(data')
            case None => Receive(Filled(data', junk), |data'|, None, true, rest)
            case Some(h) =>
              Receive(Filled(data', junk), |data'|, Some(FirstBytes(Filled(data', junk), h, |data'|)), true, rest)
  {
    assert d[..|d|] == d;
    FillMore(data, d, junk);
    ReceiveStep(Filled(data, junk), Filled(data + d, junk), |data|, |data + d|, script, d, rest);
    JunkIsInvisible(response, data + d, junk);
  }

  /** The chunk that completes the header. */
  lemma {:induction false} HeaderSkipped(response: string, data: string, junk: Junk, rest: seq<RecvEvent>)
    requires response == data + Arriving(rest) && |data| <= HEADER_BUFFER_SIZE
    requires SkipHeaders(data).Some? && SkipHeaders(data) == SkipHeaders(response)
    ensures var h := SkipHeaders(data).value;
            Receive(Filled(data, junk), |data|, Some(FirstBytes(Filled(data, junk), h, |data|)), true, rest)
            == Body(response)
  {
    var h := SkipHeaders(data).value;
    var first := FirstBytes(Filled(data, junk), h, |data|);
    assert first == data[h..];
    BodyPhase(Filled(data, junk), |data|, first, rest);
    DropOfConcat(data, Arriving(rest), h);
  }

  lemma {:induction false} DropOfConcat(a: string, b: string, h: nat)
    requires h <= |a|
    ensures a[h..] + b == (a + b)[h..]
  {
  }

  /** The bytes buffered so far, with the bytes still to come. */
  ghost predicate Buffers(response: string, data: string, rest: string) {
    data <= Bufferable(response) && (|data| < HEADER_BUFFER_SIZE ==> response == data + rest)
  }

  lemma {:induction false} BuffersMore(response: string, data: string, d: string, toCopy: nat, rest: string)
    requires Buffers(response, data, d + rest) && toCopy == Min(|d|, HEADER_BUFFER_SIZE - |data|)
    ensures Buffers(response, data + d[..toCopy], rest)
  {
    if |data| < HEADER_BUFFER_SIZE {
      assert response == (data + d[..toCopy]) + (d[toCopy..] + rest);
      if toCopy == |d| {
        assert d[toCopy..] + rest == rest;
      }
    } else {
      assert data + d[..toCopy] == data;
    }
  }

  lemma {:induction false} NoHeaderInBuffer(response: string, data: string, junk: Junk)
    requires JunkIsSafe(response, junk) && data != "" && data <= Bufferable(response)
    requires SkipHeaders(Bufferable(response)).None?
    ensures SkipHeaders(Filled(data, junk)).None?
  {
    JunkIsInvisible(response, data, junk);
    HeaderInPrefix(Bufferable(response), |data|);
    assert Bufferable(response)[..|data|] == data;
  }

  /** Without a complete header no file is opened, whatever the length of the response. */
  lemma {:induction false} NoHeaderNoFile(
      response: string, data: string, junk: Junk, canOpen: bool, script: seq<RecvEvent>)
    requires JunkIsSafe(response, junk) && SkipHeaders(Bufferable(response)).None?
    requires Buffers(response, data, Arriving(script))
    ensures Receive(Filled(data, junk), |data|, None, canOpen, script) == Outcome(false, None)
    decreases Weight(script)
  {
    RecvTakesArriving(script, HTTP_BUFFER_SIZE);
    var (got, rest) := Recv(script, HTTP_BUFFER_SIZE);
    if !got.Got? {
    } else {
      var toCopy := Min(|got.data|, HEADER_BUFFER_SIZE - |data|);
      var data' := data + got.data[..toCopy];
      BuffersMore(response, data, got.data, toCopy, Arriving(rest));
      assert |data'| > 0;
      NoHeaderInBuffer(response, data', junk);
      NoHeaderStep(data, junk, canOpen, script, got.data, toCopy, rest);
      NoHeaderNoFile(response, data', junk, canOpen, rest);
    }
  }

  lemma {:induction false} NoHeaderStep(
      data: string, junk: Junk, canOpen: bool, script: seq<RecvEvent>, d: string, toCopy: nat, rest: seq<RecvEvent>)
    requires |data| <= HEADER_BUFFER_SIZE && toCopy == Min(|d|, HEADER_BUFFER_SIZE - |data|)
    requires Recv(script, HTTP_BUFFER_SIZE) == (Got(d), rest)
    requires SkipHeaders(Filled(data + d[..toCopy], junk)).None?
    ensures Receive(Filled(data, junk), |data|, None, canOpen, script) ==
            Receive(Filled(data + d[..toCopy], junk), |data + d[..toCopy]|, None, canOpen, rest)
  {
    FillMore(data, d[..toCopy], junk);
  }

  /** A download that fits writes exactly the bytes after the header, however recv slices the response. */
  lemma {:induction false} DownloadIsLossless(junk: Junk, script: seq<RecvEvent>)
    requires HeaderFits(Arriving(script)) && JunkIsSafe(Arriving(script), junk)
    ensures Run(junk, true, script) == Body(Arriving(script))
  {
    var response := Arriving(script);
    assert Filled("", junk) == junk && "" + response == response;
    if SkipHeaders(response).Some? {
      assert response[..0] == "";
      HeaderInPrefix(response, 0);
      HeaderPhase(response, "", junk, script);
    } else {
      HeaderInPrefix(response, Min(|response|, HEADER_BUFFER_SIZE));
      NoHeaderNoFile(response, "", junk, true, script);
    }
  }

  lemma {:induction false} NothingWithoutFile(buffer: Junk, len: nat, script: seq<RecvEvent>)
    requires len <= HEADER_BUFFER_SIZE
    ensures Receive(buffer, len, None, false, script) == Outcome(false, None)
    decreases Weight(script)
  {
    var (got, rest) := Recv(script, HTTP_BUFFER_SIZE);
    if !got.Got? {
    } else {
      var toCopy := Min(|got.data|, HEADER_BUFFER_SIZE - len);
      NothingWithoutFile(Splice(buffer, len, got.data[..toCopy]), len + toCopy, rest);
    }
  }

  /** If the file cannot be opened the download fails, whatever arrives. */
  lemma {:induction false} FailsWithoutFile(junk: Junk, script: seq<RecvEvent>)
    ensures Run(junk, false, script) == Outcome(false, None)
  {
    NothingWithoutFile(junk, 0, script);
  }

  // ---------------------------------------------------------------------------
  // A header block that is too long
  // ---------------------------------------------------------------------------

  /** A slicing that puts 4097 bytes and then 4096 more into a header buffer of 8192. */
  function BadSlices(response: string): seq<RecvEvent>
    requires |response| > HEADER_BUFFER_SIZE
  {
    [Chunk(response[..4096]), Chunk(response[4096..4097]), Chunk(response[4097..8193])] + LastSlice(response, 8193)
  }

  /** Everything from offset k on, in one chunk. */
  function LastSlice(response: string, k: nat): seq<RecvEvent>
    requires k <= |response|
  {
    if k < |response| then [Chunk(response[k..])] else []
  }

  lemma {:induction false} LastSliceArrives(response: string, k: nat)
    requires k <= |response|
    ensures Arriving(LastSlice(response, k)) == response[k..]
  {
    assert response[k..] + "" == response[k..];
  }

  lemma {:induction false} ChunkArrives(response: string, k: nat, end: nat, rest: seq<RecvEvent>)
    requires k < end <= |response| && Arriving(rest) == response[end..]
    ensures Arriving([Chunk(response[k..end])] + rest) == response[k..]
  {
    var script := [Chunk(response[k..end])] + rest;
    assert script[1..] == rest;
    assert response[k..end] + response[end..] == response[k..];
  }

  lemma {:induction false} BadSlicesArrive(response: string)
    requires |response| > HEADER_BUFFER_SIZE
    ensures Arriving(BadSlices(response)) == response
  {
    var s3 := LastSlice(response, 8193);
    var s2 := [Chunk(response[4097..8193])] + s3;
    var s1 := [Chunk(response[4096..4097])] + s2;
    LastSliceArrives(response, 8193);
    ChunkArrives(response, 4097, 8193, s3);
    ChunkArrives(response, 4096, 4097, s2);
    ChunkArrives(response, 0, 4096, s1);
    assert BadSlices(response) == [Chunk(response[0..4096])] + s1;
    assert response[0..] == response;
  }

  /** One chunk taken while the header is still incomplete. */
  lemma {:induction false} ChunkIsBuffered(
      response: string, k: nat, end: nat, junk: Junk, rest: seq<RecvEvent>)
    requires k < end <= |Bufferable(response)| && end - k <= HTTP_BUFFER_SIZE
    requires SkipHeaders(Filled(response[..end], junk)).None?
    ensures Receive(Filled(response[..k], junk), k, None, true, [Chunk(response[k..end])] + rest) ==
            Receive(Filled(response[..end], junk), end, None, true, rest)
  {
    var d := response[k..end];
    var script := [Chunk(d)] + rest;
    assert script[1..] == rest;
    assert Recv(script, HTTP_BUFFER_SIZE) == (Got(d), rest);
    assert d[..|d|] == d && response[..k] + d == response[..end];
    FillMore(response[..k], d, junk);
    ReceiveStep(Filled(response[..k], junk), Filled(response[..end], junk), k, end, script, d, rest);
  }

  /** The chunk that overflows the header buffer loses its last byte. */
  lemma {:induction false} ByteIsLost(response: string, junk: Junk)
    requires JunkIsSafe(response, junk) && |response| > HEADER_BUFFER_SIZE
    requires SkipHeaders(response).Some? && SkipHeaders(response).value > 4097
    ensures var rest := [Chunk(response[4097..8193])] + LastSlice(response, 8193);
            Receive(Filled(response[..4097], junk), 4097, None, true, rest) != Body(response)
  {
    var h := SkipHeaders(response).value;
    var data := response[..4097];
    var d := response[4097..8193];
    var rest := LastSlice(response, 8193);
    var script := [Chunk(d)] + rest;
    var kept := response[..8192];
    assert script[1..] == rest;
    assert Recv(script, HTTP_BUFFER_SIZE) == (Got(d), rest);
    assert data + d[..4095] == kept;
    FillMore(data, d[..4095], junk);
    ReceiveStep(Filled(data, junk), Filled(kept, junk), 4097, 8192, script, d, rest);
    JunkIsInvisible(response, kept, junk);
    HeaderInPrefix(response, 8192);
    if h <= 8192 {
      var first := FirstBytes(Filled(kept, junk), h, 8192);
      LastSliceArrives(response, 8193);
      BodyPhase(Filled(kept, junk), 8192, first, rest);
      assert |first + response[8193..]| == |response[h..]| - 1;
    } else {
      NoHeaderNoFile(response, kept, junk, true, rest);
    }
  }

  lemma {:induction false} BadSlicesLoseAByte(junk: Junk, response: string)
    requires JunkIsSafe(response, junk) && !HeaderFits(response)
    ensures Run(junk, true, BadSlices(response)) != Body(response)
  {
    var tail := [Chunk(response[4097..8193])] + LastSlice(response, 8193);
    var second := [Chunk(response[4096..4097])] + tail;
    assert BadSlices(response) == [Chunk(response[0..4096])] + second;
    assert response[..0] == "" && Filled("", junk) == junk;
    HeaderInPrefix(response, 4096);
    HeaderInPrefix(response, 4097);
    ChunkIsBuffered(response, 0, 4096, junk, second);
    ChunkIsBuffered(response, 4096, 4097, junk, tail);
    ByteIsLost(response, junk);
  }

  // ---------------------------------------------------------------------------
  // A header left over in the buffer
  // ---------------------------------------------------------------------------

  /** A slicing that stops after k bytes, on the way after 4096 if it must. */
  function StaleSlices(response: string, k: nat): seq<RecvEvent>
    requires 0 < k <= |Bufferable(response)|
  {
    if k <= HTTP_BUFFER_SIZE then [Chunk(response[0..k])] + LastSlice(response, k)
    else [Chunk(response[0..4096])] + ([Chunk(response[4096..k])] + LastSlice(response, k))
  }

  lemma {:induction false} StaleSlicesArrive(response: string, k: nat)
    requires 0 < k <= |Bufferable(response)|
    ensures Arriving(StaleSlices(response, k)) == response
  {
    LastSliceArrives(response, k);
    assert response[0..] == response;
    if k <= HTTP_BUFFER_SIZE {
      ChunkArrives(response, 0, k, LastSlice(response, k));
    } else {
      ChunkArrives(response, 4096, k, LastSlice(response, k));
      ChunkArrives(response, 0, 4096, [Chunk(response[4096..k])] + LastSlice(response, k));
    }
  }

  /** The chunk after which a stale header shows: the file starts with the next byte received. */
  lemma {:induction false} StaleHeaderIsTaken(response: string, j: nat, k: nat, junk: Junk)
    requires j < k <= |Bufferable(response)| && k - j <= HTTP_BUFFER_SIZE
    requires SkipHeaders(response[..k]).None? && SkipHeaders(Filled(response[..k], junk)).Some?
    ensures Receive(Filled(response[..j], junk), j, None, true, [Chunk(response[j..k])] + LastSlice(response, k))
            == Outcome(true, Some(response[k..]))
  {
    var d, rest := response[j..k], LastSlice(response, k);
    var script := [Chunk(d)] + rest;
    assert script[1..] == rest;
    assert Recv(script, HTTP_BUFFER_SIZE) == (Got(d), rest);
    assert d[..|d|] == d && response[..j] + d == response[..k];
    FillMore(response[..j], d, junk);
    ReceiveStep(Filled(response[..j], junk), Filled(response[..k], junk), j, k, script, d, rest);
    SearchOverJunk(response[..k], junk);
    BodyPhase(Filled(response[..k], junk), k, "", rest);
    LastSliceArrives(response, k);
    assert "" + response[k..] == response[k..];
  }

  lemma {:induction false} StaleBodyIsWrong(response: string, k: nat)
    requires k <= |response| && SkipHeaders(response[..k]).None?
    ensures Body(response) != Outcome(true, Some(response[k..]))
  {
    HeaderInPrefix(response, k);
    if SkipHeaders(response).Some? {
      assert |response[SkipHeaders(response).value..]| < |response[k..]|;
    }
  }

  /** A stale header that shows once k bytes are received makes some slicing write the wrong file. */
  lemma {:induction false} StaleHeaderCorrupts(junk: Junk, response: string, k: nat)
    requires 0 < k <= |Bufferable(response)|
    requires SkipHeaders(response[..k]).None? && SkipHeaders(Filled(response[..k], junk)).Some?
    ensures exists s :: Arriving(s) == response && Run(junk, true, s) != Body(response)
  {
    assert response[..0] == "" && Filled("", junk) == junk;
    if k <= HTTP_BUFFER_SIZE {
      StaleSlicesArrive(response, k);
      StaleHeaderIsTaken(response, 0, k, junk);
      StaleBodyIsWrong(response, k);
      assert Run(junk, true, StaleSlices(response, k)) != Body(response);
    } else {
      HeaderInPrefix(response, 4096);
      HeaderInPrefix(response, k);
      if SkipHeaders(Filled(response[..4096], junk)).Some? {
        StaleHeaderCorrupts(junk, response, 4096);
      } else {
        StaleSlicesArrive(response, k);
        ChunkIsBuffered(response, 0, 4096, junk, [Chunk(response[4096..k])] + LastSlice(response, k));
        StaleHeaderIsTaken(response, 4096, k, junk);
        StaleBodyIsWrong(response, k);
        assert Run(junk, true, StaleSlices(response, k)) != Body(response);
      }
    }
  }

  /**
   * Whatever the stack held, every slicing of a response downloads its body exactly, if and only if the
   * header block takes at most 4097 bytes or the whole response at most 8192, and no header left over
   * in the buffer shows behind what has been received.
   */
  lemma {:induction false} LosslessIffHeaderFits(junk: Junk, response: string)
    ensures (forall s :: Arriving(s) == response ==> Run(junk, true, s) == Body(response))
            <==> HeaderFits(response) && JunkIsSafe(response, junk)
  {
    if !JunkIsSafe(response, junk) {
      var k :| && 0 < k <= |Bufferable(response)| && SkipHeaders(response[..k]).None?
               && SkipHeaders(Filled(response[..k], junk)).Some?;
      StaleHeaderCorrupts(junk, response, k);
    } else if !HeaderFits(response) {
      BadSlicesArrive(response);
      BadSlicesLoseAByte(junk, response);
    } else {
      forall s | Arriving(s) == response
        ensures Run(junk, true, s) == Body(response)
      {
        DownloadIsLossless(junk, s);
      }
    }
  }

  /** A blank line left over one byte into the buffer, and a response that fits it: one slicing loses its header. */
  lemma {:induction false} StaleBlankLineCorrupts(junk: Junk, response: string)
    requires response != "" && response[0] != NUL && junk[1..5] == BLANK_LINE
    ensures !JunkIsSafe(response, junk)
    ensures exists s :: Arriving(s) == response && Run(junk, true, s) != Body(response)
  {
    var data := response[..1];
    var full := Filled(data, junk);
    assert |CStr(data)| <= 1 && SkipHeaders(data).None?;
    assert full[1..] == junk[1..];
    assert full[1..5] == full[1..][..4] == junk[1..][..4] == junk[1..5];
    assert full[..5] == data + BLANK_LINE && NUL !in BLANK_LINE;
    CStrOfPrefix(full, 5);
    CStrIs(full[..5], 5);
    assert CStr(full)[..5] == full[..5];
    assert At(CStr(full), BLANK_LINE, 1);
    StaleHeaderCorrupts(junk, response, 1);
  }

  /** For instance this response, whose header takes five bytes, received after that of another. */
  lemma {:induction false} StaleBlankLineExample() returns (junk: Junk, script: seq<RecvEvent>)
    ensures Arriving(script) == "a" + BLANK_LINE + "b" && HeaderFits(Arriving(script))
    ensures Run(junk, true, script) != Body(Arriving(script))
  {
    var stale := "x" + BLANK_LINE;
    junk := stale + seq(HEADER_BUFFER_SIZE - |stale|, _ => NUL);
    assert junk[..5] == stale;
    assert junk[1..5] == stale[1..] == BLANK_LINE;
    StaleBlankLineCorrupts(junk, "a" + BLANK_LINE + "b");
    script :| Arriving(script) == "a" + BLANK_LINE + "b" && Run(junk, true, script) != Body("a" + BLANK_LINE + "b");
  }
}
