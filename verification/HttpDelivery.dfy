/** From a response on the server to the file a client keeps: when the body arrives as it was given. */
module HttpDelivery {
  import opened Bytes
  import opened CText
  import opened HttpHeaders
  import opened HttpSocket
  import opened HttpResponse
  import Download

  // ---------------------------------------------------------------------------
  // Blank lines in a text put together
  // ---------------------------------------------------------------------------

  predicate IsBreak(c: char) {
    c == '\r' || c == '\n'
  }

  /** No line break reaches across from the first text into the second. */
  predicate Apart(x: string, y: string) {
    (x != "" && !IsBreak(x[|x| - 1])) || (y != "" && !IsBreak(y[0]))
  }

  function FirstBlank(s: string): Option<nat> {
    Find(s, BLANK_LINE, 0)
  }

  predicate NoBlankLine(s: string) {
    FirstBlank(s).None?
  }

  /** Its only blank line is its last four characters. */
  predicate EndsBlank(s: string) {
    |s| >= 4 && FirstBlank(s) == Some(|s| - 4)
  }

  lemma {:induction false} BlankChars(s: string, j: int)
    ensures At(s, BLANK_LINE, j) <==>
            && 0 <= j && j + 4 <= |s|
            && s[j] == '\r' && s[j + 1] == '\n' && s[j + 2] == '\r' && s[j + 3] == '\n'
  {
    assert BLANK_LINE == ['\r', '\n', '\r', '\n'];
    AtChars(s, BLANK_LINE, j);
    assert 0 <= j && j + 4 <= |s| ==> s[j + 0] == s[j];
  }

  lemma {:induction false} BlankInConcat(x: string, y: string, j: int)
    requires Apart(x, y)
    ensures At(x + y, BLANK_LINE, j) <==> At(x, BLANK_LINE, j) || At(y, BLANK_LINE, j - |x|)
  {
    BlankChars(x + y, j);
    BlankChars(x, j);
    BlankChars(y, j - |x|);
  }

  lemma {:induction false} FirstBlankInConcat(x: string, y: string)
    requires Apart(x, y)
    ensures FirstBlank(x + y) ==
            match (FirstBlank(x), FirstBlank(y))
            case (Some(i), _) => Some(i)
            case (None, Some(i)) => Some(|x| + i)
            case (None, None) => None
  {
    match (FirstBlank(x), FirstBlank(y))
    case (Some(i), _) =>
      BlankInFront(x, y, i);
    case (None, Some(i)) =>
      BlankBehind(x, y, i, |x| + i);
    case (None, None) =>
      if FirstBlank(x + y).Some? {
        BlankInConcat(x, y, FirstBlank(x + y).value);
      }
  }

  lemma {:induction false} BlankInFront(x: string, y: string, i: nat)
    requires Apart(x, y) && FirstBlank(x) == Some(i)
    ensures FirstBlank(x + y) == Some(i)
  {
    BlankInConcat(x, y, i);
    var j := FirstBlank(x + y).value;
    BlankInConcat(x, y, j);
    assert At(x, BLANK_LINE, j);
  }

  lemma {:induction false} BlankBehind(x: string, y: string, i: nat, k: nat)
    requires Apart(x, y) && FirstBlank(x).None? && FirstBlank(y) == Some(i) && k == |x| + i
    ensures FirstBlank(x + y) == Some(k)
  {
    BlankInConcat(x, y, k);
    assert k - |x| == i;
    var j := FirstBlank(x + y).value;
    BlankInConcat(x, y, j);
    assert At(y, BLANK_LINE, j - |x|);
  }

  lemma {:induction false} EndsBlankInConcat(x: string, y: string)
    requires Apart(x, y) && |y| >= 4
    ensures EndsBlank(x + y) <==> NoBlankLine(x) && EndsBlank(y)
  {
    FirstBlankInConcat(x, y);
  }

  lemma {:induction false} EndsBlankInParts(front: string, middle: string, link: string, back: string)
    requires NoBlankLine(front) && front != "" && !IsBreak(front[|front| - 1])
    requires NoBlankLine(link) && link != "" && !IsBreak(link[0]) && !IsBreak(link[|link| - 1])
    requires |back| >= 4
    ensures EndsBlank(front + (middle + (link + back))) <==> NoBlankLine(middle) && EndsBlank(back)
  {
    EndsBlankInConcat(front, middle + (link + back));
    EndsBlankInConcat(middle, link + back);
    EndsBlankInConcat(link, back);
  }

  /** No blank line in a line, its line feed, and a text that starts with neither. */
  lemma {:induction false} NoBlankInLine(l: string, t: string)
    requires IsLine(l) && l != "" && NoBlankLine(t) && t != "" && !IsBreak(t[0])
    ensures NoBlankLine(l + CRLF + t)
  {
    forall j: int
      ensures !At(l + CRLF, BLANK_LINE, j)
    {
      BlankChars(l + CRLF, j);
      CrlfAt(l, j);
      assert !At(l, CRLF, j);
    }
    FirstBlankInConcat(l + CRLF, t);
  }

  lemma {:induction false} PlainHasNoBlank(s: string)
    requires Plain(s)
    ensures NoBlankLine(s)
  {
    if FirstBlank(s).Some? {
      BlankChars(s, FirstBlank(s).value);
    }
  }

  // ---------------------------------------------------------------------------
  // The header text
  // ---------------------------------------------------------------------------

  /** A client that stops at the first blank line stops right before the body. */
  predicate HeaderEndsOnce(r: Response) {
    EndsBlank(HeaderText(r))
  }

  const CONNECTION := "Connection: close"

  lemma {:induction false} HeaderParts(r: Response)
    ensures HeaderText(r) ==
            StatusLine(r) + CRLF + TYPE_NAME
            + (TypeText(r) + CRLF + (LengthLine(r) + CRLF + CONNECTION + (CRLF + CustomText(r) + CRLF)))
  {
    CutAtConnection(LengthLine(r), CONNECTION, CustomText(r));
    CutAtType(StatusLine(r), TYPE_NAME, TypeText(r), LengthLine(r) + CRLF + RestOfHeader(r));
  }

  lemma {:induction false} CutAtConnection(l: string, c: string, k: string)
    ensures l + CRLF + (c + CRLF + k + CRLF) == l + CRLF + c + (CRLF + k + CRLF)
  {
  }

  lemma {:induction false} CutAtType(a: string, t: string, u: string, rest: string)
    ensures a + CRLF + (t + u + CRLF + rest) == a + CRLF + t + (u + CRLF + rest)
  {
  }

  lemma {:induction false} StatusPart(r: Response)
    ensures var p := StatusLine(r) + CRLF + TYPE_NAME; NoBlankLine(p) && p != "" && !IsBreak(p[|p| - 1])
  {
    StatusLineIsPlain(r);
    PlainHasNoBlank(TYPE_NAME);
    assert VERSION[0] == 'H' && TYPE_NAME[0] == 'C' && TYPE_NAME[13] == ' ';
    assert StatusLine(r)[0] == VERSION[0];
    NoBlankInLine(StatusLine(r), TYPE_NAME);
  }

  lemma {:induction false} LengthPart(r: Response)
    ensures var p := LengthLine(r) + CRLF + CONNECTION;
            NoBlankLine(p) && p != "" && !IsBreak(p[0]) && !IsBreak(p[|p| - 1])
  {
    LengthLineIsPlain(r);
    PlainHasNoBlank(CONNECTION);
    NoBlankInLine(LengthLine(r), CONNECTION);
    assert CONNECTION[16] == 'e';
  }

  lemma {:induction false} LengthLineIsPlain(r: Response)
    ensures IsLine(LengthLine(r)) && LengthLine(r) != "" && LengthLine(r)[0] == 'C'
  {
    var digits := Decimal(r.bodyLength);
    assert forall i :: 0 <= i < |digits| ==> digits[i] in digits;
    assert LengthLine(r) == LENGTH_NAME + " " + digits;
    PlainConcat(LENGTH_NAME + " ", digits);
    PrefixedLine(LengthLine(r), "");
    assert LengthLine(r) + "" == LengthLine(r);
    assert LENGTH_NAME[0] == 'C';
  }

  /**
   * The header ends at its first blank line if and only if the content type makes none, and the custom
   * header is empty or lines that end in CRLF, none of them empty.
   */
  lemma {:induction false} HeaderEndsOnceIff(r: Response)
    ensures HeaderEndsOnce(r) <==>
            NoBlankLine(TypeText(r) + CRLF) && EndsBlank(CRLF + CustomText(r) + CRLF)
  {
    HeaderParts(r);
    StatusPart(r);
    LengthPart(r);
    EndsBlankInParts(StatusLine(r) + CRLF + TYPE_NAME, TypeText(r) + CRLF,
                     LengthLine(r) + CRLF + CONNECTION, CRLF + CustomText(r) + CRLF);
  }

  /** A custom header line needs its own line end: without it no client finds the body. */
  lemma {:induction false} CustomLineNeedsItsEnd(r: Response, l: string)
    requires IsLine(l) && l != ""
    ensures CustomText(r) == l ==> !HeaderEndsOnce(r)
    ensures CustomText(r) == l + CRLF ==> (HeaderEndsOnce(r) <==> NoBlankLine(TypeText(r) + CRLF))
    ensures CustomText(r) == "" ==> (HeaderEndsOnce(r) <==> NoBlankLine(TypeText(r) + CRLF))
  {
    HeaderEndsOnceIff(r);
    LineBetweenBreaks(l);
    NothingBetweenBreaks();
  }

  lemma {:induction false} NothingBetweenBreaks()
    ensures EndsBlank(CRLF + "" + CRLF)
  {
    var t := CRLF + "" + CRLF;
    assert t == ['\r', '\n', '\r', '\n'];
    BlankChars(t, 0);
  }

  lemma {:induction false} LineBetweenBreaks(l: string)
    requires IsLine(l) && l != ""
    ensures NoBlankLine(CRLF + l + CRLF) && EndsBlank(CRLF + (l + CRLF) + CRLF)
  {
    var s, t := CRLF + l + CRLF, CRLF + (l + CRLF) + CRLF;
    BlankBehindLine(l, |l| + 2);
    if FirstBlank(s).Some? {
      BlankBehindLine(l, FirstBlank(s).value);
    }
    if FirstBlank(t).Some? {
      BlankBehindLine(l, FirstBlank(t).value);
    }
  }

  lemma {:induction false} BlankBehindLine(l: string, j: int)
    requires IsLine(l) && l != ""
    ensures !At(CRLF + l + CRLF, BLANK_LINE, j)
    ensures At(CRLF + (l + CRLF) + CRLF, BLANK_LINE, j) <==> j == |l| + 2
  {
    var s, t := CRLF + l + CRLF, CRLF + (l + CRLF) + CRLF;
    BlankChars(s, j);
    BlankChars(t, j);
    CrlfAt(l, j);
    CrlfAt(l, j - 2);
    assert !At(l, CRLF, j) && !At(l, CRLF, j - 2);
    assert forall k :: 0 <= k < |l| ==> s[k + 2] == l[k] && t[k + 2] == l[k];
  }

  // ---------------------------------------------------------------------------
  // The body
  // ---------------------------------------------------------------------------

  lemma {:induction false} HeaderHasNoNul(r: Response)
    ensures NUL !in HeaderText(r)
  {
    StatusLineIsPlain(r);
    LengthLineIsPlain(r);
    NoNulInConcat("Connection: close" + CRLF + CustomText(r), CRLF);
    NoNulInConcat(LengthLine(r) + CRLF, RestOfHeader(r));
    NoNulInConcat(TypeLine(r) + CRLF, LengthLine(r) + CRLF + RestOfHeader(r));
    NoNulInConcat(StatusLine(r) + CRLF, TypeLine(r) + CRLF + (LengthLine(r) + CRLF + RestOfHeader(r)));
  }

  lemma {:induction false} NoNulInConcat(x: string, y: string)
    requires NUL !in x && NUL !in y
    ensures NUL !in x + y
  {
  }

  /** A client that splits the bytes at the first blank line has the body exactly if the header ends there. */
  lemma {:induction false} SplitFindsBodyIff(r: Response)
    requires Sendable(r)
    ensures Download.Body(HeaderText(r) + Payload(r)) == Download.Outcome(true, Some(BodyBytes(r)))
            <==> HeaderEndsOnce(r)
  {
    HeaderHasNoNul(r);
    SplitFindsRestIff(HeaderText(r), Payload(r));
  }

  lemma {:induction false} SplitFindsRestIff(header: string, payload: string)
    requires NUL !in header
    ensures Download.Body(header + payload) == Download.Outcome(true, Some(payload)) <==> EndsBlank(header)
  {
    var all, h := header + payload, |header|;
    assert all[..h] == header == header[..h];
    CStrIs(header, h);
    CStrOfPrefix(all, h);
    FindInPrefix(header, CStr(all), BLANK_LINE, 0);
    assert all[h..] == payload;
    if Download.SkipHeaders(all).Some? {
      var i := Download.SkipHeaders(all).value;
      assert |all[i..]| == |all| - i;
    }
  }

  /**
   * End to end: what the server's writer puts on the wire, however send takes it and recv slices it, is
   * kept by the download as exactly the body, if the header ends at its first blank line; and only then,
   * unless a blank line in the body makes a header of more than the download can hold.
   */
  lemma {:induction false} ServedIsDownloaded(
      r: Response, sends: seq<SendEvent>, junk: Download.Junk, script: seq<RecvEvent>)
    requires Sendable(r) && Written(r, sends) == (true, Arriving(script))
    requires Download.JunkIsSafe(Arriving(script), junk)
    ensures HeaderEndsOnce(r) ==> Download.Run(junk, true, script) == Download.Outcome(true, Some(BodyBytes(r)))
    ensures Download.HeaderFits(Arriving(script)) && !HeaderEndsOnce(r) ==>
              Download.Run(junk, true, script) != Download.Outcome(true, Some(BodyBytes(r)))
  {
    WireHoldsPrefix(r, sends);
    SplitFindsBodyIff(r);
    if HeaderEndsOnce(r) {
      ShortHeaderFits(r);
    }
    if Download.HeaderFits(Arriving(script)) {
      Download.DownloadIsLossless(junk, script);
    }
  }

  lemma {:induction false} ShortHeaderFits(r: Response)
    requires Sendable(r) && HeaderEndsOnce(r) && |HeaderText(r)| < RESPONSE_HEADER_SIZE
    ensures Download.HeaderFits(HeaderText(r) + Payload(r))
  {
    SplitFindsBodyIff(r);
    var all := HeaderText(r) + Payload(r);
    var h := Download.SkipHeaders(all).value;
    assert |all[h..]| == |Payload(r)|;
  }

  /** Every header starts with the version and the decimal code. */
  lemma {:induction false} CodeIsRead(r: Response)
    ensures "HTTP/1.1 " + Decimal(r.status) + " " <= FormattedHeader(r) && NatOf(Decimal(r.status)) == r.status
  {
    DecimalValue(r.status);
    StartsWithFirst("HTTP/1.1 " + Decimal(r.status) + " ", Phrase(r.status), "\r\n", FormattedLines(r));
  }

  lemma {:induction false} StartsWithFirst(a: string, b: string, c: string, d: string)
    ensures a <= a + b + c + d
  {
  }

  /**
   * A bare status, if the field for a custom header holds none, splits at its first blank line into its
   * phrase, of the length it announces.
   */
  lemma {:induction false} StatusIsRead(code: uint16, stray: Option<string>)
    requires stray.None? || CStr(stray.value) == ""
    ensures var r := StatusPage(code, stray);
            && Download.Body(FormattedHeader(r) + BodyBytes(r)) == Download.Outcome(true, Some(Phrase(code)))
            && ContentLength(FormattedHeader(r), TWO_64) == |Phrase(code)|
  {
    PlainTextIsRead(StatusPage(code, stray), Phrase(code));
  }

  lemma {:induction false} PlainTextIsRead(r: Response, text: string)
    requires r.contentType == Some("text/plain") && CustomText(r) == ""
    requires r.body == Some(text) && r.bodyLength == |text|
    ensures Download.Body(FormattedHeader(r) + BodyBytes(r)) == Download.Outcome(true, Some(text))
    ensures ContentLength(FormattedHeader(r), TWO_64) == |text|
  {
    HeaderIsFormatted(r);
    PlainTextEndsOnce(r);
    assert text[..|text|] == text;
    SplitFindsBodyIff(r);
    PlainTextAnnounces(r);
  }

  lemma {:induction false} PlainTextAnnounces(r: Response)
    requires r.contentType == Some("text/plain")
    ensures ContentLength(HeaderText(r), TWO_64) == r.bodyLength
  {
    PlainTextIsPlain(r);
    LengthRoundTrip(r, TWO_64);
  }

  lemma {:induction false} PlainTextEndsOnce(r: Response)
    requires r.contentType == Some("text/plain") && CustomText(r) == ""
    ensures HeaderEndsOnce(r)
  {
    PlainTextIsPlain(r);
    HeaderEndsOnceIff(r);
    NothingBetweenBreaks();
  }

  lemma {:induction false} PlainTextIsPlain(r: Response)
    requires r.contentType == Some("text/plain")
    ensures TypeText(r) == "text/plain" && PlainType(r) && NoBlankLine(TypeText(r) + CRLF)
  {
    var t := "text/plain";
    assert Plain(t);
    WholeText(t);
    PlainTextIsLine(t);
    PlainHasNoBlankLine(t);
  }

  lemma {:induction false} WholeText(t: string)
    requires Plain(t)
    ensures CStr(t) == t
  {
    assert t[..|t|] == t;
    CStrIs(t, |t|);
  }

  lemma {:induction false} PlainTextIsLine(t: string)
    requires Plain(t)
    ensures IsLine(t)
  {
    PrefixedLine(t, "");
    assert t + "" == t;
  }

  lemma {:induction false} PlainHasNoBlankLine(t: string)
    requires Plain(t)
    ensures NoBlankLine(t + CRLF)
  {
    if FirstBlank(t + CRLF).Some? {
      BlankChars(t + CRLF, FirstBlank(t + CRLF).value);
    }
  }

  /** It always fits the header buffer, so it is sent. */
  lemma {:induction false} StatusIsShort(code: uint16, stray: Option<string>)
    requires stray.None? || CStr(stray.value) == ""
    ensures |FormattedHeader(StatusPage(code, stray))| < 256
  {
    var n := |Phrase(code)|;
    FiveDigits(code);
    FiveDigits(n);
    PlainTextIsPlain(StatusPage(code, stray));
    HeaderWidth(StatusPage(code, stray), code, n);
    PhraseIsShort(code);
  }

  lemma {:induction false} PhraseIsShort(code: nat)
    ensures |Phrase(code)| <= 21
  {
  }

  lemma {:induction false} FiveDigits(n: nat)
    requires n < 100_000
    ensures |Decimal(n)| <= 5
  {
    assert Pow10(5) == 100_000;
    DecimalWidth(n, 5);
  }

  lemma {:induction false} HeaderWidth(r: Response, code: nat, n: nat)
    requires r.status == code && r.bodyLength == n
    ensures |FormattedHeader(r)| ==
            67 + |Decimal(code)| + |Phrase(code)| + |TypeText(r)| + |Decimal(n)| + |CustomText(r)|
  {
    assert |FormattedLines(r)| == 55 + |TypeText(r)| + |Decimal(n)| + |CustomText(r)|;
  }

  /** The announced length is the number of body bytes sent, unless a length is given without a body. */
  lemma {:induction false} AnnouncedIsSentIff(r: Response, word: WordSize)
    requires Sendable(r) && PlainType(r)
    ensures ContentLength(HeaderText(r), word) == |BodyBytes(r)| <==> r.body.Some? || r.bodyLength == 0
  {
    LengthRoundTrip(r, word);
  }
}
