/** Requests as a client prints them, and what the length scan makes of their heads. */
module HttpMessage {
  import opened Bytes
  import opened CText
  import opened HttpHeaders
  import opened HttpFramer
  import opened HttpRequestLine

  /** A request as a client means it; the first Content-Length line stands between two runs of others. */
  datatype Message = Message(
    line: RequestLine, version: string,
    before: seq<string>, field: Option<LengthField>, after: seq<string>,
    body: string)

  function StartLine(m: Message): string {
    Print(m.line, ' ') + m.version
  }

  /** The lines up to the first Content-Length line. */
  function Front(m: Message): seq<string> {
    [StartLine(m)] + m.before
  }

  function Back(m: Message): seq<string> {
    (if m.field.Some? then [FieldLine(m.field.value)] else []) + m.after
  }

  /** Start line, headers and blank line. */
  function Head(m: Message): string {
    Lines(Front(m) + Back(m)) + CRLF
  }

  function Text(m: Message): string {
    Head(m) + m.body
  }

  ghost predicate IsHeaderLine(l: string) {
    l != "" && IsLine(l)
  }

  /** A head as a client may print it, whatever length it announces. */
  ghost predicate WellFormedHead(m: Message) {
    && Delimited(m.line)
    && (forall l :: l in Front(m) + Back(m) ==> IsHeaderLine(l))
    && (forall l :: l in Front(m) ==> !Announces(l))
    && (match m.field
        case None => forall l :: l in m.after ==> !Announces(l)
        case Some(f) => IsLengthField(f))
  }

  /** A request that announces its body's length and fits the buffer. */
  ghost predicate WellFormed(m: Message) {
    && WellFormedHead(m) && Announced(m) == |m.body| && |Text(m)| <= 2047
  }

  /** The length a head announces. */
  function Announced(m: Message): nat
    requires m.field.Some? ==> IsLengthField(m.field.value)
  {
    if m.field.Some? then NatOf(m.field.value.digits) else 0
  }

  // ---------------------------------------------------------------------------
  // The header block
  // ---------------------------------------------------------------------------

  lemma {:induction false} BlankAt(t: string, j: int)
    ensures At(t, BLANK_LINE, j) <==> At(t, CRLF, j) && At(t, CRLF, j + 2)
  {
    assert BLANK_LINE == CRLF + CRLF;
    AtConcat(t, CRLF, CRLF, j, j + 2);
  }

  /** No blank line starts within a line that a nonempty one follows. */
  lemma {:induction false} NoBlankInLine(t: string, i: nat, l: string, next: nat)
    requires IsLine(l) && At(t, l, i) && next == i + |l| + 2 && At(t, CRLF, next - 2) && !At(t, CRLF, next)
    ensures forall j :: i <= j < next ==> !At(t, BLANK_LINE, j)
  {
    LineBreak(t, i, l);
    CrlfAt(t, next - 2);
    CrlfAt(t, next - 1);
    forall j | i <= j < next
      ensures !At(t, BLANK_LINE, j)
    {
      BlankAt(t, j);
    }
  }

  lemma {:induction false} NoBreakAtLine(t: string, i: nat, l: string)
    requires IsHeaderLine(l) && At(t, l, i) && At(t, CRLF, i + |l|)
    ensures !At(t, CRLF, i)
  {
    LineBreak(t, i, l);
  }

  /** The blank line after a run of nonempty lines is the first one. */
  lemma {:induction false} BlankAfterLines(t: string, i: nat, ls: seq<string>, end: nat)
    requires ls != [] && forall l :: l in ls ==> IsHeaderLine(l)
    requires At(t, Lines(ls), i) && end == i + |Lines(ls)| && At(t, CRLF, end)
    ensures end >= 2 && At(t, BLANK_LINE, end - 2) && forall j :: i <= j < end - 2 ==> !At(t, BLANK_LINE, j)
    decreases |ls|
  {
    var next := i + |ls[0]| + 2;
    assert ls[0] in ls;
    LinesHead(t, i, ls);
    if |ls| == 1 {
      BlankAfterLine(t, i, ls[0], end);
    } else {
      assert ls[1] in ls;
      LinesHead(t, next, ls[1..]);
      NoBreakAtLine(t, next, ls[1]);
      NoBlankInLine(t, i, ls[0], next);
      BlankAfterLines(t, next, ls[1..], end);
    }
  }

  lemma {:induction false} BlankAfterLine(t: string, i: nat, l: string, end: nat)
    requires IsLine(l) && At(t, l, i) && end == i + |l| + 2 && At(t, CRLF, end - 2) && At(t, CRLF, end)
    ensures At(t, BLANK_LINE, end - 2) && forall j :: i <= j < end - 2 ==> !At(t, BLANK_LINE, j)
  {
    BlankAt(t, end - 2);
    LineBreak(t, i, l);
    forall j | i <= j < end - 2
      ensures !At(t, BLANK_LINE, j)
    {
      BlankAt(t, j);
    }
  }

  lemma {:induction false} LinesArePlain(ls: seq<string>)
    requires forall l :: l in ls ==> IsLine(l)
    ensures NUL !in Lines(ls)
    decreases |ls|
  {
    if ls == [] {
    } else {
      assert ls[0] in ls;
      LinesArePlain(ls[1..]);
    }
  }

  lemma {:induction false} HeadEnds(m: Message)
    requires WellFormedHead(m)
    ensures EndsLine(Head(m)) && NUL !in Head(m) && |Head(m)| >= 4
    ensures Find(Head(m), BLANK_LINE, 0) == Some(|Head(m)| - 4)
  {
    var ls := Front(m) + Back(m);
    var t, end := Head(m), |Lines(ls)|;
    assert t[0..end] == Lines(ls) && t[end..end + 2] == CRLF;
    BlankAfterLines(t, 0, ls, end);
    LinesArePlain(ls);
    CrlfAt(t, end);
  }

  lemma {:induction false} HeadPieces(m: Message, j: nat, end: nat)
    requires WellFormedHead(m) && j == |Lines(Front(m))| && end == j + |Lines(Back(m))|
    ensures At(Head(m), Lines(Front(m)), 0) && At(Head(m), Lines(Back(m)), j) && At(Head(m), CRLF, end)
    ensures |Head(m)| == end + 2
  {
    var t := Head(m);
    LinesConcat(Front(m), Back(m));
    assert t[0..|t|] == t == Lines(Front(m)) + (Lines(Back(m)) + CRLF);
    AtConcat(t, Lines(Front(m)), Lines(Back(m)) + CRLF, 0, j);
    AtConcat(t, Lines(Back(m)), CRLF, j, end);
  }

  lemma {:induction false} FrontIsSkipped(m: Message, j: nat)
    requires WellFormedHead(m) && j == |Lines(Front(m))|
    ensures AnnouncementLine(Head(m), 0) == AnnouncementLine(Head(m), j)
  {
    HeadPieces(m, j, j + |Lines(Back(m))|);
    forall l | l in Front(m)
      ensures IsLine(l)
    {
      assert l in Front(m) + Back(m);
    }
    ScanSkipsLines(Head(m), 0, Front(m), j);
  }

  /** The header block announces the value of its first Content-Length line, or nothing. */
  lemma {:induction false} HeadAnnounces(m: Message)
    requires WellFormedHead(m) && Announced(m) < TWO_64
    ensures ContentLength(Head(m), TWO_64) == Announced(m)
    ensures m.field.Some? ==> AnnouncementLine(Head(m), 0).Some?
  {
    match m.field
    case Some(f) =>
      var j := |Lines(Front(m))|;
      FieldStands(m, f, j);
      FrontIsSkipped(m, j);
      FieldIsRead(Head(m), j, f, Announced(m));
    case None =>
      HeadIsSilent(m);
  }

  lemma {:induction false} FieldStands(m: Message, f: LengthField, j: nat)
    requires WellFormedHead(m) && m.field == Some(f) && j == |Lines(Front(m))|
    ensures At(Head(m), FieldLine(f), j) && At(Head(m), CRLF, j + |FieldLine(f)|)
  {
    HeadPieces(m, j, j + |Lines(Back(m))|);
    BackStartsWithField(m, f);
    LinesHead(Head(m), j, Back(m));
  }

  lemma {:induction false} BackStartsWithField(m: Message, f: LengthField)
    requires m.field == Some(f)
    ensures Back(m) != [] && Back(m)[0] == FieldLine(f)
  {
  }

  lemma {:induction false} FieldIsRead(t: string, j: nat, f: LengthField, n: nat)
    requires IsLengthField(f) && NatOf(f.digits) == n < TWO_64
    requires At(t, FieldLine(f), j) && At(t, CRLF, j + |FieldLine(f)|)
    requires AnnouncementLine(t, 0) == AnnouncementLine(t, j)
    ensures ContentLength(t, TWO_64) == n && AnnouncementLine(t, 0).Some?
  {
    ScanReadsValue(t, j, f, n, TWO_64);
    LengthByHops(t, j, j, n, TWO_64);
  }

  lemma {:induction false} NothingAfterBlank(t: string, j: nat, end: nat)
    requires AnnouncementLine(t, 0) == AnnouncementLine(t, j) == AnnouncementLine(t, end)
    requires At(t, CRLF, end) && end + 2 == |t|
    ensures ContentLength(t, TWO_64) == 0 && AnnouncementLine(t, 0).None?
  {
    CrlfAt(t, end);
    assert Find(t, CRLF, end) == Some(end);
    assert !PrefixNoCase(t, end, LENGTH_NAME);
    assert AnnouncementLine(t, end + 2) == None;
  }

  lemma {:induction false} HeadIsSilent(m: Message)
    requires WellFormedHead(m) && m.field.None?
    ensures AnnouncementLine(Head(m), 0).None? && ContentLength(Head(m), TWO_64) == 0
  {
    var j := |Lines(Front(m))|;
    var end := j + |Lines(Back(m))|;
    HeadPieces(m, j, end);
    FrontIsSkipped(m, j);
    forall l | l in Back(m)
      ensures IsLine(l)
    {
      assert l in Front(m) + Back(m);
    }
    ScanSkipsLines(Head(m), j, Back(m), end);
    NothingAfterBlank(Head(m), j, end);
  }
}
