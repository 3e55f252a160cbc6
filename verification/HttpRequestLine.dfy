/** Splitting the request line in place, and what the split tokens are. */
module HttpRequestLine {
  import opened Bytes
  import opened CText

  const SPACE := {' '}
  const DELIMITERS := {' ', '\r', '\n'}
  const MARK := {'?'}

  /** Offsets of the separators that are overwritten with NUL. */
  datatype Split = Split(methodEnd: nat, pathEnd: nat, queryMark: Option<nat>)

  /** Where the split of a buffer that holds a C string falls. */
  function SplitLine(img: string): (r: Option<Split>)
    ensures r.Some? ==> r.value.methodEnd < r.value.pathEnd < |img|
    ensures r.Some? && r.value.queryMark.Some? ==> r.value.methodEnd < r.value.queryMark.value < r.value.pathEnd
  {
    match Scan(img, SPACE, 0)
    case None => None
    case Some(m) =>
      match Scan(img, DELIMITERS, m + 1)
      case None => None
      case Some(p) => Some(Split(m, p, Scan(img[..p], MARK, m + 1)))
  }

  function Punch(img: string, sp: Split): (r: string)
    requires sp.methodEnd < sp.pathEnd < |img|
    requires sp.queryMark.Some? ==> sp.queryMark.value < |img|
    ensures |r| == |img|
  {
    var cut := img[sp.methodEnd := NUL][sp.pathEnd := NUL];
    if sp.queryMark.Some? then cut[sp.queryMark.value := NUL] else cut
  }

  /** strchr and strpbrk over the buffer. */
  method ScanBuffer(buffer: array<char>, stops: set<char>, from: nat) returns (r: Option<nat>)
    ensures r == Scan(buffer[..], stops, from)
  {
    var i := from;
    while i < buffer.Length && buffer[i] != NUL
      invariant Scan(buffer[..], stops, from) == Scan(buffer[..], stops, i)
      decreases buffer.Length - i
    {
      if buffer[i] in stops {
        return Some(i);
      }
      i := i + 1;
    }
    return None;
  }

  /** Splits the line in place; a failed split may already have cut off the method. */
  method ParseRequestLine(buffer: array<char>) returns (ok: bool, path: nat, query: Option<nat>)
    requires NUL in buffer[..]
    modifies buffer
    ensures match SplitLine(old(buffer[..]))
            case None =>
              !ok && (match Scan(old(buffer[..]), SPACE, 0)
                      case None => buffer[..] == old(buffer[..])
                      case Some(m) => buffer[..] == old(buffer[..])[m := NUL])
            case Some(sp) =>
              && ok && path == sp.methodEnd + 1
              && query == (if sp.queryMark.Some? then Some(sp.queryMark.value + 1) else None)
              && buffer[..] == Punch(old(buffer[..]), sp)
  {
    ghost var img := buffer[..];
    var methodEnd := ScanBuffer(buffer, SPACE, 0);
    if methodEnd.None? {
      return false, 0, None;
    }
    buffer[methodEnd.value] := NUL;
    path := methodEnd.value + 1;
    ScanAfter(img, buffer[..], DELIMITERS, path);
    var pathEnd := ScanBuffer(buffer, DELIMITERS, path);
    if pathEnd.None? {
      return false, path, None;
    }
    buffer[pathEnd.value] := NUL;
    ScanUpTo(img, buffer[..], MARK, path, pathEnd.value);
    query := ScanBuffer(buffer, MARK, path);
    if query.Some? {
      buffer[query.value] := NUL;
      query := Some(query.value + 1);
    }
    ok := true;
  }

  lemma {:induction false} ScanAfter(s: string, s': string, stops: set<char>, from: nat)
    requires |s| == |s'| && forall j :: from <= j < |s| ==> s[j] == s'[j]
    ensures Scan(s, stops, from) == Scan(s', stops, from)
    decreases |s| - from
  {
    if from >= |s| {
    } else {
      ScanAfter(s, s', stops, from + 1);
    }
  }

  /** A NUL put at offset end bounds the search as cutting the buffer there does. */
  lemma {:induction false} ScanUpTo(s: string, s': string, stops: set<char>, from: nat, end: nat)
    requires end < |s'| && end <= |s| && s'[end] == NUL
    requires forall j :: from <= j < end ==> s[j] == s'[j]
    ensures Scan(s[..end], stops, from) == Scan(s', stops, from) || from > end
    decreases end - from
  {
    if from >= end {
    } else {
      ScanUpTo(s, s', stops, from + 1, end);
    }
  }

  // ---------------------------------------------------------------------------
  // Tokens
  // ---------------------------------------------------------------------------

  datatype RequestLine = RequestLine(token: string, path: string, query: Option<string>)

  function PrintQuery(query: Option<string>): string {
    if query.Some? then "?" + query.value else ""
  }

  /** The line up to and including the delimiter that ends the target. */
  function Print(line: RequestLine, end: char): string {
    line.token + " " + line.path + PrintQuery(line.query) + [end]
  }

  predicate FreeOf(s: string, chars: set<char>) {
    forall c :: c in s ==> c !in chars
  }

  /** No token contains a character that would end it. */
  predicate Delimited(line: RequestLine) {
    && FreeOf(line.token, {' ', NUL})
    && FreeOf(line.path, {' ', '\r', '\n', '?', NUL})
    && (line.query.Some? ==> FreeOf(line.query.value, {' ', '\r', '\n', NUL}))
  }

  /** The tokens as slices of the original buffer. */
  function Tokens(img: string, sp: Split): RequestLine
    requires sp.methodEnd < sp.pathEnd < |img|
    requires sp.queryMark.Some? ==> sp.methodEnd < sp.queryMark.value < sp.pathEnd
  {
    match sp.queryMark
    case None => RequestLine(img[..sp.methodEnd], img[sp.methodEnd + 1..sp.pathEnd], None)
    case Some(q) =>
      RequestLine(img[..sp.methodEnd], img[sp.methodEnd + 1..q], Some(img[q + 1..sp.pathEnd]))
  }

  /** The C string at an offset of the buffer. */
  predicate PointsAt(buffer: string, p: nat, token: string) {
    p <= |buffer| && CStr(buffer[p..]) == token
  }

  /** What SplitLine finds, character by character. */
  lemma {:induction false} SplitChars(img: string)
    requires SplitLine(img).Some?
    ensures var sp := SplitLine(img).value;
            && img[sp.methodEnd] == ' ' && img[sp.pathEnd] in DELIMITERS
            && (forall j :: 0 <= j < sp.methodEnd ==> img[j] != NUL && img[j] != ' ')
            && (forall j :: sp.methodEnd < j < sp.pathEnd ==> img[j] != NUL && img[j] !in DELIMITERS)
            && (sp.queryMark.None? ==> forall j :: sp.methodEnd < j < sp.pathEnd ==> img[j] != '?')
            && (sp.queryMark.Some? ==> && img[sp.queryMark.value] == '?'
                                       && forall j :: sp.methodEnd < j < sp.queryMark.value ==> img[j] != '?')
  {
    var sp := SplitLine(img).value;
    if sp.queryMark.None? {
      NoMark(img[..sp.pathEnd], sp.methodEnd + 1);
    }
  }

  /** Conversely, those characters determine the split. */
  lemma {:induction false} SplitFromChars(img: string, m: nat, p: nat, mark: Option<nat>)
    requires m < p < |img| && img[m] == ' ' && img[p] in DELIMITERS
    requires forall j :: 0 <= j < m ==> img[j] != NUL && img[j] != ' '
    requires forall j :: m < j < p ==> img[j] != NUL && img[j] !in DELIMITERS
    requires mark.None? ==> forall j :: m < j < p ==> img[j] != '?'
    requires mark.Some? ==> m < mark.value < p && img[mark.value] == '?'
    requires mark.Some? ==> forall j :: m < j < mark.value ==> img[j] != '?'
    ensures SplitLine(img) == Some(Split(m, p, mark))
  {
    ScanIs(img, SPACE, 0, m);
    ScanIs(img, DELIMITERS, m + 1, p);
    if mark.Some? {
      ScanIs(img[..p], MARK, m + 1, mark.value);
    } else {
      ScanIsNone(img[..p], MARK, m + 1, p);
    }
  }

  lemma {:induction false} SplitIsDelimited(img: string)
    requires SplitLine(img).Some?
    ensures Delimited(Tokens(img, SplitLine(img).value))
  {
    SplitChars(img);
  }

  /**
   * Splitting inverts joining: the original buffer is the printed delimiter-free tokens, ended by a
   * space, CR or LF, and whatever follows.
   */
  lemma {:induction false} SplitThenJoin(img: string)
    requires SplitLine(img).Some?
    ensures var sp := SplitLine(img).value;
            && Delimited(Tokens(img, sp)) && img[sp.pathEnd] in {' ', '\r', '\n'}
            && img == Print(Tokens(img, sp), img[sp.pathEnd]) + img[sp.pathEnd + 1..]
  {
    SplitChars(img);
    SplitIsDelimited(img);
    var sp := SplitLine(img).value;
    JoinPieces(img, sp.methodEnd, sp.pathEnd, sp.queryMark);
  }

  lemma {:induction false} JoinPieces(img: string, m: nat, p: nat, mark: Option<nat>)
    requires m < p < |img| && img[m] == ' '
    requires mark.Some? ==> m < mark.value < p && img[mark.value] == '?'
    ensures img == Print(Tokens(img, Split(m, p, mark)), img[p]) + img[p + 1..]
  {
    var line := Tokens(img, Split(m, p, mark));
    TargetPieces(img, m, p, mark);
    assert line.token + " " + line.path + PrintQuery(line.query) == img[..m] + " " + img[m + 1..p];
    assert img[..m] + " " + img[m + 1..p] + [img[p]] + img[p + 1..] == img;
  }

  lemma {:induction false} TargetPieces(img: string, m: nat, p: nat, mark: Option<nat>)
    requires m < p < |img| && (mark.Some? ==> m < mark.value < p && img[mark.value] == '?')
    ensures var line := Tokens(img, Split(m, p, mark));
            line.path + PrintQuery(line.query) == img[m + 1..p]
  {
    if mark.Some? {
      assert img[mark.value..p] == "?" + img[mark.value + 1..p];
    }
  }

  predicate Outside(j: int, from: int, to: int) {
    j < from || to <= j
  }

  /** Nothing but the two or three separators changes in the buffer. */
  lemma {:induction false} PunchElsewhere(img: string, sp: Split, from: nat, to: nat)
    requires sp.methodEnd < sp.pathEnd < |img|
    requires sp.queryMark.Some? ==> sp.queryMark.value < |img|
    requires from <= to <= |img|
    requires Outside(sp.methodEnd, from, to) && Outside(sp.pathEnd, from, to)
    requires sp.queryMark.Some? ==> Outside(sp.queryMark.value, from, to)
    ensures Punch(img, sp)[from..to] == img[from..to]
  {
    var b := Punch(img, sp);
    var x, y := b[from..to], img[from..to];
    assert forall k :: 0 <= k < |x| ==> x[k] == b[from + k] && y[k] == img[from + k];
  }

  /** At the pointers it computed the server reads exactly the tokens, as C strings. */
  lemma {:induction false} SplitReadsBack(img: string)
    requires SplitLine(img).Some?
    ensures var sp := SplitLine(img).value;
            var line := Tokens(img, sp);
            && PointsAt(Punch(img, sp), 0, line.token)
            && PointsAt(Punch(img, sp), sp.methodEnd + 1, line.path)
            && (sp.queryMark.Some? ==> PointsAt(Punch(img, sp), sp.queryMark.value + 1, line.query.value))
  {
    SplitChars(img);
    SplitIsDelimited(img);
    var sp := SplitLine(img).value;
    var line := Tokens(img, sp);
    var end := if sp.queryMark.Some? then sp.queryMark.value else sp.pathEnd;
    SliceReadsBack(img, sp, 0, sp.methodEnd, line.token);
    SliceReadsBack(img, sp, sp.methodEnd + 1, end, line.path);
    if sp.queryMark.Some? {
      QueryReadsBack(img, sp, sp.queryMark.value + 1);
    }
  }

  lemma {:induction false} QueryReadsBack(img: string, sp: Split, from: nat)
    requires SplitLine(img) == Some(sp) && sp.queryMark.Some? && from == sp.queryMark.value + 1
    ensures PointsAt(Punch(img, sp), from, Tokens(img, sp).query.value)
  {
    SplitIsDelimited(img);
    SliceReadsBack(img, sp, from, sp.pathEnd, Tokens(img, sp).query.value);
  }

  /** A token between two separators, the second of which the split overwrites. */
  lemma {:induction false} SliceReadsBack(img: string, sp: Split, from: nat, to: nat, token: string)
    requires sp.methodEnd < sp.pathEnd < |img|
    requires sp.queryMark.Some? ==> sp.methodEnd < sp.queryMark.value < sp.pathEnd
    requires from <= to < |img| && img[from..to] == token && NUL !in token
    requires Outside(sp.methodEnd, from, to) && Outside(sp.pathEnd, from, to)
    requires sp.queryMark.Some? ==> Outside(sp.queryMark.value, from, to)
    requires to == sp.methodEnd || to == sp.pathEnd || Some(to) == sp.queryMark
    ensures PointsAt(Punch(img, sp), from, token)
  {
    PunchElsewhere(img, sp, from, to);
    TokenAt(Punch(img, sp), from, to, token);
  }

  lemma {:induction false} NoMark(s: string, from: nat)
    requires Scan(s, MARK, from).None? && forall j :: from <= j < |s| ==> s[j] != NUL
    ensures forall j :: from <= j < |s| ==> s[j] != '?'
    decreases |s| - from
  {
    if from >= |s| {
    } else {
      NoMark(s, from + 1);
    }
  }

  /** A NUL-free run that a NUL ends is the C string at its start. */
  lemma {:induction false} TokenAt(b: string, from: nat, to: nat, token: string)
    requires from <= to < |b| && b[to] == NUL && b[from..to] == token && NUL !in token
    ensures PointsAt(b, from, token)
  {
    assert b[from..][..to - from] == token;
    CStrIs(b[from..], to - from);
  }

  /** Joining inverts splitting: a printed line splits into the tokens it was printed from. */
  lemma {:induction false} JoinThenSplit(line: RequestLine, end: char, rest: string)
    requires Delimited(line) && end in {' ', '\r', '\n'}
    ensures var img := Print(line, end) + rest;
            var r := SplitLine(img);
            && r.Some?
            && r.value == Split(|line.token|, |line.token| + 1 + |line.path| + |PrintQuery(line.query)|,
                                if line.query.Some? then Some(|line.token| + 1 + |line.path|) else None)
            && Tokens(img, r.value) == line
  {
    var img := Print(line, end) + rest;
    var m := |line.token|;
    var q := m + 1 + |line.path|;
    var p := q + |PrintQuery(line.query)|;
    var mark := if line.query.Some? then Some(q) else None;
    PrintedTokens(line, end, rest, img, m, q, p);
    PrintedChars(line, end, rest, img, m, q, p);
    SplitFromChars(img, m, p, mark);
    TokensOfSlices(img, line, m, q, p, mark);
  }

  lemma {:induction false} TokensOfSlices(img: string, line: RequestLine, m: nat, q: nat, p: nat, mark: Option<nat>)
    requires m < q <= p < |img| && img[..m] == line.token && img[m + 1..q] == line.path
    requires mark == if line.query.Some? then Some(q) else None
    requires if line.query.Some? then q < p && img[q + 1..p] == line.query.value else q == p
    ensures Tokens(img, Split(m, p, mark)) == line
  {
  }

  lemma {:induction false} PrintedTokens(
      line: RequestLine, end: char, rest: string, img: string, m: nat, q: nat, p: nat)
    requires img == Print(line, end) + rest
    requires m == |line.token| && q == m + 1 + |line.path| && p == q + |PrintQuery(line.query)|
    ensures p < |img| && img[p] == end
    ensures img[..m] == line.token && img[m] == ' ' && img[m + 1..q] == line.path
    ensures line.query.Some? ==> q < p && img[q] == '?' && img[q + 1..p] == line.query.value
  {
    PrintedPieces(line, end, rest, img, m, q, p);
    if line.query.Some? {
      QueryStands(img, q, p, line.query.value);
    }
  }

  lemma {:induction false} PrintedChars(
      line: RequestLine, end: char, rest: string, img: string, m: nat, q: nat, p: nat)
    requires img == Print(line, end) + rest && Delimited(line)
    requires m == |line.token| && q == m + 1 + |line.path| && p == q + |PrintQuery(line.query)|
    ensures q <= p < |img|
    ensures forall j :: 0 <= j < m ==> img[j] != NUL && img[j] != ' '
    ensures forall j :: m < j < p ==> img[j] != NUL && img[j] !in DELIMITERS
    ensures forall j :: m < j < q ==> img[j] != '?'
  {
    PrintedPieces(line, end, rest, img, m, q, p);
    CharsOf(img, 0, m, line.token);
    CharsOf(img, m + 1, q, line.path);
    TargetIsFree(line);
    CharsOf(img, m + 1, p, line.path + PrintQuery(line.query));
  }

  lemma {:induction false} QueryStands(img: string, q: nat, p: nat, query: string)
    requires q <= p <= |img| && img[q..p] == "?" + query
    ensures q < p && img[q] == '?' && img[q + 1..p] == query
  {
    assert img[q + 1..p] == img[q..p][1..] == query;
    assert img[q] == img[q..p][0];
  }

  lemma {:induction false} TargetIsFree(line: RequestLine)
    requires Delimited(line)
    ensures FreeOf(line.path + PrintQuery(line.query), {' ', '\r', '\n', NUL})
  {
  }

  lemma {:induction false} PrintedPieces(
      line: RequestLine, end: char, rest: string, img: string, m: nat, q: nat, p: nat)
    requires img == Print(line, end) + rest
    requires m == |line.token| && q == m + 1 + |line.path| && p == q + |PrintQuery(line.query)|
    ensures p < |img| && img[p] == end
    ensures img[..m] == line.token && img[m] == ' ' && img[m + 1..q] == line.path
    ensures img[q..p] == PrintQuery(line.query) && img[m + 1..p] == line.path + PrintQuery(line.query)
  {
    FrontStands(img, line.token + " " + line.path + PrintQuery(line.query), end, rest, p);
    TargetStands(img, line.token, line.path, PrintQuery(line.query), m, q, p);
  }

  lemma {:induction false} FrontStands(img: string, front: string, end: char, rest: string, p: nat)
    requires img == front + [end] + rest && p == |front|
    ensures front <= img && p < |img| && img[p] == end
  {
  }

  lemma {:induction false} TargetStands(
      img: string, token: string, path: string, query: string, m: nat, q: nat, p: nat)
    requires token + " " + path + query <= img
    requires m == |token| && q == m + 1 + |path| && p == q + |query|
    ensures p <= |img| && img[..m] == token && img[m] == ' '
    ensures img[m + 1..q] == path && img[q..p] == query && img[m + 1..p] == path + query
  {
    Piece(img, token + " " + path, query, q, p);
    Piece(img, token + " ", path, m + 1, q);
    Piece(img, token, " ", m, m + 1);
    Adjacent(img, m + 1, q, p);
  }

  lemma {:induction false} Adjacent(s: string, i: nat, j: nat, k: nat)
    requires i <= j <= k <= |s|
    ensures s[i..k] == s[i..j] + s[j..k]
  {
  }

  lemma {:induction false} Piece(img: string, front: string, piece: string, i: nat, j: nat)
    requires front + piece <= img && i == |front| && j == i + |piece|
    ensures j <= |img| && front <= img && img[..i] == front && img[i..j] == piece
    ensures |piece| == 1 ==> img[i] == piece[0]
  {
    assert img[..j] == front + piece;
  }

  lemma {:induction false} CharsOf(img: string, from: nat, to: nat, token: string)
    requires from <= to <= |img| && img[from..to] == token
    ensures forall j :: from <= j < to ==> img[j] in token
  {
    assert forall j :: from <= j < to ==> img[j] == token[j - from];
  }
}
