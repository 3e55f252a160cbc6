/** Header lines and the Content-Length scan both HTTP servers use. */
module HttpHeaders {
  import opened Bytes
  import opened CText

  const LENGTH_NAME := "Content-Length:"

  /** The number of values of size_t: 2^64 on the Simulator, 2^32 on the RP2040. */
  type WordSize = w: int | w == TWO_32 || w == TWO_64 witness TWO_64

  /** The offset of the first line, from the one at offset line on, that starts with the field name. */
  function AnnouncementLine(t: string, line: nat): (r: Option<nat>)
    ensures r.Some? ==> line <= r.value && PrefixNoCase(t, r.value, LENGTH_NAME)
    decreases |t| - line
  {
    if line >= |t| then None
    else if PrefixNoCase(t, line, LENGTH_NAME) then Some(line)
    else
      match NextLine(t, line)
      case None => None
      case Some(next) => AnnouncementLine(t, next)
  }

  /** The offset after the line's end. */
  function NextLine(t: string, line: nat): (r: Option<nat>)
    ensures r.Some? ==> line + 2 <= r.value <= |t|
  {
    match Find(t, CRLF, line)
    case None => None
    case Some(p) => Some(p + 2)
  }

  /** The digits at offset i folded onto acc, in size_t arithmetic. */
  function NumberAt(t: string, i: nat, acc: nat, word: WordSize): nat
    decreases |t| - i
  {
    if i < |t| && IsDigit(t[i]) then NumberAt(t, i + 1, (acc * 10 + DigitValue(t[i])) % word, word) else acc
  }

  function LengthAt(t: string, line: nat, word: WordSize): nat {
    NumberAt(t, SkipBlanks(t, line + |LENGTH_NAME|), 0, word)
  }

  function LengthFrom(t: string, line: nat, word: WordSize): nat {
    match AnnouncementLine(t, line)
    case None => 0
    case Some(l) => LengthAt(t, l, word)
  }

  function ContentLength(t: string, word: WordSize): nat {
    LengthFrom(t, 0, word)
  }

  /** A scan that gets from the start to some line, and from there to the announcement. */
  lemma {:induction false} LengthByHops(t: string, i: nat, j: nat, n: nat, word: WordSize)
    requires AnnouncementLine(t, 0) == AnnouncementLine(t, i)
    requires AnnouncementLine(t, i) == AnnouncementLine(t, j)
    requires AnnouncementLine(t, j) == Some(j) && LengthAt(t, j, word) == n
    ensures ContentLength(t, word) == n
  {
  }

  method SkipBlanksFrom(text: string, start: nat) returns (cursor: nat)
    ensures cursor == SkipBlanks(text, start)
  {
    cursor := start;
    while cursor < |text| && IsBlank(text[cursor])
      invariant SkipBlanks(text, start) == SkipBlanks(text, cursor)
      decreases |text| - cursor
    {
      cursor := cursor + 1;
    }
  }

  method ReadNumber(text: string, start: nat, word: WordSize) returns (value: nat)
    ensures value == NumberAt(text, start, 0, word)
  {
    value := 0;
    var cursor := start;
    while cursor < |text| && IsDigit(text[cursor])
      invariant NumberAt(text, start, 0, word) == NumberAt(text, cursor, value, word)
      decreases |text| - cursor
    {
      value := (value * 10 + DigitValue(text[cursor])) % word;
      cursor := cursor + 1;
    }
  }

  method ReadLength(headers: string, line: nat, word: WordSize) returns (value: nat)
    ensures value == LengthAt(headers, line, word)
  {
    var cursor := SkipBlanksFrom(headers, line + |LENGTH_NAME|);
    value := ReadNumber(headers, cursor, word);
  }

  lemma {:induction false} LengthStep(t: string, line: nat, next: nat, word: WordSize)
    requires line < |t| && !PrefixNoCase(t, line, LENGTH_NAME) && NextLine(t, line) == Some(next)
    ensures LengthFrom(t, line, word) == LengthFrom(t, next, word)
  {
  }

  method ContentLengthOf(headers: string, word: WordSize) returns (value: nat)
    ensures value == ContentLength(headers, word)
  {
    var line := 0;
    while line < |headers|
      invariant LengthFrom(headers, 0, word) == LengthFrom(headers, line, word)
      decreases |headers| - line
    {
      if PrefixNoCase(headers, line, LENGTH_NAME) {
        value := ReadLength(headers, line, word);
        return;
      }
      var next := Find(headers, CRLF, line);
      if next.None? {
        return 0;
      }
      LengthStep(headers, line, next.value + 2, word);
      line := next.value + 2;
    }
    return 0;
  }

  // ---------------------------------------------------------------------------
  // What the scan reads from digits
  // ---------------------------------------------------------------------------

  lemma {:induction false} FoldModulo(a: nat, d: nat, word: WordSize)
    ensures (a % word * 10 + d) % word == (a * 10 + d) % word
  {
    if word == TWO_32 {
      FoldModulo32(a, d);
    } else {
      FoldModulo64(a, d);
    }
  }

  lemma {:induction false} FoldModulo32(a: nat, d: nat)
    ensures (a % TWO_32 * 10 + d) % TWO_32 == (a * 10 + d) % TWO_32
  {
    assert a * 10 + d == a % TWO_32 * 10 + d + a / TWO_32 * 10 * TWO_32;
  }

  lemma {:induction false} FoldModulo64(a: nat, d: nat)
    ensures (a % TWO_64 * 10 + d) % TWO_64 == (a * 10 + d) % TWO_64
  {
    assert a * 10 + d == a % TWO_64 * 10 + d + a / TWO_64 * 10 * TWO_64;
  }

  lemma {:induction false} NumberStep(t: string, i: nat, ds: string, j: nat, k: nat, n: nat, word: WordSize)
    requires (forall c :: c in ds ==> IsDigit(c)) && j <= |ds| && At(t, ds, i) && k == i + j
    requires n == NatOf(ds[..j])
    ensures NumberAt(t, i, 0, word) == NumberAt(t, k, n % word, word)
  {
    if j == 0 {
    } else {
      var a := NatOf(ds[..j - 1]);
      NumberStep(t, i, ds, j - 1, k - 1, a, word);
      NatOfPrefix(ds, j);
      DigitStands(t, i, ds, j - 1, k - 1);
      OneMoreDigit(t, k - 1, k, a, DigitValue(ds[j - 1]), n, word);
    }
  }

  lemma {:induction false} DigitStands(t: string, i: nat, ds: string, j: nat, k: nat)
    requires At(t, ds, i) && j < |ds| && k == i + j
    ensures k < |t| && t[k] == ds[j]
  {
    AtChars(t, ds, i);
    assert t[i + j] == ds[j];
  }

  lemma {:induction false} OneMoreDigit(t: string, i: nat, next: nat, a: nat, d: nat, n: nat, word: WordSize)
    requires next == i + 1 <= |t| && IsDigit(t[i]) && d == DigitValue(t[i]) && n == a * 10 + d
    ensures NumberAt(t, i, a % word, word) == NumberAt(t, next, n % word, word)
  {
    FoldModulo(a, d, word);
  }

  /** A run of digits reads as its value modulo the word size. */
  lemma {:induction false} NumberIsValue(t: string, i: nat, ds: string, word: WordSize)
    requires (forall c :: c in ds ==> IsDigit(c)) && At(t, ds, i)
    requires i + |ds| < |t| ==> !IsDigit(t[i + |ds|])
    ensures NumberAt(t, i, 0, word) == NatOf(ds) % word
  {
    assert ds[..|ds|] == ds;
    NumberStep(t, i, ds, |ds|, i + |ds|, NatOf(ds), word);
  }

  lemma {:induction false} NumberFitsWord(t: string, i: nat, acc: nat, word: WordSize)
    requires acc < word
    ensures NumberAt(t, i, acc, word) < word
    decreases |t| - i
  {
    if i >= |t| || !IsDigit(t[i]) {
    } else {
      NumberFitsWord(t, i + 1, (acc * 10 + DigitValue(t[i])) % word, word);
    }
  }

  lemma {:induction false} LengthFitsWord(t: string, line: nat, word: WordSize)
    ensures LengthFrom(t, line, word) < word
  {
    if AnnouncementLine(t, line).Some? {
      NumberFitsWord(t, SkipBlanks(t, AnnouncementLine(t, line).value + |LENGTH_NAME|), 0, word);
    }
  }

  /** The 32-bit reading of a length is the 64-bit one modulo 2^32. */
  lemma {:induction false} NarrowNumber(t: string, i: nat, acc: nat)
    ensures NumberAt(t, i, acc % TWO_32, TWO_32) == NumberAt(t, i, acc, TWO_64) % TWO_32
    decreases |t| - i
  {
    if i >= |t| || !IsDigit(t[i]) {
    } else {
      var d := DigitValue(t[i]);
      var wide := (acc * 10 + d) % TWO_64;
      assert (acc % TWO_32 * 10 + d) % TWO_32 == wide % TWO_32 by {
        FoldModulo(acc, d, TWO_32);
        NarrowModulo(acc * 10 + d);
      }
      NarrowNumber(t, i + 1, wide);
    }
  }

  lemma NarrowModulo(x: nat)
    ensures x % TWO_64 % TWO_32 == x % TWO_32
  {
    assert x == x / TWO_64 * TWO_64 + x % TWO_64;
    assert TWO_64 == TWO_32 * TWO_32;
  }

  lemma {:induction false} NarrowLength(t: string)
    ensures ContentLength(t, TWO_32) == ContentLength(t, TWO_64) % TWO_32
  {
    if AnnouncementLine(t, 0).Some? {
      NarrowNumber(t, SkipBlanks(t, AnnouncementLine(t, 0).value + |LENGTH_NAME|), 0);
    }
  }

  // ---------------------------------------------------------------------------
  // Printed lines
  // ---------------------------------------------------------------------------

  /** A line without its terminator. */
  ghost predicate IsLine(l: string) {
    NUL !in l && forall j: int :: !At(l, CRLF, j)
  }

  function Lines(ls: seq<string>): string {
    if ls == [] then "" else ls[0] + CRLF + Lines(ls[1..])
  }

  lemma {:induction false} LineBreak(t: string, i: nat, l: string)
    requires IsLine(l) && At(t, l, i) && At(t, CRLF, i + |l|)
    ensures Find(t, CRLF, i) == Some(i + |l|)
  {
    CrlfAt(t, i + |l|);
    AtChars(t, l, i);
    forall j | i <= j < i + |l|
      ensures !At(t, CRLF, j)
    {
      CrlfAt(t, j);
      CrlfAt(l, j - i);
      assert !At(l, CRLF, j - i);
      assert t[i + (j - i)] == l[j - i];
      assert j + 1 < i + |l| ==> t[i + (j + 1 - i)] == l[j + 1 - i];
    }
  }

  /** The line starts with the field name, each letter in either case. */
  predicate Announces(l: string) {
    |l| >= 15 && forall k :: 0 <= k < 15 ==> l[k] == "content-length:"[k] || l[k] == "CONTENT-LENGTH:"[k]
  }

  lemma {:induction false} NameInAnyCase(l: string)
    ensures PrefixNoCase(l, 0, LENGTH_NAME) <==> Announces(l)
  {
    if |l| >= 15 {
      forall k | 0 <= k < 15
        ensures Lower(l[k]) == Lower(LENGTH_NAME[k]) <==> l[k] == "content-length:"[k] || l[k] == "CONTENT-LENGTH:"[k]
      {
        NameLetter(l[k], k);
      }
      assert PrefixNoCase(l, 0, LENGTH_NAME) <==> forall k :: 0 <= k < 15 ==> Lower(l[0 + k]) == Lower(LENGTH_NAME[k]);
    }
  }

  lemma {:induction false} NameAnnounces()
    ensures |LENGTH_NAME| == 15 && Announces(LENGTH_NAME)
  {
    NameInAnyCase(LENGTH_NAME);
  }

  lemma {:induction false} NameLetter(c: char, k: nat)
    requires k < 15
    ensures Lower(c) == Lower(LENGTH_NAME[k]) <==> c == "content-length:"[k] || c == "CONTENT-LENGTH:"[k]
  {
  }

  /** Whether a line carries the field name does not depend on what follows the line. */
  lemma {:induction false} NameInLine(t: string, i: nat, l: string)
    requires At(t, l, i) && At(t, CRLF, i + |l|)
    ensures PrefixNoCase(t, i, LENGTH_NAME) <==> Announces(l)
  {
    NameInAnyCase(l);
    AtChars(t, l, i);
    CrlfAt(t, i + |l|);
    if PrefixNoCase(t, i, LENGTH_NAME) {
      NameHasNoReturn(t, i);
    }
  }

  lemma {:induction false} ScanSkipsLine(t: string, i: nat, l: string, next: nat)
    requires IsLine(l) && !Announces(l)
    requires At(t, l, i) && At(t, CRLF, i + |l|) && next == i + |l| + 2
    ensures AnnouncementLine(t, i) == AnnouncementLine(t, next)
  {
    LineBreak(t, i, l);
    assert NextLine(t, i) == Some(next);
    NameInLine(t, i, l);
    ScanStep(t, i, next);
  }

  lemma {:induction false} ScanStep(t: string, i: nat, next: nat)
    requires i < |t| && !PrefixNoCase(t, i, LENGTH_NAME) && NextLine(t, i) == Some(next)
    ensures AnnouncementLine(t, i) == AnnouncementLine(t, next)
  {
  }

  /** The scan passes over lines that do not carry the field name. */
  lemma {:induction false} ScanSkipsLines(t: string, i: nat, ls: seq<string>, end: nat)
    requires forall l :: l in ls ==> IsLine(l) && !Announces(l)
    requires At(t, Lines(ls), i) && end == i + |Lines(ls)|
    ensures AnnouncementLine(t, i) == AnnouncementLine(t, end)
    decreases |ls|
  {
    if ls == [] {
      assert end == i;
    } else {
      var next := i + |ls[0]| + 2;
      ScanSkipsFirst(t, i, ls, next);
      ScanSkipsLines(t, next, ls[1..], end);
    }
  }

  lemma {:induction false} ScanSkipsFirst(t: string, i: nat, ls: seq<string>, next: nat)
    requires ls != [] && IsLine(ls[0]) && !Announces(ls[0])
    requires At(t, Lines(ls), i) && next == i + |ls[0]| + 2
    ensures AnnouncementLine(t, i) == AnnouncementLine(t, next)
    ensures At(t, Lines(ls[1..]), next) && i + |Lines(ls)| == next + |Lines(ls[1..])|
  {
    LinesHead(t, i, ls);
    ScanSkipsLine(t, i, ls[0], next);
  }

  lemma {:induction false} LinesHead(t: string, i: nat, ls: seq<string>)
    requires ls != [] && At(t, Lines(ls), i)
    ensures At(t, ls[0], i) && At(t, CRLF, i + |ls[0]|) && At(t, Lines(ls[1..]), i + |ls[0]| + 2)
    ensures i + |Lines(ls)| == i + |ls[0]| + 2 + |Lines(ls[1..])|
  {
    AtConcat(t, ls[0] + CRLF, Lines(ls[1..]), i, i + |ls[0]| + 2);
    AtConcat(t, ls[0], CRLF, i, i + |ls[0]|);
  }

  lemma {:induction false} LinesConcat(a: seq<string>, b: seq<string>)
    ensures Lines(a + b) == Lines(a) + Lines(b)
    decreases |a|
  {
    if a == [] {
      assert a + b == b;
    } else {
      assert (a + b)[1..] == a[1..] + b;
      LinesConcat(a[1..], b);
    }
  }

  /**
   * A Content-Length line: the name in any case, blanks, digits if there are any, and a rest that
   * starts with no digit, or with no blank either where there are none.
   */
  datatype LengthField = LengthField(name: string, pad: string, digits: string, rest: string)

  predicate IsLengthField(f: LengthField) {
    && |f.name| == 15 && Announces(f.name)
    && AllBlank(f.pad)
    && (forall c :: c in f.digits ==> '0' <= c <= '9')
    && (f.rest != "" ==> !('0' <= f.rest[0] <= '9') && (f.digits == "" ==> f.rest[0] != ' ' && f.rest[0] != '\t'))
  }

  function FieldLine(f: LengthField): string {
    f.name + (f.pad + (f.digits + f.rest))
  }

  /** The scan standing at a Content-Length line reads its number. */
  lemma {:induction false} ScanReadsField(t: string, i: nat, f: LengthField, word: WordSize)
    requires IsLengthField(f) && At(t, FieldLine(f), i) && At(t, CRLF, i + |FieldLine(f)|)
    ensures AnnouncementLine(t, i) == Some(i) && LengthAt(t, i, word) == NatOf(f.digits) % word
  {
    var p := i + |f.name|;
    var d := p + |f.pad|;
    var r := d + |f.digits|;
    AtConcat(t, f.name, f.pad + (f.digits + f.rest), i, p);
    AtConcat(t, f.pad, f.digits + f.rest, p, d);
    AtConcat(t, f.digits, f.rest, d, r);
    assert r + |f.rest| == i + |FieldLine(f)|;
    AtChars(t, f.name, i);
    NameInAnyCase(f.name);
    assert PrefixNoCase(t, i, LENGTH_NAME);
    assert i + |LENGTH_NAME| == p;
    FieldDigits(t, p, f.pad, f.digits, f.rest, d, r);
  }

  /** A length that fits the word is read as it is. */
  lemma {:induction false} ScanReadsValue(t: string, i: nat, f: LengthField, n: nat, word: WordSize)
    requires IsLengthField(f) && At(t, FieldLine(f), i) && At(t, CRLF, i + |FieldLine(f)|)
    requires NatOf(f.digits) == n < word
    ensures AnnouncementLine(t, i) == Some(i) && LengthAt(t, i, word) == n
  {
    ScanReadsField(t, i, f, word);
    SmallModulo(n, word);
  }

  lemma SmallModulo(n: nat, word: WordSize)
    requires n < word
    ensures n % word == n
  {
  }

  const FIVE_BYTES := LengthField(LENGTH_NAME, " ", "5", "")

  lemma {:induction false} FiveBytesIsField()
    ensures IsLengthField(FIVE_BYTES) && NatOf(FIVE_BYTES.digits) == 5
    ensures FieldLine(FIVE_BYTES) == LENGTH_NAME + " 5" && NUL !in FieldLine(FIVE_BYTES)
  {
    var ds := FIVE_BYTES.digits;
    NameAnnounces();
    assert ds[..0] == "" && ds[0] == '5';
    assert NatOf(ds) == NatOf(ds[..0]) * 10 + DigitValue('5');
    assert FieldLine(FIVE_BYTES) == LENGTH_NAME + " 5";
    assert NUL !in LENGTH_NAME;
  }

  lemma {:induction false} FieldDigits(t: string, i: nat, pad: string, ds: string, rest: string, d: nat, r: nat)
    requires d == i + |pad| && r == d + |ds|
    requires At(t, pad, i) && At(t, ds, d) && At(t, rest, r) && At(t, CRLF, r + |rest|)
    requires AllBlank(pad)
    requires (forall c :: c in ds ==> IsDigit(c)) && (rest != "" ==> !IsDigit(rest[0]))
    requires ds == "" && rest != "" ==> !IsBlank(rest[0])
    ensures SkipBlanks(t, i) == d
    ensures forall word: WordSize :: NumberAt(t, d, 0, word) == NatOf(ds) % word
  {
    AtChars(t, ds, d);
    AtChars(t, rest, r);
    CrlfAt(t, r + |rest|);
    assert ds != "" ==> t[d + 0] == ds[0] && IsDigit(ds[0]);
    assert rest != "" ==> t[r + 0] == rest[0];
    SkipsRun(t, i, pad, d);
    forall word: WordSize
      ensures NumberAt(t, d, 0, word) == NatOf(ds) % word
    {
      NumberIsValue(t, d, ds, word);
    }
  }

  // ---------------------------------------------------------------------------
  // Reading a longer buffer
  // ---------------------------------------------------------------------------

  ghost predicate EndsLine(p: string) {
    |p| >= 2 && p[|p| - 2] == '\r' && p[|p| - 1] == '\n'
  }

  lemma {:induction false} NameHasNoReturn(t: string, line: nat)
    requires PrefixNoCase(t, line, LENGTH_NAME)
    ensures forall k :: line <= k < line + |LENGTH_NAME| ==> t[k] != '\r'
  {
    forall k | line <= k < line + |LENGTH_NAME|
      ensures t[k] != '\r'
    {
      assert Lower(t[line + (k - line)]) == Lower(LENGTH_NAME[k - line]);
    }
  }

  /** Bytes appended after complete lines do not change what the scan made of those lines. */
  lemma {:induction false} ScanIsStable(p: string, t: string, line: nat)
    requires p <= t && EndsLine(p)
    requires line <= |p| && (line == 0 || (line >= 2 && p[line - 1] == '\n'))
    ensures match AnnouncementLine(p, line)
            case Some(l) => AnnouncementLine(t, line) == Some(l) && l + |LENGTH_NAME| <= |p| - 2
            case None => AnnouncementLine(t, line) == AnnouncementLine(t, |p|)
    decreases |p| - line
  {
    if line >= |p| {
    } else {
      assert line <= |p| - 2;
      NameIsStable(p, t, line);
      if !PrefixNoCase(p, line, LENGTH_NAME) {
        var next := LineEndIsStable(p, t, line);
        ScanStep(p, line, next);
        ScanStep(t, line, next);
        ScanIsStable(p, t, next);
      }
    }
  }

  lemma {:induction false} NameIsStable(p: string, t: string, line: nat)
    requires p <= t && EndsLine(p) && line <= |p| - 2
    ensures PrefixNoCase(p, line, LENGTH_NAME) <==> PrefixNoCase(t, line, LENGTH_NAME)
    ensures PrefixNoCase(p, line, LENGTH_NAME) ==> line + |LENGTH_NAME| <= |p| - 2
  {
    if PrefixNoCase(t, line, LENGTH_NAME) {
      NameHasNoReturn(t, line);
    }
  }

  /** The next line starts at the same place in both. */
  lemma {:induction false} LineEndIsStable(p: string, t: string, line: nat) returns (next: nat)
    requires p <= t && EndsLine(p) && line <= |p| - 2
    ensures line + 2 <= next <= |p| && p[next - 1] == '\n'
    ensures NextLine(p, line) == NextLine(t, line) == Some(next)
  {
    CrlfAt(p, |p| - 2);
    FindInPrefix(p, t, CRLF, line);
    next := NextLine(p, line).value;
    CrlfAt(p, next - 2);
  }

  lemma {:induction false} BlanksAreStable(p: string, t: string, i: nat)
    requires p <= t && EndsLine(p) && i <= |p| - 2
    ensures SkipBlanks(p, i) == SkipBlanks(t, i) <= |p| - 2
    decreases |p| - i
  {
    if i >= |p| - 2 {
    } else {
      BlanksAreStable(p, t, i + 1);
    }
  }

  lemma {:induction false} NumberIsStable(p: string, t: string, i: nat, acc: nat, word: WordSize)
    requires p <= t && EndsLine(p) && i <= |p| - 2
    ensures NumberAt(p, i, acc, word) == NumberAt(t, i, acc, word)
    decreases |p| - i
  {
    if i >= |p| - 2 || !IsDigit(p[i]) {
    } else {
      NumberIsStable(p, t, i + 1, (acc * 10 + DigitValue(p[i])) % word, word);
    }
  }

  /** A header block that announces a length settles it, whatever is buffered after it. */
  lemma {:induction false} LengthIsStable(p: string, t: string, word: WordSize)
    requires p <= t && EndsLine(p) && AnnouncementLine(p, 0).Some?
    ensures ContentLength(t, word) == ContentLength(p, word)
  {
    ScanIsStable(p, t, 0);
    LengthAtIsStable(p, t, AnnouncementLine(p, 0).value, word);
  }

  lemma {:induction false} LengthAtIsStable(p: string, t: string, line: nat, word: WordSize)
    requires p <= t && EndsLine(p) && line + |LENGTH_NAME| <= |p| - 2
    ensures LengthAt(t, line, word) == LengthAt(p, line, word)
  {
    var i := line + |LENGTH_NAME|;
    BlanksAreStable(p, t, i);
    NumberIsStable(p, t, SkipBlanks(p, i), 0, word);
  }
}
