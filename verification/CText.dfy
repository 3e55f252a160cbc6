/** C strings and the C library searches over them. A char buffer is a string of byte-valued characters. */
module CText {
  import opened Bytes

  const NUL := '\0'
  const CRLF := "\r\n"
  const BLANK_LINE := "\r\n\r\n"

  /** The C string that starts a buffer: everything before the first NUL. */
  function CStr(s: string): (r: string)
    ensures r <= s && NUL !in r
    ensures |r| < |s| ==> s[|r|] == NUL
  {
    if s == "" || s[0] == NUL then "" else [s[0]] + CStr(s[1..])
  }

  lemma {:induction false} CStrIs(s: string, n: nat)
    requires n <= |s| && NUL !in s[..n]
    requires n == |s| || s[n] == NUL
    ensures CStr(s) == s[..n]
  {
  }

  /** Cutting a buffer short cuts its C string short. */
  lemma {:induction false} CStrOfPrefix(s: string, k: nat)
    requires k <= |s|
    ensures CStr(s[..k]) == CStr(s)[..Min(k, |CStr(s)|)]
  {
    var n := |CStr(s)|;
    if k <= n {
      assert s[..k] == CStr(s)[..k];
      CStrIs(s[..k], k);
    } else {
      assert s[..k][..n] == CStr(s);
      CStrIs(s[..k], n);
    }
  }

  predicate At(s: string, pat: string, i: int) {
    0 <= i && i + |pat| <= |s| && s[i..i + |pat|] == pat
  }

  /** The first occurrence of pat at offset from or later, as strstr finds it. */
  function Find(s: string, pat: string, from: nat): (r: Option<nat>)
    ensures r.Some? ==> from <= r.value && At(s, pat, r.value) && forall j :: from <= j < r.value ==> !At(s, pat, j)
    ensures r.None? ==> forall j :: from <= j ==> !At(s, pat, j)
    decreases |s| - from
  {
    if from + |pat| > |s| then None
    else if s[from..from + |pat|] == pat then Some(from)
    else if from == |s| then None
    else Find(s, pat, from + 1)
  }

  lemma {:induction false} AtInPrefix(p: string, s: string, pat: string, i: int)
    requires p <= s
    ensures At(p, pat, i) <==> At(s, pat, i) && i + |pat| <= |p|
  {
    if 0 <= i && i + |pat| <= |p| {
      assert s[i..i + |pat|] == p[i..i + |pat|];
    }
  }

  /** An occurrence of a concatenation is two adjacent ones. */
  lemma {:induction false} AtConcat(s: string, x: string, y: string, i: int, j: int)
    requires j == i + |x|
    ensures At(s, x + y, i) <==> At(s, x, i) && At(s, y, j)
  {
    if 0 <= i && i + |x + y| <= |s| {
      var z := s[i..i + |x + y|];
      assert z == s[i..i + |x|] + s[i + |x|..i + |x| + |y|];
      assert z[..|x|] == s[i..i + |x|] && z[|x|..] == s[i + |x|..i + |x| + |y|];
      assert (x + y)[..|x|] == x && (x + y)[|x|..] == y;
    }
  }

  /** The characters of an occurrence. */
  lemma {:induction false} AtChars(s: string, pat: string, i: int)
    ensures At(s, pat, i) <==>
            0 <= i && i + |pat| <= |s| && forall k :: 0 <= k < |pat| ==> s[i + k] == pat[k]
  {
    if 0 <= i && i + |pat| <= |s| {
      var z := s[i..i + |pat|];
      assert forall k :: 0 <= k < |pat| ==> z[k] == s[i + k];
    }
  }

  lemma {:induction false} CrlfAt(s: string, i: int)
    ensures At(s, CRLF, i) <==> 0 <= i && i + 2 <= |s| && s[i] == '\r' && s[i + 1] == '\n'
  {
    AtChars(s, CRLF, i);
    assert CRLF[0] == '\r' && CRLF[1] == '\n';
    assert 0 <= i && i + 2 <= |s| ==> s[i + 0] == s[i];
  }

  /** What a search finds in a prefix it finds in the whole, and conversely if it fits the prefix. */
  lemma {:induction false} FindInPrefix(p: string, s: string, pat: string, from: nat)
    requires p <= s
    ensures match Find(s, pat, from)
            case None => Find(p, pat, from).None?
            case Some(i) => Find(p, pat, from) == if i + |pat| <= |p| then Some(i) else None
  {
    var r, q := Find(s, pat, from), Find(p, pat, from);
    if r.Some? {
      AtInPrefix(p, s, pat, r.value);
    }
    if q.Some? {
      AtInPrefix(p, s, pat, q.value);
    }
  }

  /** Where strchr or strpbrk, started at offset from, meets one of stops before a NUL. */
  function Scan(s: string, stops: set<char>, from: nat): (r: Option<nat>)
    ensures r.Some? ==> from <= r.value < |s| && s[r.value] in stops && s[r.value] != NUL
    ensures r.Some? ==> forall j :: from <= j < r.value ==> s[j] != NUL && s[j] !in stops
    decreases |s| - from
  {
    if from >= |s| || s[from] == NUL then None
    else if s[from] in stops then Some(from)
    else Scan(s, stops, from + 1)
  }

  lemma {:induction false} ScanIs(s: string, stops: set<char>, from: nat, i: nat)
    requires from <= i < |s| && s[i] in stops && s[i] != NUL
    requires forall j :: from <= j < i ==> s[j] != NUL && s[j] !in stops
    ensures Scan(s, stops, from) == Some(i)
    decreases i - from
  {
    if from == i {
    } else {
      ScanIs(s, stops, from + 1, i);
    }
  }

  lemma {:induction false} ScanIsNone(s: string, stops: set<char>, from: nat, i: nat)
    requires from <= i <= |s| && (i == |s| || s[i] == NUL)
    requires forall j :: from <= j < i ==> s[j] !in stops
    ensures Scan(s, stops, from) == None
    decreases i - from
  {
    if from == i {
    } else {
      ScanIsNone(s, stops, from + 1, i);
    }
  }

  // ---------------------------------------------------------------------------
  // Letters and digits
  // ---------------------------------------------------------------------------

  function Lower(c: char): char {
    if 'A' <= c <= 'Z' then (c as int + 32) as char else c
  }

  /** strncasecmp(s + i, name, |name|) == 0 */
  predicate PrefixNoCase(s: string, i: nat, name: string) {
    i + |name| <= |s| && forall k :: 0 <= k < |name| ==> Lower(s[i + k]) == Lower(name[k])
  }

  predicate IsDigit(c: char) {
    '0' <= c <= '9'
  }

  predicate IsSpace(c: char) {
    c == ' ' || 9 <= c as int <= 13
  }

  predicate IsBlank(c: char) {
    c == ' ' || c == '\t'
  }

  predicate AllBlank(s: string) {
    forall c :: c in s ==> c == ' ' || c == '\t'
  }

  function SkipBlanks(s: string, i: nat): (r: nat)
    ensures i <= r && (i <= |s| ==> r <= |s|)
    decreases |s| - i
  {
    if i < |s| && IsBlank(s[i]) then SkipBlanks(s, i + 1) else i
  }

  lemma {:induction false} SkipsRun(s: string, i: nat, run: string, end: nat)
    requires At(s, run, i) && AllBlank(run) && end == i + |run|
    ensures SkipBlanks(s, i) == SkipBlanks(s, end)
    decreases |run|
  {
    if run != "" {
      assert s[i] == s[i..end][0] == run[0] && run[0] in run;
      assert s[i + 1..end] == s[i..end][1..] == run[1..];
      var tail := run[1..];
      assert forall c :: c in tail ==> c in run;
      SkipsRun(s, i + 1, tail, end);
    } else {
      assert end == i;
    }
  }

  function DigitValue(c: char): (d: nat)
    requires IsDigit(c)
    ensures d <= 9
  {
    c as int - '0' as int
  }

  /** The value of a string of decimal digits. */
  function NatOf(ds: string): nat
    requires forall c :: c in ds ==> IsDigit(c)
  {
    if ds == "" then 0 else NatOf(ds[..|ds| - 1]) * 10 + DigitValue(ds[|ds| - 1])
  }

  lemma {:induction false} NatOfPrefix(ds: string, j: nat)
    requires (forall c :: c in ds ==> IsDigit(c)) && 0 < j <= |ds|
    ensures NatOf(ds[..j]) == NatOf(ds[..j - 1]) * 10 + DigitValue(ds[j - 1])
  {
    assert ds[..j][..j - 1] == ds[..j - 1];
  }

  /** The digits %u prints. */
  function Decimal(n: nat): (ds: string)
    ensures ds != "" && forall c :: c in ds ==> IsDigit(c)
  {
    var last := ['0', '1', '2', '3', '4', '5', '6', '7', '8', '9'][n % 10];
    if n < 10 then [last] else Decimal(n / 10) + [last]
  }

  lemma {:induction false} DecimalValue(n: nat)
    ensures NatOf(Decimal(n)) == n
  {
    if n < 10 {
    } else {
      DecimalValue(n / 10);
      var ds := Decimal(n);
      assert ds[..|ds| - 1] == Decimal(n / 10);
    }
  }

  function Pow10(k: nat): nat {
    if k == 0 then 1 else 10 * Pow10(k - 1)
  }

  lemma {:induction false} DecimalWidth(n: nat, k: nat)
    requires k >= 1 && n < Pow10(k)
    ensures |Decimal(n)| <= k
    decreases k
  {
    if n < 10 {
    } else {
      assert Pow10(1) == 10;
      assert n / 10 < Pow10(k - 1);
      DecimalWidth(n / 10, k - 1);
    }
  }
}
