/** The lines netsh prints, in either language, and what the parser reads from them. */
module NetshLines {
  import opened Bytes
  import opened CText
  import opened NetshScan

  /** A printed line: indentation, label, the text up to the colon, and a value between blanks. */
  datatype Line = Line(lead: string, name: string, gap: string, pad: string, value: string, tail: string)

  function Front(l: Line): string {
    l.lead + l.name + l.gap
  }

  function Text(l: Line): string {
    Front(l) + ":" + l.pad + l.value + l.tail
  }

  predicate AllBlankEnds(s: string) {
    forall c :: c in s ==> c == '\n' || c == '\r' || c == ' ' || c == '\t'
  }

  /** The value neither starts nor ends with what the parser trims, and no colon stands in front. */
  predicate IsPrinted(l: Line) {
    && AllBlank(l.lead) && l.name != "" && l.name[0] !in {' ', '\t'} && AllBlank(l.pad) && AllBlankEnds(l.tail)
    && ':' !in Front(l) && NUL !in Front(l)
    && (l.value != "" ==> l.value[0] !in {' ', '\t'} && l.value[|l.value| - 1] !in {'\n', '\r', ' ', '\t'})
  }

  // ---------------------------------------------------------------------------
  // The value
  // ---------------------------------------------------------------------------

  lemma {:induction false} TrimsTail(value: string, tail: string)
    requires AllBlankEnds(tail) && (value != "" ==> !IsBlankEnd(value[|value| - 1]))
    ensures TrimRight(value + tail) == value
    decreases |tail|
  {
    if tail == "" {
      assert value + tail == value;
    } else {
      var n := |tail| - 1;
      assert (value + tail)[..|value + tail| - 1] == value + tail[..n];
      assert (value + tail)[|value + tail| - 1] == tail[n] && tail[n] in tail;
      assert forall c :: c in tail[..n] ==> c in tail;
      TrimsTail(value, tail[..n]);
    }
  }

  lemma {:induction false} SkipStaysInBlanks(s: string, i: nat)
    requires i <= |s|
    ensures AllBlankEnds(s[i..]) ==> AllBlankEnds(s[SkipBlanks(s, i)..])
    decreases |s| - i
  {
    if i >= |s| || !IsBlank(s[i]) {
    } else {
      SkipStaysInBlanks(s, i + 1);
      var all, rest := s[i..], s[i + 1..];
      assert forall c :: c in rest ==> c in all;
    }
  }

  lemma {:induction false} ColonIsFound(front: string, rest: string)
    requires ':' !in front && NUL !in front
    ensures Scan(front + (":" + rest), {':'}, 0) == Some(|front|)
  {
    var s := front + (":" + rest);
    assert forall j :: 0 <= j < |front| ==> s[j] == front[j] && front[j] in front;
    assert s[|front|] == ':';
    ScanIs(s, {':'}, 0, |front|);
  }

  /** Trimming blanks off both sides of a padded value leaves the value. */
  lemma {:induction false} TrimsBothSides(s: string, i: nat, pad: string, value: string, tail: string, p: nat)
    requires p == i + |pad| <= |s| && At(s, pad, i) && s[p..] == value + tail
    requires AllBlank(pad) && AllBlankEnds(tail)
    requires value != "" ==> !IsBlank(value[0]) && !IsBlankEnd(value[|value| - 1])
    ensures i <= |s| && TrimRight(s[SkipBlanks(s, i)..]) == value
  {
    SkipsRun(s, i, pad, p);
    if value != "" {
      assert s[p] == s[p..][0] == value[0];
      TrimsTail(value, tail);
    } else {
      var q := SkipBlanks(s, p);
      assert s[p..] == tail;
      SkipStaysInBlanks(s, p);
      TrimsTail("", s[q..]);
      assert "" + s[q..] == s[q..];
    }
  }

  /** The value, with the blanks around it trimmed, whatever stands before the colon. */
  lemma {:induction false} ValueReadsBack(l: Line)
    requires IsPrinted(l)
    ensures ValueOf(Text(l)) == Some(l.value)
  {
    var c := |Front(l)|;
    TextPieces(l, c + 1, c + 1 + |l.pad|);
    ColonIsFound(Front(l), l.pad + l.value + l.tail);
    TrimsBothSides(Text(l), c + 1, l.pad, l.value, l.tail, c + 1 + |l.pad|);
  }

  /** A line without a colon has no value. */
  lemma {:induction false} NoColonNoValue(line: string)
    requires NUL !in line
    ensures ValueOf(line).None? <==> ':' !in line
  {
    if ':' !in line {
      ScanIsNone(line, {':'}, 0, |line|);
    } else {
      SomeColonIsFound(line, 0);
    }
  }

  lemma {:induction false} SomeColonIsFound(line: string, i: nat)
    requires NUL !in line && i <= |line| && exists k :: i <= k < |line| && line[k] == ':'
    ensures Scan(line, {':'}, i).Some?
    decreases |line| - i
  {
    if line[i] == ':' {
    } else {
      SomeColonIsFound(line, i + 1);
    }
  }

  lemma {:induction false} TextPieces(l: Line, i: nat, p: nat)
    requires i == |Front(l)| + 1 && p == i + |l.pad|
    ensures Text(l) == Front(l) + (":" + (l.pad + l.value + l.tail))
    ensures p <= |Text(l)| && At(Text(l), l.pad, i) && Text(l)[p..] == l.value + l.tail
  {
    var head := Front(l) + ":" + l.pad;
    assert Text(l) == head + (l.value + l.tail);
    assert Text(l)[i..p] == head[i..p] == l.pad;
  }

  // ---------------------------------------------------------------------------
  // The label
  // ---------------------------------------------------------------------------

  lemma {:induction false} LabelPieces(l: Line, i: nat, j: nat)
    requires i == |l.lead| && j == i + |l.name|
    ensures At(Text(l), l.lead, 0) && At(Text(l), l.name, i) && At(Text(l), l.gap + ":", j)
  {
    var s, end := Text(l), l.pad + l.value + l.tail;
    var rest := l.gap + ":" + end;
    assert s == l.lead + (l.name + rest);
    assert s[..|s|] == s;
    AtConcat(s, l.lead, l.name + rest, 0, i);
    AtConcat(s, l.name, rest, i, j);
    AtConcat(s, l.gap + ":", end, j, j + |l.gap| + 1);
  }

  /** The line's text starts, after its indentation, with its label. */
  lemma {:induction false} LabelStands(l: Line)
    requires IsPrinted(l)
    ensures SkipBlanks(Text(l), 0) == |l.lead| && At(Text(l), l.name, |l.lead|)
    ensures At(Text(l), l.gap + ":", |l.lead| + |l.name|)
  {
    var i := |l.lead|;
    LabelPieces(l, i, i + |l.name|);
    SkipsRun(Text(l), 0, l.lead, i);
    AtChars(Text(l), l.name, i);
    assert Text(l)[i + 0] == l.name[0];
  }

  /** A different label cannot stand where this one does. */
  lemma {:induction false} OtherLabel(s: string, i: nat, name: string, other: string, k: nat)
    requires At(s, name, i) && k < |name| && k < |other| && name[k] != other[k]
    ensures !At(s, other, i)
  {
    AtChars(s, name, i);
    AtChars(s, other, i);
    assert s[i + k] == name[k];
  }

  /** A label, blanks and a colon are recognised, in the language they are in. */
  lemma {:induction false} LabelIsRecognised(l: Line, pt: string, en: string, k: nat)
    requires IsPrinted(l) && AllBlank(l.gap) && (l.name == pt || l.name == en)
    requires k < |pt| && k < |en| && pt[k] != en[k]
    ensures IsLabelledLine(Text(l), pt, en)
  {
    LabelStands(l);
    ColonStands(l, |l.lead| + |l.name|);
    if l.name == en {
      OtherLabel(Text(l), |l.lead|, en, pt, k);
    }
  }

  lemma {:induction false} ColonStands(l: Line, j: nat)
    requires IsPrinted(l) && AllBlank(l.gap) && j == |l.lead| + |l.name|
    ensures j <= |Text(l)| && SkipBlanks(Text(l), j) < |Text(l)| && Text(l)[SkipBlanks(Text(l), j)] == ':'
  {
    var s, k := Text(l), j + |l.gap|;
    LabelStands(l);
    AtConcat(s, l.gap, ":", j, k);
    SkipsRun(s, j, l.gap, k);
    assert s[k] == s[k..k + 1][0] == ':';
  }

  lemma {:induction false} NotLabelled(l: Line, pt: string, en: string, k: nat)
    requires IsPrinted(l) && k < |l.name| && k < |pt| && k < |en|
    requires l.name[k] != pt[k] && l.name[k] != en[k]
    ensures !IsLabelledLine(Text(l), pt, en)
  {
    LabelStands(l);
    OtherLabel(Text(l), |l.lead|, l.name, pt, k);
    OtherLabel(Text(l), |l.lead|, l.name, en, k);
  }

  lemma {:induction false} NotIndexed(l: Line, keyword: string, k: nat)
    requires IsPrinted(l) && k < |l.name| && k < |keyword| && l.name[k] != keyword[k]
    ensures !IsPrefixedIndexLine(Text(l), keyword)
  {
    LabelStands(l);
    OtherLabel(Text(l), |l.lead|, l.name, keyword, k);
  }

  /** Between the keyword and the colon stand blanks and an index. */
  predicate IsIndex(gap: string, blanks: string) {
    && |blanks| < |gap| && blanks != "" && blanks[0] == ' ' && AllBlank(blanks)
    && gap[..|blanks|] == blanks && '0' <= gap[|blanks|] <= '9'
  }

  lemma {:induction false} IndexIsRecognised(l: Line, blanks: string)
    requires IsPrinted(l) && IsIndex(l.gap, blanks)
    ensures IsPrefixedIndexLine(Text(l), l.name)
  {
    var j := |l.lead| + |l.name|;
    LabelStands(l);
    IndexStands(Text(l), l.gap, blanks, j, j + |blanks|);
  }

  lemma {:induction false} IndexStands(s: string, gap: string, blanks: string, j: nat, k: nat)
    requires At(s, gap + ":", j) && IsIndex(gap, blanks) && k == j + |blanks|
    ensures k < |s| && s[j] == ' ' && SkipBlanks(s, j) == k && IsDigit(s[k])
  {
    var rest := gap[|blanks|..];
    assert gap == blanks + rest;
    AtConcat(s, gap, ":", j, j + |gap|);
    AtConcat(s, blanks, rest, j, k);
    AtChars(s, blanks, j);
    AtChars(s, rest, k);
    assert s[j + 0] == blanks[0] && s[k + 0] == rest[0];
    SkipsRun(s, j, blanks, k);
  }

  // ---------------------------------------------------------------------------
  // The five kinds of lines
  // ---------------------------------------------------------------------------

  /** The lines about a network and an access point are told apart, and their values read, in both languages. */
  lemma {:induction false} IndexLinesReadBack(l: Line, blanks: string)
    requires IsPrinted(l) && IsIndex(l.gap, blanks)
    ensures l.name == "BSSID" ==> ItemOf(Text(l)) == Bssid(Some(l.value))
    ensures l.name == "SSID" ==> ItemOf(Text(l)) == Ssid(Some(l.value))
  {
    ValueReadsBack(l);
    IndexIsRecognised(l, blanks);
    if l.name == "SSID" {
      NotIndexed(l, "BSSID", 0);
    }
  }

  lemma {:induction false} AuthLineReadsBack(l: Line)
    requires IsPrinted(l) && AllBlank(l.gap)
    requires l.name == "Autentica\U{C3}\U{A7}\U{C3}\U{A3}o" || l.name == "Authentication"
    ensures ItemOf(Text(l)) == Auth(Some(l.value))
  {
    ValueReadsBack(l);
    NotIndexed(l, "BSSID", 0);
    NotIndexed(l, "SSID", 0);
    LabelIsRecognised(l, AUTHENTICATION_PT, AUTHENTICATION_EN, 3);
  }

  lemma {:induction false} SignalLineReadsBack(l: Line)
    requires IsPrinted(l) && AllBlank(l.gap) && (l.name == "Sinal" || l.name == "Signal")
    ensures ItemOf(Text(l)) == Signal(Some(l.value))
  {
    ValueReadsBack(l);
    NotIndexed(l, "BSSID", 0);
    NotIndexed(l, "SSID", 1);
    NotLabelled(l, AUTHENTICATION_PT, AUTHENTICATION_EN, 0);
    LabelIsRecognised(l, SIGNAL_PT, SIGNAL_EN, 2);
  }

  lemma {:induction false} ChannelLineReadsBack(l: Line)
    requires IsPrinted(l) && AllBlank(l.gap) && (l.name == "Canal" || l.name == "Channel")
    ensures ItemOf(Text(l)) == Channel(Some(l.value))
  {
    ValueReadsBack(l);
    NotIndexed(l, "BSSID", 0);
    NotIndexed(l, "SSID", 0);
    NotLabelled(l, AUTHENTICATION_PT, AUTHENTICATION_EN, 0);
    NotLabelled(l, SIGNAL_PT, SIGNAL_EN, 0);
    LabelIsRecognised(l, CHANNEL_PT, CHANNEL_EN, 1);
  }

  // ---------------------------------------------------------------------------
  // The values
  // ---------------------------------------------------------------------------

  ghost predicate Mentions(text: string, word: string) {
    exists i: nat :: At(text, word, i)
  }

  lemma {:induction false} FindIffMentions(text: string, word: string)
    ensures Find(text, word, 0).Some? <==> Mentions(text, word)
  {
  }

  lemma {:induction false} VersionMentionsWpa(text: string, version: string)
    requires Mentions(text, "WPA" + version)
    ensures Mentions(text, "WPA")
  {
    var i: nat :| At(text, "WPA" + version, i);
    AtConcat(text, "WPA", version, i, i + 3);
  }

  /** The newest protocol mentioned decides; an open network is one that mentions neither WPA nor WEP. */
  lemma {:induction false} AuthIsNewest(text: string)
    ensures AuthModeOf(text).Wpa3? <==> Mentions(text, "WPA3")
    ensures AuthModeOf(text).Wpa2? <==> Mentions(text, "WPA2") && !Mentions(text, "WPA3")
    ensures AuthModeOf(text).Open? <==> !Mentions(text, "WPA") && !Mentions(text, "WEP")
    ensures AuthModeOf(text).Wep? <==> Mentions(text, "WEP") && !Mentions(text, "WPA")
    ensures AuthModeOf(text) != AuthMode.Unknown
  {
    FindIffMentions(text, "WPA3");
    FindIffMentions(text, "WPA2");
    FindIffMentions(text, "WPA");
    FindIffMentions(text, "WEP");
    assert "WPA" + "3" == "WPA3" && "WPA" + "2" == "WPA2";
    if Mentions(text, "WPA3") {
      VersionMentionsWpa(text, "3");
    }
    if Mentions(text, "WPA2") {
      VersionMentionsWpa(text, "2");
    }
  }

  lemma {:induction false} DigitsFold(text: string, i: nat, ds: string, j: nat, k: nat)
    requires At(text, ds, i) && (forall c :: c in ds ==> IsDigit(c)) && j <= |ds| && k == i + j
    ensures DigitsFrom(text, i, 0) == DigitsFrom(text, k, NatOf(ds[..j]))
    decreases j
  {
    if j == 0 {
    } else {
      DigitsFold(text, i, ds, j - 1, k - 1);
      NatOfPrefix(ds, j);
      AtChars(text, ds, i);
      assert text[i + (j - 1)] == ds[j - 1];
    }
  }

  /** White space as the conversion to int skips it. */
  predicate AllSpace(s: string) {
    forall c :: c in s ==> c == ' ' || c == '\t' || c == '\n' || c as int == 11 || c as int == 12 || c == '\r'
  }

  /** White space, a sign, digits, and a rest that continues none of them. */
  predicate IsNumber(ws: string, sign: string, ds: string, rest: string) {
    && AllSpace(ws) && (sign == "" || sign == "-" || sign == "+") && (forall c :: c in ds ==> '0' <= c <= '9')
    && (rest != "" ==> !('0' <= rest[0] <= '9'))
    && (rest != "" && ds == "" && sign == "" ==> !AllSpace([rest[0]]) && rest[0] != '-' && rest[0] != '+')
  }

  lemma {:induction false} DigitsRead(text: string, i: nat, ds: string, rest: string)
    requires i <= |text| && text[i..] == ds + rest && (forall c :: c in ds ==> '0' <= c <= '9')
    requires rest != "" ==> !('0' <= rest[0] <= '9')
    ensures DigitsFrom(text, i, 0) == NatOf(ds)
  {
    var k := i + |ds|;
    assert text[i..k] == text[i..][..|ds|] == ds && ds[..|ds|] == ds;
    assert k < |text| ==> text[k] == text[i..][|ds|] == rest[0];
    DigitsFold(text, i, ds, |ds|, k);
  }

  /** The conversion to int reads the number, with its sign, whatever follows it. */
  lemma {:induction false} NumberReadsBack(ws: string, sign: string, ds: string, rest: string)
    requires IsNumber(ws, sign, ds, rest)
    ensures AtoI(ws + (sign + (ds + rest))) == if sign == "-" then -(NatOf(ds) as int) else NatOf(ds)
    decreases |ws|
  {
    var text := ws + (sign + (ds + rest));
    if ws == "" {
      assert text == sign + (ds + rest);
      assert text[|sign|..] == ds + rest;
      UnsignedOrSigned(text, sign, ds, rest);
    } else {
      assert text[0] == ws[0] && ws[0] in ws;
      var tail := ws[1..];
      assert text[1..] == tail + (sign + (ds + rest)) && forall c :: c in tail ==> c in ws;
      NumberReadsBack(tail, sign, ds, rest);
    }
  }

  lemma {:induction false} UnsignedOrSigned(text: string, sign: string, ds: string, rest: string)
    requires IsNumber("", sign, ds, rest) && text == sign + (ds + rest) && text[|sign|..] == ds + rest
    ensures AtoI(text) == if sign == "-" then -(NatOf(ds) as int) else NatOf(ds)
  {
    DigitsRead(text, |sign|, ds, rest);
    if sign == "" && ds != "" {
      assert text[0] == ds[0] && ds[0] in ds;
    } else if sign == "" && rest != "" {
      assert text[0] == rest[0] && rest[0] in [rest[0]];
    }
  }

  /**
   * A signal of n percent, as printed, is half of at most 100 above -100 dBm, a negative one the least of
   * all; a channel is itself modulo 2^16.
   */
  lemma {:induction false} MeasuresReadBack(n: nat)
    requires n < 0x8000_0000
    ensures RssiOf(Decimal(n) + "%") == (if n <= 100 then n else 100) / 2 - 100
    ensures RssiOf("-" + Decimal(n) + "%") == -100
    ensures ChannelOf(Decimal(n)) == n % 0x1_0000
  {
    DecimalValue(n);
    NumberReadsBack("", "", Decimal(n), "%");
    NumberReadsBack("", "-", Decimal(n), "%");
    NumberReadsBack("", "", Decimal(n), "");
    assert "" + ("" + (Decimal(n) + "%")) == Decimal(n) + "%";
    assert "" + ("-" + (Decimal(n) + "%")) == "-" + Decimal(n) + "%";
    assert "" + ("" + (Decimal(n) + "")) == Decimal(n);
  }
}
