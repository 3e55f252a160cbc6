/** Which lines mean something to the parser, both ways: everything else changes nothing. */
module NetshKinds {
  import opened Bytes
  import opened CText
  import opened NetshScan

  /** Blanks, the label, blanks and a colon. */
  ghost predicate Labelled(line: string, name: string) {
    exists i: nat, j: nat :: LabelStandsAt(line, name, i, j)
  }

  predicate LabelStandsAt(line: string, name: string, i: nat, j: nat) {
    && i + |name| <= j < |line|
    && AllBlank(line[..i]) && line[i..i + |name|] == name && AllBlank(line[i + |name|..j]) && line[j] == ':'
  }

  /** Blanks, the keyword, a space, blanks and a digit. */
  ghost predicate Numbered(line: string, name: string) {
    exists i: nat, j: nat :: NumberStandsAt(line, name, i, j)
  }

  predicate NumberStandsAt(line: string, name: string, i: nat, j: nat) {
    && i + |name| < j < |line|
    && AllBlank(line[..i]) && line[i..i + |name|] == name
    && line[i + |name|] == ' ' && AllBlank(line[i + |name|..j]) && '0' <= line[j] <= '9'
  }

  // ---------------------------------------------------------------------------
  // Blanks
  // ---------------------------------------------------------------------------

  lemma {:induction false} SkipIs(s: string, i: nat, j: nat)
    requires i <= j <= |s| && AllBlank(s[i..j]) && (j == |s| || (s[j] != ' ' && s[j] != '\t'))
    ensures SkipBlanks(s, i) == j
  {
    SkipsRun(s, i, s[i..j], j);
  }

  lemma {:induction false} SkipEnds(s: string, i: nat)
    requires i <= |s|
    ensures var j := SkipBlanks(s, i); AllBlank(s[i..j]) && (j == |s| || (s[j] != ' ' && s[j] != '\t'))
    decreases |s| - i
  {
    if i == |s| || !IsBlank(s[i]) {
    } else {
      SkipEnds(s, i + 1);
      assert s[i..SkipBlanks(s, i)] == [s[i]] + s[i + 1..SkipBlanks(s, i)];
    }
  }

  // ---------------------------------------------------------------------------
  // The recognisers
  // ---------------------------------------------------------------------------

  /** A text that starts with no blank. */
  predicate IsName(name: string) {
    name != "" && name[0] != ' ' && name[0] != '\t'
  }

  lemma {:induction false} NameStarts(line: string, name: string, i: nat)
    requires IsName(name) && i + |name| <= |line| && AllBlank(line[..i]) && line[i..i + |name|] == name
    ensures SkipBlanks(line, 0) == i
  {
    assert line[0..i] == line[..i] && line[i] == line[i..i + |name|][0];
    SkipIs(line, 0, i);
  }

  lemma {:induction false} LabelIff(line: string, name: string)
    requires IsName(name)
    ensures var i := SkipBlanks(line, 0);
            var j := SkipBlanks(line, i + |name|);
            At(line, name, i) && j < |line| && line[j] == ':' <==> Labelled(line, name)
  {
    var i := SkipBlanks(line, 0);
    if At(line, name, i) {
      var j := SkipBlanks(line, i + |name|);
      SkipEnds(line, 0);
      SkipEnds(line, i + |name|);
      assert line[0..i] == line[..i];
      assert j < |line| && line[j] == ':' ==> LabelStandsAt(line, name, i, j);
    }
    if Labelled(line, name) {
      var a: nat, b: nat :| LabelStandsAt(line, name, a, b);
      NameStarts(line, name, a);
      SkipIs(line, a + |name|, b);
    }
  }

  lemma {:induction false} NumberIff(line: string, name: string)
    requires IsName(name)
    ensures IsPrefixedIndexLine(line, name) <==> Numbered(line, name)
  {
    if IsPrefixedIndexLine(line, name) {
      var i := SkipBlanks(line, 0);
      var j := SkipBlanks(line, i + |name|);
      SkipEnds(line, 0);
      SkipEnds(line, i + |name|);
      assert line[0..i] == line[..i];
      assert NumberStandsAt(line, name, i, j);
    }
    if Numbered(line, name) {
      var a: nat, b: nat :| NumberStandsAt(line, name, a, b);
      NameStarts(line, name, a);
      SkipIs(line, a + |name|, b);
    }
  }

  /** Neither name is the start of the other. */
  predicate Differ(a: string, b: string) {
    exists k :: 0 <= k < |a| && k < |b| && a[k] != b[k]
  }

  lemma {:induction false} NotBoth(line: string, a: string, b: string, i: nat)
    requires Differ(a, b) && At(line, a, i)
    ensures !At(line, b, i)
  {
    AtChars(line, a, i);
    AtChars(line, b, i);
    var k :| 0 <= k < |a| && k < |b| && a[k] != b[k];
    assert line[i + k] == a[k];
  }

  /** A label in either language. */
  lemma {:induction false} LabelledIff(line: string, pt: string, en: string)
    requires IsName(pt) && IsName(en) && Differ(pt, en)
    ensures IsLabelledLine(line, pt, en) <==> Labelled(line, pt) || Labelled(line, en)
  {
    var i := SkipBlanks(line, 0);
    LabelIff(line, pt);
    LabelIff(line, en);
    if At(line, pt, i) {
      NotBoth(line, pt, en, i);
    }
  }

  /** Two different names do not start one line. */
  lemma {:induction false} OneStart(line: string, a: string, b: string)
    requires IsName(a) && IsName(b) && Differ(a, b)
    ensures !((Labelled(line, a) || Numbered(line, a)) && (Labelled(line, b) || Numbered(line, b)))
  {
    var i := SkipBlanks(line, 0);
    LabelIff(line, a);
    LabelIff(line, b);
    NumberIff(line, a);
    NumberIff(line, b);
    if At(line, a, i) {
      NotBoth(line, a, b, i);
    }
  }

  // ---------------------------------------------------------------------------
  // The five kinds
  // ---------------------------------------------------------------------------

  const PT_AUTH := "Autentica\U{C3}\U{A7}\U{C3}\U{A3}o"

  lemma {:induction false} NamesDiffer()
    ensures IsName("BSSID") && IsName("SSID") && IsName(PT_AUTH) && IsName("Authentication")
    ensures IsName("Sinal") && IsName("Signal") && IsName("Canal") && IsName("Channel")
    ensures Differ("BSSID", "SSID") && Differ(PT_AUTH, "Authentication")
    ensures Differ("Sinal", "Signal") && Differ("Canal", "Channel")
  {
    assert "BSSID"[0] != "SSID"[0] && PT_AUTH[3] != "Authentication"[3];
    assert "Sinal"[2] != "Signal"[2] && "Canal"[1] != "Channel"[1];
  }

  /** The labels of one kind. */
  ghost predicate Says(line: string, pt: string, en: string) {
    Labelled(line, pt) || Labelled(line, en)
  }

  /** A line with a numbered keyword carries no label. */
  lemma {:induction false} NumberIsNoLabel(line: string, name: string, pt: string, en: string)
    requires IsName(name) && IsName(pt) && IsName(en) && Differ(name, pt) && Differ(name, en)
    ensures Numbered(line, name) ==> !Says(line, pt, en)
  {
    OneStart(line, name, pt);
    OneStart(line, name, en);
  }

  lemma {:induction false} LabelIsNoLabel(line: string, pt: string, en: string, pt': string, en': string)
    requires IsName(pt) && IsName(en) && IsName(pt') && IsName(en')
    requires Differ(pt, pt') && Differ(pt, en') && Differ(en, pt') && Differ(en, en')
    ensures Says(line, pt, en) ==> !Says(line, pt', en')
  {
    OneStart(line, pt, pt');
    OneStart(line, pt, en');
    OneStart(line, en, pt');
    OneStart(line, en, en');
  }

  /** What each kind of line looks like, whatever else stands on it; any other line means nothing. */
  lemma {:induction false} KindIff(line: string)
    ensures ItemOf(line).Bssid? <==> Numbered(line, "BSSID")
    ensures ItemOf(line).Ssid? <==> Numbered(line, "SSID")
    ensures ItemOf(line).Auth? <==> Says(line, PT_AUTH, "Authentication")
    ensures ItemOf(line).Signal? <==> Says(line, "Sinal", "Signal")
    ensures ItemOf(line).Channel? <==> Says(line, "Canal", "Channel")
  {
    NamesDiffer();
    NumberIff(line, "BSSID");
    NumberIff(line, "SSID");
    LabelledIff(line, PT_AUTH, "Authentication");
    LabelledIff(line, "Sinal", "Signal");
    LabelledIff(line, "Canal", "Channel");
    OneStart(line, "BSSID", "SSID");
    KindsExclude(line);
  }

  lemma {:induction false} KindsExclude(line: string)
    ensures Numbered(line, "BSSID") || Numbered(line, "SSID") ==>
              && !Says(line, PT_AUTH, "Authentication")
              && !Says(line, "Sinal", "Signal") && !Says(line, "Canal", "Channel")
    ensures Says(line, PT_AUTH, "Authentication") ==>
              !Says(line, "Sinal", "Signal") && !Says(line, "Canal", "Channel")
    ensures Says(line, "Sinal", "Signal") ==> !Says(line, "Canal", "Channel")
  {
    NamesDiffer();
    assert "BSSID"[0] == 'B' && "SSID"[0] == 'S' && "SSID"[1] == 'S' && PT_AUTH[0] == 'A' && "Authentication"[0] == 'A';
    assert "Sinal"[0] == 'S' && "Sinal"[1] == 'i' && "Signal"[0] == 'S' && "Signal"[1] == 'i';
    assert "Canal"[0] == 'C' && "Channel"[0] == 'C';
    NumberIsNoLabel(line, "BSSID", PT_AUTH, "Authentication");
    NumberIsNoLabel(line, "BSSID", "Sinal", "Signal");
    NumberIsNoLabel(line, "BSSID", "Canal", "Channel");
    NumberIsNoLabel(line, "SSID", PT_AUTH, "Authentication");
    NumberIsNoLabel(line, "SSID", "Sinal", "Signal");
    NumberIsNoLabel(line, "SSID", "Canal", "Channel");
    LabelIsNoLabel(line, PT_AUTH, "Authentication", "Sinal", "Signal");
    LabelIsNoLabel(line, PT_AUTH, "Authentication", "Canal", "Channel");
    LabelIsNoLabel(line, "Sinal", "Signal", "Canal", "Channel");
  }

  predicate IsKnown(name: string) {
    || name == PT_AUTH || name == "Authentication" || name == "Sinal" || name == "Signal"
    || name == "Canal" || name == "Channel" || name == "BSSID" || name == "SSID"
  }

  /** No two of the eight names start alike for more than three characters. */
  lemma {:induction false} KnownDiffer(a: string, b: string)
    requires IsKnown(a) && IsKnown(b) && a != b
    ensures IsName(a) && IsName(b) && Differ(a, b)
  {
    NamesDiffer();
    assert |a| >= 4 && |b| >= 4;
    assert a[0] != b[0] || a[1] != b[1] || a[2] != b[2] || a[3] != b[3];
  }

  lemma {:induction false} OtherNameIsAbsent(line: string, name: string, other: string, i: nat)
    requires IsKnown(name) && IsKnown(other) && name != other
    requires SkipBlanks(line, 0) == i && At(line, name, i)
    ensures !Labelled(line, other) && !Numbered(line, other)
  {
    KnownDiffer(name, other);
    NotBoth(line, name, other, i);
    LabelIff(line, other);
    NumberIff(line, other);
  }

  lemma {:induction false} KnownIsName(name: string)
    requires IsKnown(name)
    ensures IsName(name)
  {
    NamesDiffer();
  }

  lemma {:induction false} NameIsFollowed(line: string, name: string, i: nat, k: nat)
    requires IsName(name) && i + |name| <= k < |line|
    requires AllBlank(line[..i]) && line[i..i + |name|] == name && AllBlank(line[i + |name|..k])
    requires line[k] !in {' ', '\t', ':'} && !('0' <= line[k] <= '9')
    ensures SkipBlanks(line, 0) == i && At(line, name, i) && !Labelled(line, name) && !Numbered(line, name)
  {
    NameStarts(line, name, i);
    SkipIs(line, i + |name|, k);
    LabelIff(line, name);
    NumberIff(line, name);
  }

  /** A name that further text follows makes no line that means anything. */
  lemma {:induction false} FurtherTextIsIgnored(line: string, name: string, i: nat, k: nat, st: State, cap: nat)
    requires IsKnown(name) && i + |name| <= k < |line|
    requires AllBlank(line[..i]) && line[i..i + |name|] == name && AllBlank(line[i + |name|..k])
    requires line[k] !in {' ', '\t', ':'} && !('0' <= line[k] <= '9')
    requires Consistent(st, cap)
    ensures ItemOf(line).Other? && Consume(st, ItemOf(line), cap) == st
  {
    KnownIsName(name);
    NameIsFollowed(line, name, i, k);
    forall other | IsKnown(other)
      ensures !Labelled(line, other) && !Numbered(line, other)
    {
      if other != name {
        OtherNameIsAbsent(line, name, other, i);
      }
    }
    KindIff(line);
  }
}
