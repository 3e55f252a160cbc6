/** The six hexadecimal octets of an access point, as the library's "%x:%x:%x:%x:%x:%x" scan reads them. */
module NetshOctets {
  import opened Bytes
  import opened CText

  predicate IsHexDigit(c: char) {
    IsDigit(c) || 'a' <= c <= 'f' || 'A' <= c <= 'F'
  }

  function HexValue(c: char): (v: nat)
    requires IsHexDigit(c)
    ensures v < 16
  {
    if IsDigit(c) then DigitValue(c) else Lower(c) as int - 'a' as int + 10
  }

  function SkipSpace(s: string, i: nat): (r: nat)
    ensures i <= r && (i <= |s| ==> r <= |s|)
    decreases |s| - i
  {
    if i < |s| && IsSpace(s[i]) then SkipSpace(s, i + 1) else i
  }

  /** Where the hexadecimal digits from offset i end, and their value appended to acc. */
  function HexRun(s: string, i: nat, acc: nat): (r: (nat, nat))
    ensures i <= r.0 && (i <= |s| ==> r.0 <= |s|)
    decreases |s| - i
  {
    if i < |s| && IsHexDigit(s[i]) then HexRun(s, i + 1, acc * 16 + HexValue(s[i])) else (i, acc)
  }

  function ReadUnsigned(s: string, at: nat): (r: Option<(nat, nat)>)
    ensures r.Some? && at <= |s| ==> at < r.value.1 <= |s|
  {
    var digits := if At(s, "0x", at) || At(s, "0X", at) then at + 2 else at;
    var (end, value) := HexRun(s, digits, 0);
    if end == digits then None else Some((value, end))
  }

  /** One %x: white space, a sign, a prefix and at least one digit; an unsigned int and where it ends. */
  function ReadHex(s: string, i: nat): (r: Option<(uint32, nat)>)
    ensures r.Some? && i <= |s| ==> i < r.value.1 <= |s|
  {
    var start := SkipSpace(s, i);
    var minus := start < |s| && s[start] == '-';
    var at := if minus || (start < |s| && s[start] == '+') then start + 1 else start;
    match ReadUnsigned(s, at)
    case None => None
    case Some((value, end)) => Some(((if minus then -(value as int) else value) % TWO_32, end))
  }

  /** n conversions with a colon between any two, each cut to an octet. */
  function ReadRun(s: string, i: nat, n: nat): (r: Option<seq<byte>>)
    ensures r.Some? ==> |r.value| == n
    decreases n
  {
    if n == 0 then Some([])
    else
      match ReadHex(s, i)
      case None => None
      case Some((value, end)) =>
        if n > 1 && !(end < |s| && s[end] == ':') then None
        else
          match ReadRun(s, end + 1, n - 1)
          case None => None
          case Some(rest) => Some([value % 256] + rest)
  }

  /** None unless all six are read. */
  function ReadOctets(text: string): (mac: Option<Mac>) {
    match ReadRun(text, 0, 6)
    case None => None
    case Some(octets) => Some(octets)
  }

  // ---------------------------------------------------------------------------
  // One conversion
  // ---------------------------------------------------------------------------

  /** The character is that digit, in either case. */
  predicate IsDigitOf(c: char, v: nat)
    requires v < 16
  {
    c == "0123456789abcdef"[v] || c == "0123456789ABCDEF"[v]
  }

  lemma {:induction false} DigitReadsBack(c: char, v: nat)
    requires v < 16
    ensures IsDigitOf(c, v) <==> IsHexDigit(c) && HexValue(c) == v
  {
  }

  /** The number that hexadecimal digits continue. */
  function HexOf(acc: nat, vs: seq<nat>): nat
    decreases |vs|
  {
    if vs == [] then acc else HexOf(acc * 16 + vs[0], vs[1..])
  }

  predicate IsNoDigit(c: char) {
    forall v :: 0 <= v < 16 ==> !IsDigitOf(c, v)
  }

  /** The digits stand at offset i, and no further one follows them. */
  predicate DigitsStand(s: string, i: nat, vs: seq<nat>) {
    && i + |vs| <= |s| && (forall k :: 0 <= k < |vs| ==> vs[k] < 16 && IsDigitOf(s[i + k], vs[k]))
    && (i + |vs| < |s| ==> IsNoDigit(s[i + |vs|]))
  }

  lemma {:induction false} RunReads(s: string, i: nat, vs: seq<nat>, acc: nat)
    requires DigitsStand(s, i, vs)
    ensures HexRun(s, i, acc) == (i + |vs|, HexOf(acc, vs))
    decreases |vs|
  {
    if vs == [] {
      if i < |s| && IsHexDigit(s[i]) {
        DigitReadsBack(s[i], HexValue(s[i]));
      }
    } else {
      assert IsDigitOf(s[i + 0], vs[0]);
      DigitReadsBack(s[i], vs[0]);
      forall k | 0 <= k < |vs| - 1
        ensures IsDigitOf(s[i + 1 + k], vs[1..][k])
      {
        assert IsDigitOf(s[i + (k + 1)], vs[k + 1]);
      }
      RunReads(s, i + 1, vs[1..], acc * 16 + vs[0]);
    }
  }

  /**
   * A conversion reads a sign, a prefix and digits, however many there are, as the number they make in
   * 32 bits; without digits it fails.
   */
  lemma {:induction false} ConversionReadsBack(
      s: string, i: nat, sign: string, prefix: string, vs: seq<nat>, p: nat, d: nat)
    requires sign == "" || sign == "-" || sign == "+"
    requires prefix == "" || prefix == "0x" || prefix == "0X"
    requires At(s, sign, i) && p == i + |sign| && At(s, prefix, p) && d == p + |prefix| && DigitsStand(s, d, vs)
    requires prefix == "" ==> !At(s, "0x", p) && !At(s, "0X", p)
    requires sign == "" && i < |s| ==> !IsSpace(s[i]) && s[i] != '-' && s[i] != '+'
    ensures ReadHex(s, i) ==
            if vs == [] then None
            else Some(((if sign == "-" then -(HexOf(0, vs) as int) else HexOf(0, vs)) % 0x1_0000_0000, d + |vs|))
  {
    UnsignedReadsBack(s, prefix, vs, p, d);
    SignStands(s, sign, i);
  }

  lemma {:induction false} UnsignedReadsBack(s: string, prefix: string, vs: seq<nat>, p: nat, d: nat)
    requires At(s, prefix, p) && d == p + |prefix| && (prefix == "" || prefix == "0x" || prefix == "0X")
    requires DigitsStand(s, d, vs) && (prefix == "" ==> !At(s, "0x", p) && !At(s, "0X", p))
    ensures ReadUnsigned(s, p) == if vs == [] then None else Some((HexOf(0, vs), d + |vs|))
  {
    RunReads(s, d, vs, 0);
    PrefixStands(s, prefix, p);
  }

  /** White space before it is skipped. */
  lemma {:induction false} SpaceIsSkipped(s: string, i: nat)
    requires i < |s|
    requires s[i] == ' ' || s[i] == '\t' || s[i] == '\n' || s[i] as int == 11 || s[i] as int == 12 || s[i] == '\r'
    ensures ReadHex(s, i) == ReadHex(s, i + 1)
  {
  }

  lemma {:induction false} SignStands(s: string, sign: string, i: nat)
    requires At(s, sign, i) && (sign == "" || sign == "-" || sign == "+")
    requires sign == "" && i < |s| ==> !IsSpace(s[i]) && s[i] != '-' && s[i] != '+'
    ensures SkipSpace(s, i) == i
    ensures i < |s| && s[i] == '-' <==> sign == "-"
    ensures (if i < |s| && (s[i] == '-' || s[i] == '+') then i + 1 else i) == i + |sign|
  {
    assert sign != "" ==> s[i] == s[i..i + 1][0] == sign[0];
  }

  lemma {:induction false} PrefixStands(s: string, prefix: string, p: nat)
    requires At(s, prefix, p) && (prefix == "" || prefix == "0x" || prefix == "0X")
    requires prefix == "" ==> !At(s, "0x", p) && !At(s, "0X", p)
    ensures (if At(s, "0x", p) || At(s, "0X", p) then p + 2 else p) == p + |prefix|
  {
  }

  // ---------------------------------------------------------------------------
  // Printed octets
  // ---------------------------------------------------------------------------

  /** Two digits. */
  predicate IsPair(s: string, i: nat, b: byte) {
    i + 2 <= |s| && IsDigitOf(s[i], b / 16) && IsDigitOf(s[i + 1], b % 16)
  }

  /** Pairs from offset i to the end, with a colon between any two. */
  predicate IsPairs(s: string, i: nat, octets: seq<byte>)
    decreases |octets|
  {
    octets != [] ==>
      && IsPair(s, i, octets[0])
      && (if |octets| == 1 then i + 2 == |s| else i + 2 < |s| && s[i + 2] == ':' && IsPairs(s, i + 3, octets[1..]))
  }

  /** A pair that no further digit follows reads as its octet. */
  lemma {:induction false} PairReadsBack(s: string, i: nat, b: byte)
    requires IsPair(s, i, b) && (i + 2 < |s| ==> !IsHexDigit(s[i + 2]))
    ensures ReadHex(s, i) == Some((b, i + 2))
  {
    PairStands(s, i, b, [b / 16, b % 16]);
    PairHasNoPrefix(s, i, b);
    ConversionReadsBack(s, i, "", "", [b / 16, b % 16], i, i);
  }

  lemma {:induction false} PairStands(s: string, i: nat, b: byte, vs: seq<nat>)
    requires IsPair(s, i, b) && (i + 2 < |s| ==> !IsHexDigit(s[i + 2])) && vs == [b / 16, b % 16]
    ensures DigitsStand(s, i, vs) && HexOf(0, vs) == b
  {
    if i + 2 < |s| {
      var c := s[i + 2];
      forall v | 0 <= v < 16
        ensures !IsDigitOf(c, v)
      {
        DigitReadsBack(c, v);
      }
    }
    assert vs[1..] == [b % 16] && vs[1..][1..] == [];
    assert HexOf(0, vs) == HexOf(b / 16, [b % 16]) == HexOf(b / 16 * 16 + b % 16, []);
  }

  lemma {:induction false} PairHasNoPrefix(s: string, i: nat, b: byte)
    requires IsPair(s, i, b)
    ensures !At(s, "0x", i) && !At(s, "0X", i) && !IsSpace(s[i]) && s[i] != '-' && s[i] != '+'
  {
    DigitReadsBack(s[i], b / 16);
    DigitReadsBack(s[i + 1], b % 16);
    AtChars(s, "0x", i);
    AtChars(s, "0X", i);
    assert "0x"[1] == 'x' && "0X"[1] == 'X';
  }

  lemma {:induction false} RunStep(s: string, i: nat, b: byte, rest: seq<byte>)
    requires ReadHex(s, i) == Some((b, i + 2))
    requires rest != [] ==> i + 2 < |s| && s[i + 2] == ':'
    requires ReadRun(s, i + 3, |rest|) == Some(rest)
    ensures ReadRun(s, i, |rest| + 1) == Some([b] + rest)
  {
  }

  lemma {:induction false} PairsReadBack(s: string, i: nat, octets: seq<byte>)
    requires IsPairs(s, i, octets)
    ensures ReadRun(s, i, |octets|) == Some(octets)
    decreases |octets|
  {
    if octets == [] {
    } else {
      PairReadsBack(s, i, octets[0]);
      PairsReadBack(s, i + 3, octets[1..]);
      RunStep(s, i, octets[0], octets[1..]);
      assert [octets[0]] + octets[1..] == octets;
    }
  }

  /** A printed address is read back, in either case of the digits. */
  lemma {:induction false} OctetsReadBack(text: string, mac: Mac)
    requires IsPairs(text, 0, mac)
    ensures ReadOctets(text) == Some(mac)
  {
    PairsReadBack(text, 0, mac);
  }

  /** Fewer octets than six are none. */
  lemma {:induction false} FewOctetsAreNone(text: string, octets: seq<byte>)
    requires IsPairs(text, 0, octets) && 0 < |octets| < 6
    ensures ReadOctets(text) == None
  {
    PairsRunOut(text, 0, octets, 6);
  }

  lemma {:induction false} PairsRunOut(s: string, i: nat, octets: seq<byte>, n: nat)
    requires IsPairs(s, i, octets) && 0 < |octets| < n
    ensures ReadRun(s, i, n) == None
    decreases |octets|
  {
    PairReadsBack(s, i, octets[0]);
    if |octets| == 1 {
    } else {
      PairsRunOut(s, i + 3, octets[1..], n - 1);
    }
  }

  /** Nor are octets that anything but a colon separates. */
  lemma {:induction false} OtherSeparatorIsNone(text: string, b: byte)
    requires IsPair(text, 0, b) && 2 < |text| && text[2] != ':' && !IsHexDigit(text[2])
    ensures ReadOctets(text) == None
  {
    PairReadsBack(text, 0, b);
  }
}
