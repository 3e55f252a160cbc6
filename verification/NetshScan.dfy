/** The Simulator's WiFi scan: a line-driven parser that fills a capped array of networks. */
module NetshScan {
  import opened Bytes
  import opened CText
  import opened NetshOctets

  const SSID_MAX := 32
  const LINE_BUFFER_SIZE := 512
  const FALLBACK_RSSI := -45
  const FALLBACK_CHANNEL: uint16 := 36

  // The UTF-8 bytes of the pt-BR label.
  const AUTHENTICATION_PT := "Autentica\U{C3}\U{A7}\U{C3}\U{A3}o"
  const AUTHENTICATION_EN := "Authentication"
  const SIGNAL_PT := "Sinal"
  const SIGNAL_EN := "Signal"
  const CHANNEL_PT := "Canal"
  const CHANNEL_EN := "Channel"

  datatype AuthMode = Unknown | Open | Wep | Wpa | Wpa2 | Wpa3

  datatype Network = Network(ssid: string, bssid: Mac, channel: uint16, auth: AuthMode, rssi: int)

  // ---------------------------------------------------------------------------
  // Lines
  // ---------------------------------------------------------------------------

  predicate IsBlankEnd(c: char) {
    c == '\n' || c == '\r' || c == ' ' || c == '\t'
  }

  function TrimRight(s: string): string {
    if s != "" && IsBlankEnd(s[|s| - 1]) then TrimRight(s[..|s| - 1]) else s
  }

  /** The text after the first colon, without surrounding blanks. */
  function ValueOf(line: string): Option<string> {
    match Scan(line, {':'}, 0)
    case None => None
    case Some(c) => Some(TrimRight(line[SkipBlanks(line, c + 1)..]))
  }

  predicate IsPrefixedIndexLine(line: string, keyword: string) {
    var i := SkipBlanks(line, 0);
    var j := i + |keyword|;
    && At(line, keyword, i) && j < |line| && line[j] == ' '
    && var k := SkipBlanks(line, j); k < |line| && IsDigit(line[k])
  }

  /** The line is one of the labels, blanks and a colon. */
  predicate IsLabelledLine(line: string, pt: string, en: string) {
    var i := SkipBlanks(line, 0);
    var name := if At(line, pt, i) then pt else en;
    At(line, name, i) && var k := SkipBlanks(line, i + |name|); k < |line| && line[k] == ':'
  }

  function AuthModeOf(text: string): AuthMode {
    if Find(text, "WPA3", 0).Some? then Wpa3
    else if Find(text, "WPA2", 0).Some? then Wpa2
    else if Find(text, "WPA", 0).Some? then Wpa
    else if Find(text, "WEP", 0).Some? then Wep
    else Open
  }

  function DigitsFrom(text: string, i: nat, acc: nat): nat
    decreases |text| - i
  {
    if i < |text| && IsDigit(text[i]) then DigitsFrom(text, i + 1, acc * 10 + DigitValue(text[i])) else acc
  }

  /** atoi, for numbers an int can hold. */
  function AtoI(text: string): int {
    if text == "" then 0
    else if IsSpace(text[0]) then AtoI(text[1..])
    else if text[0] == '-' then -(DigitsFrom(text, 1, 0) as int)
    else if text[0] == '+' then DigitsFrom(text, 1, 0)
    else DigitsFrom(text, 0, 0)
  }

  /** Half the percentage, clamped to 0..100, above -100 dBm. */
  function RssiOf(text: string): (r: int)
    ensures -100 <= r <= -50
  {
    var p := AtoI(text);
    (if p < 0 then 0 else if p > 100 then 100 else p) / 2 - 100
  }

  function ChannelOf(text: string): uint16 {
    AtoI(text) % TWO_16
  }

  function Truncated(ssid: string): string {
    ssid[..Min(|ssid|, SSID_MAX)]
  }

  /** What a line means to the parser. */
  datatype Item =
    | Bssid(value: Option<string>)
    | Ssid(value: Option<string>)
    | Auth(value: Option<string>)
    | Signal(value: Option<string>)
    | Channel(value: Option<string>)
    | Other

  function ItemOf(line: string): (item: Item)
    ensures !item.Other? ==> item.value == ValueOf(line)
  {
    if IsPrefixedIndexLine(line, "BSSID") then Bssid(ValueOf(line))
    else if IsPrefixedIndexLine(line, "SSID") then Ssid(ValueOf(line))
    else if IsLabelledLine(line, AUTHENTICATION_PT, AUTHENTICATION_EN) then Auth(ValueOf(line))
    else if IsLabelledLine(line, SIGNAL_PT, SIGNAL_EN) then Signal(ValueOf(line))
    else if IsLabelledLine(line, CHANNEL_PT, CHANNEL_EN) then Channel(ValueOf(line))
    else Other
  }

  predicate SameKind(a: Item, b: Item) {
    && a.Bssid? == b.Bssid? && a.Ssid? == b.Ssid? && a.Auth? == b.Auth?
    && a.Signal? == b.Signal? && a.Channel? == b.Channel?
  }

  // ---------------------------------------------------------------------------
  // The parser state
  // ---------------------------------------------------------------------------

  datatype State = State(
    networks: seq<Network>, ssid: string, auth: AuthMode, haveSsid: bool, current: Option<nat>)

  const START := State([], "", Wpa2, false, None)

  predicate Consistent(st: State, cap: nat) {
    |st.networks| <= cap && (st.current.Some? ==> st.current.value < |st.networks|)
  }

  function Found(st: State, text: string): Network {
    var mac := ReadOctets(text);
    Network(st.ssid, if mac.Some? then mac.value else ZERO_MAC, FALLBACK_CHANNEL, st.auth, FALLBACK_RSSI)
  }

  function Consume(st: State, item: Item, cap: nat): (r: State)
    requires Consistent(st, cap)
    ensures Consistent(r, cap)
  {
    match item
    case Bssid(v) =>
      if !st.haveSsid || |st.networks| >= cap || v.None? then st.(current := None)
      else st.(networks := st.networks + [Found(st, v.value)], current := Some(|st.networks|))
    case Ssid(v) =>
      st.(ssid := Truncated(if v.Some? then v.value else ""), auth := Wpa2, haveSsid := true, current := None)
    case Auth(v) =>
      if v.Some? then st.(auth := AuthModeOf(v.value)) else st
    case Signal(v) =>
      if st.current.Some? && v.Some? then
        var k := st.current.value;
        st.(networks := st.networks[k := st.networks[k].(rssi := RssiOf(v.value))])
      else st
    case Channel(v) =>
      if st.current.Some? && v.Some? then
        var k := st.current.value;
        st.(networks := st.networks[k := st.networks[k].(channel := ChannelOf(v.value))])
      else st
    case Other => st
  }

  function Parse(items: seq<Item>, cap: nat): (r: State)
    ensures Consistent(r, cap)
  {
    if items == [] then START
    else Consume(Parse(items[..|items| - 1], cap), items[|items| - 1], cap)
  }

  /** What each line means; a NUL in it ends it. */
  function Items(lines: seq<string>): seq<Item> {
    if lines == [] then [] else Items(lines[..|lines| - 1]) + [ItemOf(CStr(lines[|lines| - 1]))]
  }

  // ---------------------------------------------------------------------------
  // The parser
  // ---------------------------------------------------------------------------

  /** strchr, blank skipping and in-place trimming; the value is the C string at the returned offset. */
  method ValueAfterColon(line: array<char>) returns (value: Option<nat>)
    requires NUL in line[..]
    modifies line
    ensures match ValueOf(old(CStr(line[..])))
            case None => value.None? && line[..] == old(line[..])
            case Some(v) => value.Some? && value.value <= line.Length && CStr(line[value.value..]) == v
  {
    ghost var text := CStr(line[..]);
    var n := CStringLength(line);
    var colon := Scan(line[..n], {':'}, 0);
    if colon.None? {
      return None;
    }
    var at := SkipBlanks(line[..n], colon.value + 1);
    assert text[at..] == text[at..n];
    TrimInPlace(line, at, n, text);
    return Some(at);
  }

  /** The trailing blanks of the text between two offsets become NULs. */
  method TrimInPlace(line: array<char>, at: nat, n: nat, ghost text: string)
    requires at <= n < line.Length && line[n] == NUL && n <= |text| && NUL !in text
    requires forall k :: 0 <= k < n ==> line[k] == text[k]
    modifies line
    ensures CStr(line[at..]) == TrimRight(text[at..n])
  {
    var end := n;
    while end > at && IsBlankEnd(line[end - 1])
      invariant at <= end <= n && line[end] == NUL
      invariant forall k :: 0 <= k < end ==> line[k] == text[k]
      invariant TrimRight(text[at..n]) == TrimRight(text[at..end])
    {
      TrimStep(text, at, end);
      end := end - 1;
      line[end] := NUL;
    }
    TrimEnds(line[..], text, at, end);
    assert line[..][at..] == line[at..];
  }

  lemma {:induction false} TrimStep(text: string, at: nat, end: nat)
    requires at < end <= |text| && IsBlankEnd(text[end - 1])
    ensures TrimRight(text[at..end]) == TrimRight(text[at..end - 1])
  {
    assert text[at..end][..end - at - 1] == text[at..end - 1];
  }

  lemma {:induction false} TrimEnds(buffer: string, text: string, at: nat, end: nat)
    requires at <= end <= |text| && end < |buffer| && buffer[end] == NUL && NUL !in text
    requires forall k :: 0 <= k < end ==> buffer[k] == text[k]
    requires end > at ==> !IsBlankEnd(text[end - 1])
    ensures CStr(buffer[at..]) == TrimRight(text[at..end])
  {
    assert buffer[at..][..end - at] == text[at..end];
    CStrIs(buffer[at..], end - at);
  }

  method CStringLength(line: array<char>) returns (n: nat)
    requires NUL in line[..]
    ensures n < line.Length && line[n] == NUL && line[..n] == CStr(line[..])
  {
    n := 0;
    ghost var end :| 0 <= end < line.Length && line[..][end] == NUL;
    while line[n] != NUL
      invariant n <= end && NUL !in line[..n]
      decreases end - n
    {
      assert line[..n + 1] == line[..n] + [line[n]];
      n := n + 1;
    }
    CStrIs(line[..], n);
  }

  class ScanState {
    const networks: array<Network>
    var foundNetworks: nat
    var currentSsid: string
    var currentAuthMode: AuthMode
    var haveSsid: bool
    var currentNetwork: Option<nat>

    ghost predicate Valid()
      reads this
    {
      foundNetworks <= networks.Length && (currentNetwork.Some? ==> currentNetwork.value < foundNetworks)
    }

    ghost function Abstract(): (st: State)
      requires Valid()
      reads this, networks
      ensures Consistent(st, networks.Length)
    {
      State(networks[..foundNetworks], currentSsid, currentAuthMode, haveSsid, currentNetwork)
    }

    /** The caller's array, nothing found yet. */
    constructor (networks: array<Network>)
      ensures Valid() && this.networks == networks
      ensures Abstract() == START
    {
      this.networks := networks;
      foundNetworks, currentSsid, currentAuthMode, haveSsid, currentNetwork := 0, "", Wpa2, false, None;
    }

    method BeginNetwork(ssid: Option<string>)
      requires Valid()
      modifies `currentSsid, `currentAuthMode, `haveSsid, `currentNetwork
      ensures Valid() && Abstract() == Consume(old(Abstract()), Ssid(ssid), networks.Length)
    {
      currentSsid := Truncated(if ssid.Some? then ssid.value else "");
      currentAuthMode, haveSsid, currentNetwork := Wpa2, true, None;
    }

    method BeginBssid(text: Option<string>)
      requires Valid()
      modifies `foundNetworks, `currentNetwork, networks
      ensures Valid() && Abstract() == Consume(old(Abstract()), Bssid(text), networks.Length)
    {
      currentNetwork := None;
      if !haveSsid || foundNetworks >= networks.Length || text.None? {
        return;
      }
      ghost var before := networks[..foundNetworks];
      var mac := ReadOctets(text.value);
      networks[foundNetworks] := Network(currentSsid, if mac.Some? then mac.value else ZERO_MAC, FALLBACK_CHANNEL,
                                         currentAuthMode, FALLBACK_RSSI);
      currentNetwork := Some(foundNetworks);
      foundNetworks := foundNetworks + 1;
      assert networks[..foundNetworks] == before + [networks[foundNetworks - 1]];
    }

    method SetAuth(value: Option<string>)
      requires Valid()
      modifies `currentAuthMode
      ensures Valid() && Abstract() == Consume(old(Abstract()), Auth(value), networks.Length)
    {
      if value.Some? {
        currentAuthMode := AuthModeOf(value.value);
      }
    }

    method SetRssi(value: Option<string>)
      requires Valid() && currentNetwork.Some?
      modifies networks
      ensures Valid() && Abstract() == Consume(old(Abstract()), Signal(value), networks.Length)
    {
      if value.Some? {
        var k := currentNetwork.value;
        networks[k] := networks[k].(rssi := RssiOf(value.value));
      }
    }

    method SetChannel(value: Option<string>)
      requires Valid() && currentNetwork.Some?
      modifies networks
      ensures Valid() && Abstract() == Consume(old(Abstract()), Channel(value), networks.Length)
    {
      if value.Some? {
        var k := currentNetwork.value;
        networks[k] := networks[k].(channel := ChannelOf(value.value));
      }
    }

    /** One line of output, whose buffer ValueAfterColon trims in place. */
    method ConsumeLine(line: array<char>)
      requires Valid() && NUL in line[..]
      modifies this, networks, line
      ensures Valid()
      ensures Abstract() == Consume(old(Abstract()), ItemOf(old(CStr(line[..]))), networks.Length)
    {
      var kind := KindOf(line);
      match kind
      case Bssid(_) =>
        var value := ReadValue(line);
        BeginBssid(value);
      case Ssid(_) =>
        var value := ReadValue(line);
        BeginNetwork(value);
      case Auth(_) =>
        var value := ReadValue(line);
        SetAuth(value);
      case Signal(_) =>
        if currentNetwork.Some? {
          var value := ReadValue(line);
          SetRssi(value);
        }
      case Channel(_) =>
        if currentNetwork.Some? {
          var value := ReadValue(line);
          SetChannel(value);
        }
      case Other =>
    }

    /** The chain of line recognisers. */
    method KindOf(line: array<char>) returns (kind: Item)
      requires NUL in line[..]
      ensures SameKind(kind, ItemOf(CStr(line[..])))
    {
      var n := CStringLength(line);
      var text := line[..n];
      if IsPrefixedIndexLine(text, "BSSID") {
        return Bssid(None);
      } else if IsPrefixedIndexLine(text, "SSID") {
        return Ssid(None);
      } else if IsLabelledLine(text, AUTHENTICATION_PT, AUTHENTICATION_EN) {
        return Auth(None);
      } else if IsLabelledLine(text, SIGNAL_PT, SIGNAL_EN) {
        return Signal(None);
      } else if IsLabelledLine(text, CHANNEL_PT, CHANNEL_EN) {
        return Channel(None);
      } else {
        return Other;
      }
    }

    /** The C string ValueAfterColon points at. */
    method ReadValue(line: array<char>) returns (value: Option<string>)
      requires NUL in line[..]
      modifies line
      ensures value == ValueOf(old(CStr(line[..])))
    {
      var at := ValueAfterColon(line);
      value := if at.Some? then Some(CStr(line[at.value..])) else None;
    }
  }

  // ---------------------------------------------------------------------------
  // Reading the output
  // ---------------------------------------------------------------------------

  /** How much one fgets takes: through the next line feed, or all the line buffer can hold. */
  function FirstLine(output: string, i: nat := 0): (n: nat)
    requires i < |output| && i < LINE_BUFFER_SIZE - 1
    ensures i < n <= |output| && n <= 511
    ensures forall j :: i <= j < n - 1 ==> output[j] != '\n'
    ensures output[n - 1] == '\n' || n == |output| || n == 511
    decreases |output| - i
  {
    if output[i] == '\n' || i + 1 == |output| || i + 1 == LINE_BUFFER_SIZE - 1 then i + 1
    else FirstLine(output, i + 1)
  }

  /** The lines fgets delivers. */
  function LinesOf(output: string): seq<string> {
    if output == "" then []
    else [output[..FirstLine(output)]] + LinesOf(output[FirstLine(output)..])
  }

  /** fgets: the bytes of one line and a NUL. */
  method ReadLine(buffer: array<char>, output: string) returns (n: nat)
    requires buffer.Length == LINE_BUFFER_SIZE && output != ""
    modifies buffer
    ensures n == FirstLine(output) && NUL in buffer[..]
    ensures CStr(buffer[..]) == CStr(output[..n])
  {
    n := 0;
    while n < |output| && n < LINE_BUFFER_SIZE - 1
      invariant n <= |output| && n < LINE_BUFFER_SIZE
      invariant buffer[..n] == output[..n]
      invariant n < |output| && n < LINE_BUFFER_SIZE - 1 ==> FirstLine(output) == FirstLine(output, n)
      invariant n == |output| || n == LINE_BUFFER_SIZE - 1 ==> FirstLine(output) == n
    {
      buffer[n] := output[n];
      n := n + 1;
      if buffer[n - 1] == '\n' {
        break;
      }
    }
    buffer[n] := NUL;
    CStrUpToNul(buffer[..], output[..n]);
    assert buffer[..][n] == NUL;
  }

  lemma {:induction false} CStrUpToNul(s: string, line: string)
    requires |line| < |s| && s[..|line|] == line && s[|line|] == NUL
    ensures CStr(s) == CStr(line)
  {
    var n := |CStr(line)|;
    assert s[..n] == line[..n] == CStr(line);
    CStrIs(s, n);
  }

  /** The loop over the whole output; what it found stays found even if the process failed. */
  method ParseNetshOutput(output: string, status: int, networks: array<Network>)
    returns (ok: bool, foundNetworks: nat)
    modifies networks
    ensures ok <==> status == 0
    ensures foundNetworks <= networks.Length
    ensures networks[..foundNetworks] == Parse(Items(LinesOf(output)), networks.Length).networks
  {
    var state := new ScanState(networks);
    var line := new char[LINE_BUFFER_SIZE](_ => NUL);
    var rest := output;
    ghost var lines: seq<string> := [];
    while rest != ""
      invariant state.Valid() && state.networks == networks
      invariant fresh(state) && fresh(line) && line.Length == LINE_BUFFER_SIZE
      invariant LinesOf(output) == lines + LinesOf(rest)
      invariant state.Abstract() == Parse(Items(lines), networks.Length)
      decreases |rest|
    {
      var n := ReadLine(line, rest);
      state.ConsumeLine(line);
      ParseSnoc(lines, rest[..n], networks.Length);
      LinesShift(lines, rest, n);
      lines, rest := lines + [rest[..n]], rest[n..];
    }
    assert lines + [] == lines;
    ok, foundNetworks := status == 0, state.foundNetworks;
  }

  lemma {:induction false} LinesShift(lines: seq<string>, rest: string, n: nat)
    requires rest != "" && n == FirstLine(rest)
    ensures lines + LinesOf(rest) == lines + [rest[..n]] + LinesOf(rest[n..])
  {
  }

  lemma {:induction false} ParseSnoc(lines: seq<string>, line: string, cap: nat)
    ensures Parse(Items(lines + [line]), cap) ==
            Consume(Parse(Items(lines), cap), ItemOf(CStr(line)), cap)
  {
    ItemsSnoc(lines, line);
  }

  lemma {:induction false} ItemsSnoc(lines: seq<string>, line: string)
    ensures Items(lines + [line]) == Items(lines) + [ItemOf(CStr(line))]
    ensures Items(lines + [line])[..|Items(lines)|] == Items(lines)
  {
    assert (lines + [line])[..|lines|] == lines;
  }
}
