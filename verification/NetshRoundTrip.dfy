/** End to end: networks printed the way netsh prints them come out of the scan as they were. */
module NetshRoundTrip {
  import opened Bytes
  import opened CText
  import opened NetshOctets
  import opened NetshScan
  import opened NetshLines
  import opened NetshMeaning

  // ---------------------------------------------------------------------------
  // Lines
  // ---------------------------------------------------------------------------

  /** A line with its line feed, which the line buffer can hold. */
  predicate IsDelimited(l: string) {
    0 < |l| < 512 && l[|l| - 1] == '\n' && '\n' !in l[..|l| - 1]
  }

  function Joined(ls: seq<string>): string {
    if ls == [] then "" else ls[0] + Joined(ls[1..])
  }

  lemma {:induction false} FirstLineIs(output: string, i: nat, n: nat)
    requires i < n <= |output| && n < LINE_BUFFER_SIZE && output[n - 1] == '\n'
    requires forall j :: i <= j < n - 1 ==> output[j] != '\n'
    ensures FirstLine(output, i) == n
    decreases n - i
  {
    if i + 1 >= n {
    } else {
      FirstLineIs(output, i + 1, n);
    }
  }

  /** fgets hands over the lines that were printed. */
  lemma {:induction false} LinesReadBack(ls: seq<string>)
    requires forall l :: l in ls ==> IsDelimited(l)
    ensures LinesOf(Joined(ls)) == ls
    decreases |ls|
  {
    if ls == [] {
    } else {
      var l, rest := ls[0], Joined(ls[1..]);
      assert l in ls;
      var output := l + rest;
      assert forall j :: 0 <= j < |l| - 1 ==> output[j] == l[..|l| - 1][j];
      FirstLineIs(output, 0, |l|);
      assert output[..|l|] == l && output[|l|..] == rest;
      LinesReadBack(ls[1..]);
    }
  }

  /** The lines that mean something to the parser. */
  function Telling(ls: seq<string>): seq<string> {
    if ls == [] then []
    else
      var front, last := Telling(ls[..|ls| - 1]), ls[|ls| - 1];
      if ItemOf(CStr(last)).Other? then front else front + [last]
  }

  lemma {:induction false} OnlyTellingMatters(ls: seq<string>, cap: nat)
    ensures Parse(Items(ls), cap) == Parse(Items(Telling(ls)), cap)
    decreases |ls|
  {
    if ls == [] {
    } else {
      var front, last := ls[..|ls| - 1], ls[|ls| - 1];
      assert front + [last] == ls;
      ParseSnoc(front, last, cap);
      OnlyTellingMatters(front, cap);
      if !ItemOf(CStr(last)).Other? {
        ParseSnoc(Telling(front), last, cap);
      }
    }
  }

  // ---------------------------------------------------------------------------
  // Printed networks
  // ---------------------------------------------------------------------------

  /** The lines about one access point, its signal in percent and its channel. */
  datatype Point = Point(bssid: Line, mac: Mac, signal: Line, percent: nat, channel: Line, number: nat)

  /** The lines about one network and its access points. */
  datatype Net = Net(ssid: Line, auth: Line, points: seq<Point>)

  /** A label with a space and an index after it. */
  predicate IsNumbered(l: Line, name: string) {
    IsPrinted(l) && l.name == name && IsIndex(l.gap, " ") && NUL !in Text(l)
  }

  predicate IsLabelled(l: Line, pt: string, en: string) {
    IsPrinted(l) && AllBlank(l.gap) && (l.name == pt || l.name == en) && NUL !in Text(l)
  }

  predicate IsPrintedPoint(p: Point) {
    && IsNumbered(p.bssid, "BSSID") && IsPairs(p.bssid.value, 0, p.mac)
    && IsLabelled(p.signal, "Sinal", "Signal") && p.signal.value == Decimal(p.percent) + "%"
    && p.percent < 0x8000_0000 && p.number < 0x8000_0000
    && IsLabelled(p.channel, "Canal", "Channel") && p.channel.value == Decimal(p.number)
  }

  predicate IsPrintedNet(net: Net) {
    && IsNumbered(net.ssid, "SSID") && IsLabelled(net.auth, "Autentica\U{C3}\U{A7}\U{C3}\U{A3}o", "Authentication")
    && forall p :: p in net.points ==> IsPrintedPoint(p)
  }

  function PointLines(ps: seq<Point>): seq<string> {
    if ps == [] then []
    else [Text(ps[0].bssid), Text(ps[0].signal), Text(ps[0].channel)] + PointLines(ps[1..])
  }

  function NetLines(nets: seq<Net>): seq<string> {
    if nets == [] then []
    else [Text(nets[0].ssid), Text(nets[0].auth)] + PointLines(nets[0].points) + NetLines(nets[1..])
  }

  /** The network an access point is to be reported as. */
  function Reported(p: Point, ssid: string, auth: AuthMode): Network {
    Network(ssid, p.mac, p.number % 0x1_0000, auth, (if p.percent <= 100 then p.percent else 100) / 2 - 100)
  }

  function PointsOf(ps: seq<Point>, ssid: string, auth: AuthMode): seq<Network> {
    if ps == [] then [] else [Reported(ps[0], ssid, auth)] + PointsOf(ps[1..], ssid, auth)
  }

  function NetworksOf(nets: seq<Net>): seq<Network> {
    if nets == [] then []
    else PointsOf(nets[0].points, Shown(nets[0].ssid.value), AuthModeOf(nets[0].auth.value))
         + NetworksOf(nets[1..])
  }

  // ---------------------------------------------------------------------------
  // What the lines mean
  // ---------------------------------------------------------------------------

  /** What an access point's lines mean. */
  datatype Reading = Reading(bssid: string, signal: string, channel: string)

  function ReadingOf(p: Point): Reading {
    Reading(p.bssid.value, p.signal.value, p.channel.value)
  }

  function ReadingItems(r: Reading): seq<Item> {
    [Bssid(Some(r.bssid)), Signal(Some(r.signal)), Channel(Some(r.channel))]
  }

  function PointItems(ps: seq<Point>): seq<Item> {
    if ps == [] then [] else ReadingItems(ReadingOf(ps[0])) + PointItems(ps[1..])
  }

  function NetItems(nets: seq<Net>): seq<Item> {
    if nets == [] then []
    else [Ssid(Some(nets[0].ssid.value)), Auth(Some(nets[0].auth.value))] + PointItems(nets[0].points)
         + NetItems(nets[1..])
  }

  lemma {:induction false} ItemsConcat(a: seq<string>, b: seq<string>)
    ensures Items(a + b) == Items(a) + Items(b)
    decreases |b|
  {
    if b == [] {
      assert a + b == a;
    } else {
      var front, last := b[..|b| - 1], b[|b| - 1];
      assert front + [last] == b && a + front + [last] == a + b;
      ItemsConcat(a, front);
      ItemsConcatSnoc(a, front, last);
    }
  }

  lemma {:induction false} ItemsConcatSnoc(a: seq<string>, b: seq<string>, l: string)
    requires Items(a + b) == Items(a) + Items(b)
    ensures Items(a + b + [l]) == Items(a) + Items(b + [l])
  {
    ItemsSnoc(b, l);
    ItemsSnoc(a + b, l);
    Reassociate(Items(a), Items(b), [ItemOf(CStr(l))]);
  }

  lemma {:induction false} OneItem(l: string, item: Item)
    requires ItemOf(CStr(l)) == item
    ensures Items([l]) == [item]
  {
    ItemsSnoc([], l);
    assert [] + [l] == [l];
  }

  lemma {:induction false} WholeLine(l: Line)
    requires NUL !in Text(l)
    ensures CStr(Text(l)) == Text(l)
  {
    assert Text(l)[..|Text(l)|] == Text(l);
    CStrIs(Text(l), |Text(l)|);
  }

  lemma {:induction false} PointIsUnderstood(p: Point)
    requires IsPrintedPoint(p)
    ensures Items([Text(p.bssid), Text(p.signal), Text(p.channel)]) == ReadingItems(ReadingOf(p))
  {
    var a, b, c := Text(p.bssid), Text(p.signal), Text(p.channel);
    WholeLine(p.bssid);
    WholeLine(p.signal);
    WholeLine(p.channel);
    IndexLinesReadBack(p.bssid, " ");
    SignalLineReadsBack(p.signal);
    ChannelLineReadsBack(p.channel);
    ThreeItems(a, b, c, Bssid(Some(p.bssid.value)), Signal(Some(p.signal.value)), Channel(Some(p.channel.value)));
  }

  lemma {:induction false} TwoItems(a: string, b: string, x: Item, y: Item)
    requires ItemOf(CStr(a)) == x && ItemOf(CStr(b)) == y
    ensures Items([a, b]) == [x, y]
  {
    OneItem(a, x);
    ItemsSnoc([a], b);
    assert [a] + [b] == [a, b] && [x] + [y] == [x, y];
  }

  lemma {:induction false} ThreeItems(a: string, b: string, c: string, x: Item, y: Item, z: Item)
    requires ItemOf(CStr(a)) == x && ItemOf(CStr(b)) == y && ItemOf(CStr(c)) == z
    ensures Items([a, b, c]) == [x, y, z]
  {
    TwoItems(a, b, x, y);
    ItemsSnoc([a, b], c);
    assert [a, b] + [c] == [a, b, c] && [x, y] + [z] == [x, y, z];
  }

  lemma {:induction false} NetHeadIsUnderstood(net: Net)
    requires IsPrintedNet(net)
    ensures Items([Text(net.ssid), Text(net.auth)]) == [Ssid(Some(net.ssid.value)), Auth(Some(net.auth.value))]
  {
    WholeLine(net.ssid);
    WholeLine(net.auth);
    IndexLinesReadBack(net.ssid, " ");
    AuthLineReadsBack(net.auth);
    TwoItems(Text(net.ssid), Text(net.auth), Ssid(Some(net.ssid.value)), Auth(Some(net.auth.value)));
  }

  lemma {:induction false} PointsAreUnderstood(ps: seq<Point>)
    requires forall p :: p in ps ==> IsPrintedPoint(p)
    ensures Items(PointLines(ps)) == PointItems(ps)
    decreases |ps|
  {
    if ps == [] {
    } else {
      assert ps[0] in ps;
      PointIsUnderstood(ps[0]);
      PointsAreUnderstood(ps[1..]);
      ItemsConcat([Text(ps[0].bssid), Text(ps[0].signal), Text(ps[0].channel)], PointLines(ps[1..]));
    }
  }

  lemma {:induction false} NetsAreUnderstood(nets: seq<Net>)
    requires forall net :: net in nets ==> IsPrintedNet(net)
    ensures Items(NetLines(nets)) == NetItems(nets)
    decreases |nets|
  {
    if nets == [] {
    } else {
      var net := nets[0];
      assert net in nets;
      NetHeadIsUnderstood(net);
      PointsAreUnderstood(net.points);
      NetsAreUnderstood(nets[1..]);
      ItemsConcat([Text(net.ssid), Text(net.auth)], PointLines(net.points));
      ItemsConcat([Text(net.ssid), Text(net.auth)] + PointLines(net.points), NetLines(nets[1..]));
    }
  }

  // ---------------------------------------------------------------------------
  // What the parser makes of that
  // ---------------------------------------------------------------------------

  /** The parser from a state on. */
  function Feed(st: State, items: seq<Item>, cap: nat): (r: State)
    requires Consistent(st, cap)
    ensures Consistent(r, cap)
    decreases |items|
  {
    if items == [] then st else Feed(Consume(st, items[0], cap), items[1..], cap)
  }

  lemma {:induction false} FeedSnoc(st: State, items: seq<Item>, item: Item, cap: nat)
    requires Consistent(st, cap)
    ensures Feed(st, items + [item], cap) == Consume(Feed(st, items, cap), item, cap)
    decreases |items|
  {
    if items == [] {
      assert [item][1..] == [];
    } else {
      assert (items + [item])[1..] == items[1..] + [item];
      FeedSnoc(Consume(st, items[0], cap), items[1..], item, cap);
    }
  }

  lemma {:induction false} ParseIsFeed(items: seq<Item>, cap: nat)
    ensures Parse(items, cap) == Feed(START, items, cap)
    decreases |items|
  {
    if items == [] {
    } else {
      var front, last := items[..|items| - 1], items[|items| - 1];
      assert front + [last] == items;
      ParseIsFeed(front, cap);
      FeedSnoc(START, front, last, cap);
    }
  }

  lemma {:induction false} FeedConcat(st: State, a: seq<Item>, b: seq<Item>, cap: nat)
    requires Consistent(st, cap)
    ensures Feed(st, a + b, cap) == Feed(Feed(st, a, cap), b, cap)
    decreases |a|
  {
    if a == [] {
      assert a + b == b;
    } else {
      assert (a + b)[1..] == a[1..] + b;
      FeedConcat(Consume(st, a[0], cap), a[1..], b, cap);
    }
  }

  /** The access point read. */
  function Read(r: Reading, ssid: string, auth: AuthMode): Network {
    var mac := ReadOctets(r.bssid);
    Network(ssid, if mac.Some? then mac.value else ZERO_MAC, ChannelOf(r.channel), auth, RssiOf(r.signal))
  }

  lemma {:induction false} LastIsSet<T>(s: seq<T>, x: T, y: T)
    ensures (s + [x])[|s| := y] == s + [y]
  {
  }

  lemma {:induction false} ReadingIsFed(st: State, r: Reading, cap: nat)
    requires Consistent(st, cap) && st.haveSsid && |st.networks| < cap
    ensures Feed(st, ReadingItems(r), cap) ==
            st.(networks := st.networks + [Read(r, st.ssid, st.auth)], current := Some(|st.networks|))
  {
    var ns := st.networks;
    var w := Found(st, r.bssid);
    var a := Consume(st, Bssid(Some(r.bssid)), cap);
    assert a == st.(networks := ns + [w], current := Some(|ns|));
    var b := Consume(a, Signal(Some(r.signal)), cap);
    LastIsSet(ns, w, w.(rssi := RssiOf(r.signal)));
    assert b == a.(networks := ns + [w.(rssi := RssiOf(r.signal))]);
    var c := Consume(b, Channel(Some(r.channel)), cap);
    LastIsSet(ns, w.(rssi := RssiOf(r.signal)), Read(r, st.ssid, st.auth));
    var items := ReadingItems(r);
    assert items[1..] == [Signal(Some(r.signal)), Channel(Some(r.channel))];
    assert items[1..][1..] == [Channel(Some(r.channel))] && items[1..][1..][1..] == [];
    assert Feed(st, items, cap) == Feed(a, items[1..], cap);
    assert Feed(a, items[1..], cap) == Feed(b, items[1..][1..], cap);
    assert Feed(b, items[1..][1..], cap) == Feed(c, [], cap) == c;
  }

  lemma {:induction false} PointIsReported(p: Point, ssid: string, auth: AuthMode)
    requires IsPrintedPoint(p)
    ensures Read(ReadingOf(p), ssid, auth) == Reported(p, ssid, auth)
  {
    OctetsReadBack(p.bssid.value, p.mac);
    MeasuresReadBack(p.percent);
    MeasuresReadBack(p.number);
  }

  lemma {:induction false} PointsAreFed(st: State, ps: seq<Point>, cap: nat)
    requires Consistent(st, cap) && st.haveSsid
    requires |st.networks| + |PointsOf(ps, st.ssid, st.auth)| <= cap
    requires forall p :: p in ps ==> IsPrintedPoint(p)
    ensures Feed(st, PointItems(ps), cap).networks == st.networks + PointsOf(ps, st.ssid, st.auth)
    decreases |ps|
  {
    if ps == [] {
    } else {
      var r := ReadingOf(ps[0]);
      assert ps[0] in ps;
      var w := Reported(ps[0], st.ssid, st.auth);
      ReadingIsFed(st, r, cap);
      PointIsReported(ps[0], st.ssid, st.auth);
      var st' := Feed(st, ReadingItems(r), cap);
      FeedConcat(st, ReadingItems(r), PointItems(ps[1..]), cap);
      PointsAreFed(st', ps[1..], cap);
      Reassociate(st.networks, [w], PointsOf(ps[1..], st.ssid, st.auth));
    }
  }

  lemma {:induction false} Reassociate<T>(a: seq<T>, b: seq<T>, c: seq<T>)
    ensures a + b + c == a + (b + c)
  {
  }

  lemma {:induction false} NetHeadIsFed(st: State, ssid: string, auth: string, cap: nat)
    requires Consistent(st, cap)
    ensures Feed(st, [Ssid(Some(ssid)), Auth(Some(auth))], cap) ==
            State(st.networks, Shown(ssid), AuthModeOf(auth), true, None)
  {
    TruncatedIsShown(ssid);
    var items := [Ssid(Some(ssid)), Auth(Some(auth))];
    assert items[1..] == [Auth(Some(auth))] && items[1..][1..] == [];
    var a := Consume(st, Ssid(Some(ssid)), cap);
    var b := Consume(a, Auth(Some(auth)), cap);
    assert Feed(st, items, cap) == Feed(a, items[1..], cap);
    assert Feed(a, items[1..], cap) == Feed(b, [], cap) == b;
  }

  lemma {:induction false} NetsAreFed(st: State, nets: seq<Net>, cap: nat)
    requires Consistent(st, cap) && |st.networks| + |NetworksOf(nets)| <= cap
    requires forall net :: net in nets ==> IsPrintedNet(net)
    ensures Feed(st, NetItems(nets), cap).networks == st.networks + NetworksOf(nets)
    decreases |nets|
  {
    if nets == [] {
    } else {
      var net := nets[0];
      assert net in nets;
      var head := [Ssid(Some(net.ssid.value)), Auth(Some(net.auth.value))];
      var found := PointsOf(net.points, Shown(net.ssid.value), AuthModeOf(net.auth.value));
      NetHeadIsFed(st, net.ssid.value, net.auth.value, cap);
      var a := Feed(st, head, cap);
      FeedConcat(st, head, PointItems(net.points), cap);
      FeedConcat(st, head + PointItems(net.points), NetItems(nets[1..]), cap);
      PointsAreFed(a, net.points, cap);
      NetsAreFed(Feed(a, PointItems(net.points), cap), nets[1..], cap);
      Reassociate(st.networks, found, NetworksOf(nets[1..]));
    }
  }

  /**
   * Networks and access points printed in either language, among any other lines, are reported by the
   * scan as they were, in order, up to the size of the array.
   */
  lemma {:induction false} ScanRoundTrip(ls: seq<string>, nets: seq<Net>, cap: nat)
    requires (forall l :: l in ls ==> IsDelimited(l)) && Telling(ls) == NetLines(nets)
    requires forall net :: net in nets ==> IsPrintedNet(net)
    ensures var all := NetworksOf(nets);
            Parse(Items(LinesOf(Joined(ls))), cap).networks == all[..Min(cap, |all|)]
  {
    var n := |NetworksOf(nets)|;
    LinesReadBack(ls);
    var big := if cap >= n then cap else n;
    AllIsReported(ls, nets, big);
    CapIsPrefix(Items(ls), cap, big);
  }

  lemma {:induction false} AllIsReported(ls: seq<string>, nets: seq<Net>, cap: nat)
    requires Telling(ls) == NetLines(nets) && |NetworksOf(nets)| <= cap
    requires forall net :: net in nets ==> IsPrintedNet(net)
    ensures Parse(Items(ls), cap).networks == NetworksOf(nets)
  {
    OnlyTellingMatters(ls, cap);
    NetsAreUnderstood(nets);
    ParseIsFeed(NetItems(nets), cap);
    NetsAreFed(START, nets, cap);
    assert [] + NetworksOf(nets) == NetworksOf(nets);
  }
}
