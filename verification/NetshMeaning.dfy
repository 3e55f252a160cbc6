/** What a scan reports, read off the lines directly, and what the cap does to it. */
module NetshMeaning {
  import opened Bytes
  import opened NetshOctets
  import opened NetshScan

  /** The value of the latest SSID line, if there is one. */
  function LatestSsid(items: seq<Item>): Option<string> {
    if items == [] then None
    else
      var last := items[|items| - 1];
      if last.Ssid? then Some(if last.value.Some? then last.value.value else "")
      else LatestSsid(items[..|items| - 1])
  }

  /** The latest authentication line since the latest SSID line, else the fallback. */
  function LatestAuth(items: seq<Item>): AuthMode {
    if items == [] then Wpa2
    else
      var last := items[|items| - 1];
      if last.Ssid? then Wpa2
      else if last.Auth? && last.value.Some? then AuthModeOf(last.value.value)
      else LatestAuth(items[..|items| - 1])
  }

  /** A line that ends the block of lines about one access point. */
  predicate EndsBlock(item: Item) {
    item.Bssid? || item.Ssid?
  }

  /** The block of lines that follows an access point's line. */
  function Block(items: seq<Item>): (r: seq<Item>) {
    if items == [] || EndsBlock(items[0]) then [] else [items[0]] + Block(items[1..])
  }

  function LatestRssi(block: seq<Item>): int {
    if block == [] then -45
    else
      var last := block[|block| - 1];
      if last.Signal? && last.value.Some? then RssiOf(last.value.value) else LatestRssi(block[..|block| - 1])
  }

  function LatestChannel(block: seq<Item>): uint16 {
    if block == [] then 36
    else
      var last := block[|block| - 1];
      if last.Channel? && last.value.Some? then ChannelOf(last.value.value) else LatestChannel(block[..|block| - 1])
  }

  /** What of a network's name is reported: its first 32 bytes. */
  function Shown(ssid: string): string {
    if |ssid| <= 32 then ssid else ssid[..32]
  }

  lemma {:induction false} TruncatedIsShown(ssid: string)
    ensures Truncated(ssid) == Shown(ssid)
  {
  }

  /** An access point's line counts if it has a value and an SSID line came before it. */
  predicate Counts(items: seq<Item>, j: nat)
    requires j < |items|
  {
    items[j].Bssid? && items[j].value.Some? && LatestSsid(items[..j]).Some?
  }

  /** The access point that line j introduces. */
  function NetworkAt(items: seq<Item>, j: nat): Network
    requires j < |items| && Counts(items, j)
  {
    var mac := ReadOctets(items[j].value.value);
    var block := Block(items[j + 1..]);
    Network(Shown(LatestSsid(items[..j]).value), if mac.Some? then mac.value else ZERO_MAC,
            LatestChannel(block), LatestAuth(items[..j]), LatestRssi(block))
  }

  /** The lines that introduce an access point, in order. */
  function Sources(items: seq<Item>): (r: seq<nat>)
    ensures forall i :: 0 <= i < |r| ==> r[i] < |items| && Counts(items, r[i])
    ensures forall i, k :: 0 <= i < k < |r| ==> r[i] < r[k]
  {
    if items == [] then []
    else
      var n := |items| - 1;
      var rest := Sources(items[..n]);
      assert forall i :: 0 <= i < |rest| ==> items[..n][..rest[i]] == items[..rest[i]];
      if Counts(items, n) then rest + [n] else rest
  }

  // ---------------------------------------------------------------------------
  // One more line
  // ---------------------------------------------------------------------------

  lemma {:induction false} BlockSnoc(items: seq<Item>, item: Item)
    ensures Block(items + [item]) ==
            if |Block(items)| == |items| && !EndsBlock(item) then items + [item] else Block(items)
    ensures |Block(items)| == |items| ==> Block(items) == items
    ensures |Block(items)| <= |items|
    decreases |items|
  {
    if items == [] {
      assert ([item])[1..] == [];
    } else {
      assert (items + [item])[1..] == items[1..] + [item];
      BlockSnoc(items[1..], item);
    }
  }

  lemma {:induction false} BlockHasNoEnd(items: seq<Item>)
    ensures forall e :: e in Block(items) ==> !EndsBlock(e)
    decreases |items|
  {
    if items == [] {
    } else {
      BlockHasNoEnd(items[1..]);
    }
  }

  /** Whether line j's block reaches the end of the lines so far. */
  ghost predicate IsOpen(items: seq<Item>, j: nat) {
    j < |items| && |Block(items[j + 1..])| == |items| - j - 1
  }

  /** What a line of a block says about its access point. */
  function Applied(w: Network, item: Item): Network {
    match item
    case Signal(Some(v)) => w.(rssi := RssiOf(v))
    case Channel(Some(v)) => w.(channel := ChannelOf(v))
    case _ => w
  }

  lemma {:induction false} OneMoreLine(items: seq<Item>, item: Item, j: nat)
    requires j < |items| && Counts(items, j)
    ensures Counts(items + [item], j)
    ensures NetworkAt(items + [item], j) ==
            if IsOpen(items, j) then Applied(NetworkAt(items, j), item) else NetworkAt(items, j)
  {
    var rest := items[j + 1..];
    SplitSnoc(items, item, j);
    BlockSnoc(rest, item);
    ReadingsSnoc(rest, item);
  }

  lemma {:induction false} SplitSnoc<T>(items: seq<T>, item: T, j: nat)
    requires j < |items|
    ensures (items + [item])[..j] == items[..j] && (items + [item])[j + 1..] == items[j + 1..] + [item]
  {
  }

  lemma {:induction false} StaysOpen(items: seq<Item>, item: Item, j: nat)
    requires j < |items| && !EndsBlock(item)
    ensures IsOpen(items + [item], j) <==> IsOpen(items, j)
  {
    SplitSnoc(items, item, j);
    BlockSnoc(items[j + 1..], item);
  }

  lemma {:induction false} ReadingsSnoc(block: seq<Item>, item: Item)
    ensures LatestRssi(block + [item]) ==
            if item.Signal? && item.value.Some? then RssiOf(item.value.value) else LatestRssi(block)
    ensures LatestChannel(block + [item]) ==
            if item.Channel? && item.value.Some? then ChannelOf(item.value.value) else LatestChannel(block)
  {
    assert (block + [item])[..|block|] == block;
  }

  lemma {:induction false} NewestIsOpen(items: seq<Item>, item: Item)
    requires Counts(items + [item], |items|)
    ensures IsOpen(items + [item], |items|)
    ensures NetworkAt(items + [item], |items|) ==
               Network(Shown(LatestSsid(items).value),
                       if ReadOctets(item.value.value).Some? then ReadOctets(item.value.value).value else ZERO_MAC,
                       36, LatestAuth(items), -45)
  {
    var all := items + [item];
    assert all[..|items|] == items && all[|items| + 1..] == [];
  }

  /** Only the last access point can still be open. */
  lemma {:induction false} OlderIsClosed(items: seq<Item>, j: nat, k: nat)
    requires j < k < |items| && EndsBlock(items[k])
    ensures !IsOpen(items, j)
  {
    var rest := items[j + 1..];
    BlockSnoc(rest, Other);
    BlockHasNoEnd(rest);
    assert rest[k - j - 1] == items[k];
  }

  // ---------------------------------------------------------------------------
  // The parser reports what the lines say
  // ---------------------------------------------------------------------------

  /** The access points a scan with this cap can report: the first ones. */
  function Kept(items: seq<Item>, cap: nat): seq<nat> {
    Sources(items)[..Min(cap, |Sources(items)|)]
  }

  /** These networks are what those lines introduce. */
  ghost predicate Lists(networks: seq<Network>, items: seq<Item>, src: seq<nat>) {
    && |networks| == |src|
    && forall i :: 0 <= i < |src| ==>
         src[i] < |items| && Counts(items, src[i]) && networks[i] == NetworkAt(items, src[i])
  }

  ghost predicate ReportsNetworks(st: State, items: seq<Item>, cap: nat) {
    var src := Kept(items, cap);
    Lists(st.networks, items, src)
  }

  ghost predicate ReportsContext(st: State, items: seq<Item>) {
    && st.haveSsid == LatestSsid(items).Some?
    && (st.haveSsid ==> st.ssid == Shown(LatestSsid(items).value))
    && st.auth == LatestAuth(items)
  }

  /** The network that signal and channel lines still go to. */
  ghost function Current(items: seq<Item>, src: seq<nat>): Option<nat> {
    if src != [] && IsOpen(items, src[|src| - 1]) then Some(|src| - 1) else None
  }

  ghost predicate ReportsCurrent(st: State, items: seq<Item>, cap: nat) {
    st.current == Current(items, Kept(items, cap))
  }

  ghost predicate Reports(st: State, items: seq<Item>, cap: nat) {
    ReportsNetworks(st, items, cap) && ReportsContext(st, items) && ReportsCurrent(st, items, cap)
  }

  lemma {:induction false} SourcesSnoc(items: seq<Item>, item: Item)
    ensures Sources(items + [item]) ==
            if Counts(items + [item], |items|) then Sources(items) + [|items|] else Sources(items)
  {
    assert (items + [item])[..|items|] == items;
  }

  lemma {:induction false} LatestSnoc(items: seq<Item>, item: Item)
    ensures (items + [item])[..|items|] == items
    ensures LatestSsid(items + [item]) ==
            if item.Ssid? then Some(if item.value.Some? then item.value.value else "") else LatestSsid(items)
    ensures LatestAuth(items + [item]) ==
            if item.Ssid? then Wpa2
            else if item.Auth? && item.value.Some? then AuthModeOf(item.value.value)
            else LatestAuth(items)
  {
    assert (items + [item])[..|items|] == items;
  }

  /** A line changes at most the network that is being described. */
  lemma {:induction false} ConsumeTouches(st: State, item: Item, cap: nat, i: nat)
    requires Consistent(st, cap) && i < |st.networks|
    ensures i < |Consume(st, item, cap).networks|
    ensures Consume(st, item, cap).networks[i] ==
            if st.current == Some(i) then Applied(st.networks[i], item) else st.networks[i]
  {
  }

  /** That network is the one whose block is still open. */
  lemma {:induction false} CurrentIsOpen(st: State, items: seq<Item>, cap: nat, i: nat)
    requires ReportsNetworks(st, items, cap) && ReportsCurrent(st, items, cap) && i < |st.networks|
    ensures st.current == Some(i) <==> IsOpen(items, Kept(items, cap)[i])
  {
    var src := Kept(items, cap);
    if i < |src| - 1 {
      OlderIsClosed(items, src[i], src[|src| - 1]);
    }
  }

  /** The access points already there after one more line. */
  lemma {:induction false} OldNetworks(st: State, items: seq<Item>, item: Item, cap: nat)
    requires Consistent(st, cap) && Reports(st, items, cap)
    ensures var st' := Consume(st, item, cap);
            var src := Kept(items, cap);
            |src| <= |st'.networks| && Lists(st'.networks[..|src|], items + [item], src)
  {
    var st' := Consume(st, item, cap);
    var src := Kept(items, cap);
    if src != [] {
      ConsumeTouches(st, item, cap, |src| - 1);
    }
    forall i | 0 <= i < |src|
      ensures Counts(items + [item], src[i]) && st'.networks[i] == NetworkAt(items + [item], src[i])
    {
      ConsumeTouches(st, item, cap, i);
      CurrentIsOpen(st, items, cap, i);
      OneMoreLine(items, item, src[i]);
    }
  }

  lemma {:induction false} KeptSnoc(items: seq<Item>, item: Item, cap: nat)
    ensures Kept(items + [item], cap) ==
            if Counts(items + [item], |items|) && |Kept(items, cap)| < cap then Kept(items, cap) + [|items|]
            else Kept(items, cap)
  {
    SourcesSnoc(items, item);
  }

  lemma {:induction false} ContextOneMore(st: State, items: seq<Item>, item: Item, cap: nat)
    requires Consistent(st, cap) && ReportsContext(st, items)
    ensures ReportsContext(Consume(st, item, cap), items + [item])
  {
    LatestSnoc(items, item);
    if item.Ssid? {
      TruncatedIsShown(if item.value.Some? then item.value.value else "");
    }
  }

  lemma {:induction false} CountsSnoc(items: seq<Item>, item: Item)
    ensures Counts(items + [item], |items|) <==> item.Bssid? && item.value.Some? && LatestSsid(items).Some?
  {
    assert (items + [item])[..|items|] == items;
  }

  /** A line that starts an access point, while there is room for it. */
  lemma {:induction false} NewNetwork(st: State, items: seq<Item>, item: Item, cap: nat)
    requires Consistent(st, cap) && ReportsContext(st, items) && |st.networks| < cap
    requires Counts(items + [item], |items|)
    ensures Consume(st, item, cap).networks ==
            st.networks + [NetworkAt(items + [item], |items|)]
  {
    CountsSnoc(items, item);
    NewestIsOpen(items, item);
  }

  /** Any other line leaves the number of networks as it is. */
  lemma {:induction false} NoNewNetwork(st: State, items: seq<Item>, item: Item, cap: nat)
    requires Consistent(st, cap) && ReportsContext(st, items)
    requires !Counts(items + [item], |items|) || |st.networks| == cap
    ensures |Consume(st, item, cap).networks| == |st.networks|
  {
    CountsSnoc(items, item);
  }

  lemma {:induction false} NetworksOneMore(st: State, items: seq<Item>, item: Item, cap: nat)
    requires Consistent(st, cap) && Reports(st, items, cap)
    ensures ReportsNetworks(Consume(st, item, cap), items + [item], cap)
  {
    OldNetworks(st, items, item, cap);
    if Counts(items + [item], |items|) && |st.networks| < cap {
      NewNetwork(st, items, item, cap);
      OneMoreIsListed(st, Consume(st, item, cap), items, item, cap);
    } else {
      NoNewNetwork(st, items, item, cap);
      NoMoreIsListed(Consume(st, item, cap), items, item, cap);
    }
  }

  lemma {:induction false} OneMoreIsListed(st: State, st': State, items: seq<Item>, item: Item, cap: nat)
    requires Counts(items + [item], |items|) && |Kept(items, cap)| == |st.networks| < cap
    requires st'.networks == st.networks + [NetworkAt(items + [item], |items|)]
    requires Lists(st'.networks[..|st.networks|], items + [item], Kept(items, cap))
    ensures ReportsNetworks(st', items + [item], cap)
  {
    KeptSnoc(items, item, cap);
    ListsSnoc(st.networks, st'.networks, items + [item], Kept(items, cap), |items|);
  }

  lemma {:induction false} NoMoreIsListed(st': State, items: seq<Item>, item: Item, cap: nat)
    requires !Counts(items + [item], |items|) || |Kept(items, cap)| == cap
    requires |st'.networks| == |Kept(items, cap)|
    requires Lists(st'.networks[..|Kept(items, cap)|], items + [item], Kept(items, cap))
    ensures ReportsNetworks(st', items + [item], cap)
  {
    KeptSnoc(items, item, cap);
    assert st'.networks[..|st'.networks|] == st'.networks;
  }

  lemma {:induction false} ListsSnoc(before: seq<Network>, now: seq<Network>, items: seq<Item>, src: seq<nat>, j: nat)
    requires j < |items| && Counts(items, j)
    requires |before| == |src| && now == before + [NetworkAt(items, j)] && Lists(now[..|src|], items, src)
    ensures Lists(now, items, src + [j])
  {
  }

  /** A line that starts an access point or a network detaches the one before it. */
  lemma {:induction false} CurrentAfterEnd(st: State, items: seq<Item>, item: Item, cap: nat)
    requires Consistent(st, cap) && Reports(st, items, cap) && EndsBlock(item)
    ensures ReportsCurrent(Consume(st, item, cap), items + [item], cap)
  {
    ConsumeDetaches(st, items, item, cap);
    if Counts(items + [item], |items|) && |st.networks| < cap {
      CurrentIsNewest(items, item, cap);
    } else {
      NoneIsCurrent(items, item, cap);
    }
  }

  lemma {:induction false} CurrentIsNewest(items: seq<Item>, item: Item, cap: nat)
    requires Counts(items + [item], |items|) && |Kept(items, cap)| < cap
    ensures Current(items + [item], Kept(items + [item], cap)) == Some(|Kept(items, cap)|)
  {
    KeptSnoc(items, item, cap);
    NewestIsOpen(items, item);
  }

  lemma {:induction false} NoneIsCurrent(items: seq<Item>, item: Item, cap: nat)
    requires EndsBlock(item)
    requires !Counts(items + [item], |items|) || |Kept(items, cap)| == cap
    ensures Current(items + [item], Kept(items + [item], cap)) == None
  {
    var src := Kept(items, cap);
    KeptSnoc(items, item, cap);
    if src != [] {
      EndCloses(items, item, src[|src| - 1]);
    }
  }

  lemma {:induction false} EndCloses(items: seq<Item>, item: Item, j: nat)
    requires j < |items| && EndsBlock(item)
    ensures !IsOpen(items + [item], j)
  {
    OlderIsClosed(items + [item], j, |items|);
  }

  lemma {:induction false} ConsumeDetaches(st: State, items: seq<Item>, item: Item, cap: nat)
    requires Consistent(st, cap) && ReportsContext(st, items) && EndsBlock(item)
    ensures Consume(st, item, cap).current ==
            if Counts(items + [item], |items|) && |st.networks| < cap then Some(|st.networks|) else None
  {
    CountsSnoc(items, item);
  }

  lemma {:induction false} CurrentWithin(st: State, items: seq<Item>, item: Item, cap: nat)
    requires Consistent(st, cap) && ReportsCurrent(st, items, cap) && !EndsBlock(item)
    ensures ReportsCurrent(Consume(st, item, cap), items + [item], cap)
  {
    var src := Kept(items, cap);
    KeptWithin(items, item, cap);
    ConsumeStays(st, item, cap);
    if src != [] {
      StaysOpen(items, item, src[|src| - 1]);
    }
  }

  lemma {:induction false} KeptWithin(items: seq<Item>, item: Item, cap: nat)
    requires !EndsBlock(item)
    ensures Kept(items + [item], cap) == Kept(items, cap)
  {
    SourcesSnoc(items, item);
    CountsSnoc(items, item);
  }

  lemma {:induction false} ConsumeStays(st: State, item: Item, cap: nat)
    requires Consistent(st, cap) && !EndsBlock(item)
    ensures Consume(st, item, cap).current == st.current
  {
  }

  lemma {:induction false} ReportsOneMore(st: State, items: seq<Item>, item: Item, cap: nat)
    requires Consistent(st, cap) && Reports(st, items, cap)
    ensures Reports(Consume(st, item, cap), items + [item], cap)
  {
    ContextOneMore(st, items, item, cap);
    NetworksOneMore(st, items, item, cap);
    if EndsBlock(item) {
      CurrentAfterEnd(st, items, item, cap);
    } else {
      CurrentWithin(st, items, item, cap);
    }
  }

  /**
   * For every sequence of lines the parser reports exactly the first `cap` access points the lines
   * describe: the SSID and authentication in force at their line, the last signal and channel of
   * their own block.
   */
  lemma {:induction false} ParseMeaning(items: seq<Item>, cap: nat)
    ensures Reports(Parse(items, cap), items, cap)
    decreases |items|
  {
    if items == [] {
    } else {
      var front, last := items[..|items| - 1], items[|items| - 1];
      assert front + [last] == items;
      ParseMeaning(front, cap);
      ReportsOneMore(Parse(front, cap), front, last, cap);
    }
  }

  /** A smaller array receives exactly the first networks of a larger one, in every field. */
  lemma {:induction false} CapIsPrefix(items: seq<Item>, k: nat, n: nat)
    requires k <= n
    ensures var small, large := Parse(items, k).networks, Parse(items, n).networks;
            && |small| == Min(k, |large|)
            && small == large[..|small|]
  {
    ParseMeaning(items, k);
    ParseMeaning(items, n);
    var small, large := Parse(items, k).networks, Parse(items, n).networks;
    forall i | 0 <= i < |small|
      ensures small[i] == large[i]
    {
      assert Kept(items, k)[i] == Sources(items)[i] == Kept(items, n)[i];
    }
  }
}
