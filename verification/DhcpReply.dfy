/** What a client reads back from a DHCP reply, and what a well-formed request means to the server. */
module DhcpReply {
  import opened Bytes
  import opened DhcpOptions
  import opened DhcpLeases
  import opened DhcpProtocol
  import opened DhcpServer

  const REPLY_SIZE := 274

  /** The fields of the fixed header that a reply echoes, and the address it carries. */
  ghost predicate HeaderEchoes(packet: seq<byte>, reply: seq<byte>) {
    && |packet| >= 243 && |reply| == REPLY_SIZE
    && reply[0] == 2                           // BOOTREPLY
    && reply[1..4] == packet[1..4]             // htype, hlen, hops
    && reply[4..8] == packet[4..8]             // xid
    && reply[10..12] == packet[10..12]         // flags
    && reply[24..28] == packet[24..28]         // giaddr
    && reply[28..44] == packet[28..44]         // chaddr
    && reply[236..240] == packet[236..240]     // cookie
  }

  /** A client that copies the reply into its own buffer, whatever follows it there, finds the option. */
  ghost predicate Decodes(reply: seq<byte>, code: byte, value: seq<byte>) {
    |reply| == REPLY_SIZE &&
    forall tail: seq<byte> :: WINDOW < REPLY_SIZE - OPTIONS + |tail| ==>
      var opt := reply[OPTIONS..] + tail;
      var r := FindFrom(opt, code, 0);
      r.Some? && HoldsAt(opt, r.value, Entry(code, value))
  }

  /** No option with any other code is there. */
  ghost predicate HoldsOnly(reply: seq<byte>, codes: set<byte>) {
    |reply| == REPLY_SIZE &&
    forall tail: seq<byte>, code: byte :: WINDOW < REPLY_SIZE - OPTIONS + |tail| && code !in codes ==>
      FindFrom(reply[OPTIONS..] + tail, code, 0).None?
  }

  /** The option area of every reply, to its last byte. */
  function OptionBytes(kind: byte, ip: Ip4, nm: Ip4): seq<byte> {
    [53, 1, kind, 54, 4] + ip + [1, 4] + nm + [3, 4] + ip + [6, 4] + ip + [51, 4, 0, 1, 0x51, 0x80, 255]
  }

  lemma {:induction false} FindInReply(options: seq<Entry>, area: seq<byte>, tail: seq<byte>, code: byte)
    requires forall e :: e in options ==> Writable(e)
    requires |Encode(options)| == 33
    requires area == Encode(options) + [OPT_END]
    requires WINDOW < |area| + |tail|
    ensures var r := FindFrom(area + tail, code, 0);
            match Lookup(options, code)
            case None => r.None?
            case Some(v) => r.Some? && HoldsAt(area + tail, r.value, Entry(code, v))
  {
    assert (area + tail)[0..34] == area;
    FindInEncoded(area + tail, 0, options, code);
  }

  lemma {:induction false} OptionBytesAreWritten(kind: byte, ip: Ip4, nm: Ip4)
    ensures Encode(ReplyOptions(kind, ip, nm)) + [OPT_END] == OptionBytes(kind, ip, nm)
  {
    ReplyOptionsLayout(kind, ip, nm);
    assert BigEndian32(LEASE_TIME_S) == [0, 1, 0x51, 0x80];
  }

  /** The bytes of every reply, whichever request, lease table and clock produced it. */
  lemma {:induction false} ReplyLayout(packet: seq<byte>, junk: Frame, ip: Ip4, nm: Ip4, slot: nat, kind: byte)
    requires |packet| >= MIN_SIZE && slot < MAX_IP
    ensures var reply := ReplyBytes(Received(packet, junk), ip, nm, slot, kind);
            && HeaderEchoes(packet, reply)
            && reply[16..20] == AddressOf(slot, ip)
            && reply[240..] == Encode(ReplyOptions(kind, ip, nm)) + [OPT_END]
            && reply[240..] == OptionBytes(kind, ip, nm)
  {
    ReplyOptionsLayout(kind, ip, nm);
    OptionBytesAreWritten(kind, ip, nm);
    var frame := Received(packet, junk);
    assert frame[..OPTIONS] == packet[..OPTIONS];
    var reply := ReplyBytes(frame, ip, nm, slot, kind);
    var head := [DHCPOFFER] + packet[1..YIADDR] + AddressOf(slot, ip) + packet[YIADDR + 4..OPTIONS];
    assert frame[1..YIADDR] == packet[1..YIADDR] && frame[YIADDR + 4..OPTIONS] == packet[YIADDR + 4..OPTIONS];
    assert reply[..OPTIONS] == head;
    forall a: nat, b: nat | a <= b <= OPTIONS && ((1 <= a && b <= YIADDR) || YIADDR + 4 <= a)
      ensures reply[a..b] == packet[a..b]
    {
      assert reply[a..b] == reply[..OPTIONS][a..b] == head[a..b];
      var x, y := head[a..b], packet[a..b];
      assert |x| == |y| && forall k :: 0 <= k < |x| ==> x[k] == head[a + k] == packet[a + k] == y[k];
    }
  }

  lemma {:induction false} OptionDecodes(reply: seq<byte>, options: seq<Entry>, i: nat, code: byte, value: seq<byte>)
    requires |reply| == REPLY_SIZE && i < |options| && options[i] == Entry(code, value)
    requires forall e :: e in options ==> Writable(e)
    requires forall j :: 0 <= j < i ==> options[j].code != code
    requires |Encode(options)| == 33
    requires reply[OPTIONS..] == Encode(options) + [OPT_END]
    ensures Decodes(reply, code, value)
  {
    assert IsFirst(options, i, code);
    LookupIsFirst(options, i, code);
    forall tail: seq<byte> | WINDOW < REPLY_SIZE - OPTIONS + |tail|
      ensures var opt := reply[OPTIONS..] + tail;
              var r := FindFrom(opt, code, 0);
              r.Some? && HoldsAt(opt, r.value, Entry(code, value))
    {
      FindInReply(options, reply[OPTIONS..], tail, code);
    }
  }

  lemma {:induction false} OthersAbsent(reply: seq<byte>, kind: byte, ip: Ip4, nm: Ip4)
    requires |reply| == REPLY_SIZE
    requires reply[OPTIONS..] == Encode(ReplyOptions(kind, ip, nm)) + [OPT_END]
    ensures HoldsOnly(reply, {1, 3, 6, 51, 53, 54})
  {
    var options := ReplyOptions(kind, ip, nm);
    ReplyOptionsLayout(kind, ip, nm);
    forall tail: seq<byte>, code: byte |
      WINDOW < REPLY_SIZE - OPTIONS + |tail| && code !in {1, 3, 6, 51, 53, 54}
      ensures FindFrom(reply[OPTIONS..] + tail, code, 0).None?
    {
      FindInReply(options, reply[OPTIONS..], tail, code);
      LookupNone(options, code);
    }
  }

  /** All six options of a reply, and no others. */
  ghost predicate OptionsDecode(reply: seq<byte>, kind: byte, ip: Ip4, nm: Ip4) {
    && Decodes(reply, 53, [kind])                  // message type
    && Decodes(reply, 54, ip)                      // server identifier
    && Decodes(reply, 1, nm)                       // subnet mask
    && Decodes(reply, 3, ip)                       // router
    && Decodes(reply, 6, ip)                       // DNS server
    && Decodes(reply, 51, [0, 1, 0x51, 0x80])      // lease time, 86400 s
    && HoldsOnly(reply, {1, 3, 6, 51, 53, 54})
  }

  lemma {:induction false} ReplyOptionsDecode(reply: seq<byte>, kind: byte, ip: Ip4, nm: Ip4)
    requires |reply| == REPLY_SIZE
    requires reply[OPTIONS..] == Encode(ReplyOptions(kind, ip, nm)) + [OPT_END]
    ensures OptionsDecode(reply, kind, ip, nm)
  {
    var o := ReplyOptions(kind, ip, nm);
    ReplyOptionsLayout(kind, ip, nm);
    assert BigEndian32(86_400) == [0, 1, 0x51, 0x80];
    OptionDecodes(reply, o, 0, OPT_MSG_TYPE, [kind]);
    OptionDecodes(reply, o, 1, OPT_SERVER_ID, ip);
    OptionDecodes(reply, o, 2, OPT_SUBNET_MASK, nm);
    OptionDecodes(reply, o, 3, OPT_ROUTER, ip);
    OptionDecodes(reply, o, 4, OPT_DNS, ip);
    OptionDecodes(reply, o, 5, OPT_IP_LEASE_TIME, [0, 1, 0x51, 0x80]);
    OthersAbsent(reply, kind, ip, nm);
  }

  /** Everything a client reads back: the echoed header, the address and the options. */
  ghost predicate ReadsBack(packet: seq<byte>, reply: seq<byte>, kind: byte, addr: Ip4, ip: Ip4, nm: Ip4) {
    && HeaderEchoes(packet, reply) && reply[16..20] == addr
    && OptionsDecode(reply, kind, ip, nm) && reply[240..] == OptionBytes(kind, ip, nm)
  }

  lemma {:induction false} ReplyReadsBack(packet: seq<byte>, junk: Frame, ip: Ip4, nm: Ip4, slot: nat, kind: byte)
    requires |packet| >= MIN_SIZE && slot < MAX_IP
    ensures ReadsBack(packet, ReplyBytes(Received(packet, junk), ip, nm, slot, kind), kind, AddressOf(slot, ip), ip, nm)
  {
    ReplyLayout(packet, junk, ip, nm, slot, kind);
    ReplyOptionsDecode(ReplyBytes(Received(packet, junk), ip, nm, slot, kind), kind, ip, nm);
  }

  /** Whose reply it is: the message type and the address the event calls for. */
  function Meaning(ev: Event, tab: Table, ip: Ip4): Option<(byte, Ip4)> {
    match ev
    case Discover(mac, clock) =>
      var slot := OfferedSlot(tab, mac, clock);
      if slot < 8 then Some((2, ip[..3] + [16 + slot])) else None
    case Request(mac, addr, _) => Some((5, addr))
  }

  /**
   * The in-place reply decodes to what the server meant: it is 274 bytes long, echoes the request's
   * header fields, carries the offered slot's address (for an ACK, the very address asked for), and
   * its options read back as message type, server, mask, router, DNS server and a lease of 86400 s.
   */
  lemma {:induction false} ReplyDecodes(
      ip: Ip4, nm: Ip4, tab: Table, packet: seq<byte>, junk: Frame, clock: Clock, reply: seq<byte>)
    requires Respond(ip, nm, tab, packet, junk, clock).1 == Some(reply)
    ensures var ev := Classify(Received(packet, junk), clock);
            ev.Some? && var m := Meaning(ev.value, tab, ip);
            m.Some? && ReadsBack(packet, reply, m.value.0, m.value.1, ip, nm)
  {
    var ev := Classify(Received(packet, junk), clock).value;
    var out := Step(tab, ip, ev).1;
    var kind := if ev.Discover? then DHCPOFFER else DHCPACK;
    assert reply == ReplyBytes(Received(packet, junk), ip, nm, out.slot, kind);
    assert Meaning(ev, tab, ip) == Some((kind, AddressOf(out.slot, ip))) by {
      SlotNamesAddress(if ev.Request? then ev.addr else ip, ip, out.slot);
    }
    ReplyReadsBack(packet, junk, ip, nm, out.slot, kind);
  }

  // ---------------------------------------------------------------------------
  // Well-formed requests
  // ---------------------------------------------------------------------------

  /** Options as a client sends them: END-terminated in the received bytes, the two that matter of right length. */
  predicate WellFormed(head: seq<byte>, list: seq<Entry>) {
    && |head| == 240
    && (forall e :: e in list ==> Writable(e))
    && |Encode(list)| < 308
    && (forall e :: e in list && e.code == 53 ==> |e.value| == 1)
    && (forall e :: e in list && e.code == 50 ==> |e.value| == 4)
  }

  lemma {:induction false} LookupIsEntry(list: seq<Entry>, code: byte)
    ensures match Lookup(list, code)
            case None => true
            case Some(v) => Entry(code, v) in list
  {
    if list == [] || list[0].code == code {
    } else {
      LookupIsEntry(list[1..], code);
    }
  }

  /** What the client means by its options. */
  function Intent(head: seq<byte>, list: seq<Entry>, clock: Clock): Option<Event>
    requires WellFormed(head, list)
  {
    LookupIsEntry(list, 53);
    LookupIsEntry(list, 50);
    match Lookup(list, 53)
    case None => None
    case Some(kind) =>
      if kind == [1] then Some(Discover(head[28..34], clock))
      else if kind == [3] then
        match Lookup(list, 50)
        case None => None
        case Some(addr) => Some(Request(head[28..34], addr, clock[0]))
      else None
  }

  lemma {:induction false} ReceivedPrefix(packet: seq<byte>, junk: Frame, n: nat)
    requires n <= Min(|packet|, MSG_SIZE)
    ensures Received(packet, junk)[..n] == packet[..n]
  {
    var m := Min(|packet|, MSG_SIZE);
    assert Received(packet, junk)[..m] == packet[..m];
    assert packet[..m][..n] == packet[..n];
  }

  lemma {:induction false} RequestLayout(head: seq<byte>, list: seq<Entry>, padding: seq<byte>, junk: Frame)
    requires |head| == OPTIONS && |Encode(list)| < WINDOW
    ensures var frame := Received(head + Encode(list) + [255] + padding, junk);
            && ClientMac(frame) == head[CHADDR..CHADDR + 6]
            && frame[OPTIONS..][0..|Encode(list)| + 1] == Encode(list) + [OPT_END]
  {
    var packet := head + Encode(list) + [255] + padding;
    var frame := Received(packet, junk);
    var area := Encode(list) + [OPT_END];
    assert packet == head + area + padding;
    ReceivedPrefix(packet, junk, OPTIONS + |area|);
    ReceivedParts(head, area, padding, frame, OPTIONS + |area|);
    assert ClientMac(frame) == frame[..OPTIONS][CHADDR..CHADDR + 6];
  }

  lemma {:induction false} ReceivedParts(head: seq<byte>, area: seq<byte>, padding: seq<byte>, frame: Frame, n: nat)
    requires |head| == OPTIONS && n == OPTIONS + |area| <= FRAME_SIZE && frame[..n] == (head + area + padding)[..n]
    ensures frame[..OPTIONS] == head && frame[OPTIONS..][0..|area|] == area
  {
    assert (head + area + padding)[..n] == head + area;
    assert frame[..n][..OPTIONS] == frame[..OPTIONS];
    SliceOfDrop(frame, OPTIONS, 0, |area|);
    assert frame[OPTIONS..n] == frame[..n][OPTIONS..];
  }

  /**
   * A well-formed request is understood as its sender meant it, whatever padding follows END and
   * whatever the stack held before.
   */
  lemma {:induction false} RequestUnderstood(
      head: seq<byte>, list: seq<Entry>, padding: seq<byte>, junk: Frame, clock: Clock)
    requires WellFormed(head, list)
    ensures Classify(Received(head + Encode(list) + [255] + padding, junk), clock) == Intent(head, list, clock)
  {
    RequestLayout(head, list, padding, junk);
    var frame := Received(head + Encode(list) + [255] + padding, junk);
    assert Classify(frame, clock) == Intent(head, list, clock) by {
      OptionsUnderstood(frame, head, list, clock);
    }
  }

  lemma {:induction false} OptionsUnderstood(frame: Frame, head: seq<byte>, list: seq<Entry>, clock: Clock)
    requires WellFormed(head, list)
    requires ClientMac(frame) == head[CHADDR..CHADDR + 6]
    requires frame[OPTIONS..][0..|Encode(list)| + 1] == Encode(list) + [OPT_END]
    ensures Classify(frame, clock) == Intent(head, list, clock)
  {
    var opt := frame[OPTIONS..];
    FindInEncoded(opt, 0, list, OPT_MSG_TYPE);
    FindInEncoded(opt, 0, list, OPT_REQUESTED_IP);
    LookupIsEntry(list, OPT_MSG_TYPE);
    LookupIsEntry(list, OPT_REQUESTED_IP);
    var k := FindFrom(opt, OPT_MSG_TYPE, 0);
    if k.Some? {
      var kind := opt[k.value + 2..k.value + 3];
      assert Lookup(list, OPT_MSG_TYPE) == Some(kind) && kind == [opt[k.value + 2]];
    }
  }

  /** The host name kept of such a request is the one its sender gave, cut to 31 bytes. */
  lemma {:induction false} HostNameUnderstood(head: seq<byte>, list: seq<Entry>, padding: seq<byte>, junk: Frame)
    requires WellFormed(head, list)
    ensures HostName(Received(head + Encode(list) + [255] + padding, junk)) ==
            match Lookup(list, 12)
            case None => []
            case Some(name) => if |name| <= 31 then name else name[..31]
  {
    RequestLayout(head, list, padding, junk);
    var frame := Received(head + Encode(list) + [255] + padding, junk);
    FindInEncoded(frame[OPTIONS..], 0, list, OPT_HOST_NAME);
    var o := FindFrom(frame[OPTIONS..], OPT_HOST_NAME, 0);
    if o.Some? {
      HostNameIsValue(frame, frame[OPTIONS..], o.value, Lookup(list, OPT_HOST_NAME).value);
    }
  }

  lemma {:induction false} HostNameIsValue(frame: Frame, opt: seq<byte>, o: nat, name: seq<byte>)
    requires opt == frame[OPTIONS..] && FindFrom(opt, OPT_HOST_NAME, 0) == Some(o)
    requires HoldsAt(opt, o, Entry(OPT_HOST_NAME, name))
    ensures HostName(frame) == name[..Min(|name|, HOST_NAME_MAX)]
  {
    SliceOfSlice(opt, o + 2, o + 2 + |name|, 0, Min(|name|, HOST_NAME_MAX));
  }

  /** Hence neither the reply, the new lease table nor the logged name depends on uninitialised memory. */
  lemma {:induction false} JunkIsIrrelevant(
      head: seq<byte>, list: seq<Entry>, padding: seq<byte>, junk: Frame, junk': Frame,
      ip: Ip4, nm: Ip4, tab: Table, clock: Clock)
    requires WellFormed(head, list)
    ensures var packet := head + Encode(list) + [255] + padding;
            && Respond(ip, nm, tab, packet, junk, clock) == Respond(ip, nm, tab, packet, junk', clock)
            && Logged(ip, tab, packet, junk, clock) == Logged(ip, tab, packet, junk', clock)
  {
    RequestUnderstood(head, list, padding, junk, clock);
    RequestUnderstood(head, list, padding, junk', clock);
    HostNameUnderstood(head, list, padding, junk);
    HostNameUnderstood(head, list, padding, junk');
    var packet := head + Encode(list) + [255] + padding;
    if |packet| >= MIN_SIZE {
      SameReply(packet, junk, junk', ip, nm, Intent(head, list, clock), tab);
    }
  }

  lemma {:induction false} SameReply(
      packet: seq<byte>, junk: Frame, junk': Frame, ip: Ip4, nm: Ip4, ev: Option<Event>, tab: Table)
    requires |packet| >= MIN_SIZE
    ensures ev.Some? ==> var out := Step(tab, ip, ev.value).1;
                         Answer(Received(packet, junk), ip, nm, out) == Answer(Received(packet, junk'), ip, nm, out)
  {
    var f, f' := Received(packet, junk), Received(packet, junk');
    assert f[1..YIADDR] == packet[1..YIADDR] == f'[1..YIADDR];
    assert f[YIADDR + 4..OPTIONS] == packet[YIADDR + 4..OPTIONS] == f'[YIADDR + 4..OPTIONS];
  }
}
