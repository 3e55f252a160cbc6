/** What the bytes on the wire say about leases, over whole runs of arbitrary packets. */
module DhcpTraffic {
  import opened Bytes
  import opened DhcpOptions
  import opened DhcpLeases
  import opened DhcpProtocol
  import opened DhcpServer
  import opened DhcpReply
  import opened DhcpRuns

  /** Clock readings never go back, within a delivery or from one to the next. */
  ghost predicate ClockRuns(ds: seq<Delivery>) {
    && (forall i, y, z :: 0 <= i < |ds| && 0 <= y <= z < MAX_IP ==> ds[i].clock[y] <= ds[i].clock[z])
    && (forall i, j :: 0 <= i < j < |ds| ==> ds[i].clock[MAX_IP - 1] <= ds[j].clock[0])
  }

  /** The reply to packet i, after the packets before it. */
  function ReplyTo(ip: Ip4, nm: Ip4, ds: seq<Delivery>, i: nat): Option<seq<byte>>
    requires i < |ds|
  {
    Respond(ip, nm, TableAfter(ip, nm, ds[..i]), ds[i].packet, ds[i].junk, ds[i].clock).1
  }

  /** A client reads from the reply that it acknowledges the address to that hardware address. */
  ghost predicate Acknowledges(reply: seq<byte>, mac: Mac, addr: Ip4) {
    && Decodes(reply, 53, [5])
    && reply[28..34] == mac && reply[16..20] == addr
  }

  // ---------------------------------------------------------------------------
  // From packets to the events of a run
  // ---------------------------------------------------------------------------

  /** One more packet, one more event at most. */
  lemma {:induction false} EventsSnoc(ds: seq<Delivery>)
    requires ds != []
    ensures var rest, ev := Events(ds[..|ds| - 1]), EventOf(ds[|ds| - 1]);
            Events(ds) == if ev.Some? then rest + [ev.value] else rest
  {
  }

  /** Where packet i's event stands among the events of the whole traffic. */
  lemma {:induction false} EventStands(ds: seq<Delivery>, i: nat)
    requires i < |ds| && EventOf(ds[i]).Some?
    ensures var k := |Events(ds[..i])|;
            k < |Events(ds)| && Events(ds)[..k] == Events(ds[..i]) && Events(ds)[k] == EventOf(ds[i]).value
    decreases |ds|
  {
    var n := |ds| - 1;
    EventsSnoc(ds);
    if i >= n {
    } else {
      EventStands(ds[..n], i);
      PrefixOfPrefix(ds, i, n);
    }
  }

  lemma {:induction false} PrefixOfPrefix<T>(s: seq<T>, i: nat, n: nat)
    requires i <= n <= |s|
    ensures s[..n][..i] == s[..i]
  {
  }

  lemma {:induction false} EventsInOrder(ds: seq<Delivery>, i: nat, j: nat)
    requires i < j <= |ds| && EventOf(ds[i]).Some?
    ensures |Events(ds[..i])| < |Events(ds[..j])|
  {
    EventStands(ds[..j], i);
    assert ds[..j][..i] == ds[..i];
  }

  lemma {:induction false} EventsEndBefore(ds: seq<Delivery>, t: nat)
    requires ClockRuns(ds) && forall i :: 0 <= i < |ds| ==> ds[i].clock[MAX_IP - 1] <= t
    ensures forall k :: 0 <= k < |Events(ds)| ==> End(Events(ds)[k]) <= t
    decreases |ds|
  {
    if ds == [] {
    } else {
      var n := |ds| - 1;
      EventsEndBefore(ds[..n], t);
      assert ds[n].clock[0] <= ds[n].clock[MAX_IP - 1];
    }
  }

  lemma {:induction false} EventsAreTimely(ds: seq<Delivery>)
    requires ClockRuns(ds)
    ensures Timely(Events(ds))
    decreases |ds|
  {
    if ds == [] {
    } else {
      var n := |ds| - 1;
      EventsSnoc(ds);
      EventsAreTimely(ds[..n]);
      EventsEndBefore(ds[..n], ds[n].clock[0]);
      if EventOf(ds[n]).Some? {
        TimelySnoc(Events(ds[..n]), EventOf(ds[n]).value);
      }
    }
  }

  lemma {:induction false} TimelySnoc(evs: seq<Event>, ev: Event)
    requires Timely(evs) && forall k :: 0 <= k < |evs| ==> End(evs[k]) <= Start(ev)
    requires ev.Discover? ==> forall y, z :: 0 <= y <= z < MAX_IP ==> ev.clock[y] <= ev.clock[z]
    ensures Timely(evs + [ev])
  {
  }

  lemma {:induction false} RunGrows(ip: Ip4, evs: seq<Event>, k: nat)
    requires k < |evs|
    ensures RunOf(ip, evs).tables[k] == RunOf(ip, evs[..|evs| - 1]).tables[k]
  {
  }

  lemma {:induction false} RunIsPrefix(ip: Ip4, evs: seq<Event>, k: nat)
    requires k <= |evs|
    ensures RunOf(ip, evs).tables[k] == RunOf(ip, evs[..k]).tables[k]
    decreases |evs|
  {
    if k < |evs| {
      var shorter := evs[..|evs| - 1];
      RunGrows(ip, evs, k);
      RunIsPrefix(ip, shorter, k);
      assert shorter[..k] == evs[..k];
    } else {
      assert evs[..k] == evs;
    }
  }

  /** A packet's reply is what its event came to in the run of all events. */
  lemma {:induction false} ReplyIsOutcome(ip: Ip4, nm: Ip4, ds: seq<Delivery>, i: nat)
    requires i < |ds| && EventOf(ds[i]).Some?
    ensures var r, k := RunOf(ip, Events(ds)), |Events(ds[..i])|;
            && k < |r.events| && r.events[k] == EventOf(ds[i]).value && StepAt(ip, r, k)
            && ReplyTo(ip, nm, ds, i) == Answer(Received(ds[i].packet, ds[i].junk), ip, nm, r.outcomes[k])
  {
    var evs, k := Events(ds), |Events(ds[..i])|;
    var r := RunOf(ip, evs);
    EventStands(ds, i);
    RunOfIsRun(ip, evs);
    assert StepAt(ip, r, k);
    PacketsRefineEvents(ip, nm, ds[..i]);
    RunIsPrefix(ip, evs, k);
    PacketIsEvent(ip, nm, TableAfter(ip, nm, ds[..i]), ds[i]);
  }

  // ---------------------------------------------------------------------------
  // From replies to grants
  // ---------------------------------------------------------------------------

  /** A reply decodes to one message type only. */
  lemma {:induction false} OneMessageType(reply: seq<byte>, a: byte, b: byte)
    requires Decodes(reply, OPT_MSG_TYPE, [a]) && Decodes(reply, OPT_MSG_TYPE, [b])
    ensures a == b
  {
    var tail: seq<byte> := seq(WINDOW, _ => 0);
    var opt := reply[OPTIONS..] + tail;
    var at := FindFrom(opt, OPT_MSG_TYPE, 0).value;
    assert opt[at + 2..at + 3] == [a] && opt[at + 2..at + 3] == [b];
    assert [a][0] == [b][0];
  }

  /** An acknowledgement on the wire is a grant in the run, of the slot the address names. */
  lemma {:induction false} AckIsGrant(ip: Ip4, nm: Ip4, ds: seq<Delivery>, i: nat, mac: Mac, addr: Ip4)
    returns (slot: nat)
    requires i < |ds| && ReplyTo(ip, nm, ds, i).Some?
    requires Acknowledges(ReplyTo(ip, nm, ds, i).value, mac, addr)
    ensures EventOf(ds[i]).Some? && slot < MAX_IP && addr == AddressOf(slot, ip) == ip[..3] + [16 + slot]
    ensures var r, k := RunOf(ip, Events(ds)), |Events(ds[..i])|;
            GrantedAt(r, k, mac, slot) && r.events[k].now == ds[i].clock[0]
  {
    var r, k := RunOf(ip, Events(ds)), |Events(ds[..i])|;
    PacketIsEvent(ip, nm, TableAfter(ip, nm, ds[..i]), ds[i]);
    ReplyIsOutcome(ip, nm, ds, i);
    AckIsAcked(ip, nm, ds[i], r.outcomes[k], ReplyTo(ip, nm, ds, i).value, mac, addr);
    slot := r.outcomes[k].slot;
    SlotNamesAddress(addr, ip, slot);
    OnlyRequestsAreAcked(r.tables[k], ip, r.events[k]);
  }

  lemma {:induction false} OnlyRequestsAreAcked(tab: Table, ip: Ip4, ev: Event)
    requires Step(tab, ip, ev).1.Acked?
    ensures ev.Request?
  {
  }

  lemma {:induction false} AckIsAcked(
      ip: Ip4, nm: Ip4, d: Delivery, out: Outcome, reply: seq<byte>, mac: Mac, addr: Ip4)
    requires EventOf(d).Some? && (!out.Silent? ==> out.slot < MAX_IP)
    requires Answer(Received(d.packet, d.junk), ip, nm, out) == Some(reply) && Acknowledges(reply, mac, addr)
    ensures out.Acked? && addr == AddressOf(out.slot, ip) && EventOf(d).value.mac == mac
  {
    var kind := if out.Offered? then DHCPOFFER else DHCPACK;
    ReplyCarries(d, ip, nm, out.slot, kind, reply);
    OneMessageType(reply, kind, DHCPACK);
  }

  /** Conversely every grant in the run is an acknowledgement on the wire. */
  lemma {:induction false} GrantIsAck(ip: Ip4, nm: Ip4, ds: seq<Delivery>, i: nat, slot: nat)
    requires i < |ds| && EventOf(ds[i]).Some? && slot < MAX_IP
    requires var r, k := RunOf(ip, Events(ds)), |Events(ds[..i])|;
             k < |r.outcomes| && r.outcomes[k] == Acked(slot)
    ensures ReplyTo(ip, nm, ds, i).Some?
    ensures Acknowledges(ReplyTo(ip, nm, ds, i).value, EventOf(ds[i]).value.mac, AddressOf(slot, ip))
  {
    ReplyIsOutcome(ip, nm, ds, i);
    AckedIsAck(ip, nm, ds[i], slot, ReplyTo(ip, nm, ds, i).value);
  }

  lemma {:induction false} AckedIsAck(ip: Ip4, nm: Ip4, d: Delivery, slot: nat, reply: seq<byte>)
    requires EventOf(d).Some? && slot < MAX_IP
    requires reply == ReplyBytes(Received(d.packet, d.junk), ip, nm, slot, DHCPACK)
    ensures Acknowledges(reply, EventOf(d).value.mac, AddressOf(slot, ip))
  {
    ReplyCarries(d, ip, nm, slot, DHCPACK, reply);
  }

  /** What a client finds in any reply. */
  lemma {:induction false} ReplyCarries(d: Delivery, ip: Ip4, nm: Ip4, slot: nat, kind: byte, reply: seq<byte>)
    requires EventOf(d).Some? && slot < MAX_IP
    requires reply == ReplyBytes(Received(d.packet, d.junk), ip, nm, slot, kind)
    ensures Decodes(reply, OPT_MSG_TYPE, [kind])
    ensures reply[CHADDR..CHADDR + 6] == EventOf(d).value.mac && reply[YIADDR..YIADDR + 4] == AddressOf(slot, ip)
  {
    TypeDecodes(d, ip, nm, slot, kind, reply);
    HeaderCarries(d, ip, nm, slot, kind, reply);
    MacIsEchoed(d, reply, reply[CHADDR..CHADDR + 6]);
  }

  lemma {:induction false} HeaderCarries(d: Delivery, ip: Ip4, nm: Ip4, slot: nat, kind: byte, reply: seq<byte>)
    requires EventOf(d).Some? && slot < MAX_IP
    requires reply == ReplyBytes(Received(d.packet, d.junk), ip, nm, slot, kind)
    ensures HeaderEchoes(d.packet, reply) && reply[YIADDR..YIADDR + 4] == AddressOf(slot, ip)
  {
    ReplyLayout(d.packet, d.junk, ip, nm, slot, kind);
  }

  lemma {:induction false} TypeDecodes(d: Delivery, ip: Ip4, nm: Ip4, slot: nat, kind: byte, reply: seq<byte>)
    requires EventOf(d).Some? && slot < MAX_IP
    requires reply == ReplyBytes(Received(d.packet, d.junk), ip, nm, slot, kind)
    ensures Decodes(reply, OPT_MSG_TYPE, [kind])
  {
    ReplyReadsBack(d.packet, d.junk, ip, nm, slot, kind);
  }

  lemma {:induction false} MacIsEchoed(d: Delivery, reply: seq<byte>, mac: Mac)
    requires HeaderEchoes(d.packet, reply) && reply[CHADDR..CHADDR + 6] == mac && EventOf(d).Some?
    ensures EventOf(d).value.mac == mac
  {
    SliceOfSlice(reply, 28, 44, 0, 6);
    SliceOfSlice(d.packet, 28, 44, 0, 6);
    assert Received(d.packet, d.junk)[CHADDR..CHADDR + 6] == d.packet[CHADDR..CHADDR + 6];
  }

  lemma {:induction false} AddressNamesSlot(ip: Ip4, y: nat, z: nat)
    requires y < MAX_IP && z < MAX_IP && AddressOf(y, ip) == AddressOf(z, ip)
    ensures y == z
  {
    assert AddressOf(y, ip)[3] == BASE_IP + y && AddressOf(z, ip)[3] == BASE_IP + z;
  }

  /**
   * On the wire: over any traffic whatever, no two acknowledgements that clients decode from the
   * replies give one address to two hardware addresses within 24 hours.
   */
  lemma {:induction false} AddressesAreExclusive(
      ip: Ip4, nm: Ip4, ds: seq<Delivery>, i: nat, j: nat, mac: Mac, mac': Mac, addr: Ip4)
    requires ClockRuns(ds) && i < j < |ds| && mac != ZERO_MAC
    requires ReplyTo(ip, nm, ds, i).Some? && Acknowledges(ReplyTo(ip, nm, ds, i).value, mac, addr)
    requires ReplyTo(ip, nm, ds, j).Some? && Acknowledges(ReplyTo(ip, nm, ds, j).value, mac', addr)
    requires ds[j].clock[0] <= ds[i].clock[0] + 86_400_000
    ensures mac' == mac
  {
    var y := AckIsGrant(ip, nm, ds, i, mac, addr);
    var z := AckIsGrant(ip, nm, ds, j, mac', addr);
    AddressNamesSlot(ip, y, z);
    EventsInOrder(ds, i, j);
    EventsAreTimely(ds);
    RunOfIsRun(ip, Events(ds));
    LeasesAreExclusive(ip, RunOf(ip, Events(ds)), |Events(ds[..i])|, |Events(ds[..j])|, mac, mac', y);
  }

  /**
   * A well-formed REQUEST for one of the server's addresses that is free or the sender's own is
   * answered, on the wire, by an acknowledgement of that address.
   */
  lemma {:induction false} RequestIsAcknowledged(
      ip: Ip4, nm: Ip4, ds: seq<Delivery>, i: nat,
      head: seq<byte>, list: seq<Entry>, padding: seq<byte>, slot: nat)
    requires i < |ds| && slot < 8 && WellFormed(head, list)
    requires ds[i].packet == head + Encode(list) + [255] + padding && |ds[i].packet| >= 243
    requires Lookup(list, 53) == Some([3]) && Lookup(list, 50) == Some(ip[..3] + [16 + slot])
    requires var holder := TableAfter(ip, nm, ds[..i])[slot].mac; holder == head[28..34] || holder == ZERO_MAC
    ensures ReplyTo(ip, nm, ds, i).Some?
    ensures Acknowledges(ReplyTo(ip, nm, ds, i).value, head[28..34], ip[..3] + [16 + slot])
  {
    SlotNamesAddress(AddressOf(slot, ip), ip, slot);
    var d, tab := ds[i], TableAfter(ip, nm, ds[..i]);
    RequestUnderstood(head, list, padding, d.junk, d.clock);
    RequestIsGranted(tab, ip, EventOf(d).value, slot);
    PacketIsEvent(ip, nm, tab, d);
    AckedIsAck(ip, nm, d, slot, ReplyTo(ip, nm, ds, i).value);
  }

  lemma {:induction false} RequestIsGranted(tab: Table, ip: Ip4, ev: Event, slot: nat)
    requires slot < MAX_IP && ev.Request? && ev.addr == AddressOf(slot, ip) && Grants(tab, ev.mac, slot)
    ensures Step(tab, ip, ev).1 == Acked(slot)
  {
    SlotNamesAddress(ev.addr, ip, slot);
  }

  // ---------------------------------------------------------------------------
  // Offers on the wire
  // ---------------------------------------------------------------------------

  /** A client reads from the reply that it offers the address to that hardware address. */
  ghost predicate Offers(reply: seq<byte>, mac: Mac, addr: Ip4) {
    && Decodes(reply, 53, [2])
    && reply[28..34] == mac && reply[16..20] == addr
  }

  /** The slot that packet i offers its sender, if that is what its event comes to. */
  ghost predicate OfferedAt(ip: Ip4, nm: Ip4, ds: seq<Delivery>, i: nat, mac: Mac, slot: nat) {
    && i < |ds| && EventOf(ds[i]).Some? && EventOf(ds[i]).value.Discover? && EventOf(ds[i]).value.mac == mac
    && Step(TableAfter(ip, nm, ds[..i]), ip, EventOf(ds[i]).value).1 == Offered(slot)
  }

  lemma {:induction false} OnlyDiscoversAreOffered(tab: Table, ip: Ip4, ev: Event)
    requires Step(tab, ip, ev).1.Offered?
    ensures ev.Discover?
  {
  }

  lemma {:induction false} OfferIsOffered(
      ip: Ip4, nm: Ip4, d: Delivery, out: Outcome, reply: seq<byte>, mac: Mac, addr: Ip4)
    requires EventOf(d).Some? && (!out.Silent? ==> out.slot < MAX_IP)
    requires Answer(Received(d.packet, d.junk), ip, nm, out) == Some(reply) && Offers(reply, mac, addr)
    ensures out.Offered? && addr == AddressOf(out.slot, ip) && EventOf(d).value.mac == mac
  {
    var kind := if out.Offered? then DHCPOFFER else DHCPACK;
    ReplyCarries(d, ip, nm, out.slot, kind, reply);
    OneMessageType(reply, kind, DHCPOFFER);
  }

  /** An offer on the wire is the offer of a slot to a DISCOVER, and conversely. */
  lemma {:induction false} WireOfferIsOffer(ip: Ip4, nm: Ip4, ds: seq<Delivery>, i: nat, mac: Mac, addr: Ip4)
    returns (slot: nat)
    requires i < |ds| && ReplyTo(ip, nm, ds, i).Some? && Offers(ReplyTo(ip, nm, ds, i).value, mac, addr)
    ensures slot < MAX_IP && addr == AddressOf(slot, ip) && OfferedAt(ip, nm, ds, i, mac, slot)
  {
    var tab := TableAfter(ip, nm, ds[..i]);
    PacketIsEvent(ip, nm, tab, ds[i]);
    var ev := EventOf(ds[i]).value;
    var out := Step(tab, ip, ev).1;
    OfferIsOffered(ip, nm, ds[i], out, ReplyTo(ip, nm, ds, i).value, mac, addr);
    OnlyDiscoversAreOffered(tab, ip, ev);
    slot := out.slot;
  }

  lemma {:induction false} OfferIsWireOffer(ip: Ip4, nm: Ip4, ds: seq<Delivery>, i: nat, mac: Mac, slot: nat)
    requires slot < MAX_IP && OfferedAt(ip, nm, ds, i, mac, slot)
    ensures ReplyTo(ip, nm, ds, i).Some? && Offers(ReplyTo(ip, nm, ds, i).value, mac, AddressOf(slot, ip))
  {
    PacketIsEvent(ip, nm, TableAfter(ip, nm, ds[..i]), ds[i]);
    ReplyCarries(ds[i], ip, nm, slot, DHCPOFFER, ReplyTo(ip, nm, ds, i).value);
  }

  /** A packet that is a REQUEST for the address. */
  ghost predicate AsksFor(d: Delivery, addr: Ip4) {
    EventOf(d).Some? && EventOf(d).value.Request? && EventOf(d).value.addr == addr
  }

  lemma {:induction false} OfferStands(ip: Ip4, nm: Ip4, ds: seq<Delivery>, i: nat, k: nat, mac: Mac, slot: nat)
    requires slot < MAX_IP && i < k <= |ds| && OfferedAt(ip, nm, ds, i, mac, slot)
    requires forall j :: i < j < k && AsksFor(ds[j], AddressOf(slot, ip)) ==> EventOf(ds[j]).value.mac == mac
    ensures Reserved(TableAfter(ip, nm, ds[..k]), slot, mac)
    decreases k
  {
    var tab, d := TableAfter(ip, nm, ds[..k - 1]), ds[k - 1];
    assert ds[..k][..k - 1] == ds[..k - 1];
    if k == i + 1 {
      PacketIsEvent(ip, nm, tab, d);
      SlotIsReserved(tab, ip, EventOf(d).value, slot);
    } else {
      OfferStands(ip, nm, ds, i, k - 1, mac, slot);
      PacketKeepsReserved(ip, nm, tab, d, mac, slot);
    }
  }

  lemma {:induction false} PacketKeepsReserved(ip: Ip4, nm: Ip4, tab: Table, d: Delivery, mac: Mac, slot: nat)
    requires slot < MAX_IP && Reserved(tab, slot, mac)
    requires AsksFor(d, AddressOf(slot, ip)) ==> EventOf(d).value.mac == mac
    ensures Reserved(Respond(ip, nm, tab, d.packet, d.junk, d.clock).0, slot, mac)
  {
    PacketIsEvent(ip, nm, tab, d);
    if EventOf(d).Some? {
      if EventOf(d).value.Request? {
        SlotNamesAddress(EventOf(d).value.addr, ip, slot);
      }
      SlotStaysReserved(tab, ip, EventOf(d).value, slot, mac);
    }
  }

  /**
   * On the wire: once a client decodes an offer from a reply, its REQUEST for that address is answered
   * by a decodable acknowledgement of it, after any traffic in which nobody else asks for the address.
   */
  lemma {:induction false} WireOfferIsHonoured(
      ip: Ip4, nm: Ip4, ds: seq<Delivery>, i: nat, j: nat, mac: Mac, addr: Ip4)
    requires i < j < |ds| && ReplyTo(ip, nm, ds, i).Some? && Offers(ReplyTo(ip, nm, ds, i).value, mac, addr)
    requires forall k :: i < k < j && AsksFor(ds[k], addr) ==> EventOf(ds[k]).value.mac == mac
    requires AsksFor(ds[j], addr) && EventOf(ds[j]).value.mac == mac
    ensures ReplyTo(ip, nm, ds, j).Some? && Acknowledges(ReplyTo(ip, nm, ds, j).value, mac, addr)
  {
    var slot := WireOfferIsOffer(ip, nm, ds, i, mac, addr);
    OfferStands(ip, nm, ds, i, j, mac, slot);
    var tab := TableAfter(ip, nm, ds[..j]);
    RequestIsGranted(tab, ip, EventOf(ds[j]).value, slot);
    PacketIsEvent(ip, nm, tab, ds[j]);
    AckedIsAck(ip, nm, ds[j], slot, ReplyTo(ip, nm, ds, j).value);
  }

  /** The packet asks, for a client that holds a slot, for a second, free one. */
  ghost predicate AsksForSecond(ip: Ip4, tab: Table, d: Delivery) {
    EventOf(d).Some? && TakesSecond(tab, ip, EventOf(d).value)
  }

  ghost predicate NobodyAsksForSecond(ip: Ip4, nm: Ip4, ds: seq<Delivery>) {
    forall k :: 0 <= k < |ds| ==> !AsksForSecond(ip, TableAfter(ip, nm, ds[..k]), ds[k])
  }

  lemma {:induction false} FewerAskForSecond(ip: Ip4, nm: Ip4, ds: seq<Delivery>, n: nat)
    requires n <= |ds| && NobodyAsksForSecond(ip, nm, ds)
    ensures NobodyAsksForSecond(ip, nm, ds[..n])
  {
    forall k | 0 <= k < n
      ensures !AsksForSecond(ip, TableAfter(ip, nm, ds[..n][..k]), ds[..n][k])
    {
      assert ds[..n][..k] == ds[..k];
    }
  }

  lemma {:induction false} OneMoreTakesNoSecond(ip: Ip4, evs: seq<Event>, ev: Event)
    requires NobodyTakesSecond(ip, RunOf(ip, evs))
    requires !TakesSecond(RunOf(ip, evs).tables[|evs|], ip, ev)
    ensures NobodyTakesSecond(ip, RunOf(ip, evs + [ev]))
  {
    var r, r' := RunOf(ip, evs), RunOf(ip, evs + [ev]);
    assert (evs + [ev])[..|evs|] == evs;
    forall k | 0 <= k <= |evs|
      ensures !TakesSecond(r'.tables[k], ip, r'.events[k])
    {
      RunGrows(ip, evs + [ev], k);
    }
  }

  lemma {:induction false} RunTakesNoSecond(ip: Ip4, nm: Ip4, ds: seq<Delivery>)
    requires NobodyAsksForSecond(ip, nm, ds)
    ensures NobodyTakesSecond(ip, RunOf(ip, Events(ds)))
    decreases |ds|
  {
    if ds == [] {
    } else {
      var n := |ds| - 1;
      FewerAskForSecond(ip, nm, ds, n);
      RunTakesNoSecond(ip, nm, ds[..n]);
      assert !AsksForSecond(ip, TableAfter(ip, nm, ds[..n]), ds[n]);
      if EventOf(ds[n]).Some? {
        PacketsRefineEvents(ip, nm, ds[..n]);
        OneMoreTakesNoSecond(ip, Events(ds[..n]), EventOf(ds[n]).value);
      }
    }
  }

  /** On the wire: with at most eight clients, none of which asks for a second slot, every DISCOVER gets an offer. */
  lemma {:induction false} WireClientsAreServed(ip: Ip4, nm: Ip4, ds: seq<Delivery>, i: nat) returns (slot: nat)
    requires NobodyAsksForSecond(ip, nm, ds) && |MacsOf(Events(ds))| <= 8
    requires i < |ds| && EventOf(ds[i]).Some? && EventOf(ds[i]).value.Discover?
    ensures slot < 8 && ReplyTo(ip, nm, ds, i).Some?
    ensures Offers(ReplyTo(ip, nm, ds, i).value, EventOf(ds[i]).value.mac, ip[..3] + [16 + slot])
  {
    var r, k := RunOf(ip, Events(ds)), |Events(ds[..i])|;
    RunOfIsRun(ip, Events(ds));
    RunTakesNoSecond(ip, nm, ds);
    EventStands(ds, i);
    EightClientsAreServed(ip, r, k);
    assert StepAt(ip, r, k);
    PacketsRefineEvents(ip, nm, ds[..i]);
    RunIsPrefix(ip, Events(ds), k);
    slot := r.outcomes[k].slot;
    SlotNamesAddress(AddressOf(slot, ip), ip, slot);
    OfferIsWireOffer(ip, nm, ds, i, EventOf(ds[i]).value.mac, slot);
  }
}
