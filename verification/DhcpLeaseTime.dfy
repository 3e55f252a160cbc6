/** The lease time that an acknowledgement carries is the one the server keeps to. */
module DhcpLeaseTime {
  import opened Bytes
  import opened DhcpOptions
  import opened DhcpLeases
  import opened DhcpProtocol
  import opened DhcpServer
  import opened DhcpReply
  import opened DhcpRuns
  import opened DhcpTraffic

  /** The number four bytes make in network order. */
  function NetworkOrder(v: seq<byte>): nat
    requires |v| == 4
  {
    v[0] as int * 0x100_0000 + v[1] as int * 0x1_0000 + v[2] as int * 0x100 + v[3] as int
  }

  /** A client reads from the reply a lease of n seconds: option 51, in network order. */
  ghost predicate LeasesFor(reply: seq<byte>, n: nat) {
    exists v: seq<byte> :: |v| == 4 && Decodes(reply, 51, v) && n == NetworkOrder(v)
  }

  /** An option decodes to one value only. */
  lemma {:induction false} OneValue(reply: seq<byte>, code: byte, v: seq<byte>, w: seq<byte>)
    requires Decodes(reply, code, v) && Decodes(reply, code, w)
    ensures v == w
  {
    var tail: seq<byte> := seq(WINDOW, _ => 0);
    var opt := reply[OPTIONS..] + tail;
    var at := FindFrom(opt, code, 0).value;
    assert HoldsAt(opt, at, Entry(code, v)) && HoldsAt(opt, at, Entry(code, w));
  }

  /** Every reply carries a lease of one day, and no other. */
  lemma {:induction false} LeaseIsADay(ip: Ip4, nm: Ip4, ds: seq<Delivery>, i: nat, n: nat)
    requires i < |ds| && ReplyTo(ip, nm, ds, i).Some?
    ensures LeasesFor(ReplyTo(ip, nm, ds, i).value, n) <==> n == 86_400
  {
    var d, reply := ds[i], ReplyTo(ip, nm, ds, i).value;
    ReplyDecodes(ip, nm, TableAfter(ip, nm, ds[..i]), d.packet, d.junk, d.clock, reply);
    DayIsRead(reply, [0, 1, 0x51, 0x80], n);
  }

  lemma {:induction false} DayIsRead(reply: seq<byte>, day: seq<byte>, n: nat)
    requires |day| == 4 && Decodes(reply, 51, day) && NetworkOrder(day) == 86_400
    ensures LeasesFor(reply, n) <==> n == 86_400
  {
    if LeasesFor(reply, n) {
      var v: seq<byte> :| |v| == 4 && Decodes(reply, 51, v) && n == NetworkOrder(v);
      OneValue(reply, 51, v, day);
    }
  }

  /**
   * If an acknowledgement grants an address for n seconds, no other hardware address is acknowledged
   * that address in the n * 1000 ms after it, over any traffic whatever.
   */
  lemma {:induction false} LeaseTimeIsKept(
      ip: Ip4, nm: Ip4, ds: seq<Delivery>, i: nat, j: nat, mac: Mac, mac': Mac, addr: Ip4, n: nat)
    requires ClockRuns(ds) && i < j < |ds| && mac != ZERO_MAC
    requires ReplyTo(ip, nm, ds, i).Some? && Acknowledges(ReplyTo(ip, nm, ds, i).value, mac, addr)
    requires ReplyTo(ip, nm, ds, j).Some? && Acknowledges(ReplyTo(ip, nm, ds, j).value, mac', addr)
    requires LeasesFor(ReplyTo(ip, nm, ds, i).value, n)
    requires ds[j].clock[0] <= ds[i].clock[0] + n * 1000
    ensures mac' == mac
  {
    LeaseIsADay(ip, nm, ds, i, n);
    AddressesAreExclusive(ip, nm, ds, i, j, mac, mac', addr);
  }

  // ---------------------------------------------------------------------------
  // After the lease time
  // ---------------------------------------------------------------------------

  /** The fixed header of a message from a hardware address. */
  function HeadOf(mac: Mac): (head: seq<byte>)
    ensures |head| == 240 && head[28..34] == mac
  {
    seq(28, _ => 0) + mac + seq(206, _ => 0)
  }

  function DiscoverOptions(): seq<Entry> {
    [Entry(53, [1])]
  }

  function RequestOptions(addr: Ip4): seq<Entry> {
    [Entry(53, [3]), Entry(50, addr)]
  }

  function PacketOf(mac: Mac, options: seq<Entry>): seq<byte> {
    HeadOf(mac) + Encode(options) + [255]
  }

  function At(t: nat): Clock {
    [t, t, t, t, t, t, t, t]
  }

  lemma {:induction false} OptionsAreWellFormed(mac: Mac, addr: Ip4)
    ensures WellFormed(HeadOf(mac), DiscoverOptions()) && |Encode(DiscoverOptions())| == 3
    ensures WellFormed(HeadOf(mac), RequestOptions(addr)) && |Encode(RequestOptions(addr))| == 9
  {
    assert RequestOptions(addr)[1..] == [Entry(50, addr)] && RequestOptions(addr)[1..][1..] == [];
    assert Encode(RequestOptions(addr)) == EncodeEntry(Entry(53, [3])) + Encode([Entry(50, addr)]);
    assert Encode([Entry(50, addr)]) == EncodeEntry(Entry(50, addr)) + Encode([]);
    assert Encode(DiscoverOptions()) == EncodeEntry(Entry(53, [1])) + Encode([]);
  }

  /** A REQUEST and a DISCOVER as their sender means them. */
  lemma {:induction false} PacketsAreUnderstood(mac: Mac, addr: Ip4, junk: Frame, t: nat)
    ensures EventOf(Delivery(PacketOf(mac, DiscoverOptions()), junk, At(t))) == Some(Discover(mac, At(t)))
    ensures EventOf(Delivery(PacketOf(mac, RequestOptions(addr)), junk, At(t))) == Some(Request(mac, addr, t))
  {
    OptionsAreWellFormed(mac, addr);
    RequestUnderstood(HeadOf(mac), DiscoverOptions(), [], junk, At(t));
    RequestUnderstood(HeadOf(mac), RequestOptions(addr), [], junk, At(t));
    assert PacketOf(mac, DiscoverOptions()) + [] == PacketOf(mac, DiscoverOptions());
    assert PacketOf(mac, RequestOptions(addr)) + [] == PacketOf(mac, RequestOptions(addr));
    assert RequestOptions(addr)[1..] == [Entry(50, addr)];
    assert Lookup(RequestOptions(addr), 50) == Lookup([Entry(50, addr)], 50) == Some(addr);
  }

  /** A client's REQUEST, another's DISCOVER some time later, and its REQUEST for the same address. */
  function Handover(mac: Mac, mac': Mac, addr: Ip4, junk: Frame, t: nat, late: nat): seq<Delivery> {
    [Delivery(PacketOf(mac, RequestOptions(addr)), junk, At(t)),
     Delivery(PacketOf(mac', DiscoverOptions()), junk, At(late)),
     Delivery(PacketOf(mac', RequestOptions(addr)), junk, At(late))]
  }

  lemma {:induction false} HandoverEvents(mac: Mac, mac': Mac, addr: Ip4, junk: Frame, t: nat, late: nat)
    ensures var ds := Handover(mac, mac', addr, junk, t, late);
            && Events(ds[..0]) == [] && Events(ds[..2]) == [Request(mac, addr, t), Discover(mac', At(late))]
            && Events(ds) == [Request(mac, addr, t), Discover(mac', At(late)), Request(mac', addr, late)]
  {
    var ds := Handover(mac, mac', addr, junk, t, late);
    PacketsAreUnderstood(mac, addr, junk, t);
    PacketsAreUnderstood(mac', addr, junk, late);
    assert ds[..1][..0] == [] && ds[..2][..1] == ds[..1] && ds[..3][..2] == ds[..2] && ds[..3] == ds;
    assert Events(ds[..1]) == [Request(mac, addr, t)];
    assert Events(ds[..2]) == Events(ds[..1]) + [Discover(mac', At(late))];
    assert Events(ds[..3]) == Events(ds[..2]) + [Request(mac', addr, late)];
  }

  lemma {:induction false} HandoverClock(mac: Mac, mac': Mac, addr: Ip4, junk: Frame, t: nat, late: nat)
    requires t <= late
    ensures var ds := Handover(mac, mac', addr, junk, t, late);
            ClockRuns(ds) && ds[0].clock[0] == t && ds[2].clock[0] == late
  {
    assert forall y :: 0 <= y < 8 ==> At(t)[y] == t && At(late)[y] == late;
  }

  /**
   * And from n * 1000 + 65536 ms after it, or a little earlier, the address can be acknowledged to
   * another: for every time in the 2^31 ms after the deadline there is traffic that shows it.
   */
  lemma {:induction false} LeaseTimeIsSharp(
      ip: Ip4, nm: Ip4, junk: Frame, t: nat, late: nat, mac: Mac, mac': Mac)
    returns (ds: seq<Delivery>, addr: Ip4, n: nat)
    requires mac != ZERO_MAC && mac' != mac
    requires 1 <= late - (t + 86_400_000 + Slack(t)) <= 0x8000_0000
    ensures ClockRuns(ds) && |ds| == 3 && ds[0].clock[0] == t && ds[2].clock[0] == late
    ensures ReplyTo(ip, nm, ds, 0).Some? && Acknowledges(ReplyTo(ip, nm, ds, 0).value, mac, addr)
    ensures LeasesFor(ReplyTo(ip, nm, ds, 0).value, n) && n * 1000 < late - t
    ensures ReplyTo(ip, nm, ds, 2).Some? && Acknowledges(ReplyTo(ip, nm, ds, 2).value, mac', addr)
  {
    addr, n := AddressOf(0, ip), 86_400;
    ds := Handover(mac, mac', addr, junk, t, late);
    HandoverEvents(mac, mac', addr, junk, t, late);
    HandoverClock(mac, mac', addr, junk, t, late);
    HandoverOutcomes(ip, t, late, mac, mac', addr);
    PacketsAreUnderstood(mac, addr, junk, t);
    PacketsAreUnderstood(mac', addr, junk, late);
    GrantShows(ip, nm, ds, 0, Request(mac, addr, t));
    GrantShows(ip, nm, ds, 2, Request(mac', addr, late));
    LeaseIsADay(ip, nm, ds, 0, n);
  }

  lemma {:induction false} GrantShows(ip: Ip4, nm: Ip4, ds: seq<Delivery>, i: nat, ev: Event)
    requires i < |ds| && |Events(ds)| == |ds| && |Events(ds[..i])| == i && Events(ds)[i] == ev
    requires ev.Request? && RunOf(ip, Events(ds)).outcomes[i] == Acked(0) && EventOf(ds[i]) == Some(ev)
    ensures ReplyTo(ip, nm, ds, i).Some?
    ensures Acknowledges(ReplyTo(ip, nm, ds, i).value, ev.mac, AddressOf(0, ip))
  {
    GrantIsAck(ip, nm, ds, i, 0);
  }

  lemma {:induction false} HandoverOutcomes(ip: Ip4, t: nat, late: nat, mac: Mac, mac': Mac, addr: Ip4)
    requires mac != ZERO_MAC && mac' != mac && addr == AddressOf(0, ip)
    requires 1 <= late - (t + 86_400_000 + Slack(t)) <= 0x8000_0000
    ensures var r := RunOf(ip, [Request(mac, addr, t), Discover(mac', At(late)), Request(mac', addr, late)]);
            r.outcomes[0] == Acked(0) && r.outcomes[2] == Acked(0)
  {
    var e1, e2, e3 := Request(mac, addr, t), Discover(mac', At(late)), Request(mac', addr, late);
    var r := RunOf(ip, [e1, e2, e3]);
    RunOfIsRun(ip, [e1, e2, e3]);
    assert StepAt(ip, r, 0) && StepAt(ip, r, 1) && StepAt(ip, r, 2);
    FirstSlotIsGranted(EMPTY_TABLE, ip, mac, t);
    ExpiredSlotIsCleared(r.tables[1], ip, e2, t);
    FirstSlotIsGranted(r.tables[2], ip, mac', late);
  }
}
