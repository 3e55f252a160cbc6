/**
 * The DHCP server at the byte level: one packet in, the lease array updated in place, and at most
 * one reply, built over the very buffer the request was read from.
 */
module DhcpServer {
  import opened Bytes
  import opened DhcpOptions
  import opened DhcpLeases
  import opened DhcpProtocol

  const DHCPDISCOVER: byte := 1
  const DHCPOFFER: byte := 2
  const DHCPREQUEST: byte := 3
  const DHCPACK: byte := 5

  /** Size of the message structure and the shortest packet looked at. */
  const MSG_SIZE := 548
  const MIN_SIZE := 243
  /** The structure plus the bytes after it that a malformed option list makes the code read. */
  const FRAME_SIZE := 580

  /** What the host name buffer holds beside its NUL. */
  const HOST_NAME_MAX := 31

  const YIADDR := 16
  const CHADDR := 28
  /** The options, after the magic cookie. */
  const OPTIONS := 240

  type Frame = f: seq<byte> | |f| == FRAME_SIZE witness seq(FRAME_SIZE, _ => 0)

  /** The stack frame after the packet is copied over what it held before. */
  function Received(packet: seq<byte>, junk: Frame): Frame {
    var n := Min(|packet|, MSG_SIZE);
    packet[..n] + junk[n..]
  }

  /** The frame with the fixed reply fields filled in. */
  function Addressed(frame: Frame, addr: Ip4): Frame {
    [DHCPOFFER] + frame[1..YIADDR] + addr + frame[YIADDR + 4..]
  }

  function ClientMac(frame: Frame): Mac {
    frame[CHADDR..CHADDR + 6]
  }

  /** Which protocol event a frame stands for, if any. */
  function Classify(frame: Frame, clock: Clock): Option<Event> {
    var opt := frame[OPTIONS..];
    match FindFrom(opt, OPT_MSG_TYPE, 0)
    case None => None
    case Some(o) =>
      if opt[o + 2] == DHCPDISCOVER then Some(Discover(ClientMac(frame), clock))
      else if opt[o + 2] == DHCPREQUEST then
        match FindFrom(opt, OPT_REQUESTED_IP, 0)
        case None => None
        case Some(a) => Some(Request(ClientMac(frame), opt[a + 2..a + 6], clock[0]))
      else None
  }

  function ReplyOptions(kind: byte, ip: Ip4, nm: Ip4): seq<Entry> {
    [Entry(OPT_MSG_TYPE, [kind]), Entry(OPT_SERVER_ID, ip), Entry(OPT_SUBNET_MASK, nm),
     Entry(OPT_ROUTER, ip), Entry(OPT_DNS, ip), Entry(OPT_IP_LEASE_TIME, BigEndian32(LEASE_TIME_S))]
  }

  /** The reply as a pure function of the request. */
  function ReplyBytes(frame: Frame, ip: Ip4, nm: Ip4, slot: nat, kind: byte): seq<byte>
    requires slot < MAX_IP
  {
    [DHCPOFFER] + frame[1..YIADDR] + AddressOf(slot, ip) + frame[YIADDR + 4..OPTIONS]
    + Encode(ReplyOptions(kind, ip, nm)) + [OPT_END]
  }

  function Answer(frame: Frame, ip: Ip4, nm: Ip4, out: Outcome): Option<seq<byte>>
    requires !out.Silent? ==> out.slot < MAX_IP
  {
    match out
    case Silent => None
    case Offered(slot) => Some(ReplyBytes(frame, ip, nm, slot, DHCPOFFER))
    case Acked(slot) => Some(ReplyBytes(frame, ip, nm, slot, DHCPACK))
  }

  /** The bytes of the client's host name that are kept to be logged; none if it sent none. */
  function HostName(frame: Frame): seq<byte> {
    var opt := frame[OPTIONS..];
    match FindFrom(opt, OPT_HOST_NAME, 0)
    case None => []
    case Some(o) => opt[o + 2..o + 2 + Min(opt[o + 1], HOST_NAME_MAX)]
  }

  /** The host name that processing a packet logs: that of an acknowledged request, as it arrived. */
  function Logged(ip: Ip4, tab: Table, packet: seq<byte>, junk: Frame, clock: Clock): Option<seq<byte>> {
    if |packet| < MIN_SIZE then None
    else
      var frame := Received(packet, junk);
      match Classify(frame, clock)
      case None => None
      case Some(ev) => if Step(tab, ip, ev).1.Acked? then Some(HostName(frame)) else None
  }

  /** What one packet does to the lease table, and the reply it gets. */
  function Respond(ip: Ip4, nm: Ip4, tab: Table, packet: seq<byte>, junk: Frame, clock: Clock)
    : (Table, Option<seq<byte>>)
  {
    if |packet| < MIN_SIZE then (tab, None)
    else
      var frame := Received(packet, junk);
      match Classify(frame, clock)
      case None => (tab, None)
      case Some(ev) =>
        var (tab', out) := Step(tab, ip, ev);
        (tab', Answer(frame, ip, nm, out))
  }

  // ---------------------------------------------------------------------------
  // The server
  // ---------------------------------------------------------------------------

  class Server {
    const ip: Ip4
    const nm: Ip4
    const lease: array<Lease>

    ghost predicate Valid() {
      lease.Length == MAX_IP
    }

    ghost function Leases(): Table
      requires Valid()
      reads lease
    {
      lease[..]
    }

    constructor (ip: Ip4, nm: Ip4)
      ensures Valid() && fresh(lease)
      ensures this.ip == ip && this.nm == nm
      ensures Leases() == EMPTY_TABLE
    {
      this.ip, this.nm := ip, nm;
      lease := new Lease[MAX_IP](_ => FREE);
    }

    /** The slot search of a DISCOVER; MAX_IP means that no address is left. */
    method FindOffer(chaddr: Mac, clock: Clock) returns (yi: nat)
      requires Valid()
      modifies lease
      ensures yi == OfferedSlot(old(Leases()), chaddr, clock)
      ensures Leases() == AfterDiscover(old(Leases()), chaddr, clock)
    {
      ghost var tab: Table := Leases();
      yi := MAX_IP;
      for i := 0 to MAX_IP
        invariant FirstMatch(tab, chaddr) == FirstMatch(tab, chaddr, i)
        invariant yi == MAX_IP ==> FirstUsable(tab, clock) == FirstUsable(tab, clock, i)
        invariant yi == MAX_IP ==> lease[..] == tab
        invariant yi != MAX_IP ==> yi < i && yi == FirstUsable(tab, clock)
        invariant yi != MAX_IP ==> lease[..] == tab[yi := tab[yi].(mac := ZERO_MAC)]
      {
        assert lease[i] == lease[..][i] == tab[i];
        if lease[i].mac == chaddr {
          yi := i;
          break;
        }
        if yi == MAX_IP {
          if lease[i].mac == ZERO_MAC {
            yi := i;
          }
          if Expired(lease[i].expiry, Ticks(clock[i])) {
            lease[i] := lease[i].(mac := ZERO_MAC);
            yi := i;
          }
        }
      }
    }

    /** The slot check of a REQUEST, which stamps the lease when it succeeds. */
    method Commit(chaddr: Mac, yi: nat, now: nat) returns (ok: bool)
      requires Valid() && yi < MAX_IP
      modifies lease
      ensures ok == Grants(old(Leases()), chaddr, yi)
      ensures Leases() == AfterRequest(old(Leases()), chaddr, yi, now)
    {
      if lease[yi].mac == chaddr {
      } else if lease[yi].mac == ZERO_MAC {
        lease[yi] := lease[yi].(mac := chaddr);
      } else {
        return false;
      }
      lease[yi] := lease[yi].(expiry := Stamp(Ticks(now)));
      return true;
    }

    /** Writes the options over the request's own and cuts the reply out of the buffer. */
    method BuildReply(msg: array<byte>, kind: byte) returns (reply: seq<byte>)
      requires msg.Length == FRAME_SIZE
      modifies msg
      ensures reply == old(msg[..OPTIONS]) + Encode(ReplyOptions(kind, ip, nm)) + [OPT_END]
    {
      ghost var before := msg[..];
      var opt := OptWriteU8(msg, OPTIONS, OPT_MSG_TYPE, kind);
      opt := OptWriteN(msg, opt, OPT_SERVER_ID, ip);
      opt := OptWriteN(msg, opt, OPT_SUBNET_MASK, nm);
      opt := OptWriteN(msg, opt, OPT_ROUTER, ip);
      opt := OptWriteN(msg, opt, OPT_DNS, ip);
      opt := OptWriteU32(msg, opt, OPT_IP_LEASE_TIME, LEASE_TIME_S);
      WriteReplyOptions(before, kind, ip, nm);
      msg[opt] := OPT_END;
      opt := opt + 1;
      reply := msg[..opt];
    }

    /** Copies the host name out of the incoming options. */
    method ReadHostName(msg: array<byte>) returns (hostname: seq<byte>)
      requires msg.Length == FRAME_SIZE
      ensures hostname == HostName(msg[..])
    {
      ghost var frame: Frame := msg[..];
      assert msg[OPTIONS..] == frame[OPTIONS..];
      var hn := OptFind(msg, OPTIONS, OPT_HOST_NAME);
      if hn.None? {
        return [];
      }
      var at := OPTIONS + hn.value + 2;
      var length: int := msg[at - 1];
      if length > HOST_NAME_MAX {
        length := HOST_NAME_MAX;
      }
      hostname := msg[at..at + length];
      HostNameStands(frame, hn.value, at, length);
      assert hostname == frame[at..at + length];
    }

    /** Copies the packet into a fresh frame and fills in the fixed reply fields. */
    method Receive(packet: seq<byte>, junk: Frame) returns (msg: array<byte>)
      requires |packet| >= MIN_SIZE
      ensures fresh(msg)
      ensures msg[..] == Addressed(Received(packet, junk), ip)
    {
      var len := Min(|packet|, MSG_SIZE);
      msg := new byte[FRAME_SIZE](i requires 0 <= i < FRAME_SIZE => if i < len then packet[i] else junk[i]);
      assert msg[..] == Received(packet, junk);
      msg[0] := DHCPOFFER;
      msg[YIADDR], msg[YIADDR + 1], msg[YIADDR + 2], msg[YIADDR + 3] := ip[0], ip[1], ip[2], ip[3];
    }

    /** The DISCOVER branch. */
    method HandleDiscover(mac: Mac, clock: Clock) returns (out: Outcome)
      requires Valid()
      modifies lease
      ensures (Leases(), out) == Step(old(Leases()), ip, Discover(mac, clock))
    {
      var yi := FindOffer(mac, clock);
      out := if yi == MAX_IP then Silent else Offered(yi);
    }

    /** The REQUEST branch, once the requested address is read. */
    method HandleRequest(mac: Mac, addr: Ip4, now: nat) returns (out: Outcome)
      requires Valid()
      modifies lease
      ensures (Leases(), out) == Step(old(Leases()), ip, Request(mac, addr, now))
    {
      if addr[..3] != ip[..3] {
        return Silent;
      }
      var yi := (addr[3] - BASE_IP) % 256;
      if yi >= MAX_IP {
        return Silent;
      }
      var ok := Commit(mac, yi, now);
      out := if ok then Acked(yi) else Silent;
    }

    /** The address a REQUEST asks for, read from its option. */
    method RequestedAddress(msg: array<byte>) returns (addr: Option<Ip4>)
      requires msg.Length == FRAME_SIZE
      ensures addr == match FindFrom(msg[OPTIONS..], OPT_REQUESTED_IP, 0)
                      case None => None
                      case Some(a) => Some(msg[OPTIONS..][a + 2..a + 6])
    {
      var o := OptFind(msg, OPTIONS, OPT_REQUESTED_IP);
      if o.None? {
        return None;
      }
      var at := OPTIONS + o.value + 2;
      SliceOfDrop(msg[..], OPTIONS, o.value + 2, o.value + 6);
      assert msg[..][OPTIONS..] == msg[OPTIONS..];
      addr := Some(msg[at..at + 4]);
    }

    /** The switch on the message type. */
    method Handle(msg: array<byte>, clock: Clock) returns (out: Outcome)
      requires Valid() && msg.Length == FRAME_SIZE
      modifies lease
      ensures match Classify(msg[..], clock)
              case None => out == Silent && Leases() == old(Leases())
              case Some(ev) => (Leases(), out) == Step(old(Leases()), ip, ev)
    {
      ghost var frame: Frame := msg[..];
      assert msg[OPTIONS..] == frame[OPTIONS..];
      var mac: Mac := msg[CHADDR..CHADDR + 6];
      assert mac == ClientMac(frame);
      var msgtype := OptFind(msg, OPTIONS, OPT_MSG_TYPE);
      if msgtype.None? {
        return Silent;
      }
      var kind := msg[OPTIONS + msgtype.value + 2];
      TypeDecides(frame, clock, msgtype.value, kind);
      if kind == DHCPDISCOVER {
        out := HandleDiscover(mac, clock);
      } else if kind == DHCPREQUEST {
        var addr := RequestedAddress(msg);
        if addr.None? {
          return Silent;
        }
        out := HandleRequest(mac, addr.value, clock[0]);
      } else {
        out := Silent;
      }
    }

    method Process(packet: seq<byte>, junk: Frame, clock: Clock)
      returns (reply: Option<seq<byte>>, hostname: Option<seq<byte>>)
      requires Valid()
      modifies lease
      ensures (Leases(), reply) == Respond(ip, nm, old(Leases()), packet, junk, clock)
      ensures hostname == Logged(ip, old(Leases()), packet, junk, clock)
    {
      hostname := None;
      if |packet| < MIN_SIZE {
        return None, None;
      }
      var msg := Receive(packet, junk);
      ghost var frame: Frame := Received(packet, junk);
      SameEvent(frame, ip, clock);
      var out := Handle(msg, clock);
      OutcomeDecides(ip, nm, old(Leases()), Leases(), packet, junk, clock, out);
      if out.Silent? {
        return None, None;
      }
      ReplyHead(frame, ip, out.slot);
      SameHostName(frame, AddressOf(out.slot, ip));
      var bytes, name := Reply(msg, out);
      reply, hostname := Some(bytes), if out.Acked? then Some(name) else None;
    }

    /** The address goes in, the host name of a granted request comes out, and the options are overwritten. */
    method Reply(msg: array<byte>, out: Outcome) returns (reply: seq<byte>, hostname: seq<byte>)
      requires msg.Length == FRAME_SIZE && !out.Silent? && out.slot < MAX_IP
      modifies msg
      ensures var frame: Frame := old(msg[..])[YIADDR + 3 := BASE_IP + out.slot];
              && reply == frame[..OPTIONS]
                 + Encode(ReplyOptions(if out.Offered? then DHCPOFFER else DHCPACK, ip, nm)) + [OPT_END]
              && (out.Acked? ==> hostname == HostName(frame))
    {
      hostname := [];
      msg[YIADDR + 3] := BASE_IP + out.slot;
      if out.Acked? {
        hostname := ReadHostName(msg);
      }
      reply := BuildReply(msg, if out.Offered? then DHCPOFFER else DHCPACK);
    }
  }

  /** What the message type makes of a frame. */
  lemma {:induction false} TypeDecides(frame: Frame, clock: Clock, o: nat, kind: byte)
    requires FindFrom(frame[OPTIONS..], OPT_MSG_TYPE, 0) == Some(o) && kind == frame[OPTIONS + o + 2]
    ensures kind == DHCPDISCOVER ==> Classify(frame, clock) == Some(Discover(ClientMac(frame), clock))
    ensures kind == DHCPREQUEST ==>
              Classify(frame, clock) ==
              match FindFrom(frame[OPTIONS..], OPT_REQUESTED_IP, 0)
              case None => None
              case Some(a) => Some(Request(ClientMac(frame), frame[OPTIONS..][a + 2..a + 6], clock[0]))
    ensures kind != DHCPDISCOVER && kind != DHCPREQUEST ==> Classify(frame, clock) == None
  {
    assert frame[OPTIONS..][o + 2] == kind;
  }

  /** The fields filled in before the options are read do not change what is read. */
  lemma {:induction false} SameEvent(frame: Frame, ip: Ip4, clock: Clock)
    ensures Classify(Addressed(frame, ip), clock) == Classify(frame, clock)
  {
    var msg := Addressed(frame, ip);
    assert msg[OPTIONS..] == frame[OPTIONS..];
    assert ClientMac(msg) == ClientMac(frame);
  }

  /** What a packet comes to determines the reply and what is logged. */
  lemma {:induction false} OutcomeDecides(
      ip: Ip4, nm: Ip4, tab: Table, tab': Table, packet: seq<byte>, junk: Frame, clock: Clock, out: Outcome)
    requires |packet| >= MIN_SIZE && (!out.Silent? ==> out.slot < MAX_IP)
    requires match Classify(Received(packet, junk), clock)
             case None => out == Silent && tab' == tab
             case Some(ev) => (tab', out) == Step(tab, ip, ev)
    ensures Respond(ip, nm, tab, packet, junk, clock) == (tab', Answer(Received(packet, junk), ip, nm, out))
    ensures Logged(ip, tab, packet, junk, clock) ==
            if out.Acked? then Some(HostName(Received(packet, junk))) else None
  {
  }

  lemma {:induction false} HostNameStands(frame: Frame, o: nat, at: nat, length: nat)
    requires FindFrom(frame[OPTIONS..], OPT_HOST_NAME, 0) == Some(o)
    requires at == OPTIONS + o + 2 && length == Min(frame[at - 1], HOST_NAME_MAX)
    ensures HostName(frame) == frame[at..at + length]
  {
    assert frame[OPTIONS..][o + 1] == frame[at - 1];
    SliceOfDrop(frame, OPTIONS, o + 2, o + 2 + length);
  }

  lemma {:induction false} SameHostName(frame: Frame, addr: Ip4)
    ensures HostName(Addressed(frame, addr)) == HostName(frame)
  {
    assert Addressed(frame, addr)[OPTIONS..] == frame[OPTIONS..];
  }

  lemma {:induction false} ReplyHead(frame: Frame, ip: Ip4, slot: nat)
    requires slot < MAX_IP
    ensures var msg := Addressed(frame, ip)[YIADDR + 3 := BASE_IP + slot];
            && msg == Addressed(frame, AddressOf(slot, ip))
            && msg[..OPTIONS] == [DHCPOFFER] + frame[1..YIADDR] + AddressOf(slot, ip) + frame[YIADDR + 4..OPTIONS]
  {
  }

  lemma {:induction false} WriteReplyOptions(msg: seq<byte>, kind: byte, ip: Ip4, nm: Ip4)
    requires |msg| == FRAME_SIZE
    ensures var o := ReplyOptions(kind, ip, nm);
            var a := Splice(msg, OPTIONS, EncodeEntry(o[0]));
            var b := Splice(a, OPTIONS + 3, EncodeEntry(o[1]));
            var c := Splice(b, OPTIONS + 9, EncodeEntry(o[2]));
            var d := Splice(c, OPTIONS + 15, EncodeEntry(o[3]));
            var e := Splice(d, OPTIONS + 21, EncodeEntry(o[4]));
            var f := Splice(e, OPTIONS + 27, EncodeEntry(o[5]));
            f[..OPTIONS + 33] == msg[..OPTIONS] + Encode(o)
  {
    ReplyOptionsLayout(kind, ip, nm);
  }

  /** The six options take 33 bytes. */
  lemma {:induction false} ReplyOptionsLayout(kind: byte, ip: Ip4, nm: Ip4)
    ensures var o := ReplyOptions(kind, ip, nm);
            && Encode(o) == EncodeEntry(o[0]) + EncodeEntry(o[1]) + EncodeEntry(o[2])
                            + EncodeEntry(o[3]) + EncodeEntry(o[4]) + EncodeEntry(o[5])
            && |Encode(o)| == 33
  {
    var o := ReplyOptions(kind, ip, nm);
    assert Encode(o[5..]) == EncodeEntry(o[5]);
    assert o[4..][1..] == o[5..] && o[3..][1..] == o[4..] && o[2..][1..] == o[3..] && o[1..][1..] == o[2..];
    assert Encode(o[4..]) == EncodeEntry(o[4]) + Encode(o[5..]);
    assert Encode(o[3..]) == EncodeEntry(o[3]) + Encode(o[4..]);
    assert Encode(o[2..]) == EncodeEntry(o[2]) + Encode(o[3..]);
    assert Encode(o[1..]) == EncodeEntry(o[1]) + Encode(o[2..]);
    assert Encode(o) == EncodeEntry(o[0]) + Encode(o[1..]);
  }
}
