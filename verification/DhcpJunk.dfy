/** Exactly when what the server does with a packet depends on bytes that were never received. */
module DhcpJunk {
  import opened Bytes
  import opened DhcpOptions
  import opened DhcpLeases
  import opened DhcpProtocol
  import opened DhcpServer
  import opened DhcpReply

  const AREA := FRAME_SIZE - OPTIONS

  /** The option area as the server reads it. */
  function Area(packet: seq<byte>, junk: Frame): (opt: seq<byte>)
    ensures |opt| == AREA
  {
    Received(packet, junk)[OPTIONS..]
  }

  /** How much of it was received. */
  function Got(packet: seq<byte>): (m: nat)
    requires |packet| >= MIN_SIZE
    ensures MIN_SIZE - OPTIONS <= m <= WINDOW
  {
    Min(|packet|, 548) - 240
  }

  /** Two areas with the same first m bytes. */
  ghost predicate Alike(a: seq<byte>, b: seq<byte>, m: nat) {
    |a| == |b| == AREA && m <= WINDOW && forall k :: 0 <= k < m ==> a[k] == b[k]
  }

  lemma {:induction false} AreaBytes(packet: seq<byte>, junk: Frame)
    requires |packet| >= MIN_SIZE
    ensures forall k :: 0 <= k < Got(packet) ==> Area(packet, junk)[k] == packet[OPTIONS + k]
    ensures forall k :: Got(packet) <= k < AREA ==> Area(packet, junk)[k] == junk[OPTIONS + k]
  {
    var frame := Received(packet, junk);
    assert forall k :: 0 <= k < AREA ==> Area(packet, junk)[k] == frame[OPTIONS + k];
  }

  lemma {:induction false} AreasAlike(packet: seq<byte>, junk: Frame, junk': Frame)
    requires |packet| >= MIN_SIZE
    ensures Alike(Area(packet, junk), Area(packet, junk'), Got(packet))
  {
    AreaBytes(packet, junk);
    AreaBytes(packet, junk');
  }

  // ---------------------------------------------------------------------------
  // The option walk
  // ---------------------------------------------------------------------------

  /** The first m bytes decide what the walk that stands at i finds. */
  predicate Known(opt: seq<byte>, m: nat, cmd: byte, i: nat)
    requires m <= WINDOW < |opt|
    decreases WINDOW - i
  {
    i >= WINDOW ||
    (i < m && (opt[i] == OPT_END || opt[i] == cmd || i + 2 >= WINDOW ||
               (i + 1 < m && Known(opt, m, cmd, i + 2 + opt[i + 1]))))
  }

  lemma {:induction false} KnownIsSame(a: seq<byte>, b: seq<byte>, m: nat, cmd: byte, i: nat)
    requires Alike(a, b, m) && Known(a, m, cmd, i)
    ensures FindFrom(b, cmd, i) == FindFrom(a, cmd, i)
    ensures FindFrom(a, cmd, i).Some? ==> FindFrom(a, cmd, i).value < m
    decreases WINDOW - i
  {
    if i >= WINDOW || a[i] == OPT_END || a[i] == cmd || i + 2 >= WINDOW {
    } else {
      KnownIsSame(a, b, m, cmd, i + 2 + a[i + 1]);
    }
  }

  /** Where a walk that leaves the received bytes can be made to find something. */
  function Escape(opt: seq<byte>, m: nat, cmd: byte, i: nat): (p: nat)
    requires m <= WINDOW < |opt| && !Known(opt, m, cmd, i)
    ensures m <= p < WINDOW
    decreases WINDOW - i
  {
    if i >= m then i else if i + 1 == m then m + 1 else Escape(opt, m, cmd, i + 2 + opt[i + 1])
  }

  lemma {:induction false} EscapeFinds(a: seq<byte>, b: seq<byte>, m: nat, cmd: byte, i: nat, p: nat)
    requires Alike(a, b, m) && !Known(a, m, cmd, i) && p == Escape(a, m, cmd, i)
    requires b[p] == cmd != OPT_END && (p == m + 1 ==> b[m] == 0)
    ensures FindFrom(b, cmd, i) == Some(p)
    decreases WINDOW - i
  {
    if i + 1 < m {
      EscapeFinds(a, b, m, cmd, i + 2 + a[i + 1], p);
    } else if i + 1 == m {
      assert FindFrom(b, cmd, i) == FindFrom(b, cmd, p);
    }
  }

  /** END behind the received bytes stops it. */
  lemma {:induction false} EscapeEnds(a: seq<byte>, b: seq<byte>, m: nat, cmd: byte, i: nat)
    requires Alike(a, b, m) && !Known(a, m, cmd, i)
    requires forall k :: m <= k < AREA ==> b[k] == OPT_END
    ensures FindFrom(b, cmd, i).None?
    decreases WINDOW - i
  {
    if i + 1 >= m {
    } else {
      EscapeEnds(a, b, m, cmd, i + 2 + a[i + 1]);
    }
  }

  // ---------------------------------------------------------------------------
  // The condition
  // ---------------------------------------------------------------------------

  /** A stack that holds END everywhere. */
  function Ends(): (junk: Frame)
    ensures forall k :: 0 <= k < FRAME_SIZE ==> junk[k] == OPT_END
  {
    seq(FRAME_SIZE, _ => OPT_END)
  }

  /** The host name, if there is one, was received as far as it is kept. */
  predicate NameIsReceived(opt: seq<byte>, m: nat)
    requires |opt| == AREA && m <= WINDOW
  {
    Known(opt, m, 12, 0) &&
    match FindFrom(opt, 12, 0)
    case None => true
    case Some(h) => h + 2 <= m && h + 2 + Min(opt[h + 1], 31) <= m
  }

  predicate NamesASlot(last: byte) {
    16 <= last < 24
  }

  /** The requested address, if there is one, was received, and so was the name that is kept if it is granted. */
  predicate AddressIsReceived(opt: seq<byte>, m: nat)
    requires |opt| == AREA && m <= WINDOW
  {
    Known(opt, m, 50, 0) &&
    match FindFrom(opt, 50, 0)
    case None => true
    case Some(a) => a + 6 <= m && (NamesASlot(opt[a + 5]) ==> NameIsReceived(opt, m))
  }

  /** The message type, if there is one, was received, and so was what a REQUEST needs besides. */
  predicate TypeIsReceived(opt: seq<byte>, m: nat)
    requires |opt| == AREA && m <= WINDOW
  {
    Known(opt, m, 53, 0) &&
    match FindFrom(opt, 53, 0)
    case None => true
    case Some(o) => o + 2 < m && (opt[o + 2] == 3 ==> AddressIsReceived(opt, m))
  }

  /** The server's answer, the new lease table and the logged name are the same. */
  ghost predicate SameFor(
    ip: Ip4, nm: Ip4, tab: Table, packet: seq<byte>, junk: Frame, junk': Frame, clock: Clock)
  {
    && Respond(ip, nm, tab, packet, junk, clock) == Respond(ip, nm, tab, packet, junk', clock)
    && Logged(ip, tab, packet, junk, clock) == Logged(ip, tab, packet, junk', clock)
  }

  /** No server, lease table or clock lets uninitialised memory show. */
  ghost predicate JunkNeverShows(packet: seq<byte>) {
    forall ip, nm, tab, junk, junk', clock :: SameFor(ip, nm, tab, packet, junk, junk', clock)
  }

  // ---------------------------------------------------------------------------
  // What is received whole does not depend on the stack
  // ---------------------------------------------------------------------------

  lemma {:induction false} SameMac(packet: seq<byte>, junk: Frame, junk': Frame)
    requires |packet| >= MIN_SIZE
    ensures ClientMac(Received(packet, junk)) == ClientMac(Received(packet, junk'))
  {
    ReceivedPrefix(packet, junk, OPTIONS);
    ReceivedPrefix(packet, junk', OPTIONS);
    var f, f' := Received(packet, junk), Received(packet, junk');
    assert ClientMac(f) == f[..OPTIONS][CHADDR..CHADDR + 6];
    assert ClientMac(f') == f'[..OPTIONS][CHADDR..CHADDR + 6];
  }

  lemma {:induction false} SameSlice(a: seq<byte>, b: seq<byte>, m: nat, i: nat, j: nat)
    requires Alike(a, b, m) && i <= j <= m
    ensures a[i..j] == b[i..j]
  {
  }

  /** The same type, and the same address if it is a REQUEST, make the same event. */
  lemma {:induction false} SameClass(packet: seq<byte>, junk: Frame, junk': Frame, clock: Clock)
    requires |packet| >= MIN_SIZE && TypeIsReceived(Area(packet, junk), Got(packet))
    ensures Classify(Received(packet, junk), clock) == Classify(Received(packet, junk'), clock)
  {
    var a, b, m := Area(packet, junk), Area(packet, junk'), Got(packet);
    AreasAlike(packet, junk, junk');
    SameMac(packet, junk, junk');
    KnownIsSame(a, b, m, OPT_MSG_TYPE, 0);
    var o := FindFrom(a, OPT_MSG_TYPE, 0);
    if o.Some? && a[o.value + 2] == DHCPREQUEST {
      KnownIsSame(a, b, m, OPT_REQUESTED_IP, 0);
      var r := FindFrom(a, OPT_REQUESTED_IP, 0);
      if r.Some? {
        SameSlice(a, b, m, r.value + 2, r.value + 6);
      }
    }
  }

  lemma {:induction false} SameName(packet: seq<byte>, junk: Frame, junk': Frame)
    requires |packet| >= MIN_SIZE && NameIsReceived(Area(packet, junk), Got(packet))
    ensures HostName(Received(packet, junk)) == HostName(Received(packet, junk'))
  {
    var a, b, m := Area(packet, junk), Area(packet, junk'), Got(packet);
    AreasAlike(packet, junk, junk');
    KnownIsSame(a, b, m, OPT_HOST_NAME, 0);
    var h := FindFrom(a, OPT_HOST_NAME, 0);
    if h.Some? {
      var end := h.value + 2 + Min(a[h.value + 1], HOST_NAME_MAX);
      NameLies(packet, junk, a, h.value, end);
      NameLies(packet, junk', b, h.value, end);
      SameSlice(a, b, m, h.value + 2, end);
    }
  }

  /** Only a REQUEST for one of the server's addresses has its name logged. */
  lemma {:induction false} AckedNamesASlot(tab: Table, ip: Ip4, packet: seq<byte>, junk: Frame, clock: Clock)
    requires |packet| >= MIN_SIZE && TypeIsReceived(Area(packet, junk), Got(packet))
    requires Logged(ip, tab, packet, junk, clock).Some?
    ensures NameIsReceived(Area(packet, junk), Got(packet))
  {
    var opt := Area(packet, junk);
    var r := FindFrom(opt, OPT_REQUESTED_IP, 0);
    var addr: Ip4 := opt[r.value + 2..r.value + 6];
    assert Step(tab, ip, Request(ClientMac(Received(packet, junk)), addr, clock[0])).1.Acked?;
    SlotIsNamed(addr, ip);
    assert addr[3] == opt[r.value + 5];
  }

  lemma {:induction false} SlotIsNamed(addr: Ip4, ip: Ip4)
    requires SlotOf(addr, ip).Some?
    ensures NamesASlot(addr[3])
  {
  }

  lemma {:induction false} ReceivedIsSame(
      ip: Ip4, nm: Ip4, tab: Table, packet: seq<byte>, junk: Frame, junk': Frame, clock: Clock)
    requires |packet| >= MIN_SIZE
    requires TypeIsReceived(Area(packet, junk), Got(packet)) && TypeIsReceived(Area(packet, junk'), Got(packet))
    ensures SameFor(ip, nm, tab, packet, junk, junk', clock)
  {
    SameClass(packet, junk, junk', clock);
    SameReply(packet, junk, junk', ip, nm, Classify(Received(packet, junk), clock), tab);
    if Logged(ip, tab, packet, junk, clock).Some? {
      AckedNamesASlot(tab, ip, packet, junk, clock);
      SameName(packet, junk, junk');
    }
  }

  lemma {:induction false} ConditionIsSame(a: seq<byte>, b: seq<byte>, m: nat)
    requires Alike(a, b, m) && TypeIsReceived(a, m)
    ensures TypeIsReceived(b, m)
  {
    KnownStays(a, b, m, OPT_MSG_TYPE, 0);
    KnownIsSame(a, b, m, OPT_MSG_TYPE, 0);
    var o := FindFrom(a, OPT_MSG_TYPE, 0);
    if o.Some? && a[o.value + 2] == DHCPREQUEST {
      AddressConditionIsSame(a, b, m);
    }
  }

  lemma {:induction false} AddressConditionIsSame(a: seq<byte>, b: seq<byte>, m: nat)
    requires Alike(a, b, m) && AddressIsReceived(a, m)
    ensures AddressIsReceived(b, m)
  {
    KnownStays(a, b, m, OPT_REQUESTED_IP, 0);
    KnownIsSame(a, b, m, OPT_REQUESTED_IP, 0);
    if NameIsReceived(a, m) {
      NameConditionIsSame(a, b, m);
    }
  }

  lemma {:induction false} NameConditionIsSame(a: seq<byte>, b: seq<byte>, m: nat)
    requires Alike(a, b, m) && NameIsReceived(a, m)
    ensures NameIsReceived(b, m)
  {
    KnownStays(a, b, m, OPT_HOST_NAME, 0);
    KnownIsSame(a, b, m, OPT_HOST_NAME, 0);
  }

  lemma {:induction false} KnownStays(a: seq<byte>, b: seq<byte>, m: nat, cmd: byte, i: nat)
    requires Alike(a, b, m) && Known(a, m, cmd, i)
    ensures Known(b, m, cmd, i)
    decreases WINDOW - i
  {
    if i >= WINDOW || a[i] == OPT_END || a[i] == cmd || i + 2 >= WINDOW {
    } else {
      KnownStays(a, b, m, cmd, i + 2 + a[i + 1]);
    }
  }

  // ---------------------------------------------------------------------------
  // What is not received whole does
  // ---------------------------------------------------------------------------

  /** A stack with those bytes at offset p of the option area, and END but for a zero at offset m elsewhere. */
  function Crafted(m: nat, p: nat, data: seq<byte>): Frame
    requires m <= WINDOW && p + |data| <= AREA
  {
    Splice(Splice(Ends(), OPTIONS + m, [0]), OPTIONS + p, data)
  }

  lemma {:induction false} CraftedArea(packet: seq<byte>, p: nat, data: seq<byte>) returns (opt: seq<byte>)
    requires |packet| >= MIN_SIZE && Got(packet) <= p && p + |data| <= AREA
    ensures opt == Area(packet, Crafted(Got(packet), p, data)) && Alike(Area(packet, Ends()), opt, Got(packet))
    ensures opt[p..p + |data|] == data && (data != [] ==> opt[p] == data[0])
    ensures p == Got(packet) + 1 ==> opt[Got(packet)] == 0
  {
    var junk := Crafted(Got(packet), p, data);
    opt := Area(packet, junk);
    AreasAlike(packet, Ends(), junk);
    AreaBytes(packet, junk);
    var x := opt[p..p + |data|];
    assert forall j :: 0 <= j < |x| ==> x[j] == opt[p + j] == junk[OPTIONS + (p + j)] == data[j];
  }

  lemma {:induction false} EndsArea(packet: seq<byte>)
    requires |packet| >= MIN_SIZE
    ensures forall k :: Got(packet) <= k < AREA ==> Area(packet, Ends())[k] == OPT_END
  {
    AreaBytes(packet, Ends());
  }

  const START: Clock := [0, 0, 0, 0, 0, 0, 0, 0]

  /** An unclassified packet gets no reply; an offer or a grant from the empty table is one. */
  lemma {:induction false} EventShows(packet: seq<byte>, junk: Frame, junk': Frame, ip: Ip4)
    requires |packet| >= MIN_SIZE && Classify(Received(packet, junk), START).None?
    requires var ev := Classify(Received(packet, junk'), START);
             ev.Some? && (ev.value.Request? ==> SlotOf(ev.value.addr, ip).Some?)
    ensures !JunkNeverShows(packet)
  {
    var ev := Classify(Received(packet, junk'), START).value;
    FreshTableAnswers(ip, ev);
    assert !SameFor(ip, ip, EMPTY_TABLE, packet, junk, junk', START);
  }

  lemma {:induction false} FreshTableAnswers(ip: Ip4, ev: Event)
    requires ev.Request? ==> SlotOf(ev.addr, ip).Some?
    ensures !Step(EMPTY_TABLE, ip, ev).1.Silent?
    ensures ev.Request? ==> Step(EMPTY_TABLE, ip, ev).1.Acked?
  {
    if ev.Discover? {
      FirstUsableIsFirst(EMPTY_TABLE, ev.clock);
      assert Usable(EMPTY_TABLE[0], ev.clock[0]);
    }
  }

  /** The walk for the message type leaves the received bytes: the packet is a DISCOVER, or nothing. */
  lemma {:induction false} TypeWalkShows(packet: seq<byte>)
    requires |packet| >= MIN_SIZE && !Known(Area(packet, Ends()), Got(packet), OPT_MSG_TYPE, 0)
    ensures !JunkNeverShows(packet)
  {
    var a, m := Area(packet, Ends()), Got(packet);
    var p := Escape(a, m, OPT_MSG_TYPE, 0);
    var data := [OPT_MSG_TYPE, 1, DHCPDISCOVER];
    var b := CraftedArea(packet, p, data);
    assert b[p + 2] == b[p..p + 3][2];
    EscapeFinds(a, b, m, OPT_MSG_TYPE, 0, p);
    EndsArea(packet);
    EscapeEnds(a, a, m, OPT_MSG_TYPE, 0);
    EventShows(packet, Ends(), Crafted(m, p, data), ZERO_IP);
  }

  const ZERO_IP: Ip4 := [0, 0, 0, 0]

  /** The type itself was not received. */
  lemma {:induction false} TypeShows(packet: seq<byte>, o: nat)
    requires |packet| >= MIN_SIZE && Known(Area(packet, Ends()), Got(packet), OPT_MSG_TYPE, 0)
    requires FindFrom(Area(packet, Ends()), OPT_MSG_TYPE, 0) == Some(o) && Got(packet) <= o + 2
    ensures !JunkNeverShows(packet)
  {
    var a, m := Area(packet, Ends()), Got(packet);
    var b := CraftedArea(packet, o + 2, [DHCPDISCOVER]);
    EndsArea(packet);
    assert a[o + 2] == OPT_END;
    KnownIsSame(a, b, m, OPT_MSG_TYPE, 0);
    assert FindFrom(b, OPT_MSG_TYPE, 0) == Some(o) && b[o + 2] == DHCPDISCOVER;
    EventShows(packet, Ends(), Crafted(m, o + 2, [DHCPDISCOVER]), ZERO_IP);
  }

  /** The packet is a REQUEST whatever the stack holds. */
  ghost predicate IsRequest(packet: seq<byte>)
    requires |packet| >= MIN_SIZE
  {
    var a, m := Area(packet, Ends()), Got(packet);
    Known(a, m, OPT_MSG_TYPE, 0) &&
    match FindFrom(a, OPT_MSG_TYPE, 0)
    case None => false
    case Some(o) => o + 2 < m && a[o + 2] == DHCPREQUEST
  }

  /** Then the requested address decides. */
  lemma {:induction false} RequestClass(packet: seq<byte>, junk: Frame)
    requires |packet| >= MIN_SIZE && IsRequest(packet)
    ensures var opt := Area(packet, junk);
            Classify(Received(packet, junk), START) ==
            match FindFrom(opt, OPT_REQUESTED_IP, 0)
            case None => None
            case Some(r) => Some(Request(ClientMac(Received(packet, junk)), opt[r + 2..r + 6], 0))
  {
    AreasAlike(packet, Ends(), junk);
    KnownIsSame(Area(packet, Ends()), Area(packet, junk), Got(packet), OPT_MSG_TYPE, 0);
  }

  lemma {:induction false} RequestFor(packet: seq<byte>, junk: Frame, opt: seq<byte>, r: nat) returns (addr: Ip4)
    requires |packet| >= MIN_SIZE && IsRequest(packet)
    requires opt == Area(packet, junk) && FindFrom(opt, OPT_REQUESTED_IP, 0) == Some(r)
    ensures addr == opt[r + 2..r + 6]
    ensures Classify(Received(packet, junk), START) == Some(Request(ClientMac(Received(packet, junk)), addr, 0))
  {
    RequestClass(packet, junk);
    addr := opt[r + 2..r + 6];
  }

  lemma {:induction false} FirstAddress(addr: Ip4)
    requires addr == [0, 0, 0, BASE_IP]
    ensures SlotOf(addr, ZERO_IP) == Some(0)
  {
    assert addr[..3] == ZERO_IP[..3];
  }

  lemma {:induction false} NoAddressAtEnds(packet: seq<byte>)
    requires |packet| >= MIN_SIZE && IsRequest(packet)
    requires !Known(Area(packet, Ends()), Got(packet), OPT_REQUESTED_IP, 0)
    ensures Classify(Received(packet, Ends()), START).None?
  {
    EndsArea(packet);
    EscapeEnds(Area(packet, Ends()), Area(packet, Ends()), Got(packet), OPT_REQUESTED_IP, 0);
    RequestClass(packet, Ends());
  }

  lemma {:induction false} AddressAtEscape(packet: seq<byte>, p: nat, data: seq<byte>) returns (ev: Event)
    requires |packet| >= MIN_SIZE && IsRequest(packet)
    requires !Known(Area(packet, Ends()), Got(packet), OPT_REQUESTED_IP, 0)
    requires p == Escape(Area(packet, Ends()), Got(packet), OPT_REQUESTED_IP, 0)
    requires data == [OPT_REQUESTED_IP, 4, 0, 0, 0, BASE_IP]
    ensures Classify(Received(packet, Crafted(Got(packet), p, data)), START) == Some(ev)
    ensures ev.Request? && SlotOf(ev.addr, ZERO_IP) == Some(0)
  {
    var m := Got(packet);
    var b := CraftedArea(packet, p, data);
    EscapeFinds(Area(packet, Ends()), b, m, OPT_REQUESTED_IP, 0, p);
    var addr := RequestFor(packet, Crafted(m, p, data), b, p);
    SliceOfSlice(b, p, p + 6, 2, 6);
    assert addr == data[2..6];
    FirstAddress(addr);
    ev := Request(ClientMac(Received(packet, Crafted(m, p, data))), addr, 0);
  }

  lemma {:induction false} AddressWalkShows(packet: seq<byte>)
    requires |packet| >= MIN_SIZE && IsRequest(packet)
    requires !Known(Area(packet, Ends()), Got(packet), OPT_REQUESTED_IP, 0)
    ensures !JunkNeverShows(packet)
  {
    var p := Escape(Area(packet, Ends()), Got(packet), OPT_REQUESTED_IP, 0);
    var data := [OPT_REQUESTED_IP, 4, 0, 0, 0, BASE_IP];
    var ev := AddressAtEscape(packet, p, data);
    NoAddressAtEnds(packet);
    EventShows(packet, Ends(), Crafted(Got(packet), p, data), ZERO_IP);
  }

  /** The address was not received to its end: its last byte names a slot, or none. */
  lemma {:induction false} AddressShows(packet: seq<byte>, r: nat)
    requires |packet| >= MIN_SIZE && IsRequest(packet)
    requires Known(Area(packet, Ends()), Got(packet), OPT_REQUESTED_IP, 0)
    requires FindFrom(Area(packet, Ends()), OPT_REQUESTED_IP, 0) == Some(r) && Got(packet) < r + 6
    ensures !JunkNeverShows(packet)
  {
    KnownIsSame(Area(packet, Ends()), Area(packet, Ends()), Got(packet), OPT_REQUESTED_IP, 0);
    var x := AddressEndsWith(packet, r, r + 5, 0);
    var y := AddressEndsWith(packet, r, r + 5, BASE_IP);
    GrantShows(packet, Crafted(Got(packet), r + 5, [0]), Crafted(Got(packet), r + 5, [BASE_IP]), x, y);
  }

  lemma {:induction false} AddressEndsWith(packet: seq<byte>, r: nat, p: nat, last: byte) returns (addr: Ip4)
    requires |packet| >= MIN_SIZE && IsRequest(packet)
    requires Known(Area(packet, Ends()), Got(packet), OPT_REQUESTED_IP, 0)
    requires FindFrom(Area(packet, Ends()), OPT_REQUESTED_IP, 0) == Some(r)
    requires r < Got(packet) <= p == r + 5 < AREA
    ensures addr[3] == last
    ensures var frame := Received(packet, Crafted(Got(packet), p, [last]));
            Classify(frame, START) == Some(Request(ClientMac(frame), addr, 0))
  {
    var b := CraftedArea(packet, p, [last]);
    KnownIsSame(Area(packet, Ends()), b, Got(packet), OPT_REQUESTED_IP, 0);
    addr := RequestFor(packet, Crafted(Got(packet), p, [last]), b, r);
    assert addr[3] == b[r + 5];
  }

  lemma {:induction false} GrantShows(packet: seq<byte>, junk: Frame, junk': Frame, x: Ip4, y: Ip4)
    requires |packet| >= MIN_SIZE && x[3] == 0 && y[3] == BASE_IP
    requires Classify(Received(packet, junk), START) == Some(Request(ClientMac(Received(packet, junk)), x, 0))
    requires Classify(Received(packet, junk'), START) == Some(Request(ClientMac(Received(packet, junk')), y, 0))
    ensures !JunkNeverShows(packet)
  {
    FreshTableAnswers(y, Request(ClientMac(Received(packet, junk')), y, 0));
    assert SlotOf(x, y).None? && SlotOf(y, y) == Some(0);
    assert !SameFor(y, y, EMPTY_TABLE, packet, junk, junk', START);
  }

  /** The packet asks for an address that some server grants, whatever the stack holds. */
  ghost predicate IsGrantable(packet: seq<byte>)
    requires |packet| >= MIN_SIZE
  {
    var a, m := Area(packet, Ends()), Got(packet);
    IsRequest(packet) && Known(a, m, OPT_REQUESTED_IP, 0) &&
    match FindFrom(a, OPT_REQUESTED_IP, 0)
    case None => false
    case Some(r) => r + 6 <= m && NamesASlot(a[r + 5])
  }

  /** Then what is logged is the host name. */
  lemma {:induction false} NameShows(packet: seq<byte>, junk: Frame, junk': Frame)
    requires |packet| >= MIN_SIZE && IsGrantable(packet)
    requires HostName(Received(packet, junk)) != HostName(Received(packet, junk'))
    ensures !JunkNeverShows(packet)
  {
    var ip := GrantedEitherWay(packet, junk);
    var ip' := GrantedEitherWay(packet, junk');
    assert !SameFor(ip, ip, EMPTY_TABLE, packet, junk, junk', START);
  }

  lemma {:induction false} GrantedEitherWay(packet: seq<byte>, junk: Frame) returns (ip: Ip4)
    requires |packet| >= MIN_SIZE && IsGrantable(packet)
    ensures ip == AskedFor(packet)
    ensures Logged(ip, EMPTY_TABLE, packet, junk, START) == Some(HostName(Received(packet, junk)))
  {
    ip := AskedFor(packet);
    var r := AddressStays(packet, junk);
    var addr := RequestFor(packet, junk, Area(packet, junk), r);
    assert SlotOf(ip, ip).Some?;
    FreshTableAnswers(ip, Request(ClientMac(Received(packet, junk)), ip, 0));
  }

  lemma {:induction false} AddressStays(packet: seq<byte>, junk: Frame) returns (r: nat)
    requires |packet| >= MIN_SIZE && IsGrantable(packet)
    ensures FindFrom(Area(packet, junk), OPT_REQUESTED_IP, 0) == Some(r)
    ensures Area(packet, junk)[r + 2..r + 6] == AskedFor(packet) && NamesASlot(AskedFor(packet)[3])
  {
    var a, b, m := Area(packet, Ends()), Area(packet, junk), Got(packet);
    r := FindFrom(a, OPT_REQUESTED_IP, 0).value;
    AreasAlike(packet, Ends(), junk);
    KnownIsSame(a, b, m, OPT_REQUESTED_IP, 0);
    SameSlice(a, b, m, r + 2, r + 6);
    assert a[r + 2..r + 6][3] == a[r + 5];
  }

  /** A server in whose range the address lies: one that has it. */
  ghost function AskedFor(packet: seq<byte>): Ip4
    requires |packet| >= MIN_SIZE && IsGrantable(packet)
  {
    var a := Area(packet, Ends());
    var r := FindFrom(a, OPT_REQUESTED_IP, 0).value;
    a[r + 2..r + 6]
  }

  /** The walk for the host name leaves the received bytes: there is a name, or none. */
  lemma {:induction false} NameWalkShows(packet: seq<byte>)
    requires |packet| >= MIN_SIZE && IsGrantable(packet)
    requires !Known(Area(packet, Ends()), Got(packet), OPT_HOST_NAME, 0)
    ensures !JunkNeverShows(packet)
  {
    var a, m := Area(packet, Ends()), Got(packet);
    var p := Escape(a, m, OPT_HOST_NAME, 0);
    var data := [OPT_HOST_NAME, 1, 0];
    var b := CraftedArea(packet, p, data);
    assert b[p + 1] == b[p..p + 3][1] == 1;
    EscapeFinds(a, b, m, OPT_HOST_NAME, 0, p);
    EndsArea(packet);
    EscapeEnds(a, a, m, OPT_HOST_NAME, 0);
    NameLies(packet, Crafted(m, p, data), b, p, p + 3);
    assert |b[p + 2..p + 3]| == 1;
    NameShows(packet, Ends(), Crafted(m, p, data));
  }

  /** The length byte was not received. */
  lemma {:induction false} NameLengthShows(packet: seq<byte>, h: nat)
    requires |packet| >= MIN_SIZE && IsGrantable(packet)
    requires Known(Area(packet, Ends()), Got(packet), OPT_HOST_NAME, 0)
    requires FindFrom(Area(packet, Ends()), OPT_HOST_NAME, 0) == Some(h) && Got(packet) < h + 2
    ensures !JunkNeverShows(packet)
  {
    KnownIsSame(Area(packet, Ends()), Area(packet, Ends()), Got(packet), OPT_HOST_NAME, 0);
    NameHasLength(packet, h, h + 1, 0);
    NameHasLength(packet, h, h + 1, 1);
    NameShows(packet, Crafted(Got(packet), h + 1, [0]), Crafted(Got(packet), h + 1, [1]));
  }

  lemma {:induction false} NameHasLength(packet: seq<byte>, h: nat, p: nat, n: byte)
    requires |packet| >= MIN_SIZE && Known(Area(packet, Ends()), Got(packet), OPT_HOST_NAME, 0)
    requires FindFrom(Area(packet, Ends()), OPT_HOST_NAME, 0) == Some(h) && h < Got(packet) <= p == h + 1
    requires n <= HOST_NAME_MAX
    ensures |HostName(Received(packet, Crafted(Got(packet), p, [n])))| == n
  {
    var b := CraftedArea(packet, p, [n]);
    KnownIsSame(Area(packet, Ends()), b, Got(packet), OPT_HOST_NAME, 0);
    NameLies(packet, Crafted(Got(packet), p, [n]), b, h, h + 2 + n);
  }

  /** The last byte of the name that is kept was not received. */
  lemma {:induction false} NameByteShows(packet: seq<byte>, h: nat, q: nat)
    requires |packet| >= MIN_SIZE && IsGrantable(packet)
    requires Known(Area(packet, Ends()), Got(packet), OPT_HOST_NAME, 0)
    requires FindFrom(Area(packet, Ends()), OPT_HOST_NAME, 0) == Some(h) && h + 2 <= Got(packet) <= q
    requires q + 1 == h + 2 + Min(Area(packet, Ends())[h + 1], HOST_NAME_MAX)
    ensures !JunkNeverShows(packet)
  {
    NameEndsWith(packet, h, q, q + 1, 0);
    NameEndsWith(packet, h, q, q + 1, 1);
    NameShows(packet, Crafted(Got(packet), q, [0]), Crafted(Got(packet), q, [1]));
  }

  lemma {:induction false} NameEndsWith(packet: seq<byte>, h: nat, q: nat, end: nat, last: byte)
    requires |packet| >= MIN_SIZE && Known(Area(packet, Ends()), Got(packet), OPT_HOST_NAME, 0)
    requires FindFrom(Area(packet, Ends()), OPT_HOST_NAME, 0) == Some(h) && h + 2 <= Got(packet) <= q < AREA
    requires q + 1 == end == h + 2 + Min(Area(packet, Ends())[h + 1], HOST_NAME_MAX)
    ensures var name := HostName(Received(packet, Crafted(Got(packet), q, [last])));
            name != [] && name[|name| - 1] == last
  {
    var b := CraftedArea(packet, q, [last]);
    KnownIsSame(Area(packet, Ends()), b, Got(packet), OPT_HOST_NAME, 0);
    NameLies(packet, Crafted(Got(packet), q, [last]), b, h, end);
    assert b[h + 2..end][q - h - 2] == b[q];
  }

  lemma {:induction false} NameLies(packet: seq<byte>, junk: Frame, opt: seq<byte>, h: nat, end: nat)
    requires opt == Area(packet, junk) && FindFrom(opt, OPT_HOST_NAME, 0) == Some(h)
    requires end == h + 2 + Min(opt[h + 1], HOST_NAME_MAX)
    ensures HostName(Received(packet, junk)) == opt[h + 2..end]
  {
  }

  lemma {:induction false} MissingNameShows(packet: seq<byte>)
    requires |packet| >= MIN_SIZE && IsGrantable(packet) && !NameIsReceived(Area(packet, Ends()), Got(packet))
    ensures !JunkNeverShows(packet)
  {
    var a, m := Area(packet, Ends()), Got(packet);
    if !Known(a, m, OPT_HOST_NAME, 0) {
      NameWalkShows(packet);
    } else {
      var h := FindFrom(a, OPT_HOST_NAME, 0).value;
      if m < h + 2 {
        NameLengthShows(packet, h);
      } else {
        NameByteShows(packet, h, h + 1 + Min(a[h + 1], HOST_NAME_MAX));
      }
    }
  }

  lemma {:induction false} MissingAddressShows(packet: seq<byte>)
    requires |packet| >= MIN_SIZE && IsRequest(packet) && !AddressIsReceived(Area(packet, Ends()), Got(packet))
    ensures !JunkNeverShows(packet)
  {
    var a, m := Area(packet, Ends()), Got(packet);
    if !Known(a, m, OPT_REQUESTED_IP, 0) {
      AddressWalkShows(packet);
    } else {
      var r := FindFrom(a, OPT_REQUESTED_IP, 0).value;
      if m < r + 6 {
        AddressShows(packet, r);
      } else {
        MissingNameShows(packet);
      }
    }
  }

  lemma {:induction false} MissingTypeShows(packet: seq<byte>)
    requires |packet| >= MIN_SIZE && !TypeIsReceived(Area(packet, Ends()), Got(packet))
    ensures !JunkNeverShows(packet)
  {
    var a, m := Area(packet, Ends()), Got(packet);
    if !Known(a, m, OPT_MSG_TYPE, 0) {
      TypeWalkShows(packet);
    } else {
      var o := FindFrom(a, OPT_MSG_TYPE, 0).value;
      if m <= o + 2 {
        TypeShows(packet, o);
      } else {
        MissingAddressShows(packet);
      }
    }
  }

  /**
   * For every packet: the reply, the new lease table and the logged name are the same whatever the
   * stack held, for all servers, lease tables and clocks, if and only if the packet is too short to be
   * looked at, or the type was received, with a REQUEST's address, and the name if a server can grant it.
   */
  lemma {:induction false} JunkNeverShowsIff(packet: seq<byte>)
    ensures JunkNeverShows(packet) <==>
            |packet| < 243 || TypeIsReceived(Area(packet, Ends()), Got(packet))
  {
    if |packet| < MIN_SIZE {
    } else if TypeIsReceived(Area(packet, Ends()), Got(packet)) {
      forall ip, nm, tab, junk, junk', clock
        ensures SameFor(ip, nm, tab, packet, junk, junk', clock)
      {
        AreasAlike(packet, Ends(), junk);
        AreasAlike(packet, Ends(), junk');
        ConditionIsSame(Area(packet, Ends()), Area(packet, junk), Got(packet));
        ConditionIsSame(Area(packet, Ends()), Area(packet, junk'), Got(packet));
        ReceivedIsSame(ip, nm, tab, packet, junk, junk', clock);
      }
    } else {
      MissingTypeShows(packet);
    }
  }
}
