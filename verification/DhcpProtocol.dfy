/** The DHCP server as a state machine over its lease table, before any byte is laid out. */
module DhcpProtocol {
  import opened Bytes
  import opened DhcpLeases

  datatype Event =
    | Discover(mac: Mac, clock: Clock)
    | Request(mac: Mac, addr: Ip4, now: nat)

  datatype Outcome =
    | Silent
    | Offered(slot: nat)
    | Acked(slot: nat)

  function Step(tab: Table, ip: Ip4, ev: Event): (r: (Table, Outcome))
    ensures !r.1.Silent? ==> r.1.slot < MAX_IP
  {
    match ev
    case Discover(mac, clock) =>
      var slot := OfferedSlot(tab, mac, clock);
      (AfterDiscover(tab, mac, clock), if slot < MAX_IP then Offered(slot) else Silent)
    case Request(mac, addr, now) =>
      match SlotOf(addr, ip)
      case None => (tab, Silent)
      case Some(slot) =>
        (AfterRequest(tab, mac, slot, now), if Grants(tab, mac, slot) then Acked(slot) else Silent)
  }

  /** The DISCOVER scan in closed form, on every table and clock. */
  lemma {:induction false} DiscoverMeaning(tab: Table, ip: Ip4, mac: Mac, clock: Clock)
    ensures var (tab', out) := Step(tab, ip, Discover(mac, clock));
            // its own lowest slot, else the lowest usable one, else silence
            && (out.Silent? <==> forall j :: 0 <= j < MAX_IP ==> tab[j].mac != mac && !Usable(tab[j], clock[j]))
            && (out.Offered? ==> tab[out.slot].mac == mac || Usable(tab[out.slot], clock[out.slot]))
            && (out.Offered? ==> forall j :: 0 <= j < out.slot ==> tab[j].mac != mac)
            && (out.Offered? && tab[out.slot].mac != mac ==>
                  forall j :: 0 <= j < MAX_IP ==> tab[j].mac != mac && (j < out.slot ==> !Usable(tab[j], clock[j])))
            && !out.Acked?
            // expiries stay; at most one MAC goes, to zero, from the lowest usable slot, and expired
            && (forall j :: 0 <= j < MAX_IP ==> tab'[j].expiry == tab[j].expiry)
            && (forall j :: 0 <= j < MAX_IP && tab'[j].mac != tab[j].mac ==>
                  && tab'[j].mac == ZERO_MAC
                  && Expired(tab[j].expiry, Ticks(clock[j]))
                  && (forall i :: 0 <= i < j ==> !Usable(tab[i], clock[i]) && tab'[i] == tab[i])
                  && (forall i :: 0 <= i <= j ==> tab[i].mac != mac))
            // and conversely the lowest usable slot ahead of the first match ends free
            && (forall j :: && 0 <= j < MAX_IP
                            && Usable(tab[j], clock[j])
                            && (forall i :: 0 <= i < j ==> !Usable(tab[i], clock[i]))
                            && (forall i :: 0 <= i <= j ==> tab[i].mac != mac)
                  ==> tab'[j].mac == ZERO_MAC)
  {
    FirstMatchIsFirst(tab, mac);
    FirstUsableIsFirst(tab, clock);
  }

  /** A REQUEST touches no slot but the one it names, and only when it is granted. */
  lemma {:induction false} RequestMeaning(tab: Table, ip: Ip4, mac: Mac, addr: Ip4, now: nat)
    ensures var (tab', out) := Step(tab, ip, Request(mac, addr, now));
            && !out.Offered?
            && (out.Silent? ==> tab' == tab)
            && (out.Acked? ==> && addr == AddressOf(out.slot, ip)
                               && (tab[out.slot].mac == mac || tab[out.slot].mac == ZERO_MAC)
                               && tab' == tab[out.slot := Lease(mac, Stamp(Ticks(now)))])
            && (out.Silent? <==> forall y :: 0 <= y < MAX_IP && addr == AddressOf(y, ip) ==>
                                   tab[y].mac != mac && tab[y].mac != ZERO_MAC)
  {
    forall y | 0 <= y < MAX_IP
      ensures SlotOf(addr, ip) == Some(y) <==> addr == AddressOf(y, ip)
    {
      SlotNamesAddress(addr, ip, y);
    }
  }

  /** A held slot only ever changes hands through zero, in a DISCOVER that judged it expired. */
  lemma {:induction false} HolderChangesThroughZero(tab: Table, ip: Ip4, ev: Event, y: nat)
    requires y < MAX_IP
    ensures var tab' := Step(tab, ip, ev).0;
            tab[y].mac != ZERO_MAC && tab'[y].mac != tab[y].mac ==>
              && ev.Discover?
              && tab'[y].mac == ZERO_MAC
              && Expired(tab[y].expiry, Ticks(ev.clock[y]))
              && tab'[y].expiry == tab[y].expiry
  {
    if ev.Discover? {
      FirstUsableIsFirst(tab, ev.clock);
    }
  }
}
