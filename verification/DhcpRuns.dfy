/** Whole runs of DISCOVER and REQUEST messages from any clients, interleaved in any way. */
module DhcpRuns {
  import opened Bytes
  import opened DhcpLeases
  import opened DhcpProtocol
  import opened DhcpServer

  /** The messages, the lease table before and after each, and what each came to. */
  datatype Run = Run(events: seq<Event>, tables: seq<Table>, outcomes: seq<Outcome>)

  ghost predicate StepAt(ip: Ip4, r: Run, i: nat) {
    && i < |r.events| == |r.outcomes| && |r.tables| == |r.events| + 1
    && (r.tables[i + 1], r.outcomes[i]) == Step(r.tables[i], ip, r.events[i])
  }

  /** A run of the server, which starts from the empty table. */
  ghost predicate IsRun(ip: Ip4, r: Run) {
    && |r.tables| == |r.events| + 1 && |r.outcomes| == |r.events|
    && r.tables[0] == EMPTY_TABLE
    && forall i :: 0 <= i < |r.events| ==> StepAt(ip, r, i)
  }

  /** The run of a sequence of messages. */
  function RunOf(ip: Ip4, evs: seq<Event>): (r: Run)
    ensures r.events == evs && |r.tables| == |evs| + 1 && |r.outcomes| == |evs|
    decreases |evs|
  {
    if evs == [] then Run([], [EMPTY_TABLE], [])
    else
      var n := |evs| - 1;
      var r := RunOf(ip, evs[..n]);
      var (tab, out) := Step(r.tables[n], ip, evs[n]);
      Run(evs, r.tables + [tab], r.outcomes + [out])
  }

  /** A run with one more message. */
  lemma {:induction false} Extended(ip: Ip4, r: Run, ev: Event) returns (r': Run)
    requires IsRun(ip, r)
    ensures var (tab, out) := Step(r.tables[|r.events|], ip, ev);
            r' == Run(r.events + [ev], r.tables + [tab], r.outcomes + [out])
    ensures IsRun(ip, r')
  {
    var n := |r.events|;
    var (tab, out) := Step(r.tables[n], ip, ev);
    r' := Run(r.events + [ev], r.tables + [tab], r.outcomes + [out]);
    forall i | 0 <= i <= n
      ensures StepAt(ip, r', i)
    {
      if i < n {
        assert StepAt(ip, r, i);
      }
    }
  }

  /** Every sequence of messages has a run. */
  lemma {:induction false} RunOfIsRun(ip: Ip4, evs: seq<Event>)
    ensures IsRun(ip, RunOf(ip, evs))
    decreases |evs|
  {
    if evs == [] {
    } else {
      var n := |evs| - 1;
      RunOfIsRun(ip, evs[..n]);
      var r := Extended(ip, RunOf(ip, evs[..n]), evs[n]);
      RunOfSnoc(ip, evs[..n], evs[n]);
      assert evs[..n] + [evs[n]] == evs;
    }
  }

  lemma {:induction false} RunOfSnoc(ip: Ip4, evs: seq<Event>, ev: Event)
    ensures var r := RunOf(ip, evs);
            var (tab, out) := Step(r.tables[|evs|], ip, ev);
            RunOf(ip, evs + [ev]) == Run(evs + [ev], r.tables + [tab], r.outcomes + [out])
  {
    assert (evs + [ev])[..|evs|] == evs;
  }

  // ---------------------------------------------------------------------------
  // Real time
  // ---------------------------------------------------------------------------

  function Start(ev: Event): nat {
    if ev.Discover? then ev.clock[0] else ev.now
  }

  function End(ev: Event): nat {
    if ev.Discover? then ev.clock[MAX_IP - 1] else ev.now
  }

  /** Clock readings never go back, within a message or from one message to the next. */
  ghost predicate Timely(evs: seq<Event>) {
    && (forall i, y, z :: 0 <= i < |evs| && evs[i].Discover? && 0 <= y <= z < MAX_IP ==>
                            evs[i].clock[y] <= evs[i].clock[z])
    && (forall i, j :: 0 <= i < j < |evs| ==> End(evs[i]) <= Start(evs[j]))
  }

  /** Message i grants the slot to the MAC. */
  ghost predicate GrantedAt(r: Run, i: nat, mac: Mac, slot: nat) {
    i < |r.events| && i < |r.outcomes|
    && r.events[i].Request? && r.events[i].mac == mac && r.outcomes[i] == Acked(slot)
  }

  // ---------------------------------------------------------------------------
  // Exclusive leases
  // ---------------------------------------------------------------------------

  lemma {:induction false} GrantStamps(tab: Table, ip: Ip4, ev: Event, y: nat)
    requires ev.Request? && Step(tab, ip, ev).1 == Acked(y)
    ensures y < MAX_IP && Step(tab, ip, ev).0[y] == Lease(ev.mac, Stamp(Ticks(ev.now)))
  {
  }

  /** One message before the deadline leaves a running lease alone, or renews it for its holder. */
  lemma {:induction false} HeldOneStep(tab: Table, ip: Ip4, ev: Event, y: nat, mac: Mac, t: nat, deadline: nat)
    returns (t': nat)
    requires y < MAX_IP && mac != ZERO_MAC
    requires tab[y] == Lease(mac, Stamp(Ticks(t)))
    requires deadline <= Deadline(t)
    requires ev.Discover? ==> t <= ev.clock[y] <= deadline
    requires ev.Request? ==> t <= ev.now
    ensures t <= t' && (t' == t || (ev.Request? && t' == ev.now)) && deadline <= Deadline(t')
    ensures Step(tab, ip, ev).0[y] == Lease(mac, Stamp(Ticks(t')))
  {
    t' := t;
    match ev
    case Discover(_, clock) =>
      LeaseRunsOneDay(t, clock[y] - t);
      FirstUsableIsFirst(tab, clock);
      assert !Usable(tab[y], clock[y]);
    case Request(m, addr, now) =>
      if SlotOf(addr, ip) == Some(y) && Grants(tab, m, y) {
        t' := now;
        DeadlineIsMonotone(t, now);
      }
  }

  /** From its grant until its deadline a lease stays with its holder. */
  lemma {:induction false} HeldUntil(ip: Ip4, r: Run, i: nat, k: nat, mac: Mac, y: nat, deadline: nat)
    returns (t: nat)
    requires IsRun(ip, r) && Timely(r.events) && mac != ZERO_MAC && y < MAX_IP
    requires GrantedAt(r, i, mac, y) && deadline <= Deadline(r.events[i].now)
    requires i < k <= |r.events|
    requires forall j :: i < j < k ==> End(r.events[j]) <= deadline
    ensures r.events[i].now <= t <= End(r.events[k - 1]) && deadline <= Deadline(t)
    ensures r.tables[k][y] == Lease(mac, Stamp(Ticks(t)))
    decreases k
  {
    if k == i + 1 {
      assert StepAt(ip, r, i);
      t := r.events[i].now;
      GrantStamps(r.tables[i], ip, r.events[i], y);
    } else {
      var t0 := HeldUntil(ip, r, i, k - 1, mac, y, deadline);
      assert End(r.events[k - 2]) <= Start(r.events[k - 1]);
      t := HeldOneMore(ip, r, k - 1, y, mac, t0, deadline);
    }
  }

  lemma {:induction false} HeldOneMore(ip: Ip4, r: Run, k: nat, y: nat, mac: Mac, t: nat, deadline: nat)
    returns (t': nat)
    requires IsRun(ip, r) && Timely(r.events) && k < |r.events| && y < MAX_IP && mac != ZERO_MAC
    requires r.tables[k][y] == Lease(mac, Stamp(Ticks(t))) && t <= Start(r.events[k])
    requires End(r.events[k]) <= deadline <= Deadline(t)
    ensures t <= t' <= End(r.events[k]) && deadline <= Deadline(t')
    ensures r.tables[k + 1][y] == Lease(mac, Stamp(Ticks(t')))
  {
    var ev := r.events[k];
    assert StepAt(ip, r, k);
    assert ev.Discover? ==> Start(ev) <= ev.clock[y] <= End(ev);
    t' := HeldOneStep(r.tables[k], ip, ev, y, mac, t, deadline);
  }

  /**
   * Leases are exclusive: once a nonzero MAC is acknowledged an address at time T, no other MAC is
   * acknowledged it up to T + 24 h, nor during the slack that the 16-bit expiry adds, however the
   * 32-bit clock wraps and whatever anyone sends in between.
   */
  lemma {:induction false} LeasesAreExclusive(ip: Ip4, r: Run, i: nat, j: nat, mac: Mac, mac': Mac, y: nat)
    requires IsRun(ip, r) && Timely(r.events) && i < j
    requires mac != ZERO_MAC && GrantedAt(r, i, mac, y)
    requires GrantedAt(r, j, mac', y)
    requires r.events[j].now <= r.events[i].now + 86_400_000 + Slack(r.events[i].now)
    ensures mac' == mac
  {
    var deadline := Deadline(r.events[i].now);
    forall k | i < k < j
      ensures End(r.events[k]) <= deadline
    {
      assert End(r.events[k]) <= Start(r.events[j]);
    }
    assert StepAt(ip, r, i) && StepAt(ip, r, j);
    GrantStamps(r.tables[i], ip, r.events[i], y);
    var t := HeldUntil(ip, r, i, j, mac, y, deadline);
    RequestMeaning(r.tables[j], ip, mac', r.events[j].addr, r.events[j].now);
  }

  /** The bound is sharp: from one millisecond past it, for 2^31 of them, the address can go to somebody else. */
  lemma {:induction false} ExclusivityIsSharp(ip: Ip4, t: nat, late: nat, mac: Mac, mac': Mac) returns (r: Run)
    requires mac != ZERO_MAC && mac' != mac
    requires 1 <= late - (t + 86_400_000 + Slack(t)) <= 0x8000_0000
    ensures IsRun(ip, r) && Timely(r.events) && |r.events| == 3
    ensures GrantedAt(r, 0, mac, 0) && GrantedAt(r, 2, mac', 0)
    ensures r.events[0].now == t && r.events[2].now == late
  {
    var clock: Clock := [late, late, late, late, late, late, late, late];
    var addr := AddressOf(0, ip);
    var e1, e2, e3 := Request(mac, addr, t), Discover(mac', clock), Request(mac', addr, late);
    FirstSlotIsGranted(EMPTY_TABLE, ip, mac, t);
    ExpiredSlotIsCleared(Step(EMPTY_TABLE, ip, e1).0, ip, e2, t);
    FirstSlotIsGranted(Step(Step(EMPTY_TABLE, ip, e1).0, ip, e2).0, ip, mac', late);
    r := ThreeSteps(ip, e1, e2, e3);
  }

  lemma {:induction false} ThreeSteps(ip: Ip4, e1: Event, e2: Event, e3: Event) returns (r: Run)
    ensures IsRun(ip, r) && r.events == [e1, e2, e3]
    ensures var (t1, o1) := Step(EMPTY_TABLE, ip, e1);
            var (t2, o2) := Step(t1, ip, e2);
            r.outcomes == [o1, o2, Step(t2, ip, e3).1]
  {
    var one := Extended(ip, Run([], [EMPTY_TABLE], []), e1);
    assert one.events == [e1] && one.outcomes == [Step(EMPTY_TABLE, ip, e1).1];
    var two := Extended(ip, one, e2);
    assert two.events == [e1, e2] && two.outcomes == one.outcomes + [Step(one.tables[1], ip, e2).1];
    r := Extended(ip, two, e3);
  }

  lemma {:induction false} FirstSlotIsGranted(tab: Table, ip: Ip4, mac: Mac, now: nat)
    requires tab[0].mac == ZERO_MAC
    ensures Step(tab, ip, Request(mac, AddressOf(0, ip), now)) ==
            (tab[0 := Lease(mac, Stamp(Ticks(now)))], Acked(0))
  {
    SlotNamesAddress(AddressOf(0, ip), ip, 0);
  }

  lemma {:induction false} ExpiredSlotIsCleared(tab: Table, ip: Ip4, ev: Event, t: nat)
    requires ev.Discover? && ev.mac != tab[0].mac && tab[0].expiry == Stamp(Ticks(t))
    requires 1 <= ev.clock[0] - Deadline(t) <= 0x8000_0000
    ensures Step(tab, ip, ev).0 == tab[0 := tab[0].(mac := ZERO_MAC)]
  {
    ExpiryIsExact(t, ev.clock[0] - t);
    assert Usable(tab[0], ev.clock[0]);
    assert FirstUsable(tab, ev.clock) == 0 < FirstMatch(tab, ev.mac);
  }

  // ---------------------------------------------------------------------------
  // Clients that ask for what they were offered
  // ---------------------------------------------------------------------------

  /** The slot of the latest OFFER the MAC got among the first k messages. */
  function LatestOffer(r: Run, k: nat, mac: Mac): Option<nat>
    requires k <= |r.events| == |r.outcomes|
    decreases k
  {
    if k == 0 then None
    else if r.events[k - 1].Discover? && r.events[k - 1].mac == mac && r.outcomes[k - 1].Offered? then
      Some(r.outcomes[k - 1].slot)
    else LatestOffer(r, k - 1, mac)
  }

  /** Every client with a nonzero MAC requests, of the server's addresses, only the one it was last offered. */
  ghost predicate Compliant(ip: Ip4, r: Run)
    requires |r.events| == |r.outcomes|
  {
    forall i :: && 0 <= i < |r.events| && r.events[i].Request?
                && r.events[i].mac != ZERO_MAC && SlotOf(r.events[i].addr, ip).Some?
      ==> LatestOffer(r, i, r.events[i].mac) == SlotOf(r.events[i].addr, ip)
  }

  /** A DISCOVER gives no slot a new holder, and offers its sender the first slot it holds. */
  lemma {:induction false} OwnSlotIsOffered(tab: Table, ip: Ip4, ev: Event, y: nat)
    requires ev.Discover? && y < MAX_IP
    ensures var (tab', out) := Step(tab, ip, ev);
            var own := FirstMatch(tab, ev.mac);
            && (tab'[y].mac != ZERO_MAC ==> tab'[y].mac == tab[y].mac)
            && (if own < MAX_IP then out == Offered(own) && tab[own].mac == ev.mac else tab[y].mac != ev.mac)
  {
    FirstMatchIsFirst(tab, ev.mac);
  }

  lemma {:induction false} RequestTakesItsSlot(tab: Table, ip: Ip4, ev: Event, y: nat)
    requires ev.Request? && y < MAX_IP
    ensures var tab' := Step(tab, ip, ev).0;
            tab'[y].mac == tab[y].mac || (tab'[y].mac == ev.mac && SlotOf(ev.addr, ip) == Some(y))
  {
  }

  /** In a compliant run every slot a MAC holds is the one it was last offered. */
  lemma {:induction false} HeldIsLatestOffer(ip: Ip4, r: Run, k: nat, y: nat)
    requires IsRun(ip, r) && Compliant(ip, r) && k <= |r.events| && y < MAX_IP
    ensures var mac := r.tables[k][y].mac;
            mac != ZERO_MAC ==> LatestOffer(r, k, mac) == Some(y)
    decreases k
  {
    if k == 0 {
    } else {
      assert StepAt(ip, r, k - 1);
      var tab, ev := r.tables[k - 1], r.events[k - 1];
      HeldIsLatestOffer(ip, r, k - 1, y);
      if ev.Discover? {
        OwnSlotIsOffered(tab, ip, ev, y);
        var own := FirstMatch(tab, ev.mac);
        if own < MAX_IP {
          HeldIsLatestOffer(ip, r, k - 1, own);
        }
      } else {
        RequestTakesItsSlot(tab, ip, ev, y);
      }
    }
  }

  ghost predicate DistinctHolders(tab: Table) {
    forall y, z :: 0 <= y < z < MAX_IP && tab[y].mac != ZERO_MAC ==> tab[y].mac != tab[z].mac
  }

  /** A client that already holds a slot asks for a free one. */
  ghost predicate TakesSecond(tab: Table, ip: Ip4, ev: Event) {
    && ev.Request? && ev.mac != ZERO_MAC
    && SlotOf(ev.addr, ip).Some? && tab[SlotOf(ev.addr, ip).value].mac == ZERO_MAC
    && exists z :: 0 <= z < MAX_IP && tab[z].mac == ev.mac
  }

  /** Exactly that makes one MAC hold two slots. */
  lemma {:induction false} DistinctIffNoSecond(tab: Table, ip: Ip4, ev: Event)
    requires DistinctHolders(tab)
    ensures DistinctHolders(Step(tab, ip, ev).0) <==> !TakesSecond(tab, ip, ev)
  {
    var tab' := Step(tab, ip, ev).0;
    if TakesSecond(tab, ip, ev) {
      var y := SlotOf(ev.addr, ip).value;
      var z :| 0 <= z < MAX_IP && tab[z].mac == ev.mac;
      assert tab'[y].mac == tab'[z].mac == ev.mac && y != z;
    } else {
      forall y | 0 <= y < MAX_IP
        ensures tab'[y].mac == tab[y].mac || tab'[y].mac == ZERO_MAC || TakesFree(tab, ip, ev, y)
      {
      }
    }
  }

  /** A grant of a free slot to a client that holds none. */
  ghost predicate TakesFree(tab: Table, ip: Ip4, ev: Event, y: nat) {
    && y < MAX_IP && ev.Request? && SlotOf(ev.addr, ip) == Some(y)
    && forall z :: 0 <= z < MAX_IP ==> tab[z].mac != ev.mac
  }

  ghost predicate NobodyTakesSecond(ip: Ip4, r: Run)
    requires |r.events| < |r.tables|
  {
    forall i :: 0 <= i < |r.events| ==> !TakesSecond(r.tables[i], ip, r.events[i])
  }

  /** Over a whole run no MAC ever holds two slots if and only if no message asks for a second one. */
  lemma {:induction false} DistinctRunIffNoSecond(ip: Ip4, r: Run)
    requires IsRun(ip, r)
    ensures (forall k :: 0 <= k <= |r.events| ==> DistinctHolders(r.tables[k]))
            <==> NobodyTakesSecond(ip, r)
  {
    if NobodyTakesSecond(ip, r) {
      forall k | 0 <= k <= |r.events|
        ensures DistinctHolders(r.tables[k])
      {
        DistinctSoFar(ip, r, k);
      }
    } else {
      var i :| 0 <= i < |r.events| && TakesSecond(r.tables[i], ip, r.events[i]);
      assert StepAt(ip, r, i);
      if DistinctHolders(r.tables[i]) {
        DistinctIffNoSecond(r.tables[i], ip, r.events[i]);
        assert !DistinctHolders(r.tables[i + 1]);
      }
    }
  }

  lemma {:induction false} DistinctSoFar(ip: Ip4, r: Run, k: nat)
    requires IsRun(ip, r) && k <= |r.events|
    requires forall i :: 0 <= i < k ==> !TakesSecond(r.tables[i], ip, r.events[i])
    ensures DistinctHolders(r.tables[k])
    decreases k
  {
    if k == 0 {
    } else {
      assert StepAt(ip, r, k - 1);
      DistinctSoFar(ip, r, k - 1);
      DistinctIffNoSecond(r.tables[k - 1], ip, r.events[k - 1]);
    }
  }

  /** A compliant client never asks for a second slot. */
  lemma {:induction false} CompliantTakesOne(ip: Ip4, r: Run)
    requires IsRun(ip, r) && Compliant(ip, r)
    ensures NobodyTakesSecond(ip, r)
  {
    forall i | 0 <= i < |r.events|
      ensures !TakesSecond(r.tables[i], ip, r.events[i])
    {
      var tab, ev := r.tables[i], r.events[i];
      if TakesSecond(tab, ip, ev) {
        var z :| 0 <= z < MAX_IP && tab[z].mac == ev.mac;
        HeldIsLatestOffer(ip, r, i, z);
      }
    }
  }

  /** So in a compliant run no MAC ever holds two slots. */
  lemma {:induction false} NoMacHoldsTwoSlots(ip: Ip4, r: Run, k: nat, y: nat, z: nat)
    requires IsRun(ip, r) && Compliant(ip, r) && k <= |r.events| && y < MAX_IP && z < MAX_IP
    requires r.tables[k][y].mac == r.tables[k][z].mac != ZERO_MAC
    ensures y == z
  {
    CompliantTakesOne(ip, r);
    DistinctRunIffNoSecond(ip, r);
    assert DistinctHolders(r.tables[k]);
  }

  /** Without compliance it fails: two requests give one MAC two slots. */
  lemma {:induction false} TwoSlotsWithoutCompliance(ip: Ip4, mac: Mac) returns (r: Run)
    requires mac != ZERO_MAC
    ensures IsRun(ip, r) && !Compliant(ip, r) && |r.events| == 2
    ensures r.tables[2][0].mac == r.tables[2][1].mac == mac
  {
    SlotNamesAddress(AddressOf(0, ip), ip, 0);
    SlotNamesAddress(AddressOf(1, ip), ip, 1);
    r := Extended(ip, Run([], [EMPTY_TABLE], []), Request(mac, AddressOf(0, ip), 0));
    r := Extended(ip, r, Request(mac, AddressOf(1, ip), 0));
    assert LatestOffer(r, 0, r.events[0].mac) == None;
  }

  function MacsOf(evs: seq<Event>): set<Mac> {
    set ev | ev in evs :: ev.mac
  }

  /** Whoever holds a slot has sent a message. */
  lemma {:induction false} HolderSpoke(ip: Ip4, r: Run, k: nat, y: nat)
    requires IsRun(ip, r) && k <= |r.events| && y < MAX_IP && r.tables[k][y].mac != ZERO_MAC
    ensures r.tables[k][y].mac in MacsOf(r.events)
    decreases k
  {
    if k == 0 {
    } else {
      assert StepAt(ip, r, k - 1);
      var tab, ev := r.tables[k - 1], r.events[k - 1];
      assert ev in r.events;
      if ev.Discover? {
        OwnSlotIsOffered(tab, ip, ev, y);
      } else {
        RequestTakesItsSlot(tab, ip, ev, y);
      }
      if r.tables[k][y].mac == tab[y].mac {
        HolderSpoke(ip, r, k - 1, y);
      }
    }
  }

  function Elements<T>(s: seq<T>): set<T> {
    set x | x in s
  }

  lemma {:induction false} DistinctCount<T>(s: seq<T>)
    requires forall i, j :: 0 <= i < j < |s| ==> s[i] != s[j]
    ensures |Elements(s)| == |s|
  {
    if s == [] {
    } else {
      DistinctCount(s[1..]);
      assert Elements(s) == {s[0]} + Elements(s[1..]);
    }
  }

  lemma {:induction false} SubsetCount<T>(a: set<T>, b: set<T>)
    requires a <= b
    ensures |a| <= |b|
  {
    assert b == a + (b - a);
  }

  /** Eight slots with distinct holders and one more client make nine. */
  lemma {:induction false} FullTableNeedsNine(tab: Table, mac: Mac, macs: set<Mac>)
    requires forall y, z :: 0 <= y < z < MAX_IP ==> tab[y].mac != tab[z].mac
    requires forall y :: 0 <= y < MAX_IP ==> tab[y].mac != mac && tab[y].mac in macs
    requires mac in macs
    ensures |macs| > MAX_IP
  {
    var all: seq<Mac> := seq(MAX_IP, y requires 0 <= y < MAX_IP => tab[y].mac) + [mac];
    DistinctCount(all);
    SubsetCount(Elements(all), macs);
  }

  lemma {:induction false} SilentMeansTaken(tab: Table, ip: Ip4, ev: Event)
    requires ev.Discover? && Step(tab, ip, ev).1.Silent?
    ensures forall y :: 0 <= y < MAX_IP ==> tab[y].mac != ev.mac && tab[y].mac != ZERO_MAC
  {
    FirstMatchIsFirst(tab, ev.mac);
    FirstUsableIsFirst(tab, ev.clock);
  }

  /** With at most eight clients, none of which asks for a second slot, no DISCOVER goes unanswered. */
  lemma {:induction false} EightClientsAreServed(ip: Ip4, r: Run, i: nat)
    requires IsRun(ip, r) && NobodyTakesSecond(ip, r) && |MacsOf(r.events)| <= 8
    requires i < |r.events| && r.events[i].Discover?
    ensures r.outcomes[i].Offered?
  {
    assert StepAt(ip, r, i);
    var tab, ev := r.tables[i], r.events[i];
    if r.outcomes[i].Silent? {
      SilentMeansTaken(tab, ip, ev);
      DistinctSoFar(ip, r, i);
      forall y | 0 <= y < MAX_IP
        ensures tab[y].mac in MacsOf(r.events)
      {
        HolderSpoke(ip, r, i, y);
      }
      assert ev in r.events;
      FullTableNeedsNine(tab, ev.mac, MacsOf(r.events));
    }
  }

  /** In particular if they only request what they were last offered. */
  lemma {:induction false} EightCompliantClientsAreServed(ip: Ip4, r: Run, i: nat)
    requires IsRun(ip, r) && Compliant(ip, r) && |MacsOf(r.events)| <= 8
    requires i < |r.events| && r.events[i].Discover?
    ensures r.outcomes[i].Offered?
  {
    CompliantTakesOne(ip, r);
    EightClientsAreServed(ip, r, i);
  }

  // ---------------------------------------------------------------------------
  // Offers stay good
  // ---------------------------------------------------------------------------

  ghost predicate Reserved(tab: Table, y: nat, mac: Mac) {
    y < MAX_IP && (tab[y].mac == ZERO_MAC || tab[y].mac == mac)
  }

  lemma {:induction false} SlotIsReserved(tab: Table, ip: Ip4, ev: Event, y: nat)
    requires ev.Discover? && Step(tab, ip, ev).1 == Offered(y)
    ensures Reserved(Step(tab, ip, ev).0, y, ev.mac)
  {
    FirstMatchIsFirst(tab, ev.mac);
    FirstUsableIsFirst(tab, ev.clock);
  }

  lemma {:induction false} SlotStaysReserved(tab: Table, ip: Ip4, ev: Event, y: nat, mac: Mac)
    requires Reserved(tab, y, mac)
    requires ev.Request? && SlotOf(ev.addr, ip) == Some(y) ==> ev.mac == mac
    ensures Reserved(Step(tab, ip, ev).0, y, mac)
  {
  }

  /** Between two messages nobody but that client is granted, or so much as asks for, the slot. */
  ghost predicate OnlyAsks(ip: Ip4, r: Run, i: nat, k: nat, y: nat, mac: Mac)
    requires k <= |r.events|
  {
    forall j :: i < j < k && r.events[j].Request? && SlotOf(r.events[j].addr, ip) == Some(y) ==> r.events[j].mac == mac
  }

  lemma {:induction false} OfferReserves(ip: Ip4, r: Run, i: nat, y: nat)
    requires IsRun(ip, r) && i < |r.events| && r.events[i].Discover? && r.outcomes[i] == Offered(y)
    ensures Reserved(r.tables[i + 1], y, r.events[i].mac)
  {
    assert StepAt(ip, r, i);
    SlotIsReserved(r.tables[i], ip, r.events[i], y);
  }

  lemma {:induction false} ReservedOneMore(ip: Ip4, r: Run, i: nat, y: nat, mac: Mac)
    requires IsRun(ip, r) && i < |r.events| && Reserved(r.tables[i], y, mac)
    requires r.events[i].Request? && SlotOf(r.events[i].addr, ip) == Some(y) ==> r.events[i].mac == mac
    ensures Reserved(r.tables[i + 1], y, mac)
  {
    assert StepAt(ip, r, i);
    SlotStaysReserved(r.tables[i], ip, r.events[i], y, mac);
  }

  lemma {:induction false} OfferedSlotStays(ip: Ip4, r: Run, i: nat, k: nat, y: nat)
    requires IsRun(ip, r) && i < k <= |r.events| && r.events[i].Discover? && r.outcomes[i] == Offered(y)
    requires OnlyAsks(ip, r, i, k, y, r.events[i].mac)
    ensures Reserved(r.tables[k], y, r.events[i].mac)
    decreases k
  {
    if k == i + 1 {
      OfferReserves(ip, r, i, y);
    } else {
      OfferedSlotStays(ip, r, i, k - 1, y);
      ReservedOneMore(ip, r, k - 1, y, r.events[i].mac);
    }
  }

  /**
   * An offer stays good: whatever DISCOVERs come after it, at whatever times, and whatever REQUESTs
   * other clients make for other addresses, the client's REQUEST for it is acknowledged.
   */
  lemma {:induction false} OfferIsHonoured(ip: Ip4, r: Run, i: nat, j: nat, y: nat)
    requires IsRun(ip, r) && i < j < |r.events| && r.events[i].Discover? && r.outcomes[i] == Offered(y)
    requires OnlyAsks(ip, r, i, j, y, r.events[i].mac)
    requires r.events[j].Request? && r.events[j].mac == r.events[i].mac
    requires y < MAX_IP && r.events[j].addr == AddressOf(y, ip)
    ensures r.outcomes[j] == Acked(y)
  {
    OfferedSlotStays(ip, r, i, j, y);
    assert StepAt(ip, r, j);
    SlotNamesAddress(r.events[j].addr, ip, y);
  }

  // ---------------------------------------------------------------------------
  // Runs of packets
  // ---------------------------------------------------------------------------

  datatype Delivery = Delivery(packet: seq<byte>, junk: Frame, clock: Clock)

  /** The event a delivery stands for, if the server looks at it at all. */
  function EventOf(d: Delivery): Option<Event> {
    if |d.packet| < MIN_SIZE then None else Classify(Received(d.packet, d.junk), d.clock)
  }

  function Events(ds: seq<Delivery>): seq<Event>
    decreases |ds|
  {
    if ds == [] then []
    else
      var rest := Events(ds[..|ds| - 1]);
      match EventOf(ds[|ds| - 1])
      case None => rest
      case Some(ev) => rest + [ev]
  }

  /** The lease table after the server has processed arbitrary packets one after another. */
  function TableAfter(ip: Ip4, nm: Ip4, ds: seq<Delivery>): Table
    decreases |ds|
  {
    if ds == [] then EMPTY_TABLE
    else
      var d := ds[|ds| - 1];
      Respond(ip, nm, TableAfter(ip, nm, ds[..|ds| - 1]), d.packet, d.junk, d.clock).0
  }

  /** A packet moves the lease table and is answered as its event is, or not at all. */
  lemma {:induction false} PacketIsEvent(ip: Ip4, nm: Ip4, tab: Table, d: Delivery)
    ensures Respond(ip, nm, tab, d.packet, d.junk, d.clock).0 ==
            match EventOf(d)
            case None => tab
            case Some(ev) => Step(tab, ip, ev).0
    ensures Respond(ip, nm, tab, d.packet, d.junk, d.clock).1 ==
            match EventOf(d)
            case None => None
            case Some(ev) => Answer(Received(d.packet, d.junk), ip, nm, Step(tab, ip, ev).1)
  {
  }

  /** Arbitrary traffic drives the lease table exactly as the run of events read from it. */
  lemma {:induction false} PacketsRefineEvents(ip: Ip4, nm: Ip4, ds: seq<Delivery>)
    ensures var r := RunOf(ip, Events(ds));
            IsRun(ip, r) && TableAfter(ip, nm, ds) == r.tables[|r.events|]
    decreases |ds|
  {
    RunOfIsRun(ip, Events(ds));
    if ds == [] {
    } else {
      var n := |ds| - 1;
      PacketsRefineEvents(ip, nm, ds[..n]);
      PacketIsEvent(ip, nm, TableAfter(ip, nm, ds[..n]), ds[n]);
      if EventOf(ds[n]).Some? {
        RunOfSnoc(ip, Events(ds[..n]), EventOf(ds[n]).value);
      }
    }
  }
}
