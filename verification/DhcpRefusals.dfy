/** When a DISCOVER gets no offer, in real time: from what was granted before it, and when. */
module DhcpRefusals {
  import opened Bytes
  import opened DhcpLeases
  import opened DhcpProtocol
  import opened DhcpRuns

  /** The latest of the first k messages that was granted the slot. */
  function LastGrant(r: Run, k: nat, y: nat): (g: Option<nat>)
    requires k <= |r.events| == |r.outcomes|
    ensures g.Some? ==> g.value < k && r.events[g.value].Request? && r.outcomes[g.value] == Acked(y)
    decreases k
  {
    if k == 0 then None
    else if r.events[k - 1].Request? && r.outcomes[k - 1] == Acked(y) then Some(k - 1)
    else LastGrant(r, k - 1, y)
  }

  /** Message j takes the slot from its holder. */
  ghost predicate Reclaims(r: Run, j: nat, y: nat)
    requires j + 1 < |r.tables| && y < MAX_IP
  {
    r.tables[j][y].mac != ZERO_MAC && r.tables[j + 1][y].mac == ZERO_MAC
  }

  ghost predicate Reclaimed(r: Run, g: nat, k: nat, y: nat)
    requires k < |r.tables| && y < MAX_IP
  {
    exists j :: g < j < k && Reclaims(r, j, y)
  }

  /** A slot never granted is free; else it shows its latest grant, less the holder if it was reclaimed since. */
  ghost predicate ShowsGrant(r: Run, k: nat, y: nat)
    requires k <= |r.events| == |r.outcomes| && k < |r.tables| && y < MAX_IP
  {
    match LastGrant(r, k, y)
    case None => r.tables[k][y] == FREE
    case Some(g) =>
      r.tables[k][y] == Lease(if Reclaimed(r, g, k, y) then ZERO_MAC else r.events[g].mac,
                              Stamp(Ticks(r.events[g].now)))
  }

  /** A message that is not granted the slot leaves it, or takes it from its holder. */
  lemma {:induction false} UngrantedStep(tab: Table, ip: Ip4, ev: Event, y: nat)
    requires y < MAX_IP && Step(tab, ip, ev).1 != Acked(y)
    ensures var tab' := Step(tab, ip, ev).0;
            tab'[y] == tab[y] || (tab[y].mac != ZERO_MAC && tab'[y] == tab[y].(mac := ZERO_MAC))
  {
  }

  lemma {:induction false} SlotShowsGrant(ip: Ip4, r: Run, k: nat, y: nat)
    requires IsRun(ip, r) && k <= |r.events| && y < MAX_IP
    ensures ShowsGrant(r, k, y)
    decreases k
  {
    if k == 0 {
      assert r.tables[0][y] == FREE;
    } else {
      assert StepAt(ip, r, k - 1);
      if r.outcomes[k - 1] == Acked(y) {
        GrantStamps(r.tables[k - 1], ip, r.events[k - 1], y);
      } else {
        SlotShowsGrant(ip, r, k - 1, y);
        UngrantedStep(r.tables[k - 1], ip, r.events[k - 1], y);
        StaysGranted(r, k - 1, y);
      }
    }
  }

  lemma {:induction false} StaysGranted(r: Run, k: nat, y: nat)
    requires k < |r.events| == |r.outcomes| && |r.tables| == |r.events| + 1 && y < MAX_IP
    requires ShowsGrant(r, k, y) && r.outcomes[k] != Acked(y)
    requires var lease, lease' := r.tables[k][y], r.tables[k + 1][y];
             lease' == lease || (lease.mac != ZERO_MAC && lease' == lease.(mac := ZERO_MAC))
    ensures ShowsGrant(r, k + 1, y)
  {
    if LastGrant(r, k, y).Some? {
      var g := LastGrant(r, k, y).value;
      assert Reclaimed(r, g, k + 1, y) <==> Reclaimed(r, g, k, y) || Reclaims(r, k, y);
    }
  }

  // ---------------------------------------------------------------------------
  // Refusals
  // ---------------------------------------------------------------------------

  /** A lease stamped at t reads as running at that time: not past its deadline, or 2^31 ms past it, and so on. */
  predicate ReadsAsRunning(t: nat, now: nat) {
    var late := (now - Deadline(t)) % 0x1_0000_0000;
    late == 0 || late > 0x8000_0000
  }

  lemma {:induction false} RunningIsUnexpired(t: nat, now: nat)
    requires t <= now
    ensures ReadsAsRunning(t, now) <==> !Expired(Stamp(Ticks(t)), Ticks(now))
  {
    var d := now - t;
    ExpiryIsExact(t, d);
    assert t + d == now && d - 86_400_000 - Slack(t) == now - Deadline(t);
  }

  /** The first two turns of the 32-bit clock. */
  lemma {:induction false} RunningInRealTime(t: nat, now: nat)
    requires t <= now
    ensures now <= Deadline(t) ==> ReadsAsRunning(t, now)
    ensures Deadline(t) < now <= Deadline(t) + 0x8000_0000 ==> !ReadsAsRunning(t, now)
    ensures Deadline(t) + 0x8000_0000 < now <= Deadline(t) + 0x1_0000_0000 ==> ReadsAsRunning(t, now)
  {
  }

  /** The latest grant of the slot was to somebody else, was not reclaimed, and reads as running. */
  ghost predicate TakenFrom(r: Run, i: nat, y: nat, mac: Mac, now: nat)
    requires i <= |r.events| == |r.outcomes| && i < |r.tables| && y < MAX_IP
  {
    match LastGrant(r, i, y)
    case None => false
    case Some(g) =>
      && r.events[g].mac != ZERO_MAC && r.events[g].mac != mac
      && !Reclaimed(r, g, i, y) && ReadsAsRunning(r.events[g].now, now)
  }

  lemma {:induction false} TakenIsUnusable(ip: Ip4, r: Run, i: nat, y: nat, mac: Mac, now: nat)
    requires IsRun(ip, r) && i < |r.events| && y < MAX_IP
    requires LastGrant(r, i, y).Some? ==> r.events[LastGrant(r, i, y).value].now <= now
    ensures TakenFrom(r, i, y, mac, now) <==> r.tables[i][y].mac != mac && !Usable(r.tables[i][y], now)
  {
    SlotShowsGrant(ip, r, i, y);
    if LastGrant(r, i, y).Some? {
      RunningIsUnexpired(r.events[LastGrant(r, i, y).value].now, now);
    }
  }

  /**
   * A DISCOVER is refused if and only if every slot's latest grant went to another client, was not
   * reclaimed, and at the time the slot is looked at has not passed its deadline, or passed it 2^31 ms
   * ago or longer, so that the clock has wrapped on it.
   */
  lemma {:induction false} RefusedIff(ip: Ip4, r: Run, i: nat)
    requires IsRun(ip, r) && Timely(r.events) && i < |r.events|
    requires r.events[i].Discover?
    ensures r.outcomes[i].Silent? <==>
            forall y :: 0 <= y < MAX_IP ==> TakenFrom(r, i, y, r.events[i].mac, r.events[i].clock[y])
  {
    assert StepAt(ip, r, i);
    var tab, ev := r.tables[i], r.events[i];
    DiscoverMeaning(tab, ip, ev.mac, ev.clock);
    forall y | 0 <= y < MAX_IP
      ensures TakenFrom(r, i, y, ev.mac, ev.clock[y]) <==> tab[y].mac != ev.mac && !Usable(tab[y], ev.clock[y])
    {
      GrantIsBefore(r, i, y);
      TakenIsUnusable(ip, r, i, y, ev.mac, ev.clock[y]);
    }
  }

  lemma {:induction false} GrantIsBefore(r: Run, i: nat, y: nat)
    requires Timely(r.events) && i < |r.events| == |r.outcomes| && r.events[i].Discover? && y < MAX_IP
    ensures LastGrant(r, i, y).Some? ==> r.events[LastGrant(r, i, y).value].now <= r.events[i].clock[y]
  {
    if LastGrant(r, i, y).Some? {
      var g := LastGrant(r, i, y).value;
      assert End(r.events[g]) <= Start(r.events[i]);
    }
  }
}
