/**
 * The lease table as a value: the expiry clock, and what one DISCOVER or REQUEST does to the
 * eight slots. Real time is an unbounded number of milliseconds; the server sees it modulo 2^32.
 */
module DhcpLeases {
  import opened Bytes

  const MAX_IP := 8
  const BASE_IP := 16
  /** How long a lease lasts, as clients are told and in milliseconds. */
  const LEASE_TIME_S := 86_400
  const LEASE_MS := LEASE_TIME_S * 1000

  datatype Lease = Lease(mac: Mac, expiry: uint16)

  type Table = t: seq<Lease> | |t| == MAX_IP witness [FREE, FREE, FREE, FREE, FREE, FREE, FREE, FREE]

  const FREE := Lease(ZERO_MAC, 0)
  const EMPTY_TABLE: Table := [FREE, FREE, FREE, FREE, FREE, FREE, FREE, FREE]

  // ---------------------------------------------------------------------------
  // The expiry clock
  // ---------------------------------------------------------------------------

  /** What the millisecond counter shows at real time t. */
  function Ticks(t: nat): uint32 {
    t % TWO_32
  }

  /** The 16-bit expiry stored when a lease is granted. */
  function Stamp(ticks: uint32): uint16 {
    (ticks + LEASE_MS) % TWO_32 / TWO_16
  }

  /** The server's test that a stored expiry lies in the past. */
  predicate Expired(expiry: uint16, ticks: uint32) {
    Signed32((expiry * TWO_16 + 0xffff - ticks) % TWO_32) < 0
  }

  /** How far the stored expiry is rounded up past a day after t. */
  function Slack(t: nat): (s: nat)
    ensures s < TWO_16
  {
    0xffff - (t + 86_400_000) % 0x1_0000
  }

  /** The last instant at which a lease stamped at t still counts as running. */
  function Deadline(t: nat): nat {
    t + 86_400_000 + Slack(t)
  }

  /** A residue modulo 2^32 keeps the residue modulo 2^16. */
  lemma {:induction false} LowHalf(u: nat)
    ensures u % TWO_32 % TWO_16 == u % TWO_16
  {
    var q, v := u / TWO_32, u % TWO_32;
    assert u == q * TWO_16 * TWO_16 + v;
  }

  lemma {:induction false} SumModulo(t: nat, d: nat)
    ensures (t % TWO_32 + d) % TWO_32 == (t + d) % TWO_32
  {
    assert t + d == t % TWO_32 + d + t / TWO_32 * TWO_32;
  }

  lemma {:induction false} RoundUp(v: uint32)
    ensures v / TWO_16 * TWO_16 + 0xffff == v + (0xffff - v % TWO_16) < TWO_32
  {
  }

  lemma {:induction false} WholeTurns(q: int, x: uint32)
    ensures (q * TWO_32 + x) % TWO_32 == x
  {
  }

  lemma {:induction false} StampRoundsUp(t: nat)
    ensures (Stamp(Ticks(t)) * TWO_16 + 0xffff) % TWO_32 == Deadline(t) % TWO_32
  {
    var u := t + LEASE_MS;
    var v: uint32 := u % TWO_32;
    SumModulo(t, LEASE_MS);
    assert Stamp(Ticks(t)) == v / TWO_16;
    RoundUp(v);
    LowHalf(u);
    var x: uint32 := v + (0xffff - v % TWO_16);
    assert Deadline(t) == u / TWO_32 * TWO_32 + x;
    WholeTurns(u / TWO_32, x);
  }

  lemma {:induction false} SubtractModulo(a: int, b: int, c: int)
    requires a % TWO_32 == b % TWO_32
    ensures (a - c % TWO_32) % TWO_32 == (b - c) % TWO_32
  {
    var i, j, k := a / TWO_32, b / TWO_32, c / TWO_32;
    assert a - c % TWO_32 == b - c + (i - j + k) * TWO_32;
  }

  lemma {:induction false} NegateModulo(x: int)
    ensures (-x) % TWO_32 == if x % TWO_32 == 0 then 0 else TWO_32 - x % TWO_32
  {
    var q, r := x / TWO_32, x % TWO_32;
    if r == 0 {
      WholeTurns(-q, 0);
    } else {
      WholeTurns(-q - 1, TWO_32 - r);
    }
  }

  /** Exact expiry arithmetic: when a lease stamped at t is judged expired d milliseconds later. */
  lemma {:induction false} ExpiryIsExact(t: nat, d: nat)
    ensures Expired(Stamp(Ticks(t)), Ticks(t + d)) <==>
            1 <= (d - 86_400_000 - Slack(t)) % 0x1_0000_0000 <= 0x8000_0000
  {
    StampRoundsUp(t);
    SubtractModulo(Stamp(Ticks(t)) * TWO_16 + 0xffff, Deadline(t), t + d);
    NegateModulo(d - 86_400_000 - Slack(t));
  }

  /** A lease runs for at least a day and ends within 65.536 s more, until the clock wraps on it. */
  lemma {:induction false} LeaseRunsOneDay(t: nat, d: nat)
    ensures d <= 86_400_000 ==> !Expired(Stamp(Ticks(t)), Ticks(t + d))
    ensures t + d <= Deadline(t) ==> !Expired(Stamp(Ticks(t)), Ticks(t + d))
    ensures 86_400_000 + 0x1_0000 <= d <= 86_400_000 + 0x8000_0000 ==> Expired(Stamp(Ticks(t)), Ticks(t + d))
  {
    ExpiryIsExact(t, d);
  }

  lemma {:induction false} DeadlineIsMonotone(t: nat, u: nat)
    requires t <= u
    ensures Deadline(t) <= Deadline(u)
  {
    var a, b := t + 86_400_000, u + 86_400_000;
    assert Deadline(t) == a / TWO_16 * TWO_16 + 0xffff;
    assert Deadline(u) == b / TWO_16 * TWO_16 + 0xffff;
    assert a / TWO_16 <= b / TWO_16;
  }

  // ---------------------------------------------------------------------------
  // DISCOVER
  // ---------------------------------------------------------------------------

  /** The clock readings of one message, one for each slot; REQUEST uses the first. */
  type Clock = c: seq<nat> | |c| == MAX_IP witness [0, 0, 0, 0, 0, 0, 0, 0]

  predicate Usable(lease: Lease, now: nat) {
    lease.mac == ZERO_MAC || Expired(lease.expiry, Ticks(now))
  }

  /** The lowest slot from i on that holds the MAC, or MAX_IP. */
  function FirstMatch(tab: Table, mac: Mac, i: nat := 0): (r: nat)
    requires i <= MAX_IP
    ensures i <= r <= MAX_IP
    decreases MAX_IP - i
  {
    if i == MAX_IP || tab[i].mac == mac then i else FirstMatch(tab, mac, i + 1)
  }

  /** The lowest slot from i on that is free or expired, or MAX_IP. */
  function FirstUsable(tab: Table, clock: Clock, i: nat := 0): (r: nat)
    requires i <= MAX_IP
    ensures i <= r <= MAX_IP
    decreases MAX_IP - i
  {
    if i == MAX_IP || Usable(tab[i], clock[i]) then i else FirstUsable(tab, clock, i + 1)
  }

  lemma {:induction false} FirstMatchIsFirst(tab: Table, mac: Mac, i: nat := 0)
    requires i <= MAX_IP
    ensures var r := FirstMatch(tab, mac, i);
            (r < MAX_IP ==> tab[r].mac == mac) && forall j :: i <= j < r ==> tab[j].mac != mac
    decreases MAX_IP - i
  {
    if i >= MAX_IP || tab[i].mac == mac {
    } else {
      FirstMatchIsFirst(tab, mac, i + 1);
    }
  }

  lemma {:induction false} FirstUsableIsFirst(tab: Table, clock: Clock, i: nat := 0)
    requires i <= MAX_IP
    ensures var r := FirstUsable(tab, clock, i);
            (r < MAX_IP ==> Usable(tab[r], clock[r])) && forall j :: i <= j < r ==> !Usable(tab[j], clock[j])
    decreases MAX_IP - i
  {
    if i >= MAX_IP || Usable(tab[i], clock[i]) {
    } else {
      FirstUsableIsFirst(tab, clock, i + 1);
    }
  }

  /** The slot a DISCOVER is offered: its own, else the first usable one, else none (MAX_IP). */
  function OfferedSlot(tab: Table, mac: Mac, clock: Clock): (r: nat)
    ensures r <= MAX_IP
  {
    if FirstMatch(tab, mac) < MAX_IP then FirstMatch(tab, mac) else FirstUsable(tab, clock)
  }

  /** The table a DISCOVER leaves: the first usable slot loses its MAC if the scan got to it. */
  function AfterDiscover(tab: Table, mac: Mac, clock: Clock): Table {
    var f := FirstUsable(tab, clock);
    if f < FirstMatch(tab, mac) then tab[f := tab[f].(mac := ZERO_MAC)] else tab
  }

  // ---------------------------------------------------------------------------
  // REQUEST
  // ---------------------------------------------------------------------------

  /** The slot that an address asked for names, if it is one of the server's. */
  function SlotOf(addr: Ip4, ip: Ip4): (r: Option<nat>)
    ensures r.Some? ==> r.value < MAX_IP
  {
    if addr[..3] == ip[..3] && (addr[3] - BASE_IP) % 256 < MAX_IP then Some((addr[3] - BASE_IP) % 256) else None
  }

  function AddressOf(slot: nat, ip: Ip4): Ip4
    requires slot < MAX_IP
  {
    ip[..3] + [BASE_IP + slot]
  }

  /** Slots and the server's addresses name each other. */
  lemma {:induction false} SlotNamesAddress(addr: Ip4, ip: Ip4, slot: nat)
    requires slot < MAX_IP
    ensures AddressOf(slot, ip) == ip[..3] + [16 + slot]
    ensures SlotOf(addr, ip) == Some(slot) <==> addr == AddressOf(slot, ip)
  {
    assert addr == addr[..3] + [addr[3]];
    assert AddressOf(slot, ip)[..3] == ip[..3];
  }

  /** Whether a REQUEST for the slot is granted. */
  predicate Grants(tab: Table, mac: Mac, slot: nat)
    requires slot < MAX_IP
  {
    tab[slot].mac == mac || tab[slot].mac == ZERO_MAC
  }

  function AfterRequest(tab: Table, mac: Mac, slot: nat, now: nat): Table
    requires slot < MAX_IP
  {
    if Grants(tab, mac, slot) then tab[slot := Lease(mac, Stamp(Ticks(now)))] else tab
  }
}
