/** The option area of a DHCP message: code, length, value triples up to END. */
module DhcpOptions {
  import opened Bytes

  const OPT_SUBNET_MASK: byte := 1
  const OPT_ROUTER: byte := 3
  const OPT_DNS: byte := 6
  const OPT_HOST_NAME: byte := 12
  const OPT_REQUESTED_IP: byte := 50
  const OPT_IP_LEASE_TIME: byte := 51
  const OPT_MSG_TYPE: byte := 53
  const OPT_SERVER_ID: byte := 54
  const OPT_END: byte := 255

  /** How many bytes of the option area the walk inspects. */
  const WINDOW := 308

  /** Where the walk that stands at offset i finds cmd. */
  function FindFrom(opt: seq<byte>, cmd: byte, i: nat): (r: Option<nat>)
    requires WINDOW < |opt|
    ensures r.Some? ==> i <= r.value < 308 && opt[r.value] == cmd
    decreases WINDOW - i
  {
    if i >= WINDOW || opt[i] == OPT_END then None
    else if opt[i] == cmd then Some(i)
    else FindFrom(opt, cmd, i + 2 + opt[i + 1])
  }

  method OptFind(buf: array<byte>, base: nat, cmd: byte) returns (r: Option<nat>)
    requires base + WINDOW < buf.Length
    ensures r == FindFrom(buf[base..], cmd, 0)
  {
    ghost var opt := buf[base..];
    var i := 0;
    while i < WINDOW && buf[base + i] != OPT_END
      invariant FindFrom(opt, cmd, 0) == FindFrom(opt, cmd, i)
      decreases WINDOW - i
    {
      assert opt[i] == buf[base + i] && opt[i + 1] == buf[base + i + 1];
      if buf[base + i] == cmd {
        return Some(i);
      }
      i := i + 2 + buf[base + i + 1];
    }
    assert i < WINDOW ==> opt[i] == buf[base + i];
    return None;
  }

  // ---------------------------------------------------------------------------
  // Writing
  // ---------------------------------------------------------------------------

  datatype Entry = Entry(code: byte, value: seq<byte>)

  /** An entry whose length fits its length byte and that is not the END marker. */
  predicate Writable(e: Entry) {
    e.code != OPT_END && |e.value| <= 255
  }

  function EncodeEntry(e: Entry): seq<byte> {
    [e.code, |e.value| % 256] + e.value
  }

  function Encode(list: seq<Entry>): seq<byte> {
    if list == [] then [] else EncodeEntry(list[0]) + Encode(list[1..])
  }

  method OptWriteN(buf: array<byte>, cursor: nat, cmd: byte, data: seq<byte>) returns (next: nat)
    requires cursor + 2 + |data| <= buf.Length
    modifies buf
    ensures next == cursor + 2 + |data|
    ensures buf[..] == Splice(old(buf[..]), cursor, EncodeEntry(Entry(cmd, data)))
  {
    buf[cursor] := cmd;
    buf[cursor + 1] := |data| % 256;
    forall k | 0 <= k < |data| {
      buf[cursor + 2 + k] := data[k];
    }
    next := cursor + 2 + |data|;
  }

  method OptWriteU8(buf: array<byte>, cursor: nat, cmd: byte, val: byte) returns (next: nat)
    requires cursor + 3 <= buf.Length
    modifies buf
    ensures next == cursor + 3
    ensures buf[..] == Splice(old(buf[..]), cursor, EncodeEntry(Entry(cmd, [val])))
  {
    buf[cursor] := cmd;
    buf[cursor + 1] := 1;
    buf[cursor + 2] := val;
    next := cursor + 3;
  }

  /** The network-order bytes of a 32-bit word. */
  function BigEndian32(val: uint32): (r: seq<byte>)
    ensures |r| == 4 && Word16(r[0], r[1]) * TWO_16 + Word16(r[2], r[3]) == val
  {
    var hi, lo := val / TWO_16, val % TWO_16;
    [hi / 256, hi % 256, lo / 256, lo % 256]
  }

  /** The bytes a C cast to uint8_t cuts out of shifted words. */
  lemma {:induction false} ShiftedBytes(val: uint32)
    ensures [val / 0x100_0000 % 256, val / TWO_16 % 256, val / 256 % 256, val % 256] == BigEndian32(val)
  {
    assert val / 0x100_0000 == val / TWO_16 / 256 < 256;
    var hi, lo := val / TWO_16, val % TWO_16;
    assert val / 256 == hi * 256 + lo / 256;
    assert val % 256 == lo % 256;
  }

  method OptWriteU32(buf: array<byte>, cursor: nat, cmd: byte, val: uint32) returns (next: nat)
    requires cursor + 6 <= buf.Length
    modifies buf
    ensures next == cursor + 6
    ensures buf[..] == Splice(old(buf[..]), cursor, EncodeEntry(Entry(cmd, BigEndian32(val))))
  {
    buf[cursor] := cmd;
    buf[cursor + 1] := 4;
    buf[cursor + 2] := val / 0x100_0000 % 256;
    buf[cursor + 3] := val / TWO_16 % 256;
    buf[cursor + 4] := val / 256 % 256;
    buf[cursor + 5] := val % 256;
    ShiftedBytes(val);
    next := cursor + 6;
  }

  /** What writing a list of entries one after another leaves in the buffer. */
  function WriteAll(buf: seq<byte>, cursor: nat, list: seq<Entry>): (r: seq<byte>)
    requires cursor + |Encode(list)| <= |buf|
    ensures |r| == |buf|
    decreases |list|
  {
    if list == [] then buf
    else WriteAll(Splice(buf, cursor, EncodeEntry(list[0])), cursor + |EncodeEntry(list[0])|, list[1..])
  }

  lemma {:induction false} WriteAllIsOneSplice(buf: seq<byte>, cursor: nat, list: seq<Entry>)
    requires cursor + |Encode(list)| <= |buf|
    ensures WriteAll(buf, cursor, list) == Splice(buf, cursor, Encode(list))
    decreases |list|
  {
    if list == [] {
    } else {
      var e := EncodeEntry(list[0]);
      WriteAllIsOneSplice(Splice(buf, cursor, e), cursor + |e|, list[1..]);
      SpliceTwice(buf, cursor, e, Encode(list[1..]));
    }
  }

  // ---------------------------------------------------------------------------
  // Reading back what was written
  // ---------------------------------------------------------------------------

  /** The value of the first entry of the list that carries the code. */
  function Lookup(list: seq<Entry>, cmd: byte): Option<seq<byte>> {
    if list == [] then None
    else if list[0].code == cmd then Some(list[0].value)
    else Lookup(list[1..], cmd)
  }

  ghost predicate IsFirst(list: seq<Entry>, k: int, cmd: byte) {
    0 <= k < |list| && list[k].code == cmd && forall j :: 0 <= j < k ==> list[j].code != cmd
  }

  lemma {:induction false} LookupNone(list: seq<Entry>, cmd: byte)
    ensures Lookup(list, cmd).None? <==> forall k :: 0 <= k < |list| ==> list[k].code != cmd
  {
    if list == [] || list[0].code == cmd {
    } else {
      LookupNone(list[1..], cmd);
      assert forall k :: 1 <= k < |list| ==> list[k] == list[1..][k - 1];
    }
  }

  lemma {:induction false} LookupIsFirst(list: seq<Entry>, k: nat, cmd: byte)
    requires IsFirst(list, k, cmd)
    ensures Lookup(list, cmd) == Some(list[k].value)
  {
    if k == 0 {
    } else {
      assert list[0].code != cmd;
      LookupIsFirst(list[1..], k - 1, cmd);
    }
  }

  /** At offset o the area holds exactly this entry. */
  predicate HoldsAt(opt: seq<byte>, o: nat, e: Entry) {
    o + 2 + |e.value| <= |opt|
    && opt[o] == e.code && opt[o + 1] == |e.value|
    && opt[o + 2..o + 2 + |e.value|] == e.value
  }

  lemma {:induction false} EncodedHead(opt: seq<byte>, i: nat, e: Entry, rest: seq<byte>)
    requires Writable(e)
    requires i + |EncodeEntry(e)| + |rest| <= |opt|
    requires opt[i..i + |EncodeEntry(e)| + |rest|] == EncodeEntry(e) + rest
    ensures HoldsAt(opt, i, e)
    ensures opt[i + |EncodeEntry(e)|..i + |EncodeEntry(e)| + |rest|] == rest
  {
    var n := |EncodeEntry(e)|;
    var all := EncodeEntry(e) + rest;
    assert opt[i] == all[0] && opt[i + 1] == all[1];
    assert all[2..n] == e.value && all[n..] == rest;
    SliceOfSlice(opt, i, i + |all|, 2, n);
    SliceOfSlice(opt, i, i + |all|, n, |all|);
  }

  /** The walk standing at the start of an encoded list meets its first entry with the code. */
  lemma {:induction false} FindInEncoded(opt: seq<byte>, i: nat, list: seq<Entry>, cmd: byte)
    requires WINDOW < |opt| && i + |Encode(list)| < WINDOW
    requires forall e :: e in list ==> Writable(e)
    requires opt[i..i + |Encode(list)| + 1] == Encode(list) + [OPT_END]
    ensures match Lookup(list, cmd)
            case None => FindFrom(opt, cmd, i).None?
            case Some(v) => FindFrom(opt, cmd, i).Some? && HoldsAt(opt, FindFrom(opt, cmd, i).value, Entry(cmd, v))
    decreases |list|
  {
    if list == [] {
      assert opt[i] == opt[i..i + 1][0];
    } else {
      var e, rest := list[0], Encode(list[1..]) + [OPT_END];
      assert Encode(list) + [OPT_END] == EncodeEntry(e) + rest;
      assert Writable(e);
      EncodedHead(opt, i, e, rest);
      WalkPasses(opt, i, e, i + |EncodeEntry(e)|, cmd);
      if e.code != cmd {
        FindInEncoded(opt, i + |EncodeEntry(e)|, list[1..], cmd);
      }
    }
  }

  /** The walk stops at an entry with the code and steps over any other. */
  lemma {:induction false} WalkPasses(opt: seq<byte>, i: nat, e: Entry, next: nat, cmd: byte)
    requires i < WINDOW < |opt| && Writable(e) && HoldsAt(opt, i, e) && next == i + |EncodeEntry(e)|
    ensures FindFrom(opt, cmd, i) == if e.code == cmd then Some(i) else FindFrom(opt, cmd, next)
  {
  }

  /**
   * Option round trip: after a list of options and END are written at the start of the option
   * area, over whatever was there, the search returns the first entry with the sought code,
   * with its exact bytes, and nothing exactly when no entry carries the code.
   */
  lemma {:induction false} OptionRoundTrip(area: seq<byte>, list: seq<Entry>, cmd: byte)
    requires WINDOW < |area|
    requires forall e :: e in list ==> Writable(e)
    requires |Encode(list)| < 308
    ensures var opt := Splice(WriteAll(area, 0, list), |Encode(list)|, [OPT_END]);
            var r := FindFrom(opt, cmd, 0);
            && (r.None? <==> forall k :: 0 <= k < |list| ==> list[k].code != cmd)
            && (forall k :: IsFirst(list, k, cmd) ==> r.Some? && HoldsAt(opt, r.value, list[k]))
  {
    WriteAllIsOneSplice(area, 0, list);
    SpliceTwice(area, 0, Encode(list), [OPT_END]);
    var opt := Splice(area, 0, Encode(list) + [OPT_END]);
    assert opt[0..|Encode(list)| + 1] == Encode(list) + [OPT_END];
    FindInEncoded(opt, 0, list, cmd);
    LookupNone(list, cmd);
    forall k | IsFirst(list, k, cmd)
      ensures Lookup(list, cmd) == Some(list[k].value)
    {
      LookupIsFirst(list, k, cmd);
    }
  }
}
