/** The access point's DNS responder: every name resolves to the server, in a reply built in place. */
module DnsServer {
  import opened Bytes

  const MAX_DNS_MSG_SIZE := 300
  const HEADER_SIZE := 12
  const MAX_LABEL := 63
  const MAX_NAME := 255
  /** Pointer, type, class, TTL, length and address of the answer. */
  const ANSWER_SIZE := 16

  type Buffer = b: seq<byte> | |b| == MAX_DNS_MSG_SIZE witness seq(MAX_DNS_MSG_SIZE, _ => 0)

  /** The message buffer after the datagram is copied over what the stack held before. */
  function Received(packet: seq<byte>, junk: Buffer): Buffer {
    var n := Min(|packet|, MAX_DNS_MSG_SIZE);
    packet[..n] + junk[n..]
  }

  lemma {:induction false} ReceivedPart(packet: seq<byte>, junk: Buffer, a: nat, b: nat)
    requires a <= b <= Min(|packet|, MAX_DNS_MSG_SIZE)
    ensures Received(packet, junk)[a..b] == packet[a..b]
  {
    var x, y := Received(packet, junk)[a..b], packet[a..b];
    assert |x| == |y| && forall k :: 0 <= k < |x| ==> x[k] == packet[a + k] == y[k];
  }

  /** Where the label walk that stands at p stops, or None at a length byte above 63. */
  function Walk(msg: Buffer, end: nat, p: nat): (r: Option<nat>)
    requires end <= MAX_DNS_MSG_SIZE
    ensures r.Some? ==> p <= r.value && (r.value == p || r.value <= end + MAX_LABEL)
    decreases end - p
  {
    if p >= end then Some(p)
    else if msg[p] == 0 then Some(p + 1)
    else if msg[p] > MAX_LABEL then None
    else Walk(msg, end, p + 1 + msg[p])
  }

  predicate IsStandardQuery(msg: Buffer) {
    msg[2] as int / 128 == 0                     // QR
    && msg[2] as int / 8 % 16 == 0               // OPCODE
    && Word16(msg[4], msg[5]) >= 1               // QDCOUNT
  }

  function AnswerBytes(ip: Ip4): seq<byte> {
    [0xc0, HEADER_SIZE, 0, 1, 0, 1, 0, 0, 0, 60, 0, 4] + ip
  }

  /** The reply whose question ends at offset q. */
  function ReplyBytes(msg: Buffer, ip: Ip4, q: nat): seq<byte>
    requires HEADER_SIZE <= q <= MAX_DNS_MSG_SIZE
  {
    msg[..2] + [0x84, 0x80, 0, 1, 0, 1, 0, 0, 0, 0] + msg[HEADER_SIZE..q] + AnswerBytes(ip)
  }

  /** The reply to a datagram, as a pure function. */
  function Respond(packet: seq<byte>, junk: Buffer, ip: Ip4): Option<seq<byte>> {
    var len := Min(|packet|, MAX_DNS_MSG_SIZE);
    var msg := Received(packet, junk);
    if len < HEADER_SIZE || !IsStandardQuery(msg) then None
    else
      match Walk(msg, len, HEADER_SIZE)
      case None => None
      case Some(p) => if p - HEADER_SIZE > MAX_NAME then None else Some(ReplyBytes(msg, ip, p + 4))
  }

  method Put(msg: array<byte>, at: nat, data: seq<byte>) returns (next: nat)
    requires at + |data| <= msg.Length
    modifies msg
    ensures next == at + |data|
    ensures msg[..] == Splice(old(msg[..]), at, data)
  {
    forall k | 0 <= k < |data| {
      msg[at + k] := data[k];
    }
    next := at + |data|;
  }

  /** Skips the labels of the question, from question_ptr up to the end of the received bytes. */
  method SkipName(msg: array<byte>, end: nat) returns (r: Option<nat>)
    requires msg.Length == MAX_DNS_MSG_SIZE && HEADER_SIZE <= end <= MAX_DNS_MSG_SIZE
    ensures r == Walk(msg[..], end, HEADER_SIZE)
  {
    var p := HEADER_SIZE;
    while p < end
      invariant HEADER_SIZE <= p
      invariant Walk(msg[..], end, HEADER_SIZE) == Walk(msg[..], end, p)
      decreases end - p
    {
      if msg[p] == 0 {
        return Some(p + 1);
      }
      var labelLen := msg[p];
      p := p + 1;
      if labelLen > MAX_LABEL {
        return None;
      }
      p := p + labelLen;
    }
    return Some(p);
  }

  class Server {
    const ip: Ip4

    constructor (ip: Ip4)
      ensures this.ip == ip
    {
      this.ip := ip;
    }

    /** Handles one datagram. Every array access below is in bounds, whatever bytes arrive. */
    method Process(packet: seq<byte>, junk: Buffer) returns (reply: Option<seq<byte>>)
      ensures reply == Respond(packet, junk, ip)
    {
      var len := Min(|packet|, MAX_DNS_MSG_SIZE);
      var msg := new byte[MAX_DNS_MSG_SIZE](
        i requires 0 <= i < MAX_DNS_MSG_SIZE => if i < len then packet[i] else junk[i]);
      ghost var before := Received(packet, junk);
      assert msg[..] == before;
      if len < HEADER_SIZE {
        return None;
      }
      var flags: int := msg[2] as int * 256 + msg[3] as int;
      var questionCount: int := msg[4] as int * 256 + msg[5] as int;
      FlagFields(msg[2], msg[3]);
      if flags / 0x8000 % 2 != 0 {
        return None;
      }
      if flags / 0x800 % 16 != 0 {
        return None;
      }
      if questionCount < 1 {
        return None;
      }
      var end := SkipName(msg, len);
      if end.None? || end.value - HEADER_SIZE > MAX_NAME {
        return None;
      }
      var bytes := BuildReply(msg, end.value + 4);
      return Some(bytes);
    }

    /** Appends the answer after the question and rewrites the header. */
    method BuildReply(msg: array<byte>, question: nat) returns (reply: seq<byte>)
      requires msg.Length == MAX_DNS_MSG_SIZE && HEADER_SIZE <= question <= MAX_DNS_MSG_SIZE - ANSWER_SIZE
      modifies msg
      ensures reply == ReplyBytes(old(msg[..]), ip, question)
    {
      ghost var before := msg[..];
      var answer := Put(msg, question, [0xc0, HEADER_SIZE]);
      answer := Put(msg, answer, [0, 1]);
      answer := Put(msg, answer, [0, 1]);
      answer := Put(msg, answer, [0, 0, 0, 60]);
      answer := Put(msg, answer, [0, 4]);
      answer := Put(msg, answer, ip);
      AnswerIsOneSplice(before, question, ip);
      RewriteHeader(msg);
      reply := msg[..answer];
      ReplyIsTwoSplices(before, ip, question);
    }

    method RewriteHeader(msg: array<byte>)
      requires msg.Length == MAX_DNS_MSG_SIZE
      modifies msg
      ensures msg[..] == Splice(old(msg[..]), 2, [0x84, 0x80, 0, 1, 0, 1, 0, 0, 0, 0])
    {
      ghost var before := msg[..];
      var at := Put(msg, 2, [0x84, 0x80]);
      at := Put(msg, at, [0, 1]);
      at := Put(msg, at, [0, 1]);
      at := Put(msg, at, [0, 0]);
      at := Put(msg, at, [0, 0]);
      HeaderIsOneSplice(before);
    }
  }

  lemma {:induction false} FlagFields(hi: byte, lo: byte)
    ensures var flags := hi as int * 256 + lo as int;
            && flags / 0x8000 % 2 == hi as int / 128
            && flags / 0x800 % 16 == hi as int / 8 % 16
  {
    var flags := hi as int * 256 + lo as int;
    assert flags / 0x8000 == hi as int / 128;
    assert flags / 0x800 == hi as int / 8;
  }

  lemma {:induction false} ReplyIsTwoSplices(msg: Buffer, ip: Ip4, q: nat)
    requires HEADER_SIZE <= q <= MAX_DNS_MSG_SIZE - ANSWER_SIZE
    ensures Splice(Splice(msg, q, AnswerBytes(ip)), 2, [0x84, 0x80, 0, 1, 0, 1, 0, 0, 0, 0])[..q + ANSWER_SIZE]
            == ReplyBytes(msg, ip, q)
  {
  }

  lemma {:induction false} AnswerIsOneSplice(msg: seq<byte>, q: nat, ip: Ip4)
    requires q + ANSWER_SIZE <= |msg|
    ensures var a := Splice(msg, q, [0xc0, HEADER_SIZE]);
            var b := Splice(a, q + 2, [0, 1]);
            var c := Splice(b, q + 4, [0, 1]);
            var d := Splice(c, q + 6, [0, 0, 0, 60]);
            var e := Splice(d, q + 10, [0, 4]);
            Splice(e, q + 12, ip) == Splice(msg, q, AnswerBytes(ip))
  {
    SpliceTwice(msg, q, [0xc0, HEADER_SIZE], [0, 1]);
    SpliceTwice(msg, q, [0xc0, HEADER_SIZE] + [0, 1], [0, 1]);
    SpliceTwice(msg, q, [0xc0, HEADER_SIZE] + [0, 1] + [0, 1], [0, 0, 0, 60]);
    SpliceTwice(msg, q, [0xc0, HEADER_SIZE] + [0, 1] + [0, 1] + [0, 0, 0, 60], [0, 4]);
    SpliceTwice(msg, q, [0xc0, HEADER_SIZE] + [0, 1] + [0, 1] + [0, 0, 0, 60] + [0, 4], ip);
    assert [0xc0, HEADER_SIZE] + [0, 1] + [0, 1] + [0, 0, 0, 60] + [0, 4] + ip == AnswerBytes(ip);
  }

  lemma {:induction false} HeaderIsOneSplice(msg: seq<byte>)
    requires HEADER_SIZE <= |msg|
    ensures var a := Splice(msg, 2, [0x84, 0x80]);
            var b := Splice(a, 4, [0, 1]);
            var c := Splice(b, 6, [0, 1]);
            var d := Splice(c, 8, [0, 0]);
            Splice(d, 10, [0, 0]) == Splice(msg, 2, [0x84, 0x80, 0, 1, 0, 1, 0, 0, 0, 0])
  {
    SpliceTwice(msg, 2, [0x84, 0x80], [0, 1]);
    SpliceTwice(msg, 2, [0x84, 0x80] + [0, 1], [0, 1]);
    SpliceTwice(msg, 2, [0x84, 0x80] + [0, 1] + [0, 1], [0, 0]);
    SpliceTwice(msg, 2, [0x84, 0x80] + [0, 1] + [0, 1] + [0, 0], [0, 0]);
    assert [0x84, 0x80] + [0, 1] + [0, 1] + [0, 0] + [0, 0] == [0x84, 0x80, 0, 1, 0, 1, 0, 0, 0, 0];
  }

  /** For arbitrary bytes the reply, when there is one, ends at offset 287 or before. */
  lemma {:induction false} ReplyFitsBuffer(packet: seq<byte>, junk: Buffer, ip: Ip4)
    requires Respond(packet, junk, ip).Some?
    ensures HEADER_SIZE + 4 + ANSWER_SIZE <= |Respond(packet, junk, ip).value| <= 287 < MAX_DNS_MSG_SIZE
  {
  }

  // ---------------------------------------------------------------------------
  // Bytes that were never received
  // ---------------------------------------------------------------------------

  /** A stack that holds the same byte everywhere. */
  function Stack(b: byte): (r: Buffer)
    ensures forall k :: 0 <= k < MAX_DNS_MSG_SIZE ==> r[k] == b
  {
    seq(MAX_DNS_MSG_SIZE, _ => b)
  }

  /** Where the echoed question of the reply ends, if the packet gets one. */
  function QuestionEnd(packet: seq<byte>): (r: Option<nat>)
    ensures r.Some? ==> HEADER_SIZE <= r.value <= MAX_DNS_MSG_SIZE
  {
    var len := Min(|packet|, MAX_DNS_MSG_SIZE);
    var msg := Received(packet, Stack(0));
    if len < HEADER_SIZE || !IsStandardQuery(msg) then None
    else
      match Walk(msg, len, HEADER_SIZE)
      case None => None
      case Some(p) => if p - HEADER_SIZE > MAX_NAME then None else Some(p + 4)
  }

  lemma {:induction false} WalkSeesReceived(msg: Buffer, msg': Buffer, end: nat, p: nat)
    requires end <= MAX_DNS_MSG_SIZE && forall k :: 0 <= k < end ==> msg[k] == msg'[k]
    ensures Walk(msg, end, p) == Walk(msg', end, p)
    decreases end - p
  {
    if p >= end || msg[p] == 0 || msg[p] > MAX_LABEL {
    } else {
      WalkSeesReceived(msg, msg', end, p + 1 + msg[p]);
    }
  }

  /** Whether there is a reply, and how far its question goes, does not depend on the stack. */
  lemma {:induction false} ReplyOfJunk(packet: seq<byte>, junk: Buffer, ip: Ip4)
    ensures Respond(packet, junk, ip) ==
            match QuestionEnd(packet)
            case None => None
            case Some(q) => Some(ReplyBytes(Received(packet, junk), ip, q))
  {
    WalkSeesReceived(Received(packet, junk), Received(packet, Stack(0)), Min(|packet|, MAX_DNS_MSG_SIZE), HEADER_SIZE);
  }

  /** The reply is the same whatever the stack held, if and only if the question it echoes was received whole. */
  lemma {:induction false} JunkIsIrrelevantIff(packet: seq<byte>, ip: Ip4)
    ensures (forall junk: Buffer, junk': Buffer :: Respond(packet, junk, ip) == Respond(packet, junk', ip))
            <==> (QuestionEnd(packet).Some? ==> QuestionEnd(packet).value <= |packet|)
  {
    forall junk: Buffer, junk': Buffer | QuestionEnd(packet).Some? ==> QuestionEnd(packet).value <= |packet|
      ensures Respond(packet, junk, ip) == Respond(packet, junk', ip)
    {
      ReplyOfJunk(packet, junk, ip);
      ReplyOfJunk(packet, junk', ip);
      if QuestionEnd(packet).Some? {
        EchoIsReceived(packet, junk, QuestionEnd(packet).value);
        EchoIsReceived(packet, junk', QuestionEnd(packet).value);
      }
    }
    if QuestionEnd(packet).Some? && QuestionEnd(packet).value > |packet| {
      ReplyOfJunk(packet, Stack(0), ip);
      ReplyOfJunk(packet, Stack(1), ip);
      EchoShowsStack(packet, Stack(0), ip, QuestionEnd(packet).value);
      EchoShowsStack(packet, Stack(1), ip, QuestionEnd(packet).value);
    }
  }

  lemma {:induction false} EchoIsReceived(packet: seq<byte>, junk: Buffer, q: nat)
    requires HEADER_SIZE <= q <= |packet| && q <= MAX_DNS_MSG_SIZE
    ensures Received(packet, junk)[..2] == packet[..2]
    ensures Received(packet, junk)[HEADER_SIZE..q] == packet[HEADER_SIZE..q]
  {
    ReceivedPart(packet, junk, HEADER_SIZE, q);
    ReceivedPart(packet, junk, 0, 2);
    assert packet[0..2] == packet[..2];
  }

  lemma {:induction false} EchoShowsStack(packet: seq<byte>, junk: Buffer, ip: Ip4, q: nat)
    requires HEADER_SIZE <= |packet| < q <= MAX_DNS_MSG_SIZE
    ensures |packet| < |ReplyBytes(Received(packet, junk), ip, q)|
    ensures ReplyBytes(Received(packet, junk), ip, q)[|packet|] == junk[|packet|]
  {
    assert Received(packet, junk)[HEADER_SIZE..q][|packet| - HEADER_SIZE] == junk[|packet|];
  }

  /** A query that is only a header is answered, and the answer carries four bytes of the stack. */
  lemma {:induction false} BareHeaderShowsStack(packet: seq<byte>, junk: Buffer, ip: Ip4)
    requires |packet| == HEADER_SIZE && packet[2] < 8 && Word16(packet[4], packet[5]) >= 1
    ensures QuestionEnd(packet) == Some(HEADER_SIZE + 4)
    ensures Respond(packet, junk, ip).Some?
    ensures Respond(packet, junk, ip).value[HEADER_SIZE..HEADER_SIZE + 4] == junk[HEADER_SIZE..HEADER_SIZE + 4]
  {
    ReplyOfJunk(packet, junk, ip);
    var msg := Received(packet, junk);
    assert msg[HEADER_SIZE..HEADER_SIZE + 4] == junk[HEADER_SIZE..HEADER_SIZE + 4];
    ReplyEchoes(msg, ip, HEADER_SIZE + 4);
  }

  lemma {:induction false} ReplyEchoes(msg: Buffer, ip: Ip4, q: nat)
    requires HEADER_SIZE <= q <= MAX_DNS_MSG_SIZE
    ensures q <= |ReplyBytes(msg, ip, q)| && ReplyBytes(msg, ip, q)[HEADER_SIZE..q] == msg[HEADER_SIZE..q]
  {
  }
}
