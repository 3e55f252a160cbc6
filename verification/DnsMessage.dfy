/** An RFC 1035 message decoder (sections 4.1.1 to 4.1.4) and what it makes of the responder's replies. */
module DnsMessage {
  import opened Bytes
  import opened DnsServer

  type Label = l: seq<byte> | 1 <= |l| <= 63 witness [0]

  datatype Question = Question(name: seq<Label>, qtype: uint16, qclass: uint16)
  datatype Record = Record(name: seq<Label>, rtype: uint16, rclass: uint16, ttl: uint32, data: seq<byte>)
  datatype Message = Message(
    id: uint16, flags: uint16,
    questions: seq<Question>, answers: seq<Record>, authority: seq<Record>, additional: seq<Record>)

  datatype Parsed<+T> = Bad | Good(value: T, next: nat)

  /** Decodes a name; a compression pointer must point before the name it stands in. */
  function DecodeName(msg: seq<byte>, off: nat, limit: nat): Parsed<seq<Label>>
    decreases limit, |msg| - off
  {
    if off >= |msg| then Bad
    else if msg[off] == 0 then Good([], off + 1)
    else if msg[off] >= 192 then
      if off + 1 >= |msg| then Bad
      else
        var target := (msg[off] as int - 192) * 256 + msg[off + 1] as int;
        if target >= limit then Bad
        else
          match DecodeName(msg, target, target)
          case Bad => Bad
          case Good(labels, _) => Good(labels, off + 2)
    else if msg[off] > 63 || off + 1 + msg[off] > |msg| then Bad
    else
      match DecodeName(msg, off + 1 + msg[off], limit)
      case Bad => Bad
      case Good(labels, next) => Good([msg[off + 1..off + 1 + msg[off]]] + labels, next)
  }

  function DecodeQuestion(msg: seq<byte>, off: nat): Parsed<Question> {
    match DecodeName(msg, off, off)
    case Bad => Bad
    case Good(name, p) =>
      if p + 4 > |msg| then Bad
      else Good(Question(name, Word16(msg[p], msg[p + 1]), Word16(msg[p + 2], msg[p + 3])), p + 4)
  }

  function DecodeRecord(msg: seq<byte>, off: nat): Parsed<Record> {
    match DecodeName(msg, off, off)
    case Bad => Bad
    case Good(name, p) =>
      if p + 10 > |msg| then Bad
      else
        var len := Word16(msg[p + 8], msg[p + 9]);
        if p + 10 + len > |msg| then Bad
        else
          Good(Record(name, Word16(msg[p], msg[p + 1]), Word16(msg[p + 2], msg[p + 3]),
                      Word16(msg[p + 4], msg[p + 5]) * TWO_16 + Word16(msg[p + 6], msg[p + 7]),
                      msg[p + 10..p + 10 + len]),
               p + 10 + len)
  }

  function DecodeQuestions(msg: seq<byte>, off: nat, count: nat): Parsed<seq<Question>>
    decreases count
  {
    if count == 0 then Good([], off)
    else
      match DecodeQuestion(msg, off)
      case Bad => Bad
      case Good(q, p) =>
        match DecodeQuestions(msg, p, count - 1)
        case Bad => Bad
        case Good(rest, next) => Good([q] + rest, next)
  }

  function DecodeRecords(msg: seq<byte>, off: nat, count: nat): Parsed<seq<Record>>
    decreases count
  {
    if count == 0 then Good([], off)
    else
      match DecodeRecord(msg, off)
      case Bad => Bad
      case Good(r, p) =>
        match DecodeRecords(msg, p, count - 1)
        case Bad => Bad
        case Good(rest, next) => Good([r] + rest, next)
  }

  /** A whole message, with nothing after its last section. */
  function Decode(msg: seq<byte>): Option<Message> {
    if |msg| < 12 then None
    else
      match DecodeQuestions(msg, 12, Word16(msg[4], msg[5]))
      case Bad => None
      case Good(qs, a) =>
        match DecodeRecords(msg, a, Word16(msg[6], msg[7]))
        case Bad => None
        case Good(ans, b) =>
          match DecodeRecords(msg, b, Word16(msg[8], msg[9]))
          case Bad => None
          case Good(auth, c) =>
            match DecodeRecords(msg, c, Word16(msg[10], msg[11]))
            case Bad => None
            case Good(add, d) =>
              if d != |msg| then None
              else Some(Message(Word16(msg[0], msg[1]), Word16(msg[2], msg[3]), qs, ans, auth, add))
  }

  // ---------------------------------------------------------------------------
  // Encoded names
  // ---------------------------------------------------------------------------

  function EncodeName(labels: seq<Label>): (r: seq<byte>)
    ensures |r| >= 1
  {
    if labels == [] then [0] else [|labels[0]|] + labels[0] + EncodeName(labels[1..])
  }

  /** The decoder inverts the encoder, wherever the name stands. */
  lemma {:induction false} NameRoundTrip(msg: seq<byte>, off: nat, limit: nat, labels: seq<Label>)
    requires off + |EncodeName(labels)| <= |msg|
    requires msg[off..off + |EncodeName(labels)|] == EncodeName(labels)
    ensures DecodeName(msg, off, limit) == Good(labels, off + |EncodeName(labels)|)
    decreases |labels|
  {
    var enc := EncodeName(labels);
    var e := off + |enc|;
    assert msg[off] == msg[off..e][0] == enc[0];
    if labels == [] {
    } else {
      var l := labels[0];
      var n := 1 + |l|;
      assert enc[1..n] == l && enc[n..] == EncodeName(labels[1..]);
      SliceOfSlice(msg, off, e, 1, n);
      SliceOfSlice(msg, off, e, n, |enc|);
      NameRoundTrip(msg, off + n, limit, labels[1..]);
      assert [l] + labels[1..] == labels;
    }
  }

  /** The responder's walk over an encoded name stops right after its terminator. */
  lemma {:induction false} WalkStopsAfterName(msg: Buffer, end: nat, p: nat, labels: seq<Label>)
    requires p + |EncodeName(labels)| <= end <= MAX_DNS_MSG_SIZE
    requires msg[p..p + |EncodeName(labels)|] == EncodeName(labels)
    ensures Walk(msg, end, p) == Some(p + |EncodeName(labels)|)
    decreases |labels|
  {
    var enc := EncodeName(labels);
    assert msg[p] == msg[p..p + |enc|][0] == enc[0];
    if labels == [] {
    } else {
      var n := 1 + |labels[0]|;
      assert enc[n..] == EncodeName(labels[1..]);
      SliceOfSlice(msg, p, p + |enc|, n, |enc|);
      WalkStopsAfterName(msg, end, p + n, labels[1..]);
    }
  }

  // ---------------------------------------------------------------------------
  // The reply to a query
  // ---------------------------------------------------------------------------

  /** A query: header, first question, and whatever comes after it. */
  function Query(head: seq<byte>, labels: seq<Label>, qtype: uint16, qclass: uint16, rest: seq<byte>): seq<byte>
  {
    head + EncodeName(labels) + [qtype / 256, qtype % 256, qclass / 256, qclass % 256] + rest
  }

  /** Header fields of a standard query with at least one question. */
  predicate IsQueryHeader(head: seq<byte>) {
    && |head| == 12
    && Word16(head[2], head[3]) / 0x8000 == 0
    && Word16(head[2], head[3]) / 0x800 % 16 == 0
    && Word16(head[4], head[5]) >= 1
  }

  lemma {:induction false} QueryFields(
      head: seq<byte>, labels: seq<Label>, qtype: uint16, qclass: uint16, rest: seq<byte>)
    requires |head| == HEADER_SIZE
    ensures var m := Query(head, labels, qtype, qclass, rest);
            var p := HEADER_SIZE + |EncodeName(labels)|;
            && |m| == p + 4 + |rest|
            && m[..HEADER_SIZE] == head
            && m[HEADER_SIZE..p] == EncodeName(labels)
            && Word16(m[p], m[p + 1]) == qtype && Word16(m[p + 2], m[p + 3]) == qclass
            && m[p + 4..] == rest
  {
  }

  lemma {:induction false} QueryLayout(
      head: seq<byte>, labels: seq<Label>, qtype: uint16, qclass: uint16, rest: seq<byte>, junk: Buffer)
    requires IsQueryHeader(head) && |EncodeName(labels)| <= MAX_NAME
    ensures var q := HEADER_SIZE + |EncodeName(labels)| + 4;
            var msg := Received(Query(head, labels, qtype, qclass, rest), junk);
            && msg[..q] == Query(head, labels, qtype, qclass, [])
            && msg[HEADER_SIZE..q - 4] == EncodeName(labels)
            && q <= Min(|Query(head, labels, qtype, qclass, rest)|, MAX_DNS_MSG_SIZE)
  {
    var q := HEADER_SIZE + |EncodeName(labels)| + 4;
    var packet := Query(head, labels, qtype, qclass, rest);
    QueryFields(head, labels, qtype, qclass, rest);
    ReceivedPart(packet, junk, 0, q);
    ReceivedPart(packet, junk, HEADER_SIZE, q - 4);
    assert packet[0..q] == Query(head, labels, qtype, qclass, []);
  }

  const REPLY_HEADER: seq<byte> := [0x84, 0x80, 0, 1, 0, 1, 0, 0, 0, 0]

  /** Exactly which bytes the responder sends for a well-formed query. */
  lemma {:induction false} QueryIsAnswered(
      head: seq<byte>, labels: seq<Label>, qtype: uint16, qclass: uint16, rest: seq<byte>, junk: Buffer, ip: Ip4)
    requires IsQueryHeader(head) && |EncodeName(labels)| <= 255
    ensures Respond(Query(head, labels, qtype, qclass, rest), junk, ip) ==
            Some(Query(head[..2] + REPLY_HEADER, labels, qtype, qclass, AnswerBytes(ip)))
  {
    var packet := Query(head, labels, qtype, qclass, rest);
    var msg := Received(packet, junk);
    var q := HEADER_SIZE + |EncodeName(labels)| + 4;
    QueryLayout(head, labels, qtype, qclass, rest, junk);
    assert msg[2] == msg[..q][2] == head[2] && msg[4] == msg[..q][4] == head[4] && msg[5] == msg[..q][5] == head[5];
    FlagFields(head[2], head[3]);
    assert IsStandardQuery(msg);
    WalkStopsAfterName(msg, Min(|packet|, MAX_DNS_MSG_SIZE), HEADER_SIZE, labels);
    assert Respond(packet, junk, ip) == Some(ReplyBytes(msg, ip, q));
    ReplyIsQuery(msg, head, labels, qtype, qclass, ip);
  }

  lemma {:induction false} ReplyIsQuery(
      msg: Buffer, head: seq<byte>, labels: seq<Label>, qtype: uint16, qclass: uint16, ip: Ip4)
    requires |head| == HEADER_SIZE && |EncodeName(labels)| <= MAX_NAME
    requires var q := HEADER_SIZE + |EncodeName(labels)| + 4;
             msg[..q] == Query(head, labels, qtype, qclass, [])
    ensures ReplyBytes(msg, ip, HEADER_SIZE + |EncodeName(labels)| + 4) ==
            Query(head[..2] + REPLY_HEADER, labels, qtype, qclass, AnswerBytes(ip))
  {
    var q := HEADER_SIZE + |EncodeName(labels)| + 4;
    assert msg[..2] == msg[..q][..2] == head[..2];
    assert msg[HEADER_SIZE..q] == msg[..q][HEADER_SIZE..]
        == EncodeName(labels) + [qtype / 256, qtype % 256, qclass / 256, qclass % 256];
  }

  /** A name that does not end within the received bytes carries the walk to their end or past it. */
  lemma {:induction false} WalkOverruns(msg: Buffer, end: nat, p: nat, labels: seq<Label>)
    requires p <= end <= MAX_DNS_MSG_SIZE && end < p + |EncodeName(labels)|
    requires msg[p..end] == EncodeName(labels)[..end - p]
    ensures Walk(msg, end, p).Some? && Walk(msg, end, p).value >= end
    decreases |labels|
  {
    var enc := EncodeName(labels);
    if p >= end {
    } else {
      assert msg[p] == msg[p..end][0] == enc[0];
      if labels != [] && p + 1 + |labels[0]| <= end {
        var n := 1 + |labels[0]|;
        assert enc[n..] == EncodeName(labels[1..]);
        SliceOfSlice(msg, p, end, n, end - p);
        SliceOfSlice(enc, 0, end - p, n, end - p);
        assert enc[n..][..end - p - n] == enc[n..end - p];
        WalkOverruns(msg, end, p + n, labels[1..]);
      }
    }
  }

  lemma {:induction false} LongNameOverruns(
      head: seq<byte>, labels: seq<Label>, qtype: uint16, qclass: uint16, rest: seq<byte>, junk: Buffer)
    requires |head| == HEADER_SIZE && |EncodeName(labels)| > MAX_NAME
    ensures var packet := Query(head, labels, qtype, qclass, rest);
            var r := Walk(Received(packet, junk), Min(|packet|, MAX_DNS_MSG_SIZE), HEADER_SIZE);
            r.Some? && r.value - HEADER_SIZE > MAX_NAME
  {
    var packet := Query(head, labels, qtype, qclass, rest);
    var enc := EncodeName(labels);
    var msg := Received(packet, junk);
    var end := Min(|packet|, MAX_DNS_MSG_SIZE);
    var stop := Min(end, HEADER_SIZE + |enc|);
    QueryFields(head, labels, qtype, qclass, rest);
    SliceOfSlice(packet, HEADER_SIZE, HEADER_SIZE + |enc|, 0, stop - HEADER_SIZE);
    ReceivedPart(packet, junk, HEADER_SIZE, stop);
    if HEADER_SIZE + |enc| <= end {
      WalkStopsAfterName(msg, end, HEADER_SIZE, labels);
    } else {
      WalkOverruns(msg, end, HEADER_SIZE, labels);
    }
  }

  /** A well-formed query is answered exactly when its name takes at most 255 bytes. */
  lemma {:induction false} AnsweredIffNameFits(
      head: seq<byte>, labels: seq<Label>, qtype: uint16, qclass: uint16, rest: seq<byte>, junk: Buffer, ip: Ip4)
    requires IsQueryHeader(head)
    ensures Respond(Query(head, labels, qtype, qclass, rest), junk, ip).Some? <==> |EncodeName(labels)| <= 255
  {
    if |EncodeName(labels)| <= MAX_NAME {
      QueryIsAnswered(head, labels, qtype, qclass, rest, junk, ip);
    } else {
      LongNameOverruns(head, labels, qtype, qclass, rest, junk);
    }
  }

  /** A response, a query of another kind, one without a question or a cut header gets no answer. */
  lemma {:induction false} OtherMessagesAreIgnored(packet: seq<byte>, junk: Buffer, ip: Ip4)
    requires || |packet| < 12
             || packet[2] as int / 128 != 0 || packet[2] as int / 8 % 16 != 0 || (packet[4] == 0 && packet[5] == 0)
    ensures Respond(packet, junk, ip) == None
  {
    if |packet| >= 12 {
      ReceivedPart(packet, junk, 0, 12);
      assert forall k :: 0 <= k < 12 ==> Received(packet, junk)[k] == Received(packet, junk)[0..12][k] == packet[k];
    }
  }

  function EncodeLabels(labels: seq<Label>): seq<byte> {
    if labels == [] then [] else [|labels[0]|] + labels[0] + EncodeLabels(labels[1..])
  }

  lemma {:induction false} WalkMeetsLabel(msg: Buffer, end: nat, p: nat, labels: seq<Label>)
    requires p + |EncodeLabels(labels)| < end <= MAX_DNS_MSG_SIZE
    requires msg[p..p + |EncodeLabels(labels)|] == EncodeLabels(labels) && msg[p + |EncodeLabels(labels)|] > 63
    ensures Walk(msg, end, p) == None
    decreases |labels|
  {
    var enc := EncodeLabels(labels);
    if labels == [] {
    } else {
      var n := 1 + |labels[0]|;
      assert msg[p] == msg[p..p + |enc|][0] == enc[0];
      assert enc[n..] == EncodeLabels(labels[1..]);
      SliceOfSlice(msg, p, p + |enc|, n, |enc|);
      WalkMeetsLabel(msg, end, p + n, labels[1..]);
    }
  }

  /** A length byte above 63 after any labels, a compression pointer among them, makes the query ignored. */
  lemma {:induction false} LongLabelIsIgnored(
      head: seq<byte>, labels: seq<Label>, length: byte, rest: seq<byte>, junk: Buffer, ip: Ip4)
    requires IsQueryHeader(head) && length > 63 && 12 + |EncodeLabels(labels)| < 300
    ensures Respond(head + EncodeLabels(labels) + [length] + rest, junk, ip) == None
  {
    var packet := head + EncodeLabels(labels) + [length] + rest;
    var n := 12 + |EncodeLabels(labels)|;
    ReceivedPart(packet, junk, 0, n + 1);
    ReceivedPart(packet, junk, 12, n);
    assert packet[12..n] == EncodeLabels(labels);
    assert Received(packet, junk)[n] == Received(packet, junk)[0..n + 1][n] == packet[n] == length;
    WalkMeetsLabel(Received(packet, junk), Min(|packet|, MAX_DNS_MSG_SIZE), 12, labels);
  }

  /**
   * A standard decoder reads from the reply the asker's id, flags 0x8480, the first question
   * unchanged, and one answer: the asked name (through the compression pointer), type A, class IN,
   * 60 seconds, the server's address. Nothing else is in the message.
   */
  lemma {:induction false} ReplyDecodes(
      head: seq<byte>, labels: seq<Label>, qtype: uint16, qclass: uint16, rest: seq<byte>, junk: Buffer, ip: Ip4)
    requires IsQueryHeader(head) && |EncodeName(labels)| <= 255
    ensures var reply := Respond(Query(head, labels, qtype, qclass, rest), junk, ip);
            && reply.Some?
            && Decode(reply.value) == Some(Message(
                 Word16(head[0], head[1]), 0x8480,
                 [Question(labels, qtype, qclass)],
                 [Record(labels, 1, 1, 60, ip)], [], []))
  {
    QueryIsAnswered(head, labels, qtype, qclass, rest, junk, ip);
    AnsweredQueryDecodes(head[..2] + REPLY_HEADER, labels, qtype, qclass, ip);
  }

  lemma {:induction false} AnsweredQueryDecodes(
      h: seq<byte>, labels: seq<Label>, qtype: uint16, qclass: uint16, ip: Ip4)
    requires |h| == HEADER_SIZE && h[2..] == REPLY_HEADER
    ensures Decode(Query(h, labels, qtype, qclass, AnswerBytes(ip))) == Some(Message(
              Word16(h[0], h[1]), 0x8480,
              [Question(labels, qtype, qclass)],
              [Record(labels, 1, 1, 60, ip)], [], []))
  {
    var reply := Query(h, labels, qtype, qclass, AnswerBytes(ip));
    QueryFields(h, labels, qtype, qclass, AnswerBytes(ip));
    var p := HEADER_SIZE + |EncodeName(labels)|;
    NameRoundTrip(reply, HEADER_SIZE, HEADER_SIZE, labels);
    AnswerDecodes(reply, p + 4, labels, ip);
    DecodeOneOfEach(reply, h, p + 4, Question(labels, qtype, qclass), Record(labels, 1, 1, 60, ip));
  }

  lemma {:induction false} OneOfEach(msg: seq<byte>, a: nat, b: nat, q: Question, r: Record)
    requires DecodeQuestion(msg, a) == Good(q, b) && DecodeRecord(msg, b) == Good(r, |msg|)
    ensures DecodeQuestions(msg, a, 1) == Good([q], b)
    ensures DecodeRecords(msg, b, 1) == Good([r], |msg|)
    ensures DecodeRecords(msg, |msg|, 0) == Good([], |msg|)
  {
    assert [q] + [] == [q] && [r] + [] == [r];
    assert DecodeQuestions(msg, b, 0) == Good([], b) && DecodeRecords(msg, |msg|, 0) == Good([], |msg|);
  }

  lemma {:induction false} DecodeOneOfEach(msg: seq<byte>, h: seq<byte>, b: nat, q: Question, r: Record)
    requires |h| == HEADER_SIZE <= |msg| && msg[..HEADER_SIZE] == h && h[2..] == REPLY_HEADER
    requires DecodeQuestion(msg, HEADER_SIZE) == Good(q, b) && DecodeRecord(msg, b) == Good(r, |msg|)
    ensures Decode(msg) == Some(Message(Word16(h[0], h[1]), 0x8480, [q], [r], [], []))
  {
    OneOfEach(msg, HEADER_SIZE, b, q, r);
    assert forall i :: 0 <= i < HEADER_SIZE ==> msg[i] == msg[..HEADER_SIZE][i] == h[i];
    assert forall i :: 2 <= i < HEADER_SIZE ==> h[i] == h[2..][i - 2] == REPLY_HEADER[i - 2];
  }

  /** The bytes of the answer at their places in the reply. */
  lemma {:induction false} AnswerLayout(reply: seq<byte>, a: nat, ip: Ip4)
    requires a <= |reply| && reply[a..] == AnswerBytes(ip)
    ensures |reply| == a + ANSWER_SIZE
    ensures reply[a] == 0xc0 && reply[a + 1] == HEADER_SIZE
    ensures Word16(reply[a + 2], reply[a + 3]) == 1 && Word16(reply[a + 4], reply[a + 5]) == 1
    ensures Word16(reply[a + 6], reply[a + 7]) == 0 && Word16(reply[a + 8], reply[a + 9]) == 60
    ensures Word16(reply[a + 10], reply[a + 11]) == 4
    ensures reply[a + 12..a + 16] == ip
  {
    assert forall i :: 0 <= i < ANSWER_SIZE ==> reply[a + i] == reply[a..][i];
    assert reply[a + 0] == 0xc0;
    SliceOfSlice(reply, a, |reply|, 12, 16);
    assert AnswerBytes(ip)[12..16] == ip;
  }

  lemma {:induction false} AnswerDecodes(reply: seq<byte>, a: nat, labels: seq<Label>, ip: Ip4)
    requires HEADER_SIZE < a <= |reply| && reply[a..] == AnswerBytes(ip)
    requires exists n :: DecodeName(reply, HEADER_SIZE, HEADER_SIZE) == Good(labels, n)
    ensures DecodeRecord(reply, a) == Good(Record(labels, 1, 1, 60, ip), |reply|)
  {
    AnswerLayout(reply, a, ip);
    assert DecodeName(reply, a, a) == Good(labels, a + 2);
    RecordFields(reply, a, a + 2, labels, ip);
  }

  lemma {:induction false} RecordFields(reply: seq<byte>, a: nat, p: nat, labels: seq<Label>, ip: Ip4)
    requires DecodeName(reply, a, a) == Good(labels, p) && p + 14 == |reply|
    requires Word16(reply[p], reply[p + 1]) == 1 && Word16(reply[p + 2], reply[p + 3]) == 1
    requires Word16(reply[p + 4], reply[p + 5]) == 0 && Word16(reply[p + 6], reply[p + 7]) == 60
    requires Word16(reply[p + 8], reply[p + 9]) == 4 && reply[p + 10..p + 14] == ip
    ensures DecodeRecord(reply, a) == Good(Record(labels, 1, 1, 60, ip), |reply|)
  {
  }
}
