/**
 * A connected socket as a script: what recv hands over piece by piece, what send takes piece by
 * piece, and the bytes put on the wire. A peer's close is the end of the script or an empty chunk.
 */
module HttpSocket {
  import opened Bytes

  datatype RecvEvent = Chunk(data: string) | Interrupted | Failed

  datatype RecvResult = Got(data: string) | Closed | Retry | Error

  function Weight(script: seq<RecvEvent>): nat {
    if script == [] then 0
    else 1 + (if script[0].Chunk? then |script[0].data| else 0) + Weight(script[1..])
  }

  /** One recv with room for that many bytes; what does not fit stays queued. */
  function Recv(script: seq<RecvEvent>, room: nat): (r: (RecvResult, seq<RecvEvent>))
    requires room > 0
    ensures r.0.Got? ==> 0 < |r.0.data| <= room
    ensures r.0.Got? || r.0.Retry? ==> Weight(r.1) < Weight(script)
  {
    if script == [] then (Closed, script)
    else
      var rest := script[1..];
      match script[0]
      case Interrupted => (Retry, rest)
      case Failed => (Error, rest)
      case Chunk(d) =>
        if d == "" then (Closed, rest)
        else if |d| <= room then (Got(d), rest)
        else
          var left := [Chunk(d[room..])] + rest;
          assert left[1..] == rest;
          (Got(d[..room]), left)
  }

  /** All the bytes the peer gets across before it closes or the connection fails. */
  function Stream(script: seq<RecvEvent>): string {
    if script == [] then ""
    else
      match script[0]
      case Interrupted => Stream(script[1..])
      case Failed => ""
      case Chunk(d) => if d == "" then "" else d + Stream(script[1..])
  }

  datatype Ending = PeerCloses | ReadFails

  function EndingOf(script: seq<RecvEvent>): Ending {
    if script == [] then PeerCloses
    else
      match script[0]
      case Interrupted => EndingOf(script[1..])
      case Failed => ReadFails
      case Chunk(d) => if d == "" then PeerCloses else EndingOf(script[1..])
  }

  /** recv takes its bytes off the front of the stream, and reports its end as it is. */
  lemma {:induction false} RecvTakesFromStream(script: seq<RecvEvent>, room: nat)
    requires room > 0
    ensures var (r, rest) := Recv(script, room);
            match r
            case Got(d) => Stream(script) == d + Stream(rest) && EndingOf(script) == EndingOf(rest)
            case Retry => Stream(script) == Stream(rest) && EndingOf(script) == EndingOf(rest)
            case Closed => Stream(script) == "" && EndingOf(script) == PeerCloses
            case Error => Stream(script) == "" && EndingOf(script) == ReadFails
  {
    if script != [] && script[0].Chunk? && |script[0].data| > room {
      var d, rest := script[0].data, script[1..];
      var left := [Chunk(d[room..])] + rest;
      assert left[1..] == rest;
      assert d[..room] + (d[room..] + Stream(rest)) == d + Stream(rest);
    }
  }

  /** recv is never interrupted by a signal. */
  predicate Uninterrupted(script: seq<RecvEvent>) {
    forall e :: e in script ==> !e.Interrupted?
  }

  lemma {:induction false} UninterruptedRecv(script: seq<RecvEvent>, room: nat)
    requires room > 0 && Uninterrupted(script)
    ensures !Recv(script, room).0.Retry?
    ensures Recv(script, room).0.Got? ==> Uninterrupted(Recv(script, room).1)
  {
  }

  /** The bytes that arrive before the first close, failure or interruption. */
  function Arriving(script: seq<RecvEvent>): string {
    if script == [] || !script[0].Chunk? || script[0].data == "" then ""
    else script[0].data + Arriving(script[1..])
  }

  lemma {:induction false} RecvTakesArriving(script: seq<RecvEvent>, room: nat)
    requires room > 0
    ensures var (r, rest) := Recv(script, room);
            Arriving(script) == if r.Got? then r.data + Arriving(rest) else ""
  {
    if script != [] && script[0].Chunk? && |script[0].data| > room {
      var d, rest := script[0].data, script[1..];
      var left := [Chunk(d[room..])] + rest;
      assert left[1..] == rest;
      assert d[..room] + (d[room..] + Arriving(rest)) == d + Arriving(rest);
    }
  }

  /** Without interruptions that is the whole stream. */
  lemma {:induction false} UninterruptedArrives(script: seq<RecvEvent>)
    requires Uninterrupted(script)
    ensures Arriving(script) == Stream(script)
  {
    if script == [] {
    } else {
      assert script[0] in script;
      UninterruptedArrives(script[1..]);
    }
  }

  // ---------------------------------------------------------------------------
  // Sending
  // ---------------------------------------------------------------------------

  datatype SendEvent = Takes(n: nat) | SendInterrupted | SendFails

  datatype SendResult = Took(n: nat) | SendRetry | SendError

  /** One send of that many bytes. A result of zero is an error to both servers. */
  function Send(script: seq<SendEvent>, want: nat): (r: (SendResult, seq<SendEvent>))
    requires want > 0
    ensures r.0.Took? ==> 0 < r.0.n <= want
    ensures !r.0.SendError? ==> |r.1| < |script|
  {
    if script == [] then (SendError, script)
    else
      match script[0]
      case SendInterrupted => (SendRetry, script[1..])
      case SendFails => (SendError, script[1..])
      case Takes(n) => (if n == 0 then SendError else Took(Min(n, want)), script[1..])
  }

  class Socket {
    var incoming: seq<RecvEvent>
    var outgoing: seq<SendEvent>
    var wire: string

    constructor (incoming: seq<RecvEvent>, outgoing: seq<SendEvent>)
      ensures this.incoming == incoming && this.outgoing == outgoing && wire == ""
    {
      this.incoming, this.outgoing, wire := incoming, outgoing, "";
    }

    method Receive(room: nat) returns (r: RecvResult)
      requires room > 0
      modifies this`incoming
      ensures (r, incoming) == Recv(old(incoming), room)
    {
      var (result, rest) := Recv(incoming, room);
      r, incoming := result, rest;
    }

    method Transmit(data: string) returns (r: SendResult)
      requires data != ""
      modifies this`outgoing, this`wire
      ensures (r, outgoing) == Send(old(outgoing), |data|)
      ensures wire == old(wire) + if r.Took? then data[..r.n] else ""
    {
      var (result, rest) := Send(outgoing, |data|);
      r, outgoing := result, rest;
      if r.Took? {
        wire := wire + data[..r.n];
      }
    }
  }
}
