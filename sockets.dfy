/**
  The environment of every connection handler: a stream socket.  What the
  peer will deliver is a sequence of segments, each either the data one
  `recv` can see at that moment or the exception `recv` raises (a reset or a
  timeout).  `sendall` appends to a log of everything written and raises once
  the peer no longer accepts data.
*/
module Sockets {
  import opened Wrappers

  /** What the next `recv` finds: available data (empty data is end of
      stream) or an exception with its message. */
  datatype Segment = Data(text: string) | Fault(message: string)

  /** The text a reader can obtain before the stream ends: the data up to the
      first empty segment or the first fault. */
  function Stream(segs: seq<Segment>): string {
    if segs == [] then ""
    else match segs[0]
      case Fault(_) => ""
      case Data(c) => if c == "" then "" else c + Stream(segs[1..])
  }

  /** A measure that every non-empty read decreases. */
  function Weight(segs: seq<Segment>): nat {
    if segs == [] then 0
    else match segs[0]
      case Fault(_) => 1 + Weight(segs[1..])
      case Data(c) => |c| + 1 + Weight(segs[1..])
  }

  /** The outcome of one `recv(bufsize)` and the segments still to come. */
  datatype Reception = Reception(result: Result<string, string>, remaining: seq<Segment>)

  /** One `recv(bufsize)`: at most `bufsize` characters of the available data,
      the rest staying available; an exhausted stream reads as empty data; a
      fault is raised. */
  function Receive(segs: seq<Segment>, bufsize: nat): (r: Reception)
    requires bufsize > 0
    ensures r.result.Success? ==> |r.result.value| <= bufsize
    ensures r.result.Success? && r.result.value != "" ==>
              Stream(segs) == r.result.value + Stream(r.remaining)
              && Weight(r.remaining) < Weight(segs)
    ensures r.result.Failure? || r.result.value == "" ==> Stream(segs) == ""
    ensures r.result.Failure? ==> Weight(r.remaining) < Weight(segs)
  {
    if segs == [] then Reception(Success(""), [])
    else match segs[0]
      case Fault(m) => Reception(Failure(m), segs[1..])
      case Data(c) =>
        if |c| <= bufsize then Reception(Success(c), segs[1..])
        else
          var rest := [Data(c[bufsize..])] + segs[1..];
          assert rest[1..] == segs[1..];
          assert c == c[..bufsize] + c[bufsize..];
          Reception(Success(c[..bufsize]), rest)
  }

  /** One connected socket, seen from the side that owns it. */
  class Connection {
    /** What the peer will deliver, in order. */
    var incoming: seq<Segment>
    /** Everything `sendall` has written, one entry per call. */
    var sent: seq<string>
    /** How many more `sendall` calls succeed before the peer resets. */
    var sendsLeft: nat
    /** The message of the exception a failing `sendall` raises. */
    const resetError: string
    var closed: bool

    constructor (incoming: seq<Segment>, sendsLeft: nat, resetError: string)
      ensures this.incoming == incoming && this.sendsLeft == sendsLeft
      ensures this.resetError == resetError
      ensures sent == [] && !closed
    {
      this.incoming := incoming;
      this.sendsLeft := sendsLeft;
      this.resetError := resetError;
      sent := [];
      closed := false;
    }

    /** `recv(bufsize)`: a raised exception is returned as `Failure`. */
    method Recv(bufsize: nat) returns (r: Result<string, string>)
      requires bufsize > 0
      modifies this`incoming
      ensures Reception(r, incoming) == Receive(old(incoming), bufsize)
    {
      var next := Receive(incoming, bufsize);
      r, incoming := next.result, next.remaining;
    }

    /** `sendall(msg)`: false when it raises, having written nothing. */
    method SendAll(msg: string) returns (ok: bool)
      modifies this`sent, this`sendsLeft
      ensures ok == (old(sendsLeft) > 0)
      ensures sent == if ok then old(sent) + [msg] else old(sent)
      ensures sendsLeft == if ok then old(sendsLeft) - 1 else old(sendsLeft)
    {
      ok := sendsLeft > 0;
      if ok {
        sent := sent + [msg];
        sendsLeft := sendsLeft - 1;
      }
    }

    method Close()
      modifies this`closed
      ensures closed
    {
      closed := true;
    }
  }
}
