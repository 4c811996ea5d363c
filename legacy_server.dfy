/**
  The connection thread of the original threaded server (`ProcessTheClient`
  in file_server.py).  It does not frame on the terminator: it accumulates
  reads of up to 32768 bytes and treats the first read shorter than that, or
  the end of the stream, as the end of the one request it serves.  The
  accumulated text goes to the codec once, its reply is written back followed
  by the terminator, and the connection is closed.
*/
module LegacyServer {
  import opened Wrappers
  import opened Framing
  import opened Sockets
  import opened PoolServer

  /** The `recv` size of the threaded server. */
  const LegacyRecvSize: nat := 32768

  /** The request the thread hands to the codec, given the text already
      accumulated and what the peer will still deliver: `None` when it hands
      over nothing.  A non-empty read shorter than the `recv` size ends the
      request; an empty read ends it when something was accumulated; a raised
      `recv` ends the thread with nothing dispatched. */
  function Request(acc: string, segs: seq<Segment>): Option<string>
    decreases Weight(segs)
  {
    var next := Receive(segs, LegacyRecvSize);
    match next.result
    case Failure(_) => None
    case Success(data) =>
      if data == "" then (if acc == "" then None else Some(acc))
      else if |data| < LegacyRecvSize then Some(acc + data)
      else Request(acc + data, next.remaining)
  }

  /** The frames the thread hands to the codec: none or the one request. */
  function Dispatched(segs: seq<Segment>): seq<string> {
    match Request("", segs)
    case None => []
    case Some(c) => [c]
  }

  /** The connection thread. */
  class ProcessTheClient {
    const connection: Connection

    constructor (connection: Connection)
      ensures this.connection == connection
    {
      this.connection := connection;
    }

    /** `run`: serves one request and closes the connection; returns the
        commands handed to the codec (at most one).  An exception from `recv`,
        the codec or `sendall` ends the loop and is not propagated. */
    method Run(process: Codec) returns (commands: seq<string>)
      modifies connection
      ensures connection.closed
      ensures var s := Serve(Dispatched(old(connection.incoming)), process, old(connection.sendsLeft));
              && commands == s.commands
              && connection.sent == old(connection.sent) + s.responses
              && connection.sendsLeft == old(connection.sendsLeft) - |s.responses|
    {
      var rcv := "";
      commands := [];
      while true
        invariant Request("", old(connection.incoming)) == Request(rcv, connection.incoming)
        invariant connection.sent == old(connection.sent)
        invariant connection.sendsLeft == old(connection.sendsLeft)
        decreases Weight(connection.incoming)
      {
        var r := connection.Recv(LegacyRecvSize);
        if r.Failure? {
          // recv raised: logged, the loop ends
          break;
        }
        var data := r.value;
        if data != "" {
          rcv := rcv + data;
          if |data| < LegacyRecvSize {
            commands := Reply(process, rcv);
            break;
          }
        } else {
          if rcv != "" {
            commands := Reply(process, rcv);
          }
          break;
        }
      }
      connection.Close();
    }

    /** Hands the request to the codec and writes its reply followed by the
        terminator; an exception from either is swallowed by `run`. */
    method Reply(process: Codec, request: string) returns (commands: seq<string>)
      modifies connection`sent, connection`sendsLeft
      ensures var s := Serve([request], process, old(connection.sendsLeft));
              && commands == s.commands
              && connection.sent == old(connection.sent) + s.responses
              && connection.sendsLeft == old(connection.sendsLeft) - |s.responses|
    {
      commands := [request];
      var hasil := process(request);
      if hasil.Some? {
        var ok := connection.SendAll(hasil.value + Terminator);
      }
    }
  }

  // ---------------------------------------------------------------------------
  // Properties of the short-read framing

  /** The codec is called at most once per connection, and only with
      non-empty text. */
  lemma {:induction false} RequestNonEmpty(acc: string, segs: seq<Segment>)
    ensures Request(acc, segs).Some? ==> Request(acc, segs).value != ""
    decreases Weight(segs)
  {
    var next := Receive(segs, LegacyRecvSize);
    if next.result.Success? && next.result.value != "" && |next.result.value| >= LegacyRecvSize {
      RequestNonEmpty(acc + next.result.value, next.remaining);
    }
  }

  /** What is dispatched is the accumulated text followed by a prefix of what
      the peer delivers, with no regard for any terminator inside it. */
  lemma {:induction false} RequestIsPrefix(acc: string, segs: seq<Segment>)
    ensures Request(acc, segs).Some? ==>
              var c := Request(acc, segs).value;
              |acc| <= |c| <= |acc| + |Stream(segs)| && c == acc + Stream(segs)[..|c| - |acc|]
    decreases Weight(segs)
  {
    var next := Receive(segs, LegacyRecvSize);
    if next.result.Success? && Request(acc, segs).Some? {
      var data := next.result.value;
      var rest := Stream(next.remaining);
      var c := Request(acc, segs).value;
      if data == "" {
        assert Stream(segs) == "" && c == acc;
        assert acc + Stream(segs)[..0] == acc;
      } else {
        assert Stream(segs) == data + rest;
        if |data| < LegacyRecvSize {
          PrefixConcat(data, rest, 0);
          assert data + rest[..0] == data;
        } else {
          RequestIsPrefix(acc + data, next.remaining);
          var k := |c| - |acc| - |data|;
          PrefixConcat(data, rest, k);
          AppendAssoc(acc, data, rest[..k]);
        }
      }
    }
  }

  /** Every read is a whole number of full `recv` buffers and nothing
      fails. */
  predicate FullReads(segs: seq<Segment>) {
    forall k :: 0 <= k < |segs| ==> segs[k].Data? && |segs[k].text| % LegacyRecvSize == 0
  }

  /** When no read is short, the whole stream is accumulated and dispatched at
      its end, once, if it is not empty. */
  lemma {:induction false} FullReadsWaitForEnd(acc: string, segs: seq<Segment>)
    requires FullReads(segs)
    ensures Request(acc, segs) == if acc + Stream(segs) == "" then None else Some(acc + Stream(segs))
    decreases Weight(segs)
  {
    if segs != [] && segs[0].text != "" {
      var c := segs[0].text;
      var next := Receive(segs, LegacyRecvSize);
      var data := next.result.value;
      if |c| <= LegacyRecvSize {
        assert |c| == LegacyRecvSize;
        assert next.remaining == segs[1..];
        assert FullReads(segs[1..]) by {
          forall k | 0 <= k < |segs[1..]| ensures segs[1..][k] == segs[k + 1] { }
        }
      } else {
        assert next.remaining == [Data(c[LegacyRecvSize..])] + segs[1..];
        assert |c[LegacyRecvSize..]| % LegacyRecvSize == 0;
        assert FullReads(next.remaining) by {
          forall k | 1 <= k < |next.remaining| ensures next.remaining[k] == segs[k] { }
        }
      }
      assert |data| == LegacyRecvSize;
      assert Stream(segs) == data + Stream(next.remaining);
      assert Request(acc, segs) == Request(acc + data, next.remaining);
      FullReadsWaitForEnd(acc + data, next.remaining);
      AppendAssoc(acc, data, Stream(next.remaining));
    } else {
      assert Stream(segs) == "";
      assert acc + Stream(segs) == acc;
    }
  }

  /** A full read never triggers dispatch by itself: it is only
      accumulated. */
  lemma FullReadAccumulates(acc: string, c: string, segs: seq<Segment>)
    requires |c| == LegacyRecvSize
    ensures Request(acc, [Data(c)] + segs) == Request(acc + c, segs)
  {
    assert ([Data(c)] + segs)[1..] == segs;
  }

  /** A short read ends the request whatever follows it, so a request that
      reaches the server in several short pieces is dispatched cut after the
      first piece. */
  lemma ShortReadEndsRequest(acc: string, c: string, segs: seq<Segment>)
    requires 0 < |c| < LegacyRecvSize
    ensures Request(acc, [Data(c)] + segs) == Some(acc + c)
  {
  }

  /** At the end of the stream the accumulated text is dispatched, if there is
      any. */
  lemma EndOfStream(acc: string)
    ensures Request(acc, []) == if acc == "" then None else Some(acc)
  {
  }

  /** Unlike the pool servers, the threaded server does not split on the
      terminator: two pipelined commands arriving in one short read are
      dispatched as a single request, whatever follows, where a pool server
      sees two frames. */
  lemma PipelinedCommandsMerge(c1: string, c2: string, segs: seq<Segment>)
    requires Framable(c1) && Framable(c2)
    requires |c1 + Terminator + c2 + Terminator| < LegacyRecvSize
    ensures var wire := c1 + Terminator + c2 + Terminator;
            Dispatched([Data(wire)] + segs) == [wire] && Split(wire).frames == [c1, c2]
  {
    var wire := c1 + Terminator + c2 + Terminator;
    ShortReadEndsRequest("", wire, segs);
    assert "" + wire == wire;
    Pipelining(c1, c2);
  }
}
