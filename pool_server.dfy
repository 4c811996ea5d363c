/**
  The connection worker of the thread-pool server (`Server.handle_client` in
  file_server_multithread_pool.py): read up to 1 MiB at a time, append it to a
  buffer, and while the buffer holds a terminator cut off the command before
  the leftmost one, hand it to the protocol codec and write the reply followed
  by the terminator.  The first exception ends the session; the connection is
  closed on every path and no exception leaves the worker.
*/
module PoolServer {
  import opened Wrappers
  import opened Framing
  import opened Sockets

  /** The `recv` size of both pool servers: 1 MiB. */
  const RecvSize: nat := 1048576

  /** `FileProtocol.proses_string`: the reply to a command, or `None` when it
      raises. */
  type Codec = string -> Option<string>

  /** What a session did: the commands handed to the codec, in order, and the
      responses written back, in order. */
  datatype Session = Session(commands: seq<string>, responses: seq<string>)

  /** The codec answers every one of these commands. */
  predicate AllReplied(commands: seq<string>, process: Codec) {
    forall k :: 0 <= k < |commands| ==> process(commands[k]).Some?
  }

  /** The wire responses to commands the codec answers: each reply followed by
      the terminator. */
  function Replies(commands: seq<string>, process: Codec): seq<string>
    requires AllReplied(commands, process)
  {
    seq(|commands|, k requires 0 <= k < |commands| => process(commands[k]).value + Terminator)
  }

  /** The reference behaviour of a worker on the frames a connection carries,
      given how many writes the peer accepts: every frame goes to the codec in
      order and its reply is written back, until the codec raises or a write
      fails; the frame that failed was handed to the codec, nothing after it. */
  function Serve(frames: seq<string>, process: Codec, sendsLeft: nat): (s: Session)
    ensures |s.responses| <= |s.commands| <= |frames|
    ensures s.commands == frames[..|s.commands|]
    ensures |s.responses| <= sendsLeft
    ensures |s.commands| <= |s.responses| + 1
    decreases |frames|
  {
    if frames == [] then Session([], [])
    else match process(frames[0])
      case None => Session([frames[0]], [])
      case Some(reply) =>
        if sendsLeft == 0 then Session([frames[0]], [])
        else
          var more := Serve(frames[1..], process, sendsLeft - 1);
          Session([frames[0]] + more.commands, [reply + Terminator] + more.responses)
  }

  /** When the codec answers every frame and the peer accepts every write, each
      frame is answered, in order, by its reply and the terminator. */
  lemma {:induction false} ServeAllReplied(frames: seq<string>, process: Codec, sendsLeft: nat)
    requires AllReplied(frames, process) && |frames| <= sendsLeft
    ensures Serve(frames, process, sendsLeft) == Session(frames, Replies(frames, process))
    decreases |frames|
  {
    if frames != [] {
      assert process(frames[0]).Some?;
      ServeAllReplied(frames[1..], process, sendsLeft - 1);
      assert frames == [frames[0]] + frames[1..];
      assert Replies(frames, process)
          == [process(frames[0]).value + Terminator] + Replies(frames[1..], process);
    }
  }

  /** A session whose first frame is answered and written. */
  lemma ServeCons(frames: seq<string>, process: Codec, sendsLeft: nat)
    requires frames != [] && process(frames[0]).Some? && sendsLeft > 0
    ensures var more := Serve(frames[1..], process, sendsLeft - 1);
            Serve(frames, process, sendsLeft)
              == Session([frames[0]] + more.commands, [process(frames[0]).value + Terminator] + more.responses)
  {
  }

  /** The k-th response of a session is the codec's reply to the k-th
      dispatched command followed by the terminator. */
  lemma {:induction false} ServeReplies(frames: seq<string>, process: Codec, sendsLeft: nat)
    ensures var s := Serve(frames, process, sendsLeft);
            forall k :: 0 <= k < |s.responses| ==>
              process(s.commands[k]).Some? && s.responses[k] == process(s.commands[k]).value + Terminator
    decreases |frames|
  {
    var s := Serve(frames, process, sendsLeft);
    if frames != [] && process(frames[0]).Some? && sendsLeft > 0 {
      var more := Serve(frames[1..], process, sendsLeft - 1);
      ServeCons(frames, process, sendsLeft);
      ServeReplies(frames[1..], process, sendsLeft - 1);
      forall k | 0 <= k < |s.responses|
        ensures process(s.commands[k]).Some? && s.responses[k] == process(s.commands[k]).value + Terminator
      {
        if k > 0 {
          assert s.commands[k] == more.commands[k - 1];
          assert s.responses[k] == more.responses[k - 1];
        }
      }
    } else {
      assert s.responses == [];
    }
  }

  /** How a session ends: when every dispatched command was answered, every
      frame was dispatched; otherwise the last command is the one at which
      the codec raised or the write failed. */
  lemma {:induction false} ServeEnds(frames: seq<string>, process: Codec, sendsLeft: nat)
    ensures var s := Serve(frames, process, sendsLeft);
            && (|s.commands| == |s.responses| ==> s.commands == frames)
            && (|s.commands| == |s.responses| + 1 ==>
                  process(s.commands[|s.responses|]).None? || |s.responses| == sendsLeft)
    decreases |frames|
  {
    var s := Serve(frames, process, sendsLeft);
    if frames != [] && process(frames[0]).Some? && sendsLeft > 0 {
      var more := Serve(frames[1..], process, sendsLeft - 1);
      ServeCons(frames, process, sendsLeft);
      ServeEnds(frames[1..], process, sendsLeft - 1);
      if |s.commands| == |s.responses| {
        assert frames == [frames[0]] + frames[1..];
      } else if |s.commands| == |s.responses| + 1 {
        assert s.commands[|s.responses|] == more.commands[|more.responses|];
      }
    } else if frames != [] {
      assert s == Session([frames[0]], []);
    }
  }

  /** The first failure ends the session: the failing command was handed to the
      codec, its predecessors were answered, and nothing after it is touched. */
  lemma {:induction false} ServeStopsAtFailure(done: seq<string>, c: string, later: seq<string>,
                                               process: Codec, sendsLeft: nat)
    requires AllReplied(done, process) && |done| <= sendsLeft
    requires process(c).None? || |done| == sendsLeft
    ensures Serve(done + [c] + later, process, sendsLeft)
         == Session(done + [c], Replies(done, process))
    decreases |done|
  {
    var frames := done + [c] + later;
    if done == [] {
      assert frames[0] == c;
    } else {
      assert frames[0] == done[0];
      assert frames[1..] == done[1..] + [c] + later;
      assert process(done[0]).Some?;
      ServeStopsAtFailure(done[1..], c, later, process, sendsLeft - 1);
      assert done + [c] == [done[0]] + (done[1..] + [c]);
      assert Replies(done, process)
          == [process(done[0]).value + Terminator] + Replies(done[1..], process);
    }
  }

  /** Frame lists regrouped around one frame. */
  lemma Regroup(a: seq<string>, c: string, b: seq<string>, y: seq<string>)
    ensures (a + ([c] + b)) + y == a + [c] + (b + y)
    ensures a + ([c] + b) == a + [c] + b
  {
  }

  /** Cutting the next frame off the buffer: the received text's frames are
      the dispatched commands, that frame, then the frames still to come. */
  lemma NextFrame(received: string, more: string, commands: seq<string>, buffer: string)
    returns (later: seq<string>)
    requires Split(received) == Framed(commands + Split(buffer).frames, Split(buffer).rest)
    requires Find(buffer).Some?
    ensures var i := Find(buffer).value;
            var tail := buffer[i + |Terminator|..];
            && Split(received) == Framed(commands + [buffer[..i]] + Split(tail).frames, Split(tail).rest)
            && Split(received + more).frames == commands + [buffer[..i]] + later
  {
    var i := Find(buffer).value;
    var tail := buffer[i + |Terminator|..];
    SplitStep(buffer);
    var y := Split(Split(received).rest + more).frames;
    SplitAppend(received, more);
    Regroup(commands, buffer[..i], Split(tail).frames, y);
    later := Split(tail).frames + y;
  }

  /** Answering one more command extends the responses by its reply. */
  lemma RepliesSnoc(commands: seq<string>, c: string, process: Codec)
    requires AllReplied(commands, process) && process(c).Some?
    ensures AllReplied(commands + [c], process)
    ensures Replies(commands + [c], process)
         == Replies(commands, process) + [process(c).value + Terminator]
  {
    assert forall k :: 0 <= k < |commands| ==> (commands + [c])[k] == commands[k];
  }

  /** The inner loop of `Server.handle_client`: while the buffer holds a
      terminator, cut off the command before the leftmost one, hand it to the
      codec and write its reply.  `stopped` is set when the codec or `sendall`
      raised; the session then ends with `commands` as Serve has it for the
      whole stream, whatever is still unread. */
  method DispatchBuffered(conn: Connection, process: Codec, buffer: string, commands: seq<string>,
                          ghost received: string, ghost sent0: seq<string>, ghost budget: nat)
    returns (rest: string, dispatched: seq<string>, stopped: bool)
    requires Split(received) == Framed(commands + Split(buffer).frames, Split(buffer).rest)
    requires AllReplied(commands, process) && |commands| <= budget
    requires conn.sent == sent0 + Replies(commands, process)
    requires conn.sendsLeft == budget - |commands|
    modifies conn`sent, conn`sendsLeft
    ensures !stopped ==> && !HasTerminator(rest)
                         && Split(received) == Framed(dispatched, rest)
                         && Join(dispatched) + rest == received
                         && AllReplied(dispatched, process) && |dispatched| <= budget
                         && conn.sent == sent0 + Replies(dispatched, process)
                         && conn.sendsLeft == budget - |dispatched|
    ensures stopped ==> var s := Serve(Split(received + Stream(conn.incoming)).frames, process, budget);
                        && dispatched == s.commands
                        && conn.sent == sent0 + s.responses
                        && conn.sendsLeft == budget - |s.responses|
  {
    rest, dispatched, stopped := buffer, commands, false;
    while HasTerminator(rest)
      invariant Split(received) == Framed(dispatched + Split(rest).frames, Split(rest).rest)
      invariant AllReplied(dispatched, process) && |dispatched| <= budget
      invariant conn.sent == sent0 + Replies(dispatched, process)
      invariant conn.sendsLeft == budget - |dispatched|
      decreases |rest|
    {
      var i := Find(rest).value;
      ghost var later := NextFrame(received, Stream(conn.incoming), dispatched, rest);
      var command := rest[..i];
      rest := rest[i + |Terminator|..];
      ghost var done := dispatched;
      dispatched := dispatched + [command];
      var hasil := process(command);
      if hasil.None? {
        // proses_string raised: caught by the handler, the connection is closed
        ServeStopsAtFailure(done, command, later, process, budget);
        return rest, dispatched, true;
      }
      var ok := conn.SendAll(hasil.value + Terminator);
      if !ok {
        // sendall raised: caught by the handler, the connection is closed
        ServeStopsAtFailure(done, command, later, process, budget);
        return rest, dispatched, true;
      }
      RepliesSnoc(done, command, process);
    }
    assert Split(rest) == Framed([], rest);
    assert dispatched + [] == dispatched;
    SplitReassembles(received);
  }

  /** `Server.handle_client`: serves one connection until the peer closes it,
      `recv` raises, the codec raises or `sendall` raises, then closes it.
      Returns the commands handed to the codec.  What it does is a function of
      the concatenated received text alone, not of how that text was split
      into reads. */
  method HandleClient(conn: Connection, process: Codec) returns (commands: seq<string>)
    modifies conn
    ensures conn.closed
    ensures var s := Serve(Split(Stream(old(conn.incoming))).frames, process, old(conn.sendsLeft));
            && commands == s.commands
            && conn.sent == old(conn.sent) + s.responses
            && conn.sendsLeft == old(conn.sendsLeft) - |s.responses|
  {
    ghost var all := Stream(conn.incoming);
    ghost var frames := Split(all).frames;
    ghost var budget := conn.sendsLeft;
    ghost var received := "";
    var buffer := "";
    commands := [];
    while true
      invariant all == received + Stream(conn.incoming)
      invariant Split(received) == Framed(commands, buffer)
      invariant Join(commands) + buffer == received
      invariant !HasTerminator(buffer)
      invariant AllReplied(commands, process) && |commands| <= budget
      invariant conn.sent == old(conn.sent) + Replies(commands, process)
      invariant conn.sendsLeft == budget - |commands|
      decreases Weight(conn.incoming)
    {
      var r := conn.Recv(RecvSize);
      if r.Failure? || r.value == "" {
        // end of stream or an exception from recv: the unterminated buffer is dropped
        assert all == received;
        assert frames == commands;
        ServeAllReplied(commands, process, budget);
        break;
      }
      var data := r.value;
      AppendAssoc(received, data, Stream(conn.incoming));
      SplitAppend(received, data);
      received := received + data;
      var stopped;
      buffer, commands, stopped :=
        DispatchBuffered(conn, process, buffer + data, commands, received, old(conn.sent), budget);
      if stopped {
        break;
      }
    }
    conn.Close();
  }
}
