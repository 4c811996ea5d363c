/**
  The client side (file_client_multithread_pool.py): one request/response
  exchange per connection, the result conventions of the remote operations,
  the task dispatcher and the tally of a stress run.  The server's reply is
  parsed by `json.loads`, a parameter here; the remote operations then look up
  keys of the resulting dictionary, and a missing key or a reply that is not
  a dictionary raises where the source does not catch it.
*/
module FileClient {
  import opened Wrappers
  import opened Framing
  import opened Sockets
  import PoolServer

  /** A decoded JSON value: a string, an object, or anything else (a number, a
      list, a boolean, null), which cannot be indexed by a key. */
  datatype Json = Str(text: string) | Obj(fields: map<string, Json>) | Other

  /** `json.loads`: the value, or the message of the exception it raises. */
  type JsonParser = string -> Result<Json, string>

  /** The `recv` size of the client: 1 MiB. */
  const ClientRecvSize: nat := 1048576

  /** The dictionary `send_command` returns for any exception. */
  function ErrorReply(message: string): Json {
    Obj(map["status" := Str("ERROR"), "data" := Str(message)])
  }

  // ---------------------------------------------------------------------------
  // send_command

  /** The environment of one `send_command`: whether `connect` raises (and
      with which message), then the connection it opens. */
  datatype Peer = Peer(connectError: Option<string>, incoming: seq<Segment>,
                       sendsLeft: nat, resetError: string)

  /** The text the client accumulates, given what it has and what the server
      will deliver: reads continue until the accumulated text holds the
      terminator or a read comes back empty; a raised `recv` is a failure. */
  function AwaitReply(segs: seq<Segment>, acc: string): Result<string, string>
    decreases Weight(segs)
  {
    var next := Receive(segs, ClientRecvSize);
    match next.result
    case Failure(m) => Failure(m)
    case Success(data) =>
      if data == "" then Success(acc)
      else if HasTerminator(acc + data) then Success(acc + data)
      else AwaitReply(next.remaining, acc + data)
  }

  /** The reference exchange: the dictionary `send_command` returns.  Every
      exception (from `connect`, `sendall`, `recv` or `json.loads`) becomes
      an error dictionary carrying its message. */
  function Exchange(peer: Peer, parse: JsonParser): Json {
    if peer.connectError.Some? then ErrorReply(peer.connectError.value)
    else if peer.sendsLeft == 0 then ErrorReply(peer.resetError)
    else match AwaitReply(peer.incoming, "")
      case Failure(m) => ErrorReply(m)
      case Success(text) =>
        match parse(Before(text))
        case Failure(m) => ErrorReply(m)
        case Success(j) => j
  }

  /** What `send_command` writes: the command followed by the terminator,
      once, when the connection was made and the peer accepts it. */
  function Written(peer: Peer, command: string): seq<string> {
    if peer.connectError.None? && peer.sendsLeft > 0 then [command + Terminator] else []
  }

  /** `FileClient.send_command`: opens a socket, writes the command and the
      terminator, reads the reply and parses the text before the first
      terminator.  It never raises, and closes its socket on every path.
      Returns the dictionary, what was written, and the socket itself. */
  method SendCommand(peer: Peer, command: string, parse: JsonParser)
    returns (hasil: Json, written: seq<string>, sock: Connection)
    ensures hasil == Exchange(peer, parse)
    ensures written == Written(peer, command)
    ensures sock.closed && sock.sent == written
  {
    sock := new Connection(peer.incoming, peer.sendsLeft, peer.resetError);
    if peer.connectError.Some? {
      sock.Close();
      return ErrorReply(peer.connectError.value), sock.sent, sock;
    }
    var ok := sock.SendAll(command + Terminator);
    if !ok {
      sock.Close();
      return ErrorReply(sock.resetError), sock.sent, sock;
    }
    var dataReceived := "";
    hasil := ErrorReply("");
    while true
      invariant AwaitReply(peer.incoming, "") == AwaitReply(sock.incoming, dataReceived)
      invariant sock.sent == [command + Terminator]
      decreases Weight(sock.incoming)
    {
      var r := sock.Recv(ClientRecvSize);
      if r.Failure? {
        // recv raised: caught by the handler, the socket still closed below
        hasil := ErrorReply(r.error);
        sock.Close();
        return hasil, sock.sent, sock;
      }
      var data := r.value;
      if data != "" {
        dataReceived := dataReceived + data;
        if HasTerminator(dataReceived) {
          break;
        }
      } else {
        break;
      }
    }
    var parsed := parse(Before(dataReceived));
    hasil := if parsed.Failure? then ErrorReply(parsed.error) else parsed.value;
    sock.Close();
    written := sock.sent;
  }

  /** Nothing fails on the way: every segment is data. */
  predicate NoFault(segs: seq<Segment>) {
    forall k :: 0 <= k < |segs| ==> segs[k].Data?
  }

  lemma NoFaultRemaining(segs: seq<Segment>, bufsize: nat)
    requires bufsize > 0 && NoFault(segs)
    ensures Receive(segs, bufsize).result.Success?
    ensures NoFault(Receive(segs, bufsize).remaining)
  {
    var next := Receive(segs, bufsize);
    if segs != [] && |segs[0].text| > bufsize {
      forall k | 1 <= k < |next.remaining|
        ensures next.remaining[k] == segs[k]
      {
      }
    } else if segs != [] {
      forall k | 0 <= k < |next.remaining|
        ensures next.remaining[k] == segs[k + 1]
      {
      }
    }
  }

  /** A prefix of what follows a read, placed after the read, is a prefix of
      the read followed by what follows it. */
  lemma PrefixShift(acc: string, data: string, rest: string, t: string)
    requires |acc + data| <= |t| <= |acc + data| + |rest|
    requires t == (acc + data) + rest[..|t| - |acc + data|]
    ensures |acc| <= |t| <= |acc| + |data + rest| && t == acc + (data + rest)[..|t| - |acc|]
    ensures t == (acc + data) + rest ==> t == acc + (data + rest)
  {
    var k := |t| - |acc| - |data|;
    PrefixConcat(data, rest, k);
    AppendAssoc(acc, data, rest[..k]);
    AppendAssoc(acc, data, rest);
  }

  /** The client stops at the first terminator or at the end of the stream:
      what it accumulates is a prefix of what the server delivers, and it
      holds a terminator unless it is all of it. */
  lemma {:induction false} AwaitReplyStops(segs: seq<Segment>, acc: string)
    ensures AwaitReply(segs, acc).Success? ==>
              var t := AwaitReply(segs, acc).value;
              |acc| <= |t| <= |acc| + |Stream(segs)|
              && t == acc + Stream(segs)[..|t| - |acc|]
              && (HasTerminator(t) || t == acc + Stream(segs))
    decreases Weight(segs)
  {
    var next := Receive(segs, ClientRecvSize);
    if next.result.Success? && AwaitReply(segs, acc).Success? {
      var data := next.result.value;
      var rest := Stream(next.remaining);
      var t := AwaitReply(segs, acc).value;
      if data == "" {
        assert Stream(segs) == "" && t == acc;
        assert acc + Stream(segs)[..0] == acc;
      } else {
        assert Stream(segs) == data + rest;
        if HasTerminator(acc + data) {
          assert t == acc + data && rest[..0] == "";
          PrefixShift(acc, data, rest, t);
        } else {
          AwaitReplyStops(next.remaining, acc + data);
          PrefixShift(acc, data, rest, t);
        }
      }
    }
  }

  /** A read that completes a terminator is the last one: the client returns
      what it has without reading again, so nothing later (not even a
      failing read) is seen.  A read that does not complete one is
      accumulated, and reading goes on. */
  lemma AwaitReplyStopsAtTerminator(x: string, segs: seq<Segment>, acc: string)
    requires 0 < |x| <= ClientRecvSize
    ensures HasTerminator(acc + x) ==> AwaitReply([Data(x)] + segs, acc) == Success(acc + x)
    ensures !HasTerminator(acc + x) ==> AwaitReply([Data(x)] + segs, acc) == AwaitReply(segs, acc + x)
  {
    assert ([Data(x)] + segs)[0] == Data(x) && ([Data(x)] + segs)[1..] == segs;
  }

  /** How the reply is cut into reads does not matter: when nothing fails,
      the client parses the text before the first terminator of everything
      the server delivers. */
  lemma {:induction false} AwaitReplyChunking(segs: seq<Segment>, acc: string)
    requires NoFault(segs)
    ensures AwaitReply(segs, acc).Success?
    ensures Before(AwaitReply(segs, acc).value) == Before(acc + Stream(segs))
    decreases Weight(segs)
  {
    var next := Receive(segs, ClientRecvSize);
    NoFaultRemaining(segs, ClientRecvSize);
    var data := next.result.value;
    if data == "" {
      assert acc + Stream(segs) == acc;
    } else {
      assert Stream(segs) == data + Stream(next.remaining);
      AppendAssoc(acc, data, Stream(next.remaining));
      if HasTerminator(acc + data) {
        BeforeExtend(acc + data, Stream(next.remaining));
      } else {
        AwaitReplyChunking(next.remaining, acc + data);
      }
    }
  }

  /** A framable reply followed by the terminator is read back exactly,
      however it is cut into reads and whatever follows it. */
  lemma ReplyReadBack(segs: seq<Segment>, reply: string, more: string)
    requires NoFault(segs) && Framable(reply)
    requires Stream(segs) == reply + Terminator + more
    ensures AwaitReply(segs, "").Success? && Before(AwaitReply(segs, "").value) == reply
  {
    AwaitReplyChunking(segs, "");
    assert "" + Stream(segs) == Stream(segs);
    BeforeFramed(reply, more);
  }

  /** A request and its response, end to end: a framable command written by
      `send_command` is handed to the codec by a pool server as one command,
      the server writes back the reply and the terminator, and when that is
      what the client receives it parses exactly the reply. */
  lemma RequestResponse(command: string, process: PoolServer.Codec, sendsLeft: nat,
                        peer: Peer, parse: JsonParser)
    requires Framable(command) && process(command).Some? && Framable(process(command).value)
    requires sendsLeft > 0
    requires peer.connectError.None? && peer.sendsLeft > 0 && NoFault(peer.incoming)
    requires Stream(peer.incoming) == process(command).value + Terminator
    ensures Written(peer, command) == [command + Terminator]
    ensures Split(command + Terminator).frames == [command]
    ensures PoolServer.Serve([command], process, sendsLeft)
         == PoolServer.Session([command], [process(command).value + Terminator])
    ensures Exchange(peer, parse)
         == match parse(process(command).value)
            case Failure(m) => ErrorReply(m)
            case Success(j) => j
  {
    var reply := process(command).value;
    SingleRequest(command);
    assert PoolServer.Serve([command], process, sendsLeft).responses == [reply + Terminator] by {
      assert [command][1..] == [];
    }
    ReplyReadBack(peer.incoming, reply, "");
    assert reply + Terminator + "" == reply + Terminator;
  }

  // ---------------------------------------------------------------------------
  // Result conventions of the remote operations

  /** What a download, an upload or a listing task reports: success, seconds
      elapsed and bytes transferred. */
  datatype TaskResult = TaskResult(ok: bool, elapsed: real, size: nat)

  /** The `(False, 0, 0)` every failed transfer reports. */
  const Failed: TaskResult := TaskResult(false, 0.0, 0)

  /** The status of a reply dictionary, if it has one. */
  function Status(hasil: Json): Option<Json> {
    if hasil.Obj? && "status" in hasil.fields then Some(hasil.fields["status"]) else None
  }

  /** The exception `hasil['status']` raises, if any.  The messages are
      abstract: Python's `TypeError` text depends on the type of the value
      that is not a dictionary. */
  function StatusLookupError(hasil: Json): Option<Exception> {
    if !hasil.Obj? then Some(TypeError("reply is not a dictionary"))
    else if "status" !in hasil.fields then Some(KeyError("status"))
    else None
  }

  /** `remote_list`'s verdict on a reply: `(True, data)` for an OK reply,
      `(False, data or "Unknown error")` otherwise.  The status lookup, and
      the data lookup of an OK reply, raise when the key is missing. */
  function ListOutcome(hasil: Json): (r: Result<(bool, Json), Exception>)
    ensures r.Failure? <==> (StatusLookupError(hasil).Some?
                             || (Status(hasil) == Some(Str("OK")) && "data" !in hasil.fields))
    ensures r.Success? ==> (r.value.0 <==> Status(hasil) == Some(Str("OK")))
    ensures r.Success? && r.value.0 ==> r.value.1 == hasil.fields["data"]
    ensures r.Success? && !r.value.0 && "data" in hasil.fields ==> r.value.1 == hasil.fields["data"]
    ensures r.Failure? ==> r.error == (if StatusLookupError(hasil).Some? then StatusLookupError(hasil).value
                                       else KeyError("data"))
    ensures r.Success? && !r.value.0 && "data" !in hasil.fields ==> r.value.1 == Str("Unknown error")
  {
    if StatusLookupError(hasil).Some? then Failure(StatusLookupError(hasil).value)
    else if hasil.fields["status"] == Str("OK") then
      if "data" in hasil.fields then Success((true, hasil.fields["data"]))
      else Failure(KeyError("data"))
    else Success((false, if "data" in hasil.fields then hasil.fields["data"] else Str("Unknown error")))
  }

  /** `remote_get`'s verdict on a reply.  `save` stands for decoding the file
      and writing it: the size written, or `None` when that raises.  The
      status lookup is outside the handler, so it raises; everything after
      it is inside, so it fails as `(False, 0, 0)`. */
  function GetOutcome(hasil: Json, save: (Json, Json) -> Option<nat>, elapsed: real)
    : (r: Result<TaskResult, Exception>)
    ensures r.Failure? <==> StatusLookupError(hasil).Some?
    ensures r.Failure? ==> r.error == StatusLookupError(hasil).value
    ensures r.Success? && r.value.ok <==>
              && Status(hasil) == Some(Str("OK"))
              && "data_namafile" in hasil.fields && "data_file" in hasil.fields
              && save(hasil.fields["data_namafile"], hasil.fields["data_file"]).Some?
    ensures r.Success? && r.value.ok ==>
              r.value == TaskResult(true, elapsed, save(hasil.fields["data_namafile"], hasil.fields["data_file"]).value)
    ensures r.Success? && !r.value.ok ==> r.value == Failed
  {
    if StatusLookupError(hasil).Some? then Failure(StatusLookupError(hasil).value)
    else if hasil.fields["status"] != Str("OK") then Success(Failed)
    else if "data_namafile" !in hasil.fields || "data_file" !in hasil.fields then Success(Failed)
    else match save(hasil.fields["data_namafile"], hasil.fields["data_file"])
      case None => Success(Failed)
      case Some(size) => Success(TaskResult(true, elapsed, size))
  }

  /** The file an upload reads: absent, present but unreadable (reading or
      encoding it raises), or its base64 text and its size. */
  datatype LocalFile = Missing | Unreadable(message: string) | Present(encoded: string, size: nat)

  /** `os.path.basename`: the text after the last '/'. */
  function Basename(path: string): (name: string)
    ensures |name| <= |path| && name == path[|path| - |name|..]
    ensures forall k :: 0 <= k < |name| ==> name[k] != '/'
    ensures |name| < |path| ==> path[|path| - |name| - 1] == '/'
    decreases |path|
  {
    if path == [] then []
    else if path[|path| - 1] == '/' then []
    else Basename(path[..|path| - 1]) + [path[|path| - 1]]
  }

  /** The text of an upload command. */
  function UploadText(name: string, encoded: string): string {
    "UPLOAD " + name + " " + encoded
  }

  /** The command an upload sends, if it sends one. */
  function UploadCommand(path: string, local: LocalFile): Option<string> {
    match local
    case Present(encoded, _) => Some(UploadText(Basename(path), encoded))
    case _ => None
  }

  /** The text holds no carriage return.  This is the condition of
      `Framing.NoCarriageReturnIsFramable`, stated by peeling the last
      character so that it follows a command as it is built up by
      concatenation; `NoCarriageReturnAt` and `NoCarriageReturnFrom` convert
      between the two forms. */
  predicate NoCarriageReturn(s: string)
    decreases |s|
  {
    s == [] || (s[|s| - 1] != '\r' && NoCarriageReturn(s[..|s| - 1]))
  }

  /** No character of such a text is a carriage return. */
  lemma {:induction false} NoCarriageReturnAt(s: string)
    requires NoCarriageReturn(s)
    ensures forall k :: 0 <= k < |s| ==> s[k] != '\r'
    decreases |s|
  {
    if s != [] {
      NoCarriageReturnAt(s[..|s| - 1]);
      assert forall k :: 0 <= k < |s| - 1 ==> s[k] == s[..|s| - 1][k];
    }
  }

  /** A text none of whose characters is a carriage return has none. */
  lemma {:induction false} NoCarriageReturnFrom(s: string)
    requires forall k :: 0 <= k < |s| ==> s[k] != '\r'
    ensures NoCarriageReturn(s)
    decreases |s|
  {
    if s != [] {
      var p := s[..|s| - 1];
      assert forall k :: 0 <= k < |p| ==> p[k] == s[k];
      NoCarriageReturnFrom(p);
    }
  }

  /** Joining texts without carriage returns adds none. */
  lemma {:induction false} NoCarriageReturnConcat(a: string, b: string)
    requires NoCarriageReturn(a) && NoCarriageReturn(b)
    ensures NoCarriageReturn(a + b)
    decreases |b|
  {
    if b == [] {
      assert a + b == a;
    } else {
      NoCarriageReturnConcat(a, b[..|b| - 1]);
      assert (a + b)[..|a + b| - 1] == a + b[..|b| - 1];
    }
  }

  /** The base name of a path without carriage returns has none. */
  lemma {:induction false} BasenameNoCarriageReturn(path: string)
    requires NoCarriageReturn(path)
    ensures NoCarriageReturn(Basename(path))
    decreases |path|
  {
    if path != [] && path[|path| - 1] != '/' {
      var name := Basename(path);
      BasenameNoCarriageReturn(path[..|path| - 1]);
      assert name[..|name| - 1] == Basename(path[..|path| - 1]);
    }
  }

  /** Base64 text holds no carriage return, so neither does an upload
      command whose file name holds none. */
  lemma UploadTextClean(name: string, encoded: string)
    requires NoCarriageReturn(name) && NoCarriageReturn(encoded)
    ensures NoCarriageReturn(UploadText(name, encoded))
  {
    var verb, space := "UPLOAD ", " ";
    assert verb == ['U', 'P', 'L', 'O', 'A', 'D', ' '];
    NoCarriageReturnFrom(verb);
    NoCarriageReturnFrom(space);
    NoCarriageReturnConcat(verb, name);
    NoCarriageReturnConcat(verb + name, space);
    NoCarriageReturnConcat(verb + name + space, encoded);
  }

  /** Such an upload command reaches a pool server as exactly one
      command. */
  lemma UploadTextFramed(name: string, encoded: string)
    requires NoCarriageReturn(name) && NoCarriageReturn(encoded)
    ensures var c := UploadText(name, encoded);
            Framable(c) && Split(c + Terminator) == Framed([c], "")
  {
    var c := UploadText(name, encoded);
    UploadTextClean(name, encoded);
    NoCarriageReturnAt(c);
    NoCarriageReturnIsFramable(c);
    SingleRequest(c);
  }

  /** An upload whose file name holds no carriage return reaches a pool
      server as exactly the command it sends. */
  lemma UploadCommandFramed(path: string, local: LocalFile)
    requires local.Present? && NoCarriageReturn(Basename(path)) && NoCarriageReturn(local.encoded)
    ensures UploadCommand(path, local).Some?
    ensures var c := UploadCommand(path, local).value;
            Framable(c) && Split(c + Terminator) == Framed([c], "")
  {
    assert UploadCommand(path, local) == Some(UploadText(Basename(path), local.encoded));
    UploadTextFramed(Basename(path), local.encoded);
  }

  /** `remote_upload`'s verdict on a reply.  Every lookup is inside the
      handler, so an upload never raises: anything but an OK reply to a
      present file is `(False, 0, 0)`. */
  function UploadOutcome(local: LocalFile, hasil: Json, elapsed: real): (r: TaskResult)
    ensures r.ok <==> local.Present? && Status(hasil) == Some(Str("OK"))
    ensures r.ok ==> r == TaskResult(true, elapsed, local.size)
    ensures !r.ok ==> r == Failed
  {
    if !local.Present? then Failed
    else if StatusLookupError(hasil).Some? then Failed
    else if hasil.fields["status"] == Str("OK") then TaskResult(true, elapsed, local.size)
    else Failed
  }

  /** A failed exchange is reported as a failed listing carrying the
      exception's message, and as a failed transfer. */
  lemma ErrorReplyOutcomes(message: string, save: (Json, Json) -> Option<nat>, local: LocalFile, elapsed: real)
    ensures ListOutcome(ErrorReply(message)) == Success((false, Str(message)))
    ensures GetOutcome(ErrorReply(message), save, elapsed) == Success(Failed)
    ensures UploadOutcome(local, ErrorReply(message), elapsed) == Failed
  {
    assert Status(ErrorReply(message)) == Some(Str("ERROR"));
  }

  /** `FileClient.remote_list`. */
  method RemoteList(peer: Peer, parse: JsonParser) returns (r: Result<(bool, Json), Exception>, written: seq<string>)
    ensures r == ListOutcome(Exchange(peer, parse))
    ensures written == Written(peer, "LIST")
  {
    var hasil, sock;
    hasil, written, sock := SendCommand(peer, "LIST", parse);
    r := ListOutcome(hasil);
  }

  /** `FileClient.remote_get`. */
  method RemoteGet(filename: string, peer: Peer, parse: JsonParser,
                   save: (Json, Json) -> Option<nat>, elapsed: real)
    returns (r: Result<TaskResult, Exception>, written: seq<string>)
    ensures r == GetOutcome(Exchange(peer, parse), save, elapsed)
    ensures written == Written(peer, "GET " + filename)
  {
    var hasil, sock;
    hasil, written, sock := SendCommand(peer, "GET " + filename, parse);
    r := GetOutcome(hasil, save, elapsed);
  }

  /** `FileClient.remote_upload`: a missing or unreadable file fails without
      connecting. */
  method RemoteUpload(filepath: string, local: LocalFile, peer: Peer, parse: JsonParser, elapsed: real)
    returns (r: TaskResult, written: seq<string>)
    ensures !local.Present? ==> r == Failed && written == []
    ensures local.Present? ==>
              && r == UploadOutcome(local, Exchange(peer, parse), elapsed)
              && written == Written(peer, UploadCommand(filepath, local).value)
  {
    if local.Missing? {
      return Failed, [];
    }
    if local.Unreadable? {
      // reading or encoding the file raised: caught by the handler
      return Failed, [];
    }
    var hasil, sock;
    hasil, written, sock := SendCommand(peer, UploadText(Basename(filepath), local.encoded), parse);
    r := UploadOutcome(local, hasil, elapsed);
  }

  // ---------------------------------------------------------------------------
  // Tasks and the stress run

  /** Everything one task meets: the server, the reply parser, the local file
      system and the clock. */
  datatype TaskEnv = TaskEnv(peer: Peer, parse: JsonParser, save: (Json, Json) -> Option<nat>,
                             local: LocalFile, elapsed: real)

  /** The result of `execute_task`, or the exception it raises. */
  function TaskOutcome(operation: string, filename: string, env: TaskEnv): (r: Result<TaskResult, Exception>)
    ensures operation !in {"download", "upload", "list"} ==> r == Success(Failed)
    ensures operation == "upload" ==> r.Success?
    ensures operation == "list" && r.Success? ==> r.value.elapsed == 0.0 && r.value.size == 0
    ensures operation == "list" && r.Success? ==>
              (r.value.ok <==> Status(Exchange(env.peer, env.parse)) == Some(Str("OK")))
    ensures r.Success? && !r.value.ok ==> r.value == Failed
  {
    var hasil := Exchange(env.peer, env.parse);
    if operation == "download" then GetOutcome(hasil, env.save, env.elapsed)
    else if operation == "upload" then
      Success(if env.local.Present? then UploadOutcome(env.local, hasil, env.elapsed) else Failed)
    else if operation == "list" then
      match ListOutcome(hasil)
      case Failure(e) => Failure(e)
      case Success((status, _)) => Success(TaskResult(status, 0.0, 0))
    else Success(Failed)
  }

  /** `execute_task`: runs one operation and reports what it wrote to the
      server; an unknown operation fails without connecting. */
  method ExecuteTask(operation: string, filename: string, env: TaskEnv)
    returns (r: Result<TaskResult, Exception>, written: seq<string>)
    ensures r == TaskOutcome(operation, filename, env)
    ensures operation == "download" ==> written == Written(env.peer, "GET " + filename)
    ensures operation == "upload" ==>
              written == (if env.local.Present? then Written(env.peer, UploadCommand(filename, env.local).value) else [])
    ensures operation == "list" ==> written == Written(env.peer, "LIST")
    ensures operation !in {"download", "upload", "list"} ==> written == []
  {
    if operation == "download" {
      r, written := RemoteGet(filename, env.peer, env.parse, env.save, env.elapsed);
    } else if operation == "upload" {
      var t;
      t, written := RemoteUpload(filename, env.local, env.peer, env.parse, env.elapsed);
      r := Success(t);
    } else if operation == "list" {
      var listed;
      listed, written := RemoteList(env.peer, env.parse);
      r := match listed
        case Failure(e) => Failure(e)
        case Success((status, _)) => Success(TaskResult(status, 0.0, 0));
    } else {
      r, written := Success(Failed), [];
    }
  }

  /** How many results report success. */
  function Successes(results: seq<TaskResult>): nat {
    if results == [] then 0
    else Successes(results[..|results| - 1]) + (if results[|results| - 1].ok then 1 else 0)
  }

  /** The bytes reported by the successful results only. */
  function SuccessBytes(results: seq<TaskResult>): nat {
    if results == [] then 0
    else SuccessBytes(results[..|results| - 1])
         + (if results[|results| - 1].ok then results[|results| - 1].size else 0)
  }

  /** There are no more successes than results. */
  lemma {:induction false} SuccessesBound(results: seq<TaskResult>)
    ensures Successes(results) <= |results|
    decreases |results|
  {
    if results != [] {
      SuccessesBound(results[..|results| - 1]);
    }
  }

  /** Both tallies add up over consecutive batches of results. */
  lemma {:induction false} TallyAppend(a: seq<TaskResult>, b: seq<TaskResult>)
    ensures Successes(a + b) == Successes(a) + Successes(b)
    ensures SuccessBytes(a + b) == SuccessBytes(a) + SuccessBytes(b)
    decreases |b|
  {
    if b == [] {
      assert a + b == a;
    } else {
      var b' := b[..|b| - 1];
      assert (a + b)[..|a + b| - 1] == a + b';
      TallyAppend(a, b');
    }
  }

  /** Taking the last result out of one batch and an equal result out of a
      permutation of it leaves permutations of each other. */
  lemma RemoveLastMultiset(a: seq<TaskResult>, b: seq<TaskResult>, j: nat)
    requires multiset(a) == multiset(b) && a != [] && j < |b| && b[j] == a[|a| - 1]
    ensures multiset(a[..|a| - 1]) == multiset(b[..j] + b[j + 1..])
  {
    var x := a[|a| - 1];
    var ma, mb := multiset(a[..|a| - 1]), multiset(b[..j] + b[j + 1..]);
    assert a == a[..|a| - 1] + [x];
    assert b == b[..j] + [x] + b[j + 1..];
    assert multiset(a) == ma + multiset{x} && multiset(b) == mb + multiset{x};
    assert ma == ma + multiset{x} - multiset{x};
    assert mb == mb + multiset{x} - multiset{x};
  }

  /** Taking one result out of a batch takes its share out of both
      tallies. */
  lemma RemoveOneTally(p: seq<TaskResult>, x: TaskResult, q: seq<TaskResult>)
    ensures Successes(p + [x] + q) == Successes(p + q) + (if x.ok then 1 else 0)
    ensures SuccessBytes(p + [x] + q) == SuccessBytes(p + q) + (if x.ok then x.size else 0)
  {
    TallyAppend(p + [x], q);
    TallyAppend(p, [x]);
    TallyAppend(p, q);
    assert [x][..0] == [];
  }

  /** Both tallies are the same in whatever order the tasks complete. */
  lemma {:induction false} TallyPermutation(a: seq<TaskResult>, b: seq<TaskResult>)
    requires multiset(a) == multiset(b)
    ensures Successes(a) == Successes(b) && SuccessBytes(a) == SuccessBytes(b)
    decreases |a|
  {
    if a == [] {
      assert b == [] by { assert |b| == |multiset(b)|; }
    } else {
      var x := a[|a| - 1];
      assert x in multiset(b) by { assert x in a; }
      var j :| 0 <= j < |b| && b[j] == x;
      RemoveLastMultiset(a, b, j);
      TallyPermutation(a[..|a| - 1], b[..j] + b[j + 1..]);
      RemoveOneTally(b[..j], x, b[j + 1..]);
      assert b == b[..j] + [x] + b[j + 1..];
    }
  }

  /** The first exception among the completed tasks, in completion order. */
  function FirstFailure(completed: seq<Result<TaskResult, Exception>>): Option<Exception> {
    if completed == [] then None
    else match FirstFailure(completed[..|completed| - 1])
      case Some(e) => Some(e)
      case None => if completed[|completed| - 1].Failure? then Some(completed[|completed| - 1].error) else None
  }

  /** The results of the completed tasks that returned. */
  function Returned(completed: seq<Result<TaskResult, Exception>>): seq<TaskResult> {
    if completed == [] then []
    else Returned(completed[..|completed| - 1])
         + (if completed[|completed| - 1].Success? then [completed[|completed| - 1].value] else [])
  }

  /** The summary `run_stress_test` returns, without its clock and file
      system figures. */
  datatype StressSummary = StressSummary(operation: string, totalWorkers: int,
                                         successes: nat, failures: int, totalBytes: nat)

  /** The message of the exception a thread pool raises for fewer than one
      worker. */
  const NoWorkers: string := "max_workers must be greater than 0"

  /** `run_stress_test`: `completed` holds the outcome of each of the
      `numWorkers` tasks in the order they complete, the k-th being
      `execute_task(operation, filename)` run against `envs[k]`; the first
      one that raised re-raises here.  Successes and bytes are tallied over
      the results; bytes only for transfers. */
  method RunStressTest(operation: string, filename: string, numWorkers: int, envs: seq<TaskEnv>,
                       completed: seq<Result<TaskResult, Exception>>)
    returns (r: Result<StressSummary, Exception>)
    requires numWorkers > 0 ==> |completed| == numWorkers
    requires |envs| == |completed|
    requires forall k :: 0 <= k < |completed| ==> completed[k] == TaskOutcome(operation, filename, envs[k])
    ensures numWorkers <= 0 ==> r == Failure(ValueError(NoWorkers))
    ensures numWorkers > 0 && FirstFailure(completed).Some? ==> r == Failure(FirstFailure(completed).value)
    ensures numWorkers > 0 && FirstFailure(completed).None? ==>
              var results := Returned(completed);
              && |results| == numWorkers
              && r == Success(StressSummary(operation, numWorkers, Successes(results),
                                            numWorkers - Successes(results),
                                            if operation in ["download", "upload"] then SuccessBytes(results) else 0))
    ensures r.Success? ==> r.value.successes + r.value.failures == numWorkers
                           && 0 <= r.value.failures <= numWorkers
    ensures numWorkers > 0 && operation == "upload" ==> r.Success?
    ensures r.Success? && operation !in {"download", "upload", "list"} ==> r.value.successes == 0
  {
    if numWorkers <= 0 {
      return Failure(ValueError(NoWorkers));
    }
    var results: seq<TaskResult> := [];
    var i := 0;
    while i < |completed|
      invariant 0 <= i <= |completed|
      invariant FirstFailure(completed[..i]).None?
      invariant results == Returned(completed[..i]) && |results| == i
      invariant operation !in {"download", "upload", "list"} ==> Successes(results) == 0
    {
      assert completed[..i + 1][..i] == completed[..i];
      var c := completed[i];
      if c.Failure? {
        assert FirstFailure(completed[..i + 1]) == Some(c.error);
        FirstFailureExtends(completed, i + 1);
        return Failure(c.error);
      }
      assert (results + [c.value])[..i] == results;
      results := results + [c.value];
      i := i + 1;
    }
    assert completed[..i] == completed;
    var successCount := Successes(results);
    SuccessesBound(results);
    var totalBytes := if operation in ["download", "upload"] then SuccessBytes(results) else 0;
    r := Success(StressSummary(operation, numWorkers, successCount, numWorkers - successCount, totalBytes));
  }

  /** Once a failure is found, it stays the first one. */
  lemma {:induction false} FirstFailureExtends(completed: seq<Result<TaskResult, Exception>>, n: nat)
    requires n <= |completed| && FirstFailure(completed[..n]).Some?
    ensures FirstFailure(completed) == FirstFailure(completed[..n])
    decreases |completed| - n
  {
    if n < |completed| {
      assert completed[..n + 1][..n] == completed[..n];
      FirstFailureExtends(completed, n + 1);
    } else {
      assert completed[..n] == completed;
    }
  }
}
