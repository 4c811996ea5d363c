/**
  The connection worker of the process-pool server (module-level
  `handle_client` in file_server_multiprocess_pool.py).  Its loop is the one of
  the thread-pool server token for token, so it is the same worker; only the
  executor that runs it, and which process owns the codec, differ.
*/
module ProcessPoolServer {
  import opened Framing
  import opened Sockets
  import PoolServer

  /** `handle_client`: behaves on every connection exactly as the thread-pool
      server's worker does, as stated by the same reference session. */
  method HandleClient(conn: Connection, process: PoolServer.Codec) returns (commands: seq<string>)
    modifies conn
    ensures conn.closed
    ensures var s := PoolServer.Serve(Split(Stream(old(conn.incoming))).frames, process, old(conn.sendsLeft));
            && commands == s.commands
            && conn.sent == old(conn.sent) + s.responses
            && conn.sendsLeft == old(conn.sendsLeft) - |s.responses|
  {
    commands := PoolServer.HandleClient(conn, process);
  }
}
