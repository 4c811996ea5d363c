# File server and stress harness: a Dafny model

The system is a small TCP file service and the harness that measures it.
Clients send text commands (`LIST`, `GET name`, `UPLOAD name base64`),
each followed by the terminator `"\r\n\r\n"`. The server hands every command
to a codec and writes back the codec's JSON reply, again followed by the
terminator. This model covers four parts:

- **The pool servers' connection worker** (`handle_client`, the same loop in the
  thread-pool and the process-pool server). It accumulates reads of up to
  1 MiB into a buffer and cuts the buffer at every terminator. It hands each
  complete command to the codec and writes back each reply. The loop ends
  when the peer closes the stream or when anything raises, and the
  connection is then closed.
  - `Framing.Split` is a reference framing of the whole stream.
  - `PoolServer.Serve` is the reference session: which commands reach the
    codec and which responses are written.
  - `PoolServer.HandleClient` is the imperative loop, proved to produce
    exactly the session `Serve` gives on the framing of everything the peer
    sends.
- **The original threaded server** (`ProcessTheClient.run`). It does not frame
  on the terminator. It accumulates 32768-byte reads, and the first short
  read, or the end of the stream, ends the single request it serves. The
  model states that this can cut a request or merge two pipelined ones.
- **The client** (`send_command`, `remote_list`, `remote_get`,
  `remote_upload`, `execute_task`, `run_stress_test`):
  - the exchange as a function of what the server delivers;
  - each operation's verdict on the reply dictionary, including the
    `KeyError`/`TypeError` an unguarded `hasil['status']` raises;
  - the success and byte tallies, proved independent of the order in which
    tasks complete.
- **The stress-test runner** (`StressTestRunner`):
  - its 18-cell test matrix, visited in order;
  - the row each test appends;
  - the exception that ends a run;
  - the CSV lines that `export_results` writes.

Sockets are modelled by `Sockets.Connection`:
- `incoming` is a scripted sequence of segments: data, the end of the
  stream, or a failure.
- Every `recv(n)` returns at most `n` characters of the next segment.
- `sendall` succeeds a fixed number of times and then raises.

The codec (`FileProtocol.proses_string`), `json.loads`, base64, the file
system and the clock are parameters.

## Model

| member | source | states |
|---|---|---|
| Sockets.Receive | file_server_multithread_pool.py:43-45 | one `recv(bufsize)` returns at most `bufsize` characters; the data returned followed by what remains is the rest of the stream; an empty read or a raised `recv` happens only at the end of the stream |
| Sockets.Connection.Recv | file_server_multithread_pool.py:43 | `recv` consumes exactly what `Receive` says and returns its result or the raised error |
| Sockets.Connection.SendAll | file_server_multithread_pool.py:52 | `sendall` succeeds exactly while the peer still accepts writes, records the message whole, and writes nothing when it raises |
| Sockets.Connection.Close | file_server_multithread_pool.py:56 | the connection is closed |
| Framing.Before | file_client_multithread_pool.py:30 | (specification function) `split("\r\n\r\n")[0]`: the text before the first terminator, or all of it when there is none |
| Framing.Split | file_server_multithread_pool.py:46-48 | (specification function) the reference framing of a text: cut at the leftmost terminator, again and again, until none is left |
| Framing.FindFrom | file_server_multithread_pool.py:47-48 | the position found holds a terminator, and no earlier position at or after the start does (leftmost match of `str.split(sep, 1)`) |
| Framing.FindIsLeftmost | file_server_multithread_pool.py:48 | a terminator with none before it is the one the search reports |
| Framing.FindExtend | file_server_multithread_pool.py:46-48 | more received text never moves the first terminator already in the buffer |
| Framing.FindPrefix | file_server_multithread_pool.py:48 | the first terminator is found within the text up to and including it |
| Framing.NoCarriageReturnIsFramable | file_client_multithread_pool.py:20 | a command with no carriage return survives framing intact |
| Framing.SplitReassembles | file_server_multithread_pool.py:47-48 | the frames, each followed by the terminator, then the remainder, give back the received text exactly |
| Framing.SplitRestClean | file_server_multithread_pool.py:47 | after the inner loop the buffer holds no terminator |
| Framing.SplitFramesFramable | file_server_multithread_pool.py:48 | every frame cut off is terminator-free up to its end, so it reframes to itself |
| Framing.SplitJoin | file_server_multithread_pool.py:47-48 | framing the wire text of framable commands gives back those commands, in order, followed by the framing of what comes after |
| Framing.SplitAppend | file_server_multithread_pool.py:43-48 | framing is independent of how the stream is cut into reads: the frames of `a + b` are those of `a`, then those of `a`'s remainder followed by `b` |
| Framing.SingleRequest | file_client_multithread_pool.py:20 | one command written with its terminator is received as exactly that one frame with nothing left over |
| Framing.Pipelining | file_server_multithread_pool.py:47-52 | two commands written back to back are received as two frames, in order |
| Framing.BeforeExtend | file_client_multithread_pool.py:26-30 | once the client's text holds a terminator, further reads do not change the reply it parses |
| Framing.BeforeFramed | file_client_multithread_pool.py:30 | `split("\r\n\r\n")[0]` of a framable reply followed by the terminator is that reply |
| PoolServer.Serve | file_server_multithread_pool.py:47-54 | the commands dispatched are a prefix of the frames; there are at most as many responses as commands, and at most one command more than responses; no more responses than successful writes |
| PoolServer.ServeAllReplied | file_server_multithread_pool.py:47-52 | when the codec answers every frame and every write succeeds, every frame is dispatched and answered with its reply plus the terminator |
| PoolServer.ServeReplies | file_server_multithread_pool.py:50-52 | the k-th response written is the codec's reply to the k-th dispatched command, followed by the terminator |
| PoolServer.ServeEnds | file_server_multithread_pool.py:47-54 | when every dispatched command was answered, every frame was dispatched; otherwise the last command dispatched is the one at which the codec raised or the write failed |
| PoolServer.ServeStopsAtFailure | file_server_multithread_pool.py:50-54 | the first failure ends the session: the failing command was handed to the codec, the earlier ones were answered, and nothing after it is touched |
| PoolServer.DispatchBuffered | file_server_multithread_pool.py:47-52 | the inner loop either dispatches every complete frame and leaves a terminator-free remainder, with the frames so far making up the received text, or stops with the reference session reached |
| PoolServer.HandleClient | file_server_multithread_pool.py:39-57 | the connection ends closed, and the commands dispatched and the responses written are those of `Serve` on the framing of the whole stream |
| ProcessPoolServer.HandleClient | file_server_multiprocess_pool.py:14-32 | the process-pool worker serves every connection with the same session as the thread-pool worker |
| LegacyServer.Request | file_server.py:20-39 | (specification function) the request handed to the codec: reads accumulate until a short read, an empty read with text accumulated, or a raised `recv` |
| LegacyServer.ProcessTheClient.constructor | file_server.py:14-17 | the thread holds its connection |
| LegacyServer.ProcessTheClient.Run | file_server.py:19-43 | the connection ends closed and the commands and responses are those of `Serve` on the at most one request `Request` describes |
| LegacyServer.ProcessTheClient.Reply | file_server.py:29-31 | the request goes to the codec once, and its reply plus the terminator is written when the codec answers |
| LegacyServer.RequestNonEmpty | file_server.py:24-39 | the codec is only ever handed non-empty text |
| LegacyServer.RequestIsPrefix | file_server.py:23-38 | the request is a prefix of the stream, whatever terminators it contains |
| LegacyServer.FullReadsWaitForEnd | file_server.py:28-38 | when every read is full, the whole stream is dispatched at its end, once, if it is not empty |
| LegacyServer.FullReadAccumulates | file_server.py:26-28 | a full read is only accumulated |
| LegacyServer.ShortReadEndsRequest | file_server.py:28-33 | a short read ends the request whatever follows, so a request delivered in pieces is dispatched cut |
| LegacyServer.EndOfStream | file_server.py:34-39 | at the end of the stream the accumulated text is dispatched if there is any |
| LegacyServer.PipelinedCommandsMerge | file_server.py:23-31 | any two framable commands pipelined in one short read reach the codec as one request, whatever follows, where the pool servers see two frames |
| FileClient.AwaitReply | file_client_multithread_pool.py:22-29 | (specification function) the text the client accumulates: reads of up to 1 MiB go on until the text holds a terminator or a read is empty; a raised `recv` is a failure |
| FileClient.Exchange | file_client_multithread_pool.py:18-33 | (specification function) the dictionary `send_command` returns: the parse of the text before the first terminator, or the error dictionary of whichever step raised |
| FileClient.SendCommand | file_client_multithread_pool.py:15-35 | returns the reply dictionary of `Exchange`: the parsed text before the first terminator, or `{"status": "ERROR", "data": message}` for a failed connect, write, read or parse; writes the command plus the terminator once connected; the socket it opens is closed on every path, the failed connect included |
| FileClient.AwaitReplyStops | file_client_multithread_pool.py:22-29 | what the client accumulates is a prefix of the stream, and it holds a terminator unless it is the whole stream |
| FileClient.AwaitReplyStopsAtTerminator | file_client_multithread_pool.py:22-27 | a read that completes a terminator is the last one: the client returns what it has without reading again, so a later failing read is never seen; a read that completes none is accumulated and reading goes on |
| FileClient.AwaitReplyChunking | file_client_multithread_pool.py:22-30 | when nothing fails, how the reply is cut into reads does not change the reply parsed |
| FileClient.ReplyReadBack | file_client_multithread_pool.py:22-30 | a framable reply followed by the terminator is read back exactly |
| FileClient.RequestResponse | file_client_multithread_pool.py:15-31 | end to end with a pool-server worker: the client writes one frame, the server dispatches exactly that command and writes its reply, and the client parses that reply |
| FileClient.ListOutcome | file_client_multithread_pool.py:37-41 | raises exactly when the reply has no status or has an `OK` status but no `data`, and the exception is the one the status lookup raises (`TypeError` for a non-dictionary, `KeyError('status')`), else `KeyError('data')`; `True` with the data exactly for an `OK` status; otherwise `False` with the data when the reply has it, and "Unknown error" when it does not |
| FileClient.GetOutcome | file_client_multithread_pool.py:43-58 | raises exactly when the status lookup does; succeeds with the elapsed time and the saved size exactly when the status is `OK` and saving succeeds; otherwise `(False, 0, 0)` |
| FileClient.Basename | file_client_multithread_pool.py:68 | the result is the suffix of the path after its last '/', holding no '/' |
| FileClient.UploadCommand | file_client_multithread_pool.py:62-69 | (specification function) the command an upload sends: `UPLOAD`, the basename and the base64 text, for a file that exists and is readable |
| FileClient.BasenameNoCarriageReturn | file_client_multithread_pool.py:68 | the base name of a path without carriage returns has none |
| FileClient.UploadCommandFramed | file_client_multithread_pool.py:66-69 | when neither the base name nor the base64 text holds a carriage return (base64 output never does), the upload command is framable and a pool server receives it as exactly one command |
| FileClient.UploadOutcome | file_client_multithread_pool.py:60-77 | never raises; succeeds with the elapsed time and the file size exactly when the file is present and the status is `OK`; otherwise `(False, 0, 0)` |
| FileClient.ErrorReplyOutcomes | file_client_multithread_pool.py:33-58 | a failed exchange is a failed listing carrying the error message, and a failed download or upload |
| FileClient.RemoteList | file_client_multithread_pool.py:37-41 | returns `ListOutcome` of the exchange after sending `LIST` |
| FileClient.RemoteGet | file_client_multithread_pool.py:43-58 | returns `GetOutcome` of the exchange after sending `GET filename` |
| FileClient.RemoteUpload | file_client_multithread_pool.py:60-77 | a missing or unreadable file fails without connecting; otherwise sends `UploadCommand` and returns `UploadOutcome` of the exchange |
| FileClient.TaskOutcome | file_client_multithread_pool.py:79-89 | an unknown operation gives `(False, 0, 0)`; an upload never raises; a listing reports no time or size; every failure is `(False, 0, 0)` |
| FileClient.ExecuteTask | file_client_multithread_pool.py:79-89 | returns `TaskOutcome` of the operation; writes `GET filename`, the upload command (nothing for a missing or unreadable file) or `LIST` as the operation says, and nothing at all for an unknown operation, which never connects |
| FileClient.Successes | file_client_multithread_pool.py:103 | (specification function) the number of results whose first field is true |
| FileClient.SuccessBytes | file_client_multithread_pool.py:106 | (specification function) the sum of the byte counts of the successful results |
| FileClient.SuccessesBound | file_client_multithread_pool.py:103 | there are no more successes than results |
| FileClient.TallyAppend | file_client_multithread_pool.py:103-106 | both tallies add up over consecutive batches of results |
| FileClient.TallyPermutation | file_client_multithread_pool.py:99-106 | the success count and the byte total do not depend on the order `as_completed` yields the results |
| FileClient.FirstFailureExtends | file_client_multithread_pool.py:99-100 | the first task exception, once met, is the one `future.result()` re-raises whatever completes after it |
| FileClient.RunStressTest | file_client_multithread_pool.py:91-117 | each completed outcome is `execute_task(operation, filename)` against its own environment; fewer than one worker raises `ValueError`; the first task exception in completion order re-raises; otherwise every result is kept, successes plus failures equal the worker count, and bytes are tallied over successes for transfers only; an upload run never raises, and an unknown operation has no successes |
| StressTest.NatToString | stress_test_multithread_pool.py:50 | the decimal text of a number is non-empty digits with no leading zero |
| StressTest.NatToStringRoundTrip | stress_test_multithread_pool.py:50 | the decimal text reads back as the number |
| StressTest.Volume | stress_test_multithread_pool.py:50 | the volume column ends in " MB" |
| StressTest.VolumeReadsBack | stress_test_multithread_pool.py:50 | the volume column reads back as the whole mebibytes of the file size, rounded down |
| StressTest.Throughput | stress_test_multithread_pool.py:44 | throughput is non-negative, and zero when nothing was transferred |
| StressTest.TestRow | stress_test_multithread_pool.py:26-63 | the row of one test or the exception that ends it: a file whose size cannot be read raises `OSError` first, before any pool is built; then fewer than one client raises `ValueError`, the first task exception in submission order re-raises; the row's counts come from the successful results, success plus failure equals the client count, and the server columns copy the client columns |
| StressTest.ReturnedAll | stress_test_multithread_pool.py:38 | without a task exception every response is kept |
| StressTest.Matrix | stress_test_multithread_pool.py:82-87 | the matrix has 2 * 3 * 3 * 1 = 18 cells |
| StressTest.MatrixAt | stress_test_multithread_pool.py:90-96 | every combination of operation, size, client count and pool size is visited, at its loop position |
| StressTest.MatrixDistinct | stress_test_multithread_pool.py:90-93 | no combination is visited twice |
| StressTest.MatrixCounts | stress_test_multithread_pool.py:84 | every client count is positive |
| StressTest.RunCells | stress_test_multithread_pool.py:90-98 | (specification function) a run yields one row per cell up to the first exception |
| StressTest.RunCellsStops | stress_test_multithread_pool.py:96 | once a test raises, later cells change nothing |
| StressTest.HeaderLine | stress_test_multithread_pool.py:106-115 | (specification function) the header line: the column names, in order |
| StressTest.CsvLine | stress_test_multithread_pool.py:114-116 | (specification function) a record written as its values in header order, an absent key as an empty cell |
| StressTest.RecordFitsHeader | stress_test_multithread_pool.py:47-59 | every row has exactly the header's keys, so the CSV writer accepts it |
| StressTest.Record | stress_test_multithread_pool.py:47-59 | (specification function) the `outcome` dictionary of a row, its eleven keys mapped to the row's fields |
| StressTest.RecordLine | stress_test_multithread_pool.py:106-116 | a row's line holds its eleven fields in header order |
| StressTest.StressTestRunner.constructor | stress_test_multithread_pool.py:9-17 | a new runner has no rows |
| StressTest.StressTestRunner.ValidateFiles | stress_test_multithread_pool.py:19-24 | true exactly when every test file exists |
| StressTest.StressTestRunner.ExecuteTest | stress_test_multithread_pool.py:26-63 | returns `TestRow` and appends the row when there is one |
| StressTest.StressTestRunner.RunCell | stress_test_multithread_pool.py:94-98 | the innermost loop body runs the test of one cell: on success the row is appended and the run so far is `RunCells` of the matrix up to and including that cell; on an exception the rows are those of `RunCells` on the whole matrix, which ends with that exception |
| StressTest.StressTestRunner.PerformAllTests | stress_test_multithread_pool.py:78-99 | a missing file returns false and runs nothing; otherwise the rows appended are those of `RunCells` on the matrix, in order, and the result is true or the exception that ended the run |
| StressTest.StressTestRunner.ExportResults | stress_test_multithread_pool.py:101-121 | succeeds exactly when there are rows and the write succeeds; then writes the header line followed by one line per row, in order |

## Left out

- Sockets.Connection.SendAll: a `sendall` that raises is modelled as
  writing nothing. A real `sendall` may already have written part of the
  message, and Python gives no way to know how much. So
  `PoolServer.HandleClient` and `LegacyServer.ProcessTheClient.Run` do not
  capture a truncated last response that may reach the wire.
- PoolServer.Serve: the codec is a function of the command alone. The real
  `proses_string` reads and writes the shared file directory, so on one
  connection `LIST`, `UPLOAD …`, `LIST` may get two different `LIST`
  replies. The model, and `PoolServer.ServeReplies` with it, ties each
  reply to its command only. That state is not modelled.
- Binding, listening, `accept` loops, timeouts, executors and shutdown are
  not modelled. Each worker is modelled on one connection it owns; there is
  no concurrency.
- `FileProtocol.proses_string` is a parameter (`Codec`): `None` stands for
  an exception it raises. `json.loads` is a parameter (`JsonParser`) and so
  is base64 decoding plus the file write (`save`). The file read and base64
  encoding are folded into `LocalFile`.
- UTF-8 decoding and encoding are not modelled: text is a sequence of
  characters. The threaded server compares the byte length of a read with
  32768, and the model takes that length to be the text's length.
- Wall-clock time is a parameter (`elapsed`, `timestamp`), and arithmetic
  is on exact reals. `round(…, 2)` of duration and throughput is left out.
  `avg_latency` is computed by the source but never used, so it is left out.
- `time.sleep`, `print`, `display_result`, `print_summary`, logging, the
  `argparse` mains and generator.py are not modelled.
- FileClient.RunStressTest: the summary leaves out `total_time`,
  `throughput` and `file_size`, which come from the clock and the file
  system.
- StressTest.StressTestRunner.ExecuteTest: the choice between
  `remote_upload` and `remote_get`, and the size `os.path.getsize` reads
  (or the `OSError` it raises, whose message is abstract), are part of the
  observation the test is given.
- StressTest.TestRow: `client_success <= client_count` is stated only when
  there is one response per client; the pool returns one result per
  submitted task.
- StressTest.StressTestRunner.ExportResults: the file name, opening the
  file and the CSV text encoding are left out. A failing write is the
  `writeOk` parameter, and the lines are returned as fields.
- StressTest.StressTestRunner.PerformAllTests: the `counter` and `total`
  are only printed by the source. The loop keeps them, but they are not
  part of the result.
- PoolServer.HandleClient: the contract does not state which segments
  remain unread after the loop ends, because the source drops them.
- LegacyServer.ProcessTheClient.Run: likewise, the contract does not state
  which segments remain unread after the loop ends.
- `execute_task`'s default `filename=None` is not modelled: the file name
  is always a string.
