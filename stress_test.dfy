/**
  The test harness (stress_test_multithread_pool.py): a runner that checks
  its three test files are present, runs one stress test per cell of a fixed
  matrix (operation, file size, client count, server pool size), keeps one
  result row per test and exports the rows under a fixed header.  What a test
  observes (the file's size, each client's result, the wall-clock time and
  the timestamp) is given as a parameter.
*/
module StressTest {
  import opened Wrappers
  import opened FileClient

  // ---------------------------------------------------------------------------
  // Decimal text

  /** The decimal digit of a value below ten. */
  function Digit(d: nat): char
    requires d < 10
  {
    "0123456789"[d]
  }

  predicate IsDigit(c: char) {
    '0' <= c <= '9'
  }

  /** Python's `str` of a non-negative integer: its decimal digits, with no
      leading zero. */
  function NatToString(n: nat): (s: string)
    ensures |s| >= 1 && (|s| > 1 ==> s[0] != '0')
    ensures forall k :: 0 <= k < |s| ==> IsDigit(s[k])
    decreases n
  {
    if n < 10 then [Digit(n)] else NatToString(n / 10) + [Digit(n % 10)]
  }

  /** The value of a string of decimal digits. */
  function ParseDigits(s: string): nat
    requires forall k :: 0 <= k < |s| ==> IsDigit(s[k])
  {
    if s == [] then 0
    else
      var last := s[|s| - 1];
      assert IsDigit(last);
      ParseDigits(s[..|s| - 1]) * 10 + (last as int - '0' as int)
  }

  /** Reading back the decimal text of a number gives the number. */
  lemma {:induction false} NatToStringRoundTrip(n: nat)
    ensures ParseDigits(NatToString(n)) == n
    decreases n
  {
    var s := NatToString(n);
    if n >= 10 {
      NatToStringRoundTrip(n / 10);
      assert s[..|s| - 1] == NatToString(n / 10);
    }
  }

  /** Bytes in a mebibyte. */
  const MiB: nat := 1048576

  /** The volume column: whole mebibytes, rounded down, then " MB". */
  function Volume(sizeInBytes: nat): (v: string)
    ensures |v| > 3 && v[|v| - 3..] == " MB"
  {
    NatToString(sizeInBytes / MiB) + " MB"
  }

  /** The volume column reads back as the number of whole mebibytes. */
  lemma VolumeReadsBack(sizeInBytes: nat)
    ensures var v := Volume(sizeInBytes);
            var digits := v[..|v| - 3];
            && (forall k :: 0 <= k < |digits| ==> IsDigit(digits[k]))
            && ParseDigits(digits) == sizeInBytes / MiB
  {
    var v := Volume(sizeInBytes);
    assert v[..|v| - 3] == NatToString(sizeInBytes / MiB);
    NatToStringRoundTrip(sizeInBytes / MiB);
  }

  // ---------------------------------------------------------------------------
  // One stress test

  /** What one test meets: the size of its file (or the message of the
      error reading it raises), each client's result in submission order (or
      the exception its task raised), when it ran and how long it took. */
  datatype Observation = Observation(sizeInBytes: Result<nat, string>, responses: seq<Result<TaskResult, Exception>>,
                                     timestamp: string, elapsed: real)

  /** One result row. */
  datatype Row = Row(timestamp: string, operation: string, volume: string,
                     clientWorkers: int, serverWorkers: int, duration: real, throughput: real,
                     clientSuccess: nat, clientFail: int, serverSuccess: nat, serverFail: int)

  /** Mebibytes per second over the bytes transferred, 0 for no elapsed
      time. */
  function Throughput(transferredBytes: nat, elapsed: real): (t: real)
    ensures t >= 0.0 && (transferredBytes == 0 ==> t == 0.0)
  {
    if elapsed > 0.0 then (transferredBytes as real / elapsed) / (MiB as real) else 0.0
  }

  /** The row a test produces, or the exception that ends it: a file whose
      size cannot be read raises before any pool is built; then a pool of
      fewer than one worker raises, and so does the first client task, in
      submission order, that raised. */
  function TestRow(mode: string, clientCount: int, serverPool: int, obs: Observation)
    : (r: Result<Row, Exception>)
    ensures obs.sizeInBytes.Failure? ==> r == Failure(OSError(obs.sizeInBytes.error))
    ensures obs.sizeInBytes.Success? && clientCount <= 0 ==> r == Failure(ValueError(NoWorkers))
    ensures obs.sizeInBytes.Success? && clientCount > 0 && FirstFailure(obs.responses).Some? ==>
              r == Failure(FirstFailure(obs.responses).value)
    ensures r.Success? <==> obs.sizeInBytes.Success? && clientCount > 0 && FirstFailure(obs.responses).None?
    ensures r.Success? ==>
              var row := r.value;
              var results := Returned(obs.responses);
              && row.operation == mode && row.volume == Volume(obs.sizeInBytes.value)
              && row.clientWorkers == clientCount && row.serverWorkers == serverPool
              && row.clientSuccess == Successes(results)
              && row.clientSuccess + row.clientFail == clientCount
              && (|obs.responses| == clientCount ==> row.clientSuccess <= clientCount)
              && row.serverSuccess == row.clientSuccess && row.serverFail == row.clientFail
              && row.throughput == Throughput(SuccessBytes(results), obs.elapsed)
  {
    if obs.sizeInBytes.Failure? then Failure(OSError(obs.sizeInBytes.error))
    else if clientCount <= 0 then Failure(ValueError(NoWorkers))
    else match FirstFailure(obs.responses)
      case Some(e) => Failure(e)
      case None =>
        var results := Returned(obs.responses);
        ReturnedAll(obs.responses);
        SuccessesBound(results);
        var successful := Successes(results);
        var failed := clientCount - successful;
        Success(Row(obs.timestamp, mode, Volume(obs.sizeInBytes.value), clientCount, serverPool,
                    obs.elapsed, Throughput(SuccessBytes(results), obs.elapsed),
                    successful, failed, successful, failed))
  }

  /** Without a failure, every task's result is kept. */
  lemma {:induction false} ReturnedAll(completed: seq<Result<TaskResult, Exception>>)
    requires FirstFailure(completed).None?
    ensures |Returned(completed)| == |completed|
    decreases |completed|
  {
    if completed != [] {
      ReturnedAll(completed[..|completed| - 1]);
    }
  }

  // ---------------------------------------------------------------------------
  // The test matrix

  const Modes: seq<string> := ["download", "upload"]
  /** The size labels, in the order of the loop and of the keys of the file
      dictionary. */
  const Sizes: seq<string> := ["small", "medium", "large"]
  const ClientCounts: seq<int> := [1, 5, 50]
  const ServerPools: seq<int> := [1]

  /** The file of each size label. */
  const TestFiles: map<string, string> :=
    map["small" := "random_10mb.bin", "medium" := "random_50mb.bin", "large" := "random_100mb.bin"]

  /** One cell of the matrix. */
  datatype TestCase = TestCase(mode: string, size: string, clientCount: int, serverPool: int)

  /** The cell at the given position of each list. */
  function Cell(m: nat, s: nat, c: nat, p: nat): TestCase
    requires m < |Modes| && s < |Sizes| && c < |ClientCounts| && p < |ServerPools|
  {
    TestCase(Modes[m], Sizes[s], ClientCounts[c], ServerPools[p])
  }

  /** How many tests the matrix runs: 2 * 3 * 3 * 1. */
  const Total: nat := |Modes| * |Sizes| * |ClientCounts| * |ServerPools|

  /** The position of a cell in the run: the operation varies slowest, then
      the size, then the client count, then the pool size. */
  function Position(m: nat, s: nat, c: nat, p: nat): nat {
    ((m * 3 + s) * 3 + c) * 1 + p
  }

  /** The cells in the order the runner visits them. */
  function Matrix(): (cells: seq<TestCase>)
    ensures |cells| == Total == 18
  {
    seq(18, i requires 0 <= i < 18 => Cell(i / 9, (i / 3) % 3, i % 3, 0))
  }

  /** Every combination is visited, at its position. */
  lemma MatrixAt(m: nat, s: nat, c: nat, p: nat)
    requires m < |Modes| && s < |Sizes| && c < |ClientCounts| && p < |ServerPools|
    ensures Position(m, s, c, p) < Total
    ensures Matrix()[Position(m, s, c, p)] == Cell(m, s, c, p)
  {
    var i := Position(m, s, c, p);
    assert i == 9 * m + 3 * s + c && p == 0;
    assert i / 9 == m && (i / 3) % 3 == s && i % 3 == c;
  }

  /** No combination is visited twice. */
  lemma MatrixDistinct(i: nat, j: nat)
    requires i < j < Total
    ensures Matrix()[i] != Matrix()[j]
  {
    var a, b := Matrix()[i], Matrix()[j];
    if i / 9 != j / 9 {
      assert a.mode != b.mode;
    } else if (i / 3) % 3 != (j / 3) % 3 {
      assert a.size != b.size;
    } else {
      assert i % 3 != j % 3;
      assert a.clientCount != b.clientCount;
    }
  }

  /** Every client count of the matrix is positive. */
  lemma MatrixCounts(i: nat)
    requires i < Total
    ensures Matrix()[i].clientCount > 0
  {
  }

  /** The environment of a whole run: what each test observes. */
  type Observer = (string, string, int, int) -> Observation

  /** The result of one cell. */
  function CellRow(t: TestCase, observe: Observer): Result<Row, Exception> {
    if t.size in TestFiles then
      TestRow(t.mode, t.clientCount, t.serverPool, observe(t.mode, TestFiles[t.size], t.clientCount, t.serverPool))
    else Failure(KeyError(t.size))
  }

  /** The rows the given cells produce, in order, and the exception that
      ended the run early, if any. */
  function RunCells(cells: seq<TestCase>, observe: Observer): (run: (seq<Row>, Option<Exception>))
    ensures |run.0| <= |cells|
    ensures run.1.None? ==> |run.0| == |cells|
  {
    if cells == [] then ([], None)
    else
      var prev := RunCells(cells[..|cells| - 1], observe);
      if prev.1.Some? then prev
      else match CellRow(cells[|cells| - 1], observe)
        case Failure(e) => (prev.0, Some(e))
        case Success(row) => (prev.0 + [row], None)
  }

  /** Once a test raised, later cells change nothing. */
  lemma {:induction false} RunCellsStops(cells: seq<TestCase>, n: nat, observe: Observer)
    requires n <= |cells| && RunCells(cells[..n], observe).1.Some?
    ensures RunCells(cells, observe) == RunCells(cells[..n], observe)
    decreases |cells| - n
  {
    if n < |cells| {
      assert cells[..n + 1][..n] == cells[..n];
      RunCellsStops(cells, n + 1, observe);
    } else {
      assert cells[..n] == cells;
    }
  }

  /** The CSV columns, in order. */
  const Header: seq<string> := ["timestamp", "operation", "volume", "client_workers", "server_workers",
                                "duration", "throughput", "client_success", "client_fail",
                                "server_success", "server_fail"]

  /** A CSV cell. */
  datatype Field = Text(text: string) | Number(number: int) | Decimal(decimal: real)

  /** The header line: the column names, in order. */
  function HeaderLine(): seq<Field> {
    seq(|Header|, k requires 0 <= k < |Header| => Text(Header[k]))
  }

  /** A row as the dictionary `execute_test` builds. */
  function Record(row: Row): map<string, Field> {
    map["timestamp" := Text(row.timestamp), "operation" := Text(row.operation),
        "volume" := Text(row.volume), "client_workers" := Number(row.clientWorkers),
        "server_workers" := Number(row.serverWorkers), "duration" := Decimal(row.duration),
        "throughput" := Decimal(row.throughput), "client_success" := Number(row.clientSuccess),
        "client_fail" := Number(row.clientFail), "server_success" := Number(row.serverSuccess),
        "server_fail" := Number(row.serverFail)]
  }

  /** A dictionary written under the header: its values in header order, an
      absent key written as an empty cell. */
  function CsvLine(record: map<string, Field>): seq<Field> {
    seq(|Header|, k requires 0 <= k < |Header| => if Header[k] in record then record[Header[k]] else Text(""))
  }

  /** Every row has exactly the header's keys, so the CSV writer accepts it
      (it raises on a key outside the header) and leaves no cell empty. */
  lemma RecordFitsHeader(row: Row)
    ensures forall key :: key in Record(row) <==> key in Header
  {
    var keys := Record(row).Keys;
    assert Header == ["timestamp", "operation", "volume", "client_workers", "server_workers",
                      "duration", "throughput", "client_success", "client_fail",
                      "server_success", "server_fail"];
    forall key | key in Header ensures key in keys {
    }
    forall key | key in keys ensures key in Header {
    }
  }

  /** A row's fields, in the order of the header's columns. */
  function Fields(row: Row): seq<Field> {
    [Text(row.timestamp), Text(row.operation), Text(row.volume),
     Number(row.clientWorkers), Number(row.serverWorkers),
     Decimal(row.duration), Decimal(row.throughput),
     Number(row.clientSuccess), Number(row.clientFail),
     Number(row.serverSuccess), Number(row.serverFail)]
  }

  /** The row's value under the k-th column name is its k-th field. */
  lemma RecordColumn(row: Row, k: nat)
    requires k < |Header|
    ensures Header[k] in Record(row) && Record(row)[Header[k]] == Fields(row)[k]
  {
    var r := Record(row);
    if k == 0 { assert Header[k] == "timestamp"; }
    else if k == 1 { assert Header[k] == "operation"; }
    else if k == 2 { assert Header[k] == "volume"; }
    else if k == 3 { assert Header[k] == "client_workers"; }
    else if k == 4 { assert Header[k] == "server_workers"; }
    else if k == 5 { assert Header[k] == "duration"; }
    else if k == 6 { assert Header[k] == "throughput"; }
    else if k == 7 { assert Header[k] == "client_success"; }
    else if k == 8 { assert Header[k] == "client_fail"; }
    else if k == 9 { assert Header[k] == "server_success"; }
    else { assert Header[k] == "server_fail"; }
  }

  /** A row's line holds its fields in header order. */
  lemma RecordLine(row: Row)
    ensures CsvLine(Record(row)) == Fields(row)
  {
    forall k | 0 <= k < |Header|
      ensures CsvLine(Record(row))[k] == Fields(row)[k]
    {
      RecordColumn(row, k);
    }
  }

  // ---------------------------------------------------------------------------
  // The runner

  class StressTestRunner {
    /** The rows of the tests run so far, in order. */
    var testData: seq<Row>

    constructor ()
      ensures testData == []
    {
      testData := [];
    }

    /** `validate_files`: every test file exists. */
    method ValidateFiles(isFile: string -> bool) returns (ok: bool)
      ensures ok <==> (forall size :: size in TestFiles ==> isFile(TestFiles[size]))
    {
      var i := 0;
      while i < |Sizes|
        invariant 0 <= i <= |Sizes|
        invariant forall k :: 0 <= k < i ==> isFile(TestFiles[Sizes[k]])
      {
        if !isFile(TestFiles[Sizes[i]]) {
          return false;
        }
        i := i + 1;
      }
      assert forall size :: size in TestFiles ==> size == Sizes[0] || size == Sizes[1] || size == Sizes[2];
      return true;
    }

    /** `execute_test`: runs one test and appends its row; the row is also
        returned.  An exception leaves the rows as they were. */
    method ExecuteTest(mode: string, filepath: string, clientCount: int, serverPool: int, obs: Observation)
      returns (r: Result<Row, Exception>)
      modifies this`testData
      ensures r == TestRow(mode, clientCount, serverPool, obs)
      ensures testData == old(testData) + (if r.Success? then [r.value] else [])
    {
      r := TestRow(mode, clientCount, serverPool, obs);
      if r.Success? {
        testData := testData + [r.value];
      }
    }

    /** `perform_all_tests`: when a test file is missing, runs nothing and
        returns false; otherwise runs every cell of the matrix in order,
        appending one row each, and returns true.  A test that raises ends
        the run, and the exception propagates. */
    method PerformAllTests(isFile: string -> bool, observe: Observer) returns (r: Result<bool, Exception>)
      modifies this`testData
      ensures !(forall size :: size in TestFiles ==> isFile(TestFiles[size])) ==>
                r == Success(false) && testData == old(testData)
      ensures (forall size :: size in TestFiles ==> isFile(TestFiles[size])) ==>
                var run := RunCells(Matrix(), observe);
                && testData == old(testData) + run.0
                && r == (if run.1.Some? then Failure(run.1.value) else Success(true))
    {
      var valid := ValidateFiles(isFile);
      if !valid {
        return Success(false);
      }
      ghost var start := testData;
      ghost var rows: seq<Row> := [];
      assert Matrix()[..0] == [];
      var counter := 1;
      var m := 0;
      while m < |Modes|
        invariant 0 <= m <= |Modes|
        invariant counter == Position(m, 0, 0, 0) + 1
        invariant testData == start + rows
        invariant RunCells(Matrix()[..Position(m, 0, 0, 0)], observe) == (rows, None)
      {
        var s := 0;
        while s < |Sizes|
          invariant 0 <= s <= |Sizes|
          invariant counter == Position(m, s, 0, 0) + 1
          invariant testData == start + rows
          invariant RunCells(Matrix()[..Position(m, s, 0, 0)], observe) == (rows, None)
        {
          var c := 0;
          while c < |ClientCounts|
            invariant 0 <= c <= |ClientCounts|
            invariant counter == Position(m, s, c, 0) + 1
            invariant testData == start + rows
            invariant RunCells(Matrix()[..Position(m, s, c, 0)], observe) == (rows, None)
          {
            var p := 0;
            while p < |ServerPools|
              invariant 0 <= p <= |ServerPools|
              invariant counter == Position(m, s, c, p) + 1
              invariant testData == start + rows
              invariant RunCells(Matrix()[..Position(m, s, c, p)], observe) == (rows, None)
            {
              var outcome := RunCell(m, s, c, p, observe, start, rows);
              if outcome.Failure? {
                return Failure(outcome.error);
              }
              rows := rows + [outcome.value];
              counter := counter + 1;
              p := p + 1;
            }
            c := c + 1;
          }
          s := s + 1;
        }
        m := m + 1;
      }
      assert Matrix()[..Position(m, 0, 0, 0)] == Matrix();
      assert counter == Total + 1;
      return Success(true);
    }

    /** The body of the innermost loop of `perform_all_tests`: runs the test
        of one cell of the matrix. */
    method RunCell(m: nat, s: nat, c: nat, p: nat, observe: Observer,
                   ghost start: seq<Row>, ghost rows: seq<Row>)
      returns (outcome: Result<Row, Exception>)
      requires m < |Modes| && s < |Sizes| && c < |ClientCounts| && p < |ServerPools|
      requires testData == start + rows
      requires RunCells(Matrix()[..Position(m, s, c, p)], observe) == (rows, None)
      modifies this`testData
      ensures outcome.Failure? ==>
                var run := RunCells(Matrix(), observe);
                testData == start + run.0 && run.1 == Some(outcome.error)
      ensures outcome.Success? ==>
                && testData == start + (rows + [outcome.value])
                && RunCells(Matrix()[..Position(m, s, c, p) + 1], observe) == (rows + [outcome.value], None)
    {
      var filePath := TestFiles[Sizes[s]];
      ghost var n := Position(m, s, c, p);
      StepCell(m, s, c, p);
      RunCellsStep(n, observe, rows);
      outcome := ExecuteTest(Modes[m], filePath, ClientCounts[c], ServerPools[p],
                             observe(Modes[m], filePath, ClientCounts[c], ServerPools[p]));
      if outcome.Failure? {
        RunCellsStops(Matrix(), n + 1, observe);
      }
    }

    /** `export_results`: nothing is written when there are no rows, or when
        the file cannot be written; otherwise the header line, then one line
        per row. */
    method ExportResults(writeOk: bool) returns (ok: bool, lines: seq<seq<Field>>)
      ensures ok <==> |testData| > 0 && writeOk
      ensures ok ==> |lines| == |testData| + 1 && lines[0] == HeaderLine()
      ensures ok ==> forall k :: 0 <= k < |testData| ==> lines[k + 1] == CsvLine(Record(testData[k]))
      ensures !ok ==> lines == []
    {
      if |testData| == 0 {
        return false, [];
      }
      if !writeOk {
        // opening or writing the file raised: reported, not propagated
        return false, [];
      }
      ok := true;
      lines := [HeaderLine()] + seq(|testData|, k requires 0 <= k < |testData| reads this => CsvLine(Record(testData[k])));
    }
  }

  /** One step of the nested loops: the next position is the next cell of
      the matrix. */
  lemma StepCell(m: nat, s: nat, c: nat, p: nat)
    requires m < |Modes| && s < |Sizes| && c < |ClientCounts| && p < |ServerPools|
    ensures var n := Position(m, s, c, p);
            && n < Total && Matrix()[n] == Cell(m, s, c, p)
            && Matrix()[..n + 1] == Matrix()[..n] + [Cell(m, s, c, p)]
  {
    MatrixAt(m, s, c, p);
  }

  /** Running one more cell after a run that has not failed. */
  lemma RunCellsSnoc(cells: seq<TestCase>, t: TestCase, observe: Observer)
    requires RunCells(cells, observe).1.None?
    ensures RunCells(cells + [t], observe) == match CellRow(t, observe)
                                              case Failure(e) => (RunCells(cells, observe).0, Some(e))
                                              case Success(row) => (RunCells(cells, observe).0 + [row], None)
  {
    var more := cells + [t];
    assert more[..|more| - 1] == cells && more[|more| - 1] == t;
  }

  /** Running the next cell of the matrix: its row extends the run, or its
      exception ends it. */
  lemma RunCellsStep(n: nat, observe: Observer, rows: seq<Row>)
    requires n < Total
    requires RunCells(Matrix()[..n], observe) == (rows, None)
    ensures RunCells(Matrix()[..n + 1], observe) == match CellRow(Matrix()[n], observe)
                                                    case Failure(e) => (rows, Some(e))
                                                    case Success(row) => (rows + [row], None)
  {
    assert Matrix()[..n + 1] == Matrix()[..n] + [Matrix()[n]];
    RunCellsSnoc(Matrix()[..n], Matrix()[n], observe);
  }
}
