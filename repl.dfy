/** The read-eval loop: each input line is classified as a meta command (it
    starts with '.') or a statement, prepared, and executed against the one
    table of the session. ".exit" ends the session after the table's pages are
    released; every other line leaves the loop running. */
module Repl {
  import opened CStrings
  import opened RowCodec
  import opened PagedStore
  import opened Preparer

  /** "." and ".exit". */
  const DOT: byte := 46
  const EXIT_COMMAND: seq<byte> := [46, 101, 120, 105, 116]

  datatype MetaCommandResult = MetaExit | MetaUnrecognized

  /** do_meta_command: ".exit" exits, every other meta line is unrecognized. */
  function DoMetaCommand(s: seq<byte>): (r: MetaCommandResult)
    ensures r == MetaExit <==> s == EXIT_COMMAND
  {
    if s == EXIT_COMMAND then MetaExit else MetaUnrecognized
  }

  /** What one line does, as the loop in main reports it: the session ends,
      the meta command is unrecognized, preparation fails with an error, or
      the statement runs with a result and the rows it prints. */
  datatype LineOutcome =
    | Terminate
    | UnrecognizedCommand
    | Rejected(error: PrepareError)
    | Executed(result: ExecuteResult, output: seq<Row>)

  datatype ExitStatus = ExitSuccess | ExitFailure

  // ---------------------------------------------------------------------
  // Executing statements
  // ---------------------------------------------------------------------

  /** execute_statement on the table's rows: the new rows, the result and
      the rows printed. */
  function Execute(rows: seq<Row>, stmt: Statement): (r: (seq<Row>, ExecuteResult, seq<Row>))
    requires |rows| <= TABLE_MAX_ROWS
    ensures |r.0| <= TABLE_MAX_ROWS
    ensures r.1 == ExecuteTableFull <==> stmt.Insert? && |rows| == TABLE_MAX_ROWS
    ensures r.1 == ExecuteTableFull ==> r.0 == rows && r.2 == []
    ensures stmt.Insert? && r.1 == ExecuteSuccess ==> r.0 == rows + [stmt.row] && r.2 == []
    ensures stmt.Select? ==> r.0 == rows && r.2 == rows
  {
    match stmt
    case Insert(row) =>
      if |rows| >= TABLE_MAX_ROWS then (rows, ExecuteTableFull, []) else (rows + [row], ExecuteSuccess, [])
    case Select => (rows, ExecuteSuccess, rows)
  }

  /** execute_statement: dispatches on the statement kind. */
  method ExecuteStatement(table: Table, stmt: Statement) returns (result: ExecuteResult, output: seq<Row>)
    requires table.Valid() && (stmt.Insert? ==> WellFormed(stmt.row))
    modifies table.Repr
    ensures table.Valid() && fresh(table.Repr - old(table.Repr))
    ensures (table.Contents, result, output) == Execute(old(table.Contents), stmt)
  {
    match stmt {
      case Insert(row) =>
        result := table.ExecuteInsert(row);
        output := [];
      case Select =>
        result, output := table.ExecuteSelect();
    }
  }

  // ---------------------------------------------------------------------
  // One line
  // ---------------------------------------------------------------------

  /** The effect of one line on the table's rows. A line starting with '.'
      never reaches the preparer; a failed preparation leaves the rows
      alone; only a successful insert changes them, by appending one row. */
  function Interpret(rows: seq<Row>, line: seq<byte>, scratch: Row): (r: (seq<Row>, LineOutcome))
    requires |rows| <= TABLE_MAX_ROWS && WellFormed(scratch)
    ensures |r.0| <= TABLE_MAX_ROWS
    ensures r.0 == rows || (|rows| < TABLE_MAX_ROWS && |r.0| == |rows| + 1 && r.0[..|rows|] == rows && WellFormed(r.0[|rows|]))
    ensures r.1 == Terminate <==> CString(line) == EXIT_COMMAND
    ensures r.1 == UnrecognizedCommand <==>
              var s := CString(line); |s| > 0 && s[0] == DOT && s != EXIT_COMMAND
    ensures r.1 == Terminate || r.1 == UnrecognizedCommand || r.1.Rejected? ==> r.0 == rows
    ensures r.1.Executed? && r.1.output != [] ==> r.1.output == rows && r.0 == rows
  {
    var s := CString(line);
    if |s| > 0 && s[0] == DOT then
      (rows, if DoMetaCommand(s) == MetaExit then Terminate else UnrecognizedCommand)
    else
      match PrepareStatement(s, scratch)
      case PrepareFailed(e) => (rows, Rejected(e))
      case Prepared(stmt) =>
        var (rows', result, output) := Execute(rows, stmt);
        (rows', Executed(result, output))
  }

  /** One pass of the loop in main, on the session's table. */
  method ProcessLine(table: Table, line: seq<byte>, scratch: Row) returns (outcome: LineOutcome)
    requires table.Valid() && WellFormed(scratch)
    modifies table.Repr
    ensures table.Valid() && fresh(table.Repr - old(table.Repr))
    ensures (table.Contents, outcome) == Interpret(old(table.Contents), line, scratch)
  {
    var s := CString(line);
    if |s| > 0 && s[0] == DOT {
      match DoMetaCommand(s) {
        case MetaExit => return Terminate;
        case MetaUnrecognized => return UnrecognizedCommand;
      }
    }
    match PrepareStatement(s, scratch) {
      case PrepareFailed(e) =>
        outcome := Rejected(e);
      case Prepared(stmt) =>
        var result, output := ExecuteStatement(table, stmt);
        outcome := Executed(result, output);
    }
  }

  // ---------------------------------------------------------------------
  // A session
  // ---------------------------------------------------------------------

  /** The rows and the outcomes of a session that starts from the given rows
      and reads the given lines; it stops at the first line that terminates. */
  function Session(rows: seq<Row>, lines: seq<seq<byte>>, scratch: Row): (r: (seq<Row>, seq<LineOutcome>))
    requires |rows| <= TABLE_MAX_ROWS && WellFormed(scratch)
    ensures |r.0| <= TABLE_MAX_ROWS && rows <= r.0
    ensures |r.1| <= |lines|
    ensures forall k :: 0 <= k < |r.1| - 1 ==> r.1[k] != Terminate
    decreases |lines|
  {
    if lines == [] then (rows, [])
    else
      var step := Interpret(rows, lines[0], scratch);
      if step.1 == Terminate then (step.0, [step.1])
      else
        var rest := Session(step.0, lines[1..], scratch);
        (rest.0, [step.1] + rest.1)
  }

  /** A session gives one outcome per line, up to and including the first
      ".exit" and no further: outcome k is Terminate exactly when line k is
      ".exit", and the outcomes stop short of the lines only at a Terminate. */
  lemma {:induction false} SessionOutcomes(rows: seq<Row>, lines: seq<seq<byte>>, scratch: Row)
    requires |rows| <= TABLE_MAX_ROWS && WellFormed(scratch)
    ensures var r := Session(rows, lines, scratch).1;
            && (forall k :: 0 <= k < |r| ==> (r[k] == Terminate <==> CString(lines[k]) == EXIT_COMMAND))
            && (|r| == |lines| || (r != [] && r[|r| - 1] == Terminate))
    decreases |lines|
  {
    if lines != [] {
      var step := Interpret(rows, lines[0], scratch);
      if step.1 != Terminate {
        SessionOutcomes(step.0, lines[1..], scratch);
        assert forall k :: 1 <= k < |lines| ==> lines[1..][k - 1] == lines[k];
      }
    }
  }

  /** One step of a session: the first line, then the rest from the rows it
      leaves, unless it terminates. */
  lemma SessionStep(rows: seq<Row>, lines: seq<seq<byte>>, scratch: Row)
    requires |rows| <= TABLE_MAX_ROWS && WellFormed(scratch) && lines != []
    ensures var step := Interpret(rows, lines[0], scratch);
            Session(rows, lines, scratch).1
              == if step.1 == Terminate then [Terminate]
                 else [step.1] + Session(step.0, lines[1..], scratch).1
  {
  }

  lemma Regroup<T>(a: seq<T>, b: seq<T>, c: seq<T>)
    ensures a + (b + c) == (a + b) + c
  {
  }

  /** main: a fresh table, one line after another until ".exit" releases the
      table's pages and exits successfully; running out of input is an
      unsuccessful exit (read_input's error path). */
  method RunSession(lines: seq<seq<byte>>, scratch: Row) returns (outcomes: seq<LineOutcome>, status: ExitStatus)
    requires WellFormed(scratch)
    ensures outcomes == Session([], lines, scratch).1
    ensures status == ExitSuccess <==> Terminate in outcomes
  {
    var table := new Table();
    outcomes := [];
    var i := 0;
    while i < |lines|
      invariant 0 <= i <= |lines|
      invariant table.Valid() && fresh(table.Repr)
      invariant Terminate !in outcomes
      invariant Session([], lines, scratch).1 == outcomes + Session(table.Contents, lines[i..], scratch).1
    {
      ghost var before := table.Contents;
      var outcome := ProcessLine(table, lines[i], scratch);
      SessionStep(before, lines[i..], scratch);
      assert lines[i..][0] == lines[i] && lines[i..][1..] == lines[i + 1..];
      Regroup(outcomes, [outcome], Session(table.Contents, lines[i + 1..], scratch).1);
      outcomes := outcomes + [outcome];
      if outcome == Terminate {
        var _ := table.FreeTable();
        return outcomes, ExitSuccess;
      }
      i := i + 1;
    }
    status := ExitFailure;
  }

  // ---------------------------------------------------------------------
  // What sessions do
  // ---------------------------------------------------------------------

  predicate AllInsertable(recs: seq<Record>)
  {
    forall i :: 0 <= i < |recs| ==> Insertable(recs[i])
  }

  /** The insert lines of a list of records, in order. */
  function InsertLines(recs: seq<Record>): (lines: seq<seq<byte>>)
    requires AllInsertable(recs)
    ensures |lines| == |recs|
  {
    seq(|recs|, i requires 0 <= i < |recs| => InsertLine(recs[i]))
  }

  function FilledRows(recs: seq<Record>, scratch: Row): (rows: seq<Row>)
    requires WellFormed(scratch) && AllInsertable(recs)
    ensures |rows| == |recs|
    ensures forall k :: 0 <= k < |recs| ==> WellFormed(rows[k]) && View(rows[k]) == recs[k]
  {
    seq(|recs|, i requires 0 <= i < |recs| => Filled(recs[i], scratch))
  }

  /** n acknowledgements of a successful insert. */
  function Acks(n: nat): (r: seq<LineOutcome>)
    ensures |r| == n
  {
    seq(n, _ => Executed(ExecuteSuccess, []))
  }

  lemma UnconsLines(rows: seq<Row>, recs: seq<Record>, more: seq<seq<byte>>, scratch: Row)
    requires AllInsertable(recs) && recs != [] && WellFormed(scratch)
    ensures AllInsertable(recs[1..])
    ensures InsertLines(recs) + more == [InsertLine(recs[0])] + (InsertLines(recs[1..]) + more)
    ensures rows + FilledRows(recs, scratch) == (rows + [Filled(recs[0], scratch)]) + FilledRows(recs[1..], scratch)
    ensures Acks(|recs|) == [Executed(ExecuteSuccess, [])] + Acks(|recs| - 1)
  {
    UnconsInsertLines(recs);
    Regroup([InsertLine(recs[0])], InsertLines(recs[1..]), more);
    UnconsFilledRows(recs, scratch);
    Regroup(rows, [Filled(recs[0], scratch)], FilledRows(recs[1..], scratch));
    assert Acks(|recs|) == [Executed(ExecuteSuccess, [])] + Acks(|recs| - 1);
  }

  lemma UnconsFilledRows(recs: seq<Record>, scratch: Row)
    requires AllInsertable(recs) && recs != [] && WellFormed(scratch)
    ensures AllInsertable(recs[1..])
    ensures FilledRows(recs, scratch) == [Filled(recs[0], scratch)] + FilledRows(recs[1..], scratch)
  {
    assert forall i :: 0 <= i < |recs| - 1 ==> recs[1..][i] == recs[i + 1];
  }

  lemma UnconsInsertLines(recs: seq<Record>)
    requires AllInsertable(recs) && recs != []
    ensures AllInsertable(recs[1..])
    ensures InsertLines(recs) == [InsertLine(recs[0])] + InsertLines(recs[1..])
  {
    assert forall i :: 0 <= i < |recs| - 1 ==> recs[1..][i] == recs[i + 1];
  }

  /** The line written for an insertable record appends the record's row
      when the table has room; once the table holds TABLE_MAX_ROWS rows it
      is refused with "table full" and the rows stay as they were. */
  lemma InterpretInsertLine(rows: seq<Row>, rec: Record, scratch: Row)
    requires |rows| <= TABLE_MAX_ROWS && Insertable(rec) && WellFormed(scratch)
    ensures Interpret(rows, InsertLine(rec), scratch)
         == if |rows| < TABLE_MAX_ROWS then (rows + [Filled(rec, scratch)], Executed(ExecuteSuccess, []))
            else (rows, Executed(ExecuteTableFull, []))
  {
    PrepareInsertLine(rec, scratch);
  }

  /** An insert line into a table with room appends the record's row,
      acknowledges it, and the session goes on from the grown table. */
  lemma InsertLineStep(rows: seq<Row>, rec: Record, rest: seq<seq<byte>>, scratch: Row)
    requires |rows| < TABLE_MAX_ROWS && Insertable(rec) && WellFormed(scratch)
    ensures Session(rows, [InsertLine(rec)] + rest, scratch)
         == (Session(rows + [Filled(rec, scratch)], rest, scratch).0,
             [Executed(ExecuteSuccess, [])] + Session(rows + [Filled(rec, scratch)], rest, scratch).1)
  {
    var lines := [InsertLine(rec)] + rest;
    InterpretInsertLine(rows, rec, scratch);
    SessionStep(rows, lines, scratch);
    assert lines[0] == InsertLine(rec) && lines[1..] == rest;
  }

  /** The inductive step of InsertsAppend: the first record's line, then
      the rest by induction. */
  lemma {:induction false} InsertsAppendStep(rows: seq<Row>, recs: seq<Record>, more: seq<seq<byte>>, scratch: Row)
    requires |rows| + |recs| <= TABLE_MAX_ROWS && WellFormed(scratch)
    requires AllInsertable(recs) && recs != []
    ensures Session(rows, InsertLines(recs) + more, scratch).0
         == Session(rows + FilledRows(recs, scratch), more, scratch).0
    ensures Session(rows, InsertLines(recs) + more, scratch).1
         == Acks(|recs|) + Session(rows + FilledRows(recs, scratch), more, scratch).1
    decreases |recs|, 0
  {
    UnconsLines(rows, recs, more, scratch);
    InsertsAppend(rows + [Filled(recs[0], scratch)], recs[1..], more, scratch);
    InsertLineStep(rows, recs[0], InsertLines(recs[1..]) + more, scratch);
    Regroup([Executed(ExecuteSuccess, [])], Acks(|recs| - 1), Session(rows + FilledRows(recs, scratch), more, scratch).1);
  }

  /** Inserting records into a table with room for them appends their rows
      in order and acknowledges each; the session then goes on with the
      remaining lines from the grown table. */
  lemma {:induction false} InsertsAppend(rows: seq<Row>, recs: seq<Record>, more: seq<seq<byte>>, scratch: Row)
    requires |rows| + |recs| <= TABLE_MAX_ROWS && WellFormed(scratch)
    requires AllInsertable(recs)
    ensures Session(rows, InsertLines(recs) + more, scratch).0
         == Session(rows + FilledRows(recs, scratch), more, scratch).0
    ensures Session(rows, InsertLines(recs) + more, scratch).1
         == Acks(|recs|) + Session(rows + FilledRows(recs, scratch), more, scratch).1
    decreases |recs|, 1
  {
    if recs == [] {
      assert InsertLines(recs) + more == more;
      assert rows + FilledRows(recs, scratch) == rows;
      assert Acks(0) + Session(rows, more, scratch).1 == Session(rows, more, scratch).1;
    } else {
      InsertsAppendStep(rows, recs, more, scratch);
    }
  }

  /** A select prints every stored row, in insertion order, and leaves the
      rows as they are. */
  lemma InterpretSelect(rows: seq<Row>, scratch: Row)
    requires |rows| <= TABLE_MAX_ROWS && WellFormed(scratch)
    ensures Interpret(rows, SELECT, scratch) == (rows, Executed(ExecuteSuccess, rows))
  {
    assert NUL !in SELECT;
    CStringOfNulFree(SELECT);
    assert PrepareStatement(SELECT, scratch) == Prepared(Select);
  }

  /** A session that only selects prints the rows once. */
  lemma SelectOnce(rows: seq<Row>, scratch: Row)
    requires |rows| <= TABLE_MAX_ROWS && WellFormed(scratch)
    ensures Session(rows, [SELECT], scratch) == (rows, [Executed(ExecuteSuccess, rows)])
  {
    InterpretSelect(rows, scratch);
    SessionStep(rows, [SELECT], scratch);
    assert [SELECT][1..] == [];
    assert [Executed(ExecuteSuccess, rows)] + [] == [Executed(ExecuteSuccess, rows)];
  }

  /** Selecting changes nothing, so a second select prints the same rows. */
  lemma SelectTwice(rows: seq<Row>, scratch: Row)
    requires |rows| <= TABLE_MAX_ROWS && WellFormed(scratch)
    ensures Session(rows, [SELECT, SELECT], scratch)
         == (rows, [Executed(ExecuteSuccess, rows), Executed(ExecuteSuccess, rows)])
  {
    InterpretSelect(rows, scratch);
    SelectOnce(rows, scratch);
    SessionStep(rows, [SELECT, SELECT], scratch);
    assert [SELECT, SELECT][1..] == [SELECT];
    assert [Executed(ExecuteSuccess, rows)] + [Executed(ExecuteSuccess, rows)]
        == [Executed(ExecuteSuccess, rows), Executed(ExecuteSuccess, rows)];
  }

  /** Inserting records into an empty table and then selecting prints the
      records back, in the order they were inserted. */
  lemma InsertsThenSelect(recs: seq<Record>, scratch: Row)
    requires |recs| <= TABLE_MAX_ROWS && WellFormed(scratch)
    requires AllInsertable(recs)
    ensures var r := Session([], InsertLines(recs) + [SELECT], scratch);
            && |r.0| == |recs| && (forall k :: 0 <= k < |recs| ==> View(r.0[k]) == recs[k])
            && r.1 == Acks(|recs|) + [Executed(ExecuteSuccess, r.0)]
  {
    SelectOnce(FilledRows(recs, scratch), scratch);
    InsertsAppend([], recs, [SELECT], scratch);
    assert [] + FilledRows(recs, scratch) == FilledRows(recs, scratch);
  }

  /** ".exit" ends the session: the lines after it are never read and the
      rows are those before it. */
  lemma ExitEndsSession(rows: seq<Row>, rest: seq<seq<byte>>, scratch: Row)
    requires |rows| <= TABLE_MAX_ROWS && WellFormed(scratch)
    ensures Session(rows, [EXIT_COMMAND] + rest, scratch) == (rows, [Terminate])
  {
    assert NUL !in EXIT_COMMAND;
    CStringOfNulFree(EXIT_COMMAND);
    assert ([EXIT_COMMAND] + rest)[0] == EXIT_COMMAND;
  }

}
