/** The statement preparer: turns the C string of an input line into an
    insert statement carrying a filled row, a select statement, or one of the
    four preparation errors. Lines are split on single spaces the way
    strtok(_, " ") splits them; an insert needs three arguments after the
    keyword (further tokens are ignored), a non-negative id and strings that
    fit their columns, checked in that order. */
module Preparer {
  import opened CStrings
  import opened RowCodec

  datatype Statement = Insert(row: Row) | Select

  datatype PrepareError = NegativeId | StringTooLong | SyntaxError | UnrecognizedStatement

  datatype PrepareResult = Prepared(statement: Statement) | PrepareFailed(error: PrepareError)

  /** "insert" and "select". */
  const INSERT: seq<byte> := [105, 110, 115, 101, 114, 116]
  const SELECT: seq<byte> := [115, 101, 108, 101, 99, 116]

  /** prepare_insert on the C string s; scratch is the row buffer's previous
      contents, which strcpy overwrites only up to each terminator. */
  function PrepareInsert(s: seq<byte>, scratch: Row): (r: PrepareResult)
    requires NUL !in s && WellFormed(scratch)
    ensures r == PrepareFailed(SyntaxError) <==> |Tokens(s)| < 4
    ensures r == PrepareFailed(NegativeId) <==> |Tokens(s)| >= 4 && Atoi(Tokens(s)[1]) < 0
    ensures r == PrepareFailed(StringTooLong) <==>
              && |Tokens(s)| >= 4 && Atoi(Tokens(s)[1]) >= 0
              && (|Tokens(s)[2]| > COLUMN_USERNAME_SIZE || |Tokens(s)[3]| > COLUMN_EMAIL_SIZE)
    ensures r.Prepared? <==>
              && |Tokens(s)| >= 4 && Atoi(Tokens(s)[1]) >= 0
              && |Tokens(s)[2]| <= COLUMN_USERNAME_SIZE && |Tokens(s)[3]| <= COLUMN_EMAIL_SIZE
    ensures r.Prepared? ==>
              && r.statement.Insert? && WellFormed(r.statement.row)
              && View(r.statement.row) == Record(Atoi(Tokens(s)[1]), Tokens(s)[2], Tokens(s)[3])
  {
    var tokens := Tokens(s);
    if |tokens| < 4 then
      PrepareFailed(SyntaxError)
    else
      var id := Atoi(tokens[1]);
      var username, email := tokens[2], tokens[3];
      TokensWithoutNul(s);
      assert tokens[2] in tokens && tokens[3] in tokens;
      if id < 0 then
        PrepareFailed(NegativeId)
      else if |username| > COLUMN_USERNAME_SIZE then
        PrepareFailed(StringTooLong)
      else if |email| > COLUMN_EMAIL_SIZE then
        PrepareFailed(StringTooLong)
      else
        Prepared(Insert(Row(id, Strcpy(scratch.username, username), Strcpy(scratch.email, email))))
  }

  /** prepare_statement: a line that starts with "insert" is prepared as an
      insert, the exact line "select" is a select, anything else is an
      unrecognized statement. */
  function PrepareStatement(s: seq<byte>, scratch: Row): (r: PrepareResult)
    requires NUL !in s && WellFormed(scratch)
    ensures r == Prepared(Select) <==> s == SELECT
    ensures r == PrepareFailed(UnrecognizedStatement) <==> !(INSERT <= s) && s != SELECT
    ensures INSERT <= s ==> r == PrepareInsert(s, scratch)
  {
    if INSERT <= s then
      PrepareInsert(s, scratch)
    else if s == SELECT then
      Prepared(Select)
    else
      PrepareFailed(UnrecognizedStatement)
  }

  // ---------------------------------------------------------------------
  // Insert lines as a user writes them
  // ---------------------------------------------------------------------

  /** A record an insert line can carry: an id that fits in a C int and two
      space-free, NUL-free, non-empty strings that fit their columns. */
  predicate Insertable(rec: Record)
  {
    && 0 <= rec.id <= INT_MAX
    && IsWord(rec.username) && NUL !in rec.username && |rec.username| <= COLUMN_USERNAME_SIZE
    && IsWord(rec.email) && NUL !in rec.email && |rec.email| <= COLUMN_EMAIL_SIZE
  }

  /** The row prepare_insert fills for a record, over the buffer's previous
      contents. */
  function Filled(rec: Record, scratch: Row): (row: Row)
    requires Insertable(rec) && WellFormed(scratch)
    ensures WellFormed(row) && View(row) == rec
  {
    Row(rec.id, Strcpy(scratch.username, rec.username), Strcpy(scratch.email, rec.email))
  }

  /** The line "insert <id> <username> <email>". */
  function InsertLine(rec: Record): seq<byte>
    requires rec.id >= 0
  {
    Unwords([INSERT, Decimal(rec.id), rec.username, rec.email])
  }

  lemma InsertIsPrefixOfUnwords(ws: seq<seq<byte>>)
    requires |ws| >= 1 && ws[0] == INSERT
    ensures INSERT <= Unwords(ws)
  {
    if |ws| > 1 {
      var rest := [SPACE] + Unwords(ws[1..]);
      assert Unwords(ws) == ws[0] + rest;
      assert (INSERT + rest)[..|INSERT|] == INSERT;
    }
  }

  /** Preparing the line written for an insertable record yields an insert
      of that record's row: writing and preparing an insert round-trip. */
  lemma PrepareInsertLine(rec: Record, scratch: Row)
    requires Insertable(rec) && WellFormed(scratch)
    ensures NUL !in InsertLine(rec) && CString(InsertLine(rec)) == InsertLine(rec)
    ensures INSERT <= InsertLine(rec)
    ensures PrepareStatement(InsertLine(rec), scratch) == Prepared(Insert(Filled(rec, scratch)))
  {
    var d := Decimal(rec.id);
    var ws := [INSERT, d, rec.username, rec.email];
    var line := InsertLine(rec);
    assert NUL !in line && INSERT <= line && Tokens(line) == ws by {
      assert forall i :: 0 <= i < |d| ==> d[i] != NUL && d[i] != SPACE;
      assert NUL !in d && SPACE !in d;
      InsertWordsLine(ws);
    }
    CStringOfNulFree(line);
    assert Atoi(ws[1]) == rec.id by {
      AtoiOfDecimal(rec.id);
    }
  }

  // ---------------------------------------------------------------------
  // The order of the checks in prepare_insert
  // ---------------------------------------------------------------------

  /** A command line of NUL-free words starting with "insert". */
  predicate InsertWords(ws: seq<seq<byte>>)
  {
    |ws| >= 1 && ws[0] == INSERT && forall w <- ws :: IsWord(w) && NUL !in w
  }

  lemma InsertWordsLine(ws: seq<seq<byte>>)
    requires InsertWords(ws)
    ensures NUL !in Unwords(ws) && INSERT <= Unwords(ws) && Tokens(Unwords(ws)) == ws
  {
    InsertIsPrefixOfUnwords(ws);
    TokensOfUnwords(ws);
  }

  /** Fewer than three arguments is a syntax error, whatever they hold. */
  lemma MissingArgumentsFirst(ws: seq<seq<byte>>, scratch: Row)
    requires InsertWords(ws) && |ws| < 4 && WellFormed(scratch)
    ensures PrepareStatement(Unwords(ws), scratch) == PrepareFailed(SyntaxError)
  {
    InsertWordsLine(ws);
  }

  /** A negative id is reported before the lengths of the strings are
      looked at. */
  lemma NegativeIdBeforeLengths(n: nat, username: seq<byte>, email: seq<byte>, extra: seq<seq<byte>>, scratch: Row)
    requires 0 < n <= INT_MAX && WellFormed(scratch)
    requires InsertWords([INSERT, [MINUS] + Decimal(n), username, email] + extra)
    ensures PrepareStatement(Unwords([INSERT, [MINUS] + Decimal(n), username, email] + extra), scratch)
         == PrepareFailed(NegativeId)
  {
    var ws := [INSERT, [MINUS] + Decimal(n), username, email] + extra;
    InsertWordsLine(ws);
    AtoiOfDecimal(n);
    assert ws[1] == [MINUS] + Decimal(n);
  }

  /** With a valid id, a username or email longer than its column is
      rejected; tokens after the email are ignored. */
  lemma LongStringAfterId(n: nat, username: seq<byte>, email: seq<byte>, extra: seq<seq<byte>>, scratch: Row)
    requires n <= INT_MAX && WellFormed(scratch)
    requires InsertWords([INSERT, Decimal(n), username, email] + extra)
    requires |username| > COLUMN_USERNAME_SIZE || |email| > COLUMN_EMAIL_SIZE
    ensures PrepareStatement(Unwords([INSERT, Decimal(n), username, email] + extra), scratch)
         == PrepareFailed(StringTooLong)
  {
    var ws := [INSERT, Decimal(n), username, email] + extra;
    InsertWordsLine(ws);
    AtoiOfDecimal(n);
    assert ws[1] == Decimal(n) && ws[2] == username && ws[3] == email;
  }

  /** An id written with more digits than an int holds is read modulo 2^32:
      the line is prepared exactly as if it carried that int. */
  lemma WideIdWraps(n: nat, username: seq<byte>, email: seq<byte>, scratch: Row)
    requires n <= LONG_MAX && WellFormed(scratch)
    requires InsertWords([INSERT, Decimal(n), username, email])
    ensures var r := PrepareStatement(Unwords([INSERT, Decimal(n), username, email]), scratch);
            && (ToInt(n) < 0 <==> r == PrepareFailed(NegativeId))
            && (r.Prepared? ==> r.statement.row.id == ToInt(n))
  {
    var ws := [INSERT, Decimal(n), username, email];
    InsertWordsLine(ws);
    AtoiOfLargeDecimal(n);
    assert ws[1] == Decimal(n);
  }

  /** "insert -1 bob@x bob": the id check comes first, so the line is
      rejected for its negative id. */
  lemma NegativeIdExample(scratch: Row)
    requires WellFormed(scratch)
    ensures PrepareStatement(Unwords([INSERT, Ascii("-1"), Ascii("bob@x"), Ascii("bob")]), scratch)
         == PrepareFailed(NegativeId)
  {
    var ws := [INSERT, Ascii("-1"), Ascii("bob@x"), Ascii("bob")];
    assert Ascii("-1") == [MINUS] + Decimal(1);
    assert ws == [INSERT, [MINUS] + Decimal(1), Ascii("bob@x"), Ascii("bob")] + [];
    NegativeIdBeforeLengths(1, Ascii("bob@x"), Ascii("bob"), [], scratch);
  }
}
