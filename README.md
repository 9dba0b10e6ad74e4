# A verified model of db.c, a single-table in-memory database

`db.c` is the first stage of a small SQLite clone. A read-eval loop reads one
line at a time. It takes one of two paths:

- A line starting with `.` is a meta command. Only `.exit` is known; it
  releases the table and exits.
- Any other line is a statement. It is either
  `insert <id> <username> <email>` or `select`.

Rows have a fixed layout: a 32-bit id, a 33-byte username buffer and a 256-byte
email buffer. They are kept in compact 293-byte form in an array of at most 100
pages of 4096 bytes. A page is allocated the first time a row index maps into it.
There are 13 rows per page, so the table holds at most 1300 rows.

The model has five modules, one per file:

| file | module | what it models | form |
|---|---|---|---|
| `cstring.dfy` | `CStrings` | the C library calls the preparer relies on: the C string in a buffer, `strcpy`, `strtok(_, " ")` and `atoi` | functions and lemmas |
| `row_codec.dfy` | `RowCodec` | the row layout, `serialize_row` and `deserialize_row` | functions and lemmas |
| `table.dfy` | `PagedStore` | the `Table` struct, `new_table`, `row_slot`, `execute_insert`, `execute_select` and `free_table` | a class over arrays, with methods |
| `preparer.dfy` | `Preparer` | `prepare_insert` and `prepare_statement` | functions and lemmas |
| `repl.dfy` | `Repl` | `do_meta_command`, `execute_statement` and one pass of the loop in `main` | a method per line, checked against a pure step function and a pure session function |

An input line is a `seq<byte>`. Like `getline` followed by the newline being
overwritten, it may contain a NUL byte. Every operation works on `CString(line)`,
the bytes before the first NUL.

The table is a `class Table`. Its fields are:

- `pages`: an array of `Option<array<byte>>`, one entry per page slot.
- `numRows`: the row count.
- `Contents`: a ghost sequence of the rows stored so far.

`Valid()` is the table invariant. It says three things:

- Row `i` is stored, serialized, at its slot for every `i < numRows`.
- Every allocated page is its own 4096-byte array.
- The allocated slots are exactly the first `ceil(numRows / 13)` slots.

Every method on the table preserves `Valid()` and states its effect on
`Contents`, except `Table.RowSlot`. `RowSlot` runs in the middle of an insert.
It may allocate the page for row `numRows` before the count grows, so it keeps
only `Sound()`: `Valid()` without the clause about which slots are allocated.
`Repl.ProcessLine` is proved equal, line by line, to the pure function
`Repl.Interpret`. `Repl.RunSession` is proved equal to `Repl.Session`. The
lemmas about sessions are stated on those functions.

Modelling choices:

- **Uninitialised bytes.** `prepare_insert` writes each string into the row buffer
  with `strcpy`. The bytes after the terminator are left as they were: the
  statement is an uninitialised local, so they are indeterminate. The model takes
  them as a `scratch: Row` parameter. The printed view of a row (`RowCodec.View`)
  does not depend on them.
- **The id's bytes.** They are the little-endian encoding of the `uint32_t`, as
  `memcpy` of a host integer gives on the usual targets.
- **`atoi`.** It follows the GNU C library: `(int) strtol(s, NULL, 10)`.
  Leading white space is skipped, then an optional sign is read, then the longest
  run of digits. The value saturates at the range of a 64-bit `long`, and the
  conversion to `int` keeps the low 32 bits. The C standard leaves out-of-range
  input undefined.

Some consequences of db.c as written, all kept by the model:

- db.c reads only the first four tokens of an insert line (db.c:235-238). Tokens
  after the email are ignored.
- Tokens are split on the space character only (db.c:235-238). A tab is part of
  a token.
- `insert -1 bob@x bob` has four tokens, so db.c rejects it for its negative id
  (db.c:244-247), not as a syntax error. See `Preparer.NegativeIdExample`.
- The message "ID must be positive" is printed only for negative ids (db.c:245).
  An id of 0 is accepted.
- Any line that merely starts with `insert` is prepared as an insert
  (db.c:267), for example `insertfoo 1 a b`. Only the exact line `select` is a
  select (db.c:270).

## Model

| member | source | states |
|---|---|---|
| CStrings.CString | db.c:217 | the C string held in a buffer has no NUL, is a prefix of the buffer and is followed by a NUL when shorter than the buffer |
| CStrings.Strcpy | db.c:259-260 | after strcpy into a buffer big enough for src and its terminator, the buffer holds the C string src, has its old length, and keeps its old bytes after the terminator |
| CStrings.Tokens | db.c:235-238 | every token strtok returns is non-empty and holds no space |
| CStrings.TokensOfUnwords | db.c:235-238 | splitting with strtok on single spaces gives back exactly the space-free words a line was written from |
| CStrings.TokensWithoutNul | db.c:235-238 | the tokens strtok returns from a C string contain no NUL |
| CStrings.DecimalValue | db.c:244 | the number a text spells is 0 when its first non-space byte is neither a sign nor a digit, not positive after a minus sign and not negative otherwise |
| CStrings.DecimalValueOfDecimal | db.c:244 | a number written in decimal, with or without a leading minus, reads back as that number |
| CStrings.Atoi | db.c:244 | atoi always yields an int, and yields the decimal value of its text whenever that value fits in an int |
| CStrings.Strtol | db.c:244 | strtol's value is the decimal value of its text, saturated to the range of long |
| CStrings.ToInt | db.c:244 | converting a long to int gives an int congruent to it modulo 2^32, and leaves a value that fits unchanged |
| CStrings.AtoiOfDecimal | db.c:244 | atoi reads back any non-negative int written in decimal, with or without a leading minus |
| CStrings.AtoiOfLargeDecimal | db.c:244 | a decimal id too large for an int but within a long is read as its value modulo 2^32 |
| RowCodec.Layout | db.c:62-68 | the text buffers hold their column plus a terminator, and the fields are packed without gaps from offset 0, so a row is the sum of its field sizes |
| RowCodec.Serialize | db.c:105-109 | the compact form is ROW_SIZE bytes with the id bytes at offset 0, the username buffer at offset 4 and the email buffer at offset 37 |
| RowCodec.EncodeId | db.c:106 | the id is copied as four bytes, least significant first |
| RowCodec.DecodeId | db.c:112 | the id read from four bytes has the first byte as its least significant and the last as its most significant |
| RowCodec.IdRoundTrip | db.c:106-112 | decoding the four id bytes gives back the id |
| RowCodec.IdBytesRoundTrip | db.c:106-112 | every four-byte pattern is the encoding of the id it decodes to |
| RowCodec.Deserialize | db.c:111-115 | any ROW_SIZE-byte block decodes to a row whose buffers have the declared sizes |
| RowCodec.RoundTrip | db.c:105-115 | deserialize_row after serialize_row gives back the same row, every byte of both buffers included |
| RowCodec.BytesRoundTrip | db.c:105-115 | serialize_row after deserialize_row gives back the same 293 bytes, so the codec is a bijection |
| RowCodec.TextRoundTrip | db.c:105-115 | a row filled by strcpy reads back after a codec round trip as the same id and strings, whatever its buffers held before |
| PagedStore.Capacity | db.c:79-87 | 13 rows fit in a 4096-byte page and the table holds 1300 rows |
| PagedStore.SlotInsidePage | db.c:120-137 | every admissible row index addresses a page slot below 100 and a 293-byte range inside the page |
| PagedStore.SlotsDisjoint | db.c:120-137 | distinct row indices address different pages or non-overlapping byte ranges |
| PagedStore.PageOf | db.c:122 | row n lies in the page whose first row index is the greatest multiple of 13 not above n |
| PagedStore.OffsetOf | db.c:132-134 | a row's byte offset in its page is a whole number of rows and leaves room for the row before the page ends |
| PagedStore.PagesInUse | db.c:155-157 | the number of pages n rows occupy is the least k with 13k >= n |
| PagedStore.Memcpy | db.c:106-108 | memcpy sets exactly the destination range to the source and leaves every other byte unchanged |
| PagedStore.SerializeRowInto | db.c:105-109 | serializing into a page writes the row's compact form at the offset and nothing else |
| PagedStore.Table.constructor | db.c:142-149 | a new table has no rows and every page slot empty, and satisfies the table invariant |
| PagedStore.Table.RowSlot | db.c:120-137 | returns the slot's page and offset; allocates a fresh page only when the slot was empty, changes no other page slot, no stored row and not the row count |
| PagedStore.RowSlotTwice | db.c:120-137 | asking twice for the same row gives the same page and offset, and that page sits in the row's page slot |
| PagedStore.Table.ExecuteInsert | db.c:281-294 | a table holding 1300 rows reports table full and is unchanged; otherwise the row is appended, the count grows by one, rows stored earlier keep their bytes, and the invariant holds |
| PagedStore.Table.ExecuteSelect | db.c:296-307 | returns every stored row decoded, in index order, and leaves the count, the page slots and the invariant unchanged |
| PagedStore.Table.FreeTable | db.c:154-159 | the bounded teardown loop releases the allocated pages from the front, which are all of the table's pages |
| PagedStore.FreeProbesAsWritten | db.c:155 | the loop as written reads consecutive slot indices from its first one; every slot it reads before the last is in use, and the last is the first empty slot or the index one past the end |
| PagedStore.ProbesStopAtEmptySlot | db.c:155 | the loop as written reads no slot after an empty one |
| PagedStore.FreeTableReadsPastEnd | db.c:154-157 | in a valid table with more than 1287 rows every page slot is in use, and the loop as written reads pages[100], past the end of the array |
| PagedStore.FreeTableInBounds | db.c:154-157 | in a valid table with at most 1287 rows the last slot is empty and the loop as written reads only slots below 100 |
| PagedStore.AllocatedSlots | db.c:126-129 | page slot p is in use exactly when 13p is below the row count |
| PagedStore.SlotsInUse | db.c:91 | the in-use flags of a table are one per page slot, set exactly where the slot holds a page |
| PagedStore.AllocatedSlotsOfTable | db.c:126-129 | in every valid table the slots holding a page are exactly AllocatedSlots of its row count |
| Preparer.PrepareInsert | db.c:226-263 | fewer than four tokens is a syntax error, then a negative atoi id, then a username over 32 or an email over 255 bytes is too long, each as an if-and-only-if; it succeeds exactly when all checks pass, and then the row's id and strings are the tokens' |
| Preparer.PrepareStatement | db.c:265-276 | the exact line "select" is a select, any line starting with "insert" gets prepare_insert's verdict, everything else is unrecognized |
| Preparer.Filled | db.c:258-260 | the row filled for a record reads back as that record |
| Preparer.PrepareInsertLine | db.c:226-276 | writing "insert id username email" for an insertable record and preparing it gives an insert of exactly that record's row |
| Preparer.MissingArgumentsFirst | db.c:240-242 | an insert with fewer than three arguments, none at all included, is a syntax error whatever the arguments hold |
| Preparer.NegativeIdBeforeLengths | db.c:244-257 | a negative id is reported before the string lengths are checked, and extra tokens do not matter |
| Preparer.LongStringAfterId | db.c:251-256 | with a valid id, an over-long username or email is reported as too long |
| Preparer.WideIdWraps | db.c:244-247 | an id too wide for an int is prepared as its value modulo 2^32, and is rejected exactly when that int is negative |
| Preparer.NegativeIdExample | db.c:244-247 | "insert -1 bob@x bob" is rejected for its negative id |
| Repl.DoMetaCommand | db.c:216-224 | a meta line exits exactly when its C string is ".exit" |
| Repl.Execute | db.c:309-317 | an insert into a full table reports table full with the rows unchanged; an insert otherwise appends its row; a select returns all rows and changes none |
| Repl.ExecuteStatement | db.c:309-317 | executing on the table has exactly the effect, result and output of Repl.Execute on its rows, and keeps the table invariant |
| Repl.Interpret | db.c:331-367 | a line is a meta command exactly when it starts with '.', and then never reaches the preparer; only ".exit" terminates; rejected and meta lines leave the rows alone; the rows only ever grow by one appended row and never beyond 1300 |
| Repl.ProcessLine | db.c:319-367 | one pass of the loop changes the table exactly as Repl.Interpret says and keeps the table invariant |
| Repl.Session | db.c:319-369 | a session only appends rows, never beyond 1300, produces at most one outcome per line and no outcome after a Terminate |
| Repl.SessionOutcomes | db.c:323-368 | a session gives one outcome per line up to and including the first ".exit": outcome k is Terminate exactly when line k is ".exit", and the outcomes stop short of the lines only at a Terminate |
| Repl.SessionStep | db.c:326-367 | a session is its first line followed by the rest of the session from the rows it leaves, unless that line terminates |
| Repl.RunSession | db.c:319-369 | the loop in main reports the outcomes of Repl.Session from an empty table and exits successfully exactly when ".exit" was read |
| Repl.InterpretInsertLine | db.c:281-294 | an insert line appends its row and is acknowledged while the table has room; at 1300 rows it reports table full and leaves the rows as they were |
| Repl.InsertLineStep | db.c:341-367 | an insert line with room appends its row and the session goes on from the grown table |
| Repl.InsertsAppend | db.c:281-294 | a run of insert lines with room appends their rows in order and acknowledges each one |
| Repl.InterpretSelect | db.c:296-307 | a select prints every stored row in insertion order and changes nothing |
| Repl.SelectOnce | db.c:296-307 | a session that only selects prints the rows once |
| Repl.SelectTwice | db.c:296-307 | two selects in a row print the same rows |
| Repl.InsertsThenSelect | db.c:281-307 | after n inserts into an empty table, select prints n rows that read back as the inserted records, in insertion order |
| Repl.ExitEndsSession | db.c:216-224 | ".exit" ends the session: no later line is read and the rows are those before it |
| Repl.FilledRows | db.c:258-260 | the rows filled for a list of records read back as those records, one for one |

## Left out

- Reading input (`read_input`, `getline`, the prompt) is left out. A session's
  lines are a parameter. When the lines run out, the model returns an
  unsuccessful exit status. This stands for `read_input`'s error path.
- Output formatting (`print_row` and the `printf` messages) is left out. Each
  line's outcome carries the result and the rows a select prints.
- `exit`, `malloc` and `free` are left out. `.exit` is a `Terminate` outcome, and
  `RunSession` then runs the teardown loop and stops. A page allocation is a
  fresh array, and `malloc` failure is not modelled. Releasing a page is
  reporting it in `FreeTable`'s result.
- `strtok`'s writing of NUL bytes into the input buffer is left out. Tokenising
  is a pure split of the line, and the line itself is not changed.
- The session uses one `scratch` value for the uninitialised bytes of every
  statement. In C each pass of the loop may find different stale bytes there.
  Nothing observable depends on them.
- Repl.RunSession: returns the outcomes of the lines but not the final table. The
  table is local to `main` in the source too.
- PagedStore.Table.FreeTable: models the teardown loop bounded by the number of
  page slots, not the loop as written. The loop as written is
  `PagedStore.FreeProbesAsWritten` (see Findings).
- The `uint32_t` row count cannot wrap, because the count stops at 1300, and
  the model does not represent it.

## Findings

| source | as written | input that shows it | evidently intended | confidence | as-written member | corrected member |
|---|---|---|---|---|---|---|
| db.c:155 | `for (int i = 0; table->pages[i]; i++)` stops only at an empty page slot | 1288 inserts, then `.exit`: all 100 slots are allocated and the loop reads `pages[100]`, past the end of the array | stop after the last slot as well: `i < TABLE_MAX_PAGES && table->pages[i]` | not executed | PagedStore.FreeTableReadsPastEnd | PagedStore.Table.FreeTable |
