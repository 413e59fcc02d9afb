# SQLiteCommon in Dafny

This project models the `SQLite` class of PDAL's SQLite driver
(`include/pdal/drivers/sqlite/SQLiteCommon.hpp`), along with the value types it
works on:

- `column` and its subclass `blob`;
- `row` and `records`;
- the exception hierarchy (`sqlite_driver_error`, `connection_failed`,
  `buffer_too_small`).

The class owns a session and a prepared statement. It runs statements and
materialises a query's result set into `m_data` and `m_columns`. Its cursor
(`m_position`) walks that result set. It also bulk-inserts records by binding
every cell and stepping once per row.

The sqlite3 C library is not modelled. In its place, `Native.Engine` is a
scripted oracle:

- Every entry point the class calls (`open_v2`, `enable_load_extension`, `exec`,
  `reset`, `prepare_v2`, `step`, the binds, `finalize`, `close_v2`, and the
  column accessors) answers from a script fixed in advance.
- It counts how many answers it has given.
- It appends the call to a ghost trace.

The class's contracts are therefore stated against the scripts. Examples:

- `query` leaves `Table(steps)` in `data`.
- `insert` makes exactly the calls `InsertTrace(rs, w, stop)` and stops where
  the answers say (`Reached`).

Each source operation that throws returns a `Fail`/`Failure` value here, and
that value carries the exception's class and message.

Modules:

- `Wrappers`: `Option`, `Result`, `Outcome`.
- `Decimal`: how `std::ostream` renders an integer, with a parser as its partner.
- `Cells`: the `column` constructors, `blob`, the `static_cast<int>` of a length,
  and the bind dispatch of `insert`.
- `Messages`: the exception types and every message text, with parsers that read
  back what each text embeds.
- `Native`: the scripted sqlite3 oracle.
- `ResultSet`: the specification of what `query` copies out of a step script.
- `Cursor`: the `size_t` arithmetic of `next()`.
- `BulkInsert`: the specification of the calls `insert` makes and where it stops.
- `SQLiteCommon`: the class itself (`SQLiteCommon.SQLite`), written imperatively.
  Its `while` loops carry their invariants.

Where the code and its documentation differ, the model follows the code:

- A failed `sqlite3_open_v2` goes through `check_error`, which throws a plain
  `sqlite_driver_error`, not `connection_failed`. `connection_failed` is thrown
  only for an empty connection string.
- `next()` answers false only when the incremented position equals
  `m_data.size() - 1` in `size_t` arithmetic. With 0 or 1 rows it never answers
  false where the rows end (`Cursor.FewRowsNeverStop`).
- The destructor finalizes and closes only the handles that are set.
- A `blob` is built on `column()`, so its `null` flag stays true. `insert` tests
  `null` first, so a `blob` cell is bound with `sqlite3_bind_null`, and the blob
  branch is reached only by a hand-built cell (`Cells.BlobBindsNull`).
- A step inside `query` that is neither SQLITE_ROW nor SQLITE_DONE is not
  reported. The loop just steps again (`ResultSet.FaultsAddNothing`).

## Model

| member | source | states |
|---|---|---|
| Cells.ToInt32 | include/pdal/drivers/sqlite/SQLiteCommon.hpp:313 | `static_cast<int>` of a `size_t` length keeps it modulo 2^32 in the signed range, unchanged below 2^31 |
| Cells.NullColumn | include/pdal/drivers/sqlite/SQLiteCommon.hpp:79 | `column()` is NULL, empty, with no blob pointer and length 0 |
| Cells.TextColumn | include/pdal/drivers/sqlite/SQLiteCommon.hpp:84-87 | `column(std::string)` is non-NULL and holds exactly the string |
| Cells.IntColumn | include/pdal/drivers/sqlite/SQLiteCommon.hpp:80-83 | `column(T)` for a non-character integer is non-NULL and its text parses back to the same integer |
| Cells.CString | include/pdal/drivers/sqlite/SQLiteCommon.hpp:246 | copying a C string into `std::string` keeps exactly the characters before the first NUL, all of them when there is none |
| Cells.Blob | include/pdal/drivers/sqlite/SQLiteCommon.hpp:95-104 | `blob(buffer, size)` carries the buffer and size but stays NULL with empty text |
| Cells.BindingOf | include/pdal/drivers/sqlite/SQLiteCommon.hpp:305-322 | a cell binds as NULL iff it is NULL, as a blob iff non-NULL with a pointer, otherwise as its text; the blob length and the text length both go through the int cast |
| Decimal.ParseRender | include/pdal/drivers/sqlite/SQLiteCommon.hpp:82 | rendering an integer in decimal and parsing it back gives the integer |
| Messages.EngineFailure | include/pdal/drivers/sqlite/SQLiteCommon.hpp:207-212 | a prepare or step failure text is its fixed prefix followed by exactly the engine's message, which reads back from it |
| Messages.CheckError | include/pdal/drivers/sqlite/SQLiteCommon.hpp:364-370 | the `check_error` text is the context and separator followed by exactly the engine's message |
| Messages.ExecFailure | include/pdal/drivers/sqlite/SQLiteCommon.hpp:171-176 | the `execute` failure text frames exactly the statement in quotes after the context |
| Messages.BindFailure | include/pdal/drivers/sqlite/SQLiteCommon.hpp:326-329 | row number and position can be read back from a bind failure message |
| Messages.LogLine | include/pdal/drivers/sqlite/SQLiteCommon.hpp:135-136 | code and message text can be read back from a debug log line, whatever the text holds |
| Native.Engine.Step | include/pdal/drivers/sqlite/SQLiteCommon.hpp:218 | `sqlite3_step` answers the next scripted step (SQLITE_DONE when exhausted) and the statement is positioned on it |
| ResultSet.CellOf | include/pdal/drivers/sqlite/SQLiteCommon.hpp:237-246 | a null text pointer gives a NULL cell with empty text, any other text a non-NULL cell holding its longest NUL-free prefix |
| ResultSet.CStrings | include/pdal/drivers/sqlite/SQLiteCommon.hpp:231-235 | the copied column names are the engine's names each cut at its first NUL |
| ResultSet.RowOf | include/pdal/drivers/sqlite/SQLiteCommon.hpp:228-248 | the copied row has `numCols` cells, cell `v` being the cell of column `v`'s text |
| ResultSet.Rows | include/pdal/drivers/sqlite/SQLiteCommon.hpp:216-251 | one row per SQLITE_ROW step, each as wide as asked |
| ResultSet.FirstRowIndex | include/pdal/drivers/sqlite/SQLiteCommon.hpp:223-226 | the first SQLITE_ROW step, where the column count is read |
| ResultSet.DoneIndex | include/pdal/drivers/sqlite/SQLiteCommon.hpp:216 | the first SQLITE_DONE step, which ends the loop |
| ResultSet.Table | include/pdal/drivers/sqlite/SQLiteCommon.hpp:216-251 | `m_data` after a query: one row per SQLITE_ROW step before the first SQLITE_DONE, all as wide as the first row |
| ResultSet.Header | include/pdal/drivers/sqlite/SQLiteCommon.hpp:231-235 | `m_columns` after a query: names without NUL, and none unless a row was read |
| ResultSet.RowCounted | include/pdal/drivers/sqlite/SQLiteCommon.hpp:220-250 | a sequence of steps containing a SQLITE_ROW step counts at least one row |
| ResultSet.CopiedAll | include/pdal/drivers/sqlite/SQLiteCommon.hpp:216-251 | once every step before SQLITE_DONE is read, the loop state is the table and header of the script |
| ResultSet.FirstRowExtend | include/pdal/drivers/sqlite/SQLiteCommon.hpp:223-235 | the column count and names are fixed by the first SQLITE_ROW step and kept afterwards |
| ResultSet.RowsAppend | include/pdal/drivers/sqlite/SQLiteCommon.hpp:220-250 | a SQLITE_ROW step appends exactly one row; any other step appends none |
| ResultSet.RowsWithoutRowSteps | include/pdal/drivers/sqlite/SQLiteCommon.hpp:220-250 | steps without rows contribute no rows |
| ResultSet.RowsInStepOrder | include/pdal/drivers/sqlite/SQLiteCommon.hpp:249 | the k-th row of `m_data` is the k-th SQLITE_ROW step, in step order |
| ResultSet.TableShape | include/pdal/drivers/sqlite/SQLiteCommon.hpp:228-249 | every row is as wide as the header, one row per row step, and no rows means no column names |
| ResultSet.StopsAtFirstDone | include/pdal/drivers/sqlite/SQLiteCommon.hpp:216 | steps after the first SQLITE_DONE are never read |
| ResultSet.FirstRowIndexSkip | include/pdal/drivers/sqlite/SQLiteCommon.hpp:223-226 | a step that is not SQLITE_ROW does not move which step is the first row, beyond shifting its index |
| ResultSet.FirstRowSkip | include/pdal/drivers/sqlite/SQLiteCommon.hpp:223-235 | a step that is not SQLITE_ROW leaves the column count and the names unchanged |
| ResultSet.FaultsAddNothing | include/pdal/drivers/sqlite/SQLiteCommon.hpp:216-251 | a failed step inside the loop is not raised and changes neither rows nor names |
| Cursor.Inc | include/pdal/drivers/sqlite/SQLiteCommon.hpp:256 | `m_position++` is +1 modulo 2^64 |
| Cursor.LastIndex | include/pdal/drivers/sqlite/SQLiteCommon.hpp:258 | `m_data.size() - 1` is the last index, or 2^64-1 for no rows |
| Cursor.NextResult | include/pdal/drivers/sqlite/SQLiteCommon.hpp:256-260 | `next()` answers false exactly when position + 1 and size - 1 agree modulo 2^64 |
| Cursor.WalkFromFirstRow | include/pdal/drivers/sqlite/SQLiteCommon.hpp:254-261 | from row 0 of N >= 2 rows, `next()` returns true N-2 times, then false on reaching the last row |
| Cursor.WalkToLastRow | include/pdal/drivers/sqlite/SQLiteCommon.hpp:254-261 | from any row before the last, `next()` answers true until it lands on the last row |
| Cursor.WalkMissesLastIndex | include/pdal/drivers/sqlite/SQLiteCommon.hpp:254-261 | while no incremented position equals `size() - 1`, every call answers true |
| Cursor.FewRowsNeverStop | include/pdal/drivers/sqlite/SQLiteCommon.hpp:254-261 | with 0 or 1 rows `next()` keeps answering true past the end of the rows |
| BulkInsert.BindCalls | include/pdal/drivers/sqlite/SQLiteCommon.hpp:301-331 | the binds of a row: one per position |
| BulkInsert.BindCallsAt | include/pdal/drivers/sqlite/SQLiteCommon.hpp:301-322 | bind number `pos` binds cell `pos` at parameter index `pos + 1` with its dispatched binding |
| BulkInsert.InsertCallsLayout | include/pdal/drivers/sqlite/SQLiteCommon.hpp:298-350 | row r owns block r of the trace: its w binds then one step; rows in order |
| BulkInsert.OffsetIsProduct | include/pdal/drivers/sqlite/SQLiteCommon.hpp:298-331 | r rows of w positions use r*w bind answers |
| BulkInsert.InsertNeverResets | include/pdal/drivers/sqlite/SQLiteCommon.hpp:298-350 | no reset among the calls after the prepare: every row after the first binds to a statement already stepped |
| BulkInsert.ReachedUnique | include/pdal/drivers/sqlite/SQLiteCommon.hpp:324-349 | the answers decide where `insert` stops: at most one stopping point is reached |
| BulkInsert.ReachedApart | include/pdal/drivers/sqlite/SQLiteCommon.hpp:324-349 | reaching a stopping point rules out every later one |
| BulkInsert.ReachedDecides | include/pdal/drivers/sqlite/SQLiteCommon.hpp:298-352 | a prepared insert finishes iff every bind and step answer it reads is a success |
| BulkInsert.RowEnds | include/pdal/drivers/sqlite/SQLiteCommon.hpp:301-349 | the answers of row r decide: stop at the failed bind, stop at a failed step, or go on to the next row |
| BulkInsert.RowTrace | include/pdal/drivers/sqlite/SQLiteCommon.hpp:301-333 | the trace after row r's binds (and step) is the insert trace up to that point |
| SQLiteCommon.OpenFlags | include/pdal/drivers/sqlite/SQLiteCommon.hpp:154-155 | NOMUTEX always; READWRITE and CREATE exactly when writing; no other flag |
| SQLiteCommon.ExecResult | include/pdal/drivers/sqlite/SQLiteCommon.hpp:165-180 | passes iff a session exists and the engine answers OK; otherwise "Session not opened!" or the statement quoted after the context |
| SQLiteCommon.BootstrapResult | include/pdal/drivers/sqlite/SQLiteCommon.hpp:372-393 | passes iff enabling extensions and both statements succeed; each failure names its step |
| SQLiteCommon.BootstrapCalls | include/pdal/drivers/sqlite/SQLiteCommon.hpp:372-393 | enable extensions first, then the load and init statements, stopping at the first failure; each of the three outcomes gives its exact call list |
| SQLiteCommon.InsertResult | include/pdal/drivers/sqlite/SQLiteCommon.hpp:288-352 | `insert` returns true iff it finished; every other stop is a `sqlite_driver_error` whose row and position, or engine text, read back from it |
| SQLiteCommon.SQLite.constructor | include/pdal/drivers/sqlite/SQLiteCommon.hpp:112-120 | no session, no statement, cursor 0, empty result set |
| SQLiteCommon.SQLite.Destroy | include/pdal/drivers/sqlite/SQLiteCommon.hpp:122-132 | finalize only if a statement exists, then close only if a session exists |
| SQLiteCommon.SQLite.Log | include/pdal/drivers/sqlite/SQLiteCommon.hpp:133-144 | appends exactly one debug line for the event |
| SQLiteCommon.SQLite.Connect | include/pdal/drivers/sqlite/SQLiteCommon.hpp:147-163 | empty connection string: `connection_failed` and no call; failed open: the `check_error` text; otherwise the spatialite bootstrap's result and calls |
| SQLiteCommon.SQLite.Execute | include/pdal/drivers/sqlite/SQLiteCommon.hpp:165-180 | result is `ExecResult` of the session and the engine's answer; one exec call only when a session exists |
| SQLiteCommon.SQLite.Begin | include/pdal/drivers/sqlite/SQLiteCommon.hpp:182-185 | `execute("BEGIN", "Unable to begin transaction")` |
| SQLiteCommon.SQLite.Commit | include/pdal/drivers/sqlite/SQLiteCommon.hpp:187-190 | `execute("COMMIT", "Unable to commit transaction")` |
| SQLiteCommon.SQLite.Spatialite | include/pdal/drivers/sqlite/SQLiteCommon.hpp:372-393 | result and calls are `BootstrapResult`/`BootstrapCalls` of the engine's answers |
| SQLiteCommon.SQLite.Query | include/pdal/drivers/sqlite/SQLiteCommon.hpp:192-252 | clears the result set and prepares the statement with its `int`-cast length; a failed prepare gives the prepare error and no rows; otherwise data and columns are `Table`/`Header` of the pending steps, read through the first SQLITE_DONE |
| SQLiteCommon.SQLite.ReadSteps | include/pdal/drivers/sqlite/SQLiteCommon.hpp:214-251 | the step loop reads exactly up to the first SQLITE_DONE and leaves `Table`/`Header` |
| SQLiteCommon.SQLite.QueryStep | include/pdal/drivers/sqlite/SQLiteCommon.hpp:218-250 | one step keeps the loop state equal to the table and header of the steps read |
| SQLiteCommon.SQLite.ReadRow | include/pdal/drivers/sqlite/SQLiteCommon.hpp:228-248 | copies `numCols` cells, texts cut at their first NUL; the names, likewise cut, only on the first row |
| SQLiteCommon.SQLite.Next | include/pdal/drivers/sqlite/SQLiteCommon.hpp:254-261 | position becomes `Inc(position)`; answer is false iff it equals `size() - 1` modulo 2^64 |
| SQLiteCommon.SQLite.Get | include/pdal/drivers/sqlite/SQLiteCommon.hpp:263-266 | the row under the cursor |
| SQLiteCommon.SQLite.Columns | include/pdal/drivers/sqlite/SQLiteCommon.hpp:268-271 | the column names of the last query |
| SQLiteCommon.SQLite.Insert | include/pdal/drivers/sqlite/SQLiteCommon.hpp:278-353 | succeeds iff prepare, every bind and every step succeed; calls are reset, prepare, then `InsertTrace` up to the stop the answers decide |
| SQLiteCommon.SQLite.InsertRows | include/pdal/drivers/sqlite/SQLiteCommon.hpp:298-352 | the row loop stops where the answers say, with the matching trace and answers used |
| SQLiteCommon.SQLite.InsertRow | include/pdal/drivers/sqlite/SQLiteCommon.hpp:300-349 | one row: stop at the failed bind, at a failed step, or continue with all answers so far successes |
| SQLiteCommon.SQLite.BindRow | include/pdal/drivers/sqlite/SQLiteCommon.hpp:301-331 | binds positions in order at 1-based indices and stops at the first non-OK answer |

## Left out

- `sqlite3_config(SQLITE_CONFIG_LOG, ...)` in the constructor and the static
  `log_callback` trampoline. These are process-wide engine configuration: `Log`
  models what the callback writes, not its registration.
- `last_row_id`: its value comes from the engine's row store, which the oracle
  does not model.
- SQL semantics, files, locking and threading (NOMUTEX) belong to sqlite3. Here
  they are replaced by scripted answers.
- The oracle's column count and column texts come from the current scripted
  row. Reading a column past the row gives a null text.
- `message`, `openCode` and `extensionCode` are fixed for the whole life of
  the oracle. The real `sqlite3_errmsg` reports the most recent failure, so
  one text serves every error message here.
- Native.Engine.Bind: answers from its script. It does not enforce sqlite3's
  rule that a bind to a statement stepped since its last reset answers
  SQLITE_MISUSE. `insert` never resets between rows
  (`BulkInsert.InsertNeverResets`), so under that rule a real engine would
  fail the first bind of the second row. The model shows that outcome only
  when the script answers that bind with an error.
- An exhausted script answers SQLITE_OK, or SQLITE_DONE for a step.
- `column(T)` for non-integral `T` (`lexical_cast` of floating point or other
  types) is not modelled. Only the integral and `std::string` constructors are.
- Cells.IntColumn: does not cover the character types (`char`,
  `signed char`, `unsigned char`, hence `int8_t` and `uint8_t`). `lexical_cast`
  renders these as one character rather than in decimal, so their text does
  not parse back as a number.
- Cells.BindingOf: text lengths are counted in characters. `std::string`
  counts bytes, and the UTF-8 encoding of the text is not modelled. The same
  holds for the statement lengths passed to `sqlite3_prepare_v2` by `query`
  and `insert`.
- SQLiteCommon.SQLite.Connect: records the session as present after every call
  to `sqlite3_open_v2`. This matches sqlite3, which writes a handle except when
  it is out of memory. The out-of-memory case is not modelled.
- SQLiteCommon.SQLite.Query: terminates only because an exhausted step
  script answers SQLITE_DONE. The source's `while (res != SQLITE_DONE)` never
  ends if the engine never answers SQLITE_DONE: a persistent SQLITE_BUSY, or
  empty or comment-only SQL, for which `sqlite3_prepare_v2` answers OK with no
  statement and every step answers SQLITE_MISUSE. A successful prepare
  always counts here as leaving a statement, so the model's `Destroy` would
  finalize where the source, holding a null statement, does not.
- SQLiteCommon.SQLite.Query: the statement handle that `query` and `insert`
  overwrite without finalizing is not tracked as a leak. Only "a statement
  exists" is modelled.
- SQLiteCommon.SQLite.Insert: `SQLITE_STATIC` binding means sqlite3 reads the
  cell's buffers later without copying them. Buffer lifetime and aliasing are
  not modelled: the binding records the cell's value.
- SQLiteCommon.SQLite.Insert: requires every row to have at least as many cells
  as row 0. The source indexes `rs[r][pos]` without checking, which is undefined
  behaviour for a shorter row. It also requires fewer than 2^31 positions, since
  the source's loop counter is an `int`.
- SQLiteCommon.SQLite.Get: requires the cursor to be in range. The source
  indexes `m_data` without checking.
- `buffer_too_small` is declared as an `Error` case. No operation of the class
  throws it.
