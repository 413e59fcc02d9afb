/** The connection and result-set class `SQLite` of SQLiteCommon.hpp. Its methods
    drive the native engine (`Native.Engine`) and keep the materialised result set
    in `data`, `columns` and `position`; every `throw` of the source is a `Fail` or
    `Failure` result here. */
module SQLiteCommon {
  import opened Wrappers
  import opened Cells
  import opened Native
  import opened Messages
  import opened ResultSet
  import opened Cursor
  import opened BulkInsert

  /** The flags `connect` hands to `sqlite3_open_v2`: always NOMUTEX, and
      READWRITE|CREATE exactly when writing. */
  function OpenFlags(write: bool): (flags: bv32)
    ensures flags & OPEN_NOMUTEX != 0
    ensures (flags & OPEN_READWRITE != 0) == write
    ensures (flags & OPEN_CREATE != 0) == write
    ensures flags & !(OPEN_NOMUTEX | OPEN_READWRITE | OPEN_CREATE) == 0
  {
    if write then OPEN_NOMUTEX | OPEN_READWRITE | OPEN_CREATE else OPEN_NOMUTEX
  }

  /** What `execute(sql, context)` reports when the session is (or is not) open
      and the engine answers `code`. */
  function ExecResult(session: bool, code: int, sql: string, context: string): (r: Outcome<Error>)
    ensures r.Pass? <==> session && code == OK
    ensures !session ==> r == Fail(DriverError(NO_SESSION))
    ensures session && code != OK ==>
              r.error.DriverError? && Between(r.error.msg, context + " '", "'") == Some(sql)
  {
    if !session then Fail(DriverError(NO_SESSION))
    else if code != OK then Fail(DriverError(ExecFailure(context, sql)))
    else Pass
  }

  /** What `spatialite()` reports, given the answer to enabling extensions and
      the answers to its two `sqlite3_exec` calls. */
  function BootstrapResult(extension: int, load: int, init: int): (r: Outcome<Error>)
    ensures r.Pass? <==> extension == OK && load == OK && init == OK
    ensures extension != OK ==> r == Fail(DriverError(EXTENSION_FAILURE))
    ensures extension == OK && load != OK ==>
              r.error.DriverError? && Between(r.error.msg, " '", "'") == Some(LOAD_SPATIALITE)
    ensures extension == OK && load == OK && init != OK ==>
              r.error.DriverError? && Between(r.error.msg, " '", "'") == Some(INIT_METADATA)
  {
    if extension != OK then Fail(DriverError(EXTENSION_FAILURE))
    else if load != OK then ExecResult(true, load, LOAD_SPATIALITE, "")
    else ExecResult(true, init, INIT_METADATA, "")
  }

  /** The engine calls `spatialite()` makes: enable extensions, then the two
      statements, stopping at the first failure. */
  function BootstrapCalls(extension: int, load: int): (calls: seq<Call>)
    ensures |calls| > 0 && calls[0] == CallEnableLoadExtension
    ensures extension == OK && load == OK ==>
              calls == [CallEnableLoadExtension, CallExec(LOAD_SPATIALITE), CallExec(INIT_METADATA)]
    ensures extension == OK && load != OK ==>
              calls == [CallEnableLoadExtension, CallExec(LOAD_SPATIALITE)]
    ensures extension != OK ==> calls == [CallEnableLoadExtension]
  {
    [CallEnableLoadExtension]
      + (if extension != OK then []
         else [CallExec(LOAD_SPATIALITE)] + (if load != OK then [] else [CallExec(INIT_METADATA)]))
  }

  /** How many `sqlite3_exec` answers `spatialite()` uses. */
  function BootstrapExecs(extension: int, load: int): nat {
    if extension != OK then 0 else if load != OK then 1 else 2
  }

  /** What `insert` returns or throws when it stops at `stop`; `message` is what
      `sqlite3_errmsg` reports. Every failure can be told apart and read back:
      the row and the position of a failed bind, the engine's text after a
      failed prepare or step. */
  function InsertResult(stop: Stop, message: string): (r: Result<bool, Error>)
    ensures r.Success? <==> stop == Finished
    ensures r.Success? ==> r.value
    ensures r.Failure? ==> r.error.DriverError?
    ensures stop.AtBind? ==> ParseBindFailure(r.error.msg) == Some((stop.row as int, stop.pos as int))
    ensures stop.AtPrepare? ==> StripPrefix(r.error.msg, INSERT_PREPARE) == Some(message)
    ensures stop.AtStep? ==> StripPrefix(r.error.msg, INSERT_FAILURE) == Some(message)
  {
    match stop
    case AtPrepare => Failure(DriverError(EngineFailure(INSERT_PREPARE, message)))
    case AtBind(r, p) => Failure(DriverError(BindFailure(r, p)))
    case AtStep(_) => Failure(DriverError(EngineFailure(INSERT_FAILURE, message)))
    case Finished => Success(true)
  }

  class SQLite {
    const engine: Engine
    const connection: string
    /** `m_session != 0`. */
    var session: bool
    /** `m_statement != 0`. */
    var statement: bool
    var data: Records
    var position: Size
    var columns: seq<string>
    /** The lines written to the debug log, oldest first. */
    var debugLog: seq<string>

    ghost predicate Valid()
      reads this
    {
      |data| < SIZE_BOUND && engine.Valid()
    }

    constructor (connection: string, engine: Engine)
      requires engine.Valid()
      ensures Valid() && this.connection == connection && this.engine == engine
      ensures !session && !statement && position == 0
      ensures data == [] && columns == [] && debugLog == []
    {
      this.engine := engine;
      this.connection := connection;
      session, statement, position := false, false, 0;
      data, columns, debugLog := [], [], [];
    }

    /** `~SQLite`: finalize the statement if there is one, then close the session
        if there is one. */
    method Destroy()
      modifies this`session, this`statement, engine`calls
      ensures !session && !statement
      ensures engine.calls == old(engine.calls)
                + (if old(statement) then [CallFinalize] else [])
                + (if old(session) then [CallClose] else [])
    {
      if statement {
        engine.Finalize();
        statement := false;
      }
      if session {
        engine.Close();
        session := false;
      }
    }

    /** `log`: one debug line per engine log event. */
    method Log(num: int, msg: string)
      modifies this`debugLog
      ensures debugLog == old(debugLog) + [LogLine(num, msg)]
    {
      debugLog := debugLog + [LogLine(num, msg)];
    }

    /** `connect(bWrite)`. */
    method Connect(write: bool) returns (res: Outcome<Error>)
      modifies this`session, engine`execs, engine`calls
      ensures connection == [] ==>
                && res == Fail(ConnectionFailed(NO_CONNECTION_STRING))
                && session == old(session)
                && engine.calls == old(engine.calls) && engine.execs == old(engine.execs)
      ensures connection != [] ==> session
      ensures connection != [] && engine.openCode != OK ==>
                && res == Fail(DriverError(CheckError(CONNECT_CONTEXT, engine.message)))
                && engine.calls == old(engine.calls) + [CallOpen(connection, OpenFlags(write))]
                && engine.execs == old(engine.execs)
      ensures connection != [] && engine.openCode == OK ==>
                var load := CodeAt(engine.execCodes, old(engine.execs));
                var init := CodeAt(engine.execCodes, old(engine.execs) + 1);
                && res == BootstrapResult(engine.extensionCode, load, init)
                && engine.calls == old(engine.calls) + [CallOpen(connection, OpenFlags(write))]
                                     + BootstrapCalls(engine.extensionCode, load)
                && engine.execs == old(engine.execs) + BootstrapExecs(engine.extensionCode, load)
    {
      if |connection| == 0 {
        return Fail(ConnectionFailed(NO_CONNECTION_STRING));
      }
      var flags := OpenFlags(write);
      var code := engine.Open(connection, flags);
      session := true;
      if code != OK {
        return Fail(DriverError(CheckError(CONNECT_CONTEXT, engine.message)));
      }
      res := Spatialite();
    }

    /** `execute(sql, errmsg)`: refuses without a session, otherwise runs the
        statement and reports a failure with the statement quoted. */
    method Execute(sql: string, context: string) returns (res: Outcome<Error>)
      modifies engine`execs, engine`calls
      ensures res == ExecResult(session, CodeAt(engine.execCodes, old(engine.execs)), sql, context)
      ensures engine.calls == old(engine.calls) + (if session then [CallExec(sql)] else [])
      ensures engine.execs == old(engine.execs) + (if session then 1 else 0)
    {
      if !session {
        return Fail(DriverError(NO_SESSION));
      }
      var code := engine.Exec(sql);
      if code != OK {
        return Fail(DriverError(ExecFailure(context, sql)));
      }
      return Pass;
    }

    /** `begin()`: exactly `execute("BEGIN", "Unable to begin transaction")`. */
    method Begin() returns (res: Outcome<Error>)
      modifies engine`execs, engine`calls
      ensures res == ExecResult(session, CodeAt(engine.execCodes, old(engine.execs)), "BEGIN", BEGIN_CONTEXT)
      ensures engine.calls == old(engine.calls) + (if session then [CallExec("BEGIN")] else [])
      ensures engine.execs == old(engine.execs) + (if session then 1 else 0)
    {
      res := Execute("BEGIN", BEGIN_CONTEXT);
    }

    /** `commit()`: exactly `execute("COMMIT", "Unable to commit transaction")`. */
    method Commit() returns (res: Outcome<Error>)
      modifies engine`execs, engine`calls
      ensures res == ExecResult(session, CodeAt(engine.execCodes, old(engine.execs)), "COMMIT", COMMIT_CONTEXT)
      ensures engine.calls == old(engine.calls) + (if session then [CallExec("COMMIT")] else [])
      ensures engine.execs == old(engine.execs) + (if session then 1 else 0)
    {
      res := Execute("COMMIT", COMMIT_CONTEXT);
    }

    /** `spatialite()`: enable extension loading, then load the library and
        initialise the spatial metadata, with the default empty context. */
    method Spatialite() returns (res: Outcome<Error>)
      requires session
      modifies engine`execs, engine`calls
      ensures var load := CodeAt(engine.execCodes, old(engine.execs));
              var init := CodeAt(engine.execCodes, old(engine.execs) + 1);
              && res == BootstrapResult(engine.extensionCode, load, init)
              && engine.calls == old(engine.calls) + BootstrapCalls(engine.extensionCode, load)
              && engine.execs == old(engine.execs) + BootstrapExecs(engine.extensionCode, load)
    {
      var code := engine.EnableLoadExtension();
      if code != OK {
        return Fail(DriverError(EXTENSION_FAILURE));
      }
      res := Execute(LOAD_SPATIALITE, "");
      if res.Fail? {
        return;
      }
      res := Execute(INIT_METADATA, "");
    }

    /** `query(sql)`: clear the result set, reset the old statement, prepare,
        then step until SQLITE_DONE, copying every row; a failed step is passed
        over. */
    method Query(sql: string) returns (res: Outcome<Error>)
      requires Valid()
      modifies this`position, this`columns, this`data, this`statement
      modifies engine`prepares, engine`stepped, engine`current, engine`calls
      ensures Valid()
      ensures position == 0
      ensures engine.prepares == old(engine.prepares) + 1
      ensures statement == (CodeAt(engine.prepareCodes, old(engine.prepares)) == OK)
      ensures res.Pass? <==> statement
      ensures res.Fail? ==>
                && res.error == DriverError(EngineFailure(QUERY_PREPARE, engine.message))
                && data == [] && columns == []
                && engine.stepped == old(engine.stepped)
                && engine.calls == old(engine.calls) + [CallReset, CallPrepare(sql, ToInt32(|sql|))]
      ensures res.Pass? ==>
                && data == Table(old(engine.PendingSteps()))
                && columns == Header(old(engine.PendingSteps()))
                && engine.stepped == old(engine.stepped) + DoneIndex(old(engine.PendingSteps())) + 1
                && engine.calls == old(engine.calls) + [CallReset, CallPrepare(sql, ToInt32(|sql|))]
                                     + Repeat(CallStep, DoneIndex(old(engine.PendingSteps())) + 1)
    {
      position := 0;
      columns := [];
      data := [];
      engine.Reset();
      var prepared := engine.Prepare(sql, ToInt32(|sql|));
      statement := prepared == OK;
      if prepared != OK {
        return Fail(DriverError(EngineFailure(QUERY_PREPARE, engine.message)));
      }
      ReadSteps();
      res := Pass;
    }

    /** The step loop of `query`, on a freshly prepared statement and an empty
        result set: step until SQLITE_DONE, copying every row. */
    method ReadSteps()
      requires Valid() && data == [] && columns == []
      modifies this`columns, this`data, engine`stepped, engine`current, engine`calls
      ensures Valid()
      ensures data == Table(old(engine.PendingSteps()))
      ensures columns == Header(old(engine.PendingSteps()))
      ensures engine.stepped == old(engine.stepped) + DoneIndex(old(engine.PendingSteps())) + 1
      ensures engine.calls == old(engine.calls) + Repeat(CallStep, DoneIndex(old(engine.PendingSteps())) + 1)
    {
      ghost var S, s0, base := engine.PendingSteps(), engine.stepped, engine.calls;
      ghost var d := DoneIndex(S);
      ghost var i: nat, seen := 0, [];
      var numCols: int := -1;
      var done := false;
      while !done
        invariant Valid()
        invariant i <= d && (done ==> i == d)
        invariant engine.stepped == s0 + (if done then d + 1 else i)
        invariant engine.calls == base + Repeat(CallStep, if done then d + 1 else i)
        invariant seen == S[..i] && Copied(seen, numCols, data, columns)
        decreases d - i + (if done then 0 else 1)
      {
        done, numCols := QueryStep(numCols, seen);
        StepAtDrop(engine.steps, s0, i);
        DoneAt(S, i);
        RepeatNext(base, CallStep, i);
        if !done {
          PrefixNext(S, i);
          seen := seen + [S[i]];
          i := i + 1;
        }
      }
      CopiedAll(S, numCols, data, columns);
    }

    /** One pass of the step loop of `query`: step, and copy the row when the
        answer is SQLITE_ROW, reading the column count at the first one.
        `done` says the answer was SQLITE_DONE. */
    method QueryStep(numCols: int, ghost seen: seq<Step>) returns (done: bool, cols: int)
      requires Valid() && Copied(seen, numCols, data, columns) && |seen| <= engine.stepped
      modifies this`columns, this`data, engine`stepped, engine`current, engine`calls
      ensures Valid()
      ensures engine.stepped == old(engine.stepped) + 1
      ensures engine.calls == old(engine.calls) + [CallStep]
      ensures done <==> StepAt(engine.steps, old(engine.stepped)).Done?
      ensures done ==> Copied(seen, cols, data, columns)
      ensures !done ==> Copied(seen + [StepAt(engine.steps, old(engine.stepped))], cols, data, columns)
    {
      cols := numCols;
      var step := engine.Step();
      done := step.Done?;
      if done {
        return;
      }
      FirstRowExtend(seen, step);
      RowsAppend(seen, step, Width(seen + [step]));
      if step.Row? {
        var first := cols == -1;
        if cols == -1 {
          cols := engine.ColumnCount();
          RowsWithoutRowSteps(seen, Width(seen));
          RowsWithoutRowSteps(seen, cols);
        }
        var r := ReadRow(cols, first);
        data := data + [r];
      }
    }

    /** The column loop of `query` for one SQLITE_ROW step: copy the first
        `numCols` cells of the current row, and on the first row also its
        column names. */
    method ReadRow(numCols: int, first: bool) returns (r: Row)
      requires engine.current.Row? && WellFormed(engine.current) && numCols >= 0
      requires first ==> numCols == |engine.current.cells| && columns == []
      requires !first ==> |columns| == numCols
      modifies this`columns
      ensures r == RowOf(engine.current.cells, numCols)
      ensures columns == if first then CStrings(engine.current.names) else old(columns)
    {
      r := [];
      var v := 0;
      while v < numCols
        invariant 0 <= v <= numCols
        invariant r == RowOf(engine.current.cells, v)
        invariant first ==> columns == CStrings(engine.current.names[..v])
        invariant !first ==> columns == old(columns)
      {
        if |columns| != numCols {
          assert engine.current.names[..v + 1][..v] == engine.current.names[..v];
          columns := columns + [CString(engine.ColumnName(v))];
        }
        var c := NullColumn();
        var buf := engine.ColumnText(v);
        c := c.(isNull := false);
        if buf.None? {
          c := c.(isNull := true);
        }
        c := c.(data := if buf.Some? then CString(buf.value) else "");
        r := r + [c];
        v := v + 1;
      }
      assert first ==> engine.current.names[..v] == engine.current.names;
    }

    /** `next()`: advance the cursor, answering false exactly when the new
        position equals `m_data.size() - 1` in `size_t` arithmetic. */
    method Next() returns (more: bool)
      requires Valid()
      modifies this`position
      ensures Valid()
      ensures position == Inc(old(position))
      ensures more == NextResult(old(position), |data|)
    {
      position := if position == SIZE_BOUND - 1 then 0 else position + 1;
      var last := if |data| == 0 then SIZE_BOUND - 1 else |data| - 1;
      if last == position {
        return false;
      }
      return true;
    }

    /** `get()`: the row under the cursor, which must be in range. */
    method Get() returns (row: Row)
      requires position < |data|
      ensures row == data[position]
    {
      row := data[position];
    }

    /** `columns()`: the names from the last query. */
    method Columns() returns (names: seq<string>)
      ensures names == columns
    {
      names := columns;
    }

    /** `insert(statement, rs)`: reset the old statement, prepare once, then for
        each row bind every position counted on row 0 and step once; SQLITE_DONE
        and SQLITE_ROW are both success. `stop` says where the call ended. */
    method Insert(sql: string, rs: Records) returns (res: Result<bool, Error>, ghost stop: Stop)
      requires WideEnough(rs, Positions(rs)) && Positions(rs) < INT_BOUND
      modifies this`statement, engine`prepares, engine`binds
      modifies engine`stepped, engine`current, engine`calls
      ensures engine.prepares == old(engine.prepares) + 1
      ensures statement == (CodeAt(engine.prepareCodes, old(engine.prepares)) == OK)
      ensures stop == AtPrepare <==> !statement
      ensures Reached(old(engine.PendingBinds()), old(engine.PendingSteps()), rs, Positions(rs), stop)
      ensures res == InsertResult(stop, engine.message)
      ensures res.Success? <==>
                && statement
                && BindsOk(old(engine.PendingBinds()), Offset(|rs|, Positions(rs)))
                && StepsOk(old(engine.PendingSteps()), |rs|)
      ensures engine.calls == old(engine.calls) + [CallReset, CallPrepare(sql, ToInt32(|sql|))]
                                + InsertTrace(rs, Positions(rs), stop)
      ensures engine.binds == old(engine.binds) + BindsUsed(rs, Positions(rs), stop)
      ensures engine.stepped == old(engine.stepped) + StepsUsed(rs, stop)
    {
      ghost var B, S := engine.PendingBinds(), engine.PendingSteps();
      engine.Reset();
      var prepared := engine.Prepare(sql, ToInt32(|sql|));
      statement := prepared == OK;
      if prepared != OK {
        return Failure(DriverError(EngineFailure(INSERT_PREPARE, engine.message))), AtPrepare;
      }
      var stopped := InsertRows(rs);
      stop := stopped;
      res := InsertResult(stopped, engine.message);
      ReachedDecides(B, S, rs, Positions(rs), stop);
    }

    /** The row loop of `insert`, on a prepared statement: for each row in
        order, bind its positions, then step once. The result says where the
        loop stopped; `Insert` throws accordingly. */
    method InsertRows(rs: Records) returns (stop: Stop)
      requires WideEnough(rs, Positions(rs)) && Positions(rs) < INT_BOUND
      modifies engine`binds, engine`stepped, engine`current, engine`calls
      ensures stop != AtPrepare
      ensures Reached(old(engine.PendingBinds()), old(engine.PendingSteps()), rs, Positions(rs), stop)
      ensures engine.calls == old(engine.calls) + InsertTrace(rs, Positions(rs), stop)
      ensures engine.binds == old(engine.binds) + BindsUsed(rs, Positions(rs), stop)
      ensures engine.stepped == old(engine.stepped) + StepsUsed(rs, stop)
    {
      ghost var b0, s0, base := engine.binds, engine.stepped, engine.calls;
      ghost var B, S := Drop(engine.bindCodes, b0), Drop(engine.steps, s0);
      ghost var w := Positions(rs);
      ghost var k: nat := 0;
      var rows := |rs|;
      var r := 0;
      while r < rows
        invariant 0 <= r <= rows && k == Offset(r, w)
        invariant BindsOk(B, k) && StepsOk(S, r)
        invariant engine.binds == b0 + k && engine.stepped == s0 + r
        invariant engine.calls == base + InsertCalls(rs, w, r)
      {
        var failed, fault := InsertRow(rs, r, b0, s0, k, base);
        if failed < |rs[0]| {
          return AtBind(r, failed);
        }
        if fault {
          return AtStep(r);
        }
        k := k + w;
        r := r + 1;
      }
      StopFinished(B, S, rs, w);
      return Finished;
    }

    /** One pass of the row loop of `insert`: bind the positions of row `r`,
        then step once when every bind succeeded. `failed` is the position whose
        bind failed, the row width when none did; `fault` says the step failed.
        Before `insert`'s first row, `b0` bind answers and `s0` step answers had
        been used and the trace was `before`; the rows before `r` used `k` bind
        answers. */
    method InsertRow(rs: Records, r: nat, ghost b0: nat, ghost s0: nat, ghost k: nat,
                     ghost before: seq<Call>) returns (failed: int, fault: bool)
      requires r < |rs| && WideEnough(rs, Positions(rs)) && Positions(rs) < INT_BOUND
      requires k == Offset(r, Positions(rs))
      requires BindsOk(Drop(engine.bindCodes, b0), k) && StepsOk(Drop(engine.steps, s0), r)
      requires engine.binds == b0 + k && engine.stepped == s0 + r
      requires engine.calls == before + InsertCalls(rs, Positions(rs), r)
      modifies engine`binds, engine`stepped, engine`current, engine`calls
      ensures 0 <= failed <= Positions(rs)
      ensures failed < Positions(rs) ==> !fault
      ensures failed < Positions(rs) ==>
                var w, stop := Positions(rs), AtBind(r, failed);
                && Reached(Drop(engine.bindCodes, b0), Drop(engine.steps, s0), rs, w, stop)
                && engine.binds == b0 + BindsUsed(rs, w, stop)
                && engine.stepped == s0 + StepsUsed(rs, stop)
                && engine.calls == before + InsertTrace(rs, w, stop)
      ensures fault ==>
                var w, stop := Positions(rs), AtStep(r);
                && failed == w
                && Reached(Drop(engine.bindCodes, b0), Drop(engine.steps, s0), rs, w, stop)
                && engine.binds == b0 + BindsUsed(rs, w, stop)
                && engine.stepped == s0 + StepsUsed(rs, stop)
                && engine.calls == before + InsertTrace(rs, w, stop)
      ensures failed == Positions(rs) && !fault ==>
                var w := Positions(rs);
                && Offset(r + 1, w) == k + w
                && BindsOk(Drop(engine.bindCodes, b0), k + w)
                && StepsOk(Drop(engine.steps, s0), r + 1)
                && engine.binds == b0 + k + w && engine.stepped == s0 + r + 1
                && engine.calls == before + InsertCalls(rs, w, r + 1)
    {
      ghost var bound, stepAt := engine.binds, engine.stepped;
      var totalPositions := |rs[0]|;
      failed := BindRow(rs[r], totalPositions);
      RowTrace(before, rs, totalPositions, r, failed);
      if failed < totalPositions {
        RowEnds(engine.bindCodes, engine.steps, b0, s0, rs, totalPositions, r, k, failed, false, bound, stepAt);
        return failed, false;
      }
      var step := engine.Step();
      fault := !step.Done? && !step.Row?;
      RowEnds(engine.bindCodes, engine.steps, b0, s0, rs, totalPositions, r, k, failed, fault, bound, stepAt);
    }

    /** The position loop of `insert` for one row: bind cells 0 to
        `totalPositions - 1` at parameter indices 1, 2, ..., a NULL cell as NULL,
        a cell with a blob buffer as that blob and any other as its text, and stop
        at the first bind that does not answer SQLITE_OK. The result is that
        bind's position, or `totalPositions` when every bind succeeded. */
    method BindRow(row: Row, totalPositions: int) returns (failed: int)
      requires 0 <= totalPositions <= |row| && totalPositions < INT_BOUND
      modifies engine`binds, engine`calls
      ensures 0 <= failed <= totalPositions
      ensures BindsOk(Drop(engine.bindCodes, old(engine.binds)), failed)
      ensures failed < totalPositions ==> CodeAt(Drop(engine.bindCodes, old(engine.binds)), failed) != OK
      ensures var used := if failed < totalPositions then failed + 1 else totalPositions;
              && engine.calls == old(engine.calls) + BindCalls(row, used)
              && engine.binds == old(engine.binds) + used
    {
      ghost var B, b0 := Drop(engine.bindCodes, engine.binds), engine.binds;
      var pos := 0;
      while pos <= totalPositions - 1
        invariant 0 <= pos <= totalPositions
        invariant BindsOk(B, pos) && engine.binds == b0 + pos
        invariant engine.calls == old(engine.calls) + BindCalls(row, pos)
      {
        var c := row[pos];
        var didBind;
        if c.isNull {
          didBind := engine.Bind(pos + 1, BindNull);
        } else if c.blobBuf != 0 {
          didBind := engine.Bind(pos + 1, BindBlob(c.blobBuf, ToInt32(c.blobLen)));
        } else {
          didBind := engine.Bind(pos + 1, BindText(c.data, ToInt32(|c.data|)));
        }
        CodeAtDrop(engine.bindCodes, b0, pos);
        BindCallsNext(old(engine.calls), row, pos);
        if didBind != OK {
          return pos;
        }
        BindsOkNext(B, pos);
        pos := pos + 1;
      }
      return totalPositions;
    }
  }
}
