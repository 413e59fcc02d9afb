/** The exception taxonomy of SQLiteCommon.hpp and the texts its operations build
    with `std::ostringstream`, with parsers that recover what each text embeds. */
module Messages {
  import opened Wrappers
  import opened Decimal

  /** `sqlite_driver_error` and its subclasses; each carries its message. */
  datatype Error =
    | DriverError(msg: string)
    | ConnectionFailed(msg: string)
    | BufferTooSmall(msg: string)

  const NO_CONNECTION_STRING := "unable to connect to sqlite3 database, no connection string was given!"
  const NO_SESSION := "Session not opened!"
  const CONNECT_CONTEXT := "unable to connect to database"
  const BEGIN_CONTEXT := "Unable to begin transaction"
  const COMMIT_CONTEXT := "Unable to commit transaction"
  const EXTENSION_FAILURE := "Unable to load spatialite extension!"
  const LOAD_SPATIALITE := "SELECT load_extension('libspatialite.dylib')"
  const INIT_METADATA := "SELECT InitSpatialMetadata()"
  const QUERY_PREPARE := "sqlite3_statement_backend::prepare: "
  const INSERT_PREPARE := "sqlite insert prepare: "
  const INSERT_FAILURE := "sqlite insert failure: "

  const CHECK_SEPARATOR := " sqlite error: "
  const BIND_ROW := "Failure to bind row number '"
  const BIND_POSITION := "' at position number '"
  const LOG_PREFIX := "SQLite code: "
  const LOG_MESSAGE := " msg: '"

  /** `s` without `prefix`, if it starts with it. */
  function StripPrefix(s: string, prefix: string): (r: Option<string>)
    ensures r.Some? <==> |prefix| <= |s| && s[..|prefix|] == prefix
    ensures r.Some? ==> s == prefix + r.value
  {
    if |prefix| <= |s| && s[..|prefix|] == prefix then Some(s[|prefix|..]) else None
  }

  /** The text strictly between `prefix` and `suffix`, if `s` is framed by them. */
  function Between(s: string, prefix: string, suffix: string): (r: Option<string>)
    ensures r.Some? ==> s == prefix + r.value + suffix
  {
    if |prefix| + |suffix| <= |s| && s[..|prefix|] == prefix && s[|s| - |suffix|..] == suffix
    then Some(s[|prefix|..|s| - |suffix|])
    else None
  }

  lemma BetweenFramed(prefix: string, x: string, suffix: string)
    ensures Between(prefix + x + suffix, prefix, suffix) == Some(x)
  {
    var s := prefix + x + suffix;
    assert s[..|prefix|] == prefix;
    assert s[|s| - |suffix|..] == suffix;
    assert s[|prefix|..|s| - |suffix|] == x;
  }

  /** The first index of `c` in `s`, or `|s|` when there is none. */
  function IndexOf(s: string, c: char): (k: nat)
    ensures k <= |s|
    ensures forall j :: 0 <= j < k ==> s[j] != c
    ensures k < |s| ==> s[k] == c
  {
    if s == [] then 0 else if s[0] == c then 0 else 1 + IndexOf(s[1..], c)
  }

  lemma IndexOfJoin(a: string, c: char, b: string)
    requires c !in a
    ensures IndexOf(a + [c] + b, c) == |a|
  {
    assert (a + [c] + b)[|a|] == c;
  }

  /** The failure text of a prepare or a step: a fixed prefix, then the
      engine's text (`sqlite3_errmsg`). */
  function EngineFailure(prefix: string, engineMessage: string): (m: string)
    ensures StripPrefix(m, prefix) == Some(engineMessage)
  {
    assert (prefix + engineMessage)[..|prefix|] == prefix;
    prefix + engineMessage
  }

  /** `check_error`: the context, the fixed separator, then the engine's text. */
  function CheckError(context: string, engineMessage: string): (m: string)
    ensures StripPrefix(m, context + CHECK_SEPARATOR) == Some(engineMessage)
  {
    EngineFailure(context + CHECK_SEPARATOR, engineMessage)
  }

  /** The failure text of `execute`: the caller's context, then the statement in
      single quotes. */
  function ExecFailure(context: string, sql: string): (m: string)
    ensures Between(m, context + " '", "'") == Some(sql)
  {
    BetweenFramed(context + " '", sql, "'");
    context + " '" + sql + "'"
  }

  /** The failure text of a bind in `insert`, naming the row and the position,
      which can be read back from it. */
  function BindFailure(row: nat, pos: nat): (m: string)
    ensures ParseBindFailure(m) == Some((row, pos))
  {
    BindFailureParses(row, pos);
    BIND_ROW + Render(row) + BIND_POSITION + Render(pos) + "'"
  }

  function ParseBindFailure(m: string): Option<(int, int)> {
    match StripPrefix(m, BIND_ROW)
    case None => None
    case Some(rest) =>
      var k := IndexOf(rest, '\'');
      match (Parse(rest[..k]), Between(rest[k..], BIND_POSITION, "'"))
      case (Some(row), Some(pos)) =>
        if Parse(pos).Some? then Some((row, Parse(pos).value)) else None
      case _ => None
  }

  lemma RenderHasNo(n: int, c: char)
    requires c != '-' && !IsDigit(c)
    ensures c !in Render(n)
  {
  }

  lemma BindFailureParses(row: nat, pos: nat)
    ensures ParseBindFailure(BIND_ROW + Render(row) + BIND_POSITION + Render(pos) + "'") == Some((row, pos))
  {
    var r, p := Render(row), Render(pos);
    var tail := BIND_POSITION[1..] + p + "'";
    var m := BIND_ROW + r + BIND_POSITION + p + "'";
    assert m == BIND_ROW + (r + ['\''] + tail);
    assert StripPrefix(m, BIND_ROW) == Some(r + ['\''] + tail) by {
      assert m[..|BIND_ROW|] == BIND_ROW;
    }
    var rest := r + ['\''] + tail;
    RenderHasNo(row, '\'');
    IndexOfJoin(r, '\'', tail);
    assert rest[..|r|] == r;
    assert rest[|r|..] == BIND_POSITION + p + "'";
    BetweenFramed(BIND_POSITION, p, "'");
    ParseRender(row);
    ParseRender(pos);
  }

  /** `log`: the line handed to the debug log for an engine log event. The
      code and the engine text can be read back from it, whatever characters
      the text holds. */
  function LogLine(num: int, msg: string): (line: string)
    ensures ParseLogLine(line) == Some((num, msg))
  {
    LogLineParses(num, msg);
    LOG_PREFIX + Render(num) + LOG_MESSAGE + msg + "'"
  }

  function ParseLogLine(line: string): Option<(int, string)> {
    match StripPrefix(line, LOG_PREFIX)
    case None => None
    case Some(rest) =>
      var k := IndexOf(rest, ' ');
      match (Parse(rest[..k]), Between(rest[k..], LOG_MESSAGE, "'"))
      case (Some(num), Some(msg)) => Some((num, msg))
      case _ => None
  }

  lemma LogLineParses(num: int, msg: string)
    ensures ParseLogLine(LOG_PREFIX + Render(num) + LOG_MESSAGE + msg + "'") == Some((num, msg))
  {
    var r := Render(num);
    var tail := LOG_MESSAGE[1..] + msg + "'";
    var line := LOG_PREFIX + r + LOG_MESSAGE + msg + "'";
    assert line == LOG_PREFIX + (r + [' '] + tail);
    assert StripPrefix(line, LOG_PREFIX) == Some(r + [' '] + tail) by {
      assert line[..|LOG_PREFIX|] == LOG_PREFIX;
    }
    var rest := r + [' '] + tail;
    RenderHasNo(num, ' ');
    IndexOfJoin(r, ' ', tail);
    assert rest[..|r|] == r;
    assert rest[|r|..] == LOG_MESSAGE + msg + "'";
    BetweenFramed(LOG_MESSAGE, msg, "'");
    ParseRender(num);
  }
}
