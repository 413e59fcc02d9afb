/** The sqlite3 C library as the class sees it: a scripted oracle. Each entry point
    answers from a script fixed in advance, counts the answers it has given and
    records the call in a ghost trace; what the engine computes (SQL, files,
    locks) is not modelled. A script that has run out answers SQLITE_OK, or
    SQLITE_DONE for a step. */
module Native {
  import opened Wrappers
  import opened Cells

  const OK: int := 0

  const OPEN_READWRITE: bv32 := 0x0000_0002
  const OPEN_CREATE: bv32 := 0x0000_0004
  const OPEN_NOMUTEX: bv32 := 0x0000_8000

  /** What `sqlite3_step` reports: SQLITE_ROW with the row's column names and cell
      texts (None for a NULL value), SQLITE_DONE, or any other code. */
  datatype Step = Row(names: seq<string>, cells: seq<Option<string>>) | Done | Fault

  /** A row names each of its columns. */
  predicate WellFormed(s: Step) {
    s.Row? ==> |s.names| == |s.cells|
  }
  /** One call into the library, as recorded in the trace. */
  datatype Call =
    | CallOpen(path: string, flags: bv32)
    | CallEnableLoadExtension
    | CallExec(sql: string)
    | CallReset
    | CallPrepare(sql: string, length: int)
    | CallStep
    | CallBind(index: int, value: Binding)
    | CallFinalize
    | CallClose

  /** The answer at position `t` of a code script. */
  function CodeAt(script: seq<int>, t: nat): int {
    if t < |script| then script[t] else OK
  }

  /** The answer at position `t` of a step script. */
  function StepAt(script: seq<Step>, t: nat): Step {
    if t < |script| then script[t] else Done
  }

  /** What is left of a script after `t` answers. */
  function Drop<T>(script: seq<T>, t: nat): (rest: seq<T>)
    ensures |rest| == if t <= |script| then |script| - t else 0
  {
    if t <= |script| then script[t..] else []
  }

  /** `count` copies of the same call. */
  function Repeat(c: Call, count: nat): (calls: seq<Call>)
    ensures |calls| == count && forall i :: 0 <= i < count ==> calls[i] == c
  {
    seq(count, _ => c)
  }

  /** The answer at position `t` of a script, read from what is left after
      `k` answers. */
  lemma CodeAtDrop(script: seq<int>, k: nat, t: nat)
    ensures CodeAt(Drop(script, k), t) == CodeAt(script, k + t)
  {
  }

  lemma StepAtDrop(script: seq<Step>, k: nat, t: nat)
    ensures StepAt(Drop(script, k), t) == StepAt(script, k + t)
  {
  }

  /** One more copy of a call after `n` of them. */
  lemma RepeatNext(before: seq<Call>, c: Call, n: nat)
    ensures before + Repeat(c, n) + [c] == before + Repeat(c, n + 1)
  {
    assert Repeat(c, n) + [c] == Repeat(c, n + 1);
  }

  class Engine {
    const openCode: int
    const extensionCode: int
    const execCodes: seq<int>
    const prepareCodes: seq<int>
    const bindCodes: seq<int>
    const steps: seq<Step>
    /** What `sqlite3_errmsg` reports. */
    const message: string
    /** How many answers of each script have been given. */
    var execs: nat
    var prepares: nat
    var binds: nat
    var stepped: nat
    /** The step result the prepared statement is positioned on. */
    var current: Step
    ghost var calls: seq<Call>

    /** The step script fits a `size_t` count of rows, and each of its rows
        names its columns. */
    ghost predicate Valid() {
      && |steps| < SIZE_BOUND
      && forall s :: s in steps ==> WellFormed(s)
    }

    constructor (openCode: int, extensionCode: int, execCodes: seq<int>,
                 prepareCodes: seq<int>, bindCodes: seq<int>, steps: seq<Step>,
                 message: string)
      requires |steps| < SIZE_BOUND && forall s :: s in steps ==> WellFormed(s)
      ensures Valid()
      ensures this.openCode == openCode && this.extensionCode == extensionCode
      ensures this.execCodes == execCodes && this.prepareCodes == prepareCodes
      ensures this.bindCodes == bindCodes && this.steps == steps && this.message == message
      ensures execs == 0 && prepares == 0 && binds == 0 && stepped == 0
      ensures current == Done && calls == []
    {
      this.openCode, this.extensionCode := openCode, extensionCode;
      this.execCodes, this.prepareCodes, this.bindCodes := execCodes, prepareCodes, bindCodes;
      this.steps, this.message := steps, message;
      execs, prepares, binds, stepped := 0, 0, 0, 0;
      current := Done;
      calls := [];
    }

    /** The step answers not given yet. */
    ghost function PendingSteps(): seq<Step>
      reads this`stepped
    {
      Drop(steps, stepped)
    }

    /** The bind answers not given yet. */
    ghost function PendingBinds(): seq<int>
      reads this`binds
    {
      Drop(bindCodes, binds)
    }

    /** `sqlite3_open_v2`. */
    method Open(path: string, flags: bv32) returns (code: int)
      modifies this`calls
      ensures code == openCode && calls == old(calls) + [CallOpen(path, flags)]
    {
      code := openCode;
      calls := calls + [CallOpen(path, flags)];
    }

    /** `sqlite3_enable_load_extension(db, 1)`. */
    method EnableLoadExtension() returns (code: int)
      modifies this`calls
      ensures code == extensionCode && calls == old(calls) + [CallEnableLoadExtension]
    {
      code := extensionCode;
      calls := calls + [CallEnableLoadExtension];
    }

    /** `sqlite3_exec` without a row callback. */
    method Exec(sql: string) returns (code: int)
      modifies this`execs, this`calls
      ensures code == CodeAt(execCodes, old(execs)) && execs == old(execs) + 1
      ensures calls == old(calls) + [CallExec(sql)]
    {
      code := CodeAt(execCodes, execs);
      execs := execs + 1;
      calls := calls + [CallExec(sql)];
    }

    /** `sqlite3_reset`. */
    method Reset()
      modifies this`calls
      ensures calls == old(calls) + [CallReset]
    {
      calls := calls + [CallReset];
    }

    /** `sqlite3_prepare_v2` with the statement and its length in bytes. */
    method Prepare(sql: string, length: int) returns (code: int)
      modifies this`prepares, this`calls
      ensures code == CodeAt(prepareCodes, old(prepares)) && prepares == old(prepares) + 1
      ensures calls == old(calls) + [CallPrepare(sql, length)]
    {
      code := CodeAt(prepareCodes, prepares);
      prepares := prepares + 1;
      calls := calls + [CallPrepare(sql, length)];
    }

    /** `sqlite3_step`: the statement moves to the next scripted result. */
    method Step() returns (s: Step)
      modifies this`stepped, this`current, this`calls
      ensures s == StepAt(steps, old(stepped)) && stepped == old(stepped) + 1 && current == s
      ensures Valid() ==> WellFormed(s)
      ensures calls == old(calls) + [CallStep]
    {
      s := StepAt(steps, stepped);
      assert s != Done ==> s in steps;
      stepped := stepped + 1;
      current := s;
      calls := calls + [CallStep];
    }

    /** `sqlite3_bind_null`, `sqlite3_bind_blob` or `sqlite3_bind_text` at a
        1-based parameter index. */
    method Bind(index: int, value: Binding) returns (code: int)
      modifies this`binds, this`calls
      ensures code == CodeAt(bindCodes, old(binds)) && binds == old(binds) + 1
      ensures calls == old(calls) + [CallBind(index, value)]
    {
      code := CodeAt(bindCodes, binds);
      binds := binds + 1;
      calls := calls + [CallBind(index, value)];
    }

    /** `sqlite3_finalize`. */
    method Finalize()
      modifies this`calls
      ensures calls == old(calls) + [CallFinalize]
    {
      calls := calls + [CallFinalize];
    }

    /** `sqlite3_close_v2`. */
    method Close()
      modifies this`calls
      ensures calls == old(calls) + [CallClose]
    {
      calls := calls + [CallClose];
    }

    /** `sqlite3_column_count` on the current row. */
    function ColumnCount(): nat
      reads this`current
    {
      if current.Row? then |current.cells| else 0
    }

    /** `sqlite3_column_name`. */
    function ColumnName(v: nat): string
      reads this`current
      requires current.Row? && v < |current.names|
    {
      current.names[v]
    }

    /** `sqlite3_column_text`: None stands for the null pointer returned for a NULL
        value or an index past the row. */
    function ColumnText(v: nat): Option<string>
      reads this`current
    {
      if current.Row? then TextAt(current.cells, v) else None
    }
  }

  /** The text of cell `v` of a row, None past its end. */
  function TextAt(cells: seq<Option<string>>, v: nat): Option<string> {
    if v < |cells| then cells[v] else None
  }
}
