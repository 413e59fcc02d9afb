/** What `SQLite::query` materialises from a script of step results: the rows, one
    per SQLITE_ROW step before the first SQLITE_DONE, each as wide as the first row,
    and the column names of that first row. */
module ResultSet {
  import opened Wrappers
  import opened Cells
  import opened Native

  /** The cell `query` builds from what `sqlite3_column_text` returned: a null
      pointer gives a NULL cell with empty text, anything else a non-NULL cell
      holding that text up to its first NUL. */
  function CellOf(text: Option<string>): (c: Column)
    ensures c.blobBuf == 0 && c.blobLen == 0
    ensures c.isNull <==> text.None?
    ensures text.None? ==> c.data == ""
    ensures text.Some? ==> c.data <= text.value && (c.data == text.value || text.value[|c.data|] == '\0')
    ensures '\0' !in c.data
  {
    if text.Some? then TextColumn(CString(text.value)) else NullColumn()
  }

  /** The column names as `std::string` copies of what `sqlite3_column_name`
      returned. */
  function CStrings(names: seq<string>): (r: seq<string>)
    ensures |r| == |names|
    ensures forall i :: 0 <= i < |names| ==> r[i] == CString(names[i])
  {
    if names == [] then [] else CStrings(names[..|names| - 1]) + [CString(names[|names| - 1])]
  }

  /** The row built from the first `w` cells of a step's row. */
  function RowOf(cells: seq<Option<string>>, w: nat): (r: Row)
    ensures |r| == w
    ensures forall v :: 0 <= v < w ==> r[v] == CellOf(TextAt(cells, v))
  {
    if w == 0 then [] else RowOf(cells, w - 1) + [CellOf(TextAt(cells, w - 1))]
  }

  /** The number of SQLITE_ROW steps in `s`. */
  function CountRows(s: seq<Step>): (n: nat)
    ensures n <= |s|
  {
    if s == [] then 0 else CountRows(s[..|s| - 1]) + (if s[|s| - 1].Row? then 1 else 0)
  }

  /** The rows appended for the steps `s`, all built `w` cells wide. */
  function Rows(s: seq<Step>, w: nat): (rows: Records)
    ensures |rows| == CountRows(s)
    ensures forall i :: 0 <= i < |rows| ==> |rows[i]| == w
  {
    if s == [] then []
    else
      var last := s[|s| - 1];
      Rows(s[..|s| - 1], w) + (if last.Row? then [RowOf(last.cells, w)] else [])
  }

  /** The index of the first SQLITE_ROW step, `|s|` when there is none. */
  function FirstRowIndex(s: seq<Step>): (k: nat)
    ensures k <= |s|
    ensures forall j :: 0 <= j < k ==> !s[j].Row?
    ensures k < |s| ==> s[k].Row?
  {
    if s == [] then 0 else if s[0].Row? then 0 else 1 + FirstRowIndex(s[1..])
  }

  /** `numCols`: the column count read at the first SQLITE_ROW step. */
  function Width(s: seq<Step>): nat {
    var k := FirstRowIndex(s);
    if k < |s| then |s[k].cells| else 0
  }

  /** `m_columns`: the names read while the first row is copied. */
  function Names(s: seq<Step>): seq<string> {
    var k := FirstRowIndex(s);
    if k < |s| then CStrings(s[k].names) else []
  }

  /** The index of the first SQLITE_DONE step, `|s|` when there is none. */
  function DoneIndex(s: seq<Step>): (k: nat)
    ensures k <= |s|
    ensures forall j :: 0 <= j < k ==> !s[j].Done?
    ensures k < |s| ==> s[k].Done?
  {
    if s == [] then 0 else if s[0].Done? then 0 else 1 + DoneIndex(s[1..])
  }

  /** Reading the step script from the start, answer `i` is SQLITE_DONE exactly
      at the first SQLITE_DONE, and before it the answer is the script's step. */
  lemma DoneAt(s: seq<Step>, i: nat)
    requires i <= DoneIndex(s)
    ensures StepAt(s, i).Done? <==> i == DoneIndex(s)
    ensures i < DoneIndex(s) ==> StepAt(s, i) == s[i]
  {
  }

  lemma PrefixNext(s: seq<Step>, i: nat)
    requires i < |s|
    ensures s[..i + 1] == s[..i] + [s[i]]
  {
  }

  /** The steps whose results `query` keeps: everything before the first
      SQLITE_DONE (an exhausted script answers SQLITE_DONE). */
  function Consumed(s: seq<Step>): seq<Step> {
    s[..DoneIndex(s)]
  }

  /** `m_data` after a successful `query` over the step script `s`: one row per
      SQLITE_ROW step before the first SQLITE_DONE, all as wide as the first. */
  function Table(s: seq<Step>): (rows: Records)
    ensures |rows| == CountRows(Consumed(s)) && |rows| <= DoneIndex(s)
    ensures forall i :: 0 <= i < |rows| ==> |rows[i]| == Width(Consumed(s))
  {
    Rows(Consumed(s), Width(Consumed(s)))
  }

  /** `m_columns` after a successful `query` over the step script `s`: names
      without NUL characters, and none at all unless there is a row. */
  function Header(s: seq<Step>): (names: seq<string>)
    ensures forall i :: 0 <= i < |names| ==> '\0' !in names[i]
    ensures names != [] ==> CountRows(Consumed(s)) > 0
  {
    var c := Consumed(s);
    var k := FirstRowIndex(c);
    if k < |c| then RowCounted(c, k); Names(c) else Names(c)
  }

  /** A script with a SQLITE_ROW step counts at least one row. */
  lemma {:induction false} RowCounted(s: seq<Step>, j: nat)
    requires j < |s| && s[j].Row?
    ensures CountRows(s) > 0
  {
    if j < |s| - 1 {
      assert s[..|s| - 1][j] == s[j];
      RowCounted(s[..|s| - 1], j);
    }
  }

  /** What the step loop of `query` holds after reading the steps `seen`:
      `numCols` is still -1 before the first SQLITE_ROW step and its column count
      after it, and `rows` and `names` are the table and the header of `seen`. */
  predicate Copied(seen: seq<Step>, numCols: int, rows: Records, names: seq<string>) {
    && (numCols == -1) == (FirstRowIndex(seen) == |seen|)
    && (numCols != -1 ==> numCols == Width(seen) && |names| == numCols)
    && rows == Rows(seen, Width(seen))
    && names == Names(seen)
  }

  /** Once the loop has read every step before the first SQLITE_DONE, it holds
      the table and the header of the script. */
  lemma CopiedAll(s: seq<Step>, numCols: int, rows: Records, names: seq<string>)
    requires Copied(s[..DoneIndex(s)], numCols, rows, names)
    ensures rows == Table(s) && names == Header(s)
  {
  }

  /** Reading one more step: the first row stays where it was, or is this step
      when it is the first SQLITE_ROW, and the column count and the names go
      with it. */
  lemma FirstRowExtend(s: seq<Step>, x: Step)
    ensures FirstRowIndex(s + [x]) ==
              if FirstRowIndex(s) < |s| || x.Row? then FirstRowIndex(s) else |s| + 1
    ensures FirstRowIndex(s) < |s| ==> Width(s + [x]) == Width(s) && Names(s + [x]) == Names(s)
    ensures FirstRowIndex(s) == |s| && x.Row? ==> Width(s + [x]) == |x.cells| && Names(s + [x]) == CStrings(x.names)
  {
    FirstRowAppend(s, x);
    var t := s + [x];
    if FirstRowIndex(s) < |s| {
      assert t[FirstRowIndex(s)] == s[FirstRowIndex(s)];
    } else if x.Row? {
      assert t[|s|] == x;
    }
  }

  lemma {:induction false} FirstRowAppend(s: seq<Step>, x: Step)
    ensures FirstRowIndex(s + [x]) ==
              if FirstRowIndex(s) < |s| || x.Row? then FirstRowIndex(s) else |s| + 1
  {
    if s != [] {
      assert (s + [x])[0] == s[0];
      if !s[0].Row? {
        assert (s + [x])[1..] == s[1..] + [x];
        FirstRowAppend(s[1..], x);
      }
    }
  }

  /** A row step appends one row, built as wide as asked; any other step adds
      nothing. */
  lemma RowsAppend(s: seq<Step>, x: Step, w: nat)
    ensures Rows(s + [x], w) == Rows(s, w) + (if x.Row? then [RowOf(x.cells, w)] else [])
  {
    assert (s + [x])[..|s|] == s;
  }

  /** A prefix without SQLITE_ROW steps contributes no rows, whatever the width. */
  lemma {:induction false} RowsWithoutRowSteps(s: seq<Step>, w: nat)
    requires forall j :: 0 <= j < |s| ==> !s[j].Row?
    ensures Rows(s, w) == []
  {
    if s != [] {
      RowsWithoutRowSteps(s[..|s| - 1], w);
    }
  }

  /** The `k`-th row of the table is the `k`-th SQLITE_ROW step, in step order:
      its cells are that step's texts, NULL mapped to an empty NULL cell. */
  lemma {:induction false} RowsInStepOrder(s: seq<Step>, w: nat, j: nat)
    requires j < |s| && s[j].Row?
    ensures CountRows(s[..j]) < |Rows(s, w)|
    ensures Rows(s, w)[CountRows(s[..j])] == RowOf(s[j].cells, w)
  {
    var n := |s| - 1;
    if j < n {
      assert s[..n][..j] == s[..j];
      RowsInStepOrder(s[..n], w, j);
    } else {
      assert s[..j] == s[..n];
    }
  }

  /** Every row of the table has as many cells as there are column names (the
      step script names each column of a row), there is one row per SQLITE_ROW
      step read, and a result without rows has no column names either. */
  lemma TableShape(s: seq<Step>)
    requires forall x :: x in s ==> WellFormed(x)
    ensures forall i :: 0 <= i < |Table(s)| ==> |Table(s)[i]| == |Header(s)|
    ensures |Table(s)| == CountRows(Consumed(s))
    ensures (forall j :: 0 <= j < |Consumed(s)| ==> !Consumed(s)[j].Row?) ==>
              Table(s) == [] && Header(s) == []
  {
    var c := Consumed(s);
    var k := FirstRowIndex(c);
    if k < |c| {
      assert c[k] in s;
    } else {
      RowsWithoutRowSteps(c, 0);
    }
  }

  /** Only SQLITE_DONE ends the step loop: the steps after the first SQLITE_DONE are
      never read, and a script without one is read to its end. */
  lemma StopsAtFirstDone(s: seq<Step>, rest: seq<Step>)
    ensures Table(Consumed(s) + [Done] + rest) == Table(s)
    ensures Header(Consumed(s) + [Done] + rest) == Header(s)
  {
    var t := Consumed(s) + [Done] + rest;
    assert DoneIndex(t) == DoneIndex(s) by {
      assert t[DoneIndex(s)] == Done;
    }
    assert Consumed(t) == Consumed(s);
  }

  /** A step that is not SQLITE_ROW adds no row wherever it stands. */
  lemma {:induction false} RowsSkip(a: seq<Step>, x: Step, b: seq<Step>, w: nat)
    requires !x.Row?
    ensures Rows(a + [x] + b, w) == Rows(a + b, w)
  {
    var t, u := a + [x] + b, a + b;
    if b == [] {
      assert t[..|t| - 1] == u;
    } else {
      var n := |b| - 1;
      assert t[..|t| - 1] == a + [x] + b[..n];
      assert u[..|u| - 1] == a + b[..n];
      RowsSkip(a, x, b[..n], w);
    }
  }

  /** ... nor does it change which step is the first row. */
  lemma {:induction false} FirstRowIndexSkip(a: seq<Step>, x: Step, b: seq<Step>)
    requires !x.Row?
    ensures FirstRowIndex(a + [x] + b) ==
              if FirstRowIndex(a + b) < |a| then FirstRowIndex(a + b) else FirstRowIndex(a + b) + 1
  {
    var t, u := a + [x] + b, a + b;
    if a == [] {
      assert t[1..] == b && u == b;
    } else {
      assert t[0] == u[0];
      if !a[0].Row? {
        assert t[1..] == a[1..] + [x] + b;
        assert u[1..] == a[1..] + b;
        FirstRowIndexSkip(a[1..], x, b);
      }
    }
  }

  /** ... so the column count and the names stay as they were. */
  lemma FirstRowSkip(a: seq<Step>, x: Step, b: seq<Step>)
    requires !x.Row?
    ensures Width(a + [x] + b) == Width(a + b) && Names(a + [x] + b) == Names(a + b)
  {
    FirstRowIndexSkip(a, x, b);
    var t, u := a + [x] + b, a + b;
    var k := FirstRowIndex(u);
    if k < |a| {
      assert t[k] == u[k];
    } else if k < |u| {
      assert t[k + 1] == u[k];
    }
  }

  lemma {:induction false} DoneIndexOf(a: seq<Step>, r: seq<Step>)
    requires forall j :: 0 <= j < |a| ==> !a[j].Done?
    requires r == [] || r[0].Done?
    ensures DoneIndex(a + r) == |a|
  {
    if a != [] {
      assert (a + r)[1..] == a[1..] + r;
      DoneIndexOf(a[1..], r);
    }
  }

  /** A failed step inside the loop is not raised and adds nothing: with the
      script cut at its first SQLITE_DONE into `a + b` and `r`, a failed step
      between `a` and `b` leaves the table and the names as they were. */
  lemma FaultsAddNothing(a: seq<Step>, b: seq<Step>, r: seq<Step>)
    requires forall x :: x in a + b ==> !x.Done?
    requires r == [] || r[0].Done?
    ensures Table(a + [Fault] + b + r) == Table(a + b + r)
    ensures Header(a + [Fault] + b + r) == Header(a + b + r)
  {
    var c, ct := a + b, a + [Fault] + b;
    assert forall j :: 0 <= j < |ct| ==> !ct[j].Done? by {
      forall j | 0 <= j < |ct| ensures !ct[j].Done? {
        if j < |a| { assert ct[j] == c[j]; }
        else if j > |a| { assert ct[j] == c[j - 1]; }
      }
    }
    assert forall j :: 0 <= j < |c| ==> !c[j].Done? by {
      forall j | 0 <= j < |c| ensures !c[j].Done? {
        assert c[j] in c;
      }
    }
    DoneIndexOf(c, r);
    DoneIndexOf(ct, r);
    assert Consumed(c + r) == c by { assert (c + r)[..|c|] == c; }
    assert Consumed(ct + r) == ct by { assert (ct + r)[..|ct|] == ct; }
    assert a + [Fault] + b + r == ct + r;
    FirstRowSkip(a, Fault, b);
    RowsSkip(a, Fault, b, Width(c));
  }
}
