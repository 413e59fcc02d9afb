/** The calls `SQLite::insert` makes: for each row, in order, one bind per position
    (the positions counted on row 0) at parameter indices 1, 2, ..., then exactly
    one step. */
module BulkInsert {
  import opened Cells
  import opened Native

  /** `totalPositions`: the width of row 0, used for every row. */
  function Positions(rs: Records): nat {
    if rs == [] then 0 else |rs[0]|
  }

  /** Every row has a cell at each position `insert` reads; the source indexes
      `rs[r][pos]` without checking. */
  predicate WideEnough(rs: Records, w: nat) {
    forall r :: 0 <= r < |rs| ==> |rs[r]| >= w
  }

  /** Where `insert` stopped: at the prepare, at the bind of a row and position, at
      the step of a row, or after the last row. */
  datatype Stop = AtPrepare | AtBind(row: nat, pos: nat) | AtStep(row: nat) | Finished

  /** The binds of the first `n` positions of a row. */
  function BindCalls(row: Row, n: nat): (calls: seq<Call>)
    requires n <= |row|
    ensures |calls| == n
  {
    if n == 0 then [] else BindCalls(row, n - 1) + [CallBind(n, BindingOf(row[n - 1]))]
  }

  /** Bind number `pos` (from 0) binds cell `pos` at parameter index `pos + 1`. */
  lemma {:induction false} BindCallsAt(row: Row, n: nat, pos: nat)
    requires n <= |row| && pos < n
    ensures BindCalls(row, n)[pos] == CallBind(pos + 1, BindingOf(row[pos]))
  {
    if pos < n - 1 {
      BindCallsAt(row, n - 1, pos);
    }
  }

  /** The calls for one row: its `w` binds, then one step. */
  function RowCalls(row: Row, w: nat): seq<Call>
    requires w <= |row|
  {
    BindCalls(row, w) + [CallStep]
  }

  /** The calls for the first `n` rows, each row `w` positions wide. */
  function InsertCalls(rs: Records, w: nat, n: nat): seq<Call>
    requires n <= |rs| && WideEnough(rs, w)
  {
    if n == 0 then [] else InsertCalls(rs, w, n - 1) + RowCalls(rs[n - 1], w)
  }

  /** One more bind of a row, after whatever came before. */
  lemma BindCallsNext(before: seq<Call>, row: Row, n: nat)
    requires n < |row|
    ensures before + BindCalls(row, n + 1) == before + BindCalls(row, n) + [CallBind(n + 1, BindingOf(row[n]))]
  {
  }

  /** One more bind answer that is SQLITE_OK. */
  lemma BindsOkNext(codes: seq<int>, t: nat)
    requires BindsOk(codes, t) && CodeAt(codes, t) == OK
    ensures BindsOk(codes, t + 1)
  {
  }

  /** The bind answers of a row, read after the `k` answers of the rows before
      it, in a script of which `b0` answers were used before `insert`. */
  lemma BindsShift(codes: seq<int>, b0: nat, k: nat, n: nat)
    ensures CodeAt(Drop(codes, b0 + k), n) == CodeAt(Drop(codes, b0), k + n)
    ensures BindsOk(Drop(codes, b0), k) && BindsOk(Drop(codes, b0 + k), n) ==>
              BindsOk(Drop(codes, b0), k + n)
  {
    CodeAtDrop(codes, b0 + k, n);
    CodeAtDrop(codes, b0, k + n);
    if BindsOk(Drop(codes, b0), k) && BindsOk(Drop(codes, b0 + k), n) {
      forall j | 0 <= j < k + n
        ensures CodeAt(Drop(codes, b0), j) == OK
      {
        if j >= k {
          assert CodeAt(Drop(codes, b0 + k), j - k) == OK;
          CodeAtDrop(codes, b0 + k, j - k);
          CodeAtDrop(codes, b0, j);
        }
      }
    }
  }

  /** How many bind answers the first `r` rows use, `w` positions each: the
      product `r * w`, written without multiplication. */
  function Offset(r: nat, w: nat): nat {
    if r == 0 then 0 else Offset(r - 1, w) + w
  }

  lemma {:induction false} OffsetIsProduct(r: nat, w: nat)
    ensures Offset(r, w) == r * w
  {
    if r > 0 {
      OffsetIsProduct(r - 1, w);
    }
  }

  /** The bind at position `pos` of row `r` comes before the end of `n` rows. */
  lemma {:induction false} OffsetBound(r: nat, pos: nat, w: nat, n: nat)
    requires r < n && pos < w
    ensures Offset(r, w) + pos < Offset(n, w)
    decreases n
  {
    if r < n - 1 {
      OffsetBound(r, pos, w, n - 1);
    }
  }

  /** The first `t` bind answers are SQLITE_OK. */
  predicate BindsOk(codes: seq<int>, t: nat) {
    forall j :: 0 <= j < t ==> CodeAt(codes, j) == OK
  }

  /** None of the first `n` step answers is an error. */
  predicate StepsOk(steps: seq<Step>, n: nat) {
    forall j :: 0 <= j < n ==> !StepAt(steps, j).Fault?
  }

  /** Block `r` of a sequence cut into blocks of `k` elements. */
  function Block<T>(s: seq<T>, r: nat, k: nat): seq<T> {
    if (r + 1) * k <= |s| then s[r * k..(r + 1) * k] else []
  }

  lemma BlockOfAppend<T>(head: seq<T>, last: seq<T>, n: nat, k: nat, r: nat)
    requires |head| == n * k && |last| == k && r <= n
    ensures |head + last| == (n + 1) * k
    ensures r < n ==> Block(head + last, r, k) == Block(head, r, k)
    ensures r == n ==> Block(head + last, r, k) == last
  {
    assert (n + 1) * k == n * k + k;
    assert (r + 1) * k == r * k + k;
    if r < n {
      assert (r + 1) * k <= n * k;
    }
  }

  /** Row `r` owns block `r` of the trace, `w + 1` calls long: its binds at
      parameter indices 1 to `w`, then its one step. An empty row set makes no
      call at all. */
  lemma {:induction false} InsertCallsLayout(rs: Records, w: nat, m: nat)
    requires m <= |rs| && WideEnough(rs, w)
    ensures |InsertCalls(rs, w, m)| == m * (w + 1)
    ensures forall r :: 0 <= r < m ==> Block(InsertCalls(rs, w, m), r, w + 1) == RowCalls(rs[r], w)
  {
    if m > 0 {
      var n := m - 1;
      InsertCallsLayout(rs, w, n);
      var head, last := InsertCalls(rs, w, n), RowCalls(rs[n], w);
      BlockOfAppend(head, last, n, w + 1, n);
      forall r | 0 <= r < m
        ensures Block(head + last, r, w + 1) == RowCalls(rs[r], w)
      {
        BlockOfAppend(head, last, n, w + 1, r);
      }
    }
  }

  /** `insert` resets its statement only before the prepare: no row's binds are
      preceded by a reset, so every row after the first is bound to a statement
      already stepped. */
  lemma {:induction false} InsertNeverResets(rs: Records, w: nat, m: nat)
    requires m <= |rs| && WideEnough(rs, w)
    ensures CallReset !in InsertCalls(rs, w, m)
  {
    if m > 0 {
      InsertNeverResets(rs, w, m - 1);
      var row := rs[m - 1];
      forall pos | 0 <= pos < w
        ensures BindCalls(row, w)[pos] != CallReset
      {
        BindCallsAt(row, w, pos);
      }
      assert InsertCalls(rs, w, m) == InsertCalls(rs, w, m - 1) + BindCalls(row, w) + [CallStep];
    }
  }

  /** The calls `insert` makes after the prepare, up to where it stopped. */
  function InsertTrace(rs: Records, w: nat, stop: Stop): seq<Call>
    requires WideEnough(rs, w)
  {
    match stop
    case AtPrepare => []
    case AtBind(r, p) =>
      if r < |rs| && p < w then InsertCalls(rs, w, r) + BindCalls(rs[r], p + 1) else []
    case AtStep(r) => if r < |rs| then InsertCalls(rs, w, r + 1) else []
    case Finished => InsertCalls(rs, w, |rs|)
  }

  /** How many bind answers `insert` used before it stopped. */
  function BindsUsed(rs: Records, w: nat, stop: Stop): nat {
    match stop
    case AtPrepare => 0
    case AtBind(r, p) => Offset(r, w) + p + 1
    case AtStep(r) => Offset(r + 1, w)
    case Finished => Offset(|rs|, w)
  }

  /** How many step answers `insert` used before it stopped. */
  function StepsUsed(rs: Records, stop: Stop): nat {
    match stop
    case AtPrepare => 0
    case AtBind(r, _) => r
    case AtStep(r) => r + 1
    case Finished => |rs|
  }

  /** The bind and step scripts `binds` and `steps` make a prepared `insert`
      of `rs` stop at `stop`: every answer before the stopping point was a
      success, and the one at it was not. */
  predicate Reached(binds: seq<int>, steps: seq<Step>, rs: Records, w: nat, stop: Stop) {
    match stop
    case AtPrepare => true
    case AtBind(r, p) =>
      && r < |rs| && p < w
      && BindsOk(binds, Offset(r, w) + p) && CodeAt(binds, Offset(r, w) + p) != OK
      && StepsOk(steps, r)
    case AtStep(r) =>
      && r < |rs|
      && BindsOk(binds, Offset(r + 1, w))
      && StepsOk(steps, r) && StepAt(steps, r).Fault?
    case Finished => BindsOk(binds, Offset(|rs|, w)) && StepsOk(steps, |rs|)
  }

  /** The scripts decide where `insert` stops: once past the prepare, at most one
      stopping point is reached. */
  lemma ReachedUnique(binds: seq<int>, steps: seq<Step>, rs: Records, w: nat, s1: Stop, s2: Stop)
    requires s1 != AtPrepare && s2 != AtPrepare
    requires Reached(binds, steps, rs, w, s1) && Reached(binds, steps, rs, w, s2)
    ensures s1 == s2
  {
    if s1 != s2 {
      if Earlier(rs, w, s1, s2) {
        ReachedApart(binds, steps, rs, w, s1, s2);
      } else {
        ReachedApart(binds, steps, rs, w, s2, s1);
      }
      assert false;
    }
  }

  /** `s1` comes before `s2` in the order `insert` runs. */
  predicate Earlier(rs: Records, w: nat, s1: Stop, s2: Stop) {
    && (s1.AtBind? || s1.AtStep?)
    && (|| s2.Finished?
        || StepsUsed(rs, s1) < StepsUsed(rs, s2)
        || (StepsUsed(rs, s1) == StepsUsed(rs, s2) && BindsUsed(rs, w, s1) < BindsUsed(rs, w, s2)))
  }

  /** Reaching a stopping point rules out every later one: the later one needs
      the answer at the earlier one to have been a success. */
  lemma ReachedApart(binds: seq<int>, steps: seq<Step>, rs: Records, w: nat, s1: Stop, s2: Stop)
    requires Earlier(rs, w, s1, s2) && Reached(binds, steps, rs, w, s1)
    ensures !Reached(binds, steps, rs, w, s2)
  {
    if s1.AtBind? && Reached(binds, steps, rs, w, s2) {
      var r, p := s1.row, s1.pos;
      match s2 {
        case Finished => OffsetBound(r, p, w, |rs|);
        case AtBind(r2, _) =>
          if r < r2 {
            OffsetBound(r, p, w, r2);
          }
        case AtStep(r2) => OffsetBound(r, p, w, r2 + 1);
      }
    }
  }

  /** A prepared `insert` succeeds exactly when every bind answer and every step
      answer it reads is a success. */
  lemma ReachedDecides(binds: seq<int>, steps: seq<Step>, rs: Records, w: nat, stop: Stop)
    requires stop != AtPrepare && Reached(binds, steps, rs, w, stop)
    ensures stop == Finished <==> BindsOk(binds, Offset(|rs|, w)) && StepsOk(steps, |rs|)
  {
    if BindsOk(binds, Offset(|rs|, w)) && StepsOk(steps, |rs|) {
      assert Reached(binds, steps, rs, w, Finished);
      ReachedUnique(binds, steps, rs, w, stop, Finished);
    }
  }

  /** What the answers for row `r` decide, for bind and step scripts of which
      `b0` and `s0` answers were used before `insert` and `k` bind answers by the
      rows before `r`: `failed` is the first position whose bind failed (`w` when
      none did), and then the step either fails or the loop goes on. */
  lemma RowEnds(codes: seq<int>, steps: seq<Step>, b0: nat, s0: nat, rs: Records, w: nat,
                r: nat, k: nat, failed: nat, fault: bool, bound: nat, stepAt: nat)
    requires r < |rs| && k == Offset(r, w) && failed <= w
    requires bound == b0 + k && stepAt == s0 + r
    requires BindsOk(Drop(codes, b0), k) && StepsOk(Drop(steps, s0), r)
    requires BindsOk(Drop(codes, bound), failed)
    requires failed < w ==> CodeAt(Drop(codes, bound), failed) != OK && !fault
    requires failed == w ==> fault == StepAt(steps, stepAt).Fault?
    ensures failed < w ==>
              && Reached(Drop(codes, b0), Drop(steps, s0), rs, w, AtBind(r, failed))
              && BindsUsed(rs, w, AtBind(r, failed)) == k + failed + 1
              && StepsUsed(rs, AtBind(r, failed)) == r
    ensures fault ==>
              && Reached(Drop(codes, b0), Drop(steps, s0), rs, w, AtStep(r))
              && BindsUsed(rs, w, AtStep(r)) == k + w
              && StepsUsed(rs, AtStep(r)) == r + 1
    ensures failed == w && !fault ==>
              && Offset(r + 1, w) == k + w
              && BindsOk(Drop(codes, b0), k + w)
              && StepsOk(Drop(steps, s0), r + 1)
  {
    BindsShift(codes, b0, k, failed);
    StepAtDrop(steps, s0, r);
  }

  /** The trace after the binds of row `r`, in the shape the loops build it:
      the calls of the rows before, the binds made, then the step when every
      bind succeeded. */
  lemma RowTrace(before: seq<Call>, rs: Records, w: nat, r: nat, failed: nat)
    requires WideEnough(rs, w) && r < |rs| && failed <= w
    ensures failed < w ==>
              before + InsertCalls(rs, w, r) + BindCalls(rs[r], failed + 1)
              == before + InsertTrace(rs, w, AtBind(r, failed))
    ensures failed == w ==>
              && before + InsertCalls(rs, w, r) + BindCalls(rs[r], w) + [CallStep]
                 == before + InsertCalls(rs, w, r + 1)
              && InsertTrace(rs, w, AtStep(r)) == InsertCalls(rs, w, r + 1)
  {
    var head := InsertCalls(rs, w, r);
    if failed < w {
      var binds := BindCalls(rs[r], failed + 1);
      assert InsertTrace(rs, w, AtBind(r, failed)) == head + binds;
      assert before + head + binds == before + (head + binds);
    } else {
      var row := RowCalls(rs[r], w);
      assert InsertCalls(rs, w, r + 1) == head + row;
      assert before + head + BindCalls(rs[r], w) + [CallStep] == before + (head + row);
    }
  }

  /** The facts a completed `insert` leaves behind. */
  lemma StopFinished(binds: seq<int>, steps: seq<Step>, rs: Records, w: nat)
    requires BindsOk(binds, Offset(|rs|, w)) && StepsOk(steps, |rs|)
    ensures Reached(binds, steps, rs, w, Finished)
    ensures BindsUsed(rs, w, Finished) == Offset(|rs|, w)
    ensures StepsUsed(rs, Finished) == |rs|
  {
  }
}
