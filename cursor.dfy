/** The cursor arithmetic of `SQLite::next`: `m_position` and `m_data.size()` are
    `std::size_t`, so both the increment and `size() - 1` wrap modulo 2^64. */
module Cursor {
  import opened Cells

  /** `m_position++`. */
  function Inc(p: Size): (q: Size)
    ensures (q - p - 1) % SIZE_BOUND == 0
    ensures p + 1 < SIZE_BOUND ==> q == p + 1
  {
    if p + 1 == SIZE_BOUND then 0 else p + 1
  }

  /** `m_data.size() - 1`: the last row index, or the largest `size_t` when there
      are no rows. */
  function LastIndex(n: Size): (m: Size)
    ensures (m + 1 - n) % SIZE_BOUND == 0
    ensures n > 0 ==> m == n - 1
    ensures n == 0 ==> m == SIZE_BOUND - 1
  {
    if n == 0 then SIZE_BOUND - 1 else n - 1
  }

  /** What `next()` returns when it finds the cursor at `p` over `n` rows: false
      exactly when `p + 1` and `n - 1` agree modulo 2^64. */
  function NextResult(p: Size, n: Size): (more: bool)
    ensures more <==> (p + 1) % SIZE_BOUND != (n - 1) % SIZE_BOUND
  {
    Inc(p) != LastIndex(n)
  }

  /** The results of `k` successive `next()` calls starting at `p`. */
  function Walk(p: Size, n: Size, k: nat): (r: seq<bool>)
    ensures |r| == k
    decreases k
  {
    if k == 0 then [] else [NextResult(p, n)] + Walk(Inc(p), n, k - 1)
  }

  /** The cursor after `k` successive `next()` calls starting at `p`. */
  function After(p: Size, k: nat): Size
    decreases k
  {
    if k == 0 then p else After(Inc(p), k - 1)
  }

  /** From a row before the last one, `next()` answers true until the cursor
      reaches the last row, and false on the call that gets there. */
  lemma {:induction false} WalkToLastRow(p: Size, n: Size)
    requires 2 <= n && p < n - 1
    ensures Walk(p, n, n - 1 - p) == seq(n - 2 - p, _ => true) + [false]
    ensures After(p, n - 1 - p) == n - 1
    decreases n - p
  {
    if p < n - 2 {
      WalkToLastRow(p + 1, n);
      assert Walk(p, n, n - 1 - p) == [true] + Walk(p + 1, n, n - 2 - p);
    }
  }

  /** With N >= 2 rows and the cursor on row 0, as `query` leaves it, calls 1 to
      N-2 return true and call N-1 returns false, on the last row. */
  lemma WalkFromFirstRow(n: Size)
    requires n >= 2
    ensures Walk(0, n, n - 1) == seq(n - 2, _ => true) + [false]
    ensures After(0, n - 1) == n - 1
  {
    WalkToLastRow(0, n);
  }

  /** As long as no incremented position equals `size() - 1`, every call returns
      true. */
  lemma {:induction false} WalkMissesLastIndex(p: Size, n: Size, k: nat)
    requires p + k < SIZE_BOUND
    requires LastIndex(n) <= p || p + k < LastIndex(n)
    ensures Walk(p, n, k) == seq(k, _ => true)
    ensures After(p, k) == p + k
    decreases k
  {
    if k > 0 {
      WalkMissesLastIndex(p + 1, n, k - 1);
      assert Walk(p, n, k) == [true] + Walk(p + 1, n, k - 1);
    }
  }

  /** With one row the cursor leaves the row at the first call, which returns true;
      with no rows, true comes back 2^64 - 2 times. Neither stops where the rows
      end. */
  lemma FewRowsNeverStop()
    ensures Walk(0, 1, SIZE_BOUND - 1) == seq(SIZE_BOUND - 1, _ => true)
    ensures After(0, 1) == 1
    ensures Walk(0, 0, SIZE_BOUND - 2) == seq(SIZE_BOUND - 2, _ => true)
  {
    WalkMissesLastIndex(0, 1, SIZE_BOUND - 1);
    WalkMissesLastIndex(0, 1, 1);
    WalkMissesLastIndex(0, 0, SIZE_BOUND - 2);
  }
}
