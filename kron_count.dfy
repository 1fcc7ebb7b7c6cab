/** The non-zero count of the Kronecker expression, `nonZeros()`, which is
  * A.nonZeros() * B.nonZeros(): it is exactly the number of product cells
  * that pair a stored entry of A with a stored entry of B, which is the total
  * room the row-major sparse kernel reserves over all rows. */
module KronCount {
  import opened SparseLines
  import opened Matrices
  import opened IndexMath
  import opened KronExpr
  import opened KronSparse

  /** The entries B stores in rows below m, counted row by row over its first
    * n columns. */
  function RowCountsSum(e: Kron, n: nat, m: nat): nat
    requires WellFormed(e) && n <= N(e)
  {
    if m == 0 then 0 else RowCountsSum(e, n, m - 1) + Count(BRowFlags(e, m - 1), n)
  }

  /** The covered cells of the product rows below n: the room the row-major
    * kernel reserves for them. */
  function ReservedRows(e: Kron, n: nat): nat
    requires WellFormed(e) && n <= Rows(e)
  {
    if n == 0 then 0 else ReservedRows(e, n - 1) + Count(CoveredInRow(e, n - 1), Columns(e))
  }

  /** One more row inside a block row: the covered cells grow by the row of
    * A's entries times the next row count of B. */
  lemma {:induction false} RowSum(total: nat, prev: nat, add: nat, t: nat, s: nat, a: nat, p: nat, q: nat, pq: nat)
    requires total == prev + add && prev == t * s + a * p && add == a * q && pq == p + q
    ensures total == t * s + a * pq
  {
  }

  /** A finished block row: its entries times all of B's entries join the
    * complete rows. */
  lemma {:induction false} BlockSum(total: nat, t: nat, a: nat, s: nat, tNext: nat, zero: nat, b: nat)
    requires total == t * s + a * s && tNext == t + a && zero == 0
    ensures total == tNext * s + b * zero
  {
  }

  /** The last block row finished: A's entries times B's entries. */
  lemma {:induction false} ProductSum(total: nat, t: nat, a: nat, s: nat, all: nat)
    requires total == t * s + a * s && all == t + a
    ensures total == all * s
  {
  }

  /** Row counts over no columns are all zero. */
  lemma {:induction false} RowCountsNone(e: Kron, m: nat)
    requires WellFormed(e)
    ensures RowCountsSum(e, 0, m) == 0
  {
    if m > 0 {
      RowCountsNone(e, m - 1);
    }
  }

  /** One more column of B adds, to the row counts below m, the entries that
    * column stores in rows below m. */
  lemma {:induction false} RowCountsStep(e: Kron, n: nat, m: nat)
    requires WellFormed(e) && 0 < n <= N(e) && m <= M(e)
    ensures RowCountsSum(e, n, m) == RowCountsSum(e, n - 1, m) + Count(StoredFlags(BCol(e, n - 1), M(e)), m)
  {
    if m > 0 {
      RowCountsStep(e, n, m - 1);
      BRowCountStep(e, n - 1, m - 1);
    }
  }

  /** Counting B's entries by rows or by columns gives the same total. */
  lemma {:induction false} RowCountsTotal(e: Kron, n: nat)
    requires WellFormed(e) && n <= N(e)
    ensures RowCountsSum(e, n, M(e)) == TotalEntries(e.rhs.m.lines[..n])
  {
    var lines := e.rhs.m.lines;
    if n == 0 {
      RowCountsNone(e, M(e));
      assert lines[..0] == [];
    } else {
      RowCountsTotal(e, n - 1);
      RowCountsStep(e, n, M(e));
      BColValid(e, n - 1);
      CountStored(BCol(e, n - 1), M(e));
      assert lines[..n][..n - 1] == lines[..n - 1];
    }
  }

  /** The row counts of B sum to B.nonZeros(). */
  lemma {:induction false} RowCountsAreNonZeros(e: Kron)
    requires WellFormed(e)
    ensures RowCountsSum(e, N(e), M(e)) == NonZeros(e.rhs.m)
  {
    RowCountsTotal(e, N(e));
    assert e.rhs.m.lines[..N(e)] == e.rhs.m.lines;
  }

  /** The entries A stores in its rows below i. */
  function ARowsTotal(e: Kron, i: nat): nat
    requires WellFormed(e) && i <= e.lhs.m.rows
  {
    TotalEntries(e.lhs.m.lines[..i])
  }

  lemma {:induction false} ARowsTotalStep(e: Kron, i: nat)
    requires WellFormed(e) && 0 < i <= e.lhs.m.rows
    ensures ARowsTotal(e, i) == ARowsTotal(e, i - 1) + |ARow(e, i - 1)|
  {
    var lines := e.lhs.m.lines;
    assert lines[..i][..i - 1] == lines[..i - 1];
  }

  /** Row i * M + k of the product, k within the block, is inside the product. */
  lemma {:induction false} BlockRowBound(i: nat, k: nat, rows: nat, m: nat, r: nat)
    requires i < rows && k <= m && r == i * m + k
    ensures r <= rows * m
  {
    MulSucc(i, m);
    MulMonotone(i + 1, rows, m);
  }

  /** Product row r = i * M + k - 1 covers A's row i entries times B's row
    * k - 1 entries. */
  lemma {:induction false} ReservedRowStep(e: Kron, i: nat, k: nat, r: nat)
    requires WellFormed(e) && i < e.lhs.m.rows && 0 < k <= M(e) && r == i * M(e) + k
    ensures 0 < r <= Rows(e)
    ensures Count(CoveredInRow(e, r - 1), Columns(e)) == |ARow(e, i)| * Count(BRowFlags(e, k - 1), N(e))
  {
    BlockRowBound(i, k, e.lhs.m.rows, M(e), r);
    Split(r - 1, i, k - 1, M(e));
    CoveredInRowCount(e, r - 1);
  }

  /** The covered cells of the product rows before row r = i * M + k: the
    * complete block rows contribute their row of A's entries times all of B's
    * entries, and block row i its entries times B's entries in rows below k. */
  lemma {:induction false} ReservedBlocks(e: Kron, i: nat, k: nat, r: nat)
    requires WellFormed(e) && i < e.lhs.m.rows && k <= M(e) && r == i * M(e) + k
    ensures r <= Rows(e)
    ensures ReservedRows(e, r)
         == ARowsTotal(e, i) * RowCountsSum(e, N(e), M(e)) + |ARow(e, i)| * RowCountsSum(e, N(e), k)
  {
    BlockRowBound(i, k, e.lhs.m.rows, M(e), r);
    if k == 0 {
      if i == 0 {
        assert e.lhs.m.lines[..0] == [];
      } else {
        MulSucc(i - 1, M(e));
        ReservedBlocks(e, i - 1, M(e), r);
        ARowsTotalStep(e, i);
        var s := RowCountsSum(e, N(e), M(e));
        BlockSum(ReservedRows(e, r), ARowsTotal(e, i - 1), |ARow(e, i - 1)|, s,
                 ARowsTotal(e, i), RowCountsSum(e, N(e), 0), |ARow(e, i)|);
      }
    } else {
      ReservedBlocks(e, i, k - 1, r - 1);
      ReservedRowStep(e, i, k, r);
      RowSum(ReservedRows(e, r), ReservedRows(e, r - 1), Count(CoveredInRow(e, r - 1), Columns(e)),
             ARowsTotal(e, i), RowCountsSum(e, N(e), M(e)), |ARow(e, i)|,
             RowCountsSum(e, N(e), k - 1), Count(BRowFlags(e, k - 1), N(e)), RowCountsSum(e, N(e), k));
    }
  }

  /** `nonZeros()` of the expression, A.nonZeros() * B.nonZeros(), is the
    * number of product cells pairing two stored entries: the room the
    * row-major kernel reserves over all rows. */
  lemma {:induction false} ReservedIsNonZeros(e: Kron)
    requires WellFormed(e)
    ensures ReservedRows(e, Rows(e)) == KronNonZeros(e)
  {
    var rows, m := e.lhs.m.rows, M(e);
    RowCountsAreNonZeros(e);
    if rows == 0 {
      assert e.lhs.m.lines == [];
    } else if m == 0 {
      assert Rows(e) == 0;
    } else {
      MulSucc(rows - 1, m);
      ReservedBlocks(e, rows - 1, m, Rows(e));
      ARowsTotalStep(e, rows);
      assert e.lhs.m.lines[..rows] == e.lhs.m.lines;
      ProductSum(ReservedRows(e, Rows(e)), ARowsTotal(e, rows - 1), |ARow(e, rows - 1)|,
                 NonZeros(e.rhs.m), NonZeros(e.lhs.m));
    }
  }
}
