/** The sparse-target kernels of the Kronecker expression: assignment into a
  * row-major and into a column-major compressed matrix. Each first counts
  * stored entries per row of B (or per column of A), reserves room in every
  * target line, then appends the products line by line in ascending order. */
module KronSparse {
  import opened SparseLines
  import opened Matrices
  import opened IndexMath
  import opened KronExpr
  import opened KronDense
  import opened CompressedTargets

  /** Which columns of B store an entry in row k. */
  function BRowFlags(e: Kron, k: nat): (flags: seq<bool>)
    requires WellFormed(e)
    ensures |flags| == N(e) && forall l :: 0 <= l < N(e) ==> (flags[l] <==> Contains(BCol(e, l), k))
  {
    seq(N(e), (l: int) requires 0 <= l < N(e) => Contains(BCol(e, l), k))
  }

  /** The number of entries B stores in row k. */
  function BRowCount(e: Kron, k: nat): nat
    requires WellFormed(e)
  {
    Count(BRowFlags(e, k), N(e))
  }

  /** Which rows of A store an entry in column a. */
  function AColFlags(e: Kron, a: nat): (flags: seq<bool>)
    requires WellFormed(e)
    ensures |flags| == e.lhs.m.rows && forall i :: 0 <= i < e.lhs.m.rows ==> (flags[i] <==> Contains(ARow(e, i), a))
  {
    seq(e.lhs.m.rows, (i: int) requires 0 <= i < e.lhs.m.rows => Contains(ARow(e, i), a))
  }

  /** The number of entries A stores in column a. */
  function AColCount(e: Kron, a: nat): nat
    requires WellFormed(e)
  {
    Count(AColFlags(e, a), e.lhs.m.rows)
  }

  /** The counting pass of the row-major kernel: one increment per stored entry
    * of B, at the entry's row. */
  method CountRowsOfB(e: Kron) returns (nonzeros: seq<nat>)
    requires WellFormed(e)
    ensures |nonzeros| == M(e) && forall k :: 0 <= k < M(e) ==> nonzeros[k] == BRowCount(e, k)
  {
    var m, n := M(e), N(e);
    nonzeros := seq(m, _ => 0);
    var j := 0;
    while j < n
      invariant j <= n && |nonzeros| == m
      invariant forall k :: 0 <= k < m ==> nonzeros[k] == Count(BRowFlags(e, k), j)
    {
      BColValid(e, j);
      nonzeros := CountIndices(BCol(e, j), m, nonzeros);
      forall k | 0 <= k < m
        ensures nonzeros[k] == Count(BRowFlags(e, k), j + 1)
      {
        BRowCountStep(e, j, k);
      }
      j := j + 1;
    }
  }

  /** The counting pass of the column-major kernel: one increment per stored
    * entry of A, at the entry's column. */
  method CountColumnsOfA(e: Kron) returns (nonzeros: seq<nat>)
    requires WellFormed(e)
    ensures |nonzeros| == e.lhs.m.columns && forall a :: 0 <= a < e.lhs.m.columns ==> nonzeros[a] == AColCount(e, a)
  {
    var cols := e.lhs.m.columns;
    nonzeros := seq(cols, _ => 0);
    var i := 0;
    while i < e.lhs.m.rows
      invariant i <= e.lhs.m.rows && |nonzeros| == cols
      invariant forall a :: 0 <= a < cols ==> nonzeros[a] == Count(AColFlags(e, a), i)
    {
      ARowValid(e, i);
      nonzeros := CountIndices(ARow(e, i), cols, nonzeros);
      forall a | 0 <= a < cols
        ensures nonzeros[a] == Count(AColFlags(e, a), i + 1)
      {
        AColCountStep(e, i, a);
      }
      i := i + 1;
    }
  }

  /** Column l of B adds one to the count of row k exactly when it stores a
    * value there. */
  lemma {:induction false} BRowCountStep(e: Kron, l: nat, k: nat)
    requires WellFormed(e) && l < N(e)
    ensures Count(BRowFlags(e, k), l + 1) == Count(BRowFlags(e, k), l) + if Contains(BCol(e, l), k) then 1 else 0
  {
  }

  /** Row i of A adds one to the count of column a exactly when it stores a
    * value there. */
  lemma {:induction false} AColCountStep(e: Kron, i: nat, a: nat)
    requires WellFormed(e) && i < e.lhs.m.rows
    ensures Count(AColFlags(e, a), i + 1) == Count(AColFlags(e, a), i) + if Contains(ARow(e, i), a) then 1 else 0
  {
  }

  /** The first n elements of row r of the product, as a dense line. */
  function RowPrefix(e: Kron, r: nat, n: nat): (vals: seq<int>)
    requires WellFormed(e) && r < Rows(e) && n <= Columns(e)
    ensures |vals| == n
  {
    if n == 0 then [] else RowPrefix(e, r, n - 1) + [Element(e, r, n - 1)]
  }

  /** Row r of the product, as a dense line. */
  function RowValues(e: Kron, r: nat): (vals: seq<int>)
    requires WellFormed(e) && r < Rows(e)
    ensures |vals| == Columns(e)
  {
    RowPrefix(e, r, Columns(e))
  }

  lemma {:induction false} RowPrefixAt(e: Kron, r: nat, n: nat, c: nat)
    requires WellFormed(e) && r < Rows(e) && c < n <= Columns(e)
    ensures RowPrefix(e, r, n)[c] == Element(e, r, c)
  {
    if c < n - 1 {
      RowPrefixAt(e, r, n - 1, c);
    }
  }

  /** The dense row holds the product's elements. */
  lemma {:induction false} RowValue(e: Kron, r: nat, c: nat)
    requires WellFormed(e) && r < Rows(e) && c < Columns(e)
    ensures RowValues(e, r)[c] == Element(e, r, c)
  {
    RowPrefixAt(e, r, Columns(e), c);
  }

  /** Which cells of row r of the product pair two stored entries. */
  function CoveredInRow(e: Kron, r: nat): (flags: seq<bool>)
    requires WellFormed(e) && r < Rows(e)
    ensures |flags| == Columns(e) && forall c :: 0 <= c < Columns(e) ==> (flags[c] <==> Covered(e, r, c))
  {
    seq(Columns(e), (c: int) requires 0 <= c < Columns(e) => Covered(e, r, c))
  }

  /** Row r / M of A: the row of A that product row r draws on. */
  function RowOfA(e: Kron, r: nat): seq<Entry>
    requires WellFormed(e) && r < Rows(e)
  {
    BlockBound(r, e.lhs.m.rows, M(e));
    ARow(e, r / M(e))
  }

  lemma {:induction false} ScaleStep(x: nat, rc: nat, present: bool)
    ensures x * rc + (if present then rc else 0) == (x + if present then 1 else 0) * rc
  {
  }

  lemma {:induction false} BlockPrefixBound(b: nat, l: nat, blocks: nat, n: nat)
    requires b < blocks && l <= n
    ensures b * n + l <= blocks * n
  {
    MulMonotone(b + 1, blocks, n);
    MulSucc(b, n);
  }

  /** Within block column b, the covered cells of row r up to offset l are the
    * columns of B below l that store an entry in row r % M, when A stores
    * (r / M, b), and none otherwise. */
  lemma {:induction false} CoveredRowBlock(e: Kron, r: nat, b: nat, l: nat)
    requires WellFormed(e) && r < Rows(e) && b < e.lhs.m.columns && l <= N(e)
    ensures b * N(e) + l <= Columns(e)
    ensures Count(CoveredInRow(e, r), b * N(e) + l)
        == Count(CoveredInRow(e, r), b * N(e))
           + if Contains(RowOfA(e, r), b) then Count(BRowFlags(e, r % M(e)), l) else 0
  {
    BlockBound(r, e.lhs.m.rows, M(e));
    BlockPrefixBound(b, l, e.lhs.m.columns, N(e));
    if l > 0 {
      CoveredRowBlock(e, r, b, l - 1);
      Split(b * N(e) + (l - 1), b, l - 1, N(e));
    }
  }

  /** Over the first b block columns, row r covers (entries of row r / M of A
    * below b) times (entries of row r % M of B) cells. */
  lemma {:induction false} CoveredRowBlocks(e: Kron, r: nat, b: nat)
    requires WellFormed(e) && r < Rows(e) && b <= e.lhs.m.columns
    ensures b * N(e) <= Columns(e)
    ensures Count(CoveredInRow(e, r), b * N(e))
        == Count(StoredFlags(RowOfA(e, r), e.lhs.m.columns), b) * BRowCount(e, r % M(e))
  {
    BlockBound(r, e.lhs.m.rows, M(e));
    MulMonotone(b, e.lhs.m.columns, N(e));
    if b > 0 {
      CoveredRowBlocks(e, r, b - 1);
      CoveredRowBlock(e, r, b - 1, N(e));
      MulSucc(b - 1, N(e));
      ScaleStep(Count(StoredFlags(RowOfA(e, r), e.lhs.m.columns), b - 1),
                BRowCount(e, r % M(e)), Contains(RowOfA(e, r), b - 1));
    }
  }

  /** Row r of the product covers exactly A.nonZeros(r / M) * (entries of B
    * in row r % M) cells: the room the row-major kernel reserves for it. */
  lemma {:induction false} CoveredInRowCount(e: Kron, r: nat)
    requires WellFormed(e) && r < Rows(e)
    ensures Count(CoveredInRow(e, r), Columns(e)) == |RowOfA(e, r)| * BRowCount(e, r % M(e))
  {
    BlockBound(r, e.lhs.m.rows, M(e));
    ARowValid(e, r / M(e));
    CoveredRowBlocks(e, r, e.lhs.m.columns);
    CountStored(RowOfA(e, r), e.lhs.m.columns);
  }

  /** Before a covered cell (r, c) is appended, row r holds fewer entries than
    * it has covered cells: room reserved for the row is never exhausted early. */
  lemma {:induction false} RoomInRow(e: Kron, r: nat, c: nat)
    requires WellFormed(e) && r < Rows(e) && c < Columns(e) && Covered(e, r, c)
    ensures |Compress(RowValues(e, r), c)| < Count(CoveredInRow(e, r), Columns(e))
  {
    var vals, flags := RowValues(e, r), CoveredInRow(e, r);
    forall x | 0 <= x < |vals| && NonZeroFlags(vals)[x]
      ensures flags[x]
    {
      RowValue(e, r, x);
      if !Covered(e, r, x) {
        UncoveredIsZero(e, r, x);
      }
    }
    CompressLength(vals, c);
    CountMonotone(NonZeroFlags(vals), flags, c, c);
    CountMonotone(flags, flags, c + 1, Columns(e));
  }

  /** The target of the row-major kernel: a valid row-major compressed matrix
    * of the product's shape. */
  ghost predicate RowTarget(t: CompressedTarget, e: Kron)
    reads t
  {
    WellFormed(e) && t.Valid() && t.rowMajor && t.rows == Rows(e) && t.columns == Columns(e)
  }

  /** Every row of the target has room for all its covered cells. */
  ghost predicate RowRoom(e: Kron, capacity: seq<nat>)
    requires WellFormed(e)
  {
    |capacity| == Rows(e) && forall r :: 0 <= r < Rows(e) ==> capacity[r] >= Count(CoveredInRow(e, r), Columns(e))
  }

  /** The rows of the target after the first q entries of column l of B,
    * scaled by av, have been appended at column x to rows lo + k (an entry
    * whose row lies past the last line is skipped). */
  function ScaledRows(lines: seq<seq<Entry>>, lo: nat, col: seq<Entry>, x: nat, av: int, q: nat): (after: seq<seq<Entry>>)
    requires q <= |col|
    ensures |after| == |lines|
  {
    if q == 0 then lines
    else
      var prev := ScaledRows(lines, lo, col, x, av, q - 1);
      var row := lo + col[q - 1].index;
      if row < |prev| then prev[row := Appended(prev[row], x, av * col[q - 1].value)] else prev
  }

  /** Row r after q steps: appended to once if column l of B stores an entry in
    * row r - lo among its first q entries, untouched otherwise. */
  lemma {:induction false} ScaledRowsAt(lines: seq<seq<Entry>>, lo: nat, col: seq<Entry>, m: nat, x: nat, av: int, q: nat, r: nat)
    requires ValidLine(col, m) && q <= |col| && lo + m <= |lines| && r < |lines|
    ensures ScaledRows(lines, lo, col, x, av, q)[r] ==
      if lo <= r < lo + m && Contains(col[..q], r - lo)
      then Appended(lines[r], x, av * Lookup(col, r - lo))
      else lines[r]
  {
    if q > 0 {
      ScaledRowsAt(lines, lo, col, m, x, av, q - 1, r);
      if lo <= r < lo + m {
        ContainsExtend(col, q - 1, r - lo);
        if col[q - 1].index == r - lo {
          NotInPrefix(col, m, q - 1);
          LookupFound(col, m, q - 1);
        }
      }
    }
  }

  /** The row that step q appends to has not been touched before it. */
  lemma {:induction false} ScaledRowsNext(lines: seq<seq<Entry>>, lo: nat, col: seq<Entry>, m: nat, x: nat, av: int, q: nat)
    requires ValidLine(col, m) && q < |col| && lo + m <= |lines|
    ensures lo + col[q].index < |lines|
    ensures ScaledRows(lines, lo, col, x, av, q)[lo + col[q].index] == lines[lo + col[q].index]
  {
    NotInPrefix(col, m, q);
    ScaledRowsAt(lines, lo, col, m, x, av, q, lo + col[q].index);
  }

  /** All rows once every entry of column l of B has been appended. */
  lemma {:induction false} ScaledRowsAll(lines: seq<seq<Entry>>, lo: nat, col: seq<Entry>, m: nat, x: nat, av: int)
    requires ValidLine(col, m) && lo + m <= |lines|
    ensures forall r :: 0 <= r < |lines| ==>
      ScaledRows(lines, lo, col, x, av, |col|)[r] ==
        if lo <= r < lo + m && Contains(col, r - lo)
        then Appended(lines[r], x, av * Lookup(col, r - lo))
        else lines[r]
  {
    assert col[..|col|] == col;
    forall r | 0 <= r < |lines|
      ensures ScaledRows(lines, lo, col, x, av, |col|)[r] ==
        if lo <= r < lo + m && Contains(col, r - lo)
        then Appended(lines[r], x, av * Lookup(col, r - lo))
        else lines[r]
    {
      ScaledRowsAt(lines, lo, col, m, x, av, |col|, r);
    }
  }

  /** A line that can take one more entry at index x: it has room left and
    * every stored index lies below x. */
  ghost predicate OpenBelow(line: seq<Entry>, room: nat, x: nat) {
    |line| < room && (line != [] ==> line[|line| - 1].index < x)
  }

  /** Step q of the innermost loop appends to a row no earlier step touched,
    * which is therefore still open below x. */
  lemma {:induction false} ScaledRowsStep(lines: seq<seq<Entry>>, capacity: seq<nat>, lo: nat, col: seq<Entry>, m: nat, x: nat, av: int, q: nat)
    requires ValidLine(col, m) && q < |col| && lo + m <= |lines|
    requires forall p :: 0 <= p < |col| ==>
      lo + col[p].index < |capacity| && OpenBelow(lines[lo + col[p].index], capacity[lo + col[p].index], x)
    ensures var row, prev := lo + col[q].index, ScaledRows(lines, lo, col, x, av, q);
      row < |lines| && row < |capacity| && OpenBelow(prev[row], capacity[row], x) &&
      ScaledRows(lines, lo, col, x, av, q + 1) == prev[row := Appended(prev[row], x, av * col[q].value)]
  {
    ScaledRowsNext(lines, lo, col, m, x, av, q);
  }

  /** The innermost loop of the row-major kernel: the entries of column l of
    * B, scaled by av, are appended at column x to rows lo + k of the target.
    * Every other row keeps its entries. */
  method AppendScaledRows(t: CompressedTarget, lo: nat, col: seq<Entry>, m: nat, av: int, x: nat)
    requires t.Valid() && t.rowMajor && x < t.columns && lo + m <= t.rows && ValidLine(col, m)
    requires forall q :: 0 <= q < |col| ==>
      lo + col[q].index < |t.capacity| && OpenBelow(t.lines[lo + col[q].index], t.capacity[lo + col[q].index], x)
    modifies t
    ensures t.Valid() && t.capacity == old(t.capacity)
    ensures t.lines == ScaledRows(old(t.lines), lo, col, x, av, |col|)
  {
    var q := 0;
    while q < |col|
      invariant q <= |col| && t.Valid() && t.capacity == old(t.capacity)
      invariant t.lines == ScaledRows(old(t.lines), lo, col, x, av, q)
    {
      ScaledRowsStep(old(t.lines), old(t.capacity), lo, col, m, x, av, q);
      t.Append(lo + col[q].index, x, av * col[q].value, true);
      q := q + 1;
    }
  }

  /** One column step of a row in block row r / M: entry (r / M, a) of A with
    * value av extends row r's compressed prefix by column a * N + l exactly as
    * the kernel's append does. */
  lemma {:induction false} RowStep(e: Kron, i: nat, lo: nat, r: nat, a: nat, av: int, l: nat)
    requires WellFormed(e) && i < e.lhs.m.rows && lo == i * M(e) && lo <= r < lo + M(e)
    requires a < e.lhs.m.columns && l < N(e) && av == Lookup(ARow(e, i), a)
    ensures r < Rows(e) && a * N(e) + l < Columns(e)
    ensures var x := a * N(e) + l;
      Compress(RowValues(e, r), x + 1)
      == if Contains(BCol(e, l), r - lo)
         then Appended(Compress(RowValues(e, r), x), x, av * Lookup(BCol(e, l), r - lo))
         else Compress(RowValues(e, r), x)
  {
    var k, x := r - lo, a * N(e) + l;
    var col := BCol(e, l);
    ElementBlocks(e, i, a, k, l, r, x);
    assert Get(e.lhs.m, i, a) == av && Get(e.rhs.m, k, l) == Lookup(col, k);
    RowValue(e, r, x);
    if !Contains(col, k) {
      LookupAbsent(col, k);
    }
    CompressNext(RowValues(e, r), x, Contains(col, k), av * Lookup(col, k));
  }

  /** Between the stored entries p - 1 and p of row r / M of A (or before the
    * first, or after the last) lie only uncovered columns: the compressed
    * prefix of row r does not change across them. */
  lemma {:induction false} RowGap(e: Kron, r: nat, p: nat)
    requires WellFormed(e) && r < Rows(e) && p <= |RowOfA(e, r)|
    ensures var row := RowOfA(e, r);
      var lo := if p == 0 then 0 else (row[p - 1].index + 1) * N(e);
      var hi := if p < |row| then row[p].index * N(e) else Columns(e);
      lo <= hi <= Columns(e) && Compress(RowValues(e, r), hi) == Compress(RowValues(e, r), lo)
  {
    BlockBound(r, e.lhs.m.rows, M(e));
    ARowValid(e, r / M(e));
    var row, n, cols := RowOfA(e, r), N(e), e.lhs.m.columns;
    var loBlock := if p == 0 then 0 else row[p - 1].index + 1;
    var hiBlock := if p < |row| then row[p].index else cols;
    MulMonotone(loBlock, hiBlock, n);
    MulMonotone(hiBlock, cols, n);
    var lo, hi := loBlock * n, if p < |row| then hiBlock * n else Columns(e);
    forall c | lo <= c < hi
      ensures RowValues(e, r)[c] == 0
    {
      BlockBound(c, cols, n);
      DivBetween(c, loBlock, hiBlock, n);
      NotInGap(row, cols, p, c / n);
      UncoveredIsZero(e, r, c);
      RowValue(e, r, c);
    }
    CompressZeros(RowValues(e, r), lo, hi);
  }

  /** Rows lo .. lo + M - 1 (block row lo / M) hold their compressed
    * prefixes up to column x. */
  ghost predicate RowsAt(e: Kron, lines: seq<seq<Entry>>, lo: nat, x: nat)
    requires WellFormed(e)
  {
    |lines| == Rows(e) && lo + M(e) <= Rows(e) && x <= Columns(e) &&
    forall r :: lo <= r < lo + M(e) ==> lines[r] == Compress(RowValues(e, r), x)
  }

  /** Outside lines lo .. hi - 1 nothing has changed. */
  ghost predicate SameOutside(lines: seq<seq<Entry>>, before: seq<seq<Entry>>, lo: nat, hi: nat) {
    |lines| == |before| && forall r :: 0 <= r < |lines| && !(lo <= r < hi) ==> lines[r] == before[r]
  }

  lemma {:induction false} SameOutsideTrans(lines: seq<seq<Entry>>, mid: seq<seq<Entry>>, before: seq<seq<Entry>>, lo: nat, hi: nat)
    requires SameOutside(lines, mid, lo, hi) && SameOutside(mid, before, lo, hi)
    ensures SameOutside(lines, before, lo, hi)
  {
  }

  /** Before column x = a * N + l is appended, every row of block row i that
    * receives an entry there has a compressed prefix ending below x and room
    * left for one more entry. */
  lemma {:induction false} ColumnRoom(e: Kron, lines: seq<seq<Entry>>, capacity: seq<nat>, i: nat, lo: nat, a: nat, l: nat, x: nat)
    requires WellFormed(e) && RowRoom(e, capacity)
    requires i < e.lhs.m.rows && lo == i * M(e) && a < e.lhs.m.columns && l < N(e)
    requires x == a * N(e) + l && x < Columns(e) && Contains(ARow(e, i), a)
    requires RowsAt(e, lines, lo, x)
    ensures forall q :: 0 <= q < |BCol(e, l)| ==>
      lo + BCol(e, l)[q].index < |capacity| && OpenBelow(lines[lo + BCol(e, l)[q].index], capacity[lo + BCol(e, l)[q].index], x)
  {
    var col := BCol(e, l);
    BColValid(e, l);
    Split(x, a, l, N(e));
    forall q | 0 <= q < |col|
      ensures OpenBelow(lines[lo + col[q].index], capacity[lo + col[q].index], x)
    {
      var k := col[q].index;
      Split(lo + k, i, k, M(e));
      CompressValid(RowValues(e, lo + k), x);
      assert Covered(e, lo + k, x);
      RoomInRow(e, lo + k, x);
      assert capacity[lo + k] >= Count(CoveredInRow(e, lo + k), Columns(e));
    }
  }

  /** Row r of block row i after column x = a * N + l is appended. */
  lemma {:induction false} RowAdvance(e: Kron, before: seq<Entry>, after: seq<Entry>, i: nat, lo: nat, r: nat, a: nat, av: int, l: nat)
    requires WellFormed(e) && i < e.lhs.m.rows && lo == i * M(e) && lo <= r < lo + M(e)
    requires a < e.lhs.m.columns && l < N(e) && av == Lookup(ARow(e, i), a)
    requires a * N(e) + l < Columns(e) && r < Rows(e)
    requires before == Compress(RowValues(e, r), a * N(e) + l)
    requires after == if Contains(BCol(e, l), r - lo)
                      then Appended(before, a * N(e) + l, av * Lookup(BCol(e, l), r - lo))
                      else before
    ensures after == Compress(RowValues(e, r), a * N(e) + l + 1)
  {
    RowStep(e, i, lo, r, a, av, l);
  }

  /** After column x = a * N + l is appended, every row of block row i holds
    * its compressed prefix up to x + 1, and no other row has changed. */
  lemma {:induction false} ColumnAdvance(e: Kron, before: seq<seq<Entry>>, after: seq<seq<Entry>>, i: nat, lo: nat, a: nat, av: int, l: nat, x: nat)
    requires WellFormed(e) && i < e.lhs.m.rows && lo == i * M(e) && a < e.lhs.m.columns && l < N(e)
    requires x == a * N(e) + l && x < Columns(e) && av == Lookup(ARow(e, i), a)
    requires RowsAt(e, before, lo, x)
    requires after == ScaledRows(before, lo, BCol(e, l), x, av, |BCol(e, l)|)
    ensures RowsAt(e, after, lo, x + 1)
    ensures SameOutside(after, before, lo, lo + M(e))
  {
    var col := BCol(e, l);
    BColValid(e, l);
    ScaledRowsAll(before, lo, col, M(e), x, av);
    forall r | lo <= r < lo + M(e)
      ensures after[r] == Compress(RowValues(e, r), x + 1)
    {
      RowAdvance(e, before[r], after[r], i, lo, r, a, av, l);
    }
  }

  /** One pass of the loop over the columns of B: column l of B, scaled by
    * entry (i, a) of A with value av, moves block row i's prefixes from
    * column x = a * N + l to x + 1. */
  method RowMajorColumn(t: CompressedTarget, e: Kron, i: nat, lo: nat, a: nat, av: int, l: nat, x: nat)
    requires RowTarget(t, e) && RowRoom(e, t.capacity)
    requires i < e.lhs.m.rows && lo == i * M(e) && a < e.lhs.m.columns && l < N(e)
    requires x == a * N(e) + l && x < Columns(e)
    requires Contains(ARow(e, i), a) && av == Lookup(ARow(e, i), a)
    requires RowsAt(e, t.lines, lo, x)
    modifies t
    ensures RowTarget(t, e) && t.capacity == old(t.capacity)
    ensures RowsAt(e, t.lines, lo, x + 1)
    ensures SameOutside(t.lines, old(t.lines), lo, lo + M(e))
  {
    BColValid(e, l);
    ColumnRoom(e, t.lines, t.capacity, i, lo, a, l, x);
    AppendScaledRows(t, lo, BCol(e, l), M(e), av, x);
    ColumnAdvance(e, old(t.lines), t.lines, i, lo, a, av, l, x);
  }

  /** The loop over the columns of B for entry (i, a) of A with value av: every
    * row of block row i moves its compressed prefix from a * N to a * N + N. */
  method RowMajorBlock(t: CompressedTarget, e: Kron, i: nat, lo: nat, a: nat, av: int)
    requires RowTarget(t, e) && RowRoom(e, t.capacity)
    requires i < e.lhs.m.rows && lo == i * M(e) && a < e.lhs.m.columns
    requires Contains(ARow(e, i), a) && av == Lookup(ARow(e, i), a)
    requires RowsAt(e, t.lines, lo, a * N(e))
    modifies t
    ensures RowTarget(t, e) && t.capacity == old(t.capacity)
    ensures RowsAt(e, t.lines, lo, (a + 1) * N(e))
    ensures SameOutside(t.lines, old(t.lines), lo, lo + M(e))
  {
    var n := N(e);
    BlockPrefixBound(a, n, e.lhs.m.columns, n);
    MulSucc(a, n);
    var start := a * n;
    ghost var lines0, stop := t.lines, (a + 1) * n;
    var l, x := 0, start;
    while l < n
      invariant l <= n && x == start + l && stop == start + n
      invariant RowTarget(t, e) && t.capacity == old(t.capacity)
      invariant RowsAt(e, t.lines, lo, x)
      invariant SameOutside(t.lines, lines0, lo, lo + M(e))
    {
      ghost var before := t.lines;
      RowMajorColumn(t, e, i, lo, a, av, l, x);
      SameOutsideTrans(t.lines, before, lines0, lo, lo + M(e));
      l, x := l + 1, x + 1;
    }
  }

  /** Across the gap before stored entry p of row i of A (or after the last one)
    * every row of block row i keeps its compressed prefix. */
  lemma {:induction false} BlockRowGap(e: Kron, lines: seq<seq<Entry>>, i: nat, lo: nat, p: nat, front: nat)
    requires WellFormed(e) && i < e.lhs.m.rows && lo == i * M(e) && p <= |ARow(e, i)|
    requires front == if p == 0 then 0 else (ARow(e, i)[p - 1].index + 1) * N(e)
    requires RowsAt(e, lines, lo, front)
    ensures var hi := if p < |ARow(e, i)| then ARow(e, i)[p].index * N(e) else Columns(e);
      front <= hi && RowsAt(e, lines, lo, hi)
  {
    var row := ARow(e, i);
    ARowValid(e, i);
    var hi := if p < |row| then row[p].index * N(e) else Columns(e);
    if p < |row| {
      MulMonotone(row[p].index, e.lhs.m.columns, N(e));
      if p > 0 {
        MulMonotone(row[p - 1].index + 1, row[p].index, N(e));
      }
    } else if p > 0 {
      MulMonotone(row[p - 1].index + 1, e.lhs.m.columns, N(e));
    }
    forall r | lo <= r < lo + M(e)
      ensures lines[r] == Compress(RowValues(e, r), hi)
    {
      Split(r, i, r - lo, M(e));
      assert RowOfA(e, r) == row;
      RowGap(e, r, p);
    }
  }

  /** The loop over the stored entries of row i of A: every row of block row i,
    * empty before, ends holding the compressed product row. */
  method RowMajorBlockRow(t: CompressedTarget, e: Kron, i: nat, lo: nat)
    requires RowTarget(t, e) && RowRoom(e, t.capacity)
    requires i < e.lhs.m.rows && lo == i * M(e) && RowsAt(e, t.lines, lo, 0)
    modifies t
    ensures RowTarget(t, e) && t.capacity == old(t.capacity)
    ensures RowsAt(e, t.lines, lo, Columns(e))
    ensures SameOutside(t.lines, old(t.lines), lo, lo + M(e))
  {
    var m, n := M(e), N(e);
    var row := ARow(e, i);
    ARowValid(e, i);
    var p := 0;
    ghost var front: nat := 0;
    while p < |row|
      invariant p <= |row| && RowTarget(t, e) && RowRoom(e, t.capacity) && t.capacity == old(t.capacity)
      invariant front == if p == 0 then 0 else (row[p - 1].index + 1) * n
      invariant RowsAt(e, t.lines, lo, front)
      invariant SameOutside(t.lines, old(t.lines), lo, lo + m)
    {
      var a := row[p].index;
      BlockRowGap(e, t.lines, i, lo, p, front);
      LookupFound(row, e.lhs.m.columns, p);
      RowMajorBlock(t, e, i, lo, a, row[p].value);
      MulMonotone(0, a + 1, n);
      front := (a + 1) * n;
      p := p + 1;
    }
    BlockRowGap(e, t.lines, i, lo, p, front);
  }

  /** The room the row-major kernel reserves for row r of the product:
    * A.nonZeros(r / M) times the count of B's entries in row r % M. */
  function RowReserve(e: Kron, r: nat): nat
    requires WellFormed(e) && r < Rows(e)
  {
    BlockBound(r, e.lhs.m.rows, M(e));
    |RowOfA(e, r)| * BRowCount(e, r % M(e))
  }

  /** `reserve` never shrinks: the capacity becomes the larger of the two. */
  function Grown(capacity: nat, n: nat): nat {
    if n > capacity then n else capacity
  }

  /** Row i * M + j reserves A.nonZeros(i) times the entries of B in row j. */
  lemma {:induction false} RowReserveAt(e: Kron, i: nat, j: nat, r: nat)
    requires WellFormed(e) && i < e.lhs.m.rows && j < M(e) && r == i * M(e) + j
    ensures r < Rows(e) && RowReserve(e, r) == |ARow(e, i)| * BRowCount(e, j)
  {
    ComposeBound(i, j, e.lhs.m.rows, M(e));
    Split(r, i, j, M(e));
  }

  /** The inner reserve loop: the rows of block row i get their room. */
  method ReserveBlockRow(t: CompressedTarget, e: Kron, i: nat, lo: nat, nonzeros: seq<nat>)
    requires RowTarget(t, e) && i < e.lhs.m.rows && lo == i * M(e) && lo + M(e) <= Rows(e)
    requires |nonzeros| == M(e) && forall k :: 0 <= k < M(e) ==> nonzeros[k] == BRowCount(e, k)
    modifies t
    ensures RowTarget(t, e) && t.lines == old(t.lines)
    ensures forall r :: 0 <= r < Rows(e) ==>
      t.capacity[r] == if lo <= r < lo + M(e) then Grown(old(t.capacity[r]), RowReserve(e, r)) else old(t.capacity[r])
  {
    var m := M(e);
    var j := 0;
    while j < m
      invariant j <= m && RowTarget(t, e) && t.lines == old(t.lines)
      invariant forall r :: 0 <= r < Rows(e) ==>
        t.capacity[r] == if lo <= r < lo + j then Grown(old(t.capacity[r]), RowReserve(e, r)) else old(t.capacity[r])
    {
      RowReserveAt(e, i, j, lo + j);
      t.Reserve(lo + j, |ARow(e, i)| * nonzeros[j]);
      j := j + 1;
    }
  }

  /** The reserve pass of the row-major kernel: row i * M + j gets room for
    * A.nonZeros(i) times the count of B's entries in row j. */
  method ReserveRows(t: CompressedTarget, e: Kron, nonzeros: seq<nat>)
    requires RowTarget(t, e)
    requires |nonzeros| == M(e) && forall k :: 0 <= k < M(e) ==> nonzeros[k] == BRowCount(e, k)
    modifies t
    ensures RowTarget(t, e) && t.lines == old(t.lines)
    ensures forall r :: 0 <= r < Rows(e) ==> t.capacity[r] == Grown(old(t.capacity[r]), RowReserve(e, r))
  {
    var m := M(e);
    var i, lo := 0, 0;
    while i < e.lhs.m.rows
      invariant i <= e.lhs.m.rows && lo == i * m && lo <= Rows(e)
      invariant RowTarget(t, e) && t.lines == old(t.lines)
      invariant forall r :: 0 <= r < Rows(e) ==>
        t.capacity[r] == if r < lo then Grown(old(t.capacity[r]), RowReserve(e, r)) else old(t.capacity[r])
    {
      BlockPrefixBound(i, m, e.lhs.m.rows, m);
      ReserveBlockRow(t, e, i, lo, nonzeros);
      MulSucc(i, m);
      i, lo := i + 1, lo + m;
    }
  }

  /** The room the reserve pass leaves is enough for every covered cell. */
  lemma {:induction false} ReservedRoom(e: Kron, before: seq<nat>, capacity: seq<nat>)
    requires WellFormed(e) && |before| == |capacity| == Rows(e)
    requires forall r :: 0 <= r < Rows(e) ==> capacity[r] == Grown(before[r], RowReserve(e, r))
    ensures RowRoom(e, capacity)
  {
    forall r | 0 <= r < Rows(e)
      ensures capacity[r] >= Count(CoveredInRow(e, r), Columns(e))
    {
      CoveredInRowCount(e, r);
    }
  }

  /** The rows below f hold the compressed product rows; the others are empty. */
  ghost predicate FilledBelow(e: Kron, lines: seq<seq<Entry>>, f: nat)
    requires WellFormed(e)
  {
    |lines| == Rows(e) && f <= Rows(e) &&
    (forall r :: 0 <= r < f ==> lines[r] == Compress(RowValues(e, r), Columns(e))) &&
    forall r :: f <= r < Rows(e) ==> lines[r] == []
  }

  /** The empty rows of the next block row hold their (empty) prefixes up to column 0. */
  lemma {:induction false} BlockRowStart(e: Kron, lines: seq<seq<Entry>>, lo: nat)
    requires WellFormed(e) && FilledBelow(e, lines, lo) && lo + M(e) <= Rows(e)
    ensures RowsAt(e, lines, lo, 0)
  {
    forall r | lo <= r < lo + M(e)
      ensures lines[r] == Compress(RowValues(e, r), 0)
    {
    }
  }

  /** Filling block row lo / M moves the filled bound past it. */
  lemma {:induction false} BlockRowDone(e: Kron, before: seq<seq<Entry>>, after: seq<seq<Entry>>, lo: nat)
    requires WellFormed(e) && FilledBelow(e, before, lo)
    requires RowsAt(e, after, lo, Columns(e)) && SameOutside(after, before, lo, lo + M(e))
    ensures FilledBelow(e, after, lo + M(e))
  {
  }

  /** The append pass of the row-major kernel, block row by block row. */
  method FillRows(t: CompressedTarget, e: Kron)
    requires RowTarget(t, e) && RowRoom(e, t.capacity) && FilledBelow(e, t.lines, 0)
    modifies t
    ensures RowTarget(t, e) && t.capacity == old(t.capacity)
    ensures FilledBelow(e, t.lines, Rows(e))
  {
    var m := M(e);
    var i, lo := 0, 0;
    while i < e.lhs.m.rows
      invariant i <= e.lhs.m.rows && lo == i * m
      invariant RowTarget(t, e) && RowRoom(e, t.capacity) && t.capacity == old(t.capacity)
      invariant FilledBelow(e, t.lines, lo)
    {
      BlockPrefixBound(i, m, e.lhs.m.rows, m);
      BlockRowStart(e, t.lines, lo);
      ghost var before := t.lines;
      RowMajorBlockRow(t, e, i, lo);
      BlockRowDone(e, before, t.lines, lo);
      MulSucc(i, m);
      i, lo := i + 1, lo + m;
    }
    assert lo == Rows(e);
  }

  /** `assign` into an empty row-major compressed matrix: every row of the
    * target ends holding exactly the nonzero elements of the product's row, in
    * ascending column order, so the target reads back the product everywhere. */
  method AssignRowMajor(t: CompressedTarget, e: Kron)
    requires RowTarget(t, e)
    requires forall r :: 0 <= r < |t.lines| ==> t.lines[r] == []
    modifies t
    ensures RowTarget(t, e)
    ensures forall r :: 0 <= r < Rows(e) ==> t.lines[r] == Compress(RowValues(e, r), Columns(e))
    ensures forall r, c :: 0 <= r < Rows(e) && 0 <= c < Columns(e) ==>
      (Contains(t.lines[r], c) <==> Element(e, r, c) != 0) && Lookup(t.lines[r], c) == Element(e, r, c)
  {
    if Rows(e) == 0 || Columns(e) == 0 {
      return;
    }
    var nonzeros := CountRowsOfB(e);
    ghost var before := t.capacity;
    ReserveRows(t, e, nonzeros);
    ReservedRoom(e, before, t.capacity);
    assert FilledBelow(e, t.lines, 0);
    FillRows(t, e);
    forall r, c | 0 <= r < Rows(e) && 0 <= c < Columns(e)
      ensures (Contains(t.lines[r], c) <==> Element(e, r, c) != 0) && Lookup(t.lines[r], c) == Element(e, r, c)
    {
      CompressLookup(RowValues(e, r), Columns(e), c);
      RowValue(e, r, c);
    }
  }
}
