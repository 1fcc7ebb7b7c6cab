/** The sparse-target kernel of the Kronecker expression for a column-major
  * compressed target. It counts the stored entries per column of A, reserves
  * room in every target column, then appends the products in the same loop
  * order as the row-major kernel: each target column receives its entries in
  * ascending row order, block row by block row. */
module KronColumnMajor {
  import opened SparseLines
  import opened Matrices
  import opened IndexMath
  import opened KronExpr
  import opened KronDense
  import opened CompressedTargets
  import opened KronSparse

  /** The first n elements of column c of the product, as a dense line. */
  function ColPrefix(e: Kron, c: nat, n: nat): (vals: seq<int>)
    requires WellFormed(e) && c < Columns(e) && n <= Rows(e)
    ensures |vals| == n
  {
    if n == 0 then [] else ColPrefix(e, c, n - 1) + [Element(e, n - 1, c)]
  }

  /** Column c of the product, as a dense line. */
  function ColValues(e: Kron, c: nat): (vals: seq<int>)
    requires WellFormed(e) && c < Columns(e)
    ensures |vals| == Rows(e)
  {
    ColPrefix(e, c, Rows(e))
  }

  lemma {:induction false} ColPrefixAt(e: Kron, c: nat, n: nat, r: nat)
    requires WellFormed(e) && c < Columns(e) && r < n <= Rows(e)
    ensures ColPrefix(e, c, n)[r] == Element(e, r, c)
  {
    if r < n - 1 {
      ColPrefixAt(e, c, n - 1, r);
    }
  }

  /** The dense column holds the product's elements. */
  lemma {:induction false} ColValue(e: Kron, r: nat, c: nat)
    requires WellFormed(e) && r < Rows(e) && c < Columns(e)
    ensures ColValues(e, c)[r] == Element(e, r, c)
  {
    ColPrefixAt(e, c, Rows(e), r);
  }

  /** Which cells of column c of the product pair two stored entries. */
  function CoveredInColumn(e: Kron, c: nat): (flags: seq<bool>)
    requires WellFormed(e) && c < Columns(e)
    ensures |flags| == Rows(e) && forall r :: 0 <= r < Rows(e) ==> (flags[r] <==> Covered(e, r, c))
  {
    seq(Rows(e), (r: int) requires 0 <= r < Rows(e) => Covered(e, r, c))
  }

  /** The number of entries A stores in column c / N, the column of A that
    * product column c draws on. */
  function ColumnCountOfA(e: Kron, c: nat): nat
    requires WellFormed(e) && c < Columns(e)
  {
    BlockBound(c, e.lhs.m.columns, N(e));
    AColCount(e, c / N(e))
  }

  /** Column c % N of B: the column of B that product column c draws on. */
  function ColumnOfB(e: Kron, c: nat): seq<Entry>
    requires WellFormed(e) && c < Columns(e)
  {
    BlockBound(c, e.lhs.m.columns, N(e));
    BCol(e, c % N(e))
  }

  /** Within block row i, the covered cells of column c up to offset k are the
    * rows of B below k that column c % N of B stores, when A stores
    * (i, c / N), and none otherwise. */
  lemma {:induction false} CoveredColumnBlock(e: Kron, c: nat, i: nat, k: nat)
    requires WellFormed(e) && c < Columns(e) && i < e.lhs.m.rows && k <= M(e)
    ensures i * M(e) + k <= Rows(e)
    ensures Count(CoveredInColumn(e, c), i * M(e) + k)
        == Count(CoveredInColumn(e, c), i * M(e))
           + if Contains(ARow(e, i), c / N(e)) then Count(StoredFlags(ColumnOfB(e, c), M(e)), k) else 0
  {
    BlockBound(c, e.lhs.m.columns, N(e));
    BlockPrefixBound(i, k, e.lhs.m.rows, M(e));
    if k > 0 {
      CoveredColumnBlock(e, c, i, k - 1);
      Split(i * M(e) + (k - 1), i, k - 1, M(e));
    }
  }

  /** One more block adds bc covered cells exactly when it adds one stored
    * entry of A. */
  lemma {:induction false} CountsCombine(prev: nat, next: nat, flagsPrev: nat, flagsNext: nat, bc: nat, present: bool)
    requires prev == flagsPrev * bc && next == prev + (if present then bc else 0)
    requires flagsNext == flagsPrev + (if present then 1 else 0)
    ensures next == flagsNext * bc
  {
    ScaleStep(flagsPrev, bc, present);
  }

  /** Over the first i block rows, column c covers (entries of column c / N of
    * A above i) times (entries of column c % N of B) cells. */
  lemma {:induction false} CoveredColumnBlocks(e: Kron, c: nat, i: nat, lo: nat, a: nat, bc: nat)
    requires WellFormed(e) && c < Columns(e) && i <= e.lhs.m.rows && lo == i * M(e)
    requires a == c / N(e) && bc == Count(StoredFlags(ColumnOfB(e, c), M(e)), M(e))
    ensures lo <= Rows(e)
    ensures Count(CoveredInColumn(e, c), lo) == Count(AColFlags(e, a), i) * bc
  {
    MulMonotone(i, e.lhs.m.rows, M(e));
    if i > 0 {
      var m := M(e);
      var prev := lo - m;
      MulSucc(i - 1, m);
      CoveredColumnBlocks(e, c, i - 1, prev, a, bc);
      CoveredColumnBlock(e, c, i - 1, m);
      var present := Contains(ARow(e, i - 1), a);
      assert Count(AColFlags(e, a), i) == Count(AColFlags(e, a), i - 1) + if present then 1 else 0;
      CountsCombine(Count(CoveredInColumn(e, c), prev), Count(CoveredInColumn(e, c), lo),
                    Count(AColFlags(e, a), i - 1), Count(AColFlags(e, a), i), bc, present);
    }
  }

  /** Column c of the product covers exactly (entries of A in column c / N)
    * times B.nonZeros(c % N) cells: the room the column-major kernel reserves
    * for it. */
  lemma {:induction false} CoveredInColumnCount(e: Kron, c: nat)
    requires WellFormed(e) && c < Columns(e)
    ensures Count(CoveredInColumn(e, c), Rows(e)) == ColumnCountOfA(e, c) * |ColumnOfB(e, c)|
  {
    BlockBound(c, e.lhs.m.columns, N(e));
    BColValid(e, c % N(e));
    CoveredColumnBlocks(e, c, e.lhs.m.rows, Rows(e), c / N(e), Count(StoredFlags(ColumnOfB(e, c), M(e)), M(e)));
    CountStored(ColumnOfB(e, c), M(e));
  }

  /** Before a covered cell (r, c) is appended, column c holds fewer entries
    * than it has covered cells. */
  lemma {:induction false} RoomInColumn(e: Kron, r: nat, c: nat)
    requires WellFormed(e) && r < Rows(e) && c < Columns(e) && Covered(e, r, c)
    ensures |Compress(ColValues(e, c), r)| < Count(CoveredInColumn(e, c), Rows(e))
  {
    var vals, flags := ColValues(e, c), CoveredInColumn(e, c);
    forall x | 0 <= x < |vals| && NonZeroFlags(vals)[x]
      ensures flags[x]
    {
      ColValue(e, x, c);
      if !Covered(e, x, c) {
        UncoveredIsZero(e, x, c);
      }
    }
    CompressLength(vals, r);
    CountMonotone(NonZeroFlags(vals), flags, r, r);
    CountMonotone(flags, flags, r + 1, Rows(e));
  }

  /** The target of the column-major kernel: a valid column-major compressed
    * matrix of the product's shape. */
  ghost predicate ColTarget(t: CompressedTarget, e: Kron)
    reads t
  {
    WellFormed(e) && t.Valid() && !t.rowMajor && t.rows == Rows(e) && t.columns == Columns(e)
  }

  /** Every column of the target has room for all its covered cells. */
  ghost predicate ColRoom(e: Kron, capacity: seq<nat>)
    requires WellFormed(e)
  {
    |capacity| == Columns(e) && forall c :: 0 <= c < Columns(e) ==> capacity[c] >= Count(CoveredInColumn(e, c), Rows(e))
  }

  /** Rows lo .. lo + m - 1 of the dense column vals hold the sparse column
    * col scaled by av, and the column has room for every stored entry. */
  ghost predicate ScaledColumnFits(vals: seq<int>, lo: nat, col: seq<Entry>, m: nat, av: int, room: nat) {
    ValidLine(col, m) && lo + m <= |vals| &&
    (forall q :: 0 <= q < |col| ==> vals[lo + col[q].index] == av * col[q].value) &&
    (forall k :: 0 <= k < m && !Contains(col, k) ==> vals[lo + k] == 0) &&
    (forall q :: 0 <= q < |col| ==> |Compress(vals, lo + col[q].index)| < room)
  }

  /** Target column x after the first q entries of column col, scaled by av,
    * have been appended at rows lo + k. */
  function ScaledColumn(line: seq<Entry>, lo: nat, col: seq<Entry>, av: int, q: nat): seq<Entry>
    requires q <= |col|
  {
    if q == 0 then line
    else Appended(ScaledColumn(line, lo, col, av, q - 1), lo + col[q - 1].index, av * col[q - 1].value)
  }

  /** The row just past stored entry q - 1 of col, shifted by lo. */
  function Front(lo: nat, col: seq<Entry>, q: nat): nat
    requires q <= |col|
  {
    lo + if q == 0 then 0 else col[q - 1].index + 1
  }

  /** The innermost loop of the column-major kernel: the entries of column l
    * of B, scaled by av, are appended to target column x at rows lo + k. When
    * the dense column vals holds exactly that scaled column between lo and
    * lo + m, column x moves its compressed prefix from row lo to row lo + m and
    * no other column changes. */
  method AppendScaledColumn(t: CompressedTarget, x: nat, lo: nat, col: seq<Entry>, m: nat, av: int, ghost vals: seq<int>)
    requires t.Valid() && !t.rowMajor && x < t.columns && lo + m <= t.rows == |vals|
    requires ScaledColumnFits(vals, lo, col, m, av, t.capacity[x])
    requires t.lines[x] == Compress(vals, lo)
    modifies t
    ensures t.Valid() && t.capacity == old(t.capacity)
    ensures t.lines == old(t.lines)[x := Compress(vals, lo + m)]
  {
    ghost var lines0, start := t.lines, t.lines[x];
    var q := 0;
    while q < |col|
      invariant q <= |col| && t.Valid() && t.capacity == old(t.capacity)
      invariant t.lines == lines0[x := ScaledColumn(start, lo, col, av, q)]
    {
      var row := lo + col[q].index;
      ScaledColumnOpen(vals, lo, col, m, av, t.capacity[x], q);
      ghost var before := t.lines;
      t.Append(row, x, av * col[q].value, true);
      UpdateTwice(lines0, before, t.lines, x, ScaledColumn(start, lo, col, av, q),
                  ScaledColumn(start, lo, col, av, q + 1));
      q := q + 1;
    }
    ScaledColumnDone(vals, lo, col, m, av, t.capacity[x]);
  }

  /** Before step q of the innermost loop the column is open below the row
    * the step appends at. */
  lemma {:induction false} ScaledColumnOpen(vals: seq<int>, lo: nat, col: seq<Entry>, m: nat, av: int, room: nat, q: nat)
    requires ScaledColumnFits(vals, lo, col, m, av, room) && q < |col|
    ensures lo + col[q].index < |vals|
    ensures OpenBelow(ScaledColumn(Compress(vals, lo), lo, col, av, q), room, lo + col[q].index)
  {
    ScaledColumnCompress(vals, lo, col, m, av, room, q);
    ColumnStep(vals, lo, col, m, av, room, q, Front(lo, col, q));
  }

  /** After all the steps the column is compressed up to row lo + m. */
  lemma {:induction false} ScaledColumnDone(vals: seq<int>, lo: nat, col: seq<Entry>, m: nat, av: int, room: nat)
    requires ScaledColumnFits(vals, lo, col, m, av, room)
    ensures ScaledColumn(Compress(vals, lo), lo, col, av, |col|) == Compress(vals, lo + m)
  {
    ScaledColumnCompress(vals, lo, col, m, av, room, |col|);
    SparseGap(vals, lo, col, m, |col|);
  }

  /** Step q of the innermost loop: the column, compressed up to just past
    * stored entry q - 1, equals its compression up to the row of entry q, is
    * open below that row, and appending the scaled entry compresses one row
    * further. */
  lemma {:induction false} ColumnStep(vals: seq<int>, lo: nat, col: seq<Entry>, m: nat, av: int, room: nat, q: nat, front: nat)
    requires ScaledColumnFits(vals, lo, col, m, av, room) && q < |col| && front == Front(lo, col, q)
    ensures var row, line := lo + col[q].index, Compress(vals, front);
      row < |vals| && front <= row && line == Compress(vals, row) && OpenBelow(line, room, row) &&
      Compress(vals, row + 1) == Appended(line, row, av * col[q].value)
  {
    var row := lo + col[q].index;
    assert row < |vals| && front <= row && vals[row] == av * col[q].value;
    var line := Compress(vals, row);
    assert Compress(vals, front) == line by {
      SparseGap(vals, lo, col, m, q);
    }
    assert line != [] ==> line[|line| - 1].index < row by {
      CompressValid(vals, row);
    }
    CompressStep(vals, row);
  }

  /** The appends of the innermost loop keep the column equal to the dense
    * column compressed up to just past the last appended entry. */
  lemma {:induction false} ScaledColumnCompress(vals: seq<int>, lo: nat, col: seq<Entry>, m: nat, av: int, room: nat, q: nat)
    requires ScaledColumnFits(vals, lo, col, m, av, room) && q <= |col|
    ensures Front(lo, col, q) <= |vals|
    ensures ScaledColumn(Compress(vals, lo), lo, col, av, q) == Compress(vals, Front(lo, col, q))
  {
    if q > 0 {
      ScaledColumnCompress(vals, lo, col, m, av, room, q - 1);
      ColumnStep(vals, lo, col, m, av, room, q - 1, Front(lo, col, q - 1));
    }
  }

  /** Cell (r, x) = (i * M + k, a * N + l) of the product: entry (i, a) of A
    * with value av times entry (k, l) of B; covered when B stores (k, l). */
  lemma {:induction false} BlockCell(e: Kron, i: nat, a: nat, av: int, l: nat, k: nat, r: nat, x: nat)
    requires WellFormed(e) && i < e.lhs.m.rows && a < e.lhs.m.columns && l < N(e) && k < M(e)
    requires r == i * M(e) + k && x == a * N(e) + l
    requires Contains(ARow(e, i), a) && av == Lookup(ARow(e, i), a)
    ensures r < Rows(e) && x < Columns(e)
    ensures ColValues(e, x)[r] == av * Lookup(BCol(e, l), k)
    ensures Contains(BCol(e, l), k) ==> Covered(e, r, x)
  {
    ElementBlocks(e, i, a, k, l, r, x);
    ColValue(e, r, x);
    Split(r, i, k, M(e));
    Split(x, a, l, N(e));
  }

  /** Column x = a * N + l of the product across block row i (rows lo ..
    * lo + M - 1) holds column l of B scaled by av, and every stored entry of
    * that column fits the room reserved for column x. */
  lemma {:induction false} BlockColumnFacts(e: Kron, capacity: seq<nat>, i: nat, lo: nat, a: nat, av: int, l: nat, x: nat)
    requires WellFormed(e) && ColRoom(e, capacity)
    requires i < e.lhs.m.rows && a < e.lhs.m.columns && l < N(e)
    requires lo == i * M(e) && x == a * N(e) + l
    requires Contains(ARow(e, i), a) && av == Lookup(ARow(e, i), a)
    ensures x < Columns(e) && lo + M(e) <= Rows(e)
    ensures ScaledColumnFits(ColValues(e, x), lo, BCol(e, l), M(e), av, capacity[x])
  {
    var col, m := BCol(e, l), M(e);
    BColValid(e, l);
    ComposeBound(a, l, e.lhs.m.columns, N(e));
    BlockPrefixBound(i, m, e.lhs.m.rows, m);
    forall q | 0 <= q < |col|
      ensures ColValues(e, x)[lo + col[q].index] == av * col[q].value
      ensures |Compress(ColValues(e, x), lo + col[q].index)| < capacity[x]
    {
      BlockCell(e, i, a, av, l, col[q].index, lo + col[q].index, x);
      LookupFound(col, m, q);
      RoomInColumn(e, lo + col[q].index, x);
    }
    forall k | 0 <= k < m && !Contains(col, k)
      ensures ColValues(e, x)[lo + k] == 0
    {
      BlockCell(e, i, a, av, l, k, lo + k, x);
      LookupAbsent(col, k);
    }
  }

  /** Columns from .. to - 1 hold their compressed prefixes up to row f. */
  ghost predicate ColsAt(e: Kron, lines: seq<seq<Entry>>, from: nat, to: nat, f: nat)
    requires WellFormed(e)
  {
    |lines| == Columns(e) && from <= to <= Columns(e) && f <= Rows(e) &&
    forall c :: from <= c < to ==> lines[c] == Compress(ColValues(e, c), f)
  }

  /** Filling column x moves it from the columns still at row lo to those at
    * row hi. */
  lemma {:induction false} ColumnFilled(e: Kron, before: seq<seq<Entry>>, after: seq<seq<Entry>>, base: nat, x: nat, to: nat, lo: nat, hi: nat)
    requires WellFormed(e)
    requires ColsAt(e, before, base, x, hi)
    requires ColsAt(e, before, x, to, lo)
    requires x < to
    requires hi <= Rows(e)
    requires after == before[x := Compress(ColValues(e, x), hi)]
    ensures SameOutside(after, before, base, to)
    ensures SameOutside(after, before, x, x + 1)
  {
  }

  /** One pass of the loop over the columns of B: column l of B, scaled by
    * entry (i, a) of A with value av, fills column x = a * N + l of the
    * target from row lo = i * M to lo + M. */
  method ColumnMajorColumn(t: CompressedTarget, e: Kron, i: nat, lo: nat, hi: nat, a: nat, av: int, l: nat, x: nat)
    requires ColTarget(t, e) && ColRoom(e, t.capacity)
    requires i < e.lhs.m.rows && a < e.lhs.m.columns && l < N(e)
    requires lo == i * M(e) && hi == lo + M(e) && hi <= Rows(e) && x == a * N(e) + l
    requires Contains(ARow(e, i), a) && av == Lookup(ARow(e, i), a)
    requires x < Columns(e) && t.lines[x] == Compress(ColValues(e, x), lo)
    modifies t
    ensures ColTarget(t, e) && t.capacity == old(t.capacity)
    ensures t.lines == old(t.lines)[x := Compress(ColValues(e, x), hi)]
  {
    BlockColumnFacts(e, t.capacity, i, lo, a, av, l, x);
    AppendScaledColumn(t, x, lo, BCol(e, l), M(e), av, ColValues(e, x));
  }

  /** The loop over the columns of B for entry (i, a) of A with value av: the
    * columns base .. base + N - 1 of block column a move their compressed
    * prefixes from row lo = i * M to hi = lo + M; no other column changes. */
  method ColumnMajorBlock(t: CompressedTarget, e: Kron, i: nat, lo: nat, hi: nat, a: nat, base: nat, av: int)
    requires ColTarget(t, e) && ColRoom(e, t.capacity)
    requires i < e.lhs.m.rows && a < e.lhs.m.columns && lo == i * M(e) && hi == lo + M(e) && base == a * N(e)
    requires Contains(ARow(e, i), a) && av == Lookup(ARow(e, i), a)
    requires ColsAt(e, t.lines, base, base + N(e), lo)
    modifies t
    ensures ColTarget(t, e) && t.capacity == old(t.capacity)
    ensures ColsAt(e, t.lines, base, base + N(e), hi)
    ensures SameOutside(t.lines, old(t.lines), base, base + N(e))
  {
    var n := N(e);
    BlockPrefixBound(i, M(e), e.lhs.m.rows, M(e));
    var l, x := 0, base;
    while l < n
      invariant l <= n && x == base + l
      invariant ColTarget(t, e) && t.capacity == old(t.capacity)
      invariant ColsAt(e, t.lines, base, x, hi) && ColsAt(e, t.lines, x, base + n, lo)
      invariant SameOutside(t.lines, old(t.lines), base, base + n)
    {
      ghost var before := t.lines;
      ColumnMajorColumn(t, e, i, lo, hi, a, av, l, x);
      ColumnFilled(e, before, t.lines, base, x, base + n, lo, hi);
      SameOutsideTrans(t.lines, before, old(t.lines), base, base + n);
      l, x := l + 1, x + 1;
    }
  }

  /** A column whose block column row i of A does not store is zero across
    * block row i: its compressed prefix does not change there. */
  lemma {:induction false} ColumnIdle(e: Kron, i: nat, lo: nat, c: nat)
    requires WellFormed(e) && i < e.lhs.m.rows && lo == i * M(e) && c < Columns(e)
    requires !Contains(ARow(e, i), c / N(e))
    ensures lo + M(e) <= Rows(e)
    ensures Compress(ColValues(e, c), lo + M(e)) == Compress(ColValues(e, c), lo)
  {
    BlockPrefixBound(i, M(e), e.lhs.m.rows, M(e));
    forall r | lo <= r < lo + M(e)
      ensures ColValues(e, c)[r] == 0
    {
      Split(r, i, r - lo, M(e));
      UncoveredIsZero(e, r, c);
      ColValue(e, r, c);
    }
    CompressZeros(ColValues(e, c), lo, lo + M(e));
  }

  /** Across the gap before stored entry p of row i of A (or after the last
    * one) the columns need no append: they already stand at row lo + M. */
  lemma {:induction false} ColumnGap(e: Kron, lines: seq<seq<Entry>>, i: nat, lo: nat, hi: nat, p: nat, front: nat, next: nat)
    requires WellFormed(e) && i < e.lhs.m.rows && lo == i * M(e) && hi == lo + M(e) && p <= |ARow(e, i)|
    requires front == if p == 0 then 0 else (ARow(e, i)[p - 1].index + 1) * N(e)
    requires next == if p < |ARow(e, i)| then ARow(e, i)[p].index * N(e) else Columns(e)
    requires ColsAt(e, lines, 0, front, hi) && ColsAt(e, lines, front, Columns(e), lo)
    ensures ColsAt(e, lines, 0, next, hi) && ColsAt(e, lines, next, Columns(e), lo)
  {
    var row, n, cols := ARow(e, i), N(e), e.lhs.m.columns;
    ARowValid(e, i);
    var loBlock := if p == 0 then 0 else row[p - 1].index + 1;
    var hiBlock := if p < |row| then row[p].index else cols;
    MulMonotone(loBlock, hiBlock, n);
    MulMonotone(hiBlock, cols, n);
    forall c | front <= c < next
      ensures lines[c] == Compress(ColValues(e, c), hi)
    {
      DivBetween(c, loBlock, hiBlock, n);
      NotInGap(row, cols, p, c / n);
      ColumnIdle(e, i, lo, c);
    }
  }

  /** A range of columns that stand at row f includes each of its sub-ranges. */
  lemma {:induction false} ColsWithin(e: Kron, lines: seq<seq<Entry>>, from: nat, to: nat, from': nat, to': nat, f: nat)
    requires WellFormed(e) && ColsAt(e, lines, from, to, f) && from <= from' <= to' <= to
    ensures ColsAt(e, lines, from', to', f)
  {
  }

  /** Filling block column a joins it to the columns that stand at row hi. */
  lemma {:induction false} BlockColumnJoined(e: Kron, before: seq<seq<Entry>>, after: seq<seq<Entry>>, base: nat, to: nat, lo: nat, hi: nat)
    requires WellFormed(e) && base <= to
    requires ColsAt(e, before, 0, base, hi) && ColsAt(e, before, base, Columns(e), lo)
    requires ColsAt(e, after, base, to, hi) && SameOutside(after, before, base, to)
    ensures ColsAt(e, after, 0, to, hi) && ColsAt(e, after, to, Columns(e), lo)
  {
  }

  /** One pass of the loop over the stored entries of row i of A: the columns
    * of the gap before entry p need no append, and block column
    * ARow(e, i)[p].index is filled; all columns before the next front stand at
    * row hi, the others at row lo. */
  method ColumnMajorEntry(t: CompressedTarget, e: Kron, i: nat, lo: nat, hi: nat, p: nat, ghost front: nat)
    requires ColTarget(t, e) && ColRoom(e, t.capacity)
    requires i < e.lhs.m.rows && lo == i * M(e) && hi == lo + M(e) && p < |ARow(e, i)|
    requires front == if p == 0 then 0 else (ARow(e, i)[p - 1].index + 1) * N(e)
    requires ColsAt(e, t.lines, 0, front, hi) && ColsAt(e, t.lines, front, Columns(e), lo)
    modifies t
    ensures ColTarget(t, e) && t.capacity == old(t.capacity)
    ensures var next := (ARow(e, i)[p].index + 1) * N(e);
      ColsAt(e, t.lines, 0, next, hi) && ColsAt(e, t.lines, next, Columns(e), lo)
  {
    var row, n := ARow(e, i), N(e);
    ARowValid(e, i);
    var a := row[p].index;
    var base := a * n;
    ColumnGap(e, t.lines, i, lo, hi, p, front, base);
    LookupFound(row, e.lhs.m.columns, p);
    BlockPrefixBound(a, n, e.lhs.m.columns, n);
    MulSucc(a, n);
    ColsWithin(e, t.lines, base, Columns(e), base, base + n, lo);
    ghost var before := t.lines;
    ColumnMajorBlock(t, e, i, lo, hi, a, base, row[p].value);
    BlockColumnJoined(e, before, t.lines, base, base + n, lo, hi);
  }

  /** The loop over the stored entries of row i of A: every column moves its
    * compressed prefix from row lo = i * M to row lo + M. */
  method ColumnMajorBlockRow(t: CompressedTarget, e: Kron, i: nat, lo: nat)
    requires ColTarget(t, e) && ColRoom(e, t.capacity)
    requires i < e.lhs.m.rows && lo == i * M(e) && ColsAt(e, t.lines, 0, Columns(e), lo)
    modifies t
    ensures ColTarget(t, e) && t.capacity == old(t.capacity) && lo + M(e) <= Rows(e)
    ensures ColsAt(e, t.lines, 0, Columns(e), lo + M(e))
  {
    var n, hi := N(e), lo + M(e);
    var row := ARow(e, i);
    ARowValid(e, i);
    BlockPrefixBound(i, M(e), e.lhs.m.rows, M(e));
    var p := 0;
    ghost var front: nat := 0;
    while p < |row|
      invariant p <= |row| && ColTarget(t, e) && t.capacity == old(t.capacity)
      invariant front == if p == 0 then 0 else (row[p - 1].index + 1) * n
      invariant ColsAt(e, t.lines, 0, front, hi) && ColsAt(e, t.lines, front, Columns(e), lo)
    {
      ColumnMajorEntry(t, e, i, lo, hi, p, front);
      MulMonotone(0, row[p].index + 1, n);
      front := (row[p].index + 1) * n;
      p := p + 1;
    }
    ColumnGap(e, t.lines, i, lo, hi, p, front, Columns(e));
  }

  /** The append pass of the column-major kernel, block row by block row. */
  method FillColumns(t: CompressedTarget, e: Kron)
    requires ColTarget(t, e) && ColRoom(e, t.capacity)
    requires forall c :: 0 <= c < Columns(e) ==> t.lines[c] == []
    modifies t
    ensures ColTarget(t, e) && t.capacity == old(t.capacity)
    ensures ColsAt(e, t.lines, 0, Columns(e), Rows(e))
  {
    var m := M(e);
    var i, lo := 0, 0;
    assert ColsAt(e, t.lines, 0, Columns(e), 0);
    while i < e.lhs.m.rows
      invariant i <= e.lhs.m.rows && lo == i * m
      invariant ColTarget(t, e) && ColRoom(e, t.capacity) && t.capacity == old(t.capacity)
      invariant ColsAt(e, t.lines, 0, Columns(e), lo)
    {
      ColumnMajorBlockRow(t, e, i, lo);
      MulSucc(i, m);
      i, lo := i + 1, lo + m;
    }
    assert lo == Rows(e);
  }

  /** The room the column-major kernel reserves for column c of the product:
    * (entries of A in column c / N) times B.nonZeros(c % N). */
  function ColReserve(e: Kron, c: nat): nat
    requires WellFormed(e) && c < Columns(e)
  {
    ColumnCountOfA(e, c) * |ColumnOfB(e, c)|
  }

  /** Column a * N + j reserves (entries of A in column a) times B.nonZeros(j). */
  lemma {:induction false} ColReserveAt(e: Kron, a: nat, j: nat, c: nat)
    requires WellFormed(e) && a < e.lhs.m.columns && j < N(e) && c == a * N(e) + j
    ensures c < Columns(e) && ColReserve(e, c) == AColCount(e, a) * |BCol(e, j)|
  {
    ComposeBound(a, j, e.lhs.m.columns, N(e));
    Split(c, a, j, N(e));
  }

  /** The inner reserve loop: the columns base .. base + N - 1 of block column
    * a get their room. */
  method ReserveBlockColumn(t: CompressedTarget, e: Kron, a: nat, base: nat, nonzeros: seq<nat>)
    requires ColTarget(t, e) && a < e.lhs.m.columns && base == a * N(e)
    requires |nonzeros| == e.lhs.m.columns && forall b :: 0 <= b < e.lhs.m.columns ==> nonzeros[b] == AColCount(e, b)
    modifies t
    ensures ColTarget(t, e) && t.lines == old(t.lines)
    ensures forall c :: 0 <= c < Columns(e) ==>
      t.capacity[c] == if base <= c < base + N(e) then Grown(old(t.capacity[c]), ColReserve(e, c)) else old(t.capacity[c])
  {
    var n := N(e);
    BlockPrefixBound(a, n, e.lhs.m.columns, n);
    var j := 0;
    while j < n
      invariant j <= n && ColTarget(t, e) && t.lines == old(t.lines)
      invariant forall c :: 0 <= c < Columns(e) ==>
        t.capacity[c] == if base <= c < base + j then Grown(old(t.capacity[c]), ColReserve(e, c)) else old(t.capacity[c])
    {
      ColReserveAt(e, a, j, base + j);
      t.Reserve(base + j, nonzeros[a] * |BCol(e, j)|);
      j := j + 1;
    }
  }

  /** The reserve pass of the column-major kernel: column a * N + j gets room
    * for (entries of A in column a) times B.nonZeros(j). */
  method ReserveColumns(t: CompressedTarget, e: Kron, nonzeros: seq<nat>)
    requires ColTarget(t, e)
    requires |nonzeros| == e.lhs.m.columns && forall b :: 0 <= b < e.lhs.m.columns ==> nonzeros[b] == AColCount(e, b)
    modifies t
    ensures ColTarget(t, e) && t.lines == old(t.lines)
    ensures forall c :: 0 <= c < Columns(e) ==> t.capacity[c] == Grown(old(t.capacity[c]), ColReserve(e, c))
  {
    var n := N(e);
    var a, base := 0, 0;
    while a < e.lhs.m.columns
      invariant a <= e.lhs.m.columns && base == a * n
      invariant ColTarget(t, e) && t.lines == old(t.lines)
      invariant forall c :: 0 <= c < Columns(e) ==>
        t.capacity[c] == if c < base then Grown(old(t.capacity[c]), ColReserve(e, c)) else old(t.capacity[c])
    {
      ReserveBlockColumn(t, e, a, base, nonzeros);
      MulSucc(a, n);
      a, base := a + 1, base + n;
    }
    assert base == Columns(e);
  }

  /** The room the reserve pass leaves is enough for every covered cell. */
  lemma {:induction false} ReservedColumnRoom(e: Kron, before: seq<nat>, capacity: seq<nat>)
    requires WellFormed(e) && |before| == |capacity| == Columns(e)
    requires forall c :: 0 <= c < Columns(e) ==> capacity[c] == Grown(before[c], ColReserve(e, c))
    ensures ColRoom(e, capacity)
  {
    forall c | 0 <= c < Columns(e)
      ensures capacity[c] >= Count(CoveredInColumn(e, c), Rows(e))
    {
      CoveredInColumnCount(e, c);
    }
  }

  /** `assign` into an empty column-major compressed matrix: every column of
    * the target ends holding exactly the nonzero elements of the product's
    * column, in ascending row order, so the target reads back the product
    * everywhere. */
  method AssignColumnMajor(t: CompressedTarget, e: Kron)
    requires ColTarget(t, e)
    requires forall c :: 0 <= c < |t.lines| ==> t.lines[c] == []
    modifies t
    ensures ColTarget(t, e)
    ensures forall c :: 0 <= c < Columns(e) ==> t.lines[c] == Compress(ColValues(e, c), Rows(e))
    ensures forall r, c :: 0 <= r < Rows(e) && 0 <= c < Columns(e) ==>
      (Contains(t.lines[c], r) <==> Element(e, r, c) != 0) && Lookup(t.lines[c], r) == Element(e, r, c)
  {
    if Rows(e) == 0 || Columns(e) == 0 {
      return;
    }
    var nonzeros := CountColumnsOfA(e);
    ghost var before := t.capacity;
    ReserveColumns(t, e, nonzeros);
    ReservedColumnRoom(e, before, t.capacity);
    FillColumns(t, e);
    forall r, c | 0 <= r < Rows(e) && 0 <= c < Columns(e)
      ensures (Contains(t.lines[c], r) <==> Element(e, r, c) != 0) && Lookup(t.lines[c], r) == Element(e, r, c)
    {
      CompressLookup(ColValues(e, c), Rows(e), r);
      ColValue(e, r, c);
    }
  }
}
