/** The Schur (elementwise) product assignment of the Kronecker expression
  * into a dense matrix: covered cells are multiplied by the product's
  * element, every other cell is reset to zero. */
module KronSchur {
  import opened SparseLines
  import opened Matrices
  import opened IndexMath
  import opened KronExpr
  import opened KronDense

  /** Resets the M x N block (i, j) of the target, row by row of the block. */
  method ResetBlock(target: array2<int>, e: Kron, i: nat, j: nat)
    requires WellFormed(e) && Fits(target, e)
    requires i < e.lhs.m.rows && j < e.lhs.m.columns && M(e) > 0 && N(e) > 0
    modifies target
    ensures forall r, c :: 0 <= r < target.Length0 && 0 <= c < target.Length1 ==>
      target[r, c] == if r / M(e) == i && c / N(e) == j then 0 else old(target[r, c])
  {
    var m, n := M(e), N(e);
    var k := 0;
    while k < m
      invariant k <= m
      invariant forall r, c :: 0 <= r < target.Length0 && 0 <= c < target.Length1 ==>
        target[r, c] == if r / m == i && c / n == j && r % m < k then 0 else old(target[r, c])
    {
      var row := i * m + k;
      Split(row, i, k, m);
      ComposeBound(i, k, e.lhs.m.rows, m);
      var l := 0;
      while l < n
        invariant l <= n
        invariant forall r, c :: 0 <= r < target.Length0 && 0 <= c < target.Length1 ==>
          target[r, c] == if r / m == i && c / n == j && (r % m < k || (r % m == k && c % n < l))
                          then 0 else old(target[r, c])
      {
        var column := j * n + l;
        Split(column, j, l, n);
        ComposeBound(j, l, e.lhs.m.columns, n);
        target[row, column] := 0;
        forall r, c | 0 <= r < target.Length0 && 0 <= c < target.Length1
          ensures target[r, c] == if r / m == i && c / n == j && (r % m < k || (r % m == k && c % n < l + 1))
                                  then 0 else old(target[r, c])
        {
          if r / m == i && r % m == k {
            SameSplit(r, row, m);
          }
          if c / n == j && c % n == l {
            SameSplit(c, column, n);
          }
        }
        l := l + 1;
      }
      k := k + 1;
    }
  }

  /** The loop over column l of B inside block (i, a), with k as the running row
    * cursor of the block: rows before each stored entry of the column are
    * reset, the entry's row is multiplied by av times its value, and the rows
    * after the last entry are reset. */
  method SchurBlockColumn(target: array2<int>, e: Kron, i: nat, a: nat, av: int, l: nat)
    requires WellFormed(e) && Fits(target, e)
    requires i < e.lhs.m.rows && a < e.lhs.m.columns && l < N(e) && M(e) > 0
    modifies target
    ensures forall r, c :: 0 <= r < target.Length0 && 0 <= c < target.Length1 ==>
      target[r, c] == if r / M(e) == i && c == a * N(e) + l
                      then old(target[r, c]) * (av * Lookup(BCol(e, l), r % M(e)))
                      else old(target[r, c])
  {
    var col, m := BCol(e, l), M(e);
    BColValid(e, l);
    var column := a * N(e) + l;
    ComposeBound(a, l, e.lhs.m.columns, N(e));
    var k := 0;
    var q := 0;
    while q < |col|
      invariant q <= |col| && k <= m
      invariant k == if q == 0 then 0 else col[q - 1].index + 1
      invariant forall r, c :: 0 <= r < target.Length0 && 0 <= c < target.Length1 ==>
        target[r, c] == if r / m == i && c == column && r % m < k
                        then old(target[r, c]) * (av * Lookup(col, r % m))
                        else old(target[r, c])
    {
      var idx := col[q].index;
      while k < idx
        invariant k <= idx
        invariant forall r, c :: 0 <= r < target.Length0 && 0 <= c < target.Length1 ==>
          target[r, c] == if r / m == i && c == column && r % m < k
                          then old(target[r, c]) * (av * Lookup(col, r % m))
                          else old(target[r, c])
      {
        var row := i * m + k;
        Split(row, i, k, m);
        ComposeBound(i, k, e.lhs.m.rows, m);
        NotInGap(col, m, q, k);
        LookupAbsent(col, k);
        target[row, column] := 0;
        forall r, c | 0 <= r < target.Length0 && 0 <= c < target.Length1
          ensures target[r, c] == if r / m == i && c == column && r % m < k + 1
                                  then old(target[r, c]) * (av * Lookup(col, r % m))
                                  else old(target[r, c])
        {
          if r / m == i && r % m == k {
            SameSplit(r, row, m);
          }
        }
        k := k + 1;
      }
      var row := i * m + k;
      Split(row, i, k, m);
      ComposeBound(i, k, e.lhs.m.rows, m);
      LookupFound(col, m, q);
      target[row, column] := target[row, column] * (av * col[q].value);
      forall r, c | 0 <= r < target.Length0 && 0 <= c < target.Length1
        ensures target[r, c] == if r / m == i && c == column && r % m < k + 1
                                then old(target[r, c]) * (av * Lookup(col, r % m))
                                else old(target[r, c])
      {
        if r / m == i && r % m == k {
          SameSplit(r, row, m);
        }
      }
      k := k + 1;
      q := q + 1;
    }
    while k < m
      invariant k <= m
      invariant forall r, c :: 0 <= r < target.Length0 && 0 <= c < target.Length1 ==>
        target[r, c] == if r / m == i && c == column && r % m < k
                        then old(target[r, c]) * (av * Lookup(col, r % m))
                        else old(target[r, c])
    {
      var row := i * m + k;
      Split(row, i, k, m);
      ComposeBound(i, k, e.lhs.m.rows, m);
      NotInGap(col, m, |col|, k);
      LookupAbsent(col, k);
      target[row, column] := 0;
      forall r, c | 0 <= r < target.Length0 && 0 <= c < target.Length1
        ensures target[r, c] == if r / m == i && c == column && r % m < k + 1
                                then old(target[r, c]) * (av * Lookup(col, r % m))
                                else old(target[r, c])
      {
        if r / m == i && r % m == k {
          SameSplit(r, row, m);
        }
      }
      k := k + 1;
    }
  }

  /** The loop over the columns of B inside block (i, a), where row i of A
    * stores av at column a. */
  method SchurBlock(target: array2<int>, e: Kron, i: nat, a: nat, av: int)
    requires WellFormed(e) && Fits(target, e)
    requires i < e.lhs.m.rows && a < e.lhs.m.columns && M(e) > 0 && N(e) > 0
    modifies target
    ensures forall r, c :: 0 <= r < target.Length0 && 0 <= c < target.Length1 ==>
      target[r, c] == if r / M(e) == i && c / N(e) == a
                      then old(target[r, c]) * (av * Lookup(BCol(e, c % N(e)), r % M(e)))
                      else old(target[r, c])
  {
    var m, n := M(e), N(e);
    var l := 0;
    while l < n
      invariant l <= n
      invariant forall r, c :: 0 <= r < target.Length0 && 0 <= c < target.Length1 ==>
        target[r, c] == if r / m == i && c / n == a && c % n < l
                        then old(target[r, c]) * (av * Lookup(BCol(e, c % n), r % m))
                        else old(target[r, c])
    {
      SchurBlockColumn(target, e, i, a, av, l);
      Split(a * n + l, a, l, n);
      forall r, c | 0 <= r < target.Length0 && 0 <= c < target.Length1
        ensures target[r, c] == if r / m == i && c / n == a && c % n < l + 1
                                then old(target[r, c]) * (av * Lookup(BCol(e, c % n), r % m))
                                else old(target[r, c])
      {
        if c / n == a && c % n == l {
          Recompose(c, n);
        }
      }
      l := l + 1;
    }
  }

  /** Block row i, with j as the running block-column cursor: the blocks
    * before each stored entry of row i of A are reset, the entry's block is
    * processed column by column of B, and the blocks after the last entry are
    * reset. */
  method SchurBlockRow(target: array2<int>, e: Kron, i: nat)
    requires WellFormed(e) && Fits(target, e)
    requires i < e.lhs.m.rows && M(e) > 0 && N(e) > 0
    modifies target
    ensures forall r, c :: 0 <= r < target.Length0 && 0 <= c < target.Length1 ==>
      target[r, c] == if r / M(e) == i then old(target[r, c]) * Element(e, r, c) else old(target[r, c])
  {
    var m, n := M(e), N(e);
    var row := ARow(e, i);
    ARowValid(e, i);
    var j := 0;
    var p := 0;
    while p < |row|
      invariant p <= |row| && j <= e.lhs.m.columns
      invariant j == if p == 0 then 0 else row[p - 1].index + 1
      invariant forall r, c :: 0 <= r < target.Length0 && 0 <= c < target.Length1 ==>
        target[r, c] == if r / m == i && c / n < j then old(target[r, c]) * Element(e, r, c) else old(target[r, c])
    {
      var a := row[p].index;
      while j < a
        invariant j <= a
        invariant forall r, c :: 0 <= r < target.Length0 && 0 <= c < target.Length1 ==>
          target[r, c] == if r / m == i && c / n < j then old(target[r, c]) * Element(e, r, c) else old(target[r, c])
      {
        ResetBlock(target, e, i, j);
        NotInGap(row, e.lhs.m.columns, p, j);
        forall r, c | 0 <= r < target.Length0 && 0 <= c < target.Length1
          ensures target[r, c] == if r / m == i && c / n < j + 1 then old(target[r, c]) * Element(e, r, c) else old(target[r, c])
        {
          if r / m == i && c / n == j {
            UncoveredIsZero(e, r, c);
          }
        }
        j := j + 1;
      }
      SchurBlock(target, e, i, a, row[p].value);
      LookupFound(row, e.lhs.m.columns, p);
      j := j + 1;
      p := p + 1;
    }
    while j < e.lhs.m.columns
      invariant forall r, c :: 0 <= r < target.Length0 && 0 <= c < target.Length1 ==>
        target[r, c] == if r / m == i && c / n < j then old(target[r, c]) * Element(e, r, c) else old(target[r, c])
    {
      ResetBlock(target, e, i, j);
      NotInGap(row, e.lhs.m.columns, |row|, j);
      forall r, c | 0 <= r < target.Length0 && 0 <= c < target.Length1
        ensures target[r, c] == if r / m == i && c / n < j + 1 then old(target[r, c]) * Element(e, r, c) else old(target[r, c])
      {
        if r / m == i && c / n == j {
          UncoveredIsZero(e, r, c);
        }
      }
      j := j + 1;
    }
    forall r, c | 0 <= r < target.Length0 && 0 <= c < target.Length1
      ensures target[r, c] == if r / m == i then old(target[r, c]) * Element(e, r, c) else old(target[r, c])
    {
      BlockBound(c, e.lhs.m.columns, n);
    }
  }

  /** `schurAssign` into a dense matrix: every cell is multiplied by the
    * product's element, which resets every cell no stored pair covers. */
  method SchurAssign(target: array2<int>, e: Kron)
    requires WellFormed(e) && Fits(target, e)
    modifies target
    ensures forall r, c :: 0 <= r < target.Length0 && 0 <= c < target.Length1 ==>
      target[r, c] == old(target[r, c]) * Element(e, r, c)
  {
    if Rows(e) == 0 || Columns(e) == 0 {
      return;
    }
    var m := M(e);
    var i := 0;
    while i < e.lhs.m.rows
      invariant i <= e.lhs.m.rows
      invariant forall r, c :: 0 <= r < target.Length0 && 0 <= c < target.Length1 ==>
        target[r, c] == if r / m < i then old(target[r, c]) * Element(e, r, c) else old(target[r, c])
    {
      SchurBlockRow(target, e, i);
      i := i + 1;
    }
    forall r | 0 <= r < target.Length0
      ensures r / m < i
    {
      BlockBound(r, e.lhs.m.rows, m);
    }
  }
}
