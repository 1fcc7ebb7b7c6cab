/** The dense-target kernels of the Kronecker expression: assignment, addition
  * and subtraction assignment, and Schur (elementwise) product assignment
  * into a dense matrix of the product shape. */
module KronDense {
  import opened SparseLines
  import opened Matrices
  import opened IndexMath
  import opened KronExpr

  /** The compound assignment a dense kernel performs on every covered cell:
    * `=`, `+=` or `-=`. */
  datatype Update = Store | Increment | Decrement

  function Apply(op: Update, current: int, v: int): int {
    match op
    case Store => v
    case Increment => current + v
    case Decrement => current - v
  }

  /** Cell (r, c) pairs a stored entry of A with a stored entry of B: the cells
    * the kernels write. */
  predicate Covered(e: Kron, r: nat, c: nat)
    requires WellFormed(e) && r < Rows(e) && c < Columns(e)
  {
    BlockBound(r, e.lhs.m.rows, M(e));
    BlockBound(c, e.lhs.m.columns, N(e));
    Contains(ARow(e, r / M(e)), c / N(e)) && Contains(BCol(e, c % N(e)), r % M(e))
  }

  /** A cell that pairs no two stored entries holds zero in the product. */
  lemma {:induction false} UncoveredIsZero(e: Kron, r: nat, c: nat)
    requires WellFormed(e) && r < Rows(e) && c < Columns(e) && !Covered(e, r, c)
    ensures Element(e, r, c) == 0
  {
    BlockBound(r, e.lhs.m.rows, M(e));
    BlockBound(c, e.lhs.m.columns, N(e));
    if !Contains(ARow(e, r / M(e)), c / N(e)) {
      LookupAbsent(ARow(e, r / M(e)), c / N(e));
    } else {
      LookupAbsent(BCol(e, c % N(e)), r % M(e));
    }
  }

  /** The target has the shape of the product. */
  predicate Fits(target: array2<int>, e: Kron) {
    target.Length0 == Rows(e) && target.Length1 == Columns(e)
  }

  /** The inner loop of the dense kernels: column l of B, scaled by entry
    * (i, a) of A with value av, updates column a * N + l of block row i. */
  method UpdateBlockColumn(target: array2<int>, op: Update, e: Kron, i: nat, a: nat, av: int, l: nat)
    requires WellFormed(e) && Fits(target, e)
    requires i < e.lhs.m.rows && a < e.lhs.m.columns && l < N(e) && M(e) > 0
    modifies target
    ensures forall r, c :: 0 <= r < target.Length0 && 0 <= c < target.Length1 ==>
      target[r, c] == if r / M(e) == i && c == a * N(e) + l && Contains(BCol(e, l), r % M(e))
                      then Apply(op, old(target[r, c]), av * Lookup(BCol(e, l), r % M(e)))
                      else old(target[r, c])
  {
    var col, m := BCol(e, l), M(e);
    BColValid(e, l);
    var column := a * N(e) + l;
    ComposeBound(a, l, e.lhs.m.columns, N(e));
    var q := 0;
    while q < |col|
      invariant q <= |col|
      invariant forall r, c :: 0 <= r < target.Length0 && 0 <= c < target.Length1 ==>
        target[r, c] == if r / m == i && c == column && Contains(col[..q], r % m)
                        then Apply(op, old(target[r, c]), av * Lookup(col, r % m))
                        else old(target[r, c])
    {
      var k := col[q].index;
      var row := i * m + k;
      Split(row, i, k, m);
      ComposeBound(i, k, e.lhs.m.rows, m);
      LookupFound(col, m, q);
      NotInPrefix(col, m, q);
      target[row, column] := Apply(op, target[row, column], av * col[q].value);
      forall r, c | 0 <= r < target.Length0 && 0 <= c < target.Length1
        ensures target[r, c] == if r / m == i && c == column && Contains(col[..q + 1], r % m)
                                then Apply(op, old(target[r, c]), av * Lookup(col, r % m))
                                else old(target[r, c])
      {
        ContainsExtend(col, q, r % m);
        if r / m == i && r % m == k {
          SameSplit(r, row, m);
        }
      }
      q := q + 1;
    }
    assert col[..q] == col;
  }

  /** The loop over the columns of B: entry (i, a) of A with value av, times
    * all of B, updates the covered cells of block (i, a). */
  method UpdateBlock(target: array2<int>, op: Update, e: Kron, i: nat, a: nat, av: int)
    requires WellFormed(e) && Fits(target, e)
    requires i < e.lhs.m.rows && a < e.lhs.m.columns && M(e) > 0 && N(e) > 0
    modifies target
    ensures forall r, c :: 0 <= r < target.Length0 && 0 <= c < target.Length1 ==>
      target[r, c] == if r / M(e) == i && c / N(e) == a && Contains(BCol(e, c % N(e)), r % M(e))
                      then Apply(op, old(target[r, c]), av * Lookup(BCol(e, c % N(e)), r % M(e)))
                      else old(target[r, c])
  {
    var m, n := M(e), N(e);
    var l := 0;
    while l < n
      invariant l <= n
      invariant forall r, c :: 0 <= r < target.Length0 && 0 <= c < target.Length1 ==>
        target[r, c] == if r / m == i && c / n == a && c % n < l && Contains(BCol(e, c % n), r % m)
                        then Apply(op, old(target[r, c]), av * Lookup(BCol(e, c % n), r % m))
                        else old(target[r, c])
    {
      UpdateBlockColumn(target, op, e, i, a, av, l);
      Split(a * n + l, a, l, n);
      forall r, c | 0 <= r < target.Length0 && 0 <= c < target.Length1
        ensures target[r, c] == if r / m == i && c / n == a && c % n < l + 1 && Contains(BCol(e, c % n), r % m)
                                then Apply(op, old(target[r, c]), av * Lookup(BCol(e, c % n), r % m))
                                else old(target[r, c])
      {
        if c / n == a && c % n == l {
          Recompose(c, n);
        }
      }
      l := l + 1;
    }
  }

  /** The loop over the stored entries of row i of A: updates every covered
    * cell of block row i with the product's element. */
  method UpdateBlockRow(target: array2<int>, op: Update, e: Kron, i: nat)
    requires WellFormed(e) && Fits(target, e)
    requires i < e.lhs.m.rows && M(e) > 0 && N(e) > 0
    modifies target
    ensures forall r, c :: 0 <= r < target.Length0 && 0 <= c < target.Length1 ==>
      target[r, c] == if r / M(e) == i && Covered(e, r, c)
                      then Apply(op, old(target[r, c]), Element(e, r, c))
                      else old(target[r, c])
  {
    var m, n := M(e), N(e);
    var row := ARow(e, i);
    ARowValid(e, i);
    var p := 0;
    while p < |row|
      invariant p <= |row|
      invariant forall r, c :: 0 <= r < target.Length0 && 0 <= c < target.Length1 ==>
        target[r, c] == if r / m == i && Contains(row[..p], c / n) && Covered(e, r, c)
                        then Apply(op, old(target[r, c]), Element(e, r, c))
                        else old(target[r, c])
    {
      var a := row[p].index;
      UpdateBlock(target, op, e, i, a, row[p].value);
      LookupFound(row, e.lhs.m.columns, p);
      NotInPrefix(row, e.lhs.m.columns, p);
      forall r, c | 0 <= r < target.Length0 && 0 <= c < target.Length1
        ensures target[r, c] == if r / m == i && Contains(row[..p + 1], c / n) && Covered(e, r, c)
                                then Apply(op, old(target[r, c]), Element(e, r, c))
                                else old(target[r, c])
      {
        ContainsExtend(row, p, c / n);
      }
      p := p + 1;
    }
    assert row[..p] == row;
  }

  /** The four nested loops of `assign`, `addAssign` and `subAssign` into a dense
    * matrix: every covered cell receives the compound update with the product's
    * element, every other cell keeps its value. */
  method DenseKernel(target: array2<int>, op: Update, e: Kron)
    requires WellFormed(e) && Fits(target, e)
    modifies target
    ensures forall r, c :: 0 <= r < target.Length0 && 0 <= c < target.Length1 ==>
      target[r, c] == if Covered(e, r, c)
                      then Apply(op, old(target[r, c]), Element(e, r, c))
                      else old(target[r, c])
  {
    if Rows(e) == 0 || Columns(e) == 0 {
      return;
    }
    var m, n := M(e), N(e);
    var i := 0;
    while i < e.lhs.m.rows
      invariant i <= e.lhs.m.rows
      invariant forall r, c :: 0 <= r < target.Length0 && 0 <= c < target.Length1 ==>
        target[r, c] == if r / m < i && Covered(e, r, c)
                        then Apply(op, old(target[r, c]), Element(e, r, c))
                        else old(target[r, c])
    {
      UpdateBlockRow(target, op, e, i);
      i := i + 1;
    }
    forall r, c | 0 <= r < target.Length0 && 0 <= c < target.Length1
      ensures target[r, c] == if Covered(e, r, c) then Apply(op, old(target[r, c]), Element(e, r, c)) else old(target[r, c])
    {
      BlockBound(r, e.lhs.m.rows, m);
    }
  }

  /** `assign` into a dense matrix: every covered cell receives the product's
    * element and no other cell changes, so a zero-initialised target ends up
    * holding the whole product. */
  method Assign(target: array2<int>, e: Kron)
    requires WellFormed(e) && Fits(target, e)
    modifies target
    ensures forall r, c :: 0 <= r < target.Length0 && 0 <= c < target.Length1 ==>
      target[r, c] == if Covered(e, r, c) then Element(e, r, c) else old(target[r, c])
    ensures (forall r, c :: 0 <= r < target.Length0 && 0 <= c < target.Length1 ==> old(target[r, c]) == 0) ==>
      forall r, c :: 0 <= r < target.Length0 && 0 <= c < target.Length1 ==> target[r, c] == Element(e, r, c)
  {
    DenseKernel(target, Store, e);
    forall r, c | 0 <= r < target.Length0 && 0 <= c < target.Length1 && !Covered(e, r, c)
      ensures Element(e, r, c) == 0
    {
      UncoveredIsZero(e, r, c);
    }
  }

  /** `addAssign` into a dense matrix: the target becomes old target plus product. */
  method AddAssign(target: array2<int>, e: Kron)
    requires WellFormed(e) && Fits(target, e)
    modifies target
    ensures forall r, c :: 0 <= r < target.Length0 && 0 <= c < target.Length1 ==>
      target[r, c] == old(target[r, c]) + Element(e, r, c)
  {
    DenseKernel(target, Increment, e);
    forall r, c | 0 <= r < target.Length0 && 0 <= c < target.Length1 && !Covered(e, r, c)
      ensures Element(e, r, c) == 0
    {
      UncoveredIsZero(e, r, c);
    }
  }

  /** `subAssign` into a dense matrix: the target becomes old target minus product. */
  method SubAssign(target: array2<int>, e: Kron)
    requires WellFormed(e) && Fits(target, e)
    modifies target
    ensures forall r, c :: 0 <= r < target.Length0 && 0 <= c < target.Length1 ==>
      target[r, c] == old(target[r, c]) - Element(e, r, c)
  {
    DenseKernel(target, Decrement, e);
    forall r, c | 0 <= r < target.Length0 && 0 <= c < target.Length1 && !Covered(e, r, c)
      ensures Element(e, r, c) == 0
    {
      UncoveredIsZero(e, r, c);
    }
  }
}
