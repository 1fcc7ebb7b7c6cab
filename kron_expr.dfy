/** The Kronecker product expression node of a row-major sparse matrix A
  * (rows x columns) and a column-major sparse matrix B (M x N): its shape,
  * its elements, checked access, alias queries, and the `kron` dispatch
  * that short-cuts identity and zero operands. */
module KronExpr {
  import opened Errors
  import opened SparseLines
  import opened Matrices
  import opened IndexMath

  /** The expression node: left operand A and right operand B. */
  datatype Kron = Kron(lhs: Operand, rhs: Operand)

  /** A is stored row-major and B column-major. */
  predicate WellFormed(e: Kron) {
    ValidOperand(e.lhs) && ValidOperand(e.rhs) && e.lhs.m.rowMajor && !e.rhs.m.rowMajor
  }

  /** M: the number of rows of B, the height of every block. */
  function M(e: Kron): nat {
    e.rhs.m.rows
  }

  /** N: the number of columns of B, the width of every block. */
  function N(e: Kron): nat {
    e.rhs.m.columns
  }

  function Rows(e: Kron): nat {
    e.lhs.m.rows * e.rhs.m.rows
  }

  function Columns(e: Kron): nat {
    e.lhs.m.columns * e.rhs.m.columns
  }

  /** `nonZeros()`: the product of the operands' entry counts. */
  function KronNonZeros(e: Kron): nat {
    NonZeros(e.lhs.m) * NonZeros(e.rhs.m)
  }

  /** Row i of A. */
  function ARow(e: Kron, i: nat): seq<Entry>
    requires WellFormed(e) && i < e.lhs.m.rows
  {
    e.lhs.m.lines[i]
  }

  /** Column l of B. */
  function BCol(e: Kron, l: nat): seq<Entry>
    requires WellFormed(e) && l < N(e)
  {
    e.rhs.m.lines[l]
  }

  /** Row i of A is a valid line of A's width. */
  lemma {:induction false} ARowValid(e: Kron, i: nat)
    requires WellFormed(e) && i < e.lhs.m.rows
    ensures ValidLine(ARow(e, i), e.lhs.m.columns)
  {
    assert ValidLine(e.lhs.m.lines[i], LineLength(e.lhs.m));
  }

  /** Column l of B is a valid line of B's height. */
  lemma {:induction false} BColValid(e: Kron, l: nat)
    requires WellFormed(e) && l < N(e)
    ensures ValidLine(BCol(e, l), M(e))
  {
    assert ValidLine(e.rhs.m.lines[l], LineLength(e.rhs.m));
  }

  /** `operator()(i, j)`: A(i / M, j / N) * B(i % M, j % N). */
  function Element(e: Kron, i: nat, j: nat): int
    requires WellFormed(e) && i < Rows(e) && j < Columns(e)
  {
    BlockBound(i, e.lhs.m.rows, M(e));
    BlockBound(j, e.lhs.m.columns, N(e));
    Get(e.lhs.m, i / M(e), j / N(e)) * Get(e.rhs.m, i % M(e), j % N(e))
  }

  /** The Kronecker product in block form: block (a, b) of the result is
    * A(a, b) times B, so every block index and offset addresses the matching
    * element of each operand. */
  lemma {:induction false} ElementBlocks(e: Kron, a: nat, b: nat, k: nat, l: nat, r: nat, c: nat)
    requires WellFormed(e)
    requires a < e.lhs.m.rows && b < e.lhs.m.columns && k < M(e) && l < N(e)
    requires r == a * M(e) + k && c == b * N(e) + l
    ensures r < Rows(e) && c < Columns(e)
    ensures Element(e, r, c) == Get(e.lhs.m, a, b) * Get(e.rhs.m, k, l)
  {
    ComposeBound(a, k, e.lhs.m.rows, M(e));
    ComposeBound(b, l, e.lhs.m.columns, N(e));
    Split(r, a, k, M(e));
    Split(c, b, l, N(e));
  }

  /** `at(i, j)`: out-of-range on a bad row, then on a bad column, otherwise
    * the element. */
  function At(e: Kron, i: nat, j: nat): (r: Result<int>)
    requires WellFormed(e)
    ensures r.Ok? <==> i < Rows(e) && j < Columns(e)
    ensures i >= Rows(e) ==> r == Err(OutOfRange("Invalid row access index"))
    ensures i < Rows(e) && j >= Columns(e) ==> r == Err(OutOfRange("Invalid column access index"))
    ensures r.Ok? ==> r.value == Element(e, i, j)
  {
    if i >= Rows(e) then Err(OutOfRange("Invalid row access index"))
    else if j >= Columns(e) then Err(OutOfRange("Invalid column access index"))
    else Ok(Element(e, i, j))
  }

  /** `canAlias` / `isAliased`: either operand may alias. */
  predicate CanAlias(e: Kron, alias: nat) {
    OperandAliases(e.lhs, alias) || OperandAliases(e.rhs, alias)
  }

  /** The expression aliases exactly the addresses of its two operands: a
    * target that is neither operand can be written directly. */
  lemma {:induction false} CanAliasOperands(e: Kron, alias: nat)
    ensures CanAlias(e, alias) <==> alias == e.lhs.addr || alias == e.rhs.addr
  {
  }

  /** What `kron(A, B)` returns: an identity matrix, a zero matrix, or the
    * expression node. */
  datatype KronResult =
    | IdentityResult(order: nat)
    | ZeroResult(rows: nat, columns: nat)
    | Expr(e: Kron)

  function ResultRows(r: KronResult): nat {
    match r
    case IdentityResult(n) => n
    case ZeroResult(m, _) => m
    case Expr(e) => Rows(e)
  }

  function ResultColumns(r: KronResult): nat {
    match r
    case IdentityResult(n) => n
    case ZeroResult(_, n) => n
    case Expr(e) => Columns(e)
  }

  /** Element (i, j) of whatever `kron` returned. */
  function ResultGet(r: KronResult, i: nat, j: nat): int
    requires r.Expr? ==> WellFormed(r.e)
    requires i < ResultRows(r) && j < ResultColumns(r)
  {
    match r
    case IdentityResult(_) => if i == j then 1 else 0
    case ZeroResult(_, _) => 0
    case Expr(e) => Element(e, i, j)
  }

  /** `kron(A, B)` through the `smattsmatkron` overloads: two identity types give
    * an identity of the product order, a zero type on either side gives a zero
    * matrix of the product shape, anything else builds the expression node. */
  function KronOf(lhs: Operand, rhs: Operand): (r: KronResult)
    requires ValidOperand(lhs) && ValidOperand(rhs) && lhs.m.rowMajor && !rhs.m.rowMajor
    ensures r.IdentityResult? <==> lhs.kind == Identity && rhs.kind == Identity
    ensures r.ZeroResult? <==> lhs.kind == Zero || rhs.kind == Zero
    ensures r.Expr? ==> r.e == Kron(lhs, rhs) && r.e.lhs.kind != Zero && r.e.rhs.kind != Zero
    ensures ResultRows(r) == lhs.m.rows * rhs.m.rows
    ensures ResultColumns(r) == lhs.m.columns * rhs.m.columns
  {
    if lhs.kind == Identity && rhs.kind == Identity then
      IdentityResult(lhs.m.rows * rhs.m.rows)
    else if lhs.kind == Zero || rhs.kind == Zero then
      ZeroResult(lhs.m.rows * rhs.m.rows, lhs.m.columns * rhs.m.columns)
    else
      Expr(Kron(lhs, rhs))
  }

  /** Each shortcut returns exactly the Kronecker product the expression node
    * would have computed. */
  lemma {:induction false} KronOfAgrees(lhs: Operand, rhs: Operand, i: nat, j: nat)
    requires ValidOperand(lhs) && ValidOperand(rhs) && lhs.m.rowMajor && !rhs.m.rowMajor
    requires i < lhs.m.rows * rhs.m.rows && j < lhs.m.columns * rhs.m.columns
    ensures WellFormed(Kron(lhs, rhs))
    ensures ResultGet(KronOf(lhs, rhs), i, j) == Element(Kron(lhs, rhs), i, j)
  {
    if lhs.kind == Identity && rhs.kind == Identity {
      IdentityKron(Kron(lhs, rhs), i, j);
    } else if lhs.kind == Zero || rhs.kind == Zero {
      ZeroKron(Kron(lhs, rhs), i, j);
    }
  }

  lemma {:induction false} IdentityKron(e: Kron, i: nat, j: nat)
    requires WellFormed(e) && e.lhs.kind == Identity && e.rhs.kind == Identity
    requires i < Rows(e) && j < Columns(e)
    ensures Element(e, i, j) == if i == j then 1 else 0
  {
    IdentityBlocks(e, i, j);
    SplitEquality(i, j, M(e));
  }

  lemma {:induction false} IdentityBlocks(e: Kron, i: nat, j: nat)
    requires WellFormed(e) && e.lhs.kind == Identity && e.rhs.kind == Identity
    requires i < Rows(e) && j < Columns(e)
    ensures M(e) == N(e) > 0
    ensures Element(e, i, j) == if i / M(e) == j / N(e) && i % M(e) == j % N(e) then 1 else 0
  {
    BlockBound(i, e.lhs.m.rows, M(e));
    BlockBound(j, e.lhs.m.columns, N(e));
    IdentityProduct(e.lhs.m, e.rhs.m, i / M(e), j / N(e), i % M(e), j % N(e));
  }

  lemma {:induction false} IdentityProduct(a: SparseMatrix, b: SparseMatrix, i: nat, j: nat, k: nat, l: nat)
    requires IsIdentity(a) && IsIdentity(b)
    requires i < a.rows && j < a.columns && k < b.rows && l < b.columns
    ensures Valid(a) && Valid(b)
    ensures Get(a, i, j) * Get(b, k, l) == if i == j && k == l then 1 else 0
  {
    IdentityGet(a, i, j);
    IdentityGet(b, k, l);
    IndicatorProduct(Get(a, i, j), Get(b, k, l), i == j, k == l);
  }

  lemma {:induction false} IndicatorProduct(x: int, y: int, p: bool, q: bool)
    requires x == (if p then 1 else 0) && y == (if q then 1 else 0)
    ensures x * y == if p && q then 1 else 0
  {
  }

  lemma {:induction false} ZeroKron(e: Kron, i: nat, j: nat)
    requires WellFormed(e) && (e.lhs.kind == Zero || e.rhs.kind == Zero)
    requires i < Rows(e) && j < Columns(e)
    ensures Element(e, i, j) == 0
  {
    BlockBound(i, e.lhs.m.rows, M(e));
    BlockBound(j, e.lhs.m.columns, N(e));
    if e.lhs.kind == Zero {
      ZeroGet(e.lhs.m, i / M(e), j / N(e));
    } else {
      ZeroGet(e.rhs.m, i % M(e), j % N(e));
    }
  }
}
