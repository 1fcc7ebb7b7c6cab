/** Sparse matrix operands: compressed storage in row-major or column-major
  * order, the identity and zero adaptors, the structural property tags a
  * matrix type carries, and the object address used for alias checks. */
module Matrices {
  import opened SparseLines

  /** A compressed sparse matrix. Its lines are its rows when `rowMajor`
    * holds and its columns otherwise. */
  datatype SparseMatrix = SparseMatrix(rows: nat, columns: nat, rowMajor: bool, lines: seq<seq<Entry>>)

  /** The number of lines: rows for row-major storage, columns otherwise. */
  function LineCount(m: SparseMatrix): nat {
    if m.rowMajor then m.rows else m.columns
  }

  /** The extent of a line: columns for row-major storage, rows otherwise. */
  function LineLength(m: SparseMatrix): nat {
    if m.rowMajor then m.columns else m.rows
  }

  predicate Valid(m: SparseMatrix) {
    |m.lines| == LineCount(m) &&
    forall l {:trigger ValidLine(m.lines[l], LineLength(m))} :: 0 <= l < |m.lines| ==> ValidLine(m.lines[l], LineLength(m))
  }

  /** Element (i, j): the stored value or zero. */
  function Get(m: SparseMatrix, i: nat, j: nat): int
    requires Valid(m) && i < m.rows && j < m.columns
  {
    if m.rowMajor then Lookup(m.lines[i], j) else Lookup(m.lines[j], i)
  }

  /** The total number of stored entries of a sequence of lines. */
  function TotalEntries(lines: seq<seq<Entry>>): nat {
    if lines == [] then 0 else TotalEntries(lines[..|lines| - 1]) + |lines[|lines| - 1]|
  }

  /** `nonZeros()`: the number of stored entries. */
  function NonZeros(m: SparseMatrix): nat {
    TotalEntries(m.lines)
  }

  /** `nonZeros(l)`: the number of stored entries of line l. */
  function NonZerosIn(m: SparseMatrix, l: nat): nat
    requires l < |m.lines|
  {
    |m.lines[l]|
  }

  /** The identity adaptor's storage: square, one unit entry on the diagonal
    * of every line. */
  predicate IsIdentity(m: SparseMatrix) {
    m.rows == m.columns && |m.lines| == m.rows &&
    forall l :: 0 <= l < |m.lines| ==> m.lines[l] == [Entry(l, 1)]
  }

  /** The zero adaptor's storage: no line stores anything. */
  predicate IsZero(m: SparseMatrix) {
    |m.lines| == LineCount(m) && forall l :: 0 <= l < |m.lines| ==> m.lines[l] == []
  }

  lemma {:induction false} IdentityGet(m: SparseMatrix, i: nat, j: nat)
    requires IsIdentity(m) && i < m.rows && j < m.columns
    ensures Valid(m) && Get(m, i, j) == if i == j then 1 else 0
  {
    var l, x := if m.rowMajor then i else j, if m.rowMajor then j else i;
    assert Lookup(m.lines[l], x) == if l == x then 1 else Lookup([], x);
  }

  lemma {:induction false} ZeroGet(m: SparseMatrix, i: nat, j: nat)
    requires IsZero(m) && i < m.rows && j < m.columns
    ensures Valid(m) && Get(m, i, j) == 0
  {
  }

  /** The compile-time kind of a matrix type: a general sparse matrix, or one
    * of the identity and zero adaptors. */
  datatype Kind = General | Identity | Zero

  /** The structural type traits of a matrix type (IsSymmetric, IsHermitian,
    * IsLower, IsUpper, IsUniLower, IsUniUpper, IsStrictlyLower, IsStrictlyUpper). */
  datatype Tags = Tags(symmetric: bool, hermitian: bool, lower: bool, upper: bool,
                       uniLower: bool, uniUpper: bool, strictlyLower: bool, strictlyUpper: bool)

  /** IsDiagonal: lower and upper at once. */
  predicate IsDiagonal(t: Tags) {
    t.lower && t.upper
  }

  /** A matrix object: its value, its type's kind and tags, and its address. */
  datatype Operand = Operand(m: SparseMatrix, kind: Kind, tags: Tags, addr: nat)

  predicate ValidOperand(o: Operand) {
    Valid(o.m) &&
    (o.kind == Identity ==> IsIdentity(o.m)) &&
    (o.kind == Zero ==> IsZero(o.m))
  }

  /** `canAlias` / `isAliased` of a plain matrix: the alias is the matrix itself. */
  predicate OperandAliases(o: Operand, alias: nat) {
    o.addr == alias
  }
}
