/** The diagonal declaration of a sparse matrix expression: `decldiag(sm)`
  * checks that the matrix is square and wraps it in a view whose type is
  * tagged diagonal, unless its type already is; a scaled matrix `B * s` is
  * restructured into `decldiag(B) * s`. The view adds no computation: every
  * accessor and every assignment forwards to the wrapped operand. */
module DeclDiag {
  import opened Errors
  import opened SparseLines
  import opened Matrices

  /** A sparse matrix expression: a matrix object, a diagonal declaration
    * view (`SMatDeclDiagExpr`), or a matrix-scalar multiplication. */
  datatype Expr =
    | Plain(o: Operand)
    | DeclDiagView(sm: Expr)
    | ScalarMult(left: Expr, scalar: int)

  function Rows(e: Expr): nat {
    match e
    case Plain(o) => o.m.rows
    case DeclDiagView(sm) => Rows(sm)
    case ScalarMult(l, _) => Rows(l)
  }

  function Columns(e: Expr): nat {
    match e
    case Plain(o) => o.m.columns
    case DeclDiagView(sm) => Columns(sm)
    case ScalarMult(l, _) => Columns(l)
  }

  predicate IsSquare(e: Expr) {
    Rows(e) == Columns(e)
  }

  /** The structural tags of an expression's type. A view is symmetric, lower
    * and upper, and inherits hermitian, uni- and strictly-lower/upper from its
    * operand; a scalar multiple carries the tags of the scaled matrix. */
  function TagsOf(e: Expr): Tags {
    match e
    case Plain(o) => o.tags
    case DeclDiagView(sm) =>
      var t := TagsOf(sm);
      Tags(symmetric := true, hermitian := t.hermitian, lower := true, upper := true,
           uniLower := t.uniLower, uniUpper := t.uniUpper,
           strictlyLower := t.strictlyLower, strictlyUpper := t.strictlyUpper)
    case ScalarMult(l, _) => TagsOf(l)
  }

  /** A view wraps a square operand whose type is not already diagonal. */
  predicate ValidExpr(e: Expr) {
    match e
    case Plain(o) => ValidOperand(o)
    case DeclDiagView(sm) => ValidExpr(sm) && IsSquare(sm) && !IsDiagonal(TagsOf(sm))
    case ScalarMult(l, _) => ValidExpr(l)
  }

  /** `operator()(i, j)`: a view returns its operand's element unchanged. */
  function Element(e: Expr, i: nat, j: nat): int
    requires ValidExpr(e) && i < Rows(e) && j < Columns(e)
  {
    match e
    case Plain(o) => Get(o.m, i, j)
    case DeclDiagView(sm) => Element(sm, i, j)
    case ScalarMult(l, s) => Element(l, i, j) * s
  }

  /** The number of lines (rows or columns, by storage order). */
  function LineCountOf(e: Expr): nat {
    match e
    case Plain(o) => LineCount(o.m)
    case DeclDiagView(sm) => LineCountOf(sm)
    case ScalarMult(l, _) => LineCountOf(l)
  }

  /** `nonZeros()`: a view reports its operand's count. */
  function NonZerosOf(e: Expr): nat {
    match e
    case Plain(o) => NonZeros(o.m)
    case DeclDiagView(sm) => NonZerosOf(sm)
    case ScalarMult(l, _) => NonZerosOf(l)
  }

  /** `nonZeros(i)`: a view reports its operand's count for line i. */
  function NonZerosOfLine(e: Expr, i: nat): nat
    requires ValidExpr(e) && i < LineCountOf(e)
  {
    match e
    case Plain(o) => NonZerosIn(o.m, i)
    case DeclDiagView(sm) => NonZerosOfLine(sm, i)
    case ScalarMult(l, _) => NonZerosOfLine(l, i)
  }

  /** `canAlias(alias)` and `isAliased(alias)`: for a matrix object both are
    * the address comparison, and a view asks its operand. */
  predicate Aliases(e: Expr, alias: nat) {
    match e
    case Plain(o) => OperandAliases(o, alias)
    case DeclDiagView(sm) => Aliases(sm, alias)
    case ScalarMult(l, _) => Aliases(l, alias)
  }

  /** `at(i, j)` of the view: out-of-range on a bad row, then on a bad column,
    * otherwise the element. */
  function At(sm: Expr, i: nat, j: nat): (r: Result<int>)
    requires ValidExpr(DeclDiagView(sm))
    ensures r.Ok? <==> i < Rows(sm) && j < Columns(sm)
    ensures i >= Rows(sm) ==> r == Err(OutOfRange("Invalid row access index"))
    ensures i < Rows(sm) && j >= Columns(sm) ==> r == Err(OutOfRange("Invalid column access index"))
    ensures r.Ok? ==> r.value == Element(sm, i, j)
  {
    var v := DeclDiagView(sm);
    if i >= Rows(v) then Err(OutOfRange("Invalid row access index"))
    else if j >= Columns(v) then Err(OutOfRange("Invalid column access index"))
    else Ok(Element(v, i, j))
  }

  /** The view is the same matrix as its operand: same shape, same elements,
    * same counts, same aliasing. */
  lemma {:induction false} ViewForwards(sm: Expr)
    requires ValidExpr(DeclDiagView(sm))
    ensures Rows(DeclDiagView(sm)) == Rows(sm) && Columns(DeclDiagView(sm)) == Columns(sm)
    ensures forall i: nat, j: nat :: i < Rows(sm) && j < Columns(sm) ==> Element(DeclDiagView(sm), i, j) == Element(sm, i, j)
    ensures NonZerosOf(DeclDiagView(sm)) == NonZerosOf(sm)
    ensures forall i: nat :: i < LineCountOf(sm) ==> NonZerosOfLine(DeclDiagView(sm), i) == NonZerosOfLine(sm, i)
    ensures forall alias :: Aliases(DeclDiagView(sm), alias) == Aliases(sm, alias)
  {
  }

  /** The message thrown for a non-square matrix. */
  const NotSquare: Error := InvalidArgument("Invalid diagonal matrix specification")

  /** `decldiag_backend`: a type already tagged diagonal is returned as itself,
    * anything else is wrapped in the view. */
  function Backend(e: Expr): Expr {
    if IsDiagonal(TagsOf(e)) then e else DeclDiagView(e)
  }

  /** `decldiag(sm)`: invalid-argument for a non-square matrix; a scaled
    * matrix whose type is not diagonal becomes `decldiag(B) * s`; otherwise
    * the backend's result. */
  function DeclDiagOf(e: Expr): (r: Result<Expr>)
    ensures r.Err? <==> !IsSquare(e)
    ensures r.Err? ==> r.error == NotSquare
  {
    if !IsSquare(e) then Err(NotSquare)
    else match e
      case ScalarMult(l, s) =>
        if IsDiagonal(TagsOf(l)) then Ok(Backend(e))
        else
          var d := DeclDiagOf(l);
          if d.Err? then d else Ok(ScalarMult(d.value, s))
      case _ => Ok(Backend(e))
  }

  /** The declared expression is a valid expression of the same shape and
    * the same elements as the given one. */
  lemma {:induction false} DeclDiagKeepsValue(e: Expr)
    requires ValidExpr(e) && IsSquare(e)
    ensures DeclDiagOf(e).Ok? && ValidExpr(DeclDiagOf(e).value)
    ensures Rows(DeclDiagOf(e).value) == Rows(e) && Columns(DeclDiagOf(e).value) == Columns(e)
    ensures forall i: nat, j: nat :: i < Rows(e) && j < Columns(e) ==> Element(DeclDiagOf(e).value, i, j) == Element(e, i, j)
  {
    if e.ScalarMult? && !IsDiagonal(TagsOf(e.left)) {
      DeclDiagKeepsValue(e.left);
      var d := DeclDiagOf(e.left).value;
      assert DeclDiagOf(e).value == ScalarMult(d, e.scalar);
      forall i: nat, j: nat | i < Rows(e) && j < Columns(e)
        ensures Element(DeclDiagOf(e).value, i, j) == Element(e, i, j)
      {
        assert Element(ScalarMult(d, e.scalar), i, j) == Element(d, i, j) * e.scalar;
      }
    }
  }

  /** Whatever `decldiag` returns, its type is tagged diagonal. */
  lemma {:induction false} DeclDiagIsDiagonal(e: Expr)
    requires IsSquare(e)
    ensures DeclDiagOf(e).Ok? && IsDiagonal(TagsOf(DeclDiagOf(e).value))
  {
    if e.ScalarMult? && !IsDiagonal(TagsOf(e.left)) {
      DeclDiagIsDiagonal(e.left);
    }
  }

  /** A square expression whose type is already diagonal is returned as
    * itself, with no view around it. */
  lemma {:induction false} DiagonalReturnedAsIs(e: Expr)
    requires IsSquare(e) && IsDiagonal(TagsOf(e))
    ensures DeclDiagOf(e) == Ok(e)
  {
  }

  /** Declaring twice is declaring once. */
  lemma {:induction false} DeclDiagIdempotent(e: Expr)
    requires IsSquare(e)
    ensures DeclDiagOf(e).Ok? && DeclDiagOf(DeclDiagOf(e).value) == DeclDiagOf(e)
  {
    DeclDiagIsDiagonal(e);
    DeclDiagShape(e);
    DiagonalReturnedAsIs(DeclDiagOf(e).value);
  }

  /** The declared expression keeps the shape. */
  lemma {:induction false} DeclDiagShape(e: Expr)
    requires IsSquare(e)
    ensures DeclDiagOf(e).Ok? && Rows(DeclDiagOf(e).value) == Rows(e) && Columns(DeclDiagOf(e).value) == Columns(e)
  {
    if e.ScalarMult? && !IsDiagonal(TagsOf(e.left)) {
      DeclDiagShape(e.left);
    }
  }

  /** `decldiag(B * s)` for a square B whose type is not diagonal is
    * `decldiag(B) * s`, the view of B scaled by s. */
  lemma {:induction false} ScaledRestructured(b: Expr, s: int)
    requires IsSquare(b) && !IsDiagonal(TagsOf(b)) && !b.ScalarMult?
    ensures DeclDiagOf(ScalarMult(b, s)) == Ok(ScalarMult(DeclDiagView(b), s))
  {
  }

  /** The tags of the view: symmetric, lower and upper always; hermitian and
    * the uni- and strictly-triangular tags only when the operand has them. */
  lemma {:induction false} ViewTags(sm: Expr)
    ensures var t := TagsOf(DeclDiagView(sm));
            t.symmetric && t.lower && t.upper && IsDiagonal(t) &&
            t.hermitian == TagsOf(sm).hermitian &&
            t.uniLower == TagsOf(sm).uniLower && t.uniUpper == TagsOf(sm).uniUpper &&
            t.strictlyLower == TagsOf(sm).strictlyLower && t.strictlyUpper == TagsOf(sm).strictlyUpper
  {
  }

  // ---------------------------------------------------------------------
  // The assignment family
  // ---------------------------------------------------------------------

  /** The assignment kinds a view forwards: `assign`, `addAssign`,
    * `subAssign`, `schurAssign` and `multAssign`. */
  datatype AssignKind = Assign | AddAssign | SubAssign | SchurAssign | MultAssign

  /** A target matrix, by its values: rows by columns. */
  predicate Shaped(t: seq<seq<int>>, rows: nat, columns: nat) {
    |t| == rows && forall i :: 0 <= i < rows ==> |t[i]| == columns
  }

  /** Row i of the target times column j of the expression, over the first k
    * terms. */
  function RowTimesColumn(t: seq<seq<int>>, e: Expr, i: nat, j: nat, k: nat): int
    requires ValidExpr(e) && Shaped(t, |t|, Rows(e)) && i < |t| && j < Columns(e) && k <= Rows(e)
  {
    if k == 0 then 0 else RowTimesColumn(t, e, i, j, k - 1) + t[i][k - 1] * Element(e, k - 1, j)
  }

  /** The new value of target cell (i, j) under an assignment kind. */
  function Cell(kind: AssignKind, t: seq<seq<int>>, e: Expr, i: nat, j: nat): int
    requires ValidExpr(e) && Shaped(t, |t|, Columns(e)) && i < |t| && j < Columns(e)
    requires kind == MultAssign ==> IsSquare(e)
    requires kind != MultAssign ==> |t| == Rows(e)
  {
    match kind
    case Assign => Element(e, i, j)
    case AddAssign => t[i][j] + Element(e, i, j)
    case SubAssign => t[i][j] - Element(e, i, j)
    case SchurAssign => t[i][j] * Element(e, i, j)
    case MultAssign => RowTimesColumn(t, e, i, j, Rows(e))
  }

  /** What an assignment of a matrix expression does to a target of matching
    * shape (for `multAssign` the expression is square and matches the
    * target's columns). */
  function Apply(kind: AssignKind, t: seq<seq<int>>, e: Expr): (r: seq<seq<int>>)
    requires ValidExpr(e) && Shaped(t, |t|, Columns(e))
    requires kind == MultAssign ==> IsSquare(e)
    requires kind != MultAssign ==> |t| == Rows(e)
    ensures Shaped(r, |t|, Columns(e))
  {
    seq(|t|, (i: int) requires 0 <= i < |t| =>
      seq(Columns(e), (j: int) requires 0 <= j < Columns(e) => Cell(kind, t, e, i, j)))
  }

  /** The view's assignment functions: each forwards to the same assignment
    * with the operand. */
  function AssignView(kind: AssignKind, t: seq<seq<int>>, sm: Expr): (r: seq<seq<int>>)
    requires ValidExpr(DeclDiagView(sm)) && Shaped(t, |t|, Columns(sm))
    requires kind != MultAssign ==> |t| == Rows(sm)
    ensures r == Apply(kind, t, DeclDiagView(sm))
  {
    ViewAssignsAsOperand(kind, t, sm);
    Apply(kind, t, sm)
  }

  /** Assigning the view and assigning its operand leave the target in the
    * same state, for every assignment kind. */
  lemma {:induction false} ViewAssignsAsOperand(kind: AssignKind, t: seq<seq<int>>, sm: Expr)
    requires ValidExpr(DeclDiagView(sm)) && Shaped(t, |t|, Columns(sm))
    requires kind != MultAssign ==> |t| == Rows(sm)
    ensures Apply(kind, t, DeclDiagView(sm)) == Apply(kind, t, sm)
  {
    var v := DeclDiagView(sm);
    forall i, j | 0 <= i < |t| && 0 <= j < Columns(sm)
      ensures Cell(kind, t, v, i, j) == Cell(kind, t, sm, i, j)
    {
      if kind == MultAssign {
        ViewProducts(t, sm, i, j, Rows(sm));
      }
    }
    assert forall i :: 0 <= i < |t| ==> Apply(kind, t, v)[i] == Apply(kind, t, sm)[i];
  }

  /** Row-times-column products through the view are those through the operand. */
  lemma {:induction false} ViewProducts(t: seq<seq<int>>, sm: Expr, i: nat, j: nat, k: nat)
    requires ValidExpr(DeclDiagView(sm)) && Shaped(t, |t|, Rows(sm)) && i < |t| && j < Columns(sm) && k <= Rows(sm)
    ensures RowTimesColumn(t, DeclDiagView(sm), i, j, k) == RowTimesColumn(t, sm, i, j, k)
  {
    if k > 0 {
      ViewProducts(t, sm, i, j, k - 1);
    }
  }
}
