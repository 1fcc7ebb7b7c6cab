# Blaze sparse/dense expression kernels, modelled in Dafny

This project models four expression headers of the Blaze C++ math library:

- **`SMatTSMatKronExpr.h`** is the Kronecker product `kron(A, B)` of a row-major sparse matrix A and a column-major sparse matrix B. The model covers:
  - its element rule, `(i, j) -> A(i / M, j / N) * B(i % M, j % N)`, where B is M x N;
  - the `at` range checks;
  - the dispatch that turns identity ⊗ identity into an identity matrix and anything ⊗ zero into a zero matrix;
  - the assignment kernels into dense targets (`assign`, `addAssign`, `subAssign`, `schurAssign`);
  - the assignment kernels into row-major and column-major compressed targets. These count the non-zeros, reserve room per line, then `append` in index order.
- **`SVecDVecInnerExpr.h`** is the inner product of a sparse row vector and a dense column vector. It has a size check and accumulates the products of the stored entries.
- **`DVecNormExpr.h`** is the family of norms of a dense vector: `norm`, `sqrNorm`, `l1Norm`…`l4Norm`, `lpNorm`, `linfNorm`, `maxNorm`, `sqrLength` and `length`. The model covers:
  - both backends: the scalar kernel, unrolled by 4 and 2, and the SIMD kernel with four accumulating registers and the `N & size_t(-SIMDSIZE)` loop bound;
  - the helper trait that chooses between the two backends.
- **`SMatDeclDiagExpr.h`** is `decldiag(sm)`. The model covers:
  - the squareness check;
  - the view that re-tags a matrix as diagonal and forwards every accessor and every assignment to its operand;
  - returning an already-diagonal matrix unchanged;
  - the `decldiag(B * s) = decldiag(B) * s` rewrite;
  - the type tags of the view.

Matrix and vector elements are modelled as mathematical integers. Sums reordered by unrolling or by SIMD lanes are therefore exact, and every kernel is proved equal to a reference definition:
- the Kronecker product is proved against its element rule;
- the inner product is proved against the dense dot product;
- the norms are proved against the p-norm of the values, sum of |v_i|^p under a p-th root.

Sparse matrices and vectors are sequences of lines of `(index, value)` entries with strictly ascending indices. Each module is in one file:

- `errors.dfy`: `Result` and the exceptions the headers throw
- `index_math.dfy`: division and modulo facts for block indices
- `sparse_lines.dfy`: sparse lines, lookup, counting, compression of a dense line
- `matrices.dfy`: sparse matrices, the identity/zero kinds, structural tags, operands
- `kron_expr.dfy`, `kron_dense.dfy`, `kron_schur.dfy`, `kron_sparse.dfy`, `kron_column_major.dfy`, `kron_count.dfy`, `compressed_target.dfy`: the Kronecker product
- `inner.dfy`: the sparse-dense inner product
- `bitmask.dfy`, `norm.dfy`: the dense vector norms
- `decl_diag.dfy`: the diagonal declaration

## Model

| member | source | states |
|---|---|---|
| KronExpr.ElementBlocks | 3rdparty/blaze/math/expressions/SMatTSMatKronExpr.h:161-165 | element (a*M+k, b*N+l) of the product is A(a,b) * B(k,l), for every block position |
| KronExpr.At | 3rdparty/blaze/math/expressions/SMatTSMatKronExpr.h:176-184 | at succeeds exactly inside the matrix; a bad row throws "Invalid row access index" before the column is checked; a bad column throws "Invalid column access index"; a success returns the element |
| KronExpr.KronOf | 3rdparty/blaze/math/expressions/SMatTSMatKronExpr.h:671-784 | identity ⊗ identity gives an identity result, a zero operand gives a zero result, anything else gives the expression; the result is (rows A · rows B) x (columns A · columns B) |
| KronExpr.KronOfAgrees | 3rdparty/blaze/math/expressions/SMatTSMatKronExpr.h:671-713 | every element of the identity or zero result the dispatch picks equals the element of the general product |
| KronExpr.IdentityKron | 3rdparty/blaze/math/expressions/SMatTSMatKronExpr.h:697-713 | the product of two identity matrices is the identity, which is why the identity result is correct |
| KronExpr.ZeroKron | 3rdparty/blaze/math/expressions/SMatTSMatKronExpr.h:729-744 | the product with a zero matrix is zero everywhere |
| KronExpr.CanAliasOperands | 3rdparty/blaze/math/expressions/SMatTSMatKronExpr.h:255-270 | canAlias and isAliased hold exactly for the address of A or the address of B |
| KronCount.ReservedIsNonZeros | 3rdparty/blaze/math/expressions/SMatTSMatKronExpr.h:212-214 | nonZeros(), that is A.nonZeros() * B.nonZeros(), equals the number of product cells that pair a stored entry of A with one of B, summed over all rows: the total room the row-major kernel reserves |
| KronCount.RowCountsAreNonZeros | 3rdparty/blaze/math/expressions/SMatTSMatKronExpr.h:361-369 | the per-row counts of B that the row-major kernel gathers add up to B.nonZeros() |
| KronDense.UncoveredIsZero | 3rdparty/blaze/math/expressions/SMatTSMatKronExpr.h:316-320 | a cell that pairs no stored entry of A with a stored entry of B is zero, so visiting only stored pairs is enough |
| KronDense.DenseKernel | 3rdparty/blaze/math/expressions/SMatTSMatKronExpr.h:316-320 | the four nested loops update exactly the covered cells with the product element and leave every other cell unchanged |
| KronDense.Assign | 3rdparty/blaze/math/expressions/SMatTSMatKronExpr.h:294-321 | covered cells hold the product element and the rest are untouched; a zero target ends equal to the product |
| KronDense.AddAssign | 3rdparty/blaze/math/expressions/SMatTSMatKronExpr.h:464-491 | every cell of the target grows by the product element |
| KronDense.SubAssign | 3rdparty/blaze/math/expressions/SMatTSMatKronExpr.h:514-541 | every cell of the target shrinks by the product element |
| KronSchur.ResetBlock | 3rdparty/blaze/math/expressions/SMatTSMatKronExpr.h:592-596 | a block whose A entry is absent is zeroed and nothing else changes |
| KronSchur.SchurBlockColumn | 3rdparty/blaze/math/expressions/SMatTSMatKronExpr.h:598-610 | one block column is multiplied by A(i,a)·B(k,l), with the rows B does not store multiplied by zero |
| KronSchur.SchurAssign | 3rdparty/blaze/math/expressions/SMatTSMatKronExpr.h:564-619 | every cell of the target is multiplied by the product element, including the zero blocks between and after the stored entries of A |
| KronSparse.CountRowsOfB | 3rdparty/blaze/math/expressions/SMatTSMatKronExpr.h:361-369 | the per-row counts of B, gathered from its columns, are the number of columns storing each row |
| KronSparse.CountColumnsOfA | 3rdparty/blaze/math/expressions/SMatTSMatKronExpr.h:423-431 | the per-column counts of A, gathered from its rows, are the number of rows storing each column |
| KronSparse.CoveredInRowCount | 3rdparty/blaze/math/expressions/SMatTSMatKronExpr.h:373 | the reservation A.nonZeros(i) * nonzeros[j] for row i*M+j is the exact number of entries that row receives |
| KronSparse.ReserveRows | 3rdparty/blaze/math/expressions/SMatTSMatKronExpr.h:371-376 | every row's capacity grows to at least its reservation and the stored entries are untouched |
| KronSparse.AppendScaledRows | 3rdparty/blaze/math/expressions/SMatTSMatKronExpr.h:381-382 | appending A(i,a)·B(k,l) for each stored k of one column of B extends exactly rows lo+k by one entry at column a*N+l |
| KronSparse.FillRows | 3rdparty/blaze/math/expressions/SMatTSMatKronExpr.h:378-382 | after the append loops every row holds the compressed product row, without exceeding the reservation |
| KronSparse.AssignRowMajor | 3rdparty/blaze/math/expressions/SMatTSMatKronExpr.h:339-383 | every row of the empty row-major target ends holding exactly the non-zero product elements in ascending column order, so it reads back the product everywhere |
| KronColumnMajor.CoveredInColumnCount | 3rdparty/blaze/math/expressions/SMatTSMatKronExpr.h:435 | the reservation nonzeros[i] * B.nonZeros(j) for column i*N+j is the exact number of entries that column receives |
| KronColumnMajor.ReserveColumns | 3rdparty/blaze/math/expressions/SMatTSMatKronExpr.h:433-438 | every column's capacity grows to at least its reservation and the stored entries are untouched |
| KronColumnMajor.AppendScaledColumn | 3rdparty/blaze/math/expressions/SMatTSMatKronExpr.h:443-444 | appending one column of B scaled by A(i,a) extends one target column up to the end of the block |
| KronColumnMajor.FillColumns | 3rdparty/blaze/math/expressions/SMatTSMatKronExpr.h:440-444 | after the append loops every column holds the compressed product column |
| KronColumnMajor.AssignColumnMajor | 3rdparty/blaze/math/expressions/SMatTSMatKronExpr.h:401-445 | every column of the empty column-major target ends holding exactly the non-zero product elements in ascending row order, so it reads back the product everywhere |
| CompressedTargets.CompressedTarget.Reserve | 3rdparty/blaze/math/expressions/SMatTSMatKronExpr.h:373 | reserve raises one line's capacity to at least n and changes nothing else |
| CompressedTargets.CompressedTarget.Append | 3rdparty/blaze/math/expressions/SMatTSMatKronExpr.h:382 | append with check set stores the entry only when its value is non-zero, and always at the end of the line |
| SparseLines.CompressLookup | 3rdparty/blaze/math/expressions/SMatTSMatKronExpr.h:382 | a line compressed from dense values stores exactly the non-zero values and reads back every value |
| InnerProduct.Multiply | 3rdparty/blaze/math/expressions/SVecDVecInnerExpr.h:98-136 | a size mismatch throws "Vector sizes do not match" and nothing else does; otherwise the result is the sum of value * rhs[index] over the stored entries, and zero when none are stored |
| InnerProduct.StoredSumIsDot | 3rdparty/blaze/math/expressions/SVecDVecInnerExpr.h:123-135 | the sparse accumulation equals the dense dot product of the written-out sparse vector with the dense one |
| InnerProduct.StoredSumReadsOnlyStored | 3rdparty/blaze/math/expressions/SVecDVecInnerExpr.h:126-132 | only the dense elements at stored indices influence the result |
| VectorNorms.ScalarBackend | 3rdparty/blaze/math/expressions/DVecNormExpr.h:153-180 | the scalar kernel, unrolled by 4 and then 2, gives RT() for an empty vector and otherwise the root of the sum of power(abs(x_i)) |
| VectorNorms.LoadBound | 3rdparty/blaze/math/expressions/DVecNormExpr.h:219-222 | ipos is N rounded down to a multiple of SIMDSIZE when a remainder loop runs, and otherwise N lies within the padded, zero-filled storage up to a multiple of SIMDSIZE |
| BitMask.RoundDownMask | 3rdparty/blaze/math/expressions/DVecNormExpr.h:219-220 | N & size_t(-SIMDSIZE) in a w-bit size_t is N - N % SIMDSIZE for a power-of-two SIMDSIZE |
| VectorNorms.AccumulateRegisters | 3rdparty/blaze/math/expressions/DVecNormExpr.h:227-239 | the three SIMD loops stop at an aligned i at or beyond ipos, with the lanes of the four registers summing to the terms below i |
| VectorNorms.SimdBackend | 3rdparty/blaze/math/expressions/DVecNormExpr.h:205-248 | the SIMD kernel, with its remainder loop or the zero padding, gives the same value as the scalar definition |
| VectorNorms.NormBackend | 3rdparty/blaze/math/expressions/DVecNormExpr.h:279-282 | whichever backend the helper trait selects, the result is RT() for an empty vector and the rooted sum otherwise |
| VectorNorms.BackendIsPNorm | 3rdparty/blaze/math/expressions/DVecNormExpr.h:153-180 | with a plug-in pair computing \|x\|^p and a p-th root, the backend yields the p-norm of the vector's values |
| VectorNorms.Norm | 3rdparty/blaze/math/expressions/DVecNormExpr.h:304-309 | norm is the 2-norm |
| VectorNorms.SqrNorm | 3rdparty/blaze/math/expressions/DVecNormExpr.h:330-335 | sqrNorm is the unrooted sum of squares |
| VectorNorms.L1Norm | 3rdparty/blaze/math/expressions/DVecNormExpr.h:356-361 | l1Norm is the sum of absolute values |
| VectorNorms.L2Norm | 3rdparty/blaze/math/expressions/DVecNormExpr.h:382-387 | l2Norm is the 2-norm |
| VectorNorms.L3Norm | 3rdparty/blaze/math/expressions/DVecNormExpr.h:408-413 | l3Norm is the 3-norm |
| VectorNorms.L4Norm | 3rdparty/blaze/math/expressions/DVecNormExpr.h:434-439 | l4Norm, computed as (\|x\|^2)^2 under a fourth root, is the 4-norm |
| VectorNorms.LpNorm | 3rdparty/blaze/math/expressions/DVecNormExpr.h:466-475 | lpNorm(dv, p) with non-zero p is the p-norm |
| VectorNorms.StaticLpNorm | 3rdparty/blaze/math/expressions/DVecNormExpr.h:501-509 | whichever norm lpNorm<P> selects, the result is the P-norm |
| VectorNorms.LinfNorm | 3rdparty/blaze/math/expressions/DVecNormExpr.h:530-535 | linfNorm bounds every absolute value and equals one of them |
| VectorNorms.MaxNorm | 3rdparty/blaze/math/expressions/DVecNormExpr.h:556-561 | maxNorm is the infinity norm |
| VectorNorms.SqrLength | 3rdparty/blaze/math/expressions/DVecNormExpr.h:577-580 | sqrLength is the squared 2-norm |
| VectorNorms.Length | 3rdparty/blaze/math/expressions/DVecNormExpr.h:596-599 | length is the 2-norm |
| DeclDiag.At | 3rdparty/blaze/math/expressions/SMatDeclDiagExpr.h:195-203 | at on the view succeeds exactly inside the matrix, throws the row error before the column error, and returns the operand's element |
| DeclDiag.ViewForwards | 3rdparty/blaze/math/expressions/SMatDeclDiagExpr.h:180-300 | the view has the operand's rows, columns, elements, non-zero counts per matrix and per line, and aliasing |
| DeclDiag.AssignView | 3rdparty/blaze/math/expressions/SMatDeclDiagExpr.h:330-585 | assign, addAssign, subAssign, schurAssign and multAssign of the view, each forwarding to the operand, leave the target as the view's own values would |
| DeclDiag.ViewAssignsAsOperand | 3rdparty/blaze/math/expressions/SMatDeclDiagExpr.h:330-585 | for every assignment kind, assigning the view and assigning its operand give the same target |
| DeclDiag.DeclDiagOf | 3rdparty/blaze/math/expressions/SMatDeclDiagExpr.h:951-999 | decldiag throws "Invalid diagonal matrix specification" exactly when the matrix is not square |
| DeclDiag.DeclDiagKeepsValue | 3rdparty/blaze/math/expressions/SMatDeclDiagExpr.h:893-999 | a successful declaration is a valid expression with the same shape and the same elements |
| DeclDiag.DeclDiagIsDiagonal | 3rdparty/blaze/math/expressions/SMatDeclDiagExpr.h:893-999 | whatever decldiag returns, its type is tagged lower and upper, that is diagonal |
| DeclDiag.DiagonalReturnedAsIs | 3rdparty/blaze/math/expressions/SMatDeclDiagExpr.h:916-926 | a square matrix whose type is already diagonal is returned itself, with no view |
| DeclDiag.DeclDiagIdempotent | 3rdparty/blaze/math/expressions/SMatDeclDiagExpr.h:916-960 | declaring a declared matrix returns it unchanged |
| DeclDiag.ScaledRestructured | 3rdparty/blaze/math/expressions/SMatDeclDiagExpr.h:990-999 | decldiag(B * s) for a non-diagonal square B is decldiag(B) * s |
| DeclDiag.ViewTags | 3rdparty/blaze/math/expressions/SMatDeclDiagExpr.h:1014-1143 | the view is symmetric, lower and upper, and hermitian, uni-lower, uni-upper, strictly lower and strictly upper only when its operand is |

## Left out

- Floating point: elements are exact integers. Rounding, `sqrt`, `cbrt` and the fourth root are not modelled. A norm with a root is kept symbolic as `Rooted(degree, radicand)`, and `inv(p)` of `lpNorm` is that degree.
- VectorNorms.LpNorm: p is a natural number. Real and negative exponents are not modelled.
- VectorNorms.ValidPlug: the SIMD backend's proof needs power(abs(0)) == 0, which every plug-in pair the wrappers pass satisfies. Arbitrary user functors are not modelled.
- VectorNorms.ValidOperand: a vector's size is below 2^w for a w-bit `size_t`. The model takes the width as a parameter, because the platform sets it.
- VectorNorms.LinfNorm: the maximum of an empty vector is taken to be zero. `max` of an empty vector lives outside these headers.
- The vector sum `sum(xmm1 + …)` and the SIMD `load` are modelled lane by lane. Intrinsics, alignment and register width beyond `SIMDSIZE` lanes are not modelled.
- SMP (shared-memory parallel) assignments of the diagonal view are left out. These are `smpAssign`, `smpAddAssign`, `smpSubAssign`, `smpSchurAssign` and `smpMultAssign`, and they forward to the operand in the same way as the serial assignments. Threads are out of scope.
- The `UseAssign_v` / `UseSMPAssign_v` selection between the forwarding kernels and Blaze's default element-wise evaluation is left out. Both produce the same values.
- Iterators (`begin`, `end`, `ConstIterator`) and `leftOperand` / `rightOperand` / `operand` accessors are left out. They expose the operands, which the model holds directly.
- Kron `nonZeros(i)` is left out. It returns a fixed estimate rather than a count.
- DeclDiag.ValidExpr: a scalar-multiplication expression carries its operand's tags, counts and aliasing, and its operand's elements scaled by s. `SMatScalarMultExpr.h` is not part of this model.
- DeclDiag.AssignView: the assignment targets are modelled by their values, as rows of integers. Dense versus compressed storage of the target is not distinguished.
- KronDense.Assign: only the cells covered by stored pairs are written, as in the header. Resetting the target beforehand belongs to the caller and is not part of this model.
- `BLAZE_INTERNAL_ASSERT` shape checks and compile-time `BLAZE_CONSTRAINT`s become preconditions. `BLAZE_USER_ASSERT` on p is also a precondition (p != 0).
- `serial(...)` evaluation of the operands and `BLAZE_FUNCTION_TRACE` are left out. They have no effect on the values.
