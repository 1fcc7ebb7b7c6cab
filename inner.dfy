/** The inner product of a sparse row vector and a dense column vector:
  * `operator*( SparseVector<VT1,true>, DenseVector<VT2,false> )`. The sizes
  * are checked first; then the products value * right[index] of the stored
  * entries are accumulated in ascending index order. */
module InnerProduct {
  import opened Errors
  import opened SparseLines

  /** A sparse vector: its size and its stored entries. */
  datatype SparseVector = SparseVector(size: nat, entries: seq<Entry>)

  /** The stored entries lie inside the vector in strictly ascending order. */
  predicate ValidVector(v: SparseVector) {
    ValidLine(v.entries, v.size)
  }

  /** Every stored index can be used to read `right`. */
  predicate ReadsWithin(entries: seq<Entry>, right: seq<int>) {
    forall p :: 0 <= p < |entries| ==> entries[p].index < |right|
  }

  /** The sum over the first q stored entries of value * right[index]. */
  function StoredSum(entries: seq<Entry>, right: seq<int>, q: nat): int
    requires q <= |entries| && ReadsWithin(entries, right)
  {
    if q == 0 then 0
    else StoredSum(entries, right, q - 1) + entries[q - 1].value * right[entries[q - 1].index]
  }

  /** The error thrown when the operand sizes differ. */
  const SizeMismatch: Error := InvalidArgument("Vector sizes do not match")

  /** `lhs * rhs`: throws on a size mismatch before reading any element;
    * otherwise the sum of value * rhs[index] over the stored entries of lhs,
    * which is the value-initialised zero when lhs stores nothing. */
  method Multiply(lhs: SparseVector, rhs: seq<int>) returns (r: Result<int>)
    requires ValidVector(lhs)
    ensures lhs.size != |rhs| <==> r.Err?
    ensures r.Err? ==> r.error == SizeMismatch
    ensures r.Ok? ==> ReadsWithin(lhs.entries, rhs) && r.value == StoredSum(lhs.entries, rhs, |lhs.entries|)
    ensures r.Ok? && lhs.entries == [] ==> r.value == 0
  {
    if lhs.size != |rhs| {
      return Err(SizeMismatch);
    }
    var entries := lhs.entries;
    var sp := 0;
    if |entries| > 0 {
      sp := entries[0].value * rhs[entries[0].index];
      var p := 1;
      while p < |entries|
        invariant 1 <= p <= |entries|
        invariant sp == StoredSum(entries, rhs, p)
      {
        sp := sp + entries[p].value * rhs[entries[p].index];
        p := p + 1;
      }
    }
    return Ok(sp);
  }

  /** The sparse vector written out densely: a stored value at its index and
    * zero everywhere else. */
  function Dense(entries: seq<Entry>, n: nat): (d: seq<int>)
    ensures |d| == n && forall k :: 0 <= k < n ==> d[k] == Lookup(entries, k)
  {
    seq(n, (k: int) requires 0 <= k < n => Lookup(entries, k))
  }

  /** The textbook dot product of two dense vectors of one size. */
  function Dot(x: seq<int>, y: seq<int>): int
    requires |x| == |y|
  {
    if |x| == 0 then 0 else Dot(x[..|x| - 1], y[..|y| - 1]) + x[|x| - 1] * y[|y| - 1]
  }

  /** The dot product with an all-zero vector is zero. */
  lemma {:induction false} DotZero(x: seq<int>, y: seq<int>)
    requires |x| == |y| && forall k :: 0 <= k < |x| ==> x[k] == 0
    ensures Dot(x, y) == 0
  {
    if |x| > 0 {
      DotZero(x[..|x| - 1], y[..|y| - 1]);
    }
  }

  /** Changing one element of x changes the dot product by the change times
    * the matching element of y. */
  lemma {:induction false} DotUpdate(x: seq<int>, y: seq<int>, i: nat, v: int)
    requires |x| == |y| && i < |x|
    ensures Dot(x[i := v], y) + x[i] * y[i] == Dot(x, y) + v * y[i]
  {
    var n := |x|;
    if i < n - 1 {
      assert x[i := v][..n - 1] == x[..n - 1][i := v];
      DotUpdate(x[..n - 1], y[..n - 1], i, v);
    } else {
      assert x[i := v][..n - 1] == x[..n - 1];
    }
  }

  /** Writing out the first q + 1 stored entries sets one more element. */
  lemma {:induction false} DenseStep(entries: seq<Entry>, n: nat, q: nat)
    requires ValidLine(entries, n) && q < |entries|
    ensures Dense(entries[..q + 1], n) == Dense(entries[..q], n)[entries[q].index := entries[q].value]
    ensures Dense(entries[..q], n)[entries[q].index] == 0
  {
    var i := entries[q].index;
    assert entries[..q + 1][..q] == entries[..q];
    NotInPrefix(entries, n, q);
    LookupAbsent(entries[..q], i);
  }

  /** The accumulated sum over the first q stored entries is the dense dot
    * product of those entries, written out, with right. */
  lemma {:induction false} StoredSumPrefix(entries: seq<Entry>, right: seq<int>, q: nat)
    requires ValidLine(entries, |right|) && q <= |entries|
    ensures StoredSum(entries, right, q) == Dot(Dense(entries[..q], |right|), right)
  {
    var n := |right|;
    if q == 0 {
      DotZero(Dense(entries[..0], n), right);
    } else {
      StoredSumPrefix(entries, right, q - 1);
      DenseStep(entries, n, q - 1);
      DotUpdate(Dense(entries[..q - 1], n), right, entries[q - 1].index, entries[q - 1].value);
    }
  }

  /** The sparse inner product equals the dense dot product of the written-out
    * sparse vector with the dense one. */
  lemma {:induction false} StoredSumIsDot(v: SparseVector, right: seq<int>)
    requires ValidVector(v) && v.size == |right|
    ensures ReadsWithin(v.entries, right)
    ensures StoredSum(v.entries, right, |v.entries|) == Dot(Dense(v.entries, v.size), right)
  {
    StoredSumPrefix(v.entries, right, |v.entries|);
    assert v.entries[..|v.entries|] == v.entries;
  }

  /** Only the elements of the dense vector at stored indices are read: two
    * dense vectors that agree there give the same sum. */
  lemma {:induction false} StoredSumReadsOnlyStored(entries: seq<Entry>, right: seq<int>, other: seq<int>, q: nat)
    requires q <= |entries| && ReadsWithin(entries, right) && ReadsWithin(entries, other)
    requires forall p :: 0 <= p < |entries| ==> right[entries[p].index] == other[entries[p].index]
    ensures StoredSum(entries, right, q) == StoredSum(entries, other, q)
  {
    if q > 0 {
      StoredSumReadsOnlyStored(entries, right, other, q - 1);
    }
  }
}
