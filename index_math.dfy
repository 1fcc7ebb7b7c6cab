/** Euclidean index decomposition used by the Kronecker kernels: a global
  * index r of an m-blocked dimension splits into block r / m and offset r % m. */
module IndexMath {

  lemma {:induction false} MulMonotone(a: int, b: int, m: nat)
    requires a <= b
    ensures a * m <= b * m
  {
  }

  lemma {:induction false} MulSucc(a: int, m: int)
    ensures (a + 1) * m == a * m + m
  {
  }

  /** Block and offset are unique: r = q * m + k with 0 <= k < m fixes both. */
  lemma {:induction false} Split(r: int, q: int, k: int, m: int)
    requires m > 0 && 0 <= k < m && r == q * m + k
    ensures r / m == q && r % m == k
  {
    var q', k' := r / m, r % m;
    assert r == q' * m + k';
    if q' > q {
      MulMonotone(q + 1, q', m);
      MulSucc(q, m);
      assert false;
    }
    if q' < q {
      MulMonotone(q' + 1, q, m);
      MulSucc(q', m);
      assert false;
    }
  }

  /** An index is recomposed from its block and offset. */
  lemma {:induction false} Recompose(r: nat, m: nat)
    requires m > 0
    ensures r == (r / m) * m + r % m && 0 <= r % m < m
  {
  }

  /** Two indices with the same block and offset are equal. */
  lemma {:induction false} SameSplit(r: nat, s: nat, m: nat)
    requires m > 0 && r / m == s / m && r % m == s % m
    ensures r == s
  {
    Recompose(r, m);
    Recompose(s, m);
  }

  /** An index below rows * m lies in a block below rows. */
  lemma {:induction false} BlockBound(r: nat, rows: nat, m: nat)
    requires r < rows * m
    ensures m > 0 && r / m < rows && r % m < m
  {
    if m > 0 {
      Recompose(r, m);
      if r / m >= rows {
        MulMonotone(rows, r / m, m);
      }
    }
  }

  /** Block and offset within range recompose to an index within the product range. */
  lemma {:induction false} ComposeBound(b: nat, k: nat, rows: nat, m: nat)
    requires b < rows && k < m
    ensures 0 <= b * m + k < rows * m
  {
    MulMonotone(b + 1, rows, m);
    MulSucc(b, m);
  }

  /** Two indices are equal exactly when their blocks and offsets are. */
  lemma {:induction false} SplitEquality(r: nat, s: nat, m: nat)
    requires m > 0
    ensures (r / m == s / m && r % m == s % m) <==> r == s
  {
    if r != s && r / m == s / m && r % m == s % m {
      SameSplit(r, s, m);
    }
  }

  /** An index between lo * m and hi * m lies in a block between lo and hi. */
  lemma {:induction false} DivBetween(c: nat, lo: nat, hi: nat, m: nat)
    requires m > 0 && lo * m <= c < hi * m
    ensures lo <= c / m < hi
  {
    Recompose(c, m);
    if c / m < lo {
      MulMonotone(c / m + 1, lo, m);
      MulSucc(c / m, m);
    }
    if c / m >= hi {
      MulMonotone(hi, c / m, m);
    }
  }
}
