/** Unsigned word arithmetic behind the SIMD loop bound `N & size_t(-SIMDSIZE)`:
  * bitwise AND of naturals, the two's complement negation of a power of two
  * in a 64-bit `size_t`, and the fact that masking with it rounds down to a
  * multiple of that power. */
module BitMask {
  import opened IndexMath

  /** 2 to the k. */
  function Pow2(k: nat): (p: nat)
    ensures p >= 1
  {
    if k == 0 then 1 else 2 * Pow2(k - 1)
  }

  /** Bitwise AND of two naturals, bit by bit from the lowest. */
  function BitAnd(a: nat, b: nat): nat
    decreases a
  {
    if a == 0 || b == 0 then 0
    else 2 * BitAnd(a / 2, b / 2) + (if a % 2 == 1 && b % 2 == 1 then 1 else 0)
  }

  /** `size_t(-s)`: the negation of s in an unsigned word of w bits. */
  function WordNeg(s: nat, w: nat): nat
    requires 0 < s <= Pow2(w)
  {
    Pow2(w) - s
  }

  lemma {:induction false} Pow2Monotone(j: nat, k: nat)
    requires j <= k
    ensures Pow2(j) <= Pow2(k)
  {
    if j < k {
      Pow2Monotone(j, k - 1);
    }
  }

  /** Masking with w one bits keeps every number below 2^w. */
  lemma {:induction false} AllOnes(n: nat, w: nat)
    requires n < Pow2(w)
    ensures BitAnd(n, Pow2(w) - 1) == n
  {
    if n > 0 {
      AllOnes(n / 2, w - 1);
    }
  }

  /** The remainder modulo 2m, from the lowest bit and the remainder of the
    * halved number modulo m. */
  lemma {:induction false} ModDouble(n: nat, m: nat)
    requires m > 0
    ensures n % (2 * m) == n % 2 + 2 * ((n / 2) % m)
  {
    var q, r := n / 2, n % 2;
    var qm, rm := q / m, q % m;
    Recompose(q, m);
    assert qm * (2 * m) == 2 * (qm * m);
    Split(n, qm, 2 * rm + r, 2 * m);
  }

  /** A mask with a clear lowest bit clears the lowest bit and masks the rest
    * with the mask shifted down. */
  lemma {:induction false} AndEven(n: nat, h: nat)
    ensures BitAnd(n, 2 * h) == 2 * BitAnd(n / 2, h)
  {
    assert (2 * h) / 2 == h && (2 * h) % 2 == 0;
  }

  /** Twice a half rounded down to a multiple of p is the whole rounded down
    * to a multiple of 2p. */
  lemma {:induction false} CombineHalves(n: nat, p: nat, h: nat)
    requires p > 0 && h == n / 2 - (n / 2) % p
    ensures 2 * h == n - n % (2 * p)
  {
    ModDouble(n, p);
  }

  /** One bit more: masking the halved number with the mask shifted down
    * gives, doubled, the mask of the whole number. */
  lemma {:induction false} MaskStep(n: nat, w: nat, k: nat)
    requires 0 < k < w && Pow2(k - 1) <= Pow2(w - 1)
    requires BitAnd(n / 2, Pow2(w - 1) - Pow2(k - 1)) == n / 2 - (n / 2) % Pow2(k - 1)
    ensures BitAnd(n, Pow2(w) - Pow2(k)) == n - n % Pow2(k)
  {
    var p, q := Pow2(k - 1), Pow2(w - 1);
    AndEven(n, q - p);
    CombineHalves(n, p, BitAnd(n / 2, q - p));
  }

  /** Masking a w-bit number with the high w - k bits set clears its low k
    * bits: the result is the number rounded down to a multiple of 2^k. */
  lemma {:induction false} MaskLowBits(n: nat, w: nat, k: nat)
    requires k <= w && n < Pow2(w)
    ensures Pow2(k) <= Pow2(w) && BitAnd(n, Pow2(w) - Pow2(k)) == n - n % Pow2(k)
  {
    Pow2Monotone(k, w);
    if k == 0 {
      AllOnes(n, w);
    } else if n == 0 {
      Split(0, 0, 0, Pow2(k));
    } else if k == w {
      Split(n, 0, n, Pow2(w));
    } else {
      Pow2Monotone(k - 1, w - 1);
      MaskLowBits(n / 2, w - 1, k - 1);
      MaskStep(n, w, k);
    }
  }

  /** `N & size_t(-SIMDSIZE)` for a SIMD width of 2^k lanes and a `size_t` of
    * w bits: N rounded down to a multiple of the width. */
  lemma {:induction false} RoundDownMask(n: nat, k: nat, w: nat)
    requires k <= w && n < Pow2(w)
    ensures Pow2(k) <= Pow2(w) && BitAnd(n, WordNeg(Pow2(k), w)) == n - n % Pow2(k)
  {
    MaskLowBits(n, w, k);
  }
}
