/** The dense vector norms: a generic backend root(sum of power(abs(x_i))),
  * computed either by a scalar kernel unrolled by 4, 2 and 1 or by a SIMD
  * kernel with four lane accumulators and a scalar tail, and the named
  * wrappers that pick the abs, power and root plug-ins. Elements are
  * integers, so every reordering of the sum is exact; roots are kept
  * symbolic as (degree, radicand). */
module VectorNorms {
  import opened IndexMath
  import BitMask

  /** The abs plug-ins: `Abs` and `SqrAbs`. */
  datatype AbsOp = Abs | SqrAbs

  /** The power plug-ins: `Noop`, `Pow2`, `Pow3` and `Pow` bound to an exponent. */
  datatype PowerOp = Noop | Pow2 | Pow3 | Pow(p: nat)

  /** The abs and power plug-ins applied to every element. */
  datatype Plug = Plug(abs: AbsOp, power: PowerOp)

  /** A norm result: `RT()` (the value-initialised result) or the degree-th
    * root of an accumulated sum. `Noop` as root is degree 1, `Sqrt` 2, `Cbrt` 3,
    * `Qdrt` 4 and `Pow` bound to inv(p) is degree p. */
  datatype NormValue = Default | Rooted(degree: nat, radicand: int)

  /** A dense vector operand: its storage, its size, whether its storage is
    * padded to whole SIMD registers, and whether its type is SIMD-enabled. */
  datatype DenseOperand = DenseOperand(data: seq<int>, size: nat, padded: bool, simdEnabled: bool)

  /** The SIMD-related traits of a plug-in functor type: whether it declares
    * `simdEnabled`, the value it declares for the element type, and whether
    * it has a SIMD `load`. */
  datatype FunctorTraits = FunctorTraits(hasSIMDEnabled: bool, simdEnabledFor: bool, hasLoad: bool)

  /** The compile-time configuration a norm call is instantiated with. The SIMD
    * width (`SIMDTrait<ET>::size`) is 2^simdBits lanes and `size_t` has
    * wordBits bits. */
  datatype Setup = Setup(useOptimizedKernels: bool, usePadding: bool, simdBits: nat, wordBits: nat,
                         absTraits: FunctorTraits, powerTraits: FunctorTraits, hasSIMDAdd: bool)

  function Magnitude(x: int): nat {
    if x < 0 then -x else x
  }

  /** y to the p. */
  function IntPow(y: int, p: nat): int {
    if p == 0 then 1 else y * IntPow(y, p - 1)
  }

  function AbsOf(a: AbsOp, x: int): int {
    match a
    case Abs => Magnitude(x)
    case SqrAbs => x * x
  }

  function PowerOf(pw: PowerOp, y: int): int {
    match pw
    case Noop => y
    case Pow2 => y * y
    case Pow3 => y * y * y
    case Pow(p) => IntPow(y, p)
  }

  /** power(abs(x)) for one element. */
  function Term(pl: Plug, x: int): int {
    PowerOf(pl.power, AbsOf(pl.abs, x))
  }

  /** The sequential sum of power(abs(data[k])) for lo <= k < hi. */
  function SumRange(data: seq<int>, pl: Plug, lo: nat, hi: nat): int
    requires lo <= hi <= |data|
    decreases hi - lo
  {
    if lo == hi then 0 else SumRange(data, pl, lo, hi - 1) + Term(pl, data[hi - 1])
  }

  /** What the backend computes for an operand: `RT()` for an empty vector,
    * otherwise the root of the left-to-right sum over its elements. */
  function NormOf(x: DenseOperand, pl: Plug, degree: nat): NormValue
    requires x.size <= |x.data|
  {
    if x.size == 0 then Default else Rooted(degree, SumRange(x.data, pl, 0, x.size))
  }

  /** The elements of an operand. */
  function Values(x: DenseOperand): seq<int>
    requires x.size <= |x.data|
  {
    x.data[..x.size]
  }

  /** The SIMD width in lanes. */
  function Width(s: Setup): nat {
    BitMask.Pow2(s.simdBits)
  }

  /** n rounded up to a multiple of the width w. */
  function RoundUp(n: nat, w: nat): nat
    requires w > 0
  {
    if n % w == 0 then n else n - n % w + w
  }

  /** The operand fits a `size_t`, its storage holds its elements, and padded
    * storage extends with zeros to a whole number of SIMD registers. */
  predicate ValidOperand(x: DenseOperand, s: Setup) {
    x.size <= |x.data| && x.size < BitMask.Pow2(s.wordBits) && s.simdBits <= s.wordBits &&
    (x.padded ==> RoundUp(x.size, Width(s)) <= |x.data| &&
                  forall k :: x.size <= k < |x.data| ==> x.data[k] == 0)
  }

  /** A runtime exponent must be nonzero. */
  predicate ValidPlug(pl: Plug) {
    pl.power.Pow? ==> pl.power.p > 0
  }

  // ---------------------------------------------------------------------
  // The scalar kernel
  // ---------------------------------------------------------------------

  /** The scalar backend: seeded with element 0, then four, two and one
    * elements per step. */
  method ScalarBackend(x: DenseOperand, pl: Plug, degree: nat) returns (r: NormValue)
    requires x.size <= |x.data|
    ensures r == NormOf(x, pl, degree)
  {
    if x.size == 0 {
      return Default;
    }
    var tmp, n := x.data, x.size;
    var norm := Term(pl, tmp[0]);
    var i := 1;
    while i + 4 <= n
      invariant 1 <= i <= n && norm == SumRange(tmp, pl, 0, i)
    {
      norm := norm + (Term(pl, tmp[i]) + Term(pl, tmp[i + 1]) + Term(pl, tmp[i + 2]) + Term(pl, tmp[i + 3]));
      StepBy(tmp, pl, i, 4);
      i := i + 4;
    }
    while i + 2 <= n
      invariant 1 <= i <= n && norm == SumRange(tmp, pl, 0, i)
    {
      norm := norm + (Term(pl, tmp[i]) + Term(pl, tmp[i + 1]));
      StepBy(tmp, pl, i, 2);
      i := i + 2;
    }
    while i < n
      invariant 1 <= i <= n && norm == SumRange(tmp, pl, 0, i)
    {
      norm := norm + Term(pl, tmp[i]);
      i := i + 1;
    }
    return Rooted(degree, norm);
  }

  /** The sum up to i + step adds the next step elements, written out. */
  lemma {:induction false} StepBy(data: seq<int>, pl: Plug, i: nat, step: nat)
    requires step == 2 || step == 4
    requires i + step <= |data|
    ensures SumRange(data, pl, 0, i + step) == SumRange(data, pl, 0, i) +
      if step == 2 then Term(pl, data[i]) + Term(pl, data[i + 1])
      else Term(pl, data[i]) + Term(pl, data[i + 1]) + Term(pl, data[i + 2]) + Term(pl, data[i + 3])
  {
    assert SumRange(data, pl, 0, i + 1) == SumRange(data, pl, 0, i) + Term(pl, data[i]);
    assert SumRange(data, pl, 0, i + 2) == SumRange(data, pl, 0, i + 1) + Term(pl, data[i + 1]);
    if step == 4 {
      assert SumRange(data, pl, 0, i + 3) == SumRange(data, pl, 0, i + 2) + Term(pl, data[i + 2]);
    }
  }

  // ---------------------------------------------------------------------
  // The SIMD kernel
  // ---------------------------------------------------------------------

  /** A SIMD register of w zero lanes. */
  function Zeros(w: nat): (lanes: seq<int>)
    ensures |lanes| == w
  {
    seq(w, _ => 0)
  }

  /** `power(abs(tmp.load(i)))`: w lanes starting at element i. */
  function Load(data: seq<int>, pl: Plug, i: nat, w: nat): (lanes: seq<int>)
    requires i + w <= |data|
    ensures |lanes| == w
  {
    seq(w, (j: int) requires 0 <= j < w => Term(pl, data[i + j]))
  }

  /** Lane-wise addition of two registers. */
  function Add(a: seq<int>, b: seq<int>): (lanes: seq<int>)
    requires |a| == |b|
    ensures |lanes| == |a|
  {
    seq(|a|, (j: int) requires 0 <= j < |a| => a[j] + b[j])
  }

  /** `sum(xmm)`: the sum of the lanes of a register. */
  function LaneSum(a: seq<int>): int {
    if |a| == 0 then 0 else LaneSum(a[..|a| - 1]) + a[|a| - 1]
  }

  /** `N & size_t(-SIMDSIZE)` when a remainder is possible, otherwise N. */
  function IPos(n: nat, s: Setup, remainder: bool): nat
    requires n < BitMask.Pow2(s.wordBits) && s.simdBits <= s.wordBits
  {
    BitMask.Pow2Monotone(s.simdBits, s.wordBits);
    if remainder then BitMask.BitAnd(n, BitMask.WordNeg(Width(s), s.wordBits)) else n
  }

  /** A multiple of the width w. */
  predicate Aligned(i: nat, w: nat) {
    w > 0 && i % w == 0
  }

  /** The SIMD backend: registers are accumulated in chunks of four, two and
    * one register up to ipos, their lanes are summed, and a scalar tail adds
    * the elements from ipos to N when a remainder is possible. */
  method SimdBackend(x: DenseOperand, pl: Plug, degree: nat, s: Setup) returns (r: NormValue)
    requires ValidOperand(x, s) && ValidPlug(pl)
    ensures r == NormOf(x, pl, degree)
  {
    var w := Width(s);
    if x.size == 0 {
      return Default;
    }
    var tmp, n := x.data, x.size;
    var remainder := !s.usePadding || !x.padded;
    var ipos := IPos(n, s, remainder);
    ghost var end := LoadBound(x, s, remainder, ipos);
    var xmm1: seq<int>, xmm2: seq<int>, xmm3: seq<int>, xmm4: seq<int>, i: nat := AccumulateRegisters(tmp, pl, ipos, w, end);
    var norm := LaneSum(Add(Add(Add(xmm1, xmm2), xmm3), xmm4));
    RegistersSum(xmm1, xmm2, xmm3, xmm4);
    while remainder && i < n
      invariant i <= |tmp| && norm == SumRange(tmp, pl, 0, i)
      invariant remainder ==> i <= n
      invariant !remainder ==> ipos <= i <= end
    {
      norm := norm + Term(pl, tmp[i]);
      i := i + 1;
    }
    if !remainder {
      ZeroTail(tmp, pl, n, i);
    }
    return Rooted(degree, norm);
  }

  /** The vectorised part of the SIMD backend: four registers start at zero
    * and take loads of four, two and one register per step while the loads
    * start below ipos. Afterwards they hold the sum of the first i elements,
    * i is a multiple of the width and no element from ipos on is left out. */
  method AccumulateRegisters(tmp: seq<int>, pl: Plug, ipos: nat, w: nat, ghost end: nat)
    returns (xmm1: seq<int>, xmm2: seq<int>, xmm3: seq<int>, xmm4: seq<int>, i: nat)
    requires w > 0 && Aligned(end, w) && ipos <= end <= |tmp|
    ensures Progress(tmp, pl, xmm1, xmm2, xmm3, xmm4, i, w, end) && ipos <= i
  {
    xmm1, xmm2, xmm3, xmm4 := Zeros(w), Zeros(w), Zeros(w), Zeros(w);
    i := 0;
    StartProgress(tmp, pl, w, end);
    while i + w * 3 < ipos
      invariant Progress(tmp, pl, xmm1, xmm2, xmm3, xmm4, i, w, end)
    {
      QuadStep(tmp, pl, xmm1, xmm2, xmm3, xmm4, i, w, end);
      xmm1 := Add(xmm1, Load(tmp, pl, i, w));
      xmm2 := Add(xmm2, Load(tmp, pl, i + w, w));
      xmm3 := Add(xmm3, Load(tmp, pl, i + w * 2, w));
      xmm4 := Add(xmm4, Load(tmp, pl, i + w * 3, w));
      i := i + w * 4;
    }
    while i + w < ipos
      invariant Progress(tmp, pl, xmm1, xmm2, xmm3, xmm4, i, w, end)
    {
      PairStep(tmp, pl, xmm1, xmm2, xmm3, xmm4, i, w, end);
      xmm1 := Add(xmm1, Load(tmp, pl, i, w));
      xmm2 := Add(xmm2, Load(tmp, pl, i + w, w));
      i := i + w * 2;
    }
    while i < ipos
      invariant Progress(tmp, pl, xmm1, xmm2, xmm3, xmm4, i, w, end)
    {
      SingleStep(tmp, pl, xmm1, xmm2, xmm3, xmm4, i, w, end);
      xmm1 := Add(xmm1, Load(tmp, pl, i, w));
      i := i + w;
    }
  }

  /** The end of the loaded range, rounded to whole registers: ipos itself
    * when a remainder is possible, which is N rounded down, and N rounded up
    * over the zero padding otherwise. */
  lemma {:induction false} LoadBound(x: DenseOperand, s: Setup, remainder: bool, ipos: nat) returns (end: nat)
    requires ValidOperand(x, s) && remainder == (!s.usePadding || !x.padded)
    requires ipos == IPos(x.size, s, remainder)
    ensures Aligned(end, Width(s)) && ipos <= end <= |x.data|
    ensures remainder ==> end <= x.size
    ensures !remainder ==> ipos == x.size && forall k :: x.size <= k < end ==> x.data[k] == 0
  {
    var w := Width(s);
    if remainder {
      BitMask.RoundDownMask(x.size, s.simdBits, s.wordBits);
    }
    RoundFacts(x.size, w);
    end := if remainder then ipos else RoundUp(x.size, w);
  }

  /** n rounded down and rounded up to multiples of w. */
  lemma {:induction false} RoundFacts(n: nat, w: nat)
    requires w > 0
    ensures n - n % w <= n && (n - n % w) % w == 0
    ensures n <= RoundUp(n, w) && RoundUp(n, w) % w == 0
  {
    var q, k := n / w, n % w;
    Recompose(n, w);
    assert n - k == q * w;
    Split(n - k, q, 0, w);
    if k != 0 {
      assert n - k + w == (q + 1) * w;
      Split(n - k + w, q + 1, 0, w);
    }
  }

  /** The state of the vectorised loops: i is a multiple of the width within
    * the loaded range, and the four registers together hold the sum of the
    * first i elements. */
  predicate Progress(data: seq<int>, pl: Plug, a: seq<int>, b: seq<int>, c: seq<int>, d: seq<int>,
                     i: nat, w: nat, end: nat)
  {
    w > 0 && Aligned(i, w) && Aligned(end, w) && i <= end <= |data| &&
    |a| == w && |b| == w && |c| == w && |d| == w &&
    LaneSum(a) + LaneSum(b) + LaneSum(c) + LaneSum(d) == SumRange(data, pl, 0, i)
  }

  lemma {:induction false} StartProgress(data: seq<int>, pl: Plug, w: nat, end: nat)
    requires w > 0 && Aligned(end, w) && end <= |data|
    ensures Progress(data, pl, Zeros(w), Zeros(w), Zeros(w), Zeros(w), 0, w, end)
  {
    ZerosSum(w);
  }

  /** Four more registers' worth of loads, one into each accumulator. */
  lemma {:induction false} QuadStep(data: seq<int>, pl: Plug, a: seq<int>, b: seq<int>, c: seq<int>, d: seq<int>,
                                    i: nat, w: nat, end: nat)
    requires Progress(data, pl, a, b, c, d, i, w, end) && i + w * 3 < end
    ensures i + w * 4 <= end
    ensures Progress(data, pl, Add(a, Load(data, pl, i, w)), Add(b, Load(data, pl, i + w, w)),
                     Add(c, Load(data, pl, i + w * 2, w)), Add(d, Load(data, pl, i + w * 3, w)),
                     i + w * 4, w, end)
  {
    ChunkFits(i, 4, end, w);
    QuadSum(data, pl, a, b, c, d, i, w);
  }

  lemma {:induction false} QuadSum(data: seq<int>, pl: Plug, a: seq<int>, b: seq<int>, c: seq<int>, d: seq<int>,
                                   i: nat, w: nat)
    requires |a| == w && |b| == w && |c| == w && |d| == w && i + w * 4 <= |data|
    ensures LaneSum(Add(a, Load(data, pl, i, w))) + LaneSum(Add(b, Load(data, pl, i + w, w))) +
            LaneSum(Add(c, Load(data, pl, i + w * 2, w))) + LaneSum(Add(d, Load(data, pl, i + w * 3, w))) ==
            LaneSum(a) + LaneSum(b) + LaneSum(c) + LaneSum(d) + SumRange(data, pl, 0, i + w * 4) - SumRange(data, pl, 0, i)
  {
    PairSum(data, pl, a, b, i, i + w, i + w * 2, w);
    PairSum(data, pl, c, d, i + w * 2, i + w * 3, i + w * 4, w);
  }

  lemma {:induction false} PairSum(data: seq<int>, pl: Plug, a: seq<int>, b: seq<int>, i: nat, mid: nat, next: nat, w: nat)
    requires |a| == w && |b| == w && mid == i + w && next == mid + w && next <= |data|
    ensures LaneSum(Add(a, Load(data, pl, i, w))) + LaneSum(Add(b, Load(data, pl, mid, w))) ==
            LaneSum(a) + LaneSum(b) + SumRange(data, pl, 0, next) - SumRange(data, pl, 0, i)
  {
    ChunkStep(data, pl, a, i, mid, w);
    ChunkStep(data, pl, b, mid, next, w);
  }

  /** Two more registers' worth of loads, into the first two accumulators. */
  lemma {:induction false} PairStep(data: seq<int>, pl: Plug, a: seq<int>, b: seq<int>, c: seq<int>, d: seq<int>,
                                    i: nat, w: nat, end: nat)
    requires Progress(data, pl, a, b, c, d, i, w, end) && i + w < end
    ensures i + w * 2 <= end
    ensures Progress(data, pl, Add(a, Load(data, pl, i, w)), Add(b, Load(data, pl, i + w, w)), c, d,
                     i + w * 2, w, end)
  {
    ChunkFits(i, 2, end, w);
    PairSum(data, pl, a, b, i, i + w, i + w * 2, w);
  }

  /** One more register's worth of loads, into the first accumulator. */
  lemma {:induction false} SingleStep(data: seq<int>, pl: Plug, a: seq<int>, b: seq<int>, c: seq<int>, d: seq<int>,
                                      i: nat, w: nat, end: nat)
    requires Progress(data, pl, a, b, c, d, i, w, end) && i < end
    ensures i + w <= end
    ensures Progress(data, pl, Add(a, Load(data, pl, i, w)), b, c, d, i + w, w, end)
  {
    ChunkFits(i, 1, end, w);
    ChunkStep(data, pl, a, i, i + w, w);
  }

  /** When register k - 1 past i still starts below the multiple b, register
    * k past i starts at a multiple no later than b. */
  lemma {:induction false} ChunkFits(i: nat, k: nat, b: nat, w: nat)
    requires w > 0 && k > 0 && Aligned(i, w) && Aligned(b, w) && i + w * (k - 1) < b
    ensures i + w * k <= b && Aligned(i + w * k, w)
  {
    Recompose(i, w);
    Recompose(b, w);
    var qi, qb := i / w, b / w;
    assert i + w * (k - 1) == (qi + k - 1) * w;
    if qi + k > qb {
      MulMonotone(qb, qi + k - 1, w);
    }
    MulMonotone(qi + k, qb, w);
    assert i + w * k == (qi + k) * w;
    Split(i + w * k, qi + k, 0, w);
  }

  lemma {:induction false} ZerosSum(w: nat)
    ensures LaneSum(Zeros(w)) == 0
  {
    if w > 0 {
      assert Zeros(w)[..w - 1] == Zeros(w - 1);
      ZerosSum(w - 1);
    }
  }

  lemma {:induction false} LaneSumAdd(a: seq<int>, b: seq<int>)
    requires |a| == |b|
    ensures LaneSum(Add(a, b)) == LaneSum(a) + LaneSum(b)
  {
    if |a| > 0 {
      var n := |a|;
      assert Add(a, b)[..n - 1] == Add(a[..n - 1], b[..n - 1]);
      LaneSumAdd(a[..n - 1], b[..n - 1]);
    }
  }

  /** The lanes of one load sum to the elements it covers. */
  lemma {:induction false} LoadSum(data: seq<int>, pl: Plug, i: nat, w: nat)
    requires i + w <= |data|
    ensures LaneSum(Load(data, pl, i, w)) == SumRange(data, pl, i, i + w)
  {
    if w > 0 {
      assert Load(data, pl, i, w)[..w - 1] == Load(data, pl, i, w - 1);
      LoadSum(data, pl, i, w - 1);
    }
  }

  lemma {:induction false} SumRangeSplit(data: seq<int>, pl: Plug, lo: nat, mid: nat, hi: nat)
    requires lo <= mid <= hi <= |data|
    ensures SumRange(data, pl, lo, hi) == SumRange(data, pl, lo, mid) + SumRange(data, pl, mid, hi)
  {
    if mid < hi {
      SumRangeSplit(data, pl, lo, mid, hi - 1);
    }
  }

  /** Adding the load at i to a register adds the elements i .. next - 1. */
  lemma {:induction false} ChunkStep(data: seq<int>, pl: Plug, acc: seq<int>, i: nat, next: nat, w: nat)
    requires |acc| == w && next == i + w && next <= |data|
    ensures LaneSum(Add(acc, Load(data, pl, i, w))) == LaneSum(acc) + SumRange(data, pl, 0, next) - SumRange(data, pl, 0, i)
  {
    LaneSumAdd(acc, Load(data, pl, i, w));
    LoadSum(data, pl, i, w);
    SumRangeSplit(data, pl, 0, i, next);
  }

  /** `sum( xmm1 + xmm2 + xmm3 + xmm4 )` is the sum of the four registers' lanes. */
  lemma {:induction false} RegistersSum(a: seq<int>, b: seq<int>, c: seq<int>, d: seq<int>)
    requires |a| == |b| == |c| == |d|
    ensures LaneSum(Add(Add(Add(a, b), c), d)) == LaneSum(a) + LaneSum(b) + LaneSum(c) + LaneSum(d)
  {
    LaneSumAdd(a, b);
    LaneSumAdd(Add(a, b), c);
    LaneSumAdd(Add(Add(a, b), c), d);
  }

  /** power(abs(0)) is zero for every plug-in with a nonzero exponent. */
  lemma {:induction false} TermOfZero(pl: Plug)
    requires ValidPlug(pl)
    ensures Term(pl, 0) == 0
  {
    if pl.power.Pow? {
      assert IntPow(0, pl.power.p) == 0 * IntPow(0, pl.power.p - 1);
    }
  }

  /** Zero padding adds nothing to the sum. */
  lemma {:induction false} ZeroTail(data: seq<int>, pl: Plug, n: nat, m: nat)
    requires ValidPlug(pl) && n <= m <= |data| && forall k :: n <= k < m ==> data[k] == 0
    ensures SumRange(data, pl, 0, m) == SumRange(data, pl, 0, n)
  {
    if n < m {
      TermOfZero(pl);
      ZeroTail(data, pl, n, m - 1);
    }
  }

  // ---------------------------------------------------------------------
  // Kernel selection and the wrappers
  // ---------------------------------------------------------------------

  /** `DVecNormHelper<VT,Abs,Power>::value`: the SIMD backend is used only with
    * optimised kernels on, a SIMD-enabled operand, plug-ins that are
    * SIMD-enabled for the element type (or, when either does not say, both
    * have a SIMD load), and a SIMD addition. */
  predicate UseVectorizedKernel(s: Setup, x: DenseOperand) {
    s.useOptimizedKernels && x.simdEnabled &&
    (if s.absTraits.hasSIMDEnabled && s.powerTraits.hasSIMDEnabled
     then s.absTraits.simdEnabledFor && s.powerTraits.simdEnabledFor
     else s.absTraits.hasLoad && s.powerTraits.hasLoad) &&
    s.hasSIMDAdd
  }

  /** `norm_backend( dv, abs, power, root )`: dispatches on the helper; both
    * kernels give the same value. */
  method NormBackend(x: DenseOperand, pl: Plug, degree: nat, s: Setup) returns (r: NormValue)
    requires ValidOperand(x, s) && ValidPlug(pl)
    ensures r == NormOf(x, pl, degree)
  {
    if UseVectorizedKernel(s, x) {
      r := SimdBackend(x, pl, degree, s);
    } else {
      r := ScalarBackend(x, pl, degree);
    }
  }

  /** The p-norm of a vector by definition: `RT()` when empty, otherwise the
    * p-th root of the sum of |v_i|^p. */
  function SumOfPowers(v: seq<int>, p: nat): int {
    if |v| == 0 then 0 else SumOfPowers(v[..|v| - 1], p) + IntPow(Magnitude(v[|v| - 1]), p)
  }

  function PNorm(v: seq<int>, p: nat): NormValue {
    if |v| == 0 then Default else Rooted(p, SumOfPowers(v, p))
  }

  /** Which p-th power of |x| a plug-in pair computes. */
  predicate Computes(pl: Plug, p: nat) {
    match pl
    case Plug(Abs, Noop) => p == 1
    case Plug(SqrAbs, Noop) => p == 2
    case Plug(Abs, Pow3) => p == 3
    case Plug(SqrAbs, Pow2) => p == 4
    case Plug(Abs, Pow(q)) => p == q
    case _ => false
  }

  /** The plug-in pairs of the wrappers each compute |x|^p. */
  lemma {:induction false} TermIsPower(pl: Plug, p: nat, x: int)
    requires Computes(pl, p)
    ensures Term(pl, x) == IntPow(Magnitude(x), p)
  {
    var m := Magnitude(x);
    assert x * x == m * m;
    assert IntPow(m, 1) == m;
    assert IntPow(m, 2) == m * m;
    if pl.abs.SqrAbs? && pl.power.Pow2? {
      assert IntPow(m, 4) == m * (m * (m * m));
    }
    if pl.abs.Abs? && pl.power.Pow3? {
      assert IntPow(m, 3) == m * (m * m);
    }
  }

  /** The backend's sum over an operand is the sum of |v_i|^p over its values. */
  lemma {:induction false} SumIsPowers(data: seq<int>, pl: Plug, p: nat, n: nat)
    requires Computes(pl, p) && n <= |data|
    ensures SumRange(data, pl, 0, n) == SumOfPowers(data[..n], p)
  {
    if n > 0 {
      assert data[..n][..n - 1] == data[..n - 1];
      SumIsPowers(data, pl, p, n - 1);
      TermIsPower(pl, p, data[n - 1]);
    }
  }

  /** The backend with a plug-in pair computing |x|^p and a p-th root is the
    * p-norm of the operand's values. */
  lemma {:induction false} BackendIsPNorm(x: DenseOperand, pl: Plug, p: nat)
    requires x.size <= |x.data| && Computes(pl, p)
    ensures NormOf(x, pl, p) == PNorm(Values(x), p)
  {
    SumIsPowers(x.data, pl, p, x.size);
  }

  /** `norm( dv )`: the L2 norm, with SqrAbs, Noop and Sqrt. */
  method Norm(x: DenseOperand, s: Setup) returns (r: NormValue)
    requires ValidOperand(x, s)
    ensures r == PNorm(Values(x), 2)
  {
    r := NormBackend(x, Plug(SqrAbs, Noop), 2, s);
    BackendIsPNorm(x, Plug(SqrAbs, Noop), 2);
  }

  /** `sqrNorm( dv )`: the sum of squares, with SqrAbs, Noop and Noop (no root). */
  method SqrNorm(x: DenseOperand, s: Setup) returns (r: NormValue)
    requires ValidOperand(x, s)
    ensures r == if x.size == 0 then Default else Rooted(1, SumOfPowers(Values(x), 2))
  {
    r := NormBackend(x, Plug(SqrAbs, Noop), 1, s);
    SumIsPowers(x.data, Plug(SqrAbs, Noop), 2, x.size);
  }

  /** `l1Norm( dv )`: the sum of absolute values, with Abs, Noop and Noop. */
  method L1Norm(x: DenseOperand, s: Setup) returns (r: NormValue)
    requires ValidOperand(x, s)
    ensures r == PNorm(Values(x), 1)
  {
    r := NormBackend(x, Plug(Abs, Noop), 1, s);
    BackendIsPNorm(x, Plug(Abs, Noop), 1);
  }

  /** `l2Norm( dv )`: with SqrAbs, Noop and Sqrt. */
  method L2Norm(x: DenseOperand, s: Setup) returns (r: NormValue)
    requires ValidOperand(x, s)
    ensures r == PNorm(Values(x), 2)
  {
    r := NormBackend(x, Plug(SqrAbs, Noop), 2, s);
    BackendIsPNorm(x, Plug(SqrAbs, Noop), 2);
  }

  /** `l3Norm( dv )`: with Abs, Pow3 and Cbrt. */
  method L3Norm(x: DenseOperand, s: Setup) returns (r: NormValue)
    requires ValidOperand(x, s)
    ensures r == PNorm(Values(x), 3)
  {
    r := NormBackend(x, Plug(Abs, Pow3), 3, s);
    BackendIsPNorm(x, Plug(Abs, Pow3), 3);
  }

  /** `l4Norm( dv )`: with SqrAbs, Pow2 and Qdrt. */
  method L4Norm(x: DenseOperand, s: Setup) returns (r: NormValue)
    requires ValidOperand(x, s)
    ensures r == PNorm(Values(x), 4)
  {
    r := NormBackend(x, Plug(SqrAbs, Pow2), 4, s);
    BackendIsPNorm(x, Plug(SqrAbs, Pow2), 4);
  }

  /** `lpNorm( dv, p )`: with Abs, Pow bound to p and Pow bound to inv(p). The
    * exponent must be nonzero. */
  method LpNorm(x: DenseOperand, p: nat, s: Setup) returns (r: NormValue)
    requires ValidOperand(x, s) && p != 0
    ensures r == PNorm(Values(x), p)
  {
    r := NormBackend(x, Plug(Abs, Pow(p)), p, s);
    BackendIsPNorm(x, Plug(Abs, Pow(p)), p);
  }

  /** The position in the list (L1Norm, L2Norm, L3Norm, L4Norm, LpNorm<P>) that
    * `lpNorm<P>` selects: min(P - 1, 4). */
  function NormIndex(p: nat): (idx: nat)
    requires p > 0
    ensures idx <= 4
  {
    if p - 1 < 4 then p - 1 else 4
  }

  /** `lpNorm<P>( dv )`: P = 0 is rejected at compile time; P from 1 to 4 picks
    * the specialised norm and larger P the generic one. Every choice is the
    * P-norm. */
  method StaticLpNorm(x: DenseOperand, p: nat, s: Setup) returns (r: NormValue)
    requires ValidOperand(x, s) && p > 0
    ensures r == PNorm(Values(x), p)
  {
    var idx := NormIndex(p);
    if idx == 0 {
      r := L1Norm(x, s);
    } else if idx == 1 {
      r := L2Norm(x, s);
    } else if idx == 2 {
      r := L3Norm(x, s);
    } else if idx == 3 {
      r := L4Norm(x, s);
    } else {
      r := LpNorm(x, p, s);
    }
  }

  /** `sqrLength( dv )`: the squared norm. */
  method SqrLength(x: DenseOperand, s: Setup) returns (r: NormValue)
    requires ValidOperand(x, s)
    ensures r == if x.size == 0 then Default else Rooted(1, SumOfPowers(Values(x), 2))
  {
    r := SqrNorm(x, s);
  }

  /** `length( dv )`: the L2 norm. */
  method Length(x: DenseOperand, s: Setup) returns (r: NormValue)
    requires ValidOperand(x, s)
    ensures r == PNorm(Values(x), 2)
  {
    r := Norm(x, s);
  }

  /** `linfNorm( dv )`: the largest absolute value, zero for an empty vector. */
  function LinfNorm(v: seq<int>): (r: nat)
    ensures forall k :: 0 <= k < |v| ==> Magnitude(v[k]) <= r
    ensures |v| == 0 ==> r == 0
    ensures |v| > 0 ==> exists k :: 0 <= k < |v| && r == Magnitude(v[k])
  {
    if |v| == 0 then 0
    else
      var rest, last := LinfNorm(v[..|v| - 1]), Magnitude(v[|v| - 1]);
      assert forall k :: 0 <= k < |v| - 1 ==> v[..|v| - 1][k] == v[k];
      if rest < last then last else if |v| == 1 then last else rest
  }

  /** `maxNorm( dv )`: the infinity norm. */
  function MaxNorm(v: seq<int>): (r: nat)
    ensures forall k :: 0 <= k < |v| ==> Magnitude(v[k]) <= r
    ensures |v| > 0 ==> exists k :: 0 <= k < |v| && r == Magnitude(v[k])
    ensures |v| == 0 ==> r == 0
  {
    LinfNorm(v)
  }
}
