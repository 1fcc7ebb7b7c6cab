/** Compressed sparse lines: the rows of a row-major or the columns of a
  * column-major sparse matrix, and the index/value pairs of a sparse vector.
  * A line stores (index, value) entries in strictly ascending index order;
  * an index that is not stored reads as the value-initialised zero. */
module SparseLines {

  /** One stored element: its index within the line and its value. */
  datatype Entry = Entry(index: nat, value: int)

  /** Every index is below `bound` and indices strictly ascend. */
  predicate ValidLine(line: seq<Entry>, bound: nat) {
    (forall p :: 0 <= p < |line| ==> line[p].index < bound) &&
    (forall p, q :: 0 <= p < q < |line| ==> line[p].index < line[q].index)
  }

  /** Whether some entry of the line is stored at `idx`. */
  predicate Contains(line: seq<Entry>, idx: nat) {
    exists p :: 0 <= p < |line| && line[p].index == idx
  }

  /** The element at `idx`: the value of the last entry stored there, or zero. */
  function Lookup(line: seq<Entry>, idx: nat): int {
    if line == [] then 0
    else if line[|line| - 1].index == idx then line[|line| - 1].value
    else Lookup(line[..|line| - 1], idx)
  }

  /** A stored entry reads back as its own value. */
  lemma {:induction false} LookupFound(line: seq<Entry>, bound: nat, p: nat)
    requires ValidLine(line, bound) && p < |line|
    ensures Lookup(line, line[p].index) == line[p].value
  {
    if p < |line| - 1 {
      assert line[|line| - 1].index != line[p].index;
      LookupFound(line[..|line| - 1], bound, p);
    }
  }

  /** An index with no stored entry reads as zero. */
  lemma {:induction false} LookupAbsent(line: seq<Entry>, idx: nat)
    requires !Contains(line, idx)
    ensures Lookup(line, idx) == 0
  {
    if line != [] {
      assert line[|line| - 1].index != idx;
      LookupAbsent(line[..|line| - 1], idx);
    }
  }

  /** In a valid line, an entry's index does not occur among the entries before it. */
  lemma {:induction false} NotInPrefix(line: seq<Entry>, bound: nat, q: nat)
    requires ValidLine(line, bound) && q < |line|
    ensures !Contains(line[..q], line[q].index)
  {
  }

  /** Extending a prefix by one entry adds exactly that entry's index. */
  lemma {:induction false} ContainsExtend(line: seq<Entry>, q: nat, idx: nat)
    requires q < |line|
    ensures Contains(line[..q + 1], idx) <==> Contains(line[..q], idx) || line[q].index == idx
  {
    if Contains(line[..q + 1], idx) && line[q].index != idx {
      var p :| 0 <= p < q + 1 && line[..q + 1][p].index == idx;
      assert line[..q][p].index == idx;
    }
    if Contains(line[..q], idx) {
      var p :| 0 <= p < q && line[..q][p].index == idx;
      assert line[..q + 1][p].index == idx;
    }
    if line[q].index == idx {
      assert line[..q + 1][q].index == idx;
    }
  }

  /** An index strictly between two neighbouring entries (or past the last one)
    * is not stored. */
  lemma {:induction false} NotInGap(line: seq<Entry>, bound: nat, p: nat, idx: nat)
    requires ValidLine(line, bound) && p <= |line|
    requires p > 0 ==> line[p - 1].index < idx
    requires p < |line| ==> idx < line[p].index
    ensures !Contains(line, idx)
  {
  }

  /** The number of set flags among the first `f`. */
  function Count(flags: seq<bool>, f: nat): nat
    requires f <= |flags|
  {
    if f == 0 then 0 else Count(flags, f - 1) + (if flags[f - 1] then 1 else 0)
  }

  /** One counting sweep over a line: every stored index gets one more. */
  method CountIndices(line: seq<Entry>, bound: nat, counts: seq<nat>) returns (next: seq<nat>)
    requires ValidLine(line, bound) && |counts| == bound
    ensures |next| == bound
    ensures forall k :: 0 <= k < bound ==> next[k] == counts[k] + if Contains(line, k) then 1 else 0
  {
    next := counts;
    var q := 0;
    while q < |line|
      invariant q <= |line| && |next| == bound
      invariant forall k :: 0 <= k < bound ==> next[k] == counts[k] + if Contains(line[..q], k) then 1 else 0
    {
      var idx := line[q].index;
      NotInPrefix(line, bound, q);
      next := next[idx := next[idx] + 1];
      forall k | 0 <= k < bound
        ensures next[k] == counts[k] + if Contains(line[..q + 1], k) then 1 else 0
      {
        ContainsExtend(line, q, k);
      }
      q := q + 1;
    }
    assert line[..q] == line;
  }

  /** Counting is monotone in the flags and in the prefix length. */
  lemma {:induction false} CountMonotone(flags: seq<bool>, more: seq<bool>, f: nat, g: nat)
    requires f <= g <= |flags| == |more|
    requires forall c :: 0 <= c < |flags| && flags[c] ==> more[c]
    ensures Count(flags, f) <= Count(more, g)
  {
    if g > f {
      CountMonotone(flags, more, f, g - 1);
    } else if f > 0 {
      CountMonotone(flags, more, f - 1, g - 1);
    }
  }

  /** Which indices below `n` are stored in the line. */
  function StoredFlags(line: seq<Entry>, n: nat): (flags: seq<bool>)
    ensures |flags| == n && forall c :: 0 <= c < n ==> (flags[c] <==> Contains(line, c))
  {
    seq(n, (c: int) requires 0 <= c => Contains(line, c))
  }

  /** A valid line stores exactly as many distinct indices as it has entries. */
  lemma {:induction false} CountStored(line: seq<Entry>, bound: nat)
    requires ValidLine(line, bound)
    ensures Count(StoredFlags(line, bound), bound) == |line|
  {
    if line != [] {
      var init, last := line[..|line| - 1], line[|line| - 1];
      assert ValidLine(init, bound);
      CountStored(init, bound);
      CountSnoc(init, last, bound, bound);
      assert init + [last] == line;
    } else {
      CountNone(StoredFlags(line, bound), bound);
    }
  }

  lemma {:induction false} CountNone(flags: seq<bool>, f: nat)
    requires f <= |flags| && forall c :: 0 <= c < f ==> !flags[c]
    ensures Count(flags, f) == 0
  {
    if f > 0 {
      CountNone(flags, f - 1);
    }
  }

  lemma {:induction false} CountSnoc(init: seq<Entry>, last: Entry, bound: nat, f: nat)
    requires ValidLine(init + [last], bound) && f <= bound
    ensures Count(StoredFlags(init + [last], bound), f)
         == Count(StoredFlags(init, bound), f) + (if last.index < f then 1 else 0)
  {
    var line := init + [last];
    if f > 0 {
      CountSnoc(init, last, bound, f - 1);
      var c := f - 1;
      if Contains(line, c) && c != last.index {
        var p :| 0 <= p < |line| && line[p].index == c;
        assert init[p].index == c;
      }
      if Contains(init, c) {
        var p :| 0 <= p < |init| && init[p].index == c;
        assert line[p].index == c;
        assert c < last.index by { assert line[p].index < line[|init|].index; }
      }
      assert line[|init|] == last;
    }
  }

  /** The nonzero values among the first `f` elements of a dense line, compressed:
    * the entries a sparse line holds after appending the first `f` elements in
    * order and dropping those equal to zero. */
  function Compress(vals: seq<int>, f: nat): (line: seq<Entry>)
    requires f <= |vals|
  {
    if f == 0 then []
    else if vals[f - 1] != 0 then Compress(vals, f - 1) + [Entry(f - 1, vals[f - 1])]
    else Compress(vals, f - 1)
  }

  /** A compressed line is valid below `f` and stores only nonzero elements
    * of the dense line, each at its own index. */
  lemma {:induction false} CompressValid(vals: seq<int>, f: nat)
    requires f <= |vals|
    ensures ValidLine(Compress(vals, f), f)
    ensures forall p :: 0 <= p < |Compress(vals, f)| ==>
      Compress(vals, f)[p].value != 0 && vals[Compress(vals, f)[p].index] == Compress(vals, f)[p].value
  {
    if f > 0 {
      CompressValid(vals, f - 1);
    }
  }

  /** A line after `append(.., x, v, true)`: the entry is added unless v is zero. */
  function Appended(line: seq<Entry>, x: nat, v: int): seq<Entry> {
    if v != 0 then line + [Entry(x, v)] else line
  }

  /** Writing the same line twice leaves only the second write. */
  lemma {:induction false} UpdateTwice(lines: seq<seq<Entry>>, mid: seq<seq<Entry>>, after: seq<seq<Entry>>, l: nat, first: seq<Entry>, second: seq<Entry>)
    requires l < |lines| && mid == lines[l := first] && after == mid[l := second]
    ensures after == lines[l := second]
  {
  }

  /** Compressing one element more appends it unless it is zero. */
  lemma {:induction false} CompressStep(vals: seq<int>, f: nat)
    requires f < |vals|
    ensures Compress(vals, f + 1) == Appended(Compress(vals, f), f, vals[f])
  {
  }

  /** Compressing one element more: an element known to be zero adds nothing,
    * any other is appended unless it is zero. */
  lemma {:induction false} CompressNext(vals: seq<int>, x: nat, present: bool, v: int)
    requires x < |vals| && vals[x] == (if present then v else 0)
    ensures Compress(vals, x + 1) == if present then Appended(Compress(vals, x), x, v) else Compress(vals, x)
  {
    CompressStep(vals, x);
  }

  /** Compression keeps exactly the nonzero elements, and reads back the dense
    * line's values below `f` and zero from `f` on. */
  lemma {:induction false} CompressLookup(vals: seq<int>, f: nat, c: nat)
    requires f <= |vals| && c < |vals|
    ensures Contains(Compress(vals, f), c) <==> c < f && vals[c] != 0
    ensures Lookup(Compress(vals, f), c) == if c < f then vals[c] else 0
  {
    var line := Compress(vals, f);
    if f > 0 {
      CompressLookup(vals, f - 1, c);
      var prev := Compress(vals, f - 1);
      if vals[f - 1] != 0 {
        assert line == prev + [Entry(f - 1, vals[f - 1])];
        assert line[..|line| - 1] == prev;
        ContainsExtend(line, |prev|, c);
      }
    }
    if Contains(line, c) {
      var p :| 0 <= p < |line| && line[p].index == c;
      CompressValid(vals, f);
      LookupFound(line, f, p);
    } else {
      LookupAbsent(line, c);
    }
  }

  /** Elements equal to zero between `f` and `g` add nothing to the compressed line. */
  lemma {:induction false} CompressZeros(vals: seq<int>, f: nat, g: nat)
    requires f <= g <= |vals|
    requires forall c :: f <= c < g ==> vals[c] == 0
    ensures Compress(vals, g) == Compress(vals, f)
  {
    if g > f {
      CompressZeros(vals, f, g - 1);
    }
  }

  /** Which elements of a dense line are nonzero. */
  function NonZeroFlags(vals: seq<int>): (flags: seq<bool>)
    ensures |flags| == |vals| && forall c :: 0 <= c < |vals| ==> (flags[c] <==> vals[c] != 0)
  {
    seq(|vals|, (c: int) requires 0 <= c < |vals| => vals[c] != 0)
  }

  /** The compressed line has one entry per nonzero element. */
  lemma {:induction false} CompressLength(vals: seq<int>, f: nat)
    requires f <= |vals|
    ensures |Compress(vals, f)| == Count(NonZeroFlags(vals), f)
  {
    if f > 0 {
      CompressLength(vals, f - 1);
    }
  }

  /** A dense stretch starting at lo that is zero wherever a sparse line stores
    * nothing: between the line's stored entries p - 1 and p it holds only zeros,
    * so the compressed prefix does not change across the gap. */
  lemma {:induction false} SparseGap(vals: seq<int>, lo: nat, line: seq<Entry>, bound: nat, p: nat)
    requires ValidLine(line, bound) && p <= |line| && lo + bound <= |vals|
    requires forall k :: 0 <= k < bound && !Contains(line, k) ==> vals[lo + k] == 0
    ensures var from := lo + (if p == 0 then 0 else line[p - 1].index + 1);
      var to := lo + (if p < |line| then line[p].index else bound);
      from <= to && Compress(vals, to) == Compress(vals, from)
  {
    var from := lo + (if p == 0 then 0 else line[p - 1].index + 1);
    var to := lo + (if p < |line| then line[p].index else bound);
    forall c | from <= c < to
      ensures vals[c] == 0
    {
      var k := c - lo;
      assert k < bound by {
        if p < |line| {
          assert line[p].index < bound;
        }
      }
      NotInGap(line, bound, p, k);
      assert vals[lo + k] == 0;
    }
    CompressZeros(vals, from, to);
  }
}
