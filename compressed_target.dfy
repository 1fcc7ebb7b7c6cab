/** The part of a compressed sparse matrix that the Kronecker kernels drive
  * when they assign into a sparse target: per-line capacity reserved with
  * `reserve(l, n)` and entries added at the end of a line with
  * `append(i, j, v, check)`. */
module CompressedTargets {
  import opened SparseLines

  class CompressedTarget {
    const rows: nat
    const columns: nat
    const rowMajor: bool
    /** The stored entries of every line (rows when row-major, else columns). */
    var lines: seq<seq<Entry>>
    /** The number of entries each line has room for. */
    var capacity: seq<nat>

    /** The extent of a line: columns when row-major, rows otherwise. */
    function Extent(): nat {
      if rowMajor then columns else rows
    }

    /** Every line is valid within the extent and fits its capacity. */
    ghost predicate Valid()
      reads this
    {
      |lines| == |capacity| == (if rowMajor then rows else columns) &&
      (forall l :: 0 <= l < |lines| ==> |lines[l]| <= capacity[l]) &&
      forall l {:trigger ValidLine(lines[l], Extent())} :: 0 <= l < |lines| ==> ValidLine(lines[l], Extent())
    }

    /** An empty matrix with no reserved room. */
    constructor (rows: nat, columns: nat, rowMajor: bool)
      ensures Valid() && this.rows == rows && this.columns == columns && this.rowMajor == rowMajor
      ensures |lines| == (if rowMajor then rows else columns)
      ensures forall l :: 0 <= l < |lines| ==> lines[l] == [] && capacity[l] == 0
    {
      this.rows, this.columns, this.rowMajor := rows, columns, rowMajor;
      var n := if rowMajor then rows else columns;
      lines := seq(n, _ => []);
      capacity := seq(n, _ => 0);
    }

    /** `reserve(l, n)`: line l gets room for at least n entries; nothing stored changes. */
    method Reserve(l: nat, n: nat)
      requires Valid() && l < |lines|
      modifies this
      ensures Valid() && lines == old(lines)
      ensures capacity == old(capacity)[l := if n > old(capacity[l]) then n else old(capacity[l])]
    {
      capacity := capacity[l := if n > capacity[l] then n else capacity[l]];
    }

    /** `append(i, j, v, check)`: writes (i, j) = v at the end of its line. The
      * line must have room left and j (row-major) or i (column-major) must exceed
      * every index stored in it; with `check` a value equal to zero is dropped. */
    method Append(i: nat, j: nat, v: int, check: bool)
      requires Valid() && i < rows && j < columns
      requires var l, x := (if rowMajor then i else j), (if rowMajor then j else i);
        |lines[l]| < capacity[l] && (lines[l] != [] ==> lines[l][|lines[l]| - 1].index < x)
      modifies this
      ensures Valid() && capacity == old(capacity)
      ensures var l, x := (if rowMajor then i else j), (if rowMajor then j else i);
        lines == old(lines)[l := if check then Appended(old(lines[l]), x, v) else old(lines[l]) + [Entry(x, v)]]
    {
      var l, x := (if rowMajor then i else j), (if rowMajor then j else i);
      if !check || v != 0 {
        assert ValidLine(lines[l], Extent());
        lines := lines[l := lines[l] + [Entry(x, v)]];
      }
    }
  }
}
