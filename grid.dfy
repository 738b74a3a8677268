/** The storage layout shared by every grid of the builder: a dense row-major
    vector with explicit extents (ArrayND), and the sample type it holds. */
module Grid {

  /** A complex sample. Sample arithmetic (`SMatrix.Mul`, `SMatrix.Div`) is exact
      arithmetic on reals, without floating-point rounding; the transforms and
      the exponentials are inputs. */
  datatype Complex = Complex(re: real, im: real)

  const Zero: Complex := Complex(0.0, 0.0)
  const One: Complex := Complex(1.0, 0.0)

  /** Flat offset of cell `(r, c)` of a row-major `rows` x `cols` grid. The
      offset lies inside the storage and determines the cell. */
  function Offset(r: nat, c: nat, rows: nat, cols: nat): (p: nat)
    requires r < rows && c < cols
    ensures p < rows * cols
    ensures p / cols == r && p % cols == c
  {
    OffsetInRange(r, c, rows, cols);
    OffsetSplit(r, c, cols);
    r * cols + c
  }

  lemma OffsetInRange(r: nat, c: nat, rows: nat, cols: nat)
    requires r < rows && c < cols
    ensures r * cols + c < rows * cols
  {
    MulLeq(r + 1, rows, cols);
  }

  lemma OffsetSplit(r: nat, c: nat, cols: nat)
    requires c < cols
    ensures (r * cols + c) / cols == r && (r * cols + c) % cols == c
  {
    var p := r * cols + c;
    var q, m := p / cols, p % cols;
    assert cols * (q - r) == c - m;
    if q > r {
      MulLeq(1, q - r, cols);
    } else if q < r {
      MulLeq(1, r - q, cols);
    }
  }

  /** Every offset of a `rows` x `cols` grid belongs to a cell. */
  lemma OffsetOnto(p: nat, rows: nat, cols: nat)
    requires p < rows * cols
    ensures cols > 0 && p / cols < rows && Offset(p / cols, p % cols, rows, cols) == p
  {
    if p / cols >= rows {
      MulLeq(rows, p / cols, cols);
    }
  }

  /** The row of the cell at offset `p`. */
  function RowOf(p: nat, rows: nat, cols: nat): (r: nat)
    requires p < rows * cols
    ensures r < rows
  {
    OffsetOnto(p, rows, cols);
    p / cols
  }

  /** The column of the cell at offset `p`; with `RowOf` it names the cell. */
  function ColOf(p: nat, rows: nat, cols: nat): (c: nat)
    requires p < rows * cols
    ensures c < cols && Offset(RowOf(p, rows, cols), c, rows, cols) == p
  {
    OffsetOnto(p, rows, cols);
    p % cols
  }

  lemma MulLeq(a: nat, b: nat, k: nat)
    requires a <= b
    ensures a * k <= b * k
  {
    assert b * k == a * k + (b - a) * k;
  }

  /** Number of set cells of a mask. */
  function CountTrue(s: seq<bool>): (r: nat)
    ensures r <= |s|
  {
    if s == [] then 0 else CountTrue(s[..|s| - 1]) + (if s[|s| - 1] then 1 else 0)
  }

  /** A mask with no set cell counts zero. */
  lemma {:induction false} CountTrueNone(s: seq<bool>)
    requires forall k :: 0 <= k < |s| ==> !s[k]
    ensures CountTrue(s) == 0
  {
    if s != [] {
      CountTrueNone(s[..|s| - 1]);
    }
  }

  /** Setting one clear cell raises the count by exactly one. */
  lemma {:induction false} CountTrueSet(s: seq<bool>, k: nat)
    requires k < |s| && !s[k]
    ensures CountTrue(s[k := true]) == CountTrue(s) + 1
  {
    var t := s[k := true];
    if k == |s| - 1 {
      assert t[..|t| - 1] == s[..|s| - 1];
    } else {
      assert t[..|t| - 1] == s[..|s| - 1][k := true];
      CountTrueSet(s[..|s| - 1], k);
    }
  }
}
