/** The mask and propagator loops of `PRISM02`: the quadrant-wrapped half-Nyquist
    mask `qMask` and the propagators `prop`/`propBack` that are non-zero only inside it. */
module BandLimit {
  import opened CInt
  import opened Grid

  /** The scan coordinate in `[0, n)` whose wrapped image is grid line `r`:
      line `r` is marked by iteration `(r + n/4) mod n`. */
  function ScanCoord(r: nat, n: nat): (s: nat)
    requires n > 0
  {
    (r + n / 4) % n
  }

  /** Grid line `r` of an axis of extent `n` is inside the band: the loop marks it
      from some scan coordinate in `[0, n/2)`. */
  predicate InBandAxis(r: nat, n: nat)
    requires n > 0
  {
    ScanCoord(r, n) < n / 2
  }

  /** Iteration `y` of the mask loop marks line `((y - n/4) % n + n) % n`, and the
      scan coordinate of that line is `y`. */
  lemma WrapMarksScanCoord(y: nat, n: nat)
    requires y < n
    ensures 0 <= WrapIndex(y - n / 4, n) < n
    ensures ScanCoord(WrapIndex(y - n / 4, n), n) == y
  {
    WrapIndexIsMod(y - n / 4, n);
    ModNear(y - n / 4, n);
    ModNear((y - n / 4) % n + n / 4, n);
  }

  /** Distinct lines of an axis have distinct scan coordinates. */
  lemma ScanCoordInjective(n: nat)
    requires n > 0
    ensures forall r1, r2 :: 0 <= r1 < n && 0 <= r2 < n && ScanCoord(r1, n) == ScanCoord(r2, n) ==> r1 == r2
  {
    forall r1, r2 | 0 <= r1 < n && 0 <= r2 < n && ScanCoord(r1, n) == ScanCoord(r2, n)
      ensures r1 == r2
    {
      ModNear(r1 + n / 4, n);
      ModNear(r2 + n / 4, n);
    }
  }

  /** When 4 divides `n`, the band is the first quarter and the last quarter of
      the axis: `[0, n/4)` and `[3n/4, n)`. */
  lemma BandIsOuterQuarters(r: nat, n: nat)
    requires n > 0 && n % 4 == 0 && r < n
    ensures InBandAxis(r, n) <==> r < n / 4 || r >= 3 * n / 4
  {
    ModNear(r + n / 4, n);
  }

  /** The cells the mask loop has set once it reaches scan position `(y, x)`:
      every band cell of the rows scanned before `y`, and the band cells of
      row `y` scanned before `x`. */
  predicate MarkedUpTo(m: seq<bool>, rows: nat, cols: nat, y: nat, x: nat)
    requires |m| == rows * cols
  {
    forall r, c :: 0 <= r < rows && 0 <= c < cols ==>
      m[Offset(r, c, rows, cols)] ==
        ((ScanCoord(r, rows) < y && InBandAxis(c, cols)) ||
         (ScanCoord(r, rows) == y && ScanCoord(c, cols) < x))
  }

  /** The mask loop of `PRISM02`: a `rows` x `cols` grid, zero-initialised, and
      for every `y < rows/2`, `x < cols/2` the cell
      `((y - rows/4) mod rows, (x - cols/4) mod cols)` is set.
      Each iteration sets a cell that was clear, so exactly
      `(rows/2) * (cols/2)` cells end up set. */
  method BuildQMask(rows: nat, cols: nat) returns (qMask: array<bool>)
    ensures qMask.Length == rows * cols
    ensures forall r, c :: 0 <= r < rows && 0 <= c < cols ==>
      qMask[Offset(r, c, rows, cols)] == (InBandAxis(r, rows) && InBandAxis(c, cols))
    ensures CountTrue(qMask[..]) == (rows / 2) * (cols / 2)
  {
    qMask := new bool[rows * cols](_ => false);
    CountTrueNone(qMask[..]);
    var y := 0;
    while y < rows / 2
      invariant 0 <= y <= rows / 2 && qMask.Length == rows * cols
      invariant MarkedUpTo(qMask[..], rows, cols, y, 0)
      invariant CountTrue(qMask[..]) == y * (cols / 2)
    {
      MarkRow(qMask, rows, cols, y);
      assert (y + 1) * (cols / 2) == y * (cols / 2) + cols / 2;
      y := y + 1;
    }
    assert MarkedUpTo(qMask[..], rows, cols, rows / 2, 0);
  }

  /** One pass of the inner mask loop: it sets the `cols/2` band cells of the
      row whose scan coordinate is `y`. */
  method MarkRow(qMask: array<bool>, rows: nat, cols: nat, y: nat)
    requires qMask.Length == rows * cols && y < rows / 2
    requires MarkedUpTo(qMask[..], rows, cols, y, 0)
    modifies qMask
    ensures MarkedUpTo(qMask[..], rows, cols, y + 1, 0)
    ensures CountTrue(qMask[..]) == CountTrue(old(qMask[..])) + cols / 2
  {
    var x := 0;
    while x < cols / 2
      invariant 0 <= x <= cols / 2
      invariant MarkedUpTo(qMask[..], rows, cols, y, x)
      invariant CountTrue(qMask[..]) == CountTrue(old(qMask[..])) + x
    {
      MarkOneCell(qMask, rows, cols, y, x);
      x := x + 1;
    }
  }

  /** One iteration of the inner mask loop: the wrapped cell `(tr, tc)`, whose
      scan coordinates are `(y, x)`, goes from clear to set and nothing else
      changes. */
  method MarkOneCell(qMask: array<bool>, rows: nat, cols: nat, y: nat, x: nat)
    requires qMask.Length == rows * cols && y < rows / 2 && x < cols / 2
    requires MarkedUpTo(qMask[..], rows, cols, y, x)
    modifies qMask
    ensures MarkedUpTo(qMask[..], rows, cols, y, x + 1)
    ensures CountTrue(qMask[..]) == CountTrue(old(qMask[..])) + 1
  {
    var offsetX, offsetY := cols / 4, rows / 4;
    var tr := WrapIndex(y - offsetY, rows);
    var tc := WrapIndex(x - offsetX, cols);
    WrapMarksScanCoord(y, rows);
    WrapMarksScanCoord(x, cols);
    ScanCoordInjective(rows);
    ScanCoordInjective(cols);
    var p := Offset(tr, tc, rows, cols);
    assert !qMask[p];
    CountTrueSet(qMask[..], p);
    qMask[p] := true;
  }

  /** The propagator loop of `PRISM02`: both kernels are zero-initialised and a
      cell receives its value `kernel(y, x)` / `kernelBack(y, x)` exactly when
      `qMask` is set there. The kernels stand for the complex exponentials of
      the slice thickness and of the cell height. */
  method BuildPropagators(qMask: array<bool>, rows: nat, cols: nat,
                          kernel: (nat, nat) -> Complex, kernelBack: (nat, nat) -> Complex)
    returns (prop: array<Complex>, propBack: array<Complex>)
    requires qMask.Length == rows * cols
    ensures prop.Length == rows * cols && propBack.Length == rows * cols
    ensures forall r, c :: 0 <= r < rows && 0 <= c < cols ==>
      prop[Offset(r, c, rows, cols)] == (if qMask[Offset(r, c, rows, cols)] then kernel(r, c) else Zero)
    ensures forall r, c :: 0 <= r < rows && 0 <= c < cols ==>
      propBack[Offset(r, c, rows, cols)] == (if qMask[Offset(r, c, rows, cols)] then kernelBack(r, c) else Zero)
  {
    prop := new Complex[rows * cols](_ => Zero);
    propBack := new Complex[rows * cols](_ => Zero);
    var y := 0;
    while y < rows
      invariant 0 <= y <= rows
      invariant forall r, c :: 0 <= r < rows && 0 <= c < cols ==>
        prop[Offset(r, c, rows, cols)] == (if r < y && qMask[Offset(r, c, rows, cols)] then kernel(r, c) else Zero) &&
        propBack[Offset(r, c, rows, cols)] == (if r < y && qMask[Offset(r, c, rows, cols)] then kernelBack(r, c) else Zero)
    {
      var x := 0;
      while x < cols
        invariant 0 <= x <= cols
        invariant forall r, c :: 0 <= r < rows && 0 <= c < cols ==>
          var done := r < y || (r == y && c < x);
          prop[Offset(r, c, rows, cols)] == (if done && qMask[Offset(r, c, rows, cols)] then kernel(r, c) else Zero) &&
          propBack[Offset(r, c, rows, cols)] == (if done && qMask[Offset(r, c, rows, cols)] then kernelBack(r, c) else Zero)
      {
        var p := Offset(y, x, rows, cols);
        if qMask[p] {
          prop[p] := kernel(y, x);
          propBack[p] := kernelBack(y, x);
        }
        x := x + 1;
      }
      y := y + 1;
    }
  }
}
