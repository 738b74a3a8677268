/** The index tables `qyInd`/`qxInd` of the compact (half-size) grid built in
    `PRISM02`, and the gather `out(y, x) = src(qyInd[y], qxInd[x])` that
    `propagatePlaneWave` and the output tables of `PRISM02` perform. */
module CompactGrid {
  import opened Grid
  import opened BandLimit

  /** Entry `k` of the table for an axis of extent `n`: the first `n/4` entries
      are `0, 1, ...`, the next `n/4` are `(i - n/4) + n`, and any entry left
      over when 4 does not divide `n` keeps the zero it was allocated with. */
  function CompactIndex(n: nat, k: nat): (line: nat) {
    if k < n / 4 then k
    else if k < 2 * (n / 4) then k - 2 * (n / 4) + n
    else 0
  }

  /** The index-table loop of `PRISM02` for one axis: a zero table of length
      `n/2`, and for every `i < n/4` the entries `i` and `i + n/4`. */
  method BuildCompactIndex(n: nat) returns (ind: array<nat>)
    ensures ind.Length == n / 2
    ensures forall k :: 0 <= k < n / 2 ==> ind[k] == CompactIndex(n, k) && ind[k] < n
  {
    ind := new nat[n / 2](_ => 0);
    var nQuarter := n / 4;
    var i := 0;
    while i < nQuarter
      invariant 0 <= i <= nQuarter && ind.Length == n / 2
      invariant forall k :: 0 <= k < n / 2 ==>
        ind[k] == if k < i || (nQuarter <= k < nQuarter + i) then CompactIndex(n, k) else 0
    {
      ind[i] := i;
      ind[i + nQuarter] := (i - nQuarter) + n;
      i := i + 1;
    }
  }

  /** The position in the table of band line `r` (the inverse of `CompactIndex`). */
  function CompactSlot(n: nat, r: nat): (k: nat) {
    if r < n - n / 2 then r else r + n / 2 - n
  }

  /** When 4 divides `n`, the table is strictly increasing and its values are
      exactly the lines that the band-limit mask marks: each entry is a band
      line of the axis, and each band line is the entry at position
      `CompactSlot(n, r)`. */
  lemma CompactIndexIsBand(n: nat)
    requires n > 0 && n % 4 == 0
    ensures forall j, k :: 0 <= j < k < n / 2 ==> CompactIndex(n, j) < CompactIndex(n, k)
    ensures forall k :: 0 <= k < n / 2 ==> CompactIndex(n, k) < n && InBandAxis(CompactIndex(n, k), n)
    ensures forall r :: 0 <= r < n && InBandAxis(r, n) ==>
      CompactSlot(n, r) < n / 2 && CompactIndex(n, CompactSlot(n, r)) == r
  {
    forall k | 0 <= k < n / 2
      ensures CompactIndex(n, k) < n && InBandAxis(CompactIndex(n, k), n)
    {
      BandIsOuterQuarters(CompactIndex(n, k), n);
    }
    forall r | 0 <= r < n && InBandAxis(r, n)
      ensures CompactSlot(n, r) < n / 2 && CompactIndex(n, CompactSlot(n, r)) == r
    {
      BandIsOuterQuarters(r, n);
    }
  }

  /** When 4 does not divide `n` the table misses band lines: for `n = 6` line 1
      is in the band but no entry of the table (which is `[0, 5, 0]`) names it. */
  lemma CompactIndexMissesBand()
    ensures InBandAxis(1, 6)
    ensures forall k :: 0 <= k < 3 ==> CompactIndex(6, k) != 1
  {
  }

  /** Every index of both tables addresses a cell of a `rows` x `cols` grid. */
  predicate IndexesGrid(qyInd: seq<nat>, qxInd: seq<nat>, rows: nat, cols: nat) {
    (forall k :: 0 <= k < |qyInd| ==> qyInd[k] < rows) &&
    (forall k :: 0 <= k < |qxInd| ==> qxInd[k] < cols)
  }

  /** The first `k` rows of the cropped grid, row-major: row `y` holds
      `src(qyInd[y], qxInd[x])` for every `x`. */
  function CropRows<T>(src: seq<T>, rows: nat, cols: nat, qyInd: seq<nat>, qxInd: seq<nat>, k: nat): (r: seq<T>)
    requires |src| == rows * cols && IndexesGrid(qyInd, qxInd, rows, cols) && k <= |qyInd|
    ensures |r| == k * |qxInd|
  {
    if k == 0 then []
    else
      var row := seq(|qxInd|, x requires 0 <= x < |qxInd| => src[Offset(qyInd[k - 1], qxInd[x], rows, cols)]);
      assert (k - 1) * |qxInd| + |qxInd| == k * |qxInd|;
      CropRows(src, rows, cols, qyInd, qxInd, k - 1) + row
  }

  /** The grid of shape `|qyInd|` x `|qxInd|` cut out of `src` by the tables. */
  function Crop<T>(src: seq<T>, rows: nat, cols: nat, qyInd: seq<nat>, qxInd: seq<nat>): (r: seq<T>)
    requires |src| == rows * cols && IndexesGrid(qyInd, qxInd, rows, cols)
    ensures |r| == |qyInd| * |qxInd|
  {
    CropRows(src, rows, cols, qyInd, qxInd, |qyInd|)
  }

  /** Cell `(y, x)` of the crop is cell `(qyInd[y], qxInd[x])` of the source. */
  lemma {:induction false} CropAt<T>(src: seq<T>, rows: nat, cols: nat, qyInd: seq<nat>, qxInd: seq<nat>,
                                     k: nat, y: nat, x: nat)
    requires |src| == rows * cols && IndexesGrid(qyInd, qxInd, rows, cols) && k <= |qyInd|
    requires y < k && x < |qxInd|
    ensures Offset(y, x, |qyInd|, |qxInd|) < |CropRows(src, rows, cols, qyInd, qxInd, k)|
    ensures CropRows(src, rows, cols, qyInd, qxInd, k)[Offset(y, x, |qyInd|, |qxInd|)] ==
      src[Offset(qyInd[y], qxInd[x], rows, cols)]
  {
    var w := |qxInd|;
    assert Offset(y, x, |qyInd|, w) == Offset(y, x, k, w);
    if y < k - 1 {
      assert Offset(y, x, |qyInd|, w) == Offset(y, x, k - 1, w);
      CropAt(src, rows, cols, qyInd, qxInd, k - 1, y, x);
    } else {
      assert Offset(y, x, |qyInd|, w) == (k - 1) * w + x;
    }
  }

  /** The crop gather of `propagatePlaneWave` and of the output tables: a zero
      grid of shape `|qyInd|` x `|qxInd|` whose cell `(y, x)` receives
      `src(qyInd[y], qxInd[x])`. */
  method Gather<T>(src: seq<T>, rows: nat, cols: nat, qyInd: seq<nat>, qxInd: seq<nat>, zero: T)
    returns (out: array<T>)
    requires |src| == rows * cols && IndexesGrid(qyInd, qxInd, rows, cols)
    ensures fresh(out) && out.Length == |qyInd| * |qxInd|
    ensures forall y, x :: 0 <= y < |qyInd| && 0 <= x < |qxInd| ==>
      out[Offset(y, x, |qyInd|, |qxInd|)] == src[Offset(qyInd[y], qxInd[x], rows, cols)]
    ensures out[..] == Crop(src, rows, cols, qyInd, qxInd)
  {
    var h, w := |qyInd|, |qxInd|;
    out := new T[h * w](_ => zero);
    var y := 0;
    while y < h
      invariant 0 <= y <= h && out.Length == h * w
      invariant forall r, c :: 0 <= r < y && 0 <= c < w ==>
        out[Offset(r, c, h, w)] == src[Offset(qyInd[r], qxInd[c], rows, cols)]
    {
      var x := 0;
      while x < w
        invariant 0 <= x <= w
        invariant forall r, c :: 0 <= c < w && (0 <= r < y || (r == y && c < x)) ==>
          out[Offset(r, c, h, w)] == src[Offset(qyInd[r], qxInd[c], rows, cols)]
      {
        out[Offset(y, x, h, w)] := src[Offset(qyInd[y], qxInd[x], rows, cols)];
        x := x + 1;
      }
      y := y + 1;
    }
    forall q | 0 <= q < h * w
      ensures out[q] == Crop(src, rows, cols, qyInd, qxInd)[q]
    {
      OffsetOnto(q, h, w);
      CropAt(src, rows, cols, qyInd, qxInd, h, q / w, q % w);
    }
  }

  /** When 4 divides both extents, the compact grid addressed by the two tables
      is exactly the support of the band-limit mask: each compact cell is a mask
      cell, and each mask cell is the compact cell at its `CompactSlot`s. */
  lemma CompactGridIsMask(rows: nat, cols: nat)
    requires rows > 0 && cols > 0 && rows % 4 == 0 && cols % 4 == 0
    ensures forall y, x :: 0 <= y < rows / 2 && 0 <= x < cols / 2 ==>
      CompactIndex(rows, y) < rows && CompactIndex(cols, x) < cols &&
      InBandAxis(CompactIndex(rows, y), rows) && InBandAxis(CompactIndex(cols, x), cols)
    ensures forall r, c :: 0 <= r < rows && 0 <= c < cols && InBandAxis(r, rows) && InBandAxis(c, cols) ==>
      CompactSlot(rows, r) < rows / 2 && CompactSlot(cols, c) < cols / 2 &&
      CompactIndex(rows, CompactSlot(rows, r)) == r && CompactIndex(cols, CompactSlot(cols, c)) == c
  {
    CompactIndexIsBand(rows);
    CompactIndexIsBand(cols);
  }
}
