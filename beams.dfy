/** The beam loops of `PRISM02`: the beam mask, the beam count, the beam labels
    and the list of flat beam offsets (`beamsIndex`). */
module Beams {
  import opened CInt
  import opened Grid

  /** `(long)round(v) % interp_f == 0`: the periodicity coordinate `v` lies on
      the interpolation-factor sub-lattice. The coordinate grid is built with
      unit frequency step, so `v` is already the integer frequency index. */
  predicate OnLattice(v: int, interp: int)
    requires interp != 0
  {
    Rem(v, interp) == 0
  }

  /** The selection test of the beam loop for pixel `(r, c)`, where `inMask` is
      the pixel's `qMask` cell: it passes the aperture, lies inside the band
      limit, and both periodicity coordinates are on the sub-lattice. */
  predicate IsBeamPixel(inMask: bool, r: nat, c: nat, xv: seq<int>, yv: seq<int>,
                        aperture: (nat, nat) -> bool, interp: int)
    requires r < |yv| && c < |xv| && interp != 0
  {
    aperture(r, c) && inMask && OnLattice(xv[c], interp) && OnLattice(yv[r], interp)
  }

  /** The beam mask once the selection loop reaches pixel `(y, x)`: the pixels
      visited before it are marked exactly when they pass the test, the others
      are still clear. */
  predicate SelectedUpTo(mask: seq<bool>, qMask: seq<bool>, rows: nat, cols: nat, xv: seq<int>, yv: seq<int>,
                         aperture: (nat, nat) -> bool, interp: int, y: nat, x: nat)
    requires |mask| == rows * cols && |qMask| == rows * cols && |xv| == cols && |yv| == rows && interp != 0
  {
    forall r, c :: 0 <= r < rows && 0 <= c < cols ==>
      mask[Offset(r, c, rows, cols)] ==
        ((r < y || (r == y && c < x)) && IsBeamPixel(qMask[Offset(r, c, rows, cols)], r, c, xv, yv, aperture, interp))
  }

  /** The beam mask and beam count of `PRISM02`: pixel `(y, x)` is a beam exactly
      when it passes the aperture test, lies inside `qMask`, and both of its
      periodicity coordinates (`xv[x]` along columns, `yv[y]` along rows) lie on
      the sub-lattice; `numberBeams` counts the pixels so marked. */
  method SelectBeams(qMask: seq<bool>, rows: nat, cols: nat, xv: seq<int>, yv: seq<int>,
                     aperture: (nat, nat) -> bool, interp: int)
    returns (mask: array<bool>, numberBeams: nat)
    requires |qMask| == rows * cols && |xv| == cols && |yv| == rows && interp != 0
    ensures mask.Length == rows * cols
    ensures forall r, c :: 0 <= r < rows && 0 <= c < cols ==>
      mask[Offset(r, c, rows, cols)] ==
        IsBeamPixel(qMask[Offset(r, c, rows, cols)], r, c, xv, yv, aperture, interp)
    ensures numberBeams == CountTrue(mask[..])
  {
    mask := new bool[rows * cols](_ => false);
    CountTrueNone(mask[..]);
    numberBeams := 0;
    var y := 0;
    while y < rows
      invariant 0 <= y <= rows && mask.Length == rows * cols
      invariant SelectedUpTo(mask[..], qMask, rows, cols, xv, yv, aperture, interp, y, 0)
      invariant numberBeams == CountTrue(mask[..])
    {
      numberBeams := SelectRow(qMask, rows, cols, xv, yv, aperture, interp, mask, y, numberBeams);
      y := y + 1;
    }
    assert SelectedUpTo(mask[..], qMask, rows, cols, xv, yv, aperture, interp, rows, 0);
  }

  /** One pass of the inner selection loop, over the pixels of row `y`. */
  method SelectRow(qMask: seq<bool>, rows: nat, cols: nat, xv: seq<int>, yv: seq<int>,
                   aperture: (nat, nat) -> bool, interp: int, mask: array<bool>, y: nat, count: nat)
    returns (numberBeams: nat)
    requires |qMask| == rows * cols && |xv| == cols && |yv| == rows && interp != 0
    requires mask.Length == rows * cols && y < rows && count == CountTrue(mask[..])
    requires SelectedUpTo(mask[..], qMask, rows, cols, xv, yv, aperture, interp, y, 0)
    modifies mask
    ensures SelectedUpTo(mask[..], qMask, rows, cols, xv, yv, aperture, interp, y + 1, 0)
    ensures numberBeams == CountTrue(mask[..])
  {
    numberBeams := count;
    var x := 0;
    while x < cols
      invariant 0 <= x <= cols
      invariant SelectedUpTo(mask[..], qMask, rows, cols, xv, yv, aperture, interp, y, x)
      invariant numberBeams == CountTrue(mask[..])
    {
      var p := Offset(y, x, rows, cols);
      if aperture(y, x) && qMask[p] && OnLattice(xv[x], interp) && OnLattice(yv[y], interp) {
        CountTrueSet(mask[..], p);
        mask[p] := true;
        numberBeams := numberBeams + 1;
      }
      x := x + 1;
    }
  }

  /** Flat offsets below `p` whose cell is set in `m`, in ascending (row-major
      scan) order. */
  function Scan(m: seq<bool>, p: nat): (offsets: seq<nat>)
    requires p <= |m|
  {
    if p == 0 then [] else Scan(m, p - 1) + (if m[p - 1] then [p - 1] else [])
  }

  /** The label the scan gives the cell at offset `q`: 0 when it is not a beam,
      otherwise one more than the number of beams before it. */
  function Label(m: seq<bool>, q: nat): (rank: nat)
    requires q < |m|
  {
    if m[q] then |Scan(m, q)| + 1 else 0
  }

  /** The labels once the labelling loop has visited the offsets below `p`:
      those carry their `Label`, the rest are still 0. */
  predicate LabelledUpTo(labels: seq<nat>, m: seq<bool>, p: nat)
    requires |labels| == |m|
  {
    forall q :: 0 <= q < |labels| ==> labels[q] == if q < p then Label(m, q) else 0
  }

  /** The beam-labelling loop of `PRISM02` on an `n` x `n` grid: pixels are
      visited in row-major order, each beam pixel appends its flat offset
      `y * n + x` to `beamsIndex` and receives the next label, starting at 1;
      every other pixel keeps label 0. */
  method LabelBeams(mask: array<bool>, n: nat) returns (beams: array<nat>, beamsIndex: seq<nat>)
    requires mask.Length == n * n
    ensures beams.Length == n * n
    ensures beamsIndex == Scan(mask[..], n * n)
    ensures forall q :: 0 <= q < n * n ==> beams[q] == Label(mask[..], q)
  {
    beams := new nat[n * n](_ => 0);
    beamsIndex := [];
    var beamCount := 1;
    ghost var p := 0;
    var y := 0;
    while y < n
      invariant 0 <= y <= n && p == y * n && p <= n * n && beams.Length == n * n
      invariant beamsIndex == Scan(mask[..], p) && beamCount == |beamsIndex| + 1
      invariant LabelledUpTo(beams[..], mask[..], p)
    {
      var x := 0;
      while x < n
        invariant 0 <= x <= n && p == y * n + x && p <= n * n
        invariant beamsIndex == Scan(mask[..], p) && beamCount == |beamsIndex| + 1
        invariant LabelledUpTo(beams[..], mask[..], p)
      {
        var o := Offset(y, x, n, n);
        assert o == p;
        if mask[o] {
          beamsIndex := beamsIndex + [o];
          beams[o] := beamCount;
          beamCount := beamCount + 1;
        }
        p := p + 1;
        x := x + 1;
      }
      MulLeq(y + 1, n, n);
      y := y + 1;
    }
  }

  /** Every offset the scan lists is below `p` and marks a beam. */
  lemma {:induction false} ScanSound(m: seq<bool>, p: nat)
    requires p <= |m|
    ensures forall i :: 0 <= i < |Scan(m, p)| ==> Scan(m, p)[i] < p && m[Scan(m, p)[i]]
  {
    if p > 0 {
      ScanSound(m, p - 1);
    }
  }

  /** The scan lists its offsets in strictly increasing order. */
  lemma {:induction false} ScanIncreasing(m: seq<bool>, p: nat)
    requires p <= |m|
    ensures forall i, j :: 0 <= i < j < |Scan(m, p)| ==> Scan(m, p)[i] < Scan(m, p)[j]
  {
    if p > 0 {
      ScanIncreasing(m, p - 1);
      ScanSound(m, p - 1);
    }
  }

  /** A scan up to `q` is a prefix of the scan up to any later `p`. */
  lemma {:induction false} ScanPrefix(m: seq<bool>, q: nat, p: nat)
    requires q <= p <= |m|
    ensures |Scan(m, q)| <= |Scan(m, p)| && Scan(m, p)[..|Scan(m, q)|] == Scan(m, q)
  {
    if q < p {
      ScanPrefix(m, q, p - 1);
    }
  }

  /** The scan up to `p` has one entry per beam below `p`. */
  lemma {:induction false} ScanCount(m: seq<bool>, p: nat)
    requires p <= |m|
    ensures |Scan(m, p)| == CountTrue(m[..p])
  {
    if p > 0 {
      ScanCount(m, p - 1);
      assert m[..p][..p - 1] == m[..p - 1];
    }
  }

  /** Every beam below `p` is listed, at the position one less than its label. */
  lemma ScanComplete(m: seq<bool>, p: nat, q: nat)
    requires p <= |m| && q < p && m[q]
    ensures Label(m, q) - 1 < |Scan(m, p)| && Scan(m, p)[Label(m, q) - 1] == q
  {
    ScanPrefix(m, q + 1, p);
    assert Scan(m, q + 1) == Scan(m, q) + [q];
  }

  /** The beam at position `b` of the list carries label `b + 1`. */
  lemma ScanRank(m: seq<bool>, p: nat, b: nat)
    requires p <= |m| && b < |Scan(m, p)|
    ensures Scan(m, p)[b] < |m| && Label(m, Scan(m, p)[b]) == b + 1
  {
    ScanSound(m, p);
    var q := Scan(m, p)[b];
    ScanComplete(m, p, q);
    ScanIncreasing(m, p);
  }

  /** The labels of a mask of `N` pixels: a beam pixel carries a label in
      `1..numberBeams`, every other pixel carries 0, every label in
      `1..numberBeams` is carried by the pixel `beamsIndex[label - 1]`, and
      `numberBeams` is both the number of set cells and `|beamsIndex|`. */
  lemma BeamLabelling(m: seq<bool>)
    ensures |Scan(m, |m|)| == CountTrue(m)
    ensures forall q :: 0 <= q < |m| ==> (Label(m, q) == 0 <==> !m[q])
    ensures forall q :: 0 <= q < |m| && m[q] ==>
      1 <= Label(m, q) <= |Scan(m, |m|)| && Scan(m, |m|)[Label(m, q) - 1] == q
    ensures forall b :: 0 <= b < |Scan(m, |m|)| ==>
      Scan(m, |m|)[b] < |m| && m[Scan(m, |m|)[b]] && Label(m, Scan(m, |m|)[b]) == b + 1
  {
    ScanCount(m, |m|);
    assert m[..|m|] == m;
    ScanSound(m, |m|);
    forall q | 0 <= q < |m| && m[q]
      ensures 1 <= Label(m, q) <= |Scan(m, |m|)| && Scan(m, |m|)[Label(m, q) - 1] == q
    {
      ScanComplete(m, |m|, q);
    }
    forall b | 0 <= b < |Scan(m, |m|)|
      ensures Scan(m, |m|)[b] < |m| && Label(m, Scan(m, |m|)[b]) == b + 1
    {
      ScanRank(m, |m|, b);
    }
  }
}
