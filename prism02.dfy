/** `PRISM02`: the compact S-matrix stage on an `n` x `n` grid. It fills the
    fields of the simulation parameters object in order: coordinate grids,
    band-limit mask, propagators, beams, compact index tables, the compact
    S-matrix and the down-sampled output tables. */
module Prism02 {
  import opened CInt
  import opened Grid
  import opened FourierCoords
  import opened BandLimit
  import opened Beams
  import opened CompactGrid
  import opened SMatrix

  /** Pixel `(r, c)` is a beam: it passes the aperture, lies in the band on both
      axes, and both of its integer frequencies, as `makeFourierCoords` lays
      them out, are multiples of the interpolation factor. */
  predicate Beam(n: nat, r: nat, c: nat, aperture: (nat, nat) -> bool, interp: int)
    requires r < n && c < n && interp != 0
  {
    aperture(r, c) && InBandAxis(r, n) && InBandAxis(c, n) &&
    FreqAt(n, r) % interp == 0 && FreqAt(n, c) % interp == 0
  }

  /** The beam pixels of an `n` x `n` grid as a row-major mask. */
  function BeamMask(n: nat, aperture: (nat, nat) -> bool, interp: int): (m: seq<bool>)
    requires interp != 0
    ensures |m| == n * n
    ensures forall r, c :: 0 <= r < n && 0 <= c < n ==> m[Offset(r, c, n, n)] == Beam(n, r, c, aperture, interp)
  {
    seq(n * n, q requires 0 <= q < n * n => Beam(n, RowOf(q, n, n), ColOf(q, n, n), aperture, interp))
  }

  /** `meshgrid(xs, ys)`: two `|ys|` x `|xs|` grids, the first repeating `xs`
      along every row, the second repeating `ys` down every column. */
  method MeshGrid(xs: seq<int>, ys: seq<int>) returns (first: array<int>, second: array<int>)
    ensures first.Length == |ys| * |xs| && second.Length == |ys| * |xs|
    ensures forall r, c :: 0 <= r < |ys| && 0 <= c < |xs| ==>
      first[Offset(r, c, |ys|, |xs|)] == xs[c] && second[Offset(r, c, |ys|, |xs|)] == ys[r]
  {
    var h, w := |ys|, |xs|;
    first := new int[h * w](_ => 0);
    second := new int[h * w](_ => 0);
    var y := 0;
    while y < h
      invariant 0 <= y <= h
      invariant forall r, c :: 0 <= r < y && 0 <= c < w ==>
        first[Offset(r, c, h, w)] == xs[c] && second[Offset(r, c, h, w)] == ys[r]
    {
      var x := 0;
      while x < w
        invariant 0 <= x <= w
        invariant forall r, c :: 0 <= c < w && (0 <= r < y || (r == y && c < x)) ==>
          first[Offset(r, c, h, w)] == xs[c] && second[Offset(r, c, h, w)] == ys[r]
      {
        first[Offset(y, x, h, w)] := xs[x];
        second[Offset(y, x, h, w)] := ys[y];
        x := x + 1;
      }
      y := y + 1;
    }
  }

  /** With the mask of `BuildQMask`, the selection of `SelectBeams` and the
      coordinates of `MakeFourierCoords`, the selected pixels are exactly the
      beams. */
  lemma SelectedAreBeams(n: nat, qm: seq<bool>, m: seq<bool>, xv: seq<int>, yv: seq<int>,
                         aperture: (nat, nat) -> bool, interp: int)
    requires interp != 0 && |qm| == n * n && |m| == n * n && |xv| == n && |yv| == n
    requires forall k :: 0 <= k < n ==> xv[k] == FreqAt(n, k) && yv[k] == FreqAt(n, k)
    requires forall r, c :: 0 <= r < n && 0 <= c < n ==>
      qm[Offset(r, c, n, n)] == (InBandAxis(r, n) && InBandAxis(c, n))
    requires forall r, c :: 0 <= r < n && 0 <= c < n ==>
      m[Offset(r, c, n, n)] == IsBeamPixel(qm[Offset(r, c, n, n)], r, c, xv, yv, aperture, interp)
    ensures forall r, c :: 0 <= r < n && 0 <= c < n ==> m[Offset(r, c, n, n)] == Beam(n, r, c, aperture, interp)
  {
    forall r, c | 0 <= r < n && 0 <= c < n
      ensures m[Offset(r, c, n, n)] == Beam(n, r, c, aperture, interp)
    {
      RemZeroIsDivisibility(FreqAt(n, r), interp);
      RemZeroIsDivisibility(FreqAt(n, c), interp);
    }
  }

  /** The coordinate grids `qxa`/`qya`: cell `(r, c)` holds the integer
      frequencies that `makeFourierCoords` leaves in slot `c` and slot `r`. */
  predicate CoordGrids(n: nat, qxa: seq<int>, qya: seq<int>) {
    |qxa| == n * n && |qya| == n * n &&
    forall r, c :: 0 <= r < n && 0 <= c < n ==>
      qxa[Offset(r, c, n, n)] == FreqAt(n, c) && qya[Offset(r, c, n, n)] == FreqAt(n, r)
  }

  /** The band-limit mask and the propagators: the mask marks the band on both
      axes and has `(n/2) * (n/2)` cells set; a propagator cell holds its kernel
      inside the mask and zero outside. */
  predicate BandGrids(n: nat, qMask: seq<bool>, prop: seq<Complex>, propBack: seq<Complex>,
                      kernel: (nat, nat) -> Complex, kernelBack: (nat, nat) -> Complex) {
    |qMask| == n * n && |prop| == n * n && |propBack| == n * n &&
    CountTrue(qMask) == (n / 2) * (n / 2) &&
    forall r, c :: 0 <= r < n && 0 <= c < n ==>
      qMask[Offset(r, c, n, n)] == (InBandAxis(r, n) && InBandAxis(c, n)) &&
      prop[Offset(r, c, n, n)] == (if qMask[Offset(r, c, n, n)] then kernel(r, c) else Zero) &&
      propBack[Offset(r, c, n, n)] == (if qMask[Offset(r, c, n, n)] then kernelBack(r, c) else Zero)
  }

  /** The beam tables: `numberBeams` is the number of beam pixels and the
      length of `beamsIndex`; a pixel carries a non-zero label exactly when it
      is a beam, and then its label lies in `1..numberBeams` and names its
      position in `beamsIndex`; `beamsIndex` lists the offsets in increasing
      order, and beam `b` lies at `beamsIndex[b]`, is a beam there and carries
      label `b + 1`. */
  predicate BeamTables(n: nat, beams: seq<nat>, beamsIndex: seq<nat>, numberBeams: nat,
                       aperture: (nat, nat) -> bool, interp: int)
    requires interp != 0
  {
    |beams| == n * n && numberBeams == |beamsIndex| <= n * n &&
    numberBeams == CountTrue(BeamMask(n, aperture, interp)) &&
    (forall r, c :: 0 <= r < n && 0 <= c < n ==>
      (beams[Offset(r, c, n, n)] != 0 <==> Beam(n, r, c, aperture, interp))) &&
    (forall r, c :: 0 <= r < n && 0 <= c < n && Beam(n, r, c, aperture, interp) ==>
      1 <= beams[Offset(r, c, n, n)] <= numberBeams &&
      beamsIndex[beams[Offset(r, c, n, n)] - 1] == Offset(r, c, n, n)) &&
    (forall b :: 0 <= b < |beamsIndex| ==>
      beamsIndex[b] < n * n && Beam(n, RowOf(beamsIndex[b], n, n), ColOf(beamsIndex[b], n, n), aperture, interp) &&
      beams[beamsIndex[b]] == b + 1) &&
    (forall i, j :: 0 <= i < j < |beamsIndex| ==> beamsIndex[i] < beamsIndex[j])
  }

  /** The compact index tables of both axes, each of length `n/2`. */
  predicate CompactTables(n: nat, qyInd: seq<nat>, qxInd: seq<nat>) {
    |qyInd| == n / 2 && |qxInd| == n / 2 &&
    forall k :: 0 <= k < n / 2 ==>
      qxInd[k] == CompactIndex(n, k) && qyInd[k] == CompactIndex(n, k) && CompactIndex(n, k) < n
  }

  /** The down-sampled tables: cell `(y, x)` of each output holds the value of
      the full-size table at `(qyInd[y], qxInd[x])`. */
  predicate OutputTables(n: nat, qyInd: seq<nat>, qxInd: seq<nat>, beams: seq<nat>,
                         qxaOutput: seq<int>, qyaOutput: seq<int>, beamsOutput: seq<nat>)
    requires |beams| == n * n && IndexesGrid(qyInd, qxInd, n, n)
  {
    var h, w := |qyInd|, |qxInd|;
    |qxaOutput| == h * w && |qyaOutput| == h * w && |beamsOutput| == h * w &&
    forall y, x :: 0 <= y < h && 0 <= x < w ==>
      qxaOutput[Offset(y, x, h, w)] == FreqAt(n, qxInd[x]) &&
      qyaOutput[Offset(y, x, h, w)] == FreqAt(n, qyInd[y]) &&
      beamsOutput[Offset(y, x, h, w)] == beams[Offset(qyInd[y], qxInd[x], n, n)]
  }

  /** Beam `b`, at row `r` and column `c` of the full grid, carries its label
      `b + 1` at cell `(CompactSlot(n, r), CompactSlot(n, c))` of the compact grid. */
  predicate BeamsKeepLabels(n: nat, beamsIndex: seq<nat>, beamsOutput: seq<nat>)
    requires |beamsOutput| == (n / 2) * (n / 2)
  {
    forall b :: 0 <= b < |beamsIndex| && beamsIndex[b] < n * n ==>
      CompactSlot(n, RowOf(beamsIndex[b], n, n)) < n / 2 && CompactSlot(n, ColOf(beamsIndex[b], n, n)) < n / 2 &&
      beamsOutput[Offset(CompactSlot(n, RowOf(beamsIndex[b], n, n)), CompactSlot(n, ColOf(beamsIndex[b], n, n)), n / 2, n / 2)] == b + 1
  }

  /** Every slab of the compact S-matrix holds the exit wave of its own beam. */
  ghost predicate SlabsFilled(p: Pars, s: seq<Complex>)
    requires Valid(p)
  {
    |s| == p.numberBeams * SlabSize(p) &&
    forall a, i :: 0 <= a < p.numberBeams && 0 <= i < SlabSize(p) ==>
      s[Offset(a, i, p.numberBeams, SlabSize(p))] == BeamSlab(p, a)[i]
  }

  /** The members of the parameters object that `PRISM02` writes, as values. */
  datatype Stage = Stage(qxa: seq<int>, qya: seq<int>, qMask: seq<bool>, prop: seq<Complex>, propBack: seq<Complex>,
                         numberBeams: nat, beams: seq<nat>, beamsIndex: seq<nat>, qxInd: seq<nat>, qyInd: seq<nat>,
                         Scompact: seq<Complex>, qxaOutput: seq<int>, qyaOutput: seq<int>, beamsOutput: seq<nat>)

  /** What `PRISM02` on an `n` x `n` grid leaves behind: the coordinate grids,
      the mask and propagators, the beam tables, the compact index tables, a
      compact S-matrix whose every slab holds its own beam, the down-sampled
      tables and, when 4 divides `n`, every beam label kept in the compact grid. */
  ghost predicate Built(n: nat, planes: nat, trans: seq<Complex>, fft: Fft, aperture: (nat, nat) -> bool, interp: int,
                        kernel: (nat, nat) -> Complex, kernelBack: (nat, nat) -> Complex, st: Stage)
    requires interp != 0
  {
    match st
    case Stage(qxa, qya, qMask, prop, propBack, numberBeams, beams, beamsIndex, qxInd, qyInd, Scompact, qxaOutput, qyaOutput, beamsOutput) =>
      CoordGrids(n, qxa, qya) &&
      BandGrids(n, qMask, prop, propBack, kernel, kernelBack) &&
      BeamTables(n, beams, beamsIndex, numberBeams, aperture, interp) &&
      CompactTables(n, qyInd, qxInd) &&
      Valid(Pars(n, n, planes, trans, prop, qyInd, qxInd, beamsIndex, numberBeams, fft)) &&
      SlabsFilled(Pars(n, n, planes, trans, prop, qyInd, qxInd, beamsIndex, numberBeams, fft), Scompact) &&
      OutputTables(n, qyInd, qxInd, beams, qxaOutput, qyaOutput, beamsOutput) &&
      (n % 4 == 0 ==> BeamsKeepLabels(n, beamsIndex, beamsOutput))
  }

  /** The simulation parameters object, as far as `PRISM02` writes it. Its
      grid-valued members are values (copied on assignment), so they are
      sequences here, row-major; `imageSize` is the common extent. */
  class EmdStem {
    var imageSize: nat
    var qxa: seq<int>
    var qya: seq<int>
    var qMask: seq<bool>
    var prop: seq<Complex>
    var propBack: seq<Complex>
    var numberBeams: nat
    var beams: seq<nat>
    var beamsIndex: seq<nat>
    var qxInd: seq<nat>
    var qyInd: seq<nat>
    var Scompact: seq<Complex>
    var imageSizeOutput: nat
    var qxaOutput: seq<int>
    var qyaOutput: seq<int>
    var beamsOutput: seq<nat>

    /** A fresh parameters object: empty grids, no beams. */
    constructor ()
      ensures imageSize == 0 && numberBeams == 0 && beamsIndex == [] && Scompact == []
    {
      imageSize, numberBeams, beamsIndex, imageSizeOutput := 0, 0, [], 0;
      qxa, qya, qxaOutput, qyaOutput := [], [], [], [];
      qMask, prop, propBack, Scompact := [], [], [], [];
      beams, beamsOutput, qxInd, qyInd := [], [], [], [];
    }

    /** The members `PRISM02` writes. */
    function Written(): (st: Stage)
      reads this
    {
      Stage(qxa, qya, qMask, prop, propBack, numberBeams, beams, beamsIndex, qxInd, qyInd, Scompact, qxaOutput, qyaOutput, beamsOutput)
    }

    /** `PRISM02` on an `n` x `n` potential. The aperture test, the propagator
        kernels, the transmission slices and the transforms are inputs. The
        object gets the extents `n` and `n/2` and the members `st`, which meet
        `Built`. */
    method Prism02(n: nat, interp: int, planes: nat, trans: seq<Complex>, fft: Fft, threads: nat,
                   aperture: (nat, nat) -> bool,
                   kernel: (nat, nat) -> Complex, kernelBack: (nat, nat) -> Complex)
      returns (ghost st: Stage)
      requires interp != 0 && threads >= 1 && n * n < SizeModulus
      requires planes * (n * n) <= |trans| && KeepsLength(fft) && beamsIndex == []
      modifies this
      ensures imageSize == n && imageSizeOutput == n / 2
      ensures Written() == st && Built(n, planes, trans, fft, aperture, interp, kernel, kernelBack, st)
    {
      var s := Pipeline(n, interp, planes, trans, fft, threads, aperture, kernel, kernelBack);
      SetFullSize(n, s);
      SetCompact(n, s);
      st := s;
    }

    /** Writes the full-size members. */
    method SetFullSize(n: nat, s: Stage)
      modifies this`imageSize, this`qxa, this`qya, this`qMask, this`prop, this`propBack
      modifies this`numberBeams, this`beams, this`beamsIndex
      ensures imageSize == n && qxa == s.qxa && qya == s.qya && qMask == s.qMask
      ensures prop == s.prop && propBack == s.propBack
      ensures numberBeams == s.numberBeams && beams == s.beams && beamsIndex == s.beamsIndex
    {
      imageSize, qxa, qya, qMask, prop, propBack := n, s.qxa, s.qya, s.qMask, s.prop, s.propBack;
      numberBeams, beams, beamsIndex := s.numberBeams, s.beams, s.beamsIndex;
    }

    /** Writes the compact and down-sampled members. */
    method SetCompact(n: nat, s: Stage)
      modifies this`qxInd, this`qyInd, this`Scompact
      modifies this`imageSizeOutput, this`qxaOutput, this`qyaOutput, this`beamsOutput
      ensures qxInd == s.qxInd && qyInd == s.qyInd && Scompact == s.Scompact
      ensures imageSizeOutput == n / 2 && qxaOutput == s.qxaOutput && qyaOutput == s.qyaOutput
      ensures beamsOutput == s.beamsOutput
    {
      qxInd, qyInd, Scompact := s.qxInd, s.qyInd, s.Scompact;
      imageSizeOutput, qxaOutput, qyaOutput, beamsOutput := n / 2, s.qxaOutput, s.qyaOutput, s.beamsOutput;
    }
  }

  /** The stages of `PRISM02` in order: coordinates, band limit and
      propagators, beams, compact index tables, the compact S-matrix and the
      down-sampled tables. */
  method Pipeline(n: nat, interp: int, planes: nat, trans: seq<Complex>, fft: Fft, threads: nat,
                  aperture: (nat, nat) -> bool,
                  kernel: (nat, nat) -> Complex, kernelBack: (nat, nat) -> Complex)
    returns (st: Stage)
    requires interp != 0 && threads >= 1 && n * n < SizeModulus
    requires planes * (n * n) <= |trans| && KeepsLength(fft)
    ensures Built(n, planes, trans, fft, aperture, interp, kernel, kernelBack, st)
  {
    var qxa, qya := CoordStage(n);
    var qMask, prop, propBack := BandStage(n, kernel, kernelBack);
    var numberBeams, beams, beamsIndex := BeamStage(n, qMask, aperture, interp);
    var qxInd, qyInd := CompactIndexStage(n);
    var pars := Pars(n, n, planes, trans, prop, qyInd, qxInd, beamsIndex, numberBeams, fft);
    var Scompact := SMatrixStage(pars, threads);
    var qxaOutput, qyaOutput, beamsOutput := OutputStage(n, qxa, qya, beams, qyInd, qxInd, beamsIndex, aperture, interp);
    st := Stage(qxa, qya, qMask, prop, propBack, numberBeams, beams, beamsIndex, qxInd, qyInd, Scompact, qxaOutput, qyaOutput, beamsOutput);
  }

  /** The coordinate part of `PRISM02`: the frequency vectors and their mesh. */
  method CoordStage(n: nat) returns (qxa: seq<int>, qya: seq<int>)
    ensures CoordGrids(n, qxa, qya)
  {
    var qx := MakeFourierCoords(n);
    var qy := MakeFourierCoords(n);
    var first, second := MeshGrid(qx[..], qy[..]);
    qxa, qya := first[..], second[..];
  }

  /** The mask and propagator part of `PRISM02`. */
  method BandStage(n: nat, kernel: (nat, nat) -> Complex, kernelBack: (nat, nat) -> Complex)
    returns (qMask: seq<bool>, prop: seq<Complex>, propBack: seq<Complex>)
    ensures BandGrids(n, qMask, prop, propBack, kernel, kernelBack)
  {
    var mask := BuildQMask(n, n);
    var forward, backward := BuildPropagators(mask, n, n, kernel, kernelBack);
    qMask, prop, propBack := mask[..], forward[..], backward[..];
  }

  /** The beam part of `PRISM02`: coordinates `xv`/`yv`, selection and labelling. */
  method BeamStage(n: nat, qMask: seq<bool>, aperture: (nat, nat) -> bool, interp: int)
    returns (numberBeams: nat, beams: seq<nat>, beamsIndex: seq<nat>)
    requires interp != 0 && |qMask| == n * n
    requires forall r, c :: 0 <= r < n && 0 <= c < n ==>
      qMask[Offset(r, c, n, n)] == (InBandAxis(r, n) && InBandAxis(c, n))
    ensures BeamTables(n, beams, beamsIndex, numberBeams, aperture, interp)
  {
    var xv := MakeFourierCoords(n);
    var yv := MakeFourierCoords(n);
    var mask;
    mask, numberBeams := SelectBeams(qMask, n, n, xv[..], yv[..], aperture, interp);
    SelectedAreBeams(n, qMask, mask[..], xv[..], yv[..], aperture, interp);
    var labels;
    labels, beamsIndex := LabelBeams(mask, n);
    beams := labels[..];
    BeamLabelling(mask[..]);
    ScanIncreasing(mask[..], n * n);
    BeamFacts(n, mask[..], beams, beamsIndex, aperture, interp);
  }

  /** The index tables `qxInd`/`qyInd` of `PRISM02`. */
  method CompactIndexStage(n: nat) returns (qxInd: seq<nat>, qyInd: seq<nat>)
    ensures CompactTables(n, qyInd, qxInd)
  {
    var xs := BuildCompactIndex(n);
    var ys := BuildCompactIndex(n);
    qxInd, qyInd := xs[..], ys[..];
  }

  /** `fill_Scompact` on the parameters gathered so far. */
  method SMatrixStage(p: Pars, threads: nat) returns (Scompact: seq<Complex>)
    requires Valid(p) && threads >= 1 && p.numberBeams < SizeModulus
    ensures SlabsFilled(p, Scompact)
  {
    var s := FillScompact(p, threads);
    Scompact := s[..];
  }

  /** The down-sampled output tables of `PRISM02`, gathered through the compact
      index tables. When 4 divides `n` every beam keeps its label there. */
  method OutputStage(n: nat, qxa: seq<int>, qya: seq<int>, beams: seq<nat>,
                     qyInd: seq<nat>, qxInd: seq<nat>, beamsIndex: seq<nat>,
                     aperture: (nat, nat) -> bool, interp: int)
    returns (qxaOutput: seq<int>, qyaOutput: seq<int>, beamsOutput: seq<nat>)
    requires interp != 0 && CoordGrids(n, qxa, qya) && CompactTables(n, qyInd, qxInd)
    requires BeamTables(n, beams, beamsIndex, |beamsIndex|, aperture, interp)
    ensures OutputTables(n, qyInd, qxInd, beams, qxaOutput, qyaOutput, beamsOutput)
    ensures n % 4 == 0 ==> BeamsKeepLabels(n, beamsIndex, beamsOutput)
  {
    var xs := Gather(qxa, n, n, qyInd, qxInd, 0);
    var ys := Gather(qya, n, n, qyInd, qxInd, 0);
    var bs := Gather(beams, n, n, qyInd, qxInd, 0);
    qxaOutput, qyaOutput, beamsOutput := xs[..], ys[..], bs[..];
    if n % 4 == 0 && n > 0 {
      BeamsInCompactGrid(n, beams, beamsIndex, qyInd, qxInd, beamsOutput, aperture, interp);
    }
  }

  /** What the labelling gives at the level of pixels: the mask is the beam
      mask and `beamsIndex` has one entry per beam pixel; a pixel carries a
      non-zero label exactly when it is a beam, a beam's label lies in
      `1..|beamsIndex|` and names its entry, and beam `b` sits at offset
      `beamsIndex[b]`, is a beam, and carries label `b + 1`. */
  lemma BeamFacts(n: nat, m: seq<bool>, labels: seq<nat>, beamsIndex: seq<nat>,
                  aperture: (nat, nat) -> bool, interp: int)
    requires interp != 0 && |m| == n * n && |labels| == n * n && beamsIndex == Scan(m, n * n)
    requires forall r, c :: 0 <= r < n && 0 <= c < n ==> m[Offset(r, c, n, n)] == Beam(n, r, c, aperture, interp)
    requires forall q :: 0 <= q < n * n ==> labels[q] == Label(m, q)
    ensures m == BeamMask(n, aperture, interp) && |beamsIndex| == CountTrue(m)
    ensures forall r, c :: 0 <= r < n && 0 <= c < n ==>
      (labels[Offset(r, c, n, n)] != 0 <==> Beam(n, r, c, aperture, interp))
    ensures forall r, c :: 0 <= r < n && 0 <= c < n && Beam(n, r, c, aperture, interp) ==>
      1 <= labels[Offset(r, c, n, n)] <= |beamsIndex| &&
      beamsIndex[labels[Offset(r, c, n, n)] - 1] == Offset(r, c, n, n)
    ensures forall b :: 0 <= b < |beamsIndex| ==>
      beamsIndex[b] < n * n && Beam(n, RowOf(beamsIndex[b], n, n), ColOf(beamsIndex[b], n, n), aperture, interp) &&
      labels[beamsIndex[b]] == b + 1
  {
    MaskIsBeamMask(n, m, aperture, interp);
    BeamsListed(n, m, labels, beamsIndex, aperture, interp);
    ListedAreBeams(n, m, labels, beamsIndex, aperture, interp);
  }

  /** A mask that marks exactly the beam pixels is `BeamMask`. */
  lemma MaskIsBeamMask(n: nat, m: seq<bool>, aperture: (nat, nat) -> bool, interp: int)
    requires interp != 0 && |m| == n * n
    requires forall r, c :: 0 <= r < n && 0 <= c < n ==> m[Offset(r, c, n, n)] == Beam(n, r, c, aperture, interp)
    ensures m == BeamMask(n, aperture, interp)
  {
    forall q | 0 <= q < n * n
      ensures m[q] == BeamMask(n, aperture, interp)[q]
    {
      OffsetOnto(q, n, n);
    }
  }

  /** Every beam pixel is listed: its label lies in `1..|beamsIndex|` and the
      entry it names is the pixel's offset; non-beams carry label 0. */
  lemma BeamsListed(n: nat, m: seq<bool>, labels: seq<nat>, beamsIndex: seq<nat>,
                    aperture: (nat, nat) -> bool, interp: int)
    requires interp != 0 && |m| == n * n && |labels| == n * n && beamsIndex == Scan(m, n * n)
    requires forall r, c :: 0 <= r < n && 0 <= c < n ==> m[Offset(r, c, n, n)] == Beam(n, r, c, aperture, interp)
    requires forall q :: 0 <= q < n * n ==> labels[q] == Label(m, q)
    ensures |beamsIndex| == CountTrue(m)
    ensures forall r, c :: 0 <= r < n && 0 <= c < n ==>
      (labels[Offset(r, c, n, n)] != 0 <==> Beam(n, r, c, aperture, interp))
    ensures forall r, c :: 0 <= r < n && 0 <= c < n && Beam(n, r, c, aperture, interp) ==>
      1 <= labels[Offset(r, c, n, n)] <= |beamsIndex| &&
      beamsIndex[labels[Offset(r, c, n, n)] - 1] == Offset(r, c, n, n)
  {
    BeamLabelling(m);
    forall r, c | 0 <= r < n && 0 <= c < n
      ensures (labels[Offset(r, c, n, n)] != 0 <==> Beam(n, r, c, aperture, interp))
      ensures Beam(n, r, c, aperture, interp) ==>
        1 <= labels[Offset(r, c, n, n)] <= |beamsIndex| &&
        beamsIndex[labels[Offset(r, c, n, n)] - 1] == Offset(r, c, n, n)
    {
      var o := Offset(r, c, n, n);
      assert labels[o] == Label(m, o);
    }
  }

  /** Beam `b` of the list sits at offset `beamsIndex[b]`, is a beam there, and
      carries label `b + 1`. */
  lemma ListedAreBeams(n: nat, m: seq<bool>, labels: seq<nat>, beamsIndex: seq<nat>,
                       aperture: (nat, nat) -> bool, interp: int)
    requires interp != 0 && |m| == n * n && |labels| == n * n && beamsIndex == Scan(m, n * n)
    requires forall r, c :: 0 <= r < n && 0 <= c < n ==> m[Offset(r, c, n, n)] == Beam(n, r, c, aperture, interp)
    requires forall q :: 0 <= q < n * n ==> labels[q] == Label(m, q)
    ensures forall b :: 0 <= b < |beamsIndex| ==>
      beamsIndex[b] < n * n && Beam(n, RowOf(beamsIndex[b], n, n), ColOf(beamsIndex[b], n, n), aperture, interp) &&
      labels[beamsIndex[b]] == b + 1
  {
    forall b | 0 <= b < |beamsIndex|
      ensures beamsIndex[b] < n * n && Beam(n, RowOf(beamsIndex[b], n, n), ColOf(beamsIndex[b], n, n), aperture, interp) &&
        labels[beamsIndex[b]] == b + 1
    {
      ScanRank(m, n * n, b);
      ScanSound(m, n * n);
      var q := beamsIndex[b];
      assert m[Offset(RowOf(q, n, n), ColOf(q, n, n), n, n)];
    }
  }

  /** When 4 divides `n`, every beam survives the crop to the compact grid:
      beam `b` at `(r, c)` appears with its label `b + 1` in `beamsOutput` at
      `(CompactSlot(n, r), CompactSlot(n, c))`. */
  lemma BeamsInCompactGrid(n: nat, labels: seq<nat>, beamsIndex: seq<nat>,
                           qyInd: seq<nat>, qxInd: seq<nat>, out: seq<nat>,
                           aperture: (nat, nat) -> bool, interp: int)
    requires n > 0 && n % 4 == 0 && interp != 0 && |labels| == n * n
    requires |qyInd| == n / 2 && |qxInd| == n / 2 && |out| == (n / 2) * (n / 2)
    requires forall k :: 0 <= k < n / 2 ==> qxInd[k] == CompactIndex(n, k) && qyInd[k] == CompactIndex(n, k)
    requires forall b :: 0 <= b < |beamsIndex| ==>
      beamsIndex[b] < n * n && Beam(n, RowOf(beamsIndex[b], n, n), ColOf(beamsIndex[b], n, n), aperture, interp) &&
      labels[beamsIndex[b]] == b + 1
    requires forall y, x :: 0 <= y < n / 2 && 0 <= x < n / 2 ==>
      qyInd[y] < n && qxInd[x] < n && out[Offset(y, x, n / 2, n / 2)] == labels[Offset(qyInd[y], qxInd[x], n, n)]
    ensures forall b :: 0 <= b < |beamsIndex| ==>
      CompactSlot(n, RowOf(beamsIndex[b], n, n)) < n / 2 && CompactSlot(n, ColOf(beamsIndex[b], n, n)) < n / 2 &&
      out[Offset(CompactSlot(n, RowOf(beamsIndex[b], n, n)), CompactSlot(n, ColOf(beamsIndex[b], n, n)), n / 2, n / 2)] == b + 1
  {
    CompactIndexIsBand(n);
    forall b | 0 <= b < |beamsIndex|
      ensures CompactSlot(n, RowOf(beamsIndex[b], n, n)) < n / 2 && CompactSlot(n, ColOf(beamsIndex[b], n, n)) < n / 2 &&
        out[Offset(CompactSlot(n, RowOf(beamsIndex[b], n, n)), CompactSlot(n, ColOf(beamsIndex[b], n, n)), n / 2, n / 2)] == b + 1
    {
      var q := beamsIndex[b];
      var r, c := RowOf(q, n, n), ColOf(q, n, n);
      assert Offset(CompactIndex(n, CompactSlot(n, r)), CompactIndex(n, CompactSlot(n, c)), n, n) == q;
    }
  }
}
