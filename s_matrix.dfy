/** `propagatePlaneWave` and `fill_Scompact`: every beam's plane wave is seeded,
    propagated through the slices, cropped to the compact grid, transformed back
    and written into its own slab of the compact S-matrix `Scompact`. */
module SMatrix {
  import opened CInt
  import opened Grid
  import opened CompactGrid
  import opened Partition

  function Mul(a: Complex, b: Complex): (p: Complex) {
    Complex(a.re * b.re - a.im * b.im, a.re * b.im + a.im * b.re)
  }

  function Div(a: Complex, d: real): (q: Complex)
    requires d != 0.0
  {
    Complex(a.re / d, a.im / d)
  }

  /** The two 2-D transforms the builder executes in place, on a grid of the
      given rows and columns: the forward and the backward (unnormalised)
      discrete Fourier transform. They are supplied from outside. */
  datatype Fft = Fft(forward: (nat, nat, seq<Complex>) -> seq<Complex>,
                     backward: (nat, nat, seq<Complex>) -> seq<Complex>)

  /** A transform keeps the number of samples. */
  ghost predicate KeepsLength(fft: Fft) {
    forall r, c, s :: |fft.forward(r, c, s)| == |s| && |fft.backward(r, c, s)| == |s|
  }

  /** The inputs of the S-matrix stage: a `rows` x `cols` grid, `planes`
      transmission slices laid out one after another in `trans`, the
      propagator `prop`, the compact index tables, the beam offsets and the
      beam count. */
  datatype Pars = Pars(rows: nat, cols: nat, planes: nat,
                       trans: seq<Complex>, prop: seq<Complex>,
                       qyInd: seq<nat>, qxInd: seq<nat>,
                       beamsIndex: seq<nat>, numberBeams: nat, fft: Fft)

  /** What the stage demands of its inputs: the slices and the propagator cover
      the grid, the index tables address it and have the compact extent, and
      each of the `numberBeams` beams has an offset inside it. */
  ghost predicate Valid(p: Pars) {
    |p.prop| == p.rows * p.cols &&
    p.planes * (p.rows * p.cols) <= |p.trans| &&
    IndexesGrid(p.qyInd, p.qxInd, p.rows, p.cols) &&
    |p.qyInd| == p.rows / 2 && |p.qxInd| == p.cols / 2 &&
    p.numberBeams <= |p.beamsIndex| &&
    (forall b :: 0 <= b < |p.beamsIndex| ==> p.beamsIndex[b] < p.rows * p.cols) &&
    KeepsLength(p.fft)
  }

  /** Samples of the full grid. */
  function Size(p: Pars): (samples: nat) {
    p.rows * p.cols
  }

  /** Samples of one slab (the compact grid). */
  function SlabSize(p: Pars): (samples: nat) {
    |p.qyInd| * |p.qxInd|
  }

  /** Each sample of `s` times the sample `t` places further on in `f`: the
      product loop that advances a pointer through `f`. */
  function MulFrom(s: seq<Complex>, f: seq<Complex>, t: nat): (r: seq<Complex>)
    requires t + |s| <= |f|
    ensures |r| == |s| && forall i :: 0 <= i < |s| ==> r[i] == Mul(s[i], f[t + i])
  {
    seq(|s|, i requires 0 <= i < |s| => Mul(s[i], f[t + i]))
  }

  /** Each sample divided by the number of samples (the correction after an
      unnormalised backward transform). */
  function Normalise(s: seq<Complex>): (r: seq<Complex>)
    ensures |r| == |s| && forall i :: 0 <= i < |s| ==> r[i] == Div(s[i], |s| as real)
  {
    seq(|s|, i requires 0 <= i < |s| => Div(s[i], |s| as real))
  }

  /** The wave before propagation: the zero grid of `n` samples with a unit
      sample at the beam's offset `b`. */
  function Seed(n: nat, b: nat): (r: seq<Complex>)
    ensures |r| == n && forall i :: 0 <= i < n ==> r[i] == if i == b then One else Zero
  {
    seq(n, i => if i == b then One else Zero)
  }

  /** The wave after the backward transform of the seed and `k` slices: each
      slice transmits through `trans[k*N ..]`, transforms forward, multiplies by
      the propagator, and transforms back. */
  function Propagated(p: Pars, psi0: seq<Complex>, k: nat): (r: seq<Complex>)
    requires Valid(p) && |psi0| == Size(p) && k <= p.planes
    ensures |r| == Size(p)
  {
    var n := Size(p);
    if k == 0 then Normalise(p.fft.backward(p.rows, p.cols, psi0))
    else
      var prev := Propagated(p, psi0, k - 1);
      MulLeq(k, p.planes, n);
      var fwd := p.fft.forward(p.rows, p.cols, MulFrom(prev, p.trans, (k - 1) * n));
      Normalise(p.fft.backward(p.rows, p.cols, MulFrom(fwd, p.prop, 0)))
  }

  /** The exit wave in reciprocal space: the forward transform after the last slice. */
  function ExitWave(p: Pars, psi0: seq<Complex>): (r: seq<Complex>)
    requires Valid(p) && |psi0| == Size(p)
    ensures |r| == Size(p)
  {
    p.fft.forward(p.rows, p.cols, Propagated(p, psi0, p.planes))
  }

  /** The slab a seeded wave yields: the exit wave cropped to the compact grid,
      transformed back on that grid and normalised by its size. */
  function SlabOf(p: Pars, psi0: seq<Complex>): (r: seq<Complex>)
    requires Valid(p) && |psi0| == Size(p)
    ensures |r| == SlabSize(p)
  {
    var crop := Crop(ExitWave(p, psi0), p.rows, p.cols, p.qyInd, p.qxInd);
    Normalise(p.fft.backward(|p.qyInd|, |p.qxInd|, crop))
  }

  /** The slab of beam `a0`, whose wave starts as the unit seed at `beamsIndex[a0]`. */
  function BeamSlab(p: Pars, a0: nat): (r: seq<Complex>)
    requires Valid(p) && a0 < p.numberBeams
    ensures |r| == SlabSize(p)
  {
    SlabOf(p, Seed(Size(p), p.beamsIndex[a0]))
  }

  /** `fftw_execute` on an in-place plan: the array now holds the transform. */
  method Overwrite(a: array<Complex>, v: seq<Complex>)
    requires |v| == a.Length
    modifies a
    ensures a[..] == v
  {
    forall i | 0 <= i < a.Length {
      a[i] := v[i];
    }
  }

  /** `for (auto &p : psi) p *= *f_t++`: multiply in place by `f` from offset `t`. */
  method MulInPlace(psi: array<Complex>, f: seq<Complex>, t: nat)
    requires t + psi.Length <= |f|
    modifies psi
    ensures psi[..] == MulFrom(old(psi[..]), f, t)
  {
    var i := 0;
    while i < psi.Length
      invariant 0 <= i <= psi.Length
      invariant forall j :: 0 <= j < i ==> psi[j] == Mul(old(psi[j]), f[t + j])
      invariant forall j :: i <= j < psi.Length ==> psi[j] == old(psi[j])
    {
      psi[i] := Mul(psi[i], f[t + i]);
      i := i + 1;
    }
  }

  /** `for (auto &i : psi) i /= N` with `N = psi.size()`. */
  method NormaliseInPlace(psi: array<Complex>)
    modifies psi
    ensures psi[..] == Normalise(old(psi[..]))
  {
    var n := psi.Length as real;
    var i := 0;
    while i < psi.Length
      invariant 0 <= i <= psi.Length
      invariant forall j :: 0 <= j < i ==> psi[j] == Div(old(psi[j]), n)
      invariant forall j :: i <= j < psi.Length ==> psi[j] == old(psi[j])
    {
      psi[i] := Div(psi[i], n);
      i := i + 1;
    }
  }

  /** The propagation part of `propagatePlaneWave`: backward transform and
      normalise, then for each slice transmit (the pointer `trans_t` advancing
      one grid per slice), transform forward, propagate, transform back and
      normalise, and finally transform forward. */
  method Multislice(p: Pars, psi: array<Complex>)
    requires Valid(p) && psi.Length == Size(p)
    modifies psi
    ensures psi[..] == ExitWave(p, old(psi[..]))
  {
    var n := Size(p);
    ghost var psi0 := psi[..];
    Overwrite(psi, p.fft.backward(p.rows, p.cols, psi[..]));
    NormaliseInPlace(psi);
    var t := 0;
    var a2 := 0;
    while a2 < p.planes
      invariant 0 <= a2 <= p.planes && t == a2 * n && psi.Length == n
      invariant psi[..] == Propagated(p, psi0, a2)
    {
      PropagateSlice(p, psi, psi0, a2, t);
      t := t + n;
      a2 := a2 + 1;
    }
    Overwrite(psi, p.fft.forward(p.rows, p.cols, psi[..]));
  }

  /** Slice `a2` of the propagation loop, with `trans_t` at offset `t = a2 * N`. */
  method PropagateSlice(p: Pars, psi: array<Complex>, ghost psi0: seq<Complex>, a2: nat, t: nat)
    requires Valid(p) && |psi0| == Size(p) && psi.Length == Size(p)
    requires a2 < p.planes && t == a2 * Size(p) && psi[..] == Propagated(p, psi0, a2)
    modifies psi
    ensures psi[..] == Propagated(p, psi0, a2 + 1)
  {
    MulLeq(a2 + 1, p.planes, Size(p));
    MulInPlace(psi, p.trans, t);
    Overwrite(psi, p.fft.forward(p.rows, p.cols, psi[..]));
    MulInPlace(psi, p.prop, 0);
    Overwrite(psi, p.fft.backward(p.rows, p.cols, psi[..]));
    NormaliseInPlace(psi);
  }

  /** The plane-wave propagation of beam `a0`: `psi` receives the unit sample at
      `beamsIndex[a0]` and is propagated; the exit wave is cropped to the
      compact grid, transformed back there, and the normalised slab is written
      through the pointer `S_t`, which starts at `a0 * S`. Only slab `a0` of
      `Scompact` changes. */
  method PropagatePlaneWave(p: Pars, a0: nat, psi: array<Complex>, Scompact: array<Complex>)
    requires Valid(p) && a0 < p.numberBeams && psi.Length == Size(p) && psi != Scompact
    requires Scompact.Length == p.numberBeams * SlabSize(p)
    modifies psi, Scompact
    ensures psi[..] == ExitWave(p, old(psi[..])[p.beamsIndex[a0] := One])
    ensures forall i :: 0 <= i < SlabSize(p) ==>
      Scompact[Offset(a0, i, p.numberBeams, SlabSize(p))] ==
        SlabOf(p, old(psi[..])[p.beamsIndex[a0] := One])[i]
    ensures forall q :: 0 <= q < Scompact.Length && q / SlabSize(p) != a0 ==> Scompact[q] == old(Scompact[q])
  {
    psi[p.beamsIndex[a0]] := One;
    Multislice(p, psi);
    var psiSmall := Gather(psi[..], p.rows, p.cols, p.qyInd, p.qxInd, Zero);
    Overwrite(psiSmall, p.fft.backward(|p.qyInd|, |p.qxInd|, psiSmall[..]));
    WriteSlab(Scompact, p.numberBeams, SlabSize(p), a0, psiSmall);
  }

  /** `*S_t++ = i / N_small` for every sample of `psiSmall`, with `S_t` starting
      at slab `a0` of a `nb` x `S` store. */
  method WriteSlab(Scompact: array<Complex>, nb: nat, S: nat, a0: nat, psiSmall: array<Complex>)
    requires a0 < nb && Scompact.Length == nb * S && psiSmall.Length == S && psiSmall != Scompact
    modifies Scompact
    ensures forall i :: 0 <= i < S ==> Scompact[Offset(a0, i, nb, S)] == Normalise(psiSmall[..])[i]
    ensures forall q :: 0 <= q < Scompact.Length && q / S != a0 ==> Scompact[q] == old(Scompact[q])
  {
    var nSmall := psiSmall.Length as real;
    var i := 0;
    while i < S
      invariant 0 <= i <= S
      invariant forall j :: 0 <= j < i ==> Scompact[Offset(a0, j, nb, S)] == Div(psiSmall[j], nSmall)
      invariant forall q :: 0 <= q < Scompact.Length && (q / S != a0 || q % S >= i) ==> Scompact[q] == old(Scompact[q])
    {
      Scompact[Offset(a0, i, nb, S)] := Div(psiSmall[i], nSmall);
      i := i + 1;
    }
  }

  /** One worker of `fill_Scompact`: it allocates its own zero `psi`, and for
      every beam of its span re-zeroes `psi` and propagates that beam. The
      slabs of its span receive their beams; every other slab is untouched. */
  method RunWorker(p: Pars, span: Span, Scompact: array<Complex>)
    requires Valid(p) && span.start <= span.stop <= p.numberBeams
    requires Scompact.Length == p.numberBeams * SlabSize(p)
    modifies Scompact
    ensures forall a, i :: span.start <= a < span.stop && 0 <= i < SlabSize(p) ==>
      Scompact[Offset(a, i, p.numberBeams, SlabSize(p))] == BeamSlab(p, a)[i]
    ensures forall q :: 0 <= q < Scompact.Length && !(span.start <= q / SlabSize(p) < span.stop) ==>
      Scompact[q] == old(Scompact[q])
  {
    var nb, S := p.numberBeams, SlabSize(p);
    var psi := new Complex[Size(p)](_ => Zero);
    var a0 := span.start;
    while a0 < span.stop
      invariant span.start <= a0 <= span.stop && psi.Length == Size(p)
      invariant forall a, i :: span.start <= a < a0 && 0 <= i < S ==>
        Scompact[Offset(a, i, nb, S)] == BeamSlab(p, a)[i]
      invariant forall q :: 0 <= q < Scompact.Length && !(span.start <= q / S < a0) ==>
        Scompact[q] == old(Scompact[q])
    {
      forall i | 0 <= i < psi.Length {
        psi[i] := Zero;
      }
      assert psi[..][p.beamsIndex[a0] := One] == Seed(Size(p), p.beamsIndex[a0]);
      PropagatePlaneWave(p, a0, psi, Scompact);
      a0 := a0 + 1;
    }
  }

  /** `fill_Scompact`: a zero store of `numberBeams` slabs, the beam range split
      into spans, and one worker per span. Every slab ends up holding its own
      beam, whatever the number of threads. */
  method FillScompact(p: Pars, threads: nat) returns (Scompact: array<Complex>)
    requires Valid(p) && threads >= 1 && p.numberBeams < SizeModulus
    ensures Scompact.Length == p.numberBeams * SlabSize(p)
    ensures forall a, i :: 0 <= a < p.numberBeams && 0 <= i < SlabSize(p) ==>
      Scompact[Offset(a, i, p.numberBeams, SlabSize(p))] == BeamSlab(p, a)[i]
  {
    var nb, S := p.numberBeams, SlabSize(p);
    Scompact := new Complex[nb * S](_ => Zero);
    var spans := PartitionBeams(nb, threads);
    TilesBounded(spans, nb);
    var k := 0;
    while k < |spans|
      invariant 0 <= k <= |spans| && Scompact.Length == nb * S
      invariant forall a, i :: 0 <= a < (if k == 0 then 0 else spans[k - 1].stop) && 0 <= i < S ==>
        Scompact[Offset(a, i, nb, S)] == BeamSlab(p, a)[i]
    {
      RunWorker(p, spans[k], Scompact);
      k := k + 1;
    }
  }
}
