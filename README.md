# PRISM02: the compact S-matrix builder

This project models `PRISM02` of the PRISM electron-microscopy simulator. On an
`n` x `n` projected potential it:

- places the Fourier coordinates (`makeFourierCoords`);
- builds the quadrant-wrapped half-Nyquist band-limit mask `qMask`, and the
  propagators `prop`/`propBack`, which are non-zero only inside it;
- selects the beams (aperture, band limit, interpolation-factor sub-lattice),
  counts them, labels them in row-major scan order and records their offsets
  in `beamsIndex`;
- builds the compact index tables `qyInd`/`qxInd`;
- splits the beam range into one contiguous chunk per worker and, for every
  beam, seeds a plane wave, propagates it through the slices, crops it to the
  compact grid and writes it into its own slab of `Scompact` (`fill_Scompact`,
  `propagatePlaneWave`);
- gathers the down-sampled output tables `qxaOutput`, `qyaOutput` and
  `beamsOutput`.

Grids are row-major flat sequences or arrays, as `ArrayND` stores them. Cell
`(r, c)` of a `rows` x `cols` grid sits at `Grid.Offset(r, c, rows, cols)`.
The modelled index arithmetic is integer and exact, apart from the
exclusions listed under "## Left out" (a zero thread count or interpolation
factor, and labels stored in the sample type):

- the truncating C++ `%` is `CInt.Rem`;
- the wrap idiom `((a % n) + n) % n` is `CInt.WrapIndex`;
- `size_t` wrap-around is `CInt.SizeT`.

Complex samples are pairs of reals (`Grid.Complex`). The sample products and
divisions (`SMatrix.Mul`, `SMatrix.Div`) are exact real arithmetic. The
transforms, the propagator kernels, the transmission slices and the aperture
test are inputs of the model.

The modules follow the stages of the source:

| module | file | stage |
|---|---|---|
| `CInt` | `c_int.dfy` | C++ integer operators |
| `Grid` | `grid.dfy` | row-major storage, set-cell counts |
| `FourierCoords` | `fourier_coords.dfy` | `makeFourierCoords` |
| `BandLimit` | `band_limit.dfy` | `qMask`, `prop`, `propBack` |
| `Beams` | `beams.dfy` | beam mask, count, labels, `beamsIndex` |
| `CompactGrid` | `compact_grid.dfy` | `qyInd`/`qxInd`, the crop gather |
| `Partition` | `partition.dfy` | the chunking of `fill_Scompact` |
| `SMatrix` | `s_matrix.dfy` | `propagatePlaneWave`, `fill_Scompact` |
| `Prism02` | `prism02.dfy` | `PRISM02` and the parameters object |

Each modelled loop of the source is a `method` with its loop invariants. Each method is
specified by a function over values (`FreqAt`, `InBandAxis`, `Scan`/`Label`,
`CompactIndex`, `Crop`, `Tiles`, `BeamSlab`), and the lemmas prove the
promised properties of those functions. `Prism02.EmdStem.Prism02` writes the
members of the parameters object, and its postcondition `Built` collects what
every stage establishes.

For even `N`, `makeFourierCoords` puts the zero frequency at slot 0 (the
unshifted DFT order). The stages of `PRISM02` use it as written
(`FourierCoords.MakeFourierCoords`, with `FreqAt`) for every `n`; for odd `n`
see Findings.

## Model

| member | source | states |
|---|---|---|
| CInt.Rem | PRISM02.cpp:223-224 | C++ `%` truncates toward zero: the remainder differs from the dividend by a multiple of the divisor, has the sign of the dividend and magnitude below the divisor's |
| CInt.WrapIndexIsMod | PRISM02.cpp:187-188 | `((a % n) + n) % n` is the Euclidean remainder of `a` for every signed `a` |
| CInt.RemZeroIsDivisibility | PRISM02.cpp:223-224 | `v % f == 0` in C++ holds exactly when `f` divides `v`, whatever the signs |
| CInt.SizeT | PRISM02.cpp:100 | a `size_t` value lies below 2^64 and equals the integer when that is in range |
| Grid.Offset | PRISM02.cpp:237 | the flat offset `r * cols + c` lies in the grid and determines row `r` and column `c` |
| Grid.RowOf | PRISM02.cpp:237 | the row of an offset is below the row count |
| Grid.ColOf | PRISM02.cpp:237 | the column of an offset is below the column count, and row and column give back the offset |
| Grid.CountTrueSet | PRISM02.cpp:225-226 | setting a clear mask cell raises the set-cell count by exactly one |
| FourierCoords.SlotBijection | PRISM02.cpp:27-29 | `i -> (nc + i) % N` is a bijection on `[0, N)`, so every slot is written exactly once |
| FourierCoords.MakeFourierCoords | PRISM02.cpp:22-31 | the result has length `N`, and slot `k` holds the frequency of the iteration that writes it |
| FourierCoords.EvenLayout | PRISM02.cpp:24-29 | for even `N` slot `k` holds `k` below `N/2` and `k - N` from `N/2` on (the DFT order) |
| FourierCoords.OddLayout | PRISM02.cpp:24-29 | for odd `N` the layout is the DFT order shifted by one slot, with zero in slot `N - 1` |
| FourierCoords.OddLayoutCounterexample | PRISM02.cpp:24-28 | for `N = 5` slot 0 holds frequency 1 while the DFT order puts 0 there |
| FourierCoords.MakeFourierCoordsDft | PRISM02.cpp:22-31 | the corrected placement yields the DFT order for every `N`, with zero at slot 0 |
| FourierCoords.DftSlotBijection | PRISM02.cpp:27-29 | the corrected placement is a bijection on `[0, N)` |
| BandLimit.WrapMarksScanCoord | PRISM02.cpp:181-188 | iteration `y` marks a line inside the axis, and that line's scan coordinate is `y` |
| BandLimit.ScanCoordInjective | PRISM02.cpp:185-189 | distinct lines have distinct scan coordinates, so no cell is marked twice |
| BandLimit.BandIsOuterQuarters | PRISM02.cpp:179-191 | when 4 divides `n`, a line is in the band exactly when it lies in `[0, n/4)` or `[3n/4, n)` |
| BandLimit.BuildQMask | PRISM02.cpp:179-191 | a cell is set exactly when both its row and column are in the band, and `(rows/2) * (cols/2)` cells are set |
| BandLimit.MarkRow | PRISM02.cpp:186-189 | one inner pass sets the `cols/2` band cells of its row and raises the count by `cols/2` |
| BandLimit.MarkOneCell | PRISM02.cpp:187-188 | one iteration sets a cell that was clear, and the count rises by one |
| BandLimit.BuildPropagators | PRISM02.cpp:194-208 | `prop`/`propBack` hold their kernels exactly where `qMask` is set and zero everywhere else |
| Beams.SelectBeams | PRISM02.cpp:215-229 | a pixel is marked exactly when it passes the aperture, is in `qMask` and both frequencies are on the sub-lattice; `numberBeams` is the marked-cell count |
| Beams.SelectRow | PRISM02.cpp:220-228 | one inner pass decides the pixels of its row and keeps the count equal to the marked cells |
| Beams.LabelBeams | PRISM02.cpp:231-242 | `beamsIndex` is the row-major list of beam offsets, and each pixel gets its scan label (0 for non-beams) |
| Beams.ScanSound | PRISM02.cpp:236-237 | every listed offset marks a beam and lies below the scan position |
| Beams.ScanIncreasing | PRISM02.cpp:234-237 | `beamsIndex` is strictly increasing |
| Beams.ScanPrefix | PRISM02.cpp:234-237 | an earlier scan is a prefix of a later one |
| Beams.ScanCount | PRISM02.cpp:226-237 | the list has one entry per marked cell |
| Beams.ScanComplete | PRISM02.cpp:236-238 | every beam is listed, at the position one less than its label |
| Beams.ScanRank | PRISM02.cpp:237-238 | entry `b` of `beamsIndex` carries label `b + 1` |
| Beams.BeamLabelling | PRISM02.cpp:231-242 | labels are exactly `1..numberBeams` in scan order, non-beams keep 0, and `numberBeams` is both the length of `beamsIndex` and the number of set cells |
| CompactGrid.BuildCompactIndex | PRISM02.cpp:246-263 | the table has length `n/2`, and entry `k` is `k` below `n/4`, then `k - 2*(n/4) + n` up to `2*(n/4)`, then 0; every entry is below `n` |
| CompactGrid.CompactIndexIsBand | PRISM02.cpp:246-263 | when 4 divides `n` the table is strictly increasing, its entries are band lines, and every band line is an entry |
| CompactGrid.CompactIndexMissesBand | PRISM02.cpp:244-263 | for `n = 6` band line 1 appears in no entry of the table |
| CompactGrid.CropRows | PRISM02.cpp:57-61 | the first `k` cropped rows have `k` times the length of `qxInd` samples |
| CompactGrid.Crop | PRISM02.cpp:56-61 | the crop has one row per entry of `qyInd` and one column per entry of `qxInd` |
| CompactGrid.CropAt | PRISM02.cpp:59 | crop cell `(y, x)` is source cell `(qyInd[y], qxInd[x])` |
| CompactGrid.Gather | PRISM02.cpp:56-61 | a fresh grid of shape len(`qyInd`) x len(`qxInd`) with `out(y, x) = src(qyInd[y], qxInd[x])`, equal to `Crop` |
| CompactGrid.CompactGridIsMask | PRISM02.cpp:246-263 | when 4 divides both extents, compact cells and set `qMask` cells correspond one to one |
| Partition.ChunkCovers | PRISM02.cpp:100 | with at least one beam the chunk is positive, at most `numberBeams`, and `threads` chunks cover every beam |
| Partition.PartitionBeams | PRISM02.cpp:100-134 | at most `threads` spans tiling `[0, numberBeams)`, none when there is no beam; span `i` is `[i * chunk, min((i + 1) * chunk, numberBeams))` |
| Partition.LaunchedTiles | PRISM02.cpp:103-134 | the spans `[i * chunk, min((i + 1) * chunk, nb))` that reach `nb`, the last starting below it, tile `[0, nb)` with at most one chunk each |
| Partition.TilesAscending | PRISM02.cpp:131-133 | an earlier span stops no later than a later one starts |
| Partition.TilesBounded | PRISM02.cpp:119 | every span lies inside `[0, numberBeams)` |
| Partition.TilesCoverOnce | PRISM02.cpp:103-134 | every beam lies in exactly one span |
| Partition.CoverFrom | PRISM02.cpp:103-134 | a beam at or after a span's start lies in that span or a later one |
| SMatrix.Propagated | PRISM02.cpp:43-53 | the wave after `k` slices has one sample per grid cell |
| SMatrix.ExitWave | PRISM02.cpp:54 | the forward transform after the last slice keeps the grid size |
| SMatrix.SlabOf | PRISM02.cpp:56-78 | the cropped, back-transformed, normalised exit wave has the compact size |
| SMatrix.BeamSlab | PRISM02.cpp:41-78 | the slab of beam `a0` has the compact size |
| SMatrix.Overwrite | PRISM02.cpp:43-54 | an in-place transform leaves the array holding the transform |
| SMatrix.MulInPlace | PRISM02.cpp:48-50 | the in-place product loop leaves `MulFrom` of the old contents: sample `i` times `f[t + i]`, the pointer walk of line 48 |
| SMatrix.NormaliseInPlace | PRISM02.cpp:44-52 | the in-place division loop leaves `Normalise` of the old contents: every sample divided by the sample count |
| SMatrix.Multislice | PRISM02.cpp:42-54 | the array ends holding the exit wave of the wave it started with |
| SMatrix.PropagateSlice | PRISM02.cpp:46-53 | one slice moves the wave from `Propagated(k)` to `Propagated(k + 1)` |
| SMatrix.PropagatePlaneWave | PRISM02.cpp:34-79 | slab `a0` of `Scompact` receives the slab of the seeded wave and no other slab changes |
| SMatrix.WriteSlab | PRISM02.cpp:74-78 | the pointer walk writes the normalised compact wave into slab `a0` only |
| SMatrix.RunWorker | PRISM02.cpp:105-129 | after the re-zeroing (line 121) and the seed (line 41) each beam starts from `Seed`; the slabs of the worker's span hold their beams and all other slabs are untouched |
| SMatrix.FillScompact | PRISM02.cpp:81-137 | `Scompact` has `numberBeams` slabs, each holding its own beam, whatever the thread count |
| Prism02.MeshGrid | PRISM02.cpp:158-160 | the first grid repeats `xs` along every row and the second repeats `ys` down every column |
| Prism02.SelectedAreBeams | PRISM02.cpp:210-229 | with the `makeFourierCoords` coordinates `xv`/`yv` (unit step) the selected pixels are exactly the beams (integer divisibility) |
| Prism02.EmdStem.constructor | PRISM02.cpp:237 | a fresh parameters object has no beams and an empty `beamsIndex` for `push_back` to fill |
| Prism02.EmdStem.Prism02 | PRISM02.cpp:140-288 | the object ends with extents `n` and `n/2` and members meeting `Built`: every stage's tables, including `numberBeams` equal to the number of beam pixels and every beam listed |
| Prism02.EmdStem.SetFullSize | PRISM02.cpp:153-242 | the full-size members take the computed values |
| Prism02.EmdStem.SetCompact | PRISM02.cpp:246-287 | the compact and output members take the computed values |
| Prism02.Pipeline | PRISM02.cpp:140-288 | the stages in order establish `Built` |
| Prism02.CoordStage | PRISM02.cpp:153-160 | `qxa`/`qya` cell `(r, c)` holds the frequencies `makeFourierCoords` leaves in slots `c` and `r` |
| Prism02.BandStage | PRISM02.cpp:179-208 | mask and propagators meet `BandGrids` |
| Prism02.BeamStage | PRISM02.cpp:210-242 | `numberBeams` is the number of beam pixels and the length of `beamsIndex`; labels are non-zero exactly at beams, a beam's label lies in `1..numberBeams` and names its entry; `beamsIndex` is increasing, and entry `b` is a beam labelled `b + 1` |
| Prism02.CompactIndexStage | PRISM02.cpp:246-263 | both tables have length `n/2` and hold `CompactIndex` |
| Prism02.SMatrixStage | PRISM02.cpp:268 | every slab of `Scompact` holds its own beam |
| Prism02.OutputStage | PRISM02.cpp:271-287 | each output cell is the full-size value at `(qyInd[y], qxInd[x])`; when 4 divides `n` every beam keeps its label |
| Prism02.BeamFacts | PRISM02.cpp:231-242 | the mask is the beam mask and `beamsIndex` has one entry per beam; a pixel's label is non-zero exactly when it is a beam, a beam's label names its entry, and `beamsIndex[b]` is a beam with label `b + 1` |
| Prism02.BeamsListed | PRISM02.cpp:236-238 | every beam pixel is listed: its label lies in `1..numberBeams` and names its offset's entry in `beamsIndex` |
| Prism02.ListedAreBeams | PRISM02.cpp:236-238 | entry `b` of `beamsIndex` is a beam pixel carrying label `b + 1` |
| Prism02.MaskIsBeamMask | PRISM02.cpp:219-229 | a mask marking exactly the beam pixels is `BeamMask`, whose count is `numberBeams` |
| Prism02.BeamsInCompactGrid | PRISM02.cpp:278-287 | when 4 divides `n`, beam `b` appears with label `b + 1` in `beamsOutput` at its compact slots |

## Left out

- FFTW plan creation, execution and destruction (PRISM02.cpp:43-73, 110-127): a foreign library, so the two transforms are input functions (`SMatrix.Fft`) assumed only to keep the sample count.
- Floating point: the transmission `exp(i*sigma*pot)` (line 92), the propagator exponentials (200-205), and the pixel-size scaling of the coordinates and of `pixelSizeOutput`. The coordinates keep the integer frequency index; the transmission slices and the kernels are inputs; `/N` is exact division of the real and imaginary parts, without rounding.
- `q2` and the aperture test `q2 < (alphaBeamMax/lambda)^2` (161-165, 221): floating point, so the aperture is an input predicate on pixels.
- `qMax` (168-177): floating point, and it reads uninitialised values.
- Threads, the mutex and the join (83, 98-136): the workers run one after another in launch order. Their slabs are disjoint (`SMatrix.RunWorker`), so every order gives the same `Scompact`.
- `cout` logging (104, 135, 143, 265): I/O.
- `Qt/prism_progressbar.h`: a dialog declaration with no logic.
- Non-square grids: the model takes `imageSize[0] == imageSize[1] == n`. The source mixes `{dimi, dimj}` and `{dimj, dimi}` allocations and strides `beamsIndex` by `dimj`, which agree only on square grids.
- Partition.PartitionBeams: the source's `auto start = 0` is an `int`; its overflow above 2^31 beams is not modelled.
- Partition.PartitionBeams: requires `threads >= 1`. With `NUM_THREADS == 0` the chunk computation at line 100 divides by zero, which is undefined behaviour in C++; a zero thread count is a configuration error, so the model does not describe it.
- SMatrix.FillScompact: requires `threads >= 1`, for the same division by zero at line 100.
- Beams.SelectBeams: requires `interp != 0`. With `interpolationFactor == 0` the `% interp_f` at lines 223-224 is undefined behaviour in C++, so the model does not describe it.
- Prism02.EmdStem.Prism02: requires `beamsIndex` to be empty on entry. The source appends to whatever the object already holds, and a second call would double the list.
- Prism02.EmdStem.Prism02: requires `threads >= 1` and `interp != 0`, excluding the two undefined divisions above (lines 100 and 223-224).
- Prism02.EmdStem.Prism02: labels are `nat`. The source stores them in `Array2D<T>` (`pars.beams` at line 231, the assignment at 238, `beamsOutput` at 285), so with `T = float` a label above 2^24 is rounded; the model does not capture that rounding.
- Prism02.EmdStem.Prism02: the physics inputs (`pot`, `sigma`, `lambda`, `sliceThickness`, `cellDim`, pixel sizes) are folded into `trans`, `kernel`, `kernelBack` and `aperture`.
- Prism02.OutputStage: a beam's label in the output tables is proved only when 4 divides `n`. Otherwise the tables miss band lines (`CompactGrid.CompactIndexMissesBand`) and a beam can be cropped away.

## Findings

| source | as written | input that shows it | evidently intended | confidence | as-written member | corrected member |
|---|---|---|---|---|---|---|
| PRISM02.cpp:24-28 | frequency `i - nc` is stored at slot `(nc + i) % N` | `N = 5`: slot 0 holds frequency 1 and the zero frequency sits in slot 4 | slot `(i - nc) mod N`, the unshifted DFT order that the FFT grids assume, with zero frequency at slot 0 for every `N` | not executed | FourierCoords.MakeFourierCoords, FourierCoords.OddLayoutCounterexample | FourierCoords.MakeFourierCoordsDft |

The stages of `PRISM02` keep the coordinates as written, so that beam
selection matches the program for odd `n` as well. For even `n` the corrected
layout is the same (`FourierCoords.EvenLayout`), so the stages are unchanged by
the correction.
