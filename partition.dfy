/** The launch loop of `fill_Scompact`: the static split of the beam range
    `[0, numberBeams)` into contiguous chunks, one worker per chunk. */
module Partition {
  import opened CInt
  import opened Grid

  /** The beam range `[start, stop)` of one worker, with `stop` already cut at
      `numberBeams` as the worker's loop bound `min(stop, numberBeams)` does. */
  datatype Span = Span(start: nat, stop: nat)

  function Min(a: nat, b: nat): (m: nat) {
    if a < b then a else b
  }

  /** `WORK_CHUNK_SIZE = ((numberBeams - 1) / NUM_THREADS) + 1` in `size_t`
      arithmetic (it wraps when there is no beam, and is then never used). */
  function ChunkSize(nb: nat, threads: nat): (chunk: nat)
    requires threads >= 1
  {
    SizeT(SizeT(nb - 1) / threads + 1)
  }

  /** With at least one beam the chunk is `ceil(nb / threads)`: positive, and
      `threads` chunks reach past the last beam. */
  lemma ChunkCovers(nb: nat, threads: nat)
    requires threads >= 1 && 1 <= nb < SizeModulus
    ensures 1 <= ChunkSize(nb, threads) <= nb
    ensures nb <= ChunkSize(nb, threads) * threads
    ensures (ChunkSize(nb, threads) - 1) * threads < nb
  {
    var q := (nb - 1) / threads;
    assert nb - 1 == q * threads + (nb - 1) % threads;
    assert q <= nb - 1 by {
      MulLeq(1, threads, q);
    }
    assert ChunkSize(nb, threads) == q + 1;
    assert (q + 1) * threads == q * threads + threads;
  }

  /** The spans tile `[0, nb)`: none when there is no beam; otherwise the first
      starts at 0, the last stops at `nb`, each is non-empty and each starts
      where the previous one stops. */
  predicate Tiles(spans: seq<Span>, nb: nat) {
    (spans == [] <==> nb == 0) &&
    (spans != [] ==> spans[0].start == 0 && spans[|spans| - 1].stop == nb) &&
    (forall i :: 0 <= i < |spans| ==> spans[i].start < spans[i].stop) &&
    (forall i :: 0 <= i < |spans| - 1 ==> spans[i].stop == spans[i + 1].start)
  }

  /** The launch loop of `fill_Scompact`: starting at 0, launch `[start,
      min(stop, nb))`, advance both ends by the chunk, and stop once `start`
      reaches `nb`. At most `threads` spans are launched, they tile `[0, nb)`,
      and span `i` is `[i * chunk, min((i + 1) * chunk, nb))`. */
  method PartitionBeams(nb: nat, threads: nat) returns (spans: seq<Span>)
    requires threads >= 1 && nb < SizeModulus
    ensures |spans| <= threads
    ensures Tiles(spans, nb)
    ensures forall i :: 0 <= i < |spans| ==> spans[i].stop - spans[i].start <= ChunkSize(nb, threads)
    ensures forall i :: 0 <= i < |spans| ==>
      spans[i].start == i * ChunkSize(nb, threads) &&
      spans[i].stop == Min(spans[i].start + ChunkSize(nb, threads), nb)
  {
    var chunk := ChunkSize(nb, threads);
    if nb > 0 {
      ChunkCovers(nb, threads);
    }
    var start := 0;
    var stop := start + chunk;
    spans := [];
    while start < nb
      invariant stop == start + chunk && |spans| <= threads && start == |spans| * chunk
      invariant nb <= threads * chunk
      invariant spans != [] ==> start < nb
      invariant Launched(spans, nb, chunk)
      decreases nb - start
    {
      WorkerLeft(nb, threads, |spans|, chunk);
      MulNext(|spans|, chunk);
      spans := spans + [Span(start, Min(stop, nb))];
      start := start + chunk;
      if start >= nb {
        break;
      }
      stop := stop + chunk;
    }
    if nb > 0 {
      LaunchedTiles(spans, nb, chunk);
    }
  }

  /** While beams remain a worker is left: `k` chunks end before `nb`, which
      `threads` chunks reach. */
  lemma WorkerLeft(nb: nat, threads: nat, k: nat, chunk: nat)
    requires k * chunk < nb <= threads * chunk
    ensures k < threads
  {
    if threads <= k {
      MulLeq(threads, k, chunk);
    }
  }

  lemma MulNext(k: nat, c: nat)
    ensures (k + 1) * c == k * c + c
  {
  }

  /** Span `i` of the launch loop: `[i * chunk, min((i + 1) * chunk, nb))`. */
  function SpanAt(i: nat, chunk: nat, nb: nat): (s: Span)
    ensures s.start == i * chunk && s.stop == Min(i * chunk + chunk, nb)
  {
    Span(i * chunk, Min(i * chunk + chunk, nb))
  }

  /** Every launched span is the one `SpanAt` names. */
  predicate Launched(spans: seq<Span>, nb: nat, chunk: nat) {
    forall i :: 0 <= i < |spans| ==> spans[i] == SpanAt(i, chunk, nb)
  }

  /** Spans laid out by `SpanAt` that reach `nb`, the last of them starting
      below `nb`, tile `[0, nb)` with at most one chunk each. */
  lemma LaunchedTiles(spans: seq<Span>, nb: nat, chunk: nat)
    requires nb > 0 && chunk >= 1 && Launched(spans, nb, chunk) && spans != []
    requires nb <= |spans| * chunk && (|spans| - 1) * chunk < nb
    ensures Tiles(spans, nb)
    ensures forall i :: 0 <= i < |spans| ==> spans[i].stop - spans[i].start <= chunk
  {
    var k := |spans| - 1;
    forall i | 0 <= i < |spans|
      ensures spans[i].start < spans[i].stop
    {
      MulLeq(i, k, chunk);
    }
    forall i | 0 <= i < k
      ensures spans[i].stop == spans[i + 1].start
    {
      MulLeq(i + 1, k, chunk);
      assert i * chunk + chunk == (i + 1) * chunk;
    }
    assert k * chunk + chunk == |spans| * chunk;
  }

  /** Spans that tile are ascending and pairwise disjoint: an earlier span stops
      no later than a later one starts. */
  lemma {:induction false} TilesAscending(spans: seq<Span>, nb: nat, i: nat, j: nat)
    requires Tiles(spans, nb) && i < j < |spans|
    ensures spans[i].stop <= spans[j].start
    decreases j - i
  {
    if i + 1 < j {
      TilesAscending(spans, nb, i + 1, j);
    }
  }

  /** Spans that tile `[0, nb)` lie inside it. */
  lemma TilesBounded(spans: seq<Span>, nb: nat)
    requires Tiles(spans, nb)
    ensures forall i :: 0 <= i < |spans| ==> spans[i].start < spans[i].stop <= nb
  {
    forall i | 0 <= i < |spans| - 1
      ensures spans[i].stop <= nb
    {
      TilesAscending(spans, nb, i, |spans| - 1);
    }
  }

  /** Spans that tile `[0, nb)` cover each beam exactly once. */
  lemma {:induction false} TilesCoverOnce(spans: seq<Span>, nb: nat, a: nat)
    requires Tiles(spans, nb) && a < nb
    ensures exists i :: 0 <= i < |spans| && spans[i].start <= a < spans[i].stop
    ensures forall i, j :: (0 <= i < |spans| && 0 <= j < |spans| &&
      spans[i].start <= a < spans[i].stop && spans[j].start <= a < spans[j].stop) ==> i == j
  {
    CoverFrom(spans, nb, a, 0);
    forall i, j | 0 <= i < |spans| && 0 <= j < |spans| &&
      spans[i].start <= a < spans[i].stop && spans[j].start <= a < spans[j].stop
      ensures i == j
    {
      if i < j {
        TilesAscending(spans, nb, i, j);
      } else if j < i {
        TilesAscending(spans, nb, j, i);
      }
    }
  }

  lemma {:induction false} CoverFrom(spans: seq<Span>, nb: nat, a: nat, k: nat)
    requires Tiles(spans, nb) && a < nb && k < |spans| && spans[k].start <= a
    ensures exists i :: k <= i < |spans| && spans[i].start <= a < spans[i].stop
    decreases |spans| - k
  {
    if a >= spans[k].stop {
      CoverFrom(spans, nb, a, k + 1);
    }
  }
}
