/** `makeFourierCoords`: the 1-D Fourier coordinate arrays.
    A coordinate is the integer frequency index times the step `dp = 1/(N*pixelSize)`;
    the model keeps the index, which is what every mask and table depends on. */
module FourierCoords {
  import opened CInt

  /** `nc = floor(N / 2)`. */
  function Centre(n: nat): (nc: nat) {
    n / 2
  }

  /** The slot that iteration `i` of the loop writes: `(nc + i) % N`. */
  function Slot(n: nat, i: nat): (k: nat)
    requires n > 0
  {
    (Centre(n) + i) % n
  }

  /** The iteration that writes slot `k`: the inverse of `Slot`. */
  function Writer(n: nat, k: nat): (i: nat)
    requires n > 0
  {
    (k + n - Centre(n)) % n
  }

  /** `Slot` is a bijection on `[0, N)` with inverse `Writer`, so the loop writes
      every slot of the result exactly once. */
  lemma SlotBijection(n: nat)
    requires n > 0
    ensures forall i :: 0 <= i < n ==> Slot(n, i) < n && Writer(n, Slot(n, i)) == i
    ensures forall k :: 0 <= k < n ==> Writer(n, k) < n && Slot(n, Writer(n, k)) == k
    ensures forall i, j :: 0 <= i < n && 0 <= j < n && Slot(n, i) == Slot(n, j) ==> i == j
  {
    forall i | 0 <= i < n
      ensures Slot(n, i) < n && Writer(n, Slot(n, i)) == i
    {
      ModNear(Centre(n) + i, n);
      ModNear(Slot(n, i) + n - Centre(n), n);
    }
    forall k | 0 <= k < n
      ensures Writer(n, k) < n && Slot(n, Writer(n, k)) == k
    {
      ModNear(k + n - Centre(n), n);
      ModNear(Centre(n) + Writer(n, k), n);
    }
  }

  /** The integer frequency that the source leaves in slot `k`. */
  function FreqAt(n: nat, k: nat): (f: int)
    requires k < n
  {
    Writer(n, k) - Centre(n)
  }

  /** The frequency order of an unshifted discrete Fourier transform of length `N`
      (non-negative frequencies first, then the negative ones). */
  function DftFreq(n: nat, k: nat): (f: int)
    requires k < n
  {
    if k < n - n / 2 then k else k - n
  }

  /** `makeFourierCoords` as written: frequency `i - nc` goes to slot `(nc + i) % N`.
      The result holds `FreqAt(N, k)` in every slot `k`. */
  method MakeFourierCoords(n: nat) returns (result: array<int>)
    ensures result.Length == n
    ensures forall k :: 0 <= k < n ==> result[k] == FreqAt(n, k)
  {
    result := new int[n];
    var nc := Centre(n);
    var i := 0;
    while i < n
      invariant 0 <= i <= n && result.Length == n
      invariant forall j :: 0 <= j < i ==> result[Slot(n, j)] == j - nc
    {
      SlotBijection(n);
      result[Slot(n, i)] := i - nc;
      i := i + 1;
    }
    if n > 0 {
      SlotBijection(n);
      forall k | 0 <= k < n
        ensures result[k] == FreqAt(n, k)
      {
        assert result[Slot(n, Writer(n, k))] == Writer(n, k) - nc;
      }
    }
  }

  /** For even `N` the source's layout is the unshifted DFT order: slot `k` holds
      `k` below `N/2` and `k - N` from `N/2` on, so zero sits at slot 0 and
      `-N/2` at slot `N/2`. */
  lemma EvenLayout(n: nat, k: nat)
    requires n % 2 == 0 && k < n
    ensures FreqAt(n, k) == DftFreq(n, k)
    ensures FreqAt(n, k) == if k < n / 2 then k else k - n
  {
    ModNear(k + n - Centre(n), n);
  }

  /** For odd `N` the source's layout is the DFT order rotated by one slot:
      slot `k` holds the frequency the DFT puts in slot `k + 1`, and zero sits in
      the last slot. */
  lemma OddLayout(n: nat, k: nat)
    requires n % 2 == 1 && k < n
    ensures FreqAt(n, k) == DftFreq(n, (k + 1) % n)
    ensures FreqAt(n, n - 1) == 0
  {
    ModNear(k + n - Centre(n), n);
    ModNear(k + 1, n);
    ModNear(n - 1 + n - Centre(n), n);
  }

  /** For `N = 5` the source leaves frequency 1 in slot 0, where the transform
      puts the zero frequency, and the zero frequency in slot 4. */
  lemma OddLayoutCounterexample()
    ensures FreqAt(5, 0) == 1 && DftFreq(5, 0) == 0
    ensures FreqAt(5, 4) == 0 && DftFreq(5, 4) == -1
  {
    OddLayout(5, 0);
    OddLayout(5, 4);
  }

  /** The slot the corrected loop writes: `(i - nc) mod N`. */
  function DftSlot(n: nat, i: nat): (k: nat)
    requires n > 0
  {
    (i + n - Centre(n)) % n
  }

  /** `makeFourierCoords` with frequency `i - nc` placed at slot `(i - nc) mod N`,
      which is the DFT order for every `N`; for even `N` it agrees with the
      source (`EvenLayout`). */
  method MakeFourierCoordsDft(n: nat) returns (result: array<int>)
    ensures result.Length == n
    ensures forall k :: 0 <= k < n ==> result[k] == DftFreq(n, k)
    ensures n > 0 ==> result[0] == 0
  {
    result := new int[n];
    var nc := Centre(n);
    var i := 0;
    while i < n
      invariant 0 <= i <= n && result.Length == n
      invariant forall j :: 0 <= j < i ==> result[DftSlot(n, j)] == j - nc
    {
      DftSlotBijection(n);
      result[DftSlot(n, i)] := i - nc;
      i := i + 1;
    }
    if n > 0 {
      DftSlotBijection(n);
      forall k | 0 <= k < n
        ensures result[k] == DftFreq(n, k)
      {
        ModNear(k + nc, n);
        assert result[DftSlot(n, DftWriter(n, k))] == DftWriter(n, k) - nc;
      }
    }
  }

  /** The iteration that writes slot `k` in the corrected loop. */
  function DftWriter(n: nat, k: nat): (i: nat)
    requires n > 0
  {
    (k + Centre(n)) % n
  }

  /** The corrected placement is a bijection on `[0, N)` as well. */
  lemma DftSlotBijection(n: nat)
    requires n > 0
    ensures forall i :: 0 <= i < n ==> DftSlot(n, i) < n && DftWriter(n, DftSlot(n, i)) == i
    ensures forall k :: 0 <= k < n ==> DftWriter(n, k) < n && DftSlot(n, DftWriter(n, k)) == k
    ensures forall i, j :: 0 <= i < n && 0 <= j < n && DftSlot(n, i) == DftSlot(n, j) ==> i == j
  {
    forall i | 0 <= i < n
      ensures DftSlot(n, i) < n && DftWriter(n, DftSlot(n, i)) == i
    {
      ModNear(i + n - Centre(n), n);
      ModNear(DftSlot(n, i) + Centre(n), n);
    }
    forall k | 0 <= k < n
      ensures DftWriter(n, k) < n && DftSlot(n, DftWriter(n, k)) == k
    {
      ModNear(k + Centre(n), n);
      ModNear(DftWriter(n, k) + n - Centre(n), n);
    }
  }
}
