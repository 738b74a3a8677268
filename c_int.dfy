/** Integer semantics of the C++ operators that the index arithmetic relies on.
    Dafny's `%` is Euclidean; C++ truncates toward zero, and `size_t` wraps. */
module CInt {

  /** `a % b` on signed C++ integers: the quotient truncates toward zero, so the
      remainder differs from `a` by a multiple of `b`, takes the sign of `a`, and
      its magnitude is below `|b|`. */
  function Rem(a: int, b: int): (r: int)
    requires b != 0
    ensures (a - r) % Abs(b) == 0
    ensures a >= 0 ==> 0 <= r
    ensures a <= 0 ==> r <= 0
    ensures -(Abs(b) as int) < r < Abs(b)
  {
    RemCongruent(a, Abs(b));
    if a >= 0 then a % Abs(b) else -((-a) % Abs(b))
  }

  /** The truncating remainder differs from `a` by a multiple of the divisor. */
  lemma RemCongruent(a: int, m: int)
    requires m > 0
    ensures (a - (if a >= 0 then a % m else -((-a) % m))) % m == 0
  {
    if a >= 0 {
      assert a - a % m == m * (a / m) + 0;
      ModOfMultiple(a / m, 0, m);
    } else {
      var q := (-a) / m;
      assert -a == m * q + (-a) % m;
      assert a + (-a) % m == m * (-q) + 0;
      ModOfMultiple(-q, 0, m);
    }
  }

  function Abs(b: int): (m: nat)
    ensures m == b || m == -b
    ensures b != 0 ==> m > 0
  {
    if b < 0 then -b else b
  }

  /** `((a % n) + n) % n`: the idiom the band-limit loop uses to wrap a signed
      index into `[0, n)`. */
  function WrapIndex(a: int, n: int): (w: int)
    requires n > 0
  {
    Rem(Rem(a, n) + n, n)
  }

  /** Euclidean remainder of a value that lies at most one period outside `[0, n)`. */
  lemma ModNear(a: int, n: int)
    requires n > 0 && -n <= a < 2 * n
    ensures a % n == if a < 0 then a + n else if a < n then a else a - n
  {
  }

  /** The wrap idiom computes the Euclidean remainder, for every signed `a`. */
  lemma WrapIndexIsMod(a: int, n: int)
    requires n > 0
    ensures WrapIndex(a, n) == a % n
  {
    var t := Rem(a, n);
    ModNear(t + n, n);
    if a >= 0 {
      assert t == a % n;
    } else {
      var m := (-a) % n;
      assert t == -m;
      // -a == n * ((-a) / n) + m, hence a == n * (-((-a) / n)) - m
      var q := (-a) / n;
      assert a == n * (-q) - m;
      if m == 0 {
        assert a == n * (-q) + 0;
        ModOfMultiple(-q, 0, n);
      } else {
        assert a == n * (-q - 1) + (n - m);
        ModOfMultiple(-q - 1, n - m, n);
      }
    }
  }

  /** The remainder of `n * q + r` is `r` when `r` lies in `[0, n)`. */
  lemma ModOfMultiple(q: int, r: int, n: int)
    requires n > 0 && 0 <= r < n
    ensures (n * q + r) % n == r
  {
    var a := n * q + r;
    var q', r' := a / n, a % n;
    assert n * (q - q') == r' - r;
    MulSmallIsZero(n, q - q');
  }

  /** A multiple of `n` strictly between `-n` and `n` is zero. */
  lemma MulSmallIsZero(n: int, d: int)
    requires n > 0 && -n < n * d < n
    ensures d == 0
  {
    if d >= 1 {
      MulGrows(n, d);
    } else if d <= -1 {
      MulGrows(n, -d);
    }
  }

  lemma MulGrows(n: int, d: int)
    requires n > 0 && d >= 1
    ensures n * d >= n
  {
  }

  /** The remainder test `v % f == 0` in C++ is divisibility, whatever the signs. */
  lemma RemZeroIsDivisibility(v: int, f: int)
    requires f != 0
    ensures Rem(v, f) == 0 <==> v % f == 0
  {
    var m := Abs(f);
    var q := v / f;
    assert v == f * q + v % f;
    if f < 0 {
      assert v == m * (-q) + v % f;
      ModOfMultiple(-q, v % f, m);
      assert v % m == v % f;
    }
    if v < 0 {
      var q2 := v / m;
      assert v == m * q2 + v % m;
      assert -v == m * (-q2) - v % m;
      if v % m == 0 {
        ModOfMultiple(-q2, 0, m);
      } else {
        assert -v == m * (-q2 - 1) + (m - v % m);
        ModOfMultiple(-q2 - 1, m - v % m, m);
      }
    }
  }

  /** 2^64, the modulus of `size_t` arithmetic. */
  const SizeModulus: int := 0x1_0000_0000_0000_0000

  /** The value of an integer expression once it is stored in a `size_t`. */
  function SizeT(v: int): (r: nat)
    ensures r < SizeModulus
    ensures 0 <= v < SizeModulus ==> r == v
  {
    v % SizeModulus
  }
}
