/** Extended Euclid, `gcd` and `modinv` of rsa/rsa.py:44-65 and 101-107.
    Arguments are non-negative, as `gcd` asserts and as every caller in the
    source supplies them. */
module RSAEuclid {
  import opened Wrappers
  import opened RSAArith

  /** `g` is the greatest common divisor of `a` and `b`: it divides both,
      and every common divisor divides it. */
  ghost predicate IsGcd(g: nat, a: nat, b: nat)
  {
    && Divides(g, a) && Divides(g, b)
    && forall d: nat :: Divides(d, a) && Divides(d, b) ==> Divides(d, g)
  }

  /** `_extended_euclidean` (lines 44-59): Bezout coefficients and the gcd.
      The arguments are put in descending order, Euclid's step runs on the
      ordered pair, and the coefficients are swapped back at the end. The
      source returns early from the base case before that swap; here the
      swap applies to the base case too (see `ExtendedEuclideanAsWritten`). */
  function ExtendedEuclidean(a: nat, b: nat): (r: (int, int, nat))
    decreases a + b
    ensures a * r.0 + b * r.1 == r.2
    ensures Divides(r.2, a) && Divides(r.2, b)
  {
    var flip := b > a;
    var (p, q) := if flip then (b, a) else (a, b);
    var (x, y, g) :=
      if q == 0 then (1, 0, p)
      else (
        var (x', y', g) := ExtendedEuclidean(q, p % q);
        EuclidStep(p, q, x', y', g);
        (y', x' - (p / q) * y', g));
    if flip then (y, x, g) else (x, y, g)
  }

  /** One step back up Euclid's recursion: what holds for `(q, p % q)`
      holds for `(p, q)` with the updated coefficients. */
  lemma EuclidStep(p: nat, q: nat, x': int, y': int, g: nat)
    requires q > 0
    requires q * x' + (p % q) * y' == g
    requires Divides(g, q) && Divides(g, p % q)
    ensures p * y' + q * (x' - (p / q) * y') == g
    ensures Divides(g, p) && Divides(g, q)
  {
    var k, m := p / q, p % q;
    assert p == k * q + m;
    assert p * y' == k * q * y' + m * y' by {
      assert (k * q + m) * y' == k * q * y' + m * y';
    }
    assert q * (x' - k * y') == q * x' - k * q * y' by {
      assert q * (k * y') == k * q * y';
    }
    DividesLinear(g, q, m, k, 1);
    assert q * k + m * 1 == p;
  }

  /** The coefficients make the gcd claim complete: a common divisor of
      `a` and `b` divides `a * x + b * y`. */
  lemma ExtendedEuclideanIsGcd(a: nat, b: nat)
    ensures IsGcd(ExtendedEuclidean(a, b).2, a, b)
  {
    var (x, y, g) := ExtendedEuclidean(a, b);
    forall d: nat | Divides(d, a) && Divides(d, b) ensures Divides(d, g) {
      DividesLinear(d, a, b, x, y);
    }
  }

  /** Swapping distinct arguments swaps the coefficients and keeps the gcd
      (the property rsa/test_rsa.py:20-24 checks). */
  lemma ExtendedEuclideanSymmetric(a: nat, b: nat)
    requires a != b
    ensures var (x, y, g) := ExtendedEuclidean(a, b);
      ExtendedEuclidean(b, a) == (y, x, g)
  {
  }

  /** `gcd` (lines 61-65). */
  function Gcd(a: nat, b: nat): (g: nat)
    ensures IsGcd(g, a, b)
    ensures g == 0 <==> a == 0 && b == 0
  {
    ExtendedEuclideanIsGcd(a, b);
    ExtendedEuclidean(a, b).2
  }

  lemma GcdSymmetric(a: nat, b: nat)
    ensures Gcd(a, b) == Gcd(b, a)
  {
    if a != b {
      ExtendedEuclideanSymmetric(a, b);
    }
  }

  /** `modinv` (lines 101-107): the inverse of `x` modulo `n`, or `None`
      when `x` and `n` share a factor. */
  function ModInv(x: nat, n: nat): (r: Option<nat>)
    requires n >= 1
    ensures r.None? <==> Gcd(x, n) != 1
    ensures r.Some? ==> r.value < n && (r.value * x) % n == 1 % n
  {
    var (a, b, g) := ExtendedEuclidean(x, n);
    if g != 1 then None
    else
      InverseFromBezout(x, n, a, b);
      Some(a % n)
  }

  lemma InverseFromBezout(x: nat, n: nat, a: int, b: int)
    requires n >= 1 && x * a + n * b == 1
    ensures ((a % n) * x) % n == 1 % n
  {
    CongruentMul(a % n, a, x, n) by { ModMod(a, n); }
    assert a * x == 1 + (-b) * n;
    ModShift(-b, n, 1);
  }

  /** When `x` and `n > 1` share a factor, no residue inverts `x`: the
      `None` of `ModInv` is exact. */
  lemma NoInverse(x: nat, n: nat, r: int)
    requires n > 1 && Gcd(x, n) != 1
    ensures (r * x) % n != 1
  {
    if (r * x) % n == 1 {
      var g := Gcd(x, n);
      var q := (r * x) / n;
      assert r * x == q * n + 1;
      DividesLinear(g, x, n, r, -q);
      assert x * r + n * (-q) == 1;
      DividesOne(g);
    }
  }

  /** For `n > 1`, `ModInv` answers `None` exactly when no inverse exists. */
  lemma ModInvComplete(x: nat, n: nat)
    requires n > 1
    ensures ModInv(x, n).None? <==> forall r: int :: (r * x) % n != 1
  {
    if ModInv(x, n).None? {
      forall r: int ensures (r * x) % n != 1 {
        NoInverse(x, n, r);
      }
    } else {
      var r: int := ModInv(x, n).value;
      assert (r * x) % n == 1 by {
        ModUnique(1, n, 0, 1);
      }
    }
  }

  // ---------------------------------------------------------------------------
  // The source as written

  /** `_extended_euclidean` exactly as written: the base case returns
      `(1, 0, a)` for the already swapped pair without swapping back. */
  function ExtendedEuclideanAsWritten(a: nat, b: nat): (r: (int, int, nat))
    decreases a + b
  {
    var flip := b > a;
    var (p, q) := if flip then (b, a) else (a, b);
    if q == 0 then (1, 0, p)
    else
      var (x', y', g) := ExtendedEuclideanAsWritten(q, p % q);
      var (x, y) := (y', x' - (p / q) * y');
      if flip then (y, x, g) else (x, y, g)
  }

  /** The two agree except when the first argument is 0 and the second is not. */
  lemma {:induction false} AsWrittenAgrees(a: nat, b: nat)
    requires a > 0 || b == 0
    ensures ExtendedEuclideanAsWritten(a, b) == ExtendedEuclidean(a, b)
    decreases a + b
  {
    var (p, q) := if b > a then (b, a) else (a, b);
    if q != 0 {
      AsWrittenAgrees(q, p % q);
    }
  }

  /** The disagreement: for `(0, 5)` the source returns `(1, 0, 5)`, and
      `0 * 1 + 5 * 0` is not 5. */
  lemma AsWrittenBreaksBezout()
    ensures var (x, y, g) := ExtendedEuclideanAsWritten(0, 5);
      0 * x + 5 * y != g
    ensures ExtendedEuclidean(0, 5) == (0, 1, 5)
  {
  }
}
