/** Integer helpers for the arithmetic of rsa/rsa.py: powers, bit lengths
    (the integer replacement for the source's floating-point `math.log`),
    divisibility, and the congruence facts the algorithms rest on. Python's
    `%` with a positive modulus never returns a negative number, which is
    what Dafny's `%` does as well; Python 2's `/` on non-negative integers
    is floor division, which is Dafny's `/` there. */
module RSAArith {

  function Pow(b: int, e: nat): int
  {
    if e == 0 then 1 else b * Pow(b, e - 1)
  }

  function Pow2(e: nat): (r: nat)
    ensures r >= 1
  {
    if e == 0 then 1 else 2 * Pow2(e - 1)
  }

  lemma {:induction false} Pow2Add(a: nat, b: nat)
    ensures Pow2(a + b) == Pow2(a) * Pow2(b)
  {
    if a > 0 {
      Pow2Add(a - 1, b);
      assert Pow2(a + b) == 2 * Pow2(a - 1 + b);
    }
  }

  lemma {:induction false} Pow2Monotone(a: nat, b: nat)
    requires a <= b
    ensures Pow2(a) <= Pow2(b)
  {
    if a < b {
      Pow2Monotone(a, b - 1);
    }
  }

  lemma {:induction false} PowAdd(b: int, e1: nat, e2: nat)
    ensures Pow(b, e1 + e2) == Pow(b, e1) * Pow(b, e2)
  {
    if e1 > 0 {
      PowAdd(b, e1 - 1, e2);
      assert Pow(b, e1 + e2) == b * Pow(b, e1 - 1 + e2);
    }
  }

  lemma {:induction false} PowMul(b: int, e1: nat, e2: nat)
    ensures Pow(b, e1 * e2) == Pow(Pow(b, e1), e2)
  {
    if e2 > 0 {
      PowMul(b, e1, e2 - 1);
      assert e1 * e2 == e1 * (e2 - 1) + e1;
      PowAdd(b, e1 * (e2 - 1), e1);
    }
  }

  /** Number of binary digits of `x`; 0 has none. */
  function BitLength(x: nat): (r: nat)
    ensures x < Pow2(r)
    ensures x >= 1 ==> r >= 1 && Pow2(r - 1) <= x
    ensures x == 0 <==> r == 0
  {
    if x == 0 then 0 else 1 + BitLength(x / 2)
  }

  /** `x & ((1 << k) - 1)`: the low `k` bits. */
  function LowBits(x: nat, k: nat): (r: nat)
    ensures r < Pow2(k) && r <= x
  {
    DivBounds(x, Pow2(k));
    x % Pow2(k)
  }

  /** `x >> k`: the bits above the low `k`. */
  function HighBits(x: nat, k: nat): (r: nat)
    ensures x == r * Pow2(k) + LowBits(x, k)
  {
    DivBounds(x, Pow2(k));
    x / Pow2(k)
  }

  lemma DivBounds(x: nat, p: nat)
    requires p >= 1
    ensures 0 <= x / p && x % p <= x
  {
    var q := x / p;
    assert x == q * p + x % p;
    if x % p > x {
      MulLe(0, q, p, p);
    }
  }

  /** Bit `i` of `x`, what `(1 << i) & x` tests. */
  predicate TestBit(x: nat, i: nat)
  {
    HighBits(x, i) % 2 == 1
  }

  lemma MulLe(a: nat, b: nat, c: nat, d: nat)
    requires a <= b && c <= d
    ensures a * c <= b * d
  {
    assert b * c - a * c == (b - a) * c;
    assert b * d - b * c == b * (d - c);
  }

  // ---------------------------------------------------------------------------
  // Division and remainder

  /** The quotient and remainder are the only pair with `a == q * n + r`
      and `0 <= r < n`. */
  lemma ModUnique(a: int, n: int, q: int, r: int)
    requires n > 0 && 0 <= r < n && a == q * n + r
    ensures a / n == q && a % n == r
  {
    var q', r' := a / n, a % n;
    assert (q - q') * n == r' - r by {
      assert a == q' * n + r';
      assert (q - q') * n == q * n - q' * n;
    }
    SmallMultiple(q - q', n);
  }

  /** The only multiple of `n` strictly between `-n` and `n` is 0. */
  lemma SmallMultiple(e: int, n: int)
    requires n > 0 && -n < e * n < n
    ensures e == 0
  {
    if e >= 1 {
      AtLeastOnce(e, n);
    } else if e <= -1 {
      assert (-e) * n == -(e * n);
      AtLeastOnce(-e, n);
    }
  }

  lemma AtLeastOnce(e: int, n: int)
    requires e >= 1 && n > 0
    ensures e * n >= n
  {
    assert e * n == (e - 1) * n + n;
    assert (e - 1) * n >= 0;
  }

  lemma ModShift(k: int, n: int, x: int)
    requires n > 0
    ensures (k * n + x) % n == x % n
    ensures (k * n + x) / n == k + x / n
  {
    assert x == (x / n) * n + x % n;
    assert k * n + x == (k + x / n) * n + x % n;
    ModUnique(k * n + x, n, k + x / n, x % n);
  }

  lemma ModAdd(a: int, b: int, n: int)
    requires n > 0
    ensures (a + b) % n == (a % n + b % n) % n
  {
    assert a == (a / n) * n + a % n;
    assert b == (b / n) * n + b % n;
    assert a + b == (a / n + b / n) * n + (a % n + b % n);
    ModShift(a / n + b / n, n, a % n + b % n);
  }

  lemma MulMod(a: int, b: int, n: int)
    requires n > 0
    ensures (a * b) % n == ((a % n) * (b % n)) % n
  {
    var qa, ra := a / n, a % n;
    var qb, rb := b / n, b % n;
    assert a == qa * n + ra;
    assert b == qb * n + rb;
    var k := qa * qb * n + qa * rb + ra * qb;
    assert a * b == k * n + ra * rb by {
      calc {
        a * b;
        (qa * n + ra) * b;
        { MulAddRight(qa * n, ra, b); }
        (qa * n) * b + ra * b;
        (qa * n) * (qb * n + rb) + ra * (qb * n + rb);
        { MulAddLeft(qa * n, qb * n, rb); MulAddLeft(ra, qb * n, rb); }
        (qa * n) * (qb * n) + (qa * n) * rb + ra * (qb * n) + ra * rb;
        { MulRegroup(qa, qb, n, rb, ra); }
        k * n + ra * rb;
      }
    }
    ModShift(k, n, ra * rb);
  }

  lemma MulAddRight(x: int, y: int, z: int)
    ensures (x + y) * z == x * z + y * z
  {
  }

  lemma MulAddLeft(x: int, y: int, z: int)
    ensures x * (y + z) == x * y + x * z
  {
  }

  lemma MulRegroup(qa: int, qb: int, n: int, rb: int, ra: int)
    ensures (qa * n) * (qb * n) + (qa * n) * rb + ra * (qb * n)
         == (qa * qb * n + qa * rb + ra * qb) * n
  {
    assert (qa * n) * (qb * n) == (qa * qb * n) * n;
    assert (qa * n) * rb == (qa * rb) * n;
    assert ra * (qb * n) == (ra * qb) * n;
  }

  /** Equal remainders survive adding or multiplying the same value. */
  lemma CongruentAdd(a: int, a': int, b: int, n: int)
    requires n > 0 && a % n == a' % n
    ensures (a + b) % n == (a' + b) % n
  {
    ModAdd(a, b, n);
    ModAdd(a', b, n);
  }

  lemma CongruentMul(a: int, a': int, b: int, n: int)
    requires n > 0 && a % n == a' % n
    ensures (a * b) % n == (a' * b) % n
  {
    MulMod(a, b, n);
    MulMod(a', b, n);
  }

  lemma ModMod(a: int, n: int)
    requires n > 0
    ensures (a % n) % n == a % n
  {
    ModShift(0, n, a % n);
  }

  lemma DivDiv(a: nat, b: nat, c: nat)
    requires b > 0 && c > 0
    ensures a / b / c == a / (b * c)
  {
    var q := a / b / c;
    var r := a / b % c;
    assert a / b == q * c + r;
    assert a == (a / b) * b + a % b;
    assert a == q * (b * c) + (r * b + a % b);
    assert r * b + a % b < b * c by {
      assert r * b <= (c - 1) * b;
    }
    ModUnique(a, b * c, q, r * b + a % b);
  }

  // ---------------------------------------------------------------------------
  // Divisibility

  /** `d` divides `n`; only 0 is divisible by 0. */
  predicate Divides(d: nat, n: int)
  {
    if d == 0 then n == 0 else n % d == 0
  }

  lemma DividesMultiple(d: nat, k: int)
    ensures Divides(d, d * k)
  {
    if d > 0 {
      ModShift(k, d, 0);
    }
  }

  lemma DividesLinear(d: nat, m: int, n: int, x: int, y: int)
    requires Divides(d, m) && Divides(d, n)
    ensures Divides(d, m * x + n * y)
  {
    if d > 0 {
      assert m == d * (m / d);
      assert n == d * (n / d);
      assert m * x + n * y == d * ((m / d) * x + (n / d) * y);
      DividesMultiple(d, (m / d) * x + (n / d) * y);
    }
  }

  lemma DividesOne(d: nat)
    requires Divides(d, 1)
    ensures d == 1
  {
    if d > 1 {
      ModUnique(1, d, 0, 1);
    }
  }

  /** Equal remainders modulo `n` mean a difference divisible by `n`. */
  lemma SameModIffDivides(u: int, u': int, n: nat)
    requires n > 0
    ensures u % n == u' % n <==> Divides(n, u - u')
  {
    var q, r := u / n, u % n;
    var q', r' := u' / n, u' % n;
    assert u - u' == (q - q') * n + (r - r') by {
      assert u == q * n + r && u' == q' * n + r';
      assert q * n - q' * n == (q - q') * n;
    }
    ModShift(q - q', n, r - r');
    if r == r' {
      ModUnique(0, n, 0, 0);
    } else if (r - r') % n == 0 {
      var k := (r - r') / n;
      assert r - r' == k * n;
      SmallMultiple(k, n);
    }
  }
}
