/** `modmul` of rsa/rsa.py:67-99: Karatsuba multiplication modulo `n`.
    Operands at or above 2^64 are split at a bit position into a low and a
    high half, and three recursive products replace the four of schoolbook
    multiplication. The mask `&`, shifts `>>` / `<<` are written as `%`, `/`
    and `*` by powers of two. */
module RSAModMul {
  import opened Wrappers
  import opened RSAArith

  /** `NATIVE_MATH_MAX`, `1 << 64`: below it both operands are multiplied directly. */
  const NativeMathMax: nat := Pow2(64)

  function Max(a: nat, b: nat): nat { if a >= b then a else b }

  function Square(m: nat): nat { m * m }

  /** `int(0.5 + math.log(m, 2))`: the base-2 logarithm of `m` rounded to
      the nearest integer, computed exactly: log2(m) lies below r + 1/2
      exactly when m * m < 2^(2r+1). */
  function RoundLog2(m: nat): (r: nat)
    requires m >= 1
    ensures r >= 1 ==> Pow2(2 * r - 1) <= Square(m)
    ensures Square(m) < Pow2(2 * r + 1)
    ensures r <= BitLength(m)
  {
    var k := BitLength(m) - 1;
    SquareBounds(m, k);
    if Square(m) < Pow2(2 * k + 1) then k else k + 1
  }

  lemma SquareBounds(m: nat, k: nat)
    requires Pow2(k) <= m < Pow2(k + 1)
    ensures Pow2(2 * k) <= Square(m) < Pow2(2 * k + 2)
    ensures k >= 1 ==> Pow2(2 * k - 1) < Square(m)
  {
    Pow2Add(k, k);
    Pow2Add(k + 1, k + 1);
    MulLe(Pow2(k), m, Pow2(k), m);
    MulLt(m, Pow2(k + 1));
    assert k + 1 + (k + 1) == 2 * k + 2;
    if k >= 1 {
      assert Pow2(2 * k) == 2 * Pow2(2 * k - 1);
    }
  }

  lemma MulLt(a: nat, b: nat)
    requires a < b
    ensures a * a < b * b
  {
    MulLe(a, a, a, b);
    assert b * b - a * b == (b - a) * b;
  }

  /** `modmul(x, y, n, base)`: `(x * y) % n`. `base`, when given, is the
      bit width to halve for the first split; the recursive calls use the
      default, the rounded logarithm of the larger operand. */
  function ModMul(x: nat, y: nat, n: nat, base: Option<nat>): (r: nat)
    requires n >= 1
    ensures r == (x * y) % n
    decreases Max(x, y), if base.Some? then 1 else 0
  {
    if x >= NativeMathMax || y >= NativeMathMax then
      var m := Max(x, y);
      var half := (if base.Some? then base.value else RoundLog2(m)) / 2;
      var a, c := LowBits(x, half), HighBits(x, half);
      var b, d := LowBits(y, half), HighBits(y, half);
      SplitShrinks(x, y, half);
      DefaultSplitShrinks(m);
      var ab := ModMul(a, b, n, None);
      var cd := ModMul(c, d, n, None);
      var mid := ModMul(a + c, b + d, n, None);
      Karatsuba(x, y, n, half, a, b, c, d, ab, cd, mid);
      Recombine(ab, cd, mid, half, n)
    else
      (x * y) % n
  }

  /** `crossover = (mid - ab - cd) % n` and the final shifts and adds:
      `(ab + (((cd << half) + crossover) << half)) % n`. */
  function Recombine(ab: int, cd: int, mid: int, half: nat, n: nat): int
    requires n >= 1
  {
    var crossover := (mid - ab - cd) % n;
    (ab + (cd * Pow2(half) + crossover) * Pow2(half)) % n
  }

  /** Splitting never grows the operands, and shrinks them when the split
      point lies inside the larger one. */
  lemma SplitShrinks(x: nat, y: nat, half: nat)
    ensures var a, c, b, d := LowBits(x, half), HighBits(x, half), LowBits(y, half), HighBits(y, half);
      && Max(a, b) <= Max(x, y) && Max(c, d) <= Max(x, y) && Max(a + c, b + d) <= Max(x, y)
      && (half >= 1 && Pow2(half) <= Max(x, y) ==>
            Max(a, b) < Max(x, y) && Max(c, d) < Max(x, y) && Max(a + c, b + d) < Max(x, y))
  {
    var p := Pow2(half);
    if half >= 1 {
      assert p == 2 * Pow2(half - 1);
    }
    PartsBound(x, p, LowBits(x, half), HighBits(x, half));
    PartsBound(y, p, LowBits(y, half), HighBits(y, half));
    MaxOfParts(x, y, LowBits(x, half), HighBits(x, half), LowBits(y, half), HighBits(y, half), p, half >= 1);
  }

  lemma MaxOfParts(x: nat, y: nat, a: nat, c: nat, b: nat, d: nat, p: nat, inside: bool)
    requires a < p && b < p
    requires a <= x && c <= x && a + c <= x && b <= y && d <= y && b + d <= y
    requires p >= 2 && p <= x ==> a + c < x && c < x
    requires p >= 2 && p <= y ==> b + d < y && d < y
    requires inside ==> p >= 2
    ensures Max(a, b) <= Max(x, y) && Max(c, d) <= Max(x, y) && Max(a + c, b + d) <= Max(x, y)
    ensures inside && p <= Max(x, y) ==>
      Max(a, b) < Max(x, y) && Max(c, d) < Max(x, y) && Max(a + c, b + d) < Max(x, y)
  {
  }

  lemma PartsBound(x: nat, p: nat, r: nat, q: nat)
    requires p >= 1 && x == q * p + r && r < p
    ensures r <= x && q <= x && r + q <= x
    ensures p >= 2 && p <= x ==> r + q < x && q < x
  {
    MulLe(q, q, 1, p);
    if p >= 2 && p <= x {
      MulLe(q, q, 2, p);
    }
  }

  /** The default width, for an operand at or above 2^64, splits inside it. */
  lemma DefaultSplitShrinks(m: nat)
    requires m >= NativeMathMax
    ensures RoundLog2(m) / 2 >= 1 && Pow2(RoundLog2(m) / 2) <= m
  {
    var half := RoundLog2(m) / 2;
    var k := BitLength(m) - 1;
    if k < 64 {
      Pow2Monotone(k + 1, 64);
    }
    Pow2Monotone(half, k);
  }

  /** The recombination: with `ab`, `cd` and `mid` the three products
      modulo `n`, shifting and adding yields the full product modulo `n`. */
  lemma Karatsuba(x: nat, y: nat, n: nat, half: nat, a: nat, b: nat, c: nat, d: nat, ab: int, cd: int, mid: int)
    requires n >= 1
    requires x == c * Pow2(half) + a && y == d * Pow2(half) + b
    requires ab == (a * b) % n && cd == (c * d) % n && mid == ((a + c) * (b + d)) % n
    ensures Recombine(ab, cd, mid, half, n) == (x * y) % n
  {
    var p := Pow2(half);
    RemainderCongruent(ab, a * b, n);
    RemainderCongruent(cd, c * d, n);
    RemainderCongruent(mid, (a + c) * (b + d), n);
    CrossTerm(a, b, c, d);
    RecombineCongruent(n, p, ab, cd, mid, a * b, c * d, (a + c) * (b + d), a * d + b * c);
    Expand(a, b, c, d, p);
  }

  lemma RemainderCongruent(v: int, u: int, n: nat)
    requires n >= 1 && v == u % n
    ensures Divides(n, v - u)
  {
    ModMod(u, n);
    SameModIffDivides(v, u, n);
  }

  lemma CrossTerm(a: int, b: int, c: int, d: int)
    ensures (a + c) * (b + d) - a * b - c * d == a * d + b * c
  {
  }

  lemma Expand(a: int, b: int, c: int, d: int, p: int)
    ensures (c * p + a) * (d * p + b) == a * b + (c * d * p + (a * d + b * c)) * p
  {
  }

  /** Replacing each of the three products by a congruent value leaves the
      recombined sum congruent. */
  lemma RecombineCongruent(n: nat, p: int, ab: int, cd: int, mid: int, A: int, C: int, M: int, X: int)
    requires n >= 1
    requires Divides(n, ab - A) && Divides(n, cd - C) && Divides(n, mid - M)
    requires M - A - C == X
    ensures (ab + (cd * p + (mid - ab - cd) % n) * p) % n == (A + (C * p + X) * p) % n
  {
    var cross := (mid - ab - cd) % n;
    RemainderCongruent(cross, mid - ab - cd, n);
    DividesLinear(n, mid - M, ab - A, 1, -1);
    DividesLinear(n, (mid - M) * 1 + (ab - A) * -1, cd - C, 1, -1);
    assert (mid - ab - cd) - X == ((mid - M) * 1 + (ab - A) * -1) * 1 + (cd - C) * -1;
    DividesLinear(n, cross - (mid - ab - cd), (mid - ab - cd) - X, 1, 1);
    var e := ab + (cd * p + cross) * p;
    var f := A + (C * p + X) * p;
    assert e - f == (ab - A) + (cd - C) * (p * p) + (cross - X) * p;
    DividesLinear(n, ab - A, cd - C, 1, p * p);
    DividesLinear(n, (ab - A) * 1 + (cd - C) * (p * p), cross - X, 1, p);
    SameModIffDivides(e, f, n);
  }
}
