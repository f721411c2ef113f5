/** `modexp` of rsa/rsa.py:109-118: left-to-right square-and-multiply over
    the bits of the exponent, each product reduced with `modmul`. The loop
    runs `ceil(log2(y + 1))` times in the source, which is the bit length
    of `y`. */
module RSAModExp {
  import opened Wrappers
  import opened RSAArith
  import RSAModMul

  method ModExp(x: nat, y: nat, n: nat) returns (z: nat)
    requires n >= 1
    ensures z == Pow(x, y) % n
  {
    z := 1;
    var i: nat := BitLength(y);
    HighBitsOfSmall(y, i);
    while i > 0
      invariant i <= BitLength(y)
      invariant z % n == Pow(x, HighBits(y, i)) % n
    {
      i := i - 1;
      var zPrev := z;
      var zSquared := RSAModMul.ModMul(z, z, n, None);
      if TestBit(y, i) {
        z := RSAModMul.ModMul(x, zSquared, n, None);
      } else {
        z := zSquared;
      }
      ExponentStep(x, y, i, zPrev, z, n);
    }
    ModUnique(y, 1, y, 0);
    z := z % n;
  }

  /** Going one bit further down doubles the exponent read so far and adds
      that bit; squaring, and multiplying by `x` for a set bit, follows it. */
  lemma ExponentStep(x: nat, y: nat, i: nat, z: nat, zNew: nat, n: nat)
    requires n >= 1
    requires z % n == Pow(x, HighBits(y, i + 1)) % n
    requires zNew == if TestBit(y, i) then (x * ((z * z) % n)) % n else (z * z) % n
    ensures zNew % n == Pow(x, HighBits(y, i)) % n
  {
    var h := HighBits(y, i + 1);
    var ph := Pow(x, h);
    HalveExponent(y, i);
    PowAdd(x, h, h);
    SquareCongruent(z, ph, n);
    if TestBit(y, i) {
      PowAdd(x, h + h, 1);
      assert Pow(x, 1) == x;
      CongruentMul((z * z) % n, ph * ph, x, n);
      assert x * ((z * z) % n) == ((z * z) % n) * x;
      ModMod(x * ((z * z) % n), n);
    }
  }

  lemma HighBitsOfSmall(y: nat, k: nat)
    requires y < Pow2(k)
    ensures HighBits(y, k) == 0
  {
    ModUnique(y, Pow2(k), 0, y);
  }

  lemma SquareCongruent(z: int, w: int, n: nat)
    requires n >= 1 && z % n == w % n
    ensures (z * z) % n % n == (w * w) % n
    ensures ((z * z) % n) % n == (w * w) % n
  {
    CongruentMul(z, w, z, n);
    CongruentMul(z, w, w, n);
    assert w * z == z * w;
    ModMod(z * z, n);
  }

  lemma HalveExponent(y: nat, i: nat)
    ensures HighBits(y, i) == 2 * HighBits(y, i + 1) + (if TestBit(y, i) then 1 else 0)
  {
    var q := HighBits(y, i);
    assert Pow2(i + 1) == Pow2(i) * 2;
    DivDiv(y, Pow2(i), 2);
  }
}
