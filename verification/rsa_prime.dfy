/** The deterministic part of `isprime` (rsa/rsa.py:120-162): the special
    cases, the decomposition x - 1 == 2^t * u with u odd, and the test of
    one base by repeated squaring. The bases themselves are drawn at random
    in the source; here they are a parameter. */
module RSAPrime {
  import opened RSAArith
  import RSAModExp

  /** Lines 129-135: strip factors of two from x - 1. */
  method Decompose(x: nat) returns (t: nat, u: nat)
    requires x >= 2
    ensures u % 2 == 1
    ensures Pow2(t) * u == x - 1
  {
    t := 0;
    u := x - 1;
    while u % 2 == 0
      invariant u >= 1 && Pow2(t) * u == x - 1
      decreases u
    {
      HalveEven(t, u);
      t := t + 1;
      u := u / 2;
    }
  }

  lemma HalveEven(t: nat, u: nat)
    requires u % 2 == 0 && u >= 1
    ensures u / 2 >= 1 && Pow2(t + 1) * (u / 2) == Pow2(t) * u
  {
    assert u == 2 * (u / 2);
    assert Pow2(t + 1) * (u / 2) == Pow2(t) * (2 * (u / 2));
  }

  /** `prime_test_one_base` (lines 137-155). It squares a^u up to t times,
      rejecting on a square root of 1 other than 1 and x - 1, and finally
      applies Fermat's test; so a base it accepts satisfies
      a^(x-1) == 1 (mod x). */
  method PrimeTestOneBase(a: nat, t: nat, u: nat, x: nat) returns (r: bool)
    requires 0 < a < x
    requires Pow2(t) * u == x - 1
    ensures r ==> Pow(a, x - 1) % x == 1
  {
    var value := RSAModExp.ModExp(a, u, x);
    var foundFirstOne := value == 1;
    var i := 0;
    while i < t
      invariant 0 <= i <= t
      invariant value == Pow(a, u * Pow2(i)) % x
    {
      var newValue := RSAModExp.ModExp(value, 2, x);
      SquareStep(a, u, i, x, value, newValue);
      if newValue == 1 && !foundFirstOne {
        foundFirstOne := true;
        if value != x - 1 {
          return false;
        }
      }
      value := newValue;
      i := i + 1;
    }
    assert u * Pow2(t) == x - 1;
    return value == 1;
  }

  lemma SquareStep(a: nat, u: nat, i: nat, x: nat, value: nat, newValue: int)
    requires x >= 1
    requires value == Pow(a, u * Pow2(i)) % x
    requires newValue == Pow(value, 2) % x
    ensures newValue == Pow(a, u * Pow2(i + 1)) % x
  {
    var e := u * Pow2(i);
    var pe := Pow(a, e);
    assert u * Pow2(i + 1) == e + e by {
      assert Pow2(i + 1) == 2 * Pow2(i);
    }
    PowAdd(a, e, e);
    assert Pow(value, 1) == value;
    assert Pow(value, 2) == value * value;
    ModMod(pe, x);
    RSAModExp.SquareCongruent(value, pe, x);
    ModMod(value * value, x);
  }

  /** `isprime(x)` with the `N` random bases given as `bases`: 0 and 1 are
      not prime, and a number declared prime passed Fermat's test for every
      base tried. */
  method IsPrime(x: nat, bases: seq<nat>) returns (r: bool)
    requires forall i :: 0 <= i < |bases| ==> 0 < bases[i] < x
    ensures x < 2 ==> !r
    ensures r ==> forall i :: 0 <= i < |bases| ==> Pow(bases[i], x - 1) % x == 1
  {
    if x == 0 || x == 1 {
      return false;
    }
    var t, u := Decompose(x);
    var j := 0;
    while j < |bases|
      invariant 0 <= j <= |bases|
      invariant forall i :: 0 <= i < j ==> Pow(bases[i], x - 1) % x == 1
    {
      var ok := PrimeTestOneBase(bases[j], t, u, x);
      if !ok {
        return false;
      }
      j := j + 1;
    }
    return true;
  }
}
