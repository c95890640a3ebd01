/** Powers of two and their divisors. */
module Powers {
  import opened Words

  ghost predicate IsPowerOfTwo(n: nat) {
    exists a: nat :: n == Pow(2, a)
  }

  lemma TwoTo64()
    ensures Pow(2, 64) == TWO64
  {
    EighthPower(2, 8);
    assert Pow(2, 8) == 256;
  }

  lemma EighthPower(b: nat, e: nat)
    ensures var p := Pow(b, e) * Pow(b, e); Pow(b, 8 * e) == p * p * (p * p)
  {
    PowAdds(b, 4 * e, 4 * e);
    PowAdds(b, 2 * e, 2 * e);
    PowAdds(b, e, e);
  }

  /** The factors of a power of two are powers of two. */
  lemma {:induction false} FactorOfPower(m: nat, q: nat, t: nat)
    requires m * q == Pow(2, t)
    ensures IsPowerOfTwo(m)
    decreases t
  {
    if t == 0 {
      UnitFactor(m, q);
      assert m == Pow(2, 0);
    } else if m % 2 == 0 {
      Halves(m, m / 2, q, Pow(2, t - 1));
      FactorOfPower(m / 2, q, t - 1);
      var a: nat :| m / 2 == Pow(2, a);
      assert m == Pow(2, a + 1);
    } else {
      EvenFactor(m, q, Pow(2, t - 1));
      Halves(q, q / 2, m, Pow(2, t - 1));
      FactorOfPower(m, q / 2, t - 1);
    }
  }

  lemma UnitFactor(m: nat, q: nat)
    requires m * q == 1
    ensures m == 1
  {
    if m > 1 && q > 0 {
      MulOrder(1, m, q);
    }
  }

  lemma Halves(m: nat, h: nat, q: nat, p: nat)
    requires m == 2 * h && m * q == 2 * p
    ensures h * q == p && q * h == p
  {
    assert m * q == 2 * (h * q);
  }

  lemma EvenFactor(m: nat, q: nat, p: nat)
    requires m % 2 == 1 && m * q == 2 * p
    ensures q % 2 == 0
  {
    assert m * q == 2 * (m / 2 * q) + q;
  }

  lemma PowInjective(i: nat, j: nat)
    requires Pow(2, i) == Pow(2, j)
    ensures i == j
  {
    if i < j {
      PowGrows(i, j);
    } else if j < i {
      PowGrows(j, i);
    }
  }

  lemma {:induction false} PowGrows(i: nat, j: nat)
    requires i < j
    ensures Pow(2, i) < Pow(2, j)
  {
    PowMonotone(2, i, j - 1);
  }

  /** The bases below 2^64 of which some power is 2^64. */
  predicate IsRootOf64(n: nat) {
    n in {2, 4, 16, 256, 0x1_0000, 0x1_0000_0000}
  }

  lemma RootExponent(n: nat) returns (e: nat)
    requires IsRootOf64(n)
    ensures e >= 2 && Pow(n, e) == TWO64
  {
    TwoTo64();
    SmallTwos();
    var a := if n == 2 then 1 else if n == 4 then 2 else if n == 16 then 4
             else if n == 256 then 8 else if n == 0x1_0000 then 16 else 32;
    e := 64 / a;
    assert a * e == 64;
    PowMul(2, a, e);
  }

  lemma SmallTwos()
    ensures Pow(2, 1) == 2 && Pow(2, 2) == 4 && Pow(2, 4) == 16 && Pow(2, 8) == 256
    ensures Pow(2, 16) == 0x1_0000 && Pow(2, 32) == 0x1_0000_0000
  {
    PowAdds(2, 8, 8);
    PowAdds(2, 16, 16);
  }

  lemma OnlyRoots(n: nat, j: nat)
    requires n < TWO64 && Pow(n, j) == TWO64
    ensures IsRootOf64(n)
  {
    TwoTo64();
    assert j > 0;
    FactorOfPower(n, Pow(n, j - 1), 64);
    var a: nat :| n == Pow(2, a);
    PowMul(2, a, j);
    PowInjective(a * j, 64);
    SmallTwos();
    assert 64 == Pow(2, 6);
    FactorOfPower(a, j, 6);
    var b: nat :| a == Pow(2, b);
    if b >= 6 {
      PowMonotone(2, 6, b);
      PowMonotone(2, 64, a);
    } else {
      Exponents(a, b);
    }
  }

  lemma Exponents(a: nat, b: nat)
    requires b < 6 && a == Pow(2, b)
    ensures IsRootOf64(Pow(2, a))
  {
    SmallTwos();
    SmallExponents(b);
    hide Pow;
  }

  lemma SmallExponents(b: nat)
    requires b < 6
    ensures Pow(2, b) in {1, 2, 4, 8, 16, 32}
  {
    assert Pow(2, 0) == 1 && Pow(2, 3) == 8 && Pow(2, 5) == 32;
    SmallTwos();
  }
}
