/** Unsigned 64-bit words as integers, and how many words multiply-and-shift
    sampling sends to each result. */
module Words {
  import opened Wrappers

  const TWO60: int := 0x1000_0000_0000_0000
  const TWO63: int := 0x8000_0000_0000_0000
  const TWO64: int := 0x1_0000_0000_0000_0000

  type Word = x: int | 0 <= x < 0x1_0000_0000_0000_0000

  /** The high half of the 128-bit product (bits.Mul64). */
  function Hi(x: Word, n: Word): (hi: Word)
    ensures n > 0 ==> hi < n
  {
    HighHalfBound(x, n);
    x * n / TWO64
  }

  /** The low half of the 128-bit product (bits.Mul64). */
  function Lo(x: Word, n: Word): Word {
    x * n % TWO64
  }

  /** Multiplication of uint64 values. */
  function WrapMul(a: Word, b: Word): Word {
    a * b % TWO64
  }

  /** The rejection threshold -n % n, computed with a wrapping negation. */
  function Threshold(n: Word): (t: Word)
    requires n > 0
    ensures t == TWO64 % n
  {
    DivModUnique(TWO64, n, (TWO64 - n) / n + 1, (TWO64 - n) % n);
    ((TWO64 - n) % TWO64) % n
  }

  function Pow(b: nat, e: nat): (p: nat)
    ensures b > 0 ==> p > 0
  {
    if e == 0 then 1 else b * Pow(b, e - 1)
  }

  // ---------- arithmetic ----------

  lemma MulOrder(a: int, b: int, z: int)
    requires z > 0
    ensures a < b <==> a * z < b * z
    ensures a <= b <==> a * z <= b * z
  {
    assert (b - a) * z == b * z - a * z;
    if a < b {
      assert (b - a) * z >= 1;
    } else {
      assert (a - b) * z >= 0;
    }
  }

  lemma MulSucc(a: int, z: int)
    ensures (a + 1) * z == a * z + z
  {
  }

  lemma HighHalfBound(x: Word, n: Word)
    ensures 0 <= x * n / TWO64 < TWO64
    ensures n > 0 ==> x * n / TWO64 < n
  {
    assert x * n >= 0;
    if n > 0 {
      MulOrder(x, TWO64, n);
      DivBelow(x * n, TWO64, n);
    }
  }

  lemma DivBelow(a: int, m: int, n: int)
    requires m > 0
    ensures a < n * m <==> a / m < n
  {
    DivBounds(a, m);
    MulOrder(a / m, n, m);
    MulOrder(n, a / m + 1, m);
  }

  lemma DivBounds(a: int, m: int)
    requires m > 0
    ensures (a / m) * m <= a < (a / m + 1) * m
    ensures a == (a / m) * m + a % m
  {
    assert (a / m + 1) * m == (a / m) * m + m;
  }

  /** Quotient and remainder are determined by the division equation. */
  lemma DivModUnique(a: int, n: int, q: int, r: int)
    requires n > 0 && a == q * n + r && 0 <= r < n
    ensures a / n == q && a % n == r
  {
    assert (q + 1) * n == q * n + n;
    DivBelow(a, n, q + 1);
    DivBelow(a, n, q);
    DivBounds(a, n);
  }

  lemma {:induction false} PowMonotone(b: nat, i: nat, j: nat)
    requires b > 0 && i <= j
    ensures 0 < Pow(b, i) <= Pow(b, j)
    decreases j
  {
    if i < j {
      PowMonotone(b, i, j - 1);
      MulOrder(1, b, Pow(b, j - 1));
    } else if i > 0 {
      PowMonotone(b, i - 1, i - 1);
    }
  }

  lemma {:induction false} PowAdds(b: nat, i: nat, j: nat)
    ensures Pow(b, i + j) == Pow(b, i) * Pow(b, j)
  {
    if i > 0 {
      PowAdds(b, i - 1, j);
      MulAssociates(b, Pow(b, i - 1), Pow(b, j));
    }
  }

  lemma MulAssociates(a: int, b: int, c: int)
    ensures a * (b * c) == (a * b) * c
  {
  }

  lemma {:induction false} PowMul(b: nat, i: nat, j: nat)
    requires b > 0
    ensures Pow(Pow(b, i), j) == Pow(b, i * j)
  {
    if j > 0 {
      PowMul(b, i, j - 1);
      PowAdds(b, i, i * (j - 1));
      assert i + i * (j - 1) == i * j;
    }
  }

  // ---------- counting words ----------

  ghost function Between(lo: int, hi: int): (s: set<int>)
    ensures forall x :: x in s <==> lo <= x < hi
    ensures lo <= hi ==> |s| == hi - lo
    decreases hi - lo
  {
    if lo >= hi then {} else Between(lo, hi - 1) + {hi - 1}
  }

  predicate InWord(x: int) {
    0 <= x < TWO64
  }

  ghost function AllWords(): (s: set<Word>)
    ensures forall x: Word :: x in s
  {
    set x: Word | InWord(x)
  }

  lemma IntervalCard(s: set<Word>, a: int, b: int)
    requires 0 <= a <= b <= TWO64
    requires forall x: Word :: x in s <==> a <= x < b
    ensures |s| == b - a
  {
    assert s == Between(a, b);
  }

  lemma UnionCard<T(!new)>(a: set<T>, b: set<T>, s: set<T>)
    requires forall x: T :: x in s <==> x in a || x in b
    requires forall x: T :: !(x in a && x in b)
    ensures |s| == |a| + |b|
  {
    assert s == a + b;
  }

  /** The words that a sampler h sends to v. */
  ghost function Fiber<T>(h: Word -> T, v: T): set<Word> {
    set x: Word | x in AllWords() && h(x) == v
  }

  ghost function AcceptedBelow(h: Word -> Option<int>, v: int): set<Word> {
    set x: Word | x in AllWords() && h(x).Some? && h(x).value < v
  }

  /** When every result below n has q words, n * q words are accepted and all
      the others are rejected. */
  lemma RejectedFiber(h: Word -> Option<int>, n: nat, q: int)
    requires forall x: Word :: h(x).Some? ==> 0 <= h(x).value < n
    requires forall v | 0 <= v < n :: |Fiber(h, Some(v))| == q
    ensures |Fiber(h, None)| == TWO64 - n * q
  {
    AcceptedBelowCard(h, n, n, q);
    IntervalCard(AllWords(), 0, TWO64);
    assert AllWords() == AcceptedBelow(h, n) + Fiber(h, None);
  }

  lemma {:induction false} AcceptedBelowCard(h: Word -> Option<int>, n: nat, v: nat, q: int)
    requires forall x: Word :: h(x).Some? ==> 0 <= h(x).value < n
    requires forall v | 0 <= v < n :: |Fiber(h, Some(v))| == q
    requires v <= n
    ensures |AcceptedBelow(h, v)| == v * q
  {
    if v == 0 {
      NoneBelowZero(h, n);
    } else {
      AcceptedBelowCard(h, n, v - 1, q);
      OneMoreResult(h, v - 1);
      MulSucc(v - 1, q);
    }
  }

  lemma NoneBelowZero(h: Word -> Option<int>, n: nat)
    requires forall x: Word :: h(x).Some? ==> 0 <= h(x).value < n
    ensures |AcceptedBelow(h, 0)| == 0
  {
    assert AcceptedBelow(h, 0) == {};
  }

  lemma OneMoreResult(h: Word -> Option<int>, v: int)
    ensures |AcceptedBelow(h, v + 1)| == |AcceptedBelow(h, v)| + |Fiber(h, Some(v))|
  {
    assert AcceptedBelow(h, v + 1) == AcceptedBelow(h, v) + Fiber(h, Some(v));
  }

  /** The first q numbers that are r modulo m. */
  ghost function Residues(m: nat, r: nat, q: nat): (s: set<int>)
    requires r < m
  {
    if q == 0 then {} else Residues(m, r, q - 1) + {(q - 1) * m + r}
  }

  lemma {:induction false} InResidues(m: nat, r: nat, q: nat, x: int)
    requires r < m
    ensures x in Residues(m, r, q) <==> 0 <= x < q * m && x % m == r
  {
    if q > 0 {
      InResidues(m, r, q - 1, x);
      MulSucc(q - 1, m);
      if (q - 1) * m <= x < (q - 1) * m + m {
        DivModUnique(x, m, q - 1, x - (q - 1) * m);
      } else if x == (q - 1) * m + r {
      }
      ResidueOf(m, r, q - 1);
    }
  }

  lemma ResidueOf(m: nat, r: nat, q: nat)
    requires r < m
    ensures 0 <= q * m + r && (q * m + r) % m == r
  {
    DivModUnique(q * m + r, m, q, r);
  }

  lemma {:induction false} ResiduesCard(m: nat, r: nat, q: nat)
    requires r < m
    ensures |Residues(m, r, q)| == q
  {
    if q > 0 {
      ResiduesCard(m, r, q - 1);
      InResidues(m, r, q - 1, (q - 1) * m + r);
    }
  }

  // ---------- multiply, shift, reject ----------

  /** Lemire's method on one word: the high half of x * n, or None when the
      low half falls below 2^64 mod n. */
  function MulShift(n: Word, x: Word): (r: Option<int>)
    requires n > 0
    ensures r.Some? ==> 0 <= r.value < n
  {
    if Lo(x, n) < Threshold(n) then None else Some(Hi(x, n))
  }

  /** MulShift as a sampler. */
  function Lemire(n: Word): Word -> Option<int>
    requires n > 0
  {
    (x: Word) => MulShift(n, x)
  }

  /** Dropping the first m % n places of block v of length m leaves exactly
      m / n multiples of n, at consecutive multipliers from a on. */
  lemma BlockStart(n: int, m: int, v: int) returns (a: int)
    requires 0 < n <= m && 0 <= v < n
    ensures 0 <= a && a + m / n <= m
    ensures v * m + m % n <= a * n < v * m + m % n + n
  {
    var t, q := m % n, m / n;
    var low := v * m + t;
    a := (low + n - 1) / n;
    DivBounds(low + n - 1, n);
    DivBounds(m, n);
    assert (a + 1) * n == a * n + n;
    MulOrder(0, v + 1, m);
    MulOrder(-1, a, n);
    assert (a + q - 1) * n == a * n + q * n - n;
    assert (v + 1) * m == v * m + m;
    MulOrder(v + 1, n, m);
    MulOrder(a + q - 1, m, n);
  }

  lemma InBlock(n: int, m: int, v: int, a: int, x: int)
    requires 0 < n <= m
    requires v * m + m % n <= a * n < v * m + m % n + n
    ensures a <= x < a + m / n <==> x * n / m == v && x * n % m >= m % n
  {
    var q := m / n;
    DivBounds(m, n);
    DivBounds(x * n, m);
    assert (v + 1) * m == v * m + m;
    assert (a + q) * n == a * n + q * n;
    assert (a - 1) * n == a * n - n;
    assert (a + q - 1) * n == a * n + q * n - n;
    MulOrder(a, x, n);
    MulOrder(x, a - 1, n);
    MulOrder(x, a + q - 1, n);
    MulOrder(a + q, x, n);
    if v * m + m % n <= x * n < (v + 1) * m {
      DivModUnique(x * n, m, v, x * n - v * m);
    }
  }

  lemma MulShiftWhen(n: Word, v: int, a: int, x: Word)
    requires 0 < n && 0 <= v < n
    requires v * TWO64 + TWO64 % n <= a * n < v * TWO64 + TWO64 % n + n
    ensures MulShift(n, x) == Some(v) <==> a <= x < a + TWO64 / n
  {
    InBlock(n, TWO64, v, a, x);
  }

  /** Exactness: for each result exactly floor(2^64 / n) words are accepted,
      and they are consecutive. */
  lemma MulShiftExact(n: Word, v: int)
    requires 0 < n && 0 <= v < n
    ensures |Fiber(Lemire(n), Some(v))| == TWO64 / n >= 1
  {
    var q := TWO64 / n;
    DivBounds(TWO64, n);
    MulOrder(0, q, n);
    var a := BlockStart(n, TWO64, v);
    forall x: Word
      ensures MulShift(n, x) == Some(v) <==> a <= x < a + q
    {
      MulShiftWhen(n, v, a, x);
    }
    IntervalCard(Fiber(Lemire(n), Some(v)), a, a + q);
  }

  /** The remaining 2^64 mod n words are exactly the rejected ones. */
  lemma MulShiftRejects(n: Word)
    requires 0 < n
    ensures |Fiber(Lemire(n), None)| == TWO64 % n
  {
    forall v | 0 <= v < n
      ensures |Fiber(Lemire(n), Some(v))| == TWO64 / n
    {
      MulShiftExact(n, v);
    }
    DivBounds(TWO64, n);
    RejectedFiber(Lemire(n), n, TWO64 / n);
  }
}
