/** How many base-n digits one word yields: the table behind the batched
    sampler. */
module Batch {
  import opened Words
  import opened Powers

  datatype BatchSpec = BatchSpec(prod: Word, k: nat)

  /** The words that a batch of k base-n digits rejects: 2^64 mod n^k. */
  function Wasted(n: nat, k: nat): (w: nat)
    requires n > 0
    ensures w < Pow(n, k)
  {
    TWO64 % Pow(n, k)
  }

  /** What the table promises for base n: k is the largest exponent whose power
      fits a word and that wastes at most one word in sixteen, or 1 when there
      is no such exponent. */
  ghost predicate IsBatchSpec(n: Word, s: BatchSpec) {
    if n < 2 then s == BatchSpec(1, 64)
    else
      && s.k >= 1
      && s.prod == Pow(n, s.k)
      && (s.k == 1 || Wasted(n, s.k) <= TWO60)
      && forall j {:trigger Wasted(n, j)} | j > s.k && Pow(n, j) < TWO64 :: Wasted(n, j) > TWO60
  }

  /** The largest exponent from k on whose power fits a word. */
  function Exponent(n: Word, k: nat): (e: nat)
    requires n >= 2 && Pow(n, k) < TWO64
    ensures e >= k && Pow(n, e) < TWO64 <= Pow(n, e + 1)
    decreases TWO64 - Pow(n, k)
  {
    MulOrder(1, n, Pow(n, k));
    if Pow(n, k + 1) < TWO64 then Exponent(n, k + 1) else k
  }

  /** The exponent after dropping those that waste too many words. */
  function Reduce(n: Word, k: nat): (e: nat)
    requires n >= 2 && Pow(n, k) < TWO64
    ensures e <= k && Pow(n, e) < TWO64
    ensures k >= 1 ==> e >= 1
    ensures e <= 1 || Wasted(n, e) <= TWO60
    ensures forall j | e < j <= k :: Wasted(n, j) > TWO60
  {
    if k > 1 && Wasted(n, k) > TWO60 then
      PowMonotone(n, k - 1, k);
      Reduce(n, k - 1)
    else k
  }

  /** The entry for base n. */
  function BatchOf(n: Word): BatchSpec {
    if n < 2 then BatchSpec(1, 64)
    else
      var k := Reduce(n, Exponent(n, 0));
      BatchSpec(Pow(n, k), k)
  }

  lemma BatchOfMeets(n: Word)
    ensures IsBatchSpec(n, BatchOf(n))
  {
    if n >= 2 {
      BeyondTop(n, Exponent(n, 0));
      AtLeastOne(n);
    }
  }

  lemma AtLeastOne(n: Word)
    requires n >= 2
    ensures Exponent(n, 0) >= 1
  {
    assert Pow(n, 1) == n * Pow(n, 0) == n;
  }

  lemma BeyondTop(n: Word, top: nat)
    requires n >= 2 && Pow(n, top + 1) >= TWO64
    ensures forall j: nat | Pow(n, j) < TWO64 :: j <= top
  {
    forall j: nat | Pow(n, j) < TWO64
      ensures j <= top
    {
      if j > top {
        PowMonotone(n, top + 1, j);
      }
    }
  }

  /** The promise determines the entry. */
  lemma BatchSpecUnique(n: Word, s: BatchSpec)
    requires IsBatchSpec(n, s)
    ensures s == BatchOf(n)
  {
    BatchOfMeets(n);
    if n >= 2 {
      var b := BatchOf(n);
      var mine, other := Wasted(n, s.k), Wasted(n, b.k);
    }
  }

  /** Up to base 2^60 no entry wastes more than one word in sixteen. */
  lemma BatchEfficient(n: Word)
    requires 2 <= n <= TWO60
    ensures Wasted(n, BatchOf(n).k) <= TWO60
  {
    BatchOfMeets(n);
    assert Pow(n, 1) == n * Pow(n, 0) == n;
    assert Wasted(n, 1) < n;
  }

  // ---------- what the comment on newBatchSpec says ----------

  /** "The largest k with n^k <= 2^64". */
  ghost predicate LargestFitting(n: nat, k: nat) {
    && Pow(n, k) <= TWO64
    && forall j: nat | Pow(n, j) <= TWO64 :: j <= k
  }

  /** "Reduced while more than one word in sixteen would be rejected". */
  ghost predicate DocumentedBatch(n: nat, k: nat)
    requires n > 0
  {
    && k >= 1 && Pow(n, k) <= TWO64
    && (k == 1 || Wasted(n, k) <= TWO60)
    && forall j: nat {:trigger Wasted(n, j)} | j > k && Pow(n, j) <= TWO64 :: Wasted(n, j) > TWO60
  }

  /** The exponent before the reduction is the documented one exactly when no
      power of the base is 2^64. */
  lemma ExponentDocumented(n: Word)
    requires n >= 2
    ensures LargestFitting(n, Exponent(n, 0)) <==> !IsRootOf64(n)
  {
    var e := Exponent(n, 0);
    BeyondTop(n, e);
    if IsRootOf64(n) {
      var j := RootExponent(n);
      if j <= e {
        PowMonotone(n, j, e);
      }
    } else {
      forall j: nat | Pow(n, j) <= TWO64
        ensures j <= e
      {
        if Pow(n, j) == TWO64 {
          OnlyRoots(n, j);
        }
      }
    }
  }

  /** And so is the table entry. */
  lemma BatchDocumented(n: Word)
    requires n >= 2
    ensures DocumentedBatch(n, BatchOf(n).k) <==> !IsRootOf64(n)
  {
    BatchOfMeets(n);
    hide BatchOf;
    var k := BatchOf(n).k;
    if IsRootOf64(n) {
      var j := RootExponent(n);
      if j <= k {
        PowMonotone(n, j, k);
      }
      assert Wasted(n, j) == 0;
    } else {
      forall j: nat | j > k && Pow(n, j) <= TWO64
        ensures Wasted(n, j) > TWO60
      {
        if Pow(n, j) == TWO64 {
          OnlyRoots(n, j);
        }
      }
    }
  }

  /** For base 2 the comment asks for 64 digits, and the code takes 63. */
  lemma BaseTwo()
    ensures Exponent(2, 0) == 63 == BatchOf(2).k
    ensures LargestFitting(2, 64) && DocumentedBatch(2, 64)
  {
    TwoTo64();
    var e := Exponent(2, 0);
    assert Pow(2, 64) == 2 * Pow(2, 63);
    if e < 63 {
      PowMonotone(2, e + 1, 63);
    } else if e > 63 {
      PowMonotone(2, 64, e);
    }
    forall j: nat | Pow(2, j) <= TWO64
      ensures j <= 64
    {
      if j > 64 {
        PowGrows(64, j);
      }
    }
    PowAdds(2, 1, 63);
    DivModUnique(TWO64, Pow(2, 63), 2, 0);
    DivModUnique(TWO64, Pow(2, 64), 1, 0);
    assert Wasted(2, 63) == 0 && Wasted(2, 64) == 0;
  }

  /** Exactly when at most one word in sixteen is rejected. */
  lemma BatchEfficientWhen(n: Word)
    requires n > 0
    ensures Wasted(n, BatchOf(n).k) <= TWO60 <==> n <= TWO60 || TWO64 % n <= TWO60
  {
    BatchOfMeets(n);
    hide BatchOf;
    var k := BatchOf(n).k;
    assert Pow(n, 1) == n * Pow(n, 0) == n;
    if n == 1 {
      assert Wasted(n, k) < Pow(n, k);
      PowOfOne(k);
    } else if k > 1 {
      PowMonotone(n, 2, k);
      assert Pow(n, 2) == n * Pow(n, 1);
      if n > TWO60 {
        MulOrder(TWO60, n, n);
      }
    } else {
      assert Wasted(n, 1) < n;
    }
  }

  lemma PowOfOne(e: nat)
    ensures Pow(1, e) == 1
  {
  }

  /** A base for which almost half of all words are rejected. */
  lemma InefficientBase()
    ensures Wasted(TWO63 + 1, BatchOf(TWO63 + 1).k) == TWO63 - 1 > TWO60
  {
    var n: Word := TWO63 + 1;
    BatchOfMeets(n);
    hide BatchOf;
    var k := BatchOf(n).k;
    assert Pow(n, 1) == n * Pow(n, 0) == n;
    assert Pow(n, 2) == n * Pow(n, 1);
    if k > 1 {
      PowMonotone(n, 2, k);
    }
  }

  method NewBatchSpec(n: Word) returns (s: BatchSpec)
    ensures s == BatchOf(n)
  {
    if n < 2 {
      return BatchSpec(1, 64);
    }
    var prod, k := LargestPower(n);
    while k > 1 && Threshold(prod) > TWO60
      invariant prod == Pow(n, k) && prod < TWO64
      invariant Reduce(n, k) == Reduce(n, Exponent(n, 0))
    {
      OneLess(n, k);
      prod, k := prod / n, k - 1;
    }
    s := BatchSpec(prod, k);
  }

  lemma OneLess(n: Word, k: nat)
    requires n >= 2 && k > 1 && Pow(n, k) < TWO64
    ensures Pow(n, k) / n == Pow(n, k - 1) < TWO64
    ensures Wasted(n, k) > TWO60 ==> Reduce(n, k) == Reduce(n, k - 1)
  {
    PowMonotone(n, k - 1, k);
    DivModUnique(Pow(n, k), n, Pow(n, k - 1), 0);
  }

  method LargestPower(n: Word) returns (prod: Word, k: nat)
    requires n >= 2
    ensures k == Exponent(n, 0) && prod == Pow(n, k)
  {
    prod, k := 1, 0;
    while true
      invariant prod == Pow(n, k) && prod < TWO64
      invariant Exponent(n, k) == Exponent(n, 0)
      decreases TWO64 - prod
    {
      var hi, lo := Hi(prod, n), Lo(prod, n);
      NextPower(n, k);
      if hi != 0 {
        break;
      }
      prod, k := lo, k + 1;
    }
  }

  lemma NextPower(n: Word, k: nat)
    requires n >= 2 && Pow(n, k) < TWO64
    ensures Pow(n, k) < Pow(n, k + 1)
    ensures Hi(Pow(n, k), n) == 0 ==> Lo(Pow(n, k), n) == Pow(n, k + 1)
    ensures Hi(Pow(n, k), n) == 0 <==> Pow(n, k + 1) < TWO64
  {
    HalvesOfProduct(Pow(n, k), n);
    MulOrder(1, n, Pow(n, k));
  }

  lemma HalvesOfProduct(x: Word, n: Word)
    ensures Hi(x, n) * TWO64 + Lo(x, n) == x * n
    ensures Hi(x, n) == 0 <==> x * n < TWO64
  {
    DivBounds(x * n, TWO64);
    DivBelow(x * n, TWO64, 1);
    MulOrder(-1, Hi(x, n), TWO64);
  }

  /** The precomputed table for every base up to 256. */
  method BatchSpecs() returns (specs: seq<BatchSpec>)
    ensures |specs| == 257
    ensures forall n | 0 <= n <= 256 :: specs[n] == BatchOf(n)
  {
    specs := [];
    for n := 0 to 257
      invariant |specs| == n
      invariant forall m | 0 <= m < n :: specs[m] == BatchOf(m)
    {
      var s := NewBatchSpec(n);
      specs := specs + [s];
    }
  }
}
