/** Peeling base-n digits from one word by chained multiplications. */
module Digits {
  import opened Wrappers
  import opened Words

  /** The digits that d chained multiplications of x peel off. */
  function Peeled(x: Word, n: Word, d: nat): (ds: seq<nat>)
    ensures |ds| == d
    decreases d
  {
    if d == 0 then [] else [Hi(x, n)] + Peeled(Lo(x, n), n, d - 1)
  }

  /** The low product half that is left after them. */
  function Left(x: Word, n: Word, d: nat): Word
    decreases d
  {
    if d == 0 then x else Left(Lo(x, n), n, d - 1)
  }

  predicate AreDigits(n: nat, ds: seq<nat>) {
    forall i | 0 <= i < |ds| :: ds[i] < n
  }

  /** The digits read in base n, most significant first. */
  function Value(n: nat, ds: seq<nat>): nat {
    if ds == [] then 0 else ds[0] * Pow(n, |ds| - 1) + Value(n, ds[1..])
  }

  lemma {:induction false} PeeledAreDigits(x: Word, n: Word, d: nat)
    requires n > 0
    ensures AreDigits(n, Peeled(x, n, d))
    decreases d
  {
    if d > 0 {
      PeeledAreDigits(Lo(x, n), n, d - 1);
    }
  }

  /** The chained multiplication invariant. */
  lemma {:induction false} PeelInvariant(x: Word, n: Word, d: nat)
    ensures x * Pow(n, d) == Value(n, Peeled(x, n, d)) * TWO64 + Left(x, n, d)
    decreases d
  {
    if d > 0 {
      var hi, lo, p := Hi(x, n), Lo(x, n), Pow(n, d - 1);
      PeelInvariant(lo, n, d - 1);
      DivBounds(x * n, TWO64);
      var ds := Peeled(x, n, d);
      assert ds[0] == hi && ds[1..] == Peeled(lo, n, d - 1);
      PeelStep(x, n, p, hi, lo, Value(n, ds[1..]), Left(x, n, d));
    }
  }

  lemma PeelStep(x: int, n: int, p: int, hi: int, lo: int, v: int, left: int)
    requires x * n == hi * TWO64 + lo
    requires lo * p == v * TWO64 + left
    ensures x * (n * p) == (hi * p + v) * TWO64 + left
  {
    assert x * (n * p) == (x * n) * p;
    assert (hi * TWO64 + lo) * p == (hi * p) * TWO64 + lo * p;
  }

  lemma {:induction false} ValueBound(n: nat, ds: seq<nat>)
    requires AreDigits(n, ds)
    ensures Value(n, ds) < Pow(n, |ds|)
  {
    if ds != [] {
      var p := Pow(n, |ds| - 1);
      ValueBound(n, ds[1..]);
      MulOrder(ds[0] + 1, n, p);
      MulSucc(ds[0], p);
    }
  }

  /** Digits of one length are determined by their value. */
  lemma {:induction false} ValueInjective(n: nat, ds: seq<nat>, es: seq<nat>)
    requires AreDigits(n, ds) && AreDigits(n, es) && |ds| == |es|
    requires Value(n, ds) == Value(n, es)
    ensures ds == es
  {
    if ds != [] {
      var p := Pow(n, |ds| - 1);
      ValueBound(n, ds[1..]);
      ValueBound(n, es[1..]);
      DivModUnique(Value(n, ds), p, ds[0], Value(n, ds[1..]));
      DivModUnique(Value(n, es), p, es[0], Value(n, es[1..]));
      ValueInjective(n, ds[1..], es[1..]);
      assert ds == [ds[0]] + ds[1..] && es == [es[0]] + es[1..];
    }
  }

  /** Batched sampling is Lemire's method for n^d: the same words are rejected,
      and the accepted ones peel the digits of the sampled value. */
  lemma PeelIsMulShift(x: Word, n: Word, d: nat)
    requires n > 0 && Pow(n, d) < TWO64
    ensures MulShift(Pow(n, d), x)
         == if Left(x, n, d) < Threshold(Pow(n, d)) then None else Some(Value(n, Peeled(x, n, d)))
  {
    PeelInvariant(x, n, d);
    DivModUnique(x * Pow(n, d), TWO64, Value(n, Peeled(x, n, d)), Left(x, n, d));
  }

  lemma PeelsExactly(x: Word, n: Word, ds: seq<nat>)
    requires n > 0 && Pow(n, |ds|) < TWO64 && AreDigits(n, ds)
    ensures MulShift(Pow(n, |ds|), x) == Some(Value(n, ds))
       <==> Left(x, n, |ds|) >= Threshold(Pow(n, |ds|)) && Peeled(x, n, |ds|) == ds
  {
    PeelIsMulShift(x, n, |ds|);
    PeeledAreDigits(x, n, |ds|);
    if Value(n, Peeled(x, n, |ds|)) == Value(n, ds) {
      ValueInjective(n, Peeled(x, n, |ds|), ds);
    }
  }

  /** What one word does in a batch of d base-n digits. */
  function DrawDigits(x: Word, n: Word, d: nat): Option<seq<nat>>
    requires n > 0 && Pow(n, d) < TWO64
  {
    if Left(x, n, d) < Threshold(Pow(n, d)) then None else Some(Peeled(x, n, d))
  }

  /** DrawDigits as a sampler. */
  function Draws(n: Word, d: nat): Word -> Option<seq<nat>>
    requires n > 0 && Pow(n, d) < TWO64
  {
    (x: Word) => DrawDigits(x, n, d)
  }

  /** Every digit tuple is peeled from exactly floor(2^64 / n^d) accepted words. */
  lemma DigitsExact(n: Word, ds: seq<nat>)
    requires n > 0 && Pow(n, |ds|) < TWO64 && AreDigits(n, ds)
    ensures |Fiber(Draws(n, |ds|), Some(ds))| == TWO64 / Pow(n, |ds|) >= 1
  {
    var d, v := |ds|, Value(n, ds);
    ValueBound(n, ds);
    MulShiftExact(Pow(n, d), v);
    forall x: Word
      ensures DrawDigits(x, n, d) == Some(ds) <==> MulShift(Pow(n, d), x) == Some(v)
    {
      PeelsExactly(x, n, ds);
    }
    assert Fiber(Draws(n, d), Some(ds)) == Fiber(Lemire(Pow(n, d)), Some(v));
  }

  lemma DigitsRejects(n: Word, d: nat)
    requires n > 0 && Pow(n, d) < TWO64
    ensures |Fiber(Draws(n, d), None)| == TWO64 % Pow(n, d)
  {
    MulShiftRejects(Pow(n, d));
    forall x: Word
      ensures DrawDigits(x, n, d) == None <==> MulShift(Pow(n, d), x) == None
    {
      PeelIsMulShift(x, n, d);
    }
    assert Fiber(Draws(n, d), None) == Fiber(Lemire(Pow(n, d)), None);
  }
}
