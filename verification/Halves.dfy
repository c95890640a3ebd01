/** Samplers that take a 32-bit candidate from the halves of a word. */
module Halves {
  import opened Wrappers
  import opened Words

  const TWO32: nat := 0x1_0000_0000

  /** A candidate in the low half of the word, else in the high half. */
  function FirstHalf(ok: int -> bool): Word -> Option<int> {
    (x: Word) =>
      if ok(x % TWO32) then Some(x % TWO32)
      else if ok(x / TWO32) then Some(x / TWO32)
      else None
  }

  /** A candidate in the low half of the word only. */
  function LowHalf(ok: int -> bool): Word -> Option<int> {
    (x: Word) => if ok(x % TWO32) then Some(x % TWO32) else None
  }

  /** The numbers below n that are no candidates. */
  ghost function Others(ok: int -> bool, n: nat): (s: set<int>)
    ensures forall a :: a in s <==> 0 <= a < n && !ok(a)
  {
    if n == 0 then {}
    else if ok(n - 1) then Others(ok, n - 1)
    else Others(ok, n - 1) + {n - 1}
  }

  /** A set moved by k. */
  ghost function Moved(s: set<int>, k: int): (r: set<int>)
    ensures forall a :: a in r <==> a - k in s
  {
    set a | a in s :: a + k
  }

  lemma {:induction false} MovedCard(s: set<int>, k: int)
    ensures |Moved(s, k)| == |s|
    decreases |s|
  {
    if a :| a in s {
      MovedCard(s - {a}, k);
      MovedOneMore(s, k, a);
    } else {
      assert forall a :: a !in s;
      assert s == {} && Moved(s, k) == {};
    }
  }

  lemma MovedOneMore(s: set<int>, k: int, a: int)
    requires a in s
    ensures |Moved(s, k)| == |Moved(s - {a}, k)| + 1
  {
    assert Moved(s, k) == Moved(s - {a}, k) + {a + k};
  }

  lemma FirstHalfMember(ok: int -> bool, m: nat, v: int, x: int)
    requires m == TWO32 && 0 <= v < m && ok(v)
    ensures InWord(x) && FirstHalf(ok)(x) == Some(v) <==>
              x in Residues(m, v, m) || x in Moved(Others(ok, m), v * m)
    ensures !(x in Residues(m, v, m) && x in Moved(Others(ok, m), v * m))
  {
    InResidues(m, v, m, x);
    DivBounds(x, m);
    if 0 <= x - v * m < m {
      DivModUnique(x, m, v, x - v * m);
    }
  }

  lemma SplitCard(s: set<Word>, a: set<int>, b: set<int>)
    requires forall x: int :: (InWord(x) && x in s) <==> x in a || x in b
    requires a !! b
    ensures |s| == |a| + |b|
  {
    assert forall x: int | x in a + b :: InWord(x);
    var u: set<Word> := a + b;
    assert s == u;
  }

  /** The words that give v: v in the low half, or v in the high half over a
      low half that is no candidate. */
  lemma FirstHalfWords(ok: int -> bool, m: nat, v: int)
    requires m == TWO32 && 0 <= v < m && ok(v)
    ensures forall x: int :: (InWord(x) && x in Fiber(FirstHalf(ok), Some(v))) <==>
              x in Residues(m, v, m) || x in Moved(Others(ok, m), v * m)
    ensures Residues(m, v, m) !! Moved(Others(ok, m), v * m)
  {
    hide Residues, Moved, Others, FirstHalf;
    var a, b := Residues(m, v, m), Moved(Others(ok, m), v * m);
    forall x: int
      ensures (InWord(x) && x in Fiber(FirstHalf(ok), Some(v))) <==> x in a || x in b
      ensures !(x in a && x in b)
    {
      FirstHalfMember(ok, m, v, x);
    }
  }

  /** Every candidate has the same number of words. */
  lemma FirstHalfCard(ok: int -> bool, m: nat, v: int)
    requires m == TWO32 && 0 <= v < m && ok(v)
    ensures |Fiber(FirstHalf(ok), Some(v))| == m + |Others(ok, m)|
  {
    hide *;
    FirstHalfWords(ok, m, v);
    SplitCard(Fiber(FirstHalf(ok), Some(v)), Residues(m, v, m), Moved(Others(ok, m), v * m));
    ResiduesCard(m, v, m);
    MovedCard(Others(ok, m), v * m);
  }

  lemma LowHalfCard(ok: int -> bool, m: nat, v: int)
    requires m == TWO32 && 0 <= v < m && ok(v)
    ensures |Fiber(LowHalf(ok), Some(v))| == m
  {
    hide Residues;
    var s, a := Fiber(LowHalf(ok), Some(v)), Residues(m, v, m);
    forall x: int
      ensures (InWord(x) && x in s) <==> x in a || x in {}
    {
      InResidues(m, v, m, x);
    }
    SplitCard(s, a, {});
    ResiduesCard(m, v, m);
  }
}
