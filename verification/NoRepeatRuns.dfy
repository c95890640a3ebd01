/** What runs of the batched sampler write: safety on every tape, the words
    behind a chosen batch, and which strings can be produced at all. */
module NoRepeatRuns {
  import opened Wrappers
  import opened Words
  import opened Tapes
  import opened Batch
  import opened NoRepeat
  import Digits
  import Number

  // ---------- safety ----------

  /** s' extends s within the requested length and repeats nothing new. */
  ghost predicate Extends(dict: string, length: nat, s: Sampler, s': Sampler) {
    && s.out <= s'.out
    && |s'.out| <= (if |s.out| <= length then length else |s.out|)
    && (NoRepeats(dict, s.out) ==> NoRepeats(dict, s'.out))
  }

  lemma {:induction false} PeelExtends(dict: string, length: nat, p: PeelState, budget: nat)
    requires UsableDict(dict) && ValidSampler(dict, p.s)
    ensures Extends(dict, length, p.s, Peel(dict, length, p, budget).s)
    decreases budget
  {
    if budget > 0 && |p.s.out| < length {
      PeelExtends(dict, length, PeelOne(dict, p), budget - 1);
    }
  }

  lemma {:induction false} ContinueSafe(dict: string, k: nat, length: nat, s: Sampler, tape: seq<Word>)
    requires UsableDict(dict) && ValidSampler(dict, s) && |s.out| <= length
    ensures var r := Continue(dict, k, length, s, tape);
      r.Some? ==> s.out <= r.value.0 && |r.value.0| == length && (NoRepeats(dict, s.out) ==> NoRepeats(dict, r.value.0))
    decreases |tape|
  {
    if |s.out| < length && tape != [] {
      PeelExtends(dict, length, PeelState(s, tape[0], 1), k);
      ContinueSafe(dict, k, length, AfterWord(dict, k, length, s, tape[0]), tape[1..]);
    }
  }

  function FillValue(dict: string, k: nat, length: nat, tape: seq<Word>): Option<string>
    requires UsableDict(dict)
  {
    Result(Fill(dict, k, length, tape))
  }

  /** On every tape, rejections and rollbacks included, a finished fill has the
      requested length, dictionary symbols only and no equal neighbours. */
  lemma FillSafe(dict: string, k: nat, length: nat, tape: seq<Word>)
    requires UsableDict(dict) && length > 0
    ensures var r := FillValue(dict, k, length, tape);
      r.Some? ==> |r.value| == length && NoRepeats(dict, r.value)
  {
    match Number.Bounded(|dict|, tape)
    case None =>
    case Some((i, rest)) =>
      ContinueSafe(dict, k, length, Start(dict, i), rest);
  }

  // ---------- a batch that writes every digit ----------

  function PlaceAll(dict: string, s: Sampler, ds: seq<nat>): (r: Sampler)
    requires UsableDict(dict) && ValidSampler(dict, s) && Digits.AreDigits(|dict| - 1, ds)
    ensures ValidSampler(dict, r)
    decreases |ds|
  {
    if ds == [] then s else PlaceAll(dict, Place(dict, s, ds[0]), ds[1..])
  }

  /** No digit of ds is skipped. */
  predicate AllWritten(dict: string, s: Sampler, ds: seq<nat>)
    requires UsableDict(dict) && ValidSampler(dict, s) && Digits.AreDigits(|dict| - 1, ds)
    decreases |ds|
  {
    ds != [] ==>
      var next := Place(dict, s, ds[0]);
      next != s && AllWritten(dict, next, ds[1..])
  }

  function Min(a: nat, b: nat): nat { if a <= b then a else b }

  /** The digits that a batch takes before its budget or the output ends. */
  function Taken(dict: string, length: nat, s: Sampler, lo: Word, budget: nat): (ds: seq<nat>)
    requires UsableDict(dict) && ValidSampler(dict, s)
    ensures |ds| <= budget && Digits.AreDigits(|dict| - 1, ds)
    decreases budget
  {
    if budget == 0 || |s.out| >= length then []
    else
      var n1 := |dict| - 1;
      [Hi(lo, n1)] + Taken(dict, length, Place(dict, s, Hi(lo, n1)), Lo(lo, n1), budget - 1)
  }

  /** A batch places the digits that it takes, and its product is exact. */
  lemma {:induction false} PeelTakes(dict: string, length: nat, p: PeelState, budget: nat)
    requires UsableDict(dict) && ValidSampler(dict, p.s)
    requires p.prod * Pow(|dict| - 1, budget) < TWO64
    ensures var ds := Taken(dict, length, p.s, p.lo, budget);
      && ds == Digits.Peeled(p.lo, |dict| - 1, |ds|)
      && p.prod * Pow(|dict| - 1, |ds|) < TWO64
      && Peel(dict, length, p, budget)
         == PeelState(PlaceAll(dict, p.s, ds), Digits.Left(p.lo, |dict| - 1, |ds|), p.prod * Pow(|dict| - 1, |ds|))
    decreases budget
  {
    if budget > 0 && |p.s.out| < length {
      NoOverflow(p.prod, |dict| - 1, Pow(|dict| - 1, budget - 1));
      PeelTakes(dict, length, PeelOne(dict, p), budget - 1);
      TakenStep(dict, length, p, budget);
    } else {
      AtMost(p.prod, Pow(|dict| - 1, budget));
    }
  }

  lemma TakenStep(dict: string, length: nat, p: PeelState, budget: nat)
    requires UsableDict(dict) && ValidSampler(dict, p.s)
    requires budget > 0 && |p.s.out| < length && WrapMul(p.prod, |dict| - 1) == p.prod * (|dict| - 1)
    ensures var next, ds := PeelOne(dict, p), Taken(dict, length, p.s, p.lo, budget);
      var es := Taken(dict, length, next.s, next.lo, budget - 1);
      && ds == [Hi(p.lo, |dict| - 1)] + es && ds[1..] == es
      && next.prod * Pow(|dict| - 1, |es|) == p.prod * Pow(|dict| - 1, |ds|)
  {
    var n1, es := |dict| - 1, Taken(dict, length, PeelOne(dict, p).s, PeelOne(dict, p).lo, budget - 1);
    assert (p.prod * n1) * Pow(n1, |es|) == p.prod * (n1 * Pow(n1, |es|));
  }

  lemma AtMost(prod: nat, q: nat)
    requires q > 0
    ensures prod <= prod * q
  {
  }

  /** One word: rejected or kept as a whole. */
  lemma FeedTakes(dict: string, k: nat, length: nat, s: Sampler, x: Word)
    requires UsableDict(dict) && ValidSampler(dict, s) && Pow(|dict| - 1, k) < TWO64
    ensures var ds := Taken(dict, length, s, x, k);
      && ds == Digits.Peeled(x, |dict| - 1, |ds|)
      && Pow(|dict| - 1, |ds|) < TWO64
      && Feed(dict, k, length, s, x)
         == if Digits.DrawDigits(x, |dict| - 1, |ds|) == None then None else Some(PlaceAll(dict, s, ds))
  {
    PeelTakes(dict, length, PeelState(s, x, 1), k);
  }

  /** Digits that are all written are taken up to the budget and the length. */
  lemma {:induction false} TakenWritten(dict: string, length: nat, s: Sampler, lo: Word, budget: nat, ds: seq<nat>)
    requires UsableDict(dict) && ValidSampler(dict, s) && |s.out| <= length
    requires |ds| == Min(budget, length - |s.out|) && ds == Digits.Peeled(lo, |dict| - 1, |ds|)
    requires Digits.AreDigits(|dict| - 1, ds) && AllWritten(dict, s, ds)
    ensures Taken(dict, length, s, lo, budget) == ds
    decreases budget
  {
    if ds != [] {
      TakenWritten(dict, length, Place(dict, s, ds[0]), Lo(lo, |dict| - 1), budget - 1, ds[1..]);
    }
  }

  lemma NoOverflow(prod: Word, n: Word, q: nat)
    requires q > 0 && prod * (n * q) < TWO64
    ensures WrapMul(prod, n) == prod * n
    ensures (prod * n) * q == prod * (n * q)
  {
    assert (prod * n) * q == prod * (n * q);
    assert 0 <= prod * n;
    assert prod * n <= (prod * n) * q;
  }

  // ---------- the digits that write given symbols ----------

  function IndexOf(dict: string, c: char): (i: nat)
    requires c in dict
    ensures i < |dict| && dict[i] == c
  {
    if dict[0] == c then 0 else 1 + IndexOf(dict[1..], c)
  }

  /** The digit that SkipPast shifts to idx. */
  function Unskip(idx: nat, lastIdx: nat): nat {
    if idx > lastIdx then idx - 1 else idx
  }

  lemma PlaceAt(dict: string, s: Sampler, idx: nat)
    requires UsableDict(dict) && ValidSampler(dict, s) && idx < |dict| && dict[idx] != dict[s.lastIdx]
    ensures Unskip(idx, s.lastIdx) < |dict| - 1
    ensures Place(dict, s, Unskip(idx, s.lastIdx)) == Sampler(s.out + [dict[idx]], idx)
  {
  }

  /** The symbols u can be written after position last without a repeat. */
  ghost predicate Follows(dict: string, last: nat, u: string)
    requires last < |dict|
    decreases |u|
  {
    u != [] ==> u[0] in dict && u[0] != dict[last] && Follows(dict, IndexOf(dict, u[0]), u[1..])
  }

  lemma {:induction false} NoRepeatsFollow(dict: string, last: nat, u: string)
    requires last < |dict| && NoRepeats(dict, u) && (u != [] ==> u[0] != dict[last])
    ensures Follows(dict, last, u)
    decreases |u|
  {
    if u != [] {
      assert forall i | 0 < i < |u[1..]| :: u[1..][i - 1] == u[i] && u[1..][i] == u[i + 1];
      NoRepeatsFollow(dict, IndexOf(dict, u[0]), u[1..]);
    }
  }

  /** The part of v that the next batch has to write. */
  function NextPart(k: nat, v: string, s: Sampler): string
    requires |s.out| <= |v|
  {
    v[|s.out|..|s.out| + Min(k, |v| - |s.out|)]
  }

  lemma NextPartFollows(dict: string, k: nat, v: string, s: Sampler)
    requires UsableDict(dict) && ValidSampler(dict, s) && s.out <= v && NoRepeats(dict, v)
    ensures Follows(dict, s.lastIdx, NextPart(k, v, s))
  {
    var u, n := NextPart(k, v, s), |s.out|;
    assert forall i | 0 <= i < |u| :: u[i] == v[n + i];
    assert v[n - 1] == s.out[n - 1];
    NoRepeatsFollow(dict, s.lastIdx, u);
  }

  ghost function TargetDigits(dict: string, last: nat, u: string): (ds: seq<nat>)
    requires UsableDict(dict) && last < |dict| && Follows(dict, last, u)
    ensures |ds| == |u| && Digits.AreDigits(|dict| - 1, ds)
    decreases |u|
  {
    if u == [] then []
    else
      var idx := IndexOf(dict, u[0]);
      [Unskip(idx, last)] + TargetDigits(dict, idx, u[1..])
  }

  lemma {:induction false} PlaceTarget(dict: string, s: Sampler, u: string)
    requires UsableDict(dict) && ValidSampler(dict, s) && Follows(dict, s.lastIdx, u)
    ensures AllWritten(dict, s, TargetDigits(dict, s.lastIdx, u))
    ensures PlaceAll(dict, s, TargetDigits(dict, s.lastIdx, u)).out == s.out + u
    decreases |u|
  {
    if u != [] {
      var idx := IndexOf(dict, u[0]);
      var next := Sampler(s.out + [u[0]], idx);
      PlaceAt(dict, s, idx);
      PlaceTarget(dict, next, u[1..]);
      var ds := TargetDigits(dict, s.lastIdx, u);
      assert ds[1..] == TargetDigits(dict, idx, u[1..]);
      assert next.out + u[1..] == s.out + u;
    }
  }

  /** A word whose digits are all written is rejected or kept as a whole. */
  lemma FeedWritten(dict: string, k: nat, length: nat, s: Sampler, x: Word, m: nat)
    requires UsableDict(dict) && ValidSampler(dict, s) && |s.out| <= length
    requires Pow(|dict| - 1, k) < TWO64 && m == Min(k, length - |s.out|)
    requires Digits.AreDigits(|dict| - 1, Digits.Peeled(x, |dict| - 1, m))
    requires AllWritten(dict, s, Digits.Peeled(x, |dict| - 1, m))
    ensures Pow(|dict| - 1, m) < TWO64
    ensures Feed(dict, k, length, s, x)
         == if Digits.DrawDigits(x, |dict| - 1, m) == None then None
            else Some(PlaceAll(dict, s, Digits.Peeled(x, |dict| - 1, m)))
  {
    TakenWritten(dict, length, s, x, k, Digits.Peeled(x, |dict| - 1, m));
    FeedTakes(dict, k, length, s, x);
  }

  // ---------- which strings can be produced ----------

  /** From every state short of its target some word is accepted and writes the
      next batch of the target. */
  lemma NextWord(dict: string, k: nat, v: string, s: Sampler) returns (x: Word)
    requires UsableDict(dict) && ValidSampler(dict, s) && Pow(|dict| - 1, k) < TWO64
    requires s.out <= v && NoRepeats(dict, v)
    ensures var r := Feed(dict, k, |v|, s, x);
      r.Some? && r.value.out == s.out + NextPart(k, v, s)
  {
    var u, n1 := NextPart(k, v, s), |dict| - 1;
    NextPartFollows(dict, k, v, s);
    PlaceTarget(dict, s, u);
    var ds := TargetDigits(dict, s.lastIdx, u);
    PowMonotone(n1, |u|, k);
    Digits.DigitsExact(n1, ds);
    x :| x in Fiber(Digits.Draws(n1, |ds|), Some(ds));
    FeedWritten(dict, k, |v|, s, x, |u|);
  }

  lemma {:induction false} ContinueReaches(dict: string, k: nat, v: string, s: Sampler) returns (tape: seq<Word>)
    requires UsableDict(dict) && ValidSampler(dict, s) && 1 <= k && Pow(|dict| - 1, k) < TWO64
    requires s.out <= v && NoRepeats(dict, v)
    ensures Result(Continue(dict, k, |v|, s, tape)) == Some(v)
    decreases |v| - |s.out|
  {
    if |s.out| == |v| {
      tape := [];
      assert s.out == v;
    } else {
      var x := NextWord(dict, k, v, s);
      var next := AfterWord(dict, k, |v|, s, x);
      var rest := ContinueReaches(dict, k, v, next);
      tape := [x] + rest;
      ContinueStep(dict, k, |v|, s, x, rest);
    }
  }

  lemma FillReaches(dict: string, k: nat, v: string) returns (tape: seq<Word>)
    requires UsableDict(dict) && 1 <= k && Pow(|dict| - 1, k) < TWO64 && v != [] && NoRepeats(dict, v)
    ensures FillValue(dict, k, |v|, tape) == Some(v)
  {
    var n, i := |dict|, IndexOf(dict, v[0]);
    MulShiftExact(n, i);
    var x: Word :| x in Fiber(Lemire(n), Some(i));
    var rest := ContinueReaches(dict, k, v, Start(dict, i));
    tape := [x] + rest;
    assert tape[1..] == rest;
  }

  /** The table entry is a batch size that all results here apply to. */
  lemma TableBatchFits(n: Word)
    requires n > 0
    ensures BatchOf(n).k >= 1 && Pow(n, BatchOf(n).k) < TWO64
  {
    BatchOfMeets(n);
    if n == 1 {
      PowOne(64);
    }
  }

  lemma PowOne(e: nat)
    ensures Pow(1, e) == 1
  {
  }

  /** The sampler produces exactly the strings over its dictionary that repeat
      no symbol. In particular it never finishes on a longer output when all
      symbols of the dictionary are equal. */
  lemma FillProduces(dict: string, k: nat, v: string)
    requires UsableDict(dict) && 1 <= k && Pow(|dict| - 1, k) < TWO64 && v != []
    ensures (exists tape :: FillValue(dict, k, |v|, tape) == Some(v)) <==> NoRepeats(dict, v)
  {
    if NoRepeats(dict, v) {
      var tape := FillReaches(dict, k, v);
    }
    forall tape | FillValue(dict, k, |v|, tape) == Some(v)
      ensures NoRepeats(dict, v)
    {
      FillSafe(dict, k, |v|, tape);
    }
  }

  // ---------- no dead states ----------

  ghost predicate HasTwoSymbols(dict: string) {
    exists i, j | 0 <= i < j < |dict| :: dict[i] != dict[j]
  }

  lemma {:induction false} SomeTarget(dict: string, out: string, length: nat) returns (v: string)
    requires HasTwoSymbols(dict) && NoRepeats(dict, out) && |out| <= length
    ensures out <= v && |v| == length && NoRepeats(dict, v)
    decreases length - |out|
  {
    if |out| == length {
      v := out;
    } else {
      var i, j :| 0 <= i < j < |dict| && dict[i] != dict[j];
      var c := if out != [] && out[|out| - 1] == dict[i] then dict[j] else dict[i];
      v := SomeTarget(dict, out + [c], length);
    }
  }

  /** From every state of an unfinished run some word is accepted and extends
      the output, as soon as the dictionary has two different symbols. */
  lemma NoDeadState(dict: string, k: nat, length: nat, s: Sampler) returns (x: Word)
    requires UsableDict(dict) && HasTwoSymbols(dict) && ValidSampler(dict, s)
    requires 1 <= k && Pow(|dict| - 1, k) < TWO64
    requires NoRepeats(dict, s.out) && |s.out| < length
    ensures var r := Feed(dict, k, length, s, x);
      r.Some? && |r.value.out| == |s.out| + Min(k, length - |s.out|)
  {
    var v := SomeTarget(dict, s.out, length);
    x := NextWord(dict, k, v, s);
  }
}
