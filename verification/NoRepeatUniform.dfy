/** Exact uniformity of the batched sampler over a dictionary of distinct
    symbols, and what rejected words leave behind. */
module NoRepeatUniform {
  import opened Wrappers
  import opened Words
  import opened Tapes
  import opened NoRepeat
  import opened NoRepeatRuns
  import Digits

  predicate Distinct(dict: string) {
    forall i, j | 0 <= i < j < |dict| :: dict[i] != dict[j]
  }

  lemma PlaceDistinct(dict: string, s: Sampler, digit: nat)
    requires UsableDict(dict) && Distinct(dict) && ValidSampler(dict, s) && digit < |dict| - 1
    ensures var r := Place(dict, s, digit);
      && r.lastIdx != s.lastIdx
      && digit == Unskip(r.lastIdx, s.lastIdx)
      && r.out == s.out + [dict[r.lastIdx]]
  {
  }

  /** Over distinct symbols every digit is written. */
  lemma {:induction false} AllWrittenDistinct(dict: string, s: Sampler, ds: seq<nat>)
    requires UsableDict(dict) && Distinct(dict) && ValidSampler(dict, s) && Digits.AreDigits(|dict| - 1, ds)
    ensures AllWritten(dict, s, ds)
    ensures s.out <= PlaceAll(dict, s, ds).out && |PlaceAll(dict, s, ds).out| == |s.out| + |ds|
    decreases |ds|
  {
    if ds != [] {
      PlaceDistinct(dict, s, ds[0]);
      AllWrittenDistinct(dict, Place(dict, s, ds[0]), ds[1..]);
    }
  }

  lemma IndexOfDistinct(dict: string, i: nat)
    requires Distinct(dict) && i < |dict|
    ensures IndexOf(dict, dict[i]) == i
  {
  }

  /** Over distinct symbols different digits write different symbols. */
  lemma {:induction false} PlaceAllInjective(dict: string, s: Sampler, ds: seq<nat>, es: seq<nat>)
    requires UsableDict(dict) && Distinct(dict) && ValidSampler(dict, s) && |ds| == |es|
    requires Digits.AreDigits(|dict| - 1, ds) && Digits.AreDigits(|dict| - 1, es)
    requires PlaceAll(dict, s, ds).out == PlaceAll(dict, s, es).out
    ensures ds == es
    decreases |ds|
  {
    if ds != [] {
      var d, e, n := Place(dict, s, ds[0]), Place(dict, s, es[0]), |s.out|;
      PlaceDistinct(dict, s, ds[0]);
      PlaceDistinct(dict, s, es[0]);
      AllWrittenDistinct(dict, d, ds[1..]);
      AllWrittenDistinct(dict, e, es[1..]);
      assert d.out[n] == PlaceAll(dict, s, ds).out[n] == e.out[n];
      assert d == e;
      PlaceAllInjective(dict, d, ds[1..], es[1..]);
      assert ds == [ds[0]] + ds[1..] && es == [es[0]] + es[1..];
    }
  }

  /** Over distinct symbols a word is the digit draw of its batch: it writes
      exactly m symbols or is rejected with nothing written. */
  lemma FeedDistinct(dict: string, k: nat, length: nat, s: Sampler, x: Word, m: nat)
    requires UsableDict(dict) && Distinct(dict) && ValidSampler(dict, s) && |s.out| <= length
    requires Pow(|dict| - 1, k) < TWO64 && m == Min(k, length - |s.out|)
    ensures Pow(|dict| - 1, m) < TWO64
    ensures Digits.AreDigits(|dict| - 1, Digits.Peeled(x, |dict| - 1, m))
    ensures Feed(dict, k, length, s, x)
         == if Digits.DrawDigits(x, |dict| - 1, m) == None then None
            else Some(PlaceAll(dict, s, Digits.Peeled(x, |dict| - 1, m)))
    ensures Feed(dict, k, length, s, x).Some? ==>
              s.out <= Feed(dict, k, length, s, x).value.out
              && |Feed(dict, k, length, s, x).value.out| == |s.out| + m
  {
    Digits.PeeledAreDigits(x, |dict| - 1, m);
    AllWrittenDistinct(dict, s, Digits.Peeled(x, |dict| - 1, m));
    FeedWritten(dict, k, length, s, x, m);
  }

  // ---------- counting ----------

  /** How many tapes of t words complete the remaining rem symbols in one
      prescribed way. */
  function ContinueWays(n1: Word, k: nat, rem: nat, t: nat): nat
    requires n1 > 0
    decreases t
  {
    if rem == 0 then Pow(TWO64, t)
    else if t == 0 then 0
    else
      var m := Min(k, rem);
      Mix(Pow(n1, m), ContinueWays(n1, k, rem - m, t - 1), ContinueWays(n1, k, rem, t - 1))
  }

  function ContinueValue(dict: string, k: nat, length: nat, s: Sampler, tape: seq<Word>): Option<string>
    requires UsableDict(dict) && ValidSampler(dict, s)
  {
    Result(Continue(dict, k, length, s, tape))
  }

  /** ContinueValue as a generator. */
  function Completes(dict: string, k: nat, length: nat, s: Sampler): seq<Word> -> Option<string>
    requires UsableDict(dict) && ValidSampler(dict, s)
  {
    (tape: seq<Word>) => ContinueValue(dict, k, length, s, tape)
  }

  /** A word that does not draw the target digits either is rejected or leads
      away from the target for good. */
  lemma OtherWords(dict: string, k: nat, v: string, s: Sampler, w: Word, tape: seq<Word>)
    requires UsableDict(dict) && Distinct(dict) && ValidSampler(dict, s) && Pow(|dict| - 1, k) < TWO64
    requires s.out <= v && |s.out| < |v| && NoRepeats(dict, v)
    ensures var u := NextPart(k, v, s);
      && Follows(dict, s.lastIdx, u)
      && Pow(|dict| - 1, |u|) < TWO64
      && var draw := Digits.DrawDigits(w, |dict| - 1, |u|);
        && (draw == None ==> AfterWord(dict, k, |v|, s, w) == s)
        && (draw == Some(TargetDigits(dict, s.lastIdx, u)) ==>
              AfterWord(dict, k, |v|, s, w) == PlaceAll(dict, s, TargetDigits(dict, s.lastIdx, u)))
        && (draw != None && draw != Some(TargetDigits(dict, s.lastIdx, u)) ==>
              ContinueValue(dict, k, |v|, s, [w] + tape) != Some(v))
  {
    var u := NextPart(k, v, s);
    NextPartFollows(dict, k, v, s);
    FeedDistinct(dict, k, |v|, s, w, |u|);
    var ds := Digits.Peeled(w, |dict| - 1, |u|);
    PlaceTarget(dict, s, u);
    var es := TargetDigits(dict, s.lastIdx, u);
    if PlaceAll(dict, s, ds).out == PlaceAll(dict, s, es).out {
      PlaceAllInjective(dict, s, ds, es);
    }
    ContinueStep(dict, k, |v|, s, w, tape);
    hide PlaceAll, Digits.Peeled, Feed, Follows;
    OnlyOutput(dict, k, v, s.out, AfterWord(dict, k, |v|, s, w), tape);
  }

  /** A state that completes v has written a part of v. */
  lemma OnlyOutput(dict: string, k: nat, v: string, out: string, next: Sampler, tape: seq<Word>)
    requires UsableDict(dict) && ValidSampler(dict, next) && out <= v && out <= next.out && |next.out| <= |v|
    ensures ContinueValue(dict, k, |v|, next, tape) == Some(v) ==> next.out == out + v[|out|..|next.out|]
  {
    ContinueSafe(dict, k, |v|, next, tape);
    hide Continue;
    if next.out <= v {
      assert next.out == v[..|next.out|] == v[..|out|] + v[|out|..|next.out|];
    }
  }

  /** How many tapes of t words complete v from state s. */
  ghost function Tally(dict: string, k: nat, v: string, s: Sampler, t: nat): nat
    requires UsableDict(dict) && ValidSampler(dict, s)
  {
    |Outcomes(Completes(dict, k, |v|, s), t, v)|
  }

  /** The state after an accepted batch that agrees with v. */
  lemma NextState(dict: string, k: nat, v: string, s: Sampler) returns (next: Sampler)
    requires UsableDict(dict) && ValidSampler(dict, s) && s.out <= v && NoRepeats(dict, v)
    ensures Follows(dict, s.lastIdx, NextPart(k, v, s))
    ensures next == PlaceAll(dict, s, TargetDigits(dict, s.lastIdx, NextPart(k, v, s)))
    ensures ValidSampler(dict, next) && next.out <= v
    ensures |next.out| == |s.out| + Min(k, |v| - |s.out|)
  {
    NextPartFollows(dict, k, v, s);
    PlaceTarget(dict, s, NextPart(k, v, s));
    next := PlaceAll(dict, s, TargetDigits(dict, s.lastIdx, NextPart(k, v, s)));
  }

  lemma BatchWord(dict: string, k: nat, v: string, s: Sampler, next: Sampler, w: Word, tape: seq<Word>)
    requires UsableDict(dict) && Distinct(dict) && ValidSampler(dict, s) && Pow(|dict| - 1, k) < TWO64
    requires s.out <= v && |s.out| < |v| && NoRepeats(dict, v)
    requires Follows(dict, s.lastIdx, NextPart(k, v, s))
    requires next == PlaceAll(dict, s, TargetDigits(dict, s.lastIdx, NextPart(k, v, s)))
    requires Pow(|dict| - 1, |NextPart(k, v, s)|) < TWO64
    ensures var draw := Digits.DrawDigits(w, |dict| - 1, |NextPart(k, v, s)|);
      var value := ContinueValue(dict, k, |v|, s, [w] + tape);
      && (draw == Some(TargetDigits(dict, s.lastIdx, NextPart(k, v, s))) ==>
            value == ContinueValue(dict, k, |v|, next, tape))
      && (draw == None ==> value == ContinueValue(dict, k, |v|, s, tape))
      && (draw != None && draw != Some(TargetDigits(dict, s.lastIdx, NextPart(k, v, s))) ==> value != Some(v))
  {
    OtherWords(dict, k, v, s, w, tape);
    ContinueStep(dict, k, |v|, s, w, tape);
  }

  lemma BatchSplit(dict: string, k: nat, v: string, s: Sampler, next: Sampler, t: nat, m: nat, ds: seq<nat>)
    requires UsableDict(dict) && Distinct(dict) && ValidSampler(dict, s) && Pow(|dict| - 1, k) < TWO64
    requires s.out <= v && |s.out| < |v| && NoRepeats(dict, v)
    requires Follows(dict, s.lastIdx, NextPart(k, v, s)) && ds == TargetDigits(dict, s.lastIdx, NextPart(k, v, s))
    requires next == PlaceAll(dict, s, ds) && m == |NextPart(k, v, s)| && Pow(|dict| - 1, m) < TWO64
    ensures Tally(dict, k, v, s, t + 1)
         == Weigh(|Fiber(Digits.Draws(|dict| - 1, m), Some(ds))|, Tally(dict, k, v, next, t),
                  |Fiber(Digits.Draws(|dict| - 1, m), None)|, Tally(dict, k, v, s, t))
  {
    var f, g := Completes(dict, k, |v|, s), Completes(dict, k, |v|, next);
    var a, b := Fiber(Digits.Draws(|dict| - 1, m), Some(ds)), Fiber(Digits.Draws(|dict| - 1, m), None);
    forall w: Word, tape: seq<Word>
      ensures w in a ==> f([w] + tape) == g(tape)
      ensures w in b ==> f([w] + tape) == f(tape)
      ensures w !in a && w !in b ==> f([w] + tape) != Some(v)
    {
      BatchWord(dict, k, v, s, next, w, tape);
    }
    CountStep(f, t, v, a, g, b, f);
  }

  /** One batch, counted over all its words. */
  lemma BatchCount(dict: string, k: nat, v: string, s: Sampler, next: Sampler, t: nat)
    requires UsableDict(dict) && Distinct(dict) && ValidSampler(dict, s) && Pow(|dict| - 1, k) < TWO64
    requires s.out <= v && |s.out| < |v| && NoRepeats(dict, v)
    requires Follows(dict, s.lastIdx, NextPart(k, v, s))
    requires next == PlaceAll(dict, s, TargetDigits(dict, s.lastIdx, NextPart(k, v, s)))
    ensures Tally(dict, k, v, s, t + 1)
         == Mix(Pow(|dict| - 1, Min(k, |v| - |s.out|)), Tally(dict, k, v, next, t), Tally(dict, k, v, s, t))
  {
    var n1, m, ds := |dict| - 1, |NextPart(k, v, s)|, TargetDigits(dict, s.lastIdx, NextPart(k, v, s));
    PowMonotone(n1, m, k);
    BatchSplit(dict, k, v, s, next, t, m, ds);
    Digits.DigitsExact(n1, ds);
    Digits.DigitsRejects(n1, m);
  }

  /** From any state that agrees with v so far, the tapes that complete v are
      as many as for any other string. */
  lemma {:induction false} ContinueUniform(dict: string, k: nat, v: string, s: Sampler, t: nat)
    requires UsableDict(dict) && Distinct(dict) && ValidSampler(dict, s) && Pow(|dict| - 1, k) < TWO64
    requires s.out <= v && NoRepeats(dict, v)
    ensures Tally(dict, k, v, s, t) == ContinueWays(|dict| - 1, k, |v| - |s.out|, t)
    decreases t
  {
    hide *;
    if |s.out| == |v| || t == 0 {
      ContinueEnds(dict, k, v, s, t);
    } else {
      var next := OneBatch(dict, k, v, s, t - 1);
      ContinueUniform(dict, k, v, next, t - 1);
      ContinueUniform(dict, k, v, s, t - 1);
    }
  }

  /** One more word preserves the count. */
  lemma OneBatch(dict: string, k: nat, v: string, s: Sampler, t: nat) returns (next: Sampler)
    requires UsableDict(dict) && Distinct(dict) && ValidSampler(dict, s) && Pow(|dict| - 1, k) < TWO64
    requires s.out <= v && |s.out| < |v| && NoRepeats(dict, v)
    ensures ValidSampler(dict, next) && next.out <= v
    ensures Tally(dict, k, v, next, t) == ContinueWays(|dict| - 1, k, |v| - |next.out|, t)
         && Tally(dict, k, v, s, t) == ContinueWays(|dict| - 1, k, |v| - |s.out|, t)
        ==> Tally(dict, k, v, s, t + 1) == ContinueWays(|dict| - 1, k, |v| - |s.out|, t + 1)
  {
    hide *;
    next := NextState(dict, k, v, s);
    BatchCount(dict, k, v, s, next, t);
    WaysStep(|dict| - 1, k, |v| - |s.out|, t);
  }

  lemma ContinueEnds(dict: string, k: nat, v: string, s: Sampler, t: nat)
    requires UsableDict(dict) && ValidSampler(dict, s) && s.out <= v
    requires |s.out| == |v| || t == 0
    ensures Tally(dict, k, v, s, t) == ContinueWays(|dict| - 1, k, |v| - |s.out|, t)
  {
    if |s.out| == |v| {
      assert s.out == v;
      CountDone(Completes(dict, k, |v|, s), t, v);
    } else {
      CountNone(Completes(dict, k, |v|, s), 0, v);
    }
  }

  lemma WaysStep(n1: Word, k: nat, rem: nat, t: nat)
    requires n1 > 0 && rem > 0
    ensures ContinueWays(n1, k, rem, t + 1)
         == Mix(Pow(n1, Min(k, rem)), ContinueWays(n1, k, rem - Min(k, rem), t), ContinueWays(n1, k, rem, t))
  {
  }

  /** How many tapes of t words fill an output of the given length in one
      prescribed way. */
  function FillWays(n: Word, k: nat, length: nat, t: nat): nat
    requires n >= 2 && length > 0
  {
    if t == 0 then 0
    else Mix(n, ContinueWays(n - 1, k, length - 1, t - 1), FillWays(n, k, length, t - 1))
  }

  /** FillValue as a generator. */
  function Fills(dict: string, k: nat, length: nat): seq<Word> -> Option<string>
    requires UsableDict(dict)
  {
    (tape: seq<Word>) => FillValue(dict, k, length, tape)
  }

  lemma FillStep(dict: string, k: nat, length: nat, w: Word, tape: seq<Word>)
    requires UsableDict(dict) && length > 0
    ensures FillValue(dict, k, length, [w] + tape)
         == match MulShift(|dict|, w)
            case None => FillValue(dict, k, length, tape)
            case Some(i) => ContinueValue(dict, k, length, Start(dict, i), tape)
  {
    assert ([w] + tape)[1..] == tape;
  }

  lemma FirstWord(dict: string, k: nat, v: string, w: Word, tape: seq<Word>)
    requires UsableDict(dict) && Distinct(dict) && v != [] && NoRepeats(dict, v)
    ensures var i := IndexOf(dict, v[0]);
      && (MulShift(|dict|, w) == Some(i) ==>
            FillValue(dict, k, |v|, [w] + tape) == ContinueValue(dict, k, |v|, Start(dict, i), tape))
      && (MulShift(|dict|, w) == None ==> FillValue(dict, k, |v|, [w] + tape) == FillValue(dict, k, |v|, tape))
      && (MulShift(|dict|, w) != None && MulShift(|dict|, w) != Some(i) ==>
            FillValue(dict, k, |v|, [w] + tape) != Some(v))
  {
    FillStep(dict, k, |v|, w, tape);
    if MulShift(|dict|, w).Some? {
      var j := MulShift(|dict|, w).value;
      IndexOfDistinct(dict, j);
      ContinueSafe(dict, k, |v|, Start(dict, j), tape);
    }
  }

  /** How many tapes of t words produce v. */
  ghost function FillTally(dict: string, k: nat, v: string, t: nat): nat
    requires UsableDict(dict)
  {
    |Outcomes(Fills(dict, k, |v|), t, v)|
  }

  lemma FillCount(dict: string, k: nat, v: string, t: nat)
    requires UsableDict(dict) && Distinct(dict) && v != [] && NoRepeats(dict, v)
    ensures FillTally(dict, k, v, t + 1)
         == Mix(|dict|, Tally(dict, k, v, Start(dict, IndexOf(dict, v[0])), t), FillTally(dict, k, v, t))
  {
    var n, i := |dict|, IndexOf(dict, v[0]);
    var f, g := Fills(dict, k, |v|), Completes(dict, k, |v|, Start(dict, i));
    var a, b := Fiber(Lemire(n), Some(i)), Fiber(Lemire(n), None);
    forall w: Word, tape: seq<Word>
      ensures w in a ==> f([w] + tape) == g(tape)
      ensures w in b ==> f([w] + tape) == f(tape)
      ensures w !in a && w !in b ==> f([w] + tape) != Some(v)
    {
      FirstWord(dict, k, v, w, tape);
    }
    CountStep(f, t, v, a, g, b, f);
    MulShiftExact(n, i);
    MulShiftRejects(n);
  }

  lemma {:induction false} FillTallies(dict: string, k: nat, v: string, t: nat)
    requires UsableDict(dict) && Distinct(dict) && Pow(|dict| - 1, k) < TWO64
    requires v != [] && NoRepeats(dict, v)
    ensures FillTally(dict, k, v, t) == FillWays(|dict|, k, |v|, t)
  {
    hide *;
    if t == 0 {
      FillEnds(dict, k, v);
    } else {
      FillTallies(dict, k, v, t - 1);
      FillCount(dict, k, v, t - 1);
      StartUniform(dict, k, v, t - 1);
      FillWaysStep(|dict|, k, |v|, t - 1);
    }
  }

  lemma FillEnds(dict: string, k: nat, v: string)
    requires UsableDict(dict) && v != []
    ensures FillTally(dict, k, v, 0) == FillWays(|dict|, k, |v|, 0)
  {
    CountNone(Fills(dict, k, |v|), 0, v);
  }

  lemma StartUniform(dict: string, k: nat, v: string, t: nat)
    requires UsableDict(dict) && Distinct(dict) && Pow(|dict| - 1, k) < TWO64
    requires v != [] && NoRepeats(dict, v)
    ensures Tally(dict, k, v, Start(dict, IndexOf(dict, v[0])), t) == ContinueWays(|dict| - 1, k, |v| - 1, t)
  {
    ContinueUniform(dict, k, v, Start(dict, IndexOf(dict, v[0])), t);
  }

  /** Exact uniformity: over distinct symbols every string without adjacent
      repeats is produced by the same number of tapes, for every tape length
      and with rejected words included. */
  lemma FillUniform(dict: string, k: nat, v: string, t: nat)
    requires UsableDict(dict) && Distinct(dict) && Pow(|dict| - 1, k) < TWO64
    requires v != [] && NoRepeats(dict, v)
    ensures |Outcomes(Fills(dict, k, |v|), t, v)| == FillWays(|dict|, k, |v|, t)
  {
    FillTallies(dict, k, v, t);
  }

  lemma FillWaysStep(n: Word, k: nat, length: nat, t: nat)
    requires n >= 2 && length > 0
    ensures FillWays(n, k, length, t + 1) == Mix(n, ContinueWays(n - 1, k, length - 1, t), FillWays(n, k, length, t))
  {
  }

  // ---------- the fewest words ----------

  /** The accepted words that rem symbols need: ceil(rem / k). */
  function BatchesFor(k: nat, rem: nat): nat
    requires k > 0
  {
    (rem + k - 1) / k
  }

  /** floor(2^64 / n1^d) multiplied over the batches of rem symbols. */
  function BatchProduct(n1: Word, k: nat, rem: nat): nat
    requires n1 > 0 && k > 0
    decreases rem
  {
    if rem == 0 then 1
    else
      var m := Min(k, rem);
      assert TWO64 / Pow(n1, m) >= 0;
      (TWO64 / Pow(n1, m)) * BatchProduct(n1, k, rem - m)
  }

  lemma OneBatchLess(k: nat, rem: nat)
    requires k > 0 && rem > 0
    ensures BatchesFor(k, rem) == BatchesFor(k, rem - Min(k, rem)) + 1
  {
    if rem <= k {
      DivModUnique(rem + k - 1, k, 1, rem - 1);
    } else {
      DivModUnique(rem + k - 1, k, (rem - 1) / k + 1, (rem - 1) % k);
    }
  }

  /** The closed form of the count up to the fewest words: no way on a shorter
      tape, and one factor for each batch. */
  lemma {:induction false} ContinueFewest(n1: Word, k: nat, rem: nat, t: nat)
    requires n1 > 0 && k > 0 && t <= BatchesFor(k, rem)
    ensures ContinueWays(n1, k, rem, t) == if t < BatchesFor(k, rem) then 0 else BatchProduct(n1, k, rem)
    decreases t
  {
    if rem == 0 {
      DivModUnique(k - 1, k, 0, k - 1);
    } else {
      var m := Min(k, rem);
      OneBatchLess(k, rem);
      if t > 0 {
        ContinueFewest(n1, k, rem - m, t - 1);
        ContinueFewest(n1, k, rem, t - 1);
      }
    }
  }

  /** A fill takes at least 1 + ceil((length - 1) / k) words, and on tapes of
      that many words each string is produced by
      floor(2^64 / n) * product of floor(2^64 / (n - 1)^d) of them. */
  lemma {:induction false} FillFewest(n: Word, k: nat, length: nat, t: nat)
    requires n >= 2 && k > 0 && length > 0 && t <= 1 + BatchesFor(k, length - 1)
    ensures FillWays(n, k, length, t)
         == if t <= BatchesFor(k, length - 1) then 0 else (TWO64 / n) * BatchProduct(n - 1, k, length - 1)
  {
    if t > 0 {
      ContinueFewest(n - 1, k, length - 1, t - 1);
      FillFewest(n, k, length, t - 1);
    }
  }

  // ---------- rejected words ----------

  /** The words of the tape that the run does not reject. */
  function Kept(dict: string, k: nat, length: nat, s: Sampler, tape: seq<Word>): seq<Word>
    requires UsableDict(dict) && ValidSampler(dict, s)
    decreases |tape|
  {
    if |s.out| >= length || tape == [] then []
    else match Feed(dict, k, length, s, tape[0])
      case None => Kept(dict, k, length, s, tape[1..])
      case Some(next) => [tape[0]] + Kept(dict, k, length, next, tape[1..])
  }

  /** Every word of the tape is accepted when its turn comes. */
  predicate AllAccepted(dict: string, k: nat, length: nat, s: Sampler, tape: seq<Word>)
    requires UsableDict(dict) && ValidSampler(dict, s)
    decreases |tape|
  {
    tape != [] ==>
      Feed(dict, k, length, s, tape[0]).Some?
      && AllAccepted(dict, k, length, Feed(dict, k, length, s, tape[0]).value, tape[1..])
  }

  /** A rejected word is invisible: deleting it changes neither the outcome nor
      the fate of the other words. */
  lemma {:induction false} RejectedInvisible(dict: string, k: nat, length: nat, s: Sampler, tape: seq<Word>)
    requires UsableDict(dict) && ValidSampler(dict, s)
    ensures var kept := Kept(dict, k, length, s, tape);
      && AllAccepted(dict, k, length, s, kept)
      && ContinueValue(dict, k, length, s, kept) == ContinueValue(dict, k, length, s, tape)
      && (Continue(dict, k, length, s, kept).Some? ==> Continue(dict, k, length, s, kept).value.1 == [])
    decreases |tape|
  {
    if |s.out| < length && tape != [] {
      var next := AfterWord(dict, k, length, s, tape[0]);
      RejectedInvisible(dict, k, length, next, tape[1..]);
      if Feed(dict, k, length, s, tape[0]).Some? {
        ContinueStep(dict, k, length, s, tape[0], Kept(dict, k, length, next, tape[1..]));
        var kept := Kept(dict, k, length, s, tape);
        assert kept[0] == tape[0] && kept[1..] == Kept(dict, k, length, next, tape[1..]);
      }
    }
  }

  /** Over distinct symbols a finished run has accepted exactly
      ceil((length - |out|) / k) words. */
  lemma {:induction false} KeptCount(dict: string, k: nat, length: nat, s: Sampler, tape: seq<Word>)
    requires UsableDict(dict) && Distinct(dict) && ValidSampler(dict, s) && |s.out| <= length
    requires 0 < k && Pow(|dict| - 1, k) < TWO64
    requires Continue(dict, k, length, s, tape).Some?
    ensures |Kept(dict, k, length, s, tape)| == BatchesFor(k, length - |s.out|)
    decreases |tape|
  {
    var rem := length - |s.out|;
    if rem == 0 {
      DivModUnique(k - 1, k, 0, k - 1);
    } else {
      FeedDistinct(dict, k, length, s, tape[0], Min(k, rem));
      OneBatchLess(k, rem);
      KeptCount(dict, k, length, AfterWord(dict, k, length, s, tape[0]), tape[1..]);
    }
  }
}
