/** The string generators: wide dictionaries, custom dictionaries and the
    built-in alphabets. */
module Strings {
  import opened Wrappers
  import opened Words
  import opened Tapes
  import opened NoRepeat
  import opened NoRepeatRuns
  import opened Batch
  import Number

  // ---------- dictionaries too long for the batch table ----------

  /** One position per bounded draw, redrawn when it repeats the last symbol. */
  function WideContinue(dict: string, length: nat, s: Sampler, tape: seq<Word>): Run<string>
    requires UsableDict(dict) && ValidSampler(dict, s)
    decreases |tape|
  {
    if |s.out| >= length then Some((s.out, tape))
    else match Number.Bounded(|dict| - 1, tape)
      case None => None
      case Some((digit, rest)) => WideContinue(dict, length, Place(dict, s, digit), rest)
  }

  function WideFill(dict: string, length: nat, tape: seq<Word>): Run<string>
    requires UsableDict(dict)
  {
    match Number.Bounded(|dict|, tape)
    case None => None
    case Some((i, rest)) => WideContinue(dict, length, Start(dict, i), rest)
  }

  method FillWideNoRepeat(out: array<char>, from: nat, dict: string, p: Tape) returns (done: bool)
    requires from <= out.Length && UsableDict(dict)
    modifies out, p
    ensures out[..from] == old(out[..from])
    ensures from == out.Length ==> done && p.words == old(p.words)
    ensures from < out.Length ==>
              Performed(WideFill(dict, out.Length - from, old(p.words)), if done then Some(out[from..]) else None, p.words)
  {
    if from == out.Length {
      return true;
    }
    var first := Number.UniformUint64n(|dict|, p);
    if first == None {
      return false;
    }
    out[from] := dict[first.value];
    done := FillWideRest(out, from, dict, first.value, p);
  }

  /** The positions after the first. */
  method FillWideRest(out: array<char>, from: nat, dict: string, first: nat, p: Tape) returns (done: bool)
    requires from < out.Length && UsableDict(dict) && first < |dict| && out[from] == dict[first]
    modifies out, p
    ensures out[..from] == old(out[..from])
    ensures Performed(WideContinue(dict, out.Length - from, Start(dict, first), old(p.words)),
                      if done then Some(out[from..]) else None, p.words)
  {
    var length, n := out.Length - from, |dict|;
    var lastIdx, i := first, 1;
    ghost var s := Start(dict, first);
    WideFull(dict, length);
    hide WideContinue, Number.Bounded, Place;
    while i < length
      invariant 1 <= i == |s.out| <= length && s.lastIdx == lastIdx
      invariant ValidSampler(dict, s) && Holds(out, from, s.out)
      invariant out[..from] == old(out[..from])
      invariant WideContinue(dict, length, s, p.words) == WideContinue(dict, length, Start(dict, first), old(p.words))
      decreases |p.words|
    {
      WideStep(dict, length, s, p.words);
      var digit := Number.UniformUint64n(n - 1, p);
      if digit == None {
        return false;
      }
      i, lastIdx := PlaceInto(out, from, dict, i, lastIdx, digit.value, s);
      s := Place(dict, s, digit.value);
    }
    assert out[from..] == s.out;
    done := true;
  }

  lemma WideStep(dict: string, length: nat, s: Sampler, tape: seq<Word>)
    requires UsableDict(dict) && ValidSampler(dict, s) && |s.out| < length
    ensures WideContinue(dict, length, s, tape)
         == match Number.Bounded(|dict| - 1, tape)
            case None => None
            case Some((digit, rest)) => WideContinue(dict, length, Place(dict, s, digit), rest)
  {
  }

  lemma WideFull(dict: string, length: nat)
    requires UsableDict(dict)
    ensures forall s: Sampler, tape: seq<Word> {:trigger WideContinue(dict, length, s, tape)} |
              ValidSampler(dict, s) && |s.out| == length ::
              WideContinue(dict, length, s, tape) == Some((s.out, tape))
  {
  }

  function WideValue(dict: string, length: nat, tape: seq<Word>): Option<string>
    requires UsableDict(dict)
  {
    Result(WideFill(dict, length, tape))
  }

  lemma {:induction false} WideContinueSafe(dict: string, length: nat, s: Sampler, tape: seq<Word>)
    requires UsableDict(dict) && ValidSampler(dict, s) && |s.out| <= length && NoRepeats(dict, s.out)
    ensures var r := WideContinue(dict, length, s, tape);
      r.Some? ==> |r.value.0| == length && NoRepeats(dict, r.value.0)
    decreases |tape|
  {
    if |s.out| < length {
      match Number.Bounded(|dict| - 1, tape)
      case None =>
      case Some((digit, rest)) => WideContinueSafe(dict, length, Place(dict, s, digit), rest);
    }
  }

  /** A word that bounded sampling accepts for v. */
  lemma SomeWord(n: Word, v: nat) returns (x: Word)
    requires v < n
    ensures forall tape: seq<Word> :: Number.Bounded(n, [x] + tape) == Some((v, tape))
  {
    MulShiftExact(n, v);
    x :| x in Fiber(Lemire(n), Some(v));
    forall tape: seq<Word>
      ensures Number.Bounded(n, [x] + tape) == Some((v, tape))
    {
      assert ([x] + tape)[1..] == tape;
    }
  }

  lemma {:induction false} WideContinueReaches(dict: string, v: string, s: Sampler) returns (tape: seq<Word>)
    requires UsableDict(dict) && ValidSampler(dict, s) && s.out <= v && NoRepeats(dict, v)
    ensures Result(WideContinue(dict, |v|, s, tape)) == Some(v)
    decreases |v| - |s.out|
  {
    if |s.out| == |v| {
      assert s.out == v;
      tape := [];
    } else {
      var n := |s.out|;
      assert v[n - 1] == s.out[n - 1];
      var idx := IndexOf(dict, v[n]);
      PlaceAt(dict, s, idx);
      var x := SomeWord(|dict| - 1, Unskip(idx, s.lastIdx));
      var rest := WideContinueReaches(dict, v, Sampler(s.out + [v[n]], idx));
      tape := [x] + rest;
    }
  }

  /** The wide sampler, too, produces exactly the strings over its dictionary
      that repeat no symbol. */
  lemma WideProduces(dict: string, v: string)
    requires UsableDict(dict) && v != []
    ensures (exists tape :: WideValue(dict, |v|, tape) == Some(v)) <==> NoRepeats(dict, v)
  {
    if NoRepeats(dict, v) {
      var i := IndexOf(dict, v[0]);
      var x := SomeWord(|dict|, i);
      var rest := WideContinueReaches(dict, v, Start(dict, i));
      assert WideValue(dict, |v|, [x] + rest) == Some(v);
    }
    forall tape | WideValue(dict, |v|, tape) == Some(v)
      ensures NoRepeats(dict, v)
    {
      WideSafe(dict, |v|, tape);
    }
  }

  lemma WideSafe(dict: string, length: nat, tape: seq<Word>)
    requires UsableDict(dict) && length > 0
    ensures var r := WideValue(dict, length, tape);
      r.Some? ==> |r.value| == length && NoRepeats(dict, r.value)
  {
    match Number.Bounded(|dict|, tape)
    case None =>
    case Some((i, rest)) => WideContinueSafe(dict, length, Start(dict, i), rest);
  }

  /** The position that one word selects after lastIdx, or None when it is
      rejected or repeats the symbol there. */
  function NextPosition(dict: string, lastIdx: nat, x: Word): Option<int>
    requires UsableDict(dict) && lastIdx < |dict|
  {
    match MulShift(|dict| - 1, x)
    case None => None
    case Some(digit) =>
      var idx := digit + SkipPast(digit, lastIdx);
      if dict[idx] == dict[lastIdx] then None else Some(idx)
  }

  /** NextPosition as a sampler. */
  function Positions(dict: string, lastIdx: nat): Word -> Option<int>
    requires UsableDict(dict) && lastIdx < |dict|
  {
    (x: Word) => NextPosition(dict, lastIdx, x)
  }

  /** The wide sampler keeps the weighting of a dictionary with repeats: every
      position that does not hold the last symbol has floor(2^64 / (n - 1))
      words. */
  lemma WideKeepsWeights(dict: string, lastIdx: nat, idx: nat)
    requires UsableDict(dict) && lastIdx < |dict| && idx < |dict| && dict[idx] != dict[lastIdx]
    ensures |Fiber(Positions(dict, lastIdx), Some(idx))| == TWO64 / (|dict| - 1)
  {
    var n1, digit := |dict| - 1, Unskip(idx, lastIdx);
    MulShiftExact(n1, digit);
    forall x: Word
      ensures NextPosition(dict, lastIdx, x) == Some(idx) <==> MulShift(n1, x) == Some(digit)
    {
    }
    assert Fiber(Positions(dict, lastIdx), Some(idx)) == Fiber(Lemire(n1), Some(digit));
  }

  /** The position that the wide sampler writes after lastIdx, however many
      words it takes. */
  function WideNext(dict: string, lastIdx: nat, tape: seq<Word>): (r: Run<int>)
    requires UsableDict(dict) && lastIdx < |dict|
    ensures r.Some? ==> 0 <= r.value.0 < |dict| && dict[r.value.0] != dict[lastIdx]
    decreases |tape|
  {
    match Number.Bounded(|dict| - 1, tape)
    case None => None
    case Some((digit, rest)) =>
      var idx := digit + SkipPast(digit, lastIdx);
      if dict[idx] == dict[lastIdx] then WideNext(dict, lastIdx, rest) else Some((idx, rest))
  }

  /** The run of the wide sampler is one such choice after the other. */
  lemma {:induction false} WideOneByOne(dict: string, length: nat, s: Sampler, tape: seq<Word>)
    requires UsableDict(dict) && ValidSampler(dict, s) && |s.out| < length
    ensures WideContinue(dict, length, s, tape)
         == match WideNext(dict, s.lastIdx, tape)
            case None => None
            case Some((idx, rest)) => WideContinue(dict, length, Sampler(s.out + [dict[idx]], idx), rest)
    decreases |tape|
  {
    match Number.Bounded(|dict| - 1, tape)
    case None =>
    case Some((digit, rest)) =>
      if Place(dict, s, digit) == s {
        WideOneByOne(dict, length, s, rest);
      }
  }

  /** WideNext as a generator. */
  function WideNexts(dict: string, lastIdx: nat): seq<Word> -> Option<int>
    requires UsableDict(dict) && lastIdx < |dict|
  {
    (tape: seq<Word>) => Result(WideNext(dict, lastIdx, tape))
  }

  lemma WideNextStep(dict: string, lastIdx: nat, w: Word, tape: seq<Word>)
    requires UsableDict(dict) && lastIdx < |dict|
    ensures Result(WideNext(dict, lastIdx, [w] + tape))
         == match NextPosition(dict, lastIdx, w)
            case Some(idx) => Some(idx)
            case None => Result(WideNext(dict, lastIdx, tape))
  {
    assert ([w] + tape)[1..] == tape;
  }

  lemma WideRetries(dict: string, lastIdx: nat)
    requires UsableDict(dict) && lastIdx < |dict|
    ensures Retries(WideNexts(dict, lastIdx), Positions(dict, lastIdx))
  {
    hide WideNext, NextPosition;
    NoWideNext(dict, lastIdx);
    forall w: Word, tape: seq<Word>
      ensures WideNexts(dict, lastIdx)([w] + tape)
           == if Positions(dict, lastIdx)(w).Some? then Positions(dict, lastIdx)(w) else WideNexts(dict, lastIdx)(tape)
    {
      WideNextStep(dict, lastIdx, w, tape);
    }
  }

  lemma NoWideNext(dict: string, lastIdx: nat)
    requires UsableDict(dict) && lastIdx < |dict|
    ensures WideNext(dict, lastIdx, []) == None
  {
  }

  /** Over tapes, rejected and repeated positions redrawn: every position that
      does not hold the last symbol comes from equally many tapes. */
  lemma WideKeepsWeightsOverTapes(dict: string, lastIdx: nat, idx: nat, t: nat)
    requires UsableDict(dict) && lastIdx < |dict| && idx < |dict| && dict[idx] != dict[lastIdx]
    ensures |Outcomes(WideNexts(dict, lastIdx), t, idx)|
         == RetryWays(TWO64 / (|dict| - 1), |Fiber(Positions(dict, lastIdx), None)|, t)
  {
    WideRetries(dict, lastIdx);
    RetryUniform(WideNexts(dict, lastIdx), Positions(dict, lastIdx), idx, t);
    WideKeepsWeights(dict, lastIdx, idx);
  }

  // ---------- custom dictionaries ----------

  /** The requests that appendCustom serves. */
  ghost predicate CanFill(dictionary: string, length: int) {
    length > 0 && dictionary != [] && (length > 1 ==> HasTwoSymbols(dictionary))
  }

  /** The scan for a byte that differs from the first one. */
  method FindSecondSymbol(dictionary: string) returns (found: bool)
    requires dictionary != []
    ensures found <==> HasTwoSymbols(dictionary)
  {
    var first, i := dictionary[0], 1;
    while true
      invariant 1 <= i <= |dictionary|
      invariant forall j | 0 <= j < i :: dictionary[j] == first
      decreases |dictionary| - i
    {
      if i == |dictionary| {
        return false;
      }
      if dictionary[i] != first {
        assert dictionary[0] != dictionary[i];
        return true;
      }
      i := i + 1;
    }
  }

  /** The symbols that appendCustom adds for a dictionary of several bytes. */
  function CustomRun(dictionary: string, length: nat, tape: seq<Word>): Run<string>
    requires UsableDict(dictionary)
  {
    if |dictionary| <= 256 then Fill(dictionary, BatchOf(|dictionary| - 1).k, length, tape)
    else WideFill(dictionary, length, tape)
  }

  /** dst is kept as a prefix, and returned unchanged without a draw exactly
      when the request cannot be served. */
  method AppendCustom(dst: string, dictionary: string, length: int, p: Tape) returns (r: Option<string>)
    requires |dictionary| < TWO63
    modifies p
    ensures !CanFill(dictionary, length) ==> r == Some(dst) && p.words == old(p.words)
    ensures CanFill(dictionary, length) && r.Some? ==>
              && dst <= r.value && |r.value| == |dst| + length
              && NoRepeats(dictionary, r.value[|dst|..])
    ensures CanFill(dictionary, length) && 2 <= |dictionary| <= 256 ==>
              Performed(Fill(dictionary, BatchOf(|dictionary| - 1).k, length, old(p.words)),
                        if r.Some? then Some(r.value[|dst|..]) else None, p.words)
    ensures CanFill(dictionary, length) && |dictionary| > 256 ==>
              Performed(WideFill(dictionary, length, old(p.words)), if r.Some? then Some(r.value[|dst|..]) else None, p.words)
    ensures CanFill(dictionary, length) && |dictionary| == 1 ==>
              if old(p.words) == [] then r == None
              else r == Some(dst + dictionary) && p.words == old(p.words)[1..]
  {
    if length <= 0 || dictionary == [] {
      return Some(dst);
    }
    if length > 1 {
      var found := FindSecondSymbol(dictionary);
      if !found {
        return Some(dst);
      }
    }
    var out := new char[|dst| + length];
    CopyPrefix(out, dst);
    var done := FillCustom(out, |dst|, dictionary, p);
    if !done {
      return None;
    }
    if |dictionary| == 1 {
      assert length == 1 && |out[|dst|..]| == 1;
      assert out[|dst|..] == dictionary;
    }
    CustomSafe(dictionary, length, old(p.words));
    CustomIs(dictionary, length, old(p.words));
    hide NoRepeats, CustomRun, HasTwoSymbols, Fill, WideFill;
    assert out[..] == dst + out[|dst|..];
    r := Some(out[..]);
  }

  /** The sampler for the length of the dictionary. */
  method FillCustom(out: array<char>, from: nat, dictionary: string, p: Tape) returns (done: bool)
    requires from < out.Length && 1 <= |dictionary| < TWO63
    modifies out, p
    ensures out[..from] == old(out[..from])
    ensures |dictionary| >= 2 ==>
              Performed(CustomRun(dictionary, out.Length - from, old(p.words)), if done then Some(out[from..]) else None, p.words)
    ensures |dictionary| == 1 ==> done == (old(p.words) != [])
    ensures |dictionary| == 1 && done ==>
              out[from..] == dictionary + old(out[from + 1..]) && p.words == old(p.words)[1..]
  {
    hide Fill, WideFill;
    if |dictionary| <= 256 {
      done := FillBatchedNoRepeat(out, from, dictionary, p);
    } else {
      done := FillWideNoRepeat(out, from, dictionary, p);
    }
  }

  method CopyPrefix(out: array<char>, dst: string)
    requires |dst| <= out.Length
    modifies out
    ensures out[..|dst|] == dst
  {
    for i := 0 to |dst|
      invariant out[..i] == dst[..i]
    {
      out[i] := dst[i];
    }
  }

  lemma CustomIs(dictionary: string, length: nat, tape: seq<Word>)
    requires UsableDict(dictionary) || |dictionary| < 2
    ensures 2 <= |dictionary| <= 256 ==>
              CustomRun(dictionary, length, tape) == Fill(dictionary, BatchOf(|dictionary| - 1).k, length, tape)
    ensures |dictionary| > 256 ==> CustomRun(dictionary, length, tape) == WideFill(dictionary, length, tape)
  {
  }

  lemma CustomSafe(dictionary: string, length: nat, tape: seq<Word>)
    requires length > 0
    ensures UsableDict(dictionary) ==>
      var r := Result(CustomRun(dictionary, length, tape));
      r.Some? ==> |r.value| == length && NoRepeats(dictionary, r.value)
  {
    if UsableDict(dictionary) {
      if |dictionary| <= 256 {
        FillSafe(dictionary, BatchOf(|dictionary| - 1).k, length, tape);
      } else {
        WideSafe(dictionary, length, tape);
      }
    }
  }
}
