/** The batched string sampler that never repeats a symbol: its runs, and the
    in-place fill that performs them. */
module NoRepeat {
  import opened Wrappers
  import opened Words
  import opened Tapes
  import opened Batch
  import Number

  /** The output so far and the dictionary position of its last symbol. */
  datatype Sampler = Sampler(out: string, lastIdx: nat)

  /** At least two positions to choose from; a Go length is below 2^63. */
  predicate UsableDict(dict: string)
    ensures UsableDict(dict) ==> 2 <= |dict| < 0x8000_0000_0000_0000
  {
    2 <= |dict| < TWO63
  }

  predicate ValidSampler(dict: string, s: Sampler) {
    |s.out| > 0 && s.lastIdx < |dict| && s.out[|s.out| - 1] == dict[s.lastIdx]
  }

  /** Every symbol is from dict and no two neighbours are equal. */
  ghost predicate NoRepeats(dict: string, s: string) {
    && (forall i | 0 <= i < |s| :: s[i] in dict)
    && (forall i | 0 < i < |s| :: s[i - 1] != s[i])
  }

  /** 1 when idx >= lastIdx, from the sign of a wrapping subtraction. */
  function SkipPast(idx: Word, lastIdx: Word): (r: Word)
    ensures idx < TWO63 && lastIdx < TWO63 ==> r == if idx >= lastIdx then 1 else 0
  {
    var diff := lastIdx - 1 - idx;
    var wrapped := if diff >= 0 then diff else diff + TWO64;
    if wrapped >= TWO63 then 1 else 0
  }

  /** One digit: the position it selects is shifted past the last one, and the
      symbol is dropped when a repeated byte makes it equal to the last one. */
  function Place(dict: string, s: Sampler, digit: nat): (r: Sampler)
    requires UsableDict(dict) && ValidSampler(dict, s) && digit < |dict| - 1
    ensures ValidSampler(dict, r)
  {
    var idx := digit + SkipPast(digit, s.lastIdx);
    if dict[idx] == dict[s.lastIdx] then s else Sampler(s.out + [dict[idx]], idx)
  }

  /** The inner loop of a batch: its sampler, the low product half and n1^d. */
  datatype PeelState = PeelState(s: Sampler, lo: Word, prod: Word)

  function PeelOne(dict: string, p: PeelState): (r: PeelState)
    requires UsableDict(dict) && ValidSampler(dict, p.s)
    ensures ValidSampler(dict, r.s)
  {
    var n1 := |dict| - 1;
    PeelState(Place(dict, p.s, Hi(p.lo, n1)), Lo(p.lo, n1), WrapMul(p.prod, n1))
  }

  function Peel(dict: string, length: nat, p: PeelState, budget: nat): (r: PeelState)
    requires UsableDict(dict) && ValidSampler(dict, p.s)
    ensures ValidSampler(dict, r.s)
    decreases budget
  {
    if budget == 0 || |p.s.out| >= length then p
    else Peel(dict, length, PeelOne(dict, p), budget - 1)
  }

  predicate RejectsBatch(lo: Word, prod: Word) {
    lo < prod && lo < Threshold(prod)
  }

  /** One word: a batch of up to k symbols, or None when the word is rejected. */
  function Feed(dict: string, k: nat, length: nat, s: Sampler, x: Word): (r: Option<Sampler>)
    requires UsableDict(dict) && ValidSampler(dict, s)
    ensures r.Some? ==> ValidSampler(dict, r.value)
  {
    var p := Peel(dict, length, PeelState(s, x, 1), k);
    if RejectsBatch(p.lo, p.prod) then None else Some(p.s)
  }

  /** The outer loop: words are fed until the output is full. */
  function Continue(dict: string, k: nat, length: nat, s: Sampler, tape: seq<Word>): Run<string>
    requires UsableDict(dict) && ValidSampler(dict, s)
    decreases |tape|
  {
    if |s.out| >= length then Some((s.out, tape))
    else if tape == [] then None
    else match Feed(dict, k, length, s, tape[0])
      case None => Continue(dict, k, length, s, tape[1..])
      case Some(next) => Continue(dict, k, length, next, tape[1..])
  }

  function AfterWord(dict: string, k: nat, length: nat, s: Sampler, x: Word): (r: Sampler)
    requires UsableDict(dict) && ValidSampler(dict, s)
    ensures ValidSampler(dict, r)
  {
    match Feed(dict, k, length, s, x)
    case None => s
    case Some(next) => next
  }

  lemma ContinueStep(dict: string, k: nat, length: nat, s: Sampler, x: Word, tape: seq<Word>)
    requires UsableDict(dict) && ValidSampler(dict, s) && |s.out| < length
    ensures Continue(dict, k, length, s, [x] + tape)
         == Continue(dict, k, length, AfterWord(dict, k, length, s, x), tape)
  {
    assert ([x] + tape)[1..] == tape;
  }

  lemma ContinueFull(dict: string, k: nat, length: nat)
    requires UsableDict(dict)
    ensures forall s: Sampler, tape: seq<Word> {:trigger Continue(dict, k, length, s, tape)} |
              ValidSampler(dict, s) && |s.out| == length ::
              Continue(dict, k, length, s, tape) == Some((s.out, tape))
    ensures forall s: Sampler {:trigger Continue(dict, k, length, s, [])} |
              ValidSampler(dict, s) && |s.out| < length ::
              Continue(dict, k, length, s, []) == None
  {
  }

  function Start(dict: string, i: nat): Sampler
    requires i < |dict|
  {
    Sampler([dict[i]], i)
  }

  /** The whole fill of a non-empty output. */
  function Fill(dict: string, k: nat, length: nat, tape: seq<Word>): Run<string>
    requires UsableDict(dict)
  {
    match Number.Bounded(|dict|, tape)
    case None => None
    case Some((i, rest)) => Continue(dict, k, length, Start(dict, i), rest)
  }

  // ---------- the in-place fill ----------

  /** Fills out[from..]. A dictionary of one symbol writes only one symbol. */
  method FillBatchedNoRepeat(out: array<char>, from: nat, dict: string, p: Tape) returns (done: bool)
    requires from <= out.Length
    requires from < out.Length ==> 1 <= |dict| <= 256
    modifies out, p
    ensures out[..from] == old(out[..from])
    ensures from == out.Length ==> done && p.words == old(p.words)
    ensures from < out.Length && |dict| >= 2 ==>
              Performed(Fill(dict, BatchOf(|dict| - 1).k, out.Length - from, old(p.words)),
                        if done then Some(out[from..]) else None, p.words)
    ensures from < out.Length && |dict| == 1 && done ==> out[from..] == dict + old(out[from + 1..])
    ensures from < out.Length && |dict| == 1 ==> done == (old(p.words) != [])
    ensures from < out.Length && |dict| == 1 && done ==> p.words == old(p.words)[1..]
  {
    if from == out.Length {
      return true;
    }
    var n := |dict|;
    var x := p.Sum64();
    if x == None {
      return false;
    }
    assert [x.value] + p.words == old(p.words);
    if n == 1 {
      OneSymbolDraw(x.value, p.words);
    }
    var first := Number.BoundedFrom(x.value, n, p);
    if first == None {
      return false;
    }
    var lastIdx := first.value;
    out[from] := dict[lastIdx];
    assert out[from..from + 1] == [dict[lastIdx]];
    if from + 1 == out.Length || n < 2 {
      assert from + 1 == out.Length ==> out[from..] == out[from..from + 1];
      return true;
    }
    done := FillBatches(out, from, dict, BatchOf(n - 1).k, lastIdx, p);
  }

  /** One symbol takes one word. */
  lemma OneSymbolDraw(x: Word, tape: seq<Word>)
    ensures Number.Bounded(1, [x] + tape) == Some((0, tape))
  {
    assert ([x] + tape)[1..] == tape;
  }

  /** The cells of out from position from on start with s. */
  ghost predicate Holds(out: array<char>, from: nat, s: string)
    reads out
  {
    from + |s| <= out.Length && forall j | 0 <= j < |s| :: out[from + j] == s[j]
  }

  /** The batches after the first symbol. */
  method FillBatches(out: array<char>, from: nat, dict: string, k: nat, first: nat, p: Tape) returns (done: bool)
    requires UsableDict(dict) && from < out.Length && first < |dict| && out[from] == dict[first]
    modifies out, p
    ensures out[..from] == old(out[..from])
    ensures Performed(Continue(dict, k, out.Length - from, Start(dict, first), old(p.words)),
                      if done then Some(out[from..]) else None, p.words)
  {
    var length := out.Length - from;
    var lastIdx, i := first, 1;
    ghost var s := Start(dict, first);
    hide Feed, Place, AfterWord, Continue;
    ContinueFull(dict, k, length);
    while i < length
      invariant 1 <= i == |s.out| <= length && s.lastIdx == lastIdx
      invariant out[..from] == old(out[..from])
      invariant ValidSampler(dict, s) && Holds(out, from, s.out)
      invariant Continue(dict, k, length, s, p.words) == Continue(dict, k, length, Start(dict, first), old(p.words))
      decreases |p.words|
    {
      ghost var tape := p.words;
      var x := p.Sum64();
      if x == None {
        return false;
      }
      assert tape == [x.value] + p.words;
      ContinueStep(dict, k, length, s, x.value, p.words);
      i, lastIdx := FillBatch(out, from, dict, k, i, lastIdx, x.value, s);
      s := AfterWord(dict, k, length, s, x.value);
    }
    assert out[from..] == s.out;
    done := true;
  }

  /** One word. A rejected word restores the state from before its batch; what
      it wrote past i0 is overwritten later. */
  method FillBatch(out: array<char>, from: nat, dict: string, k: nat, i0: nat, lastIdx0: nat, x: Word, ghost s0: Sampler)
    returns (i: nat, lastIdx: nat)
    requires UsableDict(dict) && ValidSampler(dict, s0)
    requires |s0.out| == i0 < out.Length - from && s0.lastIdx == lastIdx0 && Holds(out, from, s0.out)
    modifies out
    ensures out[..from] == old(out[..from])
    ensures var s := AfterWord(dict, k, out.Length - from, s0, x);
      |s.out| == i <= out.Length - from && s.lastIdx == lastIdx && Holds(out, from, s.out)
  {
    var length, n1 := out.Length - from, |dict| - 1;
    i, lastIdx := i0, lastIdx0;
    var lo: Word, prod: Word, d := x, 1, 0;
    ghost var s := s0;
    hide Place, SkipPast, Hi, Lo, WrapMul, Peel, PeelOne;
    while d < k && i < length
      invariant d <= k && i0 <= i == |s.out| <= length && s.lastIdx == lastIdx
      invariant out[..from] == old(out[..from])
      invariant ValidSampler(dict, s) && s0.out <= s.out && Holds(out, from, s.out)
      invariant Peel(dict, length, PeelState(s, lo, prod), k - d) == Peel(dict, length, PeelState(s0, x, 1), k)
    {
      PeelStep(dict, length, PeelState(s, lo, prod), k - d);
      PlacePrefix(dict, s, Hi(lo, n1));
      var hi := Hi(lo, n1);
      lo, prod := Lo(lo, n1), WrapMul(prod, n1);
      i, lastIdx := PlaceInto(out, from, dict, i, lastIdx, hi, s);
      s := Place(dict, s, hi);
      d := d + 1;
    }
    PeelStops(dict, length, PeelState(s, lo, prod), k - d);
    if lo < prod && lo < Threshold(prod) {
      i, lastIdx := i0, lastIdx0;
    }
  }

  lemma PeelStep(dict: string, length: nat, p: PeelState, budget: nat)
    requires UsableDict(dict) && ValidSampler(dict, p.s) && budget > 0 && |p.s.out| < length
    ensures var n1 := |dict| - 1;
      Peel(dict, length, p, budget)
      == Peel(dict, length, PeelState(Place(dict, p.s, Hi(p.lo, n1)), Lo(p.lo, n1), WrapMul(p.prod, n1)), budget - 1)
  {
  }

  lemma PeelStops(dict: string, length: nat, p: PeelState, budget: nat)
    requires UsableDict(dict) && ValidSampler(dict, p.s) && (budget == 0 || |p.s.out| >= length)
    ensures Peel(dict, length, p, budget) == p
  {
  }

  lemma PlacePrefix(dict: string, s: Sampler, digit: nat)
    requires UsableDict(dict) && ValidSampler(dict, s) && digit < |dict| - 1
    ensures s.out <= Place(dict, s, digit).out
  {
  }

  /** One position: written unless it repeats the last symbol. */
  method PlaceInto(out: array<char>, from: nat, dict: string, i0: nat, lastIdx0: nat, digit: nat, ghost s: Sampler)
    returns (i: nat, lastIdx: nat)
    requires UsableDict(dict) && ValidSampler(dict, s) && digit < |dict| - 1
    requires |s.out| == i0 < out.Length - from && s.lastIdx == lastIdx0 && Holds(out, from, s.out)
    modifies out
    ensures out[..from] == old(out[..from])
    ensures var r := Place(dict, s, digit);
      i == |r.out| <= out.Length - from && lastIdx == r.lastIdx && Holds(out, from, r.out)
    ensures i0 <= i
  {
    i, lastIdx := i0, lastIdx0;
    var idx := digit + SkipPast(digit, lastIdx);
    if dict[idx] != dict[lastIdx] {
      out[from + i] := dict[idx];
      i, lastIdx := i + 1, idx;
    }
  }
}
