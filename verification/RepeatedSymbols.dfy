/** The batched sampler over a dictionary with repeated symbols: how many words
    lead to each way through a batch, and to each position written first. */
module RepeatedSymbols {
  import opened Wrappers
  import opened Words
  import opened NoRepeat
  import opened NoRepeatRuns
  import opened LostDigits
  import Digits

  /** The digits of an accepted word, skipped symbols included. */
  function Batches(dict: string, k: nat, length: nat, s: Sampler): Word -> Option<seq<nat>>
    requires UsableDict(dict) && ValidSampler(dict, s)
  {
    (x: Word) => if Feed(dict, k, length, s, x) == None then None else Some(Taken(dict, length, s, x, k))
  }

  /** The digits take a batch from s exactly to its end. */
  predicate Complete(dict: string, k: nat, length: nat, s: Sampler, ds: seq<nat>)
    requires UsableDict(dict) && ValidSampler(dict, s)
    decreases k
  {
    if k == 0 || |s.out| >= length then ds == []
    else ds != [] && ds[0] < |dict| - 1 && Complete(dict, k - 1, length, Place(dict, s, ds[0]), ds[1..])
  }

  lemma {:induction false} TakenWhen(dict: string, k: nat, length: nat, s: Sampler, x: Word, ds: seq<nat>)
    requires UsableDict(dict) && ValidSampler(dict, s)
    ensures Taken(dict, length, s, x, k) == ds
       <==> Complete(dict, k, length, s, ds) && Digits.Peeled(x, |dict| - 1, |ds|) == ds
    decreases k
  {
    if k > 0 && |s.out| < length && ds != [] {
      var n1 := |dict| - 1;
      assert ds == [ds[0]] + ds[1..];
      if ds[0] == Hi(x, n1) {
        TakenWhen(dict, k - 1, length, Place(dict, s, ds[0]), Lo(x, n1), ds[1..]);
      }
      hide Place;
    }
  }

  lemma {:induction false} CompleteDigits(dict: string, k: nat, length: nat, s: Sampler, ds: seq<nat>)
    requires UsableDict(dict) && ValidSampler(dict, s) && Complete(dict, k, length, s, ds)
    ensures |ds| <= k && Digits.AreDigits(|dict| - 1, ds)
    decreases k
  {
    if k > 0 && |s.out| < length {
      CompleteDigits(dict, k - 1, length, Place(dict, s, ds[0]), ds[1..]);
      assert forall i | 0 < i < |ds| :: ds[i] == ds[1..][i - 1];
    }
  }

  lemma BatchIs(dict: string, k: nat, length: nat, s: Sampler, x: Word, ds: seq<nat>)
    requires UsableDict(dict) && ValidSampler(dict, s) && Pow(|dict| - 1, k) < TWO64
    requires Complete(dict, k, length, s, ds) && Pow(|dict| - 1, |ds|) < TWO64
    ensures Batches(dict, k, length, s)(x) == Some(ds) <==> Digits.DrawDigits(x, |dict| - 1, |ds|) == Some(ds)
  {
    TakenWhen(dict, k, length, s, x, ds);
    FeedTakes(dict, k, length, s, x);
  }

  /** For every dictionary, each complete way through a batch has exactly
      floor(2^64 / n1^d) words, where d is how many digits it takes. */
  lemma BatchExact(dict: string, k: nat, length: nat, s: Sampler, ds: seq<nat>)
    requires UsableDict(dict) && ValidSampler(dict, s) && Pow(|dict| - 1, k) < TWO64
    requires Complete(dict, k, length, s, ds)
    ensures |Fiber(Batches(dict, k, length, s), Some(ds))| == TWO64 / Pow(|dict| - 1, |ds|)
  {
    var n1 := |dict| - 1;
    CompleteDigits(dict, k, length, s, ds);
    PowMonotone(n1, |ds|, k);
    Digits.DigitsExact(n1, ds);
    forall x: Word
      ensures Batches(dict, k, length, s)(x) == Some(ds) <==> Digits.Draws(n1, |ds|)(x) == Some(ds)
    {
      BatchIs(dict, k, length, s, x, ds);
    }
    assert Fiber(Batches(dict, k, length, s), Some(ds)) == Fiber(Digits.Draws(n1, |ds|), Some(ds));
  }

  // ---------- ways through a batch that share their first digits ----------

  /** A batch about to start: the dictionary, its budget of digits, the length
      of the output, and the state. */
  datatype Setup = Setup(dict: string, k: nat, length: nat, s: Sampler) {
    predicate Valid() {
      UsableDict(dict) && ValidSampler(dict, s)
    }

    predicate Ended() {
      k == 0 || |s.out| >= length
    }

    /** After one digit. */
    function Next(c: nat): (u: Setup)
      requires Valid() && k > 0 && c < |dict| - 1
      ensures u.Valid()
    {
      Setup(dict, k - 1, length, Place(dict, s, c))
    }

    /** All digits of pre are taken. */
    predicate Opens(pre: seq<nat>)
      requires Valid()
      decreases |pre|
    {
      pre != [] ==> !Ended() && pre[0] < |dict| - 1 && Next(pre[0]).Opens(pre[1..])
    }

    function After(pre: seq<nat>): (u: Setup)
      requires Valid() && Opens(pre)
      ensures u.Valid() && u.dict == dict && u.length == length
      ensures |pre| <= k && u.k == k - |pre|
      decreases |pre|
    {
      if pre == [] then this else Next(pre[0]).After(pre[1..])
    }

    /** pre is a way through the whole batch. */
    predicate Completes(pre: seq<nat>)
      requires Valid()
    {
      Complete(dict, k, length, s, pre)
    }
  }

  lemma {:induction false} CompleteSplit(u: Setup, pre: seq<nat>, rest: seq<nat>)
    requires u.Valid() && u.Opens(pre)
    ensures u.Completes(pre + rest) <==> u.After(pre).Completes(rest)
    decreases |pre|
  {
    if pre == [] {
      assert pre + rest == rest;
    } else {
      assert (pre + rest)[1..] == pre[1..] + rest;
      CompleteSplit(u.Next(pre[0]), pre[1..], rest);
    }
  }

  lemma {:induction false} OpensSnoc(u: Setup, pre: seq<nat>, c: nat)
    requires u.Valid() && u.Opens(pre) && !u.After(pre).Ended() && c < |u.dict| - 1
    ensures u.Opens(pre + [c]) && u.After(pre + [c]) == u.After(pre).Next(c)
    decreases |pre|
  {
    if pre == [] {
      assert [c][1..] == [];
      assert u.Next(c).Opens([]);
      assert pre + [c] == [c];
    } else {
      assert (pre + [c])[1..] == pre[1..] + [c];
      OpensSnoc(u.Next(pre[0]), pre[1..], c);
    }
  }

  /** The ways of accepted words. */
  function Way(u: Setup): Word -> Option<seq<nat>>
    requires u.Valid()
  {
    Batches(u.dict, u.k, u.length, u.s)
  }

  lemma WayCompletes(u: Setup, x: Word)
    requires u.Valid() && Way(u)(x).Some?
    ensures u.Completes(Way(u)(x).value)
  {
    TakenWhen(u.dict, u.k, u.length, u.s, x, Way(u)(x).value);
  }

  lemma WayExact(u: Setup, ds: seq<nat>)
    requires u.Valid() && Pow(|u.dict| - 1, u.k) < TWO64 && u.Completes(ds)
    ensures |Fiber(Way(u), Some(ds))| == Share(|u.dict| - 1, |ds|)
  {
    BatchExact(u.dict, u.k, u.length, u.s, ds);
  }

  /** The words whose way starts with pre and meets ok. */
  ghost function Under(u: Setup, pre: seq<nat>, ok: seq<nat> -> bool): set<Word>
    requires u.Valid()
  {
    set x: Word | x in AllWords() && Way(u)(x).Some? && pre <= Way(u)(x).value && ok(Way(u)(x).value)
  }

  /** No other way starts with a complete one. */
  lemma OnlyWay(u: Setup, pre: seq<nat>, x: Word)
    requires u.Valid() && u.Opens(pre) && u.After(pre).Ended()
    requires Way(u)(x).Some? && pre <= Way(u)(x).value
    ensures Way(u)(x) == Some(pre)
  {
    var ds := Way(u)(x).value;
    WayCompletes(u, x);
    hide Way;
    assert ds == pre + ds[|pre|..];
    CompleteSplit(u, pre, ds[|pre|..]);
    assert ds[|pre|..] == [];
    assert ds == pre;
  }

  /** At the end of a batch. */
  lemma UnderEnd(u: Setup, pre: seq<nat>, ok: seq<nat> -> bool)
    requires u.Valid() && Pow(|u.dict| - 1, u.k) < TWO64
    requires u.Opens(pre) && u.After(pre).Ended()
    ensures |Under(u, pre, ok)| == if ok(pre) then Share(|u.dict| - 1, |pre|) else 0
  {
    assert pre + [] == pre;
    CompleteSplit(u, pre, []);
    WayExact(u, pre);
    hide Way, Complete, Share;
    forall x: Word | Way(u)(x).Some? && pre <= Way(u)(x).value
      ensures Way(u)(x) == Some(pre)
    {
      OnlyWay(u, pre, x);
    }
    assert Under(u, pre, ok) == if ok(pre) then Fiber(Way(u), Some(pre)) else {};
  }

  /** The position that digit c selects after the last one. */
  function Position(last: nat, c: nat): nat {
    if c >= last then c + 1 else c
  }

  /** Those of Under whose next digit selects a position below i. */
  ghost function Below(u: Setup, pre: seq<nat>, ok: seq<nat> -> bool, i: nat): set<Word>
    requires u.Valid() && u.Opens(pre)
  {
    set x: Word | x in Under(u, pre, ok)
      && |Way(u)(x).value| > |pre| && Position(u.After(pre).s.lastIdx, Way(u)(x).value[|pre|]) < i
  }

  /** The digit after pre. */
  lemma NextDigit(u: Setup, pre: seq<nat>, x: Word)
    requires u.Valid() && u.Opens(pre) && !u.After(pre).Ended()
    requires Way(u)(x).Some? && pre <= Way(u)(x).value
    ensures |Way(u)(x).value| > |pre| && Way(u)(x).value[|pre|] < |u.dict| - 1
  {
    var ds := Way(u)(x).value;
    WayCompletes(u, x);
    hide Way;
    assert ds == pre + ds[|pre|..];
    CompleteSplit(u, pre, ds[|pre|..]);
  }

  lemma BelowEnds(u: Setup, pre: seq<nat>, ok: seq<nat> -> bool)
    requires u.Valid() && u.Opens(pre) && !u.After(pre).Ended()
    ensures Below(u, pre, ok, 0) == {}
    ensures Below(u, pre, ok, |u.dict|) == Under(u, pre, ok)
  {
    hide Way;
    forall x | x in Under(u, pre, ok)
      ensures x in Below(u, pre, ok, |u.dict|)
    {
      NextDigit(u, pre, x);
    }
  }

  /** One position more. */
  lemma BelowStep(u: Setup, pre: seq<nat>, ok: seq<nat> -> bool, i: nat)
    requires u.Valid() && u.Opens(pre) && !u.After(pre).Ended() && i < |u.dict|
    ensures var last := u.After(pre).s.lastIdx;
      |Below(u, pre, ok, i + 1)|
      == |Below(u, pre, ok, i)| + if i == last then 0 else |Under(u, pre + [Unskip(i, last)], ok)|
  {
    hide Below, Under;
    var last := u.After(pre).s.lastIdx;
    var more := if i == last then {} else Under(u, pre + [Unskip(i, last)], ok);
    forall x: Word
      ensures x in Below(u, pre, ok, i + 1) <==> x in Below(u, pre, ok, i) || x in more
      ensures !(x in Below(u, pre, ok, i) && x in more)
    {
      BelowMember(u, pre, ok, i, x);
    }
    UnionCard(Below(u, pre, ok, i), more, Below(u, pre, ok, i + 1));
  }

  lemma BelowMember(u: Setup, pre: seq<nat>, ok: seq<nat> -> bool, i: nat, x: Word)
    requires u.Valid() && u.Opens(pre) && !u.After(pre).Ended() && i < |u.dict|
    ensures var last := u.After(pre).s.lastIdx;
      var more := if i == last then {} else Under(u, pre + [Unskip(i, last)], ok);
      && (x in Below(u, pre, ok, i + 1) <==> x in Below(u, pre, ok, i) || x in more)
      && !(x in Below(u, pre, ok, i) && x in more)
  {
    hide Way;
    if Way(u)(x).Some? && pre <= Way(u)(x).value {
      var ds, last := Way(u)(x).value, u.After(pre).s.lastIdx;
      NextDigit(u, pre, x);
      SameDigit(pre, ds, Unskip(i, last));
    } else if Way(u)(x).Some? {
      assert !(pre + [Unskip(i, u.After(pre).s.lastIdx)] <= Way(u)(x).value);
    }
  }

  lemma SameDigit(pre: seq<nat>, ds: seq<nat>, c: nat)
    requires pre <= ds && |ds| > |pre|
    ensures pre + [c] <= ds <==> ds[|pre|] == c
  {
    if ds[|pre|] == c {
      assert ds[..|pre| + 1] == pre + [c];
    }
  }
}
