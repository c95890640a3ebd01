/** When the batched sampler keeps the weights of a dictionary with repeated
    symbols: how many words write each position first, for every dictionary. */
module RepeatedWeights {
  import opened Wrappers
  import opened Words
  import opened Tapes
  import opened Batch
  import opened NoRepeat
  import opened NoRepeatRuns
  import opened RepeatedSymbols
  import opened LostDigits
  import opened Powers
  import Digits

  // ---------- the words of a batch, by symbols ----------

  /** The positions below i that hold c. */
  function Mult(dict: string, c: char, i: nat): (m: nat)
    requires i <= |dict|
    ensures m <= i
  {
    if i == 0 then 0 else Mult(dict, c, i - 1) + if dict[i - 1] == c then 1 else 0
  }

  function Copies(dict: string, c: char): nat {
    Mult(dict, c, |dict|)
  }

  /** The words that continue a batch after d digits, with b digits to go, from
      a state whose last symbol is c and that misses m symbols. */
  function Flow(dict: string, c: char, m: nat, b: nat, d: nat): int
    requires |dict| >= 2
    decreases b, 0
  {
    if b == 0 || m == 0 then Share(|dict| - 1, d)
    else (Copies(dict, c) - 1) * Flow(dict, c, m, b - 1, d + 1) + FlowElse(dict, c, m - 1, b - 1, d + 1, |dict|)
  }

  /** The part of Flow that writes a position below i. */
  function FlowElse(dict: string, c: char, m: nat, b: nat, d: nat, i: nat): int
    requires |dict| >= 2 && i <= |dict|
    decreases b, i
  {
    if i == 0 then 0
    else FlowElse(dict, c, m, b, d, i - 1) + if dict[i - 1] == c then 0 else Flow(dict, dict[i - 1], m, b, d)
  }

  function Missing(u: Setup): nat {
    if |u.s.out| >= u.length then 0 else u.length - |u.s.out|
  }

  function Last(u: Setup): char
    requires u.Valid()
  {
    u.dict[u.s.lastIdx]
  }

  function Any(): seq<nat> -> bool {
    (ds: seq<nat>) => true
  }

  /** 1 once last lies below i. */
  function Passed(last: nat, i: nat): nat {
    if last < i then 1 else 0
  }

  /** The digit of position i leads to that position, or skips. */
  lemma NextAt(u: Setup, i: nat)
    requires u.Valid() && u.k > 0 && i < |u.dict| && i != u.s.lastIdx
    ensures Unskip(i, u.s.lastIdx) < |u.dict| - 1
    ensures u.Next(Unskip(i, u.s.lastIdx)).s
         == if u.dict[i] == Last(u) then u.s else Sampler(u.s.out + [u.dict[i]], i)
  {
  }

  lemma {:induction false} FlowCount(u: Setup, pre: seq<nat>)
    requires u.Valid() && Pow(|u.dict| - 1, u.k) < TWO64 && u.Opens(pre)
    ensures var v := u.After(pre);
      |Under(u, pre, Any())| == Flow(u.dict, Last(v), Missing(v), v.k, |pre|)
    decreases u.k - |pre|, |u.dict| + 1
  {
    if u.After(pre).Ended() {
      UnderEnd(u, pre, Any());
    } else {
      hide Below, Under;
      BelowEnds(u, pre, Any());
      FlowBelow(u, pre, |u.dict|);
    }
  }

  /** The words that go on to position i. */
  function FlowTo(dict: string, c: char, i: nat, m: nat, b: nat, d: nat): int
    requires i < |dict| && m > 0
    requires |dict| >= 2
  {
    if dict[i] == c then Flow(dict, c, m, b, d) else Flow(dict, dict[i], m - 1, b, d)
  }

  lemma {:induction false} FlowChild(u: Setup, pre: seq<nat>, i: nat)
    requires u.Valid() && Pow(|u.dict| - 1, u.k) < TWO64 && u.Opens(pre)
    requires !u.After(pre).Ended() && i < |u.dict| && i != u.After(pre).s.lastIdx
    ensures var v := u.After(pre);
      |Under(u, pre + [Unskip(i, v.s.lastIdx)], Any())| == FlowTo(u.dict, Last(v), i, Missing(v), v.k - 1, |pre| + 1)
    decreases u.k - |pre|, 0
  {
    var v := u.After(pre);
    var c := Unskip(i, v.s.lastIdx);
    NextAt(v, i);
    OpensSnoc(u, pre, c);
    FlowCount(u, pre + [c]);
  }

  lemma {:induction false} FlowBelow(u: Setup, pre: seq<nat>, i: nat)
    requires u.Valid() && Pow(|u.dict| - 1, u.k) < TWO64 && u.Opens(pre)
    requires !u.After(pre).Ended() && i <= |u.dict|
    ensures var v := u.After(pre);
      |Below(u, pre, Any(), i)|
      == (Mult(u.dict, Last(v), i) - Passed(v.s.lastIdx, i)) * Flow(u.dict, Last(v), Missing(v), v.k - 1, |pre| + 1)
         + FlowElse(u.dict, Last(v), Missing(v) - 1, v.k - 1, |pre| + 1, i)
    decreases u.k - |pre|, i
  {
    hide Below, Under, Flow, Unskip, Any, Setup.After, Setup.Opens;
    if i == 0 {
      BelowEnds(u, pre, Any());
    } else {
      var v := u.After(pre);
      FlowBelow(u, pre, i - 1);
      BelowStep(u, pre, Any(), i - 1);
      if i - 1 != v.s.lastIdx {
        FlowChild(u, pre, i - 1);
      }
      MulSucc(Mult(u.dict, Last(v), i - 1) - Passed(v.s.lastIdx, i - 1), Flow(u.dict, Last(v), Missing(v), v.k - 1, |pre| + 1));
    }
  }

  // ---------- the position that a word writes first ----------

  function FirstPosition(dict: string, s: Sampler, ds: seq<nat>): Option<nat>
    requires UsableDict(dict) && ValidSampler(dict, s)
  {
    if ds == [] || ds[0] >= |dict| - 1 then None
    else if Place(dict, s, ds[0]) == s then FirstPosition(dict, s, ds[1..])
    else Some(Place(dict, s, ds[0]).lastIdx)
  }

  /** The position that a word writes next after the digits of base, or None
      when it is rejected, starts with other digits, or skips to its end. */
  function WrittenAfter(u: Setup, base: seq<nat>): Word -> Option<nat>
    requires u.Valid() && u.Opens(base)
  {
    (x: Word) =>
      if Way(u)(x) == None || !(base <= Way(u)(x).value) then None
      else FirstPosition(u.dict, u.After(base).s, Way(u)(x).value[|base|..])
  }

  /** The position that a word writes first. */
  function FirstWritten(u: Setup): Word -> Option<nat>
    requires u.Valid()
  {
    WrittenAfter(u, [])
  }

  /** The ways that start with base and write p next. */
  function Firsts(u: Setup, base: seq<nat>, p: nat): seq<nat> -> bool
    requires u.Valid() && u.Opens(base)
  {
    (ds: seq<nat>) => base <= ds && FirstPosition(u.dict, u.After(base).s, ds[|base|..]) == Some(p)
  }

  /** A word that writes a position next writes its symbol; any other word that
      starts with base leaves the state after base as it was. */
  lemma NextIsWritten(u: Setup, base: seq<nat>, x: Word)
    requires u.Valid() && Pow(|u.dict| - 1, u.k) < TWO64 && u.Opens(base)
    requires Way(u)(x).Some? && base <= Way(u)(x).value
    ensures var s, s' := u.After(base).s, AfterWord(u.dict, u.k, u.length, u.s, x);
      match WrittenAfter(u, base)(x)
      case None => s' == s
      case Some(p) => p < |u.dict| && s.out + [u.dict[p]] <= s'.out
  {
    WayPlaces(u, x);
    hide Way, AfterWord, FirstPosition, PlaceAll;
    var ds := Way(u)(x).value;
    assert ds == base + ds[|base|..];
    PlacedAfter(u, base, ds[|base|..]);
    FirstPlaced(u.dict, u.After(base).s, ds[|base|..]);
  }

  lemma {:induction false} PlacedAfter(u: Setup, base: seq<nat>, rest: seq<nat>)
    requires u.Valid() && u.Opens(base) && Digits.AreDigits(|u.dict| - 1, base + rest)
    ensures Digits.AreDigits(|u.dict| - 1, rest)
    ensures PlaceAll(u.dict, u.s, base + rest) == PlaceAll(u.dict, u.After(base).s, rest)
    decreases |base|
  {
    assert forall i | 0 <= i < |rest| :: rest[i] == (base + rest)[|base| + i];
    if base == [] {
      assert base + rest == rest;
    } else {
      assert (base + rest)[1..] == base[1..] + rest;
      PlacedAfter(u.Next(base[0]), base[1..], rest);
    }
  }

  /** A word that writes a position first writes its symbol; any other word
      leaves the state as it was. */
  lemma FirstIsWritten(u: Setup, x: Word)
    requires u.Valid() && Pow(|u.dict| - 1, u.k) < TWO64
    ensures var s := AfterWord(u.dict, u.k, u.length, u.s, x);
      match FirstWritten(u)(x)
      case None => s == u.s
      case Some(p) => p < |u.dict| && u.s.out + [u.dict[p]] <= s.out
  {
    WayPlaces(u, x);
    hide *;
    FirstWrittenIs(u, x);
    if Way(u)(x).Some? {
      FirstPlaced(u.dict, u.s, Way(u)(x).value);
    }
  }

  lemma FirstWrittenIs(u: Setup, x: Word)
    requires u.Valid()
    ensures FirstWritten(u)(x) == if Way(u)(x) == None then None else FirstPosition(u.dict, u.s, Way(u)(x).value)
  {
    hide Way, FirstPosition;
    if Way(u)(x).Some? {
      assert Way(u)(x).value[0..] == Way(u)(x).value;
    }
  }

  /** The digits of a way are placed one after the other. */
  lemma WayPlaces(u: Setup, x: Word)
    requires u.Valid() && Pow(|u.dict| - 1, u.k) < TWO64
    ensures match Way(u)(x)
      case None => AfterWord(u.dict, u.k, u.length, u.s, x) == u.s
      case Some(ds) =>
        && Digits.AreDigits(|u.dict| - 1, ds)
        && AfterWord(u.dict, u.k, u.length, u.s, x) == PlaceAll(u.dict, u.s, ds)
  {
    FeedTakes(u.dict, u.k, u.length, u.s, x);
    hide Feed, Taken, PlaceAll, Digits.DrawDigits, Digits.Peeled;
  }

  lemma {:induction false} PlaceAllGrows(dict: string, s: Sampler, ds: seq<nat>)
    requires UsableDict(dict) && ValidSampler(dict, s) && Digits.AreDigits(|dict| - 1, ds)
    ensures s.out <= PlaceAll(dict, s, ds).out
    decreases |ds|
  {
    if ds != [] {
      PlaceAllGrows(dict, Place(dict, s, ds[0]), ds[1..]);
    }
  }

  lemma {:induction false} FirstPlaced(dict: string, s: Sampler, ds: seq<nat>)
    requires UsableDict(dict) && ValidSampler(dict, s) && Digits.AreDigits(|dict| - 1, ds)
    ensures match FirstPosition(dict, s, ds)
      case None => PlaceAll(dict, s, ds) == s
      case Some(p) => p < |dict| && s.out + [dict[p]] <= PlaceAll(dict, s, ds).out
    decreases |ds|
  {
    if ds != [] {
      if Place(dict, s, ds[0]) == s {
        FirstPlaced(dict, s, ds[1..]);
      } else {
        PlaceAllGrows(dict, Place(dict, s, ds[0]), ds[1..]);
      }
    }
  }

  /** The words of a batch that write a position with symbol c first, from a
      state whose last symbol is a. */
  function FirstFlow(dict: string, a: char, c: char, m: nat, b: nat, d: nat): int
    requires |dict| >= 2
    decreases b
  {
    if b == 0 || m == 0 then 0
    else (Copies(dict, a) - 1) * FirstFlow(dict, a, c, m, b - 1, d + 1) + Flow(dict, c, m - 1, b - 1, d + 1)
  }

  lemma {:induction false} AfterGrows(u: Setup, pre: seq<nat>)
    requires u.Valid() && u.Opens(pre)
    ensures u.s.out <= u.After(pre).s.out
    decreases |pre|
  {
    if pre != [] {
      AfterGrows(u.Next(pre[0]), pre[1..]);
    }
  }

  /** Skipped digits do not decide the first position. */
  lemma {:induction false} SkippedFirst(u: Setup, pre: seq<nat>, rest: seq<nat>)
    requires u.Valid() && u.Opens(pre) && u.After(pre).s == u.s
    ensures FirstPosition(u.dict, u.s, pre + rest) == FirstPosition(u.dict, u.s, rest)
    decreases |pre|
  {
    if pre == [] {
      assert pre + rest == rest;
    } else {
      assert (pre + rest)[1..] == pre[1..] + rest;
      AfterGrows(u.Next(pre[0]), pre[1..]);
      SkippedFirst(u.Next(pre[0]), pre[1..], rest);
    }
  }

  /** The digit after the skipped ones decides it, unless it skips too. */
  lemma DecidedFirst(u: Setup, pre: seq<nat>, i: nat, ds: seq<nat>)
    requires u.Valid() && u.Opens(pre) && u.After(pre).s == u.s && !u.After(pre).Ended()
    requires i < |u.dict| && u.dict[i] != Last(u)
    requires pre + [Unskip(i, u.s.lastIdx)] <= ds
    ensures FirstPosition(u.dict, u.s, ds) == Some(i)
  {
    var c := Unskip(i, u.s.lastIdx);
    var rest := [c] + ds[|pre| + 1..];
    assert ds == pre + rest;
    SkippedFirst(u, pre, rest);
    PlaceAt(u.dict, u.s, i);
  }

  /** A longer prefix continues from the state after base. */
  lemma {:induction false} AfterSplit(u: Setup, base: seq<nat>, pre: seq<nat>)
    requires u.Valid() && u.Opens(base) && u.Opens(pre) && base <= pre
    ensures u.After(base).Opens(pre[|base|..]) && u.After(base).After(pre[|base|..]) == u.After(pre)
    decreases |base|
  {
    if base == [] {
      assert pre[0..] == pre;
    } else {
      assert pre[1..][|base| - 1..] == pre[|base|..];
      AfterSplit(u.Next(base[0]), base[1..], pre[1..]);
    }
  }

  /** Nothing is written between base and pre. */
  predicate Skipped(u: Setup, base: seq<nat>, pre: seq<nat>)
    requires u.Valid()
  {
    base <= pre && u.Opens(base) && u.Opens(pre) && u.After(pre).s == u.After(base).s
  }

  lemma DecidedNext(u: Setup, base: seq<nat>, pre: seq<nat>, i: nat, ds: seq<nat>)
    requires u.Valid() && Skipped(u, base, pre) && !u.After(pre).Ended()
    requires i < |u.dict| && u.dict[i] != Last(u.After(pre))
    requires pre + [Unskip(i, u.After(pre).s.lastIdx)] <= ds
    ensures base <= ds && FirstPosition(u.dict, u.After(base).s, ds[|base|..]) == Some(i)
  {
    var c := Unskip(i, u.After(pre).s.lastIdx);
    AfterSplit(u, base, pre);
    assert pre <= ds by {
      assert pre == ds[..|pre|];
    }
    assert pre[|base|..] + [c] <= ds[|base|..] by {
      assert ds[..|pre| + 1] == pre + [c];
      assert ds[|base|..][..|pre| + 1 - |base|] == pre[|base|..] + [c];
    }
    DecidedFirst(u.After(base), pre[|base|..], i, ds[|base|..]);
  }

  lemma UnderDecided(u: Setup, base: seq<nat>, pre: seq<nat>, p: nat, i: nat)
    requires u.Valid() && Skipped(u, base, pre) && !u.After(pre).Ended()
    requires i < |u.dict| && u.dict[i] != Last(u.After(pre))
    ensures var more := pre + [Unskip(i, u.After(pre).s.lastIdx)];
      Under(u, more, Firsts(u, base, p)) == if i == p then Under(u, more, Any()) else {}
  {
    hide Way, FirstPosition, Setup.After, Setup.Opens;
    var more := pre + [Unskip(i, u.After(pre).s.lastIdx)];
    forall x: Word | Way(u)(x).Some? && more <= Way(u)(x).value
      ensures Firsts(u, base, p)(Way(u)(x).value) <==> i == p
    {
      DecidedNext(u, base, pre, i, Way(u)(x).value);
    }
  }

  /** The words that go on to position i and write p next. */
  function FirstTo(dict: string, a: char, p: nat, i: nat, m: nat, b: nat, d: nat): int
    requires i < |dict| && p < |dict| && m > 0
    requires |dict| >= 2
  {
    if dict[i] == a then FirstFlow(dict, a, dict[p], m, b, d)
    else if i == p then Flow(dict, dict[p], m - 1, b, d)
    else 0
  }

  lemma {:induction false} FirstChild(u: Setup, base: seq<nat>, pre: seq<nat>, p: nat, i: nat)
    requires u.Valid() && Pow(|u.dict| - 1, u.k) < TWO64 && Skipped(u, base, pre)
    requires p < |u.dict| && u.dict[p] != Last(u.After(pre))
    requires !u.After(pre).Ended() && i < |u.dict| && i != u.After(pre).s.lastIdx
    ensures var v := u.After(pre);
      |Under(u, pre + [Unskip(i, v.s.lastIdx)], Firsts(u, base, p))|
      == FirstTo(u.dict, Last(v), p, i, Missing(v), v.k - 1, |pre| + 1)
    decreases u.k - |pre|, 0
  {
    hide Under, FirstPosition, Firsts;
    var v := u.After(pre);
    var c := Unskip(i, v.s.lastIdx);
    NextAt(v, i);
    OpensSnoc(u, pre, c);
    hide Setup.After, Setup.Opens, Unskip;
    if u.dict[i] == Last(v) {
      FirstCount(u, base, pre + [c], p);
    } else {
      UnderDecided(u, base, pre, p, i);
      FlowCount(u, pre + [c]);
    }
  }

  lemma {:induction false} FirstBelow(u: Setup, base: seq<nat>, pre: seq<nat>, p: nat, i: nat)
    requires u.Valid() && Pow(|u.dict| - 1, u.k) < TWO64 && Skipped(u, base, pre)
    requires p < |u.dict| && u.dict[p] != Last(u.After(pre))
    requires !u.After(pre).Ended() && i <= |u.dict|
    ensures var v := u.After(pre);
      |Below(u, pre, Firsts(u, base, p), i)|
      == (Mult(u.dict, Last(v), i) - Passed(v.s.lastIdx, i)) * FirstFlow(u.dict, Last(v), u.dict[p], Missing(v), v.k - 1, |pre| + 1)
         + if p < i then Flow(u.dict, u.dict[p], Missing(v) - 1, v.k - 1, |pre| + 1) else 0
    decreases u.k - |pre|, i
  {
    hide Below, Under, Flow, FirstFlow, Firsts, FirstPosition, Unskip, Setup.After, Setup.Opens;
    var v := u.After(pre);
    if i == 0 {
      BelowEnds(u, pre, Firsts(u, base, p));
    } else {
      FirstBelow(u, base, pre, p, i - 1);
      BelowStep(u, pre, Firsts(u, base, p), i - 1);
      if i - 1 != v.s.lastIdx {
        FirstChild(u, base, pre, p, i - 1);
      }
      MulSucc(Mult(u.dict, Last(v), i - 1) - Passed(v.s.lastIdx, i - 1),
              FirstFlow(u.dict, Last(v), u.dict[p], Missing(v), v.k - 1, |pre| + 1));
    }
  }

  /** A way that ends here writes nothing more. */
  lemma NothingNext(u: Setup, base: seq<nat>, pre: seq<nat>, p: nat)
    requires u.Valid() && Skipped(u, base, pre)
    ensures !Firsts(u, base, p)(pre)
  {
    AfterSplit(u, base, pre);
    assert pre[|base|..] + [] == pre[|base|..];
    SkippedFirst(u.After(base), pre[|base|..], []);
  }

  lemma {:induction false} FirstCount(u: Setup, base: seq<nat>, pre: seq<nat>, p: nat)
    requires u.Valid() && Pow(|u.dict| - 1, u.k) < TWO64 && Skipped(u, base, pre)
    requires p < |u.dict| && u.dict[p] != Last(u.After(pre))
    ensures var v := u.After(pre);
      |Under(u, pre, Firsts(u, base, p))| == FirstFlow(u.dict, Last(v), u.dict[p], Missing(v), v.k, |pre|)
    decreases u.k - |pre|, |u.dict| + 1
  {
    hide Below, Under, Firsts, Setup.After, Setup.Opens;
    if u.After(pre).Ended() {
      UnderEnd(u, pre, Firsts(u, base, p));
      NothingNext(u, base, pre, p);
    } else {
      BelowEnds(u, pre, Firsts(u, base, p));
      FirstBelow(u, base, pre, p, |u.dict|);
    }
  }

  /** The words that start with base and write position p next, for every
      dictionary, state and base. */
  lemma WrittenExact(u: Setup, base: seq<nat>, p: nat)
    requires u.Valid() && Pow(|u.dict| - 1, u.k) < TWO64 && u.Opens(base)
    requires p < |u.dict| && u.dict[p] != Last(u.After(base))
    ensures var v := u.After(base);
      |Fiber(WrittenAfter(u, base), Some(p))| == FirstFlow(u.dict, Last(v), u.dict[p], Missing(v), v.k, |base|)
  {
    hide Setup.After, Setup.Opens, WrittenAfter, Under, Firsts, FirstFlow, Fiber;
    FirstCount(u, base, base, p);
    WrittenFiber(u, base, p);
  }

  lemma WrittenFiber(u: Setup, base: seq<nat>, p: nat)
    requires u.Valid() && u.Opens(base)
    ensures Fiber(WrittenAfter(u, base), Some(p)) == Under(u, base, Firsts(u, base, p))
  {
    hide WrittenAfter, Firsts, Way, Setup.Opens;
    forall x: Word
      ensures WrittenAfter(u, base)(x) == Some(p)
         <==> Way(u)(x).Some? && base <= Way(u)(x).value && Firsts(u, base, p)(Way(u)(x).value)
    {
      WrittenWhen(u, base, p, x);
    }
  }

  lemma WrittenWhen(u: Setup, base: seq<nat>, p: nat, x: Word)
    requires u.Valid() && u.Opens(base)
    ensures WrittenAfter(u, base)(x) == Some(p)
       <==> Way(u)(x).Some? && base <= Way(u)(x).value && Firsts(u, base, p)(Way(u)(x).value)
  {
    hide Way, FirstPosition, Setup.After, Setup.Opens;
  }

  // ---------- what fair means ----------

  /** After the digits of base, every position that does not hold the last
      symbol is written next by equally many words. */
  ghost predicate Fair(u: Setup, base: seq<nat>)
    requires u.Valid() && u.Opens(base)
  {
    var c := Last(u.After(base));
    forall p, q | 0 <= p < |u.dict| && 0 <= q < |u.dict| && u.dict[p] != c && u.dict[q] != c ::
      |Fiber(WrittenAfter(u, base), Some(p))| == |Fiber(WrittenAfter(u, base), Some(q))|
  }

  /** For every symbol of every batch: in every state, whatever the output still
      needs and whatever the word has written or skipped so far. */
  ghost predicate KeepsWeights(dict: string, k: nat)
    requires UsableDict(dict)
  {
    forall s: Sampler, length: nat, base: seq<nat>
      | ValidSampler(dict, s) && Setup(dict, k, length, s).Opens(base) :: Fair(Setup(dict, k, length, s), base)
  }

  predicate EqualCopies(dict: string) {
    forall p, q | 0 <= p < |dict| && 0 <= q < |dict| :: Copies(dict, dict[p]) == Copies(dict, dict[q])
  }

  predicate AtMostTwoSymbols(dict: string) {
    forall p, q, r | 0 <= p < |dict| && 0 <= q < |dict| && 0 <= r < |dict| ::
      dict[p] == dict[q] || dict[q] == dict[r] || dict[p] == dict[r]
  }

  // ---------- when weights are kept ----------

  /** Two symbols whose continuations have equally many words. */
  ghost predicate SameFlow(dict: string, c: char, e: char, m: nat, k: nat)
    requires |dict| >= 2
  {
    forall b: nat, d: nat | b + d <= k :: Flow(dict, c, m, b, d) == Flow(dict, e, m, b, d)
  }

  lemma {:induction false} FirstFlowSame(dict: string, a: char, c: char, e: char, m: nat, b: nat, d: nat, k: nat)
    requires |dict| >= 2 && b + d <= k && (m > 0 ==> SameFlow(dict, c, e, m - 1, k))
    ensures FirstFlow(dict, a, c, m, b, d) == FirstFlow(dict, a, e, m, b, d)
    decreases b
  {
    hide Flow;
    if b > 0 && m > 0 {
      FirstFlowSame(dict, a, c, e, m, b - 1, d + 1, k);
    }
  }

  lemma SameFlowFair(u: Setup, base: seq<nat>)
    requires u.Valid() && Pow(|u.dict| - 1, u.k) < TWO64 && u.Opens(base)
    requires var v := u.After(base);
      forall p, q | 0 <= p < |u.dict| && 0 <= q < |u.dict| && u.dict[p] != Last(v) && u.dict[q] != Last(v) ::
        Missing(v) > 0 ==> SameFlow(u.dict, u.dict[p], u.dict[q], Missing(v) - 1, u.k)
    ensures Fair(u, base)
  {
    hide WrittenAfter, FirstFlow, SameFlow, Fiber, Setup.After, Setup.Opens;
    var v := u.After(base);
    forall p, q | 0 <= p < |u.dict| && 0 <= q < |u.dict| && u.dict[p] != Last(v) && u.dict[q] != Last(v)
      ensures |Fiber(WrittenAfter(u, base), Some(p))| == |Fiber(WrittenAfter(u, base), Some(q))|
    {
      WrittenExact(u, base, p);
      WrittenExact(u, base, q);
      FirstFlowSame(u.dict, Last(v), u.dict[p], u.dict[q], Missing(v), v.k, |base|, u.k);
    }
  }

  /** With at most one symbol missing the weights are always kept. */
  lemma LastSymbolFair(u: Setup, base: seq<nat>)
    requires u.Valid() && Pow(|u.dict| - 1, u.k) < TWO64 && u.Opens(base) && Missing(u.After(base)) <= 1
    ensures Fair(u, base)
  {
    hide Fair, Setup.After, Setup.Opens;
    SameFlowFair(u, base);
  }

  lemma {:induction false} FlowElseConst(dict: string, c: char, m: nat, b: nat, d: nat, i: nat, w: int)
    requires |dict| >= 2 && i <= |dict|
    requires forall q | 0 <= q < |dict| :: Flow(dict, dict[q], m, b, d) == w
    ensures FlowElse(dict, c, m, b, d, i) == (i - Mult(dict, c, i)) * w
  {
    hide Flow;
    if i > 0 {
      FlowElseConst(dict, c, m, b, d, i - 1, w);
      if dict[i - 1] == c {
        assert i - Mult(dict, c, i) == i - 1 - Mult(dict, c, i - 1);
      } else {
        MulSucc(i - 1 - Mult(dict, c, i - 1), w);
      }
    }
  }

  /** One digit more, when all other symbols continue in w ways. */
  lemma FlowStep(dict: string, c: char, m: nat, b: nat, d: nat, w: int)
    requires |dict| >= 2 && m > 0 && b > 0
    requires forall q | 0 <= q < |dict| :: Flow(dict, dict[q], m - 1, b - 1, d + 1) == w
    ensures Flow(dict, c, m, b, d)
         == (Copies(dict, c) - 1) * Flow(dict, c, m, b - 1, d + 1) + (|dict| - Copies(dict, c)) * w
  {
    FlowElseConst(dict, c, m - 1, b - 1, d + 1, |dict|, w);
  }

  // ---------- symbols that occur equally often ----------

  lemma {:induction false} FlowEqual(dict: string, c: char, e: char, m: nat, b: nat, d: nat)
    requires |dict| >= 2 && EqualCopies(dict) && c in dict && e in dict
    ensures Flow(dict, c, m, b, d) == Flow(dict, e, m, b, d)
    decreases b
  {
    if b > 0 && m > 0 {
      var w := Flow(dict, dict[0], m - 1, b - 1, d + 1);
      forall q | 0 <= q < |dict|
        ensures Flow(dict, dict[q], m - 1, b - 1, d + 1) == w
      {
        FlowEqual(dict, dict[q], dict[0], m - 1, b - 1, d + 1);
      }
      FlowStep(dict, c, m, b, d, w);
      FlowStep(dict, e, m, b, d, w);
      FlowEqual(dict, c, e, m, b - 1, d + 1);
      assert Copies(dict, c) == Copies(dict, e);
    }
  }

  lemma EqualCopiesSameFlow(dict: string, c: char, e: char, m: nat, k: nat)
    requires |dict| >= 2 && EqualCopies(dict) && c in dict && e in dict
    ensures SameFlow(dict, c, e, m, k)
  {
    forall b: nat, d: nat | b + d <= k
      ensures Flow(dict, c, m, b, d) == Flow(dict, e, m, b, d)
    {
      FlowEqual(dict, c, e, m, b, d);
    }
  }

  lemma EqualCopiesFair(u: Setup, base: seq<nat>)
    requires u.Valid() && u.Opens(base) && Pow(|u.dict| - 1, u.k) < TWO64 && EqualCopies(u.dict)
    ensures Fair(u, base)
  {
    hide Fair, Setup.After, Setup.Opens, Flow, EqualCopies;
    forall p, q | 0 <= p < |u.dict| && 0 <= q < |u.dict| && Missing(u.After(base)) > 0
      ensures SameFlow(u.dict, u.dict[p], u.dict[q], Missing(u.After(base)) - 1, u.k)
    {
      EqualCopiesSameFlow(u.dict, u.dict[p], u.dict[q], Missing(u.After(base)) - 1, u.k);
    }
    SameFlowFair(u, base);
  }

  // ---------- two symbols ----------

  lemma TwoSymbolsFair(u: Setup, base: seq<nat>)
    requires u.Valid() && u.Opens(base) && Pow(|u.dict| - 1, u.k) < TWO64 && AtMostTwoSymbols(u.dict)
    ensures Fair(u, base)
  {
    hide Fair, Setup.After, Setup.Opens, Flow;
    SameFlowFair(u, base);
  }

  // ---------- a base that is a power of two ----------

  /** No word is lost up to k digits. */
  ghost predicate ExactShares(n1: nat, k: nat)
    requires n1 > 0
  {
    forall d: nat | d < k :: n1 * Share(n1, d + 1) == Share(n1, d)
  }

  lemma {:induction false} FlowExact(dict: string, c: char, m: nat, b: nat, d: nat, k: nat)
    requires |dict| >= 2 && ExactShares(|dict| - 1, k) && b + d <= k
    ensures Flow(dict, c, m, b, d) == Share(|dict| - 1, d)
    decreases b
  {
    if b > 0 && m > 0 {
      var w := Share(|dict| - 1, d + 1);
      forall q | 0 <= q < |dict|
        ensures Flow(dict, dict[q], m - 1, b - 1, d + 1) == w
      {
        FlowExact(dict, dict[q], m - 1, b - 1, d + 1, k);
      }
      FlowStep(dict, c, m, b, d, w);
      FlowExact(dict, c, m, b - 1, d + 1, k);
      var r := Copies(dict, c) - 1;
      assert r * w + (|dict| - 1 - r) * w == (|dict| - 1) * w;
    }
  }

  lemma ExactSharesSameFlow(dict: string, c: char, e: char, m: nat, k: nat)
    requires |dict| >= 2 && ExactShares(|dict| - 1, k)
    ensures SameFlow(dict, c, e, m, k)
  {
    forall b: nat, d: nat | b + d <= k
      ensures Flow(dict, c, m, b, d) == Flow(dict, e, m, b, d)
    {
      FlowExact(dict, c, m, b, d, k);
      FlowExact(dict, e, m, b, d, k);
    }
  }

  lemma ExactSharesFair(u: Setup, base: seq<nat>)
    requires u.Valid() && u.Opens(base) && Pow(|u.dict| - 1, u.k) < TWO64 && ExactShares(|u.dict| - 1, u.k)
    ensures Fair(u, base)
  {
    hide Fair, Setup.After, Setup.Opens, Flow, ExactShares;
    forall p, q | 0 <= p < |u.dict| && 0 <= q < |u.dict| && Missing(u.After(base)) > 0
      ensures SameFlow(u.dict, u.dict[p], u.dict[q], Missing(u.After(base)) - 1, u.k)
    {
      ExactSharesSameFlow(u.dict, u.dict[p], u.dict[q], Missing(u.After(base)) - 1, u.k);
    }
    SameFlowFair(u, base);
  }

  lemma PowerOfTwoShares(n1: nat, k: nat)
    requires n1 > 0 && IsPowerOfTwo(n1) && Pow(n1, k) < TWO64
    ensures ExactShares(n1, k)
  {
    var a: nat :| n1 == Pow(2, a);
    forall d: nat | d < k
      ensures n1 * Share(n1, d + 1) == Share(n1, d)
    {
      PowMonotone(n1, d, k);
      PowMonotone(n1, d + 1, k);
      ShareOfPower(a, d);
      ShareOfPower(a, d + 1);
      assert a * (d + 1) == a * d + a;
      PowAdds(2, a, 64 - a * (d + 1));
    }
  }

  lemma ShareOfPower(a: nat, d: nat)
    requires Pow(Pow(2, a), d) < TWO64
    ensures a * d < 64 && Share(Pow(2, a), d) == Pow(2, 64 - a * d)
  {
    TwoTo64();
    PowMul(2, a, d);
    if a * d >= 64 {
      PowMonotone(2, 64, a * d);
    } else {
      PowAdds(2, 64 - a * d, a * d);
      DivModUnique(TWO64, Pow(2, a * d), Pow(2, 64 - a * d), 0);
    }
  }

  // ---------- when weights are lost ----------

  lemma ShareStep(n1: nat, d: nat)
    requires n1 > 0
    ensures Share(n1, d + 1) == Share(n1, d) / n1
  {
    var p, q := Pow(n1, d), Share(n1, d);
    DivBounds(TWO64, p);
    DivBounds(q, n1);
    LostPart(q % n1, n1, p, TWO64 % p);
    Regroup(q / n1, n1, p, q % n1);
    DivModUnique(TWO64, n1 * p, q / n1, (q % n1) * p + TWO64 % p);
  }

  lemma LostPart(r: nat, n: nat, p: nat, s: nat)
    requires r < n && s < p
    ensures 0 <= r * p + s < n * p
  {
    MulOrder(r + 1, n, p);
    MulSucc(r, p);
  }

  lemma Regroup(a: int, n: int, p: int, r: int)
    ensures (a * n + r) * p == a * (n * p) + r * p
  {
  }

  /** With one symbol missing. */
  lemma FlowOne(dict: string, c: char, b: nat, d: nat)
    requires |dict| >= 2 && b > 0
    ensures Flow(dict, c, 1, b, d)
         == (Copies(dict, c) - 1) * Flow(dict, c, 1, b - 1, d + 1) + (|dict| - Copies(dict, c)) * Share(|dict| - 1, d + 1)
  {
    FlowStep(dict, c, 1, b, d, Share(|dict| - 1, d + 1));
  }

  lemma {:induction false} CopiesOf(dict: string, c: char, i: nat)
    requires i <= |dict| && c in dict[..i]
    ensures Mult(dict, c, i) >= 1
  {
    if dict[i - 1] != c {
      assert dict[..i] == dict[..i - 1] + [dict[i - 1]];
      CopiesOf(dict, c, i - 1);
    }
  }

  /** Skipping never gains words, and loses some when a digit is lost on the
      way. */
  lemma {:induction false} FlowAtMost(dict: string, c: char, b: nat, d: nat, lost: nat)
    requires |dict| >= 2 && Copies(dict, c) >= 1
    ensures Flow(dict, c, 1, b, d) <= Share(|dict| - 1, d)
    ensures d <= lost < d + b && Lost(|dict| - 1, lost) && Copies(dict, c) >= 2
        ==> Flow(dict, c, 1, b, d) < Share(|dict| - 1, d)
    decreases b
  {
    if b > 0 {
      var n1 := |dict| - 1;
      FlowAtMost(dict, c, b - 1, d + 1, lost);
      FlowOne(dict, c, b, d);
      ShareStep(n1, d);
      DivBounds(Share(n1, d), n1);
      hide Flow, Share, Copies;
      Capped(Copies(dict, c) - 1, n1, Flow(dict, c, 1, b - 1, d + 1), Share(n1, d + 1));
    }
  }

  lemma MulKeeps(a: int, b: int, z: nat)
    requires a <= b
    ensures z * a <= z * b
    ensures a < b && z > 0 ==> z * a < z * b
  {
    if z > 0 {
      MulOrder(a, b, z);
    }
  }

  lemma Capped(r: nat, n: nat, x: int, w: int)
    requires r <= n && x <= w
    ensures r * x + (n - r) * w <= w * n
    ensures r > 0 && x < w ==> r * x + (n - r) * w < w * n
  {
    MulKeeps(x, w, r);
    assert r * w + (n - r) * w == w * n;
  }

  /** A symbol with more copies has fewer words behind each position. */
  lemma {:induction false} MoreCopiesLess(dict: string, c: char, e: char, b: nat, d: nat, lost: nat)
    requires |dict| >= 2 && 1 <= Copies(dict, c) < Copies(dict, e)
    ensures Flow(dict, e, 1, b, d) <= Flow(dict, c, 1, b, d)
    ensures d < lost < d + b && Lost(|dict| - 1, lost) ==> Flow(dict, e, 1, b, d) < Flow(dict, c, 1, b, d)
    decreases b
  {
    if b > 0 {
      MoreCopiesLess(dict, c, e, b - 1, d + 1, lost);
      FlowOne(dict, c, b, d);
      FlowOne(dict, e, b, d);
      FlowAtMost(dict, e, b - 1, d + 1, lost);
      hide Flow, Share, Copies;
      Ordered(Copies(dict, c) - 1, Copies(dict, e) - 1, |dict| - 1,
              Flow(dict, c, 1, b - 1, d + 1), Flow(dict, e, 1, b - 1, d + 1), Share(|dict| - 1, d + 1));
    }
  }

  lemma Ordered(r: nat, r': nat, n: nat, x: int, x': int, w: int)
    requires r < r' <= n && x' <= x && x' <= w
    ensures r' * x' + (n - r') * w <= r * x + (n - r) * w
    ensures x' < w ==> r' * x' + (n - r') * w < r * x + (n - r) * w
  {
    MulKeeps(x', x, r);
    MulKeeps(x', w, r' - r);
    assert r' * x' == r * x' + (r' - r) * x';
    assert (n - r) * w == (n - r') * w + (r' - r) * w;
  }

  lemma {:induction false} FirstFlowOrder(dict: string, a: char, c: char, e: char, b: nat, d: nat, lost: nat)
    requires |dict| >= 2 && Copies(dict, a) >= 1 && 1 <= Copies(dict, c) < Copies(dict, e)
    ensures FirstFlow(dict, a, e, 2, b, d) <= FirstFlow(dict, a, c, 2, b, d)
    ensures d + 1 < lost < d + b && Lost(|dict| - 1, lost) ==> FirstFlow(dict, a, e, 2, b, d) < FirstFlow(dict, a, c, 2, b, d)
    decreases b
  {
    hide Flow, Copies, Lost;
    if b > 0 {
      FirstFlowOrder(dict, a, c, e, b - 1, d + 1, lost);
      MoreCopiesLess(dict, c, e, b - 1, d + 1, lost);
      MulKeeps(FirstFlow(dict, a, e, 2, b - 1, d + 1), FirstFlow(dict, a, c, 2, b - 1, d + 1), Copies(dict, a) - 1);
    }
  }

  /** With two symbols missing, a position whose symbol has fewer copies is
      written first by more words. */
  lemma RarerFavoured(u: Setup, p: nat, q: nat, lost: nat)
    requires u.Valid() && Pow(|u.dict| - 1, u.k) < TWO64 && Missing(u) == 2
    requires p < |u.dict| && q < |u.dict| && u.dict[p] != Last(u) && u.dict[q] != Last(u)
    requires Copies(u.dict, u.dict[p]) < Copies(u.dict, u.dict[q])
    requires 1 < lost < u.k && Lost(|u.dict| - 1, lost)
    ensures |Fiber(FirstWritten(u), Some(p))| > |Fiber(FirstWritten(u), Some(q))|
  {
    CopiesOf(u.dict, u.dict[p], |u.dict|);
    CopiesOf(u.dict, Last(u), |u.dict|);
    WrittenExact(u, [], p);
    WrittenExact(u, [], q);
    hide FirstFlow, Fiber, WrittenAfter;
    FirstFlowOrder(u.dict, Last(u), u.dict[p], u.dict[q], u.k, 0, lost);
  }

  /** The table takes at least four digits from a word. */
  lemma TableBatch(n1: Word)
    requires 1 <= n1 < 256
    ensures Pow(n1, BatchOf(n1).k) < TWO64 && BatchOf(n1).k >= 4
  {
    TableBatchFits(n1);
    BatchOfMeets(n1);
    if n1 >= 2 {
      hide BatchOf;
      FourthPower(n1);
      assert Wasted(n1, 4) <= TWO60;
    }
  }

  lemma FourthPower(n: nat)
    requires n < 256
    ensures Pow(n, 4) < 0x1_0000_0000
  {
    SmallPowers(n);
    MulBelow(n, n, 256);
    MulBelow(n * n, n, 65536);
    MulBelow(n * (n * n), n, 0x100_0000);
    assert Pow(n, 4) == n * Pow(n, 3);
  }

  lemma MulBelow(a: nat, b: nat, m: nat)
    requires a <= m && b < 256 && m > 0
    ensures 0 <= b * a < 256 * m
  {
    MulOrder(b, 256, m);
    if b > 0 {
      MulOrder(a, m, b);
    }
  }

  lemma BinaryBytes(n: nat)
    requires n == 1 || IsBinaryByte(n)
    ensures IsPowerOfTwo(n)
  {
    assert Pow(2, 0) == 1 && Pow(2, 1) == 2 && Pow(2, 2) == 4 && Pow(2, 3) == 8;
    assert Pow(2, 4) == 16 && Pow(2, 5) == 32 && Pow(2, 6) == 64 && Pow(2, 7) == 128;
  }

  /** Three symbols leave one that differs from two given ones. */
  lemma ThirdSymbol(dict: string, p: nat, q: nat) returns (r: nat)
    requires !AtMostTwoSymbols(dict) && p < |dict| && q < |dict|
    ensures r < |dict| && dict[r] != dict[p] && dict[r] != dict[q]
  {
    var x, y, z :| 0 <= x < |dict| && 0 <= y < |dict| && 0 <= z < |dict|
      && dict[x] != dict[y] && dict[y] != dict[z] && dict[x] != dict[z];
    r := if dict[x] != dict[p] && dict[x] != dict[q] then x
         else if dict[y] != dict[p] && dict[y] != dict[q] then y
         else z;
  }

  lemma NotKept(dict: string, k: nat)
    requires UsableDict(dict) && |dict| <= 256 && k >= 4 && Pow(|dict| - 1, k) < TWO64
    requires !IsPowerOfTwo(|dict| - 1) && !EqualCopies(dict) && !AtMostTwoSymbols(dict)
    ensures !KeepsWeights(dict, k)
  {
    var p, q :| 0 <= p < |dict| && 0 <= q < |dict| && Copies(dict, dict[p]) < Copies(dict, dict[q]);
    var r := ThirdSymbol(dict, p, q);
    var u := Setup(dict, k, 3, Start(dict, r));
    var n1 := |dict| - 1;
    if n1 == 1 || IsBinaryByte(n1) {
      BinaryBytes(n1);
    } else {
      EveryBaseLoses(n1);
      RarerFavoured(u, p, q, if n1 == 17 || n1 == 53 then 3 else 2);
      hide WrittenAfter, Fiber;
      assert u.Opens([]) && !Fair(u, []);
    }
  }

  /** Exactly when the batched sampler keeps the weights of a dictionary: its
      length is one more than a power of two, or all its symbols occur equally
      often, or it has at most two symbols. */
  lemma WeightsKeptWhen(dict: string)
    requires UsableDict(dict) && |dict| <= 256
    ensures KeepsWeights(dict, BatchOf(|dict| - 1).k)
       <==> IsPowerOfTwo(|dict| - 1) || EqualCopies(dict) || AtMostTwoSymbols(dict)
  {
    TableBatch(|dict| - 1);
    hide BatchOf, Fair;
    var k := BatchOf(|dict| - 1).k;
    if IsPowerOfTwo(|dict| - 1) || EqualCopies(dict) || AtMostTwoSymbols(dict) {
      forall s: Sampler, length: nat, base: seq<nat> | ValidSampler(dict, s) && Setup(dict, k, length, s).Opens(base)
        ensures Fair(Setup(dict, k, length, s), base)
      {
        KeptFair(Setup(dict, k, length, s), base);
      }
    } else {
      NotKept(dict, k);
    }
  }

  lemma KeptFair(u: Setup, base: seq<nat>)
    requires u.Valid() && u.Opens(base) && Pow(|u.dict| - 1, u.k) < TWO64
    requires IsPowerOfTwo(|u.dict| - 1) || EqualCopies(u.dict) || AtMostTwoSymbols(u.dict)
    ensures Fair(u, base)
  {
    hide Fair, Setup.Opens;
    if IsPowerOfTwo(|u.dict| - 1) {
      PowerOfTwoShares(|u.dict| - 1, u.k);
      ExactSharesFair(u, base);
    } else if EqualCopies(u.dict) {
      EqualCopiesFair(u, base);
    } else {
      TwoSymbolsFair(u, base);
    }
  }

  // ---------- over tapes ----------

  /** The position that the fill writes next, however many words it takes. */
  function NextWritten(u: Setup, tape: seq<Word>): Run<nat>
    requires u.Valid()
  {
    if tape == [] then None
    else match FirstWritten(u)(tape[0])
      case None => NextWritten(u, tape[1..])
      case Some(p) => Some((p, tape[1..]))
  }

  function Nexts(u: Setup): seq<Word> -> Option<nat>
    requires u.Valid()
  {
    (tape: seq<Word>) => Result(NextWritten(u, tape))
  }

  /** Words that write nothing leave the run of the fill as it was. */
  lemma NothingWritten(u: Setup, x: Word, tape: seq<Word>)
    requires u.Valid() && Pow(|u.dict| - 1, u.k) < TWO64 && |u.s.out| < u.length
    requires FirstWritten(u)(x) == None
    ensures Continue(u.dict, u.k, u.length, u.s, [x] + tape) == Continue(u.dict, u.k, u.length, u.s, tape)
  {
    FirstIsWritten(u, x);
    ContinueStep(u.dict, u.k, u.length, u.s, x, tape);
  }

  lemma NextsRetry(u: Setup)
    requires u.Valid()
    ensures Retries(Nexts(u), FirstWritten(u))
  {
    hide FirstWritten;
    forall w: Word, tape: seq<Word>
      ensures Nexts(u)([w] + tape) == if FirstWritten(u)(w).Some? then FirstWritten(u)(w) else Nexts(u)(tape)
    {
      assert ([w] + tape)[1..] == tape;
    }
  }

  /** The same over whole tapes: fair states give each position equally many
      tapes, for every number of words. */
  lemma FairOverTapes(u: Setup, p: nat, q: nat, t: nat)
    requires u.Valid() && Fair(u, [])
    requires p < |u.dict| && q < |u.dict| && u.dict[p] != Last(u) && u.dict[q] != Last(u)
    ensures |Outcomes(Nexts(u), t, p)| == |Outcomes(Nexts(u), t, q)|
  {
    NextsRetry(u);
    RetryUniform(Nexts(u), FirstWritten(u), p, t);
    RetryUniform(Nexts(u), FirstWritten(u), q, t);
  }

  /** The batch that starts when the word with the digits of base is used up
      and has written nothing more. */
  function Resumed(u: Setup, base: seq<nat>): (v: Setup)
    requires u.Valid() && u.Opens(base)
    ensures v.Valid() && v.dict == u.dict && v.k == u.k && Last(v) == Last(u.After(base))
  {
    Setup(u.dict, u.k, u.length, u.After(base).s)
  }

  /** The position that the run writes next after the digits of base in its
      first word: in the same word, or however many words later. */
  function NextAfter(u: Setup, base: seq<nat>): seq<Word> -> Option<nat>
    requires u.Valid() && u.Opens(base)
  {
    (tape: seq<Word>) =>
      if tape == [] || Way(u)(tape[0]) == None || !(base <= Way(u)(tape[0]).value) then None
      else if WrittenAfter(u, base)(tape[0]).Some? then WrittenAfter(u, base)(tape[0])
      else Nexts(Resumed(u, base))(tape[1..])
  }

  /** The words that start with base and write nothing more. */
  ghost function Silent(u: Setup, base: seq<nat>): set<Word>
    requires u.Valid() && u.Opens(base)
  {
    set x: Word | x in AllWords()
      && Way(u)(x).Some? && base <= Way(u)(x).value && WrittenAfter(u, base)(x) == None
  }

  lemma NextAfterStep(u: Setup, base: seq<nat>, p: nat, w: Word, tape: seq<Word>)
    requires u.Valid() && u.Opens(base)
    ensures WrittenAfter(u, base)(w) == Some(p) ==> NextAfter(u, base)([w] + tape) == Some(p)
    ensures w in Silent(u, base) ==> NextAfter(u, base)([w] + tape) == Nexts(Resumed(u, base))(tape)
    ensures WrittenAfter(u, base)(w) != Some(p) && w !in Silent(u, base) ==> NextAfter(u, base)([w] + tape) != Some(p)
  {
    WrittenNeedsBase(u, base, w);
    hide Way, WrittenAfter, Nexts, Resumed, Setup.Opens;
    assert ([w] + tape)[1..] == tape;
  }

  lemma WrittenNeedsBase(u: Setup, base: seq<nat>, x: Word)
    requires u.Valid() && u.Opens(base)
    ensures WrittenAfter(u, base)(x).Some? ==> Way(u)(x).Some? && base <= Way(u)(x).value
  {
    hide Way, FirstPosition, Setup.After, Setup.Opens;
  }

  lemma NextAfterCount(u: Setup, base: seq<nat>, p: nat, t: nat)
    requires u.Valid() && u.Opens(base)
    ensures |Outcomes(NextAfter(u, base), t + 1, p)|
         == Weigh(|Fiber(WrittenAfter(u, base), Some(p))|, Pow(TWO64, t),
                  |Silent(u, base)|, |Outcomes(Nexts(Resumed(u, base)), t, p)|)
  {
    var done := (tape: seq<Word>) => Some(p);
    var f, g := NextAfter(u, base), Nexts(Resumed(u, base));
    var a, b := Fiber(WrittenAfter(u, base), Some(p)), Silent(u, base);
    forall w: Word, tape: seq<Word>
      ensures w in a ==> f([w] + tape) == done(tape)
      ensures w in b ==> f([w] + tape) == g(tape)
    {
      NextAfterStep(u, base, p, w, tape);
    }
    forall w: Word, tape: seq<Word> | w !in a && w !in b
      ensures f([w] + tape) != Some(p)
    {
      NextAfterStep(u, base, p, w, tape);
    }
    hide NextAfter, Nexts, WrittenAfter, Silent, Setup.Opens;
    CountStep(f, t, p, a, done, b, g);
    CountDone(done, t, p);
  }

  /** Where weights are kept, every symbol of a run is fair: after any state and
      any digits of the current word, all positions that do not hold the last
      symbol come next on equally many tapes, for every number of words. */
  lemma KeptOverTapes(u: Setup, base: seq<nat>, p: nat, q: nat, t: nat)
    requires u.Valid() && u.Opens(base) && KeepsWeights(u.dict, u.k)
    requires p < |u.dict| && q < |u.dict|
    requires u.dict[p] != Last(u.After(base)) && u.dict[q] != Last(u.After(base))
    ensures |Outcomes(NextAfter(u, base), t, p)| == |Outcomes(NextAfter(u, base), t, q)|
  {
    hide NextAfter, Outcomes, Fiber, WrittenAfter, Nexts, Silent, Setup.After;
    if t == 0 {
      NoNextAfter(u, base, p);
      NoNextAfter(u, base, q);
    } else {
      var v := Resumed(u, base);
      KeptIsFair(u, base);
      KeptIsFair(v, []);
      NextAfterCount(u, base, p, t - 1);
      NextAfterCount(u, base, q, t - 1);
      FairOverTapes(v, p, q, t - 1);
    }
  }

  lemma NoNextAfter(u: Setup, base: seq<nat>, p: nat)
    requires u.Valid() && u.Opens(base)
    ensures |Outcomes(NextAfter(u, base), 0, p)| == 0
  {
    CountNone(NextAfter(u, base), 0, p);
  }

  lemma KeptIsFair(u: Setup, base: seq<nat>)
    requires u.Valid() && u.Opens(base) && KeepsWeights(u.dict, u.k)
    ensures Fair(u, base)
  {
    hide Fair, Setup.Opens;
    assert u == Setup(u.dict, u.k, u.length, u.s);
  }

  // ---------- a dictionary whose weights are not kept ----------

  /** Positions 0 and 1 hold the same symbol. After 'B' a word should choose
      'A' twice as often as 'C'. */
  const DICT := "AABC"

  const AFTER_B := Sampler("B", 2)

  /** The second symbol that a word writes when two are still missing. */
  function Second(k: nat): Word -> Option<char> {
    (x: Word) =>
      match Feed(DICT, k, 3, AFTER_B, x)
      case None => None
      case Some(r) => if |r.out| > 1 then Some(r.out[1]) else None
  }

  lemma SecondIs(k: nat, x: Word)
    requires Pow(3, k) < TWO64
    ensures match FirstWritten(Setup(DICT, k, 3, AFTER_B))(x)
      case None => Second(k)(x) == None
      case Some(p) => p < 4 && Second(k)(x) == Some(DICT[p])
  {
    var u := Setup(DICT, k, 3, AFTER_B);
    WayOfFeed(u, x);
    FirstIsWritten(u, x);
    hide FirstWritten, Feed, Way;
  }

  lemma WayOfFeed(u: Setup, x: Word)
    requires u.Valid()
    ensures Way(u)(x) == None <==> Feed(u.dict, u.k, u.length, u.s, x) == None
    ensures Way(u)(x) == None ==> FirstWritten(u)(x) == None
  {
  }

  lemma SubsetCard(s: set<Word>, t: set<Word>)
    requires s <= t
    ensures |s| <= |t|
  {
    assert t == s + (t - s);
  }

  lemma SecondFibers(k: nat)
    requires Pow(3, k) < TWO64
    ensures var f := FirstWritten(Setup(DICT, k, 3, AFTER_B));
      && |Fiber(Second(k), Some('A'))| <= |Fiber(f, Some(0))| + |Fiber(f, Some(1))|
      && |Fiber(f, Some(3))| <= |Fiber(Second(k), Some('C'))|
  {
    var f := FirstWritten(Setup(DICT, k, 3, AFTER_B));
    forall x: Word
      ensures Second(k)(x) == Some('A') ==> f(x) == Some(0) || f(x) == Some(1)
      ensures f(x) == Some(3) ==> Second(k)(x) == Some('C')
    {
      SecondIs(k, x);
    }
    hide FirstWritten, Second;
    SubsetCard(Fiber(Second(k), Some('A')), Fiber(f, Some(0)) + Fiber(f, Some(1)));
    SubsetCard(Fiber(f, Some(3)), Fiber(Second(k), Some('C')));
  }

  /** Over "AABC" with two symbols missing after a 'B', each position of 'A' is
      written by fewer words than the one of 'C', so that 'A' gets fewer than
      twice the words of 'C'. */
  lemma WeightsNotKept()
    ensures var k := BatchOf(|DICT| - 1).k;
      && !KeepsWeights(DICT, k)
      && |Fiber(Second(k), Some('A'))| < 2 * |Fiber(Second(k), Some('C'))|
  {
    TableBatch(3);
    hide *;
    var k := BatchOf(3).k;
    AabcUnfair(k);
    SecondFibers(k);
    AabcNotKept(k);
  }

  lemma AabcUnfair(k: nat)
    requires k >= 4 && Pow(3, k) < TWO64
    ensures var f := FirstWritten(Setup(DICT, k, 3, AFTER_B));
      |Fiber(f, Some(0))| < |Fiber(f, Some(3))| && |Fiber(f, Some(1))| < |Fiber(f, Some(3))|
  {
    var u := Setup(DICT, k, 3, AFTER_B);
    EveryBaseLoses(3);
    AabcCopies();
    hide Copies, FirstWritten, Fiber;
    RarerFavoured(u, 3, 0, 2);
    RarerFavoured(u, 3, 1, 2);
  }

  lemma AabcNotKept(k: nat)
    requires var f := FirstWritten(Setup(DICT, k, 3, AFTER_B)); |Fiber(f, Some(0))| < |Fiber(f, Some(3))|
    ensures !KeepsWeights(DICT, k)
  {
    hide WrittenAfter, Fiber;
    assert Setup(DICT, k, 3, AFTER_B).Opens([]) && !Fair(Setup(DICT, k, 3, AFTER_B), []);
  }

  lemma AabcCopies()
    ensures Copies(DICT, 'A') == 2 && Copies(DICT, 'C') == 1
  {
    assert Mult(DICT, 'A', 2) == 1 + Mult(DICT, 'A', 1) == 2;
    assert Mult(DICT, 'A', 4) == Mult(DICT, 'A', 3);
    assert Mult(DICT, 'C', 2) == Mult(DICT, 'C', 1) == 0;
    assert Mult(DICT, 'C', 4) == Mult(DICT, 'C', 3) + 1;
  }
}
