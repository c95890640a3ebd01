/** How many strings the batched sampler chooses from, and the accounts of all
    its tapes. */
module NoRepeatCount {
  import opened Words
  import opened Tapes
  import opened NoRepeat
  import opened NoRepeatRuns
  import opened NoRepeatUniform

  // ---------- the strings without adjacent repeats ----------

  /** c may follow s. */
  predicate MayFollow(s: string, c: char) {
    s != "" ==> s[|s| - 1] != c
  }

  ghost function Longer(dict: string, ss: set<string>): set<string> {
    set s, c | s in ss && c in dict && MayFollow(s, c) :: s + [c]
  }

  ghost function AllStrings(dict: string, length: nat): set<string> {
    if length == 0 then {""} else Longer(dict, AllStrings(dict, length - 1))
  }

  lemma InLonger(dict: string, ss: set<string>, v: string)
    ensures v in Longer(dict, ss)
       <==> v != "" && v[..|v| - 1] in ss && v[|v| - 1] in dict && MayFollow(v[..|v| - 1], v[|v| - 1])
  {
    if v != "" {
      assert v == v[..|v| - 1] + [v[|v| - 1]];
    }
  }

  lemma {:induction false} InAllStrings(dict: string, length: nat, v: string)
    ensures v in AllStrings(dict, length) <==> |v| == length && NoRepeats(dict, v)
  {
    if length > 0 {
      InLonger(dict, AllStrings(dict, length - 1), v);
      if v != "" {
        InAllStrings(dict, length - 1, v[..|v| - 1]);
        NoRepeatsSnoc(dict, v[..|v| - 1], v[|v| - 1]);
        assert v == v[..|v| - 1] + [v[|v| - 1]];
      }
    }
  }

  lemma NoRepeatsSnoc(dict: string, s: string, c: char)
    ensures NoRepeats(dict, s + [c]) <==> NoRepeats(dict, s) && c in dict && MayFollow(s, c)
  {
    var v := s + [c];
    assert forall i | 0 <= i < |s| :: v[i] == s[i];
    assert v[|s|] == c;
  }

  ghost function Symbols(dict: string): set<char> {
    set c | c in dict
  }

  lemma {:induction false} SymbolsCard(dict: string)
    requires Distinct(dict)
    ensures |Symbols(dict)| == |dict|
  {
    if dict != "" {
      var n := |dict| - 1;
      SymbolsCard(dict[..n]);
      assert dict == dict[..n] + [dict[n]];
      assert Symbols(dict) == Symbols(dict[..n]) + {dict[n]};
      assert dict[n] !in dict[..n];
    }
  }

  /** s with each of the symbols appended. */
  ghost function Appended(s: string, cs: set<char>): set<string> {
    set c | c in cs :: s + [c]
  }

  lemma {:induction false} AppendedCard(s: string, cs: set<char>)
    ensures |Appended(s, cs)| == |cs|
    decreases |cs|
  {
    if c :| c in cs {
      AppendedCard(s, cs - {c});
      forall v: string
        ensures v in Appended(s, cs) <==> v in Appended(s, cs - {c}) || v in {s + [c]}
        ensures !(v in Appended(s, cs - {c}) && v in {s + [c]})
      {
        InAppended(s, cs, v);
        InAppended(s, cs - {c}, v);
        InAppended(s, {c}, v);
      }
      UnionCard(Appended(s, cs - {c}), {s + [c]}, Appended(s, cs));
    } else {
      assert forall c :: c !in cs;
      assert cs == {} && Appended(s, cs) == {};
    }
  }

  lemma InAppended(s: string, cs: set<char>, v: string)
    ensures v in Appended(s, cs) <==> |v| == |s| + 1 && s <= v && v[|s|] in cs
  {
    if |v| == |s| + 1 && s <= v {
      assert v == s + [v[|s|]];
    }
  }

  /** What may follow one string. */
  ghost function Followers(dict: string, s: string): set<char> {
    set c | c in dict && MayFollow(s, c)
  }

  lemma FollowersCard(dict: string, s: string)
    requires Distinct(dict) && (s != "" ==> s[|s| - 1] in dict)
    ensures |Followers(dict, s)| == if s == "" then |dict| else |dict| - 1
  {
    SymbolsCard(dict);
    if s == "" {
      assert Followers(dict, s) == Symbols(dict);
    } else {
      assert Symbols(dict) == Followers(dict, s) + {s[|s| - 1]};
    }
  }

  lemma {:induction false} LongerCard(dict: string, ss: set<string>)
    requires Distinct(dict)
    requires forall s | s in ss :: s != "" && s[|s| - 1] in dict
    ensures |Longer(dict, ss)| == |ss| * (|dict| - 1)
    decreases |ss|
  {
    if s :| s in ss {
      LongerCard(dict, ss - {s});
      FollowersCard(dict, s);
      AppendedCard(s, Followers(dict, s));
      LongerSplit(dict, ss, s);
      MulSucc(|ss - {s}|, |dict| - 1);
    } else {
      assert forall s :: s !in ss;
      assert ss == {} && Longer(dict, ss) == {};
    }
  }

  lemma LongerSplit(dict: string, ss: set<string>, s: string)
    requires s in ss
    ensures |Longer(dict, ss)| == |Longer(dict, ss - {s})| + |Appended(s, Followers(dict, s))|
  {
    forall v: string
      ensures v in Longer(dict, ss) <==> v in Longer(dict, ss - {s}) || v in Appended(s, Followers(dict, s))
      ensures !(v in Longer(dict, ss - {s}) && v in Appended(s, Followers(dict, s)))
    {
      InLonger(dict, ss, v);
      InLonger(dict, ss - {s}, v);
      InAppended(s, Followers(dict, s), v);
      if |v| == |s| + 1 && s <= v {
        assert v[..|v| - 1] == s;
      }
    }
    UnionCard(Longer(dict, ss - {s}), Appended(s, Followers(dict, s)), Longer(dict, ss));
  }

  /** There are n * (n - 1)^(L - 1) strings of length L. */
  lemma {:induction false} AllStringsCard(dict: string, length: nat)
    requires Distinct(dict) && |dict| > 0 && length > 0
    ensures |AllStrings(dict, length)| == |dict| * Pow(|dict| - 1, length - 1)
  {
    if length == 1 {
      OneSymbol(dict);
    } else {
      AllStringsCard(dict, length - 1);
      forall s | s in AllStrings(dict, length - 1)
        ensures s != "" && s[|s| - 1] in dict
      {
        InAllStrings(dict, length - 1, s);
      }
      LongerCard(dict, AllStrings(dict, length - 1));
      MulTurn(|dict|, Pow(|dict| - 1, length - 2), |dict| - 1);
    }
  }

  lemma MulTurn(a: int, b: int, c: int)
    ensures (a * b) * c == a * (c * b)
  {
  }

  lemma OneSymbol(dict: string)
    requires Distinct(dict)
    ensures |AllStrings(dict, 1)| == |dict|
  {
    FollowersCard(dict, "");
    AppendedCard("", Followers(dict, ""));
    FromEmpty(dict);
    hide Longer, Appended, Followers;
    assert AllStrings(dict, 1) == Longer(dict, AllStrings(dict, 0));
  }

  lemma FromEmpty(dict: string)
    ensures Longer(dict, {""}) == Appended("", Followers(dict, ""))
  {
    hide Longer, Appended, Followers;
    forall v: string
      ensures v in Longer(dict, {""}) <==> v in Appended("", Followers(dict, ""))
    {
      InLonger(dict, {""}, v);
      InAppended("", Followers(dict, ""), v);
      InFollowers(dict, if v == "" then 'x' else v[0]);
    }
  }

  lemma InFollowers(dict: string, c: char)
    ensures c in Followers(dict, "") <==> c in dict
  {
  }

  // ---------- the accounts ----------

  /** The whole count on the shortest tapes that can finish: each string comes
      from floor(2^64 / n) times the product of floor(2^64 / (n - 1)^d) of them. */
  lemma FillShortest(dict: string, k: nat, v: string)
    requires UsableDict(dict) && Distinct(dict) && k > 0 && Pow(|dict| - 1, k) < TWO64
    requires v != [] && NoRepeats(dict, v)
    ensures |Outcomes(Fills(dict, k, |v|), 1 + BatchesFor(k, |v| - 1), v)|
         == (TWO64 / |dict|) * BatchProduct(|dict| - 1, k, |v| - 1)
    ensures forall t: nat | t <= BatchesFor(k, |v| - 1) :: |Outcomes(Fills(dict, k, |v|), t, v)| == 0
  {
    FillUniform(dict, k, v, 1 + BatchesFor(k, |v| - 1));
    FillFewest(|dict|, k, |v|, 1 + BatchesFor(k, |v| - 1));
    hide Fills, Outcomes, FillWays, BatchesFor, BatchProduct;
    forall t: nat | t <= BatchesFor(k, |v| - 1)
      ensures |Outcomes(Fills(dict, k, |v|), t, v)| == 0
    {
      FillUniform(dict, k, v, t);
      FillFewest(|dict|, k, |v|, t);
    }
  }

  /** All tapes of t words are accounted for: n * (n - 1)^(L - 1) equally likely
      strings, and the tapes on which the fill is not finished. */
  lemma FillConserves(dict: string, k: nat, length: nat, t: nat)
    requires UsableDict(dict) && Distinct(dict) && Pow(|dict| - 1, k) < TWO64 && length > 0
    ensures |dict| * Pow(|dict| - 1, length - 1) * FillWays(|dict|, k, length, t)
            + |Unfinished(Fills(dict, k, length), t)| == Pow(TWO64, t)
  {
    var f, ss := Fills(dict, k, length), AllStrings(dict, length);
    AllStringsCard(dict, length);
    forall v | v in ss
      ensures |Outcomes(f, t, v)| == FillWays(|dict|, k, length, t)
    {
      InAllStrings(dict, length, v);
      FillUniform(dict, k, v, t);
    }
    forall tape: seq<Word> | |tape| == t && f(tape).Some?
      ensures f(tape).value in ss
    {
      FillSafe(dict, k, length, tape);
      InAllStrings(dict, length, f(tape).value);
    }
    hide Fills, AllStrings, FillWays, Pow;
    Conserves(f, t, ss, FillWays(|dict|, k, length, t));
  }

  // ---------- the shortest tapes ----------

  lemma {:induction false} KeptAll(dict: string, k: nat, length: nat, s: Sampler, tape: seq<Word>)
    requires UsableDict(dict) && ValidSampler(dict, s)
    ensures |Kept(dict, k, length, s, tape)| <= |tape|
    ensures |Kept(dict, k, length, s, tape)| == |tape| ==> Kept(dict, k, length, s, tape) == tape
    decreases |tape|
  {
    if |s.out| < length && tape != [] {
      KeptAll(dict, k, length, AfterWord(dict, k, length, s, tape[0]), tape[1..]);
      assert tape == [tape[0]] + tape[1..];
    }
  }

  /** A run that finishes on the fewest words has accepted every one of them. */
  lemma ShortestAccepts(dict: string, k: nat, length: nat, s: Sampler, tape: seq<Word>)
    requires UsableDict(dict) && Distinct(dict) && ValidSampler(dict, s) && |s.out| <= length
    requires 0 < k && Pow(|dict| - 1, k) < TWO64
    requires Continue(dict, k, length, s, tape).Some?
    ensures |tape| >= BatchesFor(k, length - |s.out|)
    ensures |tape| == BatchesFor(k, length - |s.out|) ==> AllAccepted(dict, k, length, s, tape)
  {
    KeptCount(dict, k, length, s, tape);
    KeptAll(dict, k, length, s, tape);
    RejectedInvisible(dict, k, length, s, tape);
  }
}
