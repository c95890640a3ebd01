/** The built-in alphabets of the string generators. */
module Alphabets {
  import opened Wrappers
  import opened Tapes
  import opened Batch
  import opened NoRepeat
  import opened NoRepeatRuns
  import opened NoRepeatUniform
  import Strings

  datatype Alphabet =
    | DecimalAlphabet | HexLowerAlphabet | HexUpperAlphabet | OctalAlphabet
    | LowerAlphabet | UpperAlphabet | AlphaAlphabet | AlphaNumericAlphabet
    | Base32Alphabet | Base64URLAlphabet | UnknownAlphabet

  const DECI := "0123456789"
  const LOWER := "abcdefghijklm" + "nopqrstuvwxyz"
  const UPPER := "ABCDEFGHIJKLM" + "NOPQRSTUVWXYZ"

  /** The dictionary of an alphabet; unknown values use decimal digits. */
  function AlphabetData(a: Alphabet): string {
    match a
    case HexLowerAlphabet => DECI + "abcdef"
    case HexUpperAlphabet => DECI + "ABCDEF"
    case OctalAlphabet => "01234567"
    case LowerAlphabet => LOWER
    case UpperAlphabet => UPPER
    case AlphaAlphabet => LOWER + UPPER
    case AlphaNumericAlphabet => DECI + LOWER + UPPER
    case Base32Alphabet => UPPER + "234567"
    case Base64URLAlphabet => UPPER + LOWER + DECI + "-" + "_"
    case _ => DECI
  }

  /** Strictly ascending between two characters. */
  predicate Ascending(s: string, lo: char, hi: char) {
    && (forall i | 0 <= i < |s| :: lo <= s[i] <= hi)
    && (forall i | 0 < i < |s| :: s[i - 1] < s[i])
  }

  lemma {:induction false} AscendingOrder(s: string, lo: char, hi: char, i: nat, j: nat)
    requires Ascending(s, lo, hi) && i < j < |s|
    ensures s[i] < s[j]
    decreases j
  {
    if i < j - 1 {
      AscendingOrder(s, lo, hi, i, j - 1);
    }
  }

  lemma AscendingDistinct(s: string, lo: char, hi: char)
    requires Ascending(s, lo, hi)
    ensures Distinct(s)
  {
    forall i, j | 0 <= i < j < |s|
      ensures s[i] != s[j]
    {
      AscendingOrder(s, lo, hi, i, j);
    }
  }

  lemma DistinctConcat(s: string, t: string, lo: char, hi: char)
    requires Distinct(s) && Ascending(t, lo, hi)
    requires forall i | 0 <= i < |s| :: s[i] < lo || hi < s[i]
    ensures Distinct(s + t)
  {
    AscendingDistinct(t, lo, hi);
  }

  lemma AscendingConcat(s: string, t: string, lo: char, m: char, n: char, hi: char)
    requires Ascending(s, lo, m) && Ascending(t, n, hi) && lo <= m < n <= hi
    ensures Ascending(s + t, lo, hi)
  {
  }

  lemma LowerAscending()
    ensures Ascending(LOWER, 'a', 'z')
  {
    LowerHalves();
    hide Ascending;
    AscendingConcat("abcdefghijklm", "nopqrstuvwxyz", 'a', 'm', 'n', 'z');
  }

  lemma LowerHalves()
    ensures Ascending("abcdefghijklm", 'a', 'm') && Ascending("nopqrstuvwxyz", 'n', 'z')
  {
  }

  lemma UpperAscending()
    ensures Ascending(UPPER, 'A', 'Z')
  {
    UpperHalves();
    hide Ascending;
    AscendingConcat("ABCDEFGHIJKLM", "NOPQRSTUVWXYZ", 'A', 'M', 'N', 'Z');
  }

  lemma UpperHalves()
    ensures Ascending("ABCDEFGHIJKLM", 'A', 'M') && Ascending("NOPQRSTUVWXYZ", 'N', 'Z')
  {
  }

  lemma PiecesDistinct(d: string, l: string, u: string)
    requires Ascending(d, '0', '9') && Ascending(l, 'a', 'z') && Ascending(u, 'A', 'Z')
    ensures Distinct(d) && Distinct(l) && Distinct(u)
    ensures Distinct(l + u) && Distinct(d + l + u)
    ensures Distinct(u + l + d + "-" + "_")
  {
    AscendingDistinct(d, '0', '9');
    AscendingDistinct(l, 'a', 'z');
    AscendingDistinct(u, 'A', 'Z');
    DistinctConcat(l, u, 'A', 'Z');
    DistinctConcat(d, l, 'a', 'z');
    DistinctConcat(d + l, u, 'A', 'Z');
    DistinctConcat(u, l, 'a', 'z');
    DistinctConcat(u + l, d, '0', '9');
    DistinctConcat(u + l + d, "-", '-', '-');
    DistinctConcat(u + l + d + "-", "_", '_', '_');
  }

  lemma ShortPiecesDistinct(d: string, u: string)
    requires Ascending(d, '0', '9') && Ascending(u, 'A', 'Z')
    ensures Distinct(d + "abcdef") && Distinct(d + "ABCDEF") && Distinct(u + "234567") && Distinct("01234567")
  {
    AscendingDistinct(d, '0', '9');
    AscendingDistinct(u, 'A', 'Z');
    AscendingDistinct("01234567", '0', '7');
    DistinctConcat(d, "abcdef", 'a', 'f');
    DistinctConcat(d, "ABCDEF", 'A', 'F');
    DistinctConcat(u, "234567", '2', '7');
  }

  /** No alphabet repeats a byte, so exact uniformity holds for all of them. */
  lemma AlphabetsDistinct(a: Alphabet)
    ensures Distinct(AlphabetData(a)) && 8 <= |AlphabetData(a)| <= 64
  {
    LowerAscending();
    UpperAscending();
    PiecesDistinct(DECI, LOWER, UPPER);
    ShortPiecesDistinct(DECI, UPPER);
  }

  // ---------- which symbols an alphabet holds, and in which order ----------

  /** The symbols of an alphabet by ranges of characters. */
  predicate IsSymbol(a: Alphabet, c: char) {
    match a
    case HexLowerAlphabet => '0' <= c <= '9' || 'a' <= c <= 'f'
    case HexUpperAlphabet => '0' <= c <= '9' || 'A' <= c <= 'F'
    case OctalAlphabet => '0' <= c <= '7'
    case LowerAlphabet => 'a' <= c <= 'z'
    case UpperAlphabet => 'A' <= c <= 'Z'
    case AlphaAlphabet => 'a' <= c <= 'z' || 'A' <= c <= 'Z'
    case AlphaNumericAlphabet => '0' <= c <= '9' || 'a' <= c <= 'z' || 'A' <= c <= 'Z'
    case Base32Alphabet => 'A' <= c <= 'Z' || '2' <= c <= '7'
    case Base64URLAlphabet => 'A' <= c <= 'Z' || 'a' <= c <= 'z' || '0' <= c <= '9' || c == '-' || c == '_'
    case _ => '0' <= c <= '9'
  }

  /** The place of a symbol: its ranges one after the other. */
  function PlaceOf(a: Alphabet, c: char): int {
    var d, l, u := c as int - '0' as int, c as int - 'a' as int, c as int - 'A' as int;
    match a
    case HexLowerAlphabet => if c <= '9' then d else 10 + l
    case HexUpperAlphabet => if c <= '9' then d else 10 + u
    case LowerAlphabet => l
    case UpperAlphabet => u
    case AlphaAlphabet => if c >= 'a' then l else 26 + u
    case AlphaNumericAlphabet => if c <= '9' then d else if c >= 'a' then 10 + l else 36 + u
    case Base32Alphabet => if c >= 'A' then u else 26 + c as int - '2' as int
    case Base64URLAlphabet =>
      if c == '-' then 62 else if c == '_' then 63
      else if c >= 'a' then 26 + l else if c >= 'A' then u else 52 + d
    case _ => d
  }

  /** s holds the characters from first on. */
  predicate Runs(s: string, first: char) {
    forall i | 0 <= i < |s| :: s[i] as int == first as int + i
  }

  lemma LowerAt(i: nat)
    requires i < |LOWER|
    ensures |LOWER| == 26 && LOWER[i] as int == 'a' as int + i
  {
    LowerHalfAt(i);
  }

  lemma LowerHalfAt(i: nat)
    requires i < 26
    ensures i < 13 ==> "abcdefghijklm"[i] as int == 'a' as int + i
    ensures i >= 13 ==> "nopqrstuvwxyz"[i - 13] as int == 'a' as int + i
  {
  }

  lemma UpperAt(i: nat)
    requires i < |UPPER|
    ensures |UPPER| == 26 && UPPER[i] as int == 'A' as int + i
  {
    UpperHalfAt(i);
  }

  lemma UpperHalfAt(i: nat)
    requires i < 26
    ensures i < 13 ==> "ABCDEFGHIJKLM"[i] as int == 'A' as int + i
    ensures i >= 13 ==> "NOPQRSTUVWXYZ"[i - 13] as int == 'A' as int + i
  {
  }

  lemma RunsOf()
    ensures Runs(LOWER, 'a') && |LOWER| == 26 && Runs(UPPER, 'A') && |UPPER| == 26
    ensures Runs(DECI, '0') && |DECI| == 10
    ensures Runs("01234567", '0') && Runs("234567", '2') && Runs("abcdef", 'a') && Runs("ABCDEF", 'A')
  {
    forall i | 0 <= i < |LOWER| ensures LOWER[i] as int == 'a' as int + i { LowerAt(i); }
    forall i | 0 <= i < |UPPER| ensures UPPER[i] as int == 'A' as int + i { UpperAt(i); }
    ShortRuns();
  }

  lemma ShortRuns()
    ensures Runs(DECI, '0') && |DECI| == 10
    ensures Runs("01234567", '0') && Runs("234567", '2') && Runs("abcdef", 'a') && Runs("ABCDEF", 'A')
  {
  }

  /** Every place holds a symbol of the alphabet that belongs there. */
  lemma AlphabetAt(a: Alphabet, i: nat)
    requires i < |AlphabetData(a)|
    ensures IsSymbol(a, AlphabetData(a)[i]) && PlaceOf(a, AlphabetData(a)[i]) == i
  {
    RunsOf();
    hide LOWER, UPPER, DECI;
  }

  /** Every symbol has its place. */
  lemma SymbolPlace(a: Alphabet, c: char)
    requires IsSymbol(a, c)
    ensures 0 <= PlaceOf(a, c) < |AlphabetData(a)|
  {
    RunsOf();
    hide LOWER, UPPER, DECI;
  }

  /** Two symbols do not share a place. */
  lemma SymbolOfPlace(a: Alphabet, c: char, e: char)
    requires IsSymbol(a, c) && IsSymbol(a, e) && PlaceOf(a, c) == PlaceOf(a, e)
    ensures c == e
  {
  }

  /** An alphabet holds exactly its ranges, in order. */
  lemma AlphabetHolds(a: Alphabet, c: char)
    ensures c in AlphabetData(a) <==> IsSymbol(a, c)
    ensures IsSymbol(a, c) ==> 0 <= PlaceOf(a, c) < |AlphabetData(a)| && AlphabetData(a)[PlaceOf(a, c)] == c
  {
    hide AlphabetData, IsSymbol, PlaceOf;
    if IsSymbol(a, c) {
      SymbolPlace(a, c);
      AlphabetAt(a, PlaceOf(a, c));
      SymbolOfPlace(a, c, AlphabetData(a)[PlaceOf(a, c)]);
    }
    if c in AlphabetData(a) {
      var i :| 0 <= i < |AlphabetData(a)| && AlphabetData(a)[i] == c;
      AlphabetAt(a, i);
    }
  }

  predicate OnlySymbols(a: Alphabet, s: string) {
    forall i | 0 <= i < |s| :: IsSymbol(a, s[i])
  }

  lemma SymbolsOf(a: Alphabet, s: string)
    requires NoRepeats(AlphabetData(a), s)
    ensures OnlySymbols(a, s)
  {
    hide AlphabetData, IsSymbol;
    forall i | 0 <= i < |s|
      ensures IsSymbol(a, s[i])
    {
      AlphabetHolds(a, s[i]);
    }
  }

  /** Append (and Bytes and String, with an empty dst): nothing for a length of
      zero or less, otherwise dst and a fill of the alphabet. */
  method Append(dst: string, a: Alphabet, length: int, p: Tape) returns (r: Option<string>)
    modifies p
    ensures length <= 0 ==> r == Some(dst) && p.words == old(p.words)
    ensures length > 0 && r.Some? ==> dst <= r.value
    ensures length > 0 ==>
              && UsableDict(AlphabetData(a))
              && Performed(Fill(AlphabetData(a), BatchOf(|AlphabetData(a)| - 1).k, length, old(p.words)),
                           if r.Some? then Some(r.value[|dst|..]) else None, p.words)
    ensures length > 0 && r.Some? ==> NoRepeats(AlphabetData(a), r.value[|dst|..])
    ensures length > 0 && r.Some? ==>
              |r.value| == |dst| + length && OnlySymbols(a, r.value[|dst|..])
  {
    AlphabetsDistinct(a);
    hide AlphabetData, OnlySymbols, NoRepeats;
    if length <= 0 {
      return Some(dst);
    }
    var dict := AlphabetData(a);
    var out := new char[|dst| + length];
    Strings.CopyPrefix(out, dst);
    var done := FillBatchedNoRepeat(out, |dst|, dict, p);
    if !done {
      return None;
    }
    assert out[..] == dst + out[|dst|..];
    FillSafe(dict, BatchOf(|dict| - 1).k, length, old(p.words));
    SymbolsOf(a, out[|dst|..]);
    r := Some(out[..]);
  }

  /** Exact uniformity over a built-in alphabet, with its table batch. */
  lemma AlphabetUniform(a: Alphabet, v: string, t: nat)
    requires v != [] && NoRepeats(AlphabetData(a), v)
    ensures UsableDict(AlphabetData(a))
    ensures var dict := AlphabetData(a);
      var k := BatchOf(|dict| - 1).k;
      |Outcomes(Fills(dict, k, |v|), t, v)| == FillWays(|dict|, k, |v|, t)
  {
    var dict := AlphabetData(a);
    AlphabetsDistinct(a);
    TableBatchFits(|dict| - 1);
    FillUniform(dict, BatchOf(|dict| - 1).k, v, t);
  }
}
