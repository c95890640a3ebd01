/** The Luhn check digit of ISO/IEC 7812-1 Annex B and the errors it detects. */
module Luhn {

  type Digit = d: nat | d < 10

  /** The contribution of a digit, doubled with casting out of nine or plain. */
  function Weight(d: Digit, double: bool): (w: Digit) {
    if !double then d
    else if 2 * d > 9 then 2 * d - 9
    else 2 * d
  }

  /** The weighted digit sum from the right; double says whether the rightmost
      digit is doubled. */
  function Sum(ds: seq<Digit>, double: bool): nat {
    if ds == [] then 0
    else Weight(ds[|ds| - 1], double) + Sum(ds[..|ds| - 1], !double)
  }

  /** A number with its check digit: every second digit from the right is
      doubled, starting next to the check digit. */
  predicate Valid(ds: seq<Digit>) {
    ds != [] && Sum(ds, false) % 10 == 0
  }

  function CheckDigit(payload: seq<Digit>): Digit {
    (10 - Sum(payload, true) % 10) % 10
  }

  // ---------- ASCII ----------

  predicate IsDigit(c: char) { '0' <= c <= '9' }

  predicate AllDigits(s: string) {
    forall i | 0 <= i < |s| :: IsDigit(s[i])
  }

  function DigitChar(d: Digit): (c: char)
    ensures IsDigit(c)
  {
    ('0' as int + d) as char
  }

  function DigitValue(c: char): Digit
    requires IsDigit(c)
  {
    c as int - '0' as int
  }

  function Values(s: string): (ds: seq<Digit>)
    requires AllDigits(s)
    ensures |ds| == |s|
  {
    if s == [] then [] else Values(s[..|s| - 1]) + [DigitValue(s[|s| - 1])]
  }

  lemma {:induction false} ValuesAt(s: string, i: nat)
    requires AllDigits(s) && i < |s|
    ensures Values(s)[i] == DigitValue(s[i])
  {
    if i < |s| - 1 {
      ValuesAt(s[..|s| - 1], i);
    }
  }

  lemma ValuesSnoc(s: string, d: Digit)
    requires AllDigits(s)
    ensures AllDigits(s + [DigitChar(d)]) && Values(s + [DigitChar(d)]) == Values(s) + [d]
  {
    assert (s + [DigitChar(d)])[..|s|] == s;
  }

  predicate ValidNumber(s: string) {
    AllDigits(s) && Valid(Values(s))
  }

  /** The loop over the payload from the right. */
  method LuhnCheckDigit(payload: string) returns (c: char)
    requires AllDigits(payload)
    ensures c == DigitChar(CheckDigit(Values(payload)))
  {
    ghost var ds := Values(payload);
    var sum, double, i := 0, true, |payload|;
    assert ds[..i] == ds;
    while i > 0
      invariant 0 <= i <= |payload|
      invariant sum + Sum(ds[..i], double) == Sum(ds, true)
    {
      assert ds[..i][..i - 1] == ds[..i - 1];
      i := i - 1;
      ValuesAt(payload, i);
      var v := payload[i] as int - '0' as int;
      assert v == ds[i];
      if double {
        v := v * 2;
        if v > 9 {
          v := v - 9;
        }
      }
      sum := sum + v;
      double := !double;
    }
    c := ('0' as int + (10 - sum % 10) % 10) as char;
  }

  // ---------- uniqueness and error detection ----------

  /** The check digit is the one digit that completes a payload. */
  lemma CheckDigitUnique(payload: seq<Digit>, d: Digit)
    ensures Valid(payload + [d]) <==> d == CheckDigit(payload)
  {
    assert (payload + [d])[..|payload|] == payload;
    Complement(Sum(payload, true), d);
  }

  lemma Complement(t: nat, d: Digit)
    ensures (d + t) % 10 == 0 <==> d == (10 - t % 10) % 10
  {
  }

  /** Whether the digit at index i is doubled. */
  predicate Doubled(n: nat, i: nat, double: bool)
    requires i < n
  {
    double == ((n - 1 - i) % 2 == 0)
  }

  lemma {:induction false} SumChange(ds: seq<Digit>, i: nat, d: Digit, double: bool)
    requires i < |ds|
    ensures Sum(ds[i := d], double)
         == Sum(ds, double) + Weight(d, Doubled(|ds|, i, double)) - Weight(ds[i], Doubled(|ds|, i, double))
    decreases |ds|
  {
    hide Weight;
    var es, n := ds[i := d], |ds| - 1;
    if i == n {
      assert es[..n] == ds[..n];
    } else {
      assert es[..n] == ds[..n][i := d];
      SumChange(ds[..n], i, d, !double);
    }
  }

  lemma TenApart(sum: int, diff: int)
    requires sum % 10 == 0
    ensures (sum + diff) % 10 == 0 <==> diff % 10 == 0
  {
  }

  // ---------- the standard, position by position ----------

  /** The decimal digits of the doubled digits next to the check digit and every
      second one before it, and the other digits as they are. */
  function Contribution(ds: seq<Digit>, i: nat): nat
    requires i < |ds|
  {
    var d: int := ds[i];
    if (|ds| - 1 - i) % 2 == 1 then 2 * d / 10 + 2 * d % 10 else d
  }

  /** The contributions of the first n digits. */
  function Total(ds: seq<Digit>, n: nat): nat
    requires n <= |ds|
  {
    if n == 0 then 0 else Total(ds, n - 1) + Contribution(ds, n - 1)
  }

  /** The contribution with the rightmost digit doubled or not. */
  function Part(ds: seq<Digit>, double: bool, i: nat): nat
    requires i < |ds|
  {
    Weight(ds[i], Doubled(|ds|, i, double))
  }

  function Parts(ds: seq<Digit>, double: bool, n: nat): nat
    requires n <= |ds|
  {
    if n == 0 then 0 else Parts(ds, double, n - 1) + Part(ds, double, n - 1)
  }

  lemma {:induction false} PartsOfPrefix(ds: seq<Digit>, double: bool, n: nat)
    requires ds != [] && n <= |ds| - 1
    ensures Parts(ds, double, n) == Parts(ds[..|ds| - 1], !double, n)
  {
    hide Weight;
    if n > 0 {
      PartsOfPrefix(ds, double, n - 1);
    }
  }

  lemma {:induction false} SumIsParts(ds: seq<Digit>, double: bool)
    ensures Sum(ds, double) == Parts(ds, double, |ds|)
  {
    hide Weight;
    if ds != [] {
      var init := ds[..|ds| - 1];
      SumIsParts(init, !double);
      PartsOfPrefix(ds, double, |ds| - 1);
    }
  }

  lemma {:induction false} PartsAreTotal(ds: seq<Digit>, n: nat)
    requires n <= |ds|
    ensures Parts(ds, false, n) == Total(ds, n)
  {
    if n > 0 {
      PartsAreTotal(ds, n - 1);
    }
  }

  /** A number is valid exactly when its contributions add up to a multiple of
      ten. */
  lemma ValidIsTheStandard(ds: seq<Digit>)
    ensures Valid(ds) <==> ds != [] && Total(ds, |ds|) % 10 == 0
  {
    SumIsParts(ds, false);
    PartsAreTotal(ds, |ds|);
  }

  /** Any change of a single digit is detected. */
  lemma DetectsSubstitution(ds: seq<Digit>, i: nat, d: Digit)
    requires Valid(ds) && i < |ds|
    ensures Valid(ds[i := d]) <==> d == ds[i]
  {
    var x := Doubled(|ds|, i, false);
    SumChange(ds, i, d, false);
    TenApart(Sum(ds, false), Weight(d, x) - Weight(ds[i], x));
  }

  function Swapped(ds: seq<Digit>, i: nat): seq<Digit>
    requires i + 1 < |ds|
  {
    ds[i := ds[i + 1]][i + 1 := ds[i]]
  }

  lemma SwapWeights(a: Digit, b: Digit, x: bool)
    ensures (Weight(b, x) - Weight(a, x) + Weight(a, !x) - Weight(b, !x)) % 10 == 0
       <==> a == b || (a == 0 && b == 9) || (a == 9 && b == 0)
  {
  }

  /** An adjacent transposition of different digits is detected exactly when
      the digits are not 0 and 9. */
  lemma DetectsTransposition(ds: seq<Digit>, i: nat)
    requires Valid(ds) && i + 1 < |ds|
    ensures Valid(Swapped(ds, i))
       <==> ds[i] == ds[i + 1] || (ds[i] == 0 && ds[i + 1] == 9) || (ds[i] == 9 && ds[i + 1] == 0)
  {
    hide Weight;
    var a, b, x := ds[i], ds[i + 1], Doubled(|ds|, i, false);
    SumChange(ds, i, b, false);
    SumChange(ds[i := b], i + 1, a, false);
    TenApart(Sum(ds, false), Weight(b, x) - Weight(a, x) + Weight(a, !x) - Weight(b, !x));
    SwapWeights(a, b, x);
  }
}
