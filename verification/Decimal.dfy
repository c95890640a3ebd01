/** Random decimal digits, up to eighteen from each accepted word. */
module Decimal {
  import opened Wrappers
  import opened Words
  import opened Tapes
  import opened Luhn

  const BOUND: int := 18_000_000_000_000_000_000
  const TEN18: int := 1_000_000_000_000_000_000

  /** The last n decimal digits of x. */
  function Chunk(x: nat, n: nat): (s: string)
    ensures |s| == n && AllDigits(s)
    decreases n
  {
    if n == 0 then "" else Chunk(x / 10, n - 1) + [DigitChar(x % 10)]
  }

  function ReadBack(s: string): nat
    requires AllDigits(s)
  {
    if s == "" then 0 else 10 * ReadBack(s[..|s| - 1]) + DigitValue(s[|s| - 1])
  }

  function Take(n: int): nat
    requires n > 0
    ensures Take(n) <= 18 && Take(n) <= n
  {
    if n < 18 then n else 18
  }

  /** What one word contributes when take digits are wanted. */
  function DrawChunk(take: nat, x: Word): Option<string> {
    if x >= BOUND then None else Some(Chunk(x % TEN18, take))
  }

  /** out followed by n random digits. */
  function RandomDigits(out: string, n: int, tape: seq<Word>): Run<string>
    decreases |tape|
  {
    if n <= 0 then Some((out, tape))
    else if tape == [] then None
    else match DrawChunk(Take(n), tape[0])
      case None => RandomDigits(out, n, tape[1..])
      case Some(chunk) => RandomDigits(out + chunk, n - Take(n), tape[1..])
  }

  method AppendRandomDigits(dst: string, n0: int, p: Tape) returns (r: Option<string>)
    modifies p
    ensures Performed(RandomDigits(dst, n0, old(p.words)), r, p.words)
  {
    var out, n := dst, n0;
    while n > 0
      invariant RandomDigits(out, n, p.words) == RandomDigits(dst, n0, old(p.words))
      decreases n
    {
      ghost var here := RandomDigits(out, n, p.words);
      var x: Option<Word> := p.Sum64();
      while x != None && x.value >= BOUND
        invariant x == None ==> here == None && p.words == []
        invariant x != None ==> RandomDigits(out, n, [x.value as Word] + p.words) == here
        decreases if x == None then 0 else 1 + |p.words|
      {
        SkipWord(out, n, x.value, p.words);
        ghost var rest := p.words;
        x := p.Sum64();
        assert x != None ==> rest == [x.value] + p.words;
      }
      if x == None {
        return None;
      }
      UseWord(out, n, x.value, p.words);
      var take := Take(n);
      var chunk := WriteChunk(x.value % TEN18, take);
      out := out + chunk;
      n := n - take;
    }
    r := Some(out);
  }

  lemma SkipWord(out: string, n: int, x: Word, tape: seq<Word>)
    requires n > 0 && x >= BOUND
    ensures RandomDigits(out, n, [x] + tape) == RandomDigits(out, n, tape)
  {
    assert ([x] + tape)[1..] == tape;
  }

  lemma UseWord(out: string, n: int, x: Word, tape: seq<Word>)
    requires n > 0 && x < BOUND
    ensures RandomDigits(out, n, [x] + tape)
         == RandomDigits(out + Chunk(x % TEN18, Take(n)), n - Take(n), tape)
  {
    assert ([x] + tape)[1..] == tape;
  }

  /** The digits of x written from the last position down. */
  method WriteChunk(x0: nat, take: nat) returns (s: string)
    ensures s == Chunk(x0, take)
  {
    var buf, x, i := new char[take], x0, take;
    while i > 0
      invariant 0 <= i <= take
      invariant Chunk(x, i) + buf[i..] == Chunk(x0, take)
    {
      ghost var rest := buf[i..];
      i := i - 1;
      buf[i] := ('0' as int + x % 10) as char;
      assert buf[i..] == [DigitChar(x % 10)] + rest;
      x := x / 10;
    }
    s := buf[..];
    assert buf[0..] == buf[..];
  }

  // ---------- chunks and numbers ----------

  lemma {:induction false} ChunkReadsBack(x: nat, n: nat)
    ensures ReadBack(Chunk(x, n)) == x % Pow(10, n)
    decreases n
  {
    if n > 0 {
      var c := Chunk(x, n);
      assert c[..n - 1] == Chunk(x / 10, n - 1);
      ChunkReadsBack(x / 10, n - 1);
      LastDigit(x, Pow(10, n - 1));
    } else {
      assert x % 1 == 0;
    }
  }

  lemma LastDigit(x: nat, p: nat)
    requires p > 0
    ensures x % (10 * p) == 10 * (x / 10 % p) + x % 10
  {
    var q, r := x / 10 / p, x / 10 % p;
    DivBounds(x / 10, p);
    assert q * (10 * p) == 10 * (q * p);
    DivModUnique(x, 10 * p, q, 10 * r + x % 10);
  }

  lemma {:induction false} ReadBackBound(s: string)
    requires AllDigits(s)
    ensures ReadBack(s) < Pow(10, |s|)
  {
    if s != "" {
      ReadBackBound(s[..|s| - 1]);
    }
  }

  lemma {:induction false} ReadBackInjective(s: string, t: string)
    requires AllDigits(s) && AllDigits(t) && |s| == |t| && ReadBack(s) == ReadBack(t)
    ensures s == t
  {
    if s != "" {
      var n := |s| - 1;
      ReadBackInjective(s[..n], t[..n]);
      assert s == s[..n] + [s[n]] && t == t[..n] + [t[n]];
    }
  }

  /** The chunk is determined by the word modulo a power of ten. */
  lemma ChunkIs(x: nat, s: string)
    requires AllDigits(s)
    ensures Chunk(x, |s|) == s <==> x % Pow(10, |s|) == ReadBack(s)
  {
    ChunkReadsBack(x, |s|);
    if ReadBack(Chunk(x, |s|)) == ReadBack(s) {
      ReadBackInjective(Chunk(x, |s|), s);
    }
  }

  // ---------- what each word contributes ----------

  /** A word of 18 * 10^18 or more contributes nothing. */
  lemma RejectedWord(out: string, n: int, x: Word, tape: seq<Word>)
    requires n > 0 && x >= 18_000_000_000_000_000_000
    ensures RandomDigits(out, n, [x] + tape) == RandomDigits(out, n, tape)
  {
    SkipWord(out, n, x, tape);
  }

  /** Any other word gives up to eighteen digits, the low decimal digits of the
      word; further digits come from the next words. */
  lemma AcceptedWord(out: string, n: int, x: Word, tape: seq<Word>) returns (s: string)
    requires n > 0 && x < 18_000_000_000_000_000_000
    ensures |s| == (if n < 18 then n else 18) && AllDigits(s) && ReadBack(s) == x % Pow(10, |s|)
    ensures RandomDigits(out, n, [x] + tape) == if n <= 18 then Some((out + s, tape)) else RandomDigits(out + s, n - 18, tape)
  {
    var take := if n < 18 then n else 18;
    s := Chunk(x % TEN18, take);
    UseWord(out, n, x, tape);
    ChunkReadsBack(x % TEN18, take);
    EighteenDigits(take);
    ModMod(x, Pow(10, take), Pow(10, 18 - take));
  }

  /** The words below the bound. */
  function Accepted(tape: seq<Word>): nat {
    if tape == [] then 0
    else (if tape[0] < 18_000_000_000_000_000_000 then 1 else 0) + Accepted(tape[1..])
  }

  /** The words up to rest hold exactly ceil(n / 18) accepted ones, the last
      one among them. */
  predicate Used(tape: seq<Word>, rest: seq<Word>, n: nat) {
    var used := |tape| - |rest|;
    && 0 <= used && rest == tape[used..]
    && Accepted(tape[..used]) == (n + 17) / 18
    && (n > 0 ==> used > 0 && tape[used - 1] < 18_000_000_000_000_000_000)
  }

  /** A finished run of n digits has used exactly ceil(n / 18) accepted words. */
  lemma {:induction false} WordsUsed(out: string, n: nat, tape: seq<Word>)
    requires RandomDigits(out, n, tape).Some?
    ensures Used(tape, RandomDigits(out, n, tape).value.1, n)
    decreases |tape|
  {
    if n == 0 {
      assert tape[0..] == tape && tape[..0] == [];
    } else {
      var x, more := tape[0], tape[1..];
      assert tape == [x] + more;
      hide Used, Accepted, DrawChunk, Take;
      if x >= BOUND {
        RejectedWord(out, n, x, more);
        WordsUsed(out, n, more);
        UsedRejected(x, more, RandomDigits(out, n, tape).value.1, n);
      } else {
        var s := AcceptedWord(out, n, x, more);
        if n > 18 {
          WordsUsed(out + s, n - 18, more);
        }
        UsedAccepted(x, more, RandomDigits(out, n, tape).value.1, n);
      }
    }
  }

  lemma UsedRejected(x: Word, more: seq<Word>, rest: seq<Word>, n: nat)
    requires n > 0 && x >= BOUND && Used(more, rest, n)
    ensures Used([x] + more, rest, n)
  {
    UsedOneMore(x, more, |more| - |rest|);
  }

  lemma UsedAccepted(x: Word, more: seq<Word>, rest: seq<Word>, n: nat)
    requires n > 0 && x < BOUND && if n > 18 then Used(more, rest, n - 18) else rest == more
    ensures Used([x] + more, rest, n)
  {
    UsedOneMore(x, more, |more| - |rest|);
  }

  lemma UsedOneMore(x: Word, more: seq<Word>, used: int)
    requires 0 <= used <= |more|
    ensures ([x] + more)[..used + 1] == [x] + more[..used] && ([x] + more)[used + 1..] == more[used..]
    ensures ([x] + more[..used])[1..] == more[..used]
  {
  }

  // ---------- exact uniformity ----------

  lemma EighteenDigits(take: nat)
    requires take <= 18
    ensures Pow(10, 18 - take) * Pow(10, take) == TEN18
  {
    PowAdds(10, 18 - take, take);
    assert Pow(10, 6) == 1_000_000;
    PowAdds(10, 6, 6);
    PowAdds(10, 6, 12);
  }

  lemma ModMod(x: nat, m: nat, k: nat)
    requires m > 0 && k > 0
    ensures x % (k * m) % m == x % m
  {
    var q, r := x / (k * m), x % (k * m);
    DivBounds(x, k * m);
    DivBounds(r, m);
    assert q * (k * m) == (q * k) * m;
    assert (q * k + r / m) * m == (q * k) * m + (r / m) * m;
    DivModUnique(x, m, q * k + r / m, r % m);
  }

  /** DrawChunk as a sampler. */
  function Chunks(take: nat): Word -> Option<string> {
    (x: Word) => DrawChunk(take, x)
  }

  lemma ChunkWord(s: string, x: Word)
    requires AllDigits(s) && |s| <= 18
    ensures DrawChunk(|s|, x) == Some(s) <==> x < BOUND && x % Pow(10, |s|) == ReadBack(s)
  {
    EighteenDigits(|s|);
    ModMod(x, Pow(10, |s|), Pow(10, 18 - |s|));
    ChunkIs(x % TEN18, s);
  }

  lemma ChunkMember(s: string, x: int, q: int)
    requires AllDigits(s) && |s| <= 18 && q * Pow(10, |s|) == BOUND && q >= 0
    requires ReadBack(s) < Pow(10, |s|)
    ensures x in Residues(Pow(10, |s|), ReadBack(s), q) <==> InWord(x) && x in Fiber(Chunks(|s|), Some(s))
  {
    InResidues(Pow(10, |s|), ReadBack(s), q, x);
    if InWord(x) {
      ChunkWord(s, x);
    }
  }

  lemma SameElements(s: set<Word>, t: set<int>)
    requires forall x: Word :: x in s <==> x in t
    requires forall x: int | x in t :: InWord(x)
    ensures |s| == |t|
  {
    var u: set<Word> := t;
    assert s == u;
  }

  /** Every chunk of digits comes from exactly 18 * 10^(18 - length) words. */
  lemma ChunksExact(s: string)
    requires AllDigits(s) && |s| <= 18
    ensures |Fiber(Chunks(|s|), Some(s))| == 18 * Pow(10, 18 - |s|)
  {
    var m, r, q := Pow(10, |s|), ReadBack(s), 18 * Pow(10, 18 - |s|);
    ReadBackBound(s);
    EighteenDigits(|s|);
    MulAssociates(18, Pow(10, 18 - |s|), m);
    hide Pow, ReadBack, Residues, Fiber, Chunks, InWord;
    forall x: int
      ensures x in Residues(m, r, q) <==> InWord(x) && x in Fiber(Chunks(|s|), Some(s))
    {
      ChunkMember(s, x, q);
    }
    SameElements(Fiber(Chunks(|s|), Some(s)), Residues(m, r, q));
    ResiduesCard(m, r, q);
  }

  lemma ChunksReject(take: nat)
    ensures |Fiber(Chunks(take), None)| == TWO64 - BOUND
  {
    IntervalCard(Fiber(Chunks(take), None), BOUND, TWO64);
  }

  /** How many tapes of t words give n prescribed digits. */
  function DigitsWays(n: int, t: nat): nat
    decreases t
  {
    if n <= 0 then Pow(TWO64, t)
    else if t == 0 then 0
    else Weigh(18 * Pow(10, 18 - Take(n)), DigitsWays(n - Take(n), t - 1), TWO64 - BOUND, DigitsWays(n, t - 1))
  }

  function DigitsValue(out: string, n: int, tape: seq<Word>): Option<string> {
    Result(RandomDigits(out, n, tape))
  }

  /** DigitsValue as a generator. */
  function DigitsAfter(out: string, n: int): seq<Word> -> Option<string> {
    (tape: seq<Word>) => DigitsValue(out, n, tape)
  }

  lemma {:induction false} KeepsPrefix(out: string, n: int, tape: seq<Word>)
    ensures var r := DigitsValue(out, n, tape);
      r.Some? ==> out <= r.value && |r.value| == |out| + (if n <= 0 then 0 else n) && AllDigits(r.value[|out|..])
    decreases |tape|
  {
    if n > 0 && tape != [] {
      match DrawChunk(Take(n), tape[0])
      case None => KeepsPrefix(out, n, tape[1..]);
      case Some(chunk) =>
        KeepsPrefix(out + chunk, n - Take(n), tape[1..]);
        var r := DigitsValue(out, n, tape);
        if r.Some? {
          assert r.value[|out|..] == chunk + r.value[|out + chunk|..];
        }
    }
  }

  lemma DigitsWord(out: string, v: string, n: nat, part: string, w: Word, tape: seq<Word>)
    requires out + part <= v && n == |v| - |out| > 0 && |part| == Take(n)
    ensures DrawChunk(Take(n), w) == Some(part) ==>
              DigitsValue(out, n, [w] + tape) == DigitsValue(out + part, n - Take(n), tape)
    ensures DrawChunk(Take(n), w) == None ==>
              DigitsValue(out, n, [w] + tape) == DigitsValue(out, n, tape)
    ensures DrawChunk(Take(n), w) != None && DrawChunk(Take(n), w) != Some(part) ==>
              DigitsValue(out, n, [w] + tape) != Some(v)
  {
    hide Chunk;
    assert ([w] + tape)[1..] == tape;
    if DrawChunk(Take(n), w).Some? {
      var chunk := DrawChunk(Take(n), w).value;
      KeepsPrefix(out + chunk, n - Take(n), tape);
      if out + chunk <= v {
        assert chunk == v[|out|..|out| + Take(n)] == part;
      }
    }
  }

  lemma DigitsSplit(out: string, v: string, n: nat, part: string, t: nat)
    requires out + part <= v && n == |v| - |out| > 0 && |part| == Take(n)
    ensures |Outcomes(DigitsAfter(out, n), t + 1, v)|
         == Weigh(|Fiber(Chunks(Take(n)), Some(part))|, |Outcomes(DigitsAfter(out + part, n - Take(n)), t, v)|,
                  |Fiber(Chunks(Take(n)), None)|, |Outcomes(DigitsAfter(out, n), t, v)|)
  {
    hide DrawChunk, DigitsValue, Weigh, Take;
    var f, g := DigitsAfter(out, n), DigitsAfter(out + part, n - Take(n));
    var a, b := Fiber(Chunks(Take(n)), Some(part)), Fiber(Chunks(Take(n)), None);
    forall w: Word, tape: seq<Word>
      ensures w in a ==> f([w] + tape) == g(tape)
      ensures w in b ==> f([w] + tape) == f(tape)
      ensures w !in a && w !in b ==> f([w] + tape) != Some(v)
    {
      DigitsWord(out, v, n, part, w, tape);
    }
    CountStep(f, t, v, a, g, b, f);
  }

  lemma DigitsStep(out: string, v: string, t: nat)
    requires out <= v && |out| < |v| && AllDigits(v[|out|..])
    ensures var n := |v| - |out|;
      |Outcomes(DigitsAfter(out, n), t + 1, v)|
      == Weigh(18 * Pow(10, 18 - Take(n)),
               |Outcomes(DigitsAfter(v[..|out| + Take(n)], n - Take(n)), t, v)|,
               TWO64 - BOUND, |Outcomes(DigitsAfter(out, n), t, v)|)
  {
    var n := |v| - |out|;
    var part := v[|out|..|out| + Take(n)];
    assert v[..|out| + Take(n)] == out + part;
    assert AllDigits(part) by {
      assert forall i | 0 <= i < |part| :: part[i] == v[|out|..][i];
    }
    DigitsSplit(out, v, n, part, t);
    ChunksExact(part);
    ChunksReject(Take(n));
  }

  /** Every string of n digits comes from the same number of tapes, for every
      tape length and with rejected words included. */
  lemma {:induction false} DigitsUniform(out: string, v: string, t: nat)
    requires out <= v && AllDigits(v[|out|..])
    ensures |Outcomes(DigitsAfter(out, |v| - |out|), t, v)| == DigitsWays(|v| - |out|, t)
    decreases t
  {
    var n := |v| - |out|;
    if n == 0 {
      assert out == v;
      CountDone(DigitsAfter(out, n), t, v);
    } else if t == 0 {
      CountNone(DigitsAfter(out, n), 0, v);
    } else {
      var next := v[..|out| + Take(n)];
      assert AllDigits(v[|next|..]) by {
        assert forall i | 0 <= i < |v| - |next| :: v[|next|..][i] == v[|out|..][Take(n) + i];
      }
      hide DigitsValue, Outcomes, Fiber, Pow;
      DigitsStep(out, v, t - 1);
      DigitsUniform(next, v, t - 1);
      DigitsUniform(out, v, t - 1);
    }
  }
}
