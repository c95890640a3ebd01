/** Bluetooth random device addresses: rejection of the all-zero and all-one
    random parts, and the layout of resolvable private addresses. */
module Bluetooth {
  import opened Wrappers
  import opened Words
  import opened Tapes
  import opened Halves
  import RpaCache

  const TWO22: nat := 0x40_0000
  const TWO24: nat := 0x100_0000
  const TWO46: nat := 0x4000_0000_0000

  /** The low bits of a word, neither all zero nor all one. */
  function LowBits(m: nat): Word -> Option<int>
    requires m > 0
  {
    (x: Word) => if x % m == 0 || x % m == m - 1 then None else Some(x % m)
  }

  /** Draws until the low bits are accepted; the word is the result. */
  function LowBitsRun(m: nat, tape: seq<Word>): Run<Word>
    requires m > 0
  {
    if tape == [] then None
    else if LowBits(m)(tape[0]) == None then LowBitsRun(m, tape[1..])
    else Some((tape[0], tape[1..]))
  }

  method DrawLowBits(m: nat, p: Tape) returns (r: Option<Word>)
    requires m > 0
    modifies p
    ensures Performed(LowBitsRun(m, old(p.words)), r, p.words)
  {
    while true
      invariant LowBitsRun(m, p.words) == LowBitsRun(m, old(p.words))
      decreases |p.words|
    {
      var x: Option<Word> := p.Sum64();
      if x == None {
        return None;
      }
      var low := x.value % m;
      if low != 0 && low != m - 1 {
        return x;
      }
    }
  }

  /** random46, with the top bits 11 of a static address or 00 of a
      non-resolvable private address. */
  function Device(fixed: bool, x: Word): int {
    (if fixed then 3 * TWO46 else 0) + x % TWO46
  }

  function Devices(fixed: bool): Word -> int {
    (x: Word) => Device(fixed, x)
  }

  method DeviceAddress(fixed: bool, p: Tape) returns (r: Option<int>)
    modifies p
    ensures Performed(Mapped(LowBitsRun(TWO46, old(p.words)), Devices(fixed)), r, p.words)
    ensures r.Some? ==> IsDevice(fixed, r.value)
  {
    LowBitsAccepted(TWO46, p.words);
    var x := DrawLowBits(TWO46, p);
    r := if x == None then None else Some(Device(fixed, x.value));
  }

  function Mapped(run: Run<Word>, f: Word -> int): Run<int> {
    match run
    case None => None
    case Some((x, rest)) => Some((f(x), rest))
  }

  /** A random device address as the Bluetooth Core Specification, Vol 6 Part B,
      section 1.3.2 has it. */
  predicate IsDevice(fixed: bool, a: int) {
    && a / TWO46 == (if fixed then 3 else 0)
    && 0 < a % TWO46 < TWO46 - 1
  }

  /** The random part is the low 46 bits of the word. */
  lemma DeviceBits(fixed: bool, x: Word)
    ensures Device(fixed, x) % TWO46 == x % TWO46
    ensures Device(fixed, x) / TWO46 == if fixed then 3 else 0
  {
  }

  lemma {:induction false} LowBitsAccepted(m: nat, tape: seq<Word>)
    requires m > 0
    ensures var r := Result(LowBitsRun(m, tape)); r.Some? ==> 0 < r.value % m < m - 1
  {
    if tape != [] && LowBits(m)(tape[0]) == None {
      LowBitsAccepted(m, tape[1..]);
    }
  }

  // ---------- resolvable private addresses ----------

  /** prand with the top bits 01 over a hash: the value of ah for a key, or 24
      high bits of the same word. */
  function Resolvable(ah: Option<int -> int>, x: Word): int {
    var prand := x % TWO22 + TWO22;
    prand * TWO24 + match ah
                    case Some(h) => h(prand)
                    case None => x / 0x1_0000_0000 % TWO24
  }

  function Resolvables(ah: Option<int -> int>): Word -> int {
    (x: Word) => Resolvable(ah, x)
  }

  /** ah has a 24-bit value. */
  ghost predicate IsHash(ah: int -> int) {
    forall prand :: 0 <= ah(prand) < TWO24
  }

  /** What bluetoothHash returns for a key, which every interleaving of its
      calls agrees on: ah of the key and prand. */
  function Keyed(aes: RpaCache.Cipher, irk: RpaCache.Bytes): int -> int {
    (prand: int) => if prand >= 0 then RpaCache.Ah(aes, irk, prand) else 0
  }

  lemma KeyedIsHash(aes: RpaCache.Cipher, irk: RpaCache.Bytes)
    ensures IsHash(Keyed(aes, irk))
  {
  }

  /** A concurrent call that has finished returned the hash that Keyed names. */
  lemma CallsAreKeyed(aes: RpaCache.Cipher, s: RpaCache.System, i: nat)
    requires RpaCache.IsCipher(aes) && RpaCache.Reachable(aes, s) && i < |s.calls| && s.calls[i].pc == RpaCache.Done
    ensures s.calls[i].hash == Keyed(aes, s.calls[i].irk)(s.calls[i].prand)
  {
    RpaCache.EveryHashIsAh(aes, s, i);
  }

  function Hash(aes: RpaCache.Cipher, irk: Option<RpaCache.Bytes>): Option<int -> int> {
    match irk
    case None => None
    case Some(key) => Some(Keyed(aes, key))
  }

  /** No address and no draw for a key that is not 16 bytes long. */
  method ResolvableAddress(aes: RpaCache.Cipher, irk: Option<RpaCache.Bytes>, p: Tape)
    returns (r: Option<int>, ok: bool)
    modifies p
    ensures ok <==> irk == None || |irk.value| == 16
    ensures !ok ==> r == None && p.words == old(p.words)
    ensures ok ==> Performed(Mapped(LowBitsRun(TWO22, old(p.words)), Resolvables(Hash(aes, irk))), r, p.words)
    ensures r.Some? ==> IsResolvable(r.value)
    ensures r.Some? && irk.Some? ==> Resolves(Keyed(aes, irk.value), r.value)
  {
    if irk.Some? && |irk.value| != 16 {
      return None, false;
    }
    ok := true;
    LowBitsAccepted(TWO22, p.words);
    var x := DrawLowBits(TWO22, p);
    if x == None {
      return None, true;
    }
    if irk.Some? {
      KeyedIsHash(aes, irk.value);
    }
    Layout(Hash(aes, irk), x.value);
    r := Some(Resolvable(Hash(aes, irk), x.value));
  }

  /** The type bits 01, and a random part that is neither all zero nor all one. */
  predicate IsResolvable(a: int) {
    && a / TWO24 / TWO22 == 1
    && 0 < a / TWO24 % TWO22 < TWO22 - 1
  }

  /** A peer that holds the key recognises the address. */
  predicate Resolves(ah: int -> int, a: int) {
    a % TWO24 == ah(a / TWO24)
  }

  lemma Layout(ah: Option<int -> int>, x: Word)
    requires ah.Some? ==> IsHash(ah.value)
    requires 0 < x % TWO22 < TWO22 - 1
    ensures IsResolvable(Resolvable(ah, x))
    ensures Resolvable(ah, x) / TWO24 == x % TWO22 + TWO22
    ensures ah.Some? ==> Resolves(ah.value, Resolvable(ah, x))
  {
    var prand := x % TWO22 + TWO22;
    DivModUnique(Resolvable(ah, x), TWO24, prand, Resolvable(ah, x) - prand * TWO24);
    DivModUnique(prand, TWO22, 1, x % TWO22);
  }

  // ---------- uniformity ----------

  /** The addresses of one kind as a generator and as a sampler. */
  function Draws(m: nat, f: Word -> int): seq<Word> -> Option<int>
    requires m > 0
  {
    (tape: seq<Word>) => Result(Mapped(LowBitsRun(m, tape), f))
  }

  function Sample(m: nat, f: Word -> int): Word -> Option<int>
    requires m > 0
  {
    (x: Word) => if LowBits(m)(x) == None then None else Some(f(x))
  }

  lemma DrawsRetry(m: nat, f: Word -> int)
    requires m > 0
    ensures Retries(Draws(m, f), Sample(m, f))
  {
    forall w: Word, tape: seq<Word>
      ensures Draws(m, f)([w] + tape) == if Sample(m, f)(w).Some? then Sample(m, f)(w) else Draws(m, f)(tape)
    {
      assert ([w] + tape)[1..] == tape;
    }
  }

  /** When the address determines the low bits and they determine the address,
      each address comes from equally many words. */
  lemma SampleCard(m: nat, q: nat, f: Word -> int, a: int, low: nat)
    requires q * m == TWO64 && 0 < low < m - 1
    requires forall x: Word | 0 < x % m < m - 1 :: f(x) == a <==> x % m == low
    ensures |Fiber(Sample(m, f), Some(a))| == q
  {
    var s, b := Fiber(Sample(m, f), Some(a)), Residues(m, low, q);
    forall x: int
      ensures (InWord(x) && x in s) <==> x in b || x in {}
    {
      InResidues(m, low, q, x);
    }
    SplitCard(s, b, {});
    ResiduesCard(m, low, q);
  }

  /** All static addresses are equally likely, and so are all non-resolvable
      private addresses. */
  lemma DeviceUniform(fixed: bool, a: int, t: nat)
    requires IsDevice(fixed, a)
    ensures |Outcomes(Draws(TWO46, Devices(fixed)), t, a)|
         == RetryWays(0x4_0000, |Fiber(Sample(TWO46, Devices(fixed)), None)|, t)
  {
    var f := Devices(fixed);
    DrawsRetry(TWO46, f);
    RetryUniform(Draws(TWO46, f), Sample(TWO46, f), a, t);
    SampleCard(TWO46, 0x4_0000, f, a, a % TWO46);
  }

  /** Under one hash function all addresses that resolve are equally likely. */
  lemma HashUniform(ah: int -> int, a: int, t: nat)
    requires IsHash(ah) && IsResolvable(a) && Resolves(ah, a)
    ensures |Outcomes(Draws(TWO22, Resolvables(Some(ah))), t, a)|
         == RetryWays(0x400_0000_0000, |Fiber(Sample(TWO22, Resolvables(Some(ah))), None)|, t)
  {
    var f := Resolvables(Some(ah));
    DrawsRetry(TWO22, f);
    RetryUniform(Draws(TWO22, f), Sample(TWO22, f), a, t);
    SampleCard(TWO22, 0x400_0000_0000, f, a, a / TWO24 % TWO22);
  }

  /** Under one key all addresses that resolve with ah are equally likely. */
  lemma ResolvableUniform(aes: RpaCache.Cipher, irk: RpaCache.Bytes, a: int, t: nat)
    requires IsResolvable(a) && a % TWO24 == RpaCache.Ah(aes, irk, a / TWO24)
    ensures var f := Resolvables(Some(Keyed(aes, irk)));
      |Outcomes(Draws(TWO22, f), t, a)| == RetryWays(0x400_0000_0000, |Fiber(Sample(TWO22, f), None)|, t)
  {
    KeyedIsHash(aes, irk);
    assert Resolves(Keyed(aes, irk), a);
    HashUniform(Keyed(aes, irk), a, t);
  }

  // ---------- resolvable addresses with a random hash ----------

  const TWO56: nat := 0x100_0000_0000_0000

  /** The words with random part low and hash bits hash, by their top byte. */
  ghost function Slice(low: nat, hash: nat, n: nat): set<Word> {
    set x: Word | x in AllWords() && x % TWO22 == low && x / TWO32 % TWO24 == hash && x / TWO56 < n
  }

  /** One value of the top byte: low repeats every 2^22 words in a stretch of 2^32. */
  lemma SliceMember(low: nat, hash: nat, n: nat, x: int)
    requires low < TWO22 && hash < TWO24 && n < 0x100
    ensures var base := n * TWO56 + hash * TWO32;
      InWord(x) && x % TWO22 == low && x / TWO32 % TWO24 == hash && x / TWO56 == n
      <==> 0 <= x - base < TWO32 && (x - base) % TWO22 == low
  {
    SameLow(n * 0x4_0000_0000 + hash * 0x400, x);
    if 0 <= x - (n * TWO56 + hash * TWO32) < TWO32 {
      DivModUnique(x, TWO32, n * TWO24 + hash, x - (n * TWO56 + hash * TWO32));
      DivModUnique(x, TWO56, n, x - n * TWO56);
      DivModUnique(n * TWO24 + hash, TWO24, n, hash);
    } else if InWord(x) {
      Pieces(x);
    }
  }

  lemma SameLow(a: int, x: int)
    ensures (x - a * TWO22) % TWO22 == x % TWO22
  {
    DivBounds(x, TWO22);
    DivModUnique(x - a * TWO22, TWO22, x / TWO22 - a, x % TWO22);
  }

  lemma Pieces(x: Word)
    ensures 0 <= x - (x / TWO56 * TWO56 + x / TWO32 % TWO24 * TWO32) < TWO32
  {
    DivBounds(x, TWO32);
    DivBounds(x / TWO32, TWO24);
    DivModUnique(x, TWO56, x / TWO32 / TWO24, x / TWO32 % TWO24 * TWO32 + x % TWO32);
  }

  lemma {:induction false} SliceCard(low: nat, hash: nat, n: nat)
    requires low < TWO22 && hash < TWO24 && n <= 0x100
    ensures |Slice(low, hash, n)| == 0x400 * n
  {
    if n == 0 {
      assert Slice(low, hash, 0) == {};
    } else {
      SliceCard(low, hash, n - 1);
      SliceMore(TWO22, low, hash, n - 1, 0x400);
    }
  }

  lemma SliceMore(m: nat, low: nat, hash: nat, n: nat, q: nat)
    requires m == TWO22 && q == 0x400 && low < m && hash < TWO24 && n < 0x100
    ensures |Slice(low, hash, n + 1)| == |Slice(low, hash, n)| + q
  {
    var base := n * TWO56 + hash * TWO32;
    var s, b := Slice(low, hash, n + 1), Moved(Residues(m, low, q), base);
    var a: set<int> := Slice(low, hash, n);
    forall x: int
      ensures (InWord(x) && x in s) <==> x in a || x in b
      ensures !(x in a && x in b)
    {
      InResidues(m, low, q, x - base);
      SliceMember(low, hash, n, x);
    }
    SplitCard(s, a, b);
    ResiduesCard(m, low, q);
    MovedCard(Residues(m, low, q), base);
  }

  lemma RandomHashCard(a: int)
    requires IsResolvable(a)
    ensures |Fiber(Sample(TWO22, Resolvables(None)), Some(a))| == 0x4_0000
  {
    var low, hash := a / TWO24 % TWO22, a % TWO24;
    SliceCard(low, hash, 0x100);
    forall x: Word
      ensures Sample(TWO22, Resolvables(None))(x) == Some(a) <==> x in Slice(low, hash, 0x100)
    {
      RandomHashWord(a, x);
    }
    hide Slice, Sample, Resolvables;
    assert Fiber(Sample(TWO22, Resolvables(None)), Some(a)) == Slice(low, hash, 0x100);
  }

  lemma RandomHashWord(a: int, x: Word)
    requires IsResolvable(a)
    ensures Sample(TWO22, Resolvables(None))(x) == Some(a) <==> x in Slice(a / TWO24 % TWO22, a % TWO24, 0x100)
  {
    DivBounds(a, TWO24);
    DivBounds(a / TWO24, TWO22);
    if 0 < x % TWO22 < TWO22 - 1 {
      HashPart(x);
    }
  }

  /** A resolvable address is its random part and its hash. */
  lemma HashPart(x: Word)
    requires 0 < x % TWO22 < TWO22 - 1
    ensures Resolvable(None, x) / TWO24 == x % TWO22 + TWO22
    ensures Resolvable(None, x) % TWO24 == x / TWO32 % TWO24
  {
    DivModUnique(Resolvable(None, x), TWO24, x % TWO22 + TWO22, x / TWO32 % TWO24);
  }

  /** Without a key all addresses with a valid random part are equally likely. */
  lemma RandomHashUniform(a: int, t: nat)
    requires IsResolvable(a)
    ensures var f := Resolvables(None);
      |Outcomes(Draws(TWO22, f), t, a)| == RetryWays(0x4_0000, |Fiber(Sample(TWO22, f), None)|, t)
  {
    var f := Resolvables(None);
    DrawsRetry(TWO22, f);
    RetryUniform(Draws(TWO22, f), Sample(TWO22, f), a, t);
    RandomHashCard(a);
  }
}
