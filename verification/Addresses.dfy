/** Random public IP addresses: a table-driven test that refines a list of
    special-purpose prefixes, and the loops that draw until the test passes. */
module Addresses {
  import opened Wrappers
  import opened Words
  import opened Tapes
  import opened Halves

  // ---------- the prefix lists ----------

  /** x is one of the size addresses from a.b.c.0 on. */
  predicate Within4(x: int, a: nat, b: nat, c: nat, size: nat) {
    var base := a * 0x100_0000 + b * 0x1_0000 + c * 0x100;
    base <= x < base + size
  }

  /** The special-purpose IPv4 prefixes. */
  predicate Special4(x: int) {
    || Within4(x, 0, 0, 0, 0x100_0000)       // 0.0.0.0/8
    || Within4(x, 10, 0, 0, 0x100_0000)      // 10.0.0.0/8
    || Within4(x, 100, 64, 0, 0x40_0000)     // 100.64.0.0/10
    || Within4(x, 127, 0, 0, 0x100_0000)     // 127.0.0.0/8
    || Within4(x, 169, 254, 0, 0x1_0000)     // 169.254.0.0/16
    || Within4(x, 172, 16, 0, 0x10_0000)     // 172.16.0.0/12
    || Within4(x, 192, 0, 0, 0x100)          // 192.0.0.0/24
    || Within4(x, 192, 0, 2, 0x100)          // 192.0.2.0/24
    || Within4(x, 192, 88, 99, 0x100)        // 192.88.99.0/24
    || Within4(x, 192, 168, 0, 0x1_0000)     // 192.168.0.0/16
    || Within4(x, 198, 18, 0, 0x2_0000)      // 198.18.0.0/15
    || Within4(x, 198, 51, 100, 0x100)       // 198.51.100.0/24
    || Within4(x, 203, 0, 113, 0x100)        // 203.0.113.0/24
    || Within4(x, 224, 0, 0, 0x2000_0000)    // 224.0.0.0/3
  }

  /** hi starts one of the size high halves from a:b:c:: on. */
  predicate Within6(hi: int, a: nat, b: nat, c: nat, size: nat) {
    var base := a * 0x1_0000_0000_0000 + b * 0x1_0000_0000 + c * 0x1_0000;
    base <= hi < base + size
  }

  /** The special-purpose IPv6 prefixes by the high 64 bits. */
  predicate Special6(hi: int) {
    || Within6(hi, 0x2001, 0, 0, 0x200_0000_0000)         // 2001::/23
    || Within6(hi, 0x2001, 0xdb8, 0, 0x1_0000_0000)       // 2001:db8::/32
    || Within6(hi, 0x2002, 0, 0, 0x1_0000_0000_0000)      // 2002::/16
    || Within6(hi, 0x2620, 0x4f, 0x8000, 0x1_0000)        // 2620:4f:8000::/48
    || Within6(hi, 0x3fff, 0, 0, 0x1000_0000_0000)        // 3fff::/20
    || Within6(hi, 0x5f00, 0, 0, 0x1_0000_0000_0000)      // 5f00::/16
  }

  // ---------- the fast IPv4 test ----------

  /** The class of a first octet. */
  datatype Class = AllPublic | AllSpecial | Mixed

  function Octet(x: int): int { x / 0x100_0000 }

  /** The table at index a: what the first octet says about an address. */
  function ClassOf(a: int): Class {
    if a in {0, 10, 127} || 224 <= a then AllSpecial
    else if a in {100, 169, 172, 192, 198, 203} then Mixed
    else AllPublic
  }

  /** The contents of the table. */
  predicate IsTable(table: seq<Class>) {
    |table| == 256 && forall a | 0 <= a < 256 :: table[a] == ClassOf(a)
  }

  method FirstOctetTable() returns (table: array<Class>)
    ensures fresh(table) && IsTable(table[..])
  {
    table := new Class[256](_ => AllPublic);
    table[0], table[10], table[127] := AllSpecial, AllSpecial, AllSpecial;
    for a := 224 to 256
      invariant forall j | 0 <= j < 256 ::
        table[j] == if j in {0, 10, 127} || 224 <= j < a then AllSpecial else AllPublic
    {
      table[a] := AllSpecial;
    }
    ghost var before := table[..];
    var mixed := [100, 169, 172, 192, 198, 203];
    for i := 0 to |mixed|
      invariant forall j | 0 <= j < 256 :: table[j] == if j in mixed[..i] then Mixed else before[j]
    {
      assert mixed[..i + 1] == mixed[..i] + [mixed[i]];
      table[mixed[i]] := Mixed;
    }
    assert mixed[..|mixed|] == mixed;
  }

  /** The octets that the table leaves open. */
  predicate IsPublicSlow(x: int) {
    var a, b, c := Octet(x), x / 0x1_0000 % 0x100, x / 0x100 % 0x100;
    if a == 100 && b - b % 64 == 64 then false
    else if a == 169 && b == 254 then false
    else if a == 172 && b - b % 16 == 16 then false
    else if a == 192 && b == 0 && c == 0 then false
    else if a == 192 && b == 0 && c == 2 then false
    else if a == 192 && b == 88 && c == 99 then false
    else if a == 192 && b == 168 then false
    else if a == 198 && b - b % 2 == 18 then false
    else if a == 198 && b == 51 && c == 100 then false
    else if a == 203 && b == 0 && c == 113 then false
    else true
  }

  predicate IsPublic4(table: seq<Class>, x: int)
    requires |table| == 256 && 0 <= x < TWO32
  {
    match table[Octet(x)]
    case AllPublic => true
    case AllSpecial => false
    case Mixed => IsPublicSlow(x)
  }

  /** x by its octets. */
  lemma Octets(x: int)
    requires 0 <= x < TWO32
    ensures var a, b, c := Octet(x), x / 0x1_0000 % 0x100, x / 0x100 % 0x100;
            && 0 <= a < 256 && 0 <= b < 256 && 0 <= c < 256
            && var base := a * 0x100_0000 + b * 0x1_0000 + c * 0x100; base <= x < base + 0x100
  {
  }

  /** The table-driven test is exactly absence from the prefix list. */
  lemma FastTestIsTheList(table: seq<Class>, x: int)
    requires IsTable(table) && 0 <= x < TWO32
    ensures IsPublic4(table, x) <==> !Special4(x)
  {
    hide Special4, IsPublicSlow, ClassOf;
    WholeOctets(x);
    if ClassOf(Octet(x)).Mixed? {
      SlowTest(x);
    }
  }

  lemma WholeOctets(x: int)
    requires 0 <= x < TWO32
    ensures 0 <= Octet(x) < 256
    ensures ClassOf(Octet(x)).AllPublic? ==> !Special4(x)
    ensures ClassOf(Octet(x)).AllSpecial? ==> Special4(x)
  {
    Octets(x);
  }

  lemma SlowTest(x: int)
    requires 0 <= x < TWO32 && ClassOf(Octet(x)).Mixed?
    ensures IsPublicSlow(x) <==> !Special4(x)
  {
    hide IsPublicSlow, Special4;
    if Octet(x) in {192, 198, 203} {
      SlowTestHigh(x);
    } else {
      SlowTestLow(x);
    }
  }

  lemma SlowTestLow(x: int)
    requires 0 <= x < TWO32 && Octet(x) in {100, 169, 172}
    ensures IsPublicSlow(x) <==> !Special4(x)
  {
    Octets(x);
  }

  lemma SlowTestHigh(x: int)
    requires 0 <= x < TWO32 && Octet(x) in {192, 198, 203}
    ensures IsPublicSlow(x) <==> !Special4(x)
  {
    Octets(x);
  }

  // ---------- the fast IPv6 test ----------

  predicate IsPublic6(hi: Word) {
    if hi / 0x200_0000_0000 == 0x2001 * 0x80 then false
    else if hi / 0x1_0000_0000 == 0x20010db8 then false
    else if hi / 0x1_0000_0000_0000 == 0x2002 || hi / 0x1_0000_0000_0000 == 0x5f00 then false
    else if hi / 0x1000_0000_0000 == 0x3fff0 then false
    else if hi / 0x1_0000 == 0x2620004f8000 then false
    else true
  }

  lemma Public6IsTheList(hi: Word)
    ensures IsPublic6(hi) <==> !Special6(hi)
  {
  }

  // ---------- drawing a public IPv4 address ----------

  function Public4(): int -> bool {
    (x: int) => !Special4(x)
  }

  /** Both halves of the first word, then the low half of every later word. */
  function Public4Run(tape: seq<Word>): Run<int> {
    if tape == [] then None
    else match FirstHalf(Public4())(tape[0])
      case Some(a) => Some((a, tape[1..]))
      case None => LaterRun(tape[1..])
  }

  function LaterRun(tape: seq<Word>): Run<int> {
    if tape == [] then None
    else match LowHalf(Public4())(tape[0])
      case Some(a) => Some((a, tape[1..]))
      case None => LaterRun(tape[1..])
  }

  method PublicIPv4(table: seq<Class>, p: Tape) returns (r: Option<int>)
    requires IsTable(table)
    modifies p
    ensures Performed(Public4Run(old(p.words)), r, p.words)
    ensures r.Some? ==> !Special4(r.value)
  {
    hide Special4, IsPublicSlow, IsPublic4;
    var x: Option<Word> := p.Sum64();
    if x == None {
      return None;
    }
    var a := x.value % TWO32;
    FastTestIsTheList(table, a);
    if !IsPublic4(table, a) {
      a := x.value / TWO32;
      FastTestIsTheList(table, a);
      while !IsPublic4(table, a)
        invariant 0 <= a < TWO32 && (IsPublic4(table, a) <==> !Special4(a))
        invariant Public4Run(old(p.words)) == if Special4(a) then LaterRun(p.words) else Some((a, p.words))
        decreases |p.words|
      {
        x := p.Sum64();
        if x == None {
          return None;
        }
        a := x.value % TWO32;
        FastTestIsTheList(table, a);
      }
    }
    r := Some(a);
  }

  /** The low half of the first word, else its high half, else the low half of
      the first later word whose low half is public. */
  lemma Public4Words(x: Word, tape: seq<Word>)
    ensures var low, high := x % TWO32, x / TWO32;
      Public4Run([x] + tape)
      == if !Special4(low) then Some((low, tape)) else if !Special4(high) then Some((high, tape)) else LaterRun(tape)
    ensures LaterRun([x] + tape) == if Special4(x % TWO32) then LaterRun(tape) else Some((x % TWO32, tape))
  {
    hide Special4;
    assert ([x] + tape)[1..] == tape;
  }

  /** The two generators. */
  function Draws4(): seq<Word> -> Option<int> {
    (tape: seq<Word>) => Result(Public4Run(tape))
  }

  function Later4(): seq<Word> -> Option<int> {
    (tape: seq<Word>) => Result(LaterRun(tape))
  }

  /** Tapes of t words for one address; the address does not matter. */
  ghost function Public4Ways(t: nat): nat {
    if t == 0 then 0
    else Weigh(TWO32 + |Others(Public4(), TWO32)|, Pow(TWO64, t - 1),
               |Fiber(FirstHalf(Public4()), None)|, RetryWays(TWO32, |Fiber(LowHalf(Public4()), None)|, t - 1))
  }

  lemma LaterRetries()
    ensures Retries(Later4(), LowHalf(Public4()))
  {
    hide Special4;
    forall w: Word, tape: seq<Word>
      ensures Later4()([w] + tape) == if LowHalf(Public4())(w).Some? then LowHalf(Public4())(w) else Later4()(tape)
    {
      assert ([w] + tape)[1..] == tape;
    }
  }

  lemma FirstStep(w: Word, tape: seq<Word>)
    ensures Draws4()([w] + tape) == if FirstHalf(Public4())(w).Some? then FirstHalf(Public4())(w) else Later4()(tape)
  {
    hide Special4, FirstHalf;
    assert ([w] + tape)[1..] == tape;
  }

  /** All public IPv4 addresses are equally likely, although only the first
      word offers both halves. */
  lemma Public4Uniform(v: int, t: nat)
    requires 0 <= v < TWO32 && !Special4(v)
    ensures |Outcomes(Draws4(), t, v)| == Public4Ways(t)
  {
    hide Special4, Outcomes, Others, Fiber, FirstHalf, LowHalf, RetryWays, Draws4, Later4;
    if t == 0 {
      NoDraw4(v);
    } else {
      LaterRetries();
      RetryUniform(Later4(), LowHalf(Public4()), v, t - 1);
      Cards4(TWO32, v);
      FirstCount4(v, t - 1);
    }
  }

  lemma NoDraw4(v: int)
    ensures |Outcomes(Draws4(), 0, v)| == 0
  {
    CountNone(Draws4(), 0, v);
  }

  lemma Cards4(m: nat, v: int)
    requires m == TWO32 && 0 <= v < m && !Special4(v)
    ensures |Fiber(FirstHalf(Public4()), Some(v))| == m + |Others(Public4(), m)|
    ensures |Fiber(LowHalf(Public4()), Some(v))| == m
  {
    hide Others, Special4;
    FirstHalfCard(Public4(), m, v);
    LowHalfCard(Public4(), m, v);
  }

  lemma FirstCount4(v: int, t: nat)
    ensures |Outcomes(Draws4(), t + 1, v)|
         == Weigh(|Fiber(FirstHalf(Public4()), Some(v))|, Pow(TWO64, t),
                  |Fiber(FirstHalf(Public4()), None)|, |Outcomes(Later4(), t, v)|)
  {
    hide Special4, FirstHalf, Draws4, Later4;
    var done := (tape: seq<Word>) => Some(v);
    var f, g, h := Draws4(), Later4(), FirstHalf(Public4());
    var a, b := Fiber(h, Some(v)), Fiber(h, None);
    forall w: Word, tape: seq<Word>
      ensures w in a ==> f([w] + tape) == done(tape)
      ensures w in b ==> f([w] + tape) == g(tape)
    {
      FirstStep(w, tape);
    }
    forall w: Word, tape: seq<Word> | w !in a && w !in b
      ensures f([w] + tape) != Some(v)
    {
      FirstStep(w, tape);
    }
    CountStep(f, t, v, a, done, b, g);
    CountDone(done, t, v);
  }

  // ---------- drawing a public IPv6 address ----------

  const TWO61: nat := 0x2000_0000_0000_0000

  /** The word with its top three bits set to 001. */
  function UnderGlobal(x: Word): (hi: Word)
    ensures hi / TWO61 == 1 && hi % TWO61 == x % TWO61
  {
    x % TWO61 + TWO61
  }

  /** The subnet-router anycast identifier, and the reserved anycast
      identifiers of RFC 2526, section 2, with and without EUI-64. */
  predicate ReservedId(lo: int) {
    || lo == 0
    || 0xfdff_ffff_ffff_ff80 <= lo <= 0xfdff_ffff_ffff_ffff
    || 0xffff_ffff_ffff_ff80 <= lo <= 0xffff_ffff_ffff_ffff
  }

  function Highs(): Word -> Option<int> {
    (x: Word) => if Special6(UnderGlobal(x)) then None else Some(UnderGlobal(x))
  }

  function Lows(hi: int): Word -> Option<(int, int)> {
    (x: Word) => if ReservedId(x) then None else Some((hi, x))
  }

  function Public6Run(tape: seq<Word>): Run<(int, int)> {
    if tape == [] then None
    else match Highs()(tape[0])
      case Some(hi) => LowRun(hi, tape[1..])
      case None => Public6Run(tape[1..])
  }

  function LowRun(hi: int, tape: seq<Word>): Run<(int, int)> {
    if tape == [] then None
    else match Lows(hi)(tape[0])
      case Some(a) => Some((a, tape[1..]))
      case None => LowRun(hi, tape[1..])
  }

  /** A global unicast address outside the special-purpose prefixes whose
      interface identifier is not reserved. */
  predicate IsPublicUnicast6(a: (int, int)) {
    && 0 <= a.0 < TWO64 && 0 <= a.1 < TWO64
    && a.0 / TWO61 == 1 && !Special6(a.0) && !ReservedId(a.1)
  }

  method PublicIPv6(p: Tape) returns (r: Option<(int, int)>)
    modifies p
    ensures Performed(Public6Run(old(p.words)), r, p.words)
    ensures r.Some? ==> IsPublicUnicast6(r.value)
  {
    hide Special6, IsPublic6;
    var x: Option<Word> := p.Sum64();
    if x == None {
      return None;
    }
    var hi: Word := UnderGlobal(x.value);
    Public6IsTheList(hi);
    while !IsPublic6(hi)
      invariant hi / TWO61 == 1 && (IsPublic6(hi) <==> !Special6(hi))
      invariant Public6Run(old(p.words)) == if Special6(hi) then Public6Run(p.words) else LowRun(hi, p.words)
      decreases |p.words|
    {
      x := p.Sum64();
      if x == None {
        return None;
      }
      hi := UnderGlobal(x.value);
      Public6IsTheList(hi);
    }
    var lo := DrawId(hi, p);
    r := if lo == None then None else Some((hi, lo.value));
  }

  method DrawId(ghost hi: Word, p: Tape) returns (r: Option<Word>)
    modifies p
    ensures Performed(LowRun(hi, old(p.words)), if r == None then None else Some((hi, r.value)), p.words)
    ensures r.Some? ==> !ReservedId(r.value)
  {
    var x: Option<Word> := p.Sum64();
    if x == None {
      return None;
    }
    var lo: Word := x.value;
    while lo == 0 || lo / 128 == 0x1fbffffffffffff || lo / 128 == 0x1ffffffffffffff
      invariant LowRun(hi, old(p.words)) == if ReservedId(lo) then LowRun(hi, p.words) else Some(((hi, lo), p.words))
      decreases |p.words|
    {
      x := p.Sum64();
      if x == None {
        return None;
      }
      lo := x.value;
    }
    r := Some(lo);
  }

  function Draws6(): seq<Word> -> Option<(int, int)> {
    (tape: seq<Word>) => Result(Public6Run(tape))
  }

  function Low6(hi: int): seq<Word> -> Option<(int, int)> {
    (tape: seq<Word>) => Result(LowRun(hi, tape))
  }

  /** Tapes of t words for one address; the address does not matter. */
  ghost function Public6Ways(t: nat): nat {
    if t == 0 then 0
    else Weigh(8, RetryWays(1, |Fiber(Lows(0), None)|, t - 1), |Fiber(Highs(), None)|, Public6Ways(t - 1))
  }

  /** The first word that is acceptable under 2000::/3 gives the high half and
      the next acceptable one the low half. */
  lemma Public6Words(x: Word, tape: seq<Word>)
    ensures var hi := UnderGlobal(x);
      Public6Run([x] + tape) == if Special6(hi) then Public6Run(tape) else LowRun(hi, tape)
    ensures forall hi: int :: LowRun(hi, [x] + tape)
                           == if ReservedId(x) then LowRun(hi, tape) else Some(((hi, x), tape))
  {
    hide Special6, ReservedId;
    assert ([x] + tape)[1..] == tape;
  }

  /** All public IPv6 addresses are equally likely. */
  lemma {:induction false} Public6Uniform(a: (int, int), t: nat)
    requires IsPublicUnicast6(a)
    ensures |Outcomes(Draws6(), t, a)| == Public6Ways(t)
  {
    hide Outcomes, Draws6, Low6, Highs, Lows, Special6, ReservedId, Fiber, RetryWays, Weigh;
    if t == 0 {
      NoDraw6(a);
    } else {
      Public6Uniform(a, t - 1);
      HighCount(a, t - 1);
      HighCard(TWO61, a.0);
      LowCount(a, t - 1);
    }
  }

  lemma NoDraw6(a: (int, int))
    ensures |Outcomes(Draws6(), 0, a)| == 0
  {
    CountNone(Draws6(), 0, a);
  }

  lemma HighStep(w: Word, tape: seq<Word>)
    ensures Draws6()([w] + tape)
         == if Highs()(w).Some? then Low6(Highs()(w).value)(tape) else Draws6()(tape)
  {
    hide Special6, Highs;
    assert ([w] + tape)[1..] == tape;
  }

  lemma {:induction false} LowKeepsHigh(hi: int, tape: seq<Word>)
    ensures var r := Low6(hi)(tape); r.Some? ==> r.value.0 == hi
  {
    if tape != [] && Lows(hi)(tape[0]) == None {
      LowKeepsHigh(hi, tape[1..]);
    }
  }

  lemma HighCount(a: (int, int), t: nat)
    ensures |Outcomes(Draws6(), t + 1, a)|
         == Weigh(|Fiber(Highs(), Some(a.0))|, |Outcomes(Low6(a.0), t, a)|,
                  |Fiber(Highs(), None)|, |Outcomes(Draws6(), t, a)|)
  {
    hide Special6, Highs, Draws6, Low6;
    var f, h := Draws6(), Highs();
    forall w: Word, tape: seq<Word>
      ensures h(w) == Some(a.0) ==> f([w] + tape) == Low6(a.0)(tape)
      ensures h(w) == None ==> f([w] + tape) == f(tape)
      ensures h(w) != None && h(w) != Some(a.0) ==> f([w] + tape) != Some(a)
    {
      HighStep(w, tape);
      if h(w).Some? {
        LowKeepsHigh(h(w).value, tape);
      }
    }
    CountStep(f, t, a, Fiber(h, Some(a.0)), Low6(a.0), Fiber(h, None), f);
  }

  /** Eight words for each high half: the top three bits are overwritten. */
  lemma HighCard(m: nat, hi: int)
    requires m == TWO61 && 0 <= hi < TWO64 && hi / m == 1 && !Special6(hi)
    ensures |Fiber(Highs(), Some(hi))| == 8
  {
    hide Residues, Special6;
    var n: nat := 8;
    var s, a := Fiber(Highs(), Some(hi)), Residues(m, hi - m, n);
    forall x: int
      ensures (InWord(x) && x in s) <==> x in a || x in {}
    {
      InResidues(m, hi - m, n, x);
    }
    SplitCard(s, a, {});
    ResiduesCard(m, hi - m, n);
  }

  lemma LowCount(a: (int, int), t: nat)
    requires 0 <= a.1 < TWO64 && !ReservedId(a.1)
    ensures |Outcomes(Low6(a.0), t, a)| == RetryWays(1, |Fiber(Lows(0), None)|, t)
  {
    hide ReservedId, Low6, Fiber, Lows, Outcomes;
    LowRetries(a.0);
    RetryUniform(Low6(a.0), Lows(a.0), a, t);
    LowCard(a);
  }

  lemma LowRetries(hi: int)
    ensures Retries(Low6(hi), Lows(hi))
  {
    hide ReservedId;
    forall w: Word, tape: seq<Word>
      ensures Low6(hi)([w] + tape) == if Lows(hi)(w).Some? then Lows(hi)(w) else Low6(hi)(tape)
    {
      assert ([w] + tape)[1..] == tape;
    }
  }

  lemma LowCard(a: (int, int))
    requires 0 <= a.1 < TWO64 && !ReservedId(a.1)
    ensures |Fiber(Lows(a.0), Some(a))| == 1
    ensures Fiber(Lows(a.0), None) == Fiber(Lows(0), None)
  {
    hide ReservedId;
    assert forall x: Word :: x in Fiber(Lows(a.0), Some(a)) <==> x == a.1;
    IntervalCard(Fiber(Lows(a.0), Some(a)), a.1, a.1 + 1);
  }
}
