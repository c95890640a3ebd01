/** Random network numbers: ports, VLANs, labels and Autonomous System Numbers. */
module Values {
  import opened Wrappers
  import opened Words
  import opened Tapes
  import Number
  import opened Halves

  /** Unknown kinds are treated as AnyPort. */
  datatype ValueKind =
    | AnyPort | PrivilegedPort | RegisteredPort | EphemeralPort
    | VlanId | Asn | Vni | FlowLabel | MplsLabel | IPv6InterfaceId
    | VlanIdUnreserved | MplsLabelUnreserved
    | AsnPublic | AsnPublic16 | AsnPrivate16 | AsnPrivate32 | UnknownKind

  /** An ASN that IANA can assign. */
  predicate IsPublicAsn(a: int) {
    !(a == 0 || a == 23456) && !(64496 <= a <= 131071) && !(a >= 4200000000)
  }

  /** The gap at AS_TRANS: values from 23456 on move up by one. */
  function SkipTrans(v: int): int {
    if v >= 23456 then v + 1 else v
  }

  /** The bounded kinds: the number of values and what a bounded draw becomes. */
  function Count(kind: ValueKind): (n: Word)
    ensures n > 0
  {
    match kind
    case PrivilegedPort => 1023
    case RegisteredPort => 48128
    case VlanIdUnreserved => 4094
    case MplsLabelUnreserved => 0x10_0000 - 16
    case AsnPublic16 => 64494
    case AsnPrivate16 => 1023
    case AsnPrivate32 => 94967295
    case _ => 1
  }

  predicate IsBounded(kind: ValueKind) {
    kind in {PrivilegedPort, RegisteredPort, VlanIdUnreserved, MplsLabelUnreserved, AsnPublic16, AsnPrivate16, AsnPrivate32}
  }

  function FromDraw(kind: ValueKind, v: int): int {
    match kind
    case PrivilegedPort => v + 1
    case RegisteredPort => v + 1024
    case VlanIdUnreserved => v + 1
    case MplsLabelUnreserved => v + 16
    case AsnPublic16 => SkipTrans(v + 1)
    case AsnPrivate16 => v + 64512
    case AsnPrivate32 => v + 4200000000
    case _ => v
  }

  /** The range that the documentation gives for a kind. */
  predicate InRange(kind: ValueKind, v: int) {
    match kind
    case PrivilegedPort => 1 <= v <= 1023
    case RegisteredPort => 1024 <= v <= 49151
    case EphemeralPort => 49152 <= v <= 65535
    case VlanId => 0 <= v <= 4095
    case Asn => 0 <= v <= 4294967295
    case Vni => 0 <= v <= 16777215
    case FlowLabel => 0 <= v <= 1048575
    case MplsLabel => 0 <= v <= 1048575
    case IPv6InterfaceId => 0 <= v < TWO64 && v / 0x100_0000_0000_0000 % 4 == 0
    case VlanIdUnreserved => 1 <= v <= 4094
    case MplsLabelUnreserved => 16 <= v <= 1048575
    case AsnPublic => 0 <= v < TWO32 && IsPublicAsn(v)
    case AsnPublic16 => 1 <= v <= 64495 && v != 23456
    case AsnPrivate16 => 64512 <= v <= 65534
    case AsnPrivate32 => 4200000000 <= v <= 4294967294
    case _ => 0 <= v <= 65535
  }

  /** The kinds that shift or mask one word. */
  function FromWord(kind: ValueKind, x: Word): int {
    match kind
    case EphemeralPort => x / 0x4_0000_0000_0000 + 49152
    case VlanId => x / 0x10_0000_0000_0000
    case Asn => x / TWO32
    case Vni => x / 0x100_0000_0000
    case FlowLabel => x / 0x1000_0000_0000
    case MplsLabel => x / 0x1000_0000_0000
    case IPv6InterfaceId => x - x / 0x100_0000_0000_0000 % 4 * 0x100_0000_0000_0000
    case _ => x / 0x1_0000_0000_0000
  }

  function Public(): int -> bool {
    (a: int) => IsPublicAsn(a)
  }

  /** A public ASN in the low half of the word, else in the high half. */
  function AsnOf(x: Word): Option<int> {
    FirstHalf(Public())(x)
  }

  function AsnRun(tape: seq<Word>): Run<int> {
    if tape == [] then None
    else match AsnOf(tape[0])
      case None => AsnRun(tape[1..])
      case Some(a) => Some((a, tape[1..]))
  }

  function ValueRun(kind: ValueKind, tape: seq<Word>): Run<int> {
    if IsBounded(kind) then
      match Number.Bounded(Count(kind), tape)
      case None => None
      case Some((v, rest)) => Some((FromDraw(kind, v), rest))
    else if kind == AsnPublic then AsnRun(tape)
    else if tape == [] then None
    else Some((FromWord(kind, tape[0]), tape[1..]))
  }

  method Value(kind: ValueKind, p: Tape) returns (r: Option<int>)
    modifies p
    ensures Performed(ValueRun(kind, old(p.words)), r, p.words)
  {
    ghost var tape := p.words;
    var x: Option<Word> := p.Sum64();
    if x == None {
      return None;
    }
    assert tape == [x.value] + p.words;
    if IsBounded(kind) {
      var v := Number.BoundedFrom(x.value, Count(kind), p);
      if v == None {
        return None;
      }
      return Some(FromDraw(kind, v.value));
    }
    if kind == AsnPublic {
      r := FirstPublicAsn(x.value, p);
      return;
    }
    r := Some(FromWord(kind, x.value));
  }

  method FirstPublicAsn(x0: Word, p: Tape) returns (r: Option<int>)
    modifies p
    ensures Performed(AsnRun([x0] + old(p.words)), r, p.words)
  {
    var x: Word := x0;
    while true
      invariant AsnRun([x] + p.words) == AsnRun([x0] + old(p.words))
      decreases |p.words|
    {
      ghost var rest := p.words;
      assert ([x] + rest)[1..] == rest;
      if IsPublicAsn(x % TWO32) {
        return Some(x % TWO32);
      }
      if IsPublicAsn(x / TWO32) {
        return Some(x / TWO32);
      }
      var next: Option<Word> := p.Sum64();
      if next == None {
        return None;
      }
      x := next.value;
      assert [x] + p.words == rest;
    }
  }

  /** Every kind stays in its documented range. */
  lemma ValueInRange(kind: ValueKind, tape: seq<Word>)
    ensures var r := Result(ValueRun(kind, tape)); r.Some? ==> InRange(kind, r.value)
  {
    if kind == AsnPublic {
      AsnInRange(tape);
    } else if !IsBounded(kind) && tape != [] {
      WordInRange(kind, tape[0]);
    }
  }

  lemma WordInRange(kind: ValueKind, x: Word)
    requires !IsBounded(kind) && kind != AsnPublic
    ensures InRange(kind, FromWord(kind, x))
  {
    if kind == IPv6InterfaceId {
      InterfaceIdBits(x);
    }
  }

  lemma InterfaceIdBits(x: Word)
    ensures InRange(IPv6InterfaceId, FromWord(IPv6InterfaceId, x))
  {
  }

  lemma {:induction false} AsnInRange(tape: seq<Word>)
    ensures var r := Result(AsnRun(tape)); r.Some? ==> InRange(AsnPublic, r.value)
  {
    if tape != [] && AsnOf(tape[0]) == None {
      AsnInRange(tape[1..]);
    }
  }

  // ---------- exact uniformity ----------

  /** The offset and the gap shift are bijections onto the documented range. */
  lemma FromDrawBijection(kind: ValueKind, v: int) returns (u: int)
    requires IsBounded(kind) && InRange(kind, v)
    ensures 0 <= u < Count(kind)
    ensures forall w | 0 <= w < Count(kind) :: FromDraw(kind, w) == v <==> w == u
  {
    u := match kind
      case AsnPublic16 => if v > 23456 then v - 2 else v - 1
      case _ => v - FromDraw(kind, 0);
  }

  /** ValueRun as a generator. */
  function Draws(kind: ValueKind): seq<Word> -> Option<int> {
    (tape: seq<Word>) => Result(ValueRun(kind, tape))
  }

  /** Every value of a bounded kind comes from equally many tapes. */
  lemma BoundedKindUniform(kind: ValueKind, v: int, t: nat)
    requires IsBounded(kind) && InRange(kind, v)
    ensures |Outcomes(Draws(kind), t, v)| == Number.BoundedWays(Count(kind), t)
  {
    var u := FromDrawBijection(kind, v);
    var f, g := Draws(kind), Number.Draw(Count(kind));
    forall tape: seq<Word>
      ensures f(tape) == Some(v) <==> g(tape) == Some(u)
    {
      var r := Number.Bounded(Count(kind), tape);
      assert r.Some? ==> (FromDraw(kind, r.value.0) == v <==> r.value.0 == u);
    }
    assert Outcomes(f, t, v) == Outcomes(g, t, u);
    Number.BoundedUniform(Count(kind), u, t);
  }

  lemma AsnRetries()
    ensures Retries(Draws(AsnPublic), FirstHalf(Public()))
  {
    forall w: Word, tape: seq<Word>
      ensures Draws(AsnPublic)([w] + tape)
           == if FirstHalf(Public())(w).Some? then FirstHalf(Public())(w) else Draws(AsnPublic)(tape)
    {
      assert ([w] + tape)[1..] == tape;
    }
  }

  /** All public ASNs are equally likely: 2^32 words have one in the low half,
      and one for each number that is not public has it in the high half. */
  lemma AsnPublicUniform(v: int, t: nat)
    requires InRange(AsnPublic, v)
    ensures |Outcomes(Draws(AsnPublic), t, v)|
         == RetryWays(TWO32 + |Others(Public(), TWO32)|, |Fiber(FirstHalf(Public()), None)|, t)
  {
    hide *;
    AsnRetries();
    RetryUniform(Draws(AsnPublic), FirstHalf(Public()), v, t);
    PublicCard(TWO32, v);
  }

  lemma PublicCard(m: nat, v: int)
    requires m == TWO32 && InRange(AsnPublic, v)
    ensures |Fiber(FirstHalf(Public()), Some(v))| == m + |Others(Public(), m)|
  {
    hide Others;
    FirstHalfCard(Public(), m, v);
  }

  // ---------- the kinds that shift one word ----------

  predicate IsShift(kind: ValueKind) {
    !IsBounded(kind) && kind != AsnPublic && kind != IPv6InterfaceId
  }

  /** The least value and the number of values of such a kind. */
  function LeastOf(kind: ValueKind): nat {
    if kind == EphemeralPort then 49152 else 0
  }

  function SizeOf(kind: ValueKind): (n: nat)
    ensures n > 0
  {
    match kind
    case EphemeralPort => 0x4000
    case VlanId => 0x1000
    case Asn => 0x1_0000_0000
    case Vni => 0x100_0000
    case FlowLabel => 0x10_0000
    case MplsLabel => 0x10_0000
    case _ => 0x1_0000
  }

  /** They are the documented range. */
  lemma RangeOf(kind: ValueKind, v: int)
    requires IsShift(kind)
    ensures InRange(kind, v) <==> LeastOf(kind) <= v < LeastOf(kind) + SizeOf(kind)
  {
  }

  /** A kind of n values splits the words into n equal stretches, in order. */
  lemma ShiftWords(kind: ValueKind, v: int, x: Word)
    requires IsShift(kind) && InRange(kind, v)
    ensures var step, i := TWO64 / SizeOf(kind), v - LeastOf(kind);
      FromWord(kind, x) == v <==> i * step <= x < (i + 1) * step
  {
    var step := TWO64 / SizeOf(kind);
    DivBounds(x, step);
    if (v - LeastOf(kind)) * step <= x < (v - LeastOf(kind) + 1) * step {
      MulSucc(v - LeastOf(kind), step);
      DivModUnique(x, step, v - LeastOf(kind), x - (v - LeastOf(kind)) * step);
    }
  }

  /** FromWord as a sampler. */
  function Taking(kind: ValueKind): Word -> int {
    (x: Word) => FromWord(kind, x)
  }

  /** So each value comes from exactly 2^64 / n words. */
  lemma ShiftExact(kind: ValueKind, v: int)
    requires IsShift(kind) && InRange(kind, v)
    ensures |Fiber(Taking(kind), v)| == TWO64 / SizeOf(kind)
  {
    var step, i := TWO64 / SizeOf(kind), v - LeastOf(kind);
    RangeOf(kind, v);
    Stretch(SizeOf(kind), step, i);
    forall x: Word
      ensures FromWord(kind, x) == v <==> i * step <= x < (i + 1) * step
    {
      ShiftWords(kind, v, x);
    }
    hide FromWord, SizeOf;
    MulSucc(i, step);
    IntervalCard(Fiber(Taking(kind), v), i * step, (i + 1) * step);
  }

  lemma Stretch(n: nat, step: int, i: int)
    requires n > 0 && step == TWO64 / n && 0 <= i < n
    ensures 0 <= i * step <= (i + 1) * step <= TWO64
  {
    DivBounds(TWO64, n);
    MulSucc(i, step);
    assert step >= 0;
    assert (i + 1) * step <= n * step == step * n by {
      if step > 0 {
        MulOrder(i + 1, n, step);
      }
    }
  }

  // ---------- interface identifiers ----------

  /** The word agrees with v in every bit but 56 and 57. */
  predicate AgreesOutside(v: int, x: Word) {
    v / 0x400_0000_0000_0000 == x / 0x400_0000_0000_0000 && v % 0x100_0000_0000_0000 == x % 0x100_0000_0000_0000
  }

  lemma InterfaceIdWhen(v: int, x: Word)
    requires InRange(IPv6InterfaceId, v)
    ensures FromWord(IPv6InterfaceId, x) == v <==> AgreesOutside(v, x)
  {
    var p := 0x100_0000_0000_0000;
    var q := x / p;
    TopBits(x, p);
    TopBits(v, p);
    DivBounds(x, p);
    DivModUnique(x - q % 4 * p, p, q - q % 4, x % p);
    hide FromWord;
    FourthParts(q, v / p);
    DivBounds(v, p);
    InterfaceIdIs(x);
  }

  lemma InterfaceIdIs(x: Word)
    ensures FromWord(IPv6InterfaceId, x) == x - x / 0x100_0000_0000_0000 % 4 * 0x100_0000_0000_0000
  {
  }

  lemma FourthParts(q: int, r: int)
    requires r % 4 == 0
    ensures q - q % 4 == r <==> q / 4 == r / 4
  {
  }

  lemma TopBits(x: int, p: int)
    requires p > 0
    ensures x / (4 * p) == x / p / 4
  {
    var q := x / p;
    DivBounds(x, p);
    MulOrder(q % 4 + 1, 4, p);
    MulSucc(q % 4, p);
    assert (q / 4) * (4 * p) + (q % 4) * p == q * p;
    DivModUnique(x, 4 * p, q / 4, (q % 4) * p + x % p);
  }

  /** Each identifier comes from the four words that differ in the two bits. */
  lemma InterfaceIdExact(v: int)
    requires InRange(IPv6InterfaceId, v)
    ensures |Fiber(Taking(IPv6InterfaceId), v)| == 4
  {
    var p := 0x100_0000_0000_0000;
    var s: set<Word> := {v, v + p, v + 2 * p, v + 3 * p};
    forall x: Word
      ensures FromWord(IPv6InterfaceId, x) == v <==> x in s
    {
      FourWords(v, x);
    }
    assert Fiber(Taking(IPv6InterfaceId), v) == s;
    assert |s| == 4;
  }

  lemma FourWords(v: int, x: Word)
    requires InRange(IPv6InterfaceId, v)
    ensures var p := 0x100_0000_0000_0000;
      && v + 3 * p < TWO64
      && (FromWord(IPv6InterfaceId, x) == v <==> x == v || x == v + p || x == v + 2 * p || x == v + 3 * p)
  {
  }

  // ---------- over tapes ----------

  /** How many words give one value of a kind that takes one word. */
  function WordsOf(kind: ValueKind): nat {
    if kind == IPv6InterfaceId then 4 else TWO64 / SizeOf(kind)
  }

  lemma OneWordStep(kind: ValueKind, w: Word, tape: seq<Word>)
    requires !IsBounded(kind) && kind != AsnPublic
    ensures Draws(kind)([w] + tape) == Some(FromWord(kind, w))
  {
  }

  /** All values of a kind that takes one word are equally likely. */
  lemma OneWordUniform(kind: ValueKind, v: int, t: nat)
    requires !IsBounded(kind) && kind != AsnPublic && InRange(kind, v)
    ensures |Outcomes(Draws(kind), t, v)| == if t == 0 then 0 else WordsOf(kind) * Pow(TWO64, t - 1)
  {
    if t == 0 {
      CountNone(Draws(kind), 0, v);
    } else {
      OneWordCount(kind, v, t - 1);
      if kind == IPv6InterfaceId {
        InterfaceIdExact(v);
      } else {
        ShiftExact(kind, v);
      }
    }
  }

  lemma OneWordCount(kind: ValueKind, v: int, t: nat)
    requires !IsBounded(kind) && kind != AsnPublic
    ensures |Outcomes(Draws(kind), t + 1, v)| == |Fiber(Taking(kind), v)| * Pow(TWO64, t)
  {
    hide FromWord, Draws;
    var done, none := (tape: seq<Word>) => Some(v), (tape: seq<Word>) => None;
    var f, a := Draws(kind), Fiber(Taking(kind), v);
    forall w: Word, tape: seq<Word>
      ensures w in a ==> f([w] + tape) == done(tape)
    {
      OneWordStep(kind, w, tape);
    }
    forall w: Word, tape: seq<Word> | w !in a
      ensures f([w] + tape) != Some(v)
    {
      OneWordStep(kind, w, tape);
    }
    CountStep(f, t, v, a, done, {}, none);
    CountDone(done, t, v);
    CountNone(none, t, v);
  }

  // ---------- order ----------

  /** A bounded draw becomes a value in order, which determines the value. */
  lemma FromDrawAscends(kind: ValueKind, v: int, w: int)
    requires IsBounded(kind) && 0 <= v < w < Count(kind)
    ensures FromDraw(kind, v) < FromDraw(kind, w)
    ensures InRange(kind, FromDraw(kind, v)) && InRange(kind, FromDraw(kind, w))
  {
  }

  /** The low half of a word is tried first, then the high half, then the next
      word. */
  lemma AsnHalves(x: Word, tape: seq<Word>)
    ensures IsPublicAsn(x % TWO32) ==> AsnRun([x] + tape) == Some((x % TWO32, tape))
    ensures !IsPublicAsn(x % TWO32) && IsPublicAsn(x / TWO32) ==> AsnRun([x] + tape) == Some((x / TWO32, tape))
    ensures !IsPublicAsn(x % TWO32) && !IsPublicAsn(x / TWO32) ==> AsnRun([x] + tape) == AsnRun(tape)
  {
    assert ([x] + tape)[1..] == tape;
  }
}
