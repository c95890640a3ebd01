/** Lemire's bounded integers and the interval generators built on them. */
module Number {
  import opened Wrappers
  import opened Words
  import opened Tapes

  /** The sampler as specified: the first word of the tape that is not rejected
      decides the value. */
  function Bounded(n: Word, tape: seq<Word>): (r: Run<int>)
    requires n > 0
    ensures r.Some? ==> 0 <= r.value.0 < n && |r.value.1| < |tape|
  {
    if tape == [] then None
    else match MulShift(n, tape[0])
      case Some(v) => Some((v, tape[1..]))
      case None => Bounded(n, tape[1..])
  }

  method BoundedSlow(x: Word, n: Word, p: Tape) returns (r: Option<int>)
    requires n > 0
    modifies p
    ensures Performed(Bounded(n, [x] + old(p.words)), r, p.words)
  {
    var threshold := Threshold(n);
    var hi, lo := Hi(x, n), Lo(x, n);
    ghost var w := x;
    assert ([w] + p.words)[1..] == p.words;
    while lo < threshold
      invariant hi == Hi(w, n) && lo == Lo(w, n)
      invariant Bounded(n, [w] + p.words) == Bounded(n, [x] + old(p.words))
      decreases |p.words|
    {
      ghost var rest := p.words;
      assert ([w] + rest)[1..] == rest;
      var next := p.Sum64();
      if next == None {
        return None;
      }
      w := next.value;
      assert [w] + p.words == rest;
      hi, lo := Hi(next.value, n), Lo(next.value, n);
    }
    assert ([w] + p.words)[1..] == p.words;
    r := Some(hi);
  }

  /** The fast path decides without a division, and n == 0 never divides. */
  method BoundedFrom(x: Word, n: Word, p: Tape) returns (r: Option<int>)
    modifies p
    ensures n == 0 ==> r == Some(0) && p.words == old(p.words)
    ensures n > 0 ==> Performed(Bounded(n, [x] + old(p.words)), r, p.words)
  {
    var hi, lo := Hi(x, n), Lo(x, n);
    if lo >= n {
      assert ([x] + p.words)[1..] == p.words;
      return Some(hi);
    }
    r := BoundedSlow(x, n, p);
  }

  /** One draw even when n == 0, for which the result is 0. */
  method UniformUint64n(n: Word, p: Tape) returns (r: Option<int>)
    modifies p
    ensures n > 0 ==> Performed(Bounded(n, old(p.words)), r, p.words)
    ensures n == 0 ==> Performed(if old(p.words) == [] then None else Some((0, old(p.words)[1..])), r, p.words)
  {
    ghost var before := p.words;
    var x := p.Sum64();
    if x == None {
      return None;
    }
    assert [x.value] + p.words == before;
    r := BoundedFrom(x.value, n, p);
  }

  // ---------- exact uniformity ----------

  function BoundedValue(n: Word, tape: seq<Word>): Option<int>
    requires n > 0
  {
    Result(Bounded(n, tape))
  }

  /** BoundedValue as a generator. */
  function Draw(n: Word): seq<Word> -> Option<int>
    requires n > 0
  {
    (tape: seq<Word>) => BoundedValue(n, tape)
  }

  /** How many tapes of t words give any one value below n. */
  function BoundedWays(n: Word, t: nat): nat
    requires n > 0
  {
    RetryWays(TWO64 / n, TWO64 % n, t)
  }

  lemma BoundedRetries(n: Word)
    requires n > 0
    ensures Retries(Draw(n), Lemire(n))
  {
    forall w: Word, tape: seq<Word>
      ensures BoundedValue(n, [w] + tape) == if MulShift(n, w).Some? then MulShift(n, w) else BoundedValue(n, tape)
    {
      assert ([w] + tape)[1..] == tape;
    }
  }

  /** Every value below n comes from equally many tapes, for every number of
      draws and with rejections included. */
  lemma BoundedUniform(n: Word, v: int, t: nat)
    requires 0 < n && 0 <= v < n
    ensures |Outcomes(Draw(n), t, v)| == BoundedWays(n, t)
  {
    BoundedRetries(n);
    RetryUniform(Draw(n), Lemire(n), v, t);
    MulShiftExact(n, v);
    MulShiftRejects(n);
  }

  /** All tapes are accounted for: n values and the still rejecting ones. */
  lemma BoundedConserves(n: Word, t: nat)
    requires n > 0
    ensures n * BoundedWays(n, t) + Pow(TWO64 % n, t) == Pow(TWO64, t)
    ensures |Unfinished(Draw(n), t)| == Pow(TWO64 % n, t)
  {
    BoundedRetries(n);
    RetryUnfinished(Draw(n), Lemire(n), t);
    MulShiftRejects(n);
    DivBounds(TWO64, n);
    RetryConserves(n, TWO64 / n, TWO64 % n, t);
  }

  // ---------- intervals ----------

  datatype Width = W8 | W16 | W32 | W64 {
    function Size(): (s: int)
      ensures 0 < s <= TWO64 && TWO64 % s == 0 && s % 2 == 0
    {
      match this
      case W8 => 0x100
      case W16 => 0x1_0000
      case W32 => 0x1_0000_0000
      case W64 => TWO64
    }

    predicate Signed(v: int) { -(Size() / 2) <= v < Size() / 2 }

    predicate Unsigned(v: int) { 0 <= v < Size() }

    /** Conversion to the unsigned type of this width, and its arithmetic. */
    function ToUnsigned(v: int): int {
      v % Size()
    }

    /** Conversion of a word to the signed type of this width. */
    function ToSigned(x: Word): int {
      var low := x % Size();
      if low < Size() / 2 then low else low - Size()
    }
  }

  /** Conversion of a signed integer to uint64. */
  function ToUint64(v: int): Word {
    v % TWO64
  }

  /** x ^ (1 << 63) */
  function FlipSign(x: Word): Word {
    if x >= TWO63 then x - TWO63 else x + TWO63
  }

  function Least(a: int, b: int): int { if a <= b then a else b }

  function Span(a: int, b: int): nat { if a <= b then b - a else a - b }

  /** The interval generator as specified: an offset from the lower bound. */
  function Interval(min: int, max: int, tape: seq<Word>): Run<int>
    requires min != max && Span(min, max) < TWO64
  {
    match Bounded(Span(min, max), tape)
    case None => None
    case Some((v, rest)) => Some((Least(min, max) + v, rest))
  }

  method IntInterval(w: Width, min: int, max: int, p: Tape) returns (r: Option<int>)
    requires w.Signed(min) && w.Signed(max)
    modifies p
    ensures min == max ==> r == Some(min) && p.words == old(p.words)
    ensures min != max ==> Performed(Interval(min, max, old(p.words)), r, p.words)
    ensures r.Some? ==> w.Signed(r.value)
  {
    if min == max {
      return Some(min);
    }
    var lo, hi := min, max;
    if lo > hi {
      lo, hi := hi, lo;
    }
    FlippedSpan(w, lo, hi);
    hide ToUint64, FlipSign, Width.ToSigned, Width.Signed, Bounded, Interval, Performed;
    var minU, maxU := FlipSign(ToUint64(lo)), FlipSign(ToUint64(hi));
    var v := UniformUint64n(maxU - minU, p);
    IntervalFrom(min, max, lo, hi, old(p.words), v, p.words);
    if v == None {
      return None;
    }
    FlippedOffset(w, lo, hi, v.value);
    r := Some(w.ToSigned(FlipSign((minU + v.value) % TWO64)));
  }

  /** A bounded draw is an offset from the lower bound, in whichever order the
      bounds are given. */
  lemma IntervalFrom(min: int, max: int, lo: int, hi: int, tape: seq<Word>, v: Option<int>, left: seq<Word>)
    requires lo < hi && hi - lo < TWO64 && ((lo == min && hi == max) || (lo == max && hi == min))
    requires Performed(Bounded(hi - lo, tape), v, left)
    ensures v.Some? ==> 0 <= v.value < hi - lo
    ensures Performed(Interval(min, max, tape), if v == None then None else Some(lo + v.value), left)
  {
  }

  lemma FlippedSpan(w: Width, lo: int, hi: int)
    requires w.Signed(lo) && w.Signed(hi)
    ensures FlipSign(ToUint64(hi)) - FlipSign(ToUint64(lo)) == hi - lo < TWO64
  {
    SignFlipOrders(w, lo);
    SignFlipOrders(w, hi);
  }

  /** An offset added to the flipped lower bound comes back as that offset. */
  lemma FlippedOffset(w: Width, lo: int, hi: int, v: int)
    requires w.Signed(lo) && w.Signed(hi) && 0 <= v < hi - lo
    ensures 0 <= (FlipSign(ToUint64(lo)) + v) % TWO64 < TWO64
    ensures w.ToSigned(FlipSign((FlipSign(ToUint64(lo)) + v) % TWO64)) == lo + v && w.Signed(lo + v)
  {
    SignFlipOrders(w, lo);
    SignFlipOrders(w, lo + v);
    WrapSmall(lo + TWO63 + v, TWO64);
    hide ToUint64, FlipSign, Width.ToSigned;
  }

  /** Flipping the top bit turns signed order into unsigned order by a shift
      of 2^63, and flipping it back returns the signed value. */
  lemma SignFlipOrders(w: Width, v: int)
    requires w.Signed(v)
    ensures FlipSign(ToUint64(v)) == v + TWO63
    ensures w.ToSigned(FlipSign(v + TWO63)) == v
  {
    SignedRoundTrip(w, v);
  }

  lemma WrapSmall(v: int, m: int)
    requires 0 <= v < m
    ensures v % m == v
  {
  }

  /** A value of a signed type survives conversion to uint64 and back. */
  lemma SignedRoundTrip(w: Width, v: int)
    requires w.Signed(v)
    ensures ToUint64(v) == if v >= 0 then v else v + TWO64
    ensures w.ToSigned(ToUint64(v)) == v
  {
    DivModUnique(v, TWO64, if v >= 0 then 0 else -1, if v >= 0 then v else v + TWO64);
    if v >= 0 {
      DivModUnique(v, w.Size(), 0, v);
    } else {
      DivBounds(TWO64, w.Size());
      DivModUnique(v + TWO64, w.Size(), TWO64 / w.Size() - 1, v + w.Size());
    }
  }

  method UintInterval(w: Width, min: int, max: int, p: Tape) returns (r: Option<int>)
    requires w.Unsigned(min) && w.Unsigned(max)
    modifies p
    ensures min == max ==> r == Some(min) && p.words == old(p.words)
    ensures min != max ==> Performed(Interval(min, max, old(p.words)), r, p.words)
    ensures r.Some? ==> w.Unsigned(r.value)
  {
    if min == max {
      return Some(min);
    }
    var lo, hi := min, max;
    if lo > hi {
      lo, hi := hi, lo;
    }
    UnsignedStays(w, hi - lo);
    hide Width.ToUnsigned, Bounded, Interval, Performed;
    var v := UniformUint64n(w.ToUnsigned(hi - lo), p);
    IntervalFrom(min, max, lo, hi, old(p.words), v, p.words);
    if v == None {
      return None;
    }
    UnsignedStays(w, v.value);
    UnsignedStays(w, lo + v.value);
    r := Some(w.ToUnsigned(lo + w.ToUnsigned(v.value)));
  }

  lemma UnsignedStays(w: Width, v: int)
    requires w.Unsigned(v)
    ensures w.ToUnsigned(v) == v
  {
    WrapSmall(v, w.Size());
  }

  function IntervalValue(min: int, max: int, tape: seq<Word>): Option<int>
    requires min != max && Span(min, max) < TWO64
  {
    Result(Interval(min, max, tape))
  }

  /** IntervalValue as a generator. */
  function DrawInterval(min: int, max: int): seq<Word> -> Option<int>
    requires min != max && Span(min, max) < TWO64
  {
    (tape: seq<Word>) => IntervalValue(min, max, tape)
  }

  lemma IntervalOffset(min: int, max: int, tape: seq<Word>)
    requires min != max && Span(min, max) < TWO64
    ensures var r := BoundedValue(Span(min, max), tape);
            IntervalValue(min, max, tape) == if r == None then None else Some(Least(min, max) + r.value)
    ensures var r := IntervalValue(min, max, tape);
            r.Some? ==> Least(min, max) <= r.value < Least(min, max) + Span(min, max)
  {
  }

  /** Each value of [least, greatest) comes from equally many tapes and no
      other value from any, whichever order the bounds are given in. */
  lemma IntervalUniform(min: int, max: int, v: int, t: nat)
    requires min != max && Span(min, max) < TWO64
    ensures |Outcomes(DrawInterval(min, max), t, v)|
         == if Least(min, max) <= v < Least(min, max) + Span(min, max) then BoundedWays(Span(min, max), t) else 0
  {
    var n, u := Span(min, max), v - Least(min, max);
    var f, g := DrawInterval(min, max), Draw(n);
    forall tape: seq<Word>
      ensures f(tape) == Some(v) <==> g(tape) == Some(u)
      ensures f(tape) == Some(v) ==> 0 <= u < n
    {
      IntervalOffset(min, max, tape);
    }
    if 0 <= u < n {
      BoundedUniform(n, u, t);
      assert Outcomes(f, t, v) == Outcomes(g, t, u);
    } else {
      CountNone(f, t, v);
    }
  }
}
