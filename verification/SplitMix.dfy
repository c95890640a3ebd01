/** The SplitMix64 stream: a bijective mixer over a counter with an odd
    increment. Words are bit vectors here. */
module SplitMix {

  const PERIOD: nat := 0x1_0000_0000_0000_0000

  /** The avalanche of x: three xor-shifts around two multiplications. */
  function SplitMix64(x: bv64): bv64 {
    Shift31(Times2(Shift27(Times1(Shift30(x)))))
  }

  function Shift30(z: bv64): bv64 { z ^ (z >> 30) }

  function Times1(z: bv64): bv64 { z * 0xbf58476d1ce4e5b9 }

  function Shift27(z: bv64): bv64 { z ^ (z >> 27) }

  function Times2(z: bv64): bv64 { z * 0x94d049bb133111eb }

  function Shift31(z: bv64): bv64 { z ^ (z >> 31) }

  /** The atomic addition of the increment. */
  function Advance(state: bv64): bv64 {
    state + 0x9e3779b97f4a7c15
  }

  /** The state after k increments. */
  function StateAfter(seed: bv64, k: nat): bv64 {
    if k == 0 then seed else Advance(StateAfter(seed, k - 1))
  }

  /** The k-th word of the stream, counted from 0. */
  function Stream(seed: bv64, k: nat): bv64 {
    SplitMix64(StateAfter(seed, k + 1))
  }

  /** The first words of the stream from state 0. */
  lemma FirstWords()
    ensures Stream(0, 0) == 0xe220a8397b1dcdaf
    ensures Stream(0, 1) == 0x6e789e6aa1b965f4
    ensures Stream(0, 2) == 0x06c45d188009454f
  {
    assert StateAfter(0, 1) == 0x9e3779b97f4a7c15;
    assert StateAfter(0, 2) == 0x3c6ef372fe94f82a;
    assert StateAfter(0, 3) == 0xdaa66d2c7ddf743f;
  }

  // ---------- the mixer is a bijection ----------

  function Unmix(w: bv64): bv64 {
    Unshift30(Untimes1(Unshift27(Untimes2(Unshift31(w)))))
  }

  function Unshift30(z: bv64): bv64 { z ^ (z >> 30) ^ (z >> 60) }

  function Untimes1(z: bv64): bv64 { z * 0x96de1b173f119089 }

  function Unshift27(z: bv64): bv64 { z ^ (z >> 27) ^ (z >> 54) }

  function Untimes2(z: bv64): bv64 { z * 0x319642b2d24d8ec3 }

  function Unshift31(z: bv64): bv64 { z ^ (z >> 31) ^ (z >> 62) }

  lemma Undo30(z: bv64)
    ensures Unshift30(Shift30(z)) == z && Shift30(Unshift30(z)) == z
  {
    assert Unshift30(z ^ (z >> 30)) == z;
    assert Shift30(z ^ (z >> 30) ^ (z >> 60)) == z;
  }

  lemma Undo27(z: bv64)
    ensures Unshift27(Shift27(z)) == z && Shift27(Unshift27(z)) == z
  {
    assert Unshift27(z ^ (z >> 27)) == z;
    assert Shift27(z ^ (z >> 27) ^ (z >> 54)) == z;
  }

  lemma Undo31(z: bv64)
    ensures Unshift31(Shift31(z)) == z && Shift31(Unshift31(z)) == z
  {
    assert Unshift31(z ^ (z >> 31)) == z;
    assert Shift31(z ^ (z >> 31) ^ (z >> 62)) == z;
  }

  lemma UndoTimes(z: bv64)
    ensures Untimes1(Times1(z)) == z && Times1(Untimes1(z)) == z
    ensures Untimes2(Times2(z)) == z && Times2(Untimes2(z)) == z
  {
    assert Untimes1(z * 0xbf58476d1ce4e5b9) == z;
    assert Times1(z * 0x96de1b173f119089) == z;
    assert Untimes2(z * 0x94d049bb133111eb) == z;
    assert Times2(z * 0x319642b2d24d8ec3) == z;
  }

  /** SplitMix64 is a bijection on 64-bit words. */
  lemma MixIsBijection(x: bv64)
    ensures Unmix(SplitMix64(x)) == x
    ensures SplitMix64(Unmix(x)) == x
  {
    Undo30(x);
    UndoTimes(Shift30(x));
    Undo27(Times1(Shift30(x)));
    UndoTimes(Shift27(Times1(Shift30(x))));
    Undo31(Times2(Shift27(Times1(Shift30(x)))));
    Undo31(x);
    UndoTimes(Unshift31(x));
    Undo27(Untimes2(Unshift31(x)));
    UndoTimes(Unshift27(Untimes2(Unshift31(x))));
    Undo30(Untimes1(Unshift27(Untimes2(Unshift31(x)))));
  }

  // ---------- the counter has full period ----------

  function Next(x: bv64): bv64 { x + 1 }

  /** k as a wrapping 64-bit counter. */
  function Wrapped(k: nat): bv64 {
    if k == 0 then 0 else Next(Wrapped(k - 1))
  }

  function Linear(seed: bv64, k: bv64): bv64 {
    seed + k * 0x9e3779b97f4a7c15
  }

  lemma LinearStep(seed: bv64, k: bv64)
    ensures Advance(Linear(seed, k)) == Linear(seed, Next(k))
    ensures Linear(seed, 0) == seed
  {
    assert Advance(seed + k * 0x9e3779b97f4a7c15) == Linear(seed, k + 1);
  }

  lemma {:induction false} StateIsLinear(seed: bv64, k: nat)
    ensures StateAfter(seed, k) == Linear(seed, Wrapped(k))
  {
    LinearStep(seed, if k == 0 then 0 else Wrapped(k - 1));
    if k > 0 {
      StateIsLinear(seed, k - 1);
    }
  }

  function Double(x: bv64): bv64 { x << 1 }

  function Odd(x: bv64): bv64 { (x << 1) | 1 }

  lemma DoubleStep(x: bv64)
    ensures Next(Double(x)) == Odd(x)
    ensures Next(Odd(x)) == Double(Next(x))
  {
    assert Next(x << 1) == Odd(x);
    assert Next((x << 1) | 1) == Double(x + 1);
  }

  lemma {:induction false} WrappedHalves(j: nat)
    ensures Wrapped(2 * j) == Double(Wrapped(j))
    ensures Wrapped(2 * j + 1) == Odd(Wrapped(j))
  {
    DoubleStep(Wrapped(j));
    if j > 0 {
      WrappedHalves(j - 1);
      DoubleStep(Wrapped(j - 1));
      assert Wrapped(2 * j) == Next(Wrapped(2 * (j - 1) + 1));
    }
  }

  // ---------- numbers below 2^64 and 64-bit patterns ----------

  /** The pattern of w ones. */
  function Ones(w: nat): bv64 {
    if w == 0 then 0 else Odd(Ones(w - 1))
  }

  function Two(w: nat): (n: nat)
    ensures n >= 1
  {
    if w == 0 then 1 else 2 * Two(w - 1)
  }

  function AddTwo(x: bv64): bv64 { (x << 2) | 3 }

  function AddFour(x: bv64): bv64 { (x << 4) | 15 }

  function AddEight(x: bv64): bv64 { (x << 8) | 255 }

  lemma OddTwice(x: bv64)
    ensures Odd(Odd(x)) == AddTwo(x)
  {
    assert Odd((x << 1) | 1) == AddTwo(x);
  }

  lemma AddTwoTwice(x: bv64)
    ensures AddTwo(AddTwo(x)) == AddFour(x)
  {
    assert AddTwo((x << 2) | 3) == AddFour(x);
  }

  lemma AddFourTwice(x: bv64)
    ensures AddFour(AddFour(x)) == AddEight(x)
  {
    assert AddFour((x << 4) | 15) == AddEight(x);
  }

  lemma TwoMore(w: nat)
    ensures Ones(w + 2) == AddTwo(Ones(w))
  {
    OddTwice(Ones(w));
    assert Ones(w + 2) == Odd(Ones(w + 1));
  }

  lemma FourMore(w: nat)
    ensures Ones(w + 4) == AddFour(Ones(w))
  {
    TwoMore(w);
    TwoMore(w + 2);
    AddTwoTwice(Ones(w));
  }

  lemma EightMore(w: nat, x: bv64)
    requires Ones(w) == x
    ensures Ones(w + 8) == AddEight(x)
  {
    FourMore(w);
    FourMore(w + 4);
    AddFourTwice(x);
  }

  lemma SixtyThreeOnes()
    ensures Ones(63) == 0x7fff_ffff_ffff_ffff
  {
    EightMore(0, 0);
    EightMore(8, 0xff);
    EightMore(16, 0xffff);
    EightMore(24, 0xff_ffff);
    EightMore(32, 0xffff_ffff);
    EightMore(40, 0xff_ffff_ffff);
    EightMore(48, 0xffff_ffff_ffff);
    FourMore(56);
    TwoMore(60);
    assert Ones(63) == Odd(Ones(62));
  }

  lemma SixtyFourOnes()
    ensures Ones(64) == 0xffff_ffff_ffff_ffff
  {
    SixtyThreeOnes();
  }

  lemma TwoEightMore(w: nat)
    ensures Two(w + 8) == 256 * Two(w)
  {
    assert Two(w + 4) == 2 * Two(w + 3) == 4 * Two(w + 2) == 8 * Two(w + 1);
    assert Two(w + 8) == 2 * Two(w + 7) == 4 * Two(w + 6) == 8 * Two(w + 5);
  }

  lemma WordSize()
    ensures Two(64) == PERIOD && Two(63) * 2 == PERIOD
  {
    TwoEightMore(0);
    TwoEightMore(8);
    TwoEightMore(16);
    TwoEightMore(24);
    TwoEightMore(32);
    TwoEightMore(40);
    TwoEightMore(48);
    TwoEightMore(56);
  }

  /** x has no bit above the ones of m. */
  predicate Within(x: bv64, m: bv64) { x & !m == 0 }

  lemma WithinStep(x: bv64, m: bv64)
    requires Within(x, m)
    ensures Within(Double(x), Odd(m)) && Within(Odd(x), Odd(m))
  {
  }

  lemma {:induction false} WrappedWithin(k: nat, w: nat)
    requires k < Two(w)
    ensures Within(Wrapped(k), Ones(w))
    decreases w
  {
    if w > 0 {
      WrappedWithin(k / 2, w - 1);
      WrappedHalves(k / 2);
      WithinStep(Wrapped(k / 2), Ones(w - 1));
    }
  }

  lemma DoubleInjective(x: bv64, y: bv64)
    requires Within(x, 0x7fff_ffff_ffff_ffff) && Within(y, 0x7fff_ffff_ffff_ffff)
    ensures Double(x) == Double(y) ==> x == y
    ensures Odd(x) == Odd(y) ==> x == y
    ensures Double(x) != Odd(y)
  {
  }

  /** Below 2^64 the counter does not repeat. */
  lemma {:induction false} WrappedInjective(i: nat, j: nat)
    requires i < PERIOD && j < PERIOD && Wrapped(i) == Wrapped(j)
    ensures i == j
  {
    if i > 0 || j > 0 {
      HalvesEqual(i, j);
      WrappedInjective(i / 2, j / 2);
    }
  }

  lemma HalvesEqual(i: nat, j: nat)
    requires i < PERIOD && j < PERIOD && Wrapped(i) == Wrapped(j)
    ensures Wrapped(i / 2) == Wrapped(j / 2) && i % 2 == j % 2
  {
    hide *;
    var x, y := Wrapped(i / 2), Wrapped(j / 2);
    WordSize();
    SixtyThreeOnes();
    WrappedWithin(i / 2, 63);
    WrappedWithin(j / 2, 63);
    WrappedHalves(i / 2);
    WrappedHalves(j / 2);
    DoubleInjective(x, y);
    DoubleInjective(y, x);
  }

  lemma {:induction false} WrappedOnes(w: nat)
    ensures Wrapped(Two(w) - 1) == Ones(w)
  {
    if w > 0 {
      WrappedOnes(w - 1);
      WrappedHalves(Two(w - 1) - 1);
    }
  }

  lemma WrappedPeriod()
    ensures Wrapped(PERIOD) == 0
  {
    WordSize();
    SixtyFourOnes();
    WrappedOnes(64);
    assert Wrapped(PERIOD) == Next(Wrapped(PERIOD - 1));
  }

  function Half(x: bv64): bv64 { x >> 1 }

  predicate IsOdd(x: bv64) { x & 1 == 1 }

  lemma HalfWithin(x: bv64, m: bv64)
    requires Within(x, Odd(m))
    ensures Within(Half(x), m)
  {
  }

  lemma HalfDouble(x: bv64)
    ensures IsOdd(x) ==> Odd(Half(x)) == x
    ensures !IsOdd(x) ==> Double(Half(x)) == x
  {
  }

  lemma WithinAll(x: bv64)
    ensures Within(x, 0xffff_ffff_ffff_ffff)
  {
  }

  lemma WithinNone(x: bv64)
    requires Within(x, 0)
    ensures x == 0
  {
  }

  /** Every 64-bit pattern is the counter at some number below 2^64. */
  lemma {:induction false} WrappedSurjective(x: bv64, w: nat) returns (k: nat)
    requires Within(x, Ones(w))
    ensures k < Two(w) && Wrapped(k) == x
  {
    if w == 0 {
      WithinNone(x);
      k := 0;
    } else {
      HalfWithin(x, Ones(w - 1));
      var j := WrappedSurjective(Half(x), w - 1);
      k := if IsOdd(x) then 2 * j + 1 else 2 * j;
      FromHalf(x, j);
    }
  }

  lemma FromHalf(x: bv64, j: nat)
    requires Wrapped(j) == Half(x)
    ensures IsOdd(x) ==> Wrapped(2 * j + 1) == x
    ensures !IsOdd(x) ==> Wrapped(2 * j) == x
  {
    WrappedHalves(j);
    HalfDouble(x);
  }

  // ---------- the stream ----------

  lemma {:induction false} StateAdds(seed: bv64, i: nat, j: nat)
    ensures StateAfter(seed, i + j) == StateAfter(StateAfter(seed, i), j)
  {
    if j > 0 {
      StateAdds(seed, i, j - 1);
    }
  }

  /** The multiple of the increment that moves the state from s to t. */
  function Steps(s: bv64, t: bv64): bv64 {
    (t - s) * 0xf1de83e19937733d
  }

  lemma StepsInverse(s: bv64, t: bv64, k: bv64)
    ensures Steps(s, Linear(s, k)) == k
    ensures Linear(s, Steps(s, t)) == t
  {
    assert Steps(s, s + k * 0x9e3779b97f4a7c15) == k;
    assert Linear(s, (t - s) * 0xf1de83e19937733d) == t;
  }

  lemma NoEarlyReturn(s: bv64, d: nat)
    requires d < PERIOD
    ensures StateAfter(s, d) == s <==> d == 0
  {
    hide Advance, Linear, Next, Steps;
    StateIsLinear(s, d);
    StepsInverse(s, s, Wrapped(d));
    StepsInverse(s, s, 0);
    LinearStep(s, 0);
    if StateAfter(s, d) == s {
      WrappedInjective(d, 0);
    }
  }

  lemma FullTurn(s: bv64)
    ensures StateAfter(s, PERIOD) == s
  {
    StateIsLinear(s, PERIOD);
    WrappedPeriod();
    LinearStep(s, 0);
  }

  /** The state returns to its start exactly after multiples of 2^64 draws. */
  lemma {:induction false} StatePeriod(s: bv64, d: nat)
    ensures StateAfter(s, d) == s <==> d % PERIOD == 0
  {
    if d < PERIOD {
      NoEarlyReturn(s, d);
    } else {
      FullTurn(s);
      StateAdds(s, PERIOD, d - PERIOD);
      StatePeriod(s, d - PERIOD);
    }
  }

  /** Full period: two words of the stream are equal exactly when they lie a
      multiple of 2^64 draws apart. */
  lemma StreamPeriod(seed: bv64, i: nat, j: nat)
    requires i <= j
    ensures Stream(seed, i) == Stream(seed, j) <==> (j - i) % PERIOD == 0
  {
    hide SplitMix64, Unmix, Advance;
    var s := StateAfter(seed, i + 1);
    StateAdds(seed, i + 1, j - i);
    StatePeriod(s, j - i);
    MixIsBijection(s);
    MixIsBijection(StateAfter(seed, j + 1));
  }

  /** Every word occurs among any 2^64 consecutive draws. */
  lemma StreamCovers(seed: bv64, i: nat, w: bv64) returns (k: nat)
    ensures i <= k < i + PERIOD && Stream(seed, k) == w
  {
    hide SplitMix64, Unmix, Advance, Linear, Steps, Within;
    WordSize();
    SixtyFourOnes();
    var s := StateAfter(seed, i + 1);
    WithinAll(Steps(s, Unmix(w)));
    var d := WrappedSurjective(Steps(s, Unmix(w)), 64);
    StepsInverse(s, Unmix(w), 0);
    StateIsLinear(s, d);
    StateAdds(seed, i + 1, d);
    MixIsBijection(w);
    k := i + d;
  }
}
