/** The random source as an explicit tape of words, and how many tapes of a
    given length lead a generator to a given outcome. */
module Tapes {
  import opened Wrappers
  import opened Words

  /** A scripted provider. Sum64 takes the next word; an exhausted tape gives
      None, which stands for a run that has not finished yet. */
  class Tape {
    var words: seq<Word>

    constructor (script: seq<Word>)
      ensures words == script
    {
      words := script;
    }

    method Sum64() returns (r: Option<Word>)
      modifies this
      ensures old(words) == [] ==> r == None && words == []
      ensures old(words) != [] ==> r == Some(old(words)[0]) && words == old(words)[1..]
    {
      if words == [] {
        r := None;
      } else {
        r := Some(words[0]);
        words := words[1..];
      }
    }
  }

  /** A run on a tape: its result and the words left over, or None when it
      needs more words. */
  type Run<T> = Option<(T, seq<Word>)>

  function Result<T>(run: Run<T>): Option<T> {
    match run
    case None => None
    case Some((v, _)) => Some(v)
  }

  /** A method that returned r and left these words performed the run. */
  predicate Performed<T(==)>(run: Run<T>, r: Option<T>, left: seq<Word>) {
    match run
    case None => r == None && left == []
    case Some((v, rest)) => r == Some(v) && left == rest
  }

  // ---------- counting tapes ----------

  ghost function Prod(ws: set<Word>, ts: set<seq<Word>>): set<seq<Word>> {
    set w, t | w in ws && t in ts :: [w] + t
  }

  lemma InProd(ws: set<Word>, ts: set<seq<Word>>, t: seq<Word>)
    ensures t in Prod(ws, ts) <==> |t| > 0 && t[0] in ws && t[1..] in ts
  {
    if |t| > 0 {
      assert [t[0]] + t[1..] == t;
    }
  }

  ghost function AllTapes(n: nat): set<seq<Word>> {
    if n == 0 then {[]} else Prod(AllWords(), AllTapes(n - 1))
  }

  lemma {:induction false} InAllTapes(n: nat, t: seq<Word>)
    ensures t in AllTapes(n) <==> |t| == n
  {
    if n > 0 {
      InProd(AllWords(), AllTapes(n - 1), t);
      if |t| > 0 {
        InAllTapes(n - 1, t[1..]);
      }
    }
  }

  lemma {:induction false} ProdOneWord(w: Word, ts: set<seq<Word>>)
    ensures |Prod({w}, ts)| == |ts|
    decreases ts
  {
    if ts == {} {
      assert Prod({w}, ts) == {};
    } else {
      var t :| t in ts;
      ProdOneWord(w, ts - {t});
      ProdOneTape(w, t, ts);
    }
  }

  lemma ProdOneTape(w: Word, t: seq<Word>, ts: set<seq<Word>>)
    requires t in ts
    ensures Prod({w}, ts) == Prod({w}, ts - {t}) + {[w] + t}
    ensures [w] + t !in Prod({w}, ts - {t})
  {
    InProd({w}, ts - {t}, [w] + t);
    forall u: seq<Word>
      ensures u in Prod({w}, ts) <==> u in Prod({w}, ts - {t}) || u == [w] + t
    {
      InProd({w}, ts, u);
      InProd({w}, ts - {t}, u);
      if |u| > 0 {
        assert u == [u[0]] + u[1..];
      }
    }
  }

  lemma {:induction false} ProdCard(ws: set<Word>, ts: set<seq<Word>>)
    ensures |Prod(ws, ts)| == |ws| * |ts|
    decreases ws
  {
    if ws == {} {
      assert Prod(ws, ts) == {};
    } else {
      var w :| w in ws;
      ProdCard(ws - {w}, ts);
      ProdOneMore(ws, w, ts);
      MulSucc(|ws - {w}|, |ts|);
    }
  }

  lemma ProdOneMore(ws: set<Word>, w: Word, ts: set<seq<Word>>)
    requires w in ws
    ensures |Prod(ws, ts)| == |Prod(ws - {w}, ts)| + |ts|
  {
    ProdOneWord(w, ts);
    ProdSplit(ws, w, ts);
  }

  lemma ProdSplit(ws: set<Word>, w: Word, ts: set<seq<Word>>)
    requires w in ws
    ensures Prod(ws, ts) == Prod(ws - {w}, ts) + Prod({w}, ts)
    ensures Prod(ws - {w}, ts) !! Prod({w}, ts)
  {
    forall t: seq<Word>
      ensures t in Prod(ws, ts) <==> t in Prod(ws - {w}, ts) || t in Prod({w}, ts)
      ensures !(t in Prod(ws - {w}, ts) && t in Prod({w}, ts))
    {
      InProd(ws, ts, t);
      InProd(ws - {w}, ts, t);
      InProd({w}, ts, t);
    }
  }

  lemma {:induction false} AllTapesCard(n: nat)
    ensures |AllTapes(n)| == Pow(TWO64, n)
  {
    if n > 0 {
      AllTapesCard(n - 1);
      ProdCard(AllWords(), AllTapes(n - 1));
      IntervalCard(AllWords(), 0, TWO64);
    }
  }

  /** The tapes of n words on which f reaches v. */
  ghost function Outcomes<T(!new)>(f: seq<Word> -> Option<T>, n: nat, v: T): set<seq<Word>> {
    set t | t in AllTapes(n) && f(t) == Some(v)
  }

  lemma InOutcomes<T(!new)>(f: seq<Word> -> Option<T>, n: nat, v: T, t: seq<Word>)
    ensures t in Outcomes(f, n, v) <==> |t| == n && f(t) == Some(v)
  {
    InAllTapes(n, t);
  }

  /** a words that continue in x ways and b words that continue in y ways. */
  function Weigh(a: nat, x: nat, b: nat, y: nat): nat {
    a * x + b * y
  }

  /** A step of a generator that draws one word: words in a continue with g,
      words in b continue with h, and no other word leads to v. */
  lemma CountStep<T(!new)>(f: seq<Word> -> Option<T>, n: nat, v: T,
                     a: set<Word>, g: seq<Word> -> Option<T>,
                     b: set<Word>, h: seq<Word> -> Option<T>)
    requires a !! b
    requires forall w: Word, t: seq<Word> | w in a :: f([w] + t) == g(t)
    requires forall w: Word, t: seq<Word> | w in b :: f([w] + t) == h(t)
    requires forall w: Word, t: seq<Word> | w !in a && w !in b :: f([w] + t) != Some(v)
    ensures |Outcomes(f, n + 1, v)| == Weigh(|a|, |Outcomes(g, n, v)|, |b|, |Outcomes(h, n, v)|)
  {
    var s, x, y := Outcomes(f, n + 1, v), Prod(a, Outcomes(g, n, v)), Prod(b, Outcomes(h, n, v));
    ProdCard(a, Outcomes(g, n, v));
    ProdCard(b, Outcomes(h, n, v));
    forall t: seq<Word>
      ensures t in s <==> t in x || t in y
      ensures !(t in x && t in y)
    {
      StepMember(f, n, v, a, g, b, h, t);
    }
    UnionCard(x, y, s);
  }

  lemma StepMember<T(!new)>(f: seq<Word> -> Option<T>, n: nat, v: T,
                      a: set<Word>, g: seq<Word> -> Option<T>,
                      b: set<Word>, h: seq<Word> -> Option<T>, t: seq<Word>)
    requires a !! b
    requires forall w: Word, t: seq<Word> | w in a :: f([w] + t) == g(t)
    requires forall w: Word, t: seq<Word> | w in b :: f([w] + t) == h(t)
    requires forall w: Word, t: seq<Word> | w !in a && w !in b :: f([w] + t) != Some(v)
    ensures t in Outcomes(f, n + 1, v) <==> t in Prod(a, Outcomes(g, n, v)) || t in Prod(b, Outcomes(h, n, v))
    ensures !(t in Prod(a, Outcomes(g, n, v)) && t in Prod(b, Outcomes(h, n, v)))
  {
    InOutcomes(f, n + 1, v, t);
    InProd(a, Outcomes(g, n, v), t);
    InProd(b, Outcomes(h, n, v), t);
    if |t| > 0 {
      assert [t[0]] + t[1..] == t;
      InOutcomes(g, n, v, t[1..]);
      InOutcomes(h, n, v, t[1..]);
    }
  }

  /** Ways that continue with a after an accepted word of one result out of n,
      and with b after a rejected word. */
  function Mix(n: int, a: nat, b: nat): nat
    requires n > 0
  {
    assert TWO64 / n >= 0;
    Weigh(TWO64 / n, a, TWO64 % n, b)
  }

  /** A run that has already finished reaches its value on every tape. */
  lemma CountDone<T(!new)>(f: seq<Word> -> Option<T>, n: nat, v: T)
    requires forall t: seq<Word> :: f(t) == Some(v)
    ensures |Outcomes(f, n, v)| == Pow(TWO64, n)
  {
    AllTapesCard(n);
    assert Outcomes(f, n, v) == AllTapes(n);
  }

  lemma CountNone<T(!new)>(f: seq<Word> -> Option<T>, n: nat, v: T)
    requires forall t: seq<Word> | |t| == n :: f(t) != Some(v)
    ensures |Outcomes(f, n, v)| == 0
  {
    forall t: seq<Word>
      ensures t !in Outcomes(f, n, v)
    {
      InOutcomes(f, n, v, t);
    }
    assert Outcomes(f, n, v) == {};
  }

  // ---------- conservation ----------

  ghost function Unfinished<T(!new)>(f: seq<Word> -> Option<T>, n: nat): set<seq<Word>> {
    set t | t in AllTapes(n) && f(t) == None
  }

  ghost function Finished<T(!new)>(f: seq<Word> -> Option<T>, n: nat, s: set<T>): set<seq<Word>> {
    set t | t in AllTapes(n) && f(t).Some? && f(t).value in s
  }

  lemma {:induction false} FinishedCard<T(!new)>(f: seq<Word> -> Option<T>, n: nat, s: set<T>, q: nat)
    requires forall v | v in s :: |Outcomes(f, n, v)| == q
    ensures |Finished(f, n, s)| == |s| * q
    decreases |s|
  {
    if v :| v in s {
      FinishedCard(f, n, s - {v}, q);
      UnionCard(Finished(f, n, s - {v}), Outcomes(f, n, v), Finished(f, n, s));
      MulSucc(|s - {v}|, q);
    } else {
      assert forall v :: v !in s;
      assert s == {} && Finished(f, n, s) == {};
    }
  }

  /** The tapes of equally likely values and the unfinished ones are all tapes. */
  lemma Conserves<T(!new)>(f: seq<Word> -> Option<T>, n: nat, s: set<T>, q: nat)
    requires forall v | v in s :: |Outcomes(f, n, v)| == q
    requires forall t: seq<Word> | |t| == n && f(t).Some? :: f(t).value in s
    ensures |s| * q + |Unfinished(f, n)| == Pow(TWO64, n)
  {
    FinishedCard(f, n, s, q);
    forall t: seq<Word>
      ensures t in AllTapes(n) <==> t in Finished(f, n, s) || t in Unfinished(f, n)
    {
      InAllTapes(n, t);
    }
    UnionCard(Finished(f, n, s), Unfinished(f, n), AllTapes(n));
    AllTapesCard(n);
  }

  // ---------- drawing until a word is accepted ----------

  /** A generator that draws words until the sampler h accepts one. */
  ghost predicate Retries<T(!new)>(f: seq<Word> -> Option<T>, h: Word -> Option<T>) {
    && f([]) == None
    && forall w: Word, t: seq<Word> :: f([w] + t) == if h(w).Some? then h(w) else f(t)
  }

  /** How many tapes of t words give a value that q words are accepted for,
      when r words are rejected. */
  function RetryWays(q: nat, r: nat, t: nat): nat {
    if t == 0 then 0 else Weigh(q, Pow(TWO64, t - 1), r, RetryWays(q, r, t - 1))
  }

  lemma RetryStep<T(!new)>(f: seq<Word> -> Option<T>, h: Word -> Option<T>, v: T, t: nat)
    requires Retries(f, h)
    ensures |Outcomes(f, t + 1, v)|
         == Weigh(|Fiber(h, Some(v))|, Pow(TWO64, t), |Fiber(h, None)|, |Outcomes(f, t, v)|)
  {
    var done := (tape: seq<Word>) => Some(v);
    CountStep(f, t, v, Fiber(h, Some(v)), done, Fiber(h, None), f);
    CountDone(done, t, v);
  }

  lemma {:induction false} RetryUniform<T(!new)>(f: seq<Word> -> Option<T>, h: Word -> Option<T>, v: T, t: nat)
    requires Retries(f, h)
    ensures |Outcomes(f, t, v)| == RetryWays(|Fiber(h, Some(v))|, |Fiber(h, None)|, t)
  {
    if t == 0 {
      CountNone(f, 0, v);
    } else {
      RetryUniform(f, h, v, t - 1);
      RetryStep(f, h, v, t - 1);
    }
  }

  /** The tapes on which the generator is still rejecting. */
  lemma {:induction false} RetryUnfinished<T(!new)>(f: seq<Word> -> Option<T>, h: Word -> Option<T>, t: nat)
    requires Retries(f, h)
    ensures |Unfinished(f, t)| == Pow(|Fiber(h, None)|, t)
  {
    if t == 0 {
      assert Unfinished(f, 0) == {[]};
    } else {
      RetryUnfinished(f, h, t - 1);
      ProdCard(Fiber(h, None), Unfinished(f, t - 1));
      forall tape: seq<Word>
        ensures tape in Unfinished(f, t) <==> tape in Prod(Fiber(h, None), Unfinished(f, t - 1))
      {
        UnfinishedMember(f, h, t - 1, tape);
      }
      assert Unfinished(f, t) == Prod(Fiber(h, None), Unfinished(f, t - 1));
    }
  }

  lemma UnfinishedMember<T(!new)>(f: seq<Word> -> Option<T>, h: Word -> Option<T>, t: nat, tape: seq<Word>)
    requires Retries(f, h)
    ensures tape in Unfinished(f, t + 1) <==> tape in Prod(Fiber(h, None), Unfinished(f, t))
  {
    InAllTapes(t + 1, tape);
    InProd(Fiber(h, None), Unfinished(f, t), tape);
    if |tape| > 0 {
      assert [tape[0]] + tape[1..] == tape;
      InAllTapes(t, tape[1..]);
    }
  }

  /** Nothing is lost: the tapes of n equally likely values and the tapes that
      are still rejecting make up all tapes. */
  lemma {:induction false} RetryConserves(n: nat, q: nat, r: nat, t: nat)
    requires n * q + r == TWO64
    ensures n * RetryWays(q, r, t) + Pow(r, t) == Pow(TWO64, t)
  {
    if t > 0 {
      RetryConserves(n, q, r, t - 1);
      ConserveStep(n, q, r, Pow(TWO64, t - 1), RetryWays(q, r, t - 1), Pow(r, t - 1));
    }
  }

  lemma ConserveStep(n: int, q: int, r: int, all: int, ways: int, left: int)
    requires n * ways + left == all
    ensures n * (q * all + r * ways) + r * left == (n * q + r) * all
  {
    assert n * (r * ways) == r * (n * ways);
    assert r * (n * ways) + r * left == r * all;
  }
}
