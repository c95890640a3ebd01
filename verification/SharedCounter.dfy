/** Any number of concurrent calls on one atomic SplitMix64 counter. Only the
    atomic addition touches shared state, so a run is an interleaving of calls
    starting, drawing a word each, and returning. */
module SharedCounter {
  import opened SplitMix
  import opened Provider
  import opened Wrappers

  datatype Op = Sum64 | Sum32 | Sum | Read(length: nat)

  /** The atomic additions that one call performs. */
  function Draws(op: Op): nat {
    match op
    case Read(length) => WordsFor(length)
    case _ => 1
  }

  datatype Value = Word(w: bv64) | Half(h: bv32) | Buffer(bytes: seq<bv8>)

  /** What a call returns, given the words it drew. */
  function Answer(op: Op, words: seq<bv64>): Value
    requires |words| == Draws(op)
  {
    match op
    case Sum64 => Word(words[0])
    case Sum32 => Half((words[0] >> 32) as bv32)
    case Sum => Buffer(Bytes(words[0], 8))
    case Read(length) => Buffer(Concat(words)[..length])
  }

  /** A call with the words it has drawn so far and, once it has returned, its
      answer; at holds the draw numbers. */
  datatype Call = Call(op: Op, words: seq<bv64>, at: seq<nat>, answer: Option<Value>)

  /** The counter, all calls ever started, and for each draw the call that made it. */
  datatype System = System(state: bv64, calls: seq<Call>, owner: seq<nat>)

  function Fresh(seed: bv64): System {
    System(seed, [], [])
  }

  datatype Step = Start(op: Op) | Draw(c: nat) | Return(c: nat)

  predicate Enabled(s: System, step: Step) {
    match step
    case Start(_) => true
    case Draw(c) => c < |s.calls| && |s.calls[c].words| < Draws(s.calls[c].op)
    case Return(c) => c < |s.calls| && s.calls[c].answer == None && |s.calls[c].words| == Draws(s.calls[c].op)
  }

  /** The atomic addition has made state the new counter, and call c keeps w. */
  function Record(s: System, c: nat, state: bv64, w: bv64): System
    requires c < |s.calls|
  {
    var call := s.calls[c];
    var drawn := call.(words := call.words + [w], at := call.at + [|s.owner|]);
    System(state, s.calls[c := drawn], s.owner + [c])
  }

  function Apply(s: System, step: Step): System
    requires Enabled(s, step)
  {
    match step
    case Start(op) => s.(calls := s.calls + [Call(op, [], [], None)])
    case Draw(c) =>
      var state := Advance(s.state);
      Record(s, c, state, SplitMix64(state))
    case Return(c) =>
      var call := s.calls[c];
      s.(calls := s.calls[c := call.(answer := Some(Answer(call.op, call.words)))])
  }

  /** The system after an interleaving, or None when a step is not possible. */
  function Run(s: System, steps: seq<Step>): Option<System>
    decreases |steps|
  {
    if steps == [] then Some(s)
    else if Enabled(s, steps[0]) then Run(Apply(s, steps[0]), steps[1..])
    else None
  }

  // ---------- the invariant ----------

  /** Draw i belongs to call c as its j-th word. */
  predicate Drew(s: System, c: nat, j: nat, i: nat) {
    c < |s.calls| && j < |s.calls[c].at| && s.calls[c].at[j] == i
  }

  /** Call number c has drawn the stream words at its draw numbers, in order. */
  ghost predicate CallOk(seed: bv64, owner: seq<nat>, c: nat, call: Call) {
    && |call.words| == |call.at| <= Draws(call.op)
    && (call.answer.Some? ==> |call.words| == Draws(call.op) && call.answer.value == Answer(call.op, call.words))
    && (forall j | 0 <= j < |call.at| ::
          call.at[j] < |owner| && owner[call.at[j]] == c && call.words[j] == Stream(seed, call.at[j]))
    && (forall j, k | 0 <= j < k < |call.at| :: call.at[j] < call.at[k])
  }

  ghost predicate Inv(seed: bv64, s: System) {
    && s.state == StateAfter(seed, |s.owner|)
    && (forall c | 0 <= c < |s.calls| :: CallOk(seed, s.owner, c, s.calls[c]))
    && (forall i | 0 <= i < |s.owner| :: s.owner[i] < |s.calls| && i in s.calls[s.owner[i]].at)
  }

  lemma RecordKeepsCall(seed: bv64, s: System, c: nat, state: bv64, w: bv64, d: nat)
    requires Inv(seed, s) && Enabled(s, Draw(c)) && d < |s.calls| && w == Stream(seed, |s.owner|)
    ensures CallOk(seed, Record(s, c, state, w).owner, d, Record(s, c, state, w).calls[d])
  {
    hide Stream, StateAfter;
    assert CallOk(seed, s.owner, d, s.calls[d]);
    MoreDraws(seed, s.owner, c, d, s.calls[d]);
    if d == c {
      NextDraw(seed, s.owner, c, s.calls[c], w);
    }
  }

  /** Draws of other calls do not disturb a call. */
  lemma MoreDraws(seed: bv64, owner: seq<nat>, c: nat, d: nat, call: Call)
    requires CallOk(seed, owner, d, call)
    ensures CallOk(seed, owner + [c], d, call)
  {
  }

  lemma NextDraw(seed: bv64, owner: seq<nat>, c: nat, call: Call, w: bv64)
    requires CallOk(seed, owner, c, call) && |call.words| < Draws(call.op) && w == Stream(seed, |owner|)
    ensures CallOk(seed, owner + [c], c, call.(words := call.words + [w], at := call.at + [|owner|]))
  {
    hide Stream, Draws, Answer;
  }

  lemma RecordKeepsOwner(s: System, c: nat, state: bv64, w: bv64, i: nat)
    requires c < |s.calls| && i <= |s.owner|
    requires i < |s.owner| ==> s.owner[i] < |s.calls| && i in s.calls[s.owner[i]].at
    ensures var s' := Record(s, c, state, w);
      s'.owner[i] < |s'.calls| && i in s'.calls[s'.owner[i]].at
  {
    var at, at' := s.calls[c].at, Record(s, c, state, w).calls[c].at;
    assert at' == at + [|s.owner|];
    assert at'[|at|] == |s.owner|;
    assert forall j | 0 <= j < |at| :: at'[j] == at[j];
  }

  lemma RecordKeepsInv(seed: bv64, s: System, c: nat, state: bv64, w: bv64)
    requires Inv(seed, s) && Enabled(s, Draw(c))
    requires w == Stream(seed, |s.owner|) && state == StateAfter(seed, |s.owner| + 1)
    ensures Inv(seed, Record(s, c, state, w))
  {
    hide Stream, StateAfter;
    forall d: nat | d < |s.calls|
      ensures CallOk(seed, Record(s, c, state, w).owner, d, Record(s, c, state, w).calls[d])
    {
      RecordKeepsCall(seed, s, c, state, w, d);
    }
    forall i: nat | i <= |s.owner|
      ensures var s' := Record(s, c, state, w); s'.owner[i] < |s'.calls| && i in s'.calls[s'.owner[i]].at
    {
      RecordKeepsOwner(s, c, state, w, i);
    }
  }

  lemma OtherKeepsInv(seed: bv64, s: System, step: Step)
    requires Inv(seed, s) && Enabled(s, step) && !step.Draw?
    ensures Inv(seed, Apply(s, step))
  {
    hide Stream, StateAfter, Answer, Draws;
    forall d: nat | d < |Apply(s, step).calls|
      ensures CallOk(seed, Apply(s, step).owner, d, Apply(s, step).calls[d])
    {
      assert d < |s.calls| ==> CallOk(seed, s.owner, d, s.calls[d]);
    }
  }

  lemma StepKeepsInv(seed: bv64, s: System, step: Step)
    requires Inv(seed, s) && Enabled(s, step)
    ensures Inv(seed, Apply(s, step))
  {
    hide Inv, SplitMix64, Advance;
    match step
    case Draw(c) =>
      DrawsNext(seed, s);
      RecordKeepsInv(seed, s, c, Advance(s.state), SplitMix64(Advance(s.state)));
    case _ =>
      OtherKeepsInv(seed, s, step);
  }

  lemma DrawsNext(seed: bv64, s: System)
    requires Inv(seed, s)
    ensures SplitMix64(Advance(s.state)) == Stream(seed, |s.owner|)
    ensures Advance(s.state) == StateAfter(seed, |s.owner| + 1)
  {
    hide SplitMix64, Advance;
  }

  /** The invariant holds after every interleaving. */
  lemma {:induction false} RunKeepsInv(seed: bv64, s: System, steps: seq<Step>)
    requires Inv(seed, s) && Run(s, steps).Some?
    ensures Inv(seed, Run(s, steps).value)
    decreases |steps|
  {
    if steps != [] {
      StepKeepsInv(seed, s, steps[0]);
      RunKeepsInv(seed, Apply(s, steps[0]), steps[1..]);
    }
  }

  ghost predicate Reachable(seed: bv64, s: System) {
    exists steps :: Run(Fresh(seed), steps) == Some(s)
  }

  lemma ReachableInv(seed: bv64, s: System)
    requires Reachable(seed, s)
    ensures Inv(seed, s)
  {
    var steps :| Run(Fresh(seed), steps) == Some(s);
    assert StateAfter(seed, 0) == seed;
    RunKeepsInv(seed, Fresh(seed), steps);
  }

  // ---------- what every interleaving guarantees ----------

  /** Draw i was handed to some call. */
  ghost predicate Handed(s: System, i: nat) {
    exists c: nat, j: nat :: Drew(s, c, j, i)
  }

  /** No loss: the counter has advanced once per draw, and the draws are the
      first words of the sequential stream, each handed to some call. */
  lemma ExactlyThePrefix(seed: bv64, s: System)
    requires Reachable(seed, s)
    ensures s.state == StateAfter(seed, |s.owner|)
    ensures forall i: nat :: Handed(s, i) <==> i < |s.owner|
    ensures forall c: nat, j: nat, i: nat | Drew(s, c, j, i) ::
              j < |s.calls[c].words| && s.calls[c].words[j] == Stream(seed, i)
  {
    ReachableInv(seed, s);
    hide Stream, StateAfter;
    forall i: nat
      ensures Handed(s, i) <==> i < |s.owner|
    {
      if i < |s.owner| {
        var c := s.owner[i];
        var j :| 0 <= j < |s.calls[c].at| && s.calls[c].at[j] == i;
        assert Drew(s, c, j, i);
      }
      if Handed(s, i) {
        var c: nat, j: nat :| Drew(s, c, j, i);
        assert CallOk(seed, s.owner, c, s.calls[c]);
      }
    }
    forall c: nat, j: nat, i: nat | Drew(s, c, j, i)
      ensures j < |s.calls[c].words| && s.calls[c].words[j] == Stream(seed, i)
    {
      assert CallOk(seed, s.owner, c, s.calls[c]);
    }
  }

  /** No sharing: a draw is handed out once. */
  lemma HandedOnce(seed: bv64, s: System, i: nat, c: nat, j: nat, d: nat, k: nat)
    requires Reachable(seed, s) && Drew(s, c, j, i) && Drew(s, d, k, i)
    ensures c == d && j == k
  {
    ReachableInv(seed, s);
    hide Stream, StateAfter;
    assert CallOk(seed, s.owner, c, s.calls[c]) && CallOk(seed, s.owner, d, s.calls[d]);
    assert s.owner[s.calls[c].at[j]] == c && s.owner[s.calls[d].at[k]] == d;
  }

  /** No duplicates: up to 2^64 draws hand out pairwise different words. */
  lemma NoDuplicates(seed: bv64, s: System, c: nat, j: nat, d: nat, k: nat)
    requires Reachable(seed, s) && |s.owner| <= PERIOD
    requires c < |s.calls| && j < |s.calls[c].words| && d < |s.calls| && k < |s.calls[d].words|
    requires s.calls[c].words[j] == s.calls[d].words[k]
    ensures c == d && j == k
  {
    ReachableInv(seed, s);
    hide Stream, StateAfter;
    assert CallOk(seed, s.owner, c, s.calls[c]) && CallOk(seed, s.owner, d, s.calls[d]);
    var i, l := s.calls[c].at[j], s.calls[d].at[k];
    assert Drew(s, c, j, i) && Drew(s, d, k, l);
    SameWordSameDraw(seed, |s.owner|, i, l);
    HandedOnce(seed, s, i, c, j, d, k);
  }

  lemma SameWordSameDraw(seed: bv64, n: nat, i: nat, l: nat)
    requires n <= PERIOD && i < n && l < n && Stream(seed, i) == Stream(seed, l)
    ensures i == l
  {
    StreamPeriod(seed, if i <= l then i else l, if i <= l then l else i);
  }

  /** What a call that has returned v holds: the stream words at its own draw
      numbers, cut as its kind of call cuts them. */
  ghost predicate AnswerIs(seed: bv64, op: Op, at: seq<nat>, v: Value)
    requires |at| == Draws(op)
  {
    match op
    case Sum64 => v == Word(Stream(seed, at[0]))
    case Sum32 => v == Half((Stream(seed, at[0]) >> 32) as bv32)
    case Sum => v == Buffer(Bytes(Stream(seed, at[0]), 8))
    case Read(length) =>
      && v.Buffer? && |v.bytes| == length
      && forall j | 0 <= j < length :: v.bytes[j] == Bytes(Stream(seed, at[j / 8]), 8)[j % 8]
  }

  /** In every interleaving each answer is made of the call's own draws, which
      it made in ascending order. */
  lemma AnswersAreOwnDraws(seed: bv64, s: System, c: nat)
    requires Reachable(seed, s) && c < |s.calls| && s.calls[c].answer.Some?
    ensures var call := s.calls[c];
      && |call.at| == Draws(call.op)
      && (forall j, k | 0 <= j < k < |call.at| :: call.at[j] < call.at[k])
      && AnswerIs(seed, call.op, call.at, call.answer.value)
  {
    ReachableInv(seed, s);
    hide Stream, StateAfter, Answer, AnswerIs, Draws;
    var call := s.calls[c];
    assert CallOk(seed, s.owner, c, call);
    AnswerFromWords(seed, call.op, call.words, call.at);
  }

  lemma AnswerFromWords(seed: bv64, op: Op, words: seq<bv64>, at: seq<nat>)
    requires |words| == |at| == Draws(op)
    requires forall j | 0 <= j < |at| :: words[j] == Stream(seed, at[j])
    ensures AnswerIs(seed, op, at, Answer(op, words))
  {
    hide Stream, Bytes, Concat;
    if op.Read? {
      ReadFromWords(seed, op.length, words, at);
    }
  }

  lemma ReadFromWords(seed: bv64, length: nat, words: seq<bv64>, at: seq<nat>)
    requires |words| == |at| == WordsFor(length)
    requires forall j | 0 <= j < |at| :: words[j] == Stream(seed, at[j])
    ensures forall j | 0 <= j < length :: Concat(words)[..length][j] == Bytes(Stream(seed, at[j / 8]), 8)[j % 8]
  {
    hide Stream, Bytes, Concat;
    forall j | 0 <= j < length
      ensures Concat(words)[..length][j] == Bytes(Stream(seed, at[j / 8]), 8)[j % 8]
    {
      ConcatAt(words, j);
    }
  }

  lemma {:induction false} ConcatAt(ws: seq<bv64>, j: nat)
    requires j < 8 * |ws|
    ensures j / 8 < |ws| && Concat(ws)[j] == Bytes(ws[j / 8], 8)[j % 8]
  {
    hide Bytes;
    var n := |ws| - 1;
    if j < 8 * n {
      ConcatAt(ws[..n], j);
    }
  }

  /** A returned call whose draws were not interleaved with others has returned
      what the sequential provider returns from the same state. */
  lemma Uninterrupted(seed: bv64, s: System, c: nat, first: nat)
    requires Reachable(seed, s) && c < |s.calls| && s.calls[c].answer.Some?
    requires forall j | 0 <= j < |s.calls[c].at| :: s.calls[c].at[j] == first + j
    ensures var words := StreamWords(StateAfter(seed, first), Draws(s.calls[c].op));
      s.calls[c].words == words && s.calls[c].answer == Some(Answer(s.calls[c].op, words))
  {
    ReachableInv(seed, s);
    hide *;
    ConsecutiveCall(seed, s.owner, c, s.calls[c], first) by {
      CallIsOk(seed, s, c);
    }
  }

  lemma CallIsOk(seed: bv64, s: System, c: nat)
    requires Inv(seed, s) && c < |s.calls|
    ensures CallOk(seed, s.owner, c, s.calls[c])
  {
    hide CallOk;
  }

  lemma ConsecutiveCall(seed: bv64, owner: seq<nat>, c: nat, call: Call, first: nat)
    requires CallOk(seed, owner, c, call) && call.answer.Some?
    requires forall j | 0 <= j < |call.at| :: call.at[j] == first + j
    ensures var words := StreamWords(StateAfter(seed, first), Draws(call.op));
      call.words == words && call.answer == Some(Answer(call.op, words))
  {
    hide Stream, StateAfter, StreamWords, Answer;
    ConsecutiveWords(seed, first, call.words);
  }

  lemma {:induction false} ConsecutiveWords(seed: bv64, first: nat, ws: seq<bv64>)
    requires forall j | 0 <= j < |ws| :: ws[j] == Stream(seed, first + j)
    ensures ws == StreamWords(StateAfter(seed, first), |ws|)
  {
    hide Stream, StateAfter;
    if ws != [] {
      var n := |ws| - 1;
      ConsecutiveWords(seed, first, ws[..n]);
      StreamAdds(seed, first, n);
      assert ws == ws[..n] + [ws[n]];
    }
  }

  lemma StreamAdds(seed: bv64, i: nat, j: nat)
    ensures Stream(StateAfter(seed, i), j) == Stream(seed, i + j)
  {
    StateAdds(seed, i, j + 1);
  }
}
