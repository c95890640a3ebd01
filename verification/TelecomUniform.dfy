/** Exact uniformity of identifiers with drawn allocation and country codes. */
module TelecomUniform {
  import opened Wrappers
  import opened Words
  import opened Tapes
  import opened Luhn
  import opened Decimal
  import opened Telecom
  import Number

  // ---------- one stage after another ----------

  type Draws = seq<Word> -> Option<string>

  /** A stage continues the string so far. */
  type Stage = string -> Draws

  /** A stage only appends. */
  ghost predicate Appends(g: Stage) {
    forall s: string, tape: seq<Word>, v: string :: g(s)(tape) == Some(v) ==> s <= v
  }

  /** From s the stage reaches v on q(t) of the tapes of t words. */
  ghost predicate Counts(g: Stage, s: string, v: string, q: nat -> nat) {
    forall t: nat :: |Outcomes(g(s), t, v)| == q(t)
  }

  function All(): nat -> nat {
    (t: nat) => Pow(TWO64, t)
  }

  // ---------- six digits ----------

  function Six(g: Stage): Stage {
    (out: string) => (tape: seq<Word>) =>
      match RandomDigits(out, 6, tape)
      case None => None
      case Some((s, rest)) => g(s)(rest)
  }

  function SixWays(q: nat -> nat): nat -> nat {
    (t: nat) => SixWaysIn(q, t)
  }

  function SixWaysIn(q: nat -> nat, t: nat): nat {
    if t == 0 then 0 else Weigh(18 * Pow(10, 12), q(t - 1), TWO64 - BOUND, SixWaysIn(q, t - 1))
  }

  lemma SixStep(g: Stage, out: string, w: Word, tape: seq<Word>)
    ensures Six(g)(out)([w] + tape)
         == match DrawChunk(6, w)
            case None => Six(g)(out)(tape)
            case Some(part) => g(out + part)(tape)
  {
    SixDigits(out, w, tape);
    hide RandomDigits, DrawChunk;
  }

  lemma SixAppends(g: Stage)
    requires Appends(g)
    ensures Appends(Six(g))
  {
    forall s: string, tape: seq<Word>, v: string | Six(g)(s)(tape) == Some(v)
      ensures s <= v
    {
      KeepsPrefix(s, 6, tape);
    }
  }

  lemma SixWord(g: Stage, out: string, part: string, v: string, w: Word, tape: seq<Word>)
    requires Appends(g) && |part| == 6 && out + part <= v
    ensures DrawChunk(6, w) == Some(part) ==> Six(g)(out)([w] + tape) == g(out + part)(tape)
    ensures DrawChunk(6, w) == None ==> Six(g)(out)([w] + tape) == Six(g)(out)(tape)
    ensures DrawChunk(6, w) != None && DrawChunk(6, w) != Some(part) ==> Six(g)(out)([w] + tape) != Some(v)
  {
    SixStep(g, out, w, tape);
    ChunkLength(w);
    hide Six, DrawChunk;
    if DrawChunk(6, w).Some? {
      OnlyPart(g, out, part, DrawChunk(6, w).value, v, tape);
    }
  }

  lemma ChunkLength(w: Word)
    ensures DrawChunk(6, w).Some? ==> |DrawChunk(6, w).value| == 6
  {
    ChunkReadsBack(w % TEN18, 6);
  }

  lemma OnlyPart(g: Stage, out: string, part: string, other: string, v: string, tape: seq<Word>)
    requires Appends(g) && |part| == |other| && out + part <= v
    ensures g(out + other)(tape) == Some(v) ==> other == part
  {
    if out + other <= v {
      assert other == v[|out|..|out| + |part|] == part;
    }
  }

  lemma SixSplit(g: Stage, out: string, part: string, v: string, t: nat)
    requires Appends(g) && |part| == 6 && out + part <= v
    ensures |Outcomes(Six(g)(out), t + 1, v)|
         == Weigh(|Fiber(Chunks(6), Some(part))|, |Outcomes(g(out + part), t, v)|,
                  |Fiber(Chunks(6), None)|, |Outcomes(Six(g)(out), t, v)|)
  {
    hide DrawChunk, Six, Appends;
    var f, h := Six(g)(out), g(out + part);
    var a, b := Fiber(Chunks(6), Some(part)), Fiber(Chunks(6), None);
    forall w: Word, tape: seq<Word>
      ensures w in a ==> f([w] + tape) == h(tape)
      ensures w in b ==> f([w] + tape) == f(tape)
      ensures w !in a && w !in b ==> f([w] + tape) != Some(v)
    {
      SixWord(g, out, part, v, w, tape);
    }
    CountStep(f, t, v, a, h, b, f);
  }

  lemma {:induction false} SixCount(g: Stage, out: string, part: string, v: string, q: nat -> nat, t: nat)
    requires Appends(g) && |part| == 6 && AllDigits(part) && out + part <= v && Counts(g, out + part, v, q)
    ensures |Outcomes(Six(g)(out), t, v)| == SixWays(q)(t)
  {
    hide Six, Appends, Outcomes, Fiber, Chunks, Pow;
    if t == 0 {
      NoWord(g, out, v);
    } else {
      SixCount(g, out, part, v, q, t - 1);
      SixSplit(g, out, part, v, t - 1);
      ChunksExact(part);
      ChunksReject(6);
    }
  }

  lemma NoWord(g: Stage, out: string, v: string)
    ensures |Outcomes(Six(g)(out), 0, v)| == 0
  {
    assert RandomDigits(out, 6, []) == None;
    assert Six(g)(out)([]) == None;
    hide Six;
    forall tape: seq<Word> | |tape| == 0
      ensures Six(g)(out)(tape) != Some(v)
    {
      assert tape == [];
    }
    CountNone(Six(g)(out), 0, v);
  }

  lemma SixCounts(g: Stage, out: string, part: string, v: string, q: nat -> nat)
    requires Appends(g) && |part| == 6 && AllDigits(part) && out + part <= v && Counts(g, out + part, v, q)
    ensures Counts(Six(g), out, v, SixWays(q))
  {
    hide Six, Appends, SixWays;
    forall t: nat
      ensures |Outcomes(Six(g)(out), t, v)| == SixWays(q)(t)
    {
      SixCount(g, out, part, v, q, t);
    }
  }

  // ---------- one string of a table ----------

  function Pick(table: seq<string>, g: Stage): Stage
    requires 0 < |table| < TWO64
  {
    (out: string) => (tape: seq<Word>) =>
      match Number.Bounded(|table|, tape)
      case None => None
      case Some((i, rest)) => g(out + table[i])(rest)
  }

  function PickWays(n: Word, q: nat -> nat): nat -> nat
    requires n > 0
  {
    (t: nat) => PickWaysIn(n, q, t)
  }

  function PickWaysIn(n: Word, q: nat -> nat, t: nat): nat
    requires n > 0
  {
    if t == 0 then 0 else Mix(n, q(t - 1), PickWaysIn(n, q, t - 1))
  }

  /** The one string of the table that v goes on with. */
  ghost predicate Only(table: seq<string>, out: string, v: string, i: nat)
    requires i < |table|
  {
    forall j | 0 <= j < |table| :: out + table[j] <= v <==> j == i
  }

  lemma PickStep(table: seq<string>, g: Stage, out: string, w: Word, tape: seq<Word>)
    requires 0 < |table| < TWO64
    ensures Pick(table, g)(out)([w] + tape)
         == match MulShift(|table|, w)
            case None => Pick(table, g)(out)(tape)
            case Some(i) => g(out + table[i])(tape)
  {
    BoundedStep(|table|, w, tape);
    hide Number.Bounded, MulShift;
  }

  lemma BoundedStep(n: Word, w: Word, tape: seq<Word>)
    requires n > 0
    ensures Number.Bounded(n, [w] + tape)
         == match MulShift(n, w)
            case None => Number.Bounded(n, tape)
            case Some(i) => Some((i, tape))
  {
    hide MulShift;
    assert ([w] + tape)[1..] == tape;
  }

  lemma PickAppends(table: seq<string>, g: Stage)
    requires Appends(g) && 0 < |table| < TWO64
    ensures Appends(Pick(table, g))
  {
  }

  lemma PickSplit(table: seq<string>, g: Stage, out: string, v: string, i: nat, t: nat)
    requires Appends(g) && 0 < |table| < TWO64 && i < |table| && Only(table, out, v, i)
    ensures |Outcomes(Pick(table, g)(out), t + 1, v)|
         == Mix(|table|, |Outcomes(g(out + table[i]), t, v)|, |Outcomes(Pick(table, g)(out), t, v)|)
  {
    hide Pick;
    var f, h := Pick(table, g)(out), g(out + table[i]);
    var a, b := Fiber(Lemire(|table|), Some(i)), Fiber(Lemire(|table|), None);
    forall w: Word, tape: seq<Word>
      ensures w in a ==> f([w] + tape) == h(tape)
      ensures w in b ==> f([w] + tape) == f(tape)
      ensures w !in a && w !in b ==> f([w] + tape) != Some(v)
    {
      PickStep(table, g, out, w, tape);
    }
    CountStep(f, t, v, a, h, b, f);
    MulShiftExact(|table|, i);
    MulShiftRejects(|table|);
  }

  lemma {:induction false} PickCount(table: seq<string>, g: Stage, out: string, v: string, i: nat, q: nat -> nat, t: nat)
    requires Appends(g) && 0 < |table| < TWO64 && i < |table| && Only(table, out, v, i)
    requires Counts(g, out + table[i], v, q)
    ensures |Outcomes(Pick(table, g)(out), t, v)| == PickWays(|table|, q)(t)
  {
    hide Pick, Appends, Outcomes, Only;
    if t == 0 {
      NoPick(table, g, out, v);
    } else {
      PickCount(table, g, out, v, i, q, t - 1);
      PickSplit(table, g, out, v, i, t - 1);
    }
  }

  lemma NoPick(table: seq<string>, g: Stage, out: string, v: string)
    requires 0 < |table| < TWO64
    ensures |Outcomes(Pick(table, g)(out), 0, v)| == 0
  {
    assert Number.Bounded(|table|, []) == None;
    assert Pick(table, g)(out)([]) == None;
    hide Pick;
    forall tape: seq<Word> | |tape| == 0
      ensures Pick(table, g)(out)(tape) != Some(v)
    {
      assert tape == [];
    }
    CountNone(Pick(table, g)(out), 0, v);
  }

  lemma PickCounts(table: seq<string>, g: Stage, out: string, v: string, i: nat, q: nat -> nat)
    requires Appends(g) && 0 < |table| < TWO64 && i < |table| && Only(table, out, v, i)
    requires Counts(g, out + table[i], v, q)
    ensures Counts(Pick(table, g), out, v, PickWays(|table|, q))
  {
    hide Pick, Appends, PickWays, Only;
    forall t: nat
      ensures |Outcomes(Pick(table, g)(out), t, v)| == PickWays(|table|, q)(t)
    {
      PickCount(table, g, out, v, i, q, t);
    }
  }

  // ---------- mobile equipment ----------

  /** The check digit of an IMEI. */
  function CheckStage(): Stage {
    (s: string) => (tape: seq<Word>) => if AllDigits(s) then Some(WithCheckDigit(s)) else None
  }

  /** The given or the drawn software version of an IMEISV. */
  function VersionStage(svn: string): Stage {
    (s: string) => if svn != "" then (tape: seq<Word>) => Some(s + svn) else VersionAfter(s)
  }

  function LastStage(kind: TelecomKind, o: TelecomOptions): Stage {
    if kind == IMEISV then VersionStage(o.svn) else CheckStage()
  }

  function LastWays(kind: TelecomKind, o: TelecomOptions): nat -> nat {
    if kind == IMEISV && o.svn == "" then (t: nat) => Number.BoundedWays(99, t) else All()
  }

  /** The Type Allocation Code as a stage. */
  function TacStage(o: TelecomOptions, g: Stage): Draws {
    if o.tac != "" then g(o.tac)
    else if o.test then Six(g)("00")
    else Pick(REPORTING_BODY_IDS, Six(g))("")
  }

  /** How many tapes of t words give one identifier. */
  function EquipmentWays(kind: TelecomKind, o: TelecomOptions): nat -> nat {
    var serial := SixWays(LastWays(kind, o));
    if o.tac != "" then serial
    else if o.test then SixWays(serial)
    else PickWays(|REPORTING_BODY_IDS|, SixWays(serial))
  }

  predicate IsEquipment(kind: TelecomKind) {
    kind != ICCID && kind != MEID
  }

  lemma TacStages(o: TelecomOptions, g: Stage, tape: seq<Word>)
    requires ValidTac(o)
    ensures TacStage(o, g)(tape)
         == match TacRun(o, tape)
            case None => None
            case Some((tac, rest)) => g(tac)(rest)
  {
    hide RandomDigits, Number.Bounded;
    assert forall i | 0 <= i < |REPORTING_BODY_IDS| :: "" + REPORTING_BODY_IDS[i] == REPORTING_BODY_IDS[i];
  }

  /** The run of an identifier is its stages. */
  lemma IdentifierStages(kind: TelecomKind, o: TelecomOptions, tape: seq<Word>)
    requires IsEquipment(kind) && ValidOptions(kind, o)
    ensures Result(IdentifierRun(kind, o, tape)) == TacStage(o, Six(LastStage(kind, o)))(tape)
  {
    TacStages(o, Six(LastStage(kind, o)), tape);
    EquipmentDigits(o, tape);
    hide TacStage, TacRun, RandomDigits, TwoDigits, Number.Bounded;
  }

  lemma LastAppends(kind: TelecomKind, o: TelecomOptions)
    ensures Appends(LastStage(kind, o))
  {
    hide WithCheckDigit, TwoDigits, Number.BoundedValue;
    forall s: string, tape: seq<Word>, v: string | LastStage(kind, o)(s)(tape) == Some(v)
      ensures s <= v
    {
      if AllDigits(s) {
        CheckDigitCompletes(s);
      }
    }
  }

  lemma LastCounts(kind: TelecomKind, o: TelecomOptions, id: string)
    requires IsEquipment(kind) && ValidOptions(kind, o) && WellFormed(kind, o, id)
    ensures Counts(LastStage(kind, o), id[..14], id, LastWays(kind, o))
  {
    forall t: nat
      ensures |Outcomes(LastStage(kind, o)(id[..14]), t, id)| == LastWays(kind, o)(t)
    {
      if kind == IMEISV && o.svn == "" {
        VersionsUniform(id, t);
      } else if kind == IMEISV {
        assert id == id[..14] + o.svn;
        CountDone(LastStage(kind, o)(id[..14]), t, id);
      } else {
        assert id == id[..14] + [id[14]];
        ValidDetermined(id[..14], id[14]);
        CountDone(LastStage(kind, o)(id[..14]), t, id);
      }
    }
  }

  lemma DigitsWithin(id: string, i: nat, j: nat)
    requires i <= j <= |id| && forall n | 0 <= n < |id| :: IsDigit(id[n])
    ensures AllDigits(id[i..j])
  {
  }

  lemma SerialCounts(kind: TelecomKind, o: TelecomOptions, id: string)
    requires IsEquipment(kind) && ValidOptions(kind, o) && WellFormed(kind, o, id)
    ensures Appends(Six(LastStage(kind, o)))
    ensures Counts(Six(LastStage(kind, o)), id[..8], id, SixWays(LastWays(kind, o)))
  {
    LastAppends(kind, o);
    LastCounts(kind, o, id);
    DigitsWithin(id, 8, 14);
    hide LastStage, LastWays, SixWays, Six, Appends, Counts;
    assert id[..8] + id[8..14] == id[..14];
    SixAppends(LastStage(kind, o));
    SixCounts(LastStage(kind, o), id[..8], id[8..14], id, LastWays(kind, o));
  }

  /** The reporting bodies are told apart by their two digits. */
  lemma OneBody(id: string, i: nat)
    requires i < |REPORTING_BODY_IDS| && |id| >= 2 && id[..2] == REPORTING_BODY_IDS[i]
    ensures Only(REPORTING_BODY_IDS, "", id, i)
  {
    forall j | 0 <= j < |REPORTING_BODY_IDS|
      ensures "" + REPORTING_BODY_IDS[j] <= id <==> j == i
    {
      assert "" + REPORTING_BODY_IDS[j] == REPORTING_BODY_IDS[j];
      ReportingBodies(j);
      BodiesDiffer(i, j);
      hide REPORTING_BODY_IDS;
      assert REPORTING_BODY_IDS[j] <= id <==> REPORTING_BODY_IDS[j] == id[..2];
    }
  }

  lemma BodiesDiffer(i: nat, j: nat)
    requires i < |REPORTING_BODY_IDS| && j < |REPORTING_BODY_IDS|
    ensures REPORTING_BODY_IDS[i] == REPORTING_BODY_IDS[j] ==> i == j
  {
    BodyPlace(i);
    BodyPlace(j);
  }

  /** The place of a reporting body in the table, from its two digits. */
  function PlaceOf(s: string): int
    requires |s| == 2
  {
    match (s[0], s[1])
    case ('0', _) => 0
    case ('3', '5') => 1
    case ('8', _) => 2
    case ('3', _) => 3
    case ('4', '4') => 4
    case ('4', '5') => 5
    case ('4', _) => 6
    case ('9', '1') => 12
    case ('9', _) => 13
    case (_, d) => 7 + (d as int - '0' as int)
  }

  lemma BodyPlace(i: nat)
    requires i < |REPORTING_BODY_IDS|
    ensures |REPORTING_BODY_IDS[i]| == 2 && PlaceOf(REPORTING_BODY_IDS[i]) == i
  {
  }

  lemma TacCounts(kind: TelecomKind, o: TelecomOptions, id: string, t: nat)
    requires IsEquipment(kind) && ValidOptions(kind, o) && WellFormed(kind, o, id)
    ensures |Outcomes(TacStage(o, Six(LastStage(kind, o))), t, id)| == EquipmentWays(kind, o)(t)
  {
    var g, q := Six(LastStage(kind, o)), SixWays(LastWays(kind, o));
    SerialCounts(kind, o, id);
    DigitsWithin(id, 2, 8);
    hide LastStage, LastWays, Six, SixWays, Pick, PickWays, Appends, Outcomes;
    if o.tac == "" {
      assert id[..2] + id[2..8] == id[..8];
      SixCounts(g, id[..2], id[2..8], id, q);
      if !o.test {
        SixAppends(g);
        var i :| 0 <= i < |REPORTING_BODY_IDS| && REPORTING_BODY_IDS[i] == id[..2];
        OneBody(id, i);
        assert "" + REPORTING_BODY_IDS[i] == id[..2];
        PickCounts(REPORTING_BODY_IDS, Six(g), "", id, i, SixWays(q));
      }
    }
  }

  /** For all options, all well-formed IMEIs are equally likely, and so are all
      well-formed IMEISVs. */
  lemma EquipmentUniform(kind: TelecomKind, o: TelecomOptions, id: string, t: nat)
    requires IsEquipment(kind) && ValidOptions(kind, o) && WellFormed(kind, o, id)
    ensures |Outcomes(Identifiers(kind, o), t, id)| == EquipmentWays(kind, o)(t)
  {
    TacCounts(kind, o, id, t);
    var f, g := Identifiers(kind, o), TacStage(o, Six(LastStage(kind, o)));
    hide TacStage, EquipmentWays, WellFormed, ValidOptions;
    forall tape: seq<Word>
      ensures f(tape) == g(tape)
    {
      IdentifierStages(kind, o, tape);
    }
    assert Outcomes(f, t, id) == Outcomes(g, t, id);
  }

  // ---------- country codes ----------

  function DigitOf(c: char): int { c as int - '0' as int }

  function CodeNumber(s: string): int {
    if |s| == 1 then DigitOf(s[0])
    else if |s| == 2 then 10 * DigitOf(s[0]) + DigitOf(s[1])
    else if |s| == 3 then 100 * DigitOf(s[0]) + 10 * DigitOf(s[1]) + DigitOf(s[2])
    else -1
  }

  /** The first two digits of a number tell how long its country code is. */
  function CodeLength(a: char, b: char): int {
    if a == '1' || a == '7' then 1
    else if a == '2' && (b == '1' || b == '3' || b == '5') then 3
    else if a == '3' && (b == '5' || b == '7' || b == '8') then 3
    else if a == '4' && b == '2' then 3
    else if a == '8' && (b == '5' || b == '8') then 3
    else if a == '9' && (b == '6' || b == '7' || b == '9') then 3
    else 2
  }

  predicate IsCode(s: string) {
    1 <= |s| <= 3 && |s| == CodeLength(s[0], if |s| > 1 then s[1] else '0')
  }

  predicate CodeAt(table: seq<string>, lo: int, hi: int, i: nat)
    requires i < |table|
  {
    && IsCode(table[i]) && lo <= CodeNumber(table[i]) <= hi
    && (i > 0 ==> CodeNumber(table[i - 1]) < CodeNumber(table[i]))
  }

  /** Codes in ascending order from lo to hi. */
  ghost predicate Sorted(table: seq<string>, lo: int, hi: int) {
    forall i | 0 <= i < |table| :: CodeAt(table, lo, hi, i)
  }

  lemma SortedConcat(s: seq<string>, t: seq<string>, lo: int, m: int, n: int, hi: int)
    requires Sorted(s, lo, m) && Sorted(t, n, hi) && lo <= m < n <= hi
    ensures Sorted(s + t, lo, hi)
  {
    hide IsCode, CodeNumber;
    forall i | 0 <= i < |s + t|
      ensures CodeAt(s + t, lo, hi, i)
    {
      if i < |s| {
        assert CodeAt(s, lo, m, i);
      } else {
        assert CodeAt(t, n, hi, i - |s|);
        assert i == |s| > 0 ==> CodeAt(s, lo, m, i - 1);
      }
    }
  }

  lemma Row0(i: nat)
    requires i < |CODES_0|
    ensures CodeAt(CODES_0, 1, 41, i)
  {
  }

  lemma Row1(i: nat)
    requires i < |CODES_1|
    ensures CodeAt(CODES_1, 43, 56, i)
  {
  }

  lemma Row2(i: nat)
    requires i < |CODES_2|
    ensures CodeAt(CODES_2, 57, 86, i)
  {
  }

  lemma Row3(i: nat)
    requires i < |CODES_3|
    ensures CodeAt(CODES_3, 90, 234, i)
  {
  }

  lemma Row4(i: nat)
    requires i < |CODES_4|
    ensures CodeAt(CODES_4, 254, 380, i)
  {
  }

  lemma Row5(i: nat)
    requires i < |CODES_5|
    ensures CodeAt(CODES_5, 381, 886, i)
  {
  }

  lemma Row6(i: nat)
    requires i < |CODES_6|
    ensures CodeAt(CODES_6, 960, 972, i)
  {
  }

  lemma Row7(i: nat)
    requires i < |CODES_7|
    ensures CodeAt(CODES_7, 973, 998, i)
  {
  }

  lemma RowsSorted()
    ensures Sorted(CODES_0, 1, 41)
    ensures Sorted(CODES_1, 43, 56)
    ensures Sorted(CODES_2, 57, 86)
    ensures Sorted(CODES_3, 90, 234)
    ensures Sorted(CODES_4, 254, 380)
    ensures Sorted(CODES_5, 381, 886)
    ensures Sorted(CODES_6, 960, 972)
    ensures Sorted(CODES_7, 973, 998)
  {
    forall i | 0 <= i < |CODES_0| ensures CodeAt(CODES_0, 1, 41, i) { Row0(i); }
    forall i | 0 <= i < |CODES_1| ensures CodeAt(CODES_1, 43, 56, i) { Row1(i); }
    forall i | 0 <= i < |CODES_2| ensures CodeAt(CODES_2, 57, 86, i) { Row2(i); }
    forall i | 0 <= i < |CODES_3| ensures CodeAt(CODES_3, 90, 234, i) { Row3(i); }
    forall i | 0 <= i < |CODES_4| ensures CodeAt(CODES_4, 254, 380, i) { Row4(i); }
    forall i | 0 <= i < |CODES_5| ensures CodeAt(CODES_5, 381, 886, i) { Row5(i); }
    forall i | 0 <= i < |CODES_6| ensures CodeAt(CODES_6, 960, 972, i) { Row6(i); }
    forall i | 0 <= i < |CODES_7| ensures CodeAt(CODES_7, 973, 998, i) { Row7(i); }
  }

  lemma CodesSorted()
    ensures Sorted(COUNTRY_CODES, 1, 998)
  {
    RowsSorted();
    hide Sorted, CODES_0, CODES_1, CODES_2, CODES_3, CODES_4, CODES_5, CODES_6, CODES_7;
    SortedConcat(CODES_0, CODES_1, 1, 41, 43, 56);
    SortedConcat(CODES_0 + CODES_1, CODES_2, 1, 56, 57, 86);
    SortedConcat(CODES_0 + CODES_1 + CODES_2, CODES_3, 1, 86, 90, 234);
    SortedConcat(CODES_0 + CODES_1 + CODES_2 + CODES_3, CODES_4, 1, 234, 254, 380);
    SortedConcat(CODES_0 + CODES_1 + CODES_2 + CODES_3 + CODES_4, CODES_5, 1, 380, 381, 886);
    SortedConcat(CODES_0 + CODES_1 + CODES_2 + CODES_3 + CODES_4 + CODES_5, CODES_6, 1, 886, 960, 972);
    SortedConcat(CODES_0 + CODES_1 + CODES_2 + CODES_3 + CODES_4 + CODES_5 + CODES_6, CODES_7, 1, 972, 973, 998);
  }

  lemma {:induction false} SortedOrder(table: seq<string>, lo: int, hi: int, i: nat, j: nat)
    requires Sorted(table, lo, hi) && i < j < |table|
    ensures CodeNumber(table[i]) < CodeNumber(table[j])
    decreases j
  {
    hide CodeNumber, IsCode;
    assert CodeAt(table, lo, hi, j);
    if i < j - 1 {
      SortedOrder(table, lo, hi, i, j - 1);
    }
  }

  lemma SameLength(s: string, t: string, v: string)
    requires IsCode(s) && IsCode(t) && s <= v && t <= v
    ensures s == t
  {
    assert s[0] == v[0] == t[0];
    if |s| > 1 && |t| > 1 {
      assert s[1] == v[1] == t[1];
    }
    assert |s| == |t|;
    assert s == v[..|s|] == t;
  }

  /** No country code is the start of another one. */
  lemma CodesPrefixFree(v: string, i: nat, j: nat)
    requires i < |COUNTRY_CODES| && j < |COUNTRY_CODES|
    requires COUNTRY_CODES[i] <= v && COUNTRY_CODES[j] <= v
    ensures i == j
  {
    CodesSorted();
    hide COUNTRY_CODES;
    assert CodeAt(COUNTRY_CODES, 1, 998, i) && CodeAt(COUNTRY_CODES, 1, 998, j);
    SameLength(COUNTRY_CODES[i], COUNTRY_CODES[j], v);
    hide IsCode, CodeNumber;
    if i < j {
      SortedOrder(COUNTRY_CODES, 1, 998, i, j);
    } else if j < i {
      SortedOrder(COUNTRY_CODES, 1, 998, j, i);
    }
  }

  // ---------- cards with a drawn country code ----------

  /** The options that ask for a given issuer. */
  function Issued(o: TelecomOptions, iin: string): TelecomOptions {
    o.(iin := iin)
  }

  /** The rest of a card number after its issuer. */
  function CardStage(o: TelecomOptions): Stage {
    (s: string) =>
      if s != "" && ValidOptions(ICCID, Issued(o, s)) then Identifiers(ICCID, Issued(o, s))
      else (tape: seq<Word>) => None
  }

  lemma CardAppends(o: TelecomOptions)
    ensures Appends(CardStage(o))
  {
    hide ValidOptions, IdentifierRun;
    forall s: string, tape: seq<Word>, v: string | CardStage(o)(s)(tape) == Some(v)
      ensures s <= v
    {
      IdentifierOk(ICCID, Issued(o, s), tape);
    }
  }

  lemma CodeIsIssuer(o: TelecomOptions, i: nat)
    requires ValidOptions(ICCID, o) && i < |COUNTRY_CODES|
    ensures ValidOptions(ICCID, Issued(o, "89" + COUNTRY_CODES[i]))
  {
    CountryCodes();
    hide COUNTRY_CODES;
    assert ("89" + COUNTRY_CODES[i])[..2] == "89";
  }

  lemma CardStages(o: TelecomOptions, tape: seq<Word>)
    requires ValidOptions(ICCID, o) && o.iin == ""
    ensures 0 < |COUNTRY_CODES| < TWO64
    ensures Result(IdentifierRun(ICCID, o, tape)) == Pick(COUNTRY_CODES, CardStage(o))("89")(tape)
  {
    CountryCount();
    var run := Number.Bounded(|COUNTRY_CODES|, tape);
    hide COUNTRY_CODES, RandomDigits;
    if run.Some? {
      CodeIsIssuer(o, run.value.0);
      AsRequested(o, "89" + COUNTRY_CODES[run.value.0], tape, run.value.1);
    }
  }

  lemma CountryCount()
    ensures 0 < |COUNTRY_CODES| < TWO64
  {
  }

  /** A drawn issuer continues as a requested one. */
  lemma AsRequested(o: TelecomOptions, iin: string, tape: seq<Word>, rest: seq<Word>)
    requires ValidOptions(ICCID, o) && ValidOptions(ICCID, Issued(o, iin)) && iin != ""
    requires IssuerRun(o, tape) == Some((iin, rest))
    ensures IdentifierRun(ICCID, o, tape) == IdentifierRun(ICCID, Issued(o, iin), rest)
  {
    hide RandomDigits;
    assert IssuerRun(Issued(o, iin), rest) == Some((iin, rest));
  }

  function CardWays(n: int): nat -> nat {
    (t: nat) => DigitsWays(n, t)
  }

  lemma CardCounts(o: TelecomOptions, id: string, i: nat)
    requires ValidOptions(ICCID, o) && o.iin == "" && WellFormed(ICCID, o, id)
    requires i < |COUNTRY_CODES| && COUNTRY_CODES[i] <= id[2..]
    ensures Counts(CardStage(o), "89" + COUNTRY_CODES[i], id, CardWays(IccidLength(o) - 3 - |COUNTRY_CODES[i]|))
  {
    var iin, n := "89" + COUNTRY_CODES[i], IccidLength(o) - 3 - |COUNTRY_CODES[i]|;
    CodeIsIssuer(o, i);
    IssuerOfCard(o, COUNTRY_CODES[i], id);
    hide *;
    forall t: nat
      ensures |Outcomes(CardStage(o)(iin), t, id)| == CardWays(n)(t)
    {
      CardCount(o, iin, id, t);
    }
    CountsFrom(CardStage(o), iin, id, CardWays(n));
  }

  lemma CountsFrom(g: Stage, s: string, v: string, q: nat -> nat)
    requires forall t: nat :: |Outcomes(g(s), t, v)| == q(t)
    ensures Counts(g, s, v, q)
  {
  }

  lemma IssuerOfCard(o: TelecomOptions, code: string, id: string)
    requires WellFormed(ICCID, o, id) && code <= id[2..]
    ensures WellFormed(ICCID, Issued(o, "89" + code), id) && IccidLength(Issued(o, "89" + code)) == IccidLength(o)
  {
    hide COUNTRY_CODES, ValidNumber;
    assert id == id[..2] + id[2..];
  }

  lemma CardCount(o: TelecomOptions, iin: string, id: string, t: nat)
    requires ValidOptions(ICCID, Issued(o, iin)) && iin != "" && WellFormed(ICCID, Issued(o, iin), id)
    ensures |Outcomes(CardStage(o)(iin), t, id)| == CardWays(IccidLength(Issued(o, iin)) - 1 - |iin|)(t)
  {
    IccidUniform(Issued(o, iin), id, t);
    hide WellFormed, DigitsWays, Identifiers, Outcomes;
  }

  lemma OneCode(id: string, i: nat)
    requires |id| >= 2 && id[..2] == "89" && i < |COUNTRY_CODES| && COUNTRY_CODES[i] <= id[2..]
    ensures Only(COUNTRY_CODES, "89", id, i)
  {
    hide COUNTRY_CODES;
    assert id == "89" + id[2..];
    forall j | 0 <= j < |COUNTRY_CODES|
      ensures "89" + COUNTRY_CODES[j] <= id <==> j == i
    {
      assert "89" + COUNTRY_CODES[j] <= id <==> COUNTRY_CODES[j] <= id[2..];
      if COUNTRY_CODES[j] <= id[2..] {
        CodesPrefixFree(id[2..], i, j);
      }
    }
  }

  /** With a drawn country code all well-formed ICCIDs of one country are equally
      likely. */
  lemma CardUniform(o: TelecomOptions, id: string, i: nat, t: nat)
    requires ValidOptions(ICCID, o) && o.iin == "" && WellFormed(ICCID, o, id)
    requires i < |COUNTRY_CODES| && COUNTRY_CODES[i] <= id[2..]
    ensures 0 < |COUNTRY_CODES| < TWO64
    ensures |Outcomes(Identifiers(ICCID, o), t, id)|
         == PickWays(|COUNTRY_CODES|, CardWays(IccidLength(o) - 3 - |COUNTRY_CODES[i]|))(t)
  {
    CountryCount();
    CardAppends(o);
    CardCounts(o, id, i);
    OneCode(id, i);
    hide COUNTRY_CODES, Pick, CardStage, CardWays, PickWays, WellFormed, ValidOptions, Appends, Only;
    PickCounts(COUNTRY_CODES, CardStage(o), "89", id, i, CardWays(IccidLength(o) - 3 - |COUNTRY_CODES[i]|));
    var f, g := Identifiers(ICCID, o), Pick(COUNTRY_CODES, CardStage(o))("89");
    forall tape: seq<Word>
      ensures f(tape) == g(tape)
    {
      CardStages(o, tape);
    }
    assert Outcomes(f, t, id) == Outcomes(g, t, id);
  }
}
