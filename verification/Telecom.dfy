/** Mobile equipment and subscriber identifiers. */
module Telecom {
  import opened Wrappers
  import opened Words
  import opened Tapes
  import opened Luhn
  import opened Decimal
  import Number

  /** Kinds beyond MEID are treated as IMEI. */
  datatype TelecomKind = IMEI | IMEISV | ICCID | MEID | UnknownKind

  datatype TelecomOptions = TelecomOptions(tac: string, svn: string, iin: string, length: int, test: bool)

  const REPORTING_BODY_IDS: seq<string> :=
    ["01", "35", "86", "33", "44", "45", "49", "50", "51", "52", "53", "54", "91", "98"]

  const CODES_0: seq<string> := ["1", "7", "20", "27", "30", "31", "32", "33", "34", "36", "39", "40", "41"]
  const CODES_1: seq<string> := ["43", "44", "45", "46", "47", "48", "49", "51", "52", "53", "54", "55", "56"]
  const CODES_2: seq<string> := ["57", "58", "60", "61", "62", "63", "64", "65", "66", "81", "82", "84", "86"]
  const CODES_3: seq<string> := ["90", "91", "92", "93", "94", "95", "98", "212", "213", "216", "218", "234"]
  const CODES_4: seq<string> := ["254", "351", "352", "353", "354", "358", "359", "370", "371", "372", "380"]
  const CODES_5: seq<string> := ["381", "385", "386", "420", "421", "852", "853", "855", "856", "880", "886"]
  const CODES_6: seq<string> := ["960", "961", "962", "963", "964", "965", "966", "967", "968", "971", "972"]
  const CODES_7: seq<string> := ["973", "974", "975", "976", "977", "992", "993", "994", "995", "996", "998"]
  const COUNTRY_CODES := CODES_0 + CODES_1 + CODES_2 + CODES_3 + CODES_4 + CODES_5 + CODES_6 + CODES_7

  const HEX := "0123456789ABCDEF"

  // ---------- options ----------

  method IsDigits(s: string, minLen: int, maxLen: int) returns (ok: bool)
    ensures ok <==> minLen <= |s| <= maxLen && AllDigits(s)
  {
    if |s| < minLen || |s| > maxLen {
      return false;
    }
    for i := 0 to |s|
      invariant AllDigits(s[..i])
    {
      if s[i] < '0' || s[i] > '9' {
        return false;
      }
    }
    assert s[..|s|] == s;
    ok := true;
  }

  predicate ValidTac(o: TelecomOptions) {
    o.tac == "" || (|o.tac| == 8 && AllDigits(o.tac))
  }

  /** The length of an ICCID; 0 selects 19. */
  function IccidLength(o: TelecomOptions): int {
    if o.length == 0 then 19 else o.length
  }

  predicate ValidOptions(kind: TelecomKind, o: TelecomOptions) {
    match kind
    case IMEISV => ValidTac(o) && (o.svn == "" || (|o.svn| == 2 && AllDigits(o.svn) && o.svn != "99"))
    case ICCID =>
      && 18 <= IccidLength(o) <= 20
      && (o.iin == "" || (3 <= |o.iin| <= 7 && AllDigits(o.iin) && o.iin[..2] == "89"))
    case MEID => true
    case _ => ValidTac(o)
  }

  // ---------- runs ----------

  /** appendTAC with the TAC alone. */
  function TacRun(o: TelecomOptions, tape: seq<Word>): Run<string>
    requires ValidTac(o)
  {
    if o.tac != "" then Some((o.tac, tape))
    else if o.test then RandomDigits("00", 6, tape)
    else match Number.Bounded(|REPORTING_BODY_IDS|, tape)
      case None => None
      case Some((i, rest)) => RandomDigits(REPORTING_BODY_IDS[i], 6, rest)
  }

  /** The 14 digits shared by IMEI and IMEISV. */
  function EquipmentRun(o: TelecomOptions, tape: seq<Word>): Run<string>
    requires ValidTac(o)
  {
    match TacRun(o, tape)
    case None => None
    case Some((tac, rest)) => RandomDigits(tac, 6, rest)
  }

  function WithCheckDigit(s: string): string
    requires AllDigits(s)
  {
    s + [DigitChar(CheckDigit(Values(s)))]
  }

  function TwoDigits(v: nat): string
    requires v < 100
  {
    [DigitChar(v / 10), DigitChar(v % 10)]
  }

  function ImeisvRun(o: TelecomOptions, tape: seq<Word>): Run<string>
    requires ValidTac(o)
  {
    match EquipmentRun(o, tape)
    case None => None
    case Some((s, rest)) =>
      if o.svn != "" then Some((s + o.svn, rest))
      else match Number.Bounded(99, rest)
        case None => None
        case Some((v, rest')) => Some((s + TwoDigits(v), rest'))
  }

  /** The issuer prefix: the given one or 89 and a country code. */
  function IssuerRun(o: TelecomOptions, tape: seq<Word>): Run<string> {
    if o.iin != "" then Some((o.iin, tape))
    else match Number.Bounded(|COUNTRY_CODES|, tape)
      case None => None
      case Some((i, rest)) => Some(("89" + COUNTRY_CODES[i], rest))
  }

  /** The account digits after an issuer prefix. */
  function AccountOf(o: TelecomOptions, issuer: Run<string>): Run<string> {
    match issuer
    case None => None
    case Some((iin, rest)) => RandomDigits(iin, IccidLength(o) - 1 - |iin|, rest)
  }

  function AccountRun(o: TelecomOptions, tape: seq<Word>): Run<string> {
    AccountOf(o, IssuerRun(o, tape))
  }

  /** The n low nibbles of x, lowest first, as hexadecimal digits. */
  function Nibbles(x: nat, n: nat): (s: string)
    ensures |s| == n
  {
    if n == 0 then "" else Nibbles(x, n - 1) + [HEX[x / Pow(16, n - 1) % 16]]
  }

  /** A regional code in two hexadecimal digits. */
  function Regional(rr: nat): (s: string)
    requires 0xa0 <= rr < 0x100
    ensures |s| == 2
  {
    [HEX[rr / 16], HEX[rr % 16]]
  }

  /** One word gives the regional code and all the nibbles. */
  function MeidRun(tape: seq<Word>): Run<string> {
    match Number.Bounded(0x60, tape)
    case None => None
    case Some((v, rest)) => Some((Regional(v + 0xa0) + Nibbles(tape[0], 12), rest))
  }

  // ---------- digit facts ----------

  predicate Codes(table: seq<string>) {
    forall i | 0 <= i < |table| :: 1 <= |table[i]| <= 3 && AllDigits(table[i])
  }

  lemma FirstRowsAreCodes()
    ensures Codes(CODES_0) && Codes(CODES_1) && Codes(CODES_2) && Codes(CODES_3)
  {
  }

  lemma LastRowsAreCodes()
    ensures Codes(CODES_4) && Codes(CODES_5) && Codes(CODES_6) && Codes(CODES_7)
  {
  }

  lemma CodesConcat(s: seq<string>, t: seq<string>)
    requires Codes(s) && Codes(t)
    ensures Codes(s + t)
  {
  }

  lemma CountryCodes()
    ensures Codes(COUNTRY_CODES)
  {
    FirstRowsAreCodes();
    LastRowsAreCodes();
    hide Codes;
    CodesConcat(CODES_0, CODES_1);
    CodesConcat(CODES_0 + CODES_1, CODES_2);
    CodesConcat(CODES_0 + CODES_1 + CODES_2, CODES_3);
    CodesConcat(CODES_0 + CODES_1 + CODES_2 + CODES_3, CODES_4);
    CodesConcat(CODES_0 + CODES_1 + CODES_2 + CODES_3 + CODES_4, CODES_5);
    CodesConcat(CODES_0 + CODES_1 + CODES_2 + CODES_3 + CODES_4 + CODES_5, CODES_6);
    CodesConcat(CODES_0 + CODES_1 + CODES_2 + CODES_3 + CODES_4 + CODES_5 + CODES_6, CODES_7);
  }

  lemma ReportingBodies(i: nat)
    requires i < |REPORTING_BODY_IDS|
    ensures |REPORTING_BODY_IDS[i]| == 2 && AllDigits(REPORTING_BODY_IDS[i])
  {
  }

  lemma RandomDigitsAppends(out: string, n: nat, tape: seq<Word>)
    requires AllDigits(out)
    ensures var r := RandomDigits(out, n, tape);
      r.Some? ==> out <= r.value.0 && |r.value.0| == |out| + n && AllDigits(r.value.0)
  {
    KeepsPrefix(out, n, tape);
    var r := RandomDigits(out, n, tape);
    if r.Some? {
      assert r.value.0 == out + r.value.0[|out|..];
    }
  }

  // ---------- well-formed identifiers ----------

  /** The Type Allocation Code respects the options. */
  predicate TacOk(o: TelecomOptions, s: string)
    requires |s| >= 8
  {
    if o.tac != "" then s[..8] == o.tac
    else if o.test then s[..2] == "00"
    else s[..2] in REPORTING_BODY_IDS
  }

  /** The major industry identifier 89 and the requested or a known issuer. */
  predicate IssuerOk(o: TelecomOptions, s: string)
    requires |s| >= 2
  {
    && s[..2] == "89"
    && if o.iin != "" then o.iin <= s
       else exists i | 0 <= i < |COUNTRY_CODES| :: COUNTRY_CODES[i] <= s[2..]
  }

  predicate IsHex(c: char) { '0' <= c <= '9' || 'A' <= c <= 'F' }

  predicate WellFormed(kind: TelecomKind, o: TelecomOptions, s: string) {
    match kind
    case IMEISV =>
      |s| == 16 && AllDigits(s) && TacOk(o, s) && s[14..] != "99" && (o.svn != "" ==> s[14..] == o.svn)
    case ICCID =>
      |s| == IccidLength(o) && 18 <= |s| && ValidNumber(s) && IssuerOk(o, s)
    case MEID =>
      |s| == 14 && (forall i | 0 <= i < |s| :: IsHex(s[i])) && 'A' <= s[0] <= 'F'
    case _ =>
      |s| == 15 && ValidNumber(s) && TacOk(o, s)
  }

  lemma TacDigits(o: TelecomOptions, tape: seq<Word>)
    requires ValidTac(o)
    ensures var r := Result(TacRun(o, tape));
      r.Some? ==> |r.value| == 8 && AllDigits(r.value) && TacOk(o, r.value)
  {
    if o.tac != "" {
    } else if o.test {
      RandomDigitsAppends("00", 6, tape);
    } else {
      match Number.Bounded(|REPORTING_BODY_IDS|, tape)
      case None =>
      case Some((i, rest)) =>
        ReportingBodies(i);
        RandomDigitsAppends(REPORTING_BODY_IDS[i], 6, rest);
        var r := TacRun(o, tape);
        assert r.Some? ==> r.value.0[..2] == REPORTING_BODY_IDS[i];
    }
  }

  lemma EquipmentDigits(o: TelecomOptions, tape: seq<Word>)
    requires ValidTac(o)
    ensures var r := Result(EquipmentRun(o, tape));
      r.Some? ==> |r.value| == 14 && AllDigits(r.value) && TacOk(o, r.value)
  {
    TacDigits(o, tape);
    match TacRun(o, tape)
    case None =>
    case Some((tac, rest)) =>
      RandomDigitsAppends(tac, 6, rest);
      TacPrefix(o, tac, EquipmentRun(o, tape));
  }

  lemma TacPrefix(o: TelecomOptions, tac: string, run: Run<string>)
    requires |tac| == 8 && TacOk(o, tac) && (run.Some? ==> tac <= run.value.0)
    ensures run.Some? ==> TacOk(o, run.value.0)
  {
    hide REPORTING_BODY_IDS;
    if run.Some? {
      assert run.value.0[..8] == tac[..8] && run.value.0[..2] == tac[..2];
    }
  }

  lemma AccountDigits(o: TelecomOptions, tape: seq<Word>)
    requires ValidOptions(ICCID, o)
    ensures var r := Result(AccountRun(o, tape));
      r.Some? ==> |r.value| == IccidLength(o) - 1 && AllDigits(r.value) && IssuerOk(o, r.value)
  {
    IssuerDigits(o, tape);
    assert IccidLength(o) >= 18;
    hide IssuerRun, IssuerOk, AccountOf, ValidOptions;
    AccountFrom(o, IssuerRun(o, tape));
  }

  lemma AccountFrom(o: TelecomOptions, issuer: Run<string>)
    requires IccidLength(o) >= 18
    requires var r := Result(issuer); r.Some? ==> 2 <= |r.value| <= 7 && AllDigits(r.value) && IssuerOk(o, r.value)
    ensures var r := Result(AccountOf(o, issuer));
      r.Some? ==> |r.value| == IccidLength(o) - 1 && AllDigits(r.value) && IssuerOk(o, r.value)
  {
    hide IssuerOk, RandomDigits;
    if issuer.Some? {
      var (iin, rest) := issuer.value;
      RandomDigitsAppends(iin, IccidLength(o) - 1 - |iin|, rest);
      var r := Result(AccountOf(o, issuer));
      if r.Some? {
        IssuerPrefix(o, iin, r.value);
      }
    }
  }

  lemma IssuerDigits(o: TelecomOptions, tape: seq<Word>)
    requires ValidOptions(ICCID, o)
    ensures var r := Result(IssuerRun(o, tape));
      r.Some? ==> 2 <= |r.value| <= 7 && AllDigits(r.value) && IssuerOk(o, r.value)
  {
    CountryCodes();
    if o.iin == "" && Number.Bounded(|COUNTRY_CODES|, tape).Some? {
      var i := Number.Bounded(|COUNTRY_CODES|, tape).value.0;
      assert ("89" + COUNTRY_CODES[i])[2..] == COUNTRY_CODES[i];
    }
  }

  lemma IssuerPrefix(o: TelecomOptions, iin: string, s: string)
    requires 2 <= |iin| && iin <= s && IssuerOk(o, iin)
    ensures IssuerOk(o, s)
  {
    hide COUNTRY_CODES;
    assert s[..2] == iin[..2] && iin[2..] <= s[2..];
  }

  lemma CheckDigitCompletes(s: string)
    requires AllDigits(s)
    ensures ValidNumber(WithCheckDigit(s)) && s <= WithCheckDigit(s) && |WithCheckDigit(s)| == |s| + 1
  {
    ValuesSnoc(s, CheckDigit(Values(s)));
    CheckDigitUnique(Values(s), CheckDigit(Values(s)));
  }

  /** A payload of digits followed by its check digit. */
  function Checked(run: Run<string>): Run<string>
    requires run.Some? ==> AllDigits(run.value.0)
  {
    match run
    case None => None
    case Some((s, rest)) => Some((WithCheckDigit(s), rest))
  }

  /** The identifier of a kind. */
  function IdentifierRun(kind: TelecomKind, o: TelecomOptions, tape: seq<Word>): Run<string>
    requires ValidOptions(kind, o)
  {
    match kind
    case IMEISV => ImeisvRun(o, tape)
    case ICCID => AccountDigits(o, tape); Checked(AccountRun(o, tape))
    case MEID => MeidRun(tape)
    case _ => EquipmentDigits(o, tape); Checked(EquipmentRun(o, tape))
  }

  lemma HexDigits(d: nat)
    requires d < 16
    ensures IsHex(HEX[d]) && (d >= 10 ==> 'A' <= HEX[d] <= 'F')
  {
  }

  lemma {:induction false} NibblesAreHex(x: nat, n: nat)
    ensures forall i | 0 <= i < n :: IsHex(Nibbles(x, n)[i])
  {
    if n > 0 {
      HexDigits(x / Pow(16, n - 1) % 16);
      NibblesAreHex(x, n - 1);
    }
  }

  lemma MeidOk(tape: seq<Word>)
    ensures var r := Result(MeidRun(tape));
      r.Some? ==> |r.value| == 14 && (forall i | 0 <= i < |r.value| :: IsHex(r.value[i])) && 'A' <= r.value[0] <= 'F'
  {
    hide HEX, IsHex, Nibbles;
    match Number.Bounded(0x60, tape)
    case None =>
    case Some((v, _)) =>
      NibblesAreHex(tape[0], 12);
      HexDigits((v + 0xa0) / 16);
      HexDigits((v + 0xa0) % 16);
  }

  // ---------- reading identifiers back ----------

  /** The value of a hexadecimal digit. */
  function HexValue(c: char): int {
    if '0' <= c <= '9' then c as int - '0' as int
    else if 'A' <= c <= 'F' then c as int - 'A' as int + 10
    else -1
  }

  /** Hexadecimal digits read with the lowest one first. */
  function LowestFirst(s: string): int {
    if s == "" then 0 else LowestFirst(s[..|s| - 1]) + Pow(16, |s| - 1) * HexValue(s[|s| - 1])
  }

  lemma HexReadsBack(d: nat)
    requires d < 16
    ensures HexValue(HEX[d]) == d
  {
  }

  lemma {:induction false} NibblesReadBack(x: nat, n: nat)
    ensures LowestFirst(Nibbles(x, n)) == x % Pow(16, n)
  {
    if n > 0 {
      var p, d := Pow(16, n - 1), x / Pow(16, n - 1) % 16;
      NibblesReadBack(x, n - 1);
      HexReadsBack(d);
      hide HEX, HexValue;
      assert Nibbles(x, n)[..n - 1] == Nibbles(x, n - 1);
      LowDigits(x, p);
    }
  }

  lemma LowDigits(x: nat, p: nat)
    requires p > 0
    ensures x % (16 * p) == x % p + p * (x / p % 16)
  {
    var q := x / p;
    DivBounds(x, p);
    DivBounds(q, 16);
    assert q * p == (q / 16) * (16 * p) + p * (q % 16);
    MulOrder(q % 16 + 1, 16, p);
    MulSucc(q % 16, p);
    assert p * (q % 16) == (q % 16) * p;
    DivModUnique(x, 16 * p, q / 16, p * (q % 16) + x % p);
  }

  /** An MEID spells, in two digits, 0xa0 and the bounded value of the words, and
      then the low twelve hexadecimal digits of the first word, lowest first. */
  lemma MeidReadsBack(tape: seq<Word>)
    ensures var r := Result(MeidRun(tape));
      && (r.Some? <==> Number.Bounded(0x60, tape).Some?)
      && (r.Some? ==>
            && |r.value| == 14
            && 16 * HexValue(r.value[0]) + HexValue(r.value[1]) == 0xa0 + Number.Bounded(0x60, tape).value.0
            && LowestFirst(r.value[2..]) == tape[0] % 0x1_0000_0000_0000)
  {
    if Number.Bounded(0x60, tape).Some? {
      MeidParts(Number.Bounded(0x60, tape).value.0 + 0xa0, tape[0]);
    }
    hide HEX, HexValue, LowestFirst, Nibbles, Number.Bounded, Regional;
  }

  lemma MeidParts(rr: nat, x: Word)
    requires 0xa0 <= rr < 0x100
    ensures var s := Regional(rr) + Nibbles(x, 12);
      && 16 * HexValue(s[0]) + HexValue(s[1]) == rr
      && LowestFirst(s[2..]) == x % 0x1_0000_0000_0000
  {
    HexReadsBack(rr / 16);
    HexReadsBack(rr % 16);
    NibblesReadBack(x, 12);
    TwelveDigits();
    hide HEX, HexValue, LowestFirst, Nibbles, Pow;
    assert (Regional(rr) + Nibbles(x, 12))[2..] == Nibbles(x, 12);
  }

  lemma TwelveDigits()
    ensures Pow(16, 12) == 0x1_0000_0000_0000
  {
    PowAdds(16, 6, 6);
    PowAdds(16, 3, 3);
    assert Pow(16, 1) == 16 && Pow(16, 2) == 256 && Pow(16, 3) == 4096;
  }

  /** The drawn version of an IMEISV is spelled in two decimal digits after the
      equipment digits. */
  lemma VersionReadsBack(o: TelecomOptions, tape: seq<Word>) returns (version: string)
    requires ValidTac(o) && o.svn == "" && ImeisvRun(o, tape).Some?
    ensures EquipmentRun(o, tape).Some? && Number.Bounded(99, EquipmentRun(o, tape).value.1).Some?
    ensures var (s, rest) := EquipmentRun(o, tape).value;
      var (v, left) := Number.Bounded(99, rest).value;
      && |version| == 2 && AllDigits(version) && ReadBack(version) == v
      && ImeisvRun(o, tape) == Some((s + version, left))
  {
    hide EquipmentRun, Number.Bounded;
    var (s, rest) := EquipmentRun(o, tape).value;
    var v := Number.Bounded(99, rest).value.0;
    version := TwoDigits(v);
    TwoDigitsReadBack(v);
  }

  lemma TwoDigitsReadBack(v: nat)
    requires v < 100
    ensures |TwoDigits(v)| == 2 && AllDigits(TwoDigits(v)) && ReadBack(TwoDigits(v)) == v
  {
    var s := TwoDigits(v);
    assert s[..1] == [s[0]];
    assert ReadBack([s[0]]) == 10 * ReadBack("") + DigitValue(s[0]) by {
      assert [s[0]][..0] == "";
    }
    assert ReadBack(s) == 10 * ReadBack(s[..1]) + DigitValue(s[1]);
  }

  /** A drawn allocation code starts with the reporting body that the bounded
      value of the words picks. */
  lemma DrawnBody(o: TelecomOptions, tape: seq<Word>)
    requires ValidTac(o) && o.tac == "" && !o.test && EquipmentRun(o, tape).Some?
    ensures Number.Bounded(14, tape).Some?
    ensures REPORTING_BODY_IDS[Number.Bounded(14, tape).value.0] <= EquipmentRun(o, tape).value.0
  {
    DrawnTac(o, tape);
    var (tac, more) := TacRun(o, tape).value;
    KeepsPrefix(tac, 6, more);
    hide RandomDigits, REPORTING_BODY_IDS, Number.Bounded, TacRun;
  }

  lemma DrawnTac(o: TelecomOptions, tape: seq<Word>)
    requires ValidTac(o) && o.tac == "" && !o.test && TacRun(o, tape).Some?
    ensures Number.Bounded(14, tape).Some?
    ensures REPORTING_BODY_IDS[Number.Bounded(14, tape).value.0] <= TacRun(o, tape).value.0
  {
    var (i, rest) := Number.Bounded(14, tape).value;
    KeepsPrefix(REPORTING_BODY_IDS[i], 6, rest);
  }

  /** A drawn issuer is 89 and the country code that the bounded value picks. */
  lemma DrawnCountry(o: TelecomOptions, tape: seq<Word>)
    requires ValidOptions(ICCID, o) && o.iin == "" && AccountRun(o, tape).Some?
    ensures |COUNTRY_CODES| == 95 && Number.Bounded(95, tape).Some?
    ensures "89" + COUNTRY_CODES[Number.Bounded(95, tape).value.0] <= AccountRun(o, tape).value.0
  {
    DrawnIssuer(o, tape);
    var (iin, rest) := IssuerRun(o, tape).value;
    KeepsPrefix(iin, IccidLength(o) - 1 - |iin|, rest);
    hide COUNTRY_CODES, RandomDigits, Number.Bounded, IssuerRun;
  }

  lemma DrawnIssuer(o: TelecomOptions, tape: seq<Word>)
    requires o.iin == ""
    ensures |COUNTRY_CODES| == 95
    ensures IssuerRun(o, tape)
         == match Number.Bounded(95, tape)
            case None => None
            case Some((i, rest)) => Some(("89" + COUNTRY_CODES[i], rest))
  {
    hide Number.Bounded;
  }

  /** A card number has 19 digits unless the options ask for 18 to 20. */
  lemma CardLength(o: TelecomOptions, tape: seq<Word>)
    requires ValidOptions(ICCID, o)
    ensures o.length in {0, 18, 19, 20}
    ensures var r := Result(IdentifierRun(ICCID, o, tape));
      r.Some? ==> |r.value| == if o.length == 0 then 19 else o.length
  {
    IdentifierOk(ICCID, o, tape);
  }

  /** Every finished run yields a well-formed identifier. */
  lemma IdentifierOk(kind: TelecomKind, o: TelecomOptions, tape: seq<Word>)
    requires ValidOptions(kind, o)
    ensures var r := Result(IdentifierRun(kind, o, tape));
      r.Some? ==> WellFormed(kind, o, r.value)
  {
    match kind
    case MEID => MeidOk(tape);
    case ICCID =>
      AccountDigits(o, tape);
      var r := Result(AccountRun(o, tape));
      if r.Some? {
        CheckDigitCompletes(r.value);
        assert WithCheckDigit(r.value)[2..][..|r.value| - 2] == r.value[2..];
      }
    case IMEISV => ImeisvOk(o, tape);
    case _ =>
      EquipmentDigits(o, tape);
      var r := Result(EquipmentRun(o, tape));
      if r.Some? {
        CheckDigitCompletes(r.value);
        assert WithCheckDigit(r.value)[..8] == r.value[..8] && WithCheckDigit(r.value)[..2] == r.value[..2];
      }
  }

  lemma ImeisvOk(o: TelecomOptions, tape: seq<Word>)
    requires ValidOptions(IMEISV, o)
    ensures var r := Result(ImeisvRun(o, tape));
      r.Some? ==> WellFormed(IMEISV, o, r.value)
  {
    EquipmentDigits(o, tape);
    var r, s := Result(ImeisvRun(o, tape)), Result(EquipmentRun(o, tape));
    if r.Some? {
      assert r.value[..14] == s.value;
      assert r.value[..8] == s.value[..8] && r.value[..2] == s.value[..2];
    }
  }

  // ---------- Append ----------

  /** Prepending dst changes nothing else about a run of digits. */
  lemma {:induction false} DigitsShift(dst: string, out: string, n: int, tape: seq<Word>)
    ensures RandomDigits(dst + out, n, tape)
         == match RandomDigits(out, n, tape)
            case None => None
            case Some((s, rest)) => Some((dst + s, rest))
    decreases |tape|
  {
    if n > 0 && tape != [] {
      match DrawChunk(Take(n), tape[0])
      case None => DigitsShift(dst, out, n, tape[1..]);
      case Some(chunk) =>
        assert dst + out + chunk == dst + (out + chunk);
        DigitsShift(dst, out + chunk, n - Take(n), tape[1..]);
    }
  }

  /** A run of out with dst in front of it. */
  predicate Appended(dst: string, run: Run<string>, r: Option<string>, left: seq<Word>) {
    match run
    case None => r == None && left == []
    case Some((s, rest)) => r == Some(dst + s) && left == rest
  }

  method AppendTac(dst: string, o: TelecomOptions, p: Tape) returns (r: Option<string>, ok: bool)
    modifies p
    ensures ok <==> ValidTac(o)
    ensures !ok ==> r == Some(dst) && p.words == old(p.words)
    ensures ok ==> Appended(dst, TacRun(o, old(p.words)), r, p.words)
  {
    if o.tac != "" {
      ok := IsDigits(o.tac, 8, 8);
      return Some(if ok then dst + o.tac else dst), ok;
    }
    ok := true;
    if o.test {
      DigitsShift(dst, "00", 6, p.words);
      r := AppendRandomDigits(dst + ['0', '0'], 6, p);
    } else {
      var i := Number.UniformUint64n(|REPORTING_BODY_IDS|, p);
      if i == None {
        return None, true;
      }
      DigitsShift(dst, REPORTING_BODY_IDS[i.value], 6, p.words);
      r := AppendRandomDigits(dst + REPORTING_BODY_IDS[i.value], 6, p);
    }
  }

  /** appendTAC and the six digits of the serial number. */
  method AppendEquipment(dst: string, o: TelecomOptions, p: Tape) returns (r: Option<string>, ok: bool)
    modifies p
    ensures ok <==> ValidTac(o)
    ensures !ok ==> r == Some(dst) && p.words == old(p.words)
    ensures ok ==> Appended(dst, EquipmentRun(o, old(p.words)), r, p.words)
  {
    ghost var run := if ValidTac(o) then TacRun(o, p.words) else None;
    r, ok := AppendTac(dst, o, p);
    if ok && r != None {
      DigitsShift(dst, run.value.0, 6, p.words);
      r := AppendRandomDigits(r.value, 6, p);
    }
  }

  /** The Luhn check digit of out[offset..], appended. */
  method AppendCheckDigit(dst: string, ghost s: string, out: string) returns (r: string)
    requires out == dst + s && AllDigits(s)
    ensures r == dst + WithCheckDigit(s)
  {
    assert out[|dst|..] == s;
    var c := LuhnCheckDigit(out[|dst|..]);
    r := out + [c];
  }

  method AppendImei(dst: string, o: TelecomOptions, p: Tape) returns (r: Option<string>)
    modifies p
    ensures !ValidTac(o) ==> r == Some(dst) && p.words == old(p.words)
    ensures ValidTac(o) ==> Appended(dst, IdentifierRun(IMEI, o, old(p.words)), r, p.words)
  {
    ghost var run := if ValidTac(o) then EquipmentRun(o, p.words) else None;
    var out, ok := AppendEquipment(dst, o, p);
    if !ok || out == None {
      return out;
    }
    EquipmentDigits(o, old(p.words));
    var id := AppendCheckDigit(dst, run.value.0, out.value);
    r := Some(id);
  }

  method AppendImeisv(dst: string, o: TelecomOptions, p: Tape) returns (r: Option<string>)
    modifies p
    ensures !ValidOptions(IMEISV, o) ==> r == Some(dst) && p.words == old(p.words)
    ensures ValidOptions(IMEISV, o) ==> Appended(dst, ImeisvRun(o, old(p.words)), r, p.words)
  {
    var svn := IsDigits(o.svn, 2, 2);
    if (!svn || o.svn == "99") && o.svn != "" {
      return Some(dst);
    }
    ghost var run := if ValidTac(o) then EquipmentRun(o, p.words) else None;
    var out, ok := AppendEquipment(dst, o, p);
    if !ok || out == None {
      return out;
    }
    hide EquipmentRun;
    assert forall t: string {:trigger dst + (run.value.0 + t)} :: out.value + t == dst + (run.value.0 + t);
    if o.svn != "" {
      return Some(out.value + o.svn);
    }
    var v := Number.UniformUint64n(99, p);
    if v == None {
      return None;
    }
    r := Some(out.value + TwoDigits(v.value));
  }

  method AppendIccid(dst: string, o: TelecomOptions, p: Tape) returns (r: Option<string>)
    modifies p
    ensures !ValidOptions(ICCID, o) ==> r == Some(dst) && p.words == old(p.words)
    ensures ValidOptions(ICCID, o) ==> Appended(dst, IdentifierRun(ICCID, o, old(p.words)), r, p.words)
  {
    var length := if o.length == 0 then 19 else o.length;
    if length < 18 || length > 20 {
      return Some(dst);
    }
    if o.iin != "" {
      var digits := IsDigits(o.iin, 3, 7);
      if !digits || o.iin[0] != '8' || o.iin[1] != '9' {
        return Some(dst);
      }
      assert o.iin[..2] == "89";
    }
    assert ValidOptions(ICCID, o);
    ghost var tape := p.words;
    var account := AppendAccount(dst, o, length, p);
    if account == None {
      return None;
    }
    AccountDigits(o, tape);
    var id := AppendCheckDigit(dst, AccountRun(o, tape).value.0, account.value);
    r := Some(id);
  }

  /** The issuer prefix and digits up to the check digit. */
  method AppendAccount(dst: string, o: TelecomOptions, length: int, p: Tape) returns (r: Option<string>)
    requires length == IccidLength(o)
    modifies p
    ensures Appended(dst, AccountRun(o, old(p.words)), r, p.words)
  {
    ghost var run := IssuerRun(o, p.words);
    var out := AppendIssuer(dst, o, p);
    if out == None {
      return None;
    }
    hide IssuerRun;
    var left := |dst| + length - 1 - |out.value|;
    DigitsShift(dst, run.value.0, left, p.words);
    r := AppendRandomDigits(out.value, left, p);
  }

  method AppendIssuer(dst: string, o: TelecomOptions, p: Tape) returns (r: Option<string>)
    modifies p
    ensures Appended(dst, IssuerRun(o, old(p.words)), r, p.words)
  {
    if o.iin != "" {
      return Some(dst + o.iin);
    }
    var out := dst + ['8', '9'];
    var i := Number.UniformUint64n(|COUNTRY_CODES|, p);
    if i == None {
      return None;
    }
    hide COUNTRY_CODES;
    assert out + COUNTRY_CODES[i.value] == dst + ("89" + COUNTRY_CODES[i.value]);
    r := Some(out + COUNTRY_CODES[i.value]);
  }

  method AppendMeid(dst: string, p: Tape) returns (r: Option<string>)
    modifies p
    ensures Appended(dst, MeidRun(old(p.words)), r, p.words)
  {
    ghost var tape := p.words;
    var x := p.Sum64();
    if x == None {
      return None;
    }
    assert tape == [x.value] + p.words;
    var v := Number.BoundedFrom(x.value, 0x60, p);
    if v == None {
      return None;
    }
    var rr := v.value + 0xa0;
    var out := dst + [HEX[rr / 16], HEX[rr % 16]];
    assert out == dst + Regional(rr);
    for i := 0 to 12
      invariant out == dst + (Regional(rr) + Nibbles(x.value, i))
    {
      hide HEX, Regional, Pow;
      out := out + [HEX[x.value / Pow(16, i) % 16]];
      assert out == dst + (Regional(rr) + (Nibbles(x.value, i) + [HEX[x.value / Pow(16, i) % 16]]));
    }
    r := Some(out);
  }

  /** dst is returned unchanged, without a draw, exactly for invalid options;
      otherwise an identifier of the kind is appended to it. */
  method Append(dst: string, kind: TelecomKind, o: TelecomOptions, p: Tape) returns (r: Option<string>)
    modifies p
    ensures !ValidOptions(kind, o) ==> r == Some(dst) && p.words == old(p.words)
    ensures ValidOptions(kind, o) ==> Appended(dst, IdentifierRun(kind, o, old(p.words)), r, p.words)
    ensures ValidOptions(kind, o) && r.Some? ==> dst <= r.value && WellFormed(kind, o, r.value[|dst|..])
  {
    match kind {
      case IMEISV => r := AppendImeisv(dst, o, p);
      case ICCID => r := AppendIccid(dst, o, p);
      case MEID => r := AppendMeid(dst, p);
      case _ => r := AppendImei(dst, o, p);
    }
    if ValidOptions(kind, o) && r.Some? {
      IdentifierOk(kind, o, old(p.words));
      assert r.value[|dst|..] == Result(IdentifierRun(kind, o, old(p.words))).value;
    }
  }

  // ---------- uniformity ----------

  /** The identifiers of one kind as a generator. */
  function Identifiers(kind: TelecomKind, o: TelecomOptions): seq<Word> -> Option<string>
    requires ValidOptions(kind, o)
  {
    (tape: seq<Word>) => Result(IdentifierRun(kind, o, tape))
  }

  lemma ImeiFromSerial(o: TelecomOptions, id: string, tape: seq<Word>)
    requires ValidTac(o) && o.tac != "" && WellFormed(IMEI, o, id)
    ensures Result(IdentifierRun(IMEI, o, tape)) == Some(id) <==> DigitsValue(o.tac, 6, tape) == Some(id[..14])
  {
    EquipmentDigits(o, tape);
    var r := Result(EquipmentRun(o, tape));
    assert id == id[..14] + [id[14]];
    ValidDetermined(id[..14], id[14]);
    if r.Some? {
      assert WithCheckDigit(r.value)[..14] == r.value;
    }
  }

  lemma ValidDetermined(s: string, c: char)
    requires ValidNumber(s + [c])
    ensures AllDigits(s) && s + [c] == WithCheckDigit(s)
  {
    assert IsDigit((s + [c])[|s|]);
    assert forall i | 0 <= i < |s| :: s[i] == (s + [c])[i];
    assert c == DigitChar(DigitValue(c));
    ValuesSnoc(s, DigitValue(c));
    CheckDigitUnique(Values(s), DigitValue(c));
  }

  /** All valid IMEIs with a given Type Allocation Code are equally likely. */
  lemma ImeiUniform(o: TelecomOptions, id: string, t: nat)
    requires ValidTac(o) && o.tac != "" && WellFormed(IMEI, o, id)
    ensures |Outcomes(Identifiers(IMEI, o), t, id)| == DigitsWays(6, t)
  {
    var f, g, payload := Identifiers(IMEI, o), DigitsAfter(o.tac, 6), id[..14];
    forall tape: seq<Word>
      ensures f(tape) == Some(id) <==> g(tape) == Some(payload)
    {
      ImeiFromSerial(o, id, tape);
    }
    assert Outcomes(f, t, id) == Outcomes(g, t, payload);
    assert payload[..8] == id[..8];
    assert AllDigits(payload[8..]) by {
      assert forall i | 0 <= i < 6 :: payload[8..][i] == id[8 + i];
    }
    DigitsUniform(o.tac, payload, t);
  }

  lemma IccidFromAccount(o: TelecomOptions, id: string, tape: seq<Word>)
    requires ValidOptions(ICCID, o) && o.iin != "" && WellFormed(ICCID, o, id)
    ensures var n := IccidLength(o) - 1;
      Result(IdentifierRun(ICCID, o, tape)) == Some(id) <==> DigitsValue(o.iin, n - |o.iin|, tape) == Some(id[..n])
  {
    AccountDigits(o, tape);
    var r, n := Result(AccountRun(o, tape)), IccidLength(o) - 1;
    assert id == id[..n] + [id[n]];
    ValidDetermined(id[..n], id[n]);
    if r.Some? {
      assert WithCheckDigit(r.value)[..n] == r.value;
    }
  }

  /** All valid ICCIDs with a given issuer identifier are equally likely. */
  lemma IccidUniform(o: TelecomOptions, id: string, t: nat)
    requires ValidOptions(ICCID, o) && o.iin != "" && WellFormed(ICCID, o, id)
    ensures |Outcomes(Identifiers(ICCID, o), t, id)| == DigitsWays(IccidLength(o) - 1 - |o.iin|, t)
  {
    var n := IccidLength(o) - 1;
    var f, g, payload := Identifiers(ICCID, o), DigitsAfter(o.iin, n - |o.iin|), id[..n];
    forall tape: seq<Word>
      ensures f(tape) == Some(id) <==> g(tape) == Some(payload)
    {
      IccidFromAccount(o, id, tape);
    }
    assert Outcomes(f, t, id) == Outcomes(g, t, payload);
    assert o.iin <= payload;
    assert AllDigits(payload[|o.iin|..]) by {
      assert forall i | 0 <= i < n - |o.iin| :: payload[|o.iin|..][i] == id[|o.iin| + i];
    }
    DigitsUniform(o.iin, payload, t);
  }

  lemma ImeisvFromSerial(o: TelecomOptions, id: string, tape: seq<Word>)
    requires ValidOptions(IMEISV, o) && o.tac != "" && o.svn != "" && WellFormed(IMEISV, o, id)
    ensures Result(IdentifierRun(IMEISV, o, tape)) == Some(id) <==> DigitsValue(o.tac, 6, tape) == Some(id[..14])
  {
    EquipmentDigits(o, tape);
    var r := Result(EquipmentRun(o, tape));
    assert id == id[..14] + o.svn;
    if r.Some? {
      assert (r.value + o.svn)[..14] == r.value;
    }
  }

  /** All IMEISVs with a given Type Allocation Code and version are equally
      likely. */
  lemma ImeisvUniform(o: TelecomOptions, id: string, t: nat)
    requires ValidOptions(IMEISV, o) && o.tac != "" && o.svn != "" && WellFormed(IMEISV, o, id)
    ensures |Outcomes(Identifiers(IMEISV, o), t, id)| == DigitsWays(6, t)
  {
    var f, g, payload := Identifiers(IMEISV, o), DigitsAfter(o.tac, 6), id[..14];
    forall tape: seq<Word>
      ensures f(tape) == Some(id) <==> g(tape) == Some(payload)
    {
      ImeisvFromSerial(o, id, tape);
    }
    assert Outcomes(f, t, id) == Outcomes(g, t, payload);
    SerialDigits(o, id);
    DigitsUniform(o.tac, payload, t);
  }

  lemma SerialDigits(o: TelecomOptions, id: string)
    requires |id| >= 14 && |o.tac| == 8 && o.tac == id[..8] && forall i | 0 <= i < 14 :: IsDigit(id[i])
    ensures o.tac <= id[..14] && AllDigits(id[..14][8..]) && AllDigits(id[8..14])
  {
    assert id[..14][..8] == id[..8];
    assert forall i | 0 <= i < 6 :: id[..14][8..][i] == id[8 + i];
  }

  // ---------- IMEISVs with a drawn version ----------

  /** The version drawn after the equipment digits s. */
  function VersionAfter(s: string): seq<Word> -> Option<string> {
    (tape: seq<Word>) =>
      match Number.BoundedValue(99, tape)
      case None => None
      case Some(v) => Some(s + TwoDigits(v))
  }

  /** How many tapes of t words give one serial number and one version. */
  function VersionedWays(t: nat): nat {
    if t == 0 then 0
    else Weigh(18 * Pow(10, 12), Number.BoundedWays(99, t - 1), TWO64 - BOUND, VersionedWays(t - 1))
  }

  /** The two digits as a number. */
  lemma VersionNumber(s: string, id: string, tape: seq<Word>) returns (u: int)
    requires |s| == 14 && |id| == 16 && s == id[..14] && IsDigit(id[14]) && IsDigit(id[15]) && id[14..] != "99"
    ensures 0 <= u < 99
    ensures forall v: nat | v < 99 :: s + TwoDigits(v) == id <==> v == u
  {
    var a: int, b: int := DigitValue(id[14]), DigitValue(id[15]);
    u := 10 * a + b;
    assert id[14..] == [id[14], id[15]];
    assert id == s + id[14..];
    forall v: nat | v < 99
      ensures s + TwoDigits(v) == id <==> v == u
    {
      assert (s + TwoDigits(v))[14..] == TwoDigits(v);
      DivModUnique(u, 10, a, b);
    }
  }

  lemma VersionedRun(o: TelecomOptions, w: Word, tape: seq<Word>)
    requires ValidTac(o) && o.tac != "" && o.svn == ""
    ensures Result(ImeisvRun(o, [w] + tape))
         == match DrawChunk(6, w)
            case None => Result(ImeisvRun(o, tape))
            case Some(part) => VersionAfter(o.tac + part)(tape)
  {
    SixDigits(o.tac, w, tape);
    hide RandomDigits, DrawChunk, Number.Bounded, TwoDigits;
  }

  lemma SixDigits(out: string, w: Word, tape: seq<Word>)
    ensures RandomDigits(out, 6, [w] + tape)
         == match DrawChunk(6, w)
            case None => RandomDigits(out, 6, tape)
            case Some(part) => Some((out + part, tape))
  {
    hide DrawChunk;
    assert ([w] + tape)[1..] == tape;
  }

  lemma VersionedWord(o: TelecomOptions, id: string, w: Word, tape: seq<Word>)
    requires ValidTac(o) && o.tac != "" && o.svn == "" && |id| == 16 && id[..8] == o.tac
    ensures DrawChunk(6, w) == Some(id[8..14]) ==> Result(ImeisvRun(o, [w] + tape)) == VersionAfter(id[..14])(tape)
    ensures DrawChunk(6, w) == None ==> Result(ImeisvRun(o, [w] + tape)) == Result(ImeisvRun(o, tape))
    ensures DrawChunk(6, w) != None && DrawChunk(6, w) != Some(id[8..14]) ==> Result(ImeisvRun(o, [w] + tape)) != Some(id)
  {
    VersionedRun(o, w, tape);
    hide ImeisvRun, DrawChunk;
    assert id[..14] == id[..8] + id[8..14];
    if DrawChunk(6, w).Some? {
      var part := DrawChunk(6, w).value;
      assert VersionAfter(o.tac + part)(tape) == Some(id) ==> id[..14] == o.tac + part;
      assert (o.tac + part)[8..] == part;
      assert id[..14][8..] == id[8..14];
    }
  }

  lemma VersionsUniform(id: string, t: nat)
    requires |id| == 16 && IsDigit(id[14]) && IsDigit(id[15]) && id[14..] != "99"
    ensures |Outcomes(VersionAfter(id[..14]), t, id)| == Number.BoundedWays(99, t)
  {
    var u := VersionNumber(id[..14], id, []);
    var f, g := VersionAfter(id[..14]), Number.Draw(99);
    forall tape: seq<Word>
      ensures f(tape) == Some(id) <==> g(tape) == Some(u)
    {
      var r := Number.Bounded(99, tape);
    }
    assert Outcomes(f, t, id) == Outcomes(g, t, u);
    Number.BoundedUniform(99, u, t);
  }

  lemma VersionedSplit(o: TelecomOptions, id: string, t: nat)
    requires ValidOptions(IMEISV, o) && o.tac != "" && o.svn == "" && WellFormed(IMEISV, o, id)
    ensures |Outcomes(Identifiers(IMEISV, o), t + 1, id)|
         == Weigh(|Fiber(Chunks(6), Some(id[8..14]))|, |Outcomes(VersionAfter(id[..14]), t, id)|,
                  |Fiber(Chunks(6), None)|, |Outcomes(Identifiers(IMEISV, o), t, id)|)
  {
    hide DrawChunk, ImeisvRun, VersionAfter;
    var f, g := Identifiers(IMEISV, o), VersionAfter(id[..14]);
    var a, b := Fiber(Chunks(6), Some(id[8..14])), Fiber(Chunks(6), None);
    forall w: Word, tape: seq<Word>
      ensures w in a ==> f([w] + tape) == g(tape)
      ensures w in b ==> f([w] + tape) == f(tape)
      ensures w !in a && w !in b ==> f([w] + tape) != Some(id)
    {
      VersionedWord(o, id, w, tape);
    }
    CountStep(f, t, id, a, g, b, f);
  }

  /** And so are all serial numbers and versions when the version is drawn. */
  lemma {:induction false} ImeisvVersionUniform(o: TelecomOptions, id: string, t: nat)
    requires ValidOptions(IMEISV, o) && o.tac != "" && o.svn == "" && WellFormed(IMEISV, o, id)
    ensures |Outcomes(Identifiers(IMEISV, o), t, id)| == VersionedWays(t)
  {
    hide Identifiers, VersionAfter, Chunks, Fiber, Outcomes, Number.BoundedWays, DrawChunk, Pow;
    if t == 0 {
      NoVersion(o, id);
    } else {
      ImeisvVersionUniform(o, id, t - 1);
      VersionedSplit(o, id, t - 1);
      SerialDigits(o, id);
      VersionsUniform(id, t - 1);
      ChunksExact(id[8..14]);
      ChunksReject(6);
    }
  }

  lemma NoVersion(o: TelecomOptions, id: string)
    requires ValidOptions(IMEISV, o) && o.tac != "" && o.svn == ""
    ensures |Outcomes(Identifiers(IMEISV, o), 0, id)| == 0
  {
    CountNone(Identifiers(IMEISV, o), 0, id);
  }
}
