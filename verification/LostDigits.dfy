/** Every base of the batch table that is no power of two loses a digit of 2^64
    early: checked base by base. */
module LostDigits {
  import opened Words

  /** floor(2^64 / n1^d) */
  function Share(n1: nat, d: nat): (q: nat)
    requires n1 > 0
    ensures q == TWO64 / Pow(n1, d)
  {
    assert TWO64 / Pow(n1, d) >= 0;
    TWO64 / Pow(n1, d)
  }

  /** Digit d of 2^64 in base n1, which a word of more than d digits loses. */
  predicate Lost(n1: nat, d: nat)
    requires n1 > 0
  {
    Share(n1, d) % n1 != 0
  }

  predicate IsBinaryByte(n: int) {
    n == 2 || n == 4 || n == 8 || n == 16 || n == 32 || n == 64 || n == 128
  }

  // ---------- floor(2^64 / n^3), the witness of each base ----------

  function Quotients3(n: int): int {
    match n
    case 3 => 683212743470724133 case 5 => 147573952589676412 case 6 => 85401592933840516
    case 7 => 53780594967083240 case 9 => 25304175684100893 case 10 => 18446744073709551
    case 11 => 13859311851021451 case 12 => 10675199116730064 case 13 => 8396333215161379
    case 14 => 6722574370885405 case 15 => 5465701947765793 case 18 => 3163021960512611
    case 19 => 2689421792347215 case 20 => 2305843009213693 case 21 => 1991873887669749
    case 22 => 1732413981377681 case 23 => 1516129207997826 case 24 => 1334399889591258
    case 25 => 1180591620717411 case 26 => 1049541651895172 case 27 => 937191692003736
    case 28 => 840321796360675 case 29 => 756355081131229 case 30 => 683212743470724
    case 31 => 619205265808786 case 33 => 513307846334127 case 34 => 469335031388905
    case 35 => 430244759736665
    case _ => 0
  }

  lemma Quotients3Witness(n: int)
    requires 3 <= n < 36 && !IsBinaryByte(n) && n != 17 && n != 53
    ensures n * n <= TWO64 - Quotients3(n) * (n * n * n) < n * n * n
  {
  }

  function Quotients36(n: int): int {
    match n
    case 36 => 395377745064076 case 37 => 364178707553541 case 38 => 336177724043401
    case 39 => 310975304265236 case 40 => 288230376151711 case 41 => 267650557503657
    case 42 => 248984235958718 case 43 => 232014087737048 case 44 => 216551747672210
    case 45 => 202433405472807 case 46 => 189516150999728 case 47 => 177674928230830
    case 48 => 166799986198907 case 49 => 156794737513362 case 50 => 147573952589676
    case 51 => 139062231522638 case 52 => 131192706486896 case 54 => 117148961500467
    case 55 => 110874494808171 case 56 => 105040224545084 case 57 => 99608214531378 case 58 => 94544385141403
    case 59 => 89818063549386 case 60 => 85401592933840 case 61 => 81269992086163 case 62 => 77400658226098
    case 63 => 73773106950731
    case _ => 0
  }

  lemma Quotients36Witness(n: int)
    requires 36 <= n < 64 && !IsBinaryByte(n) && n != 17 && n != 53
    ensures n * n <= TWO64 - Quotients36(n) * (n * n * n) < n * n * n
  {
  }

  function Quotients64(n: int): int {
    match n
    case 65 => 67170665721291 case 66 => 64163480791765 case 67 => 61333156251631 case 68 => 58666878923613
    case 69 => 56152933629549 case 70 => 53780594967083 case 71 => 51540031107480 case 72 => 49422218133009
    case 73 => 47418863632462 case 74 => 45522338444192 case 75 => 43725615582126 case 76 => 42022215505425
    case 77 => 40406157000062 case 78 => 38871913033154 case 79 => 37414371020770 case 80 => 36028797018963
    case 81 => 34710803407545 case 82 => 33456319687957 case 83 => 32261566061679 case 84 => 31123029494839
    case 85 => 30037442008889 case 86 => 29001760967131 case 87 => 28013151153008 case 88 => 27068968459026
    case 89 => 26166745025255 case 90 => 25304175684100 case 91 => 24479105583560 case 92 => 23689518874966
    case 93 => 22933528363288 case 94 => 22209366028853 case 95 => 21515374338777 case 96 => 20849998274863
    case 97 => 20211778012179 case 98 => 19599342189170 case 99 => 19011401716078 case 100 => 18446744073709
    case 101 => 17904228059285 case 102 => 17382778940329 case 103 => 16881383981277
    case 104 => 16399088310862 case 105 => 15934991101357 case 106 => 15488242033448
    case 107 => 15058038022918 case 108 => 14643620187558 case 109 => 14244271034632
    case 110 => 13859311851021 case 111 => 13488100279760
    case _ => 0
  }

  lemma Quotients64Witness(n: int)
    requires 64 <= n < 112 && !IsBinaryByte(n) && n != 17 && n != 53
    ensures n * n <= TWO64 - Quotients64(n) * (n * n * n) < n * n * n
  {
  }

  function Quotients112(n: int): int {
    match n
    case 112 => 13130028068135 case 113 => 12784518973779 case 114 => 12451026816422
    case 115 => 12129033663982 case 116 => 11818048142675 case 117 => 11517603861675
    case 118 => 11227257943673 case 119 => 10946589653385 case 120 => 10675199116730
    case 121 => 10412706123983 case 122 => 10158749010770 case 123 => 9912983611246 case 124 => 9675082278262
    case 125 => 9444732965739 case 126 => 9221638368841 case 127 => 9005515117880 case 129 => 8593114360631
    case 130 => 8396333215161 case 131 => 8205514845132 case 132 => 8020435098970 case 133 => 7840879861070
    case 134 => 7666644531453 case 135 => 7497533536029 case 136 => 7333359865451 case 137 => 7173944640704
    case 138 => 7019116703693 case 139 => 6868712231224 case 140 => 6722574370885 case 141 => 6580552897438
    case 142 => 6442503888435 case 143 => 6308289417852 case 144 => 6177777266626 case 145 => 6050840649049
    case 146 => 5927357954057 case 147 => 5807212500494 case 148 => 5690292305524 case 149 => 5576489865384
    case 150 => 5465701947765 case 151 => 5357829395105 case 152 => 5252776938178 case 153 => 5150453019356
    case 154 => 5050769625007 case 155 => 4953642126470 case 156 => 4858989129144 case 157 => 4766732329216
    case 158 => 4676796377596 case 159 => 4589108750651
    case _ => 0
  }

  lemma Quotients112Witness(n: int)
    requires 112 <= n < 160 && !IsBinaryByte(n) && n != 17 && n != 53
    ensures n * n <= TWO64 - Quotients112(n) * (n * n * n) < n * n * n
  {
  }

  function Quotients160(n: int): int {
    match n
    case 160 => 4503599627370 case 161 => 4420201772588 case 162 => 4338850425943 case 163 => 4259483196249
    case 164 => 4182039960994 case 165 => 4106462770673 case 166 => 4032695757709 case 167 => 3960685049716
    case 168 => 3890378686854 case 169 => 3821726543086 case 170 => 3754680251111 case 171 => 3689193130791
    case 172 => 3625220120891 case 173 => 3562717713947 case 174 => 3501643894126 case 175 => 3441958077893
    case 176 => 3383621057378 case 177 => 3326594946273 case 178 => 3270843128156 case 179 => 3216330207108
    case 180 => 3163021960512 case 181 => 3110885293929 case 182 => 3059888197945 case 183 => 3009999706894
    case 184 => 2961189859370 case 185 => 2913429660428 case 186 => 2866691045411 case 187 => 2820946845312
    case 188 => 2776170753606 case 189 => 2732337294471 case 190 => 2689421792347 case 191 => 2647400342760
    case 192 => 2606249784357 case 193 => 2565947672095 case 194 => 2526472251522 case 195 => 2487802434121
    case 196 => 2449917773646 case 197 => 2412798443412 case 198 => 2376425214509 case 199 => 2340779434876
    case 200 => 2305843009213 case 201 => 2271598379690 case 202 => 2238028507410 case 203 => 2205116854609
    case 204 => 2172847367541 case 205 => 2141204460029 case 206 => 2110172997659 case 207 => 2079738282575
    case _ => 0
  }

  lemma Quotients160Witness(n: int)
    requires 160 <= n < 208 && !IsBinaryByte(n) && n != 17 && n != 53
    ensures n * n <= TWO64 - Quotients160(n) * (n * n * n) < n * n * n
  {
  }

  function Quotients208(n: int): int {
    match n
    case 208 => 2049886038857 case 209 => 2020602398457 case 210 => 1991873887669 case 211 => 1963687414109
    case 212 => 1936030254181 case 213 => 1908890041017 case 214 => 1882254752864 case 215 => 1856112701896
    case 216 => 1830452523444 case 217 => 1805263165623 case 218 => 1780533879329 case 219 => 1756254208609
    case 220 => 1732413981377 case 221 => 1709003300460 case 222 => 1686012534970 case 223 => 1663432311983
    case 224 => 1641253508516 case 225 => 1619467243782 case 226 => 1598064871722 case 227 => 1577037973801
    case 228 => 1556378352052 case 229 => 1536078022363 case 230 => 1516129207997 case 231 => 1496524333335
    case 232 => 1477256017834 case 233 => 1458317070191 case 234 => 1439700482709 case 235 => 1421399425846
    case 236 => 1403407242959 case 237 => 1385717445213 case 238 => 1368323706673 case 239 => 1351219859545
    case 240 => 1334399889591 case 241 => 1317857931680 case 242 => 1301588265497 case 243 => 1285585311390
    case 244 => 1269843626346 case 245 => 1254357900106 case 246 => 1239122951405 case 247 => 1224133724327
    case 248 => 1209385284782 case 249 => 1194872817099 case 250 => 1180591620717 case 251 => 1166537106993
    case 252 => 1152704796105 case 253 => 1139090314047 case 254 => 1125689389735 case 255 => 1112497852181
    case _ => 0
  }

  lemma Quotients208Witness(n: int)
    requires 208 <= n < 256 && !IsBinaryByte(n) && n != 17 && n != 53
    ensures n * n <= TWO64 - Quotients208(n) * (n * n * n) < n * n * n
  {
  }

  function CubeQuotient(n: int): int {
    if n < 36 then Quotients3(n)
    else if n < 64 then Quotients36(n)
    else if n < 112 then Quotients64(n)
    else if n < 160 then Quotients112(n)
    else if n < 208 then Quotients160(n)
    else Quotients208(n)
  }

  lemma CubeQuotients(n: int)
    requires 2 < n < 256 && !IsBinaryByte(n) && n != 17 && n != 53
    ensures n * n <= TWO64 - CubeQuotient(n) * (n * n * n) < n * n * n
  {
    hide Quotients3, Quotients36, Quotients64, Quotients112, Quotients160, Quotients208;
    if n < 36 {
      Quotients3Witness(n);
    } else if n < 64 {
      Quotients36Witness(n);
    } else if n < 112 {
      Quotients64Witness(n);
    } else if n < 160 {
      Quotients112Witness(n);
    } else if n < 208 {
      Quotients160Witness(n);
    } else {
      Quotients208Witness(n);
    }
  }

  /** A remainder of at least n^2 under n^3 is a digit that is not zero. */
  lemma NonzeroDigit(n: nat, q: nat, r: nat, big: nat)
    requires n > 0 && big == q * (n * n * n) + r && n * n <= r < n * n * n
    ensures big / (n * n) % n != 0
  {
    var s := n * n;
    DivBelow(r, s, n);
    DivBelow(r, s, 1);
    DivBounds(r, s);
    assert (q * n) * s == q * (n * n * n);
    assert (q * n + r / s) * s == (q * n) * s + (r / s) * s;
    DivModUnique(big, s, q * n + r / s, r % s);
    DivModUnique(q * n + r / s, n, q, r / s);
  }

  lemma SmallPowers(n: nat)
    ensures Pow(n, 2) == n * n && Pow(n, 3) == n * (n * n)
  {
    assert Pow(n, 1) == n * Pow(n, 0);
    assert Pow(n, 2) == n * Pow(n, 1);
    assert Pow(n, 3) == n * Pow(n, 2);
  }

  /** Digit 2 is lost, or digit 3 for two bases. */
  lemma EveryBaseLoses(n: nat)
    requires 2 < n < 256 && !IsBinaryByte(n)
    ensures Lost(n, if n == 17 || n == 53 then 3 else 2)
  {
    SmallPowers(n);
    if n == 17 {
      assert TWO64 / 4913 % 17 != 0;
    } else if n == 53 {
      assert TWO64 / 148877 % 53 != 0;
    } else {
      CubeQuotients(n);
      hide CubeQuotient;
      QuotientPositive(n, CubeQuotient(n));
      NonzeroDigit(n, CubeQuotient(n), TWO64 - CubeQuotient(n) * (n * n * n), TWO64);
    }
  }

  lemma QuotientPositive(n: nat, q: int)
    requires 0 < n < 256 && TWO64 - q * (n * n * n) < n * n * n
    ensures q >= 0
  {
    if q < 0 {
      MulOrder(q, 0, n * n * n);
    }
  }
}
