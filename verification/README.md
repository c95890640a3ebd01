# Verified model of the randomizer library

The library turns uniformly random 64-bit words into strings, integers, telecom
identifiers, network addresses and other values. Its promises are mostly about
counting: every result is to be exactly as likely as any other, no matter how
many words are rejected on the way. This project models that arithmetic and the
stateful generators around it, and proves the promises for all inputs.

## How the model is built

* **Random words.** A provider is a tape of words (`Tapes.Tape`). Drawing a word
  takes the head of the tape; a tape that runs out stands for a run that has
  not finished yet. Each generator is a method that works on the tape in place,
  and a function from tapes to results that says what the method does.
* **Uniform** means counted: `Outcomes(f, t, v)` is the set of tapes of `t`
  words on which the generator `f` returns `v`, and `Fiber(h, v)` the set of
  single words that a sampler `h` sends to `v`. The theorems give the sizes of
  these sets, so equal sizes are equal probabilities, rejections included.
* **Words** are integers below 2^64 with explicit wrap-around in the sampling
  modules, and 64-bit vectors in `SplitMix`, `Provider`, `SharedCounter`, `Cidr`
  and `Netaddr`, where the source shifts and masks.
* **Concurrency.** `SharedCounter` and `RpaCache` are state machines whose steps
  are the single atomic actions of the callers; their theorems hold in every
  state that any sequence of steps reaches.

| file | content |
|---|---|
| `Words`, `Powers`, `Tapes`, `Halves` | words, multiply-and-shift sampling, counting of words and tapes |
| `Number` | Lemire's bounded integers and the interval generators |
| `Batch`, `Digits` | the batch table, and digits peeled by chained multiplications |
| `NoRepeat`, `NoRepeatRuns`, `NoRepeatUniform`, `NoRepeatCount` | the batched string sampler, what its runs write, its exact uniformity, how many strings it chooses from |
| `RepeatedSymbols`, `RepeatedWeights`, `LostDigits` | the batched sampler over dictionaries that repeat symbols: the words behind each outcome, and when the weights are kept |
| `Strings`, `Alphabets` | wide and custom dictionaries, the built-in alphabets |
| `SplitMix`, `Provider`, `SharedCounter` | the mixer, the seeded and the reader provider, concurrent callers |
| `Decimal`, `Luhn`, `Telecom`, `TelecomUniform` | decimal digits, check digits, device and card identifiers, and how likely they are |
| `Cidr`, `Netaddr`, `Addresses` | prefixes and masks, addresses in a prefix, public addresses |
| `Bluetooth`, `RpaCache` | Bluetooth random addresses, the cipher cache behind resolvable ones |
| `Values` | ports, labels and Autonomous System Numbers |

## Where the code and its comments differ

The model follows the code.

* `newBatchSpec` (word.go:64-65) says "the largest k with n^k <= 2^64". The loop
  stops at the first product that leaves 64 bits, so the code keeps n^k < 2^64:
  for n = 2 it takes 63 digits instead of 64 (`Batch.BaseTwo`). The entry is the
  documented one if and only if no power of n is 2^64, that is n is none of 2, 4,
  16, 256, 2^16 and 2^32 (`Batch.ExponentDocumented`, `Batch.BatchDocumented`).
* The same comment bounds the rejected words by one in sixteen. That holds if and
  only if n <= 2^60 or 2^64 mod n <= 2^60 (`Batch.BatchEfficientWhen`); for
  n = 2^63 + 1 almost half of all words are rejected (`Batch.InefficientBase`).
  The table only goes up to 256.
* word.go:229-231 says that a dictionary with repeated bytes keeps its weighting,
  "leaving every other position equally likely". A batch ends early when the
  output is full, so the number of digits of a word depends on its digits. The
  promise holds, for every symbol that a word writes, if and only if the length
  of the dictionary is one more than a power of two, or all its symbols occur
  equally often, or it has at most two different symbols
  (`RepeatedWeights.WeightsKeptWhen`); for "AABC" it does not hold
  (`RepeatedWeights.WeightsNotKept`). With at most one symbol missing it always
  holds (`RepeatedWeights.LastSymbolFair`). `fillWideNoRepeat` keeps the weights
  of every dictionary (`Strings.WideKeepsWeightsOverTapes`).

## Model

| member | source | states |
|---|---|---|
| Words.MulShiftExact | number.go:27-50 | for every n > 0 and v < n exactly floor(2^64/n), and at least one, words are accepted with result v |
| Words.MulShiftRejects | number.go:39-50 | exactly 2^64 mod n words are rejected |
| Words.Threshold | number.go:44 | the wrapped -n % n is 2^64 mod n |
| Tapes.Tape.Sum64 | provider.go:26-40 | a draw takes the next word and nothing else |
| Tapes.CountStep | number.go:45-49 | law of total counting over the first word of a tape: finishing words, retrying words, all others |
| Tapes.RetryUniform | number.go:45-49 | a draw-until-accepted loop reaches each value from a number of tapes that depends only on how many words select it |
| Tapes.RetryUnfinished | number.go:45-49 | r^t of the tapes of t words are still rejecting when r words are rejected |
| Tapes.RetryConserves | number.go:45-49 | n times the number of tapes of one of n equally likely values, plus r^t, is 2^(64t) |
| Number.BoundedSlow | number.go:39-50 | the rejection loop returns the value of the first accepted word and consumes exactly the words up to it |
| Number.BoundedFrom | number.go:27-37 | the shortcut lo >= n returns what the loop would; n = 0 returns 0 and never divides |
| Number.UniformUint64n | number.go:52-55 | the same from a fresh draw, which n = 0 makes too |
| Number.BoundedUniform | number.go:27-50 | every value below n comes from equally many tapes, for every number of draws |
| Number.BoundedConserves | number.go:27-50 | n times that number and the tapes on which the draw is unfinished are all tapes; those are (2^64 mod n)^t |
| Number.SignFlipOrders | number.go:71-76 | flipping the top bit maps signed order onto unsigned order, and flipping back returns the value, for all four widths |
| Number.SignedRoundTrip | number.go:71-76 | a signed value survives conversion to uint64 and back |
| Number.IntInterval | number.go:62-77 | equal bounds return the bound without a draw; otherwise an exact offset from the lower bound, swapped bounds included, within the type |
| Number.UintInterval | number.go:84-94 | the same for unsigned types |
| Number.IntervalUniform | number.go:62-94 | each value of [least, greatest) comes from equally many tapes and no other value from any |
| Batch.LargestPower | word.go:70-77 | the first loop finds the largest power of n below 2^64 |
| Batch.NewBatchSpec | word.go:66-82 | the loops compute the table entry BatchOf(n), for every n |
| Batch.BatchOfMeets | word.go:54-82 | the entry has prod = n^k < 2^64 with k the largest exponent that wastes at most 2^60 words, or k = 1 |
| Batch.BatchSpecUnique | word.go:54-82 | that promise determines the entry |
| Batch.BatchEfficient | word.go:64-65 | for 2 <= n <= 2^60 at most one word in sixteen is rejected |
| Batch.BatchEfficientWhen | word.go:64-65 | at most one word in sixteen is rejected if and only if n <= 2^60 or 2^64 mod n <= 2^60 |
| Batch.InefficientBase | word.go:64-65 | for n = 2^63 + 1 the entry rejects 2^63 - 1 words |
| Batch.ExponentDocumented | word.go:64-77 | before the reduction k is the largest exponent with n^k <= 2^64 if and only if no power of n is 2^64 |
| Batch.BatchDocumented | word.go:64-82 | the entry is the documented one under the same condition |
| Batch.BaseTwo | word.go:64-82 | for n = 2 the code takes 63 digits where the comment asks for 64 |
| Powers.OnlyRoots | word.go:64-65 | the bases below 2^64 of which some power is 2^64 are 2, 4, 16, 256, 2^16 and 2^32 |
| Batch.BatchSpecs | word.go:84-90 | the table holds the entry of every base up to 256 |
| Digits.PeelInvariant | word.go:261-264 | after d multiplications x * n^d = D * 2^64 + lo with D the peeled digits read in base n |
| Digits.ValueInjective | word.go:54-58 | digits of one length are determined by the number they spell |
| Digits.PeelIsMulShift | word.go:54-58 | batched sampling rejects and selects exactly as Lemire's method for n^d does |
| Digits.DigitsExact | word.go:54-58 | every digit tuple has exactly floor(2^64/n^d) accepted words |
| Digits.DigitsRejects | word.go:274-277 | exactly 2^64 mod n^d words are rejected |
| NoRepeat.SkipPast | word.go:217-222 | the sign bit of the wrapped difference is 1 exactly when idx >= lastIdx |
| NoRepeat.PlaceInto | word.go:265-272 | one position in place: written, or skipped when it repeats the last symbol |
| NoRepeat.FillBatch | word.go:256-277 | one word in place: a batch of symbols, or, when rejected, the restored state from before the batch |
| NoRepeat.FillBatches | word.go:249-279 | the outer loop performs the specified run and leaves the cells before the output untouched |
| NoRepeat.FillBatchedNoRepeat | word.go:233-279 | the whole in-place fill performs the specified run, including empty outputs and one-symbol dictionaries |
| NoRepeatRuns.FillSafe | word.go:224-279 | on every tape a finished fill has the requested length, dictionary symbols only, and no equal neighbours |
| NoRepeatRuns.ContinueSafe | word.go:249-279 | the same from any state, which it extends |
| NoRepeatRuns.PeelTakes | word.go:261-273 | within the table's k the product never overflows and equals n1^d, and the batch places exactly the digits it takes |
| NoRepeatRuns.FeedTakes | word.go:256-277 | a word is rejected or kept as a whole, by the threshold for the digits it took |
| NoRepeatRuns.PlaceAt | word.go:226-229 | the shift past the last position is onto: every other position has its digit |
| NoRepeatRuns.NextWord | word.go:249-278 | from every state on the way to a string some accepted word writes the next batch of that string |
| NoRepeatRuns.FillReaches | word.go:233-279 | every string over the dictionary without adjacent repeats is produced by some tape, repeated bytes allowed |
| NoRepeatRuns.FillProduces | word.go:224-279 | a string is produced by some tape if and only if it is over the dictionary and repeats nothing |
| NoRepeatRuns.NoDeadState | word.go:249-278 | with two different symbols, from every unfinished state some word is accepted and writes a full batch |
| NoRepeatRuns.TableBatchFits | word.go:66-82 | the table entry satisfies what these results require of k |
| NoRepeatUniform.FeedDistinct | word.go:226-232 | over distinct symbols an accepted word writes exactly min(k, remaining) symbols |
| NoRepeatUniform.PlaceAllInjective | word.go:226-229 | over distinct symbols different digits write different strings |
| NoRepeatUniform.ContinueUniform | word.go:249-279 | from any state all completions without adjacent repeats come from equally many tapes |
| NoRepeatUniform.FillUniform | word.go:224-279 | exact uniformity: over distinct symbols each string without adjacent repeats comes from the same number of tapes, for every tape length, rejections included |
| NoRepeatUniform.ContinueFewest | word.go:249-279 | the closed form of the completion count of ContinueUniform: 0 below ceil(remaining/k) words, and there the product of floor(2^64/(n-1)^d) |
| NoRepeatUniform.FillFewest | word.go:224-279 | the closed form of that number for tapes of at most 1 + ceil((L-1)/k) words |
| NoRepeatCount.FillShortest | word.go:224-279 | on tapes of 1 + ceil((L-1)/k) words each string is produced by floor(2^64/n) times the product of floor(2^64/(n-1)^d) of them, and by none that are shorter |
| NoRepeatCount.AllStringsCard | word.go:224-226 | there are n * (n-1)^(L-1) strings of length L without adjacent repeats |
| NoRepeatCount.InAllStrings | word.go:224-226 | and they are the ones counted |
| NoRepeatCount.FillConserves | word.go:224-279 | those equally likely strings and the unfinished tapes make up all 2^(64t) tapes of t words |
| NoRepeatCount.ShortestAccepts | word.go:249-279 | a run that finishes on the fewest words has accepted every one of them |
| NoRepeatUniform.RejectedInvisible | word.go:231-232 | deleting the rejected words from a tape changes neither the result nor what the other words do |
| NoRepeatUniform.KeptCount | word.go:249-279 | a finished run over distinct symbols has accepted exactly ceil(remaining/k) words |
| RepeatedSymbols.BatchExact | word.go:261-277 | for every dictionary each complete way through a batch has exactly floor(2^64/n1^d) words, d being the digits it takes |
| RepeatedWeights.FirstIsWritten | word.go:261-277 | a word that selects a first position writes its symbol, and any other word leaves the state as it was |
| RepeatedWeights.FlowCount | word.go:261-277 | for every dictionary the words behind a common start of a batch, by a recursion over symbols and missing positions |
| RepeatedWeights.NextIsWritten | word.go:261-277 | after any digits that a word has already used, it writes the symbol of the position it selects next, or leaves the state as it was then |
| RepeatedWeights.WrittenExact | word.go:261-277 | for every dictionary, state and start of a batch the number of words that write a given position next |
| RepeatedWeights.WeightsKeptWhen | word.go:229-231 | with the table's k, for every symbol of every batch, whatever the word has written or skipped before it, all positions that do not hold the last symbol are equally likely if and only if the length is one more than a power of two, or all symbols occur equally often, or there are at most two symbols |
| RepeatedWeights.LastSymbolFair | word.go:229-231 | with at most one symbol missing they always are |
| RepeatedWeights.RarerFavoured | word.go:229-231 | with two symbols missing, the positions of a rarer symbol get more words as soon as 2^64 loses a digit in base n-1 |
| RepeatedWeights.FairOverTapes | word.go:229-232 | for the first symbol of a batch, equally many words mean equally many tapes of every length, with rejected and skipped words redrawn |
| RepeatedWeights.KeptOverTapes | word.go:229-232 | where weights are kept, for every symbol: after any state and any digits of the current word all those positions come next on equally many tapes of every length |
| RepeatedWeights.NothingWritten | word.go:266-277 | a word that writes nothing leaves the rest of the run as it was |
| RepeatedWeights.WeightsNotKept | word.go:229-231 | over "AABC" the weights are not kept: after a B with two symbols missing, A gets fewer than twice the words of C |
| LostDigits.EveryBaseLoses | word.go:84-90 | every base of the table that is no power of two loses digit 2 or 3 of 2^64 |
| Strings.FillWideNoRepeat | word.go:285-306 | the in-place fill performs the specified run, draws nothing for an empty output, and leaves the cells before the output untouched |
| Strings.WideSafe | word.go:281-306 | finished wide fills have the requested length, dictionary symbols only and no equal neighbours |
| Strings.WideProduces | word.go:281-306 | a string is produced by some tape if and only if it is over the dictionary and repeats nothing |
| Strings.WideKeepsWeights | word.go:281-284 | of one word: every position that does not hold the last symbol is selected by exactly floor(2^64/(n-1)) words |
| Strings.WideOneByOne | word.go:289-305 | the run of the wide sampler is one choice of a next position after the other |
| Strings.WideKeepsWeightsOverTapes | word.go:281-284 | over the redraw loop: all these positions come from equally many tapes, for every number of words |
| Strings.FindSecondSymbol | word.go:194-204 | the scan finds whether two symbols differ |
| Strings.AppendCustom | word.go:190-215 | dst is returned unchanged, without a draw, exactly when the request cannot be served; otherwise dst is kept and the run of the batched sampler up to 256 bytes, of the wide sampler above, or the one symbol for one word appended |
| Alphabets.AlphabetsDistinct | word.go:92-111 | no built-in alphabet repeats a byte |
| Alphabets.AlphabetHolds | word.go:9-20 | each alphabet holds exactly its ranges of characters, each range in ascending order and the ranges in the order of the source |
| Alphabets.Append | word.go:134-144 | nothing for a length of zero or less, else dst and a fill of length symbols of the alphabet without adjacent repeats |
| Alphabets.AlphabetUniform | word.go:113-144 | exact uniformity for every built-in alphabet with its table batch |
| SplitMix.MixIsBijection | hashpool.go:20-26 | the mixer is a bijection on 64-bit words, with its inverse given |
| SplitMix.FirstWords | hashpool.go:18-26 | the first three words of the stream from state 0 |
| SplitMix.StateIsLinear | hashpool.go:71-76 | after k draws the state is seed + k * gamma |
| SplitMix.StatePeriod | hashpool.go:18-26 | the state returns exactly after multiples of 2^64 draws |
| SplitMix.StreamPeriod | provider.go:154-156 | two outputs are equal if and only if they lie a multiple of 2^64 draws apart |
| SplitMix.StreamCovers | provider.go:154-156 | every word occurs among any 2^64 consecutive outputs |
| Provider.PutTail | provider.go:74-81 | the low bytes of a word in little-endian order, in place |
| Provider.BytesRoundTrip | provider.go:143-146 | a word is recovered from its eight bytes |
| Provider.LittleEndian | provider.go:196-203 | the first of eight bytes is the low byte of the word, and the others follow it |
| Provider.Uint64Provider.Sum64 | provider.go:153-156 | the next word of the stream; the state advances once |
| Provider.Uint64Provider.Sum32 | provider.go:148-151 | the high half of the next word |
| Provider.Uint64Provider.Sum | provider.go:143-146 | b and the eight bytes of the next word |
| Provider.Uint64Provider.Read | provider.go:109-117 | the concatenated words cut to the buffer length, from exactly ceil(length/8) draws |
| Provider.ReaderProvider.Sum64 | provider.go:196-203 | eight bytes read little-endian; a short reader is an error |
| Provider.DecodeConcat | provider.go:178-203 | words survive being written as bytes and read back |
| Provider.ReadThenDecode | provider.go:158-203 | a reader over the bytes of Read yields every whole word of the stream |
| SharedCounter.StepKeepsInv | provider.go:109-156 | every step of every caller keeps the invariant of counter and calls |
| SharedCounter.ExactlyThePrefix | provider.go:109-156 | in every interleaving the words handed out are the first words of the sequential stream, and the counter is seed + gamma * draws |
| SharedCounter.HandedOnce | provider.go:109-156 | no draw is handed to two callers or twice to one |
| SharedCounter.NoDuplicates | hashpool.go:71-107 | up to 2^64 draws no two words handed out are equal |
| SharedCounter.AnswersAreOwnDraws | provider.go:109-156 | in every interleaving each returned Sum64, Sum32, Sum or Read is made of the stream words that the call itself drew, in ascending order |
| SharedCounter.Uninterrupted | provider.go:138-156 | a call that is not interleaved draws and returns what the sequential provider does |
| Luhn.LuhnCheckDigit | telecom.go:200-217 | the loop computes the check digit of a payload of any length |
| Luhn.CheckDigitUnique | telecom.go:200-217 | it is the one digit that makes payload and digit pass validation |
| Luhn.ValidIsTheStandard | telecom.go:200-217 | a number is valid if and only if the digits of the doubled digits next to the check digit and every second one before it, with the other digits, add up to a multiple of ten |
| Luhn.DetectsSubstitution | telecom.go:200-217 | any change of a single digit is detected |
| Luhn.DetectsTransposition | telecom.go:200-217 | an adjacent swap of different digits is detected if and only if they are not 0 and 9 |
| Decimal.AppendRandomDigits | telecom.go:178-198 | the loops perform the specified run, for every n |
| Decimal.RejectedWord | telecom.go:183-186 | a word of 18 * 10^18 or more contributes nothing |
| Decimal.AcceptedWord | telecom.go:182-196 | any other word contributes min(n, 18) digits, which read as the word modulo 10 to that power; more digits come from the next words |
| Decimal.WordsUsed | telecom.go:182-196 | a finished run of n digits has used exactly ceil(n/18) accepted words, and nothing after the last one |
| Decimal.WriteChunk | telecom.go:187-196 | the digits of one word, written in place from the right |
| Decimal.ChunkReadsBack | telecom.go:187-194 | a chunk reads back as the word modulo a power of ten |
| Decimal.ChunksExact | telecom.go:178-198 | every chunk comes from exactly 18 * 10^(18-take) words |
| Decimal.DigitsUniform | telecom.go:178-198 | every string of n digits comes from equally many tapes, rejections included |
| Telecom.RandomDigitsAppends | telecom.go:178-198 | exactly n digits are appended to what was there |
| Telecom.IsDigits | telecom.go:161-172 | the length and every byte are checked |
| Telecom.CountryCodes | telecom.go:58-69 | all country codes are one to three digits |
| Telecom.ReportingBodies | telecom.go:54-56 | all reporting body identifiers are two digits |
| Telecom.AppendTac | telecom.go:143-159 | reports invalid options without a draw; otherwise appends the allocation code |
| Telecom.IdentifierOk | telecom.go:14-33 | every finished run is well formed: 15 Luhn-valid digits, 16 digits not ending in 99, exactly Length Luhn-valid digits starting with 89 for any issuer length, or 14 hexadecimal digits led by A0..FF |
| Telecom.MeidReadsBack | telecom.go:123-131 | an MEID spells 0xa0 plus the bounded value in two hexadecimal digits, then the low twelve hexadecimal digits of its first word, lowest first |
| Telecom.VersionReadsBack | telecom.go:101 | a drawn IMEISV version spells the bounded value in two decimal digits after the equipment digits |
| Telecom.DrawnBody | telecom.go:155-158 | a drawn allocation code starts with the reporting body that the bounded value picks |
| Telecom.DrawnCountry | telecom.go:117-120 | a drawn issuer is 89 and the country code that the bounded value picks |
| Telecom.CardLength | telecom.go:103-109 | valid card lengths are 0 and 18 to 20, and 0 gives 19 digits |
| Telecom.CheckDigitCompletes | telecom.go:121-139 | an identifier with its check digit passes Luhn validation |
| Telecom.Append | telecom.go:84-141 | dst is returned unchanged, without a draw, exactly for invalid options; otherwise dst is kept and a well-formed identifier appended |
| Telecom.ImeiUniform | telecom.go:132-139 | all valid IMEIs with a given allocation code come from equally many tapes |
| Telecom.IccidUniform | telecom.go:102-122 | all valid ICCIDs with a given issuer identifier come from equally many tapes |
| Telecom.ImeisvUniform | telecom.go:87-99 | all IMEISVs with a given allocation code and version come from equally many tapes |
| Telecom.ImeisvVersionUniform | telecom.go:87-101 | so do all serial numbers and versions below 99 when the version is drawn |
| TelecomUniform.IdentifierStages | telecom.go:84-159 | the run of an IMEI or IMEISV is its allocation code, its serial number and its last part drawn one after the other |
| TelecomUniform.EquipmentUniform | telecom.go:84-159 | for all options, drawn and test allocation codes included, all well-formed IMEIs come from equally many tapes, and so do all well-formed IMEISVs |
| TelecomUniform.CodesPrefixFree | telecom.go:58-69 | no country code is the start of another one |
| TelecomUniform.CardUniform | telecom.go:102-122 | with a drawn country code all well-formed ICCIDs of one country come from equally many tapes |
| RpaCache.StepKeepsInv | hardware.go:250-282 | every atomic step of every call keeps the invariant of cache, pool and buffers |
| RpaCache.EveryHashIsAh | hardware.go:262-282 | in every interleaving a finished call has returned ah of its own key and its own prand (Bluetooth Core Specification, Vol 3 Part H, section 2.2.2) |
| RpaCache.AhIsTheStandard | hardware.go:262-264 | ah is the cipher of the sixteen bytes that spell prand, most significant byte first, modulo 2^24 |
| RpaCache.BlockOf | hardware.go:277-279 | these bytes exist for every prand |
| RpaCache.EveryHashIsTheStandard | hardware.go:262-282 | so every finished concurrent call has returned the cipher of its own prand under its own key, modulo 2^24 |
| RpaCache.CacheAndBuffersAreSafe | hardware.go:250-282 | the cache pairs each key with its own cipher, and no scratch buffer has two holders or is idle while held |
| RpaCache.NoCallIsStuck | hardware.go:265-282 | every unfinished call has an enabled step |
| Bluetooth.DeviceAddress | hardware.go:202-209 | static and non-resolvable addresses have their type bits, and random bits that are neither all zero nor all one |
| Bluetooth.DeviceBits | hardware.go:202-208 | the random part is the low 46 bits of the accepted word |
| Bluetooth.DeviceUniform | hardware.go:109-117 | all addresses of one of these types come from equally many tapes |
| Bluetooth.ResolvableAddress | hardware.go:210-229 | no address and no draw for a key that is not 16 bytes; otherwise the type bits 01 and a valid random part, and for a key the hash is ah of that key |
| Bluetooth.ResolvableUniform | hardware.go:210-229 | under one key all addresses that resolve with ah come from equally many tapes |
| Bluetooth.RandomHashUniform | hardware.go:210-229 | without a key all addresses with a valid random part come from equally many tapes, each from 2^18 words |
| Bluetooth.CallsAreKeyed | hardware.go:220-226 | the hash used there is what any finished concurrent call returns |
| Cidr.MaskHostBits | cidr.go:52-60 | every byte is masked by the first bits, in place |
| Cidr.FillCidrMask | cidr.go:62-70 | a zeroed buffer becomes the byte mask |
| Cidr.Mask32Agrees | netaddr.go:49 | for every length the byte mask read as a number is the shifted word mask of AddrIn |
| Cidr.HiMaskAgrees | netaddr.go:53-58 | the same for the high half of an IPv6 mask |
| Cidr.LoMaskAgrees | netaddr.go:53-58 | the same for the low half |
| Cidr.AndBytes32 | cidr.go:52-60 | clearing byte by byte is clearing the number |
| Cidr.AndBytes64 | cidr.go:52-60 | the same for halves of an IPv6 address |
| Cidr.HostBitsAre32 | cidr.go:117-121 | the result is the one address with the network of base and the host bits of the draw, for any mask and base |
| Cidr.HostBitsAre64 | cidr.go:123-127 | the same for 64 bits |
| Cidr.HostBitsEqual32 | cidr.go:117-121 | the draws of any two addresses of the network are in bijection |
| Cidr.HostBitsEqual64 | cidr.go:123-127 | the same for 64 bits |
| Netaddr.FillPrefix | cidr.go:38-50 | random bytes with the host bits cleared, in place |
| Netaddr.FillUlaPrefix | cidr.go:41-47 | 0xfd, five random bytes, and zeros |
| Netaddr.UlaWhen | cidr.go:41-47 | a word gives the unique-local prefix whose 40 random bits are its low 40 bits |
| Netaddr.UlaUniform | cidr.go:41-47 | the words of any two unique-local /48 prefixes are in bijection |
| Netaddr.UlaCovers | cidr.go:41-47 | every unique-local /48 prefix comes from some word |
| Netaddr.RandomPrefix | netaddr.go:21-33 | the length is clamped to the family and the address has no host bits; a unique-local prefix is an fd00::/8 /48 |
| Netaddr.NewPrefixHasNoHostBits | cidr.go:38-60 | byte-wise clearing leaves no host bits under the word-wise mask |
| Netaddr.UlaPrefixHasNoHostBits | cidr.go:41-47 | a unique-local prefix has no bits below /48 |
| Netaddr.RandomAddrIn | netaddr.go:35-63 | no address and no draw for an invalid prefix; otherwise an address inside it from one or two draws |
| Netaddr.AddrInStaysInside | netaddr.go:37-63 | AddrIn stays inside every valid prefix, with or without host bits in its address |
| Netaddr.AddrInIsUniform | netaddr.go:37-63 | every address of a prefix is drawn equally often, host bits in the base included |
| Netaddr.AddrInCovers | netaddr.go:37-63 | every address of a prefix is drawn by some words |
| Netaddr.RandomIpInCidr | cidr.go:86-115 | no address and no draw without a network, for a mask of another length or an address of the wrong family; otherwise the host bits of one or two draws |
| Netaddr.MappedBase | cidr.go:95-104 | an IPv4 address is the same base in four bytes and in its mapped form, for either mask length |
| Netaddr.NoBase | cidr.go:92-114 | addresses and masks of other lengths, and other IPv6 addresses under an IPv4 mask, have no base |
| Netaddr.GeneratedBase | cidr.go:72-84 | the address of a generated network is its base |
| Netaddr.IpInCidrIsAddrIn | cidr.go:86-115 | on a generated mask IPInCIDR computes what AddrIn computes |
| Addresses.FirstOctetTable | ip.go:216-228 | the loops build the table of first octets |
| Addresses.FastTestIsTheList | ip.go:230-270 | for every address the table-driven test is absence from the list of special-purpose prefixes |
| Addresses.Public6IsTheList | ip.go:272-292 | for every high half the shifted comparisons are absence from the prefix list |
| Addresses.PublicIPv4 | ip.go:127-135 | the loop performs the specified run, and a finished one is outside the list |
| Addresses.Public4Words | ip.go:127-135 | the low half of the first word, else its high half, else the low half of the first later word whose low half is public |
| Addresses.Public4Uniform | ip.go:127-135 | all public IPv4 addresses come from equally many tapes, although only the first word offers both halves |
| Addresses.PublicIPv6 | ip.go:175-185 | the loops perform the specified run; a finished one is in 2000::/3, outside the list, and has no subnet-router or RFC 2526, section 2, anycast identifier |
| Addresses.Public6Words | ip.go:175-185 | the first word that is acceptable under 2000::/3 gives the high half, the next acceptable word the low half |
| Addresses.Public6Uniform | ip.go:175-185 | all such addresses come from equally many tapes |
| Halves.FirstHalfCard | value.go:75-84 | taking a candidate from the low half, else from the high half, gives every candidate the same number of words |
| Values.Value | value.go:50-98 | the branches and the loop perform the specified run |
| Values.ValueInRange | value.go:6-48 | every kind stays in its documented range |
| Values.FromDrawBijection | value.go:55-94 | offset and gap shift map the draws one to one onto the documented values |
| Values.FromDrawAscends | value.go:55-94 | and they do so in ascending order |
| Values.ShiftWords | value.go:59-68 | a kind of n values that shifts one word splits the words into n equal stretches in order, the default kind included |
| Values.ShiftExact | value.go:59-68 | so each of its values comes from exactly 2^64/n words |
| Values.InterfaceIdWhen | value.go:69-70 | an interface identifier comes from the words that equal it in every bit but 56 and 57 |
| Values.InterfaceIdExact | value.go:69-70 | these are four words for each identifier |
| Values.OneWordUniform | value.go:59-70 | all values of a kind that takes one word come from equally many tapes |
| Values.BoundedKindUniform | value.go:55-94 | all values of a bounded kind come from equally many tapes |
| Values.AsnPublicUniform | value.go:75-84 | all public AS numbers come from equally many tapes |
| Values.AsnHalves | value.go:75-84 | the low half of a word is tried first, then the high half, then the next word |

## Left out

- Probabilistic termination and statistical quality: a run that has used up its tape counts as unfinished; the theorems say which tapes finish and how many.
- Weights of whole strings over dictionaries with repeated bytes: the theorems count the position written next after every state and every start of a word, and do not multiply these steps out to one number per string.
- MEID joint distribution: the identifier reuses one word for two parts, so only its form is proved.
- ICCIDs of different countries: country codes of different lengths leave different numbers of drawn digits, so these are not equally likely by design.
- The three-way block choice of private IPv4 addresses and the modulus over the built-in OUI table: both are inexact by design.
- Other fixed-byte address kinds, multicast scopes, documentation blocks, EUI-64 expansion, hardware addresses besides the Bluetooth ones, and the OUI table with its generator: single-branch byte layouts.
- Bytes of AddrIn and IP results: addresses are numbers there; the byte order of prefixes and masks is modelled.
- Int, Uint, Float32 and Float64: conversions of a single word.
- runtimeRand and the isRuntime branches: the same algorithms on another word source, so one tape stands for both.
- SetProvider and currentProvider: the global provider is swapped in one store; each run here uses one provider.
- hashPool.Get and Put, the nil pool, and maphash seeds: internals of another package.
- The reader provider's Sum and Sum32: the same read with another width; errors of the reader are modelled as running out of bytes.
- AES: any function from a key and a block to a block of 16 bytes.
- Slice capacity, unsafe.String, stack and allocation behaviour, net and netip parsing and printing.
- Loop nesting of the string samplers: the inner loops are methods of their own (`FillBatch`, `PlaceInto`), each with its contract, and the wide sampler draws its first position before the loop instead of branching inside it.
