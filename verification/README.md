# A verified model of the Desmos data plane

Desmos bonds several network links into one tunnel. This project models the parts of it that are
pure state machines and algorithms, and proves what each is for: the timer wheel and the
single-producer single-consumer ring of the runtime; the fragmenter, the reassembler and the
anti-replay window of the protocol; the reorder buffer, the link health machine, the failover
controller, the scheduling strategies, path MTU discovery and the probe scheduler of the core; the
JSON codec of the HTTP layer; the day count of the certificate parser; and the command suggestion of
the command line.

Every object of the source is a class whose methods are proved against a function of its state (or,
for the timer wheel, against the multiset of pending timers). The theorems are about those functions:
over every run of calls, every interleaving, every order of arrival, or every value. For the timer
wheel, the ring, the reorder buffer, the link machine, the prober and path MTU discovery they also say
what a run does from its calls alone, without the state function: `FiresAtFirstPoll`,
`PoppedArePushed`, `NothingLostIff`, `ExitConditions`, `DrainReportsIff`, `MtuOfRun`.

| file | models |
|---|---|
| `TimerWheel.dfy` | the wheel as a multiset of timers; whole runs against a plain list |
| `SpscRing.dfy` | the two threads as interleaved single steps on wrapping counters |
| `Fragment.dfy`, `Reassembler.dfy`, `Reassembly.dfy` | the splitter, the reassembler, and the theorem that one undoes the other |
| `Floats.dfy` | binary32 and binary64 over exact reals: the values of a format and rounding to the nearest |
| `Json.dfy`, `JsonNumber.dfy` | values, encoder and bytes; numerals |
| `JsonSyntax.dfy` | the syntax of JSON texts as trees with a text and a value |
| `JsonDecoder.dfy`, `JsonParser.dfy` | what the decoder does as functions; the parser object as it runs |
| `JsonReading.dfy`, `JsonAcceptance.dfy` | every tree is read; whatever is accepted is a tree |
| `JsonRoundTrip.dfy`, `JsonPrinter.dfy`, `JsonText.dfy` | encodings as trees; a printer that is read back; the round trip on text |
| `JsonSoundness.dfy`, `JsonStrict.dfy` | what any decoded value satisfies; which accepted texts RFC 8259 allows |
| `AntiReplay.dfy` | the 128-bit window against the set of accepted numbers |
| `Reorder.dfy` | the reorder buffer and the history of its runs |
| `LinkState.dfy`, `Strategy.dfy`, `Adaptive.dfy`, `Bonding.dfy` | one link's health; the strategies; the latency-adaptive one in rounded arithmetic; the engine and the failover controller |
| `Dispatch.dfy` | edit distance as the least number of edits |
| `Calendar.dfy` | the day count against the leap-year rule |
| `Pmtud.dfy` | path MTU discovery: any calls, and driven on a path |
| `Probe.dfy` | probe bookkeeping, what each drain reports, and the bound on probes in flight |
| `Arithmetic.dfy`, `Wrappers.dfy` | shared arithmetic facts; `Option` and `Result` |

Where the source and its own comments disagree, the model follows the code:

- A repeat with a different body does not discard its group (`crates/desmos-proto/src/fragment.rs:70-73`
  says it does): `ErrorsKeepState`, and `ConflictKeepsGroup` for a run.
- The producer's `len` is not a lower bound at any later point (`crates/desmos-rt/src/ring.rs:138-140`)
  unless it is zero: `LenBoundIffZero`, and `LenOverstates` for a run.
- JSON strings with non-ASCII characters do not survive encoding and decoding: `TextRoundTrip` says
  exactly which values do, `NonAsciiIsLost` gives one that does not.
- A round-robin sweep is not clean across a wrap of the cursor unless the number of links divides the
  word (`crates/desmos-core/src/bonding/strategy.rs:107-110`): `SweepIff`, and `SweepMayRepeat` for three links.
- A single bad probe does not end a probation (`crates/desmos-core/src/bonding/link_state.rs:213-214`):
  `ProbationFallsIff` says exactly how many do, and `OneLessMaySpare` gives runs that survive all but one.
- Both timeouts fire at, not after, their limit (`crates/desmos-core/src/bonding/reorder.rs:165-166`,
  `crates/desmos-core/src/bonding/probe.rs:98-99`): `PollReleasesIff`, `GapTimeoutIsInclusive`,
  `TimeoutIsInclusive`.
- The pick of the latency-adaptive strategy is not always below the total of the weights
  (`crates/desmos-core/src/bonding/strategy.rs:313-315`): rounding lets it reach the total, and then the last
  link is taken whatever its weight. `ZeroWeightSampledIff` says exactly when a link of weight zero is
  sampled, `DrawsThatReach` which draws do it, `ZeroWeightSampled` and `ReachingDrawHappens` give a draw and a
  random state that yields it.
- The JSON decoder accepts raw control characters in strings, which section 7 of RFC 8259 forbids:
  `StrictIff` says exactly which accepted texts the RFC allows, `RawControlAccepted` gives one it does not.
- The certificate clock accepts days past the end of a month and rolls them over: `UnixFrom1970`,
  `ImpossibleDatesRollOver`, and `FebruaryThirtieth` for a date.
- Discovery on a broken path gives up after the larger of the shrinks plus one and the attempt limit,
  not after the limit alone (`crates/desmos-core/src/net/pmtud.rs:41-45`): `FailsOnBrokenPath`, and
  `LimitAloneIsTooFew` for a limit.

## Model

| member | source | states |
|---|---|---|
| TimerWheelModel.LevelForDelta | crates/desmos-rt/src/timer.rs:126-136 | above the bottom, the level chosen for a delay has slots no longer than the delay; below the top, its revolution is longer than the delay |
| TimerWheelModel.InsertPlaced | crates/desmos-rt/src/timer.rs:90-96 | an inserted timer is in the slot its expiry selects, within one revolution below the top level, and at level 1 or above in a slot that starts strictly later |
| TimerWheelModel.TakePlaced | crates/desmos-rt/src/timer.rs:113-119 | emptying the slot the clock points at leaves no timer of that level in a slot starting now, and disturbs no other level |
| TimerWheelModel.AheadOffBoundary | crates/desmos-rt/src/timer.rs:98-111 | a level whose boundary the clock is not at needs no cascade |
| TimerWheelModel.AdvancePlaced | crates/desmos-rt/src/timer.rs:74-88 | once no slot starts now the placement invariant holds for the next millisecond |
| TimerWheelModel.CurrentSlotIsDue | crates/desmos-rt/src/timer.rs:76-82 | every timer in the level-0 slot of the clock expires exactly now |
| TimerWheelModel.NotOverdue | crates/desmos-rt/src/timer.rs:70-88 | no pending timer is earlier than the wheel's clock |
| TimerWheelModel.TimerWheel.constructor | crates/desmos-rt/src/timer.rs:49-52 | a new wheel at any start time holds nothing |
| TimerWheelModel.TimerWheel.Schedule | crates/desmos-rt/src/timer.rs:59-68 | adds exactly one timer, with the next id and the expiry saturated at the largest `u64`; delays beyond the range included |
| TimerWheelModel.TimerWheel.InsertEntry | crates/desmos-rt/src/timer.rs:90-96 | adds exactly the timer and keeps every level that was ahead of the clock ahead |
| TimerWheelModel.TimerWheel.CascadeLevel | crates/desmos-rt/src/timer.rs:113-123 | moves timers down without losing or repeating any, and leaves the level ahead of the clock |
| TimerWheelModel.TimerWheel.CascadeIfNeeded | crates/desmos-rt/src/timer.rs:98-111 | keeps the pending timers and leaves every upper level ahead of the clock |
| TimerWheelModel.TimerWheel.FireCurrent | crates/desmos-rt/src/timer.rs:75-82 | takes out exactly the timers that expire at the current millisecond |
| TimerWheelModel.TimerWheel.Poll | crates/desmos-rt/src/timer.rs:70-88 | appends exactly the pending timers due by `now`, with multiplicity, in non-decreasing expiry, and keeps the rest; the clock ends at one past `now`, capped at the largest `u64`, and stays put for a time in the past |
| TimerWheelModel.Run | crates/desmos-rt/src/timer.rs:48-124 | for every start time and run of calls the wheel's outputs and contents are those of a plain list of timers |
| TimerWheelModel.TimersConserved | crates/desmos-rt/src/timer.rs:62-88 | over a run every scheduled timer has fired once or still waits |
| TimerWheelModel.WaitingNotOverdue | crates/desmos-rt/src/timer.rs:62-88 | over a run everything waiting is at or after the clock, and everything fired is strictly before it unless it is at the largest `u64` |
| TimerWheelModel.FiringOrder | crates/desmos-rt/src/timer.rs:70-88 | nothing fired by a later poll expires before anything fired earlier in the run |
| TimerWheelModel.ClockOfRun | crates/desmos-rt/src/timer.rs:54-88 | after any run the clock is the larger of the start and one past the largest time polled, capped at the largest `u64` |
| TimerWheelModel.NewTimerIs | crates/desmos-rt/src/timer.rs:62-68 | after any run a new timer has the number of those scheduled before it, and expires its delay past the larger of the start and one past the largest time polled |
| TimerWheelModel.ScheduledAfterPoll | crates/desmos-rt/src/timer.rs:62-88 | a timer scheduled after a poll expires strictly after the time polled |
| TimerWheelModel.WaitingIff | crates/desmos-rt/src/timer.rs:62-88 | after any run a timer waits exactly when it was scheduled and no poll since has reached its expiry |
| TimerWheelModel.FiresAtFirstPoll | crates/desmos-rt/src/timer.rs:70-88 | in every run a poll fires a timer exactly when it is the first at or after the expiry since the timer was scheduled |
| SpscRingModel.MaskOfWrapped | crates/desmos-rt/src/ring.rs:122-163 | the slot of a wrapped counter is the slot of the unwrapped count, for every power-of-two capacity |
| SpscRingModel.WrappingDistance | crates/desmos-rt/src/ring.rs:119-121 | the wrapped difference of two counters less than a word apart is their true distance |
| SpscRingModel.WriteSlotFree | crates/desmos-rt/src/ring.rs:119-127 | a producer past the full test writes a slot that holds no unread value |
| SpscRingModel.ReadSlotFull | crates/desmos-rt/src/ring.rs:160-169 | a consumer past the empty test reads the slot of the oldest untaken value |
| SpscRingModel.HoldsAfterWrite | crates/desmos-rt/src/ring.rs:123-131 | writing the free slot misuses nothing and leaves the ring holding exactly the written and untaken values |
| SpscRingModel.HoldsAfterRead | crates/desmos-rt/src/ring.rs:163-171 | reading takes the oldest untaken value, misuses nothing and leaves the ring holding exactly the rest |
| SpscRingModel.ProducerKeepsInv | crates/desmos-rt/src/ring.rs:114-132 | every single load, test, write and store of `try_push` keeps the ring invariant |
| SpscRingModel.ConsumerKeepsInv | crates/desmos-rt/src/ring.rs:154-172 | every single load, test, read and store of `try_pop` keeps the ring invariant |
| SpscRingModel.RunInv | crates/desmos-rt/src/ring.rs:56-172 | the invariant holds after every interleaving from a new ring |
| SpscRingModel.RunSafe | crates/desmos-rt/src/ring.rs:80-172 | in every interleaving the taken values are a prefix of the written ones, no slot is read unwritten or overwritten unread, the wrapped count is the true one and at most the capacity, and the threads never touch one slot at once |
| SpscRingModel.RunCarries | crates/desmos-rt/src/ring.rs:114-132 | in every interleaving the value a push carries to its write is the argument of its call, and what is written is the arguments of the calls past the full test, in order, but for the write about to happen |
| SpscRingModel.RunReturns | crates/desmos-rt/src/ring.rs:154-172 | in every interleaving the values pops have returned are the taken ones whose head store is done |
| SpscRingModel.PoppedArePushed | crates/desmos-rt/src/ring.rs:114-172 | in every interleaving the values returned by pops are a prefix of the arguments of the successful pushes, and only of pushes that have stored the tail |
| SpscRingModel.FullTestExact | crates/desmos-rt/src/ring.rs:116-122 | a push is refused exactly when the ring was full at its head load, whatever the consumer does between the load and the test |
| SpscRingModel.EmptyTestExact | crates/desmos-rt/src/ring.rs:156-162 | a pop is refused exactly when the ring was empty at its tail load, whatever the producer does between the load and the test |
| SpscRingModel.LenIsExactAtHeadLoad | crates/desmos-rt/src/ring.rs:138-145 | `len` is the exact length at its second load |
| SpscRingModel.ConsumerProgress | crates/desmos-rt/src/ring.rs:154-172 | every step of the consumer on a ring that is not empty brings it nearer to releasing an item |
| SpscRingModel.ConsumerEmpties | crates/desmos-rt/src/ring.rs:154-172 | from every reachable state, mid-call or not, the consumer alone can empty the ring |
| SpscRingModel.LenBoundIffZero | crates/desmos-rt/src/ring.rs:138-145 | `len` is at most the length in every state of every continuation if and only if it is zero |
| SpscRingModel.LenOverstates | crates/desmos-rt/src/ring.rs:138-145 | a run in which `len` returns one and the ring is empty after one pop |
| SpscRingModel.Drop | crates/desmos-rt/src/ring.rs:80-100 | releases exactly the pushed and unpopped values, in order, and leaves no slot initialised |
| FragmentModel.EncodeHeader | crates/desmos-proto/src/fragment.rs:114-124 | overwrites exactly the first four bytes, or fails on a short buffer and leaves it alone |
| FragmentModel.HeaderRoundTrip | crates/desmos-proto/src/fragment.rs:107-137 | decoding gives a header exactly when it is valid and its encoding is what the bytes start with: a big-endian id, the offset, the total |
| FragmentModel.ConcatChunks | crates/desmos-proto/src/fragment.rs:171 | the chunks put together are the payload |
| FragmentModel.ChunkCount | crates/desmos-proto/src/fragment.rs:163-164 | the number of chunks is the rounded-up quotient |
| FragmentModel.ChunksFull | crates/desmos-proto/src/fragment.rs:171 | every chunk but the last is full |
| FragmentModel.Frame | crates/desmos-proto/src/fragment.rs:172-177 | one framed fragment is the header's bytes followed by the chunk |
| FragmentModel.FrameChunks | crates/desmos-proto/src/fragment.rs:170-178 | the loop frames every chunk with its index and the total |
| FragmentModel.Fragment | crates/desmos-proto/src/fragment.rs:145-180 | accepts exactly non-empty payloads that fit in 64 fragments, with the right error otherwise; the fragments fit the limit, all but the last fill it, and their bodies are the payload |
| ReassemblerModel.EvictKeepsInv | crates/desmos-proto/src/fragment.rs:246-254 | eviction keeps the invariant and makes room for a new group |
| ReassemblerModel.EnterKeepsInv | crates/desmos-proto/src/fragment.rs:256-263 | opening a group keeps the table consistent; a new group is empty |
| ReassemblerModel.StoreKeepsInv | crates/desmos-proto/src/fragment.rs:265-297 | storing a body keeps the invariant, including the count of filled slots |
| ReassemblerModel.PushKeepsInv | crates/desmos-proto/src/fragment.rs:237-298 | in every reachable state the order lists each group in flight once, there are at most the limit, and each group is partly filled with a correct count |
| ReassemblerModel.OrderLength | crates/desmos-proto/src/fragment.rs:199-210 | the order is as long as the table |
| ReassemblerModel.RejectedIff | crates/desmos-proto/src/fragment.rs:237-273 | exactly when a fragment is rejected and why: a bad header, too many fragments, or a group in flight with another total or another body in that slot |
| ReassemblerModel.ErrorsKeepState | crates/desmos-proto/src/fragment.rs:237-273 | a rejected fragment changes nothing |
| ReassemblerModel.ConflictKeepsGroup | crates/desmos-proto/src/fragment.rs:268-273 | a run from a new reassembler in which a conflicting body is rejected and the group stays with the first |
| ReassemblerModel.Reassembler.constructor | crates/desmos-proto/src/fragment.rs:219-226 | starts empty with a limit of at least one |
| ReassemblerModel.Reassembler.Push | crates/desmos-proto/src/fragment.rs:233-298 | does what the state function says and keeps the invariant |
| ReassemblerModel.Reassembler.StoreBody | crates/desmos-proto/src/fragment.rs:265-298 | stores, reports a conflict, or completes as the state function says |
| ReassemblerModel.Reassembler.Clear | crates/desmos-proto/src/fragment.rs:300-306 | drops every group and keeps the limit |
| ReassemblerModel.RemoveFromOrder | crates/desmos-proto/src/fragment.rs:287-289 | removes the first occurrence of the id and nothing else |
| ReassemblerModel.DrainSlots | crates/desmos-proto/src/fragment.rs:290-294 | concatenates the filled slots in order |
| ReassemblyTheorem.OwnStep | crates/desmos-proto/src/fragment.rs:237-298 | pushing one of our fragments yields the payload exactly when it was the last one missing, and otherwise records it |
| ReassemblyTheorem.OtherGroupStep | crates/desmos-proto/src/fragment.rs:246-297 | a push leaves every other group alone, except that exactly when the table is full and the id is new the oldest is dropped |
| ReassemblyTheorem.RunTracks | crates/desmos-proto/src/fragment.rs:237-298 | along a run without eviction the group holds exactly the fragments that have arrived |
| ReassemblyTheorem.TooFewToEvict | crates/desmos-proto/src/fragment.rs:246-254 | a group is dropped only once as many newer ids as the limit have turned up |
| ReassemblyTheorem.ReassemblyUnlessEvicted | crates/desmos-proto/src/fragment.rs:145-298 | in any order, with repeats, among anything about other ids, an unevicted packet comes back exactly when its last fragment arrives |
| ReassemblyTheorem.Reassembly | crates/desmos-proto/src/fragment.rs:145-298 | the same with eviction ruled out by fewer other ids than the limit |
| Floats.RoundExact | crates/desmos-http/src/json.rs:319-320 | a finite value of a format is rounded to itself |
| Floats.RoundIsFloat | crates/desmos-http/src/json.rs:319-320 | what rounding a number gives is a finite value of the format |
| Floats.RoundNearest | crates/desmos-http/src/json.rs:319-320 | no value of the format is nearer to a number than what it is rounded to |
| Floats.OverflowIff | crates/desmos-http/src/json.rs:319-324 | a number overflows exactly from half a unit above the greatest value of the format on |
| Floats.FlMonotone | crates/desmos-core/src/bonding/strategy.rs:298-317 | rounding, infinity included, never reverses an order |
| Floats.FlIdempotent | crates/desmos-core/src/bonding/strategy.rs:298-317 | rounding twice is rounding once, and zero stays zero |
| JsonReading.NumeralRead | crates/desmos-http/src/json.rs:272-327 | every numeral of the syntax is read as its rounded exact value, or refused exactly if that is infinite |
| JsonReading.StringRead | crates/desmos-http/src/json.rs:329-391 | every string of the syntax is read as its characters: raw, short escapes, code units, surrogate pairs |
| JsonReading.ItemsRead | crates/desmos-http/src/json.rs:393-421 | the items of an array, with any space around them, are read in order unless one is too deep |
| JsonReading.EntriesRead | crates/desmos-http/src/json.rs:423-457 | the members of an object are read, a later one replacing an earlier one of the same key, unless a value is too deep |
| JsonReading.ElementRead | crates/desmos-http/src/json.rs:237-255 | a tree of the syntax is read at any depth as its value, or refused exactly when a node would pass the limit |
| JsonReading.DocumentRead | crates/desmos-http/src/json.rs:190-198 | the bytes of any tree parse to its value if it nests at most 32 deep and to the depth error otherwise |
| JsonAcceptance.NumberAccepted | crates/desmos-http/src/json.rs:272-327 | whatever is accepted as a number is a numeral of the syntax with that value |
| JsonAcceptance.StringAccepted | crates/desmos-http/src/json.rs:329-375 | whatever is accepted as a string is made of characters and escapes of the syntax |
| JsonAcceptance.ValueAccepted | crates/desmos-http/src/json.rs:237-457 | whatever is accepted as a value at a depth is a tree of the syntax that fits under it |
| JsonAcceptance.DecodeIff | crates/desmos-http/src/json.rs:190-198 | a text decodes to a value if and only if it is the text of a tree of that value that nests at most 32 deep |
| JsonAcceptance.TooDeepRefused | crates/desmos-http/src/json.rs:190-255 | a text of the syntax that nests deeper gets the depth error |
| JsonAcceptance.Unambiguous | crates/desmos-http/src/json.rs:190-198 | a text of the syntax, at whatever depth, has one value however it is read as a tree |
| JsonRoundTrip.PieceRoundTrip | crates/desmos-http/src/json.rs:138-152 | what the encoder writes for a character is an escape that stands for it |
| JsonRoundTrip.StringRoundTrip | crates/desmos-http/src/json.rs:138-152 | an encoded string is a string of the syntax with those characters |
| JsonRoundTrip.NumberRoundTrip | crates/desmos-http/src/json.rs:104-107 | an integer below 2^53 is written as a numeral of exactly that value |
| JsonRoundTrip.FaithfulEncodes | crates/desmos-http/src/json.rs:104-110 | with a printer that is read back, every value of finite numbers is encodable |
| JsonPrinter.ExactNumeralValue | crates/desmos-http/src/json.rs:104-110 | every double has a decimal numeral that is read as it |
| JsonPrinter.FaithfulPrinterExists | crates/desmos-http/src/json.rs:104-110 | there is a printer that every double is read back from |
| JsonRoundTrip.ValueRoundTrip | crates/desmos-http/src/json.rs:99-136 | the encoding of a value is the text of a tree of that value and height |
| JsonRoundTrip.DocumentRoundTrip | crates/desmos-http/src/json.rs:99-198 | parsing the bytes of an encoding gives the value if it nests at most 32 deep and the depth error otherwise |
| JsonRoundTrip.EncodeNoControls | crates/desmos-http/src/json.rs:99-152 | an encoding contains no raw control character |
| JsonText.Utf8KeepsOrder | crates/desmos-http/src/json.rs:31 | taking UTF-8 bytes of byte strings keeps their order, so widened keys are again in key order |
| JsonText.EncodeUtf8 | crates/desmos-http/src/json.rs:99-207 | the bytes of an encoding are the encoding of the widened value |
| JsonText.WidenIdentity | crates/desmos-http/src/json.rs:372 | widening changes a value exactly when some string or key is not ASCII |
| JsonText.TextRoundTrip | crates/desmos-http/src/json.rs:95-198 | for every encodable value, decode of encode is the widened value or the depth error, and is the value itself exactly when it is at most 32 deep and ASCII |
| JsonText.NonAsciiIsLost | crates/desmos-http/src/json.rs:372 | a one-character string the round trip does not give back |
| JsonSoundness.InsertUpdates | crates/desmos-http/src/json.rs:427-442 | inserting a member keeps the keys in order, replaces the member of that key and leaves every other |
| JsonSoundness.Utf8Injective | crates/desmos-http/src/json.rs:31 | different keys have different bytes, so key order is total |
| JsonSoundness.DecodedIsValid | crates/desmos-http/src/json.rs:189-198 | whatever text is decoded, the numbers are finite doubles, the keys in order without repeats, and the depth within the limit |
| JsonSoundness.DecodeStable | crates/desmos-http/src/json.rs:95-198 | a decoded value can be encoded and decoded again without change exactly when its strings are ASCII |
| JsonSoundness.EscapeIff | crates/desmos-http/src/json.rs:338-370 | after a backslash exactly the escapes of the syntax are accepted |
| JsonSoundness.LoneSurrogateRefused | crates/desmos-http/src/json.rs:350-367 | a surrogate that is not the first half of a pair is refused, whatever follows |
| JsonSoundness.RawControlAccepted | crates/desmos-http/src/json.rs:329-375 | a string with a raw control character decodes |
| JsonStrict.TreeScans | crates/desmos-http/src/json.rs:237-457 | in the text of any tree, quotes outside strings never occur, and the strings hold no raw control exactly when the tree does not |
| JsonStrict.StrictIff | crates/desmos-http/src/json.rs:190-198 | an accepted text is the text of a tree that RFC 8259 allows if and only if no character below 0x20 stands inside its quoted strings |
| JsonParser.Parser.ExpectChar | crates/desmos-http/src/json.rs:220-226 | consumes the expected byte or reports the same error |
| JsonParser.Parser.SkipWhitespace | crates/desmos-http/src/json.rs:228-235 | stops at the first byte that is not space |
| JsonParser.Parser.ScanInteger | crates/desmos-http/src/json.rs:280-292 | scans an integer part without leading zeros, or reports the start of the numeral |
| JsonParser.Parser.ScanFraction | crates/desmos-http/src/json.rs:294-303 | scans an optional fraction |
| JsonParser.Parser.ScanExponent | crates/desmos-http/src/json.rs:305-317 | scans an optional exponent |
| JsonParser.Parser.ParseLiteral | crates/desmos-http/src/json.rs:257-270 | reads exactly the expected word |
| JsonParser.Parser.ReadNumber | crates/desmos-http/src/json.rs:319-326 | the scanned numeral as a number, or its start as an error if that is infinite |
| JsonParser.Parser.ParseNumeral | crates/desmos-http/src/json.rs:272-327 | reads exactly the number the functions say, with the same error position |
| JsonParser.Parser.ParseHex | crates/desmos-http/src/json.rs:377-391 | reads four hexadecimal digits of either case |
| JsonParser.Parser.ParseUnicodeEscape | crates/desmos-http/src/json.rs:348-368 | decodes a code point or a surrogate pair, refusing lone surrogates |
| JsonParser.Parser.ParseEscape | crates/desmos-http/src/json.rs:338-370 | decodes the character after a backslash |
| JsonParser.Parser.ParseQuoted | crates/desmos-http/src/json.rs:329-375 | reads a string up to its closing quote |
| JsonParser.Parser.ParseAny | crates/desmos-http/src/json.rs:237-255 | reads one value at a depth, or the depth error |
| JsonParser.Parser.ParseDispatch | crates/desmos-http/src/json.rs:244-254 | chooses the production by the first byte |
| JsonParser.Parser.ParseArrayLoop | crates/desmos-http/src/json.rs:393-421 | the loop reads exactly the items the functions do |
| JsonParser.Parser.ParseObjectLoop | crates/desmos-http/src/json.rs:423-457 | the loop reads exactly the members the functions do, a later key replacing an earlier one |
| JsonParser.DecodeText | crates/desmos-http/src/json.rs:189-198 | the running decoder returns what the functions say for the whole text |
| AntiReplayModel.StepReflects | crates/desmos-proto/src/antireplay.rs:84-126 | one call accepts exactly what is fresh by the history, reports the right error, and records it |
| AntiReplayModel.RunReflects | crates/desmos-proto/src/antireplay.rs:99-126 | after any run the window remembers exactly the last 128 numbers of the accepted set |
| AntiReplayModel.DecidesByHistory | crates/desmos-proto/src/antireplay.rs:84-126 | after any run a number is accepted exactly when it is newer than all accepted, or unaccepted and less than 128 behind all; `would_accept` foretells it; bit k is the number k below the highest |
| AntiReplayModel.AcceptedOnce | crates/desmos-proto/src/antireplay.rs:99-126 | no number is accepted twice in a run |
| AntiReplayModel.TestBit | crates/desmos-proto/src/antireplay.rs:92-117 | testing with a shifted mask is looking up one bit |
| AntiReplayModel.AntiReplayWindow.constructor | crates/desmos-proto/src/antireplay.rs:67-69 | starts empty |
| AntiReplayModel.AntiReplayWindow.Check | crates/desmos-proto/src/antireplay.rs:101-126 | updates the window as the state function says |
| ReorderModel.DrainFacts | crates/desmos-core/src/bonding/reorder.rs:157-163 | draining releases consecutive numbers from the expected one with their payloads and stops at a gap |
| ReorderModel.PushConsistent | crates/desmos-core/src/bonding/reorder.rs:106-152 | every push keeps the run's order, payloads and counts consistent |
| ReorderModel.PollConsistent | crates/desmos-core/src/bonding/reorder.rs:169-197 | every poll keeps them consistent |
| ReorderModel.RunConsistent | crates/desmos-core/src/bonding/reorder.rs:62-198 | every reachable state is consistent with its history |
| ReorderModel.ReorderGuarantees | crates/desmos-core/src/bonding/reorder.rs:106-197 | deliveries strictly increase and carry the first payload pushed; delivered plus lost and the account of all pushes balance; fewer packets wait than the window is wide |
| ReorderModel.HistoryFromEvents | crates/desmos-core/src/bonding/reorder.rs:106-152 | the first push of each number, with its time, and the number pushed first, as the events alone tell them, are those the run records |
| ReorderModel.SkipsIffUntimely | crates/desmos-core/src/bonding/reorder.rs:125-197 | in a run that has lost nothing the next event skips numbers exactly when it is a push that comes before some number a window behind it, or a poll at which something behind a gap has waited the timeout |
| ReorderModel.NothingLostIff | crates/desmos-core/src/bonding/reorder.rs:106-197 | a run loses nothing exactly when no event of it is such a push or poll; then every number from the first to the first not arrived was delivered, in order, with the payload it first arrived with, and exactly the later arrivals wait, each with its arrival time |
| ReorderModel.AheadWaits | crates/desmos-core/src/bonding/reorder.rs:149-151 | in every run a new packet ahead of the expected one and inside the window is kept waiting with its arrival time, delivers nothing and changes nothing else |
| ReorderModel.ExpectedReleasesRun | crates/desmos-core/src/bonding/reorder.rs:141-147 | in every run the expected packet is delivered at once with the unbroken run of waiting packets behind it, and nothing is lost |
| ReorderModel.PollSkipsFirstGap | crates/desmos-core/src/bonding/reorder.rs:185-197 | in every run a poll past the timeout counts lost exactly the numbers before the first waiting one and delivers the unbroken run from there |
| ReorderModel.ForceSkipEmpties | crates/desmos-core/src/bonding/reorder.rs:125-139 | a force-skip delivers exactly its packet and empties the buffer |
| ReorderModel.PollReleasesIff | crates/desmos-core/src/bonding/reorder.rs:169-197 | a poll releases something exactly when a buffered packet has waited the gap timeout, and what it releases leaves the buffer |
| ReorderModel.GapTimeoutIsInclusive | crates/desmos-core/src/bonding/reorder.rs:165-197 | a run in which a packet behind a gap is released at exactly the timeout and not a millisecond before |
| ReorderModel.PollSettles | crates/desmos-core/src/bonding/reorder.rs:169-197 | polling at a fixed time settles after at most as many releasing polls as packets waited |
| ReorderModel.ReorderBuffer.constructor | crates/desmos-core/src/bonding/reorder.rs:67-78 | starts uninitialised and empty |
| ReorderModel.ReorderBuffer.Push | crates/desmos-core/src/bonding/reorder.rs:106-152 | returns the payloads and reaches the state the state function says; a new packet ahead of the expected one and inside the window is only put to wait |
| ReorderModel.ReorderBuffer.DrainContiguous | crates/desmos-core/src/bonding/reorder.rs:157-163 | the loop releases what the recursive drain does |
| ReorderModel.ReorderBuffer.OldestAge | crates/desmos-core/src/bonding/reorder.rs:173-181 | the largest waiting time among the buffered packets |
| ReorderModel.ReorderBuffer.SmallestKey | crates/desmos-core/src/bonding/reorder.rs:185-188 | the least buffered number |
| ReorderModel.ReorderBuffer.Poll | crates/desmos-core/src/bonding/reorder.rs:169-197 | returns the payloads and reaches the state the state function says |
| LinkStateModel.LinkStateMachine.constructor | crates/desmos-core/src/bonding/link_state.rs:109-116 | starts healthy with no streaks |
| LinkStateModel.LinkStateMachine.Probe | crates/desmos-core/src/bonding/link_state.rs:130-168 | counts, transitions and resets as the state function says, which `ExitConditions` pins down; reports a transition exactly when the state changed |
| LinkStateModel.LinkStateMachine.Tick | crates/desmos-core/src/bonding/link_state.rs:173-183 | ends an elapsed probation and reports it |
| LinkStateModel.StreaksAreTrailing | crates/desmos-core/src/bonding/link_state.rs:130-168 | over every run a streak counter never exceeds the run of like samples at the end |
| LinkStateModel.EntryConditions | crates/desmos-core/src/bonding/link_state.rs:130-226 | dead only after three unanswered samples, degraded only after five lossy, probation only after three good and ten seconds long, healthy only from a probation that has ended |
| LinkStateModel.CountersAreStreaks | crates/desmos-core/src/bonding/link_state.rs:130-183 | in every run the counters are exactly the streaks of like samples since the last probe that changed the state, saturated at 255 |
| LinkStateModel.ExitConditions | crates/desmos-core/src/bonding/link_state.rs:130-226 | in every run, exactly when each state is left and for what: dead for probation at the third good sample in a row; degraded for dead at the third unanswered or for probation at the third good; healthy for dead at the third unanswered or for degraded at the fifth lossy; probation for the same two or else at its end for healthy; all counted since the last transition a probe made |
| LinkStateModel.DeadIsLeftForProbation | crates/desmos-core/src/bonding/link_state.rs:205-211 | a dead link is left only for a ten-second probation, and only when the latest three samples are good |
| LinkStateModel.ProbationOrigin | crates/desmos-core/src/bonding/link_state.rs:185-226 | a probation was entered ten seconds before its end and has lasted since |
| LinkStateModel.DeadToHealthy | crates/desmos-core/src/bonding/link_state.rs:130-226 | a dead link is healthy again only through a probation entered at t and left at or after t + 10 000 |
| LinkStateModel.SilenceCostsLives | crates/desmos-core/src/bonding/link_state.rs:130-226 | under unanswered samples the number a link can still survive falls by one with each |
| LinkStateModel.SilenceKills | crates/desmos-core/src/bonding/link_state.rs:130-226 | three unanswered samples kill a healthy or degraded link and five any link, whatever the clock and ticks do |
| LinkStateModel.LossDegrades | crates/desmos-core/src/bonding/link_state.rs:130-226 | five lossy samples degrade a healthy link and nine a link on probation |
| LinkStateModel.GoodRecovers | crates/desmos-core/src/bonding/link_state.rs:130-226 | three good samples bring any link to probation or health, and probation ends at the first good sample or tick after its end |
| LinkStateModel.ProbationUnder | crates/desmos-core/src/bonding/link_state.rs:130-226 | the whole machine after a new probation and bad samples of one kind, with ticks and clock arbitrary |
| LinkStateModel.ProbationFallsIff | crates/desmos-core/src/bonding/link_state.rs:211-226 | in every run, after a probation is entered, bad samples of one kind kill or degrade the link exactly when there are three or five beyond those forgiven by its end; before its end fewer leave it on probation |
| LinkStateModel.OneLessMaySpare | crates/desmos-core/src/bonding/link_state.rs:211-226 | runs from a new machine in which four unanswered or eight lossy samples leave a link from probation healthy |
| StrategyModel.HealthyKeepsPlace | crates/desmos-core/src/bonding/link.rs:78-81 | each link of the table, wherever it stands, is kept in its place if its flag is set and left out otherwise |
| StrategyModel.HealthyInOrder | crates/desmos-core/src/bonding/link.rs:78-81 | the healthy links of a table are those of its parts in order |
| StrategyModel.SweepIff | crates/desmos-core/src/bonding/strategy.rs:107-112 | n calls pick each of n links exactly once if and only if the cursor does not wrap or n divides the word |
| StrategyModel.SweepMayRepeat | crates/desmos-core/src/bonding/strategy.rs:107-112 | three links and the cursor at its last value: the first two calls pick the same link |
| StrategyModel.Collision | crates/desmos-core/src/bonding/strategy.rs:107-112 | a sweep across an uneven wrap picks one link twice |
| StrategyModel.WalkWeights | crates/desmos-core/src/bonding/strategy.rs:194-204 | the walk stops at the link whose share contains the pick, never past the last |
| StrategyModel.CountInterval | crates/desmos-core/src/bonding/strategy.rs:194-201 | the picks that select a link are as many as fall in its share |
| StrategyModel.ExactShares | crates/desmos-core/src/bonding/strategy.rs:186-201 | exactly weight many of the picks below the total select a link, and each pick selects one |
| AdaptiveModel.PickAdaptive | crates/desmos-core/src/bonding/strategy.rs:289-326 | the first link whose rounded cumulative score is above the rounded pick, else the last; a uniform pick if the rounded total is zero |
| AdaptiveModel.WeightIsLatest | crates/desmos-core/src/bonding/strategy.rs:249-300 | after any calls a link weighs the score of its latest update, or the default if it was forgotten, and zero if that is negative |
| AdaptiveModel.UnpublishedGetsDefault | crates/desmos-core/src/bonding/strategy.rs:261-300 | a link no call was about weighs the default, and zero if that is negative |
| AdaptiveModel.CumulativeMonotone | crates/desmos-core/src/bonding/strategy.rs:298-323 | the rounded cumulative scores never fall |
| AdaptiveModel.OneLinkPerPick | crates/desmos-core/src/bonding/strategy.rs:318-325 | a pick samples one link |
| AdaptiveModel.ZeroWeightPickedIff | crates/desmos-core/src/bonding/strategy.rs:318-325 | a link of weight zero is picked exactly when it is the last and the pick reaches the total |
| AdaptiveModel.DrawsThatReach | crates/desmos-core/src/bonding/strategy.rs:313-325 | the pick is never above the total; for any weights the 1024 largest draws reach it, so does every draw above one that does, and such a draw gets the last link |
| AdaptiveModel.ZeroWeightSampledIff | crates/desmos-core/src/bonding/strategy.rs:313-325 | the link a draw samples has weight zero exactly when the last link has and the rounded pick reaches the rounded total |
| AdaptiveModel.ZeroWeightSampled | crates/desmos-core/src/bonding/strategy.rs:313-325 | with weights 1000 and 0 the draw 2^64 - 2^39 samples the second link and 2^64 - 2^40 the first |
| StrategyModel.ReachingDrawHappens | crates/desmos-core/src/bonding/strategy.rs:125-137 | a state of the random source that yields the draw 2^64 - 2^39 |
| StrategyModel.XorshiftNonZero | crates/desmos-core/src/bonding/strategy.rs:120-137 | the random source never yields zero |
| BondingModel.Engine.Schedule | crates/desmos-core/src/bonding/mod.rs:79-83 | under every strategy only healthy links are selected and none exactly when there is none, which leaves the strategy as it was; each strategy picks and advances as it should |
| BondingModel.Engine.SwapStrategy | crates/desmos-core/src/bonding/mod.rs:85-90 | replaces the strategy and nothing else |
| BondingModel.Engine.SwapLinks | crates/desmos-core/src/bonding/mod.rs:92-96 | replaces the table and nothing else |
| BondingModel.PickRoundRobin | crates/desmos-core/src/bonding/strategy.rs:102-113 | the index of the healthy link the cursor points at |
| BondingModel.PickWeighted | crates/desmos-core/src/bonding/strategy.rs:186-205 | a healthy index, by the weights when they are not all zero |
| BondingModel.RoundRobinCalls | crates/desmos-core/src/bonding/strategy.rs:102-113 | consecutive calls pick along the wrapping cursor |
| BondingModel.RandomCalls | crates/desmos-core/src/bonding/strategy.rs:182-326 | consecutive calls of a random strategy sample by consecutive draws of its generator, by the weights or the scores |
| BondingModel.FailoverController.Register | crates/desmos-core/src/bonding/failover.rs:60-65 | adds a new machine, or changes nothing |
| BondingModel.FailoverController.Deregister | crates/desmos-core/src/bonding/failover.rs:67-70 | removes one machine and no other |
| BondingModel.FailoverController.Probe | crates/desmos-core/src/bonding/failover.rs:93-103 | drives exactly the one link's machine, registering it if new, and reports its transition |
| BondingModel.FailoverController.Tick | crates/desmos-core/src/bonding/failover.rs:105-115 | ticks every machine once and reports exactly the transitions that fired, each once |
| BondingModel.FailoverController.ApplyToEngine | crates/desmos-core/src/bonding/failover.rs:117-150 | every link keeps id, name, peer, weight and position, and its flag becomes its machine's verdict |
| BondingModel.MachineOfHistory | crates/desmos-core/src/bonding/failover.rs:60-115 | after any run of calls a link's machine is the one its own probes and the ticks since its last removal lead to |
| BondingModel.VerdictOfHistory | crates/desmos-core/src/bonding/failover.rs:95-150 | a link counts as alive exactly when its own history does not end dead |
| BondingModel.Deliver | crates/desmos-core/src/bonding/failover.rs:60-115 | one call on the controller: register, deregister, probe or tick |
| BondingModel.NoDeadLinkSelected | crates/desmos-core/src/bonding/failover.rs:117-150 | from the applied table no strategy selects a dead link, and none is selected exactly when all are dead |
| BondingModel.SafeSelection | crates/desmos-core/src/bonding/failover.rs:95-150 | the same in terms of each link's own probe history |
| BondingModel.TableJudged | crates/desmos-core/src/bonding/failover.rs:117-150 | from an update until another table is swapped in, the table is the verdict of the calls there had been |
| BondingModel.Act | crates/desmos-core/src/bonding/mod.rs:79-96 | one action of a session: a call on the controller, an update, a packet, a swap of strategy or table |
| BondingModel.RunSession | crates/desmos-core/src/bonding/failover.rs:60-150 | in any session of such actions, while the table of an update is in place no packet goes to a link dead at that update by its own history, and one is dropped only when all were |
| DispatchModel.EditCostsOne | crates/desmos-cli/src/dispatch.rs:164-172 | one edit changes the distance to any target by at most one |
| DispatchModel.NoScriptShorter | crates/desmos-cli/src/dispatch.rs:152-174 | no script of edits is shorter than the distance |
| DispatchModel.BestScript | crates/desmos-cli/src/dispatch.rs:152-174 | some script of exactly the distance many edits turns one string into the other |
| DispatchModel.LevIsLeastEdits | crates/desmos-cli/src/dispatch.rs:152-174 | the distance is the least number of insertions, deletions and substitutions |
| DispatchModel.LevIsMetric | crates/desmos-cli/src/dispatch.rs:152-174 | it is zero exactly on equal strings, symmetric, and obeys the triangle inequality |
| DispatchModel.FillRow | crates/desmos-cli/src/dispatch.rs:166-170 | the inner loop computes the next row from the previous one |
| DispatchModel.Levenshtein | crates/desmos-cli/src/dispatch.rs:152-174 | the two-row loop returns the distance |
| DispatchModel.ClosestMatch | crates/desmos-cli/src/dispatch.rs:99-108 | the first registered name of least distance among those within three, or none exactly when all are farther |
| CalendarModel.EraForm | crates/desmos-core/src/auth/x509.rs:377-381 | the era split with truncating division gives the closed form for every year, negative ones included |
| CalendarModel.YearsAgree | crates/desmos-core/src/auth/x509.rs:375-381 | the closed form advances by the length of each year, forwards and backwards from 1970 |
| CalendarModel.MonthsAgree | crates/desmos-core/src/auth/x509.rs:379-380 | the month term is the sum of the lengths of the months before it |
| CalendarModel.CivilIsDayNumber | crates/desmos-core/src/auth/x509.rs:372-383 | the day count is the one obtained year by year and month by month from the leap-year rule |
| CalendarModel.UnixFrom1970 | crates/desmos-core/src/auth/x509.rs:385-407 | for any fields the conversion succeeds exactly from 1970 on with every field in range (days up to 31 in any month), with the counted seconds |
| CalendarModel.UnixIncreasing | crates/desmos-core/src/auth/x509.rs:385-407 | on valid date-times it is strictly increasing |
| CalendarModel.ImpossibleDatesRollOver | crates/desmos-core/src/auth/x509.rs:393-400 | a day past the end of its month counts as the same day of the next month |
| CalendarModel.FebruaryThirtieth | crates/desmos-core/src/auth/x509.rs:393-400 | 30 February 2023 is taken for 2 March 2023 |
| PmtudModel.PmtudMachine.constructor | crates/desmos-core/src/net/pmtud.rs:75-91 | starts probing at the larger of the initial size and 1280, with the given or the default limit |
| PmtudModel.PmtudMachine.Success | crates/desmos-core/src/net/pmtud.rs:133-145 | converges on the acknowledged size, unless already failed |
| PmtudModel.PmtudMachine.Timeout | crates/desmos-core/src/net/pmtud.rs:147-173 | shrinks, counts or fails as the state function says, ignoring stale sizes |
| PmtudModel.PmtudMachine.Reset | crates/desmos-core/src/net/pmtud.rs:175-184 | starts over and keeps the attempt limit |
| PmtudModel.NeverBelowMinimum | crates/desmos-core/src/net/pmtud.rs:112-184 | over any calls the probe is at least 1280, and the MTU too if no smaller size is reported to succeed |
| PmtudModel.RunDiscovered | crates/desmos-core/src/net/pmtud.rs:76-184 | the state after any calls, from the calls alone: the answers and the timeouts about the size that was due since the latest start |
| PmtudModel.MtuOfRun | crates/desmos-core/src/net/pmtud.rs:112-184 | after any calls the MTU is the size last acknowledged since the latest start; with none, the starting size less 64 for each timeout that was not stale, at least 1280, and 1280 once failed, which is exactly when those reach the limit |
| PmtudModel.SilentProbes | crates/desmos-core/src/net/pmtud.rs:151-173 | the state after any number of unanswered probes |
| PmtudModel.ConvergesOnUsablePath | crates/desmos-core/src/net/pmtud.rs:76-173 | on a path carrying 1280 it converges within k + 1 probes to a carried size, at most 63 below the best unless it is the start |
| PmtudModel.FailsOnBrokenPath | crates/desmos-core/src/net/pmtud.rs:151-173 | on a path that does not carry 1280 it fails after exactly the larger of k + 1 and the limit, not before |
| PmtudModel.LimitAloneIsTooFew | crates/desmos-core/src/net/pmtud.rs:151-173 | from 1500 with a limit of one it gives up after five failures, not one |
| ProbeModel.ProbeScheduler.constructor | crates/desmos-core/src/bonding/probe.rs:52-62 | starts with nothing in flight, for positive interval and timeout |
| ProbeModel.ProbeScheduler.IssueProbe | crates/desmos-core/src/bonding/probe.rs:79-87 | hands out the next number and records its send time |
| ProbeModel.ProbeScheduler.Ack | crates/desmos-core/src/bonding/probe.rs:89-96 | removes the probe and reports its round trip, or nothing for an unknown one |
| ProbeModel.ProbeScheduler.Drain | crates/desmos-core/src/bonding/probe.rs:98-123 | removes and reports, in ascending order, exactly the probes in flight that were sent the timeout or longer ago |
| ProbeModel.TimeoutIsInclusive | crates/desmos-core/src/bonding/probe.rs:98-116 | a probe expires at exactly its timeout |
| ProbeModel.StepAccounted | crates/desmos-core/src/bonding/probe.rs:81-123 | every call keeps each issued probe in exactly one place |
| ProbeModel.EachProbeOnce | crates/desmos-core/src/bonding/probe.rs:81-123 | over every run that issues fewer than 2^64 probes, each issued probe is exactly one of in flight, acknowledged once, drained once |
| ProbeModel.NextIsIssues | crates/desmos-core/src/bonding/probe.rs:81-87 | over every run, also past the wrap, the next number is the count of probes issued |
| ProbeModel.InFlightIff | crates/desmos-core/src/bonding/probe.rs:81-123 | over every run, also past the wrap, a probe is in flight with its send time exactly when some event handed it out and none since reissued it, acknowledged it or drained at or after its timeout |
| ProbeModel.DrainReportsIff | crates/desmos-core/src/bonding/probe.rs:98-123 | over every run a drain reports a probe exactly when it was handed out, not settled since, and sent the timeout or longer ago |
| ProbeModel.DueIff | crates/desmos-core/src/bonding/probe.rs:72-77 | over every run a probe is due exactly when none was sent or the last was sent an interval or longer ago |
| ProbeModel.RunPaced | crates/desmos-core/src/bonding/probe.rs:72-123 | probes in flight were sent at least an interval apart |
| ProbeModel.InFlightBound | crates/desmos-core/src/bonding/probe.rs:72-123 | probes issued when due right after a drain at the same time are never more than timeout over interval, rounded up, in flight |

## Left out

- JsonText.TextRoundTrip: how the standard library prints a number that is not an integer below 2^53 is a parameter, of which only what it promises is used: the text is a numeral that is read as the number. `FaithfulPrinterExists` shows that such printers exist; that it picks the shortest numeral is not modelled. NaN and infinities, which no decoder returns, are not values here.
- JsonParser.DecodeText: parsing a numeral is rounding its exact value to the nearest double, a tie to the even mantissa, as the standard library promises; the two zeros are one.
- BondingModel.Engine.Schedule: the scores of `LatencyAdaptive` are finite numbers; scores that are NaN or infinite are not modelled.
- ReorderModel.ReorderGuarantees: counters and sequence numbers are unbounded; the source needs every number plus the window to stay below 2^64.
- LinkStateModel.EntryConditions: clock values are unbounded; the source needs the clock plus ten seconds to stay below 2^64.
- TimerWheelModel.Run: the order among timers of equal expiry is not stated, because a cascaded timer can fire after a later one inserted directly.
- TimerWheelModel.TimerWheel.constructor: the four arrays of 32 slots are laid out as one array of 128.
- SpscRingModel.RunSafe: steps interleave sequentially; the memory orderings of the atomics are not modelled. Masks by powers of two are remainders.
- AntiReplayModel.AntiReplayWindow.Check: the `u128` is the sequence of its 128 bits, with shift, and, or defined bitwise.
- CalendarModel.CivilIsDayNumber: years are unbounded; the `i32` arithmetic of the source overflows only within 400 years of its lower end.
- The maps of the source are finite maps without iteration order; the JSON object is a list in key order.
- The random state of the weighted strategy advances one call at a time; contention on its compare-and-swap is not modelled.
- `Engine::update_link`, `swap_strategy` races and the locks around both handles.
- Reactors, sockets, TUN devices, signals, name resolution, the daemon and its IPC: system calls.
- The Noise handshake, AEAD, signatures, key derivation and the session built on them: foreign cryptography.
- Link statistics and scores: floating point.
- The broadcast channel, the packet pool, the log ring, metrics, routing, middleware, configuration and the TOML printer: one-branch facts, or too narrow a fragment.
