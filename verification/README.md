# pragmatica core, modelled in Dafny

This project models five pieces of the pragmatica libraries and proves
properties of each.

- **`Result`.** The two-outcome value of the functional core: success with
  a value, or failure with a cause. The model covers `reduce` and the
  operations built on it: `map`, `flatMap`, `apply`, `onSuccess`,
  `onFailure`, `or`, `toOption`, `equals`, `flatten` and `all`.
- **`UTF8Decoder`.** The streaming, table-driven UTF-8 decoder of the
  async I/O layer. It is modelled byte by byte and checked against the
  grammar of section 4 of RFC 3629, the bit layout of section 3 of
  RFC 3629, and the UTF-16 surrogate encoding of section 2.1 of RFC 2781.
- **`Timeout`.** The proactor's nanosecond timeout, with the JDK's
  saturating unit conversion on the way in and truncating division on the
  way out.
- **`DelayExchangeEntry` and `CloseExchangeEntry`.** How these two
  io_uring exchange entries are prepared, rendered into a
  submission-queue entry, and how they turn a completion code into a
  `Result` for their completion.
- **`ExchangeEntryFactory` and `UringEnterFlags`.** The factory decides
  which pool serves which `forX` call and which calls get the IOSQE_IO_LINK
  flag; `clear` visits all fifteen pools. `UringEnterFlags` holds the four
  `io_uring_enter(2)` flag bits.

Files:

- `JavaArith.dfy`: Java's integer widths and arithmetic. Division and
  remainder truncate toward zero. `long` subtraction wraps. `Math.abs`
  returns `Integer.MIN_VALUE` unchanged. The narrowing casts keep the low
  bits. Bitwise AND and OR are defined bit by bit.
- `Results.dfy`: `Result` and its operations.
- `Utf8Decoder.dfy`: the automaton (`Transition` is the table, `Masks` are
  the masks), and `decode(int)` as `DecodeRaw`. The consuming
  `decode(int, Consumer)` is `DecodeStep`, and `decodeWithRecovery` is the
  method `DecodeWithRecovery` and its functional twin `DecodeBytes`.
- `Utf8Spec.dfy`: the RFC 3629 reference definitions (`Utf8Char`,
  `WellFormed`, `ScalarOf`, `EncodeChar`) and the RFC 2781 UTF-16
  encoding (`Utf16`). It also holds the theorems that tie the decoder to
  them.
- `Timeouts.dfy`: `Timeout`, its builder and its read-outs.
- `ExchangeEntries.dfy`: the delay and close entries.
- `ExchangeEntryFactory.dfy`: argument routing, link flags and the pools.
- `UringEnterFlags.dfy`: the enter flags and the OR/decode round trip.

Consumers and completions are modelled by what they receive. The decoder
returns the UTF-16 code units it would hand to its consumer, in order. An
exchange entry appends one `Call` to a log per completion. `Result`'s
consumers return their effects in order.

Two behaviours of the decoder deserve mention.

- **The rejecting byte is consumed.** On rejection the decoder emits one
  U+FFFD, resets, and does not decode the rejecting byte again. The
  `prevState` test at `UTF8Decoder.java:218` looks as if it were meant to
  re-examine that byte, but both of its branches leave `prevState` equal
  to ACCEPT and return no other output. So `C3 41` yields only U+FFFD,
  and the `A` is lost (`BrokenSequenceDropsByte`). Between calls,
  `prevState` always equals `state` (`Valid`).
- **Bytes are indexed unsigned.** The input bytes are Java `byte`s,
  sign-extended to `int`. The table is indexed with `input & 0xFF`, and
  the masks are at most `0x7F`, so `input & mask` is the same for the
  signed and the unsigned byte. The model works on the unsigned byte.

## Model

| member | source | states |
|---|---|---|
| Results.Reduce | core/src/main/java/org/pfj/lang/Result.java:210-218 | exactly the mapper matching the outcome is applied; the other one need not even be defined on anything |
| Results.Map | core/src/main/java/org/pfj/lang/Result.java:67-69 | a success becomes `Ok(mapper(value))`; a failure passes through with the same cause, and the mapper is never applied to it |
| Results.FlatMap | core/src/main/java/org/pfj/lang/Result.java:81-83 | a success is replaced by the mapper's result; a failure passes through unchanged |
| Results.Apply | core/src/main/java/org/pfj/lang/Result.java:94-102 | exactly one consumer runs (one effect), the one matching the outcome, and the receiver is returned unchanged |
| Results.OnSuccess | core/src/main/java/org/pfj/lang/Result.java:137-143 | the consumer runs once on a success's value and never on a failure; the receiver is returned |
| Results.OnSuccessDo | core/src/main/java/org/pfj/lang/Result.java:150-156 | the action runs on success only; the receiver is returned |
| Results.OnFailure | core/src/main/java/org/pfj/lang/Result.java:165-171 | the consumer runs once on a failure's cause and never on a success; the receiver is returned |
| Results.OnFailureDo | core/src/main/java/org/pfj/lang/Result.java:178-184 | the action runs on failure only; the receiver is returned |
| Results.Or | core/src/main/java/org/pfj/lang/Result.java:113-115 | a success is kept, a failure is replaced; the result succeeds iff either input does |
| Results.OrElse | core/src/main/java/org/pfj/lang/Result.java:126-128 | a success is kept and the supplier is consulted only on failure |
| Results.ToOption | core/src/main/java/org/pfj/lang/Result.java:194-196 | present iff success, holding the success value |
| Results.EqualsIsStructural | core/src/main/java/org/pfj/lang/Result.java:307-316 | `Result.equals` holds iff both have the same outcome with equal payloads, i.e. iff the values are equal |
| Results.CollectValues | core/src/main/java/org/pfj/lang/Result.java:318-322 | the left-to-right pass of `flatten` collects exactly the success values, in order |
| Results.CollectFailure | core/src/main/java/org/pfj/lang/Result.java:318-322 | the pass remembers the last failure in the list, or nothing when all succeed |
| Results.FlattenSpec | core/src/main/java/org/pfj/lang/Result.java:318-326 | all successes give `Ok` of all values in input order; otherwise the failure is the LAST failing element's cause |
| Results.OkValuesOfAllOk | core/src/main/java/org/pfj/lang/Result.java:318-326 | when every element succeeds, the collected values are the elements' values position by position |
| Results.All1 | core/src/main/java/org/pfj/lang/Result.java:334-336 | succeeds iff the argument does, with its value |
| Results.All2 | core/src/main/java/org/pfj/lang/Result.java:344-346 | succeeds iff both do, with the pair of values; otherwise the first failure in argument order |
| Results.All3 | core/src/main/java/org/pfj/lang/Result.java:354-356 | succeeds iff all three do, with the triple; otherwise the first failure in argument order |
| Results.MapComposes | core/src/main/java/org/pfj/lang/Result.java:67-69 | mapping with `f` then `g` equals mapping once with `g . f` |
| Results.FlatMapOkIsIdentity | core/src/main/java/org/pfj/lang/Result.java:81-83 | `flatMap(ok)` returns the receiver |
| JavaArith.Div | proactor/src/main/java/org/pragmatica/io/async/Timeout.java:51 | Java `/`: magnitude is the quotient of magnitudes, sign negative exactly when the operand signs differ (truncation toward zero) |
| JavaArith.Rem | proactor/src/main/java/org/pragmatica/io/async/Timeout.java:51 | Java `%`: `Div(a,b)*b + r == a`, `|r| < |b|`, and `r` takes the dividend's sign |
| JavaArith.SubLong | proactor/src/main/java/org/pfj/io/uring/exchange/DelayExchangeEntry.java:49 | `long` subtraction: the exact difference when it fits, otherwise the difference wrapped by 2^64 |
| JavaArith.AbsInt | proactor/src/main/java/org/pfj/io/uring/exchange/DelayExchangeEntry.java:51 | `Math.abs(int)`: the magnitude, except that `Integer.MIN_VALUE` comes back unchanged |
| JavaArith.NarrowToInt | proactor/src/main/java/org/pragmatica/io/async/Timeout.java:51 | `(int)` keeps the value when it fits and otherwise agrees with it modulo 2^32 |
| JavaArith.NarrowToByte | proactor/src/main/java/org/pragmatica/io/async/uring/exchange/ExchangeEntryFactory.java:109 | `(byte)` keeps the value when it fits and otherwise agrees with it modulo 2^8 |
| Timeouts.ToNanos | proactor/src/main/java/org/pragmatica/io/async/Timeout.java:87-134 | `TimeUnit.toNanos`: the exact product when it fits in a `long`, `Long.MAX_VALUE`/`Long.MIN_VALUE` on overflow upward/downward |
| Timeouts.SaturationBounds | proactor/src/main/java/org/pragmatica/io/async/Timeout.java:87-134 | comparing against `Long.MAX_VALUE / scale` is exactly the test for the product leaving the `long` range |
| Timeouts.Nanos | proactor/src/main/java/org/pragmatica/io/async/Timeout.java:78-80 | the builder's value becomes the timeout unchanged |
| Timeouts.Micros | proactor/src/main/java/org/pragmatica/io/async/Timeout.java:87-89 | value times 1000, saturating |
| Timeouts.Millis | proactor/src/main/java/org/pragmatica/io/async/Timeout.java:96-98 | value times 10^6, saturating |
| Timeouts.Seconds | proactor/src/main/java/org/pragmatica/io/async/Timeout.java:105-107 | value times 10^9, saturating |
| Timeouts.Minutes | proactor/src/main/java/org/pragmatica/io/async/Timeout.java:114-116 | value times 6*10^10, saturating |
| Timeouts.Hours | proactor/src/main/java/org/pragmatica/io/async/Timeout.java:123-125 | value times 3.6*10^12, saturating |
| Timeouts.Days | proactor/src/main/java/org/pragmatica/io/async/Timeout.java:132-134 | value times 8.64*10^13, saturating |
| Timeouts.Of | proactor/src/main/java/org/pragmatica/io/async/Timeout.java:34-36 | the builder holds the given value |
| Timeouts.Nanoseconds | proactor/src/main/java/org/pragmatica/io/async/Timeout.java:42-44 | the stored nanosecond count |
| Timeouts.Microseconds | proactor/src/main/java/org/pragmatica/io/async/Timeout.java:46-48 | whole microseconds, truncated toward zero: brackets the magnitude and keeps the sign |
| Timeouts.Milliseconds | proactor/src/main/java/org/pragmatica/io/async/Timeout.java:38-40 | whole milliseconds, truncated toward zero: brackets the magnitude and keeps the sign |
| Timeouts.SecondsAndNanos | proactor/src/main/java/org/pragmatica/io/async/Timeout.java:50-52 | `seconds * 10^9 + nanos` recombines to the timeout; both parts share its sign and `|nanos| < 10^9` |
| Timeouts.NanosRoundTrip | proactor/src/main/java/org/pragmatica/io/async/Timeout.java:42-44 | `timeout(v).nanos().nanoseconds() == v` |
| Timeouts.MillisRoundTrip | proactor/src/main/java/org/pragmatica/io/async/Timeout.java:96-98 | `timeout(v).millis().milliseconds() == v` whenever the builder does not saturate |
| Timeouts.MicrosRoundTrip | proactor/src/main/java/org/pragmatica/io/async/Timeout.java:87-89 | `timeout(v).micros().microseconds() == v` whenever the builder does not saturate |
| Timeouts.SecondsSplitRoundTrip | proactor/src/main/java/org/pragmatica/io/async/Timeout.java:50-52 | a timeout of `v` whole seconds splits into `(v, 0)` |
| Timeouts.DivExact | proactor/src/main/java/org/pragmatica/io/async/Timeout.java:51 | truncating division undoes an exact multiplication with remainder 0 |
| Timeouts.SaturationKeepsSign | proactor/src/main/java/org/pragmatica/io/async/Timeout.java:132-134 | an overflowing `days()` pins the timeout to the `long` extreme of the value's sign |
| Utf8Decoder.Transition | async-io/src/main/java/org/pragmatica/io/codec/UTF8Decoder.java:50-179 | inside a sequence, only a continuation byte 80..BF can avoid REJECT, and it moves to a strictly smaller state |
| Utf8Decoder.ContinuationRow | async-io/src/main/java/org/pragmatica/io/codec/UTF8Decoder.java:67-178 | each row 1..7 of the table admits one range of continuation bytes inside 80..BF |
| Utf8Decoder.AndLowMask | async-io/src/main/java/org/pragmatica/io/codec/UTF8Decoder.java:181-184 | AND with each mask of the table `masks` keeps the low bits, i.e. is a remainder by a power of two |
| Utf8Decoder.OrIntoZeroBits | async-io/src/main/java/org/pragmatica/io/codec/UTF8Decoder.java:193 | OR-ing payload bits into the zeroed low bits of a shifted value is addition |
| Utf8Decoder.ShiftInSmall | async-io/src/main/java/org/pragmatica/io/codec/UTF8Decoder.java:193 | `(codep << 6) \| bits` is `codep * 64 + bits` while no bit leaves the `long` |
| Utf8Decoder.ShiftInFacts | async-io/src/main/java/org/pragmatica/io/codec/UTF8Decoder.java:191-193 | the accumulated code point after a lead byte is its payload bits, after a continuation byte it gains the byte's low six bits |
| Utf8Decoder.DecodeRaw | async-io/src/main/java/org/pragmatica/io/codec/UTF8Decoder.java:190-195 | `decode(int)`: the new state is the table entry; a lead byte leaves its payload bits, a continuation byte shifts in six more |
| Utf8Decoder.Unsigned | async-io/src/main/java/org/pragmatica/io/codec/UTF8Decoder.java:191 | `input & 0xFF` agrees with the signed byte modulo 256 |
| Utf8Decoder.DecodeStep | async-io/src/main/java/org/pragmatica/io/codec/UTF8Decoder.java:197-225 | the consuming `decode`: never rests in REJECT; rejection emits exactly `[U+FFFD]` and resets; acceptance emits the code point's units and clears `codep`; inside a sequence nothing is emitted |
| Utf8Decoder.Step | async-io/src/main/java/org/pragmatica/io/codec/UTF8Decoder.java:197-225 | agrees with `DecodeStep` on every decoder that is not in REJECT |
| Utf8Decoder.DecodeBytes | async-io/src/main/java/org/pragmatica/io/codec/UTF8Decoder.java:227-233 | `decodeWithRecovery` never leaves the decoder in REJECT |
| Utf8Decoder.DecodeWithRecovery | async-io/src/main/java/org/pragmatica/io/codec/UTF8Decoder.java:227-233 | the loop over the byte array computes the same final decoder and output as `DecodeBytes` on the unsigned bytes |
| Utf8Decoder.UnsignedAll | async-io/src/main/java/org/pragmatica/io/codec/UTF8Decoder.java:229 | each array element is widened to its unsigned byte, position by position |
| Utf8Decoder.DecodeBytesAppend | async-io/src/main/java/org/pragmatica/io/codec/UTF8Decoder.java:227-233 | decoding `a + b` is decoding `a` and then `b` from where `a` left off, with concatenated output |
| Utf8Decoder.DecodeBytesSnoc | async-io/src/main/java/org/pragmatica/io/codec/UTF8Decoder.java:227-233 | decoding one more byte is one more consuming `decode` step |
| Utf8Decoder.SnocPending | async-io/src/main/java/org/pragmatica/io/codec/UTF8Decoder.java:198-202 | a continuation byte that leaves the sequence open adds its six bits and emits nothing |
| Utf8Decoder.SnocComplete | async-io/src/main/java/org/pragmatica/io/codec/UTF8Decoder.java:204-211 | a continuation byte that completes a sequence emits the finished code point and clears the decoder |
| Utf8Decoder.SnocLead | async-io/src/main/java/org/pragmatica/io/codec/UTF8Decoder.java:198-211 | on a fresh decoder, an ASCII byte is emitted at once and a lead byte starts a sequence with its payload bits |
| Utf8Decoder.StepKeepsValid | async-io/src/main/java/org/pragmatica/io/codec/UTF8Decoder.java:197-225 | one consuming step keeps the decoder out of REJECT, keeps `prevState == state`, and bounds `codep` by the bits read so far |
| Utf8Decoder.FreshIsValid | async-io/src/main/java/org/pragmatica/io/codec/UTF8Decoder.java:186-188 | a newly constructed decoder satisfies the invariant |
| Utf8Decoder.DecodeBytesKeepsValid | async-io/src/main/java/org/pragmatica/io/codec/UTF8Decoder.java:227-233 | the invariant holds after any input |
| Utf8Decoder.AsciiEmitsItself | async-io/src/main/java/org/pragmatica/io/codec/UTF8Decoder.java:204-211 | at a character boundary an ASCII byte is emitted as itself and the decoder is fresh again |
| Utf8Decoder.BrokenSequenceDropsByte | async-io/src/main/java/org/pragmatica/io/codec/UTF8Decoder.java:212-221 | `C3 41` decodes to exactly one U+FFFD: the byte that broke the sequence is consumed, not re-decoded |
| Utf8Spec.CharLenOfChar | async-io/src/main/java/org/pragmatica/io/codec/UTF8Decoder.java:51-66 | the lead byte of an RFC 3629 character determines its length |
| Utf8Spec.AcceptsExactlyWellFormed | async-io/src/main/java/org/pragmatica/io/codec/UTF8Decoder.java:50-179 | run from ACCEPT, the table ends in ACCEPT iff the input is a sequence of RFC 3629 characters (both directions) |
| Utf8Spec.RunAppend | async-io/src/main/java/org/pragmatica/io/codec/UTF8Decoder.java:190-195 | running the table over `a + b` is running it over `a` and then `b` |
| Utf8Spec.RunIsAfter | async-io/src/main/java/org/pragmatica/io/codec/UTF8Decoder.java:190-195 | the state after the first `k` bytes of a character follows the character's grammar |
| Utf8Spec.BadLeadRejects | async-io/src/main/java/org/pragmatica/io/codec/UTF8Decoder.java:59-66 | a byte that cannot start an RFC 3629 character is rejected at a boundary |
| Utf8Spec.WindowRun | async-io/src/main/java/org/pragmatica/io/codec/UTF8Decoder.java:50-179 | over exactly as many bytes as the lead announces, the table ends in ACCEPT if they form an RFC 3629 character and in REJECT otherwise |
| Utf8Spec.ShortWindow | async-io/src/main/java/org/pragmatica/io/codec/UTF8Decoder.java:50-179 | an input ending before its announced length does not end in ACCEPT |
| Utf8Spec.EncodeThenScalar | async-io/src/main/java/org/pragmatica/io/codec/UTF8Decoder.java:50-184 | encoding a Unicode scalar value per RFC 3629 section 3 gives a well-formed character that reads back as that value |
| Utf8Spec.ScalarThenEncode | async-io/src/main/java/org/pragmatica/io/codec/UTF8Decoder.java:50-184 | every well-formed character reads as a scalar value whose encoding is that character again |
| Utf8Spec.Utf16RoundTrip | async-io/src/main/java/org/pragmatica/io/codec/UTF8Decoder.java:205-210 | a BMP scalar is one non-surrogate unit, a supplementary one a high/low surrogate pair, and both read back as the scalar |
| Utf8Spec.EmitIsUtf16 | async-io/src/main/java/org/pragmatica/io/codec/UTF8Decoder.java:205-210 | the decoder's `0xD7C0 + (codep >> 10)` / `0xDC00 + (codep & 0x3FF)` arithmetic is exactly the RFC 2781 surrogate encoding |
| Utf8Spec.PartialBound | async-io/src/main/java/org/pragmatica/io/codec/UTF8Decoder.java:193 | the bits accumulated before a character completes stay below 2^19 |
| Utf8Spec.PartialIsScalar | async-io/src/main/java/org/pragmatica/io/codec/UTF8Decoder.java:193 | the bits accumulated over a whole character are its scalar value |
| Utf8Spec.RejectStaysAfter | async-io/src/main/java/org/pragmatica/io/codec/UTF8Decoder.java:190-195 | once the table rejects part of a character, it rejects every longer part of it |
| Utf8Spec.CharStates | async-io/src/main/java/org/pragmatica/io/codec/UTF8Decoder.java:50-179 | inside a well-formed character the table neither rejects nor accepts early, and accepts on its last byte |
| Utf8Spec.DecodePrefix | async-io/src/main/java/org/pragmatica/io/codec/UTF8Decoder.java:197-225 | after part of a well-formed character the consuming decoder holds the expected state and bits and has emitted nothing |
| Utf8Spec.DecodeFirst | async-io/src/main/java/org/pragmatica/io/codec/UTF8Decoder.java:198-211 | the lead byte of a character starts it, or emits it when it is ASCII |
| Utf8Spec.DecodeNext | async-io/src/main/java/org/pragmatica/io/codec/UTF8Decoder.java:198-211 | each continuation byte of a character extends it or completes it |
| Utf8Spec.DecodeChar | async-io/src/main/java/org/pragmatica/io/codec/UTF8Decoder.java:197-233 | a fresh decoder turns one RFC 3629 character into the RFC 2781 UTF-16 encoding of its scalar value and ends fresh |
| Utf8Spec.DecodeEncoded | async-io/src/main/java/org/pragmatica/io/codec/UTF8Decoder.java:197-233 | encoding any scalar value to UTF-8 and decoding gives its UTF-16 encoding |
| Utf8Spec.TruncatedIsPending | async-io/src/main/java/org/pragmatica/io/codec/UTF8Decoder.java:197-233 | a proper prefix of a character emits nothing and leaves the decoder inside a sequence |
| Utf8Spec.DecodeWellFormed | async-io/src/main/java/org/pragmatica/io/codec/UTF8Decoder.java:227-233 | `decodeWithRecovery` on well-formed input emits exactly the UTF-16 of its characters, in order, and ends fresh |
| Utf8Spec.DecodeWithTruncatedTail | async-io/src/main/java/org/pragmatica/io/codec/UTF8Decoder.java:227-233 | well-formed input followed by a cut-off character emits the well-formed part and waits for the rest |
| Utf8Spec.RawRunSnoc | async-io/src/main/java/org/pragmatica/io/codec/UTF8Decoder.java:190-195 | repeated `decode(int)` over one more byte is one more step |
| Utf8Spec.RawPrefix | async-io/src/main/java/org/pragmatica/io/codec/UTF8Decoder.java:190-195 | repeated `decode(int)` over part of a character holds the grammar's state and the expected partial bits |
| Utf8Spec.CodepAtAcceptance | async-io/src/main/java/org/pragmatica/io/codec/UTF8Decoder.java:190-195 | with the non-consuming `decode`, `codep` at ACCEPT is exactly the character's scalar value |
| UringEnterFlags.Mask | proactor/src/main/java/org/pragmatica/io/async/uring/UringEnterFlags.java:24-38 | GET_EVENTS=1, SQ_WAKEUP=2, SQ_WAIT=4, EXT_ARG=8, each a single bit (`m & (m-1) == 0`) |
| UringEnterFlags.MasksDisjoint | proactor/src/main/java/org/pragmatica/io/async/uring/UringEnterFlags.java:24-27 | two masks share no bit iff they belong to different flags |
| UringEnterFlags.CombineIsSum | proactor/src/main/java/org/pragmatica/io/async/uring/UringEnterFlags.java:24-27 | the OR of chosen masks is their sum and stays below 16 |
| UringEnterFlags.CombinedHas | proactor/src/main/java/org/pragmatica/io/async/uring/UringEnterFlags.java:24-27 | a flag's bit is set in the OR iff the flag was chosen |
| UringEnterFlags.DecodeCombine | proactor/src/main/java/org/pragmatica/io/async/uring/UringEnterFlags.java:24-27 | OR-ing any set of flags and testing each mask gives the set back |
| UringEnterFlags.CombineDecode | proactor/src/main/java/org/pragmatica/io/async/uring/UringEnterFlags.java:24-27 | every value below 16 is the OR of exactly the flags whose bits it has |
| UringEnterFlags.LowBits | proactor/src/main/java/org/pragmatica/io/async/uring/UringEnterFlags.java:24-27 | `m & (1 << k)` keeps bit `k` of `m`, for the four flag bits |
| ExchangeEntries.DelayPrepare | proactor/src/main/java/org/pfj/io/uring/exchange/DelayExchangeEntry.java:58-65 | the start time is the clock reading, the completion is stored, the time spec holds seconds and nanos that recombine to the timeout, the spec's address is kept |
| ExchangeEntries.DelayResult | proactor/src/main/java/org/pfj/io/uring/exchange/DelayExchangeEntry.java:48-53 | a code of `+ETIME` or `-ETIME` is success with `now - startNanos` (wrapped as `long`); every other code, 0 included, is the native translation |
| ExchangeEntries.DelayAccept | proactor/src/main/java/org/pfj/io/uring/exchange/DelayExchangeEntry.java:48-56 | exactly one completion call is appended, to the stored completion, with that result and the submitter; earlier calls are untouched |
| ExchangeEntries.DelayApply | proactor/src/main/java/org/pfj/io/uring/exchange/DelayExchangeEntry.java:67-74 | addr is the time spec's address, fd = -1, len = 1, off = 1; opcode, flags and user data come from the base rendering |
| ExchangeEntries.DelayClose | proactor/src/main/java/org/pfj/io/uring/exchange/DelayExchangeEntry.java:42-45 | the time spec is released and nothing else changes |
| ExchangeEntries.DelayReportsElapsed | proactor/src/main/java/org/pfj/io/uring/exchange/DelayExchangeEntry.java:48-65 | after `prepare` at time `start`, an ETIME completion of either sign at time `now` reports `now - start` |
| ExchangeEntries.DelayIgnoresCompletionFlags | proactor/src/main/java/org/pfj/io/uring/exchange/DelayExchangeEntry.java:48-56 | the completion flags have no effect on what is reported |
| ExchangeEntries.DelayPrepareThenApply | proactor/src/main/java/org/pfj/io/uring/exchange/DelayExchangeEntry.java:58-74 | the time spec `prepare` writes is the one `apply` hands the kernel, holding `secondsAndNanos` of the timeout |
| ExchangeEntries.ClosePrepare | proactor/src/main/java/org/pfj/io/uring/exchange/CloseExchangeEntry.java:43-49 | stores exactly the completion, descriptor and flags given |
| ExchangeEntries.CloseResult | proactor/src/main/java/org/pfj/io/uring/exchange/CloseExchangeEntry.java:38-41 | code 0 is success; every other code, positive ones included, is the native translation |
| ExchangeEntries.CloseAccept | proactor/src/main/java/org/pfj/io/uring/exchange/CloseExchangeEntry.java:38-41 | exactly one completion call is appended, to the stored completion, with that result and the submitter |
| ExchangeEntries.CloseApply | proactor/src/main/java/org/pfj/io/uring/exchange/CloseExchangeEntry.java:51-56 | flags and fd are the prepared ones; every other field comes from the base rendering |
| ExchangeEntries.ClosePrepareThenApply | proactor/src/main/java/org/pfj/io/uring/exchange/CloseExchangeEntry.java:43-56 | the descriptor and flags given to `prepare` are the ones submitted |
| ExchangeEntries.CloseSucceedsOnlyOnZero | proactor/src/main/java/org/pfj/io/uring/exchange/CloseExchangeEntry.java:38-41 | if the native translation fails every non-zero code, a close succeeds iff the code is 0 |
| ExchangeEntryFactory.CalculateFlags | proactor/src/main/java/org/pragmatica/io/async/uring/exchange/ExchangeEntryFactory.java:108-110 | 0 iff there is no timeout; the IO_LINK bit (4) when there is one |
| ExchangeEntryFactory.Route | proactor/src/main/java/org/pragmatica/io/async/uring/exchange/ExchangeEntryFactory.java:88-179 | every `forX` prepares an entry of its own kind |
| ExchangeEntryFactory.RouteLinkFlags | proactor/src/main/java/org/pragmatica/io/async/uring/exchange/ExchangeEntryFactory.java:88-179 | exactly close, read, write, splice, open, connect, readVector and writeVector receive flags (nop, timeout, delay, socket, listen, accept, stat do not), and those flags are the link bit iff a timeout is given |
| ExchangeEntryFactory.RouteForwardsUnchanged | proactor/src/main/java/org/pragmatica/io/async/uring/exchange/ExchangeEntryFactory.java:103-179 | descriptors reach `prepare` as `fd.descriptor()`, offsets as `offset.value()`, connect's socket as given, and every completion as given (`forTimeout` takes none) |
| ExchangeEntryFactory.NewFactory | proactor/src/main/java/org/pragmatica/io/async/uring/exchange/ExchangeEntryFactory.java:70-86 | there is a fresh pool for each of the fifteen kinds, all over the one registry passed in |
| ExchangeEntryFactory.AllKindsListed | proactor/src/main/java/org/pragmatica/io/async/uring/exchange/ExchangeEntryFactory.java:181-197 | `clear` names every kind of pool |
| ExchangeEntryFactory.ClearOrderDistinct | proactor/src/main/java/org/pragmatica/io/async/uring/exchange/ExchangeEntryFactory.java:181-197 | `clear` names no pool twice |
| ExchangeEntryFactory.Allocate | proactor/src/main/java/org/pragmatica/io/async/uring/exchange/ExchangeEntryFactory.java:88-179 | a `forX` call takes one entry from its own kind's pool, leaves every other pool untouched, and keeps one shared registry |
| ExchangeEntryFactory.Clear | proactor/src/main/java/org/pragmatica/io/async/uring/exchange/ExchangeEntryFactory.java:181-197 | every one of the fifteen pools is cleared exactly once; nothing else about the pools changes |
| ExchangeEntryFactory.OccursOnce | proactor/src/main/java/org/pragmatica/io/async/uring/exchange/ExchangeEntryFactory.java:181-197 | in a list without repeats each listed kind occurs exactly once |

## Left out

- I/O, threads and off-heap memory. The clock reading (`System.nanoTime`), the time spec's native address and its `dispose` are parameters or flags. `OffHeapSlice.export` (the second `decodeWithRecovery`) is not part of this model.
- `NativeFailureType.result` and `NativeFailureType.ETIME.code()` are not part of this model. They are function and value parameters. `CloseSucceedsOnlyOnZero` assumes that the translation fails every non-zero code; the source does not show that.
- `AbstractExchangeEntry` is not part of this model. Its `apply` is a function parameter. Its `prepare` is taken to store the completion, which is what `doAccept`'s use of `completion` requires.
- `PlainObjectPool` and `ObjectHeap` are not part of this model. A pool is its registry plus counters of allocations and clears; free lists and recycling are not modelled.
- `Bitmask.combine` is a symbolic term (`Combined`). `SQEntryFlags.IO_LINK.mask()` is the value IOSQE_IO_LINK = 4 of the io_uring interface, because `SQEntryFlags` is not part of this model.
- The `prepare` methods of the other thirteen entry kinds are not part of this model. The factory model records the arguments it passes them.
- The delay entry uses the `Timeout` of another package (`asSecondsAndNanos`) and `Duration`. The model uses this project's `Timeout.secondsAndNanos` for the former. A successful delay carries a `Timeout` of the elapsed nanoseconds instead of a `java.time.Duration`.
- `Timeout.duration()` and `toString`: they build a `java.time.Duration` and a string and are not modelled.
- `Result.toOptional`, `hashCode`, `toString`, `fail(String)` and `fail(String, Object...)`: they build JDK objects, hashes and messages from a `Failure` class that is not part of this model. The failure type is a parameter `E`. The constructors `ok` and `fail` are the datatype constructors `Ok` and `Fail`.
- `Result.all` for four to nine arguments, and the `MapperN` interfaces: they follow the same nesting of `flatMap` as arities one to three, which are modelled. `Tuple` is a Dafny tuple.
- Null payloads: payloads are assumed non-null, so `Objects.equals` is value equality. `Result.equals`'s identity shortcut (`one == two`) is covered because structural equality includes it.
- Utf8Decoder.Step: REJECT is not a resting state. On a decoder in REJECT, the Java `decode` would index row -1 and throw. `Step` instead does nothing there. `DecodeBytes` and every theorem only use decoders outside REJECT, where `Step` is `DecodeStep`.
- Utf8Decoder.ShiftInSmall: it gives `(codep << 6) | bits` in closed form only while `codep < 2^32`. `ShiftIn` itself models the full 64-bit shift and OR. The invariant `Valid` keeps `codep` far below that bound.
