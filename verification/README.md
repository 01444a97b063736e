# c2: the generator, the wire format and the status object, in Dafny

C2's utility layer has three parts that everything else stands on: a Lehmer
pseudo-random generator that promises to visit every seed, a binary coding layer
(fixed-width integers, base-128 varints, length-prefixed strings), and `Status`, an
error value that owns a packed heap block.  This project models those parts in the
form the C++ code has (objects with fields, loops, writes through a moving offset)
and proves what their comments and interfaces promise.

`dafny verify dfyconfig.toml` checks the whole project.

## How it is organised

| file | module | content |
|---|---|---|
| `words.dfy` | `Words` | unsigned words; `&`, `|`, `<<`, `>>` defined on binary digits, and their laws |
| `modular.dfy`, `certificate.dfy`, `order.dfy` | `Modular`, `Certificate`, `Order` | products and powers modulo M = 2^31 - 1; the powers of A = 16807 that decide its order; the order is M - 1 |
| `counting.dfy` | `Counting` | the pigeonhole principle; sums; how often a residue occurs in 1..n |
| `random.dfy`, `random_theorems.dfy`, `skewed.dfy` | `RandomGenerator`, `RandomTheorems`, `SkewedRuns` | the class `Random`; period and distribution of every run; the base of `Skewed` |
| `testutil.dfy` | `TestStrings` | the random string generators |
| `storage.dfy`, `slice.dfy` | `Storage`, `Slices` | buffers, `std::string`, out-parameters; the class `Slice` and its order |
| `varint.dfy` | `VarintSpec` | varint encoding, decoder specification and the laws between them |
| `coding.dfy`, `fixed.dfy` | `Coding`, `Fixed` | the encoders and decoders as written |
| `records.dfy` | `Records` | streams of mixed records: round trip and truncation |
| `status.dfy`, `status_runs.dfy` | `StatusModel`, `StatusRuns` | the class `Status` over an explicit allocator; every run of its operations |

Conventions.  A word is a natural number below 2^16, 2^32 or 2^64; wrap-around and
narrowing are written out with `%`.  A pointer is an offset into a buffer, NULL is
`None`.  `SeedAfter(s, n)` is the seed after n calls of `Next`, and N is M - 1.
`Parse32` and `Parse64` say what a varint decoder must answer on any bytes; the four
decoding loops are proved against them.  `memcpy` of an integer on a little-endian host
stores its base-256 digits, least significant first.

The full-cycle proof does not use that M is prime.  A^N = 1 and A^(N/f) != 1 for each
prime factor f of N = 2 * 3 * 3 * 7 * 11 * 31 * 151 * 331 (the numbers are in
`certificate.dfy`), so the order of A is N; its powers are then N distinct numbers of
1..N, hence all of them, hence every seed lies on one cycle.

Five places where the code does less than its interface says, each with its exact
condition:

- `Slice::compare` keeps the shorter size in an `int`, so it orders contents correctly
  exactly when that size is below 2^31 bytes (`CompareIsOrderIff`).
- `PutLengthPrefixedSlice` narrows the size to 32 bits, so a string survives exactly
  when it has fewer than 2^32 bytes (`TextRoundTripIff`).
- The packing constructor of `Status` computes its lengths in 32 bits, so it writes
  inside its block and stores the length of the joined message exactly when that length
  plus 5 is below 2^32 (`PackingIsExactIff`).
- `Uniform(n)` is uniformly distributed over a full period exactly when n divides M-1;
  otherwise some frequencies differ, by one at most (`UniformIff`, `UniformBalance`).
- `Skewed` is to pick its base uniformly, but each call takes two steps of a generator
  whose period is even, so one run draws its bases from every other seed.  Only with
  max_log = 0 is one run exactly uniform (`SkewedUniformIff`); with max_log = 1 already
  the two bases differ (`TwoBasesDiffer`).  What holds is that bases b and M - b modulo
  max_log + 1 together come up as often as b among 1..M-1 (`SkewedPairCount`).

## Model

| member | source | states |
|---|---|---|
| RandomTheorems.FullCycle | src/c2_random.h:57-76 | from every seed the first M-1 results of `Next` are pairwise distinct, are exactly 1..M-1, and lead back to the seed |
| RandomTheorems.OutputAt | src/c2_random.h:56-76 | the i-th of those results, counted from 0, is A^(i+1) * s mod M |
| RandomTheorems.ExactPeriod | src/c2_random.h:62-64 | two states of a run are equal iff they are a multiple of M-1 calls apart, so the period is exactly M-1 from every seed |
| Order.ExactOrder | src/c2_random.h:57-64 | no power A^i with 0 < i < M-1 is 1 modulo M |
| RandomTheorems.ClosedForm | src/c2_random.h:59-65 | n calls of `Next` turn seed s into A^n * s mod M |
| RandomTheorems.StepIsBijective | src/c2_random.h:56-76 | multiplying by 1407677000 modulo M undoes `Next` on either side: `Next` permutes the seeds |
| RandomGenerator.FoldReduces | src/c2_random.h:67-74 | for every seed the folded product is neither 0 nor M and is below 2M, and at most one subtraction makes it seed * A mod M |
| RandomGenerator.Random.Next | src/c2_random.h:56-76 | shift, mask, add and conditional subtraction advance the seed by exactly one step and keep it in 1..M-1 |
| RandomGenerator.Random.constructor | src/c2_random.h:50-55 | the low 31 bits, with the two bad seeds replaced by 1, form a valid state |
| RandomGenerator.InitialSeedCases | src/c2_random.h:50-55 | good seeds are kept, 0 and M become 1, and bit 31 of the argument makes no difference: the start for every 32-bit argument |
| RandomGenerator.Random.Uniform | src/c2_random.h:80 | one step of the generator, and its result modulo n, for every positive int n |
| RandomTheorems.UniformCount | src/c2_random.h:78-80 | over a full period, from any seed, how often each value v of `Uniform(n)` comes up, exactly |
| RandomTheorems.UniformBalance | src/c2_random.h:78-80 | the frequencies of any two values of `Uniform(n)` over a full period differ by at most one |
| RandomTheorems.UniformIff | src/c2_random.h:78-80 | over a full period, from any seed, all n values of `Uniform(n)` come up equally often iff n divides M-1 |
| RandomTheorems.OneInCount | src/c2_random.h:87-89 | over a full period `OneIn(n)` is true exactly floor((M-1)/n) times |
| RandomGenerator.Random.OneIn | src/c2_random.h:89 | true iff the next seed is divisible by n |
| RandomGenerator.Random.Skewed | src/c2_random.h:82-85 | the value drawn from two steps, and that it is below 2^max_log |
| RandomTheorems.Antipode | src/c2_random.h:57-65 | half a period, (M-1)/2 calls, after any state the seed is M minus what it was |
| SkewedRuns.SkewedPairCount | src/c2_random.h:82-85 | over one run of (M-1)/2 calls, bases b and M - b modulo n = max_log + 1 together come up exactly as often as b among 1..M-1 modulo n |
| SkewedRuns.SkewedUniformIff | src/c2_random.h:82-85 | over one run of (M-1)/2 calls, from any seed, the bases 0..max_log come up equally often iff max_log = 0 |
| SkewedRuns.TwoBasesDiffer | src/c2_random.h:82-85 | the failing input max_log = 1: bases 0 and 1 never come up equally often over a run |
| SkewedRuns.SkewedPeriod | src/c2_random.h:82-85 | a run of `Skewed` is back at its state exactly after every (M-1)/2 calls |
| SkewedRuns.BaseIsFirstStep | src/c2_random.h:82-85 | the k-th base of a run is A^(2k+1) * s mod M modulo max_log + 1, drawn by the first of the two steps of its call |
| RandomGenerator.Random.Next64 | src/c2_random.h:92-95 | `L \| (H << 32)` is the sum of two successive seeds, the second scaled by 2^32 |
| RandomTheorems.Draw64ClosedForm | src/c2_random.h:91-95 | the k-th 64-bit value is L + (A * L mod M) * 2^32 with L = A^(2k+1) * s mod M |
| RandomTheorems.Draw64IsCall | src/c2_random.h:91-95 | the k-th value of a run joins the two seeds that follow the state after 2k steps |
| RandomTheorems.Draw64ClearBits | src/c2_random.h:92-94 | bits 31 and 63 of every 64-bit value are clear |
| RandomTheorems.Draw64Period | src/c2_random.h:91-95 | two 64-bit values of a run are equal iff they are a multiple of (M-1)/2 calls apart: distinct within, and exact, period |
| TestStrings.RandomString | src/testutil.cc:42-48 | len printable bytes drawn from the successive seeds; the generator ends len steps on |
| TestStrings.PrintableByte | src/testutil.cc:42-48 | byte i is ' ' + ((A^(i+1) * s mod M) mod 95), between ' ' and '~' |
| TestStrings.RandomKey | src/testutil.cc:50-60 | len bytes picked from the ten test characters by the successive seeds |
| TestStrings.KeyByte | src/testutil.cc:50-60 | byte i is the one of the ten characters, written out, at (A^(i+1) * s mod M) mod 10 |
| TestStrings.CompressibleString | src/testutil.cc:62-76 | the loop ends with exactly len bytes, the raw string repeated cyclically, and the generator raw steps on, or one step if raw is below 1 |
| TestStrings.CompressibleByte | src/testutil.cc:62-76 | byte i is ' ' + ((A^((i mod raw)+1) * s mod M) mod 95), or the same with raw = 1 if raw is below 1 |
| VarintSpec.CanonicalForm64 | src/c2_coding.cc:193-208 | the consumed bytes re-encode identically iff the last one is no superfluous zero and a tenth byte is at most 1; VarintLength(v) <= consumed <= 10 |
| VarintSpec.CanonicalForm32 | src/c2_coding.cc:163-179 | the same for 32 bits: at most 5 bytes, a fifth byte at most 15 |
| VarintSpec.DecodersAgree | src/c2_coding.cc:163-208 | the 32-bit decoder accepts exactly what the 64-bit decoder accepts within five bytes, with the same length and a value equal modulo 2^32 |
| VarintSpec.ParseVarint32 | src/c2_coding.cc:91-117 | decoding an encoded 32-bit value, whatever follows, gives the value and consumes the encoding |
| VarintSpec.ParseVarint64 | src/c2_coding.cc:125-134 | the same for 64-bit values |
| VarintSpec.ParseRejectsProperPrefix | src/c2_coding.cc:163-208 | every proper prefix of an encoding is rejected by both decoders |
| VarintSpec.VarintIsPrefixFree | src/c2_coding.cc:125-134 | two streams that begin with encodings and are equal begin with the same value |
| VarintSpec.VarintByte | src/c2_coding.cc:125-134 | byte i of an encoding is v / 128^i mod 128, with the top bit set on all but the last |
| VarintSpec.ParseIff | src/c2_coding.cc:163-208 | when byte n is the first with the top bit clear, the decoders accept iff n < 5 and n < 10, and the value is the sum of the low seven bits weighted by 128^i, modulo the word |
| VarintSpec.ParseUnterminated | src/c2_coding.cc:163-208 | bytes that all have the top bit set are rejected |
| VarintSpec.LengthIsLeast | src/c2_coding.h:73-74 | the encoded length is the least k >= 1 with v < 128^k |
| VarintSpec.LengthIsMonotone | src/c2_coding.cc:154-161 | a larger value never has a shorter encoding |
| VarintSpec.LengthBounds | src/c2_coding.cc:119-140 | 5 bytes suffice for 32-bit and 10 for 64-bit values, so the stack buffers of `PutVarint` do |
| Coding.UnrolledIsVarint | src/c2_coding.cc:91-117 | the five branches store the same bytes as the loop, for every 32-bit value |
| Coding.EncodeVarint32 | src/c2_coding.cc:91-117 | stores exactly the encoding at the offset, changes no other byte, returns the offset behind it |
| Coding.EncodeVarint64 | src/c2_coding.cc:125-134 | the loop does the same for 64-bit values |
| Storage.SpliceAt | src/c2_coding.cc:44-134 | what storing at an offset means: those bytes there, and every other byte as it was |
| Coding.PutVarint32 | src/c2_coding.cc:119-123 | appends the encoding, through a 5-byte buffer |
| Coding.PutVarint64 | src/c2_coding.cc:136-140 | appends the encoding, through a 10-byte buffer |
| Coding.VarintLength | src/c2_coding.cc:154-161 | returns the length of the encoding |
| Coding.EncodeLengthPrefixedSlice | src/c2_coding.cc:142-147 | stores the varint of the narrowed size and the payload at the offset and nothing else |
| Coding.PutLengthPrefixedSlice | src/c2_coding.cc:149-152 | appends the varint of the narrowed size and the whole payload |
| Coding.DecodeRound | src/c2_coding.cc:166-176 | OR-ing shifted payloads in a 32- or 64-bit word adds them with their weights 128^i, modulo the word |
| Coding.GetVarint32PtrFallback | src/c2_coding.cc:163-179 | the loop succeeds iff one of the first 5 bytes has the top bit clear, returns the pointer behind it and stores the value modulo 2^32; on failure the out-parameter is untouched |
| Coding.GetVarint32Ptr | src/c2_coding.h:137-147 | with the inline one-byte path in front, the same answer as the fallback alone |
| Coding.GetVarint64Ptr | src/c2_coding.cc:193-208 | the 64-bit loop: first 10 bytes, value modulo 2^64 |
| Coding.GetVarint32 | src/c2_coding.cc:181-191 | succeeds iff the specification does, advances the slice by the bytes consumed, leaves slice and value alone on failure |
| Coding.GetVarint64 | src/c2_coding.cc:210-220 | the same for 64 bits |
| Coding.GetLengthPrefixedSlicePtr | src/c2_coding.cc:222-230 | accepts iff the varint is good and the payload fits; on failure the result slice is unchanged |
| Coding.GetLengthPrefixedSlice | src/c2_coding.cc:232-241 | accepts the same inputs with the same payload; on failure the input is unchanged (bad varint) or moved past exactly the varint (payload too short) |
| Records.TextRoundTripIff | src/c2_coding.cc:149-152 | a length-prefixed string is read back iff it has fewer than 2^32 bytes |
| Records.DecodeText | src/c2_coding.cc:142-152 | what is read back in general: the first (size mod 2^32) bytes |
| Records.MixedRoundTrip | src/c2_coding.cc:119-152 | any list of varint32, varint64 and string records, followed by any suffix, is read back by the matching calls, leaving exactly the suffix |
| Records.TruncatedStream | src/c2_coding.cc:181-241 | cut an encoded stream anywhere and decode until failure: the results are exactly the records wholly before the cut |
| Records.TruncatedRest | src/c2_coding.cc:181-241 | after decoding a cut stream until failure, what is left in the input is exactly the unread part of the record that was cut |
| Records.UnreadIsCutRecord | src/c2_coding.cc:232-241 | that record is the first one not wholly before the cut; its unread part is all of it before the cut, without the length prefix if that is whole |
| Records.WholeBeforeIsGreatest | src/c2_coding.cc:181-241 | the number of records wholly before the cut is the greatest whose encodings fit in the cut |
| Records.DecodeRejectsProperPrefix | src/c2_coding.cc:181-241 | no proper prefix of an encoded record is accepted |
| Records.GetRecord | src/c2_coding.cc:181-241 | each `Get...` routine, on any input, answers the record the stream theorems speak about and leaves the input where they say, on failure too |
| Records.PutAll | src/c2_coding.cc:119-152 | one `Put...` call for each record appends exactly the encoded stream |
| Records.GetStream | src/c2_coding.cc:181-241 | one `Get...` call after another until one fails yields exactly the records, and leaves exactly the bytes, that the stream specification says |
| Records.WriteCutRead | src/c2_coding.cc:119-241 | records written by the `Put...` routines and cut at any byte are read back by the `Get...` routines up to the last whole one, leaving the unread part of the next |
| Records.PutRecord | src/c2_coding.cc:119-152 | each `Put...` routine appends the encoding the stream theorems speak about |
| Fixed.EncodeFixed16 | src/c2_coding.cc:44-51 | on either kind of host, stores the two little-endian digits and nothing else |
| Fixed.EncodeFixed32 | src/c2_coding.cc:53-62 | the same for four digits |
| Fixed.EncodeFixed64 | src/c2_coding.cc:64-77 | the same for eight digits |
| Fixed.PutFixed32 | src/c2_coding.cc:79-83 | appends the four digits |
| Fixed.PutFixed64 | src/c2_coding.cc:85-89 | appends the eight digits |
| Fixed.DigitAt | src/c2_coding.cc:57-60 | shifting by 8i and masking picks the i-th base-256 digit, the byte a little-endian host stores there |
| Fixed.DecodeFixed16 | src/c2_coding.h:95-105 | OR of shifted bytes is the number of the base-256 digits |
| Fixed.DecodeFixed32 | src/c2_coding.h:107-119 | the same for four bytes |
| Fixed.DecodeFixed64 | src/c2_coding.h:121-132 | the same for eight bytes, through two 32-bit halves |
| Fixed.FixedRoundTrip | src/c2_coding.h:93-132 | decoding inverts encoding at each width, whichever branch reads |
| Fixed.FixedReencode | src/c2_coding.h:93-132 | encoding inverts decoding on every byte sequence |
| Slices.CompareIsOrderIff | src/c2_slice.cc:42-52 | for which sizes, of all sizes, `compare` has an answer and orders all contents correctly: exactly those with the shorter size below 2^31 |
| Slices.CompareIsOrder | src/c2_slice.h:124-128 | below 2^31 bytes `compare` is negative, zero or positive as the left operand is less, equal or greater in unsigned lexicographic order |
| Slices.LessIff | src/c2_slice.h:124-128 | that order is decided at the first difference, by the smaller unsigned byte or the end of the shorter operand |
| Slices.LessIsTotal | src/c2_slice.h:151-171 | that order is total, irreflexive and antisymmetric |
| Slices.LessIsTransitive | src/c2_slice.h:151-171 | and transitive |
| Slices.EqualsIsEquality | src/c2_slice.h:167-169 | `==` decides equality of contents |
| Slices.StartsWithIsPrefix | src/c2_slice.h:130-133 | `starts_with` decides prefix, and a prefix is never greater |
| Slices.EndsWithIsSuffix | src/c2_slice.h:135-142 | `ends_with` decides suffix |
| Slices.Slice.RemovePrefix | src/c2_slice.h:91-96 | the contents lose their first n bytes |
| Slices.Slice.RemoveSuffix | src/c2_slice.h:98-102 | the contents lose their last n bytes |
| StatusRuns.Program.Run | src/c2_status.h:115-130 | any sequence of construct, copy, assign (self-assignment too) and destroy keeps ownership and makes the variables behave as independent values |
| StatusRuns.Program.RunAndDestroyAll | src/c2_status.h:52-56 | after any sequence, once every variable is destroyed no block is live |
| StatusRuns.DestroyEachEmpties | src/c2_status.h:52-56 | destroying the declared variables one by one, in any order, is allowed and leaves none |
| StatusRuns.EffectOnTarget | src/c2_status.h:52-56 | a statement declares, changes or destroys only its own variable, and only the destructor ends one |
| StatusRuns.Program.PrintAfterChain | src/c2_status.cc:44-101 | for every code and all messages that fit, after any chain of copies and assignments `ToString` of the last variable gives the name of the code, then ": " and the message if it is not empty, the second part behind another ": " |
| StatusRuns.Program.PrintOkAfterChain | src/c2_status.cc:85-87 | a success prints as "OK" after any chain of copies and assignments |
| StatusRuns.Program.HandOnAndPrint | src/c2_status.h:115-130 | whatever a variable holds, the last variable of a chain of copies and assignments from it prints the same |
| StatusRuns.Program.Print | src/c2_status.cc:85-101 | in every valid state `ToString` of a variable prints the value it stands for |
| StatusRuns.ChainKeepsValue | src/c2_status.h:115-130 | on the values the variables stand for, every chain of copies and assignments is allowed and delivers the value it started from |
| StatusRuns.ChainLinks | src/c2_status.h:115-130 | such a chain is one copy or assignment for each variable, each from the variable before |
| StatusRuns.Program.OneBlockPerError | src/c2_status.h:102-107 | in every valid state there are as many live blocks as error variables, and every stored code is in 1..8 |
| StatusRuns.OwnershipCount | src/c2_status.h:53-56 | when every block has exactly one owner, blocks and owners are equally many |
| StatusRuns.OwnershipReplace | src/c2_status.h:119-130 | freeing the old block and taking a new one keeps exactly one owner per block |
| StatusRuns.Program.DoAssign | src/c2_status.h:119-130 | assignment makes one variable equal to the other, changes no third one, and neither leaks nor frees twice |
| StatusModel.Status.Assign | src/c2_status.h:119-130 | frees the old block and owns a fresh copy, unless both pointers are the same |
| StatusModel.Status.Copy | src/c2_status.h:115-117 | the copy owns a fresh block with the same meaning |
| StatusModel.Status.CopyState | src/c2_status.cc:44-50 | a fresh block, of the size stored in the header, with the same bytes |
| StatusModel.Status.Make | src/c2_status.cc:52-67 | whenever the writes stay inside the block, packs length, code and the joined messages, each cut to its 32-bit length, into a fresh well-formed block |
| StatusModel.PackingIsExactIff | src/c2_status.cc:54-66 | the writes stay inside the block and the stored length is that of the joined message iff that length plus 5 is below 2^32, and then the whole message is stored |
| StatusModel.PackingExamples | src/c2_status.cc:54-66 | the failing inputs: one length for which nothing is allocated and the writes do not fit, one whose message is stored as empty |
| StatusModel.FittingWrites | src/c2_status.cc:54-57 | the writes stay inside the block iff the joined length of the narrowed messages plus 5 is below 2^32, and then neither the stored nor the allocated size has wrapped around |
| StatusModel.Status.ToString | src/c2_status.cc:85-101 | "OK", or the name of the code, then ": " and the message if it is not empty |
| StatusModel.PrintedTexts | src/c2_status.cc:69-101 | the text of success and of each of the eight codes, written out |
| StatusModel.AsciiByte | src/c2_status.cc:69-101 | a text is printed character by character |
| StatusModel.NotFoundText | src/c2_status.cc:69-101 | the text of code 1 byte for byte |
| StatusModel.PrintedMessage | src/c2_status.cc:92-99 | a non-empty message follows the text of the code behind the bytes of ": " |

## Left out

- `IndexBuilder`, `Column`, the part files and the benchmark: wrappers around FastBit, whose source is not part of this model.
- Files, environment, threads and time (`c2_io`, `c2_env`, `port_posix`): system calls.
- `CompressibleString` takes the raw length as an integer already computed; the floating-point product `len * compressed_fraction` is not modelled.
- RandomGenerator.Random.Skewed: requires max_log <= 30 because `1 << base` is computed in an `int`.
- SkewedRuns.SkewedPairCount: how b and M - b share their total, unless they are the same base, is not stated, nor how the bits drawn after a base are distributed.
- The slice a string generator returns, which is the whole of the string it filled.
- `memcmp` is modelled with the difference of the first two differing bytes; the results only speak of its sign.  Where a negative length would reach it, which C leaves undefined, `Slices.Compare` has no answer.
- StatusModel.Status.Make: requires the writes to stay inside the block, as C does; `StatusModel.FittingWrites` says for which lengths they do.
- The length word of a status block is modelled with least significant byte first; it is only ever copied and read back by the same host.
- The factory functions generated by `DEF_ERR` are the packing constructor with a fixed code; codes are numbers 1..8, and 9 (`kUnknownError`) has no factory.
- Trivial accessors (`empty`, `data`, `ok`, `clear`, `substr`, `c_str`).
