# Verified model of the CachedMoE CPU reference

CachedMoE is an inference engine for a mixture-of-experts language model. This project models the
parts of it whose correctness is an argument rather than a reading, and proves that argument in Dafny:

- **Speculative decoding** (`Measure`, `Sampler`, `Dot16`, `Lattice`, `LatticeBuild`, `Vocab`,
  `Acceptance`, `Losslessness`, `SpeculativeCycle`, `SpeculativeRun`, `SpeculativeCode`,
  `SpeculativeInputs`, `DraftLength`, `GreedyRun`). A lattice of K candidates at P positions is built, one of its K^P
  paths is chosen by a dynamic program or sampled, and a prefix of it is accepted. The dynamic programs
  are proved optimal over all paths, tie-breaking included. Both sampling rules are proved lossless:
  probabilities are lengths of intervals of the uniform variates, and the integral over all variates of
  a cycle, continued by anything that samples the target, is the probability of plain sampling. Greedy
  speculation is proved to reproduce the plain greedy decode over whole runs.
- **Number formats** (`Rounding`, `Narrowing`, `Formats`, `ActQuant`, `ActQuantBlock`, `Gemv`, `GemvLayout`). E4M3,
  fp16 and bf16 encoders on bit fields against one definition of rounding to nearest with ties to even,
  block quantisation as a bounded-error projection, and blocked matrix-vector products against the
  decoded matrix.
- **JSON** (`JsonText`, `JsonParser`, `JsonRoundTrip`, `JsonGrammar`, `JsonScalars`, `JsonDocuments`,
  `JsonSound`, `JsonNumbers`, `JsonUnicode`). The cursor-moving parser is proved against functions of the
  unread text; those functions accept exactly the texts of an independent grammar with their meaning,
  invert the escaping writer, and read `\u` escapes as UTF-8.
- **Concurrent protocols** (`CopyRing`, `CopyProtocol`, `CopySafety`, `CopyTheorems`, `CopyLiveness`,
  `CopyLimits`, `Inbox`, `InboxRun`,
  `InboxKinds`). The staged-copy ring and the request inbox as state machines whose steps are the
  critical sections and atomic operations of their threads; theorems hold for every interleaving.
- **Ranking and latches** (`Gate`, `Thermal`). The router's top-k, the thermal latch and the time budget,
  each fold against a property of the whole input or history.

Code that works by changing things step by step is a method or a class here, proved against a
specification function; theorems are lemmas about those functions. P, K, Kv, the vocabulary, the Markov
rank, the ring's sizes and the history lengths are parameters. Doubles are exact reals; exponential and
logarithm are parameters constrained by their laws (`LatticeBuild.ExpLog`) where a result needs them. A
float32 is its bit pattern with the exact value in units of 2^-149.

`dafny verify dfyconfig.toml` checks the project.

## What the proofs turned up

- **Activation quantisation can overflow.** For finite inputs the decoded block contains an infinity
  exactly when the block maximum is at least 248 * 2^120 (`ActQuantBlock.OverflowExactly`), for
  example for the largest float32 (`ActQuantBlock.OverflowHappens`).
- **The parser accepts more numbers than section 6 of RFC 8259.** A leading plus, leading zeros, a
  point without digits before or behind it and an exponent without digits are accepted; the accepted
  texts are exactly those of `JsonGrammar` (`JsonSound.AcceptsExactly`).
- **Surrogates are paired greedily.** A high surrogate takes the next escape with it even when that is
  another high surrogate, so the pair behind it is split. The parser agrees with the standard exactly
  when every run of high surrogates in front of a low one has odd length (`JsonUnicode.PairsAsStandard`,
  counterexample `JsonUnicode.PairIsSplit`).
- **After a failed copy the ring stops protecting slots.** `take` gives out a slot that is still held
  exactly after a copy has failed (`CopyLimits.TakesHeldSlot`); a read into such a slot is possible
  exactly with more groups than slots and at least three groups (`CopyLimits.OverwriteLimit`).
- **A failed read lifts the limit on open groups.** The gate then lets every group through, and `depth`
  is exceeded exactly where there are more slots and more groups than that (`CopyLimits.OpenLimit`, with
  a run for every such configuration in `CopyLimits.GateOpens`). The slots remain the limit.
- **A refused request leaves completed slots uncopied.** The copier may end before they are queued
  (`CopyLimits.LeftBehind`); it copies everything exactly when no request was refused
  (`CopyLimits.CopiesAllExactly`).
- **Lattices with an anchor are not lossless.** Their rows sum to less than one over the candidates;
  `sample_index` renormalises them and the acceptance test does not. A row is lossless for every target
  exactly when it sums to one (`SpeculativeCycle.LosslessExactly`, `SpeculativeInputs.BuiltRowLossless`),
  which is what the header asks of lattices that are sampled from.
- **The router reports at most 16 experts, under ids of 16 bits.** It returns at least k experts exactly
  for k up to 16 (`Gate.GateTopK`), and two ids can collide exactly beyond 65536 experts
  (`Gate.IdsDistinctExactly`).
- **The encoder saturates.** `fp8_encode_rn` is documented for magnitudes up to 448; the code maps every
  larger finite magnitude to 448, and `Formats.Fp8Nearest` covers all of them.

## Model

| member | source | states |
|---|---|---|
| Sampler.FirstArgmax | cpu/dspark_tree.cpp:31-37 | the first index whose value no other exceeds |
| Sampler.FirstArgmaxUnique | cpu/dspark_tree.cpp:31-37 | that description has exactly one solution |
| Sampler.Scan | cpu/dspark_tree.cpp:40-52 | the cumulative scan stops at the first partial sum above the threshold, with the last positive entry as fallback |
| Sampler.ScanSpelt | cpu/dspark_tree.cpp:40-52 | for any weights and threshold: the first running sum above it, failing that the last positive weight, failing that the first index |
| Sampler.SampleIndex | cpu/dspark_tree.cpp:40-52 | sampling by inverse CDF computes `Pick` |
| Sampler.PickInterval | cpu/dspark_tree.cpp:40-52 | index i is picked exactly for the variates of the half-open interval between the normalised partial sums before and after it |
| Sampler.PickPositive | cpu/dspark_tree.cpp:40-52 | an entry of weight zero is never picked |
| Sampler.IntegralOfPick | cpu/dspark_tree.cpp:40-52 | integrating any payoff of the picked index over the variate gives the weighted mean of the payoffs |
| Measure.AreaUnique | cpu/dspark_tree.cpp:40-52 | the length of a piecewise constant choice does not depend on how the unit interval is cut |
| Measure.IntegralIs | cpu/dspark_tree.cpp:40-52 | any cutting of the unit interval into steps gives the integral |
| Dot16.Dot | cpu/dspark_tree.cpp:101-119 | sixteen lanes accumulated block by block and added in order, for arbitrary add and mul |
| Dot16.LaneOrder | cpu/dspark_tree.cpp:109-114 | a lane adds its products from the front, each to what is there |
| Dot16.LaneGrows | cpu/dspark_tree.cpp:109-114 | one more block adds one product to every lane |
| Dot16.FoldOrder | cpu/dspark_tree.cpp:116-117 | the lanes are added from the first to the last |
| Dot16.Confidence | cpu/dspark_tree.cpp:271-291 | two operands one after the other perform literally the additions and multiplications of one dot over their concatenation, plus the bias, for arbitrary non-associative add and mul |
| Dot16.Dot16Exact | cpu/dspark_tree.cpp:101-119 | over exact arithmetic the lanes compute the plain dot product |
| LatticeBuild.LseSeq | cpu/dspark_tree.cpp:55-65 | the shifted sequential logsumexp with an optional extra term |
| LatticeBuild.LseMass | cpu/dspark_tree.cpp:55-65 | its exponential is the total mass, whatever the shift |
| LatticeBuild.LseNormalises | cpu/dspark_tree.cpp:55-65 | subtracting it divides a weight by the total mass |
| LatticeBuild.LatticeBuilder.Build | cpu/dspark_tree.cpp:121-173 | succeeds exactly on well-sized inputs, then holds the specified tables; a refused input changes nothing |
| LatticeBuild.BuiltTables | cpu/dspark_tree.cpp:141-171 | candidates keep their tokens, and log-weights of a row differ by base logits plus plain dot products of the previous candidate's embed, or the input token's, with the heads |
| LatticeBuild.LatticeBuilder.TailMass | cpu/dspark_tree.cpp:149-162 | the log mass outside the candidates, measured at the anchor row |
| LatticeBuild.RowTotal | cpu/dspark_tree.cpp:149-170 | every row of a built lattice has a positive total of at most one, which is one exactly where the anchor row's exp(score - lse) do not add up to less than one |
| LatticeBuild.RowNormalised | cpu/dspark_tree.cpp:163-170 | without an anchor every row of a built lattice is a probability distribution over its K candidates |
| LatticeBuild.TailExactly | cpu/dspark_tree.cpp:149-162 | the tail term is there exactly when the anchor row's exp(score - lse) add up to less than one |
| LatticeBuild.AnchorExact | cpu/dspark_tree.cpp:149-170 | the anchor row carries exp(score - lse), the exact full-vocabulary probabilities, exactly where they add up to at most one |
| Lattice.PathChain | cpu/dspark_tree.cpp:183-190 | every pick is the first best candidate after the pick before it |
| Lattice.ExtendBest | cpu/dspark_tree.cpp:191-214 | exchange step: the first best predecessor of a candidate extends to the reverse-lexicographically least best path ending there |
| Lattice.PathViterbi | cpu/dspark_tree.cpp:191-214 | the path has the largest summed logq of all K^P paths and is the reverse-lexicographically smallest of the best ones |
| Lattice.HornerIdentity | cpu/dspark_tree.cpp:215-235 | the backward recursion w * (1 + g) is the sum of the cumulative products |
| Lattice.PathEal | cpu/dspark_tree.cpp:215-235 | no path has a larger expected accepted length, for all non-negative weights |
| Lattice.EalValue | cpu/dspark_tree.cpp:254-263 | the forward loop computes the expected accepted length, in both forms |
| Lattice.Sample | cpu/dspark_tree.cpp:240-252 | position by position, an inverse-CDF draw from the row of the previous pick |
| Vocab.OverlapPlusExcess | cpu/dspark_tree.cpp:343-357 | the overlap min(p, q) plus the excess max(0, p - q) is the whole target |
| Acceptance.AcceptSamplingExact | cpu/dspark_tree.cpp:369-419 | the loop computes the specified block: accepted drafts, then a correction or the bonus; one token more than were accepted |
| Acceptance.ExactReject | cpu/dspark_tree.cpp:388-410 | the correction: by cumulative excess inside the candidates, else the masked sample |
| Acceptance.AcceptSampling | cpu/dspark_tree.cpp:320-367 | the same for the top-Kv rule |
| Acceptance.TopReject | cpu/dspark_tree.cpp:347-360 | the correction drawn from the excess on the verify list, the argmax where there is none |
| Acceptance.TopFallback | cpu/dspark_tree.cpp:356-357 | where the verify list has nothing over the proposal, the correction is its first best token |
| Acceptance.FindWeight | cpu/dspark_tree.cpp:340-342 | the scan finds the weight of the first matching id, zero without one |
| Losslessness.DrawLaw | cpu/dspark_tree.cpp:362-363 | a draw from the target emits every token with the target's probability |
| Losslessness.PlainChain | cpu/dspark_tree.h:123-136 | plain sampling multiplies conditional probabilities |
| Losslessness.ExactSplit | cpu/dspark_tree.cpp:388-410 | excess inside the candidates plus the masked row is the full-vocabulary excess |
| Losslessness.TopSplit | cpu/dspark_tree.cpp:347-357 | excess listed on the verify ids is the full-vocabulary excess of the truncated target |
| Losslessness.CorrectionLaw | cpu/dspark_tree.cpp:347-410 | under both rules the correction is distributed as the normalised excess, token by token |
| SpeculativeCycle.AcceptCut | cpu/dspark_tree.cpp:384-387 | the test u * q < p accepts on an interval of length min(1, p / q) |
| SpeculativeCycle.MassSplit | cpu/dspark_tree.cpp:320-419 | accepted and rejected mass make up the proposal, accepted mass and excess the target, token by token |
| SpeculativeCycle.MassBalance | cpu/dspark_tree.cpp:320-419 | the rejected proposal mass equals the excess of the target exactly for rows that sum to one |
| SpeculativeCycle.RejectionPossible | cpu/dspark_tree.cpp:354-357 | where a rejection is possible the excess is positive: the total == 0 fallback has probability zero |
| SpeculativeCycle.StepMass | cpu/dspark_tree.cpp:320-419 | for any row of total at most one, proposing, testing and correcting, integrated over the four variates, emits y with probability `Emission` |
| SpeculativeCycle.StepLaw | cpu/dspark_tree.cpp:320-419 | for a row that sums to one that is the target's probability, inside and outside the candidates |
| SpeculativeCycle.TooOften | cpu/dspark_tree.cpp:369-419 | for a row of total below one, a target and a candidate that is emitted too often |
| SpeculativeCycle.LosslessExactly | cpu/dspark_tree.h:115-136 | a row of total at most one is lossless for every target exactly when it sums to one |
| SpeculativeRun.VolumeIs | cpu/dspark_tree.cpp:320-419 | from any accepted prefix on, the cycle's integral is the plain probability of the rest |
| SpeculativeRun.CycleLossless | runtime/speculate.cpp:116-137 | a whole cycle, continued by anything that samples the target, has the target's joint distribution; its length may be decided position by position from the tokens drafted so far |
| SpeculativeRun.ChainLossless | runtime/speculate.cpp:92-222 | so has any number of cycles in a row, whatever is drafted after each context and whatever rule ends each draft |
| SpeculativeCode.SamplePrefix | cpu/dspark_tree.cpp:240-252 | drawing later positions never changes the earlier ones |
| SpeculativeCode.ExactIsCycle | runtime/speculate.cpp:130-203 | sampling all P positions first and accepting on those the rule lets through is the position-by-position process the law is proved for |
| SpeculativeCode.TopIsCycle | cpu/dspark_tree.cpp:320-367 | the same for the top-Kv rule |
| SpeculativeInputs.BuiltIsProposal | cpu/dspark_tree.cpp:121-173 | lattices built without an anchor over distinct candidates meet the hypothesis of losslessness |
| SpeculativeInputs.BuiltRowLossless | cpu/dspark_tree.cpp:149-170 | a row of any built lattice is lossless for every target exactly when the anchor row leaves no mass outside its candidates |
| SpeculativeInputs.SoftmaxIsLaw | cpu/dspark_tree.cpp:328-332 | the softmax of a verify row is a probability distribution |
| SpeculativeInputs.CandidatesAreSoftmax | cpu/dspark_tree.cpp:379-380 | exp(logit - lse) at the candidates is the full row's softmax there |
| SpeculativeInputs.ExactInputIsCall | runtime/speculate.cpp:183-202 | the arrays of a verify pass are the exact rule's call for which losslessness is proved |
| SpeculativeInputs.TopInputIsCall | cpu/dspark_tree.h:115-121 | the lists of a verify pass are the top-Kv rule's call for which losslessness is proved |
| SpeculativeInputs.TopEmitsListed | cpu/dspark_tree.cpp:338-360 | the top-Kv rule emits only tokens of the verify list, whatever was proposed |
| DraftLength.KFromConfidence | cpu/dspark_tree.cpp:295-304 | the loop computes the number of leading positions before the product of sigmoids falls below theta |
| DraftLength.LongestPrefix | cpu/dspark_tree.cpp:295-304 | exactly the prefixes up to the result have a product of at least theta |
| DraftLength.PrefixRule | runtime/speculate.cpp:116-121 | whether position j is verified depends only on the confidences up to j |
| DraftLength.VerifiedByConfidence | runtime/speculate.cpp:116-128 | the length the speculator uses, at least one, is a rule decided position by position, so the cycle law applies to it |
| GreedyRun.AcceptGreedy | cpu/dspark_tree.cpp:306-318 | the block is the target's own choices up to and including the first that differs from the draft |
| GreedyRun.RowsArePlain | cpu/dspark_tree.cpp:306-318 | while drafts agree with their rows, the rows are the plain greedy decode |
| GreedyRun.Cycle | cpu/dspark_tree.cpp:306-318 | a cycle emits the next accepted + 1 tokens of the plain decode, and accepted is the length of the longest common prefix of draft and plain decode |
| GreedyRun.Generate | bench/draft_head_capture.cpp:149-176 | the whole run is the plain greedy decode; it takes exactly the cycles that the agreement of each draft with the plain decode allows, and cycles plus accepted drafts account for every token but the first |
| Rounding.NearestOfBracket | cpu/dequant.cpp:40-68 | rounding between two neighbours of a grid is rounding onto the whole grid, saturating at its top |
| Rounding.NearestMonotone | cpu/dequant.cpp:40-68 | rounding to nearest never reverses an order |
| Narrowing.ShiftNearest | cpu/dequant.cpp:106-168 | rounding a float32 bit pattern by dropping mantissa bits is rounding its value, across carries and saturation |
| Formats.Fp8Nearest | cpu/dequant.cpp:40-68 | the nearest E4M3 value, ties to even, saturating at 448, for every magnitude |
| Formats.Fp8Ordered | cpu/dequant.cpp:40-68 | encoding keeps the order of values, whatever their signs |
| Formats.Fp8WidenExact | cpu/dequant.h:39-55 | the float32 of every finite E4M3 magnitude has exactly its value |
| Formats.Fp8RoundTrip | cpu/dequant.h:39-55 | decoding a byte that is not NaN and encoding it again returns the byte |
| Formats.Fp16Nearest | cpu/dequant.cpp:144-168 | roundTiesToEven (section 4.3.1 of IEEE 754-2019) for every non-NaN magnitude, subnormals, underflow and overflow to infinity included |
| Formats.Fp16WidenExact | cpu/dequant.cpp:122-142 | widening a half keeps its value |
| Formats.Fp16RoundTrip | cpu/dequant.cpp:122-168 | widening and narrowing is the identity on every non-NaN half |
| Formats.Bf16Nearest | cpu/dequant.cpp:113-120 | the rounding bias keeps the sign and rounds the magnitude to nearest, ties to even |
| Formats.Bf16RoundTrip | cpu/dequant.cpp:106-120 | widening a bf16 keeps its value and narrowing returns it |
| ActQuant.RoundScaleIsLeast | cpu/dequant.cpp:24-32 | the scale read off the rounded float32 product is the least power of two not below max(amax, 1e-4) / 448 |
| ActQuantBlock.FloorIs | cpu/dequant.cpp:24-32 | the floor is the float32 nearest to 1e-4 |
| ActQuantBlock.ReciprocalIs | cpu/dequant.cpp:24-32 | the factor is the float32 nearest to 1/448 |
| ActQuant.LeastScaleUnique | cpu/dequant.cpp:24-32 | there is only one such scale |
| ActQuant.CodeNearest | cpu/dequant.cpp:89-104 | the code at a scale is the nearest scaled E4M3 value, ties to even |
| ActQuant.CodeIsEncoder | cpu/dequant.cpp:40-68 | at scale one it is the encoder's |
| ActQuant.ErrorBound | cpu/dequant.cpp:89-104 | the decoded value is within max(v / 16, scale / 1024) of the input |
| ActQuant.Requantised | cpu/dequant.cpp:89-104 | a decoded value encodes to itself at its own scale and at half of it |
| ActQuant.ScaleKept | cpu/dequant.cpp:24-32 | the scale of a decoded block is the block's scale or half of it |
| ActQuant.QuantisationIsProjection | cpu/dequant.cpp:89-104 | requantising a decoded block returns the same values |
| ActQuantBlock.QuotientCode | cpu/dequant.cpp:96-101 | multiplying by the inverse scale, rounding below the normal range included, leaves the code unchanged |
| ActQuantBlock.NoClamp | cpu/dequant.cpp:96-99 | the clamp at 448 never binds |
| ActQuantBlock.MaxPattern | cpu/dequant.cpp:90-95 | the loop finds the block maximum |
| ActQuantBlock.ActQuantBlock | cpu/dequant.cpp:89-104 | least scale, nearest codes and stored values for the block, infinities where the value leaves the float32 range, nothing written behind it |
| ActQuantBlock.SignedError | cpu/dequant.cpp:96-103 | a stored number is its byte's value at the block's scale, has the activation's sign, and is within max(v / 16, scale / 1024) of it |
| ActQuantBlock.OverflowExactly | cpu/dequant.cpp:89-104 | decoding leaves the float32 range exactly when the block maximum is at least 248 * 2^120 |
| ActQuantBlock.OverflowHappens | cpu/dequant.cpp:89-104 | the block of just the largest float32 is stored as infinity |
| Gemv.BlockIsScaled | cpu/gemv_avx512.cpp:29-69 | scaling a block's partial sum once is scaling each of its elements, NaN elements included |
| Gemv.RowDot | cpu/gemv_avx512.cpp:29-104 | one output is the dot product of the decoded row with x, unless an exponent is NaN |
| Gemv.Gemv | cpu/gemv_avx512.cpp:18-104 | invalid exactly on bad sizes, corrupt exactly when some row has a NaN exponent, else every output is its decoded row's dot product |
| Gemv.DequantRow | cpu/dequant.cpp:170-225 | invalid exactly on bad sizes, corrupt exactly on a NaN exponent, else every element decoded, for any block size |
| Gemv.DequantMatrixRow | cpu/dequant.cpp:234-262 | the same for one row of a matrix, with its range and size errors |
| GemvLayout.Fp4Is | cpu/dequant.h:29-35 | an E2M1 nibble is its pattern on the grid with one mantissa bit, in halves, with its sign |
| GemvLayout.Fp8Is | cpu/dequant.h:39-55 | an E4M3 byte is NaN on the two largest patterns, else its signed value in units of 1/512 |
| GemvLayout.PackedElement | cpu/dequant.h:93-98 | element i of bytes packed low nibble first is nibble i |
| GemvLayout.Fp4Decoded | cpu/dequant.cpp:234-246 | an FP4 matrix packed from nibbles decodes (r, i) to nibble r * K + i times two to scale r * (K / 32) + i / 32 less 127 |
| GemvLayout.Fp8Decoded | cpu/dequant.cpp:248-262 | an FP8 matrix decodes (r, i) to byte r * K + i times two to scale (r / 32) * (K / 32) + i / 32 less 127 |
| GemvLayout.CleanByIndex | cpu/gemv_avx512.cpp:50-52 | a row is refused exactly when one of its exponents is 255 |
| GemvLayout.OutputFinite | cpu/gemv_avx512.cpp:29-104 | output m * rows + r is the plain dot product of decoded row r with inputs m * K onwards |
| GemvLayout.OutputNaN | cpu/gemv_avx512.cpp:29-104 | and NaN where one of its factors is |
| JsonParser.Parser.Skip | core/json.cpp:22-27 | moves the cursor over whitespace |
| JsonParser.Parser.Value | core/json.cpp:33-56 | reads what the unread text denotes and leaves the cursor on the rest, or reports the fault and its byte; the cursor advances and stays inside the text |
| JsonParser.Parser.Object | core/json.cpp:58-81 | the same for an object; a repeated key keeps its last value |
| JsonParser.Parser.Array | core/json.cpp:83-99 | the same for an array |
| JsonParser.Parser.StringLiteral | core/json.cpp:133-174 | the same for a string with its escapes |
| JsonParser.Parser.ReadUnicode | core/json.cpp:156-170 | the same for a unicode escape with its surrogate lookahead |
| JsonParser.Parser.ReadHex4 | core/json.cpp:118-131 | four hex digits, or the fault |
| JsonParser.Parser.NumberLiteral | core/json.cpp:176-196 | the same for a number, keeping its literal |
| JsonParser.ParseText | core/json.cpp:340-350 | a whole document: byte-order mark, one value, nothing but whitespace behind it |
| JsonRoundTrip.JsonQuote | core/json_write.h:19-44 | the loop writes the quoted, escaped string |
| JsonRoundTrip.StringBack | core/json.cpp:133-174 | an escaped string is read back byte by byte, whatever surrounds it |
| JsonDocuments.ValueBack | core/json.cpp:33-99 | any tree, printed with any whitespace between tokens, any spelling of its numbers and any escapes in its strings, is read back at any depth, exactly when it fits under the depth cap |
| JsonDocuments.DocumentBack | core/json.cpp:340-350 | a printed document parses to what it denotes exactly when it nests at most 64 levels; deeper ones are refused as too deep |
| JsonScalars.NumeralRead | core/json.cpp:176-196 | sign, digits, point, digits, exponent with its sign and digits: every such number with a mantissa digit is read to its end |
| JsonScalars.NumeralSplit | core/json.cpp:176-196 | whatever is taken for a number is such a number |
| JsonScalars.PiecesRead | core/json.cpp:133-174 | every spelling of a string, hex digits of either case included, is read as what it says |
| JsonScalars.StringSplit | core/json.cpp:133-174 | whatever is taken for a string is a spelling of what is returned |
| JsonGrammar.Spelling | core/json.cpp:33-99 | the bytes and words that the parser looks for, as text |
| JsonSound.ValueReads | core/json.cpp:33-99 | whatever is accepted as a value is a well-formed tree with its layout, within the depth cap, and is returned as what it means |
| JsonSound.AcceptsExactly | core/json.cpp:340-350 | a text is accepted with value v exactly when it is a document of the grammar, of at most 64 levels, that means v |
| JsonDocuments.QuoteBack | core/json_write.h:19-44 | parsing a quoted string returns it, for every byte string |
| JsonDocuments.QuotedIsText | core/json_write.h:19-44 | what `json_quote` writes is a string of the grammar that says what was quoted |
| JsonNumbers.JsonUintArray | core/json_write.h:46-54 | the loop writes the comma-separated decimals |
| JsonNumbers.UintArrayBack | core/json.cpp:231-241 | an array of 64-bit numbers, written and parsed, reads back as those numbers |
| JsonNumbers.UintExactly | core/json.cpp:231-241 | a decimal, with a plus sign or without, is read as an exact integer exactly when it fits 64 bits |
| JsonUnicode.Utf8Back | core/json.cpp:101-116 | the emitted bytes are valid UTF-8 (section 3 of RFC 3629) of the code point exactly when it is a scalar value |
| JsonUnicode.ScalarBack | core/json.cpp:156-170 | the one- or two-unit escape (section 7 of RFC 8259) of every scalar value is read as its UTF-8 |
| JsonUnicode.EscapesBack | core/json.cpp:156-170 | what any run of escapes, lone surrogates included, is read as |
| JsonUnicode.NonSurrogateApart | core/json.cpp:156-170 | surrogates on either side neither consume nor alter an escape that is not a surrogate |
| JsonUnicode.NonSurrogateBack | core/json.cpp:156-170 | so the parser reads its bytes in their place |
| JsonUnicode.PairsAsStandard | core/json.cpp:156-170 | a run of escapes is read as the standard pairs surrogates exactly when every run of high surrogates before a low one has odd length |
| JsonUnicode.PairIsSplit | core/json.cpp:156-170 | a run where it is not |
| CopyRing.CopyRing.Next | bench/io_dst_bench.cpp:288-295 | the copier's first section pops the front slot, or ends on an empty queue |
| CopyRing.CopyRing.Retire | bench/io_dst_bench.cpp:309-316 | its second section counts the copy, frees the slot and notes a failure |
| CopyRing.CopyRing.Take | bench/io_dst_bench.cpp:322-326 | marks a slot busy once it may |
| CopyRing.CopyRing.Complete | bench/io_dst_bench.cpp:327-330 | queues a slot |
| CopyRing.CopyRing.MayDrain | bench/io_dst_bench.cpp:331-335 | the condition `drain` waits for |
| CopyRing.CopyRing.Stop | bench/io_dst_bench.cpp:336-341 | asks the copier to end |
| CopySafety.StepKeeps | bench/io_dst_bench.cpp:286-341 | every step of every thread keeps the invariant of slots, queue, counters and latencies |
| CopyTheorems.SlotUse | bench/io_dst_bench.cpp:286-341 | without a copy failure each slot is in exactly one of idle, being read, queued, being copied; none is queued twice or read into twice |
| CopyTheorems.NoOverwrite | bench/io_dst_bench.cpp:496-499 | no request is submitted into a slot whose earlier copy has not retired |
| CopyTheorems.OpenGroups | bench/io_dst_bench.cpp:491-526 | each latency is noted once, the open counter counts the open groups, and it never exceeds depth while no read has failed |
| CopyLimits.GateOpens | bench/io_dst_bench.cpp:494-495 | a run in which a failed read lets depth + 1 groups be open |
| CopyLimits.OpenLimit | bench/io_dst_bench.cpp:491-504 | without a copy failure more than depth groups can be open exactly where depth is below the number of slots and of groups; never more than there are slots |
| CopyTheorems.FirstInFirstOut | bench/io_dst_bench.cpp:288-295 | slots are copied in the order in which they were queued, none lost and none twice |
| CopyTheorems.Drained | bench/io_dst_bench.cpp:331-335 | `drain` returns, without a copy failure, only when every group has been copied |
| CopyTheorems.StopCompletes | bench/io_dst_bench.cpp:336-341 | a copier that ends in a run not cut short by a refused request has copied every group and left an empty queue |
| CopyLimits.CopiesAllExactly | bench/io_dst_bench.cpp:527-541 | a copier that has ended has copied every group exactly when no request was refused |
| CopyLimits.LeftBehind | bench/io_dst_bench.cpp:514-534 | a run cut short after which a completed slot is queued and never copied |
| CopyLimits.AbandonLimit | bench/io_dst_bench.cpp:514-541 | without a copy failure slots can be left behind exactly with two slots and two groups or more, and only in runs cut short |
| CopyLimits.EndedForGood | bench/io_dst_bench.cpp:286-295 | an ended copier copies nothing in any continuation |
| CopyLiveness.RunsEnd | bench/io_dst_bench.cpp:491-535 | every run has at most total * (3 * parts + 11) + 8 steps |
| CopyLiveness.NeverBlocks | bench/io_dst_bench.cpp:286-341 | until the copier is joined some thread can always take a step in which nothing fails |
| CopyLimits.TakesHeldSlot | bench/io_dst_bench.cpp:322-326 | a slot that an earlier group still holds is taken exactly after a copy has failed |
| CopyLimits.OverwriteLimit | bench/io_dst_bench.cpp:322-326 | a read into a slot still held can happen exactly with more groups than slots and at least three groups, and only after a failed copy |
| Inbox.Inbox.Push | cli/serve.cpp:146-152 | appends an item |
| Inbox.Inbox.Pop | cli/serve.cpp:153-159 | removes the front item |
| Inbox.Inbox.Run | cli/serve.cpp:124-145 | the reader's loop queues the numbered items of the lines up to the first quit, then the end mark, and leaves the last cancel's mark |
| InboxKinds.KindsExactly | cli/serve.cpp:126-140 | a line is a cancel, generate or quit exactly when it is a JSON object, with any layout and spelling, whose last "op" member is that word; it is skipped exactly when it is spaces and tabs |
| InboxKinds.ItemsAreLines | cli/serve.cpp:126-141 | the queued items are exactly the lines that are neither skipped nor cancels, in order |
| InboxKinds.HeardExactly | cli/serve.cpp:140-144 | a line is heard exactly when no line before it asks to quit |
| InboxRun.StepKeeps | cli/serve.cpp:116-160 | every step of reader and engine keeps popped plus queued equal to the items of the lines done, and the mark equal to that of those lines |
| InboxRun.InOrder | cli/serve.cpp:124-159 | popped requests are the read ones in order, and their generates are numbered 1, 2, 3, ... |
| InboxRun.NoneLost | cli/serve.cpp:473-485 | an engine that stopped has popped every request up to the first quit or the end |
| InboxRun.MarksGrow | cli/serve.cpp:121-138 | cancel mark and generate counter never fall, and the mark never passes the counter |
| InboxRun.CancelledExactly | cli/serve.cpp:763-764 | a generate is cancelled exactly when a cancel line behind it has been carried out |
| InboxRun.PoppedLine | cli/serve.cpp:763-773 | for every popped generate the test of the generate path is that condition on its own line |
| InboxRun.StaysCancelled | cli/serve.cpp:763-764 | a cancelled generate stays cancelled in every continuation |
| Gate.PartialSort | cpu/gate.cpp:47-54 | the index array stays a permutation and its front is sorted and ranks before the rest |
| Gate.GateTopK | cpu/gate.cpp:33-69 | its errors exactly; else the first min(max(report, k), 16) experts by (score + bias descending, id ascending), ahead of all others, with 16-bit ids, unbiased scores and weights score / (sum + 1e-20) * scaling, written out; at least k of them exactly for k up to 16 |
| Gate.BiasHelps | cpu/gate.cpp:45-54 | raising one expert's bias never takes it out of the reported ones |
| Gate.BiasShift | cpu/gate.cpp:45-54 | adding one constant to every bias changes nothing |
| Gate.TopUnique | cpu/gate.cpp:45-54 | the ranking by (score + bias descending, id ascending) is unique: a shorter top is the start of a longer one |
| Gate.TopDistinct | cpu/gate.cpp:45-54 | ranked experts are distinct |
| Gate.IdsExact | cpu/gate.cpp:59-60 | up to 65536 experts the returned ids are the ranking, so they are distinct |
| Gate.TwinsCollide | cpu/gate.cpp:59-60 | for more experts, scores whose two best returned ids are the same |
| Gate.IdsDistinctExactly | cpu/gate.cpp:59-60 | two returned ids can be the same exactly where there are more than 65536 experts |
| Gate.ReportIrrelevant | cpu/gate.cpp:33-69 | ids, weights and raw scores of the chosen experts do not depend on `report` |
| Gate.DivisorPositive | cpu/gate.cpp:64-65 | for non-negative scores the divisor is positive |
| Gate.WeightsSum | cpu/gate.cpp:58-67 | the weights are numbers exactly where the divisor is not zero, and then add up to scaling * S / (S + 1e-20), S the sum of the chosen unbiased scores |
| Thermal.ThermalLatch.Update | bench/thermal_guard.py:42-50 | its errors exactly, and the new set of latched sensors |
| Thermal.LatchedIff | bench/thermal_guard.py:42-50 | after any history a sensor is latched exactly when some accepted reading reached its pause threshold and every accepted one from then on stayed above its resume threshold |
| Thermal.LatchedByReadings | bench/thermal_guard.py:42-50 | for readable samples in which no sensor goes missing, that is a property of the readings alone |
| Thermal.LatchedGpu | tools/runtime_defaults.py:61-65 | for a sensor named gpu or amdgpu:..., by the policy's graphics thresholds |
| Thermal.LatchedNvme | tools/runtime_defaults.py:61-65 | for a sensor named nvme or nvme:..., by the policy's drive thresholds |
| Thermal.RunBudget.Create | bench/thermal_guard.py:65-70 | a fresh budget, or none exactly where the limits are refused |
| Thermal.RunBudget.SetPaused | bench/thermal_guard.py:72-77 | starts or ends a pause, and ignores a repeated call |
| Thermal.RunBudget.Elapsed | bench/thermal_guard.py:79-82 | wall, paused and active time |
| Thermal.RunBudget.Check | bench/thermal_guard.py:84-89 | which limit is exceeded, the active one first |
| Thermal.BudgetTimes | bench/thermal_guard.py:63-82 | on a monotone clock the paused and active times are the lengths of the paused and running intervals, add up to the wall time, and the guard max(0, .) never binds |
| Thermal.ActiveGrows | bench/thermal_guard.py:79-82 | active time grows with the clock while running and stands still while paused |
| Thermal.ActiveNeverFalls | bench/thermal_guard.py:72-82 | no later call takes active time back |

## Left out

- Rounding of double arithmetic and of `dm_exp` / `dm_log`: sums, products, exponentials and logarithms in the lattice, the acceptance rules, the gate and the budgets are exact. Consequently minus infinity is an absent value, and the flat P * K * K tables are nested rows.
- Sampler.SampleIndex: the masked and full-row samples that the engine draws by Gumbel-max are inverse-CDF draws with the same law here; the engine's own sampler is not part of this model.
- GreedyRun.Generate: a cycle's draft is any function of the text so far; the target is any next-token function; capture output and the checks on engine counters are left out.
- DraftLength.KFromConfidence: `sigmoid` is a parameter with values between zero and one; the accessor `bias` is left out.
- NaN inputs of the encoders; `quantize_bf16_row_fp8`, whose scale is a rounded quotient rather than a power of two.
- Gemv.Gemv: products and sums are exact with one absorbing NaN; signed zero, infinities and float32 rounding are not modelled. The AVX-512 path is taken as its scalar loop.
- ActQuantBlock.ActQuantBlock: the output that may be omitted in the code is always written.
- JsonNumbers.UintArrayBack: `as_uint` is modelled for literals that `from_chars` takes whole; the way through `strtod`, `as_int`, `json_number` and the keyed accessors are left out.
- JsonParser.ParseText: which fault is reported and at which byte follows the code; only acceptance, and the nesting fault, are tied to the grammar. Error texts are left out.
- CopyProtocol: timing, Vulkan calls and the I/O engine are steps that may succeed or fail; `engine.drain` is taken to return only after every callback has run, as storage/io_engine.cpp promises. Spinning on the open counter is one step taken when the loop leaves.
- InboxRun: reading a line and parsing it is one step; `emit` and everything the engine does with a request except the cancel test are left out.
- Gate.GateTopK: `partial_sort` is a selection sort with the same result; min(report, 16) is required to be at most the number of experts, beyond which the original reads past its index array. A division by zero is one value, not a signed infinity or NaN.
- Thermal.LatchedIff: histories of recognised sensors; an unknown sensor name makes the update fail after part of it, which `Thermal.ThermalLatch.Update` states.
- Thermal policy validation, sensor discovery, signals and subprocesses.
- The engine, session pool, planner, expert store, KV cache, manifest and GPU code.
