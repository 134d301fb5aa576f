# The LT fountain codec and its session layer, verified

This project models a transport that sends one file over a lossy one-way channel: a fountain encoder turns the
file container into an endless stream of XOR combinations of its blocks, a peeling decoder recovers the blocks, and a
session layer frames, tags and locks the stream.  The models follow the Rust sources branch by branch; classes and
loops stand where the sources update state in place, functions and lemmas where they compute.

How the files build on each other:

- `Common`, `Sets`, `Modular`, `Bits`, `LittleEndian`, `Words`: options, results and error values, finite sets of
  block numbers, arithmetic modulo 2^32, packed bit vectors, byte encodings, blocks of 32-bit words and their XOR sums.
- `Prng`, `Soliton`, `Selection`: which blocks a sequence number combines.  The rejection loop of the selection has no
  counter; it ends because the generator is a bijective mixer over an odd additive step, so every 32-bit value
  appears exactly once in any 2^32 consecutive draws.
- `MachineWords`, `Golden`: the generator's operations are those of 32-bit words, and the model selects the subsets that
  the repository's tests pin for 2 and for 17 blocks, given rough numeric bounds on one logarithm and the ripple.
- `Probing`, `U32Set`: the open-addressing set of received sequence numbers.
- `Simd`, `Arena`, `BlockSets`: the chunked XOR kernels, the flat arena with its disjoint slots, and the two
  representations of a waiting frame's block set.
- `Peeling`, `Equations`, `Cascade`, `Soundness`, `Coupling`: what peeling determines, the invariant of the equation
  store, what each step of the cascade keeps, and how the decoder's fields represent the store.  Soundness is stated for
  EVERY source vector that satisfies the accepted equations, so an honest encoder is one instance.
- `Codec`: a short reference decoder, `Step`, that looks only at the set of accepted equations.
- `Decoder`: the class with the worklist cascade.  `AddFrame` is proved to implement exactly `Step`, and `Assemble` to
  return the payload that the accepted equations determine.
- `Runs`, `Causal`, `Stalls`: theorems about all runs (order independence, resource bounds, the first phase, single
  losses, dead ends), on `Step` and, through `Feed` and `Decode`, on the class.
- `Encoder`, `Frame`, `Session`, `SessionRuns`: the encoder, the wire format, sender and receiver, and end-to-end
  safety and exactly-once delivery over a channel that drops, duplicates, reorders, damages and mixes frames; `Transfer`
  is the documented transfer loop over the classes.
- `Interop`: the same in literal bytes and field values, so that it does not depend on how the model represents blocks,
  headers or modes.
- `Capacity`, `FileNames`, `Container`: capacity arithmetic and the file container.

Modelling decisions.  Sizes and counters are unbounded naturals; 32-bit values are naturals below 2^32 with explicit
wrap-around; `usize` is taken as 64 bits wide, so none of the saturating or checked size operations saturates or fails on
the values that pass the parameter tests.  Floating-point numbers are reals; `dlog` and `sqrt` are arbitrary functions.
The BLAKE3 tag is an arbitrary function of the tagged bytes.  The generator's xor-shifts are defined on natural numbers
bit by bit; the masks `i & mask` with a mask one below a power of two are remainders.  `contains` and `insert` share one
probe loop in the model, as do `sample` and `lower_bound` their bisection.  Which XOR kernel the processor selects is a
nondeterministic choice.

Findings, each with a proof:

- An empty payload fits no stream, yet the frame-size selection answers with a size; the input is
  `Capacity.EmptyPayloadCounterexample` and the exact condition `Capacity.SmallestIsLeastFitting`.
- `safe_file_name` applied twice differs from applied once exactly for names in which white space other than the blank
  comes right before trailing dots and blanks; the input is `FileNames.NotAlwaysIdempotent` and the exact condition
  `FileNames.SafeFileNameIdempotent`.
- Frames that arrive are not all accepted: when 4k frames of degree 2 come first, the arena is full with no block solved,
  and the complete first phase that follows is dropped although peeling what arrived determines every block.
  `Stalls.LateFirstPhase` is such an honest run for every `k` of at least 2 in both first-phase modes, `Stalls.LateSingle`
  the case of two blocks in pure soliton mode.  Completion is exactly peeling of what arrived when no budget made the
  decoder drop a frame (`Runs.SolvedFromArrived`), in particular for inputs within the budgets
  (`Runs.CompleteExactlyWhenDetermined`, `SessionRuns.DeliveredExactlyWhenDetermined`).
- An honest sender's frames can leave the decoder incomplete for good, in every mode and for every `k` of at least 2
  (`Stalls.HonestDeadEnd`); nothing more is ever accepted exactly in the states of `Stalls.FinalExactlyWhen`, and a full
  arena is one.  The storage budget is tested before redundancy, so there even a frame that needs no storage is dropped:
  `Stalls.RedundantFramesAreDroppedToo` says when, and `Stalls.HonestRedundantDrop` is an honest run in which it happens.
  These runs only ask that the total mass of the degree distribution lies below a generous bound.

The documented claim that any run of consecutive keys never collides holds (`U32Sets.U32Set.RunNeverCollides`).  Only
numbers with gaps can collide: no key is displaced exactly when no two keys agree modulo the number of slots
(`U32Sets.U32Set.NoCollisionExactlyWhen`), as the keys 0 and 8 do in 8 slots (`U32Sets.KeysEightApart`).

## Model

| member | source | states |
|---|---|---|
| Prng.MixBijective | src/prng.rs:18-23 | the output mixer of the generator is a bijection of the 32-bit values |
| Prng.FullCycle | src/prng.rs:16-24 | from any state, every 32-bit value is drawn at exactly one of 2^32 consecutive positions |
| Prng.SplitMix32.NextU32 | src/prng.rs:16-24 | the object's draws are the successive entries of its tape |
| Prng.SplitMix32.NextBounded | src/prng.rs:27-33 | a bounded draw is the next entry modulo the bound; bound 0 gives 0 and draws nothing |
| Prng.FrameSeedInjective | src/prng.rs:48-53 | for one session, different sequence numbers start from different generator states |
| Prng.FrameSeedOnto | src/prng.rs:48-53 | every generator state belongs to some sequence number, so the seed is a bijection |
| Prng.FirstDraw | src/prng.rs:16-53 | for each session, every 32-bit value is the first draw of some frame |
| Prng.TapeCovers | src/prng.rs:16-24 | from every position on, every 32-bit value still comes, within 2^32 draws |
| Prng.SessionsReshuffle | src/prng.rs:46-53 | for one sequence number, different sessions start from different generator states |
| Prng.SessionsOnto | src/prng.rs:46-53 | and every generator state belongs to some session |
| MachineWords.XorIsMachine | src/prng.rs:18-22 | the exclusive-or of the model, defined on numbers, is that of 32-bit machine words |
| MachineWords.ShrIsShiftRight | src/prng.rs:18-22 | likewise the right shift, one bit at a time |
| MachineWords.MixIsMachine | src/prng.rs:18-23 | the mixer on machine words, with its shifts 16, 15, 15 and its two wrapping products |
| MachineWords.SeedIsMachine | src/prng.rs:48-53 | the frame seed on machine words, with its shifts 13, 16 and its constants |
| Soliton.RhoTelescopes | src/soliton.rs:28-32 | the ideal-soliton part sums to 1 |
| Soliton.CdfIsDistribution | src/soliton.rs:15-47 | for every k >= 1 the table is positive, non-decreasing and ends in 1, whatever the logarithm and square root return |
| Soliton.DegreeMass | src/soliton.rs:27-46 | the probability of each degree is its normalised robust-soliton mass, so forcing the last entry to 1 changes nothing |
| Soliton.RobustSoliton | README.md:153-165 | the published formula on the table itself: with ripple R and spike s = ceil(k / R), every degree has the stated mass up to one common normaliser |
| Soliton.SolitonCdf | src/soliton.rs:15-47 | the two array loops compute that table |
| Soliton.DegreeIsLeast | src/soliton.rs:122-133 | for u < 1 the degree is the least d whose cumulative value reaches u, from 1 on it is k |
| Soliton.LowerBound | src/soliton.rs:109-120 | bisection finds the first entry that reaches x, or the last entry |
| Soliton.DegreeBinary | src/soliton.rs:122-133 | the full search returns that degree for every u, including the boundary cases |
| Soliton.DegreeCdf.Sample | src/soliton.rs:83-105 | the quantised search returns the same degree as the full search for every u |
| Soliton.NewDegreeCdf | src/soliton.rs:60-70 | the 1025 stored bounds are lower bounds of the multiples of 1/1024 |
| Selection.RejectionProgress | src/fountain.rs:76-84 | a rejected draw brings the next draw of some free block closer |
| Selection.Selected | src/fountain.rs:54-86 | both branches yield exactly d distinct blocks below k, for every d <= k |
| Selection.DenseEntry | src/fountain.rs:65-73 | in the dense branch, entry i is the block whose card lies at place i + draw % (k - i), traced back through the earlier swaps |
| Selection.DenseSameExactlyWhen | src/fountain.rs:69-73 | two series of draws select the same sequence exactly when draw i agrees modulo k - i for every i |
| Selection.DenseReachesAll | src/fountain.rs:69-73 | every sequence of d different blocks is selected by some draws |
| Selection.SparseExactlyWhen | src/fountain.rs:74-85 | in the sparse branch, the selection is exactly the different values of draw % k in the order of their first occurrence |
| Selection.FirstBlock | src/fountain.rs:54-86 | in both branches the first block is the first draw modulo k |
| Selection.SubsetOnTape | src/fountain.rs:39-52 | draw 0 over 2^32 fixes the degree, the least one whose cumulative mass reaches it; the draws from 1 on select that many blocks |
| Selection.FrameSubset | src/fountain.rs:47-52 | and the draws are those of the frame's seed |
| Selection.SelectDense | src/fountain.rs:61-73 | the in-place shuffle in the reused buffer is the shuffle of the identity, whatever the buffer held |
| Selection.SelectSparse | src/fountain.rs:74-85 | the rejection loop ends and selects what its specification selects |
| Selection.SelectBlocks | src/fountain.rs:54-86 | the selection depends only on k, d and the generator state |
| Selection.FrameIndices | src/fountain.rs:26-37 | the public reference: empty for inconsistent input, otherwise the frame's subset |
| Selection.FrameIndicesInto | src/fountain.rs:39-52 | the form used by encoder and decoder gives the reference subset, whatever is left in its buffers |
| Golden.SubsetsOfTwo | tests/golden.rs:72-109 | the pinned subsets for k = 2 and session 4242, given ln 2 below 0.7 and a ripple of 1 |
| Golden.SubsetsOfSeventeen | tests/golden.rs:72-109 | the pinned subsets for k = 17, in both branches, given bounds on the ripple and one logarithm |
| Bits.Test | src/set.rs:120-122 | reads one occupancy bit |
| Bits.Write | src/set.rs:125-132 | writes one bit and no other |
| Probing.HomeInjective | src/set.rs:115-117 | modulo a power of two the hash separates keys that differ there |
| Probing.SameHome | src/set.rs:115-117 | two keys share a home exactly when they agree modulo the table size |
| Probing.AbsentAt | src/set.rs:59-62 | a free slot met by the probe proves the key absent |
| Probing.StoreKeeps | src/set.rs:76-80 | filling that slot keeps every key reachable along an occupied run from its home slot |
| Probing.WindowAtHome | src/set.rs:3-4 | keys within a window no longer than the table all sit in their home slots |
| Probing.AtHomeExactlyWhen | src/set.rs:3-4 | in any table, every key is at home exactly when no two keys agree modulo its size |
| U32Sets.U32Set.Probe | src/set.rs:58-67 | the probe ends, because the load bound leaves a slot free, at the key or at a free slot that proves it absent |
| U32Sets.U32Set.Contains | src/set.rs:54-68 | membership in the represented set |
| U32Sets.U32Set.Insert | src/set.rs:70-87 | adds the key, answers whether it was new, and doubles the table exactly when one more key would fill seven tenths of it |
| U32Sets.U32Set.Grow | src/set.rs:89-105 | doubles the table, keeps the contents, leaves room for an insertion |
| U32Sets.U32Set.Rehash | src/set.rs:98-104 | the re-insertion loop copies exactly the old keys and never grows the table again |
| U32Sets.U32Set.WithCapacity | src/set.rs:34-42 | an empty set with the next power of two of slots, at least 8 |
| U32Sets.U32Set.WindowNeedsOneProbe | src/set.rs:3-4 | after any operations, keys in such a window are found in their home slot |
| U32Sets.U32Set.RunNeverCollides | src/set.rs:3-4 | after any operations, keys that are one run of consecutive numbers all sit in their home slots |
| U32Sets.U32Set.NoCollisionExactlyWhen | src/set.rs:3-4 | after any operations, no key is displaced exactly when no two keys agree modulo the number of slots |
| U32Sets.KeysEightApart | src/set.rs:3-4 | the colliding keys 0 and 8 in a table of 8 slots, reached by two insertions |
| Words.BytesRoundTrip | src/fountain.rs:541-543 | bytes written into zeroed words read back, and the padding is zero |
| Words.WordsRoundTrip | src/fountain.rs:235-235 | zero-padded words survive truncation to bytes |
| Words.SumRemove | src/fountain.rs:544-548 | XORing a block into a sum that contains it removes it |
| Simd.XorAvx2 | src/simd.rs:78-99 | eight lanes at a time plus a tail is pointwise XOR, for every length |
| Simd.XorSse2 | src/simd.rs:103-123 | likewise with four lanes |
| Simd.XorInto | src/simd.rs:52-74 | whichever kernel runs, the result is pointwise XOR |
| Arena.XorAt | src/fountain.rs:314-323 | for disjoint slots, either split of the arena changes the target slot only, by one XOR |
| Arena.XoredAtChunks | src/fountain.rs:314-323 | distinct slots never overlap, and on slots the operation is one XOR and no other change |
| BlockSets.NewBlockSet | src/fountain.rs:248-261 | list or bit vector, the representation denotes the given set |
| BlockSets.BlockSet.Len | src/fountain.rs:264-269 | the length is the number of members in both representations |
| BlockSets.BlockSet.Remove | src/fountain.rs:272-288 | swap-removal and bit clearing both remove one member |
| BlockSets.BlockSet.Single | src/fountain.rs:291-303 | returns a member, the only one of a singleton; the unreachable arm is unreachable |
| Capacity.CeilDivAtMost | src/capacity.rs:20-23 | rounding up is below n exactly when the product covers the size |
| Capacity.UsableIsFitting | src/capacity.rs:26-46 | for a non-empty payload the selection filter admits exactly the frame sizes that fit one stream |
| Capacity.FitsExactlyWhen | src/capacity.rs:10-29 | which payloads fit which frame sizes, in numbers |
| Capacity.SmallestIsLeastFitting | src/capacity.rs:39-46 | the least fitting option, none iff none fits: exactly when the payload is non-empty or no option holds a block |
| Capacity.EmptyPayloadCounterexample | src/capacity.rs:32-46 | the empty payload where the selection answers although nothing fits |
| Peeling.PeelLeast | src/fountain.rs:567-599 | peeling in any order reaches the least set in which no equation has exactly one unknown block |
| Peeling.PeelMonotone | src/fountain.rs:567-599 | more equations determine no fewer blocks |
| Peeling.PeelRedundant | src/fountain.rs:536-538 | an equation without unknown blocks adds nothing |
| Peeling.PeelCount | src/fountain.rs:567-599 | n equations determine at most n blocks |
| Equations.QuiescentIsPeeled | src/fountain.rs:567-599 | with an empty work list the solved blocks are exactly what peeling determines from all accepted equations |
| Cascade.PopSolveKeeps | src/fountain.rs:574-577 | solving a block keeps the structural invariant, with its waiting frames still to be visited |
| Cascade.VisitKeepKeeps | src/fountain.rs:584-595 | removing a solved block from a frame that keeps waiting keeps the invariant |
| Cascade.VisitQueueKeeps | src/fountain.rs:588-594 | a frame down to one block is retired and its slot handed to the work list; that block is always unsolved |
| Cascade.SolvedAtMostRows | src/fountain.rs:574-575 | solved blocks own distinct slots, so there are no more of them than stored equations |
| Soundness.PopSolveSound | src/fountain.rs:570-577 | the same step keeps every slot's meaning for every source vector, and the zero padding |
| Soundness.VisitKeepSound | src/fountain.rs:584-595 | likewise for a frame that keeps waiting |
| Soundness.VisitQueueSound | src/fountain.rs:584-594 | likewise for a frame whose last block becomes known |
| Soundness.EliminateOne | src/fountain.rs:544-548 | eliminating a solved block from a new equation keeps it a consequence of the accepted equations |
| Soundness.AddSingleSound | src/fountain.rs:549-553 | a new equation with one unknown block is stored soundly |
| Soundness.AddPendingSound | src/fountain.rs:555-564 | a new equation with several unknown blocks is stored soundly and joins exactly their adjacency lists |
| Soundness.ValuesDetermined | src/fountain.rs:606-612 | a solved block has the value it has in every source vector satisfying the accepted equations |
| Coupling.VisitReady | src/fountain.rs:578-587 | a waiting frame has another block left and its slot is disjoint from the solved one, so the length-0 arm never runs |
| Codec.DecoderAcceptsEncoder | src/fountain.rs:390-412 | a decoder accepts exactly the parameters under which an encoder sends |
| Codec.Extent | src/fountain.rs:608-609 | where each block lies in the payload, including the short last block |
| Codec.EncodedMeansSum | src/fountain.rs:541-543 | the receiver reads back from an honest frame exactly the XOR of its source blocks |
| Codec.JoinSource | src/fountain.rs:139-150 | cutting a payload into padded blocks and joining them is the identity |
| Decoder.TryNewMode | src/fountain.rs:390-440 | a valid decoder with nothing received, or the error of the first failing test |
| Decoder.LtDecoder.Resolve | src/fountain.rs:567-599 | the cascade ends and leaves an empty work list with the invariant intact, without new slots |
| Decoder.LtDecoder.Propagate | src/fountain.rs:577-597 | every frame waiting for the new block is visited; the solved set does not change |
| Decoder.LtDecoder.Visit | src/fountain.rs:579-596 | one visit, in all its cases |
| Decoder.LtDecoder.ComputeIndices | src/fountain.rs:489-509 | the frame's index list in every mode, whatever the buffers held |
| Decoder.LtDecoder.Unknown | src/fountain.rs:511-516 | the distinct unsolved blocks of the frame |
| Decoder.LtDecoder.Eliminate | src/fountain.rs:540-548 | a new slot at the end of the arena with all solved blocks eliminated |
| Decoder.LtDecoder.StoreEquation | src/fountain.rs:540-564 | one more slot, charged edges, invariant intact |
| Decoder.LtDecoder.Register | src/fountain.rs:555-559 | the frame joins exactly the lists of its unknown blocks |
| Decoder.LtDecoder.AcceptFrame | src/fountain.rs:529-564 | an admitted frame changes the state as the reference decoder says |
| Decoder.LtDecoder.Charge | src/fountain.rs:489-564 | the budget test, in slots and edges, decides between drop and acceptance |
| Decoder.LtDecoder.AddFrame | src/fountain.rs:477-565 | one call is exactly one reference step, for any bytes and any sequence number |
| Decoder.LtDecoder.SolvedIsPeeled | src/fountain.rs:443-445 | between calls the solved blocks are what peeling determines, and completeness is having all of them |
| Decoder.LtDecoder.Assemble | src/fountain.rs:601-615 | a payload exactly when complete: the solved slots cut and joined, which is the payload of every source vector satisfying the accepted equations |
| Decoder.LtDecoder.Budgets | src/fountain.rs:413-415 | arena, pending frames and adjacency lists stay within their budgets; solved <= stored <= received |
| Decoder.LtDecoder.WaitingSlotsApart | src/fountain.rs:313-323 | the slots of two waiting frames are whole and disjoint |
| Decoder.LtDecoder.SolvedSlotsApart | src/fountain.rs:313-323 | the slots of two solved blocks are whole and disjoint |
| Decoder.LtDecoder.WaitingAndSolvedApart | src/fountain.rs:313-323 | the slots of a waiting frame and a solved block are disjoint |
| Runs.ResourceBounds | src/fountain.rs:518-564 | in every run: solved blocks <= stored equations <= accepted <= distinct numbers heard, and both budgets hold |
| Runs.EveryFrameCounts | src/fountain.rs:477-534 | until a run completes, every frame of it is accepted, a duplicate, or dropped |
| Runs.CompleteRests | src/fountain.rs:478-484 | after that, nothing changes but the count of frames of a wrong length |
| Runs.TakesKFrames | src/fountain.rs:529-599 | no run completes with fewer than k distinct sequence numbers |
| Runs.OrderIndependent | src/fountain.rs:511-599 | runs hearing the same numbers without budget drops solve the same blocks and complete together; frames of a wrong length do not matter |
| Runs.StaysCovered | src/fountain.rs:518-528 | a run that hears at most 4k numbers combining at most 64k blocks in total never drops a frame for a budget |
| Runs.AffordableRunsAgree | src/fountain.rs:511-599 | for such inputs the order of arrival never matters |
| Runs.CompleteExactlyWhenDetermined | src/fountain.rs:511-599 | for such inputs the run completes exactly when peeling what arrived determines every block |
| Runs.NoLess | src/fountain.rs:511-599 | without budget drops, hearing more never solves less |
| Runs.SolvedFromArrived | src/fountain.rs:511-599 | in every run the solved blocks are among those that peeling everything that arrived determines, and exactly those unless a budget dropped a frame |
| Runs.AcceptedAreHeard | src/fountain.rs:478-534 | only numbers heard in frames of the right length are accepted, and all of them unless a budget drops one or the run is complete |
| Runs.HonestSatisfies | src/fountain.rs:477-565 | with honest frames the sender's blocks satisfy every accepted equation |
| Runs.PeeledBlocksAgree | src/fountain.rs:567-599 | source vectors satisfying the same equations agree on every block that peeling determines |
| Runs.HonestPayload | src/fountain.rs:601-615 | what a completed honest run determines is the sender's payload |
| Runs.Feed | tests/roundtrip.rs:28-34 | the receive loop that applications and tests put around the class is a run of the reference decoder |
| Runs.Decode | tests/roundtrip.rs:20-39 | decoder, receive loop and assembly: a result exactly when peeling the accepted equations determines all blocks, and for honest frames it is the payload |
| Stalls.FinalExactlyWhen | src/fountain.rs:482-528 | nothing is ever accepted again exactly when the decoder is complete or every number is known or over budget |
| Stalls.FullArenaIsFinal | src/fountain.rs:523-528 | a full arena is such a state |
| Stalls.RedundantFramesAreDroppedToo | src/fountain.rs:523-538 | in every run, a new redundant frame is accepted exactly when the arena is not full |
| Stalls.StallingRun | src/fountain.rs:540-564 | from any state, different new frames that each lack 2 to 16 blocks are all stored, while slots last, and solve nothing |
| Stalls.FullWithoutAnyBlock | src/fountain.rs:518-564 | in every mode, any 4k different frames of 2 to 16 blocks fill the arena with no block solved, no frame dropped, and for good |
| Stalls.DegreeWindow | src/soliton.rs:83-105 | as many consecutive first draws give one degree as its mass covers |
| Stalls.ManyOfDegree | src/fountain.rs:39-52 | so many different honest repair frames of one degree exist, in every mode |
| Stalls.HonestDeadEnd | src/fountain.rs:477-565 | in every mode and for every k >= 2, 4k honest frames after which no block is solved, nothing was dropped and nothing more is accepted |
| Stalls.HonestRedundantDrop | src/fountain.rs:523-538 | for every k >= 3 in pure soliton mode, an honest run with a full arena whose next honest frame is redundant and dropped |
| Stalls.LateFirstPhase | src/fountain.rs:518-528 | in both first-phase modes and for every k >= 2, an honest run in which the complete first phase arrives after the arena is full and is lost |
| Stalls.LateSingle | src/fountain.rs:518-528 | the same with nine frames for two blocks in pure soliton mode |
| Causal.CausalLink | src/fountain.rs:494-499 | an accepted causal frame ties neighbouring blocks: both solved or neither |
| Causal.SegmentAllOrNothing | src/fountain.rs:494-510 | between first-phase losses the blocks are solved together or not at all, whatever repair frames came |
| Causal.FirstPhaseSolvesPrefix | src/fountain.rs:489-510 | from first-phase frames only, exactly the blocks before the first missing frame are solved |
| Causal.SingleLoss | src/fountain.rs:494-510 | with only frame m missing, completion iff some accepted repair frame has exactly one block at or beyond m |
| Causal.SingleLossRun | src/fountain.rs:494-510 | the same for every run that hears exactly the first-phase frames other than m, and any repair frames, without budget drops |
| Causal.SingleLossAffordable | src/fountain.rs:494-510 | the same for every run whose input stays within the budgets |
| Causal.FirstPhaseDetermines | src/fountain.rs:489-510 | all first-phase frames determine every block, in both first-phase modes |
| Causal.FirstPhaseNeverDrops | src/fountain.rs:518-528 | first-phase inputs are affordable, so no budget is exhausted |
| Causal.CausalFirstPhase | src/fountain.rs:489-510 | any order, any duplicates: the prefix is solved, nothing is dropped, completion exactly with the k-th distinct frame |
| Causal.SystematicFirstPhase | src/fountain.rs:489-493 | direct systematic mode: exactly the blocks heard are solved |
| Encoder.SourceBlocks | src/fountain.rs:139-150 | the flat vector holds the zero-padded blocks of the payload, the last one possibly short |
| Encoder.TryWithMode | src/fountain.rs:131-164 | a valid encoder of the payload, or the error of the first failing test |
| Encoder.LtEncoder.Accumulate | src/fountain.rs:230-234 | the accumulator becomes the XOR of the selected blocks, whatever it held |
| Encoder.LtEncoder.Weave | src/fountain.rs:210-214 | the causal combination of two neighbouring blocks |
| Encoder.LtEncoder.EncodeInto | src/fountain.rs:202-236 | the frame's bytes are those the code assigns to the number, independent of earlier frames |
| Encoder.LtEncoder.Encode | src/fountain.rs:196-200 | the same in a new buffer |
| LittleEndian.FromToBytes | src/frame.rs:36-40 | fixed-width little-endian numbers read back |
| Frame.PackFrame | src/frame.rs:82-89 | magic, fields, tag and block in order |
| Frame.ParsePack | src/frame.rs:82-116 | a packed frame parses to itself exactly when its fields are consistent and its tag is right, else not at all |
| Frame.PackParse | src/frame.rs:95-116 | everything the parser accepts is the packing of what it returns |
| Frame.Layout | src/frame.rs:41-89 | the offset of every field of a packed frame, and the bytes its tag covers |
| Frame.AcceptedExactlyWhen | src/frame.rs:95-116 | exactly which bytes are accepted and as which header: flags 0, 1 or 2, no zero count or length, the announced length, the right tag |
| Frame.TaggedBytesDetermine | src/frame.rs:137-150 | the tagged bytes determine every field but the tag, and the block |
| Frame.DamageNeedsCollision | src/frame.rs:112-114 | damaged bytes accepted under the original tag exhibit a tag collision |
| Session.Sender.TryNextFrame | src/session.rs:140-163 | frame n is the n-th call's answer; after number 2^32 - 1 the sender is exhausted for good |
| Session.TryNewSender | src/session.rs:63-106 | a sender at number 0, or the error of the first failing test |
| Session.FramesAreAdmissible | src/session.rs:140-163 | every frame of a sender parses, carries its stream's identity and passes all receiver checks under the maximum limits |
| Interop.StreamExactlyWhen | src/session.rs:63-106 | which streams can be sent, in numbers, and how many blocks they have |
| Interop.SenderAnswers | src/session.rs:69-87 | which error each refused length gets |
| Interop.ReceiverAnswers | src/fountain.rs:390-412 | which error each inconsistent set of header parameters gets |
| Interop.FrameBytes | src/fountain.rs:202-236 | byte j of any frame is the XOR of byte j of the payload blocks its number combines |
| Interop.CausalBytes | src/session.rs:54-56 | flags 2: frame 0 is block 0, frame q < k the XOR of blocks q - 1 and q, byte by byte |
| Interop.SystematicBytes | src/session.rs:88-92 | flags 1: frame q < k is block q |
| Interop.RepairBytes | src/fountain.rs:218-236 | flags 0, or any number from k on: the XOR of the frame's subset |
| Interop.WireLayout | src/session.rs:140-163 | every byte of a sender's frame: magic, flags, session, number, counts, lengths, the payload's tag, the frame's tag, the block |
| Interop.ModeOfFlags | src/session.rs:254-273 | flags 2, 1 and 0 as a receiver reads them |
| Interop.Refused | src/session.rs:240-253 | damaged bytes, frames of another stream, and streams over any one of the three limits are refused, each with its error, and change nothing |
| Interop.RefusedParameters | src/session.rs:254-276 | likewise streams whose parameters no sender uses |
| Interop.Taken | src/session.rs:240-292 | every other frame reaches its decoder; only a container with the wrong tag ends the stream |
| Interop.LimitsKept | src/session.rs:247-253 | over any channel, a locked stream is within all three limits and consistent |
| Session.Receiver.Open | src/session.rs:247-276 | locks to a new stream or reports which limit or parameter test failed |
| Session.Receiver.Advance | src/session.rs:280-291 | feeds, and when complete delivers or starts over according to the tag |
| Session.Receiver.TryPush | src/session.rs:240-292 | one call is one step of the session relation |
| Session.Receiver.Reset | src/session.rs:234-238 | back to the initial state |
| SessionRuns.PushFair | src/session.rs:240-292 | one step over a fair channel: the next state and the answer depend on the sender's frames alone |
| SessionRuns.SessionState | src/session.rs:240-292 | the same for whole sessions |
| SessionRuns.SessionSafety | src/session.rs:285-291 | what is handed out is the sender's container; the tag-mismatch reset is never taken |
| SessionRuns.DeliveredIsFinal | src/session.rs:277-279 | a receiver that has delivered neither changes nor delivers, whatever it receives |
| SessionRuns.AtMostOnce | src/session.rs:277-291 | no second delivery, over any channel |
| SessionRuns.DeliveredExactlyWhen | src/session.rs:277-291 | delivery iff peeling the sender's ACCEPTED frames determines every block |
| SessionRuns.DeliveredExactlyWhenDetermined | src/session.rs:277-291 | delivery iff peeling the sender's frames that arrived determines every block, for inputs within the budgets |
| SessionRuns.DeliveredOnlyIfDetermined | src/session.rs:277-291 | delivery always needs what arrived to determine every block |
| SessionRuns.FirstPhaseDelivers | src/session.rs:240-292 | with first-phase frames of the sender, delivery iff all k arrived |
| SessionRuns.DeliveredIsTagged | src/session.rs:243-291 | over any channel: delivered containers carry the announced tag and length, and the stream identity never changes |
| SessionRuns.ForgeryNeedsCollision | src/session.rs:285-291 | over any channel: a delivery under the sender's identity is its container or a different one of the same length and tag |
| SessionRuns.Receive | tests/readme_examples.rs:8-16 | a receive loop over the class, for any bytes, produces a session of that kind |
| SessionRuns.FirstFramesFinish | src/session.rs:140-163 | the first n <= k frames of a causal or systematic sender finish the stream exactly when n = k |
| SessionRuns.Transfer | tests/readme_examples.rs:8-16 | the documented transfer loop over a lossless channel: the container comes out with frame number k, not earlier, not later |
| FileNames.SafeNameIsSafe | src/container.rs:484-509 | one path component, no control, bidirectional or reserved characters, no trailing dot or blank, no device name |
| FileNames.UncoversSpace | src/container.rs:496-499 | the sanitised text ends in white space exactly when the trimmed text has non-blank white space right before its trailing dots and blanks |
| FileNames.SafeFileNameIdempotent | src/container.rs:484-509 | sanitising twice equals once exactly for names without such hidden white space |
| FileNames.NotAlwaysIdempotent | src/container.rs:484-509 | a no-break space before a final dot is a name where it differs |
| FileNames.AsciiNamesAreFixed | src/container.rs:484-509 | names whose white space is ASCII are sanitised once and for all |
| FileNames.BaseIsLast | src/container.rs:485-485 | the base is what follows the last separator |
| FileNames.CleanJoins | src/container.rs:486-496 | cleaning works on each character by itself |
| FileNames.CleanOne | src/container.rs:486-496 | which characters are dropped, which are replaced, and that the others stay |
| FileNames.TrimSplits | src/container.rs:497-497 | trimming takes white space off both ends and nothing else |
| FileNames.FixedExactlyWhen | src/container.rs:484-509 | exactly the harmless names that are no device names are left alone, and device names get an underscore |
| FileNames.EmptyNames | src/container.rs:500-502 | names of separators, dots and blanks get the default name |
| FileNames.DeviceNames | src/container.rs:525-531 | the 22 device names, in any case |
| FileNames.NormalizeExactlyWhen | src/container.rs:533-553 | exactly which media types are accepted, and as what |
| FileNames.NormalizeIdempotent | src/container.rs:533-553 | normalising an accepted media type again changes nothing |
| Container.HeaderRoundTrip | src/container.rs:87-97 | the 73-byte header reads back |
| Container.Gunzip | src/container.rs:635-655 | the bounded inflate loop gives the whole output exactly when it stays within the bound |
| Container.Prepare | src/container.rs:184-222 | sanitised name, normalised type and possibly compressed data, or the first failing test |
| Container.PackFile | src/container.rs:104-127 | the container in the clear, or the first failing test |
| Container.PackFileEncrypted | src/container.rs:130-168 | the encrypted container, or the first failing test |
| Container.PackedExactlyWhen | src/container.rs:184-222 | which files can be packed, in numbers |
| Container.PackedLayout | src/container.rs:224-250 | the offset and content of every part of a packed file |
| Container.PackedData | src/container.rs:104-168 | when data are compressed, and that the cipher authenticates the header without magic and nonce, the name and the type |
| Container.UnpackFile | src/container.rs:333-423 | all checks in order, with and without a key |
| Container.UnpackedLayout | src/container.rs:426-457 | what an accepted container looks like: magic, flags, length equation and bounds |
| Container.UnpackedNames | src/container.rs:333-423 | which of its bytes the name and the type are read from |
| Container.UnpackedData | src/container.rs:333-423 | which of its bytes are deciphered, under what, and inflated |
| Container.RoundTrip | src/container.rs:104-457 | unpacking a packed file, sealed ones with the right key, gives its bytes, normalised type and digest, and its sanitised name exactly unless it hides such white space; both sides authenticate the same data |
| Container.SealedNeedsKey | src/container.rs:355-359 | a sealed container is refused without a key |
| Container.AuthDataDetermines | src/container.rs:460-478 | the authenticated data determine flags, lengths, digest, name and type |
| Container.UnpackedIsVerified | src/container.rs:333-457 | any unpacked file has the announced digest, a bounded size, a harmless name and a normalised type |

## Left out

- Floating-point rounding, NaN and the bit-exactness of `dlog` (src/dlog.rs): the sampler is proved over reals.
- BLAKE3, Argon2id, XChaCha20-Poly1305 and X25519 (src/crypto.rs): foreign cryptography; the tag is an arbitrary function,
  and of the cipher only that decryption undoes encryption is used.  Passwords and the judge-recoverable formats around
  them (src/jrc.rs, src/jrp.rs) are not modelled.
- gzip, UTF-8 and the list of precompressed media types: functions assumed to obey their documented laws.
- Probabilistic overhead of the robust-soliton tail: the repository promises no fixed bound.
- The NEON kernel, processor detection and raw-pointer views of words as bytes (src/simd.rs, src/bytes.rs): the lanes
  and the byte order are modelled, the pointers are not.
- The pinned subsets for 179 and 716 blocks and the fingerprints in tests/golden.rs: further instances of the same functions.
- `fnv1a`, accessors, error texts, zeroization and benches: nothing beyond reading one body.
- SessionRuns.SessionSafety: forged frames that carry a valid tag and the locked stream's identity are excluded by the
  fair-channel condition; for them `SessionRuns.DeliveredIsTagged`, `SessionRuns.ForgeryNeedsCollision` and
  `SessionRuns.AtMostOnce` hold.
- Selection.SelectDense: tables of 2^32 or more entries, whose size the source truncates to 32 bits; the stream parameters
  allow at most 65535 blocks.
- Selection.SelectSparse: likewise; there the rejection loop of the source need not end.
- Selection.SelectBlocks: likewise.
- Selection.FrameIndices: likewise.
- Convenience constructors that only pass a mode on, and the capacity of growable vectors.
- Arena.XorAt: vectors and block sets inside the decoder are values that the methods reassign, so the operation returns
  the new arena; that its two slots do not alias is proved, updating in place is not modelled.
- BlockSets.BlockSet.Remove: returns the new set instead of updating in place, for the same reason.
