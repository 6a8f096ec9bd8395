# Parity-bitmap-sketch set reconciliation, verified

This project models the reconciliation library of the repository in Dafny and proves what it promises:

- the PBS protocol (`src/pbs.h`): two hosts that exchange parity bitmaps, bin XORs and checksums until every
  group of keys is reconciled, as a class with the source's parallel arrays and as a two-party step system over
  any number of rounds;
- the wire formats below it (`src/bit_utils.h` and the three message classes), down to single bits;
- client and server with their key-value stores on top of it (`src/reconciliation_client.h`,
  `src/reconciliation_server.h`);
- the invertible Bloom lookup table (`3rd/include/iblt`) and the DDigest exchange that uses it;
- the parameter optimiser (`src/pbs_params.h`): the balls-into-bins matrices, the Markov chain of the rounds and
  the search for the cheapest code, over real numbers;
- the LRU cache (`3rd/include/lrucache`).

## How the files fit together

| file | content |
|---|---|
| `Parity.dfy` | XOR sums and parity sets of lists: what the protocol's cancelling of pairs amounts to |
| `PbsSpec.dfy`, `PbsRounds.dfy`, `PbsTheorems.dfy` | one host, two hosts, and what any number of rounds achieves |
| `NextGroups.dfy` | what one round recovers and which groups it leaves, in terms of the hashes alone |
| `PbsTables.dfy`, `PbsSketch.dfy` | the class `ParityBitmapSketch` with its flat arrays, refining the one-host specification |
| `PbsRun.dfy`, `PbsWire.dfy` | two such objects exchanging messages, in memory and over the wire formats |
| `SetDifference.dfy` | folding the recovered lists into one difference |
| `Fakes.dfy`, `RepeatedFake.dfy`, `FakeRuns.dfy` | how a fake is recovered, a run whose fold it spoils, and client runs that it misleads |
| `Bits.dfy`, `Arithmetic.dfy`, `BitStream.dfy`, `Fields.dfy` | machine operations on bit strings, the bit writer and reader |
| `EncodingCodec.dfy`, `DecodingCodec.dfy`, `HintCodec.dfy` | the three messages |
| `Stores.dfy`, `Reconciliation.dfy`, `IdealCase.dfy` | key-value stores, the server's handlers, the client's round loop, and when one round is enough |
| `IbltSpec.dfy`, `Iblt.dfy`, `DDigest.dfy` | the lookup table, its peeling theory, and the exchange of two stores built on it |
| `BallsIntoBins.dfy`, `PbsParams.dfy`, `Transition.dfy`, `MultiRound.dfy`, `ParamSearch.dfy` | the parameter optimiser |
| `LruSpec.dfy`, `Lru.dfy` | the cache |

`dafny verify dfyconfig.toml` checks everything.

## What is assumed, and stated where it is used

- Hash functions are parameters about which nothing is known (`RawParams.hash`, `RawShape.spot`, `RawShape.check`).
- A key is the set of positions of its one bits; XOR is symmetric difference. The proofs hold for any width, 64
  included.
- A minisketch is the set of values it holds; adding toggles, merging is symmetric difference. Decoding is exact
  for at most t values; beyond that it may fail or report any at most t distinct bins in 1..n-1
  (`PbsSketch.DecodeResult`). That reported bins lie in 1..n-1 is an assumption: n itself also fits m bits, and
  the source would then read outside the group's row.
- On the wire a minisketch is a string of m * t bits, and merging is XOR of these bits (`PbsWire.Works`); which bits
  is not assumed.
- For the lookup table: among entries that share a cell, only a single entry looks pure, and only no entry looks
  empty (`IbltSpec.NoFalse`). For a table of inserted entries this is proved (`IbltSpec.InsertedNoFalse`); it is
  assumed only of the difference of two tables. It holds of any entries with different one-bit checks
  (`IbltSpec.OneBitNoFalse`).
- For the parameter search: the success probability does not fall when the capacity grows (`ParamSearch.Monotone`).
  For the multi-round failure probabilities it is computed from this is proved (`MultiRound.FailureIsOrdered`); the
  bound put together from them is not modelled.
- Client and server agree on the values of common keys.

Nothing else is assumed of a client's run: fakes, repetitions, failed decodings and lost hints are all covered by
`Reconciliation.Reconcile`. The assumptions can be met: `PbsWire.MinisketchExists` gives a minisketch for every code
whose bitmap fits m * t bits, among them the code m = 6, n = 63, t = 11 of all examples below;
`Reconciliation.HistoryExists` gives a run for any two lists of keys, and `IdealCase.ReconcileApart` one that
succeeds from a condition on the hashes of the initial keys alone. `DDigest.HashesExist` gives, for any two lists of keys, hash
functions of a lookup table with which no cell of the difference deceives and nothing in it is stuck.

## What turned out differently from what the repository says

- A group is dropped when its checksum agrees. If what is left in it XORs to zero, its keys are lost although
  `decodeCheck` reports success. `PbsTheorems.RunRecoversDifference` says exactly when nothing is lost.
  `PbsTheorems.CollisionLosesKeys` shows the loss for any parameters and any even number of keys in one bin whose XOR
  is zero, and `PbsTheorems.FourCollide` gives four such keys.
- The hint of an exception in a single remaining group is written in zero bits and never arrives; the server then goes
  on without any group, its reply is empty, and the client stops with an error (`Reconciliation.CheckEmptyReply`).
  `HintCodec.HintRoundTrip` and `PbsWire.WireLockStep` say exactly when; `PbsWire.TwoKeysLoseHint` shows that any two
  keys of a single group that share a bin are enough, and `PbsWire.HintLost` gives two.
- A comment (src/pbs.h:544-545) says that a fake is automatically fixed in later rounds. The recovered lists alone
  do cancel it (`PbsRounds.RunConserves`), but the client exchanges each list before the next round: the server
  answers a fake, a repeated key or a key exchanged before with an error, and the client stops. A request goes through
  if and only if its list is genuine (`Reconciliation.SyncInRound`). After completion the result of the exchange is
  not looked at: a fake in the last list makes the client gain nothing of that list and still report success
  (`Reconciliation.FinalSync`). `Reconciliation.SuccessMeans` says exactly when success means that both stores are the
  union. `FakeRuns.ReconcileFake` shows both ways it goes wrong, for any odd number of keys in one bin whose XOR is a
  fake and any even number in another: no key moves, and success is reported if and only if the others XOR to zero.
  `FakeRuns.FakeSucceeds` and `FakeRuns.FakeStops` give keys for the two cases.
- `setDifference` drops repetitions inside each of its lists, XOR does not. Folding the recovered lists gives the
  difference exactly if the keys that some list repeats cancel against the dropped leftovers
  (`SetDifference.FoldRecoversDifference`). Lists can repeat keys only after a three-way split
  (`PbsTheorems.RunDistinct`), and there it happens: in the run of `RepeatedFake.RepeatedFakeLosesKey` every group is
  decoded right or exceeds the capacity, every leftover is empty, and a key that differs is missing from the fold,
  because one subgroup recovers it while another recovers it as a fake.
- The comment in `LRUCache11.hpp` says that the cache may grow to maxSize + elasticity; `prune` already acts at
  that size, so the largest size after an operation is maxSize, or maxSize + elasticity - 1 if that is more
  (`LruSpec.RunFaithful`, `LruSpec.BoundIsReached`).
- `computeProbabilityMatrix3D` multiplies by an unsigned difference that wraps below zero. The wrapped factor
  only ever meets an entry that is zero (`PbsParams.StayTerm`).
- The failure bounds take row i + 1 of the multi-round matrix for i elements (src/pbs_params.h:212, src/pbs_params.h:250),
  but row i is the one for i elements. That makes the bound larger, never smaller (`MultiRound.NextRowIsSafe`).
- Column 0 of the multi-round matrix (no rounds) is zero, not one
  (`MultiRound.ComputeMultiRoundProbabilityMatrix`).

## Model

| member | source | states |
|---|---|---|
| Parity.XorOdd | src/pbs.h:554-562 | the XOR of a list is the XOR of its keys of odd multiplicity, whatever the order: appending a recovered key again removes it |
| Parity.OddFilter | src/pbs.h:471-485 | taking the keys of one bin or subgroup and taking parities commute |
| Parity.XorSetRemove | src/pbs.h:471-485 | the XOR of a set of keys does not depend on the order in which it is accumulated |
| PbsTables.TablesAdd | src/pbs.h:471-485 | accumulating one more key into the flat table of bin XORs and the checksums keeps every row the XOR of its bins, at its group's place, and touches no other row |
| PbsTables.TablesErase | src/pbs.h:583-595 | erasing the first groups' rows from the flat tables leaves the other groups' rows aligned with their groups |
| PbsTables.TablesGrow | src/pbs.h:492-521 | rows of zeros appended for new groups are the tables of empty groups |
| PbsSketch.ParityBitmapSketch.constructor | src/pbs.h:78-108 | a new sketch has its groups, homes, XORs and checksums aligned, all empty |
| PbsSketch.ParityBitmapSketch.Add | src/pbs.h:116-119 | a key goes to the end of group hash(key, seed) % numGroups, the seed and the hash being 64-bit words, and nothing else changes |
| PbsSketch.ParityBitmapSketch.DoEncode | src/pbs.h:471-485 | one group's bin XORs and checksum become the XORs of its list, all other rows stay, and the sketch holds exactly the bins into which the hash of the round throws an odd number of keys |
| PbsSketch.ParityBitmapSketch.Encode | src/pbs.h:138-162 | every live group's sketch is its parity bitmap, tables match groups, and the hint lists the exceptions and is absent if there are none; no id is out of range |
| PbsSketch.ParityBitmapSketch.EncodeWithHint | src/pbs.h:186-221 | Bob's groups become the subgroups of failed groups followed by the groups named, in order, freshly encoded; the mismatch error cannot occur, and a host that is not Bob gets the logic error and is unchanged |
| PbsSketch.ParityBitmapSketch.ThreeWaySplit | src/pbs.h:492-521 | a group's keys go to new groups at the back by their split hash, with its home and zero tables |
| PbsSketch.ParityBitmapSketch.RemoveCompletedGroups | src/pbs.h:583-595 | the old round's groups, homes, XORs and checksums are erased at the front together and stay aligned |
| PbsSketch.ParityBitmapSketch.SetWith | src/pbs_decoding_message.h:93-116 | the message reports for every group the decode result of the merged sketch, failures as -1, all bins in one list in group order |
| PbsSketch.ParityBitmapSketch.Decode | src/pbs.h:232-268 | Bob's reply carries the decode results and, in the order of the message, the XORs of exactly the reported bins and the checksums of the decoded groups; failed groups are split; Alice gets an error and nothing changes |
| PbsSketch.ParityBitmapSketch.DecodeCheck | src/pbs.h:281-332 | Alice's groups become the subgroups of failed groups followed by the groups with a wrong checksum and what was recovered from them; the recovered lists are recorded in order; true is returned if and only if no group is left; a reply that is too short is an error |
| PbsSketch.ParityBitmapSketch.DoDecodeCheck | src/pbs.h:531-577 | the candidates that hash back to their bin and group are recovered, and the group is carried over with them if and only if its checksum is wrong |
| PbsSketch.PackBins | src/pbs_decoding_message.h:93-116 | the slice of the common bin list that belongs to a group is that group's decode result |
| PbsSpec.HashIds | src/pbs.h:444-462 | group, bin and subgroup of a key are the remainders of its 64-bit hash under the seed, the seed + 142857 + round and the split seed + round; bins start at 1 |
| PbsSpec.OddBinsHash | src/pbs.h:471-485 | a bin of the bitmap is marked if and only if the hash of the round throws an odd number of the group's keys there |
| PbsSpec.SplitHash | src/pbs.h:492-508 | in every round, subgroup i holds, in order, exactly the keys whose hash under the split seed + round is i modulo c |
| PbsSpec.ReplyAligned | src/pbs.h:281-326 | the slices Alice cuts out of a reply by running offsets are the XORs of that group's reported bins and that group's checksum |
| PbsRounds.RecoverFacts | src/pbs.h:536-562 | every key recovered from a group hashes to the group's home |
| PbsRounds.RecoverDistinct | src/pbs.h:536-562 | keys recovered from one group in one round are pairwise distinct |
| NextGroups.RecoverIs | src/pbs.h:536-550 | what is recovered are exactly the candidates (the two XORs of a reported bin combined) whose hashes give that bin and the group's home, in the order of the bins |
| NextGroups.NextCount | src/pbs.h:281-332 | after a round both hosts have c groups for every group whose decoding failed and one for every decoded group whose leftover does not XOR to zero |
| NextGroups.FailedAreSplit | src/pbs.h:255-260 | each failed group is taken apart by the hash of the round, on both hosts at the same index: c times the number of failed groups before it |
| NextGroups.WrongAreKept | src/pbs.h:564-577 | each decoded group whose leftover does not XOR to zero is kept, Alice's with what was recovered appended, on both hosts at the same index: after all subgroups and the kept groups before it |
| PbsRounds.NextAtHome | src/pbs.h:281-332 | after a full round both hosts have the same number of groups, the same homes in the same order and the same round, and every key of a live group, fakes included, hashes to the group's home |
| PbsRounds.ThreeWayContent | src/pbs.h:492-521 | a three-way split redistributes the list: as a multiset nothing is lost or added, and each key is in the subgroup of its split hash |
| PbsRounds.RoundConserves | src/pbs.h:281-332 | for any decode results, what is unresolved before a round is the symmetric difference of what is unresolved or recovered after it and the leftovers of dropped groups |
| PbsRounds.LeftoverXorsToZero | src/pbs.h:564-577 | a decoded group is dropped if and only if the XOR of what is left in it is zero |
| PbsRounds.DroppedXorToZero | src/pbs.h:564-577 | every leftover dropped with a finished group XORs to zero |
| PbsRounds.RunKeepsInvariant | src/pbs.h:281-332 | lock-step and home groups hold in every state reachable by any number of rounds with any decode results |
| PbsRounds.RunExtends | src/pbs.h:232-332 | runs of the specification can be extended: in every reachable state any decode results give the next state and add that round's leftovers (that no error branch of the code is reached is stated by PbsRun.Exchange and PbsRun.FullRound) |
| PbsRounds.RunConserves | src/pbs.h:281-332 | over any number of rounds the initial differences are the symmetric difference of all live residuals, all recovered lists and all dropped leftovers, and each dropped leftover XORs to zero |
| PbsTheorems.StartEverything | src/pbs.h:116-119 | after adding two key lists the two hosts are in lock-step and what is unresolved is the symmetric difference of their parity sets |
| PbsTheorems.RunRecoversDifference | src/pbs.h:281-332 | when no group is left, the recovered lists make exactly the symmetric difference if and only if the dropped leftovers cancel, which they do if no nonempty leftover XORs to zero |
| PbsTheorems.BinFacts | src/pbs.h:249-263 | the merged bitmap marks a bin if and only if it holds an odd number of differing keys, and the two hosts' bin XORs differ by the XOR of these keys |
| PbsTheorems.AloneIsRecovered | src/pbs.h:536-562 | if a group is decoded right, every differing key alone in its bin is recovered |
| PbsTheorems.IdealGroupFinishes | src/pbs.h:531-577 | if all differing keys of a group lie in different bins and it is decoded right, the recovered list is exactly the difference and the group is finished |
| PbsTheorems.IdealRoundCompletes | src/pbs.h:281-332 | if that holds for every group, one round recovers exactly all differences and no group is left |
| PbsTheorems.RoundDistinct | src/pbs.h:536-562 | while no two live groups share a home, no key is recovered twice in a round |
| PbsTheorems.RunDistinct | src/pbs.h:536-562 | in a run without failed decodings every round's list is free of repetitions |
| PbsTheorems.CollisionLosesKeys | src/pbs.h:564-577 | for all parameters and an even number of distinct keys of one group and bin whose XOR is zero: every group is decoded right, the run completes after one round, and all of these keys are lost |
| PbsTheorems.FourCollide | src/pbs.h:564-577 | four concrete keys, with a hash and a code that the parameter search can choose, that meet that condition |
| PbsRun.NewSketch | src/pbs.h:116-162 | adding keys one by one and encoding gives the first state of the specification, freshly encoded |
| PbsRun.WithinCapacity | src/pbs.h:249-263 | a group whose differing bins fit the capacity is decoded right |
| PbsRun.SendMessage | src/reconciliation_server.h:382-385 | a decoding message written, sent and parsed is the message |
| PbsRun.Exchange | src/reconciliation_client.h:642-663 | Bob's decoding and Alice's check of two synchronised objects raise no error and lead to the specified next state |
| PbsRun.FullRound | src/pbs.h:170-332 | one round of two objects does what the specification says, and if groups are left both objects are in lock-step again with all tables freshly encoded |
| PbsWire.WireLockStep | src/pbs_encoding_hint_message.h:67-71 | when the hint goes over the wire, lock-step survives the round if and only if it is not the case that a single group was left and had a wrong checksum; otherwise Bob has no group |
| PbsWire.TwoKeysLoseHint | src/pbs_encoding_hint_message.h:67-71 | for all parameters with a single group: two keys of one host that share a bin in the first round are decoded right, give rise to a hint, and Bob goes on without any group |
| PbsWire.HintLost | src/pbs_encoding_hint_message.h:67-71 | a concrete state, reachable by adding two keys, in which lock-step is lost |
| PbsWire.MinisketchExists | 3rd/include/minisketch.h:107-118 | the assumptions on minisketches can be met: there are bits of the right size for every set, linear under XOR, and a decoder exact up to the capacity |
| PbsWire.SendSketches | src/reconciliation_server.h:374-378 | after writing and parsing an encoding message the receiver has the bits of every sketch |
| PbsWire.TransmitSketches | src/reconciliation_server.h:374-379 | what Bob's decoder reports for the received bits XORed with his own is what it reports for the bits of the merged bitmaps |
| PbsWire.WireRound | src/reconciliation_server.h:369-385 | one round of two objects, with the sketches, the decoding message and the hint written to bytes and parsed, does what the wire specification says, and if that keeps lock-step the objects are ready for the next round |
| SetDifference.ToggledIsSymDiff | src/bit_utils.h:26-43 | setDifference leaves the symmetric difference of the elements of the two lists, each once |
| SetDifference.SetDifferenceOf | src/bit_utils.h:38-43 | the two loops over ordered sets compute that list, in the source's order |
| SetDifference.FoldRounds | src/bit_utils.h:38-43 | toggling the lists of all rounds one after another computes the fold |
| SetDifference.FoldIsParity | src/bit_utils.h:26-43 | folding rounds gives the parity set of all of them, up to the keys that some round's list repeats an even number of times |
| SetDifference.FoldRecoversDifference | src/pbs.h:335-343 | after a run that completed, the fold is exactly the symmetric difference of the two sets if and only if dropped leftovers and repeated keys cancel |
| SetDifference.LosslessRunFolds | src/pbs.h:335-343 | if no nonempty leftover XORs to zero, also with splits, the fold is the symmetric difference if and only if the repeated keys cancel |
| SetDifference.CleanRunFolds | src/pbs.h:335-343 | without failed decodings and zero leftovers the fold is the symmetric difference, each key once |
| SetDifference.RepeatedKeyIsKept | src/bit_utils.h:38-43 | a list that names a key twice: nothing to XOR, but the fold keeps the key |
| RepeatedFake.SecondRound | src/pbs.h:536-562 | a round of a split group in which one subgroup recovers a key that differs and another recovers the same key as a fake, so that the round's list repeats it |
| RepeatedFake.RepeatedFakeLosesKey | src/pbs.h:335-343 | a whole run with a decoder exact up to the capacity that completes with all leftovers empty, and a key that differs is not in the fold |
| Fakes.MixedMerged | src/pbs.h:249-263 | an odd number of differing keys in one bin and an even number in another show in the bitmap as the first bin alone |
| Fakes.MixedRecovers | src/pbs.h:531-577 | if the XOR of the odd keys hashes back to their bin it is recovered as a key, and the group is finished if and only if the other keys XOR to zero |
| Bits.Deposit | src/bit_utils.h:54-70 | masking, shifting and or-ing a value onto pending bits appends its low bits and stays within the width |
| Bits.Withdraw | src/bit_utils.h:90-112 | masking and shifting right splits a byte into the bits taken and the bits kept |
| Bits.ValueBitsMod | src/bit_utils.h:54-70 | what a width keeps of a value is the value modulo the power of two |
| BitStream.BitWriter.Write | src/bit_utils.h:53-70 | exactly the low bits of the value are appended; fewer than 8 bits stay pending and the pending byte is below 2^offset; only the bytes between the old and new position change |
| BitStream.BitWriter.Flush | src/bit_utils.h:72-78 | pending bits are put out padded with zeros, one byte if there were any |
| BitStream.BitReader.Read | src/bit_utils.h:89-113 | the value of the next bits is returned and exactly these bits are consumed, on the fast and on the slow path |
| Fields.StreamRoundTrip | src/bit_utils.h:45-114 | for any values and widths, reading after writing and flushing gives each value modulo 2^width, and the least number of bytes that hold the bits is written |
| Fields.FieldBitsInjective | src/bit_utils.h:45-114 | lists of values that fit the same widths have different bits unless they are equal |
| Fields.PackedAt | src/bit_utils.h:45-72 | of equally wide numbers written one after another, the i-th takes the bits from width * i on |
| Arithmetic.CeilLog2 | src/bit_utils.h:20-24 | the least exponent whose power of two reaches the argument |
| EncodingCodec.TotalBytes | src/pbs_encoding_message.h:79-128 | the whole-byte region and the packed remainder region fill exactly the announced number of bytes |
| EncodingCodec.DeserializeSerialize | src/pbs_encoding_message.h:178-181 | the bits of a sketch survive its serialization, whatever their number modulo 8 |
| EncodingCodec.LayoutDetermines | src/pbs_encoding_message.h:79-128 | a buffer is the message of at most one list of sketches |
| EncodingCodec.LayoutAt | src/pbs_encoding_message.h:193-210 | with sketches of 8k + r bits, whole byte j of sketch g is byte k * g + j of the message, and behind all whole bytes the remaining bits of sketch g start at bit r * g |
| EncodingCodec.WriteGood | src/pbs_encoding_message.h:178-181 | sketches of whole bytes are put one after another and nothing else changes |
| EncodingCodec.WriteBad | src/pbs_encoding_message.h:193-210 | whole bytes of all sketches first, then all remaining bits packed and padded with zeros; the two regions do not overlap and the rest of the buffer is untouched |
| EncodingCodec.ParseGood | src/pbs_encoding_message.h:237-246 | the sketches read are those whose message the buffer is |
| EncodingCodec.ParseBad | src/pbs_encoding_message.h:219-230 | the same when remaining bits are packed behind the whole bytes |
| EncodingCodec.PbsEncodingMessage.Write | src/pbs_encoding_message.h:115-128 | the announced number of bytes is written, with the layout of the message, and nothing beyond |
| EncodingCodec.PbsEncodingMessage.Parse | src/pbs_encoding_message.h:79-95 | -1 and no change if a parameter is zero or the buffer is too short; otherwise the announced size and the sketches whose message it is |
| EncodingCodec.RoundTrip | src/pbs_encoding_message.h:79-128 | for all m, t, g of at least 1 and all sketches, parsing what was written restores every sketch, and as many bytes are written as m * t * g bits need |
| DecodingCodec.UniqueDecoding | src/pbs_decoding_message.h:125-177 | two messages whose bits both start the same buffer are equal: the failure flag is never taken for a count |
| DecodingCodec.PbsDecodingMessage.constructor | src/pbs_decoding_message.h:72-80 | the failure flag, the largest number of the count width, is larger than any count up to the capacity |
| DecodingCodec.PbsDecodingMessage.Write | src/pbs_decoding_message.h:157-177 | the counts, failures as the flag, and the bins are written in the announced number of bytes and nothing beyond |
| DecodingCodec.PbsDecodingMessage.Parse | src/pbs_decoding_message.h:125-150 | the counts and bins read are those whose bits the buffer starts with, as many bins as the counts announce |
| DecodingCodec.RoundTrip | src/pbs_decoding_message.h:125-187 | for any counts in -1..t and bins below 2^m in the announced number, parsing what was written restores both lists; each count is its own field of d bits, with a failure as 2^d - 1, each bin a field of m bits behind them, and as many bytes are written as these bits need |
| HintCodec.PbsEncodingHintMessage.AddGroupId | src/pbs_encoding_hint_message.h:109-112 | an id in range is appended, any other is an error and changes nothing |
| HintCodec.PbsEncodingHintMessage.Write | src/pbs_encoding_hint_message.h:120-130 | the ids are packed and padded with zeros into the announced number of bytes, nothing else changes |
| HintCodec.PbsEncodingHintMessage.Parse | src/pbs_encoding_hint_message.h:88-102 | the ids before the first zero id after the first place are added to those held, an id out of range among them is an error |
| HintCodec.SentSize | src/pbs_encoding_hint_message.h:132-140 | a hint of k ids takes as many bytes as k times the width in bits needs |
| HintCodec.FieldsFit | src/pbs_encoding_hint_message.h:91 | as many fields are read as fit the buffer |
| HintCodec.FieldsAre | src/pbs_encoding_hint_message.h:90-95 | in any buffer, field i is the number in the bits from width * i on |
| HintCodec.ScanMeans | src/pbs_encoding_hint_message.h:94-99 | the ids received are all fields before the first zero after the first place, and an error results if and only if one of them is out of range |
| HintCodec.SentAt | src/pbs_encoding_hint_message.h:120-130 | in the buffer written, id i is in the bits from width * i on |
| HintCodec.HintRoundTrip | src/pbs_encoding_hint_message.h:88-140 | a hint is restored if and only if it is empty, or ids take at least a bit and none but the first is zero |
| HintCodec.IncreasingHint | src/pbs_encoding_hint_message.h:88-140 | increasing ids are restored for every range of at least 2, padding always being recognised; for range 1 nothing arrives |
| HintCodec.Deliver | src/pbs_encoding_hint_message.h:67-140 | the same for a message object written to a buffer and a fresh one parsed from it |
| Stores.Sort | src/reconciliation_client.h:610-620 | a recovered list is divided into what the client has, with its values, and what it lacks; neither part repeats a key if and only if the list does not |
| Stores.InsertNew | src/reconciliation_client.h:637-640 | all items are inserted if and only if none is there already or repeated; nothing that was there changes |
| Stores.LookUpAll | src/reconciliation_server.h:412-419 | all keys are answered with their values if and only if all are there; an item is repeated if and only if a key is |
| Stores.Serve | src/reconciliation_server.h:404-420 | pushed items are inserted, and exactly a duplicate or repeated one is an error; missing keys are answered with their values, and exactly an unknown key is an error |
| Stores.Synchronize | src/reconciliation_server.h:176-199 | pushes are inserted without replacing anything, pulls are answered, an unknown key is an error |
| Reconciliation.SyncInRound | src/reconciliation_client.h:610-640 | for any list: the exchange raises no error if and only if the list is genuine, that is, each of its keys is in exactly one store and none is repeated; then both stores gain exactly its keys; in any case they gain only keys of the list, with the right values |
| Reconciliation.FinalSync | src/reconciliation_client.h:575-593 | for any list: the server gains exactly what the client has of it; the client gains the rest if the server has all of it, and nothing otherwise |
| Reconciliation.AnswerAndCheck | src/reconciliation_client.h:599-663 | sketches one way and decoding message, XORs and checksums the other take the run from one state to the next, and completion is reported if and only if no group is left |
| Reconciliation.CheckEmptyReply | src/reconciliation_client.h:642-662 | after a lost hint Bob's reply is empty and Alice's check of it ends in the runtime error |
| Reconciliation.RoundAt | src/reconciliation_client.h:599-663 | a round fails if and only if the hint for it was lost, and otherwise yields the next list of the run |
| Reconciliation.HistoryIsRun | src/reconciliation_client.h:572-665 | the states of the client's loop are a run of the protocol |
| Reconciliation.RoundsAre | src/reconciliation_client.h:595-600 | the client stops after round 1 or 2 exactly if no group is left, the list was not genuine or the hint was lost, and after round 3 in any case; it reports success exactly if the last state has no group |
| Reconciliation.Reconcile | src/reconciliation_client.h:555-668 | for all keys and hashes: there is a second and a third round exactly if the run can go on after the one before, and never a fourth; success is reported if and only if one of the first three rounds leaves no group and before it every list was genuine and every hint arrived; otherwise the client stops at the first that was not, or after three rounds; in each case the stores hold the lists exchanged so far, and of a list that was an error at most its keys |
| Reconciliation.SuccessMeans | src/reconciliation_client.h:572-593 | for every run that reports success: both stores are the union of the initial ones if and only if the lists name all keys that differ, and the last list names no key unknown to both stores or the client lacked none of its keys |
| Reconciliation.GenuineSuccess | src/reconciliation_client.h:572-593 | if in addition the last list is genuine, that is so if and only if the dropped leftovers cancel |
| Reconciliation.IdealFirstRound | src/reconciliation_client.h:599-663 | if in every group the differing keys are in different bins and within the capacity, the first round leaves no group and its list is genuine and the whole difference |
| Reconciliation.ReconcileIdeal | src/reconciliation_client.h:555-668 | from that condition on the initial keys alone: success after one sketch, and both stores are the union |
| IdealCase.ApartIsIdeal | src/pbs.h:444-462 | if in every group at most t keys differ and the hash of the first round gives them different remainders, the start is of that kind |
| IdealCase.ReconcileApart | src/reconciliation_client.h:555-668 | from that condition on the hashes of the differing keys: success after one sketch, and both stores are the union |
| FakeRuns.FakeRound | src/reconciliation_client.h:599-663 | in the first round of such keys, in one of any number of groups, the list is the fake alone, and no group is left if and only if the other keys XOR to zero |
| FakeRuns.FakeOutcome | src/reconciliation_client.h:572-640 | whatever the client run comes to, it takes one round, no key moves, and success is reported if and only if the other keys XOR to zero |
| FakeRuns.ReconcileFake | src/reconciliation_client.h:555-668 | the same of the client's loop against an empty server, from the initial keys alone |
| FakeRuns.FakeSucceeds | src/reconciliation_client.h:572-593 | three keys, a code and a minisketch that meet the conditions of ReconcileFake with no other keys, so that the client reports success |
| FakeRuns.FakeStops | src/reconciliation_client.h:610-640 | five keys, a code, two groups (so that hints arrive) and a minisketch that meet them with other keys that do not XOR to zero, so that the client stops at the fake |
| IbltSpec.SpotsDiffer | 3rd/include/iblt/iblt.cpp:143-159 | the cells of a key under different hash functions are different |
| IbltSpec.TouchesHashed | 3rd/include/iblt/iblt.cpp:143-148 | the cells of a key are, for each hash function i, buckets * i plus its hash modulo buckets, and no other |
| IbltSpec.TotalRemove | 3rd/include/iblt/iblt.cpp:137-159 | the sum in a cell does not depend on the order of insertion, and any entry can be taken out of it |
| IbltSpec.TotalToggle | 3rd/include/iblt/iblt.cpp:161-169 | adding an entry whose opposite is there cancels it |
| IbltSpec.TotalDifference | 3rd/include/iblt/iblt.cpp:281-302 | subtracting sums gives the sum of the signed difference of the two sets of entries |
| IbltSpec.CellTests | 3rd/include/iblt/iblt.cpp:25-37 | under the hypothesis on hashes a cell looks empty if and only if it holds nothing, and pure if and only if it holds a single entry, whose key and value it then shows |
| IbltSpec.InsertedNoFalse | 3rd/include/iblt/iblt.cpp:25-37 | the hypothesis on hashes holds of every table into which entries were only inserted |
| IbltSpec.OneBitNoFalse | 3rd/include/iblt/iblt.cpp:25-37 | the hypothesis on hashes holds of any entries, inserted or erased, with different one-bit checks |
| IbltSpec.TwoNeverCancel | 3rd/include/iblt/iblt.cpp:34-37 | two entries of different keys never make a cell look empty, whatever their checks are |
| IbltSpec.CoreIsLargestStuck | 3rd/include/iblt/iblt.cpp:231-246 | there is a largest set of entries in which every touched cell is touched at least twice |
| IbltSpec.PeelKeepsCore | 3rd/include/iblt/iblt.cpp:235-244 | taking out an entry alone in some cell leaves that set as it is |
| IbltSpec.PeelingIsConfluent | 3rd/include/iblt/iblt.cpp:226-278 | in whatever order entries are peeled, when nothing more can be peeled exactly that set is left and exactly the others were taken out |
| IbltSpec.SeparatedCore | 3rd/include/iblt/iblt.cpp:226-254 | if one of the hash functions gives different entries different remainders modulo the region size, nothing is stuck |
| Iblt.AddValue | 3rd/include/iblt/iblt.cpp:39-50 | the result is as long as the longer of the two, and byte by byte their XOR, missing bytes counting as zero |
| Iblt.TableUpdated | 3rd/include/iblt/iblt.cpp:137-159 | updating the cells of an entry makes the table hold one more entry, or cancels its opposite, with value sums cleared where a cell becomes empty |
| Iblt.IBLT.InsertSigned | 3rd/include/iblt/iblt.cpp:137-159 | exactly the cells of the key (buckets * i + hash i of the key modulo buckets) change, each once, by the signed entry, and the value sum of each that becomes empty is cleared |
| Iblt.IBLT.Erase | 3rd/include/iblt/iblt.cpp:166-169 | erasing updates exactly the cells of the key, each once, by the negative entry |
| Iblt.CellMeans | 3rd/include/iblt/iblt.cpp:25-37 | what isPure and empty say about the entries of a cell of the table |
| Iblt.IBLT.PeelEntries | 3rd/include/iblt/iblt.cpp:257-278 | the table is left with the stuck core, all other entries are added to the lists of their sign, and the loop ends |
| Iblt.IBLT.ListEntries | 3rd/include/iblt/iblt.cpp:226-254 | true is returned if and only if the stuck core is empty, although only one region is checked; the lists get exactly the entries outside the core; the table is unchanged |
| Iblt.IBLT.FirstRegionEmpty | 3rd/include/iblt/iblt.cpp:248-253 | the first region is empty if and only if no entry is left anywhere |
| Iblt.IBLT.Get | 3rd/include/iblt/iblt.cpp:171-224 | an answer is given if and only if some cell of the key holds at most one entry of the core; it is the key's value if the key is present and empty if it is absent; the recursion ends because each table holds fewer entries |
| Iblt.TableMinus | 3rd/include/iblt/iblt.cpp:281-302 | the cellwise difference of two tables holds the signed difference of their entries |
| Iblt.IBLT.Subtract | 3rd/include/iblt/iblt.cpp:281-302 | every cell of the result is the difference of the two cells, with the value sum cleared where it looks empty |
| Iblt.IBLT.SetCells | 3rd/include/iblt/iblt.h:92-108 | the first cells are overwritten by what was sent, with a zero value, the others stay |
| Iblt.WiredHolds | 3rd/include/iblt/iblt.h:92-108 | a table of keys with the dummy value survives being sent without its values |
| DDigest.TableSize | 3rd/include/iblt/iblt.cpp:114-123 | the size is the least multiple of the number of hash functions that is large enough |
| DDigest.ApartCore | 3rd/include/iblt/iblt.cpp:226-254 | if one of the hash functions keeps all keys apart that only one host has, nothing in the difference of the tables is stuck |
| DDigest.HashesExist | src/reconciliation_server.h:262-309 | for any two lists of keys there are hash functions with which no cell of the difference deceives and nothing is stuck |
| DDigest.NewTable | 3rd/include/iblt/iblt.cpp:114-123 | a new table holds nothing, and its hash functions have regions of equal size that fill exactly that many cells |
| DDigest.Answer | src/reconciliation_server.h:262-309 | the server answers with success if and only if nothing in the difference is stuck, and then names exactly its own keys and exactly the client's keys that the other lacks |
| DDigest.Exchange | src/reconciliation_server.h:293-306 | given these lists, every key to push is found in the server's store, no insertion fails, and both stores become the union |
| DDigest.Reconcile | src/reconciliation_client.h:405-443 | for two stores: the exchange succeeds if and only if nothing in the difference is stuck, among others whenever one of the hash functions keeps the differing keys in different cells; then both stores are the union, and otherwise neither changes |
| BallsIntoBins.LastBallRecurrence | src/pbs_params.h:342-366 | the probability, as a mean over all sequences of throws, of a empty bins and s single balls satisfies the three-term recurrence over the last ball |
| BallsIntoBins.PositiveIffPossible | src/pbs_params.h:330-341 | a count of empty and single bins has positive probability if and only if it can occur |
| PbsParams.StayTerm | src/pbs_params.h:349-361 | the unsigned factor wraps only where it is multiplied by zero |
| PbsParams.OutsideRange | src/pbs_params.h:346-348 | entries outside the rows and columns that the loops compute are zero |
| PbsParams.Branches | src/pbs_params.h:349-361 | each of the three boundary branches computes the probability of its entry |
| PbsParams.ComputeProbabilityMatrix3D | src/pbs_params.h:342-366 | entry (a, s + 1) of the x-th matrix is, for every x, a and s, the probability, as a mean over all sequences of x throws, that a bins are empty and s hold a single ball |
| Transition.MatrixConserves | src/pbs_params.h:342-366 | the entries of a matrix add up to 1 |
| Transition.BlockSum | src/pbs_params.h:319-323 | the block sum is the probability that decoding succeeds with that many single balls |
| Transition.StepsStochastic | src/pbs_params.h:315-328 | the transition matrix is row-stochastic and state 0 absorbing, also where decoding may fail |
| Transition.ComputeTransitionProbabilityMatrix | src/pbs_params.h:315-328 | the loops compute that matrix, entry (i, j + 1) being the chance to go from i elements to j |
| Transition.PowerStochastic | src/pbs_params.h:285-294 | every power of the matrix is row-stochastic |
| Transition.FailureProbabilities | src/pbs_params.h:285-296 | every multi-round failure probability is in [0, 1], never grows with the number of rounds, and is 0 for nothing to resolve |
| MultiRound.StepMean | src/pbs_params.h:315-328 | a row of the transition matrix applied to any function of the number of elements is its mean over one round's throws |
| MultiRound.LeftByMeans | src/pbs_params.h:315-328 | a round with these throws leaves, if at most t different bins are hit, exactly the elements that share their bin, and otherwise all of them |
| MultiRound.PowerFront | src/pbs_params.h:285-294 | the powers of the matrix, built by multiplying on the right, can be built from the left as well |
| MultiRound.FailureIsChance | src/pbs_params.h:285-296 | the entries computed from matrix powers are, for every number of rounds, the probabilities defined round by round over the throws |
| MultiRound.FailureStep | src/pbs_params.h:291-296 | the probability of being done after one round is the mean of leaving nothing, and after k + 1 rounds the mean, over the first round's throws, of being done with what they leave after k |
| MultiRound.FailureIsOrdered | src/pbs_params.h:273-305 | every multi-round failure probability does not grow with the capacity and does not fall with the number of elements |
| MultiRound.NextRowIsSafe | src/pbs_params.h:248-252 | with any weights, taking the row of the next number of elements gives no smaller a sum |
| MultiRound.ComputeMultiRoundProbabilityMatrix | src/pbs_params.h:273-305 | entry (i, k) is the probability that i elements are not resolved after k rounds, defined round by round over the throws; column 0 and row 0 are zero |
| ParamSearch.Bisect | src/pbs_params.h:150-166 | the bisection ends at the boundary: the target is reached there and not one below |
| ParamSearch.SearchField | src/pbs_params.h:133-174 | for one field size the least feasible capacity is found, or there is none |
| ParamSearch.FeasibleIs | src/pbs_params.h:129-150 | the codes searched have m from 6 to 14 and t from m to the least of 200, 2^m - 2 and five, and t = m in any case |
| ParamSearch.BestBchParam | src/pbs_params.h:129-178 | a feasible code whose m * t is at most that of every feasible code over all field sizes 6..14 and their capacities, with its failure bound, or 1, 1 and -1 if no code is feasible |
| LruSpec.ApplyFaithful | 3rd/include/lrucache/LRUCache11.hpp:115-166 | every operation keeps: no key twice, order of last use, values as last inserted, size within the bound |
| LruSpec.RunFaithful | 3rd/include/lrucache/LRUCache11.hpp:115-194 | all of that after any sequence of operations |
| LruSpec.BoundIsReached | 3rd/include/lrucache/LRUCache11.hpp:182-194 | the bound on the size (maxSize, or maxSize + elasticity - 1 if that is more) is reached, by insertions alone |
| LruSpec.KeysAfter | 3rd/include/lrucache/LRUCache11.hpp:115-194 | reading keeps all keys and removing takes out one; inserting keeps all if the key was there or fewer than maxSize + elasticity keys result, and otherwise exactly maxSize of them |
| LruSpec.PrunedAreOldest | 3rd/include/lrucache/LRUCache11.hpp:182-194 | every key that an insertion prunes was used less recently than every key that stays |
| Lru.Cache.Insert | 3rd/include/lrucache/LRUCache11.hpp:115-127 | map and list stay linked, and the contents become those of the recency list after the insertion |
| Lru.Cache.TryGet | 3rd/include/lrucache/LRUCache11.hpp:128-150 | the value is returned if and only if the key is there, and the key becomes the most recent |
| Lru.Cache.Remove | 3rd/include/lrucache/LRUCache11.hpp:157-166 | the key's entry is taken out, and whether there was one is returned |
| Lru.Cache.Prune | 3rd/include/lrucache/LRUCache11.hpp:182-194 | below the hard limit nothing happens; otherwise the oldest entries beyond the soft limit go |
| Lru.RunOps | 3rd/include/lrucache/LRUCache11.hpp:115-194 | a new cache holds, after any operations, what the recency list holds, with all its properties |

## Left out

- gRPC, protobuf, command line, timers, logging, benchmarks and CSV files: only the effects of the handlers on sketches and stores are modelled.
- minisketch, XXH3 and MurmurHash3 themselves: a sketch is a set, a hash an unknown function.
- Which bits minisketch computes for a set: a linear function of the right size stands for them, and `PbsWire.MinisketchExists` shows one only where the bitmap fits m * t bits.
- 64-bit overflow of the round counter, 32-bit overflow of message sizes, and the 32-bit cell counts of the lookup table are not modelled.
- PbsSketch.ParityBitmapSketch.Encode: takes a sketch with fresh tables; one that is encoded a second time without a round in between would XOR into used tables in the source.
- DDigest.NewTable: takes at least one expected entry; a table without cells divides by zero on the first insertion in the source.
- Zero groups, n below 3 (the sentinel m = 1), and zero capacity on writing an encoding message: the source divides by zero or fills a huge range.
- PbsSketch.ParityBitmapSketch.EncodeWithHint: takes ids of live groups without repetitions; the source would move a repeated group twice, and throws for a group that does not exist.
- PbsSketch.ParityBitmapSketch.DoDecodeCheck: takes bins in 1..n-1, as assumed of the decoder; the source would read outside the group's row for others.
- PbsSketch.ParityBitmapSketch.DecodeCheck: takes replies whose bins are in 1..n-1; on a reply that is too short the object is left as the source leaves it, partly split; nothing more is said about it.
- HintCodec.PbsEncodingHintMessage.Parse: a nonempty buffer for ids of zero bits divides by zero in the source and is excluded; a short buffer is not read beyond its end.
- DecodingCodec.PbsDecodingMessage.Parse: buffers too short for the counts are excluded, since the source reads beyond them; one too short for the bins is answered with -1 as in the source.
- Reconciliation.Reconcile: a turn exchanges the list of the round before and then the sketches, which the source interleaves in one request; neither depends on the other. The run is given as a history of states that Reconciliation.HistoryExists provides. Stores are maps; the order of keys is the order in which they are given to the sketches.
- Reconciliation.CheckEmptyReply: the client parses an empty string where it expects one count. The source reads the terminating zero byte as that count, which is modelled; for capacities above 254 it would read beyond it, which is not.
- The checks inside Push, Pull and PushAndPull that a key is or is not in the client's own store: the list has just been divided by that test.
- Iblt.IBLT.Get: the debug assertion on value sizes is not a statement of the model; the sizes are proved equal wherever it is evaluated.
- The constructor of IBLT that reads parameters from a file, and the hedge factor in floating point.
- failureProbabilityUB and computeFailureProbabilityBound: numeric approximations with binomial densities and powers; the search takes the success probability as a function.
- Floating-point rounding throughout the optimiser, and its caches in memory and on disk.
- The Graphene and PinSketch exchanges, the Bloom filter, the estimator: plumbing or easier members.
- LRU: locking, get (tryGet with an exception), clear, contains and walking the list.
- Superseded copies in src/*.bk.h.
