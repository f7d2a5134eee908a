# gear-bridges core, modelled in Dafny

This project models the core of the Gear ⇄ Ethereum bridge and proves properties of it:

- **Ethereum-side submission** (`useHandleEthSubmit` in the swap frontend): it plans a
  wrapped-ETH mint and an approval, estimates gas, checks the balance, sends mint?, approve?
  and transfer in that order, and waits for the first `FeePaid` event (`EthSubmit`).
- **Merkle branch checks** of the Ethereum light client, and the pre-Electra and Electra
  (depth, index) selection (`Merkle`).
- **Byte and bit conversions** of the prover: `array_to_bits`, `byte_to_bits`, `bits_to_byte`,
  `pad_byte_vec` and `xor_targets` (`Bits`). Also the `Target` target set and the
  little-endian bit summation of `from_bool_targets_le` (`TargetBits`).
- **Substrate trie node parsing**, as the arithmetic the circuits constrain:
  - the two-byte node header decoder (`HeaderParser`);
  - the hashed-value digest read (`HashedDataParser`);
  - the branch-node metadata and the resulting partial address (`BranchParser`).
- **Relayer state machines**: the Ethereum block listener's cursor and restart behaviour
  (`BlockListener`), and the era table of the Ethereum message sender (`MessageSender`).

Modelling conventions:

- Panics (`unwrap`, `assert!`, `panic!`, a failing array read) become an `Option` or `Result` error,
  except two size asserts on const-generic widths, which become preconditions: `pad_byte_vec`'s
  `assert!(data.len() <= L)` (`Bits.PadByteVec`) and `from_bool_targets_le`'s `assert!(B <= 64)`
  (`TargetBits.FromBoolTargetsLe`).
- Hash functions, the trie codec, `utils::calculate_epoch`, RPC answers and wallet calls are
  parameters.
- Rust and circuit integers are Dafny `nat`, and JavaScript `bigint`s are `int`.
- One module per source file, plus `Wrappers` (Option/Result) and `Arith` (powers of two).
- Bit-level reasoning uses `Bits.Shr` (repeated halving) and `Bits.Bit` rather than powers of
  two in nonlinear terms.

## Model

| member | source | states |
|---|---|---|
| Bits.XorTargets | prover/src/common/mod.rs:471-480 | `!(!a & !b) & !(a & b)` is true exactly when `a != b` |
| Bits.ByteToBitsIsReversedLsb | prover/src/common/mod.rs:486-493 | `byte_to_bits` lists the 8 bits most significant first: bit k is bit 7-k of the byte |
| Bits.BitsToByteOfByteToBits | prover/src/common/mod.rs:486-501 | `bits_to_byte(byte_to_bits(b)) == b` for every byte |
| Bits.ByteToBitsOfBitsToByte | prover/src/common/mod.rs:486-501 | `byte_to_bits(bits_to_byte(bs)) == bs` for every 8 bits |
| Bits.ArrayToBits | prover/src/common/mod.rs:482-484 | `array_to_bits(data)` has 8 bits per byte of `data` |
| Bits.ArrayToBitsChunk | prover/src/common/mod.rs:482-484 | bits `[8i, 8i+8)` of `array_to_bits(data)` are `byte_to_bits(data[i])` |
| Bits.ArrayToBitsAppend | prover/src/common/mod.rs:482-484 | `array_to_bits` of a concatenation is the concatenation of the two bit strings |
| Bits.ArrayToBitsInjective | prover/src/common/mod.rs:482-484 | equal bit strings come only from equal byte strings: nothing is lost |
| Bits.PadByteVec | prover/src/common/mod.rs:503-511 | when `data` has at most L bytes, the result has length L, starts with `data` and is zero after it |
| Bits.LsbBitsOfLeSum | prover/src/common/targets/target.rs:31-38 | reading back the bits of a `le_sum` gives the bits: `le_sum` is injective on bit strings of one length |
| Bits.LeSumAppend | prover/src/common/targets/target.rs:31-38 | `le_sum(lo ++ hi)` is `le_sum(lo)` plus `le_sum(hi)` shifted past the width of `lo`, which covers splitting off the most significant bit |
| TargetBits.Parse | prover/src/common/targets/target.rs:3-7 | `parse` succeeds exactly when a target is left, consumes exactly one and leaves the rest |
| TargetBits.IntoTargets | prover/src/common/targets/target.rs:8-10 | `into_targets_iter` yields exactly the one target |
| TargetBits.ParseIntoTargets | prover/src/common/targets/target.rs:3-11 | parsing what `into_targets_iter` wrote gives the target back and leaves the rest untouched |
| TargetBits.ParseArray | prover/src/common/targets/target.rs:3-7 | repeated `parse` of a single target: n targets are taken iff n are left, and exactly those are split off |
| TargetBits.ParseExact | prover/src/common/targets/target.rs:3-7 | `parse` of n single targets followed by an emptiness check: succeeds iff exactly n are given, and returns them |
| TargetBits.ReorderIsChunkwiseReverse | prover/src/common/targets/target.rs:22-29 | `chunks(8).rev().flatten().rev()` reverses the bits inside each chunk and keeps the chunks in place, for every length |
| TargetBits.FromBoolTargetsLe | prover/src/common/targets/target.rs:23-39 | for `B <= 64` the result is `le_sum` of the reordered bits, hence below `2^B` |
| TargetBits.MsbSplit | prover/src/common/targets/target.rs:31-36 | splitting off the most significant bit and adding it back as `2^63 * msb` with `mul_add` keeps the sum |
| TargetBits.FromU64BitsLeLossy | prover/src/common/targets/target.rs:41-46 | `from_u64_bits_le_lossy` is the `le_sum` of the 64 reordered bits, hence below `2^64` |
| TargetBits.LeBytesSplit | prover/src/common/targets/target.rs:55-93 | k little-endian bytes of n and what lies above them make up n (`to_le_bytes`) |
| TargetBits.ReorderOfArrayToBits | prover/src/common/targets/target.rs:55-93 | reordering `array_to_bits(bytes)` lists every byte's bits least significant first, bytes in order |
| TargetBits.BytesBitsValue | prover/src/common/targets/target.rs:55-93 | `array_to_bits` of bytes, reordered, has the bytes' little-endian value as its `le_sum` |
| TargetBits.LeBytesFit | prover/src/common/targets/target.rs:55-93 | below `2^(8k)` a number is exactly the value of its k little-endian bytes |
| TargetBits.LeBytesRoundTrip | prover/src/common/targets/target.rs:55-93 | for any k, k bytes of `to_le_bytes` expanded, reordered and summed give the number back |
| TargetBits.FromU64BitsRoundTrip | prover/src/common/targets/target.rs:51-94 | for every u64 `num`, `from_u64_bits_le_lossy(array_to_bits(num.to_le_bytes())) == num` |
| HeaderParser.BranchWithoutValue | prover/src/storage_inclusion/storage_trie_proof/node_parser/header_parser.rs:28-33 | prefix 0b10 of length 2; the first-byte maximum is 63 |
| HeaderParser.HashedValueLeaf | prover/src/storage_inclusion/storage_trie_proof/node_parser/header_parser.rs:35-40 | prefix 0b001 of length 3; the first-byte maximum is 31 |
| HeaderParser.Define | prover/src/storage_inclusion/storage_trie_proof/node_parser/header_parser.rs:43-103 | a prefix mismatch is refused exactly when the top bits differ; a success has offset 1 or 2 and `nibble_count <= max + 254` |
| HeaderParser.PrefixMatchesIff | prover/src/storage_inclusion/storage_trie_proof/node_parser/header_parser.rs:53-58 | the bit loop accepts exactly the bytes whose bits above the value field equal the prefix's |
| HeaderParser.PrefixValue | prover/src/storage_inclusion/storage_trie_proof/node_parser/header_parser.rs:60-75 | after a matching prefix, `first_byte - masked_prefix` is the value field and is at most `max` |
| HeaderParser.EncodeHeader | prover/src/storage_inclusion/storage_trie_proof/node_parser/header_parser.rs:60-97 | the reference encoder: one byte below `max`, two bytes from `max` up to `max + 254` |
| HeaderParser.DefineDecodesEncodeHeader | prover/src/storage_inclusion/storage_trie_proof/node_parser/header_parser.rs:43-103 | decoding an encoded count gives that count and the header's length, whatever byte follows a one-byte header |
| HeaderParser.DefineAcceptsOnlyEncodings | prover/src/storage_inclusion/storage_trie_proof/node_parser/header_parser.rs:43-103 | every accepted header is the encoding of the count it returns: `v != max` gives `(v, 1)`, `v == max` and `byte1 < 255` gives `(max + byte1, 2)`, `byte1 == 255` is refused |
| HeaderParser.BranchHeaderCases | prover/src/storage_inclusion/storage_trie_proof/node_parser/header_parser.rs:111-163 | the branch-header test cases: one-byte, two-byte, overlong and wrong-prefix headers |
| HeaderParser.LeafHeaderCases | prover/src/storage_inclusion/storage_trie_proof/node_parser/header_parser.rs:165-217 | the leaf-header test cases |
| HashedDataParser.AsBitTargets | prover/src/storage_inclusion/storage_trie_proof/node_parser/leaf_parser/hashed_data_parser.rs:40-43 | `as_bit_targets` lists the 8 bits least significant first |
| HashedDataParser.Define | prover/src/storage_inclusion/storage_trie_proof/node_parser/leaf_parser/hashed_data_parser.rs:30-59 | succeeds iff 32 bytes are there at the offset; then the resulting offset is `read_offset + 32` and exactly 256 bits are parsed |
| HashedDataParser.DigestBitsIsArrayToBits | prover/src/storage_inclusion/storage_trie_proof/node_parser/leaf_parser/hashed_data_parser.rs:40-47 | reversing each byte's `as_bit_targets` is `array_to_bits`: most significant bit first |
| HashedDataParser.DefineReadsDigest | prover/src/storage_inclusion/storage_trie_proof/node_parser/leaf_parser/hashed_data_parser.rs:36-48 | the digest bits are `array_to_bits` of exactly `node_data[read_offset .. read_offset + 32)` |
| HashedDataParser.DefineDeterminesDigestBytes | prover/src/storage_inclusion/storage_trie_proof/node_parser/leaf_parser/hashed_data_parser.rs:36-48 | equal digest targets come only from equal digest bytes |
| BranchParser.ToChildReference | prover/src/storage_inclusion/storage_trie_proof/node_parser/branch_parser/mod.rs:190-191 | the conversion succeeds iff a hash handle has 32 bytes or inline data at most 32; inline data is zero-padded and keeps its length |
| BranchParser.SerializedSize | prover/src/storage_inclusion/storage_trie_proof/node_parser/branch_parser/mod.rs:209-214 | a hash child encodes in 33 bytes, an inline child of length `len` in `1 + len` |
| BranchParser.ConvertChildren | prover/src/storage_inclusion/storage_trie_proof/node_parser/branch_parser/mod.rs:190-191 | the 16 children convert iff each present one converts, and then every converted child is sized |
| BranchParser.CountPresentBefore | prover/src/storage_inclusion/storage_trie_proof/node_parser/branch_parser/mod.rs:201-206 | the first loop counts the present children before the claimed slot |
| BranchParser.ChildrenLengths | prover/src/storage_inclusion/storage_trie_proof/node_parser/branch_parser/mod.rs:208-216 | the second loop lists the serialized size of each present child in slot order |
| BranchParser.ParseMetadata | prover/src/storage_inclusion/storage_trie_proof/node_parser/branch_parser/mod.rs:183-230 | each failure (decode, node type, value, conversion, claimed nibble, non-hash claimed child, length underflow) and otherwise the metadata, with the index the first loop counts and the lengths the second pushes |
| BranchParser.PresentLengthsAt | prover/src/storage_inclusion/storage_trie_proof/node_parser/branch_parser/mod.rs:201-216 | the entry at (present children before slot k) is slot k's own serialized size |
| BranchParser.ClaimedChildIndexInRange | prover/src/storage_inclusion/storage_trie_proof/node_parser/branch_parser/mod.rs:193-216 | `claimed_child_index_in_array` is below `children_lengths.len()`, and that entry is the claimed hash child's 33 |
| BranchParser.ChildrenFillNodeTail | prover/src/storage_inclusion/storage_trie_proof/node_parser/branch_parser/mod.rs:218-219 | `children_data_offset + sum(children_lengths) == node_data.len()`, and the subtraction fails iff the lengths exceed the node |
| BranchParser.PresentLengthsBounds | prover/src/storage_inclusion/storage_trie_proof/node_parser/branch_parser/mod.rs:208-216 | every length is between 1 and 33, so their sum is at most 33 times the number of present children |
| BranchParser.ResultingPartialAddress | prover/src/storage_inclusion/storage_trie_proof/node_parser/branch_parser/mod.rs:131-137 | the input address, then the node's nibbles, then the claimed nibble |
| BranchParser.ResultingPartialAddressChains | prover/src/storage_inclusion/storage_trie_proof/node_parser/branch_parser/mod.rs:316-334 | descending through two branches equals one extension by both nibble runs |
| Merkle.IsValidMerkleBranch | ethereum-common/src/merkle.rs:34-63 | panics iff the loop reaches level 32; otherwise true iff the branch has `depth` nodes and folding its first `depth` over `leaf` gives `root` |
| Merkle.ShortBranchFails | ethereum-common/src/merkle.rs:45-47 | a branch with fewer than `depth` nodes never passes |
| Merkle.ExtraNodesIgnored | ethereum-common/src/merkle.rs:45 | nodes after the first `depth` do not change the verdict |
| Merkle.DepthZeroIsEquality | ethereum-common/src/merkle.rs:41-62 | at depth 0 the check is `leaf == root` |
| Merkle.BranchRootExtend | ethereum-common/src/merkle.rs:48-58 | level i hashes `value ++ node` when bit i of `index` is 0 and `node ++ value` otherwise |
| Merkle.BranchRootUsesLowIndexBits | ethereum-common/src/merkle.rs:48-58 | only the low `depth` bits of `index` matter |
| Merkle.FloorLog2Is | ethereum-common/src/merkle.rs:11-31 | the depth of a generalized index is the one power of two it lies between |
| Merkle.ConstantsMatchGindices | ethereum-common/src/merkle.rs:11-31 | each pre-Electra (depth, index) constant is `floorlog2` and the subtree index of its generalized index |
| Merkle.ElectraConstantsMatchGindices | ethereum-common/src/merkle.rs:172-179 | the same of the Electra constants |
| Merkle.DepthIndexCurrent | ethereum-common/src/merkle.rs:120-136 | the Electra pair (6, 22) iff `calculate_epoch(slot) >= epoch_electra`, else (5, 22) |
| Merkle.DepthIndexNext | ethereum-common/src/merkle.rs:138-150 | the Electra pair (6, 23) iff the slot is in Electra, else (5, 23) |
| Merkle.DepthIndexFinality | ethereum-common/src/merkle.rs:156-165 | the Electra pair (7, 41) iff the slot is in Electra, else (6, 41) |
| Merkle.ElectraAddsOneLevel | ethereum-common/src/merkle.rs:172-179 | every Electra depth is the pre-Electra depth plus one, with the same index |
| Merkle.ElectraIsPermanent | ethereum-common/src/merkle.rs:120-165 | with an epoch function that never decreases, later slots keep the Electra pairs |
| Merkle.IsCurrentCommitteeProofValid | ethereum-common/src/merkle.rs:65-82 | true iff the branch holds for the committee root against the attested state root at the current-committee (depth, index) of the attested slot |
| Merkle.IsFinalityProofValid | ethereum-common/src/merkle.rs:84-95 | the same, for the finality header root at the finality (depth, index) |
| Merkle.IsNextCommitteeProofValid | ethereum-common/src/merkle.rs:97-114 | the same, for the next committee root at the next-committee (depth, index) |
| EthSubmit.GasOrFallback | frontend/src/features/swap/hooks/eth/use-handle-eth-submit.ts:68-71 | an undefined or 0n estimate is replaced by 210000; any other estimate is kept |
| EthSubmit.PlanCosts | frontend/src/features/swap/hooks/eth/use-handle-eth-submit.ts:49-73 | the first missing input is refused in the source's order; otherwise the first required estimate that rejects (mint, approve, transfer, fees) is the error; a plan has mint iff wrapped ETH and `amount > ftBalance` with `valueToMint = amount - ftBalance`, approve iff `amount > allowance`, each required gas limit and `maxFeePerGas` exactly the estimate, gas 0 when not required, and the transfer simulated iff no approval |
| EthSubmit.ValidateBalance | frontend/src/features/swap/hooks/eth/use-handle-eth-submit.ts:48-81 | accepted iff the plan exists and `valueToMint + gas * maxFeePerGas + fee <= accountBalance`; the refusal carries that total |
| EthSubmit.AcceptedIffAffordable | frontend/src/features/swap/hooks/eth/use-handle-eth-submit.ts:55-78 | once the estimates answer, accepted iff `valueToMint + (mint + approve + (transfer or fallback)) * maxFeePerGas + fee <= accountBalance` in the estimates' own numbers |
| EthSubmit.UndefinedInputFailsFirst | frontend/src/features/swap/hooks/eth/use-handle-eth-submit.ts:49-53 | a missing input is refused with its own error, before any estimate is requested |
| EthSubmit.MintEstimateOnlyWhenRequired | frontend/src/features/swap/hooks/eth/use-handle-eth-submit.ts:55-59 | without a required mint the mint estimate is never asked |
| EthSubmit.ApproveEstimateOnlyWhenRequired | frontend/src/features/swap/hooks/eth/use-handle-eth-submit.ts:61-62 | without a required approval the approve estimate is never asked |
| EthSubmit.TransferEstimateOnlyWithoutApproval | frontend/src/features/swap/hooks/eth/use-handle-eth-submit.ts:68-71 | with an approval pending the transfer is not simulated and 210000 is charged |
| EthSubmit.ZeroEstimateChecksFallback | frontend/src/features/swap/hooks/eth/use-handle-eth-submit.ts:68-71 | a 0n estimate is checked as 210000 while the plan keeps the 0 it will send |
| EthSubmit.MoreBalanceStillPasses | frontend/src/features/swap/hooks/eth/use-handle-eth-submit.ts:76-78 | a larger balance never turns acceptance into refusal |
| EthSubmit.InsufficientCarriesThreshold | frontend/src/features/swap/hooks/eth/use-handle-eth-submit.ts:76-78 | the total in the refusal is exactly the smallest balance that passes (equality passes) |
| EthSubmit.Script | frontend/src/features/swap/hooks/eth/use-handle-eth-submit.ts:115-134 | a full submission has six steps |
| EthSubmit.ScriptOrder | frontend/src/features/swap/hooks/eth/use-handle-eth-submit.ts:97-133 | modal, then mint with the planned value and gas or reset, then approve for the full amount with the planned gas or reset, then the one transfer with the simulated gas limit, then the `FeePaid` subscription and its release |
| EthSubmit.OnSubmit | frontend/src/features/swap/hooks/eth/use-handle-eth-submit.ts:83-134 | nothing happens after a validation error; the log is a prefix of the script; a rejection stops what follows; a 0n fee fails after mint and approve; otherwise the first event settles or fails, and no event leaves it waiting |
| EthSubmit.Settle | frontend/src/features/swap/hooks/eth/use-handle-eth-submit.ts:97-113 | the promise is pending exactly until the first callback |
| EthSubmit.SettleOnce | frontend/src/features/swap/hooks/eth/use-handle-eth-submit.ts:97-113 | once settled, later callbacks change nothing |
| EthSubmit.FeePaidWatcher.constructor | frontend/src/features/swap/hooks/eth/use-handle-eth-submit.ts:109-112 | the watcher starts subscribed and pending |
| EthSubmit.FeePaidWatcher.Deliver | frontend/src/features/swap/hooks/eth/use-handle-eth-submit.ts:99-107 | the first callback unsubscribes and resolves (logs) or rejects (error); the state always equals `Settle` of the callbacks |
| BlockListener.Advance | relayer/src/message_relayer/common/ethereum/block_listener.rs:66-76 | `latest >= current` moves the cursor to `latest + 1`, otherwise it stays |
| BlockListener.RunInner | relayer/src/message_relayer/common/ethereum/block_listener.rs:59-78 | starting at `from_block`, the blocks sent are exactly `from_block` up to the final cursor, and the session fails at the first RPC error or closed channel |
| BlockListener.AdvanceSends | relayer/src/message_relayer/common/ethereum/block_listener.rs:66-76 | one poll sends exactly `current..=latest`, or nothing when `latest < current` |
| BlockListener.SessionCursorAppend | relayer/src/message_relayer/common/ethereum/block_listener.rs:64-77 | polling in two parts ends where polling at once ends |
| BlockListener.SessionOutputAscending | relayer/src/message_relayer/common/ethereum/block_listener.rs:60-76 | what one session sends is strictly ascending with no gap |
| BlockListener.CursorPassesLatest | relayer/src/message_relayer/common/ethereum/block_listener.rs:65-71 | the final cursor is above every latest block seen |
| BlockListener.Run | relayer/src/message_relayer/common/ethereum/block_listener.rs:44-57 | every session but the last ends in an error and each restart sends again from `from_block`: the output is the concatenation of the sessions |
| BlockListener.RestartResends | relayer/src/message_relayer/common/ethereum/block_listener.rs:47-60 | after a failed session that sent something, the next one sends `from_block` again |
| MessageSender.WithMessageAt | relayer/src/message_relayer/common/ethereum/message_sender/mod.rs:91-102 | the message is appended to its era, created when vacant; no other era and no merkle root changes |
| MessageSender.WithMessageKeepsKeysMatching | relayer/src/message_relayer/common/ethereum/message_sender/mod.rs:91-102 | a new era is created under the authority set id it is keyed by |
| MessageSender.WithMerkleRootAt | relayer/src/message_relayer/common/ethereum/message_sender/mod.rs:105-117 | the root is appended to its era, created when vacant; no other era and no message changes |
| MessageSender.WithMerkleRootKeepsKeysMatching | relayer/src/message_relayer/common/ethereum/message_sender/mod.rs:105-117 | a new era is created under the authority set id it is keyed by |
| MessageSender.IngestMessagesGroups | relayer/src/message_relayer/common/ethereum/message_sender/mod.rs:84-103 | after the message loop each era holds its old messages followed by exactly its own, in arrival order |
| MessageSender.IngestMerkleRootsGroups | relayer/src/message_relayer/common/ethereum/message_sender/mod.rs:105-117 | after the root loop each era holds its old roots followed by exactly its own |
| MessageSender.IngestKeepsKeysMatching | relayer/src/message_relayer/common/ethereum/message_sender/mod.rs:84-117 | every era stays filed under its own authority set id |
| MessageSender.MaxKey | relayer/src/message_relayer/common/ethereum/message_sender/mod.rs:119 | `last_key_value` is the largest id |
| MessageSender.MinKey | relayer/src/message_relayer/common/ethereum/message_sender/mod.rs:126 | the smallest id, the next era of the ascending iteration |
| MessageSender.InOrderMembers | relayer/src/message_relayer/common/ethereum/message_sender/mod.rs:126 | the `BTreeMap` iteration visits exactly the era ids |
| MessageSender.InOrderAscending | relayer/src/message_relayer/common/ethereum/message_sender/mod.rs:126 | the `BTreeMap` iteration visits ids in strictly ascending order |
| MessageSender.Greatest | relayer/src/message_relayer/common/ethereum/message_sender/mod.rs:119 | the computed latest era is the largest id |
| MessageSender.Least | relayer/src/message_relayer/common/ethereum/message_sender/mod.rs:126 | the computed next era is the smallest remaining id |
| MessageSender.SortedKeys | relayer/src/message_relayer/common/ethereum/message_sender/mod.rs:126 | the iteration order: the era ids in strictly ascending order, each exactly once |
| MessageSender.WalkStep | relayer/src/message_relayer/common/ethereum/message_sender/mod.rs:126-140 | one more era of the walk is marked and must have answered by exactly the loop body's tests |
| MessageSender.FinalizedInMembers | relayer/src/message_relayer/common/ethereum/message_sender/mod.rs:126-140 | the walk marks an era iff its `process` succeeded, `try_finalize` said true and it is not the latest |
| MessageSender.AnsweredInMembers | relayer/src/message_relayer/common/ethereum/message_sender/mod.rs:126-133 | a walk that never stopped got an answer from every processed era |
| MessageSender.AllAnswered | relayer/src/message_relayer/common/ethereum/message_sender/mod.rs:126-133 | when every processed era answered, the round does not stop |
| MessageSender.FinalizedMatches | relayer/src/message_relayer/common/ethereum/message_sender/mod.rs:126-147 | the eras the walk collects are the ones the round removes |
| MessageSender.CollectFinalized | relayer/src/message_relayer/common/ethereum/message_sender/mod.rs:124-140 | visits eras in ascending order; stops iff a processed era's `try_finalize` fails; collects exactly the processed, finalized, non-latest eras |
| MessageSender.RemoveAll | relayer/src/message_relayer/common/ethereum/message_sender/mod.rs:145-147 | removal drops exactly the given ids and keeps every other era unchanged |
| MessageSender.LatestEraNeverRemoved | relayer/src/message_relayer/common/ethereum/message_sender/mod.rs:119-139 | the era with the largest id survives the round unchanged |
| MessageSender.OnlyFinalizedRemoved | relayer/src/message_relayer/common/ethereum/message_sender/mod.rs:126-147 | an era leaves iff it was processed, reported finalized and is not the latest; the others stay unchanged |
| MessageSender.EmptyRoundContinues | relayer/src/message_relayer/common/ethereum/message_sender/mod.rs:119-122 | an empty table after ingestion is neither processed nor changed |
| MessageSender.EraTable.constructor | relayer/src/message_relayer/common/ethereum/message_sender/mod.rs:78 | the table starts empty |
| MessageSender.EraTable.PushMessages | relayer/src/message_relayer/common/ethereum/message_sender/mod.rs:84-103 | the message loop, stopping at the first failed authority-set lookup |
| MessageSender.EraTable.PushMerkleRoots | relayer/src/message_relayer/common/ethereum/message_sender/mod.rs:105-117 | the merkle-root loop |
| MessageSender.EraTable.RemoveEras | relayer/src/message_relayer/common/ethereum/message_sender/mod.rs:145-147 | removes exactly the listed eras |
| MessageSender.EraTable.Round | relayer/src/message_relayer/common/ethereum/message_sender/mod.rs:80-148 | one round: balance read, ingestion, ascending processing, removal; the new table and stop flag are `RoundEffect` of the old table |
| MessageSender.RunInner | relayer/src/message_relayer/common/ethereum/message_sender/mod.rs:65-78 | every `run_inner` starts from an empty table and runs rounds until one stops |

## Left out

- SCALE decoding of trie nodes (`TrieCodec::decode`) is a parameter of `BranchParser.ParseMetadata`. Only the trie-db conversion into `ChildReference` is written out.
- SHA-256, Blake2 and `tree_hash_root` are parameters. No hashing is modelled.
- The circuits are modelled as the values their targets carry, over naturals. This leaves out Goldilocks field reduction, gate and constraint construction, `random_read_array`, and proof composition (`prove` in the branch parser beyond the resulting address).
- `HashedDataParser.Define`: `random_read_array` is not part of this model. An out-of-range read is modelled as a failure (None), not as whatever the circuit would constrain.
- `BranchParser.ParseMetadata`: `node_data.len() - all_children_length` is a `usize` subtraction. Its underflow is modelled as an error, which is the debug-build panic.
- `Merkle.IsValidMerkleBranch`: `depth` and `index` are `u32` values (required below 2^32). The `2u32.pow(i)` overflow at level 32 is modelled as a panic (None).
- The `Era` internals (`process`, `try_finalize`, pending transactions) are not part of this model. Their outcomes per era id are parameters of a round, and the state an era changes in itself is not tracked.
- Metrics, logging, sleeps, `spawn_blocking`, channels and the relayer's CLI are left out.
- `BlockListener.RunInner`: `latest + 1` is unbounded. The u64 overflow at `u64::MAX` is not modelled because such a block number cannot occur.
- `TargetBits.ParseArray`, `TargetBits.ParseExact`: the `TargetSet` trait defaults for arrays and `parse_exact` live in `prover/src/common/targets/mod.rs`, which is not part of this model. They are modelled as the behaviour those defaults have for targets parsed one at a time with `parse`.
- `BlockListener.Run`: whether the receiver is open (`receiverOpen`) is fixed for the whole run. A receiver dropped in the middle of a run is not modelled.
- `BlockListener.Run` and `MessageSender.RunInner`: the infinite loops are modelled by finite sequences of RPC answers (sessions, rounds). Liveness is not stated.
- `EthSubmit.OnSubmit`: `openTransactionModal`, `reset()`, `console.log` and `encodeFunctionData` appear only as steps of the log. The wallet and chain answers are the `Env` parameter.
- `EthSubmit.OnSubmit`: the watcher has no timeout. An event that never comes is modelled as `firstEvent == None`, leaving the outcome `Waiting`.
- Everything outside the listed core is left out: the sails-js client bindings, React-query hooks, integration tests, block-finality proving and the other relayer modules.
