# boxd: a model of its ledger, chain, contract ABI and virtual machine

A Dafny model of the parts of boxd where several functions have to agree for
the system to be right, with the properties that say so.

- **Contract ABI** (`AbiTypes`, `AbiEncode`, `AbiDecode`, `AbiRoundTrip`, `AbiLimits`): arbitrarily nested static
  and dynamic types, the packing and unpacking loops, their round trip, and exactly for which types it holds.
- **Stored outputs** (`BigEndian`, `Varint`, `UtxoCodec`): variable-length numbers, compressed amounts and
  scripts, entries of the unspent-output database.
- **Ledger** (`Ledger`, `Freshness`, `UtxoSets`, `Supply`, `Validation`): blocks of transactions against the
  database of unspent outputs. A sequential ledger is the reference; the working set that loads, applies, reverts
  and writes a block is proved against it output by output, the amount checks give conservation of value, and no
  funded block repeats a transaction.
- **Chain** (`Paths`, `Chain`, `ChainRuns`): main chain, side chains, reorganisation with roll-back, and the eternal
  block, with the exact outcome for every block offered.
- **Virtual machine** (`EvmCode`, `EvmMemory`, `EvmOps`, `Evm`, `Words`, `IntPool`): jump analysis, memory
  fees, the instruction table, nested calls and creations with their gas, read-only calls, and the
  arithmetic on pooled integers that are updated in place.
- **Others**: sequences and sets (`Collections`), transaction order (`Graphs`, `TxDag`), Merkle roots (`Merkle`), multi-signature scripts
  (`Multisig`), irreversibility certificates (`Certificates`), the wallet's cache (`LiveCache`).

`dafny verify dfyconfig.toml` checks everything.

## Where the code differs from what one would expect

- `getTypeSize` gives a fixed array 32 bytes per element, also if the elements are static tuples of several
  words (core/abi/type.go:321-336). The head length holds exactly without such types. The round trip holds for all
  values exactly if in every list of the types, at every level, such a type comes last and nothing in its list is
  dynamic; so a lone fixed array of two-word tuples comes back, and with an argument behind it it does not.
- Checking an empty list of fixed arrays reads its first element (core/abi/error.go:41-43), so such a value
  has no encoding in the model, where a panic and an error are both a missing result. A fixed array of length zero
  packs to nothing and unpacks exactly where 32 more bytes are left, which the round trip states for all types.
- The code of a compressed amount leaves 64 bits for amounts without a trailing zero from about 2^64 / 9 on
  (core/chain/compress.go:184-201). None of these comes back, and every other does; no amount up to the total supply is one.
- The comment at consensus/bpos/bft_service.go:284 asks for more than two thirds of the signatures; the code asks
  for two thirds rounded down. Two certificates then share an honest signer exactly if the dynasty size is a
  multiple of three.
- The square in the memory fee leaves 64 bits from 2^32 words on. With less than 3 * 2^32 gas that size
  cannot be paid for, and below it the fees are exact.
- A stop costs nothing, so a frame may execute one instruction more than it had gas. A fresh frame does so exactly
  if its code starts with as many jump destinations as it has gas and then stops.
- A key count of 2^63 - 2 or 2^63 - 1 in a multi-signature script makes the 64-bit stack index negative
  (script/script.go:408). The size tests then pass, nothing is taken from the stack and TRUE is pushed; for every
  other count the operation succeeds exactly if the counts fit the stack.
- Updating the eternal block checks and sets without the chain's lock. Each of the two kinds of step taken as
  a whole keeps the eternal block on the main chain. Between check and set it is kept exactly until a block
  switches the chain to a branch that forks below the checked block.
- Removing the blocks of a branch that forks below the eternal block can leave stored blocks without their
  parent. A longer branch makes the search for its fork panic exactly if one of its blocks above the main chain has
  a parent that is not held.
- Duplicate transactions of a block are looked up by pointers to their hashes (core/chain/validate.go:111-120), so two
  copies never match; that hashes are distinct follows from the double-spend check instead.
- The coinbase is compared with reward plus fees modulo 2^64. Value is conserved exactly if the sum fits, which
  the limit on block size ensures.

## Model

| member | source | states |
|---|---|---|
| `AbiTypes.TypeSizeLaw` | core/abi/type.go:321-336 | `getTypeSize` never exceeds the bytes a static type really takes, and equals them exactly for the types without a fixed array of multi-word tuples |
| `AbiEncode.StaticLength` | core/abi/type.go:207-286 | the encoding of a value of a static type has the type's real size, for every nesting |
| `AbiEncode.HeadsLength` | core/abi/argument.go:304-344 | the head part of any argument list is as long as the real sizes of its types, whatever offset it carries |
| `AbiEncode.HeadLengthLaw` | core/abi/argument.go:313-344 | the head part is as long as the sum of `getTypeSize` if and only if every type is measured correctly |
| `AbiEncode.PackableChecks` | core/abi/error.go:28-67 | every value that has an encoding passes the type check made before it is packed |
| `AbiEncode.Pack` | core/abi/type.go:207-286 | packing gives the head-and-tail encoding exactly where the value fits the type, and fails otherwise |
| `AbiEncode.PackList` | core/abi/type.go:214-243 | slices and fixed arrays: length prefix, offsets and tails come out as the encoding of the element list |
| `AbiEncode.HeadSize` | core/abi/argument.go:315-319 | the loop adds up `getTypeSize` over the arguments |
| `AbiEncode.PackAll` | core/abi/argument.go:304-344 | the loop over arguments builds heads and tails with running offsets as the recursive encoding does, or fails if one argument fails |
| `AbiDecode.ToGoType` | core/abi/unpack.go:182-240 | decoding at an index follows length prefixes, offsets and nesting as the recursive decoder, including every bounds error |
| `AbiDecode.ForEachUnpack` | core/abi/unpack.go:111-148 | the element loop reads n elements, stepping over static composite elements by their size |
| `AbiDecode.ForTupleUnpack` | core/abi/unpack.go:150-178 | the tuple loop with its count of virtual arguments reads each field at the sum of the sizes before it |
| `AbiRoundTrip.CanonLaw` | core/abi/unpack.go:30-64 | reading an integer back gives a value in range, and the same value exactly if it was in range |
| `AbiRoundTrip.NormalLaw` | core/abi/pack.go:24-69 | a value is changed by its trip through words exactly if some integer or byte array in it does not fit its type |
| `AbiRoundTrip.DecodePlaced` | core/abi/unpack.go:182-286 | any encoding lying anywhere in the data, reached directly or through its offset word, decodes to the normalised value if every head in it has 32 bytes left and every list 32 per element, and to nothing otherwise |
| `AbiRoundTrip.RoundTrip` | core/abi/argument.go:267-344 | for every list of types that is aligned at every level, empty arrays and tuples included: unpacking the packed values, with any bytes appended, gives the normalised values exactly if every head has 32 bytes left and every list 32 per element, and nothing otherwise; the values themselves if and only if they are representable; with no empty type in place there is always room |
| `AbiRoundTrip.PlacedRoom` | core/abi/unpack.go:182-190 | a placed encoding of a type without empty arrays or tuples in place always passes the bounds tests |
| `AbiLimits.MismeasuredFails` | core/abi/type.go:321-336 | whenever some argument's type is measured wrongly there is a uint256 that, passed after these arguments, does not come back, whatever they are |
| `AbiLimits.RoundTripExactly` | core/abi/argument.go:267-344 | for every list of types of a size below 2^63: all values come back if and only if at every level each item but the last is measured correctly, and so is the last unless nothing in its list is dynamic |
| `AbiLimits.NotLaidFails` | core/abi/type.go:321-336 | where the list is out of line, two values of equal size are given of which at most one comes back |
| `AbiLimits.RefMisread` | core/abi/unpack.go:242-286 | a dynamic item reached through a reference to a word that is zero or refers to unchanged bytes cannot be read as both of two different values |
| `AbiLimits.StaticFirst` | core/abi/unpack.go:182-240 | a static item read from the same first word cannot be read as both of two different values |
| `AbiLimits.LoneArray` | core/abi/type.go:321-336 | a fixed array of two-word tuples is measured short; as the only argument every value of it comes back, and with a uint256 behind it, whatever it is, some value of that one makes the trip fail |
| `AbiLimits.BlankPacks` | core/abi/type.go:229-243 | an in-place array of length zero, or a tuple of such, has one value, which packs to nothing |
| `AbiLimits.BlankUnpacks` | core/abi/unpack.go:182-190 | such a type unpacks at a position if and only if 32 bytes are left there |
| `AbiLimits.BlankAlone` | core/abi/unpack.go:182-190 | as a lone argument it comes back if and only if at least 32 bytes follow it |
| `AbiLimits.BlankAmong` | core/abi/unpack.go:182-190 | among other arguments, all come back if and only if 32 bytes of heads, tails or other data follow each type that takes no room |
| `AbiRoundTrip.PackArguments` | core/abi/argument.go:304-311 | packing takes as many values as there are arguments, indexed ones included |
| `AbiRoundTrip.UnpackArguments` | core/abi/argument.go:267-296 | unpacking reads the arguments that are not indexed |
| `AbiRoundTrip.NonIndexedAll` | core/abi/argument.go:64-72 | without indexed arguments packing and unpacking agree on the types |
| `Varint.ReadVlq` | core/chain/compress.go:23-67 | decoding the bytes of a number followed by any suffix gives the number and exactly its length |
| `Varint.SerializeSizeVLQ` | core/chain/compress.go:23-30 | the size loop gives the length of the encoding |
| `Varint.PutVLQ` | core/chain/compress.go:32-51 | writing digits backwards and reversing them in place leaves the encoding at the target and nothing else changed |
| `Varint.PutDigits` | core/chain/compress.go:35-43 | the digits go to the target least significant first |
| `Varint.ReverseInPlace` | core/chain/compress.go:45-49 | the swaps reverse the written bytes |
| `Varint.DeserializeVLQ` | core/chain/compress.go:54-67 | the loop reads as the decoder function, also on truncated input |
| `UtxoCodec.ValueRoundTrip` | core/chain/compress.go:184-225 | decompressing a compressed amount gives it back whenever its code fits 64 bits |
| `UtxoCodec.ValueExactly` | core/chain/compress.go:184-225 | a 64-bit amount comes back if and only if its code fits 64 bits: the eight ways in which a longer code wraps never lead back to the amount |
| `UtxoCodec.AmountLost` | core/chain/compress.go:184-225 | an amount with a longer code, which comes back as 10000 |
| `UtxoCodec.SupplyFits` | core/chain/common.go:24-25 | every amount up to the total supply fits |
| `UtxoCodec.CompressTxOutValue` | core/chain/compress.go:184-201 | the loop that strips zeros computes the compressed amount |
| `UtxoCodec.DecompressTxOutValue` | core/chain/compress.go:203-225 | the loop that multiplies by ten computes the amount |
| `UtxoCodec.CanonicalLaw` | core/chain/compress.go:69-90 | a script comes back unchanged exactly if a recognised template really pushes twenty bytes |
| `UtxoCodec.ScriptRoundTrip` | core/chain/compress.go:92-181 | a compressed script, whatever follows it, decompresses to its canonical form, and its size is found in front |
| `UtxoCodec.EntryRoundTrip` | core/chain/utxoset.go:450-495 | a stored entry, whatever follows it, comes back as amount, canonical script and height; it equals the entry exactly if the script pushes twenty bytes or is no template |
| `UtxoCodec.PutScript` | core/chain/compress.go:125-143 | the script bytes written are the compressed script, and the count is their number |
| `UtxoCodec.SerializeUtxo` | core/chain/utxoset.go:450-471 | the size computed in advance is the number of bytes written, and they are the entry's encoding |
| `UtxoCodec.DeserializeUtxo` | core/chain/utxoset.go:474-495 | reads header, amount and script as the decoder function, including the errors on short data |
| `Ledger.HashesDistinct` | core/chain/validate.go:86-120 | without hash collisions the double-spend check alone makes the transaction hashes of a block distinct |
| `Ledger.RunAt` | core/chain/utxoset.go:282-310 | the sequential ledger after n transactions, output by output: present exactly if it was there or was created, and has not been spent |
| `Ledger.InputsPresent` | core/chain/validate.go:305-312 | in a valid block every input is present when its transaction is reached, also if an earlier transaction of the block made it |
| `Ledger.RunIndexed` | core/chain/blockchain.go:1737-1816 | after a block every unspent output can be read back from the transaction index with its amount, script and height |
| `Freshness.FundedIsFresh` | core/chain/validate.go:305-312 | a funded block with a new coinbase repeats no transaction of its chain: an ordinary one would need an output that is gone |
| `Freshness.RunSettled` | core/chain/utxoset.go:303-308 | after a block everything its transactions and those before it spent is gone, and can only be made again by a repeated transaction |
| `Validation.ValidateTransactionPreliminary` | core/chain/validate.go:392-466 | accepts exactly transactions with 1 to 256 inputs and outputs, a total within the supply and no null input |
| `Validation.SeeInputs` | core/chain/validate.go:86-94 | passes exactly if the inputs are pairwise distinct and none was seen before, and then adds them |
| `Validation.ValidateBlock` | core/chain/validate.go:42-100 | passes exactly blocks with one coinbase in front, within the size limit, of valid transactions, in which no output is named by two inputs |
| `Validation.ValidatedIsStructured` | core/chain/validate.go:111-120 | with collision-free hashing a validated block has distinct transaction hashes, so the chain may take it |
| `UtxoSets.UtxoSet.AddUtxo` | core/chain/utxoset.go:116-141 | adds one output; refuses exactly an index out of range, a data output or an output already present |
| `UtxoSets.UtxoSet.SpendUtxo` | core/chain/utxoset.go:144-152 | marks an output spent, making an empty entry for an unknown one |
| `UtxoSets.UtxoSet.ApplyOutputs` | core/chain/utxoset.go:284-295 | adds each spendable output that is not there yet; fails exactly on an unreadable script |
| `UtxoSets.UtxoSet.ApplyTx` | core/chain/utxoset.go:282-310 | per output: created if new, then spent if it is an input; a coinbase spends nothing |
| `UtxoSets.UtxoSet.ApplyBlock` | core/chain/utxoset.go:334-343 | applies the transactions in order to every output |
| `UtxoSets.UtxoSet.RemoveOutputs` | core/chain/utxoset.go:350-357 | marks every spendable output of the transaction spent |
| `UtxoSets.UtxoSet.RevertTx` | core/chain/utxoset.go:347-391 | per output: spent if created here, then restored if it is an input, from the set or from the transaction index; fails exactly if an input is in neither |
| `UtxoSets.UtxoSet.RevertBlock` | core/chain/utxoset.go:395-409 | reverts the transactions last first; fails exactly if an input is not in the set, not made by this or a later transaction, and not in the index |
| `UtxoSets.UtxoSet.LoadBlockUtxos` | core/chain/utxoset.go:585-650 | loads exactly the inputs: from an earlier or the same transaction of the block, or else from the database |
| `UtxoSets.UtxoSet.LoadInputs` | core/chain/utxoset.go:593-612 | one transaction's inputs are added from the block or noted for fetching |
| `UtxoSets.UtxoSet.FetchUtxos` | core/chain/utxoset.go:686-699 | entries found in the database replace what was there, the rest stays |
| `UtxoSets.UtxoSet.LoadBlockAllUtxos` | core/chain/utxoset.go:653-684 | loads the inputs and every output still in the database |
| `UtxoSets.UtxoSet.WriteUtxoSetToDB` | core/chain/utxoset.go:498-567 | spent entries leave the database, other modified ones enter it, the rest stays; fails exactly on an unwritable script |
| `UtxoSets.ApplyToAt` | core/chain/utxoset.go:282-343 | while a block is applied an output is marked spent exactly from its spender on |
| `UtxoSets.RevertToAt` | core/chain/utxoset.go:347-409 | while a block is reverted an output is marked spent from its creator on and restored before that |
| `UtxoSets.LoadedValid` | core/chain/utxoset.go:585-650 | before a valid block exactly its inputs are loaded, unspent and with the right amounts |
| `UtxoSets.LoadedAfter` | core/chain/utxoset.go:653-684 | before a revert exactly the outputs of the block are loaded |
| `UtxoSets.ApplyRefinesLedger` | core/chain/utxoset.go:282-343 | for every valid block: load, apply and write leaves the database of the sequential ledger, chains of spends inside the block included |
| `UtxoSets.RevertRestores` | core/chain/utxoset.go:347-409 | for every valid block: load, revert and write after it gives back the database from before the block |
| `UtxoSets.DisconnectUtxos` | core/chain/blockchain.go:1225-1261 | the whole disconnect succeeds and returns exactly the former database |
| `Supply.TotalSpend` | core/chain/utxoset.go:303-308 | spending distinct inputs takes exactly their worth out of the database |
| `Supply.TotalAdd` | core/chain/utxoset.go:284-295 | adding outputs puts in their worth less what goes into data outputs |
| `Supply.TotalRun` | core/chain/utxoset.go:334-343 | over a valid block the total changes by outputs minus inputs minus data, chained spends included |
| `Supply.ValidateOutputs` | core/chain/validate.go:427-446 | the wrapping sum with its overflow checks accepts exactly the totals up to the supply |
| `Supply.ValidateTxInputs` | core/chain/validate.go:296-388 | the fee is exactly inputs minus outputs; refused exactly if an input is missing or spent, the inputs exceed the supply, or the outputs exceed the inputs |
| `Supply.ValidateBlockInputs` | core/chain/blockchain.go:746-800 | accepts exactly if every transaction pays its fixed fee and the fees fit 64 bits, and returns their sum |
| `Supply.AddChecked` | core/chain/blockchain.go:773-778 | the 64-bit sum is refused exactly where it wraps |
| `Supply.CheckCoinbase` | core/chain/blockchain.go:1101-1119 | the coinbase pays reward plus fees modulo 64 bits |
| `Supply.FoundIsFunded` | core/chain/validate.go:305-312 | finding every input in the loaded set means every input is in the database or made earlier in the block |
| `Supply.ChecksMean` | core/chain/blockchain.go:746-800 | the checks on the loaded set hold exactly if the block is funded and balanced against the ledger |
| `Supply.Conservation` | core/chain/blockchain.go:1101-1119 | the total of unspent outputs grows by the reward less data outputs if and only if reward plus fees fit 64 bits |
| `Supply.ConservationWithinLimits` | core/chain/validate.go:69-76 | the block size limit keeps the fees small enough, so within it value is always conserved |
| `Supply.FeesBySize` | core/types/transaction.go:513-533 | the fees of a block are bounded by its rough size |
| `Supply.ExecuteBlock` | core/chain/blockchain.go:890-930 | load, check, apply and write accept a block of the right shape exactly if the ledger's conditions hold, and the database becomes the ledger after it |
| `Paths.PathFacts` | core/chain/blockchain.go:1019-1067 | along every main chain the unspent outputs stay readable from the transaction index, and what was spent stays gone |
| `Paths.ChainSupply` | core/chain/blockchain.go:1101-1119 | on every main chain the unspent outputs are worth the start plus all rewards less the value in data outputs |
| `Paths.Finality` | consensus/bpos/bft_service.go:148-168 | over every run of accept and eternal-update steps a block once eternal stays on the main chain and a later eternal block is higher |
| `Paths.SplitUpdate` | consensus/bpos/bft_service.go:148-168 | while other blocks are accepted between the check and the set, the checked block may still be made eternal exactly until one of them switches to a branch that forks below it |
| `Paths.AcceptKeeps` | core/chain/blockchain.go:558-607 | accepting a block takes another off the main chain if and only if it switches to a branch that forks below that one |
| `Paths.SwitchKeeps` | core/chain/blockchain.go:813-854 | a switch keeps the chain up to the fork, and a block of the old chain exactly if it is not above the fork |
| `Paths.Ready` | core/chain/blockchain.go:691-744 | a known block on top of the main chain has the right height and, if consensus passes it and it is funded, repeats no transaction of the chain |
| `Paths.PathAgrees` | consensus/bpos/bpos.go:926-945 | hashes that do not collide among blocks do not collide with the transactions of a main chain, and what consensus passes on top of it has a coinbase that is not in it |
| `Chain.BlockChain.GetParentBlock` | core/chain/blockchain.go:671-687 | finds the stored parent, one lower, exactly if it is held; the parent of genesis is genesis |
| `Chain.BlockChain.Connect` | core/chain/blockchain.go:691-744 | appends the block exactly if it is admissible, with tail, height index, outputs and transaction index following; otherwise changes nothing |
| `Chain.BlockChain.WriteTxIndex` | core/chain/blockchain.go:1792-1816 | adds every transaction of the block to the index |
| `Chain.BlockChain.DelTxIndex` | core/chain/blockchain.go:1839-1860 | removes every transaction of the block from the index |
| `Chain.BlockChain.Disconnect` | core/chain/blockchain.go:1210-1296 | takes the tail off and leaves exactly the state of the chain below it |
| `Chain.BlockChain.Undo` | core/chain/blockchain.go:1225-1257 | the former outputs and index are computed from the present ones |
| `Chain.BlockChain.RaiseSide` | core/chain/blockchain.go:822-829 | goes down a longer branch to the height of the main chain; fails only if an ancestor of the block is not held |
| `Chain.BlockChain.FindFork` | core/chain/blockchain.go:813-854 | returns the highest common block with exactly the two parts above it, topmost first, the branch being longer; fails if and only if an ancestor of the block above the main chain is not held |
| `Chain.BlockChain.DetachAll` | core/chain/blockchain.go:1163-1172 | takes the main chain down to the fork point |
| `Chain.BlockChain.AttachAll` | core/chain/blockchain.go:1174-1180 | connects the branch lowest first and stops exactly at the first block that is refused; only the new block is stored in addition |
| `Chain.BlockChain.RollBack` | core/chain/blockchain.go:1181-1200 | puts the old main chain back with the stored blocks as they were; no step of it can fail |
| `Chain.BlockChain.SwitchTo` | core/chain/blockchain.go:1163-1208 | ends on the branch exactly if the whole branch is admissible, else on the old chain |
| `Chain.BlockChain.Reorganize` | core/chain/blockchain.go:1146-1208 | panics exactly if an ancestor is not held, drops the branch exactly if it forks below the eternal block, and else adopts it exactly if all of it is admissible; the main chain and the stored blocks after each case |
| `Chain.BlockChain.RemoveAll` | core/chain/blockchain.go:1149-1154 | removes exactly the branch's blocks from the store and none of the main chain |
| `Chain.BlockChain.PlaceBlock` | core/chain/blockchain.go:577-607 | connected, refused, stored aside, expired, panicked, dropped, switched or rolled back: each exactly under its condition, with the main chain and the stored blocks after it |
| `Chain.BlockChain.TryAcceptBlock` | core/chain/blockchain.go:558-607 | the outcome is exactly the verdict by parent, height, ancestry, fork and admissibility; main chain and stored blocks change as it says, and no block at or below the eternal one is replaced |
| `Chain.BlockChain.ProcessBlock` | core/chain/blockchain.go:451-516 | a block already held, malformed or without a held parent changes nothing; every other gets the verdict above, its structure following from the checks |
| `Chain.BlockChain.UpdateEternal` | consensus/bpos/bft_service.go:148-168 | the eternal block moves exactly to a higher block of the main chain |
| `Chain.BlockChain.CheckEternal` | consensus/bpos/bft_service.go:150-160 | passes exactly blocks of the main chain above the eternal one; panics exactly above the tail |
| `Chain.BlockChain.SetEternal` | core/chain/blockchain.go:1333-1348 | sets any higher block; the chain stays in order exactly if it is on the main chain at that time |
| `ChainRuns.StrandedRun` | core/chain/blockchain.go:1149-1160 | from genesis: two branches share a block, the longer is dropped with it, and a block on the other makes the search for the fork panic |
| `ChainRuns.SplitRun` | consensus/bpos/bft_service.go:148-168 | from genesis: a block is checked, a switch forks below it, and it is made eternal off the main chain |
| `Chain.BlockChain.constructor` | core/chain/blockchain.go:127-195 | a chain of genesis alone satisfies the invariant |
| `Graphs.LayersTopological` | util/dag.go:68-103 | the output layer by layer has no repetition and every edge's source before its target |
| `Graphs.LayersComplete` | util/dag.go:68-103 | the layers hold every node if and only if the graph has no cycle |
| `TxDag.Dag.AddNode` | util/dag.go:57-66 | adds a node without edges; refuses exactly an existing key |
| `TxDag.Dag.AddEdge` | util/dag.go:116-137 | adds an edge; refuses exactly an unknown key or an existing edge |
| `TxDag.Dag.IsCircular` | util/dag.go:140-161 | terminates and answers true if and only if the graph has a cycle |
| `TxDag.Dag.HasCircularDep` | util/dag.go:163-177 | the coloured search finds a cycle through the current path, or colours everything reachable as done |
| `TxDag.Dag.TopoSort` | util/dag.go:68-78 | outputs layers ordered by weight, topologically sorted, all nodes exactly once if and only if there is no cycle |
| `TxDag.Dag.SortNodes` | util/dag.go:80-103 | one layer after another is released and output |
| `TxDag.Dag.GetRootNodes` | util/dag.go:105-113 | exactly the nodes without incoming edges, each once |
| `TxDag.Drain` | util/dag.go:94-97 | popping the queue gives a permutation in ascending weight |
| `Merkle.LeafCountLaw` | util/merkle.go:51-58 | the leaf count is the least power of two that holds the list |
| `Merkle.LevelRoot` | util/merkle.go:24-48 | the last cell of a correctly joined flat tree is the recursive root of its lowest level |
| `Merkle.BuildMerkleRoot` | util/merkle.go:24-48 | for every non-empty list the last cell is the level-by-level root with odd last nodes paired with themselves |
| `Multisig.ScanLaw` | script/script.go:436-451 | the greedy scan succeeds if and only if some order-preserving injection assigns every signature a key that verifies it |
| `Multisig.Stack.Pop` | script/stack.go:55-64 | takes the top operand, nothing from an empty stack |
| `Multisig.Stack.CheckMultisig` | script/script.go:388-461 | succeeds exactly if the counts fit the stack, or the key count is 2^63 - 2 or 2^63 - 1; in the first case keys, signatures and both counts are replaced by whether the signatures can be assigned, in the second TRUE is pushed on the stack as it was |
| `Multisig.Stack.ReadCounts` | script/script.go:394-429 | the counts and the 64-bit indices made of them, with the two key counts for which the index wraps below zero |
| `Multisig.CountAloneOverflows` | script/script.go:408 | a stack of the one key count 2^63 - 1 fits no counts and is among those for which the index wraps |
| `Multisig.Stack.ScanStack` | script/script.go:436-451 | the loop over stack positions is the scan |
| `Certificates.Verify` | consensus/bpos/bpos.go:804-848 | accepts if and only if at least two thirds, rounded down, of distinct members signed and nobody else did |
| `Certificates.SignerCount` | consensus/bpos/bpos.go:804-848 | accepted signatures come from as many distinct members as there are signatures |
| `Certificates.CertificateOverlap` | consensus/bpos/bpos.go:804-848 | any two accepted certificates of one dynasty, for whatever blocks, share at least twice the threshold minus its size in signers |
| `Certificates.HonestSigner` | consensus/bpos/bpos.go:804-848 | two accepted certificates of a dynasty of a multiple of three share a signer outside any tolerable set of faulty members |
| `Certificates.LeastOverlap` | consensus/bpos/bpos.go:808-812 | that bound is attained, so no larger overlap is promised |
| `Certificates.HonestOverlapLaw` | consensus/bpos/bpos.go:808-812 | any two accepted certificates always share an honest signer under a third of faults if and only if the dynasty size is a positive multiple of three |
| `LiveCache.LiveUtxoCache.constructor` | wallet/utxo_cache.go:28-35 | an empty cache that starts now |
| `LiveCache.LiveUtxoCache.SetLiveDuration` | wallet/utxo_cache.go:38-43 | sets the duration, ten for none |
| `LiveCache.LiveUtxoCache.Add` | wallet/utxo_cache.go:46-67 | the output's latest addition becomes now; the two maps stay inverse to each other |
| `LiveCache.LiveUtxoCache.Shrink` | wallet/utxo_cache.go:82-103 | the maps stay inverse and no bucket is older than the horizon; unless the duration has been lengthened since the last drop, right after it an output is contained exactly if its latest addition is within the duration |
| `LiveCache.LiveUtxoCache.Contains` | wallet/utxo_cache.go:106-114 | true exactly if the latest addition is not before the horizon |
| `LiveCache.TakeOut` | wallet/utxo_cache.go:52-60 | removing an output from its bucket and its stamp keeps the maps inverse |
| `LiveCache.PutIn` | wallet/utxo_cache.go:63-65 | appending to the present bucket and stamping keeps the maps inverse |
| `EvmCode.NextStart` | vm/analysis.go:31-47 | from an instruction start the next one follows after its data, and none in between |
| `EvmCode.Set` | vm/analysis.go:12-14 | sets one bit and no other |
| `EvmCode.Set8` | vm/analysis.go:15-18 | sets eight bits across two bytes and no other |
| `EvmCode.MarkData` | vm/analysis.go:35-43 | marks exactly the data of one push |
| `EvmCode.CodeBitmap` | vm/analysis.go:26-50 | never leaves the vector, and the clear bits are exactly the instruction starts |
| `EvmCode.JumpCache.ValidJumpdest` | vm/contract.go:73-104 | true exactly for a JUMPDEST that is an instruction; the analyses shared between nested contracts stay right |
| `EvmMemory.ToWordSize` | vm/common.go:54-60 | the least word count that covers the size, also next to 2^64 |
| `EvmMemory.WrappedFeeExact` | vm/gas_table.go:36-41 | the 64-bit fee is the intended one if and only if there are fewer than 2^32 words |
| `EvmMemory.SquareLost` | vm/gas_table.go:25-41 | at 2^32 words only the linear part is charged |
| `EvmMemory.Difference` | vm/gas_table.go:42-43 | the difference to the last fee is exact while the squares fit, and beyond that costs at least 3 * 2^32 in all |
| `EvmMemory.Memory.GasCost` | vm/gas_table.go:16-50 | quotes the fee for whole words; refuses exactly sizes above the limit |
| `EvmMemory.Memory.Resize` | vm/memory.go:54-58 | grows by zero bytes; length and fee stay those of the word count |
| `EvmMemory.Memory.Set` | vm/memory.go:26-37 | writes inside the store only, and only the given range |
| `EvmMemory.Memory.Set32` | vm/memory.go:41-51 | writes the 32 bytes of the number, nothing else |
| `EvmMemory.Memory.Get` | vm/memory.go:61-87 | reads inside the store only |
| `EvmMemory.MemoryPaid` | vm/gas_table.go:16-50 | a memory that took less than 3 * 2^32 gas has fewer than 2^32 words, and its fees add up to the fee of the final size |
| `EvmOps.TableShaped` | vm/jump_table.go:45-927 | every entry of the table takes and leaves the stack items its instruction uses |
| `EvmOps.OwnGasFloor` | vm/gas_table.go:52-466 | every instruction that does not end the frame costs at least one unit, all but a jump destination at least two, a call at least 700, with value 9700, a creation 32000 |
| `EvmOps.OnlyJumpdest` | vm/jump_table.go:45-927 | a jump destination is the only instruction with a cost of one |
| `EvmOps.CallGasLaw` | vm/gas.go:30-46 | the callee gets what was asked for or all but a 64th; if the base cost exceeds the gas left, the wrapped subtraction still ends out of gas |
| `Evm.Frame.UseGas` | vm/contract.go:141-147 | takes gas exactly if there is enough |
| `Evm.Machine.Charge` | vm/interpreter.go:193-218 | memory, own cost and handed-over gas add up to what is taken; the memory covers every access; a caller keeps a 64th of what the base cost left |
| `Evm.Machine.ExecStack` | vm/instructions.go:904-942 | stack-only instructions and the step of the program counter, push data included |
| `Evm.Machine.ExecMemory` | vm/instructions.go:432-616 | copies, loads and stores stay inside the resized memory and the memory stays whole words |
| `Evm.ComputedIsEval` | vm/instructions.go:29-372 | the arithmetic of the interpreter is that of the pure machine which the pooled integers refine |
| `Evm.Machine.ExecReturn` | vm/instructions.go:848-862 | the returned data is the memory range, inside the store |
| `Evm.Machine.LoadMemory` | vm/instructions.go:374-600 | the word read is that of the memory range, inside the store |
| `Evm.Machine.StoreMemory` | vm/instructions.go:432-616 | the memory is overwritten exactly in the instruction's range; copying beyond the returned data fails |
| `Evm.Machine.ExecJump` | vm/instructions.go:634-660 | a taken jump goes to a checked instruction, or fails exactly where there is none |
| `Evm.Machine.ExecWrite` | vm/instructions.go:625-632 | storage, logs and self-destruction change exactly their part of the state |
| `Evm.Machine.ExecCall` | vm/instructions.go:740-846 | over the call and everything nested in it, instructions executed plus gas left stay below the gas before it; read-only state is untouched |
| `Evm.Machine.FinishCall` | vm/instructions.go:756-766 | the result goes into memory inside its bounds and the returned gas is added |
| `Evm.Machine.RunContract` | vm/evm.go:63-84 | a failed run leaves exactly the snapshot, and no gas unless it reverted |
| `Evm.Machine.Call` | vm/evm.go:181-244 | returns at most the gas supplied, executes at most that plus one instructions at all depths, undoes everything on failure, and changes nothing when read-only; a plain payment moves exactly its value |
| `Evm.Machine.CallCode` | vm/evm.go:253-283 | the same bounds in the caller's own context |
| `Evm.Machine.DelegateCall` | vm/evm.go:292-316 | the same bounds for a delegated call |
| `Evm.Machine.StaticCall` | vm/evm.go:324-360 | balances, nonces, codes, storage and logs are unchanged at every depth, and the read-only flag is as before |
| `Evm.Machine.Create` | vm/evm.go:375-455 | returns at most the gas supplied; a failed creation leaves at most the caller's nonce changed |
| `Evm.Machine.ExecCreate` | vm/instructions.go:681-738 | the creator keeps a 64th of its gas; the bound on executed instructions holds over the creation |
| `Evm.Machine.Run` | vm/interpreter.go:112-248 | terminates; gas never grows; instructions at all depths plus gas left are at most the gas plus one, and a fresh frame executes more instructions than it has gas exactly if its code starts with that many jump destinations and then stops; depth and read-only flag are restored; memory fees are covered by the gas used |
| `Evm.CourseStep` | vm/interpreter.go:175-248 | one instruction keeps a fresh run on jump destinations or behind its gas for good, and the last one decides whether the gas was exceeded |
| `Evm.LandingFor` | vm/jump_table.go:47-53 | for every amount of gas there is a program that executes one instruction more |
| `Evm.Machine.Loop` | vm/interpreter.go:175-248 | the loop ends because every step that goes on costs gas, and the program counter always stands at an instruction or past the end |
| `Evm.Machine.Step` | vm/interpreter.go:181-246 | one instruction: refused when it would write in a read-only frame; a stop past the end of the code is executed without gas |
| `Evm.Machine.Execute` | vm/interpreter.go:225-246 | dispatch of a charged instruction keeps all of the above |
| `Words.SignedRoundTrip` | vm/common/math/big.go:145-161 | reading a word as signed and writing it back changes nothing |
| `Words.QuotRem` | vm/instructions.go:65-112 | signed quotient and remainder belong together and the remainder has the dividend's sign |
| `Words.ShlLarge` | vm/instructions.go:317-332 | a left shift by 256 or more is the plain product modulo 2^256, which is zero |
| `Words.ShrLarge` | vm/instructions.go:335-372 | right shifts by 256 or more leave zero, or all ones for a negative word |
| `Words.SignExtension` | vm/instructions.go:135-153 | setting or clearing the bits from the sign bit on gives the signed value of the low bytes |
| `Words.ExpStep` | vm/common/math/big.go:168-181 | one step of square-and-multiply keeps result times base to the remaining exponent, modulo 2^256 |
| `IntPool.MathExp` | vm/common/math/big.go:168-181 | the word-and-bit loop computes the power modulo 2^256; the base is used up |
| `IntPool.ExpWord` | vm/common/math/big.go:172-179 | 64 bits of the exponent are consumed |
| `IntPool.Interpreter.Get` | vm/intpool.go:28-34 | the integer is held by nobody else |
| `IntPool.Interpreter.Put` | vm/intpool.go:46-58 | an integer goes to the pool once, unless the pool is full |
| `IntPool.Interpreter.Below` | vm/instructions.go:29-61 | pop one, compute into the one below: the pure result, all objects still distinct |
| `IntPool.Interpreter.Top` | vm/instructions.go:45-93 | pop two, compute into the first: the pure result |
| `IntPool.Interpreter.InPlace` | vm/instructions.go:155-250 | negation and zero test where the integer stands |
| `IntPool.Interpreter.Modular` | vm/instructions.go:288-312 | addition and multiplication modulo a third operand, without losing high bits |
| `IntPool.Interpreter.Signed` | vm/instructions.go:65-112 | signed division and remainder through aliased or new integers |
| `IntPool.Interpreter.ExpOp` | vm/instructions.go:114-133 | the short cuts and the general power agree with the pure result |
| `IntPool.Interpreter.SignExtendOp` | vm/instructions.go:135-153 | sign extension with the position's integer as mask |
| `IntPool.Interpreter.SarOp` | vm/instructions.go:353-372 | the arithmetic shift rounds down for every shift amount |
| `IntPool.Interpreter.Execute` | vm/instructions.go:29-372 | every arithmetic instruction computes what the pure machine computes, leaves all callers' stacks unchanged, and keeps all integers on stacks and in the pool pairwise distinct |
| `IntPool.Interpreter.PushValue` | vm/instructions.go:904-924 | pushes a number in an integer of the pool |
| `IntPool.Interpreter.Dup` | vm/stack.go:52-54 | the copy is a distinct integer with the same number |
| `IntPool.Interpreter.Swap` | vm/stack.go:48-50 | exchanges two numbers, nothing else |
| `IntPool.Interpreter.Drop` | vm/instructions.go:588-591 | drops the top number |
| `IntPool.Interpreter.Enter` | vm/interpreter.go:142-158 | a nested run starts on an empty stack and shares the pool |
| `IntPool.Interpreter.EnterCall` | vm/instructions.go:740-752 | a call gives its gas argument to the pool before the nested run; the other arguments stay |
| `IntPool.Interpreter.Leave` | vm/interpreter.go:157-158 | a finished run gives its integers to the pool; its caller's stack is as it was |
| `IntPool.Interpreter.CallResult` | vm/instructions.go:752-765 | a call's arguments are replaced by its result |

## Left out

- AbiLimits.RoundTripExactly: arrays and tuples have at least one part and fixed byte strings at least one byte, so that every type has two values.
- ABI values: pointers, struct field names and Go kinds are not modelled, nor integer overflow of offsets; packing a
  `big.Int` writes through to the caller's integer, which the value model does not show.
- Contract transactions in blocks: contract outputs, internal transactions, the merging and roll-back of contract
  balances and split addresses. Blocks are a coinbase followed by ordinary transactions.
- Token amounts: the token part of the input check can only refuse more.
- Scripts: an output script is what the parser makes of it (address, data, unreadable, empty); signatures, consensus
  checks, receipts and state roots are one predicate on a block and its ancestors.
- The address index beside the unspent outputs and the block receipts, which follow the same writes.
- Chain.BlockChain.Connect: blocks made locally, whose execution result is cached, are not modelled.
- Chain.BlockChain.TryAcceptBlock: children waiting in the orphan pool are not fetched; each is one more call of the same method. That hashes of
  blocks and of transactions do not collide is a precondition; that consensus passes no coinbase at two heights is part of the environment.
- Chain.BlockChain.ProcessBlock: repeated minting, the orphan pool and broadcasting are not modelled.
- Chain.BlockChain.constructor: starts from genesis; a stored tail and eternal block are not loaded.
- Validation.ValidateBlock: finality by lock time, standard scripts, coinbase script lengths and the Merkle root are not part of it; rough sizes are a parameter.
- UtxoSets.UtxoSet.AddUtxo: contract outputs are not among the script kinds.
- UtxoSets.UtxoSet.ApplyOutputs: contract outputs and contract addresses are left out.
- Supply.ValidateTxInputs: token amounts are left out.
- Supply.ValidateBlockInputs: the branch for contract transactions is left out.
- Supply.CheckCoinbase: gas used by contracts is left out.
- The transaction index is read through height and position in the source; the model keeps the transaction itself.
- Evm.Machine.ExecStack: what instructions read from the block, the accounts and the call data is a parameter; arithmetic is computed. That stack items stay
  below 2^256 is shown for the pooled integers in IntPool, not again here.
- Evm.Machine.Call: the refund counter, tracing, cancellation, the recursion switch and the list of transfers kept beside the state are not
  modelled; an account may come into existence in a read-only call, which is not among the properties stated.
- Precompiled contracts are a gas function and a result function.
- IntPool.Interpreter.Enter: a call's arguments other than the gas stay on the caller's part of the stacks until it returns, where the source
  holds them in local variables. The pool of pools is not modelled.
- Integers allocated by S256 and never returned to the pool are not counted.
- TxDag.Dag.TopoSort: among nodes of equal weight the first one is taken; the heap's own order between them is not modelled.
- Merkle.BuildMerkleRoot: the logarithm is taken exactly; the empty list, which panics, is excluded.
- Multisig.Stack.CheckMultisig: the stack has fewer than 2^62 operands, as any slice in memory has. The VERIFY form behaves like the plain one in
  the source and is not a separate operation.
- LiveCache.LiveUtxoCache.Add: `Del` removes an output from one of the two maps only and is kept out of the runs; after it a re-added
  output can be dropped with its old bucket.
- Networking, synchronisation, RPC, storage engines, the world-state trie, the transaction pool and cryptography.
