# Verified model of the TON integration's core

A Dafny model of four parts of the Chainlink TON integration, with proofs of what they promise:

- **Log ingestion** (`pkg/logpoller`): the poll loop with its masterchain cursor, the backward page walk
  over every watched account, the filter index, and queries over the stored logs.
- **Trace tracking and the transaction manager** (`pkg/ton/tracetracking`, `pkg/txm`): rebuilding the
  message tree of a transaction, summarising its outcome, and the two concurrent loops that move
  transactions through the store.
- **Cell packing** (`pkg/ccip/bindings/common`, `pkg/ccip/codec`, `contracts/src/utils`): the three
  linked-cell encodings in Go, the one in TypeScript, and the commit report codec on top of them.
- **The MCMS Merkle tree** (`contracts/src/mcms/merkle-proof.ts`) and the loop that verifies its proofs
  on chain (`contracts/contracts/lib/crypto/merkle_proof.tolk`).

`dafny verify dfyconfig.toml` checks everything.

## How the model is built

Loops and objects of the source are methods and classes here, each proved equal to a specification function;
the laws are lemmas about those functions, so they hold of the methods. Unbounded runs are data
(`PollRuns.Run`, `Txm.Run`): a main result about "every run" is a lemma over all values of that type.

| file | models |
|---|---|
| `Prelude`, `Bits`, `Sorting` | shared vocabulary: failures, powers of two and logarithms, bits of numbers, sorting |
| `Merkle`, `MerkleSnake` | leaves, layers, roots, proofs; proofs packed into cells |
| `Cells` | cells with 1023 bits and 4 references (section 3.1.1 of the TON Virtual Machine specification), filling and linking |
| `Chains`, `SnakeData`, `SnakeRef`, `SnakeBytes`, `SnakeTs` | the four linked-cell encodings, and what reading them depends on |
| `Fields`, `CommitCodec` | bit fields, struct layouts, the commit report |
| `Filters`, `TonChain`, `Loader`, `LogPoller`, `PollRuns`, `StoredLogs`, `PollWitnesses`, `Query` | log ingestion and queries |
| `Traces`, `ReceivedMessages` | traces on the chain, and the message objects that rebuild them |
| `TxStores`, `Txm`, `TxManager` | the transaction store, the protocol of the two loops, and the object that carries it out |

Parameters stand for what the code does not control. The node hash is an arbitrary function. No hash of two 256-bit
words to one is injective, so soundness names what collides: a forged proof gives a step of its own fold and a pair of
the tree that the hash does not tell apart. Element codecs are arbitrary pairs of a writer and a reader. The network is
arbitrary: any request may be refused, pages may be shorter than asked for or come with an error, the head may move
anywhere, per-address fetches finish in any order, filters come and go between polls.

## What the proofs show about the code

Where a promise holds only under a condition, the condition is proved to be exact.

- *Exactly once.* For every run, whatever fails, stored + lost = due + stored again, log by log
  (`PollRuns.Conservation`). The store is at every moment the ideal one if and only if every poll is clean: no event in
  the gap between where a window starts and where its fetch starts matches a filter, and no event that matches a filter
  comes before one that stops the batch (`PollRuns.ExactlyOnceIff`). Where a fetch starts is known exactly
  (`PollRuns.FetchIsExactIff`): a failed fetch is only logged and the cursor moves past its window (`loader.go:75-78`);
  an empty page ends the walk whatever the reason (`loader.go:127`); and a refused account state at the previous block
  makes the fetch reread the account from its beginning (`loader.go:198-200`), unless a refused page happens to stop it
  just where the window starts. A topic that cannot be decoded stops the batch with part of it stored and the cursor in
  place, so that part is stored again (`log_poller.go:219-222`). `PollWitnesses.IdealIsMissed` gives a run for each.
  Without such failures the store is exactly the ideal one (`PollRuns.ExactlyOnce`): every log once for each message that
  it records, field by field, and each filter that matches (`StoredLogs.ExactlyOnceByFields`).
- *Confirmations.* The head minus the confirmations is computed in 32 bits and wraps around for a head below the
  number of confirmations; the model keeps the wrap-around. The wrapped block lies after the head, cannot be
  looked up, and ends the poll. So every window ends exactly the confirmations behind the head
  (`StoredLogs.WindowEndsBehindHead`), and every stored log is at least as far behind a head that was seen
  (`StoredLogs.StoredLogsAreConfirmed`).
- *Filter index.* The topic index holds one entry per address and topic, so two filters on one pair share it.
  Registering and unregistering keep the index in agreement with the filters exactly under
  `Filters.RegisterKeepsAgreementIff` and `Filters.UnregisterKeepsAgreementIff`; after unregistering one of two
  such filters the other matches nothing (`Filters.SharedPairIsBlinded`).
- *Merkle trees.* An odd last node is dropped silently: the root depends only on the longest power-of-two prefix
  (`Merkle.RootIsPerfectRootOfPrefix`), and proofs exist exactly for a power of two of at least two leaves. The
  on-chain verifier does not look at the length of a proof, so inner nodes are accepted with shorter proofs
  (`Merkle.AcceptanceIsLayerMembership`), and longer proofs are accepted if their first words lead to a leaf
  (`Merkle.LongProofReachesLeaf`).
- *Snake data.* Elements without bits are written and never read back. An element's own reference is taken for the link
  in Go: unpacking returns the elements up to and including the first cell that holds one, and then whatever unpacking
  that reference gives (`SnakeData.UnpacksUpToBreak`). So the round trip is exact if and only if no element has a
  reference, or that one unpacks to just the elements of the later cells (`SnakeData.RoundTripWithRefsIff`); with a
  reference to an empty cell a single element does come back, with a reference to a cell of one bit it does not
  (`SnakeData.RefOfElementIsTakenForLink`). In TypeScript readers take references with their items, but an item that is
  all references and no bits leaves them in front of the link, with the same effect (`SnakeTs.ReadsUpToBreak`). Packing
  never throws exactly for items with at most one reference each, or none or three each (`SnakeTs.PacksEveryListIff`).
- *Commit reports.* The bits of every element are given by `CommitCodec.TokenUpdateLayout`, `GasUpdateLayout` and
  `MerkleRootLayout`, the cells of the report by `CommitCodec.ReportLayout`. Encoding accepts exactly the reports of `CommitCodec.EncodesExactly`; the round trip is the
  identity if and only if the token addresses are canonical.
- *Exit codes.* A failing node may carry exit code 0, for example after a skipped compute phase, so a failed trace
  may be reported with the exit code of success (`Traces.OutcomeAgrees`, `Traces.SkippedComputeFailsWithZero`).
- *Fees.* `TotalActionPhaseFees` adds into the integer that holds the base fees, so every call after the first
  reports the forward fees once more (`ReceivedMessages.ReceivedMessage.TotalTransactionExecutionFee`). A copied
  message shares that integer.
- *Queries.* Offset plus length wraps around at 64 bits, and so does offset plus limit: the slice expressions panic
  exactly under `Query.PanicsIffWrapped` and outside `Query.PaginationSucceedsIff`.
- *Names.* The expiration that `txstore.go` calls milliseconds is computed in seconds (`txm.go:229-231`); it only
  orders the snapshot. The finalized record keeps the unresolved message, since confirmation works on a copy
  (`txm.go:290`).

## Model

| member | source | states |
|---|---|---|
| `Merkle.HashPairIsSorted` | contracts/src/mcms/merkle-proof.ts:80-82 | the smaller word is hashed first, whatever the order of the arguments |
| `Merkle.NextLayer` | contracts/src/mcms/merkle-proof.ts:71-77 | node i of the next layer hashes nodes 2i and 2i+1; an odd last node is dropped |
| `Merkle.HashLevel` | contracts/src/mcms/merkle-proof.ts:71-77 | the loop computes the next layer |
| `Merkle.ComputeRoot` | contracts/src/mcms/merkle-proof.ts:143-149 | the loop computes the root of the leaves; none for no leaves |
| `Merkle.RootIsPerfectRootOfPrefix` | contracts/src/mcms/merkle-proof.ts:143-149 | the root of n >= 1 leaves is the textbook root of the perfect tree over the first 2^floor(log2 n) leaves |
| `Merkle.RootIgnoresTail` | contracts/src/mcms/merkle-proof.ts:71-77 | leaves after that prefix never influence the root |
| `Merkle.RootIsTreeRoot` | contracts/src/mcms/merkle-proof.ts:143-149 | a perfect tree followed by fewer leaves than it has gives the root of the tree |
| `Merkle.CollapseIsNextLayer` | contracts/src/mcms/merkle-proof.ts:71-77 | hashing a layer keeps the root of the perfect tree above it |
| `Merkle.ComputeProofForLeaf` | contracts/src/mcms/merkle-proof.ts:45-69 | returns without throwing iff the leaf count is a power of two >= 2, whatever the index; then for every index in range the proof folds the leaf to the root |
| `Merkle.LengthsAgreeOnlyOnPowers` | contracts/src/mcms/merkle-proof.ts:64-66 | the length check passes exactly for powers of two |
| `Merkle.ProofVerifies` | contracts/src/mcms/merkle-proof.ts:53-62 | the siblings of every leaf of a perfect tree are defined, as many as the tree is deep, and fold it to the root |
| `Merkle.ConstructLeaves` | contracts/src/mcms/merkle-proof.ts:90-104 | the metadata leaf at its index and operation i at the leaf index of operation i |
| `Merkle.Build` | contracts/src/mcms/merkle-proof.ts:11-43 | succeeds iff ops.length + 1 is a power of two >= 2; then the root is that of the constructed leaves, and the metadata leaf and every operation have a full-length proof of it |
| `Merkle.ProcessProof` | contracts/contracts/lib/crypto/merkle_proof.tolk:22-28 | the on-chain loop folds the leaf with the proof |
| `Merkle.EnteringIsCollision` | contracts/src/mcms/merkle-proof.ts:80-82 | a step from a word outside its layer to a word inside names a pair of the tree that hashes like the pair of the step without being it |
| `Merkle.AcceptedComesFromLayer` | contracts/contracts/lib/crypto/merkle_proof.tolk:12-28 | an accepted proof of any length up to the depth starts from a node of the layer that far below the root, or enters the tree from outside at some step |
| `Merkle.ForgeryIsCollision` | contracts/contracts/lib/crypto/merkle_proof.tolk:22-36 | a proof that enters the tree from outside names the step and the pair of the tree on which the node hash collides |
| `Merkle.MerkleSoundness` | contracts/contracts/lib/crypto/merkle_proof.tolk:12-28 | an accepted full-length proof of a word that is no leaf names a step of its fold and a pair of the tree that collide |
| `Merkle.LongProofReachesLeaf` | contracts/contracts/lib/crypto/merkle_proof.tolk:12-28 | an accepted proof of length k + m, for a tree of depth k, folds its first m words to a leaf, or names such a collision |
| `Merkle.NodeIsAccepted` | contracts/contracts/lib/crypto/merkle_proof.tolk:12-28 | every node of every layer has an accepted proof whose fold never leaves the tree |
| `Merkle.AcceptanceIsLayerMembership` | contracts/contracts/lib/crypto/merkle_proof.tolk:12-28 | for every hash: a word is a node of the layer j below the root iff some proof of length j is accepted without entering the tree from outside |
| `MerkleSnake.ProofSurvivesPacking` | contracts/src/mcms/merkle-proof.ts:29-38 | every proof packs as 256-bit words without throwing and is read back unchanged |
| `Cells.Place` | pkg/ccip/bindings/common/common.go:157-172 | one turn of a packing loop does what the filling specification says about the next element |
| `Cells.LinkInReverse` | pkg/ccip/bindings/common/common.go:174-182 | linking from the last builder to the first gives the chain in order, and fails exactly when some link does not fit |
| `Cells.FilledCellsFit` | pkg/ccip/bindings/common/common.go:154-183 | every filled builder is within 1023 bits and 4 references |
| `SnakeData.PackArrayWithStaticType` | pkg/ccip/bindings/common/common.go:154-183 | the loop computes the packing specification for every list and element codec, errors included |
| `SnakeData.UnpackArrayWithStaticType` | pkg/ccip/bindings/common/common.go:188-211 | the nested loops terminate and compute the unpacking specification |
| `SnakeData.UnpacksUpToBreak` | pkg/ccip/bindings/common/common.go:154-211 | whenever packing succeeds, unpacking returns the elements with bits up to and including the first cell that holds an element's reference, then whatever that reference unpacks to |
| `Chains.NoStrayIff` | pkg/ccip/bindings/common/common.go:200-205 | there is no such cell iff no element brings a reference |
| `Chains.FirstStrayIsInCell` | pkg/ccip/bindings/common/common.go:163-180 | the break is the first filled cell with a reference, filled with the last of the elements before the break |
| `SnakeData.RoundTrip` | pkg/ccip/bindings/common/common.go:154-211 | without references packing succeeds with legal cells, unpacking gives back exactly the elements with bits, in order, and the round trip is exact iff all have |
| `SnakeData.RoundTripIsExact` | pkg/ccip/bindings/common/common.go:154-211 | whenever packing succeeds: unpack(pack(xs)) = xs iff the visible elements before the break begin the list and what stands in front of the link unpacks to the rest of it |
| `SnakeData.RoundTripWithRefsIff` | pkg/ccip/bindings/common/common.go:154-211 | for elements with bits: exact iff no element has a reference, or the first one in front of a link unpacks to exactly the elements of the later cells |
| `SnakeData.RefOfElementIsTakenForLink` | pkg/ccip/bindings/common/common.go:154-211 | one bit with a reference always packs, and comes back iff the referenced cell unpacks to nothing: an empty cell does, a cell of one bit does not |
| `SnakeData.FullerIsNoBetter` | pkg/ccip/bindings/common/common.go:163-168 | a fuller current cell never saves a cell, and costs at most one |
| `SnakeData.GreedyIsOptimal` | pkg/ccip/bindings/common/common.go:163-168 | no order-preserving split of the elements into cells uses fewer cells |
| `SnakeData.PackedChainIsShortest` | pkg/ccip/bindings/common/common.go:154-183 | the packed chain is no longer than any such split |
| `SnakeData.PackedInOrder` | pkg/ccip/bindings/common/common.go:154-183 | without references the bits of the chain are those of the elements, one after the other |
| `SnakeRef.PackArrayWithRefChaining` | pkg/ccip/bindings/common/common.go:83-114 | the loop computes the packing specification |
| `SnakeRef.UnpackArrayWithRefChaining` | pkg/ccip/bindings/common/common.go:119-149 | the loop terminates and computes the unpacking specification |
| `SnakeRef.LinkedShape` | pkg/ccip/bindings/common/common.go:83-149 | a cell has four references iff it is not the last, and unpacking reads the elements of all cells in order |
| `SnakeRef.RoundTrip` | pkg/ccip/bindings/common/common.go:83-149 | every list of storable elements packs into max(1, ceil(n/3)) legal cells, and unpacking inverts packing |
| `SnakeRef.PackedInOrder` | pkg/ccip/bindings/common/common.go:83-114 | the elements of the chain are the encoded ones, in order |
| `SnakeBytes.PackByteArrayToCell` | pkg/ccip/bindings/common/common.go:214-263 | the two-branch loop terminates for every byte string and builds the chain of 127-byte chunks |
| `SnakeBytes.UnloadCellToByteArray` | pkg/ccip/bindings/common/common.go:266-292 | the loop returns the bytes of the whole chain, none for a nil cell |
| `SnakeBytes.RoundTrip` | pkg/ccip/bindings/common/common.go:214-292 | max(1, ceil(n/127)) legal cells, all but the last of exactly 127 bytes, and unloading inverts packing |
| `SnakeBytes.PackedInOrder` | pkg/ccip/bindings/common/common.go:214-263 | the bits of the chain are those of the bytes, in order |
| `Bits.BytesHoldBits` | pkg/ccip/bindings/common/common.go:273-280 | an incomplete last byte of a cell is padded with zero bits |
| `SnakeTs.AsSnakeData` | contracts/src/utils/types.ts:28-53 | the loop computes the packing specification, throwing included |
| `SnakeTs.FromSnakeData` | contracts/src/utils/types.ts:55-67 | the loop terminates and computes the reading specification |
| `SnakeTs.ReadsUpToBreak` | contracts/src/utils/types.ts:28-67 | whenever packing does not throw, reading returns the items with bits, references included, up to and including the first cell with a reference of an item without bits, then whatever that reference reads as |
| `SnakeTs.RoundTripIsExact` | contracts/src/utils/types.ts:28-67 | reading returns the list iff the items seen before the break begin it and that reference reads as the rest |
| `SnakeTs.FromInvertsAs` | contracts/src/utils/types.ts:28-67 | without items that are all references, reading returns exactly the items with bits, in order |
| `SnakeTs.NeverThrows` | contracts/src/utils/types.ts:34-50 | items with at most one reference each, or none or three each, always leave a slot for the link |
| `SnakeTs.PacksEveryListIff` | contracts/src/utils/types.ts:34-50 | a set of reference counts packs in every combination iff it is one of those two kinds |
| `SnakeTs.TooManyRefsThrow` | contracts/src/utils/types.ts:34-36 | an item with more than three references throws, wherever it stands |
| `SnakeTs.AgreesWithGo` | contracts/src/utils/types.ts:28-53 | on items without references the cells are those of the Go packer, bit for bit |
| `Fields.CrossChainAddressField` | pkg/ccip/bindings/common/common.go:28-78 | an address is written iff it has 1 to 64 bytes, as its length and its bytes, and is read back whatever follows |
| `Fields.ThenLayout` | pkg/ccip/bindings/ocr/commitreport.go:37-56 | consecutive fields are written in the order of the struct |
| `CommitCodec.TokenUpdateField` | pkg/ccip/bindings/ocr/commitreport.go:38-41 | a token price update takes 523 bits and is read back whatever follows |
| `CommitCodec.GasUpdateField` | pkg/ccip/bindings/ocr/commitreport.go:44-47 | a gas price update takes 320 bits and is read back whatever follows |
| `CommitCodec.MerkleRootField` | pkg/ccip/bindings/ocr/commitreport.go:50-56 | a Merkle root takes 456 bits and eight per on-ramp byte, fits one cell, and is read back whatever follows |
| `CommitCodec.MerkleRootRefused` | pkg/ccip/bindings/ocr/commitreport.go:50-56 | an on-ramp address outside 1 to 64 bytes is refused |
| `CommitCodec.TokenUpdateLayout` | pkg/ccip/bindings/ocr/commitreport.go:38-41 | the bits are the tag 100, the workchain in two's complement, the account, and the price |
| `CommitCodec.GasUpdateLayout` | pkg/ccip/bindings/ocr/commitreport.go:44-47 | the bits are the chain selector and the price |
| `CommitCodec.MerkleRootLayout` | pkg/ccip/bindings/ocr/commitreport.go:50-56 | the bits are the chain selector, the length and the bytes of the on-ramp address, the two sequence numbers, and the root |
| `CommitCodec.Encode` | pkg/ccip/codec/commitcodec.go:28-105 | the loops compute the encoding specification, early errors included |
| `CommitCodec.Decode` | pkg/ccip/codec/commitcodec.go:107-207 | the loops compute the decoding specification, early errors included |
| `CommitCodec.CellReportComesBack` | pkg/ccip/bindings/ocr/commitreport.go:19-35 | the struct is written iff its on-ramp addresses are accepted, as a legal cell, and read back |
| `CommitCodec.ReportLayout` | pkg/ccip/codec/commitcodec.go:28-105 | the cell of an encoded report references its lists in the order of the structs, each packed from the elements of the report: parsed addresses with prices, chains with prices, roots, and signatures as R then S |
| `CommitCodec.EncodesExactly` | pkg/ccip/codec/commitcodec.go:28-105 | encoding succeeds iff token addresses parse, prices are present and on-ramp addresses have 1 to 64 bytes, for lists of any length |
| `CommitCodec.DecodesWhatWasEncoded` | pkg/ccip/codec/commitcodec.go:28-207 | every encoded report decodes to itself with canonical token addresses |
| `CommitCodec.RoundTripIsExact` | pkg/ccip/codec/commitcodec.go:28-207 | the round trip is the identity iff all token addresses are canonical |
| `Filters.Registry.RegisterFilter` | pkg/logpoller/filters.go:25-34 | both maps of the registry after registering |
| `Filters.Registry.UnregisterFilter` | pkg/logpoller/filters.go:36-49 | both maps of the registry after unregistering, unknown names included |
| `Filters.Registry.GetDistinctAddresses` | pkg/logpoller/filters.go:51-60 | every indexed address exactly once |
| `Filters.Registry.MatchingFilters` | pkg/logpoller/filters.go:63-81 | every identifier as often as live filters for the pair have it, and none unless the index knows the pair |
| `Filters.MatchesAreLive` | pkg/logpoller/filters.go:63-81 | in every state, a reported identifier belongs to a live filter for that address and topic |
| `Filters.AgreementMeansScan` | pkg/logpoller/filters.go:51-81 | while index and filters agree, both queries equal their naive scans |
| `Filters.RegisterKeepsAgreementIff` | pkg/logpoller/filters.go:25-34 | registering keeps agreement iff the name is free, or keeps its pair, or its old pair is still live under another name |
| `Filters.UnregisterKeepsAgreementIff` | pkg/logpoller/filters.go:36-49 | unregistering keeps agreement iff no other live filter has the same pair |
| `Filters.DisciplineKeepsAgreement` | pkg/logpoller/filters.go:25-49 | over every history with fresh names and unshared pairs the index is exactly the image of the filters |
| `Filters.SharedPairIsBlinded` | pkg/logpoller/filters.go:36-49 | after unregistering one of two filters on a pair, the other is registered and matches nothing |
| `Loader.WalkReachesStart` | pkg/logpoller/loader.go:117-172 | if every page is served the walk reads back to the first new transaction, for every page size >= 1 |
| `Loader.WalkReachesStartIff` | pkg/logpoller/loader.go:117-172 | the walk reads back to the first new transaction iff no page that it asks for after it is refused |
| `Loader.WalkStopsAtIff` | pkg/logpoller/loader.go:117-172 | a walk through the whole history stops at a position iff it asks for a page there and is refused |
| `TonChain.TopicIsLastFourBytes` | pkg/ton/event/event.go:29-41 | the topic is the big-endian number of the last four bytes of the destination; none if it is missing or shorter |
| `TonChain.EventsByIndex` | pkg/logpoller/loader.go:142-159 | every external-out message with a body makes one event, with which fields, in order, and no other message makes one |
| `Loader.TxMessages` | pkg/logpoller/loader.go:142-159 | the loop computes these events |
| `Loader.PageEvents` | pkg/logpoller/loader.go:136-160 | exactly the events of the transactions of the page that are newer than the start |
| `Loader.DigestPage` | pkg/logpoller/loader.go:136-169 | the new events of a page, whether it reaches back before the start, and the cursor just before its oldest transaction |
| `Loader.CollectPages` | pkg/logpoller/loader.go:122-172 | the page loop terminates, fails iff a page that it asks for comes with an error, and otherwise collects every event from the stopping position to the end exactly once |
| `Loader.WalkPages` | pkg/logpoller/loader.go:98-173 | the same with the early return, for every page size and every network |
| `Loader.FetchMessagesForAddress` | pkg/logpoller/loader.go:98-214 | fails iff the previous block is not before the last one, the new account state is refused, or a page comes with an error; otherwise the events of exactly the fetched transactions |
| `Loader.BackfillForAddresses` | pkg/logpoller/loader.go:66-86 | in any completion order, the events of every account once, failed accounts contributing none |
| `Loader.ServedWindowIsComplete` | pkg/logpoller/loader.go:98-214 | a served fetch returns exactly the window |
| `Loader.WindowsCompose` | pkg/logpoller/loader.go:98-214 | splitting a window at any middle block fetches the same events |
| `LogPoller.Service.Process` | pkg/logpoller/log_poller.go:217-243 | one log per matching filter is stored; fails, storing nothing, iff the topic does not decode |
| `StoredLogs.LogsRecordTheirEvent` | pkg/logpoller/log_poller.go:230-240 | the logs of an event are those with its transaction hash, logical time, sender, body and topic, once for every matching filter with their identifier |
| `LogPoller.Service.ProcessMessages` | pkg/logpoller/log_poller.go:204-211 | succeeds iff all topics decode; stores exactly the logs of the events before the first that does not |
| `LogPoller.Service.ProcessBlocksRange` | pkg/logpoller/log_poller.go:190-201 | processes a batch of exactly the fetched events, in some order; succeeds iff all their topics decode |
| `LogPoller.Service.Run` | pkg/logpoller/log_poller.go:112-185 | one poll is a step of the model: nothing, a completed window with the cursor moved, or a partial one with the cursor in place |
| `LogPoller.GainOfBatch` | pkg/logpoller/log_poller.go:190-243 | what a completed poll stores does not depend on the order in which the fetches finished |
| `PollRuns.PollBalances` | pkg/logpoller/log_poller.go:112-243 | one poll: stored + lost = due + stored again |
| `PollRuns.Conservation` | pkg/logpoller/log_poller.go:112-243 | every run, whatever fails and however filters change between polls: stored + lost = due + stored again, log by log |
| `PollRuns.WindowsTile` | pkg/logpoller/log_poller.go:112-185 | every run: the cursor never decreases and the completed windows tile the blocks up to it |
| `PollRuns.DueIsIdeal` | pkg/logpoller/log_poller.go:112-243 | under a fixed registry the windows add up to everything up to the cursor |
| `PollRuns.CleanIff` | pkg/logpoller/log_poller.go:112-243 | a poll loses and repeats nothing iff no gap of its windows, or nothing before the event that stopped it, matches a filter |
| `PollRuns.ExactlyOnceIff` | pkg/logpoller/log_poller.go:112-243 | every run over a fixed registry: the store is at every moment the ideal one iff every poll is clean |
| `PollRuns.FetchIsExactIff` | pkg/logpoller/loader.go:98-214 | exactly when a fetch returns its window and nothing else, for every answer of the network, the refused previous state included |
| `PollRuns.ServedPollIsClean` | pkg/logpoller/log_poller.go:112-243 | a served poll with decodable topics loses and repeats nothing |
| `PollRuns.ExactlyOnce` | pkg/logpoller/log_poller.go:112-243 | every served run: the store is at every moment exactly the matching events up to the cursor, as a multiset |
| `StoredLogs.SourcesCount` | pkg/logpoller/log_poller.go:204-243 | a chain asks for a log once for every message that the log records, field by field, and every matching filter with its identifier |
| `StoredLogs.IdealIsByFields` | pkg/logpoller/log_poller.go:112-243 | the ideal store holds every log as often as that, for the messages of its account up to the cursor |
| `StoredLogs.ExactlyOnceByFields` | pkg/logpoller/log_poller.go:112-243 | every served run: the store holds every log exactly as often as that |
| `StoredLogs.WindowEndsBehindHead` | pkg/logpoller/log_poller.go:126-175 | exactly when a poll processes a window, and that it ends exactly the confirmations behind the head |
| `StoredLogs.CursorTrailsHead` | pkg/logpoller/log_poller.go:133-183 | whenever a poll moves the cursor, it moves to exactly the confirmations behind the head it saw |
| `StoredLogs.StoredLogsAreConfirmed` | pkg/logpoller/log_poller.go:112-243 | every stored log of every run records a message of the chain in a block at least the confirmations behind a head that was seen |
| `PollRuns.FailedFetchLosesWindow` | pkg/logpoller/loader.go:75-78 | a failed fetch loses all due logs of its window |
| `PollWitnesses.FailedFetchMisses` | pkg/logpoller/loader.go:74-78 | a run with a failed fetch after which a due log is never stored |
| `PollWitnesses.RefusedPreviousStateRepeats` | pkg/logpoller/loader.go:198-200 | a run with a refused previous state after which a log is stored twice |
| `PollWitnesses.UndecodableTopicStores` | pkg/logpoller/log_poller.go:204-222 | a run with an undecodable topic after which a log is stored ahead of the cursor |
| `PollWitnesses.IdealIsMissed` | pkg/logpoller/log_poller.go:112-243 | such runs exist, in one world |
| `Query.CompareIsNumeric` | pkg/logpoller/query.go:128-147 | equal-length byte comparison is big-endian numeric comparison |
| `Query.PassesAllQueries` | pkg/logpoller/query.go:92-126 | the early-exit loop computes the specification, errors and panics included |
| `Query.PassesIffAllHold` | pkg/logpoller/query.go:92-147 | without wrap-around a payload passes iff every query holds of it numerically |
| `Query.PanicsIffWrapped` | pkg/logpoller/query.go:98-110 | a query panics iff the end of its range wraps around into the payload |
| `Query.FirstCriterionDecides` | pkg/logpoller/query.go:154-174 | only the first criterion on the logical time has an effect |
| `Query.ComparatorIsOrder` | pkg/logpoller/query.go:154-174 | the comparator is a strict weak order for every list of criteria |
| `Query.ApplySorting` | pkg/logpoller/query.go:149-175 | in place: a permutation in order, unchanged without criteria |
| `Query.PaginationSucceedsIff` | pkg/logpoller/query.go:177-200 | the slice is in bounds iff the offset is past the end, or not negative with a limit that does not overflow |
| `Query.PageHolds` | pkg/logpoller/query.go:177-200 | what a page holds for every limit and offset: nothing past the end, everything from the offset without a positive limit, the total, and whether there is more |
| `Query.PagesConcatenate` | pkg/logpoller/query.go:177-200 | pages at offsets 0, L, 2L, ... until there are no more concatenate to the whole |
| `Query.SelectsExactlyWanted` | pkg/logpoller/store.go:75-96 | a selection contains every wanted log as often as the store, and no other |
| `Query.SelectSucceedsIff` | pkg/logpoller/store.go:75-96 | with supported operators and without wrap-around a selection succeeds iff the body of every log for the address and topic can be read |
| `Query.FilteredLogs` | pkg/logpoller/store.go:61-100 | the page is a slice of a sorted permutation of the selection, of the selection itself without criteria; the first failure is reported |
| `Traces.InfoDescribes` | pkg/ton/tracetracking/message.go:187-274 | the record of a transaction, field by field: amounts and fees of the received message, success and exit code of the compute phase, each phase's fee, bounce, and the remainder of the total fees |
| `Traces.FirstExitIsFirstFailure` | pkg/ton/tracetracking/message.go:439-461 | the exit code is that of the compute phase of the first failing node in preorder, success if none fails |
| `Traces.OutcomeAgrees` | pkg/ton/tracetracking/message.go:439-475 | the exit code says success iff the trace succeeded or its first failure itself carries that code |
| `Traces.SkippedComputeFailsWithZero` | pkg/ton/tracetracking/message.go:439-475 | such a trace exists |
| `ReceivedMessages.ReceivedMessage.Map` | pkg/ton/tracetracking/message.go:187-284 | the message describes its transaction field by field, with everything sent, nothing received, base action fees and forward fees summed |
| `ReceivedMessages.ReceivedMessage.MapOutgoingMessages` | pkg/ton/tracetracking/message.go:290-321 | internal messages in order, external ones as events in order, forward fees summed |
| `ReceivedMessages.ReceivedMessage.OutgoingAmount` | pkg/ton/tracetracking/message.go:164-173 | the amounts the transaction sent, however many of its messages have been received |
| `ReceivedMessages.ReceivedMessage.NetCreditResult` | pkg/ton/tracetracking/message.go:157-159 | amount in minus amounts out, unchanged by receptions |
| `ReceivedMessages.ReceivedMessage.TotalActionPhaseFees` | pkg/ton/tracetracking/message.go:106-115 | adds all forward fees into the integer of the base fees, at every call |
| `ReceivedMessages.ReceivedMessage.TotalTransactionExecutionFee` | pkg/ton/tracetracking/message.go:132-139 | with the storage fee: total fees plus forward fees, plus the drift that earlier calls left |
| `ReceivedMessages.ReceivedMessage.StatusTellsProgress` | pkg/ton/tracetracking/message.go:144-152 | finalized once every caused message has been received, received while none has, cascading in between |
| `Traces.MatchedToOwnChild` | pkg/ton/tracetracking/message.go:390-406 | every message is matched by the transaction that it caused, and by none that a message created at another logical time caused |
| `ReceivedMessages.ReceivedMessage.AwaitReception` | pkg/ton/tracetracking/message.go:337-351 | on a subscription that holds the transaction the message caused, and receives every message once, the loop finds that transaction; fails iff it is unreadable |
| `ReceivedMessages.ReceivedMessage.ReceiveNext` | pkg/ton/tracetracking/message.go:334-353 | the first sent message is taken out and its reception appended, keeping the message in step with the trace |
| `ReceivedMessages.ReceivedMessage.WaitForOutgoingMessagesToBeReceived` | pkg/ton/tracetracking/message.go:333-356 | succeeds iff all children are readable; then nothing is pending |
| `ReceivedMessages.ReceivedMessage.WaitForTrace` | pkg/ton/tracetracking/message.go:416-434 | terminates; succeeds iff every transaction below is readable, and then no rebuilt message has a pending sent message |
| `ReceivedMessages.RebuiltIsTrace` | pkg/ton/tracetracking/message.go:416-434 | the rebuilt objects are the on-chain trace: same shape, every message describes its transaction, nothing pending |
| `ReceivedMessages.ReceivedMessage.OutcomeExitCode` | pkg/ton/tracetracking/message.go:439-461 | the stack-based search returns the exit code of the first failing node in preorder |
| `ReceivedMessages.ReceivedMessage.TraceSucceeded` | pkg/ton/tracetracking/message.go:465-475 | the recursion holds iff the compute phase of every node of the trace ran and succeeded |
| `ReceivedMessages.ConfirmOnCopy` | pkg/txm/txm.go:288-303 | resolving a copy leaves the stored message as it was, and reports the truth about the trace |
| `TxStores.TxStore.Add` | pkg/txm/txstore.go:44-62 | stored unless its logical time is taken; nothing else changes |
| `TxStores.TxStore.Finalize` | pkg/txm/txstore.go:65-87 | moved from the unconfirmed to the finalized, or refused without a change |
| `TxStores.TxStore.GetUnconfirmed` | pkg/txm/txstore.go:90-101 | every unconfirmed transaction once, by ascending expiration |
| `Txm.StoreFinalize` | pkg/txm/txstore.go:65-87 | finalizing neither loses nor duplicates a request |
| `Txm.FinalizeNeverFails` | pkg/txm/txm.go:305-308 | what a pass looks at can always be finalized |
| `Txm.StepKeepsInv` | pkg/txm/txm.go:112-317 | every step of enqueueing, broadcasting or confirming keeps the invariant |
| `Txm.RunsKeepInv` | pkg/txm/txm.go:112-317 | every interleaving: no logical time in both maps, finalized records true, every accepted request in exactly one place, and accepted = queued + being broadcast + dropped + unconfirmed + finalized |
| `Txm.ConfirmNeverMeetsAnError` | pkg/txm/txm.go:305-308 | every interleaving: the error branches of finalizing are unreachable from a pass |
| `Txm.AttemptsAreCounted` | pkg/txm/txm.go:198-223 | every interleaving: the broadcast loop has counted the failed attempts for the request it sends, and none was made for one that waits |
| `Txm.DroppedAfterLastAttempt` | pkg/txm/txm.go:202-223 | unless stopped, a failed attempt drops the request iff it is the last of the configured number |
| `Txm.ExpirationIsInSeconds` | pkg/txm/txm.go:229-231 | the expiration is the whole seconds of the logical time plus the delay |
| `Txm.StatusByRecord` | pkg/txm/txm.go:320-346 | unconfirmed transactions are pending, finalized ones final with their exit code and action fees, all others unknown |
| `Txm.StatusAgreesWithChain` | pkg/txm/txm.go:320-346 | every run of the protocol: a final status is about a completely resolved trace, success iff every node succeeded, with the exit code of the first failure |
| `Txm.StatusOnlyMovesForward` | pkg/txm/txm.go:320-346 | every interleaving: a status moves only from unknown over pending to final, and finalized records never change |
| `TxManager.Manager.Enqueue` | pkg/txm/txm.go:112-143 | performs the enqueueing step: accepted iff the key signs and the channel has room |
| `TxManager.Manager.TakeRequest` | pkg/txm/txm.go:156-166 | performs the step that takes a request, or drops it if its initial state does not load |
| `TxManager.Manager.FailToSend` | pkg/txm/txm.go:202-223 | performs the step of a failed attempt: the next attempt, or the request dropped |
| `TxManager.Manager.Send` | pkg/txm/txm.go:203-226 | performs the step of a successful attempt, with a freshly mapped message |
| `TxManager.Manager.RecordSent` | pkg/txm/txm.go:228-244 | the code performs the recording step, and only adds to the store |
| `TxManager.Manager.BeginConfirmPass` | pkg/txm/txm.go:282-288 | the code performs the step that takes a snapshot of what is unconfirmed, by ascending expiration |
| `TxManager.Manager.ConfirmNext` | pkg/txm/txm.go:288-315 | in every state, whatever the broadcast loop did since the snapshot: resolving the trace on a copy, reading its outcome off the rebuilt objects and finalizing performs the confirming step with the verdict of the chain |
| `TxManager.Manager.Interleave` | pkg/txm/txm.go:112-317 | any schedule of the code's steps is a run of the protocol, and statuses only move forward |
| `TxManager.Manager.CheckUnconfirmed` | pkg/txm/txm.go:282-317 | a pass, with any steps of the callers and the broadcast loop between its turns, finalizes exactly the resolvable transactions of its snapshot, each with the verdict of the chain, and changes no other record |
| `TxManager.Manager.GetTransactionStatus` | pkg/txm/txm.go:320-346 | in every state that the code reaches: pending iff unconfirmed, unknown iff in neither map, and a final status is about a completely resolved trace, success iff every node succeeded, with the exit code of the first failure and the action fees of the wallet transaction |
| `TxManager.Manager.InflightCount` | pkg/txm/txm.go:99-101 | queued and unconfirmed requests; with those being broadcast, dropped or finalized they are all that were accepted |

## Left out

- The on-chain contracts (MCMS, timelock, OffRamp, OnRamp, FeeQuoter), except the loop that verifies Merkle proofs.
- `pkg/ccip/codec/executecodec.go` and `extradatacodec.go`: lossy by design, and resting on an external codec.
- `pkg/relay`, `pkg/client`, `pkg/config`, the provider and the chain accessor: plumbing.
- Serialising cells to bytes, text forms of addresses, reflection over struct tags, cell hashes and signatures: library functions. Address text and the node hash are parameters; report cells are encoded and decoded as cells.
- `bigIntToUint8Array` and `uint8ArrayToBigInt` (`contracts/src/utils/types.ts:9-26`): a 32-byte word is a number here; adding them would add only easy members.
- `GetLogs`, `FilteredLogsWithParser`, and the retention fields of `pkg/logpoller/store.go:37-44`, which nothing reads.
- `AccountStore` (`pkg/txm/txstore.go:135-181`): the manager uses the store of its one wallet, and that store is modelled.
- Locks, tickers, delays, contexts, logging and shutdown: critical sections are atomic steps, time is nondeterministic. A stop during a retry delay is modelled, leaving the loops is not.
- Configurations with `MaxSendRetryAttempts` zero, where the source dereferences a nil message.
- Panics inside a poll other than the modelled ones, which `run` recovers from.
- Nil and empty lists are the same value; a nil and an absent body are the same.
- Prices outside [0, 2^256), and address tags other than the standard one, which decoding refuses here.
- Floating-point rounding in `Math.log2` (`contracts/src/mcms/merkle-proof.ts:121`): the model takes the exact logarithm.
- ReceivedMessages.ReceivedMessage.WaitForTrace: stated for a message as it was mapped, over subscriptions that hold the transaction caused by every message of a finite trace and receive every message once. On a message whose own sent messages are gone the source returns at once, whatever is pending below it; and it appends a nil message when a subscription ends without a match.
- Loader.BackfillForAddresses: stated for distinct addresses, which is what the registry returns. The goroutines append under a lock, so their interleaving is modelled as an arbitrary order of whole fetches.
- Query.ApplySorting: the library sort is modelled by an insertion sort over the array's contents and its promise, a permutation in order; the order of equal elements is not part of the promise.
- Txm.RunsKeepInv: the message objects are represented by the trace they resolve to; `TxManager.Manager` is the object with messages, and every step that it performs is one of the protocol.
- LogPoller.Service.Run: the registry does not change during a poll. In the source another goroutine may change it between the listing of the addresses and the matching of an event.
- PollRuns.Conservation: likewise, filters change between polls and not during one.
- SnakeTs.ReadsUpToBreak: not stated where an item with bits and references follows, in the same cell, an item that is all references; its reader is then given a reference that is not its own, and what it does with it is not part of an element codec.
- SnakeData.UnpacksUpToBreak: not stated in the same case, for the same reason.
