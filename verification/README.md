# Antithesis workload: model and proofs

This project models the stateful and the byte-level parts of a fault-injection
workload for a Filecoin network of Lotus and Forest nodes, and proves what they
are meant to guarantee. Every remote call is an arbitrary reply; every failing
step is part of the model.

**Partitions.** `Nodes` names the nodes. `Network` is the peer graph with one block list per node and the
facts about every later run of connection attempts. `Partition` has the three
splits (full isolation, star, bisection) and the heal as methods of an engine whose
calls may fail and between whose calls any nodes may connect or lose links.
`Reorg` has the repeated split and heal cycles. Isolation is proved as
reachability: no run of connection attempts opens a path. For the star and the
bisection it holds exactly when the power table lists every Lotus node; for a
reorg split exactly when no Forest node is loose. A heal whose own calls succeed
leaves only entries that predate the split, however the split went.

**Codecs.** `Bytes`, `Cbor`, `CborMessages` and `ExchangeRequest` cover the CBOR
builders (RFC 8949, sections 3, 3.1 and 4.2.1) and the hand-written request parser;
`Abi` and `AbiCalls` the contract ABI encoders and log parsers (Solidity Contract
ABI Specification, "Formal Specification of the Encoding"); `Eip712` the typed-data
hashes (EIP-712, "Definition of hashStruct" and "Definition of encodeData") and
`Eip712Schema` the struct declarations behind them ("Definition of encodeType");
`PieceCid` the piece digest (FRC-0069). Each is proved against an independent
decoder, and `KnownAnswers` proves the published examples of these formats. Keccak-256 is any function with 32-byte results: equal digests give equal
arguments or a collision among the very strings that were hashed.

**Monitors.** `StallDetector` and `ForkTracker` state what the F3 stall detector and
the fork tracker amount to over whole runs. `PowerTable` has the filter, the shares,
the sort and the weighted draw; `PowerCache` the cached table with its readers and
slashers in every interleaving: above height 0, and only there, a call is given a
table that was made for its height and leaves out every miner slashed before it.

**Bookkeeping.** `Sidecar`, `Batches` and `Polling` compare the sidecar's batch order
per window with chain order over the whole scanned range. `FocLifecycle` has the data set
lifecycle and the conservation of pieces. `Nonces` has the shared nonce cache,
`Gossip` the rotating publisher, `Identity` the host pool.

A method that follows a source function is proved equal to a specification function
of the old state or the arguments; the lemmas about that function say what the
operation is for, with their constants and conditions written out. Where a property does not hold of the code as it stands, the exact
condition is the statement.

## Model

| member | source | states |
|---|---|---|
| Network.ConnectsOnlyAdd | workload/cmd/stress-engine/nsplit_vectors.go:572-575 | any run of connection attempts keeps all links, leaves block lists alone and adds only links that neither end blocks |
| Network.CutOffForGood | workload/cmd/stress-engine/nsplit_vectors.go:377-384 | once every link of a side to the rest is cut and barred, no path leaves the side after any later attempts |
| Network.HubForGood | workload/cmd/stress-engine/nsplit_vectors.go:478-492 | once a group is cut and barred from all but the hub, the second node of any path from a member is the hub, after any later attempts |
| Network.StarSeparatesExactly | workload/cmd/stress-engine/nsplit_vectors.go:516-597 | two spokes can only ever meet through the hub if and only if no outside node is barred by no spoke |
| Network.BisectionSeparatesExactly | workload/cmd/stress-engine/nsplit_vectors.go:674-773 | two severed groups stay apart after any later attempts if and only if every outsider is barred by a member |
| Network.IsolationExactly | workload/cmd/stress-engine/nsplit_vectors.go:402-455 | a severed node stays isolated after any later attempts if and only if every other node is barred one way or the other |
| Partition.MinerToNodeName | workload/cmd/stress-engine/miner_disruption_vectors.go:211-224 | the node of a miner is the known Lotus node with the number 1000 below its address, or empty without one |
| Partition.NodeNameInjective | workload/cmd/stress-engine/miner_disruption_vectors.go:211-224 | different miners never share a node |
| Partition.DecimalReadsBack | workload/cmd/stress-engine/miner_disruption_vectors.go:211-224 | the number in a node name, read as a decimal number, is the number that was written |
| Partition.SplitMembers | workload/cmd/stress-engine/nsplit_vectors.go:498-514 | exactly which nodes are spokes, left half, right half and unlisted |
| Partition.Engine.NetDisconnect | workload/cmd/stress-engine/nsplit_vectors.go:406-410 | a disconnect that succeeds on a barred pair severs it, whatever connects right after |
| Partition.Engine.NetBlockAdd | workload/cmd/stress-engine/nsplit_vectors.go:572-575 | adding blocks is all or nothing and never works on a Forest node |
| Partition.Engine.NetBlockRemove | workload/cmd/stress-engine/nsplit_vectors.go:804-808 | removing blocks takes away exactly the named entries or nothing |
| Partition.Engine.NetConnect | workload/cmd/stress-engine/nsplit_vectors.go:812-816 | connecting adds only links that neither end blocks, a severed pair stays severed, and a call that succeeds links a pair that may link |
| Partition.Engine.CreateFullIsolation | workload/cmd/stress-engine/nsplit_vectors.go:384-472 | splits exactly when the miner whose turn it is has a node with a link, given that its calls succeed; every entry it adds is recorded; the adversary and every node but Forest then bar each other, other links stay, and no path ever leads from the adversary to another node until the heal |
| Partition.Engine.CreateStarSplit | workload/cmd/stress-engine/nsplit_vectors.go:492-632 | splits if and only if the largest miner has a node; every entry it adds is recorded; if its calls succeed the honest nodes bar each other and Forest, links to the hub stay, and from empty block lists honest nodes can only meet through the hub if and only if the table lists every Lotus node |
| Partition.Engine.IsolateSpoke | workload/cmd/stress-engine/nsplit_vectors.go:522-570 | one honest node bars all others and every Forest node, is cut from whom it was barred with before, and keeps the record complete even when blocking fails |
| Partition.Engine.DisconnectForest | workload/cmd/stress-engine/nsplit_vectors.go:584-593 | a Forest node is severed from every honest node that bars it |
| Partition.Engine.CreateBisection | workload/cmd/stress-engine/nsplit_vectors.go:638-794 | with four miners or more it splits if and only if both groups have a node and panics otherwise; if its calls succeed each group bars the other, links inside a group stay, and from empty block lists the groups stay apart, also by way of Forest, if and only if the table lists every Lotus node; under four miners it is a full isolation |
| Partition.Engine.BlockGroup | workload/cmd/stress-engine/nsplit_vectors.go:700-747 | every node of one group bars every peer of the other, and pairs barred before are severed |
| Partition.Engine.IsolateForestsFrom | workload/cmd/stress-engine/nsplit_vectors.go:749-773 | every Forest node is severed from both groups |
| Partition.GroupsDisjoint | workload/cmd/stress-engine/nsplit_vectors.go:644-650 | largest with smallest against the middle: the two groups share no node |
| Partition.BisectionHolds | workload/cmd/stress-engine/nsplit_vectors.go:634-638 | severed groups are apart for good exactly when no Lotus node is missing from the table |
| Partition.BisectionQuorum | workload/cmd/stress-engine/nsplit_vectors.go:652-672 | for any table the halves add up to the power that has a node, and neither exceeds 67 percent if and only if the largest and the smallest miner together hold at most 67 and leave at most 67; with a node for every miner the whole is 100 |
| Partition.SkewedBisection | workload/cmd/stress-engine/nsplit_vectors.go:778-791 | a table of 70, 10, 10 and 10 percent at which one half holds 80 |
| Partition.SlashedAreUnlisted | workload/cmd/stress-engine/miner_disruption_vectors.go:108-117 | the node of a slashed miner is missing from the table, which is when star and bisection no longer separate for good |
| Partition.StarExact | workload/cmd/stress-engine/nsplit_vectors.go:478-492 | severed spokes are separated for good exactly when no Lotus node is missing from the table |
| Partition.Engine.HealPartition | workload/cmd/stress-engine/nsplit_vectors.go:797-817 | removes only recorded entries; if its calls succeed none of them is left and, if no link was lost meanwhile, all nodes that may link are linked |
| Partition.Engine.ConnectEveryone | workload/cmd/stress-engine/nsplit_vectors.go:810-816 | if its calls succeed and no link was lost meanwhile, every pair that may link is linked |
| Partition.Engine.CollectNodeAddrInfos | workload/cmd/stress-engine/reorg_vectors.go:374-388 | the addresses of the nodes but the excluded one, all of them if every call succeeds |
| Partition.Engine.RunCycle | workload/cmd/stress-engine/nsplit_vectors.go:203-297 | for all three strategies: with calls that succeed it splits exactly when the split finds the nodes it needs; whatever failed while splitting, a heal whose calls succeed leaves only entries that were there before, and from empty block lists a full mesh and empty block lists |
| Reorg.SplitVictim | workload/cmd/stress-engine/reorg_vectors.go:122-172 | when the split takes effect and when it is skipped; adds only entries its heal names, and links among the others stay; if its calls succeed and block lists were empty, the victim is isolated for good if and only if no Forest node is loose |
| Reorg.HealVictim | workload/cmd/stress-engine/reorg_vectors.go:185-205 | if its calls succeed, no entry of the split is left |
| Reorg.Cycle | workload/cmd/stress-engine/reorg_vectors.go:121-215 | a cycle whose heal succeeds adds no entry, however the split went |
| Reorg.EnsureFullMesh | workload/cmd/stress-engine/reorg_vectors.go:349-370 | if its calls succeed, block lists are empty and, if no link was lost meanwhile, every two nodes are linked |
| Reorg.ReorgChaos | workload/cmd/stress-engine/reorg_vectors.go:119-224 | after any number of cycles with any failures, a closing mesh whose calls succeed leaves empty block lists and every pair linked; with calls that always succeed every cycle splits |
| Cbor.HeaderRoundTrip | workload/cmd/protocol-fuzzer/cbor_helpers.go:41-45 | a header is read back, strictly or leniently, whatever follows it |
| Cbor.StrictIsShortest | workload/cmd/protocol-fuzzer/cbor_helpers.go:41-45 | whatever a strict reader takes is the shortest form of its argument |
| Cbor.CborArray | workload/cmd/protocol-fuzzer/cbor_helpers.go:31-38 | the loop writes the array header and the elements in order |
| Cbor.ArrayEncodes | workload/cmd/protocol-fuzzer/cbor_helpers.go:31-38 | an array of encoded items is self-delimiting and decodes to the list of their values |
| Cbor.UintEncodes | workload/cmd/protocol-fuzzer/cbor_helpers.go:41-45 | a uint64 decodes to itself, whatever follows |
| Cbor.BytesEncode | workload/cmd/protocol-fuzzer/cbor_helpers.go:48-53 | a byte string decodes to itself, whatever follows |
| Cbor.TextEncodes | workload/cmd/protocol-fuzzer/cbor_helpers.go:56-61 | a text string decodes to itself, whatever follows |
| Cbor.NilEncodes | workload/cmd/protocol-fuzzer/cbor_helpers.go:64-66 | null, true and false decode to the simple values 22, 21 and 20 |
| Cbor.CidEncodes | workload/cmd/protocol-fuzzer/cbor_helpers.go:69-81 | a link decodes to tag 42 around the prefixed CID bytes |
| Cbor.CborCidArray | workload/cmd/protocol-fuzzer/cbor_helpers.go:84-90 | the loop writes the list of links |
| Cbor.CidArrayEncodes | workload/cmd/protocol-fuzzer/cbor_helpers.go:84-90 | a list of links decodes to the array of those links |
| Cbor.CborMap | workload/cmd/protocol-fuzzer/cbor_helpers.go:507-514 | the loop writes the map header and the entries in order |
| Cbor.MapEncodes | workload/cmd/protocol-fuzzer/cbor_helpers.go:507-514 | a map of an even number of encoded items decodes to its keys and values |
| Cbor.OddMapLeavesLast | workload/cmd/protocol-fuzzer/cbor_helpers.go:507-514 | with an odd number of entries the last one is left outside the map |
| CborMessages.Int64Encodes | workload/cmd/protocol-fuzzer/cbor_helpers.go:93-100 | an int64 decodes to its value over the whole range, also where negation wraps |
| CborMessages.CborNonCanonicalUint64 | workload/cmd/protocol-fuzzer/cbor_helpers.go:495-503 | the loop writes the nine-byte form |
| CborMessages.NonCanonicalUint64 | workload/cmd/protocol-fuzzer/cbor_helpers.go:495-503 | the nine-byte form decodes to v, is canonical if and only if v is at least 2^32, and a strict reader refuses it exactly below |
| CborMessages.BigIntBytes | workload/cmd/protocol-fuzzer/cbor_helpers.go:540-560 | the two loops yield nothing for 0, else the sign byte and the minimal magnitude |
| CborMessages.BigIntInverts | workload/cmd/protocol-fuzzer/cbor_helpers.go:540-560 | the magnitude has the value, no leading zero, and no shorter string has that value |
| CborMessages.GenerateF4Address | workload/cmd/protocol-fuzzer/cbor_helpers.go:618-630 | reading the varint gives the namespace back for every uint64, and the rest is the sub-address |
| CborMessages.BlockHeaderEncodes | workload/cmd/protocol-fuzzer/cbor_helpers.go:256-381 | for all options and draws the header is one 16-element array, null exactly in the fields the options ask for |
| CborMessages.HeaderItemsExactly | workload/cmd/protocol-fuzzer/cbor_helpers.go:256-381 | the sixteen items in order, each as the overrides and null options say |
| CborMessages.MessageEncodes | workload/cmd/protocol-fuzzer/gossip_attacks.go:528-546 | a gossip message is the ten-element array of its fields |
| CborMessages.NestedDepth | workload/cmd/protocol-fuzzer/cbor_bombs.go:257-309 | the nested payloads are nested exactly to the requested depth; the alternating one is an array at odd depths and a map with key 0 at even ones |
| CborMessages.StackDeeplyNested | workload/cmd/protocol-fuzzer/cbor_bombs.go:257-269 | a block message whose beacon field is 42 inside depth arrays |
| CborMessages.StackForestDeepAlternating | workload/cmd/protocol-fuzzer/cbor_bombs.go:300-316 | a block message whose beacon field alternates arrays and maps to the depth |
| ExchangeRequest.RequestEncodes | workload/cmd/protocol-fuzzer/exchange_client.go:33-39 | a request is the array of its links, length and options |
| ExchangeRequest.RequestDetermines | workload/cmd/protocol-fuzzer/exchange_client.go:33-39 | two requests are the same bytes if and only if links, length and options agree |
| ExchangeRequest.Reader.Seek | workload/cmd/protocol-fuzzer/cbor_helpers.go:393-438 | an int64 seek may leave the end, may go back, and is refused below zero |
| ExchangeRequest.SkipExactly | workload/cmd/protocol-fuzzer/cbor_helpers.go:405-428 | a list element counts as its header alone, unless it is a tag, which must be followed by a byte string that is skipped whole |
| ExchangeRequest.ParseRequestOptions | workload/cmd/protocol-fuzzer/cbor_helpers.go:393-438 | the reader loop gives what the position-by-position parse gives, and 0 when that fails |
| ExchangeRequest.RequestRoundTrip | workload/cmd/protocol-fuzzer/cbor_helpers.go:390-438 | the parser finds the options of every built request and stops exactly at its end |
| ExchangeRequest.ParseOfPrefix | workload/cmd/protocol-fuzzer/cbor_helpers.go:390-438 | a parse that succeeds on a prefix is the parse of the whole and ended inside the prefix |
| ExchangeRequest.CutRequestRejected | workload/cmd/protocol-fuzzer/cbor_helpers.go:390-438 | every proper prefix of a request, also one cut inside a link, yields no options |
| Abi.EncodeBigIntExact | workload/internal/foc/eth.go:275-284 | the word carries the number if and only if it is a uint256 |
| Abi.EncodeUint256 | workload/internal/foc/eth.go:305-316 | the shifted bytes are the same word |
| Abi.AddressInjective | workload/internal/foc/eth.go:296-302 | the word of a 20-byte address determines it |
| Abi.BuildCalldata | workload/internal/foc/eth.go:33-40 | the selector followed by the arguments |
| Abi.EncodeStringArray | workload/cmd/stress-engine/foc_vectors.go:1053-1079 | the loops with the running offset write the standard layout |
| Abi.StringArrayHere | workload/cmd/stress-engine/foc_vectors.go:1053-1079 | wherever that layout stands, following its offsets gives the strings back |
| Abi.EncodeBytes | workload/cmd/stress-engine/foc_vectors.go:1081-1096 | length, contents and padding to whole words |
| Abi.BlobHere | workload/cmd/stress-engine/foc_vectors.go:1081-1096 | wherever an encoded byte string stands, it is read back |
| Abi.AbiEncodeEmptyStringArrayArray | workload/cmd/stress-engine/foc_vectors.go:1039-1051 | the loops write n offsets and n zero lengths |
| Abi.EmptyArraysHere | workload/cmd/stress-engine/foc_vectors.go:1039-1051 | following the offsets gives n empty lists |
| AbiCalls.EncodeCreateDataSetExtra | workload/cmd/stress-engine/foc_vectors.go:989-1012 | the five-word head and its three tails; a decoder that follows head offsets recovers payer, id, keys, values and signature |
| AbiCalls.EncodeAddPiecesExtraData | workload/cmd/stress-engine/foc_vectors.go:1014-1036 | the four-word head and its three tails; the decoder recovers nonce, twice n empty lists, and signature |
| AbiCalls.DeletionCalldata | workload/cmd/stress-engine/foc_vectors.go:755-763 | the fixed offsets 96 and 160 lead to the one piece id and the signature |
| AbiCalls.DeleteDataSetCalldata | workload/cmd/stress-engine/foc_vectors.go:851-856 | the fixed offset 64 leads to the signature |
| AbiCalls.BuildCreateDataSetCalldata | workload/cmd/stress-engine/foc_vectors.go:1098-1104 | the fixed offset 64 leads to the extra data |
| AbiCalls.ParseDataSetCreatedLogs | workload/cmd/foc-sidecar/events.go:114-139 | the readable logs, in order, none twice |
| AbiCalls.ParsesExactly | workload/cmd/foc-sidecar/events.go:114-177 | logs that read as given events, with unreadable ones anywhere between, yield exactly these events in order |
| AbiCalls.SlotsAreRead | workload/cmd/foc-sidecar/events.go:114-177 | which topics and words of the data each field of the three events is read from |
| AbiCalls.CreatedRoundTrip | workload/cmd/foc-sidecar/events.go:114-139 | parsing inverts the event encoding, whatever arrays trail the fixed fields |
| AbiCalls.ParseRailCreatedLogs | workload/cmd/foc-sidecar/events.go:143-159 | the readable logs, in order, none twice |
| AbiCalls.RailRoundTrip | workload/cmd/foc-sidecar/events.go:143-159 | parsing inverts the event encoding |
| AbiCalls.ParseDataSetDeletedLogs | workload/cmd/foc-sidecar/events.go:163-177 | the readable logs, in order, none twice |
| AbiCalls.DeletedRoundTrip | workload/cmd/foc-sidecar/events.go:163-177 | parsing inverts the event encoding |
| Eip712.BuildDomainSeparator | workload/internal/foc/eip712.go:45-58 | the hash of the domain as typed data: type hash, name, version 1, chain id 31415926 and contract, in this order |
| Eip712.HashMetadataEntry | workload/internal/foc/eip712.go:61-71 | the hash of type hash, key hash and value hash, in this order |
| Eip712.HashMetadataEntries | workload/internal/foc/eip712.go:74-83 | the hash of the list of entries, also of the empty one |
| Eip712.CreateDataSetStructHash | workload/internal/foc/eip712.go:86-96 | hashStruct of the CreateDataSet message |
| Eip712.HashPieceMetadata | workload/internal/foc/eip712.go:151-159 | hashStruct of one piece's metadata with its index |
| Eip712.AddPiecesStructHash | workload/internal/foc/eip712.go:162-189 | hashStruct of the AddPieces message, missing trailing metadata read as empty |
| Eip712.SchedulePieceRemovalsStructHash | workload/internal/foc/eip712.go:200-213 | hashStruct of the SchedulePieceRemovals message |
| Eip712.DeleteDataSetStructHash | workload/internal/foc/eip712.go:224-229 | hashStruct of the DeleteDataSet message |
| Eip712.BuildEip712Digest | workload/internal/foc/eip712.go:99-105 | the digest of the contract's domain and the message |
| Eip712.EncodingBinds | workload/internal/foc/eip712.go:61-96 | two values of one type with one encoding are equal, or two strings hashed for them collide |
| Eip712.ValueMeansArguments | workload/internal/foc/eip712.go:143-229 | two messages are the same typed data if and only if type and arguments agree |
| Eip712.DigestBinds | workload/internal/foc/eip712.go:45-105 | equal digests mean the same contract, message type and arguments, or a collision among the strings hashed for them; and conversely |
| Eip712Schema.TypeStringsFollow | workload/internal/foc/eip712.go:12-35 | every type string is the encodeType of its struct declaration followed by those of the structs it uses |
| Eip712Schema.PartsFollow | workload/internal/foc/eip712.go:45-71 | entry, CID and domain list their arguments in the order in which their type strings name them |
| Eip712Schema.PieceMetadataFollows | workload/internal/foc/eip712.go:151-159 | piece metadata lists index and entries in the order its type string names them |
| Eip712Schema.MessageFollows | workload/internal/foc/eip712.go:86-229 | every message lists its arguments in the order in which its type string names them, and the used structs are those mentioned, sorted by name |
| Eip712Schema.ListsFollow | workload/internal/foc/eip712.go:74-83 | lists hold one entry per key, CID or id, in order |
| Eip712Schema.PiecesFollow | workload/internal/foc/eip712.go:162-189 | each piece comes with its own metadata, and with none when the caller gave no more |
| PieceCid.PutUvarint | workload/internal/foc/commp.go:47-48 | the buffer starts with the varint and at most ten bytes are used |
| PieceCid.PieceDigest | workload/internal/foc/commp.go:39-52 | reading the digest recovers size and root, and the payload length if and only if the payload is no larger than 127/128 of the size |
| KnownAnswers.VarintExamples | workload/cmd/protocol-fuzzer/cbor_helpers.go:618-630 | the examples of the unsigned-varint specification |
| KnownAnswers.UnsignedExamples | workload/cmd/protocol-fuzzer/cbor_helpers.go:41-45 | the unsigned integers of RFC 8949, Appendix A |
| KnownAnswers.NegativeExamples | workload/cmd/protocol-fuzzer/cbor_helpers.go:93-100 | the negative integers of RFC 8949, Appendix A |
| KnownAnswers.ItemExamples | workload/cmd/protocol-fuzzer/cbor_helpers.go:31-90 | strings, arrays, maps and simple values of RFC 8949, Appendix A, and a link |
| KnownAnswers.BigIntExamples | workload/cmd/protocol-fuzzer/cbor_helpers.go:540-560 | the bytes of 0, 100 and 0x1234 |
| KnownAnswers.StringArrayExample | workload/cmd/stress-engine/foc_vectors.go:1053-1079 | the string array of the Solidity Contract ABI Specification, offset by offset |
| KnownAnswers.EmptyArraysExample | workload/cmd/stress-engine/foc_vectors.go:1039-1051 | two empty lists: count, offsets 0x40 and 0x60, and two lengths |
| KnownAnswers.WordExamples | workload/internal/foc/eth.go:275-284 | 69 and 0x1234 as words |
| KnownAnswers.AddressExample | workload/internal/foc/eth.go:296-302 | an address stands in the low 20 bytes of its word |
| KnownAnswers.DigestExamples | workload/internal/foc/commp.go:39-52 | digests of the smallest piece, which holds 127 bytes and has tree height 2 |
| StallDetector.RunMeaning | workload/cmd/stress-engine/consensus_vectors.go:163-178 | over any run: the running maximum, the head at the last strict raise, and fallback exactly when a later observation had two responders and a head at least 20 past it |
| StallDetector.LeastFinalized | workload/cmd/stress-engine/consensus_vectors.go:209-220 | the least finalized height and the number of responders, in any map order |
| StallDetector.SnapshotMinHeight | workload/cmd/stress-engine/consensus_vectors.go:275-293 | with two or more responders the least height and a key reported at it, else nothing |
| StallDetector.FinalityMonitor.GetFinalizedSnapshots | workload/cmd/stress-engine/consensus_vectors.go:187-270 | one observation per round outside the cache's time to live; the snapshot then holds every node's finalized tipset or, with the fallback on and a head past 30, its tipset at 30 below its head but not below 1 |
| ForkTracker.MinHeadIsLeast | workload/cmd/stress-engine/consensus_vectors.go:809-821 | the running minimum is the least head if and only if no head, or the last one, is 0 |
| ForkTracker.MinHeadStartsOver | workload/cmd/stress-engine/consensus_vectors.go:809-821 | the running minimum forgets what came before a head of 0 |
| ForkTracker.ActiveExactly | workload/cmd/stress-engine/consensus_vectors.go:795-832 | without heads at 0 a tick does its work if and only if no partition is on, two nodes answer and every answered head is at 21 or above |
| ForkTracker.LeastHead | workload/cmd/stress-engine/consensus_vectors.go:809-826 | the running minimum and the number of heads that came back |
| ForkTracker.CompactInPlace | workload/cmd/stress-engine/consensus_vectors.go:914-979 | filtering within the slice's own storage equals a pure filter of the old contents, with the reports in order |
| ForkTracker.Tracker.Append | workload/cmd/stress-engine/consensus_vectors.go:899-903 | append in place or into new storage adds one fork at the end |
| ForkTracker.Tracker.DetectForks | workload/cmd/stress-engine/consensus_vectors.go:839-907 | a new disagreement is appended, evicting the oldest at 100 |
| ForkTracker.Tracker.VerifyForks | workload/cmd/stress-engine/consensus_vectors.go:910-980 | the forks that stay, in order, and the reports; ForkTracker.ReportedExactly says which |
| ForkTracker.Tracker.ForkMonitorTick | workload/cmd/stress-engine/consensus_vectors.go:795-836 | one tick equals the specified step |
| ForkTracker.TrackedForks | workload/cmd/stress-engine/consensus_vectors.go:839-980 | after any ticks: at most 100 forks, at distinct heights, in detection order, each the disagreement its tick saw |
| ForkTracker.DetectedExactly | workload/cmd/stress-engine/consensus_vectors.go:839-907 | a fork is recorded, last, if and only if two nodes differ at an untracked finalized height of 5 or more, the oldest of 100 making room |
| ForkTracker.ReportedExactly | workload/cmd/stress-engine/consensus_vectors.go:910-980 | on an active tick a tracked fork is reported if and only if it is 20 epochs old, two nodes answer and two differ, and let go if and only if it is 20 epochs old, two answer and none differ |
| ForkTracker.PersistentForkIsReported | workload/cmd/stress-engine/consensus_vectors.go:839-980 | over any run, a fork two nodes still differ on 20 epochs after it was seen is reported, unless a tick in between found no difference or the tracker was full |
| ForkTracker.ReportsAreEarned | workload/cmd/stress-engine/consensus_vectors.go:910-976 | a persistent fork is reported only for a height seen with two keys at detection and again, with the running minimum of the heads at least 20 higher |
| ForkTracker.WhyForksLeave | workload/cmd/stress-engine/consensus_vectors.go:894-958 | a fork leaves only resolved, or as the oldest of 100 |
| PowerTable.FilterSlashed | workload/cmd/stress-engine/miner_disruption_vectors.go:108-117 | the in-place filter keeps the unslashed miners in order, and the total loses exactly the dropped power |
| PowerTable.BuildTable | workload/cmd/stress-engine/miner_disruption_vectors.go:71-131 | the unslashed entries, most powerful first, with their shares; nothing exactly when no unslashed entry has power |
| PowerTable.TableSkipsSlashed | workload/cmd/stress-engine/miner_disruption_vectors.go:108-117 | no slashed miner is in a table |
| PowerTable.TableHoldsExactly | workload/cmd/stress-engine/miner_disruption_vectors.go:100-117 | a table holds every reported entry of a miner that is not slashed as often as it was reported, and nothing else |
| PowerTable.SharesSumTo100 | workload/cmd/stress-engine/miner_disruption_vectors.go:123-125 | the shares of every table sum to 100 |
| PowerTable.SpokeHoldsAtMostHalf | workload/cmd/stress-engine/nsplit_vectors.go:629-629 | every miner but the largest alone holds at most 50 percent, so no spoke of a star has an F3 quorum |
| PowerTable.PickMinerByStrategy | workload/cmd/stress-engine/miner_disruption_vectors.go:138-159 | first, last, or the entry whose power interval holds r; the fallback is reached only at total power zero |
| PowerTable.DrawIsProportional | workload/cmd/stress-engine/miner_disruption_vectors.go:144-156 | each entry is drawn by exactly as many of the random values as it has power |
| PowerTable.RemainingPowerPct | workload/cmd/stress-engine/miner_disruption_vectors.go:161-173 | 100 minus the share of the target's power, 0 at total power zero |
| PowerTable.PowerOfExactly | workload/cmd/stress-engine/miner_disruption_vectors.go:161-168 | the target's power is that of its last entry, 0 without one |
| PowerTable.RemainingExactly | workload/cmd/stress-engine/miner_disruption_vectors.go:161-173 | the percentage that is left lies between 0 and 100, is the rest of the power over the total, and is 100 for a miner without an entry |
| PowerCache.Cache.Lookup | workload/cmd/stress-engine/miner_disruption_vectors.go:64-69 | serves the cached table exactly when there is one for this very height, as the machine's step, and starts recomputing otherwise |
| PowerCache.Cache.Recompute | workload/cmd/stress-engine/miner_disruption_vectors.go:71-131 | the machine's step that fails to fetch, finds no power, or stores the new table under the height of the call and returns it |
| PowerCache.Cache.MarkSlashed | workload/cmd/stress-engine/miner_disruption_vectors.go:313-315 | the machine's step that marks the target |
| PowerCache.Cache.InvalidateCache | workload/cmd/stress-engine/miner_disruption_vectors.go:317-320 | the machine's step that finishes a slash, setting the epoch to 0 and nothing else |
| PowerCache.InvHolds | workload/cmd/stress-engine/miner_disruption_vectors.go:57-132 | in every interleaving a cached table at a height above 0 leaves out every miner whose slash has finished |
| PowerCache.SlashedStayOut | workload/cmd/stress-engine/miner_disruption_vectors.go:57-132 | a call that takes the cache lock after a slash has finished returns, above height 0, a table without that miner |
| PowerCache.FinishedSlashStaysOut | workload/cmd/stress-engine/miner_disruption_vectors.go:57-132 | step by step: when a slash was invalidated by an earlier step than the one with which a call took the cache lock, above height 0, its table has no such miner |
| PowerCache.ServedAtItsHeight | workload/cmd/stress-engine/miner_disruption_vectors.go:64-69 | in every interleaving a non-empty table returned to a call that read a height above 0 was computed by a call that had read that same height |
| PowerCache.FillIsServed | workload/cmd/stress-engine/miner_disruption_vectors.go:67-131 | conversely, until the next fill or invalidation the table is served, and not recomputed, to every call that reads its height |
| PowerCache.FreshExactly | workload/cmd/stress-engine/miner_disruption_vectors.go:57-132 | over all runs, no call at a height returns a table made at another height if and only if the height is above 0 |
| PowerCache.ZeroHeightServesSlashed | workload/cmd/stress-engine/miner_disruption_vectors.go:317-320 | a run in which a call at height 0 is served the slashed miner, from a table made at height 1 |
| PowerCache.CleanExactly | workload/cmd/stress-engine/miner_disruption_vectors.go:57-132 | over all runs, no call at a height returns a miner slashed before it if and only if the height is above 0 |
| Sidecar.SidecarState.AddDataset | workload/cmd/foc-sidecar/state.go:52-79 | the record, the rail and the payer of one creation, field by field, and nothing else |
| Sidecar.SidecarState.AddRail | workload/cmd/foc-sidecar/state.go:82-93 | the record of one rail, and nothing else |
| Sidecar.SidecarState.UpdateProvingState | workload/cmd/foc-sidecar/state.go:125-149 | which epochs moved, the staleness count, and nothing else touched |
| Sidecar.SidecarState.MarkDatasetDeleted | workload/cmd/foc-sidecar/state.go:152-158 | sets the deletion flag of that data set, if it is known, and nothing else |
| Sidecar.BatchIsChainOrder | workload/cmd/foc-sidecar/main.go:113-158 | creations, deletions, rails per window leave what chain order leaves if and only if no data set is deleted before its last creation and not after |
| Sidecar.MisorderedExactly | workload/cmd/foc-sidecar/main.go:113-158 | that condition in terms of positions: a deletion before the last creation and none after it |
| Sidecar.RecordOfLastCreation | workload/cmd/foc-sidecar/state.go:52-66 | after any events in chain order a record holds the arguments of the last creation of its data set, modulo 2^64, and is deleted if and only if a deletion came after that |
| Sidecar.RecordWithoutCreation | workload/cmd/foc-sidecar/state.go:52-66 | without a creation no record is added or lost, and only deletion flags change |
| Sidecar.RailOfLastCreation | workload/cmd/foc-sidecar/state.go:66-66 | a rail leads to the data set last created with it |
| Sidecar.RailWithoutCreation | workload/cmd/foc-sidecar/state.go:66-66 | without such a creation it leads where it led before |
| Sidecar.RecordOfRail | workload/cmd/foc-sidecar/state.go:82-93 | the record of a rail holds the arguments of the last event that opened it |
| Sidecar.NoRecordOfRail | workload/cmd/foc-sidecar/state.go:82-93 | without such an event the record of a rail stays as it was |
| Sidecar.CreatedFirst | workload/cmd/foc-sidecar/main.go:113-158 | a data set never deleted before it is created meets that condition |
| Sidecar.PayersUnique | workload/cmd/foc-sidecar/state.go:68-78 | the payer list has no duplicates and holds exactly the payers seen |
| Polling.ScannedExactlyOnce | workload/cmd/foc-sidecar/main.go:57-92 | every block from the first window's start to the last polled block is in exactly one window, and no other block in any |
| Polling.FinalizedExactly | workload/cmd/foc-sidecar/main.go:64-69 | the height polled is 30 below a head above 30 and the head itself otherwise, so a higher head is polled less far exactly when it alone is above 30 and by less than 30 |
| Batches.BatchesAreChainOrder | workload/cmd/foc-sidecar/main.go:113-158 | any run of batches in batch order leaves what all their events leave in chain order if and only if no data set diverges: none whose last batch with a creation is misordered and undeleted by every later batch |
| Batches.LaterBatchRepairs | workload/cmd/foc-sidecar/main.go:113-158 | a misordered batch that a later one sets right |
| Batches.RecordAfterBatches | workload/cmd/foc-sidecar/main.go:113-158 | after any batches a record holds the arguments of the last creation in chain order, and is deleted if and only if a deletion came after that or the data set diverges |
| Batches.RestsAgree | workload/cmd/foc-sidecar/main.go:113-158 | after any batches the rail records, the data sets that rails lead to and the payers are those of chain order |
| Polling.KeptAreFetched | workload/cmd/foc-sidecar/main.go:113-158 | a window loses exactly the events whose fetch failed |
| Polling.PollWindow | workload/cmd/foc-sidecar/main.go:113-158 | one window applies the events that came back, in batch order |
| Polling.PollEvents | workload/cmd/foc-sidecar/main.go:113-158 | creations, then deletions, then rails, each list skipped when its fetch fails |
| Polling.PollingLoop | workload/cmd/foc-sidecar/main.go:48-110 | for any heads and fetch results the windows tile one interval ending at the greatest finalized height seen, and the index is what the fetched events of the windows make it; with all fetches successful it is what the scanned range makes it in chain order if and only if no data set diverges, in particular when each is deleted only after its creation |
| Polling.WindowsAreChainOrder | workload/cmd/foc-sidecar/main.go:48-158 | with nothing lost, the windows leave what folding the whole scanned range in chain order leaves if and only if no data set diverges |
| Polling.InOrderChainsAgree | workload/cmd/foc-sidecar/main.go:48-158 | with nothing lost, they do on every chain that deletes each data set only after creating it |
| FocLifecycle.FocRuntime.DoFOCLifecycle | workload/cmd/stress-engine/foc_vectors.go:135-333 | one setup step, or none when a call fails |
| FocLifecycle.FocRuntime.DoFOCUploadPiece | workload/cmd/stress-engine/foc_vectors.go:340-383 | queues the CID only when every step succeeded |
| FocLifecycle.FocRuntime.DoFOCAddPieces | workload/cmd/stress-engine/foc_vectors.go:386-477 | one addition with its failure paths equals the specified step |
| FocLifecycle.FocRuntime.DoFOCDeletePiece | workload/cmd/stress-engine/foc_vectors.go:710-789 | the newest entry is taken off before anything is checked |
| FocLifecycle.FocRuntime.DoFOCDeleteDataSet | workload/cmd/stress-engine/foc_vectors.go:800-875 | terminate first, delete and start over in a later call |
| FocLifecycle.AddStep | workload/cmd/stress-engine/foc_vectors.go:391-476 | an addition succeeds exactly on an id, a decoded CID, a signature, a submission and an answer, and then one CID becomes one entry per confirmed id, in order, or a single one with id -1; any failure sends it to the back of the queue |
| FocLifecycle.SetupExactly | workload/cmd/stress-engine/foc_vectors.go:135-333 | for every phase, exactly which replies move it one step, and that the ids recorded are the drawn one and the reported one |
| FocLifecycle.SetupLeavesPieces | workload/cmd/stress-engine/foc_vectors.go:135-333 | setup touches no pieces, and exactly when it reloads the service provider's key |
| FocLifecycle.UploadExactly | workload/cmd/stress-engine/foc_vectors.go:340-383 | exactly which replies queue the CID |
| FocLifecycle.DeleteExactly | workload/cmd/stress-engine/foc_vectors.go:710-789 | exactly when an entry is taken off, and when its removal is scheduled |
| FocLifecycle.RemoveExactly | workload/cmd/stress-engine/foc_vectors.go:800-875 | exactly when the service is terminated, and when the lifecycle starts over |
| FocLifecycle.IdsComeFromReplies | workload/cmd/stress-engine/foc_vectors.go:259-318 | in every run the two ids are those one operation drew and was told when it created the data set |
| FocLifecycle.RunKeeps | workload/cmd/stress-engine/foc_vectors.go:75-875 | in every run: Ready has an on-chain id and a client id, setup holds no pieces, uploads are queued plus moved, entries are listed plus removed, deletions are scheduled at most once per entry and only for confirmed ids |
| FocLifecycle.AddedWereUploaded | workload/cmd/stress-engine/foc_vectors.go:386-477 | every added CID was uploaded since the last reset |
| FocLifecycle.PhasesInOrder | workload/cmd/stress-engine/foc_vectors.go:135-158 | the phase moves one step, or from Ready to a fresh start after the service of this client id was terminated |
| FocLifecycle.ReadyIsReachable | workload/cmd/stress-engine/foc_vectors.go:321-333 | once created, some run reaches Ready if and only if the reported id is not 0 |
| FocLifecycle.DeletionsUndoAddition | workload/cmd/stress-engine/foc_vectors.go:710-731 | as many deletions as an addition made entries restore the added list |
| FocLifecycle.EveryPieceGetsItsTurn | workload/cmd/stress-engine/foc_vectors.go:386-451 | failing additions go round the queue, so no piece holds up the others |
| Nonces.EthNonces.TakeNonce | workload/internal/foc/eth.go:58-70 | the cached nonce or the node's, and the successor cached |
| Nonces.EthNonces.SendEthTxCore | workload/internal/foc/eth.go:42-126 | amid any other senders' critical sections, takes one nonce per call with a good key and invalidates exactly when sending fails |
| Nonces.EthNonces.SendEthTxConfirmed | workload/internal/foc/eth.go:154-183 | amid any other senders' critical sections, invalidates also exactly when the receipt times out |
| Nonces.HandedAreConsecutive | workload/internal/foc/eth.go:58-70 | in any interleaving the nonces handed out between two invalidations run on from the node's reported one |
| Nonces.HandedAreDistinct | workload/internal/foc/eth.go:115-122 | up to 2^64 of them are distinct |
| Nonces.HandedIncrease | workload/internal/foc/eth.go:58-70 | over any invalidations all nonces handed to a sender increase if and only if every report is at least the successor of the last nonce handed out and the cache never runs over the end of uint64 |
| Nonces.HandedDistinctExactly | workload/internal/foc/eth.go:115-122 | with a node whose reports never go back they are distinct if and only if reports advance so, the node is not asked after a wrap, and wrapped nonces stay below the first; without a wrap, if and only if reports advance |
| Nonces.NonceRepeats | workload/internal/foc/eth.go:176-181 | a run in which an invalidated nonce is handed out twice |
| Gossip.GossipPublisher.PublishTo | workload/cmd/protocol-fuzzer/gossip_attacks.go:85-111 | one publish with any failing step equals the specified step |
| Gossip.GossipPublisher.ResetHost | workload/cmd/protocol-fuzzer/gossip_attacks.go:113-149 | closes all topics and the host; succeeds exactly when the new host is made, connected and meshed, and otherwise leaves the old host and topics, closed, in place |
| Gossip.GossipPublisher.Close | workload/cmd/protocol-fuzzer/gossip_attacks.go:151-160 | every cached topic and the host are closed |
| Gossip.HostsAreRotated | workload/cmd/protocol-fuzzer/gossip_attacks.go:85-149 | in every run no host carries more than maxUse publishes, no publish uses a topic of an earlier host, and every host no longer used is closed |
| Gossip.NothingClosedIsUsed | workload/cmd/protocol-fuzzer/gossip_attacks.go:85-149 | before close every publish goes through an open topic of an open host |
| Gossip.AfterClose | workload/cmd/protocol-fuzzer/gossip_attacks.go:151-160 | after close the next publish goes through the closed host if and only if its uses are not used up |
| Gossip.PublishExactly | workload/cmd/protocol-fuzzer/gossip_attacks.go:85-149 | a publish is handed to the network if and only if a host with uses left has or can join the topic, or a new host is made, connected, meshed and joins it; and on which host |
| Identity.IdentityPool.GetForGossip | workload/cmd/protocol-fuzzer/identity.go:79-108 | the scan, the eviction and the creation equal the specified step |
| Identity.IdentityPool.GetForStream | workload/cmd/protocol-fuzzer/identity.go:60-75 | the one stream host, created on first use |
| Identity.IdentityPool.CloseAll | workload/cmd/protocol-fuzzer/identity.go:116-128 | closes all hosts and forgets the gossip hosts |
| Identity.GossipStep | workload/cmd/protocol-fuzzer/identity.go:79-108 | it panics if and only if the pool may hold no host, gives an open host, and evicts only the oldest of a full pool, its budget used up |
| Identity.GossipExactly | workload/cmd/protocol-fuzzer/identity.go:79-108 | a host is given if and only if some host has budget or one can be created: the first with budget, else a new one behind the others, the oldest of a full pool making room |
| Identity.StreamExactly | workload/cmd/protocol-fuzzer/identity.go:60-75 | a stream host is given if and only if there is one or one can be created |
| Identity.BudgetsAreKept | workload/cmd/protocol-fuzzer/identity.go:79-128 | in every run uses plus remaining budget are constant per host, budget keys are the pool, and the pool never exceeds maxPool |
| Identity.StreamHostStays | workload/cmd/protocol-fuzzer/identity.go:60-128 | the stream host never changes and is open if and only if CloseAll was not called since |

## Left out

- JSON-RPC, libp2p, HTTP, file polling, sleeps, logging and Antithesis assertion calls: replies are parameters or arbitrary.
- The individual attack vectors, deck weights, wallet handling, verdict strings and one-group-means-agreement checks: they would only add easy members.
- Deliberately malformed payloads (claimed lengths, indefinite lengths, odd message sets): the CBOR decoder refuses indefinite lengths and floating-point forms.
- The CBOR header writer and reader of cbor-gen, sort.Slice and binary.PutUvarint are library code: they are modelled by what they promise, the header reader both strict and lenient about the shortest form.
- Cryptography: Keccak-256 is any function with 32-byte results; signing, CommP trees and multihashes are not part of this model. For the digests, contract addresses have 20 bytes and numbers are uint256.
- buildDefaultHeaderFields: the nested payloads are proved for any 16 well-formed header fields.
- A node's name stands for its peer ID, and peers are the known nodes only; outside peers and IP or subnet block entries are not part of this model.
- The two-thread use of partitionActive is not part of this model; it is check-then-store, so it excludes nothing.
- Partition.Engine.CreateBisection: does not claim that neither half exceeds 67 percent, because that fails for skewed tables; Partition.BisectionQuorum has the exact condition.
- PowerTable.BuildTable: shares are real numbers and powers exact, so float64 rounding and int64 overflow of the total power are not captured.
- PowerCache.SlashedStayOut: claimed above height 0 only; PowerCache.CleanExactly shows that this is the exact condition.
- ForkTracker.ReportsAreEarned: speaks of the code's running minimum, which is the least head exactly under the condition of ForkTracker.MinHeadIsLeast.
- A contract address that is not configured counts as a fetch that always fails.
- FocLifecycle.FocRuntime.DoFOCLifecycle: one deck thread runs the actions in turn, so states between two lock sections of one action are not visible.
- Sidecar locks are not part of this model: the polling loop is the only writer.
- GetDatasets, GetTrackedPayers and snap return copies; aliasing of their results is not part of this model.
