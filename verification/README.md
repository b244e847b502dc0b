# Calypso one-time secrets: a verified model

Calypso keeps secrets on a skipchain. A writer encrypts a key under a collective public key, a group
of trustees re-encrypts it towards an authorised reader, and everything runs over an overlay of
servers that are arranged in trees and exchange messages in a reflective Protocol Buffers encoding.
This project models the algorithms and protocols that this rests on and proves what they guarantee:

- **The protobuf codec** (`Wire`, `Schema`, `Codec`, `SchemaEvolution`, `RoundTrip`, `FieldOrder`,
  `CodecMethods`, `FieldIds`, `WireFormat`, `Decoded`). Go types are schemas, recursive types included, with fields in any
  order, and values are trees of any depth. `Codec` defines what the encoder writes and what the
  decoder makes of any bytes; `CodecMethods` holds the encoder and decoder as loops over buffers,
  proved equal to it. One induction shows what arrives when a message written under one type is read
  under another; round trips are the case of equal types, and the exact condition for them is proved
  for every type whose field numbers are distinct, on which the codec insists, and fit a key.
  `WireFormat` says what the bytes mean, without reference to the decoder, and `Decoded` what the
  decoder makes of bytes that no encoder wrote.
- **Overlay trees** (`NaryTree`, `BigNaryTree`, `OverlayTree`, `TreeNodes`): the two generators, the
  marshalled form, parent links and subtree keys.
- **Messaging and protocols** (`MessageQueue`, `Aggregation`, `CountProtocol`, `CountReplies`,
  `CountRuns`, `DkgSetup`, `DkgExchange`): step systems over all interleavings, with invariants over every run,
  completion theorems and bounds on the length of runs.
- **Threshold re-encryption** (`Interpolation`, `Reencryption`): Lagrange interpolation at zero modulo
  a prime is proved from the definition of a prime, and the delivery of the key rests on it. Points
  are any module over that field; the embedding of bytes into points is any that consumes a non-empty
  prefix and gives it back. Random scalars and streams are parameters.
- **The skipblock store** (`SkipStore`), and three small cores: streaming statistics (`Stats`), TCP
  framing (`Framing`) and the mininet address allocator (`Mininet`). `Basics` holds what they share.

Where the code does less than it may seem to promise, the model follows the code and says exactly
when the promise holds:

- A signed 64-bit varint survives only with at most 62 bits of magnitude, because the decoder
  converts to a signed word before it shifts (`SchemaEvolution.SignedVarintExact`,
  `RoundTrip.HugeVarintExample`). Nil elements of slices disappear in transit
  (`RoundTrip.NilElementExample`).
- A field that is not exported, or is declared after one with a larger number, is never decoded,
  whatever bytes arrive (`FieldOrder.UnreadableNeverDecoded`, `FieldOrder.OutOfOrderExample`), so a
  message survives if and only if such fields are zero and all others are exact
  (`RoundTrip.RoundTripExactly`). A record for a pointer that is not exported makes decoding fail
  (`FieldOrder.RefusedPointer`).
- A non-empty map whose values are structs with fields cannot be encoded: map values are not
  addressable, so none of their fields can be set, and the encoder takes them for a struct without
  serializable fields (`RoundTrip.StructMapEncodable`, `RoundTrip.StructMapExample`).
- In the key generation, deals are encrypted by place in the roster and sent by place in the tree, and
  only the root's children send it their keys. Deals reach their owners if and only if the tree is a
  star in the order of the roster (`DkgSetup.DealsReachOwnersIff`, `DkgSetup.BinaryTreeExample`). A
  single node has no child to send it a key, so its exchange never starts (`DkgSetup.StartedOnceIff`,
  `DkgExchange.AloneNeverStarts`).
- The root of a re-encryption keeps its own share in slot 0 whatever its index, so the reply of the
  node with index 0 replaces it if the root is another node (`Reencryption.RepliesGiveShares`,
  `Reencryption.CollisionExample`).
- The reported maximum of a statistic starts at zero and is the largest sample if and only if some
  sample is not negative (`Stats.MaxIsRightIff`, `Stats.MaxExample`).

## Model

| member | source | states |
|---|---|---|
| `Wire.UvarintPut` | imported/protobuf/encode.go:503-507 | Any 64-bit value written as a varint is read back exactly, and reading stops at its last byte. |
| `Wire.UvarintFits` | imported/protobuf/decode.go:92-95 | Whatever bytes arrive, an accepted varint fits 64 bits. |
| `Wire.ReadPayloadBytes` | imported/protobuf/decode.go:142-192 | Splitting by wire type returns each written payload whole and leaves everything after it untouched. |
| `WireFormat.VarintMeans` | imported/protobuf/encode.go:503-507 | A varint holds the number in groups of seven bits, least significant first, with the top bit on all bytes but the last, and no byte too many. |
| `WireFormat.WordMeans` | imported/protobuf/encode.go:517-537 | Byte i of a word holds its bits from 8 i on. |
| `WireFormat.KeyMeans` | imported/protobuf/encode.go:79-87 | A record starts with eight times the field number plus the wire type, 0, 1, 2 or 5. |
| `WireFormat.ScalarMeans` | imported/protobuf/encode.go:94-170 | Booleans and unsigned integers are varints, signed integers zig-zag varints, fixed kinds and floats words. |
| `WireFormat.EntryIsMessage` | imported/protobuf/encode.go:383-419 | A map entry is the message with the key in field 1 and the value in field 2. |
| `WireFormat.EntryReadAsMessage` | imported/protobuf/encode.go:383-419 | Read as that message, it gives the key in field 1 and the value in field 2. |
| `WireFormat.IntExample` | imported/protobuf/privateFields_test.go:21-35 | An int of 37 is 08 4a. |
| `WireFormat.StringExample` | imported/protobuf/privateFields_test.go:21-36 | A pointer to "b" is 0a 01 62. |
| `WireFormat.UnexportedExample` | imported/protobuf/privateFields_test.go:20-34 | A struct with an unexported field alone is refused. |
| `WireFormat.MapExample` | imported/protobuf/encode.go:383-419 | The map {1: 2} is 0a 04 08 01 10 02. |
| `WireFormat.NilRefusedIff` | imported/protobuf/encode.go:208-216 | A nil pointer is refused if and only if its field is required. |
| `WireFormat.NilInSlice` | imported/protobuf/encode.go:490-492 | A nil pointer in a slice is never refused. |
| `WireFormat.NilInMap` | imported/protobuf/encode.go:400-404 | A nil pointer in a map is always refused. |
| `WireFormat.MessageRefusedIff` | imported/protobuf/encode.go:61-89 | A message is refused if and only if an exported field is, or it has fields and none is exported. |
| `Decoded.VarintEnds` | imported/protobuf/decode.go:92-95 | An accepted varint ends at the first byte without a continuation bit, within ten bytes. |
| `Decoded.PayloadWhole` | imported/protobuf/decode.go:142-192 | Only the four wire types are accepted, with all their bytes present. |
| `Decoded.AcceptedSplits` | imported/protobuf/decode.go:83-139 | Whatever the type, only sequences of whole records are accepted. |
| `Decoded.UnknownIgnored` | imported/protobuf/decode.go:100-127 | A type without fields accepts exactly the sequences of whole records and ignores them. |
| `Decoded.EntrySplits` | imported/protobuf/decode.go:462-500 | A map entry is accepted only as whole records, the first of them the key. |
| `Decoded.PackedWhole` | imported/protobuf/decode.go:389-459 | A packed slice is appended to what was there, and words of fixed width fill it exactly. |
| `Decoded.NumAccepted` | imported/protobuf/decode.go:226-276 | Which payloads each scalar kind accepts, and that what is stored fits its width. |
| `Decoded.DecodedIsTyped` | imported/protobuf/decode.go:83-323 | Whatever bytes are decoded, the result is a value of the type: numbers within their width, arrays of their length, maps with distinct keys. |
| `Decoded.InsertUpdates` | imported/protobuf/decode.go:462-500 | Setting a map key replaces its value and nothing else. |
| `Decoded.EmptyRecordKeeps` | imported/protobuf/decode.go:286-323 | A further record for a struct or a pointer to one is merged into what is there. |
| `Decoded.LastWins` | imported/protobuf/decode.go:226-276 | Of several records for a scalar, string or array the last one counts. |
| `SchemaEvolution.SignedVarintExact` | imported/protobuf/decode.go:202-208 | A signed varint decodes to the number encoded if and only if it is in [-2^62, 2^62). |
| `SchemaEvolution.NumLands` | imported/protobuf/decode.go:226-276 | For every scalar kind, what storing the encoded payload leaves in a variable of that kind. |
| `SchemaEvolution.PackedLands` | imported/protobuf/decode.go:389-459 | A packed slice decodes to its elements in order, appended to what the slice held. |
| `SchemaEvolution.AdvanceMeets` | imported/protobuf/decode.go:104-107 | The cursor stops at the exported field of a number if that field is not behind it and no field before it has a larger number. |
| `SchemaEvolution.RecordLands` | imported/protobuf/decode.go:90-135 | One record goes to the field of its number if the cursor can meet it, and is skipped otherwise, with fields in any order. |
| `SchemaEvolution.FieldStored` | imported/protobuf/decode.go:105-127 | All records of a field that the cursor can meet are stored in that field, one after the other, and how far the cursor has moved. |
| `SchemaEvolution.FieldSkipped` | imported/protobuf/decode.go:100-127 | All records of a field that the reader does not have or the cursor does not meet are skipped, and how far the cursor has moved. |
| `SchemaEvolution.ListLands` | imported/protobuf/encode.go:482-494 | Unpacked slices arrive element by element, in order, without nil elements. |
| `SchemaEvolution.EntryLands` | imported/protobuf/decode.go:462-500 | A map entry written as key and value records, nested maps included, is read back as that entry. |
| `SchemaEvolution.EntriesLand` | imported/protobuf/encode.go:383-420 | The records of all entries of a map, in any enumeration order, insert those entries into the reader's map; when they are written at all is the matter of `CodecMethods.Encoder.HandleMap`. |
| `SchemaEvolution.ValueLands` | imported/protobuf/decode.go:218-323 | What the writer emits for any value, read into a fresh variable of an agreeing type, pointer or not, is exactly the described arrival. |
| `SchemaEvolution.MessageLands` | imported/protobuf/decode.go:83-139 | The same for whole messages with fields in any order on both sides: all bytes are consumed and every field of the reader has the described value. |
| `SchemaEvolution.InOrderReached` | imported/protobuf/decode.go:104-107 | Between types in increasing order every common exported field is reached. |
| `RoundTrip.ArriveSelf` | imported/protobuf/decode.go:218-323 | Under the writer's own type the arrival is the value itself if and only if the value is exact, fields out of order included. |
| `RoundTrip.Evolution` | imported/protobuf/decode.go:89-137 | Read under any other agreeing schema: common fields arrive if they are exported and the cursor reaches them and are zero otherwise, unknown ones are skipped, extra ones stay zero; nested messages may differ in the same way, and a pointer may stand for a plain field or the other way round. |
| `RoundTrip.Projection` | imported/protobuf/decode.go:100-120 | With identical types for common fields, exact values that the cursor reaches are projected unchanged. |
| `RoundTrip.RoundTripExactly` | imported/protobuf/decode.go:45-139 | For every accepted type and every message, Decode after Encode gives back the message if and only if every field is exact: zero if it is not exported or a field before it has a larger number, and otherwise without nil elements and numbers beyond 62 bits. |
| `RoundTrip.HugeVarintExample` | imported/protobuf/decode.go:202-208 | 2^62 comes back as -2^62. |
| `RoundTrip.NilElementExample` | imported/protobuf/encode.go:482-494 | A slice of one nil pointer comes back empty. |
| `RoundTrip.StructMapEncodable` | imported/protobuf/encode.go:76-88 | A map with struct values can be encoded if and only if it is empty or the structs have no fields. |
| `RoundTrip.StructMapExample` | imported/protobuf/encode.go:76-88 | A map with one entry, a struct of one boolean, is refused. |
| `FieldOrder.NeverWritten` | imported/protobuf/decode.go:104-107 | No input can set a field that the cursor can no longer meet or that is not exported. |
| `FieldOrder.UnreadableNeverDecoded` | imported/protobuf/decode.go:104-120 | A field that is not exported or declared after one with a larger number stays at zero on every input. |
| `FieldOrder.RefusedPointer` | imported/protobuf/decode.go:109-120 | Decoding fails on a record for a nil pointer that is not exported. |
| `FieldOrder.UnshadowedIffIncreasing` | imported/protobuf/decode.go:104-107 | No field is declared after one with a larger number if and only if the numbers increase. |
| `FieldOrder.RoundTripInOrder` | imported/protobuf/decode.go:45-139 | Types in increasing order give back exactly the messages whose exported values are exact and whose other values are zero. |
| `FieldOrder.OutOfOrderExample` | imported/protobuf/decode.go:104-120 | Two booleans numbered 2 and 1: the second comes back false. |
| `FieldIds.InnerFieldIndexes` | imported/protobuf/field.go:81-111 | The numbering loop with its shared counter computes the specified numbers of the flattened fields. |
| `FieldIds.IncreasingIffForward` | imported/protobuf/field.go:81-111 | Field numbers, embedded structs and their tags included, strictly increase if and only if no field goes back behind the last number given. |
| `FieldIds.RisingTagsIncrease` | imported/protobuf/field.go:86-107 | Structs without tags, and structs whose tags rise, have positive, increasing numbers, none of them twice. |
| `FieldIds.EmbeddedInPlace` | imported/protobuf/field.go:93-98 | Embedding a struct numbers its fields as if they were written in its place. |
| `FieldIds.TagNumbers` | imported/protobuf/field.go:86-92 | A tag is the number of its field, or of the first field of its embedded struct. |
| `FieldIds.UntaggedConsecutive` | imported/protobuf/field.go:81-111 | Without tags the numbers are 1, 2, 3 and so on. |
| `FieldIds.TypeIncreasing` | imported/protobuf/field.go:81-111 | The type of a struct has its fields in increasing order if and only if no field goes back, and so whenever tags rise. |
| `FieldIds.TypeDistinct` | imported/protobuf/field.go:67-75 | The numbers are accepted if and only if the type has distinct field numbers. |
| `FieldIds.FieldCache.ProtoFields` | imported/protobuf/field.go:59-79 | Whatever has been cached, the numbers of the struct, which are then cached, or a panic exactly if a number is used twice. |
| `CodecMethods.Encoder.Uvarint` | imported/protobuf/encode.go:503-507 | The byte loop appends exactly the varint. |
| `CodecMethods.Encoder.Fixed` | imported/protobuf/encode.go:517-537 | Appends the little-endian word. |
| `CodecMethods.Encoder.Packed` | imported/protobuf/encode.go:442-461 | Appends a packed slice as one record. |
| `CodecMethods.Encoder.Value` | imported/protobuf/encode.go:94-287 | Appends exactly the records of the value, and fails exactly on a required nil pointer, a nil map value or a map value that is a struct with fields. |
| `CodecMethods.Encoder.Message` | imported/protobuf/encode.go:61-89 | Appends the exported fields in declaration order, and fails if the struct has fields and none of them can be set. |
| `CodecMethods.Encoder.Slice` | imported/protobuf/encode.go:482-494 | Appends one record for each element that is not nil. |
| `CodecMethods.Encoder.HandleMap` | imported/protobuf/encode.go:383-420 | Appends one entry record for each map entry, whose value is not addressable. |
| `CodecMethods.PutValue` | imported/protobuf/decode.go:218-323 | Stores one payload in a variable of any supported type as specified. |
| `CodecMethods.DecodeSlice` | imported/protobuf/decode.go:449-458 | The loop over packed elements computes the specified slice or error. |
| `CodecMethods.DecodeMessage` | imported/protobuf/decode.go:83-139 | The loop with shrinking buffer and field cursor computes the specified message or error. |
| `CodecMethods.DecodeMapEntry` | imported/protobuf/decode.go:462-500 | The loop over an entry's records computes the specified entry or error. |
| `NaryTree.PartSize` | imported/onet/tree.go:542-547 | The N parts of a range fill it exactly and differ in size by at most one. |
| `NaryTree.PartNodesExactly` | imported/onet/tree.go:542-547 | Each part of the range has exactly the nodes between two rounded-down shares. |
| `NaryTree.AddNary` | imported/onet/tree.go:533-549 | The recursion with its loop builds the specified tree. |
| `NaryTree.ListIsRange` | imported/onet/tree.go:195-203 | The depth-first list of the tree is the roster indices in order. |
| `NaryTree.BuildBranching` | imported/onet/tree.go:543-547 | No node has more than N children. |
| `NaryTree.NoBranching` | imported/onet/tree.go:533-549 | With no children allowed the tree is a single node. |
| `NaryTree.DepthBound` | imported/onet/tree.go:533-549 | At most 1 + N + ... + N^d nodes give depth at most d. |
| `NaryTree.GenerateNaryTree` | imported/onet/tree.go:511-516 | All of this for the tree over a whole roster. |
| `NaryTree.RosterWithRoot` | imported/onet/tree.go:496-509 | The chosen root comes first and the other servers keep their order; none if the root is unknown. |
| `BigNaryTree.FindHost` | imported/onet/tree.go:453-477 | The circular search terminates on the nearest eligible server on another host, or, if there is none, on the nearest eligible server. |
| `BigNaryTree.NearestUnique` | imported/onet/tree.go:453-477 | There is only one such server. |
| `BigNaryTree.QuotaFull` | imported/onet/tree.go:446-449 | While enough nodes are missing, every parent gets N children. |
| `BigNaryTree.QuotaRest` | imported/onet/tree.go:446-449 | Otherwise what is missing always fits the parents that are left. |
| `BigNaryTree.AddChildren` | imported/onet/tree.go:450-486 | A parent gets exactly its quota, with correct links, each child on the server that the search finds which starts behind the last one. |
| `BigNaryTree.AddLevel` | imported/onet/tree.go:443-488 | A level is full, or the tree is complete after it; and each parent has its rounded-down share of what was missing at its turn, at most N. |
| `BigNaryTree.GenerateBigNaryTree` | imported/onet/tree.go:431-491 | Exactly the requested nodes, at most N children, all levels but the last full and so the least depth, created parent by parent; the root on server 0 and every other node on the server that the search finds which starts behind the node before it; each server once if nodes equal servers; a child shares its parent's host only if all eligible servers are on it. |
| `OverlayTree.RebuildEqual` | imported/onet/tree.go:313-340 | The tree rebuilt from its marshalled form over a roster that covers it is Equal to it. |
| `OverlayTree.EqualIffSameCopy` | imported/onet/tree.go:647-663 | Trees are Equal if and only if they marshal to the same thing. |
| `OverlayTree.ServersDiffer` | imported/onet/tree.go:647-663 | Trees with another server at a child are not Equal. |
| `OverlayTree.RebuildSame` | imported/onet/tree.go:299-340 | Over distinct servers it is the same tree, with the same servers and roster indices. |
| `OverlayTree.AggregateIsSum` | imported/onet/tree.go:259-269 | A node's subtree aggregate is the sum of the keys met by a traversal, as AggregatePublic computes it. |
| `OverlayTree.RootAggregateIsRosters` | imported/onet/tree.go:378-389 | For GenerateNaryTree the root's aggregate is the roster's aggregate. |
| `TreeNodes.MakeTreeFromList` | imported/onet/tree.go:327-340 | Builds fresh linked nodes that form the rebuilt tree, every child pointing to its parent; gives none exactly if a server is unknown. |
| `TreeNodes.ComputeSubtreeAggregate` | imported/onet/tree.go:259-269 | Changes only aggregates, and every node below holds its subtree's aggregate afterwards. |
| `TreeNodes.MakeTree` | imported/onet/tree.go:313-325 | An error exactly for another roster, a panic exactly without a root or with an unknown server; otherwise the rebuilt tree with all aggregates, and for a tree placed on distinct servers that very tree. |
| `MessageQueue.NoLostWakeup` | imported/onet/treenode.go:410-446 | In every run, a waiting reader with messages or a closing flag has a token, a token sender never blocks, and dispatched messages followed by the queue are the messages received in order. |
| `MessageQueue.NeverStuck` | imported/onet/treenode.go:410-446 | In every run, the lock holder or the reader can move unless the reader is idle or stopped. |
| `MessageQueue.QueueDrains` | imported/onet/treenode.go:421-446 | From every state, left alone, all received messages are dispatched in order, or a closing reader stops. |
| `MessageQueue.NothingAfterClosing` | imported/onet/treenode.go:421-428 | Once the closing flag is set nothing more is dispatched. |
| `MessageQueue.TokenSentIff` | imported/onet/treenode.go:299-312 | A producer sends the token exactly for a message alone in the queue, a closer always, if there is none. |
| `Aggregation.TreeNodeInstance.AggregateMsg` | imported/onet/treenode.go:493-517 | The queue update and release decision on the node's fields; a message that is not aggregated or comes from the parent is released at once and alone. |
| `Aggregation.DirectAtOnce` | imported/onet/treenode.go:493-498 | In runs too, such a message is released at once and alone, and the queues stay as they are. |
| `Aggregation.Conservation` | imported/onet/treenode.go:493-517 | Released batches followed by pending messages are the held-back messages in order of arrival; batches have one message a child and less is pending; a leaf releases none. |
| `Aggregation.OneRound` | imported/onet/treenode.go:507-514 | One message from each child gives exactly one batch with all of them. |
| `Aggregation.AllAccounted` | imported/onet/treenode.go:493-517 | Of every message, as many are released or pending as were received. |
| `Aggregation.DirectInOrder` | imported/onet/treenode.go:493-498 | Messages that are not aggregated or come from the parent are released in the order of their arrival. |
| `CountProtocol.FuncC` | imported/onet/simul/manage/count.go:163-167 | Counts one more than the sum of the reports. |
| `CountProtocol.RootSize` | imported/onet/tree.go:225-232 | The size of the root's subtree is the number of nodes. |
| `CountProtocol.CompleteBatch` | imported/onet/simul/manage/count.go:163-178 | As many true reports as children come from all children, and their count is the size of the subtree. |
| `CountProtocol.StepKeeps` | imported/onet/simul/manage/count.go:99-178 | Every step, losses and time-outs included, keeps the invariant. |
| `CountProtocol.CountsAreSubtreeSizes` | imported/onet/simul/manage/count.go:163-173 | In every run, each Count message carries the size of its sender's subtree. |
| `CountProtocol.RootPublishesOnce` | imported/onet/simul/manage/count.go:109-128 | In every run, the root publishes exactly one number: the size of the tree on completion, less on a time-out. |
| `CountReplies.TimeoutPublishesReplies` | imported/onet/simul/manage/count.go:109-125 | In every run, what a time-out publishes is the number of NodeIsUp messages that the root has received. |
| `CountReplies.TimeoutIsFullIff` | imported/onet/simul/manage/count.go:109-140 | Without losses, once all nodes are prepared, a time-out has published all other nodes if and only if no NodeIsUp is under way. |
| `CountProtocol.UndisturbedRunCompletes` | imported/onet/simul/manage/count.go:99-178 | Without losses and a root time-out, when nothing more can happen all nodes have stopped and the root has published the size. |
| `CountRuns.StepLowers` | imported/onet/simul/manage/count.go:99-178 | Every step, losses and the root's time-out included, lowers a measure; time-outs of other nodes change nothing. |
| `CountRuns.RunsAreBounded` | imported/onet/simul/manage/count.go:99-178 | Every run on n nodes has at most 2n(n + 1) steps that change anything. |
| `DkgSetup.RootStartDeal` | protocol/dkg.go:126-140 | Each slot holds the key last sent by the server of that place; an error or panic exactly if a reply comes from outside the roster or from a place beyond the nodes. |
| `DkgSetup.LastReplyCounts` | protocol/dkg.go:126-136 | Of several replies of one server the last one is filed, even in the root's own slot. |
| `DkgSetup.NoReply` | protocol/dkg.go:126-136 | Without a reply a slot is empty, but for the root's own. |
| `DkgSetup.StartedOnceIff` | protocol/dkg.go:57-60 | The root takes the replies of its children as one batch and broadcasts StartDeal once; without children it never does, whatever arrives. |
| `DkgSetup.DealsReachOwnersIff` | protocol/dkg.go:118-165 | For every tree and order of replies, every deal goes to the node whose key it is encrypted to if and only if all nodes are children of the root and sit on the servers of their places. |
| `DkgSetup.NaryDealsReachOwners` | onchain-secrets/service.go:84-86 | On the tree of GenerateNaryTree this is so if and only if N is at least the number of other servers. |
| `DkgSetup.BinaryTreeExample` | protocol/dkg.go:118-140 | Four servers in a binary tree are in order, and still a key is missing. |
| `DkgExchange.SentWithinLoops` | protocol/dkg.go:79-90 | In every run nothing is sent twice, and a node is sent at most l-1 deals, l(l-1) responses and l secret commits. |
| `DkgExchange.LoopsComplete` | protocol/dkg.go:144-205 | When nothing more can be received, every node has the deals of all others and all responses; if all have committed, all have finished. |
| `DkgExchange.CommittedIff` | protocol/dkg.go:177-192 | A node has broadcast its secret commit if and only if SecretCommits has succeeded for it after some response. |
| `DkgExchange.FinishedIff` | protocol/dkg.go:80-90 | If the key generator is ready once all responses are in, all nodes have finished when nothing more can be received, if and only if there are at least two. |
| `DkgExchange.AloneNeverStarts` | protocol/dkg.go:79-90 | With a single node nothing ever happens. |
| `DkgExchange.RunsAreBounded` | protocol/dkg.go:80-90 | Every run has at most l(l^2 + l) steps, and exactly so many when all have finished. |
| `DkgExchange.RunInv` | protocol/dkg.go:79-205 | Every message due has been sent exactly once, and loop counters are the numbers of distinct messages processed. |
| `Interpolation.WeightsSumToOne` | onchain-secrets/service.go:360-375 | Interpolation weights at zero add up to one modulo the prime. |
| `Interpolation.InterpolatesAtZero` | onchain-secrets/service.go:360-375 | On any distinct non-zero points, at least as many as coefficients, the weighted sum of a polynomial's values is its constant coefficient. |
| `Reencryption.EncodeKey` | protocol/onchain.go:26-39 | The chunk loop computes the commitment and the blinded chunks. |
| `Reencryption.DecodeKey` | protocol/onchain.go:55-72 | The loop computes the unblinded data, or the error of a point without data. |
| `Reencryption.UnblindBlind` | protocol/onchain.go:26-72 | Unblinding with the inverse gives back the data, chunk by chunk. |
| `Reencryption.UnblindFailsIff` | protocol/onchain.go:62-70 | Decoding fails if and only if some point does not embed data. |
| `Reencryption.ReencryptReply` | protocol/ocs.go:69-81 | Places the root's part, with any share index, in slot 0 and every reply in the slot of its index. |
| `Reencryption.GetUiFactors` | protocol/ocs.go:83-90 | A node's part is its share times the sum of the commitment and the reader's key. |
| `Reencryption.RecoversSecretMultiple` | protocol/ocs.go:83-90 | Honest parts of distinct nodes, in any order, recover the secret multiple. |
| `Reencryption.RepliesGiveShares` | protocol/ocs.go:69-81 | For a root with any share index, the shares present are those of all replies, in any order, and the root's own if and only if no reply has index 0; all are honest and of distinct nodes. |
| `Reencryption.CollisionExample` | protocol/ocs.go:69-81 | A root with index 1 and a reply with index 0: only the reply is left. |
| `Reencryption.KeyDelivered` | protocol/onchain.go:55-72 | With enough honest shares the reader decodes exactly the key that was encoded. |
| `Reencryption.ProtocolDeliversKey` | protocol/ocs_test.go:49-106 | The whole protocol for every polynomial, key, reader, root, choice and order of replies: how many shares are left, and that any choice of them that reaches the threshold gives the reader the key. |
| `Reencryption.ElGamalEncrypt` | otssmc/protocol.go:144-161 | The chunk loop by PickLen computes the blinded chunks of the message. |
| `Reencryption.ElGamalOpen` | otsclient/ots.go:59-70 | The loop over chunks computes the unblinded data, skipping points without data. |
| `Reencryption.SkippingConcat` | otsclient/ots.go:59-70 | Points are decrypted one by one, and one without data contributes nothing. |
| `Reencryption.TransportRoundTrip` | otsclient/ots.go:59-80 | Decrypting with the reader's key gives back the encrypted bytes. |
| `Reencryption.OpenFailsIff` | otsclient/ots.go:72-80 | Decryption of the shares fails if and only if one of them does not unmarshal. |
| `Reencryption.GetDecryptedShares` | otsclient/ots.go:97-106 | Decrypts, unmarshals and places all shares, or fails as the client does. |
| `Reencryption.Placed` | otsclient/ots.go:101-105 | Items with distinct indices end in their own slots whatever their order. |
| `Reencryption.PlaceFailsIff` | otsclient/ots.go:101-105 | Placing fails if and only if an index is out of range. |
| `Reencryption.LastPlaced` | otsclient/ots.go:101-105 | Of several shares with one index the last one stays. |
| `Reencryption.SharesDelivered` | otsclient/ots.go:82-107 | Shares of all trustees in any order decrypt to the shares sent, with share i in slot i. |
| `SkipStore.Merge` | onchain-secrets/bunch.go:62-76 | A known block gets the new forward links in order up to the first that does not verify, and the new child links if all verified. |
| `SkipStore.SkipBlockBunch.Store` | onchain-secrets/bunch.go:59-84 | Keeps the bunch valid: blocks under their own hash in their own chain, the latest stored and of largest index. |
| `SkipStore.SkipBlockBunch.constructor` | onchain-secrets/bunch.go:41-48 | A new bunch is valid and holds its block as the latest. |
| `SkipStore.SBBStorage.AddBunch` | onchain-secrets/bunch.go:224-237 | Adds a bunch for a new chain and nothing for a known one. |
| `SkipStore.SBBStorage.Store` | onchain-secrets/bunch.go:241-250 | Adds the block in its place unless taken and changes no other place; the block there gets the new forward links up to the first that does not verify, and all of them if all verify. |
| `SkipStore.SBBStorage.GetById` | onchain-secrets/bunch.go:253-262 | The scan in any order finds the block of the hash in the hash's chain. |
| `SkipStore.SBBStorage.GetFromGenesisById` | onchain-secrets/bunch.go:302-315 | The direct lookup agrees with the scan on a block's own chain and finds nothing elsewhere. |
| `SkipStore.SBBStorage.GetLatest` | onchain-secrets/bunch.go:318-326 | A stored block of the chain with the largest index, or null for an unknown chain. |
| `SkipStore.WithAt` | onchain-secrets/bunch.go:241-250 | What is stored stays where it is, and only the new block's place is filled. |
| `Stats.StreamingStep` | imported/onet/simul/monitor/stats.go:417-418 | One step computes the mean and squared deviation of the longer sequence. |
| `Stats.Value.Collect` | imported/onet/simul/monitor/stats.go:395-425 | The fields become the statistics of everything seen before followed by the store. |
| `Stats.RepeatStatistics` | imported/onet/simul/monitor/stats.go:395-425 | A store seen k times has the same mean and k times the deviation. |
| `Stats.CollectTimes` | imported/onet/simul/monitor/stats.go:395-425 | After k collections: k times the count, the mean, k times the deviation, and sum and minimum of the store. |
| `Stats.MaxIsRightIff` | imported/onet/simul/monitor/stats.go:407-409 | The maximum is the largest sample if and only if some sample is not negative. |
| `Stats.MaxExample` | imported/onet/simul/monitor/stats.go:407-409 | For a store of one negative sample, zero is reported. |
| `Framing.ParseFrame` | imported/onet/network/tcp.go:104-139 | A frame is read back whole and nothing after it is touched. |
| `Framing.AcceptedIff` | imported/onet/network/tcp.go:104-117 | A frame is accepted if and only if its message has at most 10485760 bytes. |
| `Framing.HeaderValue` | imported/onet/network/tcp.go:158-163 | The header is the size with its most significant byte first. |
| `Framing.Conn.SendRaw` | imported/onet/network/tcp.go:158-178 | Whatever the partial writes, exactly the frame is written. |
| `Framing.Conn.ReceiveRaw` | imported/onet/network/tcp.go:104-139 | Whatever the partial reads, exactly one frame is taken off the stream, or an error is returned. |
| `Framing.Conn.ReceiveAll` | imported/onet/network/tcp.go:104-178 | Messages sent are received in order and the stream is left where the last frame ends. |
| `Framing.Conn.Exchange` | imported/onet/network/tcp.go:104-178 | Whatever messages of at most 10485760 bytes are sent over an idle connection, in whatever parts, arrive. |
| `Mininet.IncrementInPlace` | imported/onet/simul/platform/mininet.go:391-396 | The carry loop computes the increment. |
| `Mininet.IncrementCounts` | imported/onet/simul/platform/mininet.go:391-396 | The increment adds one to the address as a number. |
| `Mininet.IncrementWraps` | imported/onet/simul/platform/mininet.go:391-396 | After the last address comes 0.0.0.0. |
| `Mininet.GetHosts` | imported/onet/simul/platform/mininet.go:389-399 | Host i is the next address of server i modulo the number of servers. |
| `Mininet.AddressesDistinct` | imported/onet/simul/platform/mininet.go:364-399 | With under 65535 hosts a server, addresses are distinct and in their server's /16. |
| `Mininet.CountIsDealt` | imported/onet/simul/platform/mininet.go:418-421 | The printed count of a server is the number of hosts it was dealt. |
| `Mininet.CountsAddUp` | imported/onet/simul/platform/mininet.go:414-424 | The counts add up to the number of hosts. |

## Left out

- Protobuf interface fields, constructors, generators, `time.Time` and `.proto` generation: reflection and registries without a common wire theorem.
- Types the codec cannot carry both ways (slices of pointers to scalars, slices of slices other than bytes, arrays other than bytes, pointers to slices of messages or to maps, maps with packed slices as values, floating-point map keys) are outside `Schema.Supported`; the encoder's panics and the decoder's errors on them are not modelled. The texts of error messages are not modelled.
- Field numbers that are negative or do not fit a key (2^61 and above), which the codec takes from tags, are outside `Schema.DistinctIds`. Nil embedded pointers, and decoding into a struct that is not fresh, are not covered by the theorems; `CodecMethods.DecodeMessage` covers the latter as a computation.
- The map order of the Go runtime is a parameter: a map value lists its entries in the order of enumeration.
- Overlay tree identifiers and roster identifiers are numbers; UUIDs, hashes, signatures and elliptic curves are abstract.
- `RecoverCommit`, PVSS, the DKG library and the skipchain client are not part of the repository: interpolation is modelled by its formula, and the key generator by what it has processed and a free choice of when it is ready to commit.
- DkgExchange.LoopsComplete: messages are not lost and deals and responses are honest; the waiting round of the Wait option is not modelled, nor is what inner nodes of a tree that is not a star broadcast.
- SkipStore.SBBStorage.GetById: a hash determines the chain of its block, which stands for a hash function without collisions; fuzzy and regular-expression lookups are left out.
- Framing.Conn.SendRaw: messages of 4 GiB and more, whose size does not fit the header, are excluded; deadlines and traffic counters are left out.
- Stats.Value.Collect: exact reals instead of floating point, no filter and no square root of the variance.
- TreeNodes.MakeTreeFromList: the node without server that the source leaves for an unknown server is not built; `MakeTree`, the only caller, panics on it.
- NaryTree.AddNary: returns the tree as a value; in-place linking is modelled in `TreeNodes` for the tree rebuilt from its marshalled form, and in `BigNaryTree` by node numbers.
- Locks around fields that only one step touches, logging, configuration, listeners, WebSockets, routing and the simulation platforms other than the host list: plumbing that would only add easy members.
- Overlay handling of pending trees, paging of read requests and verification of write and decryption requests: straight-line checks over opaque signatures, or code whose progress claims do not hold in general.
