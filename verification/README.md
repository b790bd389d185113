# A verified model of cpp-vapory's core data structures

A Dafny model of the parts of cpp-vapory on which its consensus and its wire format rest, with proofs of what
those parts promise. `dafny verify dfyconfig.toml` checks all of it.

* **Merkle Patricia trie** (`Trie*.dfy`, `NodeStore.dfy`). `GenericTrieDB` keeps a map as a radix-16 tree of
  nodes addressed by their hashes, in a node store that counts references (`MemoryDB`) and can be committed to
  disk and rolled back (`OverlayDB`); `TrieHash.cpp` builds the same tree from a sorted map. The design is that
  of Appendix D of the Ethereum Yellow Paper. Nodes are values, SHA3 is an injective constructor over them, and
  inlining goes by the real size of a node's RLP. Which byte strings are the digests of which nodes is a parameter
  of the trie, because removal takes some values for hashes. The central notion is the *canonical* node: two canonical
  nodes with the same entries are equal, so the root depends on the contents alone. The store is described by a
  ledger of insertions not yet matched by a kill; every operation of the trie is proved to keep the ledger equal
  to the references in the current trie and in the other tries of the store.
* **Iteration** (`TrieEntries.dfy`, `TrieSeek.dfy`, `TrieIterator.dfy`): the explicit trail of `iterator::next`,
  in both forms, against the sorted list of entries.
* **Hex-prefix encoding** (`HexPrefix.dfy`, Appendix C) and **RLP** (`Rlp*.dfy`, Appendix B): the stream that
  patches list headers in afterwards, the strict decoder, the cached list index and the readers of fields.
* **RLPx** (`Rlpx*.dfy`): two frame coders and the sessions over them. Keccak is a function of the bytes fed so
  far, AES-CTR adds a keystream by position, the key agreement is commutative; all are otherwise arbitrary.
* **Vapash** (`VapashHash.dfy`, Appendix J; `VapashRules.dfy`): cache, data set, evaluation and seals; difficulty
  and gas limit of a block.
* **Transactions** (`Transactions.dfy`, `TransactionBytes.dfy`): serialisation with EIP-155.
* **`RangeMask`** (`RangeMask.dfy`): a set of numbers as a sorted map of intervals.

Some documented promises do not hold of the code on all inputs. The model keeps the code and says exactly when
they do, with an input for each that fails:

* `remove`: `TrieBlocked.FaultyIsBlocked`, and for what it does then `TrieAstray.AstrayDisplaces`; five tries in
  `TrieFaults`.
* Delivery of packets: `RlpxRuns.ActReadFrame`, `LinkDelivers`; `RlpxSession.HelloUnread`.
* Packet lengths: `RlpxSession.LengthKept`; `LengthLost`.
* The cached list index: `RlpReader.RLP.Index`; `AfterAThrow`.
* `RangeMask::next`, `lowest` and `operator-=`: `NextAbove`, `Lowest`, `DifferenceIff`, `Subtract`; `NextWraps`,
  `LowestWraps`, `DifferenceGrows`, `DifferenceWithItself`.
* The child gas limit: `VapashRules.ChildGasLimitIff`; `FullParentStuck`.
* Monotone difficulty: `VapashRules.NeverRisesIff`; `RiseCanWrap`.
* The transaction round trip: `Transactions.RoundTripIff`, `TransactionBytes.Reserialised`; `ChainZeroRefused`,
  `ListAsReceiver`.

What code and specification have in common is stated a second time, with the primitives, arithmetic and literal
constants alone: RLP and hex-prefix digit by digit, transactions field by field, frames and MACs byte by byte, the proof
of work step by step (`EncodedData`, `EncodedNibbles`, `SignedWritten`, `ParsedFields`, `OnTheWire`, `DagSteps`,
`EvaluationSteps`, `ChildGasLimitIs` and their like).

Where a source loop or object changes state, the model does: `GenericTrieDB`, `OverlayDB`, `Iterator`,
`RLPStream`, `RLP`, `FrameCoder`, `Session`, `Mask` and `BlockHeader` are classes with the source's fields.

## Model

| member | source | states |
|---|---|---|
| `TrieRuns.Run` | libdevcore/TrieDB.h:774-941 | after any run of inserts, removals, commits and reopenings from an empty trie, with any keys, in which no removal is one that can go wrong: the trie represents exactly the map the operations leave, its root is that of every canonical trie with those contents, its store is in order (each count the number of references in the trie and in the other tries of the store), every node is found, and the last committed map can be opened again; in memory every count is exactly the number of hashed occurrences |
| `TrieRuns.RunAndHash` | libdevcore/TrieHash.cpp:107-110 | the root after a run is what `hash256` makes of the map that the operations leave |
| `TrieNeighbours.Interleave` | libdevcore/TrieDB.h:774-941 | of two tries in one store, however their inserts, removals and commits interleave, each represents exactly the map its own operations leave, and has the root that map determines; the store counts the references of both |
| `TrieNeighbours.Take` | libdevcore/TrieDB.h:774-941 | one operation of one of them: the other keeps its root, stays in order, and all its nodes are counted |
| `TrieNeighbours.OpenBeside` | libdevcore/TrieDB.h:75-75 | an empty trie can be opened in the store of another without disturbing it |
| `TrieRuns.Perform` | libdevcore/TrieDB.h:774-941 | one operation of a run: the trie goes on representing the map, and the committed root the committed map |
| `TrieRuns.StoreExact` | libdevcore/TrieDB.h:157-226 | every hash that occurs in the trie can be looked up, and without a disk its count is its number of occurrences in this and the other tries of the store, zero for all others |
| `TrieRuns.RootDetermined` | libdevcore/TrieDB.h:774-1076 | two canonical tries with the same contents have the same root, whatever their histories |
| `TrieRuns.Hash256Map` | libdevcore/TrieHash.cpp:94-110 | the root built from the sorted entries of a map is the root of every canonical trie that holds that map |
| `TrieRuns.HexMapOf` | libdevcore/TrieHash.cpp:94-104 | the sorted list of nibble keys has exactly the entries of the map |
| `TrieRuns.RepresentsUpdated` | libdevcore/TrieDB.h:774-790 | a trie updated at one key represents the map updated at that key |
| `TrieRuns.OneLengthAdmissible` | libdevcore/TrieDB.h:325-331 | in a run whose keys have one length no removal can go wrong, whatever the values |
| `TrieRuns.OfLengthNeverFaulty` | libdevcore/TrieDB.h:325-331 | with all keys of one length, removal never throws and never takes a value for a hash |
| `TrieUnique.Unique` | libdevcore/TrieDB.h:178-198 | canonical nodes with the same entries are equal: structure, inlining and hashes follow from the contents |
| `TrieUnique.SomeEntry` | libdevcore/TrieDB.h:797-827 | every non-null canonical node holds an entry |
| `TrieDB.GenericTrieDB.constructor` | libdevcore/TrieDB.h:75-75 | `init()` gives an empty trie in order in a store that may hold other tries, whose references it keeps |
| `TrieDB.GenericTrieDB.Insert` | libdevcore/TrieDB.h:774-790 | at the key the value, everywhere else what was there; the trie stays canonical and the store holds exactly its references |
| `TrieDB.GenericTrieDB.MergeAt` | libdevcore/TrieDB.h:829-908 | the merged node has the entry and all others, is canonical, and the references of the old node are traded for those of the new one; terminates although it calls itself on the same key after `cleve` and `branch` |
| `TrieDB.GenericTrieDB.MergeBelowExt` | libdevcore/TrieDB.h:859-868 | merging below an extension or at its end updates one key and trades references |
| `TrieDB.GenericTrieDB.MergeRewriting` | libdevcore/TrieDB.h:870-883 | rewriting a pair by `cleve` or `branch` keeps its entries and leads to the merged node |
| `TrieDB.GenericTrieDB.MergeBelowBranch` | libdevcore/TrieDB.h:887-905 | merging into a slot of a branch updates one key and trades references |
| `TrieDB.GenericTrieDB.MergeAtAux` | libdevcore/TrieDB.h:910-925 | the new slot is canonical, holds the update, and its references replace those of the old slot |
| `TrieDB.GenericTrieDB.Place` | libdevcore/TrieDB.h:1078-1101 | a value put at a node changes just that key; the old node is given up |
| `TrieDB.GenericTrieDB.Cleve` | libdevcore/TrieDB.h:1130-1149 | splitting a path in two keeps all entries and references |
| `TrieDB.GenericTrieDB.BranchOff` | libdevcore/TrieDB.h:1197-1229 | turning a pair into a branch keeps all entries and references |
| `TrieDB.GenericTrieDB.StreamNode` | libdevcore/TrieDB.h:1121-1128 | a node shorter than 32 bytes is inlined, any other is stored and counted once more |
| `TrieDB.GenericTrieDB.KillNode` | libdevcore/TrieDB.h:296-298 | gives up one reference, only for nodes of 32 bytes and more |
| `TrieDB.GenericTrieDB.Remove` | libdevcore/TrieDB.h:927-941 | throws, reads past the key or never returns exactly when contents and store make it so, and so with writing what comes of a value that was taken for a hash, whose root is then that of the node written; otherwise the key is gone, every other key untouched, and nothing changes when the key was not there |
| `TrieDB.GenericTrieDB.DeleteAt` | libdevcore/TrieDB.h:954-1059 | not found, removed, or gone wrong: it throws, or writes what a value taken for a hash led to, exactly as foreseen; unchanged when not found, and when removed a canonical node without the key whose references are traded for the old ones |
| `TrieDB.GenericTrieDB.DeletePast` | libdevcore/TrieDB.h:981-993 | past a leaf its value is followed: not found, and nothing changed, where nothing is found in the end; otherwise it throws or writes as foreseen |
| `TrieDB.GenericTrieDB.StrayAt` | libdevcore/TrieDB.h:954-1059 | on any node at all, with nothing known of it or its children, removal ends as it does on values: absent with nothing changed, stopped, or with the same node written |
| `TrieDB.GenericTrieDB.StrayFollow` | libdevcore/TrieDB.h:1061-1064 | a value that names no stored node stops it, one that names a node already followed at this key never returns, and any other leads on into its node |
| `TrieDB.GenericTrieDB.Refit` | libdevcore/TrieDB.h:986-993 | a pair over what was written in its slot: grafted onto a pair, or on a stored pair if the slot is empty and the zero hash names one |
| `TrieDB.GenericTrieDB.Settle` | libdevcore/TrieDB.h:1042-1056 | a branch of any shape, put right if one slot is left |
| `TrieDB.GenericTrieDB.DeleteBelowExt` | libdevcore/TrieDB.h:981-993 | removal below an extension, joined again to a pair that moved up |
| `TrieDB.GenericTrieDB.DeleteValue` | libdevcore/TrieDB.h:1002-1025 | removal of the value of a branch, put right if one slot is left |
| `TrieDB.GenericTrieDB.DeleteBelowBranch` | libdevcore/TrieDB.h:1026-1056 | removal from a slot of a branch, put right if one slot is left, that of the value included |
| `TrieDB.GenericTrieDB.DeleteAtAux` | libdevcore/TrieDB.h:1061-1076 | removal in a slot: the new slot is canonical and its references replace the old ones |
| `TrieDB.GenericTrieDB.Rejig` | libdevcore/TrieDB.h:1042-1055 | a branch left with one slot becomes a pair with the same entries; where that slot is the value, it throws exactly if that is longer than 32 bytes, and takes it for a hash exactly if it names a pair in the store |
| `TrieDB.GenericTrieDB.RejigValue` | libdevcore/TrieDB.h:1048-1055 | a value left alone that names a stored pair is replaced by that pair, which loses one reference; any other of at most 32 bytes becomes a leaf |
| `TrieDB.GenericTrieDB.Graft` | libdevcore/TrieDB.h:1151-1176 | joining two pairs keeps entries and references |
| `TrieDB.GenericTrieDB.IsTwoItemNode` | libdevcore/TrieDB.h:943-947 | tells exactly the slots that hold a pair |
| `TrieDB.GenericTrieDB.AtKey` | libdevcore/TrieDB.h:792-795 | the value stored under the key, empty if none |
| `TrieDB.GenericTrieDB.AtAux` | libdevcore/TrieDB.h:797-827 | the lookup through the store agrees with the lookup on nodes as values |
| `TrieDB.GenericTrieDB.Commit` | libdevcore/OverlayDB.cpp:40-89 | the whole current trie is on disk afterwards, and nothing leaves the disk |
| `TrieDB.GenericTrieDB.SetRoot` | libdevcore/TrieDB.h:77-89 | whatever else the store holds, opens a trie that is on disk as a whole as it was; fails exactly when its root is not found |
| `TrieDB.OthersFound` | libdevcore/OverlayDB.cpp:113-119 | every node referred to by another trie of the store is still found, with at least its own count |
| `TrieDB.UniqueInUse` | libdevcore/TrieCommon.cpp:116-128 | the only slot in use besides the excepted one, or 255 when there is none or more than one |
| `TrieSteps.CleveEntries` | libdevcore/TrieDB.h:1130-1149 | an extension over the tail of a pair has the entries of the pair |
| `TrieSteps.BranchedEntries` | libdevcore/TrieDB.h:1197-1229 | the branch made of a pair has its entries |
| `TrieSteps.ClevedShape` | libdevcore/TrieDB.h:872-877 | what `cleve` leaves is one that merging can go on with at the same key |
| `TrieRemoval.MergeSlotEntries` | libdevcore/TrieDB.h:1178-1195 | a branch with one child slot has the entries of an extension to that child |
| `TrieRemoval.GraftedShape` | libdevcore/TrieDB.h:1151-1176 | a grafted pair is canonical and has the entries and references of the two |
| `TrieRemoval.NeverFaulty` | libdevcore/TrieDB.h:325-331 | removal never goes wrong in a trie whose keys have one length |
| `TrieBlocked.FaultyIsBlocked` | libdevcore/TrieDB.h:967-1059 | removal goes wrong exactly when contents and store say so. It stops: a stored key with nothing else below it is a proper prefix of the key, and following its value throws, reads past the key or never returns; or the key is not stored and stored keys part right after it; or the key is the only one below a value longer than 32 bytes. It writes what a value led to: following the value of such a prefix finds something to remove, or the value left alone names a stored pair. A value followed in vain does no harm |
| `TrieBlocked.RiskyIff` | libdevcore/TrieDB.h:967-1059 | removal can go wrong with some store exactly when a stored key with nothing else below it is a proper prefix, or stored keys part right at the key, or the key is the only one below a value that is too long or the hash of a pair |
| `TrieAstray.AstrayDisplaces` | libdevcore/TrieDB.h:954-1059 | a removal that goes astray leaves every entry alone except at and below one stored key, named by the contents: what is there gives way to what is left of the node that its value led to |
| `TrieAstray.GraftWrites` | libdevcore/TrieDB.h:1042-1055 | where the key is stored, what is written is always a node of the trie's kind |
| `TrieFaults.PastALeaf` | libdevcore/TrieDB.h:981-986 | with `a` stored, removing `ab` throws |
| `TrieFaults.PastTheKey` | libdevcore/TrieDB.h:1030-1034 | with two keys of different first nibbles stored, removing the empty key reads past it |
| `TrieFaults.LongValueLeft` | libdevcore/TrieDB.h:1042-1055 | with 33 bytes under `a`, removing `ab` throws |
| `TrieFaults.FollowedAsAHash` | libdevcore/TrieDB.h:981-986 | with the digest of the root of a trie of `b` alone under `a`, removing `ab`, which is not there, loses the value of `a` |
| `TrieFaults.GraftedAsAHash` | libdevcore/TrieDB.h:1042-1055 | with that digest under `a` and `ab` stored, removing `ab` loses the value of `a`, and `ab` has the value of the other trie's `b` |
| `TrieFaults.FollowedInVain` | libdevcore/TrieDB.h:981-987 | with the digest of the root of a trie of `a` alone under `a`, removing `ab` changes nothing, as it should |
| `TrieCheck.Check` | libdevcore/TrieDB.h:215-226 | `check` returns true of every trie in order; asked for left-overs, exactly if all that the store counts belongs to the trie, as it does when there is no other |
| `TrieCheck.DescendList` | libdevcore/TrieDB.h:178-198 | the scan finds no fault in a canonical node and takes exactly its references off the set of keys |
| `TrieCheck.CanonicalChecksOut` | libdevcore/TrieDB.h:178-198 | a canonical node passes the shape check of the scan |
| `TrieHash.Hash256` | libdevcore/TrieHash.cpp:107-110 | for sorted entries, the root of a canonical node that holds exactly them |
| `TrieHash.Hash256Rlp` | libdevcore/TrieHash.cpp:27-79 | the node built for a run of entries is canonical and holds exactly their suffixes |
| `TrieHash.SharedPrefix` | libdevcore/TrieHash.cpp:40-51 | the longest prefix common to the run, beyond the one already taken |
| `TrieHash.Hash256Branch` | libdevcore/TrieHash.cpp:58-77 | the branch built slot by slot holds exactly the entries of each slot and the value |
| `TrieHash.RunEnd` | libdevcore/TrieHash.cpp:64-70 | the entries of one slot are the run up to the returned index |
| `TrieHash.Hash256Aux` | libdevcore/TrieHash.cpp:81-92 | the slot for a run is the inlined or hashed node of that run |
| `TrieOrdered.OrderedTrieRoot` | libdevcore/TrieHash.cpp:112-128 | each value is stored under its index and nothing else is |
| `TrieOrdered.OrderedRootInjective` | libdevcore/TrieHash.cpp:112-128 | lists with the same ordered root are equal |
| `TrieOrdered.IndexKeyIs` | libdevcore/TrieHash.cpp:112-119 | the key of an index decodes as RLP to that number, without leading zeros |
| `TrieOrdered.IndexKeyInjective` | libdevcore/TrieHash.cpp:112-119 | no two indices share a key |
| `TrieLayout.LayoutSize` | libdevcore/TrieDB.h:1121-1128 | the size by which nodes are inlined is that of the node's RLP, for any 32-byte digest |
| `TrieLayout.BytesInjective` | libdevcore/TrieDB.h:286-298 | canonical nodes with the same RLP are equal if no two of the hashes that occur in them have the same digest: hashing nodes as values loses nothing |
| `TrieLayout.SomeDigest` | libdevcore/TrieDB.h:286-298 | there are such digests, for any 256 hashes |
| `TrieLayout.LayoutItems` | libdevcore/TrieDB.h:1078-1229 | the bytes of a node decode to a list of path in hex-prefix form and value or child, or of sixteen children and a value, a child being its own list or its digest |
| `NodeStore.OverlayDB.Insert` | libdevcore/MemoryDB.cpp:86-102 | one more reference to the node, all other entries as they were |
| `NodeStore.OverlayDB.Kill` | libdevcore/MemoryDB.cpp:104-131 | one reference fewer, or nothing at all for a node not held in memory |
| `NodeStore.OverlayDB.Lookup` | libdevcore/OverlayDB.cpp:113-119 | every live or committed node is found, and only as the node that was hashed |
| `NodeStore.OverlayDB.Purge` | libdevcore/MemoryDB.cpp:160-178 | drops exactly the dead entries |
| `NodeStore.OverlayDB.Keys` | libdevcore/MemoryDB.cpp:180-190 | exactly the hashes with a live count |
| `NodeStore.OverlayDB.Commit` | libdevcore/OverlayDB.cpp:40-89 | every live node is on disk, nothing that was there is lost, and memory is empty |
| `NodeStore.OverlayDB.Rollback` | libdevcore/OverlayDB.cpp:105-111 | memory is empty and the disk untouched |
| `NodeStore.InsertKeeps` | libdevcore/MemoryDB.cpp:86-102 | the count of each node that is not on disk stays its number of live insertions |
| `NodeStore.KillKeeps` | libdevcore/OverlayDB.cpp:131-149 | so it does after a kill |
| `TrieIterator.Visit` | libdevcore/TrieDB.h:502-507 | iteration from the beginning visits every entry exactly once, in ascending key order |
| `TrieIterator.VisitFrom` | libdevcore/TrieDB.h:509-514 | iteration from `lower_bound(k)` visits exactly the entries not below k, in order |
| `TrieIterator.Iterator.constructor` | libdevcore/TrieDB.h:502-507 | stands at the first entry |
| `TrieIterator.Iterator.LowerBound` | libdevcore/TrieDB.h:509-514 | stands at the least entry not below the key |
| `TrieIterator.Iterator.Next` | libdevcore/TrieDB.h:665-762 | moves to the next entry; terminates |
| `TrieIterator.Iterator.NextFor` | libdevcore/TrieDB.h:527-663 | from the nodes still to search, stands at the first entry not below the key |
| `TrieIterator.Round` | libdevcore/TrieDB.h:667-761 | one round keeps the entries still to come, or stands at the first of them; the work left decreases |
| `TrieIterator.RoundFor` | libdevcore/TrieDB.h:530-662 | so does a round that is looking for a key |
| `TrieIterator.Walk` | libdevcore/TrieDB.h:112-121 | repeated `next` lists exactly the entries still to come |
| `TrieIterator.IsEarlierThan` | libdevcore/TrieCommon.h:74-85 | the loop decides the key order |
| `TrieIterator.SeekExact` | libdevcore/TrieDB.h:509-514 | the entries sought are exactly those not below the key |
| `TrieEntries.EntriesSorted` | libdevcore/TrieDB.h:131-145 | the entries in order of child slots are sorted by key |
| `TrieEntries.EntriesExact` | libdevcore/TrieDB.h:797-827 | the entries of a node are exactly what lookup finds |
| `TrieSeek.SeekSplits` | libdevcore/TrieDB.h:527-663 | the entries from a key on are a suffix, all not below it, and those before are below it |
| `TrieSeek.SeekBranch` | libdevcore/TrieDB.h:607-661 | seeking in a branch is seeking in the slot of the key's next nibble, then everything after it |
| `HexPrefix.EncodeVector` | libdevcore/TrieCommon.cpp:46-61 | the encoder over a vector of nibbles gives the hex-prefix encoding of the part asked for |
| `HexPrefix.EncodeSlice` | libdevcore/TrieCommon.cpp:63-82 | the encoder over a byte slice gives the same encoding of its nibbles |
| `HexPrefix.EncodeTwo` | libdevcore/TrieCommon.cpp:84-114 | the encoder over two slices encodes their concatenation, for every parity of the two |
| `HexPrefix.Recovered` | libdevcore/TrieCommon.h:97-112 | `keyOf` and `isLeaf` give back the nibbles and the flag |
| `HexPrefix.EncodedNibbles` | libdevcore/TrieCommon.cpp:42-61 | the nibbles of the encoding are 2 for a leaf plus 1 for odd length, a zero if the length is even, and the nibbles given |
| `HexPrefix.FlagsRead` | libdevcore/TrieCommon.h:97-112 | of any string, `isLeaf` is bit 0x20 of the first byte, and `keyOf` skips one nibble if bit 0x10 is set and two if not |
| `HexPrefix.NibbleIs` | libdevcore/TrieCommon.h:31-34 | `nibble` is indexing of the nibbles of a byte string |
| `Bytes.AsNibblesAt` | libdevcore/TrieCommon.h:31-34 | nibble i is the high half of byte i/2 for even i and the low half for odd i |
| `Bytes.Shared` | libdevcore/TrieCommon.h:38-47 | the length of the longest common prefix |
| `Bytes.LessIff` | libdevcore/TrieCommon.h:74-85 | one key is below another exactly if it is a proper prefix of it, or smaller in the first nibble in which they differ |
| `RlpStream.RLPStream.AppendItem` | libdevcore/RLP.cpp:230-349 | streaming a nested value, lists announced before their items, adds exactly the value's recursive encoding as one item, whatever lists are open around it |
| `RlpStream.RLPStream.NoteAppended` | libdevcore/RLP.cpp:237-274 | closes every list that is now complete, with headers patched in, and fails exactly when there were too many items |
| `RlpStream.RLPStream.CloseTop` | libdevcore/RLP.cpp:251-271 | the payload moves up and its header stands in front of it |
| `RlpStream.RLPStream.Append` | libdevcore/RLP.cpp:296-315 | a byte string is added as its encoding |
| `RlpStream.RLPStream.AppendInt` | libdevcore/RLP.cpp:317-340 | an integer is added as its minimal big-endian bytes |
| `RlpStream.RLPStream.AppendList` | libdevcore/RLP.cpp:276-284 | announces a list; an empty one is an item at once |
| `RlpStream.RLPStream.AppendRaw` | libdevcore/RLP.cpp:230-235 | bytes are added as the given number of items; if those are too many the bytes are there and nothing else has changed |
| `RlpStream.RLPStream.Out` | libdevcore/RLP.h:432-432 | throws exactly while a list is open |
| `RlpStream.ListCloses` | libdevcore/RLP.cpp:237-274 | the last item of a list leaves the list's encoding in the output |
| `RlpStream.Delivered` | libdevcore/RLP.cpp:237-284 | for a stream that is to be one value, the items owed by the open lists are those promised and not delivered, and the stack is empty exactly when none are |
| `RlpStream.StreamTokens` | libdevcore/RLP.h:432-432 | on the stream itself, `out()` throws exactly while something promised is not delivered, and then gives the bytes |
| `RlpStream.NeverTooMany` | libdevcore/RLP.cpp:237-245 | one item more is never too many |
| `RlpStream.WriteBack` | libdevcore/RLP.h:448-454 | the bytes written backwards are the big-endian form |
| `RlpStream.BytesRequired` | libdevcore/CommonData.h:211-219 | the number of bytes of the big-endian form |
| `Rlp.EncodedData` | libdevcore/RLP.cpp:296-315 | one byte below 128 stands for itself, up to 55 bytes follow 128 plus their number, and more follow 183 plus the length of the length, and the length |
| `Rlp.EncodedList` | libdevcore/RLP.cpp:276-284 | likewise for lists, on top of 192 and 247 |
| `Rlp.BigEndianAt` | libdevcore/CommonData.h:116-144 | byte i of the big-endian form is the number divided by that power of 256, modulo 256 |
| `Rlp.FromBigEndianFirst` | libdevcore/CommonData.h:116-144 | the first byte read counts most |
| `Rlp.BigEndianOf` | libdevcore/CommonData.h:116-144 | a number read from bytes without leading zeros is written as those bytes |
| `Rlp.FromBigEndianOf` | libdevcore/CommonData.h:116-144 | a number written is read back |
| `RlpCanonical.RoundTrip` | libdevcore/RLP.cpp:108-228 | decoding an encoded value gives the value |
| `RlpCanonical.Canonical` | libdevcore/RLP.cpp:29-46 | what strict decoding accepts is the encoding of what it returns, so no value has two |
| `RlpCanonical.HeaderIs` | libdevcore/RLP.cpp:159-215 | a header that is read is the one made for that length |
| `RlpReader.RLP.Index` | libdevcore/RLP.cpp:76-91 | on any bytes and after any other lookups the cached lookup gives what plain indexing does, item, null or exception, exactly unless a scan has thrown and the item before the fault is asked for again |
| `RlpReader.AfterAThrow` | libdevcore/RLP.cpp:83-90 | a list whose first item can no longer be had once its second, which is cut short, was asked for |
| `RlpReader.ReachNth` | libdevcore/RLP.cpp:76-91 | scanning from where the last item ended finds what indexing from the front does |
| `RlpReader.Probe` | libdevcore/RLP.h:354-357 | on a well-formed list any sequence of lookups, in any order, gives the item at each index, or null past the end |
| `RlpReader.CountItems` | libdevcore/RLP.cpp:217-228 | counts the items, or throws what splitting throws |
| `RlpReader.ReadLength` | libdevcore/RLP.cpp:159-215 | the loop over length bytes reads the big-endian number |
| `RlpReader.EncodeItem` | libdevcore/RLP.h:466-466 | a value streamed into an empty stream gives its encoding, which decodes again |
| `RlpFields.FieldReads` | libdevcore/RLP.cpp:76-91 | a written list is read field by field as written, whatever follows it |
| `RlpFields.IntReads` | libdevcore/RLP.h:274-295 | a written integer is read back exactly by a reader wide enough, and refused by any other |
| `RlpFields.IntPiece` | libdevcore/RLP.h:274-295 | an item read as an integer is that integer's one encoding |
| `RlpFields.NthSplit` | libdevcore/RLP.cpp:76-91 | indexing finds the items that splitting finds |
| `RlpFields.NothingThere` | libdevcore/RLP.h:274-295 | nothing has a null field, what is no list has no items, and a list is no integer |
| `RlpxRuns.Run` | libp2p/Session.cpp:208-258 | after any run of events on two connected sessions, with threads interleaving between guarded sections and packets under 2^24 bytes: what arrived is a prefix of what was sent, each way; nothing ever failed to authenticate or to parse; a reader left only for a packet that is invalid, and stopped reading only at one of type 0; while the one is open and the other reads, the reader is never short of bytes, and once all is written and read all has arrived |
| `RlpxRuns.Connect` | libp2p/RLPXFrameCoder.cpp:79-92 | coders set up from the two sides of one handshake, and sessions over them, are connected, or both set-ups fail |
| `RlpxRuns.Act` | libp2p/Session.cpp:208-258 | one event keeps two sessions connected, and sends what it was asked to |
| `RlpxRuns.ActReadHeader` | libp2p/Session.cpp:318-357 | the header read next authenticates and gives the length of the next packet |
| `RlpxRuns.ActReadFrame` | libp2p/Session.cpp:359-390 | the frame read next authenticates and is the next packet: handed on exactly if it is valid and its type is not 0; the reader leaves if it is invalid, and stalls at type 0 |
| `RlpxRuns.LinkDelivers` | libp2p/Session.cpp:208-258 | sessions in step have delivered a prefix, and everything once nothing is under way, unless the reader has left or stalled |
| `RlpxRuns.StillInStep` | libp2p/Session.cpp:229-258 | framing at most one more packet keeps the reader in step |
| `RlpxSession.Session.Push` | libp2p/Session.cpp:208-223 | the guarded section of `send`: throws exactly when `checkPacket` does, whose verdict it does not heed; otherwise queues the packet of an open session, and decides to write exactly if nothing else was queued |
| `RlpxSession.Session.Send` | libp2p/Session.cpp:208-227 | run without interruption, queues the packet and frames it at once if nothing else was queued |
| `RlpxSession.Session.Write` | libp2p/Session.cpp:229-258 | the packet at the front, and no other, is framed from where the outgoing flow stands, and its bytes go out if the socket is open |
| `RlpxSession.Session.Written` | libp2p/Session.cpp:238-257 | the written frame leaves the queue, and a write is to start exactly if something is left; at most one write is outstanding or about to start |
| `RlpxSession.Session.ReadHeader` | libp2p/Session.cpp:318-357 | waits for a frame of the announced length exactly when header and MAC are good |
| `RlpxSession.Session.ReadFrame` | libp2p/Session.cpp:359-390 | hands on a packet exactly when its MAC, form and type are good, drops the connection for a bad MAC or form, and stalls when `checkPacket` or reading the type throws |
| `RlpxSession.TypeRead` | libp2p/Session.cpp:382-382 | the type of a valid packet is its first byte, except that 0 is refused as no integer |
| `RlpxSession.HelloUnread` | libp2p/Session.cpp:376-389 | a hello packet with an empty list passes `checkPacket`, and reading its type throws |
| `RlpxSession.Session.Disconnect` | libp2p/Session.cpp:299-310 | the goodbye packet is queued before the socket closes |
| `RlpxSession.LengthKept` | libp2p/RLPXFrameCoder.cpp:37-46 | the reader is told the packet's length exactly when that is below 2^24 |
| `RlpxSession.LengthLost` | libp2p/RLPXFrameCoder.cpp:37-46 | a packet of 2^24 bytes announces a length of 0 |
| `RlpxSession.HeaderOpens` | libp2p/RLPXFrameCoder.cpp:213-223 | from the same flow a sealed header authenticates and deciphers to itself |
| `RlpxSession.PayloadOpens` | libp2p/RLPXFrameCoder.cpp:225-234 | from the same flow a sealed payload authenticates and deciphers to itself and its padding |
| `RlpxSession.OneMore` | libp2p/RLPXFrameCoder.cpp:181-211 | the bytes of a run of packets and one more are those of the run followed by the frame sealed from where the run ends |
| `RlpxSession.CheckedAs` | libp2p/Session.cpp:199-206 | what `send` lets through is only ever refused for its type or for having no body |
| `RlpxSession.CheckedIff` | libp2p/Session.cpp:199-206 | a packet passes exactly if its type is below 128 and one item of full length follows, and the check throws exactly if the type is and the length read is not that, or none |
| `RlpxSession.GoodbyeIs` | libp2p/Session.cpp:304-308 | the goodbye packet is type 1 with a list of reason 2 |
| `RlpxCoder.FrameCoder.Setup` | libp2p/RLPXFrameCoder.cpp:91-152 | fails exactly when the key agreement does; otherwise, with e the secret agreed, the frame key is keccak(e + keccak(e + keccak(recipient's nonce + initiator's nonce))), the MAC key keccak(e + frame key), and the MACs start with the MAC key, combined with the nonce of the receiving side, and the cipher text sent |
| `RlpxCoder.SidesAgree` | libp2p/RLPXFrameCoder.cpp:91-152 | the two sides of a handshake derive the same keys or fail together, and what one sends starts where the other receives |
| `RlpxCoder.FrameCoder.WriteFrame` | libp2p/RLPXFrameCoder.cpp:181-202 | the buffer holds the sealed header and payload, and the outgoing flow has moved past them |
| `RlpxCoder.FrameCoder.WriteSingleFramePacket` | libp2p/RLPXFrameCoder.cpp:204-211 | the same for a packet under the legacy header |
| `RlpxCoder.FrameCoder.AuthAndDecryptHeader` | libp2p/RLPXFrameCoder.cpp:213-223 | deciphers in place exactly when the MAC is the expected one; the MAC state moves on either way |
| `RlpxCoder.FrameCoder.AuthAndDecryptFrame` | libp2p/RLPXFrameCoder.cpp:225-234 | likewise for a padded payload |
| `RlpxCoder.FrameCoder.UpdateMAC` | libp2p/RLPXFrameCoder.cpp:274-295 | the MAC is fed sixteen bytes that, with the seed or else the digest taken off, are the digest so far enciphered under the MAC key |
| `Rlpx.OnTheWire` | libp2p/RLPXFrameCoder.cpp:181-202 | a frame is sixteen bytes of header filled up with zeros and enciphered, their digest after an update with them; the payload filled up to a multiple of sixteen and enciphered where the header ended, and its digest after it was fed and an update without a seed |
| `Rlpx.MixedIs` | libp2p/RLPXFrameCoder.cpp:274-295 | what the MAC is fed in an update, with the seed taken off, is the enciphered digest |
| `Rlpx.AfterFrameIs` | libp2p/RLPXFrameCoder.cpp:262-272 | after a frame the MAC was fed the cipher text, and then the update |
| `Rlpx.CryptIs` | libp2p/RLPXFrameCoder.cpp:181-202 | a bit is changed exactly where that of the keystream at its position is set |
| `Bits.XorIs` | libp2p/RLPXFrameCoder.cpp:286-289 | a bit of the exclusive or is set exactly when the two differ in it |
| `Rlpx.CryptTwice` | libp2p/RLPXFrameCoder.cpp:213-234 | deciphering is enciphering at the same position |
| `Rlpx.InfoReads` | libp2p/RLPXFrameCoder.cpp:37-46 | every header of one, two or three fields is read as written, whatever follows it, with the length modulo 2^24 |
| `Rlpx.InfoFields` | libp2p/RLPXFrameCoder.cpp:37-46 | what is read of any header comes from the three bytes of length and from the fields 0, 1 and 2 of the list behind them |
| `Rlpx.LengthBytesIs` | libp2p/RLPXFrameCoder.cpp:204-211 | the length is written in three bytes, modulo 2^24, the most significant first |
| `Rlpx.LegacyHeader` | libp2p/RLPXFrameCoder.cpp:204-211 | the legacy header is that of a continuation frame of protocol 0 and sequence 0 |
| `VapashHash.FullAndLight` | libvapash/internal.c:156-294 | if the data set was filled from a cache, evaluation with it and with the cache alone give the same mix hash and result, for every header and nonce |
| `VapashHash.Hash` | libvapash/internal.c:185-294 | with either source, the evaluation of the reference definition; fails exactly on a size that is not a multiple of 32; every index is in range |
| `VapashHash.EvaluationSteps` | libvapash/internal.c:185-294 | an evaluation likewise: the hash of header and nonce twice over, 64 accesses of a page each, four words compressed to one, and the hash of it all |
| `VapashHash.PageIndexIs` | libvapash/internal.c:217-217 | the page is the choice word modulo the number of pages |
| `VapashHash.NonceBytesIs` | libvapash/internal.c:200-205 | the nonce is hashed in little-endian order |
| `VapashHash.WordsAt` | libvapash/internal.h:25-36 | word i of memory is bytes 4i to 4i+3, the least significant first |
| `VapashHash.CalculateDagItem` | libvapash/internal.c:93-154 | the item of the reference definition, computed in place |
| `VapashHash.DagSteps` | libvapash/internal.c:93-154 | an item of the data set, with keccak, exclusive or and arithmetic alone: a node of the cache with the index in its first word, hashed; 256 rounds, in each of which every word is multiplied by 0x01000193 and combined with that of the parent chosen; hashed again |
| `VapashHash.FnvIs` | libvapash/fnv.h:32-35 | with the second operand taken off, the first times 0x01000193 modulo 2^32 |
| `Bits.Xor32Is` | libvapash/fnv.h:32-35 | a bit of the exclusive or of words is set exactly when the two differ in it |
| `VapashHash.ComputeFullData` | libvapash/internal.c:156-183 | every node is the item of its index; fails exactly on a size that is not whole pages |
| `VapashHash.ComputeCacheNodes` | libvapash/internal.c:59-91 | a hash chain followed by three rounds, each node of a round made of nodes of this round and the last as the round prescribes; fails exactly on a size that is not whole nodes |
| `VapashHash.CacheUnique` | libvapash/internal.c:59-91 | the seed determines the cache |
| `VapashHash.CacheNode` | libvapash/internal.c:76-86 | a node of a round is the hash of a node that, with the one picked taken off, is the node before |
| `VapashHash.CacheChain` | libvapash/internal.c:70-74 | before the rounds every node is the hash of the one before, and the first that of the seed |
| `VapashHash.PickIs` | libvapash/internal.c:78-78 | the node picked is the first word modulo the number of nodes |
| `VapashHash.Compress` | libvapash/internal.c:276-283 | compressing in place gives what compressing from separate words would |
| `VapashHash.BytesOfWords` | libvapash/internal.h:25-36 | reading words from memory and writing them back changes nothing |
| `VapashHash.CheckDifficulty` | libvapash/internal.h:54-67 | the byte loop is comparison of big-endian numbers |
| `VapashHash.QuickHash` | libvapash/internal.c:296-309 | given the mix hash of an evaluation, with whatever cache and size, its result |
| `VapashHash.QuickVerifySeal` | libvapashseal/Vapash.cpp:244-259 | within the epoch table no seal that the full evaluation accepts is refused, whatever the data set |
| `VapashHash.VerifySeal` | libvapashseal/Vapash.cpp:261-290 | the quick check first makes no difference within the epoch table; beyond it every seal is refused |
| `VapashRules.BlockHeader.PopulateFromParent` | libvapashseal/Vapash.cpp:237-242 | the child of a valid parent, whatever gas it uses within its limit, passes `verify` exactly when there is room for the gas limit to move; its limit is the smaller of 3141562 and g + g/d - 1 below that, and otherwise the larger of 3141562 and g - g/d + 1 + used*6/5/d |
| `VapashRules.ChildGasLimitIff` | libvapashseal/Vapash.cpp:177-186 | for every limit of a parent, step and usage, the gas limit chosen for the child is one that `verify` accepts exactly when the step is at least one, the usage does not raise the limit by a whole step, and floor and ceiling leave room |
| `VapashRules.ChildGasLimitIs` | libvapashseal/Vapash.cpp:177-186 | below the floor the limit is the smaller of floor and g + step - 1, and from there on the larger of floor and g - step + 1 + usage |
| `VapashRules.MovesBy` | libvapashseal/Vapash.cpp:177-186 | for a valid parent the step is g/d and the usage used*6/5/d |
| `VapashRules.AcceptedIff` | libvapashseal/Vapash.cpp:84-129 | what `verify` accepts after a valid parent, condition by condition |
| `VapashRules.EnoughRoom` | libvapashseal/Vapash.cpp:177-186 | a limit of three divisors, a floor target in range and a step below the maximum are enough |
| `VapashRules.FullParentStuck` | libvapashseal/Vapash.cpp:116-129 | a full parent of less than three divisors whose child its own rules refuse |
| `VapashRules.NeverRisesIff` | libvapashseal/Vapash.cpp:193-235 | for a fixed parent the difficulty never rises with a later timestamp, in every era, exactly unless a Frontier rise wraps around and no clamping hides it |
| `VapashRules.RiseCanWrap` | libvapashseal/Vapash.cpp:204-206 | a parent for which it does |
| `VapashRules.LaterIsNoHarder` | libvapashseal/Vapash.cpp:207-216 | from Homestead on a later block is never harder |
| `VapashRules.AsProposed` | libvapashseal/Vapash.cpp:193-235 | a block that follows its parent gets the difficulty of EIP-2, EIP-100 and EIP-649, or the minimum if that is more, or 2^256 - 1 if that is less, if nothing wraps around |
| `Transactions.RoundTripIff` | libvapcore/TransactionBase.cpp:47-102 | serialised and parsed, a signed transaction is itself again exactly when its signature is zero without a recovery id, or has recovery id 0 or 1 and chain id -4 or a positive one that fits, and is valid if that is asked for |
| `Transactions.ValidIff` | libdevcrypto/Common.cpp:57-66 | a signature is valid if its recovery id is 0 or 1 and both numbers are positive and below the order of the curve |
| `Transactions.ChainZeroRefused` | libvapcore/TransactionBase.cpp:67-89 | a validly signed message call on chain id 0 is refused when read back; on chain id -4 it is restored |
| `Transactions.ParseReads` | libvapcore/TransactionBase.cpp:152-181 | parsing what was serialised gives every field as written, with v taken apart |
| `Transactions.UnpackIff` | libvapcore/TransactionBase.cpp:67-89 | chain id and recovery id are recovered from v exactly in those cases |
| `TransactionBytes.Reserialised` | libvapcore/TransactionBase.cpp:47-102 | what is parsed is restorable and serialises to the bytes it was parsed from, exactly unless the receiver was an empty list |
| `TransactionBytes.ListAsReceiver` | libvapcore/TransactionBase.cpp:56-57 | ten bytes with an empty list as receiver are read, and serialise to others |
| `TransactionBytes.SigningInjective` | libvapcore/TransactionBase.cpp:212-224 | two transactions with the same bytes to sign agree in every field, and in the chain id unless neither has one |
| `TransactionBytes.SignedWritten` | libvapcore/TransactionBase.cpp:152-181 | field by field, a signed transaction is nonce, gas price, gas, receiver, value, data, v, r and s, with v the chain id, or recovery id, twice the chain id and 35 |
| `TransactionBytes.SigningWritten` | libvapcore/TransactionBase.cpp:212-220 | what is signed is the first six, and the chain id and two zeros where it is positive |
| `TransactionBytes.UnsignedWritten` | libvapcore/TransactionBase.cpp:152-181 | without a signature it is the six, and for the hash of EIP-155 three more |
| `TransactionBytes.ParsedFields` | libvapcore/TransactionBase.cpp:47-102 | what is read is read from these fields, in this order, with chain id and recovery id from v |
| `TransactionBytes.StreamRLP` | libvapcore/TransactionBase.cpp:152-181 | a null transaction writes nothing; any other is added to the stream as one list, but an unsigned one that is to be written with its signature throws, and leaves a list open with six of its nine items |
| `RangeMask.Mask.UnionWith` | libdevcore/RangeMask.h:233-291 | adds exactly the elements of a range inside the ground range, and keeps the intervals sorted, non-empty, disjoint, non-touching and inside; terminates |
| `RangeMask.Mask.Absorb` | libdevcore/RangeMask.h:241-289 | one round of the loop adds a first part of the range and moves on |
| `RangeMask.Mask.UnionWithMask` | libdevcore/RangeMask.h:102-109 | the union, over the hull of the two grounds |
| `RangeMask.Mask.Inverted` | libdevcore/RangeMask.h:78-91 | the exact complement in the ground range |
| `RangeMask.ComplementInverse` | libdevcore/RangeMask.h:95-95 | inverting twice gives the same intervals |
| `RangeMask.Mask.Subtract` | libdevcore/RangeMask.h:98-98 | what is left is outside the subtrahend, and inside the mask or on ground that the subtrahend added; through one object the mask is unchanged |
| `RangeMask.DifferenceIff` | libdevcore/RangeMask.h:98-98 | that is set difference exactly when the subtrahend covers the ground it adds |
| `RangeMask.DifferenceGrows` | libdevcore/RangeMask.h:98-98 | less a mask with more ground, a mask of 0 has 3 as an element |
| `RangeMask.DifferenceWithItself` | libdevcore/RangeMask.h:98-98 | less itself, a mask of 0 is still that |
| `RangeMask.Mask.Size` | libdevcore/RangeMask.h:195-201 | the number of elements |
| `RangeMask.Mask.Next` | libdevcore/RangeMask.h:183-192 | the least element from the successor of t modulo 2^32 on, or the end of the ground range |
| `RangeMask.Mask.NextAbove` | libdevcore/RangeMask.h:183-192 | that is the least element above t exactly unless the successor wraps around on a mask that is not empty |
| `RangeMask.NextWraps` | libdevcore/RangeMask.h:183-192 | from 2^32 - 1 on the mask of 0, `next` goes back to 0 |
| `RangeMask.Mask.Enumerate` | libdevcore/RangeMask.h:157-180 | iteration lists the elements in ascending order, each once |
| `RangeMask.Mask.Lowest` | libdevcore/RangeMask.h:66-72 | the n smallest elements, exactly unless the end of the last interval taken wraps around |
| `RangeMask.LowestWraps` | libdevcore/RangeMask.h:66-72 | asked for 2^32 - 1 of the elements 5, 6 and 7, `lowest` does not give them |
| `RangeMask.Mask.Contains` | libdevcore/RangeMask.h:123-129 | membership |
| `RangeMask.Mask.FirstOut` | libdevcore/RangeMask.h:203-208 | the least number of the ground range that is not an element |
| `RangeMask.Mask.Full` | libdevcore/RangeMask.h:136-139 | every number of the ground range is an element |
| `RangeMask.OrderedUnique` | libdevcore/RangeMask.h:221-221 | the intervals are determined by the elements |

## Left out

- TrieDB.GenericTrieDB.Insert: takes a value that is not empty, because `at` uses the empty string for a key that is absent; what inserting an empty value leaves behind is not modelled.
- TrieHash.Hash256: takes entries whose values are not empty, for the same reason.
- TrieRuns.Run: ends before a removal that can go wrong; `TrieBlocked.FaultyIsBlocked` says which do, and with keys of one length, as `SpecificTrieDB` uses them, none does.
- TrieDB.GenericTrieDB.Remove: what a removal that throws or goes astray leaves in the store is not described, beyond the pair put in place and the reference it loses. Where a value followed leaves a branch, which the source then writes below a leaf's path, or leads to a child that is not in the store, the root is not given, for there is no `Node` for it. Where references are enforced, as the source's tests do, a removal that goes astray writes a node of the kind given, but the node itself is not stated.
- RlpStream.RLPStream.AppendItem: asks for room for nine bytes of header per open list and item, which is a little more than a header takes; the size limit of 2^64 - 257 bytes is the decoder's own.
- RlpxSession.Session.Write: the packet and the buffer it is framed into are one vector in the source, which swaps in a new buffer before writing; here they are two values.
- RlpxSession.Session.Push: the model is of a build with NDEBUG, which drops the log lines of a session. In other builds `send` logs the packet first, and throws on any malformed body, whatever its type, and at a high verbosity on a malformed item inside one.
- VapashHash.ComputeFullData: the progress callback, which can stop it and divides by zero below 100 nodes, is not modelled.
- RlpxSession.Session.ReadFrame: again with NDEBUG; in other builds a packet that cannot be interpreted, or whose interpretation throws, is logged, and a malformed item inside it then throws out of the read handler as a type of 0 does.
- RlpxRuns.Run: likewise; it says nothing of such a stop. What the host does with an exception that leaves the read handler is not modelled; the session neither reads nor is dropped by it.
- Two different stored nodes with the same digest are not modelled; values that are digests of stored nodes are.
- Iterator keys are kept as nibbles where the source keeps their hex-prefix encoding; `HexPrefix.Recovered` shows the two carry the same.
- Cryptographic primitives (Keccak, AES, secp256k1) are parameters; recovery of a transaction's sender is left out with them.
- `FatGenericTrieDB` and `HashedGenericTrieDB`, which only hash the key first, and the auxiliary table of `MemoryDB`.
- Sockets, timers, retries, logging and LevelDB: the disk is a map written atomically; the threads of a session interleave in any order, but only between the sections the source guards.
- Interpretation of packets, the handshake itself and peer management.
- The literal cache and data set tables: sizes are parameters, within the 32-bit indices the source uses.
- Big-endian hosts: words are read from memory in little-endian order.
- Extra data, block bodies and hashes of parents in `verify`.
- Hex, base64 and JSON conversions, key management, the virtual machine: easy or unrelated members.
