# Verified model of the EBLA execution layer

Dafny 4.11 models, with proofs, of the parts of the repository that decide consensus: the state trie, RLP, the journaled EVM state, gas, jump
analysis, frame memory, the bn256 field arithmetic, the executor of sequential task groups and the ABI codec. `dafny verify dfyconfig.toml` checks
everything.

**Trie** (`Trie`, `TrieMap`, `HexPrefix`, `TrieNode`, `TrieHeap`, `TrieWriter`, `TrieCommit`, `TrieRun`). A resolved trie is a value; canonical tries
with equal contents are equal. The writer works on heap nodes with cached hashes, unresolved hashes and placeholder values, each tied by `Denotes` to
the resolved trie it stands for. `Commit` drives two encoders at once and is proved against the from-scratch definitions of Appendix D of the Yellow
Paper. `TrieRun.Replay` puts it together: any run of writes, commits and reopenings gives the root hash of the map it leads to, and the value table
becomes that map.

**RLP** (`Rlp`, `RlpRaw`, `RlpStream`, `RlpEncoder`). The slice decoder accepts exactly the encodings, the stream decoder agrees with it inside any
nesting of lists, and the two-buffer encoder with rewinding yields the recursive encoding of what was not rewound.

**State** (`Journal`, `JournalRun`, `JournalEffects`, `StateObjects`, `AccountTable`). Undo closures are records. Reverting restores everything that
can be read, reads in between included; for what is not journaled (transient storage, raw writes, the extra count of the ripemd address, code set
twice) there are the exact conditions under which it is restored. `StateObjects` has the objects that are updated in place.

**Metering and gas** (`StoragePrices`, `NetMetering`, `OpcodeTable`, `CallTree`). EIP-1283 refunds over whole call trees with failing frames, what
the writes to a slot cost, the instruction table, and where every unit of gas goes through nested calls, creates and the refund rule. Code is an
arbitrary function from frame and step to instruction.

**Other components.** `Words`, `Gfp`, `GfpMul`: limb arithmetic of `gfp_generic.go`. `TaskGroup`: the executor as a state machine of atomic steps.
`JumpAnalysis`: push-data bitmap and program counters. `FrameMemory`: the pool of memory shared by nested frames. `Abi`, `AbiRoundTrip`, `AbiLimits`:
the head/tail codec byte by byte, for which types it reads back what it wrote, and a proof that it does for no others.

Where code and comments disagree the model follows the code: `SetTransientState` is not journaled, against the comment at
`ebla/state/state_evm/transition_state.go:205-207`. A precompile that cannot be paid keeps the gas it was given, unlike a contract that fails
(`core/vm/evm.go:439-442`).

## Model

| member | source | states |
|---|---|---|
| TrieMap.InsertCanonical | ebla/trie/writer.go:157-200 | Put keeps the canonical shape: branches keep two children, no short node under a short node, no empty key part, leaf keys end in 16; a branch stays a branch. |
| TrieMap.RemoveCanonical | ebla/trie/writer.go:205-261 | A delete misses exactly when the key is absent; otherwise the shape stays canonical, and a branch never vanishes. |
| TrieMap.GetInsert | ebla/trie/writer.go:157-200 | After Put the key reads back the value, and every other key of the same length reads as before, whatever split or descent the insertion took. |
| TrieMap.GetRemove | ebla/trie/writer.go:205-261 | After Delete the key is absent and every other key reads as before, through merged extensions and collapsed branches. |
| Trie.OnlyChildIsChild | ebla/trie/writer.go:227-238 | The scan that remembers at most one index finds a child exactly when it is the only one left beside the deleted one; otherwise two are left, or none. |
| TrieMap.UniqueShape | ebla/trie/writer.go:157-282 | Two canonical tries that answer every key alike are the same trie. |
| TrieMap.RunRefinesMap | ebla/trie/writer.go:133-155 | After any sequence of Put and Delete, misses included, the trie holds exactly the bindings of the finite map the same writes build. |
| TrieMap.HistoryIndependence | ebla/trie/writer.go:133-282 | Any two histories of writes that leave the same map build the same trie. |
| Trie.PrefixLen | ebla/trie/encoding.go:98-110 | The loop returns the length of the longest common prefix (characterised independently by CommonPrefixUnique). |
| Trie.CommonPrefixUnique | ebla/trie/encoding.go:98-110 | A length is that of the longest common prefix exactly when the sequences agree up to it and differ behind it. |
| HexPrefix.CompactRoundTrip | ebla/trie/encoding.go:37-63 | Appendix C of the Yellow Paper: every nibble sequence, with or without terminator and of either parity, is read back from its compact form. |
| HexPrefix.CompactOnto | ebla/trie/encoding.go:37-63 | Decoding then encoding a non-empty byte string gives it back if and only if its flag nibble is below 4 and the padding nibble of an even key is zero. |
| HexPrefix.CompactInjective | ebla/trie/encoding.go:37-52 | Different keys have different compact forms. |
| HexPrefix.HexKeyIsKey | ebla/trie/encoding.go:65-96 | The hex form of a key is nibbles ended by one terminator, and packing its nibbles gives the key back. |
| HexPrefix.HexToCompact | ebla/trie/encoding.go:37-52 | The loop leaves the compact key in the first bytes of the buffer of the caller and the rest of the buffer untouched. |
| HexPrefix.CompactToHex | ebla/trie/encoding.go:54-63 | The loop inverts the compact form: it returns FromCompact, for which CompactRoundTrip and CompactOnto are proved. |
| HexPrefix.KeybytesToHex | ebla/trie/encoding.go:65-71 | The loop fills the buffer with the hex key of the bytes. |
| HexPrefix.HexToKeybytes | ebla/trie/encoding.go:81-89 | Panics exactly on an odd number of nibbles, and then leaves the buffer alone; otherwise the buffer starts with the packed nibbles. |
| HexPrefix.DecodeNibbles | ebla/trie/encoding.go:91-96 | Writes one byte per pair of nibbles in its window of the buffer and nothing outside it. |
| TrieNode.InlineBranchChildren | ebla/trie/writer.go:105-127 | A branch that is kept in line has only missing children and leaves: any branch below, alone or behind an extension, would make it large. |
| TrieNode.StoreBound | ebla/trie/writer.go:60-95 | Whatever the values, no stored node of a canonical trie is longer than 40000 bytes, so the 32-bit sizes of the storage encoder never wrap. |
| TrieNode.DecodeItem | ebla/trie/reader.go:83-148 | A stored node, in each of the three leaf forms, as extension or as branch, is decoded to a node that stands for the trie that was stored, and decoding stops exactly behind it. |
| TrieNode.DecodeRef | ebla/trie/reader.go:83-148 | The same for a child slot: empty, in line, or a hash; a hash is found only for a large branch. |
| TrieNode.DecodeChildren | ebla/trie/reader.go:142-148 | The loop of dec_full decodes all sixteen slots to nodes that stand for the children. |
| TrieNode.ExtFormsAgree | ebla/trie/reader.go:135-138 | The hash that dec_short computes from the storage bytes of an extension over a hashed branch is its true hash: storage form and hash form are the same bytes there. |
| TrieNode.ResolveDenotes | ebla/trie/reader.go:74-81 | Resolving a hash that stands for a trie never panics and gives a short or full node standing for the same trie. |
| TrieNode.ReopenDenotes | ebla/trie/writer.go:24-32 | The root hash of a completely stored trie stands for that trie; the constructor of the writer rests on it. |
| TrieWriter.MptInsert | ebla/trie/writer.go:157-200 | On mutable nodes, with hashes resolved on the way, placeholders and cached hashes: if the node stood for t, the result stands for Insert(t, rest of the key), owns only its old objects and fresh ones, and no stale cached hash survives (Denotes forbids it). |
| TrieWriter.MptDel | ebla/trie/writer.go:205-261 | The result stands for Remove(t, rest of the key); the panic happens exactly when the key is absent, and then the node, though some cached hashes may be gone, still stands for t. |
| TrieWriter.SplitNode | ebla/trie/writer.go:171-188 | Where the key leaves the key part of a short node, the junction, under an extension if nibbles are shared, stands for the trie with the key inserted. |
| TrieWriter.ShiftDownNode | ebla/trie/writer.go:263-282 | `shift` downwards: the short node, its placeholder resolved, stands behind the pivot for the same bindings with the shorter key part; an extension without key part left is replaced by its child. |
| TrieWriter.ShiftUpNode | ebla/trie/writer.go:263-274 | `shift` upwards: the surviving child absorbs its nibble and stands for the same bindings one level up. |
| TrieWriter.Collapse | ebla/trie/writer.go:244-253 | The only child left of a branch, resolved first if it is a hash, takes the place of the branch, as a longer short node or below a one-nibble extension. |
| TrieWriter.FindSurvivor | ebla/trie/writer.go:227-238 | The scan over the in-memory children returns what the resolved trie says is the only other child, if the child on the way is gone. |
| TrieWriter.ResolveHash | ebla/trie/writer.go:284-287 | The resolved objects are fresh and stand for what the hash stood for; a full node comes with that hash cached. |
| TrieCommit.HashEncoder.ListEnd | ebla/trie/hash_encoder.go:40-57 | Ends the list begun in a given state: below 32 bytes and not at the root the encoded list stays in line, otherwise its Keccak hash is returned and, below the root, takes its place; a disabled encoder changes nothing. |
| TrieCommit.HashEncoder.ListStart | ebla/trie/hash_encoder.go:33-38 | Opens a list and returns its position, or -1 with no effect when disabled. |
| TrieCommit.HashEncoder.AppendString | ebla/trie/hash_encoder.go:27-31 | Appends the encoded string, or nothing when disabled. |
| TrieCommit.HashEncoder.Toggle | ebla/trie/hash_encoder.go:23-25 | Flips between enabled and disabled. |
| TrieCommit.Commit | ebla/trie/writer.go:47-131 | If the node stood for t: the storage encoder got exactly the storage form of t, the hash encoder exactly the Appendix D form (a 32-byte reference or the node in line) unless switched off, all large branches and values of t are in the database, all values written belong to keys of t below the prefix and none is dropped, and the node that comes back, evicted to a hash or not, still stands for t. |
| TrieCommit.CommitLeaf | ebla/trie/writer.go:54-95 | The leaf part of this, for cached, new and absent values, with or without a cached hash. |
| TrieCommit.CommitExt | ebla/trie/writer.go:54-95 | The extension part, including the suppression of the hash encoder below a cached hash. |
| TrieCommit.CommitFull | ebla/trie/writer.go:96-127 | The branch part, including the rewind that replaces a stored branch by its hash and the eviction by FullNodeLevelsToCache. |
| TrieCommit.LeafIntoHash | ebla/trie/writer.go:55-83 | A leaf ends with a hash exactly when it is the root or large, and that hash is its true one. |
| TrieCommit.EndFullHash | ebla/trie/writer.go:115-117 | A branch ends with a hash exactly when it is the root or large, and the seventeenth empty item is there. |
| TrieCommit.StoreFull | ebla/trie/writer.go:117-122 | The closed storage list is written alone under the hash and, below the root, taken back and replaced by the 33 bytes of the hash. |
| TrieHeap.DenotesStays | ebla/trie/writer.go:105-113 | What a node stands for survives growth of the node table and changes of values outside its prefix, so committing one child does not disturb the others. |
| TrieHeap.FilledHasNoStray | ebla/trie/writer.go:47-131 | Committing a trie adds values for its own keys only. |
| TrieHeap.TableIsMap | ebla/trie/writer.go:47-155 | All values of a trie and no others: the table is the map that the trie represents. |
| TrieRun.Writer.constructor | ebla/trie/writer.go:24-32 | Opened on the root hash of a stored trie, or on none, the writer stands for that trie. |
| TrieRun.Writer.Put | ebla/trie/writer.go:133-135 | The trie becomes the one with the hex key inserted; the value table is not touched before the commit. |
| TrieRun.Writer.Delete | ebla/trie/writer.go:137-155 | The trie becomes the one with the key removed, or stays when the key is absent; the nil value is written only when the key was found, so that a value table with keys of the trie only stays one. |
| TrieRun.Writer.Commit | ebla/trie/writer.go:34-44 | Returns exactly the Appendix D root hash of the whole trie, computed from scratch, cached or not; afterwards the whole trie can be read back from the database, the writer still stands for it, and no key outside the trie has got a value. |
| TrieRun.DenotesWithout | ebla/trie/writer.go:152-153 | Deleting the stored value of an absent key changes no node in memory or in the database. |
| TrieRun.Replay | ebla/trie/writer.go:24-155 | Every run of writes, commits and reopenings with any cache limits, in any order, ends with the root hash of the trie that the writes alone lead to, that trie is readable from the database, and a value table that was empty at the start is exactly the map the writes build: no deleted key keeps a value. |
| TrieRun.TableIsRunMap | ebla/trie/writer.go:141-155 | A table that holds all values of the trie of a history, and no other keys, is the finite map of the history. |
| TrieRun.SameContentsSameRoot | ebla/trie/writer.go:24-155 | Runs whose writes leave the same map end with the same root hash. |
| TrieRun.ForEach | ebla/trie/reader.go:46-72 | Over in-memory and hashed parts alike, one callback per binding, in order, with the key bytes and, if asked for, the value; panics exactly on the empty trie. |
| TrieRun.ContentsAreGet | ebla/trie/reader.go:46-72 | A binding is enumerated if and only if the trie answers that key with that value. |
| TrieRun.ContentsAscend | ebla/trie/reader.go:46-72 | The enumeration is strictly ascending, so no key comes twice. |
| Rlp.EmittersAreReference | rlp/encode.go:302-356 | For every 64-bit size, puthead, headsize and ToRLPString with their eight-way splits write the shortest big-endian headers of Appendix B of the Yellow Paper. |
| RlpRaw.CountValues | rlp/raw.go:91-101 | The loop over the shrinking slice returns the number of values or the first error. |
| TrieNode.CountEncoded | rlp/raw.go:91-101 | CountValues on the payload of an encoded list returns the number of its items. |
| RlpRaw.ReadSizeCanonical | rlp/raw.go:147-177 | An accepted size field is at least 56 and is the shortest big-endian form of the size. |
| RlpRaw.ReadKindCanonical | rlp/raw.go:103-145 | Whatever ReadKind accepts, tag and content together are the reference encoding of the content. |
| RlpRaw.ParseEncoded | rlp/raw.go:35-89 | Every item with an encoding below 2^64 bytes is read back by the Split recursion, whatever follows it. |
| RlpRaw.ParseSound | rlp/raw.go:35-89 | Every accepted buffer starts with the encoding of the item returned, followed by the rest returned. |
| RlpRaw.ParseIffEncoded | rlp/raw.go:35-89 | A buffer decodes to an item and a rest if and only if it is the encoding of the item followed by the rest. |
| RlpRaw.EncodingPrefixFree | rlp/encode.go:302-356 | Encodings are injective and none is a proper prefix of another. |
| RlpEncoder.ListAround | rlp/encode.go:180-219 | Around any segment: the list closes with the length of the segment as size, flushes to the encoded list, has that length as ListSize, and rewinding restores the state before ListStart. |
| RlpEncoder.PerformKeepsInv | rlp/encode.go:180-259 | Every well-nested append, start, end and rewind keeps the relation between the two buffers and what has been written. |
| RlpEncoder.RewindRestores | rlp/encode.go:196-201 | RevertToListStart gives back the state, and the whole bookkeeping, from before that ListStart, for closed and open lists alike. |
| RlpEncoder.FlushIsRecursiveEncoding | rlp/encode.go:169-219 | After every well-nested run, flushing gives the recursive encoding of what was written and not rewound, and Size is its length. |
| RlpEncoder.LastListAlone | rlp/encode.go:173-237 | The list ended last, flushed alone, is the encoding of its items, and ListSize its length. |
| RlpEncoder.Encoder.AppendRaw | rlp/encode.go:244-247 | Appends to the string buffer only. |
| RlpEncoder.Encoder.AppendString | rlp/encode.go:253-259 | Appends exactly the reference encoding of the string. |
| RlpEncoder.Encoder.ListStart | rlp/encode.go:180-184 | Records where the list starts in both buffers and returns its position. |
| RlpEncoder.Encoder.ListEnd | rlp/encode.go:186-194 | Closes the list with the size of everything since its start and adds its header to the total. |
| RlpEncoder.Encoder.RevertToListStart | rlp/encode.go:196-201 | Both buffers and the header total go back to the recorded start. |
| RlpEncoder.Encoder.Flush | rlp/encode.go:203-219 | The loop interleaves headers and data as FlushFrom does, for the whole buffer or from one list on. |
| RlpEncoder.Encoder.GetSize | rlp/encode.go:169-171 | Returns Size, which FlushIsRecursiveEncoding shows to be the length of the output. |
| RlpEncoder.Encoder.GetListSize | rlp/encode.go:173-178 | Returns ListSize, which LastListAlone shows to be the length of the encoded list. |
| RlpStream.DecodeBytes | rlp/decode.go:138-148 | Accepts a byte string if and only if it is the encoding of an item, with nothing behind it, and returns that item: the same inputs and results as the Split recursion. |
| RlpStream.Stream.DecodeInterface | rlp/decode.go:533-555 | From any position in any nesting of lists: an item is read exactly when Split would read it from the bytes the innermost list has left, the stream then stands right behind it, and EOL is reported exactly at the end of a list, with nothing consumed. |
| RlpStream.Stream.DecodeListSlice | rlp/decode.go:344-357 | A list whose tag has been read is decoded exactly when Split accepts it, and is closed again. |
| RlpStream.Stream.DecodeSliceElems | rlp/decode.go:359-386 | The loop reads the items that fill the innermost list, or fails exactly when they do not fill it. |
| RlpStream.Stream.Kind | rlp/decode.go:933-964 | Between values the tag is read and accepted exactly when it is canonical and its payload fits the innermost list or the input; a cached tag is returned unchanged; the end of a list consumes nothing. |
| RlpStream.Stream.ReadKind | rlp/decode.go:966-1026 | The tag bytes are consumed exactly when they form a canonical tag, and kind and size are what the slice decoder finds. |
| RlpStream.Stream.ReadUint | rlp/decode.go:1028-1052 | Reads a big-endian size and refuses leading zeros beyond the one-byte case, and only those and short input. |
| RlpStream.Stream.ReadFull | rlp/decode.go:1054-1067 | Returns the next n bytes if and only if the innermost list and the input have them. |
| RlpStream.Stream.ReadByte | rlp/decode.go:1069-1078 | Returns the next byte if and only if there is one in the innermost list and the input. |
| RlpStream.Stream.WillRead | rlp/decode.go:1080-1098 | Succeeds exactly when n more bytes fit the innermost list and the input, and then counts them in both; the cached tag is dropped. |
| RlpStream.Stream.GetBytes | rlp/decode.go:712-733 | Returns the content of a string, refusing lists and single bytes below 0x80 in long form, with the tag read before or not. |
| RlpStream.Stream.List | rlp/decode.go:821-833 | Opens a list exactly when the next value is one that fits, with the tag read before or not. |
| RlpStream.Stream.ListEnd | rlp/decode.go:837-852 | Succeeds exactly in a list that has been read to its end, and counts its size in the list around it. |
| RlpStream.TagIsReadKind | rlp/decode.go:966-1026 | The tag, size check and single-byte check of the stream accept together exactly what ReadKind of the slice decoder accepts, with the same kind and sizes. |
| RlpStream.PosWithinSize | rlp/decode.go:1080-1098 | In every valid state, at every nesting level, no more than the size of the list has been read. |
| JournalRun.RevertRestores | ebla/state/state_evm/transition_state.go:138-151 | For every run after a snapshot, with any nested snapshots and reverts and any reads, RevertToSnapshot meets no NIL account and restores existence, balance, nonce, code, storage as read, suicided and deleted flags and both counters of every account, the logs, the refund counter and the undo log; the counter of modifications is exempt only for addresses in `loose`. |
| JournalRun.RevertNeverPanics | ebla/state/state_evm/transition_state.go:142-147 | Within such a run any revert to a snapshot since the first one runs through. |
| JournalRun.DoUndoes | ebla/state/state_evm/account.go:119-274 | Every operation extends the undo log by closures that lead back to a state nobody can tell from the one before. |
| Journal.RollbackSame | ebla/state/state_evm/transition_state.go:142-147 | Running the undo log on two states nobody can tell apart gives two states nobody can tell apart: cached reads made in between do not matter. |
| Journal.CachesAreNeutral | ebla/state/state_evm/account.go:73-102 | Filling the caches of storage and code changes nothing that can be read. |
| Journal.SetStateUndoes | ebla/state/state_evm/account.go:119-133 | SetState and its closure, on accounts that exist or not, leave every slot as it was; the closure writes the old value where the slot may have been clean. |
| Journal.AddBalanceUndoes | ebla/state/state_evm/account.go:163-179 | AddBalance with its touch of empty accounts is undone, up to the extra modification of the ripemd address. |
| Journal.ChangesAreCounted | ebla/state/state_evm/account.go:163-179 | A registered change is counted once and journaled; adding nothing touches an account exactly when nonce, balance and code size are zero, and the ripemd address is then counted twice. |
| Journal.SuicideUndoes | ebla/state/state_evm/account.go:236-248 | Suicide is undone in both accounts, also when the heir is the account itself or is new. |
| Journal.EnsureUndoes | ebla/state/state_evm/account.go:250-263 | Bringing an account into existence is undone, with its deleted flag. |
| Journal.SetCodeUndoneIff | ebla/state/state_evm/account.go:215-225 | The undo of SetCode restores the account if and only if it had no code before. |
| JournalRun.TransientRestoredIff | ebla/state/state_evm/transition_state.go:205-227 | Transient storage is not journaled, against the comment at 205-207: after a fair run and a revert a slot reads what the last write of the run put there, so it is restored if and only if that is what it read before, or there was no write. |
| JournalRun.TransientLeaks | ebla/state/state_evm/transition_state.go:205-227 | A concrete write that a revert does not take back. |
| JournalRun.TouchUndoneIff | ebla/state/state_evm/account.go:163-179 | The modification counter after a touch and its undo is back if and only if the address is not ripemd. |
| JournalEffects.RawAfterRevert | ebla/state/state_evm/account.go:227-234 | After any fair run and a revert: if the account was there at the snapshot, a raw key holds the last raw write of the run, or what it held before without one; if it was not, account and raw writes are gone. |
| JournalEffects.RawWriteStaysIff | ebla/state/state_evm/account.go:227-234 | A run with a raw write that is reverted leaves the last of them there if and only if the account existed at the snapshot. |
| JournalEffects.RawRestoredIff | ebla/state/state_evm/account.go:227-234 | A raw key reads as before after a run and a revert if and only if the account did not exist at the snapshot or the last raw write, if any, rewrote the old value. |
| JournalEffects.RawWriteCounted | ebla/state/state_evm/account.go:227-234 | On an existing account the write and its count of one modification survive the revert. |
| JournalEffects.RawWriteLost | ebla/state/state_evm/account.go:227-258 | Witness: a raw write to an account nobody has seen creates it, and the revert takes account and write away. |
| JournalEffects.DoSeen | ebla/state/state_evm/account.go:41-274 | What callers read of any account after any operation but a revert, given what they read before: the operation does what it promises to its account (and the heir), and nothing to any other. |
| JournalEffects.DoSlots | ebla/state/state_evm/account.go:93-155 | Only SetState changes a slot, only its own, to the value given; committed values never change. |
| JournalEffects.DoCounters | ebla/state/state_evm/transition_state.go:103-132 | Logs are appended, the refund counter moves by the amount asked for, and nothing else moves either. |
| StateObjects.Account.RegisterChange | ebla/state/state_evm/account.go:265-274 | The object and its host change as the journal model says: the body is counted and the closure appended. |
| StateObjects.Account.EnsureExists | ebla/state/state_evm/account.go:250-263 | Against the same model: a NIL account gets a fresh body and the closure that takes it back. |
| StateObjects.Account.GetCommittedState | ebla/state/state_evm/account.go:135-155 | Returns the committed value and fills the cache, which CachesAreNeutral shows to be invisible. |
| StateObjects.Account.GetState | ebla/state/state_evm/account.go:93-102 | Returns the pending value, or the committed one. |
| StateObjects.Account.GetCode | ebla/state/state_evm/account.go:73-84 | Returns the code, loading it on demand. |
| StateObjects.Account.SetState | ebla/state/state_evm/account.go:119-133 | Against Journal.SetState, whose effect and undo are proved. |
| StateObjects.Account.AddBalance | ebla/state/state_evm/account.go:163-179 | Against Journal.AddBalance, likewise. |
| StateObjects.Account.SubBalance | ebla/state/state_evm/account.go:181-186 | Against Journal.SubBalance, likewise. |
| StateObjects.Account.SetBalance | ebla/state/state_evm/account.go:188-194 | Against Journal.SetBalance, likewise. |
| StateObjects.Account.SetNonce | ebla/state/state_evm/account.go:196-204 | Fails exactly when the nonce would shrink; otherwise against the model. |
| StateObjects.Account.IncrementNonce | ebla/state/state_evm/account.go:206-213 | Against the model: one more than before. |
| StateObjects.Account.SetCode | ebla/state/state_evm/account.go:215-225 | Against Journal.SetCode, whose effect and conditional undo are proved. |
| StateObjects.Account.SetStateRawIrreversibly | ebla/state/state_evm/account.go:227-234 | Against Journal.SetRaw: counted, not journaled. |
| StateObjects.Account.Suicide | ebla/state/state_evm/account.go:236-248 | Against Journal.Suicide, on the two objects, which may be one. |
| StateObjects.TransitionState.GetAccountConcrete | ebla/state/state_evm/transition_state.go:78-93 | Returns the one object of the address, loading it from the input when new, and leaves all others in place. |
| StateObjects.TransitionState.RegisterChange | ebla/state/state_evm/transition_state.go:149-151 | Appends one closure to the undo log and changes nothing else. |
| StateObjects.TransitionState.AddLog | ebla/state/state_evm/transition_state.go:103-109 | Appends the log and the closure that cuts the list back. |
| StateObjects.TransitionState.AddRefund | ebla/state/state_evm/transition_state.go:115-121 | Adds in 64 bits, with a closure for the old value. |
| StateObjects.TransitionState.SubRefund | ebla/state/state_evm/transition_state.go:123-132 | Panics exactly when the counter is too small; otherwise subtracts, with a closure. |
| StateObjects.TransitionState.Snapshot | ebla/state/state_evm/transition_state.go:138-140 | The length of the undo log. |
| StateObjects.TransitionState.RevertToSnapshot | ebla/state/state_evm/transition_state.go:142-147 | The backward loop performs the rollback of the model and cuts the undo log. |
| StateObjects.TransitionState.SetTransientState | ebla/state/state_evm/transition_state.go:208-222 | Writes the slot unless the value is there already; the undo log stays as it is. |
| StateObjects.TransitionState.GetTransientState | ebla/state/state_evm/transition_state.go:224-227 | Returns the slot, zero where nothing was set. |
| StateObjects.TransitionState.GasSStoreCost | core/vm/gas.go:170-219 | On the objects: the cost and the refunds of the model, and its panic exactly where SubRefund panics. |
| NetMetering.GasEffect | core/vm/gas.go:170-219 | The gas function panics exactly when a cleared slot is set again with a counter below 15000; otherwise it moves the counter by the EIP-1283 amount and changes no slot. |
| NetMetering.SStoreEffect | core/vm/instructions.go:513-518 | A paid SSTORE sets its slot, no other, and moves the counter by the EIP-1283 amount. |
| NetMetering.PathIndependence | core/vm/gas.go:191-218 | EIP-1283: for n successful writes to one slot with nothing in between, gas minus refund gained is 200 n plus 0, 19800, 4800 or -10200 depending on the original and the last value only. |
| NetMetering.SlotCost | core/vm/gas.go:191-218 | The same for any slot over any run of a transaction without failing frames: writes to other slots, calls, reads, creates and suicides may interleave, and the bill of the slot is still 200 per write plus that amount. |
| NetMetering.RunBalanced | core/vm/gas.go:191-218 | What every such run keeps, from any covered state on: the bill of a slot is 200 per write plus the difference of its potential. |
| NetMetering.RefundNeverBelowZero | ebla/state/state_evm/transition_state.go:115-132 | From any state in which every slot reads as its committed value, pending writes of that very value included, and with any starting counter, no call tree makes SubRefund panic, as its comment promises. |
| NetMetering.ClearedIff | core/vm/gas.go:170-219 | A slot is among the cleared ones exactly when its original value is not zero and its present value is. |
| NetMetering.ExecCovered | core/vm/gas.go:170-219 | Over every call tree, with failing and out-of-gas frames, the counter stays at least 15000 times the number of cleared slots, SubRefund never panics, and every frame is undone exactly. |
| Words.CarryBitIsCarry | crypto/bn256/cloudflare/gfp_generic.go:6-25 | The bit formula is the true carry of the 64-bit addition, also with a carry in. |
| Words.BorrowBitIsBorrow | crypto/bn256/cloudflare/gfp_generic.go:49-58 | The bit formula is the true borrow of the subtraction. |
| Words.Select | crypto/bn256/cloudflare/gfp_generic.go:20-24 | The masked selection picks one operand or the other. |
| Gfp.GfpCarry | crypto/bn256/cloudflare/gfp_generic.go:6-25 | Any value below 2p, with the limb above, is brought below p by one conditional subtraction. |
| Gfp.GfpNeg | crypto/bn256/cloudflare/gfp_generic.go:27-36 | Exact negation modulo p, in place or not. |
| Gfp.GfpAdd | crypto/bn256/cloudflare/gfp_generic.go:38-47 | Exact addition modulo p, in place or not. |
| Gfp.GfpSub | crypto/bn256/cloudflare/gfp_generic.go:49-68 | Exact subtraction modulo p, in place or not. |
| GfpMul.Mul | crypto/bn256/cloudflare/gfp_generic.go:70-111 | The eight limbs are the product of the two four-limb numbers; no 64-bit column or carry wraps. |
| GfpMul.HalfMul | crypto/bn256/cloudflare/gfp_generic.go:113-157 | The four limbs are the product modulo 2^256, though products of weight 2^256 are skipped. |
| GfpMul.Fold | crypto/bn256/cloudflare/gfp_generic.go:95-109 | The three carry passes keep the value held in the columns. |
| GfpMul.GfpMul | crypto/bn256/cloudflare/gfp_generic.go:159-174 | For a and b below p the result c is below p and c times 2^256 is congruent to a times b. |
| GfpMul.MontgomeryUnique | crypto/bn256/cloudflare/gfp_generic.go:159-174 | There is only one such c below p. |
| TaskGroup.Safety | ebla/util/goroutines/sequential_group_executor.go:14-91 | In every interleaving: no two workers at one group; the finished tasks of a group are a prefix of the order of submission; a group with something to do has exactly one scheduling token, an idle one none. |
| TaskGroup.StepKeepsInv | ebla/util/goroutines/sequential_group_executor.go:51-91 | Every atomic step of submitters, joiners and workers keeps the invariant behind this. |
| TaskGroup.TokensAfter | ebla/util/goroutines/sequential_group_executor.go:51-91 | How each step moves the tokens of each group. |
| TaskGroup.OnlyHolder | ebla/util/goroutines/sequential_group_executor.go:74-91 | A worker at a group is the only sender, queue entry or worker of it. |
| TaskGroup.JoinWaits | ebla/util/goroutines/sequential_group_executor.go:61-72 | When Join returns, all tasks submitted to the group before it took the lock have finished, whatever happened between. |
| TaskGroup.JoinReturnsIff | ebla/util/goroutines/sequential_group_executor.go:61-72 | In every reachable state a thread in Join can return if and only if its unlocking task is among the finished tasks of its group. |
| TaskGroup.NoDeadlock | ebla/util/goroutines/sequential_group_executor.go:14-91 | While a thread is in Join, it can return or some sender, queue entry or worker can go on without any client: there is no deadlock. |
| AccountTable.AccountMap.constructor | ebla/state/state_evm/account_map.go:38-47 | The empty table is valid and stands for the empty map. |
| AccountTable.AccountMap.Find | ebla/state/state_evm/account_map.go:49-84 | Finds the entry of the address exactly when there is one, through the base slots and the overflow, or the first free position. |
| AccountTable.AccountMap.GetOrNew | ebla/state/state_evm/account_map.go:49-93 | Refines lookup or insertion in the map from addresses to entries; the counter moves only for a new entry. |
| AccountTable.AccountMap.Delete | ebla/state/state_evm/account_map.go:95-141 | Refines removal; an entry deleted before is reported as absent; the counter stays the number of live entries. |
| AccountTable.AccountMap.RemoveAt | ebla/state/state_evm/account_map.go:105-138 | Takes the last entry of the bucket into the freed position, through base and overflow and its reallocation. |
| AccountTable.InsertFits | ebla/state/state_evm/account_map.go:76-92 | Insertion keeps buckets gap-free, overflow behind a full base, and every stored position right. |
| AccountTable.UnlinkFits | ebla/state/state_evm/account_map.go:95-141 | So does the swap-with-last deletion. |
| JumpAnalysis.CodeBitmap | core/vm/analysis.go:38-62 | For every code, truncated pushes included, a bit is set exactly for push data, and no write is out of bounds. |
| JumpAnalysis.SetBit | core/vm/analysis.go:24-26 | Sets one bit and no other. |
| JumpAnalysis.SetEight | core/vm/analysis.go:27-31 | Sets eight bits, across a byte boundary, and no other. |
| JumpAnalysis.StartOrData | core/vm/analysis.go:38-62 | Within the code every byte is either an instruction start in the sense of section 9.4.3 of the Yellow Paper or push data, never both. |
| JumpAnalysis.Contract.ValidJumpdest | core/vm/contract.go:80-95 | Accepts a 256-bit destination exactly when it is a JUMPDEST at an instruction start, with or without the cache. |
| JumpAnalysis.JumpdestCache.AnalyzeJumpdests | core/vm/evm.go:609-623 | The analysis returned, cached or fresh, is that of the code. |
| JumpAnalysis.Contract.Advance | core/vm/instructions.go:520-542 | JUMP, JUMPI, pushes and all other instructions move the counter as the model says, and fail exactly on an invalid destination. |
| JumpAnalysis.WhereJumpsGo | core/vm/instructions.go:520-542 | A jump that is taken goes to its destination if that is a JUMPDEST at an instruction start, and fails otherwise; JUMPI on zero goes on behind itself; a push skips its data. |
| JumpAnalysis.NextIsStart | core/vm/analysis.go:38-62 | Behind an instruction start, its push data skipped, stands an instruction start or the end of the code. |
| JumpAnalysis.RunStaysOnStarts | core/vm/evm.go:517-606 | Every counter a run reaches is an instruction start or past the end, where the loop reads STOP; it is never push data. |
| FrameMemory.MemoryPool.constructor | core/vm/memory.go:15-18 | The pool starts zeroed with nothing reserved. |
| FrameMemory.Memory.constructor | core/vm/memory.go:29-34 | The memory of a frame starts empty, behind what is reserved. |
| FrameMemory.Memory.ReleaseTo | core/vm/memory.go:40-48 | Moves the content to a slice of its own, zeroes and returns the part of the pool, and leaves the frames below alone. |
| FrameMemory.Memory.Release | core/vm/memory.go:36-38 | At the end of a frame everything beyond its start is zero and free again. |
| FrameMemory.Memory.Resize | core/vm/memory.go:79-92 | The content is extended by zeros, in the pool or by moving out of it; the frames below are untouched. |
| FrameMemory.Memory.Set | core/vm/memory.go:51-62 | Writes the bytes that fit, or panics exactly without room; the frames below are untouched. |
| FrameMemory.Memory.SetWord | core/vm/memory.go:66-76 | Likewise for one word. |
| FrameMemory.Memory.Copy | core/vm/memory.go:128-133 | Overlapping copies read the old content. |
| FrameMemory.Memory.GetCopy | core/vm/memory.go:95-108 | Returns the bytes asked for. |
| FrameMemory.RunFrame | core/vm/evm.go:489-492 | With any nesting of frames that grow, write, spill and exit, every frame behaves as plain zero-extended memory of its own; the parts of live frames are stacked and disjoint, and the pool is zero beyond what is reserved. |
| FrameMemory.PlainReads | core/vm/memory.go:51-92 | On plain memory a stored word or value is found where it was stored and the rest is as before; a moved range is found as it was before the move; growing keeps what was there. |
| FrameMemory.OverwrittenAt | core/vm/memory.go:51-62 | Byte by byte: between the offset and the end of what is written stand the bytes written, everywhere else what stood there. |
| FrameMemory.OverwrittenReads | core/vm/memory.go:51-62 | What was written is read back. |
| FrameMemory.GrownAt | core/vm/memory.go:79-92 | Growing keeps every byte and adds zeros up to the size asked for. |
| FrameMemory.StoreAndLoadWord | core/vm/memory.go:66-108 | SetWord followed by GetCopy returns the word, in the pool or out of it. |
| FrameMemory.StoreAndLoad | core/vm/memory.go:51-108 | Set followed by GetCopy returns the bytes. |
| OpcodeTable.FixedPrices | core/vm/jump_table.go:74-825 | Of all 256 opcodes only STOP is always free, and every other fixed price is 1, 2, 3, 5, 8, 10, 20, 100, 700 or 800. |
| CallTree.PricesAre | core/vm/jump_table.go:74-825 | A price occurs in the instruction set, at an opcode other than STOP, if and only if it is one of the listed fixed prices (SSTORE included) or a size-dependent price with at most four topics and 32 bytes of exponent. |
| CallTree.CostPositive | core/vm/gas.go:124-168 | So no instruction that does not halt is free, whatever its size operands. |
| CallTree.PriceOfMore | core/vm/gas.go:124-168 | One more word copied costs 3, one more word hashed 6, one more byte logged 8, one more topic 375, one more byte of exponent 50. |
| CallTree.PriceOfNone | core/vm/gas.go:124-168 | With nothing to copy, hash or log these instructions cost 3, 700, 6, 375, 3 and 10 beside the fee for memory, a create 32000, and 6 for each word hashed. |
| CallTree.PriceOfValue | core/vm/gas.go:405-522 | Every call costs 700 beside the fee for memory; sending value adds 9000, and 25000 more for CALL to an empty account. |
| CallTree.PriceOfCode | core/vm/evm.go:318-335 | One more byte of code left behind costs a constructor 200. |
| CallTree.CallGasRule | core/vm/gas.go:71-87 | EIP-150: a call that can be paid passes on what was asked for or all but one 64th of what is left after the base price, although the subtraction can wrap. |
| CallTree.Run | core/vm/evm.go:489-607 | Over any program a frame never has more gas than it was given; as a function defined by recursion on gas it shows that the loop and the call tree end. |
| CallTree.AfterIns | core/vm/gas.go:405-522 | Each instruction that does not halt leaves strictly less gas, even with what the callee gives back and the stipend. |
| CallTree.CallFrame | core/vm/evm.go:352-445 | A callee never gives back more than it received; what it gives back is CallBill. |
| CallTree.CreateFrame | core/vm/evm.go:273-346 | A constructor never gives back more than it received, the deposit of its code included. |
| CallTree.RunBill | core/vm/evm.go:489-607 | Gas is conserved over a frame: what is left is the gas given, less what was paid for the instructions carried out in it and below it, less what frames that failed still had, plus stipends. |
| CallTree.InsBill | core/vm/instructions.go:588-751 | The same for one instruction: its own price, and the bill of the inner frame. |
| CallTree.CallBill | core/vm/evm.go:352-445 | A callee burns what it has left only if it fails without reverting; a precompile that is paid takes exactly its price, and one that is not takes nothing. |
| CallTree.CreateBill | core/vm/evm.go:273-346 | A constructor that ends also pays the deposit of its code; it burns what it has left if it fails or cannot pay that, and nothing when it reverts. |
| CallTree.CalleeGivesBack | core/vm/evm.go:429-444 | A callee that ends or reverts gives back all that its instructions left. |
| CallTree.RunLoop | core/vm/evm.go:489-607 | The loop ends as Run says and with its gas. |
| CallTree.Execute | core/vm/instructions.go:588-751 | Paying, passing on and taking back gas in the five call and create instructions and all others, as AfterIns says. |
| CallTree.Contract.UseGas | core/vm/contract.go:105-111 | Takes the gas, or fails and takes none. |
| CallTree.DoCall | core/vm/evm.go:352-445 | The gas branches of call, against CallFrame. |
| CallTree.DoCreate | core/vm/evm.go:273-346 | The gas branches of create, against CreateFrame. |
| CallTree.IntrinsicGas | core/vm/gas.go:25-55 | Returns the intrinsic gas, or fails exactly when it does not fit 64 bits. |
| CallTree.PriceOfData | core/vm/gas.go:25-55 | 21000 for a transaction, 32000 more to create, 4 for a zero and 68 for any other byte of data. |
| CallTree.MainGas | core/vm/evm.go:177-252 | Gas used is at most the cap and at least half of what was consumed before the refund; the sender is charged exactly gas used times price; when the fee cannot be paid, what is charged leaves less than one unit of gas; code runs exactly when no check fails. |
| AbiRoundTrip.RoundTrip | accounts/abi/argument.go:245-322 | UnpackValues inverts Pack for all argument lists whose types are good, at any nesting: getTypeSize is right about every field but the last of its list, and about the sum if there are offsets. |
| AbiLimits.RoundTripsIff | accounts/abi/argument.go:245-322 | All values of a list of types are read back if and only if the list is good. |
| AbiRoundTrip.ReadsPrefix | accounts/abi/unpack.go:252-282 | The length prefix is found behind its offset, and all bound checks pass on packed data. |
| AbiRoundTrip.ReadIntegerWord | accounts/abi/unpack.go:38-73 | Every integer in the range of its type, signed or not and of any width, is read back from its word. |
| AbiRoundTrip.ListRead | accounts/abi/argument.go:245-322 | The same for any list of fields at any place: every offset the packer writes leads to the block of its field, virtual arguments included. |
| AbiRoundTrip.FieldsRead | accounts/abi/unpack.go:158-187 | From any field on, the rest of the list is read from behind the heads before it. |
| AbiRoundTrip.Reads | accounts/abi/unpack.go:190-250 | toGoType reads a value that is placed at its index, or behind the offset written there. |
| AbiRoundTrip.TupleArraySizeRightIff | accounts/abi/type.go:336-351 | For a fixed array of static tuples getTypeSize is right if and only if a tuple takes one word. |
| AbiRoundTrip.StaticSize | accounts/abi/type.go:336-351 | A static value takes exactly the bytes that the sizes of its parts add up to. |
| AbiLimits.PairMisread | accounts/abi/type.go:336-351 | Witness: with the types (uint256, uint256)[1] and uint256, the second argument is read from the second half of the pair, for all numbers. |
| AbiLimits.PairReadBackIff | accounts/abi/type.go:336-351 | These two arguments are read back if and only if the two numbers happen to be equal. |
| AbiLimits.BehindWrong | accounts/abi/unpack.go:158-187 | For any list: the field behind the first wrong size, no dynamic field before it, is read from a word of zeros, so a non-zero value there is not read back. |
| AbiLimits.BeforeWrong | accounts/abi/unpack.go:158-187 | For any list: a dynamic field before the first wrong size is looked for too early; of two values that differ in it only, one is not read back. |
| AbiLimits.ListFails | accounts/abi/argument.go:245-322 | For every list of types that is not good, however deep the wrong size lies and whatever follows the output, one of two given lists of values is not read back. |
| AbiRoundTrip.NumberLayout | accounts/abi/pack.go:34-79 | An integer, truth value or address fills one word whose 256-bit number is the value, in two's complement if negative; above an address stand zeros. |
| AbiRoundTrip.FixedLayout | accounts/abi/pack.go:60-79 | Fixed bytes and functions stand at the beginning of one word, zeros behind them. |
| AbiRoundTrip.StringLayout | accounts/abi/pack.go:26-31 | A string is its length as a word, its bytes, and zeros up to the next whole word. |
| AbiRoundTrip.ArrayLayout | accounts/abi/type.go:238-271 | A slice is the number of its elements followed by their list; an array is the list alone. |
| AbiRoundTrip.FieldLayout | accounts/abi/argument.go:282-322 | Where each field of a list stands: a static one among the heads, a dynamic one among the tails in the order of fields, with its offset by the sizes of getTypeSize as head. |
| AbiRoundTrip.PackValue | accounts/abi/type.go:222-302 | `pack` against its recursive form, for which the round trip is proved. |
| AbiRoundTrip.PackItems | accounts/abi/type.go:238-271 | The element loop with its running offset and tail, against PackEach. |
| AbiRoundTrip.PackTuple | accounts/abi/argument.go:282-322 | The field and argument loops with running offset and tail, against PackFields. |
| AbiRoundTrip.WordsAreStrict | accounts/abi/unpack.go:75-104 | A truth value or function is read from exactly its packed word; any other word is an error. |
| AbiRoundTrip.UnpackValue | accounts/abi/unpack.go:190-250 | `toGoType` against its recursive form, bounds errors included. |
| AbiRoundTrip.ForEachUnpack | accounts/abi/unpack.go:119-155 | The element loop against UnpackEach, bounds errors included. |
| AbiRoundTrip.UnpackTuple | accounts/abi/argument.go:245-272 | The field loop with its count of virtual arguments, against UnpackFields. |

## Left out

Contracts that say less than the source promises:

- JournalRun.RevertRestores: the counter of modifications is not compared for the addresses in `loose`, which are the ripemd address and those with raw writes; code is set at most once per account, as `create` guarantees. `TouchUndoneIff`, `SetCodeUndoneIff` and the raw-write lemmas of `JournalEffects` say what happens otherwise.
- TrieRun.Replay: Keccak is assumed to be free of collisions on the nodes of the run (the ghost map `M` fixes what each hash stands for), and values have hash encodings of at most 2^30 bytes, since the encoders count in 32 bits.
- TrieCommit.Commit: the same two assumptions; values that are not cached are written again at each commit, which the source leaves to the copy it updates.
- TrieWriter.MptDel: the panic on a missing key, which `Delete` recovers from, is the result `found == false`.
- NetMetering.RefundNeverBelowZero: the counter stays below 2^64, which is stated as 24000 for each action of the run; whether an account has committed suicide before is not asked, so each suicide gains its refund.
- NetMetering.SlotCost: runs in which a frame fails are left to `ExecCovered`; the bill of a slot counts the writes of frames that succeed.
- AbiLimits.RoundTripsIff: for types that are not good the output must have room, below 2^63 bytes, for the values that show the failure; `n` bounds the heads of the lists inside the types.
- AbiRoundTrip.RoundTrip: arrays of length zero, empty tuples and the `hash` type are not modelled; outputs are shorter than 2^63 bytes.
- RlpEncoder.FlushIsRecursiveEncoding: runs are well nested and the output stays below 2^32 bytes.
- RlpStream.DecodeBytes: the input is a byte slice of known length, and the target is an `interface{}`.
- FrameMemory.Memory.Copy: both ranges are inside the memory, as `memoryMcopy` and `Resize` have made sure.
- FrameMemory.RunFrame: the heap slice of a frame that has left the pool is a value; pool offsets do not exceed a machine integer.
- JumpAnalysis.JumpdestCache.AnalyzeJumpdests: different codes have different hashes.
- AccountTable.AccountMap.GetOrNew: the hash of an address is given, the number of buckets is any positive number, and positions fit 32 bits.
- CallTree.MainGas: nonce and balance checks are conditions given with the transaction; the fee for memory is given with each instruction.
- TaskGroup.Safety: each critical section under the lock is one step; the shutdown by `Close` is left out.

Not modelled:

- The operand stack and the word operations of the opcodes; the bodies of precompiles; value transfers between accounts; the call depth is one of the reasons for a refused call.
- `flush`, `CommitTransaction`, `in_curr_version` and the lists of dirty accounts (`ebla/state/state_evm`).
- The hash tree walk `ForEachNodeHash` (`ebla/trie/reader.go`); the key buffers the writer shares between calls are path values.
- Decoding RLP into typed Go values by reflection, and readers without a limit.
- Type checks and reflection of the ABI package.
- RocksDB, pruning and the C exports; hash functions and signatures; the curve and pairing layers above the field; DPOS and slashing contracts; tracers and JSON.
- Memory fee arithmetic: its exactness needs a bound on the number of words and the gas results do not depend on it.
- In `GfpAdd`, `GfpNeg`, `GfpSub`, `Mul` and `HalfMul` the carry loops and the rows of products are methods of their own.
