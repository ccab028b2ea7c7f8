# Dafny model of the OP-TEE OS secure core

This project models six parts of OP-TEE OS and proves what they are for. The model follows the C code
branch by branch. What the code updates in place is a class with methods, what it computes is a function,
and what threads interleave is a state machine over atomic steps. Nothing here was executed; every claim is
a statement the Dafny verifier proves. `dafny verify dfyconfig.toml` checks the project.

**1. The secure file store** (`core/tee/fs_htree.c`, `core/tee/tee_ree_fs.c`, `core/tee/fs_dirfile.c`).
A file is a binary hash tree in untrusted storage. Each head, node and block has two versions on storage.
A transaction writes only versions the last commit does not use, and one head write makes it the new commit.
- `HTreeModel` is the value model, `HTreeCommit` says what a commit on storage is, `HTreeTransaction` holds the
  invariant of an open transaction, and `HTreeRuns` states crash safety and recovery over all runs, in which
  operations, crashes inside operations and reopenings alternate. `HTreeNonces` follows the nonces of the file key
  through the same runs.
- `HTreeSyncOrder` proves the recursive post-order traversal equal to a closed form.
- `HTreeIntegrity` proves that storage opened by a root hash gives the committed bytes or nothing.
- `HTreeTruncate` gives the exact condition under which a file that was cut can be opened again.
- `HTreeImpl` is the linked tree of nodes as it runs, proved against the value model.
- `StorageLayout`, `BackingFile` and `BlockBytes` place elements and bytes, `BlockNumbers` says which positions get
  the right block number, `FileWrites` says what a write does to blocks and length, and `ReeFile` is the byte-addressed
  file.
- `TwoLevelCommit`, `ReeFs` and `DirFile` add the directory, whose entries hold the root hash of each file, and
  `DentBytes` its bytes. After a
  crash the commit of a file that counts need not be the newest on its storage; it is the one its entry names.

**2. The lock-order checker** (`core/kernel/lockdep.c`, used by `core/arch/arm/kernel/mutex.c`).
`LockOrder` is graph theory on values, `LockDep` the linked graph with its depth-first and breadth-first
searches, and `DeadlockFreedom` a state machine of threads that take, try, release and destroy mutexes: no circular
wait, and every accepted request can still be met.

**3. AES-GCM** (`core/crypto/aes-gcm.c`, `aes-gcm-sw.c`, `aes-gcm-ghash-tbl.c`).
`GaloisField` is the field of section 6.3 of NIST SP 800-38D, `GHash` the two multiplications of the code,
`GcmSpec` the authenticated encryption of section 7.1 beside the code's one-shot form, `GcmStream` the streaming
context with its look-ahead key stream and partial blocks, `GcmRuns` whole messages in any splitting, and `GcmCounter`
the counter block as a 128-bit number.

**4. Block modes** (`core/crypto/aes-cts.c`, `core/crypto/sm4.c`). `CbcMode` and `Cts` are CBC with ciphertext
stealing (CBC-CS3 of the addendum to NIST SP 800-38A). `Sm4Spec`, `Sm4` and `Sm4Runs` are the SM4 cipher with
ECB, CBC and CTR. `Sm4Mixing` says what its round and key functions do to bits and bytes, `Sm4Example` ties the
constants to the example of the standard, and `ModesByBlock` gives each mode block by block. `Counters` counts.

**5. Shared objects** (`core/kernel/tee_ta_manager.c`, `core/mm/file.c`, `core/kernel/refcount.c`).
`TaEntry`, `Sessions` and `SharedFiles` are state machines; each proves an invariant of every interleaving, what a
call gives its caller, and that those who wait can be served.

**6. The TZC380 region planner** (`core/drivers/tzc380.c`). `Tzc380` proves that the planned regions cover the
requested range exactly. `Tzc380Cover` proves which ranges the planner can cover at all.

Properties that turn out false of the code, each with the exact condition:
- A file that was cut and synced does not always open again: truncation leaves the surviving parent of a dropped
  node clean. `HTreeTruncate.ReopenAfterShrink` gives the condition, `HTreeTruncate.FourToThree` an instance.
- Files are not plain byte sequences from position 2^31 on, where a position no longer fits the `int` that
  `pos_to_block_num()` takes (`BlockNumbers.RightBlock`, `BlockNumbers.FirstWrong`). At every position and length of a
  `size_t`, a write is the write to a plain file if and only if its last position fits (`FileWrites.WriteExact`).
  Below 2^32 the others stop in an assert and leave the file found as it was (`FileWrites.WriteBelow`,
  `ReeFs.Write`); beyond it they can succeed elsewhere in the file (`FileWrites.LostWrite`). A read is right under the
  same condition (`ReeFile.FileHandle.ReadPrimitive`).
- The newest head is picked except when the 32-bit counter wraps (`HTreeRuns.CounterWrap`).
- Renaming an object keeps its file, except that renaming it to its own name with overwriting removes it
  (`DirFile.Directory.RenameObject`). The one caller, in `core/tee/tee_svc_storage.c`, never overwrites.
- The counter increment of GCM equals the standard's, except when the low 32 bits are all ones
  (`GcmSpec.IncIsInc32`); there it carries, and so never repeats a counter (`GcmCounter.NoKeyStreamTwice`). The length
  field is the standard's exactly below 2^29 bytes (`GcmSpec.LenFieldCorrect`).
- Associated data is not always hashed as one string: an empty payload update in between pads what came before
  (`GcmStream.Gcm.UpdateAad`). `GcmStream.PaddedBetween` says exactly when that makes no difference;
  with one byte before and one after, it does (`GcmStream.PaddedApart`).
- The owner of the single-instance lock can wait for a busy context, even in a circle (`TaEntry.OwnerInCircle`).
  It does so only in the wait for a context found initialising (`TaEntry.EntryProtocol`), and never while all
  contexts are initialised (`TaEntry.OwnerNeverWaits`).
- An aligned range is not always covered by the region planner. It is covered if and only if
  `Tzc380Cover.Coverable` holds of its address and size (`Tzc380Cover.CoveredIff`); 40960 bytes from address 0 on
  are not, 49152 bytes are (`Tzc380Cover.FiveUnits`).
- A planned cover is not always programmed: base and size of region 0 are read only. It is programmed if and only if
  the first region number is not 0 or the range is empty (`Tzc380.AutoConfigure`).

Where code and comments disagree the model follows the code. In `get_offs_size()` the comment on the layout puts
the second group of nodes in physical block 64; with 31 pairs of nodes per block the code puts it in block 63.
`authenc_init()` counts the whole root hash in the length of the associated data of a head and feeds its first 16
bytes; the model has those.

Encryption, digests and random numbers are parameters. A digest of 32 bytes cannot be injective, so theorems that
need hashes to differ name the very inputs whose digests are taken to differ: `RootsApart`, `HashesApart`,
`TreesApart`, `ShrinkApart`. Tags have 16 bytes, so `TagsApart` likewise names the two sealings, of the block
committed and of the block accepted from storage, that are taken to have different tags.

## Model

| member | source | states |
|---|---|---|
| HTreeRuns.CrashSafety | core/tee/fs_htree.c:700-858 | Every run of fewer than 2^32 - 1 syncs: after any gap-free sequence of block writes, metadata changes, syncs, reopenings, and crashes inside any of them followed by reopening, from a fresh file, stopping before any storage write of the next operation, or inside a block or node write that leaves its slot arbitrary, recovers exactly the last synced file; after the last write it recovers the new one |
| HTreeRuns.CrashInStep | core/tee/fs_htree.c:757-795 | The same for one operation from any state that simulates the two-file reference |
| HTreeRuns.StoppedKeeps | core/tee/fs_htree.c:700-795 | Wherever an operation stops before its last write, the commit is still whole and newest |
| HTreeRuns.ReopenSimulates | core/tee/fs_htree.c:614-670 | Opening after a crash goes back to the saved file, and the simulation goes on from there |
| HTreeRuns.RunSimulates | core/tee/fs_htree.c:757-858 | Every run, crashes and reopenings included, keeps the simulation by a plain current file and a plain saved file, and counts the head up by at most its number of completed syncs |
| HTreeRuns.OpWritesSpare | core/tee/fs_htree.c:700-858 | Up to its head write, no write of an operation reaches a head, node or block version of the committed tree |
| HTreeRuns.RunReads | core/tee/fs_htree.c:860-905 | In every such run each block of the open file reads back as last written |
| HTreeRuns.SyncThenOpen | core/tee/fs_htree.c:614-670 | In every such run, sync then open gives back the very tree in memory: hashes current, root and tree verified |
| HTreeRuns.IdxPicks | core/tee/fs_htree.c:303-318 | Of the heads whose counter has the parity of their slot the one with the higher counter is picked, and none when neither has it |
| HTreeRuns.CounterWrap | core/tee/fs_htree.c:303-318 | With the new head in the slot of its counter's parity, the newer head is chosen if and only if the old 32-bit counter was not its maximum |
| HTreeNonces.SyncedHeadIv | core/tee/fs_htree.c:742-755 | The last write of a sync with something to commit is a head sealed with the IV drawn for it, and that carries this IV |
| HTreeNonces.OpWritesTraced | core/tee/fs_htree.c:438-542 | Every head, node and block an operation writes was sealed with the IV of that operation or, for a node, of the write of its block |
| HTreeNonces.RunTraced | core/tee/fs_htree.c:438-542 | Over every run, crashes and reopenings included, everything on storage comes from the sealings of the operations of the run, each under its own IV, or was left by an interrupted write |
| HTreeNonces.FreshNonces | core/tee/fs_htree.c:455-459 | When no IV is drawn twice, no two uses of the file key in a run, creation included, have the same nonce |
| HTreeCommit.OpenNewest | core/tee/fs_htree.c:320-397 | Opening by counter finds the newest commit, whole and verified |
| HTreeCommit.OpenByHash | core/tee/fs_htree.c:320-366 | Opening by root hash finds the commit with that hash, newest or not |
| HTreeCommit.OpenedReads | core/tee/fs_htree.c:860-905 | A tree opened from a commit decrypts every block to the committed one |
| HTreeCommit.SparingWrites | core/tee/fs_htree.c:146-175 | A commit survives any sequence of writes to slots it does not use |
| HTreeCommit.CrashKeepsCommit | core/tee/fs_htree.c:700-740 | Any prefix of such writes, the next one torn, still opens to the commit |
| HTreeTransaction.MustWriteReachesRoot | core/tee/fs_htree.c:700-740 | If any node must be written, so must the root |
| HTreeTransaction.WriteStep | core/tee/fs_htree.c:810-858 | A block write targets a version outside the commit and keeps the transaction invariant with the new contents |
| HTreeTransaction.NodeWritesSpare | core/tee/fs_htree.c:700-740 | No node write of a sync touches the committed versions |
| HTreeTransaction.SyncedHashCurrent | core/tee/fs_htree.c:399-436 | After the traversal the hash stored in every node, written or not, is the hash of its current contents and children |
| HTreeTransaction.SyncedResident | core/tee/fs_htree.c:757-795 | After a sync the new commit is on storage, whole, and is the newest |
| HTreeTransaction.SyncKeepsOld | core/tee/fs_htree.c:757-795 | The old commit stays on storage beside the new one, so it can still be opened by its root hash |
| HTreeTransaction.SyncStep | core/tee/fs_htree.c:757-795 | A sync starts a new transaction on the new commit with the invariant in force |
| HTreeTransaction.OpenStep | core/tee/fs_htree.c:614-670 | Opening a commit, the newest on storage or not, establishes the transaction invariant |
| HTreeSyncOrder.TraversalIsSync | core/tee/fs_htree.c:177-207 | The recursive post-order traversal, which dirties parents on the way, has exactly the effect and the writes of a closed form over the tree before it |
| HTreeIntegrity.RootDetermines | core/tee/fs_htree.c:399-436 | Two trees with current hashes and the same root hash are the same tree, sizes included |
| HTreeIntegrity.OpenIsCommitted | core/tee/fs_htree.c:544-593 | Whatever is on storage, a successful open by a committed root hash gives the committed nodes and metadata |
| HTreeIntegrity.BlockIsCommitted | core/tee/fs_htree.c:860-905 | From any storage, a block read after such an open is the committed block or an error, unless its sealing has the tag of another block's |
| HTreeIntegrity.FoundIsCommitted | core/tee/fs_htree.c:614-670 | From any storage, the bytes found through a committed root hash are the committed bytes, with no such collision below the length |
| HTreeTruncate.CurrentUnlessLost | core/tee/fs_htree.c:907-929 | After cutting and syncing, the hash of a node other than the root is current if and only if it lost no child |
| HTreeTruncate.ReopenAfterShrink | core/tee/fs_htree.c:907-929 | A freshly opened file cut to fewer blocks and synced, its backing file cut or not, opens again, by counter or by its new root hash, if and only if one block is left, or two of three; then it opens to the cut file |
| HTreeTruncate.NodeSurvives | core/tee/tee_ree_fs.c:258-295 | The cut of the backing file spares both versions of every node that is kept |
| HTreeTruncate.FourToThree | core/tee/fs_htree.c:907-929 | Instance: four blocks cut to three cannot be opened again, by counter or by hash |
| HTreeShape.ClosestAbove | core/tee/fs_htree.c:216-243 | When the ancestor k levels up is missing, the deepest present ancestor is that of the next one up |
| HTreeShape.ShiftToRoot | core/tee/fs_htree.c:209-214 | Shifting an id by its level less one gives the root |
| HTreeImpl.HTree.FindClosestNode | core/tee/fs_htree.c:216-243 | Walking the bits of an id ends at its deepest ancestor in the tree |
| HTreeImpl.HTree.GetNode | core/tee/fs_htree.c:254-301 | Finds the node, adding exactly the missing ids up to it on request; ids stay 1 to n, each node n under n / 2 |
| HTreeImpl.HTree.InitTree | core/tee/fs_htree.c:368-397 | Loads each node in the version its parent names, or fails if and only if one is missing |
| HTreeImpl.HTree.NodeHash | core/tee/fs_htree.c:399-436 | The digest covers the node's fields, the metadata at the root, and the hashes of the children present |
| HTreeImpl.HTree.VerifySubtree | core/tee/fs_htree.c:562-593 | Succeeds if and only if every hash below the node is current |
| HTreeImpl.HTree.Create | core/tee/fs_htree.c:595-670 | A fresh tree, synced, followed by a dummy head in slot 0 |
| HTreeImpl.HTree.Open | core/tee/fs_htree.c:614-670 | The linked tree built equals the value model's open, failing exactly when it fails |
| HTreeImpl.HTree.FlipVersion | core/tee/fs_htree.c:700-740 | Gives the unused version of a node and records it in the parent, which becomes dirty |
| HTreeImpl.HTree.SyncNode | core/tee/fs_htree.c:700-740 | One node of the traversal: state and writes as in the value model |
| HTreeImpl.HTree.SyncSubtree | core/tee/fs_htree.c:177-199 | The recursive traversal over linked nodes: state and writes as in the value model |
| HTreeImpl.HTree.Sync | core/tee/fs_htree.c:757-795 | The tree and the log of writes after a sync are those of the closed form, ending with one head write |
| HTreeImpl.HTree.WriteBlock | core/tee/fs_htree.c:810-858 | New tree and the one logged write as in the value model; only new nodes are added |
| HTreeImpl.HTree.ReadBlock | core/tee/fs_htree.c:860-905 | Reads and authenticates the block in its current version and leaves the tree as it was |
| HTreeImpl.HTree.Truncate | core/tee/fs_htree.c:907-929 | Drops the nodes above the new number and keeps the shape |
| StorageLayout.SlotsDisjoint | core/tee/tee_ree_fs.c:131-212 | Any two distinct heads, nodes or blocks, by index and version, get disjoint byte ranges, for every head and node size that fits |
| StorageLayout.SlotReadBack | core/tee/tee_ree_fs.c:131-212 | In a flat file, a slot still reads back after any other slot is written |
| StorageLayout.SlotsOrdered | core/tee/tee_ree_fs.c:131-212 | Heads, nodes and blocks are laid out in the order of their indices, the two versions of each in order |
| StorageLayout.EveryBlockUsed | core/tee/tee_ree_fs.c:131-212 | No physical block is left over: each holds the heads, some nodes or one data block |
| StorageLayout.SizesOf | core/tee/tee_ree_fs.c:131-212 | For any two heads and two nodes that fit in a block, as many pairs of nodes are put in one block as fit, and no more |
| BackingFile.CutKeepsLive | core/tee/tee_ree_fs.c:258-295 | Cutting the backing file after version 1 of the last block keeps every block that is left |
| BlockBytes.WrittenContent | core/tee/tee_ree_fs.c:63-129 | Bytes written block by block amount to one overlay on the contents, past the old length or not |
| BlockNumbers.RightBlock | core/tee/tee_ree_fs.c:46-49 | For every position of a `size_t` the block number is the right one if and only if the position fits an `int` |
| BlockNumbers.FirstWrong | core/tee/tee_ree_fs.c:46-49 | Instance: at 2^31 the block number is -524288 |
| BlockNumbers.RightBlocks | core/tee/tee_ree_fs.c:67-68 | First and last block of a range are both right if and only if its last position fits |
| FileWrites.NumOf | core/tee/fs_htree.c:209-214 | For every position: the block number is that of its low 32 bits when they fit an `int`, and otherwise one, as a `size_t`, whose node an assert forbids |
| FileWrites.LengthenFits | core/tee/tee_ree_fs.c:258-295 | Extending any file below 2^32 bytes, to any length, leaves the length inside the blocks, and the write after it leaves no gap |
| FileWrites.WriteRight | core/tee/tee_ree_fs.c:63-129 | A write whose last position fits an `int` is the write to a plain file, zeros before the position included |
| FileWrites.WriteLimit | core/tee/tee_ree_fs.c:369-391 | No write that returns leaves more than 2^19 blocks, all that an `int` can address |
| FileWrites.WriteExact | core/tee/tee_ree_fs.c:369-391 | At every position and length of a `size_t`, whatever an unset result holds: a write succeeds and gives the plain file if and only if its last position fits an `int` |
| FileWrites.LengthenExact | core/tee/tee_ree_fs.c:258-295 | Extending gives the plain file with zeros if and only if the new length is at most 2^31 |
| FileWrites.WriteBelow | core/tee/tee_ree_fs.c:369-391 | Below 2^32 a write that does not fit an `int` is stopped by an assert, with the length still inside the blocks |
| FileWrites.LostWrite | core/tee/tee_ree_fs.c:369-391 | Instance: ten bytes at 2^32 + 100 of an empty file succeed, land at 100, and leave a length of 2^32 + 110 over one block |
| BlockNumbers.ReadFails | core/tee/tee_ree_fs.c:322-323 | Other reads below 2^32 have an empty range of blocks, or start at one whose node is forbidden |
| ReeFile.FileHandle.OutOfPlaceWrite | core/tee/tee_ree_fs.c:63-129 | At any position and length: blocks, length and result are those of the value model, a result that is not set when no turn is taken included; only blocks outside the commit are written |
| ReeFile.FileHandle.WriteLoop | core/tee/tee_ree_fs.c:86-118 | The turns of the loop, block numbers as computed, end as in the value model: after the last block, or stopped by an assert |
| ReeFile.FileHandle.FtruncateInternal | core/tee/tee_ree_fs.c:258-295 | Extending fills with zeros even over stale bytes of an earlier shrink; it gives the plain file if and only if the new length is at most 2^31, and stops otherwise below 2^32; shrinking keeps the prefix |
| ReeFile.FileHandle.Shrink | core/tee/tee_ree_fs.c:258-295 | Dropping nodes, cutting the backing file after version 1 of the last block and setting the length leaves the prefix readable |
| ReeFile.FileHandle.ReadPrimitive | core/tee/tee_ree_fs.c:297-355 | Succeeds with the bytes of a plain sequence, short at the end, nothing past the end or when position plus length overflows, if and only if the last position read fits an `int` |
| ReeFile.FileHandle.WritePrimitive | core/tee/tee_ree_fs.c:369-391 | Any write: it gives the plain byte sequence with zero fill before the position if and only if the last position fits an `int`; overflow is an error that changes nothing; other writes below 2^32 stop |
| TwoLevelCommit.RootHashChanges | core/tee/fs_htree.c:700-740 | A transaction that wrote a block commits a root hash other than the old one |
| TwoLevelCommit.StoppedAtRest | core/tee/tee_ree_fs.c:750-780 | Stopping a write after any number of its storage writes: the newest commit of the directory leads to a whole commit of the file, the old one up to the last write and the new one after it; that of the file need not be the newest on its storage |
| TwoLevelCommit.OldIsNotNewest | core/tee/tee_ree_fs.c:750-780 | After the file is synced and before the directory is, the commit that counts is no longer the newest of the file |
| TwoLevelCommit.RestReopens | core/tee/tee_ree_fs.c:595-632 | From there, opening the directory by counter and the file by the hash in its entry gives both commits back, with the transaction invariant in force |
| TwoLevelCommit.WriteIsAtomic | core/tee/tee_ree_fs.c:750-780 | Stopping after any number of the writes to the file and then to the directory, the file found through the directory holds the old bytes up to the very last write, the directory's head, and the new bytes after it, whether or not the old commit was the newest of the file |
| TwoLevelCommit.WriteIsAtomicAlways | core/tee/tee_ree_fs.c:750-780 | The same for all prefixes at once; each can be opened again, and the last leaves the directory's new commit newest |
| TwoLevelCommit.WritesAndCrashes | core/tee/tee_ree_fs.c:750-780 | Writes interrupted anywhere, or not, and openings in turn, any number of times: the file found is always that of the last write that was not interrupted |
| TwoLevelCommit.FindsThroughUnique | core/tee/tee_ree_fs.c:595-632 | At most one byte sequence is found through a directory entry, so the old bytes are found exactly and no others |
| TwoLevelCommit.StagedIsUnseen | core/tee/tee_ree_fs.c:750-780 | Block writes with no sync after them leave the file found through the directory as it was, to be opened again |
| ReeFs.UpdateHash | core/tee/fs_dirfile.c:322-337 | Exactly the hash field of one directory entry changes |
| ReeFs.WriteAndSync | core/tee/tee_ree_fs.c:750-780 | Write then sync on one file: contents, commit and logged writes, or a failure that keeps the commit |
| ReeFs.UpdateAndSync | core/tee/tee_ree_fs.c:537-540 | Entry update then commit of the directory: contents, commit and logged writes |
| ReeFs.CommitHash | core/tee/tee_ree_fs.c:771-774 | After any finished transaction on the file, putting its hash in the directory makes the two transactions atomic together |
| ReeFs.Write | core/tee/tee_ree_fs.c:750-780 | A whole file-system write: the file becomes the plain write, the directory changes in one hash, the log grows by the file's then the directory's writes, every prefix is atomic and can be opened again, and the next write can follow; when it fails or stops, the old bytes are found |
| ReeFs.CreateFile | core/tee/fs_htree.c:614-670 | A file created on blank storage is empty, committed, and found by its hash |
| ReeFs.FirstEntry | core/tee/fs_dirfile.c:262-294 | Writing and committing a first entry makes directory and file a pair that writes can start from |
| ReeFs.FirstFile | core/tee/tee_ree_fs.c:683-748 | From blank storage, creating directory and file and writing an entry with the root hash of the file as the first one reaches that state, unless the root hash is all zeros |
| ReeFs.OpenFile | core/tee/tee_ree_fs.c:393-434 | Opening a commit, by counter or by hash, gives a file of its bytes with the transaction invariant in force |
| ReeFs.EntryHash | core/tee/fs_dirfile.c:197-239 | The hash of an entry, read through the directory file |
| ReeFs.Reopen | core/tee/tee_ree_fs.c:595-632 | From the storage that a write stopped anywhere leaves, opening the directory by counter and the file by its entry's hash gives the two commits, ready for the next write |
| DirFile.Directory.constructor | core/tee/fs_dirfile.c:110-161 | Opening scans the table, drops entries with a repeated number, and gives a valid directory when names are unique |
| DirFile.ScannedNumbers | core/tee/fs_dirfile.c:110-161 | For any stored table, after the scan no two entries share a number and exactly the used numbers are marked |
| DirFile.FirstIsKept | core/tee/fs_dirfile.c:110-161 | Of entries with one number the scan keeps the first |
| DirFile.SetFile | core/tee/fs_dirfile.c:40-66 | Exactly one number becomes marked, growing the bitmap as needed |
| DirFile.Directory.GetTmp | core/tee/fs_dirfile.c:178-195 | Marks and returns the smallest number not in use |
| DirFile.Directory.Find | core/tee/fs_dirfile.c:197-239 | A name is found if and only if it is in the table; an empty name gives a free place, the end of the table only when there is none |
| DirFile.Directory.WriteDent | core/tee/fs_dirfile.c:97-108 | Exactly one entry changes; the directory stays valid if and only if no other entry has the name written, and is then the dictionary with that one change |
| DirFile.Directory.Rename | core/tee/fs_dirfile.c:262-294 | The name is written at the given entry, taking it over whatever it held, or at the entry that has the name, or at a free place; names stay unique if and only if no other entry has it; a bad name changes nothing |
| DirFile.Directory.SetName | core/tee/tee_ree_fs.c:634-669 | As a dictionary: the name maps to the new file and nothing else changes, also when it is taken from another file; without overwriting that is refused |
| DirFile.Directory.RenameObject | core/tee/tee_ree_fs.c:782-834 | Renaming over an existing object, with two entries of one name in between, is one dictionary update: the old name goes, the new one maps to its file, no other changes, and the replaced file's number is free; the same name twice removes the object |
| DirFile.FileMoved | core/tee/tee_ree_fs.c:810-818 | The table with one entry rewritten and the entry that had the name cleared, seen as a dictionary |
| DirFile.Directory.Remove | core/tee/fs_dirfile.c:296-320 | One entry is cleared and its number freed, also while another entry has the same name; as a dictionary one name goes, all others as before |
| DirFile.Directory.UpdateHash | core/tee/fs_dirfile.c:322-337 | As a dictionary: one name gets the new hash, all others as before |
| DentBytes.EncodeUnique | core/tee/fs_dirfile.c:22-28 | The bytes of an entry determine its name, hash and file number |
| DentBytes.TableHash | core/tee/fs_dirfile.c:22-28 | In a directory file that holds a table of entries, the hash looked up through an entry is the one the entry has |
| DentBytes.HashReplaced | core/tee/fs_dirfile.c:322-337 | Replacing the hash in the bytes of the file gives the bytes of the table with that one entry changed |
| LockOrder.TopologicalIsAcyclic | core/kernel/lockdep.c:234-252 | A complete finishing order of the depth-first search shows there is no cycle |
| LockOrder.CyclesPassThrough | core/kernel/lockdep.c:334-363 | In an acyclic graph with the edges of one acquire added, every cycle passes through the acquired lock |
| LockOrder.AskedAcyclic | core/kernel/lockdep.c:334-363 | The graph stays acyclic if and only if the acquired lock reaches none of the owned ones |
| LockOrder.ForgottenAcyclic | core/kernel/lockdep.c:461-501 | Forgetting a lock keeps the graph acyclic |
| LockDep.LockGraph.AddToGraph | core/kernel/lockdep.c:23-43 | The lock has exactly one node afterwards, with its edges unchanged if it was known |
| LockDep.LockGraph.AddEdge | core/kernel/lockdep.c:77-99 | The edge is there once; nothing else changes |
| LockDep.LockGraph.ShortestCycle | core/kernel/lockdep.c:128-209 | Returns a cycle through the lock of least length, or nothing if and only if none passes through it |
| LockDep.LockGraph.Visit | core/kernel/lockdep.c:211-232 | Depth-first search with two marks: extends a topological order past the node, or exhibits a cycle; terminates on the number of unmarked nodes |
| LockDep.LockGraph.Sort | core/kernel/lockdep.c:234-252 | Succeeds if and only if the graph is acyclic, and then leaves all marks clear |
| LockDep.LockGraph.FindEdge | core/kernel/lockdep.c:254-266 | Finds an edge if and only if there is one |
| LockDep.LockGraph.FindCycleEdges | core/kernel/lockdep.c:292-324 | Every edge of a reported cycle is found, the closing one included |
| LockDep.LockGraph.Acquire | core/kernel/lockdep.c:334-374 | Accepted if and only if no owned lock can be reached from the new one, equivalently if the new graph is acyclic; otherwise a shortest cycle through the lock is reported, so a cycle is always found |
| LockDep.LockGraph.TryAcquire | core/kernel/lockdep.c:381-402 | The lock becomes owned and known, without edges |
| LockDep.Release | core/kernel/lockdep.c:404-419 | The last acquisition of the lock leaves the owned list, an error if and only if there is none |
| LockDep.LockGraph.DestroyNode | core/kernel/lockdep.c:461-501 | The node and every edge to it are gone, all other edges stay in order |
| LockDep.LockGraph.Destroy | core/kernel/lockdep.c:503-514 | The same by lock id, nothing for an unknown lock |
| DeadlockFreedom.StepKeeps | core/arch/arm/kernel/mutex.c:19-105 | Every step of lock, trylock, unlock and destroy with its lockdep call keeps the invariant that waits follow graph edges |
| DeadlockFreedom.NoCircularWait | core/arch/arm/kernel/mutex_lockdep.c:37-73 | In no reachable state of any number of threads is there a circular wait, try-acquired locks counted as held |
| DeadlockFreedom.DeadlockFree | core/kernel/lockdep.c:334-419 | In every reachable state every chain of waiting threads ends at a thread that is not blocked |
| DeadlockFreedom.Progress | core/arch/arm/kernel/mutex.c:19-82 | From every reachable state each waiting thread has a chain of holders, and steps of the threads on it alone, that end with it having the mutex it waits for |
| DeadlockFreedom.Granted | core/arch/arm/kernel/mutex.c:19-61 | From every reachable state a lock request the checker accepts can be followed by steps that end with the thread having the mutex |
| DeadlockFreedom.TriedAndReleased | core/arch/arm/kernel/mutex.c:63-105 | A free mutex taken by trylock is had and listed, and after unlocking all is as before |
| DeadlockFreedom.DestroyForgets | core/kernel/lockdep.c:461-514 | Destroying a mutex removes it and exactly its edges from the graph |
| GaloisField.ProductCommutes | core/crypto/aes-gcm.c:523-548 | Multiplications by any two bit strings commute |
| GaloisField.BlockOne | core/crypto/aes-gcm.c:523-548 | The product of a block's bits with the field's one is the block |
| GaloisField.MulCommutes | core/crypto/aes-gcm-sw.c:24-35 | Multiplication of section 6.3 of NIST SP 800-38D is commutative, so the operand order at the call sites does not matter |
| GHash.Gfmul | core/crypto/aes-gcm.c:523-548 | The shift-and-reduce loop is that multiplication for all operands |
| GHash.Tables.GenTbl | core/crypto/aes-gcm-ghash-tbl.c:49-91 | Entry n of the table is nibble n times the subkey, for all sixteen nibbles |
| GHash.RemTable | core/crypto/aes-gcm-ghash-tbl.c:93-107 | Shifting by four and adding the entry of the constant table is multiplying by the fourth power |
| GHash.Tables.MultTbl | core/crypto/aes-gcm-ghash-tbl.c:109-145 | The table-driven multiplication is that multiplication for every subkey and block |
| GcmSpec.IncIsInc32 | core/crypto/aes-gcm.c:346-356 | The code's increment is the standard's 32-bit increment if and only if the low 32 bits are not all ones |
| GcmSpec.CtrIsGCtr | core/crypto/aes-gcm-sw.c:66-88 | Counter mode as the code runs it is GCTR of section 6.5 while the low 32 bits do not wrap |
| GcmSpec.CtrTwice | core/crypto/aes-gcm-sw.c:51-127 | The counter mode undoes itself for every input |
| GcmSpec.LenFieldCorrect | core/crypto/aes-gcm.c:57-67 | The length field is right if and only if the length is below 2^29 bytes |
| GcmSpec.LenFieldWraps | core/crypto/aes-gcm.c:57-67 | For every length the field is that of the length modulo 2^29 |
| GcmSpec.InitialCounterCorrect | core/crypto/aes-gcm.c:69-122 | The first counter is that of section 7.1 for nonces of any length below 2^29 bytes |
| GcmSpec.CodeIsGcmAe | core/crypto/aes-gcm.c:266-288 | Ciphertext and tag in the code's one-shot form are GCM-AE of section 7.1 |
| GcmSpec.ShortNonce | core/crypto/aes-gcm.c:69-122 | With a 96-bit nonce the low 32 counter bits do not wrap |
| GcmCounter.IncIsIncrement | core/crypto/aes-gcm.c:346-356 | The two-word increment counts the sixteen bytes up with the carry through all of them |
| GcmCounter.IncAddsOne | core/crypto/aes-gcm.c:346-356 | As a number the counter block grows by one, modulo 2^128 |
| GcmCounter.CountersApart | core/crypto/aes-gcm.c:346-356 | No two of 2^128 successive counter blocks are the same |
| GcmCounter.NoKeyStreamTwice | core/crypto/aes-gcm-sw.c:51-127 | Each payload byte is xored with key stream made from a counter block that no other block of the message and not the tag mask uses, wrapping counters included |
| GcmStream.Gcm.GhashUpdatePadZero | core/crypto/aes-gcm.c:27-55 | Hashes the data padded with zeros to whole blocks |
| GcmStream.Gcm.GhashUpdateLengths | core/crypto/aes-gcm.c:57-67 | Hashes the block of the two lengths |
| GcmStream.Gcm.Init | core/crypto/aes-gcm.c:69-122 | Starts the stream at the first counter, or rejects a tag length above 16 |
| GcmStream.Gcm.UpdateAad | core/crypto/aes-gcm.c:140-181 | At any alignment the state becomes that of the longer associated data, what came before an empty payload update being padded; an error after payload |
| GcmStream.PaddedBetween | core/crypto/aes-gcm.c:200-207 | What is hashed is the same as without the empty payload update if and only if the data before was whole blocks, the data after is empty, or it is zeros that the padding only moves |
| GcmStream.PaddedApart | core/crypto/aes-gcm.c:200-207 | Instance: one byte, an empty payload update and one more byte hash two blocks and not one |
| GcmStream.Gcm.UpdatePayload | core/crypto/aes-gcm.c:189-255 | From any position in a block, the output continues the counter mode of the whole text and the state becomes that of the longer text |
| GcmStream.Gcm.GhashUpdateBlock | core/crypto/aes-gcm-sw.c:24-35 | One more block is hashed, by table or by loop |
| GcmStream.Gcm.GhashUpdate | core/crypto/aes-gcm-sw.c:37-49 | Head block and data blocks are hashed in order |
| GcmStream.Gcm.EncryptBlock | core/crypto/aes-gcm-sw.c:51-64 | One whole block continues the encryption, with the key stream one block ahead |
| GcmStream.Gcm.DecryptBlock | core/crypto/aes-gcm-sw.c:90-103 | One whole block continues the decryption, hashing the ciphertext |
| GcmStream.Gcm.UpdateBlocks | core/crypto/aes-gcm-sw.c:130-141 | Any number of whole blocks continues the stream |
| GcmStream.Gcm.OperationFinal | core/crypto/aes-gcm.c:266-288 | Leaves the tag of all associated data and all ciphertext |
| GcmStream.Gcm.EncFinal | core/crypto/aes-gcm.c:290-308 | Last ciphertext and tag, or a short-buffer error exactly when the tag does not fit |
| GcmStream.Gcm.DecFinal | core/crypto/aes-gcm.c:318-336 | Last plaintext; accepted if and only if the tag has the right length and value |
| GcmRuns.Encrypt | core/crypto/aes-gcm.c:124-316 | Associated data and payload under 2^32 bytes, in any splitting at any alignment, give the result for the whole strings; in the range of `InRange` (strings under 2^29 bytes, low 32 counter bits not wrapping) it is exactly GCM-AE of section 7.1 |
| GcmRuns.Decrypt | core/crypto/aes-gcm.c:124-344 | In any splitting, returns the one plaintext that encrypts to the ciphertext and accepts if and only if the tag is its tag; in the same range both are those of GCM-AE |
| GcmRuns.RoundTrip | core/crypto/aes-gcm.c:124-344 | For every nonce, wrapping counters included, and all strings under 2^32 bytes, decrypting under any other splitting, the last part included, and either multiplication accepts and returns the plaintext |
| GcmRuns.SameCipherText | core/crypto/aes-gcm.c:290-308 | Under one nonce, different plaintexts have different ciphertexts, whatever their sizes |
| CbcMode.CbcInverse | core/crypto/sm4.c:216-247 | CBC decryption undoes CBC encryption for any invertible cipher |
| CbcMode.Cs3Inverse | core/crypto/aes-cts.c:93-187 | CBC-CS3 decryption undoes encryption for every message over 16 bytes, whole blocks included |
| CbcMode.Cs3EncSplit | core/crypto/aes-cts.c:93-187 | Whole blocks encrypted first by CBC, the rest with the carried vector, make CBC-CS3 of the whole |
| CbcMode.Cs3DecSplit | core/crypto/aes-cts.c:93-187 | The same for decryption |
| Cts.Context.CbcUpdate | core/tee/tee_cryp_utl.c:95-125 | A CBC update of whole blocks continues the chain; other lengths are an error |
| Cts.Context.EncryptLast | core/crypto/aes-cts.c:93-187 | The last update, done in pieces and with swapped blocks, is CBC-CS3 encryption |
| Cts.Context.DecryptLast | core/crypto/aes-cts.c:93-187 | The last update, with the stolen tail recovered from a temporary block, is CBC-CS3 decryption |
| Cts.Context.Update | core/crypto/aes-cts.c:93-196 | Both of these, with the length errors |
| Cts.Encrypt | core/crypto/aes-cts.c:189-196 | Any whole-block splitting with a last part over 16 bytes gives CBC-CS3 of the whole |
| Cts.RoundTrip | core/crypto/aes-cts.c:189-196 | Decrypting under any other such splitting returns the message |
| Sm4Spec.RoundUndone | core/crypto/sm4.c:118-122 | A round with its words reversed undoes itself, whatever the S-box |
| Sm4Spec.FeistelReversed | core/crypto/sm4.c:163-184 | The words of an encryption read backwards are those of one with reversed round keys |
| Sm4Spec.CryptUndone | core/crypto/sm4.c:163-201 | Reversed round keys undo the cipher for all round keys and blocks |
| Counters.IncrementCounts | core/crypto/sm4.c:249-270 | The counter loop adds one to the big-endian number, modulo its size |
| Counters.NoCounterTwice | core/crypto/sm4.c:249-270 | No counter comes twice before all have come |
| Sm4Mixing.SubstituteBytes | core/crypto/sm4.c:95-116 | The S-box acts on each byte of a word in its place |
| Sm4Mixing.PlainMaps | core/crypto/sm4.c:102-138 | With the identity for the S-box, the round and key functions are the two diffusions |
| Sm4Mixing.DiffuseAdds | core/crypto/sm4.c:102-116 | The diffusion of the round function is linear over xor |
| Sm4Mixing.DiffuseBits | core/crypto/sm4.c:102-116 | It takes each bit to its own place and 2, 10, 18 and 24 places up, around the word |
| Sm4Mixing.KeyDiffuseAdds | core/crypto/sm4.c:124-138 | The diffusion of the key schedule is linear over xor |
| Sm4Mixing.KeyDiffuseBits | core/crypto/sm4.c:124-138 | It takes each bit to its own place and 13 and 23 places up |
| Sm4Mixing.CkBytes | core/crypto/sm4.c:83-93 | Byte j of constant i of the key schedule is 7 (4 i + j) modulo 256 |
| Sm4Mixing.KeysDiffer | core/crypto/sm4.c:140-161 | Different keys have different round keys, whatever the S-box |
| Sm4Example.ExampleKeys | core/crypto/sm4.c:43-161 | Instance: with the S-box of the code, the first four round keys of the example in annex A of GM/T 0002-2012 |
| Sm4Example.ExampleRound | core/crypto/sm4.c:118-122 | Instance: the first word computed from its block |
| Sm4Spec.CtrModeTwice | core/crypto/sm4.c:249-270 | Counter mode undoes itself |
| ModesByBlock.EcbAt | core/crypto/sm4.c:203-214 | ECB: each block is encrypted by itself |
| ModesByBlock.CbcEncAt | core/crypto/sm4.c:216-247 | CBC: each block is encrypted with the cipher text block before it, or the vector, xored in |
| ModesByBlock.CbcDecAt | core/crypto/sm4.c:216-247 | CBC decryption: each block decrypted, with the cipher text block before it xored in |
| ModesByBlock.CtrModeAt | core/crypto/sm4.c:249-270 | CTR: block i is xored with the encryption of the counter i steps on |
| ModesByBlock.CountersDiffer | core/crypto/sm4.c:249-270 | No two of fewer than 2^128 blocks use the same counter |
| Sm4.Context.SetKey | core/crypto/sm4.c:124-161 | The array holds the key schedule |
| Sm4.Context.SetKeyDec | core/crypto/sm4.c:192-201 | Swapping in place leaves the key schedule reversed |
| Sm4.Context.OneRound | core/crypto/sm4.c:163-184 | The loop over the word buffer computes the Feistel network |
| Sm4.Context.CryptEcb | core/crypto/sm4.c:203-214 | Block by block, ECB of the input |
| Sm4.Context.CryptCbc | core/crypto/sm4.c:216-247 | CBC in either direction, carrying the vector to the next call |
| Sm4.Context.CryptCtr | core/crypto/sm4.c:249-270 | Counter mode, carrying the counter to the next call |
| Sm4Runs.ResultSplit | core/crypto/sm4.c:203-270 | In every mode and direction, two updates with the carried vector make one update of the whole |
| Sm4Runs.Feed | core/crypto/sm4.c:203-270 | Any splitting into updates gives the result of one |
| Sm4Runs.RoundTrip | core/crypto/sm4.c:186-270 | For every key, vector, mode and message, decrypting under any other splitting returns the message |
| TaEntry.StepKeeps | core/kernel/tee_ta_manager.c:60-166 | Every registering, loading, entering, waking and leaving step keeps the invariant and meets its asserts |
| TaEntry.EntryProtocol | core/kernel/tee_ta_manager.c:95-166 | In every interleaving at most one thread is inside a non-concurrent context, all busy single-instance contexts entered with the lock belong to its owner, the lock count is their number, and the owner waits only for a context found initialising, which if single-instance still is |
| TaEntry.OwnerNeverWaits | core/kernel/tee_ta_manager.c:104-134 | While all contexts are initialised the owner of the lock waits for nothing |
| TaEntry.OwnerInCircle | core/kernel/tee_ta_manager.c:104-111 | A run in which the owner waits for an initialising context whose thread waits for the lock |
| TaEntry.AssertsHold | core/kernel/tee_ta_manager.c:60-166 | No assert on taking the lock, giving it back or leaving a context fails in any step of any run |
| TaEntry.EnterMeans | core/kernel/tee_ta_manager.c:95-149 | A free context lets the thread in, with the lock when it is single instance; otherwise it waits for the right thing, or is refused as the owner with the lock as it was |
| TaEntry.ResumeMeans | core/kernel/tee_ta_manager.c:95-149 | A thread whose wait ends is let in, unless it has yet to wait for the lock |
| TaEntry.LeaveMeans | core/kernel/tee_ta_manager.c:151-166 | Leaving frees the context, ends its initialisation, and lets the lock go with the last context it was taken for; nothing else changes |
| TaEntry.LeaveAndEnter | core/kernel/tee_ta_manager.c:95-166 | Leaving an initialised context and entering it again gives back the very same state |
| TaEntry.LockProgress | core/kernel/tee_ta_manager.c:60-149 | While all contexts are initialised, each thread waiting for the single-instance lock is let in after the owner has left its contexts, which it can |
| Sessions.StepKeeps | core/kernel/tee_ta_manager.c:168-275 | Every step keeps exact counts, unique ids, and one lock holder who has a reference |
| Sessions.SoleReference | core/kernel/tee_ta_manager.c:257-275 | When unlinking ends its wait, the closer's reference is the only one |
| Sessions.UnlinkedOnlyShrinks | core/kernel/tee_ta_manager.c:219-255 | Once a session is unlinked no step gains a reference to it, takes its lock or links it again |
| Sessions.SessionLifetime | core/kernel/tee_ta_manager.c:168-275 | The invariant holds in every state of every run |
| Sessions.OnlyCloserRemoves | core/kernel/tee_ta_manager.c:257-275 | In every run a session leaves the list only in a step of its closer, who then has the sole reference |
| Sessions.Exclusion | core/kernel/tee_ta_manager.c:219-255 | In every run, between the moment a thread gets a session exclusively and the moment it puts or ends it, no exclusive get of it succeeds |
| Sessions.GetMeans | core/kernel/tee_ta_manager.c:219-255 | A get adds one reference; an exclusive one takes a free lock or waits for it, a plain one leaves lock and threads alone |
| Sessions.GetFails | core/kernel/tee_ta_manager.c:219-255 | For an unknown id, or a session being unlinked, nothing happens |
| Sessions.PutMeans | core/kernel/tee_ta_manager.c:176-187 | A put takes one reference back, and the lock of the thread that has it |
| Sessions.WaiterServed | core/kernel/tee_ta_manager.c:219-255 | Once the holder has put the session, each thread waiting for it can get it exclusively |
| Sessions.OpenMeans | core/kernel/tee_ta_manager.c:606-640 | A new session is found by its id, unlocked, with one reference of its opener |
| Sessions.CloseMeans | core/kernel/tee_ta_manager.c:257-275 | Unlinking a session nobody else holds removes it, its id and its references and leaves all else as it was |
| Sessions.NewSessionId | core/kernel/tee_ta_manager.c:580-604 | Returns the first unused non-zero id from that after the last session's on, around the range, and 0 if and only if all 2^32 - 1 ids are in use |
| SharedFiles.StepKeeps | core/mm/file.c:109-177 | Every step, compare-and-swap loops included, keeps the invariant |
| SharedFiles.OnePerTag | core/mm/file.c:54-64 | At most one file of a tag is in use and it is the first match in the list |
| SharedFiles.NeverRevived | core/mm/file.c:117-165 | A file whose count is zero keeps it, and a freed file stays freed |
| SharedFiles.NoUseAfterFree | core/kernel/refcount.c:10-52 | No step touches a freed file, each is removed from the list and freed once, and getting by reference never sees a zero count |
| SharedFiles.ZeroForEver | core/mm/file.c:167-177 | Over whole runs: once zero, zero for ever |
| SharedFiles.GetAlone | core/mm/file.c:109-115 | Undisturbed, getting a file adds one reference and changes nothing else |
| SharedFiles.PutAlone | core/mm/file.c:167-177 | Undisturbed, putting a file takes one reference back and leaves the last one to be removed |
| SharedFiles.IncRetried | core/kernel/refcount.c:10-30 | A failed increment succeeds the next time if nobody comes in between |
| SharedFiles.DecRetried | core/kernel/refcount.c:32-52 | So does a failed decrement, which changes nothing itself |
| SharedFiles.RemoveAndFree | core/mm/file.c:167-177 | The thread with the last reference takes exactly that file out of the list and frees it |
| SharedFiles.ByTagAlone | core/mm/file.c:117-165 | Undisturbed, getting by tag ends with the mutex free and a reference to the file of that tag: the one in use with one more, or a new one |
| Tzc380.SubRegions | core/drivers/tzc380.c:266-275 | The loop enables one run of sub-regions, as many as fit |
| Tzc380.AutoConfigure | core/drivers/tzc380.c:178-289 | On return the enabled sub-regions planned cover exactly the range, each address once, with at most one region per size and each on its own boundary; what is programmed covers it if and only if region 0 is not among them; an assert stops it exactly when bytes are left over or regions run out |
| Tzc380.CoverDisjoint | core/drivers/tzc380.c:219-289 | No two programmed regions share an enabled address |
| Tzc380Cover.CoveredIff | core/drivers/tzc380.c:243-284 | A range is covered if and only if it is empty, or both ends are on 8192-byte boundaries and its address and size in units meet a condition on numbers alone |
| Tzc380Cover.FirstIsLargest | core/drivers/tzc380.c:243-263 | The first sub-regions used have the largest size that divides the address and is below half of the range |
| Tzc380Cover.Settled | core/drivers/tzc380.c:243-284 | Units from a multiple of a power of two not below their number are covered if and only if stripping the part the next size takes ends at zero |
| Tzc380Cover.Spilled | core/drivers/tzc380.c:243-284 | Past the end of the first region, the gap to the furthest reach of the smaller regions decides |
| Tzc380Cover.AlignedCovered | core/drivers/tzc380.c:219-289 | In bytes: from such a multiple the size alone decides |
| Tzc380Cover.FiveUnits | core/drivers/tzc380.c:219-289 | Instance: 40960 bytes from 0 on are not covered, 49152 are, in every space of 2^17 bytes or more |

## Left out

- RPC and allocation failures: storage writes and allocations succeed; a crash is the end of the writes.
- Torn head writes: `CrashSafety` allows any torn node or block write, but takes a head write as atomic.
- Truncation in crash theorems: `HTreeRuns` and `TwoLevelCommit` have no truncate step; `ReeFile` gives its byte meaning and `HTreeTruncate` its effect on reopening. The cut of the backing file is not in the log of writes.
- Cryptography: AES, SHA-256, key wrapping and the S-box of SM4 are parameters with only the laws needed.
- HTreeImpl.HTree.Sync: requires a head counter below its 32-bit maximum; `HTreeRuns.CounterWrap` says what happens at it.
- ReeFile.FileHandle.OutOfPlaceWrite: requires the length to be inside the blocks, as every write whose last position fits an `int` leaves it; what is done to a file after `FileWrites.LostWrite` is not modelled.
- ReeFile.FileHandle.FtruncateInternal: requires the same, and fewer than 2^32 bytes in a file that grows, which `FileWrites.WriteLimit` gives.
- ReeFile.FileHandle.ReadPrimitive: requires the same, and that the bytes there are to read end at 2^32 or before, which `FileWrites.WriteLimit` gives too.
- ReeFile.FileHandle.WritePrimitive: requires the same as for extending.
- ReeFs.WriteAndSync: requires a write below 2^32, or beyond the range of `size_t`, and a counter as above.
- ReeFs.Write: requires the same of the write and of both counters, and the directory to be open; reference counting of the directory handle is not modelled.
- ReeFs.Reopen: requires the entry to lie in the first 2^31 bytes of the directory; which entry has the name of the object is `DirFile.Directory.Find`.
- ReeFs.FirstFile: writes the first entry as bytes; the number from `get_tmp` and the search of `set_name` are in `DirFile`.
- File creation, renaming, removal and opening at the level of `tee_ree_fs.c`: only writing and opening again are taken through both commit levels; of creation and renaming the directory part is in `DirFile`, whose table is a sequence of entries, not bytes of a file.
- DirFile.Directory.RenameObject: requires the object to have a name, as every stored object has; an empty one would make the search find a free entry.
- The RPMB variant of the directory hash: not part of this model.
- Read locks of a mutex: lockdep does not check them and `DeadlockFreedom` has none.
- LockDep.LockGraph.Acquire: says nothing about marks after a rejection, where the caller panics; call stacks of locks are not kept.
- Condition variables: a waiting thread can go on when its condition holds; lost wake-ups and liveness are not modelled.
- Contexts that turn out concurrent when they are loaded, and panicked trusted applications: not part of `TaEntry` and `Sessions`.
- GcmStream.Gcm.UpdateAad: requires byte counts below 2^32, where the 32-bit counters of the code wrap.
- GcmStream.Gcm.UpdatePayload: requires the same; takes buffers as values, so source and destination overlapping is not modelled; nor are the one-shot wrappers.
- GcmStream.Gcm.OperationFinal: requires the same.
- GcmStream.Gcm.EncFinal: requires the same.
- GcmStream.Gcm.DecFinal: requires the same.
- GcmRuns.Encrypt: requires the same of the whole strings.
- GcmRuns.Decrypt: requires the same of the whole strings.
- GcmRuns.RoundTrip: requires the same of the whole strings.
- Cts.Context.Update: takes buffers as values; updating in place is not modelled.
- Reference counts at their maximum and file slices: not part of `SharedFiles`.
- Tzc380.AutoConfigure: addresses do not wrap around the machine word.
