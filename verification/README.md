# TGCryptFS in Dafny

A model of the core of TGCryptFS, and proofs about it: the filesystem handlers over
their database, handle table, block cache and block transport; the content-defined
chunker; the sentence references; SRB1 framing; the policy globs; and the deadman
daemon. `dafny verify dfyconfig.toml` checks everything.

## How it is built

| file | what it holds |
|---|---|
| `Content.dfy`, `Wrappers.dfy` | bytes, block identifiers, content hashes, options and results |
| `Store.dfy` | inode records, the two tables with their keys and unique index, one open transaction; the class `Connection` |
| `Manifest.dfy` | manifests, their validation, range lookup, reading block by block |
| `HandleTable.dfy`, `Transport.dfy`, `BlockCache.dfy` | the other mutable stores, each a class with the value it stands for |
| `Namespace.dfy`, `Fs.dfy` | every handler as a function on values, and the machine with one step per request |
| `Paging.dfy` | readdir in pages, over a directory that stays or changes |
| `CryptFs.dfy` | the object itself: handlers as methods over the five stores, proved against those functions |
| `AbstractFs.dfy` | what a filesystem is meant to be: nodes with a parent and a name, bytes, buffers |
| `Tree.dfy`, `NamespaceRefinement.dfy` | the rooted tree and the namespace half of the refinement |
| `DataRefinement.dfy`, `FsRefinement.dfy` | the bytes half, and the refinement over whole runs |
| `CachedReads.dfy`, `CacheHistory.dfy` | what reads and uploads leave in the cache, and the cache over whole runs |
| `Metadata.dfy` | attributes of new entries, labels of blocks and manifests |
| `Unconditional.dfy` | what every request keeps in every state |
| `Links.dfy`, `RefCounts.dfy` | link counts, deduplication accounting |
| `Durability.dfy`, `Restarts.dfy` | open transactions, what a restart finds |
| `TreeBoundaries.dfy`, `RenameBoundaries.dfy`, `TreeRuns.dfy` | exactly which requests and failures the tree survives, one by one and over runs |
| `DataBoundaries.dfy`, `OpenFiles.dfy` | exactly which writes and releases keep the bytes, and which requests take an inode from under a handle |
| `BlockCacheProofs.dfy` | the cache over every sequence of operations |
| `Bits.dfy`, `Cdc.dfy`, `CdcProofs.dfy` | 64-bit words and the chunker |
| `Sentence.dfy`, `SentenceProofs.dfy` | sentence references |
| `Srb1.dfy`, `Glob.dfy` | block framing, globs |
| `Deadman.dfy`, `DeadmanProofs.dfy` | the deadman daemon |

The main theorem is `FsRefinement.FilesystemRefines`. Its conditions on requests are
`FsRefinement.Allowed` and `NamespaceRefinement.Orderly`:

- handles are used with the inode they were opened on, as the kernel does;
- a write leaves the handle's buffer non-empty;
- a release with bytes can flush them and record the result: there is a transport, the
  content is found or is accepted under an unused random identifier, and the update of
  the file's row does not fail;
- a read without bytes of its own is of blocks that are cached or that the transport
  delivers, and the recorded size does not cut the range, as it can only while another
  handle of the file has unflushed bytes (`FsRefinement.QuietFileServes`);
- rename moves a name into an existing directory outside the moved subtree and not onto
  itself, and the parent of a removed or moved entry is an inode number, never 0;
- failures that the namespace handlers ignore do not do harm: a failing update of a
  parent whose child is inserted or removed, a failing rollback that should have undone
  half of a change, a failing statement of rename other than COMMIT.

Everything else may happen: failing queries, inserts, updates, deletes, rollbacks and
commits, uploads and downloads that fail between flushes and reads, any cache size,
eviction at any time, shared blocks, files unlinked or replaced while open, left-open
transactions. What lies outside the conditions is settled by if-and-only-ifs over the
state before the request, with every statement whose failure the program ignores able to
fail: for the tree `TreeRuns.StepKeepsTreeIff`, for writes `DataBoundaries.WriteIsSoundIff`,
for releases `DataBoundaries.ReleaseIsRightIff` and `DataBoundaries.ReleaseIsSoundIff`, for
reads `FsRefinement.ReadRefined`, for handles `OpenFiles.StepKeepsCurrentIff`, for
transactions `Durability.WhatLeavesItOpen`, for reference counts
`RefCounts.StepUndercountsIff` and `RefCounts.StepDuplicatesIff`. Link counts have theirs,
`Links.ExactUnlessReplaced`, within the orderly requests.

SQLite is two maps, a unique index and at most one saved copy of the tables. BLAKE3 is an
injective constructor. Random identifiers, which statements fail, which
row a query picks among several, and the state of the network are inputs of the steps.
Sealing a cached block is a constructor that remembers the block it was sealed for, and
the cipher of SRB1 is an ideal one that keeps a ledger of what it sealed.

## What the proofs found in the code

- A rename refused with ENOTEMPTY, and a COMMIT or ROLLBACK that fails, leave the
  transaction open (`crates/tgcryptfs-fuse/src/fs.rs:989-992`, `crates/tgcryptfs-fuse/src/fs.rs:820`):
  `Durability.WhatLeavesItOpen`. From then on every directory change is refused, and every
  acknowledged write, release and symlink is lost at the next restart:
  `Durability.NothingLastsOnceWedged`.
- Renaming a name onto itself deletes the file and leaves its number in the parent's
  children list, and rename checks neither that the new parent exists nor that it lies
  outside the moved directory: `RenameBoundaries.QuietRenameKeepsTreeIff`. It also ignores
  the failure of each of its statements: `RenameBoundaries.RenameKeepsTreeIff`.
- Replacing an empty directory by rename leaves one link too many: `Links.ExactUnlessReplaced`.
- symlink, unlink and rmdir ignore a failing update of the parent's row, and all handlers
  a failing rollback: `TreeBoundaries.SymlinkKeepsTreeIff`, `TreeBoundaries.RemoveKeepsTreeIff`,
  `TreeBoundaries.MakeKeepsTreeIff`.
- An empty write at offset 0 makes a file read as empty: `DataBoundaries.WriteIsSoundIff`.
- While one handle has unflushed bytes, a read through another may be cut short by the size
  recorded for them, or filled with zeros past the end. A block that cannot be fetched
  makes the whole reply empty, with success: `FsRefinement.FileReadIsSliceIff`.
- release replies with success when its upload or its row update failed; the buffer is
  gone, and the size that write stored stays: `DataBoundaries.ReleaseIsRightIff`,
  `DataBoundaries.ReleaseIsSoundIff`, `Restarts.CleanRestart`.
- Inode numbers are reused while old handles are open, so that closing such a handle
  writes into another file: `OpenFiles.NumberIsReusedIff`,
  `OpenFiles.StrandedHandleWritesNewFile`. It takes an unlink or a rename over an open file:
  `OpenFiles.StepKeepsCurrentIff`.
- Nothing lowers a reference count: with the increments that were lost it equals the number
  of flushes ever made (`RefCounts.CountsInEveryRun`). A lost increment can leave fewer counts
  than users (`RefCounts.StepUndercountsIff`), a failed query two rows for one content
  (`RefCounts.StepDuplicatesIff`).
- readdir counts positions in a listing made anew by every call: an entry removed after it
  was delivered makes another one go missing (`Paging.RemovalSkipsIff`).
- Making room for a block that is cached already counts its old copy too, so that a put of a
  known block may evict others for nothing: `BlockCacheProofs.PutEvictsJustEnough`.
- The term that should take the outgoing byte out of the rolling hash is always zero:
  `Cdc.OutgoingWeightVanishes`. The hash is nevertheless local, to 8 bytes instead of 48.
- A disarm exactly one second before the end of the grace period can come too late, and
  without a grace period it is always ignored: `Deadman.LastSecondIsTooLate`,
  `Deadman.ZeroGraceIgnoresDisarm`.
- SRB1 stores the plaintext length in 32 bits, so that a longer plaintext encodes to a
  block that does not decode: `Srb1.DecodeInvertsEncode`.
- The documentation says that files are encrypted, chunked and uploaded as opaque
  blocks (line 14 of the README of the repository). The filesystem of this commit uploads
  the whole write buffer as one block as it is (`crates/tgcryptfs-fuse/src/fs.rs:176-194`);
  chunker and SRB1 framing are not called from it. The model follows the code.

## Model

| member | source | states |
|---|---|---|
| `FsRefinement.FilesystemRefines` | crates/tgcryptfs-fuse/src/fs.rs:161-1104 | over every allowed run from the mount on, all replies and the final state are those of a filesystem that is just a tree of names, one byte string per file and one buffer per handle; blocks, deduplication, messages, manifests, children lists and cache are invisible |
| `FsRefinement.RunRefines` | crates/tgcryptfs-fuse/src/fs.rs:161-1104 | the same from any state that satisfies the invariant, which the run keeps |
| `FsRefinement.StepRefines` | crates/tgcryptfs-fuse/src/fs.rs:161-1104 | one allowed request, or one change of the link status, keeps the invariant and matches the abstract step in state and reply |
| `FsRefinement.ReadRefined` | crates/tgcryptfs-fuse/src/fs.rs:646-732 | every read leaves files and buffers as they are, and replies with the handle's own bytes or else the slice of the committed ones exactly if the handle has bytes, or the blocks can be had and the recorded size does not cut the range |
| `FsRefinement.FileReadIsSliceIff` | crates/tgcryptfs-fuse/src/fs.rs:680-727 | a read through an empty handle is the slice of the file exactly if the blocks in range can be had and the recorded size serves the range, whatever other handles hold; with a block out of reach the reply is empty |
| `FsRefinement.FlushSucceedsIff` | crates/tgcryptfs-fuse/src/fs.rs:161-213 | a flush yields a block exactly when there is a transport and the content is found, or can be uploaded and stored under an unused identifier |
| `FsRefinement.WriteRefined` | crates/tgcryptfs-fuse/src/fs.rs:734-771 | a write through a handle of the file changes that handle's buffer alone, zero-filling any gap; no file changes its bytes, whether or not the size can be stored |
| `FsRefinement.BufferAfterWrite` | crates/tgcryptfs-fuse/src/fs.rs:746-754 | byte by byte: inside the written range the new data, elsewhere the old bytes, zeros in a gap, and the buffer as long as the longer of both; no other handle changes |
| `FsRefinement.FlushedRelease` | crates/tgcryptfs-fuse/src/fs.rs:592-644 | closing a handle with bytes makes them the whole file, changes no other file even when the block is shared, and removes the handle, if the flush and the row update succeed |
| `FsRefinement.FlushSucceeds` | crates/tgcryptfs-fuse/src/fs.rs:161-213 | a flush that can succeed yields a sound block for exactly these bytes and keeps every existing block and message, lost increments and repeated rows included |
| `FsRefinement.TreeInEveryRun` | crates/tgcryptfs-fuse/src/fs.rs:161-1104 | in every orderly run, whatever uploads, downloads and handles do, the rows stay a rooted tree and act as the abstract namespace |
| `FsRefinement.MountIsSound` | crates/tgcryptfs-fuse/src/fs.rs:266-293 | a fresh mount satisfies the invariant and stands for the root alone |
| `DataRefinement.FetchIsTransparent` | crates/tgcryptfs-fuse/src/fs.rs:216-241 | the bytes of a block are those of its message whether or not the cache is hit, and there are bytes exactly when the block is cached or the transport answers |
| `DataRefinement.ReadLoopAssembles` | crates/tgcryptfs-fuse/src/fs.rs:686-714 | the read loop succeeds exactly if every block is reachable, and then fills the buffer as if every message were at hand, whatever evictions happen on the way |
| `DataRefinement.FilesStay` | crates/tgcryptfs-fuse/src/fs.rs:161-213 | keeping old messages and block rows keeps the bytes of every file |
| `CachedReads.FetchLeavesCached` | crates/tgcryptfs-fuse/src/fs.rs:216-241 | whatever a fetch yields is in the cache afterwards, downloaded or found |
| `CachedReads.SecondReadNeedsNoLink` | crates/tgcryptfs-fuse/src/fs.rs:646-732 | a range that was read once is read the same again with the link down, if the cache can hold its blocks together, of which one always fits |
| `CachedReads.ClosedFileReadsOffline` | crates/tgcryptfs-fuse/src/fs.rs:161-213 | a file just closed can be read with the link down, except when its bytes were known to the database and not cached |
| `CacheHistory.CacheOfEveryRun` | crates/tgcryptfs-fuse/src/fs.rs:161-241 | after every run from the mount the cache is that of the gets and puts its reads and uploads make, and so within its limit, in order of last use, and true to the last put |
| `NamespaceRefinement.DbStepRefines` | crates/tgcryptfs-fuse/src/fs.rs:266-1104 | every namespace handler, with failing statements, keeps the tree and does and replies what the abstract namespace would, wedging included |
| `NamespaceRefinement.MkdirRefines` | crates/tgcryptfs-fuse/src/fs.rs:397-488 | mkdir does what the abstract namespace does unless the parent update and the rollback that would undo the insert both fail |
| `NamespaceRefinement.CreateRefines` | crates/tgcryptfs-fuse/src/fs.rs:490-578 | the same for the database part of create |
| `NamespaceRefinement.InsertTxnOutcome` | crates/tgcryptfs-fuse/src/fs.rs:459-484 | insert and parent update happen both or not at all; only a failing COMMIT or ROLLBACK leaves the transaction open |
| `NamespaceRefinement.SymlinkRefines` | crates/tgcryptfs-fuse/src/fs.rs:1043-1104 | symlink adds exactly one leaf, or nothing if the unique index refuses the name |
| `NamespaceRefinement.UnlinkRefines` | crates/tgcryptfs-fuse/src/fs.rs:773-822 | unlink removes exactly the named non-directory |
| `NamespaceRefinement.RmdirRefines` | crates/tgcryptfs-fuse/src/fs.rs:824-878 | rmdir removes exactly the named directory, and refuses it exactly when it has entries |
| `NamespaceRefinement.RenameRefines` | crates/tgcryptfs-fuse/src/fs.rs:942-1026 | with no failure that is ignored except that of COMMIT, rename moves the node, after removing the destination if that is a file or an empty directory; a non-empty one is refused and leaves the transaction open |
| `NamespaceRefinement.ReaddirRefines` | crates/tgcryptfs-fuse/src/fs.rs:880-940 | the listing by parent column is the set of the tree's entries with . and .. |
| `NamespaceRefinement.LookupRefines` | crates/tgcryptfs-fuse/src/fs.rs:295-318 | lookup finds the one node with this parent and name |
| `NamespaceRefinement.EmptyMeansNothingListed` | crates/tgcryptfs-fuse/src/fs.rs:852-855 | rmdir's test on the children list and readdir's listing by parent agree on emptiness |
| `Trees.AddKeepsTree` | crates/tgcryptfs-fuse/src/fs.rs:464-479 | a fresh node joining a directory keeps unique names, duplicate-free exact children lists and every chain to the root |
| `Trees.RemoveKeepsTree` | crates/tgcryptfs-fuse/src/fs.rs:806-818 | so does a childless node leaving its directory |
| `Trees.MoveKeepsTree` | crates/tgcryptfs-fuse/src/fs.rs:1000-1022 | so does a move to an existing directory outside the moved subtree |
| `Trees.ParentIsAnother` | crates/tgcryptfs-fuse/src/fs.rs:1009-1013 | no inode but the root can be its own parent in a tree |
| `RenameBoundaries.RenameKeepsTreeIff` | crates/tgcryptfs-fuse/src/fs.rs:942-1026 | for every destination and every pattern of the seven statements whose failure rename ignores, a condition on the rows it finds says exactly when it leaves a tree |
| `RenameBoundaries.QuietRenameKeepsTreeIff` | crates/tgcryptfs-fuse/src/fs.rs:942-1026 | with none of them failing: exactly the refused renames, and those into an existing directory outside the moved subtree that are not of a name onto itself |
| `TreeRuns.StepKeepsTreeIff` | crates/tgcryptfs-fuse/src/fs.rs:161-1104 | one request of any kind leaves a tree if and only if it meets its condition in the state it finds |
| `TreeRuns.AlwaysATreeIff` | crates/tgcryptfs-fuse/src/fs.rs:161-1104 | the rows are a tree in every state of a run if and only if every request meets its condition where it comes |
| `TreeBoundaries.MakeKeepsTreeIff` | crates/tgcryptfs-fuse/src/fs.rs:459-484 | mkdir and create break the tree exactly if they come to insert the node, and the parent update and the rollback both fail |
| `TreeBoundaries.SymlinkKeepsTreeIff` | crates/tgcryptfs-fuse/src/fs.rs:1043-1104 | symlink breaks the tree exactly if the parent is a directory, the name is free, the insert works and the ignored update of the parent fails |
| `TreeBoundaries.RemoveKeepsTreeIff` | crates/tgcryptfs-fuse/src/fs.rs:773-878 | unlink (rmdir) breaks the tree exactly if no transaction is open, the name is a non-directory (an empty directory), and either the ignored update of the parent fails and the delete works, or the update works and delete and rollback fail |
| `DataBoundaries.WriteIsSoundIff` | crates/tgcryptfs-fuse/src/fs.rs:746-767 | a write keeps the invariant except for an empty write at offset 0 through an empty handle, whose size is stored, on a file with bytes and no other pending ones |
| `DataBoundaries.HiddenFileReadsEmpty` | crates/tgcryptfs-fuse/src/fs.rs:680-727 | after such a write the file reads as empty although all its bytes are there |
| `DataBoundaries.ReleaseIsSoundIff` | crates/tgcryptfs-fuse/src/fs.rs:592-644 | a release keeps the invariant except when its bytes are lost, no other handle of the file has any, and the recorded size is not that of the stored manifest |
| `DataBoundaries.ReleaseIsRightIff` | crates/tgcryptfs-fuse/src/fs.rs:592-644 | release always replies with success; the file holds the buffer if and only if the flush can succeed and the row update does not fail, or nothing had to change; otherwise the buffer is lost |
| `DataBoundaries.ReleaseChangesOneFile` | crates/tgcryptfs-fuse/src/fs.rs:592-644 | whatever becomes of its flush, a release changes the bytes of no file but the one it names |
| `OpenFiles.StepKeepsCurrentIff` | crates/tgcryptfs-fuse/src/fs.rs:773-1026 | if every open handle's inode is there, a request leaves it so if and only if it does not unlink, remove or rename over an inode that an open handle carries |
| `OpenFiles.NumberIsReusedIff` | crates/tgcryptfs-store/src/inode_store.rs:216-223 | mkdir, create and symlink give out the number of an open handle if and only if some open handle carries the next number, which never happens while all handles' inodes are there |
| `OpenFiles.StrandedHandleWritesNewFile` | crates/tgcryptfs-fuse/src/fs.rs:592-640 | whenever a stranded handle with bytes carries the next number, the next file created gets that number, begins empty, and holds the handle's bytes once it is closed |
| `OpenFiles.StaysCurrentIff` | crates/tgcryptfs-fuse/src/fs.rs:773-1026 | the handles keep their inodes in every state of a run if and only if no request of it takes away an inode that is open |
| `OpenFiles.ReleaseChangesItsRow` | crates/tgcryptfs-fuse/src/fs.rs:592-644 | over every such run a handle stays on the inode it was opened on, which was there all along, and its release changes no other inode |
| `OpenFiles.ReleaseChangesItsFile` | crates/tgcryptfs-fuse/src/fs.rs:592-644 | if the run is allowed besides, it changes the bytes of no other file |
| `Links.StepLinks` | crates/tgcryptfs-fuse/src/fs.rs:471-479 | every directory keeps the difference between its link count and 2 plus its subdirectories, except that replacing a directory by rename adds one |
| `Links.ExactUnlessReplaced` | crates/tgcryptfs-fuse/src/fs.rs:987-1022 | from exact link counts, one for whatever is no directory, a request keeps them exact if and only if it does not replace a directory |
| `Links.LinksInEveryRun` | crates/tgcryptfs-fuse/src/fs.rs:266-1104 | in every orderly run that replaces no directory, each directory has 2 links and one for each subdirectory |
| `Links.NeverTooFewLinks` | crates/tgcryptfs-fuse/src/fs.rs:266-1104 | in every orderly run no directory has fewer links than that |
| `Links.LinksFromTheMount` | crates/tgcryptfs-fuse/src/fs.rs:266-1104 | both from a fresh mount on |
| `Metadata.NewEntryRow` | crates/tgcryptfs-core/src/metadata/inode.rs:66-133 | a new entry is the row of the next number, with type, size, links, manifest, target and empty list as its kind has them |
| `Metadata.MountedState` | crates/tgcryptfs-fuse/src/fs.rs:266-293 | a blank database is mounted with the root row alone, no open handle and no transaction |
| `Metadata.LabelsInEveryRun` | crates/tgcryptfs-fuse/src/fs.rs:176-634 | after every run whatever, each block row has the size and epoch of what was uploaded, uncompressed, and each manifest the inode, version, size, hash and pointer fields that agree with its content |
| `Durability.NothingLastsOnceWedged` | crates/tgcryptfs-fuse/src/fs.rs:987-992 | once a transaction was left open, no run changes what survives a restart, and every mkdir, create, unlink, rmdir and rename is refused |
| `Durability.WhatLeavesItOpen` | crates/tgcryptfs-fuse/src/fs.rs:102-121 | in every state a request leaves a transaction open exactly if it found one, or is a rename of an existing name onto a non-empty directory, or comes to a COMMIT or ROLLBACK that fails |
| `Durability.RunLeavesOpenIff` | crates/tgcryptfs-fuse/src/fs.rs:102-121 | a run ends with a transaction open if and only if it began so or one of its requests met that condition |
| `Durability.ErrorsLeaveNothing` | crates/tgcryptfs-fuse/src/fs.rs:397-1104 | in every state, whatever failed, a namespace request that replies with an error changes nothing that survives a restart |
| `Restarts.CleanRestart` | crates/tgcryptfs-fuse/src/fs.rs:746-765 | after an allowed run from the mount with no transaction open a restart loses no name and no flushed byte, and finds a sound filesystem if and only if no file was last written, since its last stored manifest, to another length than was flushed |
| `RefCounts.CountsInEveryRun` | crates/tgcryptfs-store/src/block_store.rs:28-145 | over every run from the mount, whatever is requested and whatever fails: each reference count and its lost increments make up the successful flushes given that row, of which there are at least as many as inodes using it; the counts sum up so; and each content has one row if and only if no flush duplicated one |
| `RefCounts.StepDuplicatesIff` | crates/tgcryptfs-fuse/src/fs.rs:170-203 | a request leaves one row for each content if and only if it found it so and is not a flush whose query for a known content fails while upload and insert work |
| `RefCounts.StepUndercountsIff` | crates/tgcryptfs-fuse/src/fs.rs:170-174 | from counts that cover the users, a request leaves them so if and only if it does not make a file a new user of a row with no count to spare while the ignored increment fails |
| `RefCounts.StepAccounts` | crates/tgcryptfs-fuse/src/fs.rs:161-213 | one request, in any state with sound keys, enters what it flushed and what it lost, and keeps the account |
| `Unconditional.DbStepKeepsBytes` | crates/tgcryptfs-fuse/src/fs.rs:266-1104 | no namespace request, whatever its arguments and failures, changes a block row or the type, size or manifest of an inode, and none breaks the unique index |
| `Unconditional.RunKeepsSound` | crates/tgcryptfs-store/src/migrations.rs:43-44 | keys and the unique index hold after every run whatever |
| `CryptFilesystem.CryptFs.Handle` | crates/tgcryptfs-fuse/src/fs.rs:265-1104 | the object over its five mutable stores does what the state machine does, and so what the abstract filesystem does |
| `CryptFilesystem.CryptFs.Mkdir` | crates/tgcryptfs-fuse/src/fs.rs:397-488 | the handler's statements on the connection have the effect of the specification function |
| `CryptFilesystem.CryptFs.Create` | crates/tgcryptfs-fuse/src/fs.rs:490-578 | the same, with the new handle |
| `CryptFilesystem.CryptFs.Rename` | crates/tgcryptfs-fuse/src/fs.rs:942-1026 | the same for rename with each of its statements failing or not, early return with the open transaction included |
| `CryptFilesystem.CryptFs.Readdir` | crates/tgcryptfs-fuse/src/fs.rs:880-940 | a call lists the directory, its parent (the root for the root), then every child by parent column exactly once, and its loop offers them from the offset on as far as there is room |
| `Paging.PagesInOrder` | crates/tgcryptfs-fuse/src/fs.rs:933-939 | while the directory stays as it is, calls with buffers of any sizes deliver the listing in order as far as they reach |
| `Paging.PagesDeliverAll` | crates/tgcryptfs-fuse/src/fs.rs:933-939 | the calls have delivered every entry exactly if one with room for an entry delivers none |
| `Paging.RemovalSkipsIff` | crates/tgcryptfs-fuse/src/fs.rs:933-939 | if an entry is removed between two calls, one that stays is never delivered exactly if the removed one was delivered already; it is the first that was not |
| `Paging.InsertionRepeatsIff` | crates/tgcryptfs-fuse/src/fs.rs:933-939 | if an entry is added between two calls before the position reached, it goes missing and the last one delivered comes again; if after, everything is delivered once |
| `CryptFilesystem.CryptFs.FlushToTransport` | crates/tgcryptfs-fuse/src/fs.rs:161-213 | lookup by content hash, increment, upload, row insert and cache put, each of which may fail, have the effect of the specification on all stores |
| `CryptFilesystem.CryptFs.Release` | crates/tgcryptfs-fuse/src/fs.rs:592-644 | flush, manifest, row update and close have the effect of the specification |
| `CryptFilesystem.CryptFs.ReadNeeded` | crates/tgcryptfs-fuse/src/fs.rs:686-714 | the loop that fills the result buffer in place computes the specified buffer, flag and cache |
| `CryptFilesystem.CryptFs.Write` | crates/tgcryptfs-fuse/src/fs.rs:734-771 | the buffer update and the size update have the effect of the specification, and the new bytes lie over the old ones |
| `Stores.Connection.Insert` | crates/tgcryptfs-store/src/inode_store.rs:25-56 | insert adds the row unless its number or its parent and name are taken; the unique index stays |
| `Stores.Connection.Update` | crates/tgcryptfs-store/src/inode_store.rs:173-203 | update replaces an existing row, does nothing without one, and refuses a taken name |
| `Stores.Connection.ListChildren` | crates/tgcryptfs-store/src/inode_store.rs:94-130 | all rows with this parent, each once |
| `Stores.Connection.LookupName` | crates/tgcryptfs-store/src/inode_store.rs:133-170 | the one row with this parent and name |
| `Stores.NextIno` | crates/tgcryptfs-store/src/inode_store.rs:216-223 | unused, above every number in use, and not higher than needed |
| `Stores.Connection.FindByContentHash` | crates/tgcryptfs-store/src/block_store.rs:96-134 | a row with this hash, or none exists |
| `Stores.LookupUnique` | crates/tgcryptfs-store/src/migrations.rs:43-44 | the unique index on parent and name makes the lookup's answer the only one |
| `HandleTables.HandleTable.Open` | crates/tgcryptfs-fuse/src/handle.rs:36-47 | a new number, an empty clean buffer, every other handle as before |
| `HandleTables.HandleTable.Close` | crates/tgcryptfs-fuse/src/handle.rs:70-74 | the handle is gone and handed back wiped |
| `Transports.MockTransport.UploadBlock` | crates/tgcryptfs-telegram/src/mock.rs:52-68 | success stores the data under a new number; failure changes nothing |
| `Manifests.Validate` | crates/tgcryptfs-core/src/block/pointer.rs:55-98 | accepts exactly the manifests whose blocks start at the sum of the earlier lengths and add up to the size; each error is given exactly for the violation it names, with the first index |
| `Manifests.BlocksInRangeIsExact` | crates/tgcryptfs-core/src/block/pointer.rs:101-110 | on a valid manifest the blocks in range are one contiguous run that covers the range within the file, and a block with bytes is among them exactly if it shares a byte with the range |
| `Manifests.OverlapsIff` | crates/tgcryptfs-core/src/block/pointer.rs:101-110 | when a block is in range, empty blocks and empty ranges included |
| `Manifests.AssembleHoldsSlice` | crates/tgcryptfs-fuse/src/fs.rs:686-714 | copying block by block leaves the flat file's bytes in the buffer, and zeros past its end |
| `Manifests.ShortBlockIsSkipped` | crates/tgcryptfs-fuse/src/fs.rs:700-714 | a download with fewer bytes than the pointer promises leaves the buffer as it was, and the read goes on |
| `Manifests.BlockReadIsSliceIff` | crates/tgcryptfs-fuse/src/fs.rs:680-727 | for every offset, size and recorded size the block-by-block reply equals the slice of the concatenated blocks if and only if the range is past the end or empty, or the recorded size is the manifest's, or the range lies within both |
| `BlockCaches.BlockCache.Put` | crates/tgcryptfs-cache/src/block_cache.rs:91-130 | eviction and store act on index, sizes, counter and directory as on a least-recently-used queue |
| `BlockCaches.BlockCache.Get` | crates/tgcryptfs-cache/src/block_cache.rs:133-159 | a hit returns what the file opens to and makes the block the newest; statistics count it |
| `BlockCaches.BlockCache.EvictIfNeeded` | crates/tgcryptfs-cache/src/block_cache.rs:214-237 | the loop that picks the least access counter drops the queue's head until there is room |
| `BlockCaches.BlockCache.Remove` | crates/tgcryptfs-cache/src/block_cache.rs:168-177 | index, size and directory lose exactly this block |
| `BlockCaches.BlockCache.Clear` | crates/tgcryptfs-cache/src/block_cache.rs:180-190 | an empty cache with fresh statistics |
| `BlockCacheProofs.EvictionIsShortest` | crates/tgcryptfs-cache/src/block_cache.rs:214-237 | eviction removes the shortest initial segment of the queue that makes room, or everything |
| `BlockCacheProofs.QueueIsOrderOfLastUse` | crates/tgcryptfs-cache/src/block_cache.rs:91-177 | after any sequence of operations the queue lists its blocks, each once, in the order of last use |
| `BlockCacheProofs.CacheStaysWithinLimit` | crates/tgcryptfs-cache/src/block_cache.rs:91-237 | the total size is within the limit unless a single block is cached |
| `BlockCacheProofs.HitsReturnTheLastPut` | crates/tgcryptfs-cache/src/block_cache.rs:133-159 | a lookup misses or returns what was last stored under the identifier |
| `BlockCacheProofs.PutIsFound` | crates/tgcryptfs-cache/src/block_cache.rs:91-159 | the block just stored is found |
| `BlockCacheProofs.PutEvictsJustEnough` | crates/tgcryptfs-cache/src/block_cache.rs:91-130 | after any history a put evicts the least number of least recently used blocks that makes room for what it stores; every other block keeps its file |
| `BlockCacheProofs.PutThatFits` | crates/tgcryptfs-cache/src/block_cache.rs:91-130 | a put that fits evicts nothing |
| `BlockCacheProofs.OtherOpsKeep` | crates/tgcryptfs-cache/src/block_cache.rs:133-190 | a get drops nothing, a removal only its block, and clearing everything |
| `BlockCacheProofs.SealedAtRest` | crates/tgcryptfs-cache/src/block_cache.rs:91-159 | with encryption at rest every cached file is sealed for its own block and opens for no other; without, it is the bytes as they are |
| `BlockCacheProofs.TotalIsSum` | crates/tgcryptfs-cache/src/block_cache.rs:91-130 | the size of the cache is the sum of the stored bytes, 40 more for each sealed block |
| `Cdc.ComputeChunks` | crates/tgcryptfs-core/src/block/cdc.rs:40-113 | the chunker rejects exactly the invalid configurations, each with its error, and otherwise computes the greedy chunk list of the configuration |
| `Cdc.CutLoop` | crates/tgcryptfs-core/src/block/cdc.rs:70-112 | the loop with its skips and resets computes the same list as the recursive specification, and terminates |
| `Cdc.OutgoingWeightVanishes` | crates/tgcryptfs-core/src/block/cdc.rs:120-126 | a power of 256 with exponent 8 or more is 0 modulo 2^64, so the window never subtracts anything |
| `CdcProofs.ChunksAreTheGreedyTiling` | crates/tgcryptfs-core/src/block/cdc.rs:70-112 | a chunk list is the computed one if and only if it tiles the data and each chunk ends at its first cut |
| `CdcProofs.ChunkSizes` | crates/tgcryptfs-core/src/block/cdc.rs:79-103 | every chunk but the last is longer than the minimum; none exceeds the maximum, or the maximum plus one when the bounds are equal |
| `CdcProofs.ChunksInConfig` | crates/tgcryptfs-core/src/block/cdc.rs:63-113 | in terms of the configuration alone: the one tiling whose chunks end where they first may, after more than the minimum, at the maximum or where the hash of what follows the minimum ends in as many zero bits as the logarithm of the target |
| `CdcProofs.SizesInConfig` | crates/tgcryptfs-core/src/block/cdc.rs:79-103 | every chunk but the last is longer than the configured minimum, none exceeds the configured maximum, except by one if both are equal |
| `CdcProofs.ZerosReachTheMaximum` | crates/tgcryptfs-core/src/block/cdc.rs:79-103 | in a file of zeros every chunk but the last has exactly the maximal size |
| `CdcProofs.RollBit` | crates/tgcryptfs-core/src/block/cdc.rs:74-90 | each bit of the next hash: the byte enters below, the old bits move up by eight, and the polynomial is added |
| `CdcProofs.ChunksReassemble` | crates/tgcryptfs-core/src/block/cdc.rs:70-112 | the chunks joined give the data back |
| `CdcProofs.RestartAtBoundary` | crates/tgcryptfs-core/src/block/cdc.rs:83-103 | from any boundary on the chunks are those of the remaining data on its own |
| `CdcProofs.CommonSuffixSameChunks` | crates/tgcryptfs-core/src/block/cdc.rs:70-112 | two inputs with a common suffix and a boundary at its start share all later chunks |
| `CdcProofs.StableUnderAppend` | crates/tgcryptfs-core/src/block/cdc.rs:70-112 | appending data leaves every chunk but the last as it was |
| `CdcProofs.HashIsLocal` | crates/tgcryptfs-core/src/block/cdc.rs:74-90 | after 8 hashed bytes the fingerprint depends on the last 8 alone, in any two files |
| `CdcProofs.CutDecisionIsLocal` | crates/tgcryptfs-core/src/block/cdc.rs:74-103 | two such positions below the maximum size make the same cut decision |
| `CdcProofs.MaskTestsLowBits` | crates/tgcryptfs-core/src/block/cdc.rs:115-118 | the mask test is divisibility by the power of two below the target size |
| `Sentence.ExtractBits` | crates/tgcryptfs-core/src/sentence/encode.rs:39-49 | the value of exactly the named bits, zero past the end |
| `Sentence.SetBits` | crates/tgcryptfs-core/src/sentence/decode.rs:53-65 | exactly the named bits are written and no other bit changes |
| `Sentence.DecodeRef` | crates/tgcryptfs-core/src/sentence/decode.rs:7-37 | succeeds exactly for 22 known words, with the reference whose bits are theirs, and names the first error otherwise |
| `SentenceProofs.SentenceRoundTrip` | crates/tgcryptfs-core/src/sentence/decode.rs:40-50 | decoding an encoded sentence gives the 32 bytes back for any four lists of at least 4096 distinct plain words |
| `SentenceProofs.DecodeInvertsIndices` | crates/tgcryptfs-core/src/sentence/decode.rs:22-36 | the bits that decoding writes are the bits that encoding read |
| `SentenceProofs.LookupInverts` | crates/tgcryptfs-core/src/sentence/wordlists.rs:38-44 | the reverse lookup of a list of distinct words inverts indexing |
| `SentenceProofs.LookupIsLast` | crates/tgcryptfs-core/src/sentence/wordlists.rs:38-44 | in a list with repetitions the last place of a word counts |
| `SentenceProofs.IndicesAreThreeBytes` | crates/tgcryptfs-core/src/sentence/encode.rs:20-30 | three bytes make two indices, most significant bits first, the last with a zero byte for its lower half |
| `SentenceProofs.ValidationIsExact` | crates/tgcryptfs-core/src/sentence/validate.rs:5-27 | the structural check accepts exactly the sentences that decode, and reports a wrong number of words |
| `SentenceProofs.ValidationNamesTheFirst` | crates/tgcryptfs-core/src/sentence/validate.rs:5-27 | of the unknown words it names the first, with its list |
| `SentenceProofs.SplitIsExact` | crates/tgcryptfs-core/src/sentence/decode.rs:40-50 | splitting yields the one list of words that the string spreads out with whitespace around and between |
| `SentenceProofs.JoinIsSpaced` | crates/tgcryptfs-core/src/sentence/encode.rs:33-36 | joining puts one space between words and nothing around them |
| `SentenceProofs.SameMeaning` | crates/tgcryptfs-core/src/sentence/decode.rs:12-36 | two valid sentences decode equally if and only if they agree on 21 words and on the top 4 bits of the last index |
| `SentenceProofs.SentenceReencodes` | crates/tgcryptfs-core/src/sentence/encode.rs:8-30 | encoding what a sentence decodes to reproduces it if and only if its last index is a multiple of 256 |
| `Srb1.Encode` | crates/tgcryptfs-core/src/block/srb1.rs:21-54 | the block is header, then the ciphertext of the plaintext under the caller's aad followed by the header |
| `Srb1.Decode` | crates/tgcryptfs-core/src/block/srb1.rs:66-114 | each malformed header, failed opening or wrong length gives its error, anything else the fields |
| `Srb1.BlockLayout` | crates/tgcryptfs-core/src/block/srb1.rs:30-54 | the block byte by byte: magic, version, epoch and length least significant byte first, flag, hash, ciphertext; and what the ciphertext is sealed with |
| `Srb1.DecodeErrors` | crates/tgcryptfs-core/src/block/srb1.rs:66-104 | each error of the header and of the opening, by the bytes it is about |
| `Srb1.DecodeFields` | crates/tgcryptfs-core/src/block/srb1.rs:80-114 | an authentic payload decides the rest: a length mismatch, or the fields read from their bytes |
| `Srb1.DecodeInvertsEncode` | crates/tgcryptfs-core/src/block/srb1.rs:21-114 | decoding an encoded block gives back every field, unless the plaintext length does not fit 32 bits |
| `Srb1.DecodesOnlyEncodedBlocks` | crates/tgcryptfs-core/src/block/srb1.rs:66-114 | for an ideal cipher, decoding succeeds on exactly the blocks the encoder made for that key and aad |
| `Srb1.AadIsParsable` | crates/tgcryptfs-core/src/block/srb1.rs:31-44 | the authenticated string determines the caller's part and the header |
| `Srb1.BlockLength` | crates/tgcryptfs-core/src/block/srb1.rs:46-54 | an encoded block is 86 bytes longer than its plaintext |
| `Glob.MatchMeansCover` | crates/tgcryptfs-core/src/policy/types.rs:72-92 | a path matches if and only if its segments split into pieces that fit the pattern, ** taking any run |
| `Glob.SegmentMeaning` | crates/tgcryptfs-core/src/policy/types.rs:94-105 | what one pattern segment stands for |
| `Glob.ShortcutsAgree` | crates/tgcryptfs-core/src/policy/types.rs:61-70 | the shortcuts for ** and **/* agree with the general matcher on every path |
| `Glob.FirstMatchWins` | crates/tgcryptfs-core/src/policy/types.rs:53-57 | the rule found is the matching one of least index |
| `Glob.SplitIsExact` | crates/tgcryptfs-core/src/policy/types.rs:61-70 | splitting yields the one list of separator-free parts that joins back to the string |
| `Deadman.DestructionIsEarned` | crates/tgcryptfs-deadman/src/daemon.rs:72-141 | over all interleavings destruction follows a check begun while armed, comes exactly a grace period after it fired, and at every whole second in between the loop loaded armed as true and shutdown as false |
| `DeadmanProofs.GraceFollowsFiring` | crates/tgcryptfs-deadman/src/daemon.rs:86-97 | over all interleavings, if the loop destroys or stands down, a check that was begun while armed reported a firing, at the very start of the grace period |
| `DeadmanProofs.NoFiringNoGrace` | crates/tgcryptfs-deadman/src/daemon.rs:88-139 | a run in which no check reports a firing, whatever errors they report, never comes to the grace period |
| `DeadmanProofs.StandsDownAtNextPoll` | crates/tgcryptfs-deadman/src/daemon.rs:101-116 | a stored shutdown, or a switch that is off and stays off, ends the loop at its very next poll |
| `DeadmanProofs.ShutdownEndsTheLoop` | crates/tgcryptfs-deadman/src/daemon.rs:72-79 | a shutdown stored between two rounds ends the loop when the next would begin, without another check |
| `DeadmanProofs.RoundsAreSpaced` | crates/tgcryptfs-deadman/src/daemon.rs:80-141 | after a round without a firing, be it unarmed, quiet or in error, the next begins exactly one check interval later |
| `Deadman.StandDownIsHeeded` | crates/tgcryptfs-deadman/src/daemon.rs:101-116 | a disarm or shutdown more than one second before the end of the grace period prevents destruction |
| `Deadman.StandDownHasReason` | crates/tgcryptfs-deadman/src/daemon.rs:101-116 | the loop stands down only if the switch was turned off or shutdown was stored |
| `Deadman.LastSecondIsTooLate` | crates/tgcryptfs-deadman/src/daemon.rs:101-116 | for every grace period there is a run that destroys although shutdown was stored at the last poll, so the bound must be strict |
| `Deadman.ZeroGraceIgnoresDisarm` | crates/tgcryptfs-deadman/src/daemon.rs:95-131 | without a grace period every run goes from the fired trigger to destruction at the loop's next step, whatever is stored meanwhile |
| `Deadman.ZeroGraceExample` | crates/tgcryptfs-deadman/src/daemon.rs:95-131 | a run that destroys although a disarm and a shutdown were stored while the triggers were being checked |
| `Deadman.DeadmanController.Disarm` | crates/tgcryptfs-deadman/src/trigger.rs:53-62 | turns the switch off and stores shutdown, or reports that it was not armed |
| `Deadman.DeadmanDaemon.Disarm` | crates/tgcryptfs-deadman/src/daemon.rs:55-59 | stops the loop only if the switch was armed |

## Left out

- NamespaceRefinement.ReaddirRefines: in the machine the reply of readdir is the set of entries of all its pages; order and pages are in CryptFilesystem.CryptFs.Readdir and Paging.
- CryptFilesystem.CryptFs.Readdir: the children come in any order, because the query does not state one; the room in the reply buffer is a number of entries instead of bytes.
- Links.ExactUnlessReplaced: about orderly requests; what the ignored failures of other requests do to link counts is not stated.
- RenameBoundaries.RenameKeepsTreeIff: reading a parent's row and writing it back count as one statement, here and in unlink, rmdir, symlink, write and release; both failures are ignored alike.
- Failures that a handler reports with EIO before it has changed anything: of BEGIN, and of reading the row it is about.
- Failures of COMMIT or ROLLBACK after which SQLite has itself rolled the transaction back; here the transaction stays open after either.
- BlockCaches.BlockCache.Put: errors of the cache directory's file system are not modelled, nor is concurrent use, in which the lock is dropped between evicting and storing.
- Cdc.ComputeChunks: the logarithm of the target size is the exact integer one; rounding of the floating-point logarithm near powers of two above 2^48 is not modelled.
- Deadman.DestructionIsEarned: the endless loop is a step machine over its atomic loads, because it has no end to prove; sleeps are exact, and late wake-ups, with the panic of a negative remaining time, are not modelled.
- Srb1.DecodesOnlyEncodedBlocks: about an ideal cipher; the probability of forging a real tag is not modelled.
- Sentence.DecodeRef: words come from any lists with the stated properties; the embedded word data file is not part of this model.
- Timestamps, permission bits, owners, extended attributes, statfs and getattr.
- setattr of a size, which changes the recorded size and no bytes.
- Names and targets that are not UTF-8, which every handler refuses with EINVAL; the byte length of a symlink's target, whose characters are counted instead.
- Machine widths of inode numbers, sizes, offsets, link counts and message numbers, and overflow in `offset + length`; the chunker and the sentence codec do model their words and bytes.
- Encryption and serialisation of rows, opaque column names, hashing of names; two names are the same entry exactly if they are equal.
- The runtime handle beside the transport, taken to be present whenever the transport is; retries, sessions and the real Telegram transport, of which the in-memory one stands for the contract.
- Deleting messages and blocks, snapshots, key rotation, sharing, invites, users, the policy text parser, the command line and the REST interface: independent of the properties above, and mostly single lookups.
- Key derivation and the ciphers themselves.
