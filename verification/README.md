# KVBFS, modelled and proved in Dafny

KVBFS lays a POSIX-like file system over a flat key/value store. This project models its
components in Dafny and proves what each of them keeps. Code that changes state in place is
modelled by classes and methods with the same branches and loops; each is proved against a
mathematical meaning (a flat byte array, a tree of names, an unbounded log, a finite map), and
the properties of that meaning are lemmas and invariants over whole runs.

| file | component |
|---|---|
| Keys.dfy | the key encoders, and the flat store as a family of typed maps |
| Store.dfy | the shared context; every single write must leave the store recoverable |
| Sparse.dfy, BlockLayer.dfy | sparse blocks as one flat byte array |
| Versions.dfy | snapshots with a sliding window of 64 |
| Tree.dfy, Namespace.dfy | the tree of names, link counts, and the order of writes |
| NameTree.dfy | the bare tree of names that the store implements |
| FileSystem.dfy | all requests together, over every run from the first mount |
| PathLookup.dfy | inode number to path, and back |
| InodeCache.dfy, InodeNumbers.dfy | the concurrent inode cache and the inode counter, at lock granularity |
| EventRing.dfy | the event ring as an unbounded log |
| Conversation.dfy | the conversation parser, printer and compression |
| HashTable.dfy | uthash: linked chains, insertion order, bucket doubling |
| KvMem.dfy, NvmeKv.dfy, NvmeBackend.dfy | the NVMe KV simulator, its wire format, the client, and which keys it carries |
| TopK.dfy, MemIndex.dfy | similarity search and file indexing |
| TaskQueue.dfy, LlmQueue.dfy, PollWaiters.dfy | the work queues and the poll waiters |

Where the code does not do what one would expect, the code is followed, a counterexample is
given, and the exact condition under which it does is proved:

- A rename over a file that has another name deletes the file and leaves that name dangling
  (`Namespace.RenameExact`, `Namespace.RenameLinked`, `FileSystem.LinkedTargetLost`).
- Attributes changed after creation are never written, so after a second mount a file has its
  content exactly when it was empty (`FileSystem.Remount`, `InodeCache.CleanStays`).
- A crash right after the first write of the first mount, and no other, leaves a store that is
  mounted without a root (`FileSystem.MountAfterCrash`, `FileSystem.FirstMountInterrupted`).
- A deleted inode can be cached again (`InodeCache.NeverServedExact`,
  `InodeCache.NeverServedUnmarked`, `InodeCache.AtomicDeleteExact`,
  `InodeCache.DeletedInodeCachedAgain`).
- Two creations at once can store an older counter last, and the next mount gives a number out
  again (`InodeNumbers.CounterExact`, `InodeNumbers.NumberReused`).
- Reading a version file neither clamps to the recorded size nor fills holes
  (`Versions.VersionReadExact`, `Versions.VersionReadTooLong`).
- A name with a newline breaks the event ring's line starts (`EventRing.LineStartsAreEvents`).
- A summary with a role at a line start adds messages to a compressed conversation
  (`Conversation.CompressExact`); an answer becomes the next message exactly when file and
  answer have no NUL, the file ends in a newline and the answer is normal, and the file still
  waits exactly when the answer asks or continues the question (`Conversation.AnswerExact`,
  `Conversation.AnsweredStillWaits`, `Conversation.AnswerAsksBack`); a NUL hides a question from
  the parser but not from the test for one (`Conversation.QuestionSeenExact`,
  `Conversation.QuestionBehindNul`).
- Indexing stops at the first hole, and stored chunks end at a NUL
  (`MemIndex.AssembledExact`, `MemIndex.HoleReached`, `MemIndex.TextsRebuildExact`,
  `MemIndex.HiddenNul`); the documented opt-out attribute cannot be set
  (`MemIndex.OptOutNeverSet`).
- A path longer than the buffer is cut without an error (`PathLookup.CutExact`), and one of more
  than 128 components does not start at the root (`PathLookup.InoToPath`, `PathLookup.TooDeep`).
- One request the simulator will not read ends the client's connection for good
  (`NvmeKv.Connection.Transact`), and some names the file system accepts make such a request
  (`NvmeBackend.RefusedNames`).

The invariants are `Namespace.Healthy` (the whole file system, built from `Tree.TreeOk`,
`Sparse.Ok`, `Versions.VersionsOk` and `Store.Recoverable`), `InodeCache.Inv`, and the `Valid`
predicates of the classes. `Context.Put` and `Context.Delete` demand `Recoverable` of the store
they leave behind, so each operation is consistent at every intermediate write.

Functions that a method computes are tied to something written without them: the answers of the
handlers to the entries and kinds there are, the store to `NameTree.Names`, flat keys and event
lines to readers that take them apart again, messages and chunks to where they begin and end in
the text, and the byte order to the first difference of two keys.

## Model

| member | source | states |
|---|---|---|
| Keys.EncodeInjective | src/kvbfs.h:97-130 | The encoders are jointly injective over all namespaces, although names may contain colons. |
| Keys.ReadKeyInverts | src/kvbfs.h:97-130 | A reader that takes the fields of a flat key in their order gives back the typed key, although names may contain colons. |
| Keys.PrefixSelects | src/version.h:35-45 | The flat keys with a query's prefix are exactly the keys that belong to its owner, for every query. |
| Keys.FlatStoreIsTyped | src/kv_store.h:1-36 | Lookup, put, delete and prefix iteration on flat keys act as the same operations on typed maps. |
| Keys.NumericKeysFit | src/version.c:53-140 | Every key without a name fits the 64, 96 or 128 bytes its callers declare, for all 64-bit numbers. |
| Keys.SkipsExactlySummaries | src/mem.c:477-481 | The two characters the search looks at single out exactly the summary vectors. |
| Keys.ParseDirentKey | src/fuse_ops.c:129-148 | Splitting a directory-entry key at its first colon recovers parent and name. |
| Sparse.ReadYourWrites | src/fuse_ops.c:1646-1682 | In the flat array a write is read back exactly and bytes outside it keep their values. |
| Sparse.ShrinkThenGrow | src/fuse_ops.c:608-645 | Bytes cut off by a truncation never reappear when the file grows. |
| Sparse.OverlayCovers | src/fuse_ops.c:1646-1682 | A later write hides an earlier one that it covers. |
| Sparse.PatchOverlays | src/fuse_ops.c:1654-1677 | Storing one patched block overlays exactly that piece of the flat array. |
| Sparse.WriteDone | src/fuse_ops.c:1646-1695 | When the block loop and the size update are done, the blocks denote the overlaid content and are well formed. |
| Sparse.TruncateResizes | src/fuse_ops.c:608-645 | Dropping blocks and zeroing the tail of the last one denotes the content cut or zero-extended. |
| BlockLayer.Write | src/fuse_ops.c:1602-1701 | The new content is the old one overlaid at the offset, gaps as zeros; no other file, entry or record changes. |
| BlockLayer.Read | src/fuse_ops.c:1538-1600 | A read returns exactly the slice of the content, holes as zeros. |
| BlockLayer.SetSize | src/fuse_ops.c:596-645 | Truncation cuts or zero-extends the content; a stored block is never kept past the end. |
| BlockLayer.Open | src/fuse_ops.c:1351-1385 | O_TRUNC empties a file and nothing else changes content. |
| BlockLayer.DeleteFileBlocks | src/fuse_ops.c:360-367 | Exactly the blocks of the given range of one file are deleted. |
| BlockLayer.FileAppend | src/llm.c:67-124 | The new content is the old content followed by the data. |
| BlockLayer.FileOverwrite | src/llm.c:324-352 | The new content is the data, whatever the file held. |
| BlockLayer.FileReadAll | src/llm.c:20-65 | The whole content is returned, holes as zeros. |
| BlockLayer.RunFileOps | src/fuse_ops.c:1602-1701 | Any sequence of writes, truncations, O_TRUNC opens, appends and overwrites refines the same sequence on one flat byte array. |
| BlockLayer.OtherFile | src/fuse_ops.c:1602-1701 | A block-layer operation on one file leaves the content of every other file unchanged. |
| BlockLayer.RunManyFiles | src/fuse_ops.c:1602-1701 | In any interleaving of operations on several files, each content is what its own operations alone produce. |
| Versions.Snapshot | src/version.c:85-142 | A snapshot stores the content of this moment as the next version, prunes the window to 64, and leaves the live file unchanged; an empty file takes none. |
| Versions.SnapshotExtends | src/version.c:102-133 | Copied blocks, metadata and the advanced counter hold one more version. |
| Versions.PruneNarrows | src/version.c:135-139 | Deleting the version that fell out narrows the window by exactly one. |
| Versions.VersionsFrame | src/version.c:85-142 | Stored versions keep their content whatever is done to other keys, the live blocks included. |
| Versions.VersionDeleteAll | src/version.c:144-162 | No version key of the inode is left. |
| Versions.DeletePrefix | src/version.c:71-82 | Iterate-and-delete removes exactly the selected keys. |
| Versions.ReadVersion | src/fuse_ops.c:1509-1530 | A version read returns the stored bytes up to the first hole, whatever the recorded size. |
| Versions.VersionReadExact | src/fuse_ops.c:1509-1530 | A version read returns the slice of the recorded content if and only if the stored run ends at the recorded size, or the request stays inside both or starts past both. |
| Versions.VersionReadTooLong | src/fuse_ops.c:1509-1530 | A one-byte version read with a full page returns a full page. |
| Tree.NewNodeKeeps | src/fuse_ops.c:1015-1042 | A fresh inode under a new name keeps the tree and every link count; a directory adds one to its parent. |
| Tree.LinkKeeps | src/fuse_ops.c:2025-2034 | A further name for a file keeps the tree and the counts. |
| Tree.UnlinkKeeps | src/fuse_ops.c:1238-1261 | Removing a file's name keeps the tree and the counts, and its count was positive before. |
| Tree.RmdirKeeps | src/fuse_ops.c:1096-1120 | Removing an empty directory keeps the tree and the counts, and the parent's count was positive before. |
| Tree.MoveKeeps | src/fuse_ops.c:1757-1828 | Moving an entry outside its own subtree keeps the tree and the counts, also across parents. |
| Tree.DanglingBreaks | src/fuse_ops.c:1734-1753 | Deleting a file that has another name destroys the invariant. |
| Tree.ParentCounts | src/fuse_ops.c:1105-1112 | A directory with a child directory has a count of at least three, so the saturating decrement never fires. |
| Tree.NoOrphans | src/fuse_ops.c:306-325 | Every inode but the root is named by an entry of a live directory. |
| Store.Context.Mount | src/super.c:33-72 | The first mount writes the superblock and then the root record, in recoverable steps. |
| Store.Context.Load | src/super.c:10-31 | With a superblock nothing is written, the counter is the stored one, and attributes come from the records. |
| Store.Context.Put | src/kv_store.h:1-36 | One write, allowed only when the store it leaves is recoverable. |
| Namespace.InodeCreate | src/inode.c:123-160 | A fresh number is taken, the counter persisted first, the record written before any name. |
| Namespace.InodeDelete | src/inode.c:162-186 | The record is deleted last. |
| Namespace.DropInode | src/fuse_ops.c:1245-1261 | When the last name of an inode goes, no record, block, attribute or version key of it is left, and nothing else changes. |
| Namespace.FreshIno | src/inode.c:11-18 | The next number has no key in the store. |
| Namespace.AddStatusExact | src/fuse_ops.c:1128-1210 | create, mkdir and symlink fail exactly for a missing parent, a parent that is no directory, a name that is taken and a name that does not fit, and succeed otherwise. |
| Namespace.LinkStatusExact | src/fuse_ops.c:1979-2056 | link fails exactly for a missing inode, a directory, and what makes create fail. |
| Namespace.UnlinkStatusExact | src/fuse_ops.c:1212-1282 | unlink fails exactly for a missing name and a directory. |
| Namespace.RmdirStatusExact | src/fuse_ops.c:1064-1126 | rmdir fails exactly for a missing name, a file and a directory with an entry. |
| Namespace.RenameStatusExact | src/fuse_ops.c:1703-1834 | rename fails exactly for a missing source, a target directory with an entry and a new name that does not fit. |
| Namespace.Create | src/fuse_ops.c:1128-1210 | The answer by what is there; the entries with exactly the new one added; store and attributes; the file system stays sound. |
| Namespace.Mkdir | src/fuse_ops.c:988-1062 | The answer by what is there; exactly one new entry; store and attributes, the parent's count included. |
| Namespace.SymbolicLink | src/fuse_ops.c:1854-1932 | The answer by what is there; exactly one new entry; store and attributes; the target is the content of the new inode. |
| Namespace.Readlink | src/fuse_ops.c:1934-1977 | Every live symbolic link can be read and gives its target, of the length its attributes say. |
| Namespace.MakeAndReadlink | src/fuse_ops.c:1854-1977 | A symbolic link that was just made reads back as its target, whatever its length. |
| Namespace.Link | src/fuse_ops.c:1979-2056 | The answer by what is there; exactly one new entry; the count grows with it. |
| Namespace.Unlink | src/fuse_ops.c:1212-1282 | The answer by what is there: a name of a file is always removed, exactly that entry; with the last name every key of the inode goes. |
| Namespace.Rmdir | src/fuse_ops.c:1064-1126 | The answer by what is there: an empty directory is always removed, exactly that entry, with all its keys. |
| Namespace.Rename | src/fuse_ops.c:1703-1834 | The answer by what is there; the entry moves and nothing else does, with replacement and across parents; a failed rename changes nothing. |
| Namespace.RenameExact | src/fuse_ops.c:1734-1753 | An allowed rename keeps the file system sound if and only if the replaced file, if any, has no other name. |
| Namespace.RenameLinked | src/fuse_ops.c:1734-1831 | The same writes over a file that has another name: every store is recoverable up to the deletion of the replaced record, the one after it is not, and the file system ends unsound. |
| Namespace.ParentExists | src/fuse_ops.c:116-157 | The upward search finds an entry for every inode but the root. |
| NameTree.MadeExact | src/fuse_ops.c:988-1062 | On entries, kinds and the next number alone, create, mkdir and symlink add one entry and one inode, use up a number for a name that is too long, or do nothing. |
| NameTree.LinkedExact | src/fuse_ops.c:1979-2056 | On that tree of names, link adds one entry. |
| NameTree.LastNameExact | src/fuse_ops.c:1238-1245 | The link count of a file is 1 if and only if no other entry names it; a directory has no second name. |
| NameTree.UnlinkedExact | src/fuse_ops.c:1212-1282 | On that tree of names, unlink removes the entry of a file, and the file if no other entry names it. |
| NameTree.DirRemovedExact | src/fuse_ops.c:1064-1126 | On that tree of names, rmdir removes a directory in which no entry is, and its entry. |
| NameTree.MovableExact | src/fuse_ops.c:1703-1753 | The checks before and in a rename hold if and only if the move is possible on the tree of names. |
| NameTree.MovedExact | src/fuse_ops.c:1703-1834 | On that tree of names, rename moves one entry and removes what the new name named. |
| FileSystem.Step | src/fuse_ops.c:988-1062 | Every request keeps the whole invariant, does to the tree of names what it does to a bare one, and changes the content, the snapshots and the attributes of the inode it names and of no other; a symbolic link keeps its target. |
| FileSystem.Session | src/super.c:10-72 | In every state reachable from the first mount the file system is sound, every store on the way was recoverable, the names and inodes are those the requests make of a bare tree of names, and each inode holds exactly the content, target, snapshots and attributes that the requests on it since its creation made. |
| FileSystem.FileChangeHealthy | src/fuse_ops.c:1602-1701 | Data operations keep the tree, the counts and all other inodes. |
| FileSystem.SnapshotHealthy | src/fuse_ops.c:1424-1425 | Taking a snapshot keeps the whole invariant. |
| FileSystem.SetXattr | src/fuse_ops.c:2206-2256 | Refused exactly for a reserved name, a key that does not fit, and a name that must be new or must exist and does not comply; otherwise one attribute key changes. |
| FileSystem.Below | src/fuse_ops.c:1703-1834 | Walking up from a directory meets m exactly when the directory is m or below it. |
| FileSystem.LinkedTargetLost | src/fuse_ops.c:1734-1753 | From a mounted file system, a legal rename over a file with two names is carried out and leaves the second name without an inode. |
| FileSystem.MountAfterCrash | src/super.c:10-42 | After a crash at any write of any run the next mount never reuses a number, and has a root if and only if the crash was not right after the first write of the first mount. |
| FileSystem.FirstMountInterrupted | src/super.c:33-42 | A first mount cut off after its first write leaves a store that is mounted without a root. |
| FileSystem.Remount | src/inode.c:188-207 | A second mount has the same inodes, names and counter, the same attributes if and only if none changed since creation, and the content of a file if and only if it was empty. |
| PathLookup.SplitInvertsPrint | src/fuse_ops.c:164-172 | Splitting a printed path gives back its components. |
| PathLookup.PrintInvertsSplit | src/fuse_ops.c:164-172 | Printing the components of a path gives back the path. |
| PathLookup.CutExact | src/fuse_ops.c:164-172 | The printed text names the components if and only if it fitted the buffer. |
| PathLookup.InoToPath | src/fuse_ops.c:102-173 | The components found look up the inode from where the search ended; that is the root if and only if the name found for the inode is in a directory less than 128 levels down, for a directory if and only if it is at most 128 levels down. |
| PathLookup.PathRoundTrip | src/fuse_ops.c:102-173 | With room for the text, looking the returned path up from the root gives the inode when its names are less than 128 levels deep, and a directory exactly when it is at most 128 levels down. |
| PathLookup.DeepTree | src/fuse_ops.c:988-1062 | Directories can be nested to any depth below 1000, the last exactly that many levels down. |
| PathLookup.TooDeep | src/fuse_ops.c:102-173 | A reachable directory 129 levels down whose path is reported with success and does not start at the root. |
| InodeCache.StepInv | src/inode.c:48-253 | Every lock-level step of get, put, create, delete, marking and writing back dirty entries keeps the invariant. |
| InodeCache.RunInv | src/inode.c:48-253 | So does every interleaving of any number of threads. |
| InodeCache.CacheSafe | src/inode.c:48-253 | In every interleaving reference counts equal the outstanding handles, at most one entry per inode is cached, a cached deleted entry is held, and no handle points to a freed entry. |
| InodeCache.NeverServedExact | src/inode.c:64-99 | No later get returns an inode, in any run, if and only if its record is gone, no entry of it is cached, and no copy is in flight: a holder of a deleted entry can write the record back. |
| InodeCache.NeverServedUnmarked | src/inode.c:188-207 | In runs that set no dirty flag, as the repository's do, a deleted entry that is still held does no harm. |
| InodeCache.CleanStays | src/inode.c:188-207 | Without a caller of inode_mark_dirty no entry is ever dirty and no record is written back. |
| InodeCache.AtomicDeleteExact | src/inode.c:162-186 | After an uninterrupted delete the inode is gone for good if and only if nobody held it and no other thread had loaded its record; in runs that set no dirty flag, if and only if no other thread had. |
| InodeCache.DeletedInodeCachedAgain | src/inode.c:64-99 | A concrete interleaving caches a deleted inode again. |
| InodeNumbers.CounterExact | src/inode.c:11-18 | However the creations under way go on, the stored counter stays above every record if and only if neither it nor a copy still to be written is behind a record or another thread's number. |
| InodeNumbers.Reached | src/inode.c:11-18 | Every state of every such run meets the conditions of that equivalence. |
| InodeNumbers.SerialDurable | src/inode.c:11-18 | If no number is taken while a copy of the counter waits to be written, a crash at any moment can be mounted without using a number twice. |
| InodeNumbers.RemountedExact | src/super.c:10-31 | A mount after a crash starts in a sound cache state if and only if the counter was above every record. |
| InodeNumbers.NumberReused | src/inode.c:11-18 | Two concurrent creations after which the next mount's first number belongs to a record. |
| EventRing.Escape | src/events.c:62-73 | The escaped text is the escaping of a prefix of the path, and it fits its buffer. |
| EventRing.LineFits | src/events.c:81-92 | A line always fits its buffer, so no number is taken without being logged. |
| EventRing.LineNewlines | src/events.c:81-87 | A line has its final newline only, if and only if the path has none. |
| EventRing.ReadLineInverts | src/events.c:60-87 | A reader of the field names, numbers and quoted texts of a line gives back the event it was made of: number, type, inode, path and time. |
| EventRing.LineStartsAreEvents | src/events.c:101-110 | Positions after a newline are event boundaries if and only if no event has an inner newline. |
| EventRing.Events.Emit | src/events.c:54-120 | The log grows by exactly one line, which reads back as the numbered event with as much of its path as fits; the ring keeps the log from the tail on, the tail moves only when it must and then to the first line start after the overwritten part, and the new line is never dropped. |
| EventRing.Events.WriteLine | src/events.c:94-98 | The ring holds the log's last characters, each in its slot. |
| EventRing.Events.AdvanceTail | src/events.c:101-110 | The tail stops just after the first newline still in the ring, at the latest before the newest line. |
| EventRing.Events.Poll | src/fuse_ops.c:2081-2102 | A reader behind the head is ready at once; otherwise its handle waits, and a replaced one is destroyed. |
| EventRing.Events.Destroy | src/events.c:40-52 | Every poll handle handed over has been destroyed exactly once. |
| EventRing.Reader.Read | src/fuse_ops.c:1472-1499 | A read returns the log from the reader's position, or from the oldest line start when overtaken. |
| EventRing.Follow | src/fuse_ops.c:1472-1499 | Over any run of events and reads, a reader that was not overtaken has exactly the log from where it opened, an overtaken one the log from the line start it resumed at; it is not overtaken while the log grows by less than the ring, up to one line. |
| Conversation.ParsePrint | src/llm.c:161-231 | Parsing a printed list of normal messages gives it back. |
| Conversation.MessageExact | src/llm.c:175-220 | The first message of a text stands between its role with the spaces after it and the first line break before another role, without the blanks at its end. |
| Conversation.ParseNormal | src/llm.c:195-224 | Every parse result is normal, and printing and parsing it again changes nothing. |
| Conversation.ParseSplit | src/llm.c:195-204 | A role at a line start begins a new message and leaves the parse of what came before unchanged. |
| Conversation.EmptyParse | src/llm.c:171-191 | The parser finds no message if and only if no line starts with a role. |
| Conversation.ParseConversation | src/llm.c:161-231 | The pointer loops compute the parse. |
| Conversation.CheckNeedsResponse | src/llm.c:129-153 | The backward scans decide whether the last line that is not empty starts with the user role. |
| Conversation.NeedsExact | src/llm.c:129-153 | That is so if and only if somewhere a line that starts with the user's role runs to the end, line breaks aside. |
| Conversation.QuestionIsLast | src/llm.c:129-153 | In a file without NUL the last message the parser finds is then the user's, and it is a single line. |
| Conversation.QuestionSeenExact | src/llm.c:592-598 | The parser makes of a waiting file what the whole file says if and only if the file has no NUL. |
| Conversation.QuestionBehindNul | src/llm.c:592-598 | With a NUL before it, a question is seen by the test and not by the parser. |
| Conversation.CompressExact | src/llm.c:556-571 | A compressed file parses to exactly the retained messages if and only if no summary line starts with a role. |
| Conversation.PrintedExact | src/llm.c:129-153 | A file that ends in printed messages asks if and only if the last of them is a one-line question of the user. |
| Conversation.CompressKeepsQuestion | src/llm.c:489-571 | A compressed file asks if and only if the last parsed message is a one-line question, for every split; so compressing a waiting file without NUL keeps its question. |
| Conversation.TryCompress | src/llm.c:461-582 | The split is the one asked for, or the nearest that keeps a message on each side; the messages before it are archived one by one under the generation number, the summary and its vector are stored, the rest is printed without being cut off, and the errors leave the file alone. |
| Conversation.PrintAll | src/llm.c:494-507 | The computed buffer size never cuts off a printed message. |
| Conversation.AnswerExact | src/llm.c:746-759 | An appended answer becomes the next message if and only if file and answer have no NUL, the file ended in a newline and the answer is normal; any other answer is parsed like a text of its own; the file still waits if and only if the answer asks, or is one line and no newline separates it from the question. |
| Conversation.AnsweredStillWaits | src/llm.c:746-759 | A file without a final newline still waits after every one-line answer. |
| Conversation.AnswerAsksBack | src/llm.c:746-759 | An answer whose last line starts like a question keeps any file waiting. |
| HashTable.MaskIsMod | src/uthash.h:430-433 | Masking with a power of two less one takes the remainder. |
| HashTable.IdealIsCeil | src/uthash.h:815-848 | The shift-and-mask formula is the number of items divided by the new bucket count, rounded up. |
| HashTable.AppendMaps | src/uthash.h:278-284 | A new entry at the end of the list adds its key to the map. |
| HashTable.RemoveMaps | src/uthash.h:450-477 | Cutting an entry out of the list removes exactly its key from the map. |
| HashTable.UpdateMaps | sim/kv_mem.c:56-66 | Changing a value in place changes exactly its key. |
| HashTable.LinkFront | src/uthash.h:767-776 | An element becomes the head of its doubly linked bucket chain. |
| HashTable.Unlink | src/uthash.h:789-801 | A chain without one element is linked correctly again. |
| HashTable.Unstring | src/uthash.h:464-471 | The insertion-order list without one element is linked correctly again. |
| HashTable.ExpandBuckets | src/uthash.h:833-873 | Doubling puts every element, once, into the bucket its hash value now names; the multipliers and the number of nonideal items are exactly those of the new chains. |
| HashTable.MultBound | src/uthash.h:856-860 | A chain is never longer than its multiplier plus one times the ideal length. |
| HashTable.Table.Find | src/uthash.h:165-173 | The element with the key is found if there is one. |
| HashTable.Table.Add | src/uthash.h:396-422 | The element is appended in insertion order; every bucket, count, chain and link stays valid, doubling included. |
| HashTable.Table.AddToBucket | src/uthash.h:767-786 | The table doubles exactly when the bucket reaches its threshold and expansion is not forbidden; while it is not, every chain stays short. |
| HashTable.Table.Expand | src/uthash.h:833-884 | The table doubles; when more than half the elements are nonideal the expansion counts as inefficient, and a second one in a row forbids further ones. |
| HashTable.Table.Delete | src/uthash.h:450-477 | Exactly the element is taken out of list, bucket and counts; the last one takes the table with it. |
| KvMem.EntryCmp | sim/kv_mem.c:151-162 | The comparison decides the byte order, which is stated by the first difference of two keys: negative, zero or positive as the first key comes before, is, or comes after the second. |
| KvMem.ByteOrder | sim/kv_mem.c:151-162 | A smaller byte at the first difference comes first, and a key comes before its extensions. |
| KvMem.LessTrans | sim/kv_mem.c:151-162 | That order is transitive, as sorting needs. |
| KvMem.SortUnique | sim/kv_mem.c:224-225 | Sorted lists of the same entries are equal, so the result does not depend on the sort routine. |
| KvMem.SortEntries | sim/kv_mem.c:224-225 | The entries are put into byte order, each as often as it was there. |
| KvMem.ListExact | sim/kv_mem.c:164-228 | Any sorting of the matches gives every matching entry of the map once, in strict byte order. |
| KvMem.ListUnique | sim/kv_mem.c:164-228 | The list is determined by the map; the order of insertion does not show. |
| KvMem.Store.Put | sim/kv_mem.c:47-93 | The map is updated at one key. |
| KvMem.Store.Retrieve | sim/kv_mem.c:95-118 | The value of the key is returned if and only if it is stored. |
| KvMem.Store.Remove | sim/kv_mem.c:120-137 | The map loses one key; a missing key is no error. |
| KvMem.Store.Exist | sim/kv_mem.c:139-148 | Tells whether the key is stored. |
| KvMem.Store.ListPrefix | sim/kv_mem.c:164-228 | The two passes and the sort return every matching entry of the map once, in strict byte order. |
| NvmeKv.DecodeSerialize | src/kv_nvme.c:287-341 | The client's parser inverts the server's serializer. |
| NvmeKv.SerializedAt | sim/cmd_dispatch.c:84-142 | The records of a response stand one behind the other, each with key length, key, value length and value in that order, the lengths in two and four bytes, the low one first. |
| NvmeKv.SerializeList | sim/cmd_dispatch.c:114-142 | The measured buffer is filled with exactly the serialized list. |
| NvmeKv.ParseList | src/kv_nvme.c:287-341 | The counting and copying passes decode framed data. |
| NvmeKv.Simulator.Dispatch | sim/cmd_dispatch.c:151-182 | Status, response and store after each command: each error status has exactly its cause, only a successful store or delete changes the map; stored entries stay within the limits of the protocol. |
| NvmeKv.Connection.Transact | src/kv_nvme.c:65-139 | A transaction acts on the store, or the connection is dead from then on. |
| NvmeKv.Connection.Put | src/kv_nvme.c:226-242 | A put succeeds exactly for keys of 1 to 272 bytes and values up to 2 MB on a live connection, and updates the map. |
| NvmeKv.Connection.Get | src/kv_nvme.c:208-224 | A get returns the value in the map, exactly when there is one. |
| NvmeKv.Connection.Delete | src/kv_nvme.c:244-259 | A delete removes one key from the map. |
| NvmeKv.Connection.IterPrefix | src/kv_nvme.c:261-344 | The iterator holds exactly the matching entries of the map, once each, in byte order. |
| NvmeBackend.CarriedExact | src/nvme_kv_proto.h:33 | The protocol carries every key without a name, and one with a name if and only if name and number have at most 269 characters. |
| NvmeBackend.RefusedNames | src/kvbfs.h:30 | The keys the file system accepts and the protocol does not carry are those with 270 to 508 such characters. |
| NvmeBackend.PutKey | src/kv_nvme.c:226-242 | Storing a key that is not carried fails and ends the connection. |
| TopK.RankSorts | src/mem.c:493-515 | Repeated insertion gives the stable descending order of the hits. |
| TopK.RankUnique | src/mem.c:493-515 | That order is unique. |
| TopK.TakeInsert | src/mem.c:493-515 | Cutting to the first k before or after an insertion gives the same first k. |
| TopK.InsertTop | src/mem.c:493-515 | The in-place shift and store yield the first k of the insertion, in a filling and in a full array. |
| TopK.HitsExact | src/mem.c:477-490 | The scan considers exactly the content vectors of the right length, in order. |
| TopK.Search | src/mem.c:450-542 | The results are the first min(k, count) hits, k being the number asked for if that is 1 to 16, 5 if it is not positive, and 16 if it is larger. |
| TopK.SearchRanks | src/mem.c:450-542 | Those are a prefix of any list that sorts the hits stably by descending score. |
| MemIndex.ChunksShape | src/mem.c:358-392 | Chunks have at most 1601 bytes, all but the last more than 800, and consecutive ones share exactly 200. |
| MemIndex.ChunksCut | src/mem.c:358-392 | Every chunk but the last ends just after the last newline of its second half, or after 1600 bytes when there is none. |
| MemIndex.ChunksEndLines | src/mem.c:367-375 | Every chunk but the last ends in a newline, or has exactly 1600 bytes and no newline in its second half. |
| MemIndex.ChunksRebuild | src/mem.c:358-392 | The first chunk and the others without their first 200 bytes rebuild the content. |
| MemIndex.TextsRebuildExact | src/mem.c:377-384 | The stored texts rebuild the content if and only if it has no NUL. |
| MemIndex.HiddenNul | src/mem.c:285-293 | A content that passes the test for text, has a NUL and is not rebuilt by its stored texts. |
| MemIndex.AssembledExact | src/mem.c:325-347 | The assembled text is the whole content if and only if the file has no hole, and otherwise what the blocks before the first hole hold. |
| MemIndex.HoleReached | src/mem.c:325-347 | A reachable sound file system with a file of one byte of which nothing is assembled. |
| MemIndex.Assemble | src/mem.c:325-347 | The block loop assembles the content up to the first hole. |
| MemIndex.DeleteEmbeddings | src/mem.c:235-277 | Exactly the vectors, texts, headers and the counter of the inode go; summaries stay. |
| MemIndex.Memorize | src/mem.c:411-437 | A task with the next sequence number joins the end of the queue. |
| MemIndex.SubmitChunks | src/mem.c:358-392 | The loop terminates and queues exactly the chunks, cut as MemIndex.ChunksCut says and numbered from 0. |
| MemIndex.IndexFile | src/mem.c:295-399 | A file is skipped for the opt-out attribute, when empty or when binary; otherwise its old embeddings are gone and one task per chunk is queued. |
| MemIndex.OptOutNeverSet | src/mem.c:299-311 | The opt-out attribute is refused when set and is in no recoverable store, so a file is skipped if and only if it is empty or not text. |
| TaskQueue.Queue.Append | src/llm.c:930-934 | The linked list grows by one item at its tail. |
| TaskQueue.Queue.Take | src/llm.c:800-802 | The linked list loses its head. |
| LlmQueue.NoDuplicates | src/llm.c:919-934 | No inode is queued twice. |
| LlmQueue.PendingExact | src/llm.c:909-940 | The queue holds exactly the inodes with a submit not yet followed by a dequeue. |
| LlmQueue.FifoOrder | src/llm.c:909-940 | The queue is in the order of the earliest unanswered submits. |
| LlmQueue.DrainedAnswers | src/llm.c:794-797 | When the worker leaves, every submit so far has been followed by a dequeue. |
| LlmQueue.Worker.Request | src/llm.c:909-940 | A submit appends the inode unless it is queued. |
| LlmQueue.Worker.Next | src/llm.c:788-804 | The worker takes the head, sleeps on an empty queue, and leaves only after shutdown with the queue empty. |
| PollWaiters.Waiters.Start | src/llm.c:249-262 | The inode becomes active and no other changes. |
| PollWaiters.Waiters.Finish | src/llm.c:264-281 | Every waiter of the inode is notified and destroyed once, and the inode is no longer active. |
| PollWaiters.Waiters.IsActive | src/llm.c:283-292 | Tells whether a generation is running. |
| PollWaiters.Waiters.AddWaiter | src/llm.c:294-307 | A handle joins the waiters of its inode while there is room in the record, and is destroyed at once otherwise; other inodes' waiters are untouched. |
| PollWaiters.Waiters.DestroyAll | src/llm.c:309-319 | Every handle ever given has been destroyed exactly as often as it was given. |

## Left out

- Failures: key/value writes and allocations succeed; the error paths for them are not modelled.
- Remount: runs that go on after a second mount are not modelled; FileSystem.Remount says what it finds.
- Store.Context.Load: the tests of the superblock's length and magic number are not modelled.
- Numbers: inode numbers, sizes, link counts, ring positions and hash counters are unbounded integers; the 64-bit event counter and the 32-bit sequence counters wrap as in the code.
- Times, owners, permission bits, stat filling, replies and logging only add easy members.
- Attributes: getxattr, listxattr and removexattr only add easy members.
- NvmeKv.SerializedAt: the original copies the lengths in the byte order of the host, taken to be the low byte first.
- Directory listing: the resume positions do not continue where a page stopped, so paging is not claimed.
- The memo table of versioned paths: its keys are cut and its entries never invalidated, so it need not agree with the live tree.
- RocksDB, sockets, models, tokens and sampling are foreign; scores, summaries and answers are arbitrary inputs, the stream between client and simulator is reliable.
- The session set is not maintained by link, symlink or replaced targets and is not modelled.
- BlockLayer.Write: the buffer of one block is a sequence, not an array.
- Namespace.DropInode: in builds with the memory subsystem the embeddings of the inode go as well; that step is MemIndex.DeleteEmbeddings.
- Namespace.Rename: restricted to what the kernel sends (existing directories, no move below itself, different inodes) and to a replaced file without another name; RenameLinked is the run over one with another name.
- FileSystem.Step: skips requests the kernel never sends and a rename over a file that has another name, so FileSystem.Session says nothing of a run past such a rename.
- FileSystem.Session: requests run one at a time, while the default loop serves several at once; what threads do to the cache and to the counter between their locks is InodeCache and InodeNumbers, other races are not modelled.
- InodeCache.StepInv: entries, table and threads are values of one state machine, and a thread gets an inode only after its creation returned; clearing the cache at unmount is not a step, and the test of the dirty flag is one step with the write.
- EventRing.Reader.Read: does not say how often a reader is overtaken.
- Conversation.TryCompress: the decision that the context overflows, the split the floating-point product asks for, the summary and its vector are parameters.
- HashTable.Table.Add: the caller has looked the key up before, as all callers in the repository do; bloom filters, sorting and the recovery from failed allocations are not used here.
- KvMem.Store.ListPrefix: the library sort is represented by insertion; SortUnique shows that any sort gives the same list.
- NvmeKv.ParseList: data whose records run past its end make the original read outside its buffer; such data are outside the model, and DecodeSerialize shows the server never sends them.
- NvmeKv.Connection.IterPrefix: the list must be shorter than 4 GiB, the range of its length field; the cursor over the fetched entries is not modelled.
- TopK.Search: the text snippets of the results are not modelled; a result whose text is not stored yet shows the one of the entry it displaced.
- MemIndex.IndexFile: what the embedding thread stores from the queue, and searches that run before it has, are not modelled.
- LlmQueue.Worker.Next: waking the worker and waking pollers between the separate locks of llm_gen_is_active and llm_gen_add_waiter are liveness questions and are left out.
- PollWaiters.Waiters.AddWaiter: records and waiter arrays are sequences of values in a list.
