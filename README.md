# folder_sync, modelled in Dafny

`folder_sync(source, replica)` mirrors one directory tree onto another in two
passes.

- **Propagate pass.** It walks the source top-down. For every source directory, the root included, it creates the replica directory with `os.makedirs` when nothing exists at that path. For every source file it copies the file with `shutil.copy2` when nothing exists at the replica path, or when the SHA-256 checksums of the two files differ.
- **Prune pass.** It then walks the replica top-down. In each directory it visits, it removes with `os.remove` every file with nothing at the same relative path in the source. It removes with `shutil.rmtree` every subdirectory with nothing at the same relative path in the source.

## How the model is built

- **Trees.** A tree is a table from relative paths (sequences of names, the root being the empty path) to entries. An entry is either `Dir` or `File(content, mtime)`. `WellFormed` says that the root, when present, is a directory, and that every other entry sits in a directory. The empty table is a root that does not exist.
- **Primitives.** `Trees.Tree` is a class holding that table. Its methods `MakeDirs`, `Copy`, `Remove` and `RmTree` are the four file-system calls the synchronizer makes. Each changes the table in place, and each states its whole effect. This includes when `os.makedirs` and `shutil.copy2` raise.
- **Passes.** `Propagate.PropagatePass` and `Prune.PrunePass` are methods with loops, and `Sync.FolderSync` runs one after the other. The loop methods mirror the source's `for` loops: one method per loop and one per loop body. `Propagate.VisitDir` and `Prune.VisitReplicaDir` are the bodies of the two walks. `CopyFile`, `PruneFile` and `PruneSubdir` are the bodies of the loops over one directory's entries.
  - **Walks.** Each walk keeps a set of directories still to visit and takes any of them next. A directory's subdirectories join the set when it is visited. What is proved therefore holds for every order in which `os.walk` may list a directory.
  - **Specification.** Each pass is proved to leave the replica exactly as a function of the two trees before the pass says. These functions (`Propagated`, `Pruned`, `Synced`) live in `SyncSpec`.
  - **Log.** Each pass returns the mutations it made, one event per `logger.debug` line of the source. The pass is proved to log exactly the mutations that `PropagateEvents`, `PruneEvents` or `SyncEvents` name, each exactly once (`NoRepeats`).
- **Properties.** `SyncProperties` proves what the resulting replica looks like: convergence, idempotence, no spurious copy, pruning of whole subtrees, and the boundary cases.
- **Exceptions.** Exceptions are an outcome, not a precondition. `FolderSync` returns `ok == false` exactly when the trees clash as `SyncSpec.Raises` says:
  - a source file lies over a replica directory, where `calculate_checksum` cannot open the directory; or
  - a source directory that holds something lies over a replica file, where `shutil.copy2` or `os.makedirs` below it fails.
- **Checksum.** The checksum is the parameter `sum: Content -> Digest`. Nothing is assumed about it beyond being a function of a file's content.

### Where the code and its description differ

The model follows the code in each case.

- **Either kind counts as existing.** The prune pass tests `os.path.exists`, which is true for either kind of entry. A replica file is kept when the source has a directory at its path, and a replica directory is kept when the source has a file there. The description says the test is for a file or a directory of the same kind. `Kept` in `SyncSpec` is what the code does.
- **Missing source root.** When the source root does not exist, `os.walk(source)` yields nothing and raises nothing. The prune pass then removes everything inside the replica root; see `MissingSourceEmptiesReplica`. The description has this fail with an I/O error instead.
- **Empty directory over a file.** An empty source directory over a replica file raises nothing, and the file stays; see `EmptyDirOverFileStays`. So "after every completed pass the replica's paths and kinds equal the source's" holds only when the source root exists and the two trees agree on the kind of each path they share; see `SyncMirrorsSource`. Other kind clashes raise on every pass, as `Raises` says.

## Model

| member | source | states |
|---|---|---|
| Trees.Tree.MakeDirs | snyc.py:48-49 | `os.makedirs` on a missing path succeeds exactly when no directory above it is a file. It then adds the path and every missing directory above it, and otherwise changes nothing. |
| Trees.Tree.Copy | snyc.py:57 | `shutil.copy2` onto an absent path or a file succeeds exactly when the parent is a directory. The destination then takes the source file's content and mtime, and otherwise nothing changes. |
| Trees.Tree.Remove | snyc.py:69 | `os.remove` takes away exactly the one file. |
| Trees.Tree.Exists | snyc.py:48 | `os.path.exists` is true for a file and for a directory alike, and only for a path whose every ancestor is a directory. |
| Trees.ListedOnce | snyc.py:44 | `os.walk` lists every entry directly inside a directory exactly once, under `files` or under `dirs` but never both. |
| Trees.Tree.RmTree | snyc.py:77 | `shutil.rmtree` takes away the directory and everything below it, and nothing else. |
| Walk.WalkEnd | snyc.py:44 | A top-down walk that pushes each visited directory's subdirectories has visited every directory it had to reach once nothing waits. |
| Propagate.PropagatePass | snyc.py:44-58 | The propagate pass raises exactly when `Raises` holds. Otherwise the replica ends equal to `Propagated` and the log holds exactly `PropagateEvents`, each once. When it raises, every entry is as before or as `Propagated` sets it. |
| Propagate.VisitDir | snyc.py:45-58 | One iteration of the source walk creates the directory when nothing exists there. It then handles the directory's files, and raises only where `Raises` holds. |
| Propagate.CopyFiles | snyc.py:52-58 | The file loop of one directory leaves each of its files as `Propagated` says and logs exactly their copies. It raises only where `Raises` holds. |
| Propagate.CopyFile | snyc.py:53-58 | One file is copied exactly when `ToCopy` names it. A replica directory at its path, or a replica file where its parent should be, raises, and then the replica is unchanged. |
| Propagate.VisitFile | snyc.py:56 | The copy test "missing or checksum differs" holds exactly when the file is in `ToCopy`. |
| Propagate.MakeDirsRaises | snyc.py:48-49 | `os.makedirs` fails under a visited parent only when `Raises` holds. |
| Propagate.DirOverFileRaises | snyc.py:56-57 | A source directory with something in it, over a replica file, raises. |
| Propagate.NoRaiseAfterFullPass | snyc.py:44-58 | A pass that dealt with every source entry met no clash: `Raises` is false. |
| Prune.PrunePass | snyc.py:60-78 | The prune pass leaves the replica equal to `Pruned`, whatever the walk order. The log holds exactly `PruneEvents`, each once. |
| Prune.PruneFiles | snyc.py:64-70 | The file loop of one visited directory removes exactly the listed files with nothing at their source path, and changes nothing else. Exactly those removals are logged, each once. |
| Prune.PruneFile | snyc.py:65-70 | A listed file is removed exactly when the source has nothing at its path. Nothing else changes. |
| Prune.PruneSubdirs | snyc.py:72-78 | The directory loop of one visited directory removes exactly the subtrees of the listed subdirectories with nothing at their source path, and changes nothing else. Exactly those removals are logged, each once. |
| Prune.PruneSubdir | snyc.py:73-78 | A listed subdirectory is removed with its contents exactly when the source has nothing at its path. Nothing else changes. |
| Prune.RmTreeStep | snyc.py:76-77 | Removing an unkept directory's subtree removes no entry the pass keeps. |
| Prune.VisitReplicaDir | snyc.py:61-78 | One iteration of the replica walk removes exactly the listed files and subtrees with nothing at their source path and nothing else. It lists as subdirectories what the replica held there, and so reaches every kept subdirectory. A directory already removed lists nothing. |
| Prune.VisitListed | snyc.py:60 | A directory the replica walk reaches and that still exists is kept. What it lists is what the replica held there before the pass. |
| Prune.VisitGone | snyc.py:60 | A directory removed before the walk reaches it yields nothing. None of the directories the pass keeps lie directly inside it. |
| Prune.PruneComplete | snyc.py:60-78 | Once the walk has reached every kept directory, the replica is `Pruned` and every removal of `PruneEvents` is logged. |
| Sync.FolderSync | snyc.py:43-78 | A synchronization raises exactly when `Raises` holds. Otherwise the replica ends equal to `Synced` and the log holds exactly `SyncEvents`, each once. The source is never changed. |
| SyncSpec.SyncLogJoins | snyc.py:50-78 | The logs of the two passes, one after the other, name exactly `SyncEvents`, each once: the propagate pass logs only creations and copies, the prune pass only removals. |
| SyncProperties.PropagatedHasSource | snyc.py:44-58 | Every source path is in the replica after the propagate pass. |
| SyncProperties.PropagateCoversSource | snyc.py:44-58 | After a propagate pass that does not raise, each source file is in the replica with the source's checksum. Each source directory is a directory there, except an empty one over a replica file. |
| SyncProperties.PropagatedWellFormed | snyc.py:44-58 | The propagate pass keeps a well-formed replica well-formed when it does not raise. |
| SyncProperties.PrunedWellFormed | snyc.py:60-78 | The prune pass keeps the replica well-formed. |
| SyncProperties.FileAfterSync | snyc.py:56-57 | After a sync, each source file in the replica is the replica's own when the checksums agree. Otherwise it is the source's, with its content and mtime. |
| SyncProperties.NoSpuriousCopy | snyc.py:56-57 | A replica file whose checksum agrees with its source is not copied, and keeps its content and mtime. |
| SyncProperties.SyncKeepsSource | snyc.py:44-78 | The prune pass removes no source path the propagate pass produced. |
| SyncProperties.PruneRemovesSubtree | snyc.py:72-78 | A replica entry with nothing at its path in the source is gone after a sync. So is everything below it. |
| SyncProperties.RemovalsOnlyStale | snyc.py:64-78 | Every logged removal names an entry of the replica before the sync. The entry is of the logged kind, absent from the source, and absent from the replica afterwards. |
| SyncProperties.KindsAgreeNoRaise | snyc.py:56-57 | Trees that agree on the kind of each shared path do not raise. |
| SyncProperties.SyncMirrorsSource | snyc.py:43-78 | A sync from a source whose root exists, between trees that agree on kinds, leaves the replica with the source's paths. It has the same kind at each path and the source's checksum at each file, whatever it held before. |
| SyncProperties.SyncIdempotent | snyc.py:43-78 | After a sync that does not raise, a second one with the same source does not raise, changes nothing and logs nothing. |
| SyncProperties.PropagateFromMissingSource | snyc.py:44 | With no source root, the propagate pass neither raises nor changes anything. |
| SyncProperties.MissingSourceEmptiesReplica | snyc.py:60-78 | With no source root, a sync leaves only the replica root, as an empty directory, or nothing when the replica root is missing too. |
| SyncProperties.MissingSourceRemovals | snyc.py:64-78 | With no source root, every logged removal names an entry directly inside the replica root. |
| SyncProperties.EmptySourceEmptiesReplica | snyc.py:43-78 | An empty source root leaves an empty replica root, whatever the replica held. |
| SyncProperties.EmptyDirOverFileStays | snyc.py:48-57 | An empty source directory over a replica file raises nothing, and the file stays. The replica then does not mirror the source. |
| SyncProperties.ScenarioFirstPass | snyc.py:43-78 | Syncing `a.txt` and `sub/b.txt` into an empty replica yields the source tree, mtimes included. |
| SyncProperties.ScenarioSecondPass | snyc.py:43-78 | After `sub/b.txt` is deleted from the source, the next sync removes it and keeps `sub`. |

## Left out

- The scheduler is not modelled: `folder_sync_thread`, the `thread_running` flag and the thread wiring (snyc.py:9, 80-86). It is about concurrency and timing.
- `user_input` and the `__main__` block (snyc.py:88-130) are not modelled. They are console I/O and argument handling.
- `setup_logger` and the logger are not modelled. Each `logger.debug` line of `folder_sync` is an `Event` in the returned log instead.
- `calculate_checksum` is the parameter `sum`, not modelled: SHA-256 and its 4096-byte block reads are a foreign call to `hashlib`.
- Permissions and other metadata, symbolic links, unreadable roots, full disks and other operating-system errors are not modelled. Only the content and mtime of a copied file are.
- Trees.WellFormed: a root that is a file is not modelled. A tree's root is a directory or absent.
- Sync.FolderSync: the source and the replica are assumed to be two separate trees, neither inside the other, and nothing else changes them during a pass.
- Sync.FolderSync: when it raises, it states only that each replica entry is as before or as the propagate pass sets it, not which entries were reached.
- Sync.FolderSync: states which mutations are logged and that each is logged once, not their order.
- Propagate.PropagatePass: states which mutations are logged and that each is logged once, not their order.
- Prune.PrunePass: states which mutations are logged and that each is logged once, not their order.
