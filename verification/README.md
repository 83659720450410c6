# magpie-plugins CRDT pack, modelled in Dafny

This project models the core of `magpie-plugins`. That core is a tool that keeps a directory of files in step between machines. It does this through a grow-only replicated state and an rsync remote. It has three parts:

- **The library state.** `Library` in `src/library.rs` is a `BTreeSet` of `(file name, contents)` pairs. It has four operations:
  - `new` returns the empty state.
  - `merge` is set union.
  - `pack` captures every regular file of the working directory that the state does not name yet, then marks the file read-only.
  - `unpack` writes every entry of the state back into the directory.
- **`CrdtPack::init`.** It creates the durable state file when that file is missing.
- **`CrdtPack::sync`.** It runs these steps in order:
  1. Load the durable state and `pack` the directory into it.
  2. Pull the remote object into a cache file.
  3. Merge the cache file if one exists.
  4. `unpack`.
  5. Persist the durable file and the cache file.
  6. Push the cache file to the remote.

There are two versions of the trait:
- `src/lib.rs` refreshes the cache file by copying the durable file.
- `magpie/src/lib.rs`, which the binaries use, serialises the state a second time.

The model is pure functions over immutable values:

- `Crdt` holds the state, its merge, and the `BTreeSet` iteration order. That order is built on `Order`, which defines lexicographic comparison by code point for names and by byte for contents.
- `WorkDir` is the working directory. Each entry is a regular file, with its contents and a read-only bit, or any other kind of entry. The environment's I/O failures are part of the value: a set of `(file name, operation)` pairs that fail.
- `Packing` is `pack`.
- `Unpacking` holds two versions of `unpack`:
  - `unpack` as written.
  - A materialising variant that never overwrites an existing path.
- `Store` is the state files. A state file is absent or holds a blob, and a blob is either the encoding of a state or undecodable.
- `Sync` is `init`, each step of `sync`, and `sync` itself. `sync` is a sequence of steps that stops at the first error. The world it acts on holds:
  - the durable file, the cache file, the working directory and the remote object;
  - the outcome the transfer program will report for the pull and for the push;
  - the set of state-file operations that fail.
- `SyncProperties` holds properties of whole runs.
- `Scenarios` holds two-replica examples.

Two points of the code's behaviour are easy to misread, and this model follows the code in both:

- **How merge treats a name.** The state is a set of pairs, not a map keyed by name in which the first entry for a name would win. Two replicas that capture different contents under one name therefore both keep both pairs (`Crdt.MergeKeepsConflictingPairs`, `Scenarios.ConflictingFilesConvergeInStateOnly`).
- **What `unpack` does with existing paths.** The code's `unpack` recreates every path, including the files `pack` has just made read-only; see Findings.

## Model

| member | source | states |
|---|---|---|
| Crdt.New | src/library.rs:23-27 | The fresh state holds no entry and names no file. |
| Crdt.Merge | src/library.rs:79-82 | After a merge, a pair is present exactly when either side held it. |
| Crdt.NewIsMergeIdentity | src/library.rs:79-82 | The empty state is a left and right identity of merge. |
| Crdt.MergeCommutative | src/library.rs:79-82 | Merging in either order gives the same state. |
| Crdt.MergeAssociative | src/library.rs:79-82 | Grouping of merges does not matter. |
| Crdt.MergeIdempotent | src/library.rs:79-82 | Merging a state into itself changes nothing. |
| Crdt.MergeIsLeastUpperBound | src/library.rs:79-82 | The merge contains both inputs and is contained in every state that contains both. |
| Crdt.MergeAbsorbs | src/library.rs:79-82 | Merging in a state already contained changes nothing. |
| Crdt.MergeKeepsConflictingPairs | src/library.rs:17-20 | Two pairs with one name and different contents both survive a merge, so names stop being unique. |
| Crdt.MergeAllHoldsExactlyTheSnapshots | src/library.rs:79-82 | Folding merge over any sequence of snapshots yields exactly the pairs some snapshot holds. |
| Crdt.MergeAllIgnoresOrderAndRepetition | src/library.rs:79-82 | Two sequences of snapshots with the same members merge to the same state, whatever their order and repetitions. |
| Crdt.EntryLessIsStrictTotal | src/library.rs:19 | The tuple order of `(String, Vec<u8>)`, names first and then contents, is a strict total order. |
| Crdt.InOrder | src/library.rs:30 | Iterating the set yields each pair exactly once, in strictly ascending order. |
| Order.NameLessIsStrictTotal | src/library.rs:43 | Code-point lexicographic order on names is a strict total order. |
| Order.Sorted | src/library.rs:62 | A set's ascending enumeration has the set's size, holds exactly its members, and is strictly ascending. |
| Packing.MarkReadOnly | src/library.rs:71-73 | Marking a captured file read-only sets only its read-only bit; its contents and every other entry are unchanged. |
| Packing.CaptureEach | src/library.rs:62-74 | The capture loop succeeds exactly when no name is blocked. Every added pair is a listed file with its full contents. Nothing already present is lost. |
| Packing.CaptureEachDir | src/library.rs:62-74 | The capture loop changes only read-only bits, only those of listed files, and leaves every listed file read-only on success. |
| Packing.Pack | src/library.rs:42-77 | Covers the full behaviour of `pack`; see the list after this table. |
| Packing.PackOrder | src/library.rs:56-62 | The files `pack` captures, in the order it captures them: exactly the regular files the state does not name yet, in strictly ascending name order, each once. |
| Crdt.Insert | src/library.rs:69 | Inserting a pair adds exactly that pair, and its name is added to the state's names. |
| Packing.PackCoversDirectory | src/library.rs:56-74 | After a successful pack, the state names every regular file of the directory. |
| Packing.PackMarksNewFiles | src/library.rs:71-73 | After a successful pack, each new file is read-only with its contents unchanged, and no path is added or removed. |
| Packing.PackIdempotent | src/library.rs:56-62 | Packing again over the directory it left adds nothing and changes nothing. |
| Packing.PackSkipsNonFilesAndRejectsInvalidNames | src/library.rs:44-54 | Only regular files are captured. A regular file whose name is not UTF-8 fails the call before anything changes. |
| Packing.CaptureStopsAtFirstFailure | src/library.rs:62-74 | On an error, the error names the first file the environment blocks; every earlier file was capturable. Every file before it is captured and read-only. Nothing after it is inserted. |
| Packing.PackStopsAtFirstFailure | src/library.rs:62-74 | The same in name order: new files with smaller names were capturable and are captured, and those with larger names are not. Earlier insertions are not rolled back. |
| Unpacking.WriteFile | src/library.rs:31-37 | Writing one entry succeeds exactly when the path can be created and no write fault applies. On success the file holds the data, read-only. Failures name the file. Only that path changes. |
| Unpacking.UnpackEachSucceedsIff | src/library.rs:30-39 | The loop succeeds exactly when names are pairwise distinct and every path can be created and written. |
| Unpacking.Unpack | src/library.rs:29-40 | `unpack` succeeds exactly when names are unique and every target is creatable and writable. On success every entry is on disk, read-only, with its contents. Only the state's names are touched. Protected entries never change. |
| Unpacking.UnpackStopsAtFirstFailure | src/library.rs:30-39 | On an error, the failing entry is in the state and the error names it. It failed because its path could not be created or written, or because a smaller entry with the same name had already written that path read-only. Every smaller entry is already on disk, read-only. No path of a larger entry is touched. |
| Unpacking.Materialize | src/library.rs:29-40 | The corrected `unpack` never changes an existing path. It succeeds exactly when every missing file can be written. Afterwards every name exists, and each new file is read-only with the contents of an entry of that name. |
| Unpacking.MaterializeCreatesExactlyMissing | src/library.rs:30-33 | After a successful materialisation, the directory holds its old paths plus one per name in the state. |
| Unpacking.MaterializeWritesUniqueEntries | src/library.rs:30-34 | When names are unique, each new file holds its own entry's contents. |
| Store.FromFile | src/lib.rs:52-56 | Loading succeeds exactly when the file exists, opens and decodes. It then returns the encoded state. An absent file is NotFound. |
| Store.ToFile | src/lib.rs:58-62 | Writing succeeds exactly when create and encode succeed. On success the file holds the state's encoding. A failed create leaves the file. A failed encode leaves an undecodable file. |
| Store.ToFileThenFromFile | src/lib.rs:52-62 | A state written and read back is the same state. |
| Store.FailedWriteCorrupts | src/lib.rs:58-62 | A write that fails after creating the file leaves a file that no longer loads. |
| Sync.Init | src/lib.rs:77-90 | `init` does nothing when the durable file exists. Otherwise it succeeds exactly when no directory, create or encode fault applies, and then writes the empty state. Only the durable file changes. |
| Sync.LoadStep | src/lib.rs:64-65 | Loading continues exactly when the durable file loads, and the loaded state is what that file encodes. |
| Sync.CaptureStep | src/lib.rs:64-66 | Capturing only adds to the state and only changes read-only bits in the directory. A failure halts at the capture stage. |
| Sync.PullStep | src/lib.rs:98-110 | A running pull continues exactly when the cache file can be placed and the transfer works; it then leaves the remote object in the cache file, or the old cache file when there is no remote object. A halted pull names the pull stage. Only the cache file changes. |
| Sync.MergeStep | src/lib.rs:113-119 | Merging only adds to the state. With no cache file it does nothing. It fails only when the cache file cannot be opened or decoded, and then halts at the merge stage. |
| Sync.UnpackStep | src/lib.rs:121-122 | Only paths named by the state are touched. `unpack` as written never changes a read-only file or a non-file. The materialising variant changes nothing that exists. A failure halts at the unpack stage. |
| Sync.PersistStep | src/lib.rs:124-126 | After persisting, the durable file holds the local state and the cache file equals it. |
| Sync.PushStep | src/lib.rs:129-138 | A failed push is PushFailed and changes nothing. A successful push makes the remote object the cache file. |
| Sync.Sync | src/lib.rs:92-142 | Covers the full behaviour of `sync`; see the list after this table. |
| SyncProperties.InitThenLoadYieldsNew | src/lib.rs:77-96 | After `init` creates the durable file, loading it yields the empty state. |
| SyncProperties.InitKeepsExistingFile | src/lib.rs:79-81 | `init` never replaces an existing durable file, even one that does not decode. |
| SyncProperties.SyncHaltsAtLoadExactly | src/lib.rs:64-69 | A sync halts at load exactly when the durable file does not load. It then changes nothing. |
| SyncProperties.CaptureRunsBeforeTransfer | src/lib.rs:64-69 | The loaded state is packed before any transfer. A failing pack halts the sync with only pack's changes made. |
| SyncProperties.PullFailureHalts | src/lib.rs:98-110 | A failed pull or cache placement halts before merge, unpack and persist. The durable file, the cache file and the remote are unchanged. |
| SyncProperties.MergeOnlyWhenCacheExists | src/lib.rs:113-119 | With no cache file the state is unchanged. With a decodable one it is merged in. An undecodable one halts at merge. |
| SyncProperties.SyncOnlyGrowsLocal | src/lib.rs:96-125 | Everything loaded from the durable file is still in the state written back. |
| SyncProperties.UnpackPrecedesPersist | src/lib.rs:121-126 | A sync that persisted had a successful unpack and wrote back exactly the merged state. |
| SyncProperties.CopyingPersistDuplicatesDurable | src/lib.rs:125-126 | The copying version succeeds exactly when the copy does, leaving the cache file byte-equal to the durable file. A copy that fails before truncating the cache file leaves it unchanged. One that fails after leaves a cache file that no longer loads. Either way the durable file is already written. |
| SyncProperties.ReserialisingPersistWritesBoth | magpie/src/lib.rs:117-118 | The reserialising version writes the durable file. It succeeds exactly when the cache write does, and reports a cache fault after the durable file was written. |
| SyncProperties.VersionsAgreeOutsidePersist | magpie/src/lib.rs:90-132 | When neither way of writing the cache file can fail, the two versions of `sync` behave identically. |
| SyncProperties.PushFailureAfterPersist | src/lib.rs:129-138 | With a failing push the sync halts. If it got to the push, the durable and cache files already hold the final state and the remote is unchanged. |
| SyncProperties.StaleCacheMergeIsHarmless | src/lib.rs:113-119 | A cache file left by an earlier sync, merged again because the remote is absent, changes nothing. |
| SyncProperties.CompletedSyncLeavesMatchingCache | src/lib.rs:124-138 | After a completed sync, the durable file, the cache file and the remote all hold the final state. |
| SyncProperties.UnpackRefusesReadOnlyFile | src/library.rs:33 | `unpack` as written halts at unpack when the state names a file that is read-only on disk. |
| SyncProperties.CreateEachSyncNeverPersistsNewFiles | src/library.rs:33 | With `unpack` as written, a sync that finds a new file halts before persisting. The durable file and the remote are unchanged. |
| SyncProperties.NewFileSurvivesCreateEachSync | src/library.rs:33 | With `unpack` as written, a new file is still new in the directory such a sync leaves behind. |
| SyncProperties.CreateEachSyncIsStuck | src/library.rs:33 | Repeating such a sync on the world it left halts again before persisting, with the durable file still unchanged. |
| SyncProperties.HealthyMaterialize | src/library.rs:29-40 | With no file faults, the materialising unpack succeeds, creates every name, and changes nothing already present. |
| SyncProperties.MaterializingSyncCompletes | magpie/src/lib.rs:90-132 | With the corrected unpack and a healthy environment, sync completes. The final state is the loaded state plus captured files plus the pulled state. All three state files hold it. Every name exists on disk. Existing files keep kind and contents. |
| Scenarios.TwoReplicasExchangeFiles | magpie/src/lib.rs:90-132 | With the materialising unpack: replica A publishes `notes.txt` = "hello". Replica B then ends with both files on disk, read-only, and both pairs in its durable file. |
| Scenarios.SecondReplicaGetsBoth | magpie/src/lib.rs:110-118 | With the materialising unpack, a fresh replica pulling another's file ends with both files on disk and both pairs in its state. |
| Scenarios.AsWrittenFirstSyncHalts | src/library.rs:33 | With `unpack` as written, a fresh replica's first sync halts at unpack with PermissionDenied on its own file. Nothing is persisted or published. |
| Scenarios.ConflictingFilesConvergeInStateOnly | src/library.rs:79-82 | With the materialising unpack, two replicas capturing different contents under one name end with both pairs in the state, while each directory keeps its own file. |

What the two rows that cover a whole operation state:

- **Packing.Pack.** Pack only grows the state. Every added pair is a new regular file with its full contents. It succeeds exactly when the directory lists, no regular file has a non-UTF-8 name, and no new file is blocked. On success, the state gains exactly the new files. Listing failures change nothing. Only read-only bits of captured files change.
- **Sync.Sync.** The environment is never changed. A sync halted before persist leaves the durable file and the remote unchanged. Once persisted, the durable and cache files hold the final state. A halt at push is PushFailed with the remote unchanged. A completed sync publishes the state.

## Left out

- Reading `APPNAME`, `CHANNEL` and `url`, and computing the XDG paths and the current directory (`EnvVars::new`), are left out. The model is handed the files those paths name.
- CBOR is not modelled byte by byte. A state file holds the encoding of a state or an undecodable blob. Encoding and decoding are taken to be inverse, as serde and ciborium promise.
- The rsync process is left out. Its outcome is a parameter: whether the pull and the push succeed. A successful pull of an absent remote object (`--ignore-missing-args`) leaves the cache file as it was. A failed transfer leaves its target unchanged.
- Logging (`info!`, `log::trace!`) is left out, because it has no effect on state.
- The command-line wrappers `library/src/init.rs` and `library/src/main.rs` are not part of this model.
- Errors from `entry?` and `file_type()?` while listing are merged into one listing failure.
- A directory entry is a regular file or something else. Symbolic links are not followed or distinguished.
- Unpacking.WriteFile: names containing `/`, absolute names, and the names `""`, `.` and `..` are treated as ordinary file names. In the source, `File::create` on `""`, `.` or `..` fails because the path is the working directory or its parent, a name with `/` writes below a subdirectory or fails when that is missing, and an absolute name writes outside the working directory; the model instead creates a top-level file. `read_dir` never lists such names, so only a merged-in state can carry them.
- The permission model is a single read-only bit with non-root semantics. Creating a read-only file fails with PermissionDenied, and root would bypass that.
- A write that fails part-way (`write_all`) is modelled as leaving an empty, writable file. The partial contents are not modelled.
- `read_dir` order is not modelled. `pack` collects names into a `BTreeSet` before reading any file, so only the sorted order matters.
- `pack` reopening a file after its listing, for example when it was deleted in between, is not modelled.
- A failing `metadata` call is merged with the `set_permissions` failure that follows it.
- Concurrent runs of `sync` on the same files are not modelled.
- `Sync.PullStep`: the `status()?` failure to start rsync is merged into a failed pull.

## Findings

| source | as written | input that shows it | evidently intended | confidence | as-written member | corrected member |
|---|---|---|---|---|---|---|
| src/library.rs:33 | `unpack` calls `File::create` on every entry's path. `pack`, which `sync` runs first, has just made every newly captured file read-only. Creating over a read-only file fails, so `sync` returns before persisting or pushing. | A replica after `init` whose working directory holds one writable regular file, `notes.txt`. Its first `sync` halts at unpack with PermissionDenied, and every later `sync` halts the same way. | Skip paths that already exist. `pack` marks every captured file read-only (src/library.rs:71-73), and `unpack` runs after it in every `sync`. So only an `unpack` that leaves existing paths alone lets `sync` reach persist once any file has been captured. The local file then wins, and missing files are created read-only. | not executed | SyncProperties.CreateEachSyncNeverPersistsNewFiles | SyncProperties.MaterializingSyncCompletes |

The as-written behaviour is `Unpacking.Unpack`, used by `Sync.SrcVersion` and `Sync.MagpieVersion`. `Scenarios.AsWrittenFirstSyncHalts` shows the concrete input. The corrected behaviour is `Unpacking.Materialize`, used by `Sync.MaterializingVersion`. With it, `Scenarios.TwoReplicasExchangeFiles` proves the two-replica exchange: replica A holds `notes.txt`, replica B holds `diary.txt`, A syncs first and B second, and B ends with both files.
