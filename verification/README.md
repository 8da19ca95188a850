# ocidoc: a verified model

ocidoc packages the documentation of a project as an OCI artifact, keeps such artifacts in a
local store, and moves them through registries. This project models the parts of it in which
most can go wrong and proves what they promise:

- **Paths and extraction.** `BundlePath` is the syntax of bundle paths. `PathTrie` is the mutable
  trie of the global collision check, proved equal to comparing every path with every earlier
  one. `Limits`, `Extraction` and `ExtractionTheory` are the tar limits and the extraction loop;
  acceptance by the trie is exactly what makes extraction onto a case-folding filesystem succeed.
  `OverwriteTheory` tells what stands at every path after extraction over any destination.
  `ArtifactExtraction` reads every component twice, first to check all names, then to write.
- **The local store.** `StoreDisk` and `StoreBody` are the blobs, the root index, the catalog and
  the operations Commit, Remove, Prune and Verify as small durable steps. `StoreProtocol` runs any
  number of goroutines, handles and processes over them under the two-level lock, with a crash
  possible anywhere. `LocalStore` is the imperative store whose methods are proved to be runs of
  those steps. `Metadata` is the trust boundary of Commit. `StoreSafety` and `StoreTheory` hold
  the invariants and what commit, prune and repair achieve, `StoreRuns` what every run keeps of
  the catalog. The shape on disk is that of the
  sections "Blobs" and "index.json file" of the OCI Image Layout Specification.
- **Planning.** `SourceWalk` and `WalkTheory` are the walk over a tree with directory links and its
  ancestor test on a shared buffer. `OwnershipPlan` assigns files to components.
  `Dependencies`, `DependencyTheory` and `Discovery` are the wave-by-wave closure under Markdown
  references. `Entrypoints`, `Planning`, `PlanTheory` and `PlanChoices` finish the plan. Go's map
  iteration is an arbitrary choice in every loop, and the outcome is proved not to depend on it.
- **Build and verify.** `ArtifactVerify` is the independent checker, `BuildVerify` the builder; every
  successful plan builds an artifact in which the checker finds no issue. `RoundTrip` closes the
  circle: what the checker accepts extracts, and what is built extracts to the source files.
- **Streams, registry, comparison.** `Streaming` relates the incremental verifier and the limited
  copy to batch verification. `RegistryPrune` shows slot pruning safe over any sequence of failing
  runs. `Diff` and `DiffReport` show when a comparison is a patch.

`Prelude` holds the string order, sorting and listings; `ManagedAnnotations` the schema
version and the reserved keys.

Code that changes state in place is modelled by classes and loops (the trie nodes, the extraction
destination, the store, the ancestor buffer, the verification result, readers and writers, the
repository), each proved against a specification function about which the theorems are stated.

## Where the code departs from its documentation

The model follows the code. `BundlePath.ValidExactly`: the code accepts a documented path exactly
when it has no space anywhere, not only at a segment edge, and no segment named `COMLPT` with a
device digit; `BundlePath.InnerSpaceRejected` and `BundlePath.MixedPortRejected` are instances.
`PathTrie.TwoPassExactly`: validity and collisions are judged path by path, not in two passes,
and the verdict is the documented one exactly when no collision precedes the first invalid path;
`PathTrie.DuplicateHidesInvalid` is an instance. `Limits.PassesAgreeExactly`: extraction and scan
agree on every archive exactly when the largest total that leaves room for one more file, and
that file, fit int64 together; `Limits.PileDisagrees` and `Limits.OverflowDisagrees` give the
failing archives. `StoreDisk.RemoveKeepsClosedExactly` and `StoreTheory.CommitIndexesExactly`:
the exact conditions under which a digest that is both a root and a component matters, with the
instances `StoreDisk.RemoveCanBreakClosure` and `StoreTheory.CommitCanMissIndex`.
`RoundTrip.VerifiedExtractsExactly`: a verified artifact is extracted exactly when the bytes after
its tar terminators stay within the limit, which the checker does not test.
`DiffReport.EqualExactly`: an empty schema version on the first side hides a difference, as in
`DiffReport.EmptyVersionIsMissed`. `Diff.ComponentPatchExactly`: the locale entries are a patch
exactly when no empty file list has to be told from a missing one, as in `Diff.EmptyListDiffers`.

## Assumptions

- Hashing, JSON, tar and compression are functions given as parameters; decoding undoes encoding.
  A digest names one content, and an incremental hash of pieces is the hash of the whole.
- Pushing a manifest stores its blob and its index entry in one step, and deleting one removes
  both in one step. In the store's run theorems no digest is both a root and a configuration or
  component; the conditions without this assumption are proved beside them.
- Directory listings have each name once, in ascending order and without a slash.
- Case folding is an arbitrary function on segments, the same for the check and the filesystem.
- Rule matching, Markdown parsing and the predicates on component names, locale keys and document
  names are arbitrary functions.
- Two reads of a component that both pass its digest check yield the same tar stream.
- Nothing else writes to the destination of an extraction, or to the source tree between
  planning and building.

## Model

| member | source | states |
|---|---|---|
| `BundlePath.ValidMeaning` | spec/validate.go:41-145 | A path is valid exactly when it has no backslash and every slash-separated segment is sound; the whole-path conditions on NUL, leading slash and drive letter never decide. |
| `BundlePath.ValidExactly` | spec/validate.go:30-145 | The code accepts exactly the paths that meet the documented rules, have no space at all, and have no segment named COMLPT and a device digit; so it agrees with the documentation on every other path. |
| `BundlePath.PortableExactly` | spec/validate.go:41-145 | Told on the characters: a path is accepted if and only if it has no backslash and every segment is not empty, does not end in a dot, has no control character, space or one of the seven marks, and does not spell a device name, in any case, up to its first dot. |
| `BundlePath.SpaceIsNeverValid` | spec/validate.go:115-132 | Every path with a space is rejected, because the list of non-portable characters contains the space; the documented rule is about segment edges. |
| `BundlePath.InnerSpaceRejected` | spec/validate.go:115-132 | An instance: "a b" meets the documented rules and is rejected. |
| `BundlePath.MixedPortRejected` | spec/validate.go:365-381 | An instance: "comlpt1" meets the documented rules and is rejected. |
| `BundlePath.ReservedNames` | spec/validate.go:365-381 | The reserved device names are the documented ones and COMLPT followed by a device digit. |
| `BundlePath.ValidStaysInside` | spec/validate.go:41-145 | A valid path has no empty, "." or ".." segment, and joining its segments gives it back. |
| `BundlePath.ValidAncestor` | spec/validate.go:77-142 | Every directory above a valid path is itself a valid path. |
| `BundlePath.SplitJoin` | spec/validate.go:77-77 | Different lists of slash-free names are different paths. |
| `PathTrie.ValidateBundlePaths` | spec/paths.go:76-117 | The mutable pointer trie returns the same verdict, with the same path, original and kind, as comparing every path with every earlier one. |
| `PathTrie.Follow` | spec/paths.go:84-113 | Walking down the trie creates the missing nodes, marks them with the first path through, and stops where an earlier path ends. |
| `PathTrie.Add` | spec/paths.go:84-113 | Adding one path finds exactly its first collision with earlier paths, or extends the trie by it. |
| `PathTrie.AcceptsExactly` | spec/paths.go:76-117 | A list is accepted if and only if every path is valid and no two positions hold paths whose folded segment lists are prefixes of each other. |
| `PathTrie.AcceptanceIgnoresOrder` | spec/paths.go:68-117 | Acceptance is the same for every permutation of the list. |
| `PathTrie.RejectsTruthfully` | spec/paths.go:84-144 | A rejection names the first offending path; all earlier paths are acceptable together, and the original it names is an earlier path that collides in the reported way. |
| `PathTrie.BundlePathsCollide` | spec/paths.go:84-113 | Under the program's own rules two paths collide if and only if the segments of one are, up to case, the first segments of the other. |
| `PathTrie.TwoPassExactly` | spec/paths.go:68-117 | The documented verdict, the first invalid path before any collision, is the code's verdict if and only if every path is valid or the paths before the first invalid one do not collide. |
| `PathTrie.DuplicateHidesInvalid` | spec/paths.go:73-82 | A concrete list for which they differ: a duplicate is reported although a later path is invalid. |
| `PathTrie.BundleRulesSensible` | spec/paths.go:76-117 | The program's own syntax and folding rules meet what the trie proof needs, for every case folding. |
| `Limits.Scan` | internal/archive/scan.go:33-103 | The scan loop accepts exactly the streams that pass every check in order and end at the terminator, and reports names, count and size. |
| `Limits.Drain` | internal/archive/drain.go:17-40 | The tail is accepted read by read within the budget that earlier bytes leave, up to the end of the stream or a read that fails. |
| `Limits.DrainCounts` | internal/archive/drain.go:17-40 | Draining does not depend on how the tail is split into reads: only its total length counts. |
| `Limits.AdmitsAgree` | internal/archive/extract.go:115-168 | Per entry, extraction (add, then compare) and scan (subtract, then compare) agree wherever the running total leaves room for one more file. |
| `Limits.ScanAgreesWithExtract` | internal/archive/extract.go:115-170 | Where the limits fit int64, scan and extraction accept the same streams, exactly those within the limits whatever the order of their entries, report the same count and size, and give the same error. |
| `Limits.PassesAgreeExactly` | internal/archive/scan.go:67-80 | For any limits whatsoever, the two passes agree on every archive with non-negative sizes if and only if the largest total that leaves room for one more file, plus that file, fits int64 (for positive limits: min(maxTotal, (maxFiles - 1) * maxFile) + maxFile). |
| `Limits.PileDisagrees` | internal/archive/extract.go:154-158 | For positive limits that do not fit, a pile of files whose last one the scan rejects and extraction lets through because the sum wraps. |
| `Limits.OverflowDisagrees` | internal/archive/extract.go:154-155 | An instance with two files, both of the largest size. |
| `Extraction.Destination.EnsureDirectoryPath` | internal/archive/extract.go:259-279 | A directory path is accepted exactly when every existing prefix of it is a directory. |
| `Extraction.Destination.MkdirAll` | internal/archive/extract.go:215-255 | The missing directories above a target appear, and nothing else changes. |
| `Extraction.Destination.ExtractFile` | internal/archive/extract.go:215-303 | One file is written exactly as specified: refused on links, existing files without Overwrite, and short content, with the directories made so far kept; OverwriteTheory says what then stands at every path. |
| `Extraction.Destination.ExtractContext` | internal/archive/extract.go:85-171 | The whole loop yields the specified result and tree, including when it fails midway or at a header that cannot be read. |
| `ExtractionTheory.ExtractionSucceedsExactly` | internal/archive/extract.go:85-171 | Without Overwrite, extraction succeeds if and only if limits and contents are in order, ValidateBundlePaths accepts the names and nothing in the destination is in the way; then the tree has exactly the archived files, their directories and what was there. |
| `ExtractionTheory.KeepsExisting` | internal/archive/extract.go:284-303 | No file that existed before is changed or removed, even when extraction fails midway. |
| `ExtractionTheory.OrderIrrelevant` | internal/archive/extract.go:85-171 | For any destination, the order of the entries and the way the tail is read change neither whether an archive within fitting limits extracts nor the tree it leaves. |
| `OverwriteTheory.RoomExactly` | internal/archive/extract.go:259-303 | A file has room exactly when every node above it is a directory and at its own place is nothing or, with Overwrite, a regular file. |
| `OverwriteTheory.ExtractedExactly` | internal/archive/extract.go:85-303 | For any destination, with Overwrite or without: extraction succeeds if and only if limits and contents are in order, the entries do not get in each other's way and every file has room; then every path holds the last entry stored there, or what it held before, or a directory above an entry, or nothing. |
| `OverwriteTheory.OwnContent` | internal/archive/extract.go:228-255 | After it every archived name holds exactly the first bytes of its own entry, as many as the header says, whatever was there before. |
| `OverwriteTheory.OthersStay` | internal/archive/extract.go:228-255 | And every earlier node at another place is unchanged. |
| `OverwriteTheory.NeverTorn` | internal/archive/extract.go:228-255 | Wherever extraction stops, no path holds part of an entry: each node is as it was, a new directory, or a whole entry; and every earlier node at a place of no entry is unchanged. |
| `OverwriteTheory.OverwriteReplaces` | internal/archive/extract.go:228-245 | An instance: with Overwrite on, a file with content [1] and an archived [2] of the same name leave [2]. |
| `ArtifactExtraction.Select` | artifact/list.go:94-102 | The component selector picks the first component of the wanted type, or all. |
| `ArtifactExtraction.ListComponentFiles` | artifact/list.go:105-144 | A component is listed exactly when it opens, its archive passes the scan and the rest of its streams checks out. |
| `ArtifactExtraction.CheckNoCollisions` | artifact/extract.go:90-105 | The preflight lists every component and checks all names together. |
| `ArtifactExtraction.PreflightExactly` | artifact/extract.go:90-105 | The preflight accepts if and only if every component can be read, is within the limits, and all names are acceptable together. |
| `ArtifactExtraction.ExtractComponent` | artifact/extract.go:108-131 | A component is written before the rest of its streams is checked, so a late failure leaves its files. |
| `ArtifactExtraction.Extract` | artifact/extract.go:55-86 | Selection, preflight, then component after component, equals the specified outcome. |
| `ArtifactExtraction.ExtractAllKeeps` | artifact/extract.go:43-105 | Without Overwrite, extraction of any selection into any destination keeps every node that was there, whether it is refused, fails midway or succeeds. |
| `ArtifactExtraction.AllOrNothing` | artifact/extract.go:43-131 | Into an empty destination a refusal by the preflight writes nothing; extraction succeeds if and only if the preflight accepts and every second read of a component is good, and then exactly the files of every component are there. |
| `ArtifactExtraction.FailedRereadLeaves` | artifact/extract.go:80-131 | Otherwise it is not all or nothing: a component that can no longer be opened leaves exactly the files of the components before it. |
| `ArtifactExtraction.LateFailureLeaves` | artifact/extract.go:108-131 | A component whose second read fails only after its files leaves those files as well. |
| `ArtifactExtraction.ExtractsExactly` | artifact/extract.go:43-131 | For any destination, with Overwrite or without: success if and only if the preflight accepts, every second read is good and every file has room; then the tree is that of all entries written over the old one. |
| `ArtifactExtraction.ExtractedContent` | artifact/extract.go:80-131 | After a success every archived name holds its own entry's bytes, and every other earlier node is unchanged. |
| `ArtifactExtraction.WantedExactly` | artifact/extract.go:55-86 | A wanted type that no component has is not found and nothing is written; otherwise the outcome is that of the selected components. |
| `ArtifactExtraction.SelectedExactly` | artifact/list.go:94-102 | The selection is everything when no type is wanted, else the first component of the type alone, else nothing. |
| `StoreDisk.RemoveKeepsClosedExactly` | store/remove.go:23-46 | Deleting a root keeps every other root complete if and only if no other root names the deleted manifest as configuration or component. |
| `StoreDisk.RemoveCanBreakClosure` | store/remove.go:23-46 | A concrete store of two documents, both with components, in which that condition fails and the remaining root loses its component. |
| `Metadata.ValidateReaderComponents` | artifact/metadata.go:130-158 | Accepts exactly when the layers carry different types, the counts agree and every listed component is the layer of its type. |
| `Metadata.ValidateManifestDescriptors` | artifact/open_layout.go:226-237 | Accepts exactly the manifests in which every digest is well formed. |
| `Metadata.ValidateMetadata` | artifact/metadata.go:24-90 | Accepts exactly the sources whose digests are well formed, whose manifest and configuration are the decoded blobs, and whose components check out. |
| `Metadata.MetadataExactly` | artifact/metadata.go:24-158 | Told on the source's own fields: root and configuration are at most 4 MiB and hash to their digests, both decode to what is reported, every digest is well formed, layer types and listed types are pairwise different, counts agree, and each listed descriptor is a layer of its type. |
| `Metadata.MatchIsPermutation` | artifact/metadata.go:73-87 | Count check and uniqueness check together make the listed components a permutation of the manifest's layers. |
| `Metadata.UniquenessIsNeeded` | artifact/metadata.go:130-158 | The count check alone is not enough: a source that lists one of two layers twice passes it. |
| `Metadata.ValidSourceCoversManifest` | store/commit.go:112-126 | After validation, the configuration and the listed components are exactly what the manifest refers to. |
| `StoreSafety.StepKeeps` | store/commit.go:55-97 | Every single step of Commit, Remove, Prune and Verify, failing ones included, keeps every indexed root complete and the body's own knowledge true. |
| `StoreSafety.CommitStepKeeps` | store/commit.go:55-97 | The push order (configuration, components, manifest and index, catalog) keeps every indexed root complete at each step. |
| `StoreSafety.RemoveStepKeeps` | store/remove.go:23-46 | Unindexing a root and then forgetting its record keeps the other roots complete. |
| `StoreSafety.PruneStepKeeps` | store/maintenance.go:152-226 | Marking and sweeping blob by blob never takes a blob a root needs. |
| `StoreSafety.StepConserves` | store/maintenance.go:189-226 | A root leaves the index only when it is removed and enters only when committed; no step rewrites a present blob; only sweeping and removing take blobs away. |
| `StoreProtocol.MutualExclusion` | store/store.go:123-154 | At most one goroutine over all handles and processes is inside, although the file lock is re-entrant within a handle. |
| `StoreProtocol.LocksGivenBack` | store/store.go:123-154 | When no goroutine is inside or between the locks, both locks are free, whatever way each call ended. |
| `StoreProtocol.UnlockFileKeepsLocks` | store/store.go:123-154 | Giving back the file lock before the token keeps the lock discipline. |
| `StoreProtocol.ReleaseOrderMatters` | store/store.go:123-154 | With the token given back first, a run reaches a state in which goroutines of two handles are inside at once. |
| `StoreProtocol.CrashKeepsLocks` | store/store.go:123-154 | A process that dies at any point frees its file lock and tokens without disturbing other processes. |
| `StoreProtocol.NextKeepsInv` | store/store.go:123-154 | Every event of any goroutine, and a crash of any process, preserves closure, locking and what running bodies rely on. |
| `StoreProtocol.EveryReachableState` | store/store.go:123-154 | In every state of every run each indexed root has its manifest, configuration and components; one goroutine at most is inside; a commit still finds all the content it has pushed so far, so no prune took any. |
| `StoreProtocol.RootsAreConserved` | store/store.go:94-105 | A root leaves the index only in the step of a Remove of that very root, although every handle rewrites the index from its own copy. |
| `StoreRuns.RecordsAreConserved` | store/store.go:109-154 | In every run a record leaves the catalog only when a Remove of that very root forgets it, or when a repair finds that it belongs to no valid indexed root. |
| `StoreRuns.ForeignCatalogSurvives` | store/catalog.go:88-123 | No run ever rewrites a catalog file that cannot be read or that a newer version wrote, repairs included. |
| `StoreRuns.CommitsAreKept` | store/commit.go:128-196 | In every run that starts with all stored roots indexed, a commit past its manifest finds its root in the index, and one that reports success finds there its root and the very record it reports. |
| `LocalStore.Store.PushContent` | store/commit.go:154-170 | A missing blob is stored under its digest; an existing one is left alone. |
| `LocalStore.Store.CommitComponents` | store/commit.go:113-126 | Components are pushed in order, each one a step of the protocol. |
| `LocalStore.Store.RecordDocument` | store/commit.go:179-217 | Afterwards the root's record has the manifest's subject and this commit's source and time; its origins are the earlier ones followed by the new reference, if it is non-empty and new; every other record is unchanged. |
| `LocalStore.Store.Commit` | store/commit.go:36-97 | Rejected metadata changes nothing; otherwise the call is a run of protocol steps, and on success the disk is the old one with the whole graph and the root, and the catalog differs as for RecordDocument. |
| `LocalStore.Store.Remove` | store/remove.go:18-47 | The call is a run of protocol steps; on success root and record are gone and the rest is unchanged. |
| `LocalStore.Store.ReachableBlobs` | store/maintenance.go:262-283 | Marks what every indexed root needs, or gives up on the first unreadable root. |
| `LocalStore.Store.MeasureUnreachable` | store/maintenance.go:286-313 | Counts and sums exactly the blobs outside the marked set. |
| `LocalStore.Store.RemoveUnreachable` | store/maintenance.go:189-226 | Deletes exactly the unmarked blobs; cut off anywhere it has deleted unmarked ones only. |
| `LocalStore.Store.Prune` | store/maintenance.go:152-184 | The reported count and bytes are those of the unreachable blobs, dry or not; a completed run keeps exactly the reachable ones, an interrupted one keeps all of them. |
| `LocalStore.Store.Verify` | store/maintenance.go:52-149 | Issues, repairs and the saved catalog are the specified ones; a failing call leaves the disk as it was. |
| `StoreTheory.InterruptedAnywhere` | store/commit.go:55-97 | Whatever prefix of an operation happens, the disk is sound. |
| `StoreTheory.CommitStoresWholeGraph` | store/commit.go:112-126 | A completed commit has stored the configuration and every layer of its manifest. |
| `StoreTheory.CommitStoresContent` | store/commit.go:112-170 | Stored blobs keep their content, and each new one has the content the source gives for the configuration, for a component of that digest, or for the root. |
| `StoreTheory.CommitIndexesExactly` | store/commit.go:141-170 | A completed commit lists its root if and only if it was listed before or its digest named no stored blob and no blob of the document itself, since existing content is never pushed again. |
| `StoreTheory.CommitTrace` | store/commit.go:55-97 | Whenever every push finds its blob or may store it and the catalog can be loaded, a run of the commit succeeds and leaves the specified disk. |
| `StoreTheory.CommitCanMissIndex` | store/commit.go:141-170 | A concrete sound store and valid document for which such a run succeeds, records the document in the catalog and leaves its root out of the index. |
| `StoreTheory.RecommitAddsNothing` | store/commit.go:154-170 | Committing the same source again adds no blob and no root. |
| `StoreTheory.MergeOriginLists` | store/commit.go:199-217 | The loop with its seen map appends exactly the new origins in order. |
| `StoreBody.OriginsAccumulate` | store/commit.go:199-217 | Merging keeps all earlier origins first and has exactly the union, without new repetition. |
| `StoreTheory.CommitRecordsDocument` | store/commit.go:179-217 | The same of the catalog that a completed commit leaves, on the old and the new catalog alone. |
| `StoreTheory.SecondOriginKept` | store/commit.go:179-217 | An instance: a document with origin reg/a:1 committed again from reg/b:1 has both origins, in this order. |
| `StoreTheory.PruneLeavesReachable` | store/maintenance.go:152-226 | A completed prune leaves exactly the blobs reachable from the index, shared ones included. |
| `StoreTheory.PruneKeepsNeeded` | store/maintenance.go:152-283 | A blob survives a completed prune if and only if some indexed root with an intact, decodable manifest is it or names it as configuration or component. |
| `StoreTheory.CompleteExactly` | store/maintenance.go:262-283 | A root is complete if and only if its manifest is intact and all it names is stored. |
| `StoreTheory.PruneReportsDeletions` | store/maintenance.go:262-313 | What is reported is the ordered list of what is deleted, with its exact count. |
| `StoreTheory.PruneFreesBytes` | store/maintenance.go:286-313 | The reported bytes are the difference of the total sizes of the store before and after. |
| `StoreTheory.PruneAgainFindsNothing` | store/maintenance.go:262-313 | A second prune measures nothing. |
| `StoreTheory.RepairRebuilds` | store/maintenance.go:84-139 | A repair saves one record per valid indexed root, with the manifest's subject and the earlier origins, source and time. |
| `StoreTheory.RepairedRecords` | store/maintenance.go:84-139 | Told record by record: a root has a record after a repair if and only if it is indexed and passes; the subject is that of its manifest; origins, source and time are those it had, or empty. |
| `StoreTheory.VerifyReportsExactly` | store/maintenance.go:52-149 | For every digest, on index, blobs and catalog file: which issue and which repair is reported, both directions, for a plain verification and for a repair. |
| `StoreTheory.RepairableExactly` | store/catalog.go:88-123 | A repair can start from every catalog file but an unreadable one and one of a newer version; a plain verification needs a missing one or one of this version. |
| `StoreTheory.RepairNeedsReads` | store/maintenance.go:84-130 | When reads may fail, the record of a valid indexed root survives a repair if and only if its own read did not fail; otherwise the root is reported and its record reported as dropped. |
| `StoreTheory.RepairSilencesVerify` | store/maintenance.go:52-149 | After a repair a plain verification reports no catalog issue. |
| `StoreTheory.RepairIsIdempotent` | store/maintenance.go:52-149 | A second repair reports no repair and changes nothing. |
| `SourceWalk.SameAsAny` | internal/sourcepath/resolver.go:225-233 | Finds a directory among the first n ancestors exactly when it is one. |
| `SourceWalk.Append` | internal/sourcepath/resolver.go:211-211 | A slice append writes the free slot in place or moves to a larger buffer; the caller's part never changes. |
| `SourceWalk.WalkDirectory` | internal/sourcepath/resolver.go:165-222 | The recursive walk over a shared ancestor buffer visits the specified files and ends with the specified error, terminates, and leaves its caller's ancestors untouched. |
| `WalkTheory.WalkVisitsExactly` | internal/sourcepath/resolver.go:150-222 | The walk succeeds if and only if no chain of names is blocked; then it has visited exactly the logical regular files, once each, in name order at every level; a failure names a blocked chain. |
| `WalkTheory.ReentryIsRefused` | internal/sourcepath/resolver.go:200-212 | A walk that succeeds never enters a directory twice on one path, so every branch that re-enters an ancestor fails. |
| `OwnershipPlan.ResolveOwner` | internal/pathplan/plan.go:112-133 | For every order of the rule map: the single matching component, none, or the sorted conflict. |
| `OwnershipPlan.PlanContext` | internal/pathplan/plan.go:59-107 | Ownership, or the first error, is a function of tree and rules alone. |
| `OwnershipPlan.PlannedExactly` | internal/pathplan/plan.go:42-107 | A logical file is owned by a component if and only if it is not ignored, that component's rules match it, and no other component's do. |
| `OwnershipPlan.ConflictExactly` | internal/pathplan/plan.go:74-133 | A successful plan has no unignored file that two components match; a reported conflict names such a file and, in order, exactly the components that match it. |
| `OwnershipPlan.PlannedIsSound` | internal/pathplan/plan.go:97-106 | Owned lists are not empty, strictly ascending, disjoint and together acceptable. |
| `Dependencies.SortUnique` | internal/pathplan/dependencies.go:240-245 | Sorting and compacting gives the distinct components in order. |
| `Dependencies.ScanReferences` | internal/pathplan/dependencies.go:172-200 | The targets of one document are treated in order: fatal, ignored, warned about, already owned, or claimed. |
| `Dependencies.DiscoverWave` | internal/pathplan/dependencies.go:129-222 | One wave is a function of frontier and owners: the claimed files, the first conflict in path order, or the first fault in document order. |
| `Discovery.DiscoverDependencies` | internal/pathplan/dependencies.go:55-123 | For every order of the ownership map the same sorted lists, sorted warnings, or error; the loop terminates because unowned files decrease. |
| `DependencyTheory.WaveMeaning` | internal/pathplan/dependencies.go:129-222 | A wave finds exactly the unowned files that frontier documents refer to, and conflicts exactly where two components do. |
| `DependencyTheory.DiscoverySucceedsExactly` | internal/pathplan/dependencies.go:55-123 | Discovery succeeds if and only if no reachable document is faulty and no file has two nearest components; each owned file belongs to the component at the start of every shortest chain of references to it; a conflict names exactly the tied components. |
| `DependencyTheory.LeastClosedSet` | internal/pathplan/dependencies.go:30-45 | The owned files are the least set that contains the initial ones and is closed under references of owned documents; no initial file changes hands. |
| `DependencyTheory.DiscoveryBlames` | internal/pathplan/dependencies.go:129-200 | Every error but a conflict names a reachable document and what is wrong with it: it cannot be read, this target leaves the tree, or, in strict mode, this target is dangling. |
| `DependencyTheory.WarningsExactly` | internal/pathplan/dependencies.go:184-194 | The warnings are exactly the descriptions of dangling targets of owned documents, and a strict success has none. |
| `Discovery.DiscoveredIsSound` | internal/pathplan/dependencies.go:102-114 | Success keeps the components and their files, sorts the lists, keeps them disjoint and acceptable together. |
| `Discovery.DiscoveredExactly` | internal/pathplan/dependencies.go:55-123 | After a success a component lists exactly the files to which a shortest chain of references leads from its own; the messages are, in order, those of the dangling targets of all listed documents, none in strict mode. |
| `Entrypoints.CandidateWins` | internal/pathplan/entrypoint.go:101-123 | Detection prefers the candidate over the file: no file matches a candidate earlier than the chosen one. |
| `Entrypoints.DetectExactly` | internal/pathplan/entrypoint.go:98-123 | Detection yields the first file of the best rank, which is the place of the first candidate a file matches and, for documentation, after all candidates any text file; nothing if and only if no file serves. |
| `Entrypoints.MatchExactly` | internal/pathplan/entrypoint.go:134-141 | A plain candidate matches itself only; LICENSE.* matches LICENSE, a dot and at least one more character. |
| `Entrypoints.TextExactly` | internal/pathplan/entrypoint.go:31-34 | Text files are those that end in one of four extensions. |
| `Entrypoints.ResolveEntrypoints` | internal/pathplan/entrypoint.go:58-96 | For every map order: an error exactly when some explicit entrypoint is not owned, otherwise explicit values and detected ones. |
| `Entrypoints.ValidateBuildLocales` | spec/validate.go:242-274 | Accepts exactly when all keys are well formed, no rule list is empty and at most one locale is the default. |
| `Entrypoints.ClassifyLocales` | internal/pathplan/matchers.go:110-162 | For every map order: every declared locale with exactly its owned documents, in order. |
| `Entrypoints.ClassificationUnique` | internal/pathplan/matchers.go:110-162 | The classification is determined by rules and ownership alone. |
| `Entrypoints.LocaleFilesMeaning` | internal/pathplan/matchers.go:125-157 | A locale lists, strictly ascending, the owned documents its rules select. |
| `Planning.ValidateBuildConfig` | spec/validate_buildconfig.go:16-77 | Accepts exactly the configurations of the supported schema version with components, valid names, rules, sound locales, no reserved annotation and a supported compression. |
| `Planning.Compile` | internal/pathplan/matchers.go:65-89 | Every component's rules are compiled, or the whole fails. |
| `Planning.ResolveLocalePlans` | artifact/plan.go:229-290 | For every map order: the plan of every locale with one fallback per component, failing exactly when an explicit entrypoint is outside its locale; the warnings as a multiset. |
| `Planning.EmptyComponentWarnings` | artifact/plan.go:346-379 | Lists the declared components without files in order, as error in strict mode and silently for the embedded default. |
| `Planning.Plan` | artifact/plan.go:125-226 | The checks in the program's order lead to an outcome of the specification. |
| `Planning.PlanDeterministic` | artifact/plan.go:112-226 | Any two outcomes for the same inputs agree: the same error, or plans equal in everything but the order of the locale warnings. |
| `PlanChoices.OneLocaleEntrypoint` | artifact/plan.go:255-281 | A locale has no plan exactly when its declared entrypoint, without the leading slash, is not among its documents; otherwise its entrypoint is the declared one, else the component's if it is among the documents, else the best of them. |
| `PlanChoices.ChosenExactly` | artifact/plan.go:112-290 | Every successful plan, told on configuration and owned files: entrypoints of components and locales, each locale's documents, the default locale, annotations, document and variant, and which components and locales are warned about, all as exact conditions. |
| `PlanTheory.PlansAreSound` | artifact/plan.go:112-226 | Every successful plan has known, non-empty, disjoint, acceptable components, owned entrypoints, and locales of owned documents with exactly one default. |
| `ArtifactVerify.Verification.Fail` | artifact/verify.go:126-129 | Records one issue and makes the verification invalid. |
| `ArtifactVerify.VerifyManifestShape` | artifact/verify.go:133-149 | Valid stays true exactly if media types, artifact type and layers are right. |
| `ArtifactVerify.VerifyComponentUniqueness` | artifact/verify.go:152-162 | Valid stays true exactly if no component type repeats. |
| `ArtifactVerify.VerifyComponentMediaTypes` | artifact/verify.go:166-174 | Valid stays true exactly if every layer has a supported media type. |
| `ArtifactVerify.VerifyAnnotations` | artifact/verify.go:178-204 | Valid stays true exactly if the managed annotations match the component list, the schema and a document name. |
| `ArtifactVerify.FieldsOfJoin` | artifact/verify.go:178-192 | The comma-separated list of types can be read back. |
| `ArtifactVerify.AnnotationsExactly` | artifact/verify.go:178-204 | For types without a comma: the annotations pass if and only if the fields of the components annotation are the layer types in ascending order, the schema is v1beta and a document is named. |
| `ArtifactVerify.ValidateArtifactLocales` | spec/validate.go:278-324 | Accepts exactly well-formed keys, valid entrypoints, valid files without repetition and at most one default. |
| `ArtifactVerify.ValidateArtifactConfig` | spec/validate.go:151-201 | Accepts exactly the well-formed configurations. |
| `ArtifactVerify.ConfigExactly` | spec/validate.go:151-324 | Told on its fields: schema version and id, component names, entrypoints empty or valid, locale keys, files valid and without repetition, at most one default per component. |
| `ArtifactVerify.VerifyConfigComponents` | artifact/verify.go:208-225 | Valid stays true exactly if configuration and manifest have the same component set. |
| `ArtifactVerify.VerifyEntrypointShape` | artifact/verify.go:232-242 | Valid stays true exactly if every declared entrypoint is a valid path. |
| `ArtifactVerify.VerifyTarSafety` | artifact/verify.go:385-447 | Valid stays true exactly if every entry is a regular file with a valid name within every limit and the reader ends cleanly; then the names are the files. |
| `ArtifactVerify.VerifyComponentDeep` | artifact/verify.go:352-380 | Valid stays true exactly if the stream opens, decodes, is safe and checks out to its end. |
| `ArtifactVerify.VerifyLocalePaths` | artifact/verify.go:306-344 | Valid stays true exactly if every locale of the selected components lists owned documents with its entrypoint among them. |
| `ArtifactVerify.VerifyComponentsDeep` | artifact/verify.go:254-300 | Valid stays true exactly if the selected components are present, sound, own their entrypoints and locales, and are acceptable together. |
| `ArtifactVerify.Verify` | artifact/verify.go:82-123 | The result is valid if and only if the artifact meets every condition, and has issues exactly when it is not. |
| `ArtifactVerify.MetadataOkExactly` | artifact/verify.go:82-242 | What metadata-only verification accepts, told on the reader's own fields, for types without a comma. |
| `BuildVerify.BuildArtifactConfig` | artifact/manifest.go:23-43 | One configuration entry per planned component with its entrypoint and locales, for every map order. |
| `BuildVerify.BuiltConfigExactly` | artifact/manifest.go:23-43 | The configuration lists exactly the owned components, each with the plan's entrypoint or none, and every locale with the plan's default flag, entrypoint and files. |
| `BuildVerify.BuildManifest` | artifact/manifest.go:64-102 | Layers sorted by component and managed annotations over the user's. |
| `BuildVerify.BuiltManifestExactly` | artifact/manifest.go:64-102 | One layer per owned component in ascending order; the components annotation splits at its commas into these types; schema, document and variant are the plan's; every other key has the user's value. |
| `BuildVerify.UserAnnotationsKept` | artifact/manifest.go:82-92 | Every user annotation reaches the manifest unchanged. |
| `BuildVerify.BuildTar` | internal/archive/tar.go:79-140 | The names of the entries are the sorted paths, and each entry is regular, as long as its file, and holds the whole content of its file. |
| `BuildVerify.OneDefault` | artifact/plan.go:244-257 | Every localized component of a built configuration has exactly one default locale. |
| `BuildVerify.BuiltMetadataOk` | artifact/verify.go:82-113 | The manifest and configuration of a sound plan pass every metadata check. |
| `BuildVerify.BuiltDeepOk` | artifact/verify.go:254-300 | The component archives of a sound plan within the default limits pass every deep check. |
| `BuildVerify.BuildThenVerify` | artifact/verify.go:60-123 | For every successful plan, the artifact built from it within the default limits verifies without an issue, deep or not, for one component or all. |
| `RoundTrip.VerifiedExtractsExactly` | artifact/extract.go:43-131 | A deeply verified artifact extracts into an empty destination, within the default limits, if and only if no component carries more bytes after its tar terminator than its entries leave of the total, which the checker does not test; otherwise nothing is written. |
| `RoundTrip.PaddingIsRefused` | internal/archive/drain.go:17-40 | An instance: any verified artifact is refused when a component is followed by more bytes than the limit. |
| `RoundTrip.VerifiedFiles` | artifact/extract.go:80-131 | The files of a verified artifact are then all there, with their own bytes. |
| `RoundTrip.VerifiedReferences` | artifact/verify.go:254-344 | Every entrypoint, locale entrypoint and locale file that a verified configuration names is a file after extraction. |
| `RoundTrip.BuildThenExtract` | internal/archive/tar.go:79-140 | Whatever plan the program accepts, the artifact built from it within the default limits extracts into an empty destination and leaves exactly the owned files, each with the content of its source. |
| `Streaming.VerifyingReader.Read` | internal/ociblob/verify_reader.go:62-84 | Each read returns the outcome determined by what was delivered so far, data beside an error included. |
| `Streaming.VerifyingReader.Drain` | internal/ociblob/verify_reader.go:62-84 | From any point, reading to the end is clean if and only if no read fails and the whole content has the expected size and digest. |
| `Streaming.CleanEndMeansBatch` | internal/ociblob/blob.go:61-76 | For every chunking, data beside EOF included, a clean end happens only at the end and exactly when batch verification accepts the whole content. |
| `Streaming.MismatchIsFinal` | internal/ociblob/verify_reader.go:62-84 | No clean end follows a detected mismatch. |
| `Streaming.FinishComponentStream` | artifact/component_stream.go:15-37 | Success proves both streams read to the end, both closed, and the raw blob verified as a whole. |
| `Streaming.DigestWriter.Write` | internal/digestio/writer.go:36-42 | Hash and count cover exactly what reached the destination, short writes included. |
| `Streaming.CopyLimited` | registry/pull.go:268-270 | The limited copy passes on a prefix, all of it when the content is shorter than the limit. |
| `Streaming.FetchBlobToFile` | registry/pull.go:244-290 | A blob is published if and only if batch verification accepts the whole content, no read fails, it fits the destination and its declared size leaves room for the limit of size plus one. |
| `RegistryPrune.FilterPruneSelectors` | registry/prune.go:240-255 | Keeps exactly the candidates that match every non-empty selector, in order. |
| `RegistryPrune.FilterSlot` | registry/prune.go:267-280 | Keeps the candidates of one slot, sorted by digest. |
| `RegistryPrune.PlanPrune` | registry/prune.go:139-158 | The plan is the specified function of primary, candidates and options. |
| `RegistryPrune.SelectedExactly` | registry/prune.go:139-158 | Selected are exactly the listed manifests that agree with the kept one in the document and in the variant annotation (an absent one read as empty), meet the selectors and are not the kept one; in ascending digest order. |
| `RegistryPrune.KeptExactly` | registry/prune.go:181-237 | Who is kept, told on annotations, tag and options: the tag's manifest if it meets the selectors, else the requested one; a request for another one than the tag's, or none at all without the tag's, is a conflict. |
| `RegistryPrune.Repository.ExecutePrune` | registry/prune.go:162-177 | Deletes a prefix of the selection in order and reports it, with the failing manifest possibly lost. |
| `RegistryPrune.Prune` | registry/prune.go:77-124 | One run removes nothing on error, otherwise selected manifests only, and all of them if it completes. |
| `RegistryPrune.PlannedChoice` | registry/prune.go:204-237 | The kept manifest does not depend on the order of the listing. |
| `RegistryPrune.ChoiceStable` | registry/prune.go:204-237 | What one run keeps, the next run keeps, whether or not the first completed. |
| `RegistryPrune.PrimaryNotSuperseded` | registry/prune.go:181-216 | The manifest of the documentation tag is never selected, even when it does not match the selectors. |
| `RegistryPrune.HistoryIsSafe` | registry/prune.go:77-177 | Over any sequence of runs with deletions failing anywhere, the kept manifest, the tag's and those of other slots survive unchanged; OthersSurvive says which these are. |
| `RegistryPrune.SupersededMeans` | registry/prune.go:139-158 | A manifest is superseded exactly when it meets the selectors and has both annotations of the kept one, without being it. |
| `RegistryPrune.OthersSurvive` | registry/prune.go:77-177 | A manifest whose document or variant annotation differs from the kept one's, or from a non-empty selector, survives every sequence of runs. |
| `RegistryPrune.CompletedRunIsFinal` | registry/prune.go:77-177 | After a completed run the slot holds at most the kept manifest, and every later run selects nothing. |
| `RegistryPrune.SlotIsEmptied` | registry/prune.go:77-177 | After a completed run that keeps a manifest, no other one with both its annotations is left. |
| `Diff.DiffAnnotations` | artifact/diff.go:327-346 | The loop over the sorted key union reports the specified differences. |
| `Diff.DeltasExactly` | artifact/diff.go:327-346 | The differences are exactly the keys whose value or presence differs, with both values. |
| `Diff.AnnotationsExactly` | artifact/diff.go:327-346 | An annotation entry is reported exactly when it shows, for its key, presence and value on each side, and they differ. |
| `Diff.DeltasAscend` | artifact/diff.go:370-389 | Differences come in strictly ascending key order. |
| `Diff.AnnotationsPatch` | artifact/diff.go:325-346 | The reported annotation differences, applied to the first artifact's annotations, give the second's. |
| `Diff.DiffLocales` | artifact/diff.go:273-304 | The nested loops report the specified locale differences. |
| `Diff.LocalesExactly` | artifact/diff.go:273-304 | A locale entry is reported exactly when its two sides are those of the two artifacts and tell them apart, with entrypoint, files and default flag of each side on the right side. |
| `Diff.ComponentPatchExactly` | artifact/diff.go:273-304 | The reported entries of one component, applied to its first locales, give exactly its second ones if and only if every empty (not missing) file list of the second side belongs to a locale that did not change. |
| `Diff.LocalesPatch` | artifact/diff.go:273-304 | The same for every component within the whole report; without the condition the patch is exact up to an empty against a missing file list; no other component has entries. |
| `Diff.EmptyListDiffers` | artifact/diff.go:290-299 | An instance: a missing and an empty file list are reported as a difference that shows the same on both sides. |
| `Diff.AnnotationsMirror` | artifact/diff.go:327-346 | Swapping the arguments mirrors the annotation entries in order. |
| `Diff.LocalesMirror` | artifact/diff.go:273-304 | Swapping the arguments mirrors the locale entries in order. |
| `DiffReport.DiffFiles` | artifact/diff.go:491-526 | The loop over the sorted path union reports the specified file differences. |
| `DiffReport.FileDiffsExactly` | artifact/diff.go:488-526 | Removed are exactly the paths of the first side alone, added those of the second alone, modified those of both with another size or digest; each with the sizes of the sides that have it and zero for the other, once and ascending. |
| `DiffReport.EntriesAmong` | artifact/diff.go:393-454 | The component loop reports the specified entries, or fails exactly when a needed component cannot be scanned. |
| `DiffReport.ComponentsExactly` | artifact/diff.go:393-454 | A component is reported exactly when its presence, digest or entrypoint differs; its entry shows presence, both digests, both entrypoints and, when contents are compared and changed, exactly its file differences. |
| `DiffReport.UnreadableExactly` | artifact/diff.go:393-454 | A comparison fails exactly when contents are compared and a component that differs in presence or digest cannot be scanned on a side that has it. |
| `DiffReport.Compare` | artifact/diff.go:204-270 | The whole report, restricted to one component or not. |
| `DiffReport.EqualExactly` | artifact/diff.go:249-267 | Equal is reported if and only if everything compared is equal and the schema versions are equal or the first one is empty. |
| `DiffReport.EmptyVersionIsMissed` | artifact/diff.go:257-267 | A concrete pair with different schema versions that is reported Equal one way and not the other. |
| `DiffReport.ReportMirrors` | artifact/diff.go:204-270 | Swapping the arguments mirrors the whole report, and keeps its verdict except when an empty schema version on one side only is all that differs. |
| `Prelude.SortedKeys` | artifact/diff.go:370-389 | Collecting map keys in any order and sorting them gives the one ascending listing of the key set. |
| `Prelude.LtExactly` | artifact/diff.go:370-389 | The string order: a proper prefix comes first, else the smaller character at the first difference. |
| `Prelude.SortPermutation` | internal/pathplan/dependencies.go:98-100 | Sorting forgets the order in which a map was iterated. |
| `Prelude.Pigeonhole` | artifact/metadata.go:130-158 | A list without repetition drawn from another of the same length is a permutation of it. |

## Left out

- PathTrie.ValidateBundlePaths: names are sequences of characters; names that are not valid UTF-8 are not part of this model.
- Planning.Plan: which of several errors of one step is reported depends on map order and is not modelled; the failing step and, for ownership, dependencies and empty components, the error itself are.
- Planning.Plan: merging caller overrides into the configuration (documents, settings, annotations, ignore rules) happens before the model starts.
- OwnershipPlan.PlanContext: the visitor's bookkeeping runs after the walk, over the list of visited files, instead of inside it; the visitor's refusals do end the walk.
- Discovery.DiscoverDependencies: the collision error at the end carries no path, because which one is named depends on map order.
- LocalStore.Store.Verify: the verification of a stored artifact, and whether it stops at the metadata, is a parameter; errors on closing a reader are not modelled.
- LocalStore.Store.Commit: the size limit on a catalog being saved, a malformed index file and origins of unknown kinds are not modelled.
- StoreRuns.RecordsAreConserved: whether a root verifies is a function of the blobs; a read that fails once and succeeds later in the same run is not modelled, StoreTheory.RepairNeedsReads states what one failure does.
- Extraction.Destination.ExtractContext: nodes are files, directories and links; cancellation, permissions, temporary names, publication by rename and Windows details are not modelled.
- Limits.Scan: sizes are those of headers the tar reader yields, which are never negative there; sparse and extended headers, per-entry digests and cancellation between entries are not modelled.
- Metadata.ValidateMetadata: descriptors are digests; the declared sizes of root and configuration, and read and close errors, are not modelled.
- LocalStore.Store.ReachableBlobs: a read may fail for any root, so a missing result does not say which root was unreadable.
- Planning.PlanDeterministic: which of several errors of one step is reported depends on map order; agreement is stated after that choice is forgotten.
- BuildVerify.BuildThenVerify: starts from the opened artifact; opening a layout also rejects a manifest or configuration above 4 MiB, and encoded sizes are not modelled.
- BuildVerify.BuildManifest: layers carry type and media type; digests and sizes of the configuration and layers, and the subject, are not modelled.
- Streaming.FinishComponentStream: the decompressor and the raw stream are separate objects; how the decompressor consumes the raw stream is not modelled, so the raw stream may stand anywhere.
- Streaming.FetchBlobToFile: creating, renaming and cleaning up the temporary file always succeed; running out of room is the write error modelled.
- RegistryPrune.Prune: resolving the subject, reading manifests, the syntax check of the keep digest, dry runs and the remaining result fields are not modelled; a listing is complete, and digests in it are distinct.
- DiffReport.Compare: a subject descriptor is its media type, digest and size; its further fields are compared in the same way.
- Context cancellation is an ordinary failure at the same point.
- Registry transport, credentials, error texts, timestamps and observer callbacks.
- Discovery reconciliation between the referrers API and the fallback tag: a finite decision table.
- Automatic deletion of referrers inside the OCI library when a manifest is deleted.
- Listing, inspecting, exporting, usage counting and default paths: simple members only.
