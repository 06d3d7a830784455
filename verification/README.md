# ownCloud Android: file-metadata store and public-link naming, modelled in Dafny

This project models two parts of the ownCloud Android client.

The first is the file-metadata layer `FileDataStorageManager`. It keeps one row per
remote file or folder of an account in a content provider, and the model covers these
operations:

- saving a single file (`saveFile`) and reconciling a folder's children after a
  refresh (`saveFolder`);
- the available-offline status that a new row inherits from a pinned ancestor, and the
  status cascade when a folder is pinned or unpinned;
- the folder listing, optionally filtered to available-offline rows;
- the metadata half of a move, which rewrites the paths, parents, local copy paths and
  statuses of a subtree in one batch;
- the etag-in-conflict mark, which is copied onto the ancestors of a file and cleared
  from them level by level.

The second is the public-link part of the share screen (`ShareFileFragment`):

- the default name offered for a new public link ("Name", "Name (2)", ...);
- whether the server allows several public links;
- the visibility of the "add public link" button and of the public-link section.

## Layout

| file | module | what |
|---|---|---|
| `outcomes.dfy` | `Outcomes` | `Option`, `Result` and the `Failure` kinds. Each `Failure` stands for an exception the source lets escape, or for a walk over a cyclic parent chain. |
| `node_store.dfy` | `NodeStore` | The table: `Store` (rows by id, plus the next insert id), `Node`, `Patch`, `Selection`, the single provider operations and the all-or-nothing batch. |
| `offline.dfy` | `OfflineAvailability` | The nearest pinned ancestor, the initial status, the status cascade and the folder listing. |
| `reconcile.dfy` | `Reconcile` | `saveFile`, `getFileByPath` with the root bootstrap, and `saveFolder`. |
| `move.dfy` | `Move` | The metadata part of `moveLocalFile`. |
| `conflict.dfy` | `Conflict` | `saveConflict`. |
| `public_links.dfy` | `PublicLinks` | The default public-link name, the multiple-links capability and the button and section visibility. |

### Modelling choices

- **The provider.** The content provider is a map from row id to `Node`, plus a counter
  that supplies the id of the next insert.
- **Selections.** A selection is a datatype: by id, by id set, by exact path, or by
  strict path prefix. A path `LIKE 'p%'` becomes `p <= path`, and `LIKE 'p_%'` becomes
  `p < path`.
- **Batch refusal.** A batch is applied whole or not at all. Whether the provider
  refuses an operation is the parameter `rejects: Op -> bool`. The provider's own
  refusal rules are not part of this model.
- **Lookup by path.** `getFileByPath` returns the row with the smallest id that has the
  path, which is the provider's first cursor row.
- **Ancestor walks.** The source walks ancestors by following parent ids. In the model
  each walk carries the set of rows not visited yet. Coming back to a visited row means
  a cyclic parent chain. On such a chain the recursion of `getAvailableOfflineAncestorOf`
  overflows the stack (StackOverflowError), and the parent loop of `saveConflict` never
  ends. The model reports both as an explicit `Unbounded` failure (or a `Cycles`
  outcome) rather than excluding them with a precondition.
- **Exceptions** become `Err`, `Failed` or `Aborted` outcomes, and each carries the
  table as it was when the exception escaped:
  - `NullDereference`: a missing parent row in the conflict walk, or a missing version
    string.
  - `IndexOutOfBounds`: a storage path too short for `substring`.
  - `IllegalState`: the target parent is missing in a move.
  - `IllegalArgument`: `AVAILABLE_OFFLINE_PARENT` passed to
    `saveLocalAvailableOfflineStatus`.
- **Parameters in place of outside code.**
  - `saveRoot` is the account's save path.
  - `supportsMultiple` is the server-version check.
  - `viaResolver` says which of the two provider branches `saveLocalAvailableOfflineStatus`
    takes. Only the resolver branch derives the descendants' status from the new
    status; the client branch always unsets it.

## Model

Source paths are relative to the repository root.

| member | source | states |
|---|---|---|
| NodeStore.ApplyOp | owncloudApp/src/main/java/com/owncloud/android/datamodel/FileDataStorageManager.java:344-358 | An insert takes the next id and adds exactly that row. An update patches exactly the selected rows and keeps the keys. A delete removes exactly the selected rows. Both report the number of selected rows. |
| NodeStore.ApplyBatch | owncloudApp/src/main/java/com/owncloud/android/datamodel/FileDataStorageManager.java:428-446 | The batch is refused iff some operation is rejected. When it is taken, there is one result per operation, inserts are exactly the operations that get an id, the new ids are fresh and increasing, and table validity is preserved. |
| NodeStore.BatchIsRun | owncloudApp/src/main/java/com/owncloud/android/datamodel/FileDataStorageManager.java:428-446 | A taken batch leaves exactly the table that its operations leave when applied one after another in order (the reference fold RunOps). |
| NodeStore.RunOpsAppend | owncloudApp/src/main/java/com/owncloud/android/datamodel/FileDataStorageManager.java:428-446 | Applying a + b in order is applying a, then b. |
| NodeStore.BatchInsertIds | owncloudApp/src/main/java/com/owncloud/android/datamodel/FileDataStorageManager.java:448-465 | The i-th result of a taken batch, when it is an insert, carries the next id of the table left by the operations before it. |
| NodeStore.RunOpsLeavesRow | owncloudApp/src/main/java/com/owncloud/android/datamodel/FileDataStorageManager.java:428-446 | A row that no operation of a run selects, and that no insert can land on, comes out of the run unchanged. |
| NodeStore.DeletedPathStaysGone | owncloudApp/src/main/java/com/owncloud/android/datamodel/FileDataStorageManager.java:363-396 | After a delete by path, followed only by further deletes, no row has that path. |
| NodeStore.FindByPath | owncloudApp/src/main/java/com/owncloud/android/datamodel/FileDataStorageManager.java:112-120 | Finds nothing iff no row has the path. Otherwise it finds a row with that path, and no row with a smaller id has it. |
| NodeStore.ApplyDistinctUpdates | owncloudApp/src/main/java/com/owncloud/android/datamodel/FileDataStorageManager.java:818-838 | A taken batch of updates by distinct ids patches each listed row with its own patch and leaves every other row as it was. |
| OfflineAvailability.OfflineAncestorOf | owncloudApp/src/main/java/com/owncloud/android/datamodel/FileDataStorageManager.java:996-1007 | A found ancestor is a folder row that is exactly AVAILABLE_OFFLINE. |
| OfflineAvailability.WalkFoundIsNearest | owncloudApp/src/main/java/com/owncloud/android/datamodel/FileDataStorageManager.java:996-1007 | A found ancestor is reached from the start by climbing parent links past unpinned non-root folders only, so it is the nearest pinned one. |
| OfflineAvailability.WalkNotFoundIsComplete | owncloudApp/src/main/java/com/owncloud/android/datamodel/FileDataStorageManager.java:996-1007 | When the search finds nothing, no such climb from the start reaches a pinned folder. |
| OfflineAvailability.OfflineAncestorUnboundedOnlyOnCycle | owncloudApp/src/main/java/com/owncloud/android/datamodel/FileDataStorageManager.java:996-1007 | The recursion can overflow the stack only when the parent chain returns to a row it already passed. |
| OfflineAvailability.InitialStatus | owncloudApp/src/main/java/com/owncloud/android/datamodel/FileDataStorageManager.java:476-490 | A new row is never pinned itself. It gets AVAILABLE_OFFLINE_PARENT iff an ancestor is pinned, and otherwise NOT_AVAILABLE_OFFLINE. The call fails only when the ancestor search overflows the stack on a cyclic parent chain. |
| OfflineAvailability.InitialStatusMatchesAncestry | owncloudApp/src/main/java/com/owncloud/android/datamodel/FileDataStorageManager.java:476-490 | The inherited status is given iff climbing the parent chain past unpinned folders reaches a pinned folder. Both directions are proved. |
| OfflineAvailability.DescendantsOf | owncloudApp/src/main/java/com/owncloud/android/datamodel/FileDataStorageManager.java:2133-2145 | The selection picks exactly the rows whose path extends the file's path by at least one character. |
| OfflineAvailability.SaveLocalAvailableOfflineStatus | owncloudApp/src/main/java/com/owncloud/android/datamodel/FileDataStorageManager.java:504-585 | An unknown id returns false with the table unchanged. The call throws IllegalArgumentException iff the id is known and the new status is AVAILABLE_OFFLINE_PARENT. Otherwise the call reports an update, and only the status column changes. Each strict descendant of a folder gets the cascade status of the branch taken, and every other row is untouched. |
| OfflineAvailability.PinnedFolderIsInherited | owncloudApp/src/main/java/com/owncloud/android/datamodel/FileDataStorageManager.java:528-550 | After a folder is pinned, it is the nearest pinned ancestor of any row whose parent chain climbs to it through folders inside its subtree. |
| OfflineAvailability.FolderContent | owncloudApp/src/main/java/com/owncloud/android/datamodel/FileDataStorageManager.java:181-188 | The listing is empty for no folder, a non-folder or an unsaved folder. Otherwise it holds exactly the rows whose parent id is the folder's, and with the filter on exactly those of them that are not NOT_AVAILABLE_OFFLINE. |
| OfflineAvailability.OfflineListingIsFilteredListing | owncloudApp/src/main/java/com/owncloud/android/datamodel/FileDataStorageManager.java:942-951 | The filtered listing is exactly the full listing restricted to rows that are available offline by themselves or by inheritance. |
| OfflineAvailability.PinnedFolderListsChildrenOffline | owncloudApp/src/main/java/com/owncloud/android/datamodel/FileDataStorageManager.java:942-951 | After a folder is pinned, its filtered listing shows every child in its path subtree. |
| Reconcile.MetadataPatch | owncloudApp/src/main/java/com/owncloud/android/datamodel/FileDataStorageManager.java:208-234 | The written values carry the file's metadata and the given parent. They never touch the available-offline status, and they write the local copy path only for files. |
| Reconcile.TargetId | owncloudApp/src/main/java/com/owncloud/android/datamodel/FileDataStorageManager.java:236-247 | When some row has the file's path, the target is the least id among the rows with that path. Otherwise it is the file's own id, which names an existing row. |
| Reconcile.SaveFile | owncloudApp/src/main/java/com/owncloud/android/datamodel/FileDataStorageManager.java:206-293 | Returns "overridden" iff the file was known by path or id. A known row is updated in place and nothing else changes. An unknown file is inserted under a fresh id with the inherited status. The call fails only when the ancestor search overflows the stack on a cyclic parent chain. |
| Reconcile.SaveFileKeepsValid | owncloudApp/src/main/java/com/owncloud/android/datamodel/FileDataStorageManager.java:206-293 | Saving keeps the table valid. |
| Reconcile.SaveFileThenFindByPath | owncloudApp/src/main/java/com/owncloud/android/datamodel/FileDataStorageManager.java:206-293 | After a save, looking up the file's path finds the id the file now carries. |
| Reconcile.SaveFileIdempotent | owncloudApp/src/main/java/com/owncloud/android/datamodel/FileDataStorageManager.java:236-264 | Saving the returned file again leaves the table as the first save left it. |
| Reconcile.FileByPath | owncloudApp/src/main/java/com/owncloud/android/datamodel/FileDataStorageManager.java:112-125 | An existing path is found without changing the table, as the file object of its least-id row, which has no local path if it is a folder. A missing "/" is created through saveFile. Any other missing path gives null. |
| Reconcile.FileByPathTotalOnValid | owncloudApp/src/main/java/com/owncloud/android/datamodel/FileDataStorageManager.java:1009-1015 | On a valid table, creating the root never fails. |
| Reconcile.ChildOp | owncloudApp/src/main/java/com/owncloud/android/datamodel/FileDataStorageManager.java:316-361 | A known child becomes an update by its own id with the folder as parent. An unknown child becomes an insert with the inherited status. No id is adopted from the path match. |
| Reconcile.ChildOps | owncloudApp/src/main/java/com/owncloud/android/datamodel/FileDataStorageManager.java:316-361 | There is one operation per updated child, in order. Preparation fails iff some new child's ancestor search overflows the stack. |
| Reconcile.Owned | owncloudApp/src/main/java/com/owncloud/android/datamodel/FileDataStorageManager.java:366-367 | Keeps exactly the files to remove whose parent id is the folder's. |
| Reconcile.RemovalOps | owncloudApp/src/main/java/com/owncloud/android/datamodel/FileDataStorageManager.java:363-396 | There is one delete by path per owned file to remove. |
| Reconcile.FolderPatch | owncloudApp/src/main/java/com/owncloud/android/datamodel/FileDataStorageManager.java:398-426 | The folder's update writes its metadata and parent but neither its status nor its local path. |
| Reconcile.ReconcileOps | owncloudApp/src/main/java/com/owncloud/android/datamodel/FileDataStorageManager.java:313-426 | The batch is the child operations, then the deletes, then the folder's own update, in that order and with those counts. |
| Reconcile.LocalEffects | owncloudApp/src/main/java/com/owncloud/android/datamodel/FileDataStorageManager.java:371-394 | Each removed folder's local directory is purged, and each removed downloaded file's copy is deleted. Nothing else is deleted locally. |
| Reconcile.WriteBackIds | owncloudApp/src/main/java/com/owncloud/android/datamodel/FileDataStorageManager.java:448-465 | A file gets the id of its batch result exactly when that result is an insert. Files without a result keep their id. |
| Reconcile.SaveFolder | owncloudApp/src/main/java/com/owncloud/android/datamodel/FileDataStorageManager.java:305-467 | Fails iff some new child's ancestor search overflows the stack. A refused batch leaves the table and the files unchanged. A taken batch is exactly the prepared batch applied. Each new child's object gets the id its insert reported, the ids are fresh and distinct, and table validity is preserved. |
| Reconcile.RefreshWritesChild | owncloudApp/src/main/java/com/owncloud/android/datamodel/FileDataStorageManager.java:316-446 | On a valid table whose objects agree with it, a taken refresh files every listed child under the folder with the child's path, type, conflict mark and etag: a known child in its own row, keeping that row's status, and a new child in the row its insert reported, with the inherited status. |
| Reconcile.RefreshRemovesOwned | owncloudApp/src/main/java/com/owncloud/android/datamodel/FileDataStorageManager.java:363-446 | After a taken refresh, no row has the path of a removed child of the folder (other than the folder's own path). |
| Reconcile.RefreshWritesFolder | owncloudApp/src/main/java/com/owncloud/android/datamodel/FileDataStorageManager.java:398-446 | On such a table, a taken refresh leaves the folder's row with the listed parent, path, type and etag, and with its own local path, status and conflict mark. |
| Reconcile.ExampleRefreshOps | owncloudApp/src/main/java/com/owncloud/android/datamodel/FileDataStorageManager.java:340-358 | Refreshing a pinned folder with one known and one new child gives an update, an insert with AVAILABLE_OFFLINE_PARENT, and the folder update. |
| Reconcile.ExampleRefreshInheritsPin | owncloudApp/src/main/java/com/owncloud/android/datamodel/FileDataStorageManager.java:350-354 | In that refresh, the new child inherits the pin. |
| Move.Rebase | owncloudApp/src/main/java/com/owncloud/android/datamodel/FileDataStorageManager.java:777-780 | The new path starts with the target path and keeps the old path's tail after the moved prefix. |
| Move.RebaseInverse | owncloudApp/src/main/java/com/owncloud/android/datamodel/FileDataStorageManager.java:777-780 | Rebasing back from the target to the source restores the original path. |
| Move.RebaseInjective | owncloudApp/src/main/java/com/owncloud/android/datamodel/FileDataStorageManager.java:777-780 | Distinct paths under the moved prefix get distinct new paths. |
| Move.StorageRebase | owncloudApp/src/main/java/com/owncloud/android/datamodel/FileDataStorageManager.java:772-792 | A copy outside the save root is left alone. A copy under it is relinked to the save root, plus the target, plus the tail. The call throws IndexOutOfBounds when the copy path is shorter than the save root plus the old path. |
| Move.DefaultCopyFollowsRemotePath | owncloudApp/src/main/java/com/owncloud/android/datamodel/FileDataStorageManager.java:781-787 | A copy at the default place (save root plus remote path) moves to the default place of the new remote path. |
| Move.MovePatch | owncloudApp/src/main/java/com/owncloud/android/datamodel/FileDataStorageManager.java:774-825 | Each walked row gets the rebased path. A file row's copy is relinked, and a folder row, which is read without a local path, keeps its storage column. Only the moved file's row gets the new parent. The status rule depends on the target's and the moved file's status. Everything else is kept. |
| Move.MovePatches | owncloudApp/src/main/java/com/owncloud/android/datamodel/FileDataStorageManager.java:768-827 | There is one patch per walked row. Preparation fails iff some copy path cannot be cut. |
| Move.Relocations | owncloudApp/src/main/java/com/owncloud/android/datamodel/FileDataStorageManager.java:789-790 | An old/new pair is recorded exactly for each walked file row whose copy is relinked. Folder rows record nothing. |
| Move.MoveUnder | owncloudApp/src/main/java/com/owncloud/android/datamodel/FileDataStorageManager.java:730-843 | Fails iff some copy path cannot be cut, and then the table is unchanged. A refused batch also leaves the table unchanged. A taken batch moves every walked row as stated and leaves every other row untouched. |
| Move.MoveLocalFile | owncloudApp/src/main/java/com/owncloud/android/datamodel/FileDataStorageManager.java:720-728 | Nothing happens for a null, unsaved or root file. A missing target parent throws IllegalStateException. Otherwise the move proceeds under the found parent. |
| Move.MoveCommitted | owncloudApp/src/main/java/com/owncloud/android/datamodel/FileDataStorageManager.java:831-843 | A taken move batch changes exactly the walked rows, each as RowMoved describes: a file row's copy relinked, a folder row's storage column kept. |
| Move.MovedPathsStayDistinct | owncloudApp/src/main/java/com/owncloud/android/datamodel/FileDataStorageManager.java:777-780 | After a taken move, every walked row's path lies under the target path. Two walked rows share a new path iff they shared the old one. |
| Conflict.ConflictPatch | owncloudApp/src/main/java/com/owncloud/android/datamodel/FileDataStorageManager.java:1785-1786 | Only the conflict column is written. |
| Conflict.EffectiveMarker | owncloudApp/src/main/java/com/owncloud/android/datamodel/FileDataStorageManager.java:1782-1784 | A mark is kept only for a file with a local copy. |
| Conflict.AncestorIds | owncloudApp/src/main/java/com/owncloud/android/datamodel/FileDataStorageManager.java:1814-1819 | A completed walk collects the least parent-closed set of ids above the file. A missing row on the way is a null dereference, and on a cycle the loop never ends. |
| Conflict.MarkFileIsUpdateById | owncloudApp/src/main/java/com/owncloud/android/datamodel/FileDataStorageManager.java:1787-1806 | Writing the file's own mark is the provider update selected by the file's id. |
| Conflict.MarkIdsIsUpdateByIds | owncloudApp/src/main/java/com/owncloud/android/datamodel/FileDataStorageManager.java:1821-1848 | Copying the mark onto the ancestors is the provider update selected by the id list. |
| Conflict.ClearAtIsUpdateByPath | owncloudApp/src/main/java/com/owncloud/android/datamodel/FileDataStorageManager.java:1892-1912 | Clearing one level is the provider update selected by exact path. |
| Conflict.LastSlash | owncloudApp/src/main/java/com/owncloud/android/datamodel/FileDataStorageManager.java:1858 | Like lastIndexOf('/'), this is the last position holding '/', or -1. |
| Conflict.UpToLastSlash | owncloudApp/src/main/java/com/owncloud/android/datamodel/FileDataStorageManager.java:1858 | The result is a prefix that is empty or ends with '/', and it is the longest such prefix. |
| Conflict.AncestorPathsAreSlashPrefixesOf | owncloudApp/src/main/java/com/owncloud/android/datamodel/FileDataStorageManager.java:1854-1925 | Every level the clear walk visits is a non-empty prefix of the file's path that ends with '/'. |
| Conflict.SlashPrefixesAreAncestorPaths | owncloudApp/src/main/java/com/owncloud/android/datamodel/FileDataStorageManager.java:1854-1925 | Conversely, every non-empty prefix of the trimmed path that ends with '/' is visited. |
| Conflict.ClearWalk | owncloudApp/src/main/java/com/owncloud/android/datamodel/FileDataStorageManager.java:1861-1925 | The walk changes only the conflict column, and no "marked file under this path" query changes its answer. |
| Conflict.ClearWalkClears | owncloudApp/src/main/java/com/owncloud/android/datamodel/FileDataStorageManager.java:1861-1925 | A row loses its mark iff its path is a visited level with no marked file below it. Otherwise it keeps its mark. |
| Conflict.MarkAncestors | owncloudApp/src/main/java/com/owncloud/android/datamodel/FileDataStorageManager.java:1811-1849 | The set branch either marks exactly the collected ancestor ids, or aborts with the table unchanged: a null dereference iff a row is missing, and no end iff there is a cycle. |
| Conflict.SaveConflict | owncloudApp/src/main/java/com/owncloud/android/datamodel/FileDataStorageManager.java:1781-1929 | An unknown id changes nothing. Only the conflict column ever changes. The call aborts iff a mark is being set and the parent walk does not reach the top. When it aborts, only the file's own row has been written. |
| Conflict.SaveConflictMarksFile | owncloudApp/src/main/java/com/owncloud/android/datamodel/FileDataStorageManager.java:1782-1806 | The file's row ends with the effective mark, whichever branch follows. |
| Conflict.SaveConflictMarksAncestors | owncloudApp/src/main/java/com/owncloud/android/datamodel/FileDataStorageManager.java:1811-1849 | A completed set marks exactly the file and its ancestors by parent id. |
| Conflict.SaveConflictClearsAncestors | owncloudApp/src/main/java/com/owncloud/android/datamodel/FileDataStorageManager.java:1851-1925 | Clearing unmarks a row other than the file iff its path is a folder path above the file and no marked file remains under it. |
| Conflict.ClearedAggregateIsAccurate | owncloudApp/src/main/java/com/owncloud/android/datamodel/FileDataStorageManager.java:1851-1925 | After a clear, a folder above the file that still shows a mark has a marked file below it. |
| PublicLinks.Decimal | owncloudApp/src/main/java/com/owncloud/android/presentation/ui/sharing/fragments/ShareFileFragment.kt:181-184 | The decimal digits of n: non-empty, all digits, with no leading zero, and reading back to n. |
| PublicLinks.NumberedSuffix | owncloudApp/src/main/java/com/owncloud/android/presentation/ui/sharing/fragments/ShareFileFragment.kt:146-148 | A name matches "default (digits)" iff it is the default name, " (", a non-empty digit string and ")". |
| PublicLinks.ScanLinks | owncloudApp/src/main/java/com/owncloud/android/presentation/ui/sharing/fragments/ShareFileFragment.kt:142-157 | The scan completes iff no link has a null name or an unparsable number. It then records whether the default name is taken and exactly the captured numbers, all within Int range. Otherwise the first blocking link decides between a crash (null name) and "". |
| PublicLinks.Sort | owncloudApp/src/main/java/com/owncloud/android/presentation/ui/sharing/fragments/ShareFileFragment.kt:162 | The result is sorted and is a permutation of the input. |
| PublicLinks.LowestUnused | owncloudApp/src/main/java/com/owncloud/android/presentation/ui/sharing/fragments/ShareFileFragment.kt:129-130 | The reference definition: the least number at or above the start that is not used. |
| PublicLinks.ChosenIsLowestUnused | owncloudApp/src/main/java/com/owncloud/android/presentation/ui/sharing/fragments/ShareFileFragment.kt:163-179 | When every used number lies between 2 and Int.MAX_VALUE, the sort, the `!= 2` shortcut and the gap search together pick the lowest unused number from 2. Past Int.MAX_VALUE the pick wraps to Int.MIN_VALUE. |
| PublicLinks.DefaultPublicName | owncloudApp/src/main/java/com/owncloud/android/presentation/ui/sharing/fragments/ShareFileFragment.kt:131-185 | No list gives "". A null link name crashes. An unparsable number gives "". A free default name is offered as is. |
| PublicLinks.TakenWithoutTwoOffersTwo | owncloudApp/src/main/java/com/owncloud/android/presentation/ui/sharing/fragments/ShareFileFragment.kt:163-165 | When the default name is taken and the smallest used number is not 2, "Name (2)" is offered. |
| PublicLinks.NameIsLowestUnused | owncloudApp/src/main/java/com/owncloud/android/presentation/ui/sharing/fragments/ShareFileFragment.kt:129-185 | If no link uses 0 or 1, the offered name carries the lowest unused number from 2. Unless that number wraps, the name differs from every existing link name. |
| PublicLinks.AsWrittenRepeatsExistingName | owncloudApp/src/main/java/com/owncloud/android/presentation/ui/sharing/fragments/ShareFileFragment.kt:163-165 | With links "Name", "Name (1)" and "Name (2)", the offered name is "Name (2)", which already exists. |
| PublicLinks.CorrectedDefaultPublicName | owncloudApp/src/main/java/com/owncloud/android/presentation/ui/sharing/fragments/ShareFileFragment.kt:131-185 | Same null and crash cases as the original. Whenever the scan completes, the offered name is not among the existing link names. |
| PublicLinks.CorrectedAgreesAboveOne | owncloudApp/src/main/java/com/owncloud/android/presentation/ui/sharing/fragments/ShareFileFragment.kt:163-179 | When no link uses 0 or 1 and there is no wrap, the corrected and original names agree. |
| PublicLinks.EnableMultiplePublicSharing | owncloudApp/src/main/java/com/owncloud/android/presentation/ui/sharing/fragments/ShareFileFragment.kt:560-572 | A missing version string crashes. The answer is false iff the server is too old or multiple links are switched off, and true otherwise (including no capabilities). |
| PublicLinks.IsPublicShareDisabled | owncloudApp/src/main/java/com/owncloud/android/presentation/ui/sharing/fragments/ShareFileFragment.kt:190-191 | Public sharing counts as disabled iff capabilities are known and their public-sharing flag is FALSE. |
| PublicLinks.PublicLinkSection | owncloudApp/src/main/java/com/owncloud/android/presentation/ui/sharing/fragments/ShareFileFragment.kt:419-432 | The section is gone iff public sharing is explicitly disabled, and it is never merely invisible. |
| PublicLinks.UpdatePublicLinkButton | owncloudApp/src/main/java/com/owncloud/android/presentation/ui/sharing/fragments/ShareFileFragment.kt:505-518 | Unloaded inputs leave the button alone. Multiple links allowed also leaves it alone. With a single link allowed, the button is visible iff there are no links and invisible iff there are some. A missing version string crashes. |
| PublicLinks.SingleLinkCannotBeAddedTwice | owncloudApp/src/main/java/com/owncloud/android/presentation/ui/sharing/fragments/ShareFileFragment.kt:510-517 | With a single link allowed and one existing, the button is hidden. |
| PublicLinks.MultipleSharingKeepsButton | owncloudApp/src/androidTest/java/com/owncloud/android/shares/presentation/ui/ShareFileFragmentTest.kt:215-226 | Server 10.1.1 with multiple links on keeps the button visible. |
| PublicLinks.MultipleSharingOffHidesButton | owncloudApp/src/androidTest/java/com/owncloud/android/shares/presentation/ui/ShareFileFragmentTest.kt:229-240 | Server 10.1.1 with multiple links off hides the button once a link exists. |
| PublicLinks.OldServerHidesButton | owncloudApp/src/androidTest/java/com/owncloud/android/shares/presentation/ui/ShareFileFragmentTest.kt:243-253 | Server 9.3.1 hides the button once a link exists. |
| PublicLinks.DisabledSharingHidesSection | owncloudApp/src/androidTest/java/com/owncloud/android/shares/presentation/ui/ShareFileFragmentTest.kt:194-212 | Public sharing disabled removes the section, and enabled shows it. |

## Findings

| source | as written | input that shows it | evidently intended | confidence | as-written member | corrected member |
|---|---|---|---|---|---|---|
| owncloudApp/src/main/java/com/owncloud/android/presentation/ui/sharing/fragments/ShareFileFragment.kt:163-165 | `usedNumbers[0] != 2` chooses 2 without checking that 2 is free | links named "Name", "Name (1)", "Name (2)": the sorted numbers are [1, 2], so "Name (2)" is offered again | offer the lowest number from 2 on that no link uses, so the name is new | not executed | PublicLinks.AsWrittenRepeatsExistingName | PublicLinks.CorrectedDefaultPublicName |

## Left out

- Content-provider plumbing:
  - the choice between ContentResolver and ContentProviderClient, except where the two
    branches differ in effect (`viaResolver`);
  - account ownership columns, since one account is modelled;
  - RemoteException and OperationApplicationException paths, which are read as a refused
    batch or not modelled.
- The provider's own refusal rules: whether a batch is refused is the `rejects` parameter.
- The provider's recursive delete of a folder's rows by URI. Deletes are modelled by the
  selection the source passes (account and exact path).
- Local file I/O: `removeLocalFolder`, `File.delete`, `renameTo` and the media scanner.
  `saveFolder`'s local effects are returned as a list of intents, and the move records
  old/new copy paths but does not move bytes.
- `isDown` is read as "a storage path is set". The disk probe of the local file is not
  modelled.
- Move.MovePatch: when a file row's stored local path is null, the source's row reader
  looks for a copy at the default save path on disk and binds it (FileDataStorageManager.java:1089-1097). That
  probe is not modelled, so such a row is not relinked by a move and records no pair.
- OfflineAvailability.FolderContent: the result is the set of child ids. The order that
  `Collections.sort` gives (FileDataStorageManager.java:974) is not modelled, because OCFile's ordering is not
  part of this model.
- Reconcile.SaveFolder: the row-level lemmas (RefreshWritesChild, RefreshWritesFolder)
  assume that the objects agree with the table. A known child carries the id of an
  existing row other than the folder's, no two known children share an id, no child has
  the path of a removed entry, and the folder's id is not fresh. Outside that case,
  nothing is stated about which rows end up holding which child. This includes a child
  known only by path whose object carries another id: its update selects by that id.
- OCFile is not part of this model. `fileExists()` on an OCFile is read as "the id is not
  -1", and the root is recognised by its path "/".
- removeFile, removeFolder, copyLocalFile, getAvailableOfflineFilesFromEveryAccount and
  the share and capability CRUD of FileDataStorageManager are not part of the named
  operations.
- Move.MoveUnder: the walked rows are updated in ascending id order rather than the
  source's path order. The updates select distinct ids, so the final table is the same;
  only the order of the recorded relocation pairs may differ.
- SQL `LIKE`: the `_` wildcard inside a path and case-insensitive matching are not
  modelled. `LIKE 'p%'` is a prefix test and `LIKE 'p_%'` a strict-prefix test.
- Conflict.AncestorIds: a `Cycles` outcome is characterised only as "the start id is a
  stored row", not by exhibiting the cycle.
- Reconcile.SaveFolder: running the reconciliation twice is not proved idempotent in
  general. Only a single save (`SaveFileIdempotent`) and a concrete refresh are covered.
- PublicLinks.Decimal: `String.format` uses ASCII digits. Locale-specific digits are not
  modelled.
- PublicLinks.NumberedSuffix: the name is matched as a literal. A file name containing
  "\E" would end the regular expression's quoting early, and that case is not modelled.
- PublicLinks.NameIsLowestUnused: the wrap to Int.MIN_VALUE needs a link numbered
  Int.MAX_VALUE. It is modelled in ChosenNumber but only stated, not exhibited.
- PublicLinks.EnableMultiplePublicSharing: OwnCloudVersion's parsing and comparison is
  the parameter `supportsMultiple`.
- CapabilityBooleanType's numeric values are a three-valued datatype, and only FALSE and
  TRUE are compared against.
- Timestamps, sizes, MIME types, share flags, permissions, remote ids and thumbnails
  are carried as one opaque `etag` column, which every save rewrites as a block. They
  never influence a branch of the modelled operations.
