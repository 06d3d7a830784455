/** The metadata half of moveLocalFile: every row on or under the moved path is rewritten
    in one batch (new path, relinked local copy, adjusted available-offline status), and
    the moved node alone is re-parented. The renaming of bytes on the device that
    follows is not part of this model; the (old, new) local paths it works from are.
 */
module Move {
  import opened Outcomes
  import opened NodeStore
  import opened Reconcile

  /** The rows the move reads: path LIKE old + "%", i.e. the moved path and everything
      below it. */
  function Subtree(s: Store, p: string): (r: set<Id>)
    ensures forall k :: k in r <==> k in s.rows && p <= s.rows[k].path
  {
    set k | k in s.rows && p <= s.rows[k].path
  }

  /** `path` with its prefix `from` replaced by `to`. */
  function Rebase(path: string, from: string, to: string): (r: string)
    requires from <= path
    ensures to <= r
    ensures |r| == |path| - |from| + |to|
    ensures r[|to|..] == path[|from|..]
  {
    to + path[|from|..]
  }

  /** Moving back undoes a move: the relative suffix survives exactly. */
  lemma RebaseInverse(path: string, from: string, to: string)
    requires from <= path
    ensures Rebase(Rebase(path, from, to), to, from) == path
  {
    assert path == from + path[|from|..];
  }

  /** Distinct paths in the moved subtree stay distinct. */
  lemma RebaseInjective(p: string, q: string, from: string, to: string)
    requires from <= p && from <= q
    requires Rebase(p, from, to) == Rebase(q, from, to)
    ensures p == q
  {
    RebaseInverse(p, from, to);
    RebaseInverse(q, from, to);
  }

  /** A local copy under the account's save root is relinked to saveRoot + the new remote
      path + what followed the old remote path. The cut position is computed from the
      lengths alone, so a copy path shorter than saveRoot + old path makes `substring`
      throw. Any other copy path is left alone (`None`). */
  function StorageRebase(storage: Option<string>, saveRoot: string, oldPath: string, targetPath: string): (r: Result<Option<string>>)
    ensures !(storage.Some? && saveRoot <= storage.value) ==> r == Ok(None)
    ensures storage.Some? && saveRoot <= storage.value ==>
      (r.Err? <==> |storage.value| < |saveRoot| + |oldPath|)
    ensures r.Err? ==> r.failure == IndexOutOfBounds
    ensures r.Ok? && r.value.Some? ==>
      && storage.Some? && saveRoot <= storage.value
      && saveRoot + targetPath <= r.value.value
      && r.value.value[|saveRoot| + |targetPath|..] == storage.value[|saveRoot| + |oldPath|..]
  {
    match storage
    case None => Ok(None)
    case Some(sp) =>
      if !(saveRoot <= sp) then Ok(None)
      else if |sp| < |saveRoot| + |oldPath| then Err(IndexOutOfBounds)
      else Ok(Some(saveRoot + targetPath + sp[|saveRoot| + |oldPath|..]))
  }

  /** A local copy stored at its default place (save root + remote path) follows the
      remote path: its new local path is save root + new remote path. */
  lemma DefaultCopyFollowsRemotePath(saveRoot: string, oldRemote: string, oldPath: string, targetPath: string)
    requires oldPath <= oldRemote
    ensures StorageRebase(Some(saveRoot + oldRemote), saveRoot, oldPath, targetPath)
            == Ok(Some(saveRoot + Rebase(oldRemote, oldPath, targetPath)))
  {
    var sp := saveRoot + oldRemote;
    assert saveRoot <= sp;
    assert sp[|saveRoot| + |oldPath|..] == oldRemote[|oldPath|..];
    assert saveRoot + targetPath + oldRemote[|oldPath|..] == saveRoot + (targetPath + oldRemote[|oldPath|..]);
  }

  /** The status a move writes into every walked row, if any: into an available-offline
      target everything becomes inherited; otherwise an inherited status of the moved
      node itself (not of each row) demotes every row to not-available. */
  function MovedStatus(targetStatus: OfflineStatus, movedStatus: OfflineStatus): Option<OfflineStatus> {
    if targetStatus != NotAvailableOffline then Some(AvailableOfflineParent)
    else if movedStatus == AvailableOfflineParent then Some(NotAvailableOffline)
    else None
  }

  /** The full effect of the move on one walked row, stated column by column. */
  predicate RowMoved(before: Node, after: Node, file: Node, target: Node, targetPath: string, saveRoot: string)
    requires file.path <= before.path
  {
    && after.id == before.id
    && after.path == Rebase(before.path, file.path, targetPath)
    && after.parent == (if before.path == file.path then target.id else before.parent)
    && (if LoadedStorage(before).Some? && saveRoot <= LoadedStorage(before).value
           && |saveRoot| + |file.path| <= |LoadedStorage(before).value|
        then after.storage == Some(saveRoot + targetPath + LoadedStorage(before).value[|saveRoot| + |file.path|..])
        else after.storage == before.storage)
    && after.offline ==
         (if target.offline != NotAvailableOffline then AvailableOfflineParent
          else if file.offline == AvailableOfflineParent then NotAvailableOffline
          else before.offline)
    && after.isFolder == before.isFolder
    && after.conflict == before.conflict
    && after.etag == before.etag
  }

  /** The update for one walked row. */
  function MovePatch(file: Node, target: Node, targetPath: string, saveRoot: string, child: Node): (r: Result<Patch>)
    requires file.path <= child.path
    ensures r.Err? <==> StorageRebase(LoadedStorage(child), saveRoot, file.path, targetPath).Err?
    ensures r.Err? ==> r.failure == IndexOutOfBounds
    ensures r.Ok? ==> RowMoved(child, Patched(child, r.value), file, target, targetPath, saveRoot)
  {
    match StorageRebase(LoadedStorage(child), saveRoot, file.path, targetPath)
    case Err(e) => Err(e)
    case Ok(relinked) =>
      Ok(Patch(
        if child.path == file.path then Some(target.id) else None,
        Some(Rebase(child.path, file.path, targetPath)),
        None,
        if relinked.Some? then Some(relinked) else None,
        MovedStatus(target.offline, file.offline),
        None,
        None))
  }

  /** A local copy that the byte move will carry from `from` to `to`. */
  datatype Relocation = Relocation(from: string, to: string)

  /** The batch's patches, one per walked row; the first copy path that cannot be cut
      aborts the preparation. */
  function MovePatches(s: Store, file: Node, target: Node, targetPath: string, saveRoot: string, ids: seq<Id>): (r: Result<seq<Patch>>)
    requires forall i :: 0 <= i < |ids| ==> ids[i] in s.rows && file.path <= s.rows[ids[i]].path
    ensures r.Err? <==> exists i :: (0 <= i < |ids| &&
      StorageRebase(LoadedStorage(s.rows[ids[i]]), saveRoot, file.path, targetPath).Err?)
    ensures r.Err? ==> r.failure == IndexOutOfBounds
    ensures r.Ok? ==> |r.value| == |ids|
    ensures r.Ok? ==> forall i :: 0 <= i < |ids| ==>
      MovePatch(file, target, targetPath, saveRoot, s.rows[ids[i]]) == Ok(r.value[i])
    decreases |ids|
  {
    if ids == [] then Ok([])
    else
      match MovePatch(file, target, targetPath, saveRoot, s.rows[ids[0]])
      case Err(e) => Err(e)
      case Ok(patch) =>
        match MovePatches(s, file, target, targetPath, saveRoot, ids[1..])
        case Err(e) =>
          assert forall i :: 1 <= i < |ids| ==> ids[i] == ids[1..][i - 1];
          Err(e)
        case Ok(rest) =>
          assert forall i :: 1 <= i < |ids| ==> ids[i] == ids[1..][i - 1];
          Ok([patch] + rest)
  }

  /** The (old, new) local paths recorded for the byte move: one per walked row whose
      copy sits under the save root. */
  function Relocations(s: Store, file: Node, targetPath: string, saveRoot: string, ids: seq<Id>): (r: seq<Relocation>)
    requires forall i :: 0 <= i < |ids| ==> ids[i] in s.rows
    ensures forall i, to :: (0 <= i < |ids| &&
      StorageRebase(LoadedStorage(s.rows[ids[i]]), saveRoot, file.path, targetPath) == Ok(Some(to))) ==>
        Relocation(LoadedStorage(s.rows[ids[i]]).value, to) in r
    ensures forall m :: m in r ==> exists i :: (0 <= i < |ids| &&
      LoadedStorage(s.rows[ids[i]]) == Some(m.from) &&
      StorageRebase(LoadedStorage(s.rows[ids[i]]), saveRoot, file.path, targetPath) == Ok(Some(m.to)))
    decreases |ids|
  {
    if ids == [] then []
    else
      var rest := Relocations(s, file, targetPath, saveRoot, ids[1..]);
      assert forall i :: 1 <= i < |ids| ==> ids[i] == ids[1..][i - 1];
      var storage := LoadedStorage(s.rows[ids[0]]);
      match StorageRebase(storage, saveRoot, file.path, targetPath)
      case Ok(Some(to)) => [Relocation(storage.value, to)] + rest
      case _ => rest
  }

  /** What moveLocalFile ends in. `Skipped`: the guard let nothing happen. `Failed`: an
      exception escaped, leaving the table as it was then. `Moved`: the batch was sent;
      `committed` says whether the provider took it. */
  datatype MoveOutcome =
    | Skipped
    | Failed(store: Store, failure: Failure)
    | Moved(store: Store, relocations: seq<Relocation>, committed: bool)

  /** The guard of moveLocalFile: a saved file (OCFile.fileExists, an id is set) that is
      not the root. */
  predicate Movable(file: Option<Node>) {
    file.Some? && file.value.id != NO_ID && file.value.path != ROOT_PATH
  }

  /** The move once the target parent is known; `s1` is the table after the lookup. */
  function MoveUnder(s1: Store, f: Node, target: Node, targetPath: string, saveRoot: string,
                     rejects: Op -> bool): (r: MoveOutcome)
    ensures !r.Skipped?
    ensures r.Failed? <==> exists k :: (k in Subtree(s1, f.path) &&
      StorageRebase(LoadedStorage(s1.rows[k]), saveRoot, f.path, targetPath).Err?)
    ensures r.Failed? ==> r.store == s1 && r.failure == IndexOutOfBounds
    ensures r.Moved? && !r.committed ==> r.store == s1
    ensures r.Moved? ==> forall m :: m in r.relocations ==> exists k :: (k in Subtree(s1, f.path) &&
      LoadedStorage(s1.rows[k]) == Some(m.from) &&
      StorageRebase(LoadedStorage(s1.rows[k]), saveRoot, f.path, targetPath) == Ok(Some(m.to)))
    ensures r.Moved? ==> forall k, to :: (k in Subtree(s1, f.path) &&
      StorageRebase(LoadedStorage(s1.rows[k]), saveRoot, f.path, targetPath) == Ok(Some(to))) ==>
        Relocation(LoadedStorage(s1.rows[k]).value, to) in r.relocations
    ensures r.Moved? && r.committed ==>
      && r.store.rows.Keys == s1.rows.Keys
      && r.store.next == s1.next
      && (forall k :: k in s1.rows && f.path <= s1.rows[k].path ==>
            RowMoved(s1.rows[k], r.store.rows[k], f, target, targetPath, saveRoot))
      && (forall k :: k in s1.rows && !(f.path <= s1.rows[k].path) ==> r.store.rows[k] == s1.rows[k])
  {
    var ids := Ascending(Subtree(s1, f.path));
    match MovePatches(s1, f, target, targetPath, saveRoot, ids)
    case Err(e) =>
      Failed(s1, e)
    case Ok(patches) =>
      var relocations := Relocations(s1, f, targetPath, saveRoot, ids);
      match ApplyBatch(s1, UpdatesById(ids, patches), rejects)
      case Rejected => Moved(s1, relocations, false)
      case Applied(s2, _) =>
        MoveCommitted(s1, f, target, targetPath, saveRoot, ids, patches, rejects);
        Moved(s2, relocations, true)
  }

  /** moveLocalFile, metadata part. `saveRoot` is the account's default save path
      (FileStorageUtils.getSavePath, not part of this model). */
  function MoveLocalFile(s: Store, file: Option<Node>, targetPath: string, targetParentPath: string,
                         saveRoot: string, rejects: Op -> bool): (r: MoveOutcome)
    ensures r.Skipped? <==> !Movable(file)
    ensures Movable(file) && FileByPath(s, targetParentPath).Err? ==>
      r == Failed(s, FileByPath(s, targetParentPath).failure)
    ensures (r.Failed? && r.failure == IllegalState) <==>
      Movable(file) && FileByPath(s, targetParentPath).Ok? && FileByPath(s, targetParentPath).value.file.None?
    ensures r.Failed? && r.failure == IllegalState ==> r.store == s
    ensures Movable(file) && FileByPath(s, targetParentPath).Ok? && FileByPath(s, targetParentPath).value.file.Some? ==>
      r == MoveUnder(FileByPath(s, targetParentPath).value.store, file.value,
                     FileByPath(s, targetParentPath).value.file.value, targetPath, saveRoot, rejects)
  {
    if !Movable(file) then Skipped
    else
      match FileByPath(s, targetParentPath)
      case Err(e) => Failed(s, e)
      case Ok(Looked(s1, found)) =>
        if found.None? then Failed(s1, IllegalState)
        else MoveUnder(s1, file.value, found.value, targetPath, saveRoot, rejects)
  }

  /** The per-row effect of a taken move batch. */
  lemma MoveCommitted(s1: Store, f: Node, target: Node, targetPath: string, saveRoot: string,
                      ids: seq<Id>, patches: seq<Patch>, rejects: Op -> bool)
    requires ids == Ascending(Subtree(s1, f.path))
    requires MovePatches(s1, f, target, targetPath, saveRoot, ids) == Ok(patches)
    requires ApplyBatch(s1, UpdatesById(ids, patches), rejects).Applied?
    ensures var t := ApplyBatch(s1, UpdatesById(ids, patches), rejects).store;
      && t.rows.Keys == s1.rows.Keys
      && t.next == s1.next
      && (forall k :: k in s1.rows && f.path <= s1.rows[k].path ==>
            RowMoved(s1.rows[k], t.rows[k], f, target, targetPath, saveRoot))
      && (forall k :: k in s1.rows && !(f.path <= s1.rows[k].path) ==> t.rows[k] == s1.rows[k])
  {
    ApplyDistinctUpdates(s1, ids, patches, rejects);
    var t := ApplyBatch(s1, UpdatesById(ids, patches), rejects).store;
    forall k | k in s1.rows && f.path <= s1.rows[k].path
      ensures RowMoved(s1.rows[k], t.rows[k], f, target, targetPath, saveRoot)
    {
      assert k in ids;
      var i :| 0 <= i < |ids| && ids[i] == k;
      assert MovePatch(f, target, targetPath, saveRoot, s1.rows[k]) == Ok(patches[i]);
    }
    forall k | k in s1.rows && !(f.path <= s1.rows[k].path)
      ensures t.rows[k] == s1.rows[k]
    {
      assert k !in ids;
    }
  }

  /** After a taken move, the moved rows' new paths all lie under the target path and
      determine the old ones: rows that were distinct stay distinct. */
  lemma MovedPathsStayDistinct(s: Store, file: Option<Node>, targetPath: string, targetParentPath: string,
                               saveRoot: string, rejects: Op -> bool, j: Id, k: Id)
    requires MoveLocalFile(s, file, targetPath, targetParentPath, saveRoot, rejects).Moved?
    requires MoveLocalFile(s, file, targetPath, targetParentPath, saveRoot, rejects).committed
    requires var s1 := FileByPath(s, targetParentPath).value.store;
      j in s1.rows && k in s1.rows && file.value.path <= s1.rows[j].path && file.value.path <= s1.rows[k].path
    ensures var s1 := FileByPath(s, targetParentPath).value.store;
      var t := MoveLocalFile(s, file, targetPath, targetParentPath, saveRoot, rejects).store;
      && targetPath <= t.rows[j].path
      && (t.rows[j].path == t.rows[k].path <==> s1.rows[j].path == s1.rows[k].path)
  {
    var s1 := FileByPath(s, targetParentPath).value.store;
    var t := MoveLocalFile(s, file, targetPath, targetParentPath, saveRoot, rejects).store;
    if t.rows[j].path == t.rows[k].path {
      RebaseInjective(s1.rows[j].path, s1.rows[k].path, file.value.path, targetPath);
    }
  }
}
