/** Saving remote metadata into the file table: one file (saveFile) and one folder's
    listing (saveFolder), whose rows are written as a single provider batch.
 */
module Reconcile {
  import opened Outcomes
  import opened NodeStore
  import opened OfflineAvailability

  /** The row holds the metadata of `f`, filed under `parent`. */
  predicate Carries(row: Node, f: Node, parent: Id) {
    && row.parent == parent
    && row.path == f.path
    && row.isFolder == f.isFolder
    && row.conflict == f.conflict
    && row.etag == f.etag
  }

  /** A file the table already knows, by remote path or (for a renamed file) by id. */
  predicate IsKnown(s: Store, f: Node) {
    ExistsByPath(s, f.path) || ExistsById(s, f.id)
  }

  /** The columns a save writes: the local path only for a file, never the
      available-offline status. */
  function MetadataPatch(f: Node, parent: Id): (p: Patch)
    ensures forall n :: Carries(Patched(n, p), f, parent)
    ensures forall n :: Patched(n, p).offline == n.offline
    ensures forall n :: Patched(n, p).storage == (if f.isFolder then n.storage else f.storage)
  {
    Patch(Some(parent), Some(f.path), Some(f.isFolder), if f.isFolder then None else Some(f.storage),
          None, Some(f.conflict), Some(f.etag))
  }

  /** The row an insert creates; a folder's local path column stays null. */
  function NewRow(f: Node, parent: Id, status: OfflineStatus): (row: Node)
    ensures Carries(row, f, parent) && row.offline == status
    ensures row.storage == (if f.isFolder then None else f.storage)
  {
    Node(NO_ID, parent, f.path, f.isFolder, if f.isFolder then None else f.storage, status,
         f.conflict, f.etag)
  }

  /** The row a save of a known file writes to: the first row with the file's path,
      otherwise the row with the file's own id (a renamed file). */
  function TargetId(s: Store, f: Node): (id: Id)
    requires IsKnown(s, f)
    ensures id in s.rows
    ensures ExistsByPath(s, f.path) ==>
      s.rows[id].path == f.path && forall k :: k in s.rows && s.rows[k].path == f.path ==> id <= k
    ensures !ExistsByPath(s, f.path) ==> id == f.id
  {
    if ExistsByPath(s, f.path) then FindByPath(s, f.path).value else f.id
  }

  /** What saveFile leaves behind: the table, the caller's file object with the id it
      ends up carrying, and whether an existing row was overwritten. */
  datatype FileSaved = FileSaved(store: Store, file: Node, overridden: bool)

  /** saveFile. A file known by path or id overwrites that row (adopting the row's id on
      a path match) and keeps the row's available-offline status; an unknown file is
      inserted with the status inherited from its nearest available-offline ancestor. */
  function SaveFile(s: Store, file: Node): (r: Result<FileSaved>)
    ensures r.Err? <==> !IsKnown(s, file) && OfflineAncestorOf(s, file).Endless?
    ensures r.Err? ==> r.failure == Unbounded
    ensures r.Ok? ==> r.value.overridden == IsKnown(s, file)
    ensures r.Ok? ==> r.value.file == file.(id := r.value.file.id)
    ensures r.Ok? ==>
      && r.value.file.id in r.value.store.rows
      && Carries(r.value.store.rows[r.value.file.id], file, file.parent)
      && forall k :: k in r.value.store.rows && k != r.value.file.id ==>
           k in s.rows && r.value.store.rows[k] == s.rows[k]
    ensures r.Ok? && r.value.overridden ==>
      && r.value.store.rows.Keys == s.rows.Keys
      && r.value.store.next == s.next
      && r.value.file.id == TargetId(s, file)
      && r.value.store.rows[r.value.file.id].offline == s.rows[r.value.file.id].offline
      && r.value.store.rows[r.value.file.id].storage ==
           (if file.isFolder then s.rows[r.value.file.id].storage else file.storage)
    ensures r.Ok? && !r.value.overridden ==>
      && r.value.file.id == s.next
      && r.value.store.next == s.next + 1
      && r.value.store.rows.Keys == s.rows.Keys + {s.next}
      && r.value.store.rows[s.next].offline == InitialStatus(s, file).value
      && r.value.store.rows[s.next].storage == (if file.isFolder then None else file.storage)
  {
    if IsKnown(s, file) then
      var id := TargetId(s, file);
      var (t, _) := ApplyOp(s, Update(ById(id), MetadataPatch(file, file.parent)));
      Ok(FileSaved(t, file.(id := id), true))
    else
      match InitialStatus(s, file)
      case Err(e) => Err(e)
      case Ok(st) =>
        var (t, _) := ApplyOp(s, Insert(NewRow(file, file.parent, st)));
        Ok(FileSaved(t, file.(id := s.next), false))
  }

  lemma SaveFileKeepsValid(s: Store, file: Node)
    requires Valid(s) && SaveFile(s, file).Ok?
    ensures Valid(SaveFile(s, file).value.store)
  {
    if IsKnown(s, file) {
      ApplyOpKeepsValid(s, Update(ById(TargetId(s, file)), MetadataPatch(file, file.parent)));
    } else {
      ApplyOpKeepsValid(s, Insert(NewRow(file, file.parent, InitialStatus(s, file).value)));
    }
  }

  /** A saved file is what a lookup by its path returns next: the id the file object
      carries after the save. */
  lemma SaveFileThenFindByPath(s: Store, file: Node)
    requires SaveFile(s, file).Ok?
    ensures FindByPath(SaveFile(s, file).value.store, file.path) == Some(SaveFile(s, file).value.file.id)
  {
    var r := SaveFile(s, file).value;
    var t, id := r.store, r.file.id;
    forall k | k in t.rows && t.rows[k].path == file.path
      ensures id <= k
    {
      if k != id {
        assert k in s.rows && s.rows[k].path == file.path;
        if !IsKnown(s, file) {
          assert false;
        }
        if ExistsByPath(s, file.path) {
          assert id == FindByPath(s, file.path).value;
        } else {
          assert false;
        }
      }
    }
  }

  /** Saving the returned file object again overwrites its own row with the same values:
      the table does not change. */
  lemma SaveFileIdempotent(s: Store, file: Node)
    requires SaveFile(s, file).Ok?
    ensures SaveFile(SaveFile(s, file).value.store, SaveFile(s, file).value.file).Ok?
    ensures SaveFile(SaveFile(s, file).value.store, SaveFile(s, file).value.file).value.store
            == SaveFile(s, file).value.store
  {
    var r := SaveFile(s, file).value;
    var t, f := r.store, r.file;
    SaveFileThenFindByPath(s, file);
    assert IsKnown(t, f);
    var r2 := SaveFile(t, f).value;
    assert r2.file.id == f.id;
    assert r2.store.rows[f.id] == t.rows[f.id];
    assert r2.store.rows == t.rows;
  }

  /** The root folder object createRootDir saves: path "/", a folder, under the root's
      parent sentinel, with default metadata. */
  function RootDir(): Node {
    Node(NO_ID, ROOT_PARENT_ID, ROOT_PATH, true, None, NotAvailableOffline, None, "")
  }

  /** A lookup and the table it leaves behind (a lookup of "/" may create the root). */
  datatype Looked = Looked(store: Store, file: Option<Node>)

  /** getFileByPath: the first row with the path, read back as an object carrying the
      row's id (a folder's object without a local path); a missing root is created on
      the fly. */
  function FileByPath(s: Store, p: string): (r: Result<Looked>)
    ensures ExistsByPath(s, p) ==> r.Ok? && r.value.store == s && r.value.file.Some?
    ensures ExistsByPath(s, p) ==>
      r.value.file.value == s.rows[FindByPath(s, p).value].(id := FindByPath(s, p).value,
                                                          storage := LoadedStorage(s.rows[FindByPath(s, p).value]))
    ensures !ExistsByPath(s, p) && p != ROOT_PATH ==> r == Ok(Looked(s, None))
    ensures !ExistsByPath(s, p) && p == ROOT_PATH ==> r.Err? == SaveFile(s, RootDir()).Err?
    ensures r.Ok? && r.value.file.Some? ==> r.value.file.value.path == p
    ensures r.Ok? && r.value.file.Some? ==> r.value.file.value.id in r.value.store.rows
    ensures r.Ok? && r.value.store != s ==>
      && !ExistsByPath(s, p) && p == ROOT_PATH
      && r.value.file.Some? && r.value.file.value.isFolder
      && r.value.store.rows.Keys == s.rows.Keys + {r.value.file.value.id}
      && r.value.store.rows[r.value.file.value.id].path == ROOT_PATH
  {
    match FindByPath(s, p)
    case Some(id) => Ok(Looked(s, Some(s.rows[id].(id := id, storage := LoadedStorage(s.rows[id])))))
    case None =>
      if p != ROOT_PATH then Ok(Looked(s, None))
      else
        match SaveFile(s, RootDir())
        case Err(e) => Err(e)
        case Ok(saved) => Ok(Looked(saved.store, Some(saved.file)))
  }

  /** On a well-formed table the root bootstrap cannot fail: the root's parent sentinel
      names no row, so there is no ancestor chain to follow. */
  lemma FileByPathTotalOnValid(s: Store, p: string)
    requires Valid(s)
    ensures FileByPath(s, p).Ok?
  {
    assert ROOT_PARENT_ID !in s.rows;
    assert OfflineAncestorOf(s, RootDir()) == NotFound;
  }

  /** The operation saveFolder prepares for one listed child. A child known by path or id
      is updated through its own id (a path match does not adopt the stored id); an
      unknown child is inserted with the inherited status. Both file it under `folder`. */
  function ChildOp(s: Store, folder: Node, f: Node): (r: Result<Op>)
    ensures r.Err? <==> !IsKnown(s, f) && OfflineAncestorOf(s, f).Endless?
    ensures r.Err? ==> r.failure == Unbounded
    ensures r.Ok? ==> !r.value.Delete? && (r.value.Update? <==> IsKnown(s, f))
    ensures r.Ok? && r.value.Update? ==>
      && r.value.sel == ById(f.id)
      && forall n :: Carries(Patched(n, r.value.patch), f, folder.id) && Patched(n, r.value.patch).offline == n.offline
    ensures r.Ok? && r.value.Insert? ==>
      Carries(r.value.row, f, folder.id) && r.value.row.offline == InitialStatus(s, f).value
  {
    if IsKnown(s, f) then
      Ok(Update(ById(f.id), MetadataPatch(f, folder.id)))
    else
      match InitialStatus(s, f)
      case Err(e) => Err(e)
      case Ok(st) => Ok(Insert(NewRow(f, folder.id, st)))
  }

  function ChildOps(s: Store, folder: Node, updated: seq<Node>): (r: Result<seq<Op>>)
    ensures r.Err? <==> exists i :: 0 <= i < |updated| && ChildOp(s, folder, updated[i]).Err?
    ensures r.Err? ==> r.failure == Unbounded
    ensures r.Ok? ==> |r.value| == |updated|
    ensures r.Ok? ==> forall i :: 0 <= i < |updated| ==> ChildOp(s, folder, updated[i]) == Ok(r.value[i])
    decreases |updated|
  {
    if updated == [] then Ok([])
    else
      match ChildOp(s, folder, updated[0])
      case Err(e) => Err(e)
      case Ok(op) =>
        match ChildOps(s, folder, updated[1..])
        case Err(e) =>
          assert forall i :: 1 <= i < |updated| ==> updated[i] == updated[1..][i - 1];
          Err(e)
        case Ok(ops) =>
          assert forall i :: 1 <= i < |updated| ==> updated[i] == updated[1..][i - 1];
          Ok([op] + ops)
  }

  /** The entries of filesToRemove that are children of `folder`, in order; the others
      are ignored. */
  function Owned(folder: Node, toRemove: seq<Node>): (r: seq<Node>)
    ensures |r| <= |toRemove|
    ensures forall x :: x in r <==> x in toRemove && x.parent == folder.id
    decreases |toRemove|
  {
    if toRemove == [] then []
    else
      var rest := Owned(folder, toRemove[1..]);
      assert forall x :: x in toRemove <==> x == toRemove[0] || x in toRemove[1..];
      if toRemove[0].parent == folder.id then [toRemove[0]] + rest else rest
  }

  /** One delete per removed child, guarded by the child's path. */
  function RemovalOps(owned: seq<Node>): (r: seq<Op>)
    ensures |r| == |owned|
    ensures forall j :: 0 <= j < |owned| ==> r[j] == Delete(ByPath(owned[j].path))
    decreases |owned|
  {
    if owned == [] then [] else [Delete(ByPath(owned[0].path))] + RemovalOps(owned[1..])
  }

  /** The columns saveFolder writes into the folder's own row: neither its local path,
      its status nor its conflict mark. */
  function FolderPatch(folder: Node): (p: Patch)
    ensures forall n :: (Patched(n, p) ==
      n.(parent := folder.parent, path := folder.path, isFolder := folder.isFolder, etag := folder.etag))
  {
    Patch(Some(folder.parent), Some(folder.path), Some(folder.isFolder), None, None, None, Some(folder.etag))
  }

  /** Where each part of a batch laid out as `first`, `middle`, `last` sits. */
  lemma BatchLayout(first: seq<Op>, middle: seq<Op>, last: Op)
    ensures var ops := first + middle + [last];
      && |ops| == |first| + |middle| + 1
      && (forall i :: 0 <= i < |first| ==> ops[i] == first[i])
      && (forall j :: 0 <= j < |middle| ==> ops[|first| + j] == middle[j])
      && ops[|ops| - 1] == last
  {
  }

  /** Where the children's operations, the removals and the folder's update sit in a
      refresh batch. */
  lemma RefreshLayout(s: Store, folder: Node, updated: seq<Node>, toRemove: seq<Node>, children: seq<Op>)
    requires ChildOps(s, folder, updated) == Ok(children)
    ensures var ops := children + RemovalOps(Owned(folder, toRemove)) + [Update(ById(folder.id), FolderPatch(folder))];
      && |ops| == |updated| + |Owned(folder, toRemove)| + 1
      && (forall i :: 0 <= i < |updated| ==> ChildOp(s, folder, updated[i]) == Ok(ops[i]))
      && (forall j :: 0 <= j < |Owned(folder, toRemove)| ==>
            ops[|updated| + j] == Delete(ByPath(Owned(folder, toRemove)[j].path)))
      && ops[|ops| - 1] == Update(ById(folder.id), FolderPatch(folder))
  {
    var removals := RemovalOps(Owned(folder, toRemove));
    BatchLayout(children, removals, Update(ById(folder.id), FolderPatch(folder)));
  }

  /** The whole batch of saveFolder: the children in listing order, then a delete by path
      for every owned entry to remove, then the folder's own update. */
  function ReconcileOps(s: Store, folder: Node, updated: seq<Node>, toRemove: seq<Node>): (r: Result<seq<Op>>)
    ensures r.Err? <==> exists i :: 0 <= i < |updated| && ChildOp(s, folder, updated[i]).Err?
    ensures r.Err? ==> r.failure == Unbounded
    ensures r.Ok? ==> |r.value| == |updated| + |Owned(folder, toRemove)| + 1
    ensures r.Ok? ==> forall i :: 0 <= i < |updated| ==> ChildOp(s, folder, updated[i]) == Ok(r.value[i])
    ensures r.Ok? ==> forall j :: 0 <= j < |Owned(folder, toRemove)| ==>
      r.value[|updated| + j] == Delete(ByPath(Owned(folder, toRemove)[j].path))
    ensures r.Ok? ==> r.value[|r.value| - 1] == Update(ById(folder.id), FolderPatch(folder))
  {
    match ChildOps(s, folder, updated)
    case Err(e) => Err(e)
    case Ok(children) =>
      var removals := RemovalOps(Owned(folder, toRemove));
      RefreshLayout(s, folder, updated, toRemove, children);
      Ok(children + removals + [Update(ById(folder.id), FolderPatch(folder))])
  }

  /** Work on the device that saveFolder does for a removed child, before the batch and
      whatever its outcome: purge a folder's local directory, delete a downloaded file's
      local copy (and announce it to the media scanner). */
  datatype LocalEffect = PurgeFolder(remotePath: string) | RemoveCopy(storagePath: string)

  function LocalEffects(owned: seq<Node>): (r: seq<LocalEffect>)
    ensures forall x :: x in owned && x.isFolder ==> PurgeFolder(x.path) in r
    ensures forall x :: x in owned && !x.isFolder && IsDown(x) ==> RemoveCopy(x.storage.value) in r
    ensures forall e :: e in r ==> (exists x :: (x in owned &&
      ((x.isFolder && e == PurgeFolder(x.path)) || (!x.isFolder && IsDown(x) && e == RemoveCopy(x.storage.value)))))
    decreases |owned|
  {
    if owned == [] then []
    else
      var x := owned[0];
      var rest := LocalEffects(owned[1..]);
      assert forall y :: y in owned[1..] ==> y in owned;
      assert forall y :: y in owned ==> y == x || y in owned[1..];
      if x.isFolder then [PurgeFolder(x.path)] + rest
      else if IsDown(x) then [RemoveCopy(x.storage.value)] + rest
      else rest
  }

  /** The id each file object carries after the batch: the i-th result belongs to the
      i-th listed file, and only an insert's result changes the object's id. */
  predicate WrittenBack(files: seq<Node>, results: seq<OpResult>, out: seq<Node>, upto: nat) {
    && |out| == |files|
    && forall j :: 0 <= j < |files| ==>
         out[j] == (if j < upto && j < |results| && results[j].InsertedAs? then files[j].(id := results[j].id) else files[j])
  }

  method WriteBackIds(files: seq<Node>, results: seq<OpResult>) returns (out: seq<Node>)
    ensures WrittenBack(files, results, out, |results|)
  {
    out := files;
    var i := 0;
    while i < |results|
      invariant 0 <= i <= |results|
      invariant WrittenBack(files, results, out, i)
    {
      if i < |files| && results[i].InsertedAs? {
        out := out[i := files[i].(id := results[i].id)];
      }
      i := i + 1;
    }
  }

  /** What saveFolder leaves behind: the table, the caller's file objects, the device
      work it did, and whether the provider took the batch. */
  datatype FolderSaved = FolderSaved(store: Store, files: seq<Node>, effects: seq<LocalEffect>, committed: bool)

  /** saveFolder. A child whose status cannot be inherited (a cyclic parent chain) makes
      the whole call fail before anything is sent. */
  method SaveFolder(s: Store, folder: Node, updated: seq<Node>, toRemove: seq<Node>, rejects: Op -> bool)
    returns (r: Result<FolderSaved>)
    ensures r.Err? <==> exists i :: 0 <= i < |updated| && !IsKnown(s, updated[i]) && OfflineAncestorOf(s, updated[i]).Endless?
    ensures r.Err? ==> r.failure == Unbounded
    ensures r.Ok? ==> r.value.effects == LocalEffects(Owned(folder, toRemove))
    ensures r.Ok? ==> |r.value.files| == |updated|
    ensures r.Ok? ==> forall i :: 0 <= i < |updated| ==> r.value.files[i] == updated[i].(id := r.value.files[i].id)
    ensures r.Ok? ==> (r.value.committed <==>
      forall i :: 0 <= i < |ReconcileOps(s, folder, updated, toRemove).value| ==>
        !rejects(ReconcileOps(s, folder, updated, toRemove).value[i]))
    ensures r.Ok? && !r.value.committed ==> r.value.store == s && r.value.files == updated
    ensures r.Ok? && r.value.committed ==>
      r.value.store == ApplyBatch(s, ReconcileOps(s, folder, updated, toRemove).value, rejects).store
    ensures r.Ok? && r.value.committed ==> forall i :: 0 <= i < |updated| ==>
      if IsKnown(s, updated[i]) then r.value.files[i] == updated[i]
      else s.next <= r.value.files[i].id < r.value.store.next
    ensures r.Ok? && r.value.committed ==> forall i :: 0 <= i < |updated| && !IsKnown(s, updated[i]) ==>
      r.value.files[i].id == ApplyBatch(s, ReconcileOps(s, folder, updated, toRemove).value, rejects).results[i].id
    ensures r.Ok? && r.value.committed ==> forall i, j ::
      (0 <= i < j < |updated| && !IsKnown(s, updated[i]) && !IsKnown(s, updated[j])) ==>
        r.value.files[i].id < r.value.files[j].id
    ensures r.Ok? && Valid(s) ==> Valid(r.value.store)
  {
    var prepared := ReconcileOps(s, folder, updated, toRemove);
    if prepared.Err? {
      return Err(prepared.failure);
    }
    var ops := prepared.value;
    var effects := LocalEffects(Owned(folder, toRemove));
    var outcome := ApplyBatch(s, ops, rejects);
    if outcome.Rejected? {
      return Ok(FolderSaved(s, updated, effects, false));
    }
    var files := WriteBackIds(updated, outcome.results);
    forall i | 0 <= i < |updated|
      ensures ops[i].Insert? <==> !IsKnown(s, updated[i])
    {
      assert ChildOp(s, folder, updated[i]) == Ok(ops[i]);
    }
    return Ok(FolderSaved(outcome.store, files, effects, true));
  }

  /** The caller's objects agree with the table, so that the rows of one refresh do not
      interfere: the folder's id is no fresh one, a known child carries the id of an
      existing row other than the folder's, no two known children share an id, and no
      child has the path of an entry being removed. */
  predicate SeparateRefresh(s: Store, folder: Node, updated: seq<Node>, toRemove: seq<Node>) {
    && folder.id < s.next
    && (forall i :: 0 <= i < |updated| && IsKnown(s, updated[i]) ==>
          updated[i].id in s.rows && updated[i].id != folder.id)
    && (forall i, j :: 0 <= i < j < |updated| && IsKnown(s, updated[i]) && IsKnown(s, updated[j]) ==>
          updated[i].id != updated[j].id)
    && (forall i, j :: 0 <= i < |updated| && 0 <= j < |Owned(folder, toRemove)| ==>
          updated[i].path != Owned(folder, toRemove)[j].path)
  }

  /** The j-th operation of a refresh batch leaves the row `k` holding `n` alone when
      the operation does not name `k`: a known child's update names its own id, a removal
      names a removed entry's path, the folder's update names the folder's id. */
  lemma RefreshOpSpares(s: Store, folder: Node, updated: seq<Node>, toRemove: seq<Node>, j: nat, k: Id, n: Node)
    requires ReconcileOps(s, folder, updated, toRemove).Ok?
    requires j < |ReconcileOps(s, folder, updated, toRemove).value|
    requires j < |updated| ==> !IsKnown(s, updated[j]) || updated[j].id != k
    requires |updated| <= j < |ReconcileOps(s, folder, updated, toRemove).value| - 1 ==>
      forall m :: 0 <= m < |Owned(folder, toRemove)| ==> Owned(folder, toRemove)[m].path != n.path
    requires j == |ReconcileOps(s, folder, updated, toRemove).value| - 1 ==> folder.id != k
    ensures Spares(ReconcileOps(s, folder, updated, toRemove).value[j], k, n)
  {
    if j < |updated| {
      ChildSlotSpares(s, folder, updated, toRemove, j, k, n);
    } else if j < |ReconcileOps(s, folder, updated, toRemove).value| - 1 {
      RemovalSlotSpares(s, folder, updated, toRemove, j - |updated|, k, n);
    }
  }

  lemma RemovalSlotSpares(s: Store, folder: Node, updated: seq<Node>, toRemove: seq<Node>, j: nat, k: Id, n: Node)
    requires ReconcileOps(s, folder, updated, toRemove).Ok?
    requires j < |Owned(folder, toRemove)|
    requires Owned(folder, toRemove)[j].path != n.path
    ensures Spares(ReconcileOps(s, folder, updated, toRemove).value[|updated| + j], k, n)
  {
  }

  lemma ChildSlotSpares(s: Store, folder: Node, updated: seq<Node>, toRemove: seq<Node>, j: nat, k: Id, n: Node)
    requires ReconcileOps(s, folder, updated, toRemove).Ok?
    requires j < |updated| && (!IsKnown(s, updated[j]) || updated[j].id != k)
    ensures Spares(ReconcileOps(s, folder, updated, toRemove).value[j], k, n)
  {
    ChildOpSpares(s, folder, updated[j], ReconcileOps(s, folder, updated, toRemove).value[j], k, n);
  }

  /** A child's operation leaves alone every row but the one with the child's own id. */
  lemma ChildOpSpares(s: Store, folder: Node, f: Node, op: Op, k: Id, n: Node)
    requires ChildOp(s, folder, f) == Ok(op)
    requires !IsKnown(s, f) || f.id != k
    ensures Spares(op, k, n)
  {
  }

  /** Before a known child's own update, a separate refresh has not touched its row. */
  lemma RefreshKeepsKnownRowUntil(s: Store, folder: Node, updated: seq<Node>, toRemove: seq<Node>, i: nat)
    requires Valid(s) && SeparateRefresh(s, folder, updated, toRemove)
    requires ReconcileOps(s, folder, updated, toRemove).Ok?
    requires i < |updated| && IsKnown(s, updated[i])
    ensures var t := RunOps(s, ReconcileOps(s, folder, updated, toRemove).value[..i]);
      updated[i].id in t.rows && t.rows[updated[i].id] == s.rows[updated[i].id]
  {
    var ops := ReconcileOps(s, folder, updated, toRemove).value;
    var k := updated[i].id;
    forall j | 0 <= j < i
      ensures Spares(ops[..i][j], k, s.rows[k])
    {
      assert ops[..i][j] == ops[j];
      RefreshOpSpares(s, folder, updated, toRemove, j, k, s.rows[k]);
    }
    RunOpsLeavesRow(s, ops[..i], k);
  }

  /** After the i-th child's operation, a separate refresh does not touch its row again. */
  lemma RefreshKeepsChildRowAfter(s: Store, folder: Node, updated: seq<Node>, toRemove: seq<Node>, i: nat, k: Id)
    requires Valid(s) && SeparateRefresh(s, folder, updated, toRemove)
    requires ReconcileOps(s, folder, updated, toRemove).Ok?
    requires i < |updated|
    requires IsKnown(s, updated[i]) ==> k == updated[i].id
    requires !IsKnown(s, updated[i]) ==> s.next <= k
    requires var ops := ReconcileOps(s, folder, updated, toRemove).value;
      var t1 := ApplyOp(RunOps(s, ops[..i]), ops[i]).0;
      k in t1.rows && k < t1.next && t1.rows[k].path == updated[i].path
    ensures var ops := ReconcileOps(s, folder, updated, toRemove).value;
      var t1 := ApplyOp(RunOps(s, ops[..i]), ops[i]).0;
      k in RunOps(s, ops).rows && RunOps(s, ops).rows[k] == t1.rows[k]
  {
    var ops := ReconcileOps(s, folder, updated, toRemove).value;
    var t1 := ApplyOp(RunOps(s, ops[..i]), ops[i]).0;
    forall j | i < j < |ops|
      ensures Spares(ops[j], k, t1.rows[k])
    {
      if j < |updated| && IsKnown(s, updated[j]) {
        assert updated[j].id in s.rows;
      }
      RefreshOpSpares(s, folder, updated, toRemove, j, k, t1.rows[k]);
    }
    RunOpsKeepsWrite(s, ops, i, k);
  }

  /** A committed saveFolder writes every listed child: a known child into its own row,
      keeping that row's status, an unknown one into a fresh row (the id the batch reports
      for it) with the inherited status; either way filed under the folder with the
      child's path, type, conflict mark and etag. */
  lemma RefreshWritesChild(s: Store, folder: Node, updated: seq<Node>, toRemove: seq<Node>,
                           rejects: Op -> bool, i: nat)
    requires Valid(s) && SeparateRefresh(s, folder, updated, toRemove)
    requires ReconcileOps(s, folder, updated, toRemove).Ok?
    requires ApplyBatch(s, ReconcileOps(s, folder, updated, toRemove).value, rejects).Applied?
    requires i < |updated|
    ensures var b := ApplyBatch(s, ReconcileOps(s, folder, updated, toRemove).value, rejects);
      var k := if IsKnown(s, updated[i]) then updated[i].id else b.results[i].id;
      && k in b.store.rows
      && Carries(b.store.rows[k], updated[i], folder.id)
      && (IsKnown(s, updated[i]) ==> b.store.rows[k].offline == s.rows[k].offline)
      && (!IsKnown(s, updated[i]) ==> b.store.rows[k].offline == InitialStatus(s, updated[i]).value)
  {
    var ops := ReconcileOps(s, folder, updated, toRemove).value;
    var b := ApplyBatch(s, ops, rejects);
    var f := updated[i];
    assert ChildOp(s, folder, f) == Ok(ops[i]);
    var t0 := RunOps(s, ops[..i]);
    var t1 := ApplyOp(t0, ops[i]).0;
    BatchIsRun(s, ops, rejects);
    if IsKnown(s, f) {
      RefreshKeepsKnownRowUntil(s, folder, updated, toRemove, i);
      RefreshKeepsChildRowAfter(s, folder, updated, toRemove, i, f.id);
    } else {
      BatchInsertIds(s, ops, rejects, i);
      RefreshKeepsChildRowAfter(s, folder, updated, toRemove, i, t0.next);
    }
  }

  /** A committed saveFolder leaves no row at the path of a removed child (unless that is
      the folder's own path, which the final update writes back). */
  lemma RefreshRemovesOwned(s: Store, folder: Node, updated: seq<Node>, toRemove: seq<Node>,
                            rejects: Op -> bool, x: Node)
    requires ReconcileOps(s, folder, updated, toRemove).Ok?
    requires ApplyBatch(s, ReconcileOps(s, folder, updated, toRemove).value, rejects).Applied?
    requires x in Owned(folder, toRemove) && x.path != folder.path
    ensures !ExistsByPath(ApplyBatch(s, ReconcileOps(s, folder, updated, toRemove).value, rejects).store, x.path)
  {
    var j :| 0 <= j < |Owned(folder, toRemove)| && Owned(folder, toRemove)[j] == x;
    RemovalRunLeavesPathGone(s, folder, updated, toRemove, ReconcileOps(s, folder, updated, toRemove).value, j);
    BatchIsRun(s, ReconcileOps(s, folder, updated, toRemove).value, rejects);
  }

  /** Run in order, a refresh batch leaves no row at the path of its j-th removal: only
      removals follow it, and then the folder's update, which writes the folder's path. */
  lemma RemovalRunLeavesPathGone(s: Store, folder: Node, updated: seq<Node>, toRemove: seq<Node>, ops: seq<Op>, j: nat)
    requires ReconcileOps(s, folder, updated, toRemove) == Ok(ops)
    requires j < |Owned(folder, toRemove)| && Owned(folder, toRemove)[j].path != folder.path
    ensures !ExistsByPath(RunOps(s, ops), Owned(folder, toRemove)[j].path)
  {
    RemovalsFollow(s, folder, updated, toRemove);
    RemovalThenUpdateKeepsPathGone(s, ops, |updated| + j, Owned(folder, toRemove)[j].path);
  }

  /** Between the children's operations and the folder's update a refresh batch holds
      only removals. */
  lemma RemovalsFollow(s: Store, folder: Node, updated: seq<Node>, toRemove: seq<Node>)
    requires ReconcileOps(s, folder, updated, toRemove).Ok?
    ensures var ops := ReconcileOps(s, folder, updated, toRemove).value;
      forall m :: |updated| <= m < |ops| - 1 ==> ops[m].Delete?
  {
    var ops := ReconcileOps(s, folder, updated, toRemove).value;
    forall m | |updated| <= m < |ops| - 1
      ensures ops[m].Delete?
    {
      assert ops[|updated| + (m - |updated|)].Delete?;
    }
  }

  /** A committed saveFolder writes the listing's view of the folder into the folder's row
      and leaves that row's local path, status and conflict mark as they were. */
  lemma RefreshWritesFolder(s: Store, folder: Node, updated: seq<Node>, toRemove: seq<Node>, rejects: Op -> bool)
    requires Valid(s) && SeparateRefresh(s, folder, updated, toRemove)
    requires ReconcileOps(s, folder, updated, toRemove).Ok?
    requires ApplyBatch(s, ReconcileOps(s, folder, updated, toRemove).value, rejects).Applied?
    requires folder.id in s.rows
    requires forall j :: 0 <= j < |Owned(folder, toRemove)| ==> Owned(folder, toRemove)[j].path != s.rows[folder.id].path
    ensures var t := ApplyBatch(s, ReconcileOps(s, folder, updated, toRemove).value, rejects).store;
      && folder.id in t.rows
      && t.rows[folder.id] == s.rows[folder.id].(parent := folder.parent, path := folder.path,
                                                 isFolder := folder.isFolder, etag := folder.etag)
  {
    var ops := ReconcileOps(s, folder, updated, toRemove).value;
    var last := |ops| - 1;
    var k := folder.id;
    forall j | 0 <= j < last
      ensures Spares(ops[..last][j], k, s.rows[k])
    {
      assert ops[..last][j] == ops[j];
      RefreshOpSpares(s, folder, updated, toRemove, j, k, s.rows[k]);
    }
    RunOpsLeavesRow(s, ops[..last], k);
    assert ops[last] == Update(ById(folder.id), FolderPatch(folder));
    BatchIsRun(s, ops, rejects);
  }

  /** The worked example of a folder refresh: folder 1 ("/Docs/") is pinned and holds
      "/Docs/a.txt" (id 2); the listing brings a.txt unchanged and a new b.txt. */
  function ExampleDocs(): Node {
    Node(1, ROOT_PARENT_ID, "/Docs/", true, None, AvailableOffline, None, "e1")
  }

  function ExampleA(): Node {
    Node(2, 1, "/Docs/a.txt", false, None, AvailableOfflineParent, None, "e2")
  }

  function ExampleB(): Node {
    Node(NO_ID, 1, "/Docs/b.txt", false, None, NotAvailableOffline, None, "e3")
  }

  function ExampleStore(): Store {
    Store(map[1 := ExampleDocs(), 2 := ExampleA()], 3)
  }

  /** The batch the example refresh prepares: update a.txt by its id, insert b.txt with
      the inherited status, update the folder. */
  lemma ExampleRefreshOps()
    ensures ReconcileOps(ExampleStore(), ExampleDocs(), [ExampleA(), ExampleB()], []) == Ok([
      Update(ById(2), MetadataPatch(ExampleA(), 1)),
      Insert(NewRow(ExampleB(), 1, AvailableOfflineParent)),
      Update(ById(1), FolderPatch(ExampleDocs()))])
  {
    var docs, a, b, s := ExampleDocs(), ExampleA(), ExampleB(), ExampleStore();
    assert OfflineAncestorOf(s, b) == Found(1) by {
      assert AncestorWalk(s, 1, s.rows.Keys) == Found(1);
    }
    assert !ExistsByPath(s, b.path) by {
      forall k | k in s.rows
        ensures s.rows[k].path != b.path
      {
        assert k == 1 || k == 2;
      }
    }
    assert IsKnown(s, a);
    assert ChildOp(s, docs, a) == Ok(Update(ById(2), MetadataPatch(a, 1)));
    assert ChildOp(s, docs, b) == Ok(Insert(NewRow(b, 1, AvailableOfflineParent)));
    var children := ChildOps(s, docs, [a, b]);
    assert children.Ok? && children.value == [
      Update(ById(2), MetadataPatch(a, 1)), Insert(NewRow(b, 1, AvailableOfflineParent))];
    assert Owned(docs, []) == [] && RemovalOps([]) == [];
    assert ReconcileOps(s, docs, [a, b], []) == Ok(children.value + [] + [Update(ById(1), FolderPatch(docs))]);
    assert children.value + [] + [Update(ById(1), FolderPatch(docs))] == [
      Update(ById(2), MetadataPatch(a, 1)), Insert(NewRow(b, 1, AvailableOfflineParent)),
      Update(ById(1), FolderPatch(docs))];
  }

  /** A provider that takes every operation. */
  function RejectsNothing(op: Op): bool {
    false
  }

  /** Applying the example batch, taken by the provider as a whole. */
  lemma ExampleRefreshApply(s: Store, o0: Op, o1: Op, o2: Op)
    requires s == ExampleStore()
    requires o0 == Update(ById(2), MetadataPatch(ExampleA(), 1))
    requires o1 == Insert(NewRow(ExampleB(), 1, AvailableOfflineParent))
    requires o2 == Update(ById(1), FolderPatch(ExampleDocs()))
    ensures
      var out := ApplyBatch(s, [o0, o1, o2], RejectsNothing);
      && out.Applied?
      && out.results[1] == InsertedAs(3)
      && 2 in out.store.rows && out.store.rows[2] == ExampleA()
      && 3 in out.store.rows && out.store.rows[3].offline == AvailableOfflineParent
      && out.store.rows[3].parent == 1
  {
    ExampleRefreshSteps(s, o0, o1, o2);
    BatchOfThree(s, o0, o1, o2, RejectsNothing);
  }

  /** The three operations of the example one after the other. */
  lemma ExampleRefreshSteps(s: Store, o0: Op, o1: Op, o2: Op)
    requires s == ExampleStore()
    requires o0 == Update(ById(2), MetadataPatch(ExampleA(), 1))
    requires o1 == Insert(NewRow(ExampleB(), 1, AvailableOfflineParent))
    requires o2 == Update(ById(1), FolderPatch(ExampleDocs()))
    ensures
      var (s1, r0) := ApplyOp(s, o0);
      var (s2, r1) := ApplyOp(s1, o1);
      var (s3, r2) := ApplyOp(s2, o2);
      && r1 == InsertedAs(3)
      && 2 in s3.rows && s3.rows[2] == ExampleA()
      && 3 in s3.rows && s3.rows[3].offline == AvailableOfflineParent && s3.rows[3].parent == 1
  {
    var a := ExampleA();
    var (s1, r0) := ApplyOp(s, o0);
    assert s1.rows[2] == a by {
      assert 2 in Selected(s, o0.sel);
    }
    var (s2, r1) := ApplyOp(s1, o1);
    assert r1 == InsertedAs(3) && s2.rows[2] == a && 3 in s2.rows by {
      assert s1.next == 3;
    }
    assert s2.rows[3].offline == AvailableOfflineParent && s2.rows[3].parent == 1;
    var (s3, r2) := ApplyOp(s2, o2);
    assert s3.rows[2] == a && s3.rows[3] == s2.rows[3] by {
      assert 2 !in Selected(s2, o2.sel) && 3 !in Selected(s2, o2.sel);
    }
  }

  /** A batch of three operations none of which is refused is the three applied in turn. */
  lemma BatchOfThree(s: Store, o0: Op, o1: Op, o2: Op, f: Op -> bool)
    requires !f(o0) && !f(o1) && !f(o2)
    ensures
      var (s1, r0) := ApplyOp(s, o0);
      var (s2, r1) := ApplyOp(s1, o1);
      var (s3, r2) := ApplyOp(s2, o2);
      ApplyBatch(s, [o0, o1, o2], f) == Applied(s3, [r0, r1, r2])
  {
    var (s1, r0) := ApplyOp(s, o0);
    var (s2, r1) := ApplyOp(s1, o1);
    var (s3, r2) := ApplyOp(s2, o2);
    assert ApplyBatch(s2, [o2], f) == Applied(s3, [r2]) by {
      assert [o2][1..] == [];
    }
    assert ApplyBatch(s1, [o1, o2], f) == Applied(s3, [r1, r2]) by {
      assert [o1, o2][1..] == [o2];
    }
    assert [o0, o1, o2][1..] == [o1, o2];
  }

  /** The refresh leaves a.txt's row as it was and inserts b.txt as id 3, inheriting the pin. */
  lemma ExampleRefreshInheritsPin()
    ensures ReconcileOps(ExampleStore(), ExampleDocs(), [ExampleA(), ExampleB()], []).Ok?
    ensures
      var ops := ReconcileOps(ExampleStore(), ExampleDocs(), [ExampleA(), ExampleB()], []).value;
      var out := ApplyBatch(ExampleStore(), ops, RejectsNothing);
      && out.Applied?
      && out.results[1] == InsertedAs(3)
      && 2 in out.store.rows && out.store.rows[2] == ExampleA()
      && 3 in out.store.rows && out.store.rows[3].offline == AvailableOfflineParent
      && out.store.rows[3].parent == 1
  {
    ExampleRefreshOps();
    ExampleRefreshApply(ExampleStore(), Update(ById(2), MetadataPatch(ExampleA(), 1)),
      Insert(NewRow(ExampleB(), 1, AvailableOfflineParent)), Update(ById(1), FolderPatch(ExampleDocs())));
  }
}
