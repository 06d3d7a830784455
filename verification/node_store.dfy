/** The file table of one account, as the content provider keeps it: rows keyed by a
    numeric id, point and range selections over them, and the batch of insert, update
    and delete operations that the provider applies as one all-or-nothing unit.

    Every query and update of FileDataStorageManager is scoped to the manager's one
    account; the model holds that account's rows only, so the account column is gone.
 */
module NodeStore {
  import opened Outcomes

  type Id = int

  /** Parent id of the root folder; no row ever carries it as its own id. */
  const ROOT_PARENT_ID: Id := 0
  /** Id of a file object that has not been saved yet. */
  const NO_ID: Id := -1
  /** Remote path (and file name) of the root folder. */
  const ROOT_PATH: string := "/"

  /** The three values of the "keep in sync" column. */
  datatype OfflineStatus = NotAvailableOffline | AvailableOffline | AvailableOfflineParent

  /** One row of the file table, or one in-memory file object of a caller.
      `storage` is the local copy's path and `conflict` the etag in conflict; both are
      nullable columns. `etag` stands for the remote metadata columns (etag, tree etag,
      timestamps, permissions, ...) that every save refreshes as a block. */
  datatype Node = Node(
    id: Id,
    parent: Id,
    path: string,
    isFolder: bool,
    storage: Option<string>,
    offline: OfflineStatus,
    conflict: Option<string>,
    etag: string)

  /** The rows, and the id the next insert receives. */
  datatype Store = Store(rows: map<Id, Node>, next: Id)

  /** Ids are positive, below the next id to assign, and each row knows its own id. */
  ghost predicate Valid(s: Store) {
    && 0 < s.next
    && forall k :: k in s.rows ==> 0 < k < s.next && s.rows[k].id == k
  }

  /** A set of column values to write (a ContentValues): `None` leaves the column alone. */
  datatype Patch = Patch(
    parent: Option<Id>,
    path: Option<string>,
    isFolder: Option<bool>,
    storage: Option<Option<string>>,
    offline: Option<OfflineStatus>,
    conflict: Option<Option<string>>,
    etag: Option<string>)

  const NoChange := Patch(None, None, None, None, None, None, None)

  function Pick<T>(o: Option<T>, old_: T): T {
    match o
    case Some(v) => v
    case None => old_
  }

  /** The row after writing the patch's columns into it; the id is never written. */
  function Patched(n: Node, p: Patch): Node {
    Node(n.id, Pick(p.parent, n.parent), Pick(p.path, n.path), Pick(p.isFolder, n.isFolder),
         Pick(p.storage, n.storage), Pick(p.offline, n.offline), Pick(p.conflict, n.conflict),
         Pick(p.etag, n.etag))
  }

  /** The WHERE clauses the core uses. `StrictDescendantsOf(p)` is `path LIKE p + "_%"`:
      the path extends `p` by at least one character (SQL LIKE read as a plain prefix test). */
  datatype Selection =
    | ById(id: Id)
    | ByIds(ids: set<Id>)
    | ByPath(path: string)
    | StrictDescendantsOf(prefix: string)

  predicate Selects(sel: Selection, k: Id, n: Node) {
    match sel
    case ById(id) => k == id
    case ByIds(ids) => k in ids
    case ByPath(p) => n.path == p
    case StrictDescendantsOf(prefix) => prefix < n.path
  }

  function Selected(s: Store, sel: Selection): set<Id> {
    set k | k in s.rows && Selects(sel, k, s.rows[k])
  }

  datatype Op = Insert(row: Node) | Update(sel: Selection, patch: Patch) | Delete(sel: Selection)

  /** What the provider reports per operation: the new row's id for an insert (the URI),
      the number of rows touched otherwise. */
  datatype OpResult = InsertedAs(id: Id) | Affected(count: nat)

  /** One operation on its own. */
  function ApplyOp(s: Store, op: Op): (r: (Store, OpResult))
    ensures op.Insert? ==> r.1 == InsertedAs(s.next) && r.0.next == s.next + 1
    ensures op.Insert? ==> r.0.rows == s.rows[s.next := op.row.(id := s.next)]
    ensures !op.Insert? ==> r.0.next == s.next && r.1 == Affected(|Selected(s, op.sel)|)
    ensures op.Update? ==> r.0.rows.Keys == s.rows.Keys
    ensures op.Update? ==> forall k :: k in s.rows ==>
      r.0.rows[k] == (if k in Selected(s, op.sel) then Patched(s.rows[k], op.patch) else s.rows[k])
    ensures op.Delete? ==> r.0.rows.Keys == s.rows.Keys - Selected(s, op.sel)
    ensures op.Delete? ==> forall k :: k in r.0.rows ==> r.0.rows[k] == s.rows[k]
  {
    match op
    case Insert(row) =>
      (Store(s.rows[s.next := row.(id := s.next)], s.next + 1), InsertedAs(s.next))
    case Update(sel, patch) =>
      var rows := map k | k in s.rows ::
        if Selects(sel, k, s.rows[k]) then Patched(s.rows[k], patch) else s.rows[k];
      (Store(rows, s.next), Affected(|Selected(s, sel)|))
    case Delete(sel) =>
      var rows := map k | k in s.rows && !Selects(sel, k, s.rows[k]) :: s.rows[k];
      assert rows.Keys == s.rows.Keys - Selected(s, sel);
      (Store(rows, s.next), Affected(|Selected(s, sel)|))
  }

  lemma ApplyOpKeepsValid(s: Store, op: Op)
    requires Valid(s)
    ensures Valid(ApplyOp(s, op).0)
  {
  }

  /** Outcome of a batch: every operation applied in order with its result, or the
      provider refused the batch and nothing at all changed. */
  datatype BatchOutcome = Applied(store: Store, results: seq<OpResult>) | Rejected

  /** applyBatch: the provider refuses an operation when `rejects` says so (its own rule
      is not part of this model); one refusal discards the whole batch. */
  function ApplyBatch(s: Store, ops: seq<Op>, rejects: Op -> bool): (r: BatchOutcome)
    ensures r.Rejected? <==> exists i :: 0 <= i < |ops| && rejects(ops[i])
    ensures r.Applied? ==> |r.results| == |ops| && s.next <= r.store.next
    ensures r.Applied? ==> forall i :: 0 <= i < |ops| ==> (r.results[i].InsertedAs? <==> ops[i].Insert?)
    ensures r.Applied? ==> forall i :: 0 <= i < |ops| && r.results[i].InsertedAs? ==>
      s.next <= r.results[i].id < r.store.next
    ensures r.Applied? ==> forall i, j :: 0 <= i < j < |ops| && r.results[i].InsertedAs? && r.results[j].InsertedAs? ==>
      r.results[i].id < r.results[j].id
    ensures r.Applied? && Valid(s) ==> Valid(r.store)
    decreases |ops|
  {
    if ops == [] then Applied(s, [])
    else if rejects(ops[0]) then Rejected
    else
      var (s1, r1) := ApplyOp(s, ops[0]);
      ApplyOpKeepsValid2(s, ops[0]);
      match ApplyBatch(s1, ops[1..], rejects)
      case Rejected =>
        assert forall i :: 1 <= i < |ops| ==> ops[i] == ops[1..][i - 1];
        Rejected
      case Applied(s2, rs) =>
        assert forall i :: 1 <= i < |ops| ==> ops[i] == ops[1..][i - 1] && ([r1] + rs)[i] == rs[i - 1];
        Applied(s2, [r1] + rs)
  }

  /** The reference reading of a batch: the operations run one after another, the last
      one last, with no refusal. */
  function RunOps(s: Store, ops: seq<Op>): (t: Store)
    ensures s.next <= t.next
    decreases |ops|
  {
    if ops == [] then s else ApplyOp(RunOps(s, ops[..|ops| - 1]), ops[|ops| - 1]).0
  }

  /** Running `a` and then `b` is running `a + b`. */
  lemma {:induction false} RunOpsAppend(s: Store, a: seq<Op>, b: seq<Op>)
    ensures RunOps(s, a + b) == RunOps(RunOps(s, a), b)
    decreases |b|
  {
    if b == [] {
      assert a + b == a;
    } else {
      var ab := a + b;
      assert ab[..|ab| - 1] == a + b[..|b| - 1];
      assert ab[|ab| - 1] == b[|b| - 1];
      RunOpsAppend(s, a, b[..|b| - 1]);
    }
  }

  /** Running a non-empty batch is its first operation, then the rest. */
  lemma RunOpsCons(s: Store, ops: seq<Op>)
    requires ops != []
    ensures RunOps(s, ops) == RunOps(ApplyOp(s, ops[0]).0, ops[1..])
  {
    RunOpsAppend(s, [ops[0]], ops[1..]);
    assert [ops[0]] + ops[1..] == ops;
    assert [ops[0]][..0] == [];
  }

  /** The id a taken batch reports for its i-th operation, an insert, is the next id of
      the table the operations before it left. */
  /** A taken batch leaves the table its operations leave when applied one by one. */
  lemma {:induction false} BatchIsRun(s: Store, ops: seq<Op>, rejects: Op -> bool)
    requires ApplyBatch(s, ops, rejects).Applied?
    ensures ApplyBatch(s, ops, rejects).store == RunOps(s, ops)
    decreases |ops|
  {
    if ops != [] {
      BatchIsRun(ApplyOp(s, ops[0]).0, ops[1..], rejects);
      RunOpsCons(s, ops);
    }
  }

  lemma {:induction false} BatchInsertIds(s: Store, ops: seq<Op>, rejects: Op -> bool, i: nat)
    requires ApplyBatch(s, ops, rejects).Applied?
    requires i < |ops| && ops[i].Insert?
    ensures ApplyBatch(s, ops, rejects).results[i] == InsertedAs(RunOps(s, ops[..i]).next)
    decreases |ops|
  {
    var s1 := ApplyOp(s, ops[0]).0;
    if i == 0 {
      assert ops[..0] == [];
    } else {
      assert ops[1..][i - 1] == ops[i];
      BatchInsertIds(s1, ops[1..], rejects, i - 1);
      var pre := ops[..i];
      assert pre[0] == ops[0];
      assert pre[1..] == ops[1..][..i - 1];
      RunOpsCons(s, pre);
    }
  }

  /** `op` leaves row `k`, currently `n`, alone: an insert lands on the next id, and any
      other operation does not select the row. */
  predicate Spares(op: Op, k: Id, n: Node) {
    op.Insert? || !Selects(op.sel, k, n)
  }

  /** A row that no operation of a run selects comes out of the run as it went in. */
  lemma {:induction false} RunOpsLeavesRow(s: Store, ops: seq<Op>, k: Id)
    requires k in s.rows && k < s.next
    requires forall i :: 0 <= i < |ops| ==> Spares(ops[i], k, s.rows[k])
    ensures k in RunOps(s, ops).rows && RunOps(s, ops).rows[k] == s.rows[k]
    decreases |ops|
  {
    if ops != [] {
      var init := ops[..|ops| - 1];
      assert forall i :: 0 <= i < |init| ==> init[i] == ops[i];
      RunOpsLeavesRow(s, init, k);
      assert Spares(ops[|ops| - 1], k, s.rows[k]);
    }
  }

  /** Deletes never bring a path back: once no row has it, none has it after them. */
  lemma {:induction false} DeletesKeepPathGone(s: Store, ops: seq<Op>, p: string)
    requires !ExistsByPath(s, p)
    requires forall i :: 0 <= i < |ops| ==> ops[i].Delete?
    ensures !ExistsByPath(RunOps(s, ops), p)
    decreases |ops|
  {
    if ops != [] {
      var init := ops[..|ops| - 1];
      assert forall i :: 0 <= i < |init| ==> init[i] == ops[i];
      DeletesKeepPathGone(s, init, p);
      assert ops[|ops| - 1].Delete?;
    }
  }

  /** A run splits around its i-th operation: the prefix, that operation, the rest. */
  lemma RunOpsSplit(s: Store, ops: seq<Op>, i: nat)
    requires i < |ops|
    ensures RunOps(s, ops) == RunOps(ApplyOp(RunOps(s, ops[..i]), ops[i]).0, ops[i + 1..])
  {
    assert ops[..i + 1] + ops[i + 1..] == ops;
    assert ops[..i + 1][..i] == ops[..i];
    RunOpsAppend(s, ops[..i + 1], ops[i + 1..]);
  }

  /** The row the i-th operation leaves at `k` is what the whole run leaves there, when
      no later operation selects it. */
  lemma RunOpsKeepsWrite(s: Store, ops: seq<Op>, i: nat, k: Id)
    requires i < |ops|
    requires k in ApplyOp(RunOps(s, ops[..i]), ops[i]).0.rows && k < ApplyOp(RunOps(s, ops[..i]), ops[i]).0.next
    requires forall j :: i < j < |ops| ==> Spares(ops[j], k, ApplyOp(RunOps(s, ops[..i]), ops[i]).0.rows[k])
    ensures k in RunOps(s, ops).rows
    ensures RunOps(s, ops).rows[k] == ApplyOp(RunOps(s, ops[..i]), ops[i]).0.rows[k]
  {
    var t1 := ApplyOp(RunOps(s, ops[..i]), ops[i]).0;
    var rest := ops[i + 1..];
    forall j | 0 <= j < |rest|
      ensures Spares(rest[j], k, t1.rows[k])
    {
      assert rest[j] == ops[i + 1 + j];
    }
    RunOpsSplit(s, ops, i);
    RunOpsLeavesRow(t1, rest, k);
  }

  /** A delete by path followed only by deletes leaves no row at that path. */
  lemma DeletedPathStaysGone(s: Store, ops: seq<Op>, d: nat, p: string)
    requires d < |ops| && ops[d] == Delete(ByPath(p))
    requires forall j :: d < j < |ops| ==> ops[j].Delete?
    ensures !ExistsByPath(RunOps(s, ops), p)
  {
    var t0 := ApplyOp(RunOps(s, ops[..d]), ops[d]).0;
    var rest := ops[d + 1..];
    forall j | 0 <= j < |rest|
      ensures rest[j].Delete?
    {
      assert rest[j] == ops[d + 1 + j];
    }
    RunOpsSplit(s, ops, d);
    DeletesKeepPathGone(t0, rest, p);
  }

  /** A delete by path followed by deletes and a last update that does not write the
      path leaves no row at that path. */
  lemma RemovalThenUpdateKeepsPathGone(s: Store, ops: seq<Op>, d: nat, p: string)
    requires d < |ops| - 1 && ops[d] == Delete(ByPath(p))
    requires forall j :: d < j < |ops| - 1 ==> ops[j].Delete?
    requires ops[|ops| - 1].Update? && ops[|ops| - 1].patch.path != Some(p)
    ensures !ExistsByPath(RunOps(s, ops), p)
  {
    var init := ops[..|ops| - 1];
    forall j | d < j < |init|
      ensures init[j].Delete?
    {
      assert init[j] == ops[j];
    }
    DeletedPathStaysGone(s, init, d, p);
    UpdateKeepsPathGone(RunOps(s, init), ops[|ops| - 1], p);
  }

  /** An update that does not write path `p` leaves no row at `p` when none was there. */
  lemma UpdateKeepsPathGone(s: Store, op: Op, p: string)
    requires !ExistsByPath(s, p)
    requires op.Update? && op.patch.path != Some(p)
    ensures !ExistsByPath(ApplyOp(s, op).0, p)
  {
    var t := ApplyOp(s, op).0;
    forall k | k in t.rows
      ensures t.rows[k].path != p
    {
      assert k in s.rows;
    }
  }

  lemma ApplyOpKeepsValid2(s: Store, op: Op)
    ensures Valid(s) ==> Valid(ApplyOp(s, op).0)
  {
    if Valid(s) {
      ApplyOpKeepsValid(s, op);
    }
  }

  /** OCFile.isDown reduced to the metadata it reads: the file has a local copy path.
      (The check that the bytes are on disk is not part of this model.) */
  predicate IsDown(n: Node) {
    n.storage.Some?
  }

  /** The local path a row yields when it is read back into a file object: the column is
      loaded for files only, so a folder's object never carries one. */
  function LoadedStorage(n: Node): (storage: Option<string>)
    ensures n.isFolder ==> storage.None?
    ensures !n.isFolder ==> storage == n.storage
  {
    if n.isFolder then None else n.storage
  }

  predicate ExistsById(s: Store, id: Id) {
    id in s.rows
  }

  predicate ExistsByPath(s: Store, p: string) {
    exists k :: k in s.rows && s.rows[k].path == p
  }

  lemma NonEmptyHasElement(xs: set<int>)
    requires xs != {}
    ensures exists x :: x in xs
  {
    if forall x :: x !in xs {
      assert false;
    }
  }

  lemma LeastExists(xs: set<int>)
    requires xs != {}
    ensures exists m :: m in xs && forall y :: y in xs ==> m <= y
  {
    NonEmptyHasElement(xs);
    var x :| x in xs;
    if xs != {x} {
      LeastExists(xs - {x});
      var m :| m in xs - {x} && forall y :: y in xs - {x} ==> m <= y;
      var least := if x < m then x else m;
      forall y | y in xs
        ensures least <= y
      {
        if y != x {
          assert y in xs - {x};
        }
      }
    }
  }

  /** The smallest element of a non-empty finite set of ids. */
  function Least(xs: set<int>): (m: int)
    requires xs != {}
    ensures m in xs && forall y :: y in xs ==> m <= y
  {
    LeastExists(xs);
    var m :| m in xs && forall y :: y in xs ==> m <= y; m
  }

  /** getFileByPath without the root bootstrap: the row the provider's cursor shows first
      for that path, read here as the smallest id carrying it. */
  function FindByPath(s: Store, p: string): (r: Option<Id>)
    ensures r.None? <==> !ExistsByPath(s, p)
    ensures r.Some? ==> r.value in s.rows && s.rows[r.value].path == p
    ensures r.Some? ==> forall k :: k in s.rows && s.rows[k].path == p ==> r.value <= k
  {
    var ids := set k | k in s.rows && s.rows[k].path == p;
    if ids == {} then
      assert forall k :: k in s.rows && s.rows[k].path == p ==> k in ids;
      None
    else
      var m := Least(ids);
      assert forall k :: k in s.rows && s.rows[k].path == p ==> k in ids;
      Some(m)
  }

  /** The ids of a finite set in ascending order. */
  function Ascending(xs: set<int>): (r: seq<int>)
    ensures |r| == |xs|
    ensures forall i :: 0 <= i < |r| ==> r[i] in xs
    ensures forall k :: k in xs ==> k in r
    ensures forall i, j :: 0 <= i < j < |r| ==> r[i] < r[j]
    decreases |xs|
  {
    if xs == {} then []
    else
      var m := Least(xs);
      var rest := Ascending(xs - {m});
      ConsAscending(m, rest, xs);
      [m] + rest
  }

  /** Putting the least element of `xs` in front of the others in ascending order keeps
      them ascending and covers `xs`. */
  lemma ConsAscending(m: int, rest: seq<int>, xs: set<int>)
    requires m in xs && forall y :: y in xs ==> m <= y
    requires forall i :: 0 <= i < |rest| ==> rest[i] in xs - {m}
    requires forall k :: k in xs - {m} ==> k in rest
    requires forall i, j :: 0 <= i < j < |rest| ==> rest[i] < rest[j]
    ensures forall i, j :: 0 <= i < j < |[m] + rest| ==> ([m] + rest)[i] < ([m] + rest)[j]
    ensures forall k :: k in xs ==> k in [m] + rest
    ensures forall i :: 0 <= i < |[m] + rest| ==> ([m] + rest)[i] in xs
  {
    var r := [m] + rest;
    forall i, j | 0 <= i < j < |r|
      ensures r[i] < r[j]
    {
      assert r[j] == rest[j - 1] && rest[j - 1] in xs - {m};
      if i > 0 {
        assert r[i] == rest[i - 1];
      }
    }
    forall k | k in xs
      ensures k in r
    {
      if k != m {
        assert k in xs - {m};
      }
    }
  }

  /** One update per id, each selecting its row by id. */
  function UpdatesById(ids: seq<Id>, patches: seq<Patch>): (ops: seq<Op>)
    requires |ids| == |patches|
    ensures |ops| == |ids|
    ensures forall i :: 0 <= i < |ids| ==> ops[i] == Update(ById(ids[i]), patches[i])
    decreases |ids|
  {
    if ids == [] then [] else [Update(ById(ids[0]), patches[0])] + UpdatesById(ids[1..], patches[1..])
  }

  /** Updates of distinct rows do not see each other: a taken batch of them leaves every
      listed row patched from its original value and every other row as it was. */
  lemma {:induction false} ApplyDistinctUpdates(s: Store, ids: seq<Id>, patches: seq<Patch>, rejects: Op -> bool)
    requires |ids| == |patches|
    requires forall i, j :: 0 <= i < j < |ids| ==> ids[i] != ids[j]
    requires ApplyBatch(s, UpdatesById(ids, patches), rejects).Applied?
    ensures var t := ApplyBatch(s, UpdatesById(ids, patches), rejects).store;
      && t.rows.Keys == s.rows.Keys
      && t.next == s.next
      && (forall i :: 0 <= i < |ids| && ids[i] in s.rows ==> t.rows[ids[i]] == Patched(s.rows[ids[i]], patches[i]))
      && (forall k :: k in s.rows && k !in ids ==> t.rows[k] == s.rows[k])
    decreases |ids|
  {
    var ops := UpdatesById(ids, patches);
    if ids != [] {
      var s1 := ApplyOp(s, ops[0]).0;
      assert ops[1..] == UpdatesById(ids[1..], patches[1..]);
      ApplyDistinctUpdates(s1, ids[1..], patches[1..], rejects);
      var t := ApplyBatch(s, ops, rejects).store;
      assert t == ApplyBatch(s1, ops[1..], rejects).store;
      forall i | 0 <= i < |ids| && ids[i] in s.rows
        ensures t.rows[ids[i]] == Patched(s.rows[ids[i]], patches[i])
      {
        if i > 0 {
          assert ids[i] == ids[1..][i - 1] && patches[i] == patches[1..][i - 1];
          assert ids[i] !in Selected(s, ById(ids[0]));
        } else {
          assert ids[0] !in ids[1..];
        }
      }
      forall k | k in s.rows && k !in ids
        ensures t.rows[k] == s.rows[k]
      {
        assert k !in ids[1..];
      }
    }
  }
}
