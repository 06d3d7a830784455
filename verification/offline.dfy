/** Available-offline propagation: the status a newly inserted row inherits from its
    nearest pinned ancestor, the cascade of a folder's new status over its descendants,
    and the folder listing filtered to available-offline rows.
 */
module OfflineAvailability {
  import opened Outcomes
  import opened NodeStore

  /** Outcome of a search up the parent chain. `Endless` stands for the source's
      recursion on a chain that comes back to a row it passed: it recurses until the
      stack overflows. */
  datatype Search = Found(id: Id) | NotFound | Endless

  /** A folder row the user pinned. */
  predicate IsOfflineFolder(s: Store, k: Id) {
    k in s.rows && s.rows[k].isFolder && s.rows[k].offline == AvailableOffline
  }

  /** A row the ancestor search climbs past: an unpinned folder other than the root. */
  predicate Passable(s: Store, k: Id) {
    k in s.rows && s.rows[k].isFolder && s.rows[k].offline != AvailableOffline && s.rows[k].path != ROOT_PATH
  }

  /** `c` follows parent links, every element but the last being a row the search climbs past. */
  ghost predicate Climbs(s: Store, c: seq<Id>) {
    forall i :: 0 <= i < |c| - 1 ==> Passable(s, c[i]) && c[i + 1] == s.rows[c[i]].parent
  }

  /** The search from row `k` upwards; `unvisited` holds the rows not passed yet. */
  function AncestorWalk(s: Store, k: Id, unvisited: set<Id>): (r: Search)
    ensures r.Found? ==> IsOfflineFolder(s, r.id)
    decreases unvisited
  {
    if k !in s.rows || !s.rows[k].isFolder then NotFound
    else if s.rows[k].offline == AvailableOffline then Found(k)
    else if s.rows[k].path == ROOT_PATH then NotFound
    else if k !in unvisited then Endless
    else AncestorWalk(s, s.rows[k].parent, unvisited - {k})
  }

  /** getAvailableOfflineAncestorOf: the nearest strict ancestor that is exactly
      AVAILABLE_OFFLINE, reached through the file's parent id. */
  function OfflineAncestorOf(s: Store, file: Node): (r: Search)
    ensures r.Found? ==> IsOfflineFolder(s, r.id)
  {
    AncestorWalk(s, file.parent, s.rows.Keys)
  }

  /** A found ancestor is reached from the start by climbing past unpinned folders only:
      it is the nearest pinned one. */
  lemma {:induction false} WalkFoundIsNearest(s: Store, k: Id, unvisited: set<Id>)
    requires AncestorWalk(s, k, unvisited).Found?
    ensures exists c :: |c| > 0 && c[0] == k && Climbs(s, c) && c[|c| - 1] == AncestorWalk(s, k, unvisited).id
    decreases unvisited
  {
    var a := AncestorWalk(s, k, unvisited).id;
    if IsOfflineFolder(s, k) {
      assert Climbs(s, [k]);
    } else {
      var p := s.rows[k].parent;
      WalkFoundIsNearest(s, p, unvisited - {k});
      var c :| |c| > 0 && c[0] == p && Climbs(s, c) && c[|c| - 1] == a;
      var c' := [k] + c;
      forall i | 0 <= i < |c'| - 1
        ensures Passable(s, c'[i]) && c'[i + 1] == s.rows[c'[i]].parent
      {
        if i > 0 {
          assert c'[i] == c[i - 1] && c'[i + 1] == c[i];
        }
      }
      assert c'[|c'| - 1] == a;
    }
  }

  /** When nothing is found, no row reachable by climbing past unpinned folders is pinned. */
  lemma {:induction false} WalkNotFoundIsComplete(s: Store, k: Id, unvisited: set<Id>)
    requires AncestorWalk(s, k, unvisited).NotFound?
    ensures forall c :: |c| > 0 && c[0] == k && Climbs(s, c) ==> !IsOfflineFolder(s, c[|c| - 1])
    decreases unvisited
  {
    forall c | |c| > 0 && c[0] == k && Climbs(s, c)
      ensures !IsOfflineFolder(s, c[|c| - 1])
    {
      if |c| > 1 {
        var p := s.rows[k].parent;
        WalkNotFoundIsComplete(s, p, unvisited - {k});
        var c' := c[1..];
        forall i | 0 <= i < |c'| - 1
          ensures Passable(s, c'[i]) && c'[i + 1] == s.rows[c'[i]].parent
        {
          assert c'[i] == c[i + 1] && c'[i + 1] == c[i + 2];
        }
        assert c'[0] == p && c'[|c'| - 1] == c[|c| - 1];
      }
    }
  }

  /** The search only fails to end when the climb comes back to a row it passed. */
  lemma {:induction false} WalkUnboundedLoops(s: Store, k: Id, unvisited: set<Id>)
    requires AncestorWalk(s, k, unvisited).Endless?
    ensures exists c :: (|c| > 0 && c[0] == k && Climbs(s, c) && Passable(s, c[|c| - 1])
      && (c[|c| - 1] !in unvisited || c[|c| - 1] in c[..|c| - 1]))
    decreases unvisited
  {
    if k !in unvisited {
      assert Climbs(s, [k]);
      assert [k][0] == k;
    } else {
      var p := s.rows[k].parent;
      WalkUnboundedLoops(s, p, unvisited - {k});
      var c :| |c| > 0 && c[0] == p && Climbs(s, c) && Passable(s, c[|c| - 1])
        && (c[|c| - 1] !in unvisited - {k} || c[|c| - 1] in c[..|c| - 1]);
      var c' := [k] + c;
      forall i | 0 <= i < |c'| - 1
        ensures Passable(s, c'[i]) && c'[i + 1] == s.rows[c'[i]].parent
      {
        if i > 0 {
          assert c'[i] == c[i - 1] && c'[i + 1] == c[i];
        }
      }
      var last := c[|c| - 1];
      assert c'[|c'| - 1] == last;
      assert c'[..|c'| - 1] == [k] + c[..|c| - 1];
    }
  }

  /** getAvailableOfflineAncestorOf overflows the stack only on a cyclic parent chain. */
  lemma OfflineAncestorUnboundedOnlyOnCycle(s: Store, file: Node)
    requires OfflineAncestorOf(s, file).Endless?
    ensures exists c :: |c| > 1 && c[0] == file.parent && Climbs(s, c) && c[|c| - 1] in c[..|c| - 1]
  {
    WalkUnboundedLoops(s, file.parent, s.rows.Keys);
    var c :| |c| > 0 && c[0] == file.parent && Climbs(s, c) && Passable(s, c[|c| - 1])
      && (c[|c| - 1] !in s.rows.Keys || c[|c| - 1] in c[..|c| - 1]);
    assert c[|c| - 1] in c[..|c| - 1];
  }

  /** In a climb that stops at a row it cannot pass, the rows passed are all distinct. */
  lemma {:induction false} ClimbShift(s: Store, c: seq<Id>, i: nat, j: nat, t: nat)
    requires Climbs(s, c) && i < j && j + t < |c| && c[i] == c[j]
    ensures c[i + t] == c[j + t]
    decreases t
  {
    if t > 0 {
      ClimbShift(s, c, i, j, t - 1);
      assert c[i + t] == s.rows[c[i + t - 1]].parent;
    }
  }

  lemma ClimbToStopIsSimple(s: Store, c: seq<Id>)
    requires |c| > 0 && Climbs(s, c) && !Passable(s, c[|c| - 1])
    ensures forall i, j :: 0 <= i < j < |c| - 1 ==> c[i] != c[j]
  {
    forall i, j | 0 <= i < j < |c| - 1
      ensures c[i] != c[j]
    {
      if c[i] == c[j] {
        ClimbShift(s, c, i, j, |c| - 1 - j);
        assert false;
      }
    }
  }

  /** Conversely, climbing past distinct unpinned folders to a pinned one finds it. */
  lemma {:induction false} WalkFollowsClimb(s: Store, c: seq<Id>, unvisited: set<Id>)
    requires |c| > 0 && Climbs(s, c) && IsOfflineFolder(s, c[|c| - 1])
    requires forall i :: 0 <= i < |c| - 1 ==> c[i] in unvisited
    requires forall i, j :: 0 <= i < j < |c| - 1 ==> c[i] != c[j]
    ensures AncestorWalk(s, c[0], unvisited) == Found(c[|c| - 1])
    decreases |c|
  {
    if |c| > 1 {
      var c' := c[1..];
      forall i | 0 <= i < |c'| - 1
        ensures Passable(s, c'[i]) && c'[i + 1] == s.rows[c'[i]].parent
      {
        assert c'[i] == c[i + 1] && c'[i + 1] == c[i + 2];
      }
      forall i | 0 <= i < |c'| - 1
        ensures c'[i] in unvisited - {c[0]}
      {
        assert c'[i] == c[i + 1];
      }
      WalkFollowsClimb(s, c', unvisited - {c[0]});
    }
  }

  /** setInitialAvailableOfflineStatus: a newly inserted row inherits AVAILABLE_OFFLINE_PARENT
      when some ancestor is pinned, and is NOT_AVAILABLE_OFFLINE otherwise; never pinned itself.
      On a cyclic parent chain the search overflows the stack, and the caller with it. */
  function InitialStatus(s: Store, file: Node): (r: Result<OfflineStatus>)
    ensures r.Ok? ==> r.value != AvailableOffline
    ensures r.Ok? ==> (r.value == AvailableOfflineParent <==> OfflineAncestorOf(s, file).Found?)
    ensures r.Err? <==> OfflineAncestorOf(s, file).Endless?
    ensures r.Err? ==> r.failure == Unbounded
  {
    match OfflineAncestorOf(s, file)
    case Found(_) => Ok(AvailableOfflineParent)
    case NotFound => Ok(NotAvailableOffline)
    case Endless => Err(Unbounded)
  }

  /** An inserted row inherits AVAILABLE_OFFLINE_PARENT exactly when climbing its parent
      chain past unpinned folders reaches a pinned folder. */
  lemma InitialStatusMatchesAncestry(s: Store, file: Node)
    requires InitialStatus(s, file).Ok?
    ensures InitialStatus(s, file).value == AvailableOfflineParent <==>
      exists c :: |c| > 0 && c[0] == file.parent && Climbs(s, c) && IsOfflineFolder(s, c[|c| - 1])
  {
    var w := OfflineAncestorOf(s, file);
    if w.Found? {
      WalkFoundIsNearest(s, file.parent, s.rows.Keys);
    } else {
      WalkNotFoundIsComplete(s, file.parent, s.rows.Keys);
    }
  }

  /** selectionForAllDescendantsOf: rows whose path extends the file's path by at least one character. */
  function DescendantsOf(file: Node): (sel: Selection)
    ensures forall k, n :: Selects(sel, k, n) <==> file.path < n.path
  {
    StrictDescendantsOf(file.path)
  }

  /** The status the cascade writes on every strict descendant: the resolver branch derives
      it from the new status, the provider-client branch always unsets. */
  function CascadeStatus(newStatus: OfflineStatus, viaResolver: bool): OfflineStatus {
    if viaResolver && newStatus == AvailableOffline then AvailableOfflineParent else NotAvailableOffline
  }

  function OfflinePatch(st: OfflineStatus): Patch {
    NoChange.(offline := Some(st))
  }

  datatype StatusSaved = StatusSaved(store: Store, updated: bool)

  /** Whether row `n` lies in the cascade range of a status change on `file`. */
  predicate InCascade(file: Node, n: Node) {
    file.isFolder && file.path < n.path
  }

  /** saveLocalAvailableOfflineStatus. `viaResolver` picks the ContentResolver branch
      (true) or the ContentProviderClient branch (false). */
  function SaveLocalAvailableOfflineStatus(s: Store, file: Node, viaResolver: bool): (r: Result<StatusSaved>)
    ensures file.id !in s.rows ==> r == Ok(StatusSaved(s, false))
    ensures file.id in s.rows && file.offline == AvailableOfflineParent ==> r == Err(IllegalArgument)
    ensures r.Err? <==> file.id in s.rows && file.offline == AvailableOfflineParent
    ensures r.Err? ==> r.failure == IllegalArgument
    ensures r.Ok? ==> (r.value.updated <==> file.id in s.rows)
    ensures r.Ok? ==> r.value.store.next == s.next && r.value.store.rows.Keys == s.rows.Keys
    ensures r.Ok? ==> forall k :: k in s.rows ==>
      r.value.store.rows[k] == s.rows[k].(offline := r.value.store.rows[k].offline)
    ensures r.Ok? && file.id in s.rows ==> forall k :: k in s.rows && InCascade(file, s.rows[k]) ==>
      r.value.store.rows[k].offline == CascadeStatus(file.offline, viaResolver)
    ensures r.Ok? && file.id in s.rows && !InCascade(file, s.rows[file.id]) ==>
      r.value.store.rows[file.id].offline == file.offline
    ensures r.Ok? ==> forall k :: k in s.rows && k != file.id && !InCascade(file, s.rows[k]) ==>
      r.value.store.rows[k] == s.rows[k]
  {
    if file.id !in s.rows then Ok(StatusSaved(s, false))
    else if file.offline == AvailableOfflineParent then Err(IllegalArgument)
    else
      var (s1, res) := ApplyOp(s, Update(ById(file.id), OfflinePatch(file.offline)));
      assert Selected(s, ById(file.id)) == {file.id};
      var count := res.count;
      if file.isFolder && count > 0 then
        var (s2, res2) := ApplyOp(s1, Update(DescendantsOf(file), OfflinePatch(CascadeStatus(file.offline, viaResolver))));
        Ok(StatusSaved(s2, count + res2.count > 0))
      else
        Ok(StatusSaved(s1, count > 0))
  }

  /** Pinning a folder through the resolver makes it the nearest pinned ancestor of every
      row whose parent chain climbs to it through folders inside its subtree. */
  lemma PinnedFolderIsInherited(s: Store, file: Node, n: Node, c: seq<Id>)
    requires file.id in s.rows && file.isFolder && file.offline == AvailableOffline && |file.path| > 0
    requires s.rows[file.id].isFolder && s.rows[file.id].path == file.path
    requires |c| > 0 && c[0] == n.parent && c[|c| - 1] == file.id
    requires forall i :: 0 <= i < |c| - 1 ==>
      c[i] in s.rows && s.rows[c[i]].isFolder && file.path < s.rows[c[i]].path && s.rows[c[i]].parent == c[i + 1]
    ensures SaveLocalAvailableOfflineStatus(s, file, true).Ok?
    ensures OfflineAncestorOf(SaveLocalAvailableOfflineStatus(s, file, true).value.store, n) == Found(file.id)
  {
    var s' := SaveLocalAvailableOfflineStatus(s, file, true).value.store;
    forall i | 0 <= i < |c| - 1
      ensures Passable(s', c[i]) && c[i + 1] == s'.rows[c[i]].parent
    {
      assert InCascade(file, s.rows[c[i]]);
      assert |s'.rows[c[i]].path| > 1;
    }
    assert Climbs(s', c);
    assert IsOfflineFolder(s', file.id);
    ClimbToStopIsSimple(s', c);
    WalkFollowsClimb(s', c, s'.rows.Keys);
  }

  /** getFolderContent: the children of a saved folder (by parent id), optionally only those
      available offline by themselves or by inheritance. */
  function FolderContent(s: Store, f: Option<Node>, onlyAvailableOffline: bool): (r: set<Id>)
    ensures f.None? || !f.value.isFolder || f.value.id == NO_ID ==> r == {}
    ensures forall k :: k in r ==> k in s.rows && s.rows[k].parent == f.value.id
    ensures onlyAvailableOffline ==> forall k :: k in r ==> s.rows[k].offline != NotAvailableOffline
    ensures f.Some? && f.value.isFolder && f.value.id != NO_ID ==>
      forall k :: (k in s.rows && s.rows[k].parent == f.value.id &&
                   (!onlyAvailableOffline || s.rows[k].offline != NotAvailableOffline)) ==> k in r
  {
    if f.Some? && f.value.isFolder && f.value.id != NO_ID then
      set k | k in s.rows && s.rows[k].parent == f.value.id
        && (!onlyAvailableOffline || s.rows[k].offline == AvailableOffline || s.rows[k].offline == AvailableOfflineParent)
    else {}
  }

  /** The offline-only listing is exactly the full listing restricted to rows whose status
      is not NOT_AVAILABLE_OFFLINE. */
  lemma OfflineListingIsFilteredListing(s: Store, f: Option<Node>)
    ensures FolderContent(s, f, true) == set k | k in FolderContent(s, f, false) && s.rows[k].offline != NotAvailableOffline
  {
  }

  /** After a folder is pinned through the resolver, its offline-only listing shows every
      child that sits in its path subtree. */
  lemma PinnedFolderListsChildrenOffline(s: Store, file: Node, k: Id)
    requires file.id in s.rows && file.isFolder && file.offline == AvailableOffline && file.id != NO_ID
    requires k in s.rows && s.rows[k].parent == file.id && file.path < s.rows[k].path
    ensures SaveLocalAvailableOfflineStatus(s, file, true).Ok?
    ensures k in FolderContent(SaveLocalAvailableOfflineStatus(s, file, true).value.store, Some(file), true)
  {
    var s' := SaveLocalAvailableOfflineStatus(s, file, true).value.store;
    assert InCascade(file, s.rows[k]);
    assert s'.rows[k].offline == AvailableOfflineParent;
  }
}
