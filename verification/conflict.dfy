/** saveConflict: the etag-in-conflict mark of a file and its cached aggregate on the
    folders above it. Setting a mark copies it onto every ancestor found through the
    parent ids; clearing one climbs the ancestor paths as strings and clears each level
    at which no file below still carries a mark.
 */
module Conflict {
  import opened Outcomes
  import opened NodeStore

  /** Writes the conflict column only. */
  function ConflictPatch(marker: Option<string>): (p: Patch)
    ensures forall n :: Patched(n, p) == n.(conflict := marker)
  {
    NoChange.(conflict := Some(marker))
  }

  /** A mark is only kept for a file with a local copy to compare against. */
  function EffectiveMarker(file: Node, marker: Option<string>): (m: Option<string>)
    ensures m.Some? <==> IsDown(file) && marker.Some?
    ensures m.Some? ==> m == marker
  {
    if IsDown(file) then marker else None
  }

  // ---------------------------------------------------------------------------------
  // Setting a mark: the ancestors by parent id

  /** How the walk over parent ids ends: at the sentinel with the ids it collected, at an
      id with no row (getFileById returns null), or going round a cycle forever. */
  datatype Chain = Reached(ids: set<Id>) | MissingRow | Cycles

  /** Every member is a stored row other than the sentinel whose parent is the sentinel
      or again a member. */
  predicate ParentClosed(s: Store, xs: set<Id>) {
    forall x :: x in xs ==>
      x != ROOT_PARENT_ID && x in s.rows && (s.rows[x].parent == ROOT_PARENT_ID || s.rows[x].parent in xs)
  }

  /** The ids `k`, parent of `k`, ... up to (not including) ROOT_PARENT_ID. */
  function AncestorIds(s: Store, k: Id, unvisited: set<Id>): (r: Chain)
    ensures r.Reached? ==> ParentClosed(s, r.ids) && (k != ROOT_PARENT_ID ==> k in r.ids)
    ensures r.Reached? && k == ROOT_PARENT_ID ==> r.ids == {}
    ensures r.Reached? ==> forall xs :: ParentClosed(s, xs) && k in xs ==> r.ids <= xs
    ensures r.MissingRow? ==> k != ROOT_PARENT_ID && forall xs :: ParentClosed(s, xs) ==> k !in xs
    ensures r.Cycles? ==> k != ROOT_PARENT_ID && k in s.rows
    decreases unvisited
  {
    if k == ROOT_PARENT_ID then Reached({})
    else if k !in s.rows then MissingRow
    else if k !in unvisited then Cycles
    else
      match AncestorIds(s, s.rows[k].parent, unvisited - {k})
      case Reached(ids) => Reached({k} + ids)
      case MissingRow => MissingRow
      case Cycles => Cycles
  }

  /** The table after the mark is written into the file's own row. */
  function MarkFile(s: Store, file: Node, m: Option<string>): Store {
    s.(rows := map k | k in s.rows :: if k == file.id then s.rows[k].(conflict := m) else s.rows[k])
  }

  /** MarkFile is the provider update of the conflict column selected by the file's id. */
  lemma MarkFileIsUpdateById(s: Store, file: Node, m: Option<string>)
    ensures MarkFile(s, file, m) == ApplyOp(s, Update(ById(file.id), ConflictPatch(m))).0
  {
    var t := ApplyOp(s, Update(ById(file.id), ConflictPatch(m))).0;
    assert t.rows == MarkFile(s, file, m).rows;
  }

  // ---------------------------------------------------------------------------------
  // Clearing a mark: the ancestor paths as strings

  /** String.lastIndexOf('/'): the last position holding "/", or -1. */
  function LastSlash(u: string): (i: int)
    ensures -1 <= i < |u|
    ensures i >= 0 ==> u[i] == '/'
    ensures forall j :: i < j < |u| ==> u[j] != '/'
    decreases |u|
  {
    if u == [] then -1
    else if u[|u| - 1] == '/' then |u| - 1
    else LastSlash(u[..|u| - 1])
  }

  /** u.substring(0, u.lastIndexOf('/') + 1): the longest prefix of `u` that ends with
      "/", or "" when there is none. */
  function UpToLastSlash(u: string): (c: string)
    ensures c <= u
    ensures c == [] || c[|c| - 1] == '/'
  {
    u[..LastSlash(u) + 1]
  }

  /** No prefix of `u` that ends with "/" is longer than UpToLastSlash(u). */
  lemma UpToLastSlashIsLongest(u: string, x: string)
    ensures x <= u && |x| > 0 && x[|x| - 1] == '/' ==> |x| <= |UpToLastSlash(u)|
  {
    if x <= u && |x| > 0 && x[|x| - 1] == '/' {
      assert u[|x| - 1] == '/';
    }
  }

  /** The path with one trailing "/" removed (a folder's path ends with one). */
  function Trim(path: string): string {
    if |path| > 0 && path[|path| - 1] == '/' then path[..|path| - 1] else path
  }

  /** The first ancestor path the clear walk looks at. */
  function FirstAncestorPath(path: string): string {
    UpToLastSlash(Trim(path))
  }

  /** The next one up: drop the trailing "/", cut after the last "/". */
  function NextAncestorPath(p: string): (q: string)
    requires |p| > 0
    ensures |q| < |p|
  {
    UpToLastSlash(p[..|p| - 1])
  }

  /** The paths the walk visits from `p` on, nearest first. */
  function AncestorPaths(p: string): (r: seq<string>)
    ensures forall i, j :: 0 <= i < j < |r| ==> |r[j]| < |r[i]|
    ensures forall i :: 0 <= i < |r| ==> |r[i]| <= |p|
    decreases |p|
  {
    if |p| == 0 then [] else [p] + AncestorPaths(NextAncestorPath(p))
  }

  /** `x` is a folder path above `path`: a non-empty prefix of the trimmed path ending in "/". */
  predicate IsAncestorPath(x: string, path: string) {
    0 < |x| && x[|x| - 1] == '/' && x <= Trim(path)
  }

  /** A "/"-ended prefix of `u` shorter than its longest one is a prefix of that one
      without its last "/". */
  lemma ShorterSlashPrefix(u: string, x: string)
    requires x <= u && 0 < |x| && x[|x| - 1] == '/'
    requires x != UpToLastSlash(u)
    ensures 0 < |UpToLastSlash(u)| && x <= UpToLastSlash(u)[..|UpToLastSlash(u)| - 1]
  {
    var c := UpToLastSlash(u);
    UpToLastSlashIsLongest(u, x);
    SameLengthPrefixes(x, c, u);
    assert x == u[..|x|];
  }

  lemma SameLengthPrefixes(x: string, y: string, u: string)
    requires x <= u && y <= u
    ensures |x| == |y| ==> x == y
  {
  }

  lemma PrefixTrans(x: string, y: string, z: string)
    requires x <= y && y <= z
    ensures x <= z
  {
    assert x == z[..|x|] by {
      assert y == z[..|y|];
    }
  }

  /** Every path the walk visits from the longest "/"-ended prefix of `u` is a non-empty
      prefix of `u` ending in "/". */
  lemma {:induction false} AncestorPathsAreSlashPrefixesOf(u: string, x: string)
    ensures x in AncestorPaths(UpToLastSlash(u)) ==> 0 < |x| && x[|x| - 1] == '/' && x <= u
    decreases |u|
  {
    var c := UpToLastSlash(u);
    if |c| > 0 && x in AncestorPaths(c) && x != c {
      var u' := c[..|c| - 1];
      assert AncestorPaths(c) == [c] + AncestorPaths(UpToLastSlash(u'));
      AncestorPathsAreSlashPrefixesOf(u', x);
      PrefixTrans(x, u', c);
      PrefixTrans(x, c, u);
    }
  }

  /** Every non-empty prefix of `u` ending in "/" is visited by the walk that starts at the
      longest one. */
  lemma {:induction false} SlashPrefixesAreAncestorPaths(u: string, x: string)
    ensures 0 < |x| && x[|x| - 1] == '/' && x <= u ==> x in AncestorPaths(UpToLastSlash(u))
    decreases |u|
  {
    var c := UpToLastSlash(u);
    UpToLastSlashIsLongest(u, x);
    if 0 < |x| && x[|x| - 1] == '/' && x <= u && x != c {
      ShorterSlashPrefix(u, x);
      var u' := c[..|c| - 1];
      SlashPrefixesAreAncestorPaths(u', x);
      assert AncestorPaths(c) == [c] + AncestorPaths(UpToLastSlash(u'));
    }
  }

  /** The clear walk of a file visits exactly the folder paths above it. */
  lemma ClearWalkVisitsAncestorPaths(path: string)
    ensures forall x :: x in AncestorPaths(FirstAncestorPath(path)) <==> IsAncestorPath(x, path)
  {
    forall x
      ensures x in AncestorPaths(FirstAncestorPath(path)) <==> IsAncestorPath(x, path)
    {
      AncestorPathsAreSlashPrefixesOf(Trim(path), x);
      SlashPrefixesAreAncestorPaths(Trim(path), x);
    }
  }

  /** Row `k` is a file (not a folder) that carries a mark. */
  predicate Marked(s: Store, k: Id)
    requires k in s.rows
  {
    !s.rows[k].isFolder && s.rows[k].conflict.Some?
  }

  /** The query at each level: a file at or under `p` still carries a mark. */
  predicate HasConflictUnder(s: Store, p: string) {
    exists k :: k in s.rows && Marked(s, k) && p <= s.rows[k].path
  }

  /** The update of one level: clear the mark of the rows at exactly path `p`. */
  function ClearAt(s: Store, p: string): Store {
    s.(rows := map k | k in s.rows :: if s.rows[k].path == p then s.rows[k].(conflict := None) else s.rows[k])
  }

  /** ClearAt is the provider update of the conflict column selected by the path. */
  lemma ClearAtIsUpdateByPath(s: Store, p: string)
    ensures ClearAt(s, p) == ApplyOp(s, Update(ByPath(p), ConflictPatch(None))).0
  {
    ClearAtPatchesSelected(s, p);
    UpdateIsPatchOfSelected(s, ByPath(p), ConflictPatch(None));
  }

  /** The rows of `s` with `patch` written into the ones `sel` picks. */
  function PatchSelected(s: Store, sel: Selection, patch: Patch): Store {
    s.(rows := map k | k in s.rows :: if Selects(sel, k, s.rows[k]) then Patched(s.rows[k], patch) else s.rows[k])
  }

  lemma ClearAtPatchesSelected(s: Store, p: string)
    ensures ClearAt(s, p) == PatchSelected(s, ByPath(p), ConflictPatch(None))
  {
    assert ClearAt(s, p).rows == PatchSelected(s, ByPath(p), ConflictPatch(None)).rows;
  }

  lemma UpdateIsPatchOfSelected(s: Store, sel: Selection, patch: Patch)
    ensures ApplyOp(s, Update(sel, patch)).0 == PatchSelected(s, sel, patch)
  {
  }

  /** One level of the clear walk. */
  function ClearLevel(s: Store, p: string): (t: Store)
    ensures HasConflictUnder(s, p) ==> t == s
    ensures !HasConflictUnder(s, p) ==> t == ClearAt(s, p)
  {
    if HasConflictUnder(s, p) then s else ClearAt(s, p)
  }

  /** Clearing a level never changes the answer of a later query: it only clears rows at
      a path under which no marked file remains, so those rows are unmarked files or
      folders. */
  lemma ClearLevelKeepsQueries(s: Store, p: string, q: string)
    ensures HasConflictUnder(ClearLevel(s, p), q) == HasConflictUnder(s, q)
  {
    if !HasConflictUnder(s, p) {
      ClearAtKeepsMarks(s, p);
      SameMarksSameQueries(s, ClearAt(s, p), q);
    }
  }

  lemma ClearAtKeepsMarks(s: Store, p: string)
    requires !HasConflictUnder(s, p)
    ensures var t := ClearAt(s, p);
      t.rows.Keys == s.rows.Keys &&
      forall k :: k in s.rows ==> Marked(t, k) == Marked(s, k) && t.rows[k].path == s.rows[k].path
  {
    var t := ClearAt(s, p);
    forall k | k in s.rows
      ensures Marked(t, k) == Marked(s, k) && t.rows[k].path == s.rows[k].path
    {
      if s.rows[k].path == p {
        assert !Marked(s, k);
      }
    }
  }

  lemma SameMarksSameQueries(s: Store, t: Store, q: string)
    requires t.rows.Keys == s.rows.Keys
    requires forall k :: k in s.rows ==> Marked(t, k) == Marked(s, k) && t.rows[k].path == s.rows[k].path
    ensures HasConflictUnder(t, q) == HasConflictUnder(s, q)
  {
    if HasConflictUnder(t, q) {
      var k :| k in t.rows && Marked(t, k) && q <= t.rows[k].path;
      assert k in s.rows && Marked(s, k) && q <= s.rows[k].path;
    }
    if HasConflictUnder(s, q) {
      var k :| k in s.rows && Marked(s, k) && q <= s.rows[k].path;
      assert k in t.rows && Marked(t, k) && q <= t.rows[k].path;
    }
  }

  /** The clear walk from `p`: each visited level is cleared iff no marked file remains
      under it, re-asking at every level and never stopping early. Only the conflict
      column changes, and no later query sees a different answer. */
  function ClearWalk(s: Store, p: string): (t: Store)
    ensures t.rows.Keys == s.rows.Keys && t.next == s.next
    ensures forall k :: k in s.rows ==> t.rows[k] == s.rows[k].(conflict := t.rows[k].conflict)
    ensures forall q :: HasConflictUnder(t, q) == HasConflictUnder(s, q)
    decreases |p|
  {
    if |p| == 0 then s
    else
      var s1 := ClearLevel(s, p);
      forall q
        ensures HasConflictUnder(s1, q) == HasConflictUnder(s, q)
      {
        ClearLevelKeepsQueries(s, p, q);
      }
      ClearWalk(s1, NextAncestorPath(p))
  }

  /** Row `k` after the walk from `p`: its mark is gone iff its path is one the walk
      visits and no marked file remains under that path; otherwise it is as it was. */
  lemma {:induction false} ClearWalkClears(s: Store, p: string, k: Id)
    requires k in s.rows
    ensures ClearWalk(s, p).rows[k].conflict ==
      (if s.rows[k].path in AncestorPaths(p) && !HasConflictUnder(s, s.rows[k].path) then None
       else s.rows[k].conflict)
    decreases |p|
  {
    if |p| > 0 {
      var s1 := ClearLevel(s, p);
      ClearLevelRow(s, p, k);
      ClearWalkClears(s1, NextAncestorPath(p), k);
      ClearLevelKeepsQueries(s, p, s.rows[k].path);
      assert AncestorPaths(p) == [p] + AncestorPaths(NextAncestorPath(p));
    }
  }

  /** Row `k` after one level: cleared iff it sits at that level's path and nothing marked
      remains under it. */
  lemma ClearLevelRow(s: Store, p: string, k: Id)
    requires k in s.rows
    ensures var t := ClearLevel(s, p);
      && k in t.rows && t.rows[k].path == s.rows[k].path
      && t.rows[k].conflict == (if s.rows[k].path == p && !HasConflictUnder(s, p) then None else s.rows[k].conflict)
  {
  }

  // ---------------------------------------------------------------------------------
  // saveConflict

  /** What saveConflict ends in: the table, or an exception with the table as it was when
      it escaped (the file's own row is already written by then). */
  datatype ConflictOutcome = Saved(store: Store) | Aborted(store: Store, failure: Failure)

  /** The set branch after the file's row is written: copy the mark onto every ancestor
      found through the parent ids, or stop where that walk fails. */
  function MarkAncestors(s1: Store, file: Node, marker: string): (r: ConflictOutcome)
    ensures r.store.rows.Keys == s1.rows.Keys && r.store.next == s1.next
    ensures forall k :: k in s1.rows ==> r.store.rows[k] == s1.rows[k].(conflict := r.store.rows[k].conflict)
    ensures r.Aborted? <==> !AncestorIds(s1, file.parent, s1.rows.Keys).Reached?
    ensures r.Aborted? ==> r.store == s1
    ensures r.Aborted? ==> (r.failure == NullDereference <==> AncestorIds(s1, file.parent, s1.rows.Keys).MissingRow?)
    ensures r.Aborted? ==> (r.failure == Unbounded <==> AncestorIds(s1, file.parent, s1.rows.Keys).Cycles?)
    ensures r.Saved? ==> forall k :: k in s1.rows ==>
      r.store.rows[k].conflict ==
        (if k in AncestorIds(s1, file.parent, s1.rows.Keys).ids then Some(marker) else s1.rows[k].conflict)
  {
    match AncestorIds(s1, file.parent, s1.rows.Keys)
    case MissingRow => Aborted(s1, NullDereference)
    case Cycles => Aborted(s1, Unbounded)
    case Reached(ids) => Saved(MarkIds(s1, ids, marker))
  }

  /** The table after the mark is copied onto the rows with the given ids. */
  function MarkIds(s: Store, ids: set<Id>, marker: string): Store {
    s.(rows := map k | k in s.rows :: if k in ids then s.rows[k].(conflict := Some(marker)) else s.rows[k])
  }

  /** MarkIds is the provider update of the conflict column selected by the id list. */
  lemma MarkIdsIsUpdateByIds(s: Store, ids: set<Id>, marker: string)
    ensures MarkIds(s, ids, marker) == ApplyOp(s, Update(ByIds(ids), ConflictPatch(Some(marker)))).0
  {
    var t := ApplyOp(s, Update(ByIds(ids), ConflictPatch(Some(marker)))).0;
    assert t.rows == MarkIds(s, ids, marker).rows;
  }

  /** saveConflict. Nothing beyond the file's row happens unless that update touched a
      row; the rows above it are described by SaveConflictMarksAncestors and
      SaveConflictClearsAncestors. */
  function SaveConflict(s: Store, file: Node, marker: Option<string>): (r: ConflictOutcome)
    ensures file.id !in s.rows ==> r == Saved(s)
    ensures r.store.rows.Keys == s.rows.Keys && r.store.next == s.next
    ensures forall k :: k in s.rows ==> r.store.rows[k] == s.rows[k].(conflict := r.store.rows[k].conflict)
    ensures r.Aborted? <==> (file.id in s.rows && EffectiveMarker(file, marker).Some? &&
      !AncestorIds(s, file.parent, s.rows.Keys).Reached?)
    ensures r.Aborted? ==> r.store == MarkFile(s, file, EffectiveMarker(file, marker))
    ensures r.Aborted? ==> (r.failure == NullDereference <==> AncestorIds(s, file.parent, s.rows.Keys).MissingRow?)
    ensures r.Aborted? ==> (r.failure == Unbounded <==> AncestorIds(s, file.parent, s.rows.Keys).Cycles?)
  {
    var m := EffectiveMarker(file, marker);
    if file.id !in s.rows then Saved(s)
    else
      var s1 := MarkFile(s, file, m);
      AncestorIdsOnlyReadParents(s, s1, file.parent, s.rows.Keys);
      if m.Some? then MarkAncestors(s1, file, m.value)
      else Saved(ClearWalk(s1, FirstAncestorPath(file.path)))
  }

  /** The file's own row always ends up with the effective mark, whatever happens above it. */
  lemma SaveConflictMarksFile(s: Store, file: Node, marker: Option<string>)
    requires file.id in s.rows
    ensures SaveConflict(s, file, marker).store.rows[file.id].conflict == EffectiveMarker(file, marker)
  {
    var s1 := MarkFile(s, file, EffectiveMarker(file, marker));
    if EffectiveMarker(file, marker).None? {
      ClearWalkClears(s1, FirstAncestorPath(file.path), file.id);
    }
  }

  /** Setting a mark that completes: the file and exactly its ancestors by parent id carry
      the mark; every other row keeps its own. */
  lemma SaveConflictMarksAncestors(s: Store, file: Node, marker: Option<string>, k: Id)
    requires file.id in s.rows && EffectiveMarker(file, marker).Some?
    requires SaveConflict(s, file, marker).Saved?
    requires k in s.rows
    ensures var ids := AncestorIds(s, file.parent, s.rows.Keys).ids;
      SaveConflict(s, file, marker).store.rows[k].conflict ==
        (if k == file.id || k in ids then marker else s.rows[k].conflict)
  {
    var s1 := MarkFile(s, file, EffectiveMarker(file, marker));
    AncestorIdsOnlyReadParents(s, s1, file.parent, s.rows.Keys);
  }

  /** Clearing a mark: a row other than the file's loses its mark iff its path is a folder
      path above the file and no marked file remains under it once the file's own mark is
      gone; every other row keeps its own. */
  lemma SaveConflictClearsAncestors(s: Store, file: Node, marker: Option<string>, k: Id)
    requires file.id in s.rows && EffectiveMarker(file, marker).None?
    requires k in s.rows && k != file.id
    ensures var s1 := MarkFile(s, file, None);
      SaveConflict(s, file, marker).store.rows[k].conflict ==
        (if IsAncestorPath(s.rows[k].path, file.path) && !HasConflictUnder(s1, s.rows[k].path) then None
         else s.rows[k].conflict)
  {
    var s1 := MarkFile(s, file, None);
    ClearWalkClears(s1, FirstAncestorPath(file.path), k);
    ClearWalkVisitsAncestorPaths(file.path);
  }

  /** The parent walk reads the parent column only. */
  lemma {:induction false} AncestorIdsOnlyReadParents(s: Store, t: Store, k: Id, unvisited: set<Id>)
    requires t.rows.Keys == s.rows.Keys
    requires forall x :: x in s.rows ==> t.rows[x].parent == s.rows[x].parent
    ensures AncestorIds(t, k, unvisited) == AncestorIds(s, k, unvisited)
    decreases unvisited
  {
    if k != ROOT_PARENT_ID && k in s.rows && k in unvisited {
      AncestorIdsOnlyReadParents(s, t, s.rows[k].parent, unvisited - {k});
    }
  }

  /** After a mark is cleared, every folder above the file that still shows a mark has a
      marked file below it: the aggregate is not left stale on the climbed path. */
  lemma ClearedAggregateIsAccurate(s: Store, file: Node, marker: Option<string>, k: Id)
    requires file.id in s.rows && EffectiveMarker(file, marker).None?
    requires k in s.rows && IsAncestorPath(s.rows[k].path, file.path)
    ensures var t := SaveConflict(s, file, marker).store;
      t.rows[k].conflict.Some? ==> HasConflictUnder(t, t.rows[k].path)
  {
    var s1 := MarkFile(s, file, None);
    var t := SaveConflict(s, file, marker).store;
    if k == file.id {
      SaveConflictMarksFile(s, file, marker);
    } else if t.rows[k].conflict.Some? {
      SaveConflictClearsAncestors(s, file, marker, k);
      assert HasConflictUnder(s1, s.rows[k].path);
      assert HasConflictUnder(t, s.rows[k].path);
    }
  }
}
