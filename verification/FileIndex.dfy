/** The file index: its table, updated row by row inside transactions that are rolled back on failure. */
module FileIndex {
  import opened Wrappers
  import opened SqlText
  import opened FileRows
  import opened IndexMoves
  import opened IndexTrash
  import opened DirectorySync
  import Text
  import Paths

  /** The path as the index stores it: without slashes at its end. */
  function NormalizedPath(path: string): string {
    if path == "/" then "/" else Text.TrimEnd(path, Text.Only('/'))
  }

  /** What is cut off is slashes, as many as there are; only the root keeps its slash. */
  lemma {:induction false} NormalizedPathCutsSlashes(path: string, slashes: nat)
    requires path != "" && path[|path| - 1] != '/'
    ensures NormalizedPath(path + seq(slashes, _ => '/')) == path
  {
    var s := path + seq(slashes, _ => '/');
    if slashes == 0 {
      assert s == path;
      Paths.KeepsEnd(path);
    } else {
      NormalizedPathCutsSlashes(path, slashes - 1);
      assert s[..|s| - 1] == path + seq(slashes - 1, _ => '/');
      assert s[|s| - 1] == '/' && s != "/";
    }
  }

  class Index {
    const collation: Collation
    var rows: Table

    ghost predicate Valid()
      reads this
    {
      Unique(rows)
    }

    constructor (collation: Collation)
      ensures Valid() && rows == map[] && this.collation == collation
    {
      this.collation := collation;
      rows := map[];
    }

    method FindAt(user: string, path: string) returns (found: Option<RowId>)
      ensures found.Some? ==> At(rows, found.value, user, path)
      ensures found.None? ==> forall id :: !At(rows, id, user, path)
    {
      var ids := set id | id in rows.Keys && rows[id].user == user && rows[id].path == path;
      if ids == {} {
        assert forall id :: At(rows, id, user, path) ==> id in ids;
        return None;
      }
      var id :| id in ids;
      found := Some(id);
    }

    /** Updates one row; the database may fail, and refuses a path another row of the user has. */
    method UpdateRow(id: RowId, row: Row) returns (r: Result<(), DbError>)
      requires Valid() && id in rows
      modifies this
      ensures Valid()
      ensures r.Ok? ==> rows == old(rows)[id := row]
      ensures r.Err? ==> rows == old(rows) && r.error != Panicked
      ensures r == Err(UniqueViolation) ==> exists other :: other != id && At(rows, other, row.user, row.path)
    {
      var up: bool := *;
      if !up {
        return Err(Unavailable);
      }
      var others := set other | other in rows.Keys && other != id && rows[other].user == row.user
          && rows[other].path == row.path;
      if others != {} {
        var other :| other in others;
        assert At(rows, other, row.user, row.path);
        return Err(UniqueViolation);
      }
      assert forall other :: other in rows && other != id && rows[other].user == row.user ==>
          rows[other].path != row.path by {
        forall other | other in rows && other != id && rows[other].user == row.user
          ensures rows[other].path != row.path
        {
          assert other !in others;
        }
      }
      rows := rows[id := row];
      r := Ok(());
    }

    // ---- moving and restoring: row by row ----

    /** Every row is at its target, but for the pending ones, which are as they were. */
    ghost predicate Underway(was: Table, target: Table, pending: set<RowId>)
      reads this
    {
      && rows.Keys == was.Keys == target.Keys
      && forall id :: id in was ==> rows[id] == if id in pending then was[id] else target[id]
    }

    /** Updates a pending row to its target. */
    method PlaceRow(ghost was: Table, ghost target: Table, ghost pending: set<RowId>, id: RowId, row: Row,
                    ghost q: Scope, ghost src: string, ghost dst: string) returns (r: Result<(), DbError>)
      requires Valid() && Unique(was) && Underway(was, target, pending) && Retargets(was, target, q, src, dst)
      requires id in pending && row.user == q.user && (forall i :: i in pending ==> i in was && IsMoved(was[i], q, src))
      requires row == target[id]
      modifies this
      ensures Valid()
      ensures r.Ok? ==> Underway(was, target, pending - {id})
      ensures FailsOnlyOnCollision(r, was, q, src, dst)
    {
      ghost var before := rows;
      r := UpdateRow(id, row);
      if r == Err(UniqueViolation) && NoStrays(was, q, src) && (NotNested(src, dst) || Free(was, q.user, dst)) {
        ghost var other :| other != id && At(before, other, row.user, row.path);
        ghost var done := set i | i in was && IsMoved(was[i], q, src) && i !in pending;
        NextMoveIsFree(was, done, id, other, before[other], q, src, dst);
      }
    }

    /** Moves a tree. Without strays the index refuses exactly when a row that stays is in the way. */
    method MoveFile(user: string, src: string, dst: string, now: int) returns (r: Result<(), DbError>)
      requires Valid()
      modifies this
      ensures Valid()
      ensures r.Ok? ==> rows == Moved(old(rows), Scope(user, collation), src, dst, now)
      ensures r.Err? ==> rows == old(rows)
      ensures Collides(old(rows), Scope(user, collation), src, dst) ==> r.Err?
      ensures FailsOnlyOnCollision(r, old(rows), Scope(user, collation), src, dst)
      ensures NoStrays(old(rows), Scope(user, collation), src) && Free(old(rows), user, dst) ==>
                r != Err(UniqueViolation)
    {
      hide Moved, Like, Retargets;
      var q := Scope(user, collation);
      var was := rows;
      var children := set id | id in rows.Keys && IsChild(rows[id], q, src);
      var top := FindAt(user, src);
      MoveRetargets(was, q, src, dst, now);
      r := MoveTopRow(was, children, top, q, src, dst, now);
      if r.Ok? {
        r := MoveChildren(was, children, q, src, dst, now);
      }
      if NoStrays(was, q, src) && Free(was, user, dst) {
        FreeIsNoCollision(was, q, src, dst);
      }
      if r.Err? {
        rows := was;
      } else if Collides(was, q, src, dst) {
        CollisionBreaksUnique(was, q, src, dst, now);
      }
    }

    method MoveTopRow(ghost was: Table, ghost children: set<RowId>, top: Option<RowId>,
                      q: Scope, src: string, dst: string, now: int)
      returns (r: Result<(), DbError>)
      requires Valid() && rows == was && Retargets(was, Moved(was, q, src, dst, now), q, src, dst)
      requires children == set id | id in was && IsChild(was[id], q, src)
      requires if top.Some? then At(was, top.value, q.user, src) else forall id :: !At(was, id, q.user, src)
      modifies this
      ensures Valid() && FailsOnlyOnCollision(r, was, q, src, dst)
      ensures r.Ok? ==> Underway(was, Moved(was, q, src, dst, now), children)
    {
      hide Like, Retargets;
      ghost var target := Moved(was, q, src, dst, now);
      NotBelowItself(q.collation, src);
      r := Ok(());
      if top.Some? {
        TopIsOnly(was, top.value, q, src);
        r := PlaceRow(was, target, children + {top.value}, top.value, MoveTop(rows[top.value], dst, now), q, src, dst);
        assert children + {top.value} - {top.value} == children;
      } else {
        assert forall id :: id in was && IsTop(was[id], q, src) ==> At(was, id, q.user, src);
      }
    }

    method MoveChildren(ghost was: Table, children: set<RowId>, q: Scope, src: string, dst: string, now: int)
      returns (r: Result<(), DbError>)
      requires Valid() && Unique(was) && Underway(was, Moved(was, q, src, dst, now), children)
      requires Retargets(was, Moved(was, q, src, dst, now), q, src, dst)
      requires forall id :: id in children ==> id in was && IsChild(was[id], q, src)
      modifies this
      ensures Valid() && FailsOnlyOnCollision(r, was, q, src, dst)
      ensures r.Ok? ==> rows == Moved(was, q, src, dst, now)
    {
      hide Like, Retargets;
      var left := children;
      r := Ok(());
      while r.Ok? && left != {}
        invariant Valid() && left <= children && FailsOnlyOnCollision(r, was, q, src, dst)
        invariant r.Ok? ==> Underway(was, Moved(was, q, src, dst, now), left)
        decreases left
      {
        var id :| id in left;
        r := MoveChildRow(was, left, id, q, src, dst, now);
        left := left - {id};
      }
    }

    method MoveChildRow(ghost was: Table, ghost pending: set<RowId>, id: RowId, q: Scope, src: string, dst: string,
                        now: int)
      returns (r: Result<(), DbError>)
      requires Valid() && Unique(was) && Underway(was, Moved(was, q, src, dst, now), pending) && id in pending
      requires Retargets(was, Moved(was, q, src, dst, now), q, src, dst)
      requires forall id :: id in pending ==> id in was && IsChild(was[id], q, src)
      modifies this
      ensures Valid() && FailsOnlyOnCollision(r, was, q, src, dst)
      ensures r.Ok? ==> Underway(was, Moved(was, q, src, dst, now), pending - {id})
    {
      hide Like, Retargets;
      if NoStrays(was, q, src) {
        ChildIsLonger(was[id], q, src);
      }
      NotBelowItself(q.collation, src);
      if |rows[id].path| < |src| {
        return Err(Panicked);
      }
      var row := MoveChild(rows[id], src, dst, now);
      r := PlaceRow(was, Moved(was, q, src, dst, now), pending, id, row, q, src, dst);
    }

    // ---- trashing: two statements ----

    /** A statement over many rows; the database may fail, and refuses a result that breaks the unique index. */
    method UpdateMany(target: Table) returns (r: Result<(), DbError>)
      requires Valid()
      modifies this
      ensures Valid()
      ensures r.Ok? ==> rows == target
      ensures r.Err? ==> rows == old(rows)
      ensures r == Err(UniqueViolation) ==> !Unique(target)
    {
      var up: bool := *;
      if !up {
        return Err(Unavailable);
      }
      if exists i, j :: i in target.Keys && j in target.Keys && i != j && SamePlace(target[i], target[j]) {
        return Err(UniqueViolation);
      }
      assert forall i, j :: i in target && j in target && i != j ==> !SamePlace(target[i], target[j]);
      rows := target;
      r := Ok(());
    }

    /** Trashes a tree. The index refuses only when one of the two statements gives two rows one path. */
    method TrashFile(user: string, src: string, dst: string, now: int) returns (r: Result<(), DbError>)
      requires Valid()
      modifies this
      ensures Valid()
      ensures r.Ok? ==> rows == Trashed(old(rows), Scope(user, collation), src, dst, now)
      ensures r.Err? ==> rows == old(rows)
      ensures var q := Scope(user, collation);
              r == Err(UniqueViolation) ==>
                !Unique(TopTrashed(old(rows), q, src, dst, now)) || !Unique(Trashed(old(rows), q, src, dst, now))
      ensures var q := Scope(user, collation);
              !Unique(TopTrashed(old(rows), q, src, dst, now)) || !Unique(Trashed(old(rows), q, src, dst, now)) ==>
                r.Err?
      ensures CanTrash(old(rows), Scope(user, collation), src, dst) ==> r != Err(UniqueViolation)
    {
      var q := Scope(user, collation);
      var was := rows;
      if CanTrash(was, q, src, dst) {
        TrashKeepsUnique(was, q, src, dst, now);
      }
      hide Unique, CanTrash;
      var first := TopTrashedRows(q, src, dst, now);
      r := UpdateMany(first);
      if r.Ok? {
        var second := ChildrenTrashedRows(was, q, src, dst, now);
        r := UpdateMany(second);
      }
      if r.Err? {
        rows := was;
      }
    }

    method TopTrashedRows(q: Scope, src: string, dst: string, now: int) returns (target: Table)
      ensures target == TopTrashed(rows, q, src, dst, now)
    {
      target := map id | id in rows.Keys ::
        if IsTop(rows[id], q, src) then TrashTop(rows[id], src, dst, now) else rows[id];
    }

    method ChildrenTrashedRows(ghost was: Table, q: Scope, src: string, dst: string, now: int) returns (target: Table)
      requires rows == TopTrashed(was, q, src, dst, now)
      ensures target == Trashed(was, q, src, dst, now)
    {
      hide Like, Replace;
      target := map id | id in rows.Keys ::
        if IsChild(rows[id], q, src) then TrashChild(rows[id], src, dst, now) else rows[id];
    }

    // ---- restoring ----

    /** A pending row with the shortest path. */
    method Shortest(ids: set<RowId>) returns (shortest: RowId)
      requires ids != {} && ids <= rows.Keys
      ensures shortest in ids && forall id :: id in ids ==> |rows[shortest].path| <= |rows[id].path|
    {
      shortest :| shortest in ids;
      var left := ids - {shortest};
      while left != {}
        invariant left <= ids && shortest in ids
        invariant forall id :: id in ids && id !in left ==> |rows[shortest].path| <= |rows[id].path|
        decreases left
      {
        var id :| id in left;
        left := left - {id};
        if |rows[id].path| < |rows[shortest].path| {
          shortest := id;
        }
      }
    }

    /** Restores a tree, the shortest paths first. Without strays only a row in the way is an obstacle. */
    method RestoreFile(user: string, trash: string, restored: string, now: int) returns (r: Result<(), DbError>)
      requires Valid()
      modifies this
      ensures Valid()
      ensures r.Ok? ==> rows == Restored(old(rows), Scope(user, collation), trash, restored, now)
      ensures r.Err? ==> rows == old(rows)
      ensures Collides(old(rows), Scope(user, collation), trash, restored) ==> r.Err?
      ensures FailsOnlyOnCollision(r, old(rows), Scope(user, collation), trash, restored)
      ensures NoStrays(old(rows), Scope(user, collation), trash) && Free(old(rows), user, restored) ==>
                r != Err(UniqueViolation)
    {
      hide Restored, Like, Retargets, RestoreRow;
      var q := Scope(user, collation);
      var was := rows;
      var left := set id | id in rows.Keys && IsMoved(rows[id], q, trash);
      RestoreRetargets(was, q, trash, restored, now);
      r := RestoreRows(was, left, q, trash, restored, now);
      if NoStrays(was, q, trash) && Free(was, user, restored) {
        FreeIsNoCollision(was, q, trash, restored);
      }
      if r.Err? {
        rows := was;
      } else if Collides(was, q, trash, restored) {
        CollisionClashes(was, Restored(was, q, trash, restored, now), q, trash, restored);
      }
    }

    method RestoreRows(ghost was: Table, ids: set<RowId>, q: Scope, trash: string, restored: string, now: int)
      returns (r: Result<(), DbError>)
      requires Valid() && rows == was && ids == set id | id in was && IsMoved(was[id], q, trash)
      requires Retargets(was, Restored(was, q, trash, restored, now), q, trash, restored)
      modifies this
      ensures Valid() && FailsOnlyOnCollision(r, was, q, trash, restored)
      ensures r.Ok? ==> rows == Restored(was, q, trash, restored, now)
    {
      hide Like, Retargets, IsMoved;
      var left := ids;
      r := Ok(());
      while r.Ok? && left != {}
        invariant Valid() && left <= ids && FailsOnlyOnCollision(r, was, q, trash, restored)
        invariant r.Ok? ==> Underway(was, Restored(was, q, trash, restored, now), left)
        decreases left
      {
        var id := Shortest(left);
        r := RestoreOne(was, left, id, q, trash, restored, now);
        left := left - {id};
      }
    }

    method RestoreOne(ghost was: Table, ghost pending: set<RowId>, id: RowId,
                      q: Scope, trash: string, restored: string, now: int) returns (r: Result<(), DbError>)
      requires Valid() && Unique(was) && Underway(was, Restored(was, q, trash, restored, now), pending) && id in pending
      requires Retargets(was, Restored(was, q, trash, restored, now), q, trash, restored)
      requires forall i :: i in pending ==> i in was && IsMoved(was[i], q, trash)
      modifies this
      ensures Valid() && FailsOnlyOnCollision(r, was, q, trash, restored)
      ensures r.Ok? ==> Underway(was, Restored(was, q, trash, restored, now), pending - {id})
    {
      hide Like, Retargets;
      if NoStrays(was, q, trash) {
        ChildIsLonger(was[id], q, trash);
      }
      if |rows[id].path| < |trash| {
        return Err(Panicked);
      }
      var row := RestoreRow(rows[id], q, trash, restored, now);
      r := PlaceRow(was, Restored(was, q, trash, restored, now), pending, id, row, q, trash, restored);
    }

    // ---- synchronizing a directory ----

    /** Inserts an item, or merges it into the row at its path. */
    method UpsertItem(item: Item) returns (r: Result<(), DbError>)
      requires Valid()
      modifies this
      ensures Valid()
      ensures r.Ok? ==> rows == Upsert(old(rows), item)
    {
      var up: bool := *;
      var found := FindAt(item.user, item.path);
      if !up {
        return Err(Unavailable);
      }
      if found.Some? {
        rows := rows[found.value := Merge(rows[found.value], item)];
      } else if item.id in rows {
        return Err(UniqueViolation);
      } else {
        assert forall id :: id in rows ==> !At(rows, id, item.user, item.path);
        rows := rows[item.id := FreshRow(item)];
      }
      r := Ok(());
    }

    method UpsertChunk(chunk: seq<Item>) returns (r: Result<(), DbError>)
      requires Valid()
      modifies this
      ensures Valid()
      ensures r.Ok? ==> rows == UpsertAll(old(rows), chunk)
    {
      hide Upsert, Unique;
      r := Ok(());
      var n := 0;
      while r.Ok? && n < |chunk|
        invariant n <= |chunk| && Valid()
        invariant r.Ok? ==> rows == UpsertAll(old(rows), chunk[..n])
      {
        r := UpsertItem(chunk[n]);
        n := n + 1;
        assert chunk[..n][..n - 1] == chunk[..n - 1];
      }
      assert chunk[..|chunk|] == chunk;
    }

    /** Deletes the directory's rows that were last updated before the start. */
    method PruneDirectory(user: string, parent: string, start: int) returns (r: Result<(), DbError>)
      requires Valid()
      modifies this
      ensures Valid()
      ensures r.Ok? ==> rows == Prune(old(rows), user, parent, start)
    {
      var up: bool := *;
      if !up {
        return Err(Unavailable);
      }
      rows := map id | id in rows.Keys && !Stale(rows[id], user, parent, start) :: rows[id];
      r := Ok(());
    }

    /** Synchronizes a directory in chunks; their size does not show in the result. */
    method SyncDirectory(user: string, parentPath: string, items: seq<Item>, chunkSize: nat, syncStart: int)
      returns (r: Result<(), DbError>)
      requires Valid()
      modifies this
      ensures Valid()
      ensures r.Ok? ==> rows == Prune(UpsertAll(old(rows), items), user, NormalizedPath(parentPath), syncStart)
      ensures r.Err? ==> rows == old(rows)
    {
      hide Unique, UpsertAll, Prune;
      var was := rows;
      r := UpsertChunks(items, if chunkSize < 1 then 1 else chunkSize);
      if r.Ok? {
        r := PruneDirectory(user, NormalizedPath(parentPath), syncStart);
      }
      if r.Err? {
        rows := was;
      }
    }

    method UpsertChunks(items: seq<Item>, chunkSize: nat) returns (r: Result<(), DbError>)
      requires Valid() && chunkSize >= 1
      modifies this
      ensures Valid()
      ensures r.Ok? ==> rows == UpsertAll(old(rows), items)
    {
      hide Unique, Upsert;
      var rest := items;
      r := Ok(());
      assert items == [] + items;
      ghost var taken: seq<Item> := [];
      while r.Ok? && rest != []
        invariant Valid() && items == taken + rest
        invariant r.Ok? ==> rows == UpsertAll(old(rows), taken)
        decreases |rest|
      {
        var size := if chunkSize < |rest| then chunkSize else |rest|;
        var chunk := rest[..size];
        r := UpsertChunk(chunk);
        UpsertConcat(old(rows), taken, chunk);
        taken := taken + chunk;
        rest := rest[size..];
      }
      assert r.Ok? ==> taken == items;
    }

    // ---- a single entry ----

    /**
     * Writes the entry of one path: exactly one row changes or is added, which has that path and the
     * parent cut from it, is not trashed or deleted, and if it was there keeps identity and favourite.
     */
    method UpsertFile(user: string, logicalPath: string, name: string, isDir: bool, size: int, modified: Option<int>,
                      location: Location, freshId: RowId, now: int) returns (r: Result<RowId, DbError>)
      requires Valid()
      modifies this
      ensures Valid()
      ensures r.Err? ==> rows == old(rows)
      ensures r.Ok? ==>
                var path := NormalizedPath(logicalPath);
                && At(rows, r.value, user, path) && rows == old(rows)[r.value := rows[r.value]]
                && rows[r.value].parent == ParentDir(path) && rows[r.value].name == name
                && rows[r.value].isDir == isDir && rows[r.value].size == size && rows[r.value].fileUpdated == modified
                && rows[r.value].location == location
                && rows[r.value].trashedAt.None? && rows[r.value].deletedAt.None? && rows[r.value].originalPath.None?
                && rows[r.value].updatedAt == now
                && if r.value in old(rows)
                   then At(old(rows), r.value, user, path) && rows[r.value].createdAt == old(rows)[r.value].createdAt
                        && rows[r.value].favorite == old(rows)[r.value].favorite
                   else r.value == freshId && rows[r.value].createdAt == now && rows[r.value].favorite == 0
                        && forall id :: !At(old(rows), id, user, path)
    {
      var path := NormalizedPath(logicalPath);
      var up: bool := *;
      var found := FindAt(user, path);
      if !up {
        return Err(Unavailable);
      }
      if found.Some? {
        var row := rows[found.value].(
          parent := ParentDir(path), name := name, isDir := isDir, size := size, fileUpdated := modified,
          location := location, updatedAt := now, deletedAt := None, trashedAt := None, originalPath := None);
        rows := rows[found.value := row];
        return Ok(found.value);
      }
      if freshId in rows {
        return Err(UniqueViolation);
      }
      assert forall id :: id in rows ==> !At(rows, id, user, path);
      rows := rows[freshId := Row(user, path, ParentDir(path), name, isDir, size, 0, modified, None, None,
          location, now, now, None)];
      r := Ok(freshId);
    }
  }

  /** The parent directory of a path, itself without slashes at its end. */
  function ParentDir(path: string): string {
    if LastSlash(path) <= 0 then "/"
    else
      var parent := Text.TrimEnd(path[..LastSlash(path)], Text.Only('/'));
      if parent == "" then "/" else parent
  }

  /** The parent written is the one cut from the path, exactly when no slash is doubled before the name. */
  lemma ParentDirNames(path: string)
    ensures ParentDir(path) == ParentOf(path) <==> !(LastSlash(path) > 1 && path[LastSlash(path) - 1] == '/')
  {
    var k := LastSlash(path);
    if k > 0 {
      var before := path[..k];
      Text.TrimEndShape(before, Text.Only('/'));
      if path[k - 1] != '/' {
        Paths.KeepsEnd(before);
      }
    }
  }

  predicate SamePlace(a: Row, b: Row) {
    a.user == b.user && a.path == b.path
  }

  lemma RestoreRetargets(was: Table, q: Scope, trash: string, restored: string, now: int)
    ensures Retargets(was, Restored(was, q, trash, restored, now), q, trash, restored)
  {
    hide Like, LastSlash, NameOf, ParentOf;
    assert restored + trash[|trash|..] == restored;
  }

  /**
   * Unless there are strays, or one directory is inside the other and not free, only a row in the way is an
   * obstacle.
   */
  ghost predicate FailsOnlyOnCollision(r: Result<(), DbError>, was: Table, q: Scope, src: string, dst: string) {
    NoStrays(was, q, src) ==>
      && r != Err(Panicked)
      && ((NotNested(src, dst) || Free(was, q.user, dst)) && r == Err(UniqueViolation) ==> Collides(was, q, src, dst))
  }

  /** By the unique index there is one top row. */
  lemma TopIsOnly(t: Table, top: RowId, q: Scope, src: string)
    requires Unique(t) && At(t, top, q.user, src)
    ensures forall id :: id in t && id != top ==> !IsTop(t[id], q, src)
  {}

  lemma MoveRetargets(was: Table, q: Scope, src: string, dst: string, now: int)
    ensures Retargets(was, Moved(was, q, src, dst, now), q, src, dst)
  {
    hide Like, LastSlash, NameOf, ParentOf;
    assert dst + src[|src|..] == dst;
  }

  lemma ChildIsLonger(row: Row, q: Scope, src: string)
    requires !IsStray(row, q, src) && IsMoved(row, q, src)
    ensures |src| <= |row.path|
  {
    MovedAreAtOrBelow(row, q, src);
    AtOrBelowByConcat(src, row.path);
  }
}
