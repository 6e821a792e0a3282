/** What trashing a path, by SQL REPLACE, and restoring it do to the rows of the file index. */
module IndexTrash {
  import opened Wrappers
  import opened SqlText
  import opened FileRows
  import opened IndexMoves

  function TrashTop(row: Row, src: string, dst: string, now: int): Row {
    row.(path := dst, name := NameOf(dst), parent := RecycleBin, trashedAt := Some(now),
         originalPath := Some(src), updatedAt := now)
  }

  function TrashChild(row: Row, src: string, dst: string, now: int): Row {
    row.(originalPath := Some(row.path), path := Replace(row.path, src, dst),
         parent := Replace(row.parent, src, dst), trashedAt := Some(now), updatedAt := now)
  }

  /** The first statement updates the row at the path, the second the rows below it. */
  function TrashRow(row: Row, q: Scope, src: string, dst: string, now: int): Row {
    var first := if IsTop(row, q, src) then TrashTop(row, src, dst, now) else row;
    if IsChild(first, q, src) then TrashChild(first, src, dst, now) else first
  }

  function RestoreRow(row: Row, q: Scope, trash: string, restored: string, now: int): Row {
    if IsMoved(row, q, trash) then
      var path := if row.path == trash then restored else NewPath(trash, restored, row.path);
      row.(path := path, name := NameOf(path), parent := ParentOf(path), trashedAt := None, originalPath := None,
           updatedAt := now)
    else row
  }

  ghost function Trashed(t: Table, q: Scope, src: string, dst: string, now: int): Table {
    map id | id in t :: TrashRow(t[id], q, src, dst, now)
  }

  /** The table after the first statement. */
  ghost function TopTrashed(t: Table, q: Scope, src: string, dst: string, now: int): Table {
    map id | id in t :: if IsTop(t[id], q, src) then TrashTop(t[id], src, dst, now) else t[id]
  }

  ghost function Restored(t: Table, q: Scope, trash: string, restored: string, now: int): Table {
    map id | id in t :: RestoreRow(t[id], q, trash, restored, now)
  }

  /**
   * The columns of a trashed row: it is stamped and trashed now, remembers the path it had (the top row
   * does unless the second statement finds it again), and keeps all that trashing is not about. The
   * top row lies directly in the recycle bin.
   */
  lemma TrashedColumns(row: Row, q: Scope, src: string, dst: string, now: int)
    requires IsMoved(row, q, src)
    ensures var row' := TrashRow(row, q, src, dst, now);
            && row'.user == row.user && row'.isDir == row.isDir && row'.size == row.size
            && row'.favorite == row.favorite && row'.fileUpdated == row.fileUpdated && row'.location == row.location
            && row'.createdAt == row.createdAt && row'.deletedAt == row.deletedAt
            && row'.updatedAt == now && row'.trashedAt == Some(now)
            && row'.originalPath == (if row.path == src && !NotFoundAgain(q, src, dst) then Some(dst)
               else Some(row.path))
            && (row.path == src && NotFoundAgain(q, src, dst) ==>
                  row'.path == dst && row'.name == NameOf(dst) && row'.parent == "/.recycle_bin")
            && (row.path != src ==>
                  row'.path == Replace(row.path, src, dst) && row'.name == row.name
                  && row'.parent == Replace(row.parent, src, dst))
  {
    hide Like, Replace, LastSlash, NameOf;
  }

  /** The columns of a restored row: no longer trashed, stamped, at its target, and otherwise as it was. */
  lemma RestoredColumns(row: Row, q: Scope, trash: string, restored: string, now: int)
    requires IsMoved(row, q, trash)
    ensures var row' := RestoreRow(row, q, trash, restored, now);
            && row'.user == row.user && row'.isDir == row.isDir && row'.size == row.size
            && row'.favorite == row.favorite && row'.fileUpdated == row.fileUpdated && row'.location == row.location
            && row'.createdAt == row.createdAt && row'.deletedAt == row.deletedAt
            && row'.updatedAt == now && row'.trashedAt == None && row'.originalPath == None
            && (|trash| <= |row.path| ==> row'.path == restored + row.path[|trash|..])
            && row'.name == NameOf(row'.path) && row'.parent == ParentOf(row'.path)
  {
    hide Like, LastSlash, NameOf, ParentOf;
    if row.path == trash {
      assert restored + row.path[|trash|..] == restored;
    }
  }

  /** The path of the tree occurs only once in the row's path. */
  predicate OccursOnce(row: Row, src: string) {
    |src| <= |row.path| ==> !Occurs(src, row.path[|src|..])
  }

  lemma ReplaceHead(src: string, dst: string, rest: string)
    requires src != ""
    ensures Replace(src + rest, src, dst) == dst + Replace(rest, src, dst)
  {
    assert (src + rest)[|src|..] == rest;
  }

  lemma ReplaceKeepsSlash(src: string, dst: string, rest: string)
    requires src != "" && rest != "" && rest[0] == '/' && dst != "" && dst[0] == '/'
    ensures var r := Replace(rest, src, dst); r != "" && r[0] == '/'
  {}

  /** The path of a trashed row below the tree is the re-rooted path exactly when the tree's path occurs once in it. */
  lemma TrashIsRerootExactly(row: Row, q: Scope, src: string, dst: string, now: int)
    requires src != dst && src != "" && dst != "" && dst[0] == '/'
    requires row.user == q.user && AtOrBelow(src, row.path) && row.path != src
    ensures var row' := TrashRow(row, q, src, dst, now);
            && row' == TrashChild(row, src, dst, now)
            && (row'.path == NewPath(src, dst, row.path) <==> OccursOnce(row, src))
            && AtOrBelow(dst, row'.path)
            && row'.path == dst + Replace(row.path[|src|..], src, dst)
  {
    hide Like, Replace, Occurs;
    MovedAreAtOrBelow(row, q, src);
    AtOrBelowByConcat(src, row.path);
    var rest := row.path[|src|..];
    assert row.path == src + rest;
    assert rest != "";
    ReplaceHead(src, dst, rest);
    ReplaceIsIdentityExactly(rest, src, dst);
    ReplaceKeepsSlash(src, dst, rest);
    var r := Replace(rest, src, dst);
    CutConcat(dst, r, 0);
    CutConcat(dst, rest, 0);
    AtOrBelowByConcat(dst, dst + r);
  }

  /** A row trashed that way is again named by its parent and its name. */
  lemma TrashKeepsName(row: Row, q: Scope, src: string, dst: string, now: int)
    requires src != dst && src != "" && dst != "" && dst[0] == '/'
    requires row.user == q.user && AtOrBelow(src, row.path) && row.path != src
    requires WellNamed(row) && OccursOnce(row, src)
    ensures WellNamed(TrashRow(row, q, src, dst, now))
  {
    hide Like, Replace, Occurs, LastSlash, NameOf, ParentOf;
    TrashIsRerootExactly(row, q, src, dst, now);
    AtOrBelowByConcat(src, row.path);
    var rest := row.path[|src|..];
    assert row.path == src + rest && rest != "";
    NameOfConcat(src, rest);
    NameOfConcat(dst, rest);
    ParentOfConcat(src, rest);
    ParentOfConcat(dst, rest);
    var mid := rest[..LastSlash(rest)];
    ReplaceHead(src, dst, mid);
    if Occurs(src, mid) {
      OccursInPrefix(src, mid, rest);
    }
    ReplaceIsIdentityExactly(mid, src, dst);
  }

  /** The pattern for the rows below `src` does not find `dst`. */
  predicate NotFoundAgain(q: Scope, src: string, dst: string) {
    !Like(q.collation, src + "/%", dst)
  }

  /** A row that was not there to be trashed is not there to be restored. */
  lemma BystanderStays(row: Row, q: Scope, src: string, dst: string, now: int, later: int)
    requires !IsMoved(row, q, src) && !IsMoved(row, q, dst)
    ensures TrashRow(row, q, src, dst, now) == row
    ensures RestoreRow(row, q, dst, src, later) == row
  {}

  lemma RestoredRow(row: Row, q: Scope, trash: string, restored: string, rest: string, now: int)
    requires row.user == q.user && row.path == trash + rest && (rest == "" || rest[0] == '/')
    ensures var row' := RestoreRow(row, q, trash, restored, now);
            row' == row.(path := restored + rest, name := NameOf(restored + rest), parent := ParentOf(restored + rest),
                         trashedAt := None, originalPath := None, updatedAt := now)
  {
    hide Like, LastSlash;
    MovedAreAtOrBelow(row, q, trash);
    CutConcat(trash, rest, 0);
    AtOrBelowByConcat(trash, row.path);
    if rest == "" {
      assert restored + rest == restored;
    } else {
      assert |row.path| > |trash|;
    }
  }

  /** The second statement leaves the trashed top row where it is: it does not find it, or finds nothing to replace. */
  predicate TopStaysPut(q: Scope, src: string, dst: string) {
    NotFoundAgain(q, src, dst) || !Occurs(src, dst)
  }

  lemma TopComesBackExactly(row: Row, q: Scope, src: string, dst: string, now: int, later: int)
    requires src != "" && src != dst
    requires row.user == q.user && row.path == src && WellNamed(row) && row.trashedAt.None? && row.originalPath.None?
    ensures var back := RestoreRow(TrashRow(row, q, src, dst, now), q, dst, src, later);
            back == row.(updatedAt := back.updatedAt) <==> TopStaysPut(q, src, dst)
  {
    hide Like, AtOrBelow, TrashRow, RestoreRow, Replace, Occurs;
    var there := TrashRow(row, q, src, dst, now);
    TrashedTopAt(row, q, src, dst, now);
    if TopStaysPut(q, src, dst) {
      assert dst + "" == dst && src + "" == src;
      RestoredRow(there, q, dst, src, "", later);
    } else {
      OccursIsShorter(src, dst);
      ReplaceGrows(dst, src, dst);
      RestoredElsewhere(there, q, dst, src, later);
    }
  }

  lemma TrashedTopAt(row: Row, q: Scope, src: string, dst: string, now: int)
    requires src != "" && src != dst && row.user == q.user && row.path == src
    ensures var row' := TrashRow(row, q, src, dst, now);
            && row'.path == (if TopStaysPut(q, src, dst) then dst
               else Replace(dst, src, dst)) && row'.trashedAt == Some(now)
            && row' == row.(path := row'.path, name := row'.name, parent := row'.parent, trashedAt := Some(now),
                            originalPath := row'.originalPath, updatedAt := now)
  {
    hide Like, Replace, Occurs, LastSlash, NameOf;
    ReplaceIsIdentityExactly(dst, src, dst);
  }

  /** A row beyond the trash path does not come back to the path of the tree. */
  lemma RestoredElsewhere(row: Row, q: Scope, trash: string, restored: string, now: int)
    requires |row.path| > |trash| && row.trashedAt.Some?
    ensures var row' := RestoreRow(row, q, trash, restored, now);
            row'.path != restored || row'.trashedAt.Some?
  {
    hide Like, LastSlash, NameOf, ParentOf;
    if IsMoved(row, q, trash) {
      assert |restored + row.path[|trash|..]| > |restored|;
    }
  }

  lemma ChildComesBackExactly(row: Row, q: Scope, src: string, dst: string, now: int, later: int)
    requires src != dst && src != "" && dst != "" && dst[0] == '/'
    requires row.user == q.user && AtOrBelow(src, row.path) && row.path != src
    requires WellNamed(row) && row.trashedAt.None? && row.originalPath.None?
    ensures var back := RestoreRow(TrashRow(row, q, src, dst, now), q, dst, src, later);
            back == row.(updatedAt := back.updatedAt) <==> OccursOnce(row, src)
  {
    hide Like, Replace, Occurs, LastSlash, NameOf, ParentOf, TrashRow, RestoreRow;
    TrashIsRerootExactly(row, q, src, dst, now);
    AtOrBelowByConcat(src, row.path);
    var rest := row.path[|src|..];
    assert row.path == src + rest && rest != "";
    var r := Replace(rest, src, dst);
    ReplaceIsIdentityExactly(rest, src, dst);
    ReplaceKeepsSlash(src, dst, rest);
    RestoredRow(TrashRow(row, q, src, dst, now), q, dst, src, r, later);
    assert src + r == src + rest <==> r == rest by {
      CutConcat(src, r, 0);
      CutConcat(src, rest, 0);
    }
  }

  /** A tree in which a name repeats: trashing /a rewrites both parts of the path /a/a. */
  lemma RepeatIsRewritten(row: Row, q: Scope, dst: string, now: int)
    requires row.user == q.user && row.path == "/a/a" && dst != "" && dst[0] == '/' && dst != "/a"
    ensures !OccursOnce(row, "/a")
    ensures TrashRow(row, q, "/a", dst, now).path == dst + dst && dst + dst != NewPath("/a", dst, row.path)
  {
    hide Like;
    assert "/a/a"[|"/a"|..] == "/a" && "/a"[|"/a"|..] == "" && "/a" + "/" == "/a/";
    TrashIsRerootExactly(row, q, "/a", dst, now);
    assert Replace("/a", "/a", dst) == dst + Replace("", "/a", dst);
  }

  /** The path of the tree occurs once in the path of every row below it. */
  ghost predicate OccursOnceBelow(t: Table, q: Scope, src: string) {
    forall id :: id in t && t[id].user == q.user && src + "/" <= t[id].path ==> OccursOnce(t[id], src)
  }

  /** The row at the path, if there is one, is trashed to the place meant for it. */
  ghost predicate TopUnharmed(t: Table, q: Scope, src: string, dst: string) {
    forall id :: id in t && IsTop(t[id], q, src) ==> TopStaysPut(q, src, dst)
  }

  /**
   * Trashing a live tree, without strays, to a vacant place and restoring it gives the table back,
   * but for time stamps, exactly when the path of the tree occurs once in the path of every row below
   * it, and the second statement does not rewrite the row that the first one put into its place.
   */
  lemma TrashThenRestoreExactly(t: Table, q: Scope, src: string, dst: string, now: int, later: int)
    requires AllWellNamed(t) && LiveBelow(t, q.user, src) && NoStrays(t, q, src) && Vacant(t, q, dst)
    requires src != "" && dst != "" && dst[0] == '/'
    ensures SameButStamps(Restored(Trashed(t, q, src, dst, now), q, dst, src, later), t)
            <==> OccursOnceBelow(t, q, src) && TopUnharmed(t, q, src, dst)
  {
    hide RestoreRow, TrashRow, OccursOnce, WellNamed, IsStray, TopStaysPut;
    var back := Restored(Trashed(t, q, src, dst, now), q, dst, src, later);
    forall id | id in t
      ensures back[id] == t[id].(updatedAt := back[id].updatedAt) <==> ComesBack(t[id], q, src, dst)
    {
      RowComesBackExactly(t[id], q, src, dst, now, later);
    }
    assert OccursOnceBelow(t, q, src) && TopUnharmed(t, q, src, dst) <==> forall id :: id in t ==>
        ComesBack(t[id], q, src, dst);
  }

  ghost predicate ComesBack(row: Row, q: Scope, src: string, dst: string) {
    && (row.user == q.user && src + "/" <= row.path ==> OccursOnce(row, src))
    && (IsTop(row, q, src) ==> TopStaysPut(q, src, dst))
  }

  lemma RowComesBackExactly(row: Row, q: Scope, src: string, dst: string, now: int, later: int)
    requires WellNamed(row) && !IsStray(row, q, src) && !IsMoved(row, q, dst)
    requires row.user == q.user && AtOrBelow(src, row.path) ==> row.trashedAt.None? && row.originalPath.None?
    requires src != "" && dst != "" && dst[0] == '/'
    ensures var back := RestoreRow(TrashRow(row, q, src, dst, now), q, dst, src, later);
            back == row.(updatedAt := back.updatedAt) <==> ComesBack(row, q, src, dst)
  {
    hide RestoreRow, TrashRow, OccursOnce, WellNamed, IsStray, TopStaysPut;
    MovedAreAtOrBelow(row, q, src);
    MovedAreAtOrBelow(row, q, dst);
    if row.user == q.user && row.path == src {
      TopComesBackExactly(row, q, src, dst, now, later);
      assert !(src + "/" <= row.path);
    } else if row.user == q.user && AtOrBelow(src, row.path) {
      ChildComesBackExactly(row, q, src, dst, now, later);
    } else {
      BystanderStays(row, q, src, dst, now, later);
    }
  }

  // ---- the paths of the recycle bin ----

  /** The path a tree gets in the recycle bin: an identifier, an underscore and its name. */
  function TrashPath(uuid: string, name: string): string {
    RecycleBin + "/" + uuid + "_" + name
  }

  lemma PlainMissesOthers(q: Scope, src: string, dst: string)
    requires Plain(q.collation, src) && !(src + "/" <= dst)
    ensures NotFoundAgain(q, src, dst)
  {
    assert src + "/%" == (src + "/") + "%";
    LikeLiteral(q.collation, src + "/", dst);
  }

  /**
   * Trashing to the place the recycle bin gives, whose name is never plain, and restoring from there.
   * For a plain path that does not contain that place the one condition is on the rows below.
   */
  lemma RecycleBinRoundTrip(t: Table, q: Scope, src: string, uuid: string, name: string, now: int, later: int)
    requires AllWellNamed(t) && LiveBelow(t, q.user, src) && NoStrays(t, q, src) && src != ""
    requires Vacant(t, q, TrashPath(uuid, name))
    ensures var dst := TrashPath(uuid, name);
            var back := Restored(Trashed(t, q, src, dst, now), q, dst, src, later);
            && !Plain(q.collation, dst)
            && (SameButStamps(back, t) <==> OccursOnceBelow(t, q, src) && TopUnharmed(t, q, src, dst))
            && (Plain(q.collation, src) && !(src + "/" <= dst) ==>
                  (SameButStamps(back, t) <==> OccursOnceBelow(t, q, src)))
  {
    hide OccursOnceBelow, Like, LastSlash, NameOf;
    var dst := TrashPath(uuid, name);
    assert dst[9] == '_' && !MatchesOnlyItself(q.collation, dst[9]);
    if Plain(q.collation, src) && !(src + "/" <= dst) {
      PlainMissesOthers(q, src, dst);
    }
    TrashThenRestoreExactly(t, q, src, dst, now, later);
  }

  lemma NameInTrash(uuid: string, name: string)
    requires '/' !in uuid && '/' !in name
    ensures NameOf(TrashPath(uuid, name)) == uuid + "_" + name && ParentOf(TrashPath(uuid, name)) == RecycleBin
  {
    var rest := "/" + (uuid + "_" + name);
    assert TrashPath(uuid, name) == RecycleBin + rest;
    assert '/' !in uuid + "_" + name && forall i :: 0 < i < |rest| ==> rest[i] == (uuid + "_" + name)[i - 1];
    assert rest[0] == '/' && LastSlash(rest) == 0;
    NameOfConcat(RecycleBin, rest);
    ParentOfConcat(RecycleBin, rest);
    assert rest[1..] == uuid + "_" + name && RecycleBin + rest[..0] == RecycleBin;
  }

  /** After trashing to the place the recycle bin gives, every row's path is still its parent and its name. */
  lemma TrashKeepsNames(t: Table, q: Scope, src: string, uuid: string, name: string, now: int)
    requires AllWellNamed(t) && NoStrays(t, q, src) && OccursOnceBelow(t, q, src) && src != ""
    requires '/' !in uuid && '/' !in name
    requires var dst := TrashPath(uuid, name); src != dst && TopUnharmed(t, q, src, dst)
    ensures AllWellNamed(Trashed(t, q, src, TrashPath(uuid, name), now))
  {
    hide TrashRow, WellNamed, IsStray, OccursOnce, TopStaysPut;
    var dst := TrashPath(uuid, name);
    forall id | id in t
      ensures WellNamed(TrashRow(t[id], q, src, dst, now))
    {
      MovedAreAtOrBelow(t[id], q, src);
      if IsTop(t[id], q, src) {
        TrashedTopNamed(t[id], q, src, uuid, name, now);
      } else if IsMoved(t[id], q, src) {
        TrashKeepsName(t[id], q, src, dst, now);
      } else {
        NotTrashed(t[id], q, src, dst, now);
      }
    }
  }

  lemma NotTrashed(row: Row, q: Scope, src: string, dst: string, now: int)
    requires !IsMoved(row, q, src)
    ensures TrashRow(row, q, src, dst, now) == row
  {}

  lemma TrashedTopNamed(row: Row, q: Scope, src: string, uuid: string, name: string, now: int)
    requires IsTop(row, q, src) && src != "" && '/' !in uuid && '/' !in name
    requires var dst := TrashPath(uuid, name); src != dst && TopStaysPut(q, src, dst)
    ensures WellNamed(TrashRow(row, q, src, TrashPath(uuid, name), now))
  {
    hide Like, Replace, Occurs, LastSlash, NameOf, ParentOf;
    var dst := TrashPath(uuid, name);
    NameInTrash(uuid, name);
    ReplaceIsIdentityExactly(dst, src, dst);
    ReplaceIsIdentityExactly(RecycleBin, src, dst);
    if Occurs(src, RecycleBin) {
      assert RecycleBin <= dst;
      OccursInPrefix(src, RecycleBin, dst);
    }
  }

  // ---- what trashing and restoring leave alone ----

  /** Only rows of the user at or below the path changed. */
  ghost predicate OnlyBelowChanged(t: Table, t': Table, user: string, path: string) {
    t'.Keys == t.Keys && forall id :: id in t && !(t[id].user == user && AtOrBelow(path, t[id].path)) ==>
        t'[id] == t[id]
  }

  ghost predicate TrashKeepsOthers(t: Table, q: Scope, src: string, dst: string, now: int) {
    OnlyBelowChanged(t, Trashed(t, q, src, dst, now), q.user, src)
  }

  ghost predicate RestoreKeepsOthers(t: Table, q: Scope, trash: string, restored: string, now: int) {
    OnlyBelowChanged(t, Restored(t, q, trash, restored, now), q.user, trash)
  }

  /** Trashing, and likewise restoring, changes only rows at or below the path if and only if there are no strays. */
  lemma OthersStayExactly(t: Table, q: Scope, path: string, target: string)
    ensures (forall now :: TrashKeepsOthers(t, q, path, target, now)) <==> NoStrays(t, q, path)
    ensures (forall now :: RestoreKeepsOthers(t, q, path, target, now)) <==> NoStrays(t, q, path)
  {
    hide Like, Replace, LastSlash, NameOf, ParentOf, IsStray;
    if NoStrays(t, q, path) {
      forall id | id in t && !(t[id].user == q.user && AtOrBelow(path, t[id].path))
        ensures !IsMoved(t[id], q, path)
      {
        MovedAreAtOrBelow(t[id], q, path);
      }
      assert forall now :: TrashKeepsOthers(t, q, path, target, now);
      assert forall now :: RestoreKeepsOthers(t, q, path, target, now);
    } else {
      var id :| id in t && IsStray(t[id], q, path);
      var now := t[id].updatedAt + 1;
      StrayIsTaken(t[id], q, path, target, now);
      assert !TrashKeepsOthers(t, q, path, target, now) && !RestoreKeepsOthers(t, q, path, target, now);
    }
  }

  lemma StrayIsTaken(row: Row, q: Scope, path: string, target: string, now: int)
    requires IsStray(row, q, path)
    ensures !AtOrBelow(path, row.path)
    ensures TrashRow(row, q, path, target, now).updatedAt == now
    ensures RestoreRow(row, q, path, target, now).updatedAt == now
  {
    NotBelowItself(q.collation, path);
  }

  // ---- the unique index ----

  /** Re-rooting a tree, without strays, to a free place keeps paths unique. */
  lemma RerootKeepsUnique(t: Table, target: Table, q: Scope, src: string, dst: string)
    requires Unique(t) && NoStrays(t, q, src) && Free(t, q.user, dst) && Retargets(t, target, q, src, dst)
    ensures Unique(target)
  {
    hide Like, IsMoved;
    forall i, j | i in target && j in target && target[i].user == target[j].user && target[i].path == target[j].path
      ensures i == j
    {
      RerootedApart(t, target, q, src, dst, i, j);
    }
  }

  lemma RerootedApart(t: Table, target: Table, q: Scope, src: string, dst: string, i: RowId, j: RowId)
    requires Unique(t) && NoStrays(t, q, src) && Free(t, q.user, dst) && Retargets(t, target, q, src, dst)
    requires i in t && j in t && target[i].user == target[j].user && target[i].path == target[j].path
    ensures i == j
  {
    hide Like;
    if IsMoved(t[i], q, src) {
      MovedPath(t[i], q, src, dst, 0);
    }
    if IsMoved(t[j], q, src) {
      MovedPath(t[j], q, src, dst, 0);
      if IsMoved(t[i], q, src) {
        SameSuffix(src, dst, t[i].path, t[j].path);
      }
    }
  }

  /** The place is free, and the two statements find and rewrite just the rows at or below the path, each once. */
  ghost predicate CanTrash(t: Table, q: Scope, src: string, dst: string) {
    && NoStrays(t, q, src) && Free(t, q.user, dst) && TopStaysPut(q, src, dst)
    && OccursOnceBelow(t, q, src) && src != "" && dst != "" && dst[0] == '/'
  }

  /** Then trashing meets no other row. */
  lemma TrashKeepsUnique(t: Table, q: Scope, src: string, dst: string, now: int)
    requires Unique(t) && CanTrash(t, q, src, dst)
    ensures Unique(TopTrashed(t, q, src, dst, now)) && Unique(Trashed(t, q, src, dst, now))
  {
    hide Like, Replace, Occurs, OccursOnce, TrashRow;
    var target := Trashed(t, q, src, dst, now);
    forall id | id in t
      ensures if IsMoved(t[id], q, src) then target[id].user == q.user
                && target[id].path == NewPath(src, dst, t[id].path)
              else target[id] == t[id]
    {
      TrashedPath(t[id], q, src, dst, now);
    }
    RerootKeepsUnique(t, target, q, src, dst);
    assert Unique(TopTrashed(t, q, src, dst, now)) by {
      TopKeepsUnique(t, q, src, dst, now);
    }
  }

  lemma TopKeepsUnique(t: Table, q: Scope, src: string, dst: string, now: int)
    requires Unique(t) && Free(t, q.user, dst)
    ensures Unique(TopTrashed(t, q, src, dst, now))
  {}

  lemma TrashedPath(row: Row, q: Scope, src: string, dst: string, now: int)
    requires !IsStray(row, q, src) && TopStaysPut(q, src, dst) && src != "" && dst != "" && dst[0] == '/'
    requires row.user == q.user ==> !AtOrBelow(dst, row.path)
    requires row.user == q.user && src + "/" <= row.path ==> OccursOnce(row, src)
    ensures var row' := TrashRow(row, q, src, dst, now);
            if IsMoved(row, q, src) then row'.user == q.user && row'.path == NewPath(src, dst, row.path)
                else row' == row
  {
    hide Like, Replace, Occurs;
    MovedAreAtOrBelow(row, q, src);
    if row.user == q.user && row.path == src {
      TrashedTopAt(row, q, src, dst, now);
      assert dst + row.path[|src|..] == dst;
    } else if IsMoved(row, q, src) {
      assert src != dst;
      TrashIsRerootExactly(row, q, src, dst, now);
    }
  }
}
