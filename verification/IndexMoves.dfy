/** What moving a path does to the rows of the file index. */
module IndexMoves {
  import opened Wrappers
  import opened SqlText
  import opened FileRows

  /** Whose rows a query is about, and how the database compares letters in patterns. */
  datatype Scope = Scope(user: string, collation: Collation)

  const RecycleBin := "/.recycle_bin"

  /** The path with the first part of the old one replaced by the new one. */
  function NewPath(src: string, dst: string, path: string): string {
    if |src| <= |path| then dst + path[|src|..] else path
  }

  /** Moving out of the recycle bin, or not into it, clears the trash fields. */
  function Untrashed(row: Row, dst: string): Row {
    if RecycleBin <= dst then row else row.(trashedAt := None, originalPath := None)
  }

  function MoveTop(row: Row, dst: string, now: int): Row {
    Untrashed(row.(path := dst, name := NameOf(dst), parent := ParentOf(dst), updatedAt := now), dst)
  }

  function MoveChild(row: Row, src: string, dst: string, now: int): Row {
    var path := NewPath(src, dst, row.path);
    Untrashed(row.(path := path, parent := ParentOf(path), updatedAt := now), dst)
  }

  /** The rows a query for the children of `src` finds. */
  predicate IsChild(row: Row, q: Scope, src: string) {
    row.user == q.user && Like(q.collation, src + "/%", row.path)
  }

  predicate IsTop(row: Row, q: Scope, src: string) {
    row.user == q.user && row.path == src
  }

  predicate IsMoved(row: Row, q: Scope, src: string) {
    IsTop(row, q, src) || IsChild(row, q, src)
  }

  function MoveRow(row: Row, q: Scope, src: string, dst: string, now: int): Row {
    if IsTop(row, q, src) then MoveTop(row, dst, now)
    else if IsChild(row, q, src) then MoveChild(row, src, dst, now)
    else row
  }

  ghost function Moved(t: Table, q: Scope, src: string, dst: string, now: int): Table {
    map id | id in t :: MoveRow(t[id], q, src, dst, now)
  }

  // ---- the rows a pattern finds ----

  /** The pattern for the rows below `path` finds the row, though it is not below. */
  predicate IsStray(row: Row, q: Scope, path: string) {
    IsChild(row, q, path) && !(path + "/" <= row.path)
  }

  /** The pattern for the rows below `path` finds no others in this table. */
  ghost predicate NoStrays(t: Table, q: Scope, path: string) {
    forall id :: id in t ==> !IsStray(t[id], q, path)
  }

  /** Unless it is a stray, a row is found when it is at or below the path, and only then. */
  lemma MovedAreAtOrBelow(row: Row, q: Scope, src: string)
    ensures row.user == q.user && AtOrBelow(src, row.path) ==> IsMoved(row, q, src)
    ensures !IsStray(row, q, src) ==> (IsMoved(row, q, src) <==> row.user == q.user && AtOrBelow(src, row.path))
  {
    assert src + "/%" == (src + "/") + "%";
    if src + "/" <= row.path {
      PrefixMatches(q.collation, src + "/", row.path);
    }
  }

  function RowAt(user: string, path: string): Row {
    Row(user, path, ParentOf(path), NameOf(path), false, 0, 0, None, None, None, NoLocation, 0, 0, None)
  }

  /** No table has strays for a path exactly when the path is plain. */
  lemma NeverStraysExactly(q: Scope, path: string)
    ensures (forall t: Table :: NoStrays(t, q, path)) <==> Plain(q.collation, path)
  {
    var prefix := path + "/";
    assert path + "/%" == prefix + "%";
    LikeIsPrefixExactly(q.collation, prefix);
    if Plain(q.collation, path) {
      assert Plain(q.collation, prefix);
      assert forall row :: IsChild(row, q, path) ==> TestsPrefix(q.collation, prefix, row.path);
    } else {
      assert !Plain(q.collation, prefix) by {
        var i :| 0 <= i < |path| && !MatchesOnlyItself(q.collation, path[i]);
        assert prefix[i] == path[i];
      }
      var s :| !TestsPrefix(q.collation, prefix, s);
      if prefix <= s {
        PrefixMatches(q.collation, prefix, s);
      }
      var t: Table := map["id" := RowAt(q.user, s)];
      assert IsStray(t["id"], q, path);
      assert !NoStrays(t, q, path);
    }
  }

  /** Moving one directory takes a row of another along: an underscore in the name matches any character. */
  lemma UnderscoreTakesOtherTree(row: Row, q: Scope, now: int)
    requires row.user == q.user && row.path == "/axb/c"
    ensures !AtOrBelow("/a_b", row.path) && MoveRow(row, q, "/a_b", "/d", now).path == "/d/c"
  {
    PrefixMatches(q.collation, "b/", "b/c");
    assert "_b/%"[1..] == "b/%" && "xb/c"[1..] == "b/c" && "b/" + "%" == "b/%";
    assert Like(q.collation, "_b/%", "xb/c");
    SameTextMatches(q.collation, "/a", "_b/%", "xb/c");
    assert "/a" + "_b/%" == "/a_b" + "/%" && "/a" + "xb/c" == row.path;
    assert "/a_b" != row.path && row.path[2] != "/a_b/"[2];
  }

  /** Where case is ignored, so does a directory whose name differs in case only. */
  lemma CaseTakesOtherTree(row: Row, q: Scope, now: int)
    requires q.collation == IgnoresAsciiCase && row.user == q.user && row.path == "/A/c"
    ensures !AtOrBelow("/a", row.path) && MoveRow(row, q, "/a", "/d", now).path == "/d/c"
  {
    PrefixMatches(q.collation, "/", "/c");
    assert "a/%"[1..] == "/%" && "A/c"[1..] == "/c" && "/" + "%" == "/%";
    assert Like(q.collation, "a/%", "A/c");
    SameTextMatches(q.collation, "/", "a/%", "A/c");
    assert "/" + "a/%" == "/a" + "/%" && "/" + "A/c" == row.path;
    assert "/a" != row.path && row.path[1] != "/a/"[1];
  }

  // ---- what a move does to a row ----

  /** The move as it is meant: the rows at or below `src`, and no others, go to the same suffix below `dst`. */
  function RerootRow(row: Row, user: string, src: string, dst: string, now: int): Row {
    if row.user == user && AtOrBelow(src, row.path) then
      var path := NewPath(src, dst, row.path);
      Untrashed(row, dst).(path := path, parent := ParentOf(path), name := NameOf(path), updatedAt := now)
    else row
  }

  ghost function Rerooted(t: Table, user: string, src: string, dst: string, now: int): Table {
    map id | id in t :: RerootRow(t[id], user, src, dst, now)
  }

  ghost predicate MoveIsReroot(t: Table, q: Scope, src: string, dst: string, now: int) {
    Moved(t, q, src, dst, now) == Rerooted(t, q.user, src, dst, now)
  }

  /** A move re-roots exactly the rows at or below its source, whatever the time, if and only if there are no strays. */
  lemma MoveRerootsExactly(t: Table, q: Scope, src: string, dst: string)
    requires AllWellNamed(t)
    ensures (forall now :: MoveIsReroot(t, q, src, dst, now)) <==> NoStrays(t, q, src)
  {
    if NoStrays(t, q, src) {
      forall now
        ensures MoveIsReroot(t, q, src, dst, now)
      {
        forall id | id in t
          ensures MoveRow(t[id], q, src, dst, now) == RerootRow(t[id], q.user, src, dst, now)
        {
          MovedAreAtOrBelow(t[id], q, src);
          if IsMoved(t[id], q, src) {
            MoveKeepsSuffix(t[id], q, src, dst, now);
          }
        }
      }
    } else {
      var id :| id in t && IsStray(t[id], q, src);
      NotBelowItself(q.collation, src);
      var now := t[id].updatedAt + 1;
      StrayIsStamped(t[id], q, src, dst, now);
      assert Moved(t, q, src, dst, now)[id] != Rerooted(t, q.user, src, dst, now)[id];
      assert !MoveIsReroot(t, q, src, dst, now);
    }
  }

  lemma StrayIsStamped(row: Row, q: Scope, src: string, dst: string, now: int)
    requires IsStray(row, q, src)
    ensures !AtOrBelow(src, row.path) && MoveRow(row, q, src, dst, now).updatedAt == now
  {
    NotBelowItself(q.collation, src);
  }

  /** A moved row keeps its suffix, and everything else but its time stamp and trash fields. */
  lemma MoveKeepsSuffix(row: Row, q: Scope, src: string, dst: string, now: int)
    requires row.user == q.user && AtOrBelow(src, row.path) && WellNamed(row)
    ensures var row' := MoveRow(row, q, src, dst, now);
            && src <= row.path && row'.path == dst + row.path[|src|..] && AtOrBelow(dst, row'.path)
            && row' == Untrashed(row, dst).(path := row'.path, parent := ParentOf(row'.path),
                                            name := NameOf(row'.path), updatedAt := now)
  {
    hide Like, LastSlash;
    MovedAreAtOrBelow(row, q, src);
    AtOrBelowByConcat(src, row.path);
    var rest := row.path[|src|..];
    CutConcat(src, row.path[|src|..], 0);
    CutConcat(dst, rest, 0);
    AtOrBelowByConcat(dst, dst + rest);
    if rest == "" {
      assert row.path == src && dst + rest == dst;
    } else {
      hide AtOrBelow;
      assert row.path == src + rest && row.path != src;
      hide ParentOf;
      NameOfConcat(src, rest);
      NameOfConcat(dst, rest);
    }
  }

  /**
   * The columns of a moved row other than path, parent and name: it is stamped, keeps its trash fields
   * when the move goes into the recycle bin and loses them otherwise, and keeps everything else.
   */
  lemma MovedColumns(row: Row, q: Scope, src: string, dst: string, now: int)
    requires IsMoved(row, q, src)
    ensures var row' := MoveRow(row, q, src, dst, now);
            && row'.user == row.user && row'.isDir == row.isDir && row'.size == row.size
            && row'.favorite == row.favorite && row'.fileUpdated == row.fileUpdated && row'.location == row.location
            && row'.createdAt == row.createdAt && row'.deletedAt == row.deletedAt && row'.updatedAt == now
            && if "/.recycle_bin" <= dst then row'.trashedAt == row.trashedAt && row'.originalPath == row.originalPath
               else row'.trashedAt == None && row'.originalPath == None
  {
    hide Like, LastSlash, NameOf, ParentOf;
  }

  /** A path's name is cut from its end. */
  lemma NameOfConcat(dir: string, rest: string)
    requires rest != "" && rest[0] == '/'
    ensures NameOf(dir + rest) == NameOf(rest)
  {
    LastSlashOfConcat(dir, rest);
    hide LastSlash;
    CutConcat(dir, rest, LastSlash(rest) + 1);
  }

  /** A path's parent keeps what the path starts with. */
  lemma ParentOfConcat(dir: string, rest: string)
    requires rest != "" && rest[0] == '/'
    ensures var k := LastSlash(rest);
            k >= 0 && ParentOf(dir + rest) == if dir == "" && k == 0 then "/" else dir + rest[..k]
  {
    LastSlashOfConcat(dir, rest);
    hide LastSlash;
    CutConcat(dir, rest, LastSlash(rest));
  }

  lemma CutConcat(a: string, b: string, k: nat)
    requires k <= |b|
    ensures (a + b)[|a| + k..] == b[k..] && (a + b)[..|a| + k] == a + b[..k]
  {}

  /** After a move every row's path is still its parent and its name. */
  lemma MoveKeepsNames(t: Table, q: Scope, src: string, dst: string, now: int)
    requires AllWellNamed(t) && NoStrays(t, q, src)
    ensures AllWellNamed(Moved(t, q, src, dst, now))
  {
    forall id | id in t
      ensures WellNamed(MoveRow(t[id], q, src, dst, now))
    {
      MovedAreAtOrBelow(t[id], q, src);
      if IsMoved(t[id], q, src) {
        MoveKeepsSuffix(t[id], q, src, dst, now);
      }
    }
  }

  /** A row in the way: one that stays, at the new path of one that moves. */
  ghost predicate InTheWay(t: Table, q: Scope, src: string, dst: string, i: RowId, j: RowId) {
    && i in t && j in t && IsMoved(t[i], q, src) && !IsMoved(t[j], q, src)
    && t[j].user == q.user && t[j].path == NewPath(src, dst, t[i].path)
  }

  ghost predicate Collides(t: Table, q: Scope, src: string, dst: string) {
    exists i, j :: InTheWay(t, q, src, dst, i, j)
  }

  lemma MovedPath(row: Row, q: Scope, src: string, dst: string, now: int)
    requires IsMoved(row, q, src) && !IsStray(row, q, src)
    ensures var row' := MoveRow(row, q, src, dst, now);
            && row.user == q.user && row'.user == q.user && src <= row.path
            && row'.path == NewPath(src, dst, row.path) == dst + row.path[|src|..]
            && AtOrBelow(src, row.path) && AtOrBelow(dst, row'.path)
  {
    hide Like, LastSlash, NameOf, ParentOf;
    MovedAreAtOrBelow(row, q, src);
    AtOrBelowByConcat(src, row.path);
    AtOrBelowByConcat(dst, dst + row.path[|src|..]);
    if row.path == src {
      assert dst + row.path[|src|..] == dst;
    }
  }

  /** In the target a moved row is at its new path, and the others are as they were. */
  ghost predicate Retargets(was: Table, target: Table, q: Scope, src: string, dst: string) {
    && target.Keys == was.Keys
    && forall id :: id in was ==>
         if IsMoved(was[id], q, src) then target[id].user == q.user
             && target[id].path == NewPath(src, dst, was[id].path)
         else target[id] == was[id]
  }

  lemma SameSuffix(src: string, dst: string, p: string, q: string)
    requires src <= p && src <= q && dst + p[|src|..] == dst + q[|src|..]
    ensures p == q
  {
    var a, b := p[|src|..], q[|src|..];
    assert (dst + a)[|dst|..] == a && (dst + b)[|dst|..] == b;
    assert p == src + a && q == src + b;
  }

  /** The row is as it was, or, if done, at its new path. */
  ghost predicate AtItsPlace(was: Row, row: Row, moved: bool, src: string, dst: string) {
    if moved then row.user == was.user && row.path == NewPath(src, dst, was.path) else row == was
  }

  /**
   * Whichever rows were moved before, the next one meets another row at its new path only if a row
   * that stays is in the way, unless one of the two directories is inside the other and not free.
   */
  lemma NextMoveIsFree(t: Table, done: set<RowId>, next: RowId, other: RowId, row: Row,
                       q: Scope, src: string, dst: string)
    requires Unique(t) && NoStrays(t, q, src) && (NotNested(src, dst) || Free(t, q.user, dst))
    requires next in t && IsMoved(t[next], q, src) && other in t && other != next
    requires forall id :: id in done ==> id in t && IsMoved(t[id], q, src)
    requires AtItsPlace(t[other], row, other in done, src, dst)
    requires row.user == q.user && row.path == NewPath(src, dst, t[next].path)
    ensures Collides(t, q, src, dst)
  {
    hide Like;
    MovedPath(t[next], q, src, dst, 0);
    if other in done {
      MovedPath(t[other], q, src, dst, 0);
      SameSuffix(src, dst, t[next].path, t[other].path);
    } else if IsMoved(t[other], q, src) {
      MovedPath(t[other], q, src, dst, 0);
      if NotNested(src, dst) {
        NestedIfShared(src, dst, t[other].path);
      }
    } else {
      assert InTheWay(t, q, src, dst, next, other);
    }
  }

  /** The new path of a row, stray or not. */
  lemma MovedTo(row: Row, q: Scope, src: string, dst: string, now: int)
    requires IsMoved(row, q, src)
    ensures var row' := MoveRow(row, q, src, dst, now);
            row'.user == row.user && row'.path == NewPath(src, dst, row.path)
  {
    hide Like, LastSlash, NameOf, ParentOf;
    if row.path == src {
      assert dst + row.path[|src|..] == dst;
    }
  }

  /** A collision leaves two rows of the target with one path. */
  lemma CollisionClashes(t: Table, target: Table, q: Scope, src: string, dst: string)
    requires Collides(t, q, src, dst) && Retargets(t, target, q, src, dst)
    ensures !Unique(target)
  {
    hide Like, IsMoved;
    var i, j :| InTheWay(t, q, src, dst, i, j);
    assert target[i].path == target[j].path && target[i].user == target[j].user;
  }

  /** A collision makes the moved table break the unique index. */
  lemma CollisionBreaksUnique(t: Table, q: Scope, src: string, dst: string, now: int)
    requires Collides(t, q, src, dst)
    ensures !Unique(Moved(t, q, src, dst, now))
  {
    forall id | id in t && IsMoved(t[id], q, src)
      ensures MoveRow(t[id], q, src, dst, now).user == q.user
      ensures MoveRow(t[id], q, src, dst, now).path == NewPath(src, dst, t[id].path)
    {
      MovedTo(t[id], q, src, dst, now);
    }
    CollisionClashes(t, Moved(t, q, src, dst, now), q, src, dst);
  }

  // ---- moving back ----

  /** Nothing of the user is at or below the path. */
  ghost predicate Free(t: Table, user: string, path: string) {
    forall id :: id in t && t[id].user == user ==> !AtOrBelow(path, t[id].path)
  }

  /** A query for the path and the rows below it finds nothing. */
  ghost predicate Vacant(t: Table, q: Scope, path: string) {
    forall id :: id in t ==> !IsMoved(t[id], q, path)
  }

  ghost predicate LiveBelow(t: Table, user: string, src: string) {
    forall id :: id in t && t[id].user == user && AtOrBelow(src, t[id].path) ==>
                   t[id].trashedAt.None? && t[id].originalPath.None?
  }

  /** The same table but for the time stamps of the rows. */
  ghost predicate SameButStamps(a: Table, b: Table) {
    a.Keys == b.Keys && forall id :: id in a ==> a[id] == b[id].(updatedAt := a[id].updatedAt)
  }

  /** Moving a live tree, without strays, to a vacant place and back again restores the table. */
  lemma MoveBackRestores(t: Table, q: Scope, src: string, dst: string, now: int, later: int)
    requires AllWellNamed(t) && LiveBelow(t, q.user, src) && NoStrays(t, q, src) && Vacant(t, q, dst)
    ensures SameButStamps(Moved(Moved(t, q, src, dst, now), q, dst, src, later), t)
  {
    forall id | id in t
      ensures var back := MoveRow(MoveRow(t[id], q, src, dst, now), q, dst, src, later);
              back == t[id].(updatedAt := back.updatedAt)
    {
      RowMovesBack(t[id], q, src, dst, now, later);
    }
  }

  lemma RowMovesBack(row: Row, q: Scope, src: string, dst: string, now: int, later: int)
    requires WellNamed(row) && !IsStray(row, q, src) && !IsMoved(row, q, dst)
    requires row.user == q.user && AtOrBelow(src, row.path) ==> row.trashedAt.None? && row.originalPath.None?
    ensures var back := MoveRow(MoveRow(row, q, src, dst, now), q, dst, src, later);
            back == row.(updatedAt := back.updatedAt)
  {
    hide MoveRow, WellNamed, AtOrBelow, IsStray;
    MovedAreAtOrBelow(row, q, src);
    if IsMoved(row, q, src) {
      MovedRowMovesBack(row, q, src, dst, now, later);
    } else {
      UnmovedRow(row, q, src, dst, now);
      UnmovedRow(row, q, dst, src, later);
    }
  }

  lemma UnmovedRow(row: Row, q: Scope, src: string, dst: string, now: int)
    requires !IsMoved(row, q, src)
    ensures MoveRow(row, q, src, dst, now) == row
  {}

  lemma MovedRowMovesBack(row: Row, q: Scope, src: string, dst: string, now: int, later: int)
    requires WellNamed(row)
    requires row.user == q.user && AtOrBelow(src, row.path) && row.trashedAt.None? && row.originalPath.None?
    ensures var back := MoveRow(MoveRow(row, q, src, dst, now), q, dst, src, later);
            back == row.(updatedAt := back.updatedAt)
  {
    hide MoveRow, AtOrBelow, LastSlash, NameOf, ParentOf;
    MoveKeepsSuffix(row, q, src, dst, now);
    var there := MoveRow(row, q, src, dst, now);
    assert there == row.(path := there.path, parent := ParentOf(there.path), name := NameOf(there.path),
        updatedAt := now);
    MoveKeepsSuffix(there, q, dst, src, later);
    assert (dst + row.path[|src|..])[|dst|..] == row.path[|src|..];
    assert src + row.path[|src|..] == row.path;
  }

  /** Nothing is in the way of a move to a free place. */
  lemma FreeIsNoCollision(t: Table, q: Scope, src: string, dst: string)
    requires Free(t, q.user, dst) && NoStrays(t, q, src)
    ensures !Collides(t, q, src, dst)
  {
    hide Like;
    if Collides(t, q, src, dst) {
      var i, j :| InTheWay(t, q, src, dst, i, j);
      MovedPath(t[i], q, src, dst, 0);
    }
  }
}
