/** The rows of the file index, and how a path is cut into parent and name. */
module FileRows {
  import opened Wrappers

  type RowId = string

  /** Where the content of a file is stored: the columns only writes of a single entry set. */
  datatype Location = Location(
    storageId: Option<string>, backendType: Option<string>, backendKey: Option<string>,
    physicalSize: Option<int>, protectedMeta: Option<string>)

  const NoLocation := Location(None, None, None, None, None)

  datatype Row = Row(
    user: string, path: string, parent: string, name: string, isDir: bool, size: int, favorite: int,
    fileUpdated: Option<int>, trashedAt: Option<int>, originalPath: Option<string>, location: Location,
    createdAt: int, updatedAt: int, deletedAt: Option<int>)

  type Table = map<RowId, Row>

  datatype DbError = Unavailable | UniqueViolation | Panicked

  /** The unique index: no two rows of one user have the same path. */
  ghost predicate Unique(t: Table) {
    forall i, j :: i in t && j in t && t[i].user == t[j].user && t[i].path == t[j].path ==> i == j
  }

  // ---- cutting a path at its last slash ----

  function LastSlash(s: string): (k: int)
    ensures -1 <= k < |s|
    ensures k >= 0 ==> s[k] == '/'
    ensures forall l :: k < l < |s| ==> s[l] != '/'
  {
    if s == "" then -1
    else if s[|s| - 1] == '/' then |s| - 1
    else LastSlash(s[..|s| - 1])
  }

  function NameOf(path: string): string {
    path[LastSlash(path) + 1..]
  }

  function ParentOf(path: string): string {
    if LastSlash(path) <= 0 then "/" else path[..LastSlash(path)]
  }

  /** The row's path is its parent path and its name. */
  predicate WellNamed(row: Row) {
    row.parent == ParentOf(row.path) && row.name == NameOf(row.path)
  }

  ghost predicate AllWellNamed(t: Table) {
    forall id :: id in t ==> WellNamed(t[id])
  }

  /** An absolute path that does not start with two slashes. */
  predicate Absolute(path: string) {
    path != "" && path[0] == '/' && (|path| >= 2 ==> path[1] != '/')
  }

  lemma ParentAndNameJoin(path: string)
    requires Absolute(path)
    ensures path == (if ParentOf(path) == "/" then "/" else ParentOf(path) + "/") + NameOf(path)
    ensures '/' !in NameOf(path)
  {
    var k := LastSlash(path);
    assert path == path[..k] + [path[k]] + path[k + 1..];
    if k > 1 {
      assert path[..k] != "/" by {
        assert |path[..k]| == k;
      }
    }
  }

  lemma LastSlashOfConcat(a: string, b: string)
    requires b != "" && b[0] == '/'
    ensures LastSlash(b) >= 0 && LastSlash(a + b) == |a| + LastSlash(b)
  {
    var k, l := LastSlash(a + b), LastSlash(b);
    assert b[0] == '/' && l >= 0;
    assert (a + b)[|a| + l] == b[l];
    forall m | |a| + l < m < |a + b|
      ensures (a + b)[m] != '/'
    {
      assert (a + b)[m] == b[m - |a|];
    }
  }

  /** `path` is `dir` or lies below it. */
  predicate AtOrBelow(dir: string, path: string) {
    path == dir || dir + "/" <= path
  }

  lemma AtOrBelowByConcat(dir: string, path: string)
    ensures AtOrBelow(dir, path) <==>
            dir <= path && (path[|dir|..] == "" || path[|dir|] == '/')
  {
    if dir <= path && path[|dir|..] != "" && path[|dir|] == '/' {
      assert path[..|dir| + 1] == dir + "/";
    }
    if dir + "/" <= path {
      assert path[|dir|] == (dir + "/")[|dir|];
    }
  }

  /** Neither path is inside the other. */
  predicate NotNested(a: string, b: string) {
    !AtOrBelow(a, b) && !AtOrBelow(b, a)
  }

  /** No path is inside two directories neither of which is inside the other. */
  lemma NestedIfShared(a: string, b: string, path: string)
    requires AtOrBelow(a, path) && AtOrBelow(b, path)
    ensures !NotNested(a, b)
  {
    AtOrBelowByConcat(a, path);
    AtOrBelowByConcat(b, path);
    AtOrBelowByConcat(a, b);
    AtOrBelowByConcat(b, a);
    if |a| <= |b| {
      assert a == path[..|a|] == b[..|a|];
    } else {
      assert b == path[..|b|] == a[..|b|];
    }
  }
}
