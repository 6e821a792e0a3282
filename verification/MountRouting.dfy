/** Longest-prefix routing of logical paths to mounts, and the way back. */
module MountRouting {
  import opened Wrappers
  import opened Text
  import opened Paths

  datatype Mount = Mount(id: string, dir: string)

  /** A mount and the path inside it. */
  datatype Route = Route(mount: Mount, remote: string)

  function NormalizeLogicalPath(path: string): string {
    if path != "" && path[0] == '/' then path else "/" + path
  }

  function NormalizeDirPath(path: string): string {
    if path == "/" then "/" else TrimEnd(NormalizeLogicalPath(path), Only('/'))
  }

  /** `path` is `dir` or lies below it. */
  predicate IsPathWithin(path: string, dir: string) {
    dir == "/" || path == dir || (dir <= path && |path| > |dir| && path[|dir|] == '/')
  }

  /** An absolute directory path without a trailing slash, or the root. */
  predicate Canonical(dir: string) {
    dir != "" && dir[0] == '/' && (dir == "/" || dir[|dir| - 1] != '/')
  }

  // ---- the order of the mounts ----

  ghost predicate LongestFirst(mounts: seq<Mount>) {
    forall i, j :: 0 <= i < j < |mounts| ==> |mounts[i].dir| >= |mounts[j].dir|
  }

  /** Inserts a mount after those whose directory is at least as long: a step of a stable sort. */
  function Insert(m: Mount, sorted: seq<Mount>): seq<Mount> {
    if sorted != [] && |sorted[0].dir| >= |m.dir| then [sorted[0]] + Insert(m, sorted[1..]) else [m] + sorted
  }

  /** The order a mounted storage keeps its mounts in: by length of directory, longest first. */
  function SortMounts(mounts: seq<Mount>): seq<Mount> {
    if mounts == [] then [] else Insert(mounts[|mounts| - 1], SortMounts(mounts[..|mounts| - 1]))
  }

  lemma {:induction false} InsertSorts(m: Mount, sorted: seq<Mount>)
    requires LongestFirst(sorted)
    ensures LongestFirst(Insert(m, sorted))
    ensures multiset(Insert(m, sorted)) == multiset(sorted) + multiset{m}
  {
    if sorted != [] && |sorted[0].dir| >= |m.dir| {
      var first, rest := sorted[0], Insert(m, sorted[1..]);
      InsertSorts(m, sorted[1..]);
      assert sorted == [first] + sorted[1..];
      hide Insert;
      forall k | 0 <= k < |rest|
        ensures |first.dir| >= |rest[k].dir|
      {
        assert rest[k] in multiset(rest);
        assert rest[k] == m || rest[k] in sorted[1..];
      }
      InFront(first, rest);
    } else {
      hide Insert;
      InFront(m, sorted);
    }
  }

  lemma InFront(first: Mount, rest: seq<Mount>)
    requires LongestFirst(rest) && forall k :: 0 <= k < |rest| ==> |first.dir| >= |rest[k].dir|
    ensures LongestFirst([first] + rest) && multiset([first] + rest) == multiset(rest) + multiset{first}
  {}

  lemma {:induction false} SortMountsSorts(mounts: seq<Mount>)
    ensures LongestFirst(SortMounts(mounts)) && multiset(SortMounts(mounts)) == multiset(mounts)
  {
    if mounts != [] {
      SortMountsSorts(mounts[..|mounts| - 1]);
      InsertSorts(mounts[|mounts| - 1], SortMounts(mounts[..|mounts| - 1]));
      assert mounts == mounts[..|mounts| - 1] + [mounts[|mounts| - 1]];
    }
  }

  // ---- resolving ----

  /** The path inside a mount, if the mount holds the normalized path. */
  function RemotePath(m: Mount, normalized: string): Option<string> {
    if m.dir == "/" then Some(normalized)
    else if normalized == m.dir then Some("/")
    else if m.dir <= normalized && normalized[|m.dir|..] != "" && normalized[|m.dir|] == '/'
    then Some(NormalizeLogicalPath(normalized[|m.dir|..]))
    else None
  }

  /** The first mount of the list that holds the path, and the path inside it. */
  function Resolve(mounts: seq<Mount>, path: string): Option<Route> {
    if mounts == [] then None
    else match RemotePath(mounts[0], NormalizeDirPath(path))
      case Some(remote) => Some(Route(mounts[0], remote))
      case None => Resolve(mounts[1..], path)
  }

  method ResolveRuntime(mounts: seq<Mount>, path: string) returns (r: Option<Route>)
    ensures r == Resolve(mounts, path)
  {
    var normalized := NormalizeDirPath(path);
    assert mounts[0..] == mounts;
    for i := 0 to |mounts|
      invariant Resolve(mounts, path) == Resolve(mounts[i..], path)
    {
      assert mounts[i..][1..] == mounts[i + 1..];
      var remote := RemotePath(mounts[i], normalized);
      if remote.Some? {
        return Some(Route(mounts[i], remote.value));
      }
    }
    r := None;
  }

  lemma HoldsIffWithin(m: Mount, normalized: string)
    ensures RemotePath(m, normalized).Some? <==> IsPathWithin(normalized, m.dir)
  {}

  ghost predicate ValidMounts(mounts: seq<Mount>) {
    && (forall m :: m in mounts ==> Canonical(m.dir))
    && (forall i, j :: 0 <= i < j < |mounts| ==> mounts[i].dir != mounts[j].dir)
  }

  ghost predicate NoneHolds(mounts: seq<Mount>, n: string, before: nat)
    requires before <= |mounts|
  {
    forall j :: 0 <= j < before ==> !IsPathWithin(n, mounts[j].dir)
  }

  ghost predicate FirstHolder(mounts: seq<Mount>, n: string, route: Route, i: nat) {
    && i < |mounts|
    && route.mount == mounts[i]
    && RemotePath(route.mount, n) == Some(route.remote)
    && NoneHolds(mounts, n, i)
  }

  lemma {:induction false} ResolveIsFirst(mounts: seq<Mount>, path: string)
    ensures Resolve(mounts, path).None? ==> NoneHolds(mounts, NormalizeDirPath(path), |mounts|)
    ensures Resolve(mounts, path).Some? ==>
              exists i: nat :: FirstHolder(mounts, NormalizeDirPath(path), Resolve(mounts, path).value, i)
  {
    if mounts != [] {
      var n := NormalizeDirPath(path);
      HoldsIffWithin(mounts[0], n);
      ResolveIsFirst(mounts[1..], path);
      if RemotePath(mounts[0], n).Some? {
        assert FirstHolder(mounts, n, Resolve(mounts, path).value, 0);
      } else if Resolve(mounts, path).Some? {
        var route := Resolve(mounts, path).value;
        var i: nat :| FirstHolder(mounts[1..], n, route, i);
        ShiftNoneHolds(mounts, n, i);
        assert FirstHolder(mounts, n, route, i + 1);
      } else {
        ShiftNoneHolds(mounts, n, |mounts| - 1);
      }
    }
  }

  lemma ShiftNoneHolds(mounts: seq<Mount>, n: string, before: nat)
    requires before < |mounts| && NoneHolds(mounts[1..], n, before) && !IsPathWithin(n, mounts[0].dir)
    ensures NoneHolds(mounts, n, before + 1)
  {
    forall j | 0 <= j < before + 1
      ensures !IsPathWithin(n, mounts[j].dir)
    {
      assert j > 0 ==> mounts[j] == mounts[1..][j - 1];
    }
  }

  /** Two canonical directories of equal length that hold one path are the same. */
  lemma SameLengthSameDir(n: string, d: string, e: string)
    requires Canonical(d) && Canonical(e) && IsPathWithin(n, d) && IsPathWithin(n, e) && |d| == |e|
    ensures d == e
  {
    if d != "/" && e != "/" {
      assert n[..|d|] == d && n[..|e|] == e;
    }
  }

  /** Sorting keeps the mounts, so what is found is one of them and holds the path. */
  lemma FoundHolds(mounts: seq<Mount>, path: string) returns (i: nat)
    requires Resolve(SortMounts(mounts), path).Some?
    ensures var n, route := NormalizeDirPath(path), Resolve(SortMounts(mounts), path).value;
            && FirstHolder(SortMounts(mounts), n, route, i)
            && route.mount in mounts && IsPathWithin(n, route.mount.dir)
  {
    var sorted, n := SortMounts(mounts), NormalizeDirPath(path);
    SortMountsSorts(mounts);
    ResolveIsFirst(sorted, path);
    hide SortMounts, Resolve, NormalizeDirPath;
    var route := Resolve(sorted, path).value;
    i :| FirstHolder(sorted, n, route, i);
    HoldsIffWithin(route.mount, n);
    assert route.mount in multiset(sorted) && route.mount in multiset(mounts);
  }

  lemma SortedPlace(mounts: seq<Mount>, m: Mount) returns (k: nat)
    requires m in mounts
    ensures k < |SortMounts(mounts)| && SortMounts(mounts)[k] == m
  {
    SortMountsSorts(mounts);
    hide SortMounts;
    assert m in multiset(mounts) && m in multiset(SortMounts(mounts)) && m in SortMounts(mounts);
    k :| k < |SortMounts(mounts)| && SortMounts(mounts)[k] == m;
  }

  /** Nothing is found only when no mount holds the path. */
  lemma NoneFoundNoneHolds(mounts: seq<Mount>, path: string, other: Mount)
    requires other in mounts && Resolve(SortMounts(mounts), path).None?
    ensures !IsPathWithin(NormalizeDirPath(path), other.dir)
  {
    ResolveIsFirst(SortMounts(mounts), path);
    var k := SortedPlace(mounts, other);
  }

  /** No other mount that holds the path has a directory as long as the one found. */
  lemma FoundIsLongest(mounts: seq<Mount>, path: string, other: Mount)
    requires ValidMounts(mounts) && other in mounts && Resolve(SortMounts(mounts), path).Some?
    requires IsPathWithin(NormalizeDirPath(path), other.dir) && other != Resolve(SortMounts(mounts), path).value.mount
    ensures |other.dir| < |Resolve(SortMounts(mounts), path).value.mount.dir|
  {
    var i := FoundHolds(mounts, path);
    var k := SortedPlace(mounts, other);
    SortMountsSorts(mounts);
    hide SortMounts, Resolve, NormalizeDirPath, RemotePath;
    var sorted, n := SortMounts(mounts), NormalizeDirPath(path);
    var m := Resolve(sorted, path).value.mount;
    if |other.dir| == |m.dir| {
      assert Canonical(other.dir) && Canonical(m.dir);
      SameLengthSameDir(n, other.dir, m.dir);
      EqualDirEqualMount(mounts, other, m);
    }
  }

  /**
   * Among mounts with distinct canonical directories, sorted as the storage sorts them, resolving
   * gives the unique longest directory that holds the path, and nothing exactly when none does.
   */
  lemma ResolvesToLongest(mounts: seq<Mount>, path: string, other: Mount)
    requires ValidMounts(mounts) && other in mounts
    ensures var n := NormalizeDirPath(path);
            match Resolve(SortMounts(mounts), path)
            case None => !IsPathWithin(n, other.dir)
            case Some(route) =>
              route.mount in mounts && IsPathWithin(n, route.mount.dir)
              && (IsPathWithin(n, other.dir) && other != route.mount ==> |other.dir| < |route.mount.dir|)
  {
    hide SortMounts, Resolve, NormalizeDirPath, IsPathWithin;
    if Resolve(SortMounts(mounts), path).None? {
      NoneFoundNoneHolds(mounts, path, other);
    } else {
      var i := FoundHolds(mounts, path);
      if IsPathWithin(NormalizeDirPath(path), other.dir) && other != Resolve(SortMounts(mounts), path).value.mount {
        FoundIsLongest(mounts, path, other);
      }
    }
  }

  lemma EqualDirEqualMount(mounts: seq<Mount>, a: Mount, b: Mount)
    requires ValidMounts(mounts) && a in mounts && b in mounts && a.dir == b.dir
    ensures a == b
  {
    var i :| 0 <= i < |mounts| && mounts[i] == a;
    var j :| 0 <= j < |mounts| && mounts[j] == b;
  }

  lemma ResolvesNoneExactly(mounts: seq<Mount>, path: string)
    requires ValidMounts(mounts)
    ensures Resolve(SortMounts(mounts), path).None?
            <==> forall m :: m in mounts ==> !IsPathWithin(NormalizeDirPath(path), m.dir)
  {
    if Resolve(SortMounts(mounts), path).None? {
      forall m | m in mounts
        ensures !IsPathWithin(NormalizeDirPath(path), m.dir)
      {
        ResolvesToLongest(mounts, path, m);
      }
    } else {
      var sorted := SortMounts(mounts);
      SortMountsSorts(mounts);
      ResolveIsFirst(sorted, path);
      var m := Resolve(sorted, path).value.mount;
      assert m in multiset(sorted) && m in mounts;
      ResolvesToLongest(mounts, path, m);
    }
  }

  // ---- mapping back ----

  function MapRuntimePath(m: Mount, remote: string): string {
    if remote == "/" || remote == "" then m.dir else JoinRoot(m.dir, TrimStart(remote, Only('/')))
  }

  /** The root of a mount, written either way, is the mount's directory. */
  lemma RootOfMount(m: Mount)
    ensures MapRuntimePath(m, "/") == m.dir == MapRuntimePath(m, "")
  {}

  /** Two slashes follow the mount's directory in the path; for the root mount, two slashes start it. */
  predicate DoubleSlashAfter(dir: string, normalized: string) {
    var at := if dir == "/" then 0 else |dir|;
    |normalized| >= at + 2 && normalized[at] == '/' && normalized[at + 1] == '/'
  }

  lemma TrimStartOfSlash(s: string)
    requires s != "" && s[0] == '/'
    ensures TrimStart(s, Only('/')) == TrimStart(s[1..], Only('/'))
    ensures |TrimStart(s[1..], Only('/'))| <= |s| - 1
    ensures |s| >= 2 && s[1] == '/' ==> |TrimStart(s[1..], Only('/'))| <= |s| - 2
  {
    TrimStartShorter(s[1..]);
    if |s| >= 2 {
      TrimStartShorter(s[2..]);
      assert s[1..][1..] == s[2..];
    }
  }

  lemma {:induction false} TrimStartShorter(s: string)
    ensures |TrimStart(s, Only('/'))| <= |s|
    ensures s != "" && s[|s| - 1] != '/' ==> TrimStart(s, Only('/')) != ""
  {
    if s != "" && s[0] == '/' {
      TrimStartShorter(s[1..]);
    }
  }

  lemma NormalizedShape(path: string)
    ensures var n := NormalizeDirPath(path); n == "" || n == "/" || (n[0] == '/' && n[|n| - 1] != '/')
  {
    if path != "/" {
      TrimEndShape(NormalizeLogicalPath(path), Only('/'));
    }
  }

  /** The slash and its trimmed tail give the text back exactly when no second slash follows the first. */
  lemma SlashAndTail(s: string)
    requires |s| >= 2 && s[0] == '/' && s[|s| - 1] != '/'
    ensures "/" + TrimStart(TrimStart(s, Only('/')), Only('/')) == s <==> s[1] != '/'
    ensures TrimStart(s, Only('/')) != ""
  {
    TrimStartOfSlash(s);
    TrimStartShorter(s);
    TrimStartShape(s, Only('/'));
    KeepsStart(TrimStart(s, Only('/')));
    if s[1] != '/' {
      KeepsStart(s[1..]);
    }
  }

  /**
   * Mapping the resolved remote path back gives the normalized path exactly when that path is not
   * empty (it is for a path of two or more slashes) and no double slash follows the mount's directory.
   */
  lemma MapsBackExactly(m: Mount, path: string)
    requires Canonical(m.dir) && RemotePath(m, NormalizeDirPath(path)).Some?
    ensures var n := NormalizeDirPath(path);
            MapRuntimePath(m, RemotePath(m, n).value) == n <==> n != "" && !DoubleSlashAfter(m.dir, n)
  {
    var n := NormalizeDirPath(path);
    NormalizedShape(path);
    if m.dir == "/" {
      if n != "" && n != "/" {
        SlashAndTail(n);
      }
    } else if n != m.dir {
      var rest := n[|m.dir|..];
      assert n == m.dir + rest;
      assert rest[|rest| - 1] == n[|n| - 1];
      if |rest| >= 2 {
        SlashAndTail(rest);
        KeepsEnd(m.dir);
        var mapped := TrimStart(TrimStart(rest, Only('/')), Only('/'));
        assert MapRuntimePath(m, rest) == m.dir + "/" + mapped;
        assert m.dir + "/" + mapped == m.dir + ("/" + mapped);
        assert m.dir + ("/" + mapped) == m.dir + rest <==> "/" + mapped == rest by {
          assert (m.dir + rest)[|m.dir|..] == rest && (m.dir + ("/" + mapped))[|m.dir|..] == "/" + mapped;
        }
      }
    }
  }

  /** A double slash after the mount's directory is lost on the way there and back. */
  lemma DoubleSlashIsLost(m: Mount)
    requires m.dir == "/m"
    ensures RemotePath(m, NormalizeDirPath("/m//x")) == Some("//x")
    ensures MapRuntimePath(m, "//x") == "/m/x"
  {
    KeepsEnd("/m//x");
    KeepsEnd("/m");
    assert "/m//x"[2..] == "//x" && "//x"[1..] == "/x" && "/x"[1..] == "x";
    KeepsStart("x");
    assert TrimStart("/x", Only('/')) == "x" && TrimStart("//x", Only('/')) == "x";
    assert "/m" + "/" + "x" == "/m/x";
  }

  /** A path inside a mount as a listing gives it: the root, or one slash and then no more in front or behind. */
  predicate CanonicalRemote(remote: string) {
    remote == "/" || (|remote| >= 2 && remote[0] == '/' && remote[1] != '/' && remote[|remote| - 1] != '/')
  }

  lemma MappedPath(m: Mount, remote: string)
    requires Canonical(m.dir) && CanonicalRemote(remote)
    ensures var p := MapRuntimePath(m, remote);
            && p == (if remote == "/" then m.dir else if m.dir == "/" then remote else m.dir + remote)
            && NormalizeDirPath(p) == p && RemotePath(m, p) == Some(remote)
  {
    var p := MapRuntimePath(m, remote);
    if remote != "/" {
      var tail := remote[1..];
      assert remote == "/" + tail;
      TrimsOneSlash(tail);
      KeepsStart(tail);
      if m.dir != "/" {
        KeepsEnd(m.dir);
        assert m.dir + "/" + tail == m.dir + remote;
        assert (m.dir + remote)[|m.dir|..] == remote;
      }
    }
    if p != "/" {
      KeepsEnd(p);
    }
  }

  /** Mapping a remote path and resolving it comes back to the same mount and path, unless a deeper mount holds it. */
  lemma MappedPathResolvesBack(mounts: seq<Mount>, m: Mount, remote: string)
    requires ValidMounts(mounts) && m in mounts && CanonicalRemote(remote)
    ensures var p := MapRuntimePath(m, remote);
            Resolve(SortMounts(mounts), p) == Some(Route(m, remote))
            <==> !exists deeper :: deeper in mounts && |deeper.dir| > |m.dir| && IsPathWithin(p, deeper.dir)
  {
    var p := MapRuntimePath(m, remote);
    MappedPath(m, remote);
    HoldsIffWithin(m, p);
    var sorted := SortMounts(mounts);
    ResolvesToLongest(mounts, p, m);
    var found := Resolve(sorted, p).value.mount;
    SortMountsSorts(mounts);
    ResolveIsFirst(sorted, p);
    if deeper :| deeper in mounts && |deeper.dir| > |m.dir| && IsPathWithin(p, deeper.dir) {
      ResolvesToLongest(mounts, p, deeper);
    } else {
      ResolvesToLongest(mounts, p, found);
    }
  }
}
