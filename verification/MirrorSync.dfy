/** One-way synchronisation of a directory tree between two storages, keeping or deleting extras. */
module MirrorSync {
  import opened Wrappers
  import opened Counting
  import opened Storage
  import opened TreeDeletion

  /** `left` is more recent: a missing time is older than any time. */
  predicate Newer(left: Option<int>, right: Option<int>) {
    left.Some? && (right.None? || left.value > right.value)
  }

  /** The destination file may stay: not older than the source file, and of the same size. */
  predicate UpToDate(src: Node, dst: Node) {
    src.File? && dst.File? && !Newer(src.modified, dst.modified) && |src.content| == |dst.content|
  }

  /** The entries below `root`, keyed by relative path; the root's own entry may be among them. */
  ghost predicate Collected(m: map<Path, Info>, t: Tree, root: Path) {
    && (forall k :: k in m ==> root + k in t && m[k] == InfoOf(root + k, t[root + k]))
    && (forall k :: k != [] && root + k in t ==> k in m)
  }

  lemma RelativeOf(root: Path, p: Path)
    requires Within(root, p)
    ensures root + p[|root|..] == p
  {}

  lemma RelativeInjective(root: Path, k: Path, l: Path)
    requires root + k == root + l
    ensures k == l
  {
    assert (root + k)[|root|..] == k && (root + l)[|root|..] == l;
  }

  /** A tree that has no entry for its root has nothing below it either. */
  lemma NothingBelowMissing(t: Tree, root: Path)
    requires WellFormed(t) && root !in t
    ensures forall k :: root + k !in t
  {
    forall k
      ensures root + k !in t
    {
      if root + k in t {
        AncestorsAreDirs(t, root + k, root);
      }
    }
  }

  method CollectTree(storage: Store, root: Path) returns (r: Result<map<Path, Info>, VfsError>)
    requires storage.Valid()
    ensures r.Ok? ==> Collected(r.value, storage.tree, root) && (root in storage.tree ==> storage.tree[root] == Dir)
  {
    if root != [] {
      var exists' :- storage.Exists(root);
      if !exists' {
        NothingBelowMissing(storage.tree, root);
        return Ok(map[]);
      }
    }
    var entries :- storage.ListRecursive(root);
    var m := ByRelativePath(entries, root, storage.tree);
    r := Ok(m);
  }

  method ByRelativePath(entries: seq<Info>, root: Path, ghost t: Tree) returns (m: map<Path, Info>)
    requires Lists(entries, t, Under(t, root)) || Lists(entries, t, Under(t, root) - {root})
    ensures Collected(m, t, root)
  {
    m := map[];
    for i := 0 to |entries|
      invariant forall k :: k in m ==> root + k in t && m[k] == InfoOf(root + k, t[root + k])
      invariant forall j :: 0 <= j < i ==> Within(root, entries[j].path) && entries[j].path[|root|..] in m
    {
      var path := entries[i].path;
      assert PathsOf(entries)[i] in Elements(PathsOf(entries));
      RelativeOf(root, path);
      m := m[path[|root|..] := entries[i]];
    }
    forall k | k != [] && root + k in t
      ensures k in m
    {
      assert Within(root, root + k);
      assert root + k in Elements(PathsOf(entries));
      var j :| 0 <= j < |entries| && PathsOf(entries)[j] == root + k;
      assert entries[j].path[|root|..] == k;
    }
  }

  /** Lists a set of relative paths, shallow ones first. */
  method ByDepth(keys: set<Path>) returns (order: seq<Path>)
    ensures Distinct(order) && Elements(order) == keys
    ensures forall i, j :: 0 <= i < j < |order| ==> |order[i]| <= |order[j]|
  {
    order := [];
    var left := keys;
    while left != {}
      invariant left <= keys && Distinct(order) && Elements(order) == keys - left
      invariant forall i, j :: 0 <= i < j < |order| ==> |order[i]| <= |order[j]|
      invariant forall i, k :: 0 <= i < |order| && k in left ==> |order[i]| <= |k|
      decreases left
    {
      ShallowestExists(left);
      var k :| Shallowest(left, k);
      order := order + [k];
      left := left - {k};
    }
  }

  predicate Shallowest(keys: set<Path>, k: Path) {
    k in keys && forall l :: l in keys ==> |k| <= |l|
  }

  lemma {:induction false} ShallowestExists(keys: set<Path>)
    requires keys != {}
    ensures exists k :: Shallowest(keys, k)
    decreases keys
  {
    var x :| x in keys;
    var rest := keys - {x};
    assert keys == rest + {x};
    if rest == {} {
      assert keys <= {x} && Shallowest(keys, x);
    } else {
      ShallowestExists(rest);
      var k :| Shallowest(rest, k);
      assert Shallowest(keys, if |x| < |k| then x else k);
    }
  }

  function Reverse(s: seq<Path>): (r: seq<Path>)
    ensures |r| == |s| && forall i :: 0 <= i < |s| ==> r[i] == s[|s| - 1 - i]
  {
    seq(|s|, i requires 0 <= i < |s| => s[|s| - 1 - i])
  }

  method EnsureDirectoryExists(storage: Store, path: Path) returns (r: Result<(), VfsError>)
    requires storage.Valid()
    modifies storage`tree
    ensures storage.Valid()
    ensures r.Ok? ==> path in storage.tree && storage.tree == WithDirs(old(storage.tree), path)
    ensures r.Err? ==> storage.tree == old(storage.tree)
  {
    if path != [] {
      var exists' :- storage.Exists(path);
      if !exists' {
        r := storage.CreateDirAll(path);
        assert Within(path, path);
        return;
      }
    }
    DirsAlreadyThere(storage.tree, path);
    r := Ok(());
  }

  /** There is an entry for the parent of `p`. */
  ghost predicate HasParent(t: Tree, p: Path) {
    p != [] && ParentPath(p) in t
  }

  /** The file at `p` now has the content of the source file at `q`, and nothing else changed. */
  ghost predicate FileCopied(s: Tree, q: Path, t0: Tree, t1: Tree, p: Path) {
    && q in s && s[q].File? && p in t1 && t1[p].File? && t1[p].content == s[q].content
    && t1 == t0[p := t1[p]] && (p in t0 ==> t0[p].File?)
  }

  method CopyFileBetween(src: Store, srcPath: Path, dst: Store, dstPath: Path) returns (r: Result<(), VfsError>)
    requires src != dst && src.Valid() && dst.Valid()
    modifies dst`tree
    ensures dst.Valid()
    ensures var parentMade := WithDirs(old(dst.tree), ParentPath(dstPath));
            && (r.Ok? ==> FileCopied(src.tree, srcPath, parentMade, dst.tree, dstPath))
            && (r.Err? ==> dst.tree == old(dst.tree) || dst.tree == parentMade)
  {
    var _ :- EnsureDirectoryExists(dst, ParentPath(dstPath));
    var content :- src.ReadStream(srcPath);
    var _ :- dst.WriteStream(dstPath, content);
    r := Ok(());
  }

  // ---- what a finished sync has done ----

  /** Outside `root` nothing changed, except that missing directories above it were made. */
  ghost predicate OnlyRootAdded(d0: Tree, d1: Tree, root: Path) {
    && (forall p :: p in d0 && !Within(root, p) ==> p in d1 && d1[p] == d0[p])
    && (forall p :: p in d1 && !Within(root, p) ==> p in d0 || (Within(p, root) && d1[p] == Dir))
  }

  /** The path is in both trees or in neither, with the same node. */
  ghost predicate SameAt(t0: Tree, t1: Tree, p: Path) {
    (p in t1 <==> p in t0) && (p in t0 ==> t1[p] == t0[p])
  }

  /** One source entry and its counterpart: same kind, and for files either copied or rightly left alone. */
  ghost predicate EntrySynced(src: Node, d0: Tree, d1: Tree, p: Path) {
    && p in d1
    && match src
       case Dir => d1[p] == Dir
       case File(content, _) =>
         if p in d0 && UpToDate(src, d0[p]) then d1[p] == d0[p] else d1[p].File? && d1[p].content == content
  }

  /** The result of a successful one-way sync of `s` below `sr` into what was `d0` below `dr`. */
  ghost predicate SyncedTo(s: Tree, sr: Path, d0: Tree, d1: Tree, dr: Path, mirror: bool) {
    && WellFormed(s) && WellFormed(d1)
    && sr in s && dr in d1 && d1[dr] == Dir && OnlyRootAdded(d0, d1, dr)
    && (forall k :: k != [] && sr + k in s ==> EntrySynced(s[sr + k], d0, d1, dr + k))
    && (forall k :: k != [] && sr + k !in s ==>
          if mirror then dr + k !in d1
          else (dr + k in d1 <==> dr + k in d0) && (dr + k in d0 ==> d1[dr + k] == d0[dr + k]))
  }

  /** An entry of the destination at any moment of a run: as it was, finally synced, or deleted as an extra. */
  ghost predicate EntryKept(s: Tree, q: Path, d0: Tree, d1: Tree, p: Path, mayDelete: bool) {
    || SameAt(d0, d1, p)
    || (q in s && EntrySynced(s[q], d0, d1, p))
    || (mayDelete && q !in s && p !in d1)
  }

  ghost predicate EntriesKept(s: Tree, sr: Path, d0: Tree, d1: Tree, dr: Path, mayDelete: bool) {
    forall k :: k != [] ==> EntryKept(s, sr + k, d0, d1, dr + k, mayDelete)
  }

  /** After a mirror sync the root holds exactly the source's paths, kind by kind. */
  lemma MirrorHoldsExactlySource(s: Tree, sr: Path, d0: Tree, d1: Tree, dr: Path, k: Path)
    requires SyncedTo(s, sr, d0, d1, dr, true) && k != []
    ensures dr + k in d1 <==> sr + k in s
    ensures sr + k in s ==> (d1[dr + k].Dir? <==> s[sr + k].Dir?)
  {
    if sr + k in s {
      assert EntrySynced(s[sr + k], d0, d1, dr + k);
    }
  }

  /**
   * Which of two files stays: the source's content if its size is another, or its time is later than
   * the destination's, or only it has a time; otherwise the destination file as it was.
   */
  lemma NewerSourceFileIsCopied(s: Tree, sr: Path, d0: Tree, d1: Tree, dr: Path, mirror: bool, k: Path)
    requires SyncedTo(s, sr, d0, d1, dr, mirror) && k != []
    requires sr + k in s && s[sr + k].File? && dr + k in d0 && d0[dr + k].File?
    ensures var source, dest := s[sr + k], d0[dr + k];
            var later := source.modified.Some?
                         && (dest.modified.None? || source.modified.value > dest.modified.value);
            && dr + k in d1
            && if later || |source.content| != |dest.content|
               then d1[dr + k].File? && d1[dr + k].content == source.content
               else d1[dr + k] == dest
  {
    assert EntrySynced(s[sr + k], d0, d1, dr + k);
  }

  /** A source file that had no counterpart file is at the destination with its content. */
  lemma MissingFileIsCopied(s: Tree, sr: Path, d0: Tree, d1: Tree, dr: Path, mirror: bool, k: Path)
    requires SyncedTo(s, sr, d0, d1, dr, mirror) && k != []
    requires sr + k in s && s[sr + k].File? && (dr + k in d0 ==> d0[dr + k].Dir?)
    ensures dr + k in d1 && d1[dr + k].File? && d1[dr + k].content == s[sr + k].content
  {
    assert EntrySynced(s[sr + k], d0, d1, dr + k);
  }

  ghost predicate SameContents(a: Tree, b: Tree) {
    a.Keys == b.Keys && forall p :: p in a ==> SameAs(a[p], b[p])
  }

  /** Syncing again right after a successful run changes no path, no kind and no content. */
  lemma SyncAgainChangesNothing(s: Tree, sr: Path, d0: Tree, d1: Tree, d2: Tree, dr: Path, mirror: bool)
    requires SyncedTo(s, sr, d0, d1, dr, mirror) && SyncedTo(s, sr, d1, d2, dr, mirror)
    ensures SameContents(d1, d2)
  {
    forall p
      ensures p in d1 <==> p in d2
      ensures p in d1 ==> SameAs(d1[p], d2[p])
    {
      if Within(dr, p) {
        RelativeOf(dr, p);
        var k := p[|dr|..];
        if k == [] {
          assert p == dr;
        } else if sr + k in s {
          assert EntrySynced(s[sr + k], d0, d1, dr + k) && EntrySynced(s[sr + k], d1, d2, dr + k);
        }
      } else if p in d2 && p !in d1 {
        AncestorsAreDirs(d1, dr, p);
      }
    }
  }

  // ---- the phases of one run ----

  ghost predicate KeepsAll(t0: Tree, t1: Tree) {
    forall p :: p in t0 ==> p in t1 && t1[p] == t0[p]
  }

  /** What is new is a directory, where the source has one. */
  ghost predicate OnlySourceDirsNew(s: Tree, sr: Path, dR: Tree, d1: Tree, dr: Path) {
    forall p :: p in d1 && p !in dR ==> d1[p] == Dir && Within(dr, p) && sr + p[|dr|..] in s && s[sr + p[|dr|..]] == Dir
  }

  ghost predicate AllDirs(d1: Tree, dr: Path, done: set<Path>) {
    forall k :: k in done ==> IsDirAt(d1, dr, k)
  }

  ghost predicate IsDirAt(t: Tree, root: Path, k: Path) {
    root + k in t && t[root + k] == Dir
  }

  /** Directories made so far: all of `done`, and nothing but source directories. */
  ghost predicate DirsMade(s: Tree, sr: Path, dR: Tree, d1: Tree, dr: Path, done: set<Path>) {
    WellFormed(d1) && KeepsAll(dR, d1) && OnlySourceDirsNew(s, sr, dR, d1, dr) && AllDirs(d1, dr, done)
  }

  lemma OneMoreDir(s: Tree, sr: Path, dR: Tree, d1: Tree, dr: Path, done: set<Path>, k: Path)
    requires WellFormed(s) && WellFormed(dR) && dr in dR && dR[dr] == Dir
    requires DirsMade(s, sr, dR, d1, dr, done) && IsDirAt(s, sr, k)
    requires forall q :: Within(q, dr + k) && q in d1 ==> d1[q] == Dir
    ensures DirsMade(s, sr, dR, WithDirs(d1, dr + k), dr, done + {k})
  {
    WithDirsWellFormed(d1, dr + k);
    hide WellFormed, IsDirAt, OnlySourceDirsNew, AllDirs, KeepsAll, WithDirs;
    WithDirsKeeps(dR, d1, dr + k);
    NewDirsAreSourceDirs(s, sr, dR, d1, dr, k);
    OneMoreDirThere(d1, dr, done, k);
  }

  lemma WithDirsKeeps(dR: Tree, d1: Tree, p: Path)
    requires KeepsAll(dR, d1)
    ensures KeepsAll(dR, WithDirs(d1, p))
  {}

  lemma NewDirsAreSourceDirs(s: Tree, sr: Path, dR: Tree, d1: Tree, dr: Path, k: Path)
    requires WellFormed(s) && WellFormed(dR) && dr in dR && IsDirAt(s, sr, k) && KeepsAll(dR, d1)
    requires OnlySourceDirsNew(s, sr, dR, d1, dr)
    ensures OnlySourceDirsNew(s, sr, dR, WithDirs(d1, dr + k), dr)
  {
    var d2 := WithDirs(d1, dr + k);
    forall p | p in d2 && p !in dR
      ensures d2[p] == Dir && Within(dr, p) && sr + p[|dr|..] in s && s[sr + p[|dr|..]] == Dir
    {
      if p !in d1 {
        NewDirIsSourceDir(s, sr, dR, dr, k, p);
      }
    }
  }

  lemma OneMoreDirThere(d1: Tree, dr: Path, done: set<Path>, k: Path)
    requires AllDirs(d1, dr, done) && forall q :: Within(q, dr + k) && q in d1 ==> d1[q] == Dir
    ensures AllDirs(WithDirs(d1, dr + k), dr, done + {k})
  {
    assert Within(dr + k, dr + k);
    forall l | l in done + {k}
      ensures IsDirAt(WithDirs(d1, dr + k), dr, l)
    {
      if l in done {
        assert IsDirAt(d1, dr, l);
      }
    }
  }

  /** A directory above or at a source directory's counterpart is one itself, or lies above the root. */
  lemma NewDirIsSourceDir(s: Tree, sr: Path, dR: Tree, dr: Path, k: Path, p: Path)
    requires WellFormed(s) && WellFormed(dR) && dr in dR && sr + k in s && s[sr + k] == Dir
    requires Within(p, dr + k) && p !in dR
    ensures Within(dr, p) && sr + p[|dr|..] in s && s[sr + p[|dr|..]] == Dir
  {
    if |p| >= |dr| {
      assert p[..|dr|] == (dr + k)[..|p|][..|dr|] == dr;
      assert p[|dr|..] == k[..|p| - |dr|];
      assert Within(sr + p[|dr|..], sr + k);
      AncestorsAreDirs(s, sr + k, sr + p[|dr|..]);
    } else {
      assert p == (dr + k)[..|p|] == dr[..|p|];
      AncestorsAreDirs(dR, dr, p);
    }
  }

  method MakeDirectories(ghost s: Tree, ghost sr: Path, dst: Store, dr: Path, dirs: seq<Path>)
    returns (r: Result<(), VfsError>, ghost done: set<Path>)
    requires WellFormed(s) && dst.Valid() && dr in dst.tree && dst.tree[dr] == Dir
    requires forall k :: k in dirs ==> IsDirAt(s, sr, k)
    modifies dst`tree
    ensures dst.Valid() && DirsMade(s, sr, old(dst.tree), dst.tree, dr, done)
    ensures r.Ok? ==> done == Elements(dirs)
  {
    ghost var dR := dst.tree;
    done := {};
    assert DirsMade(s, sr, dR, dR, dr, done);
    hide DirsMade, WellFormed, WithDirs, IsDirAt, Elements;
    assert Elements(dirs[..0]) == {};
    r := Ok(());
    var i := 0;
    while i < |dirs| && r.Ok?
      invariant 0 <= i <= |dirs| && dst.Valid()
      invariant DirsMade(s, sr, dR, dst.tree, dr, done)
      invariant r.Ok? ==> done == Elements(dirs[..i])
    {
      assert dirs[i] in dirs;
      r := MakeDirectory(s, sr, dst, dr, dirs[i], dR, done);
      if r.Ok? {
        ElementsStep(dirs, i);
        done := done + {dirs[i]};
      }
      i := i + 1;
    }
    assert dirs[..|dirs|] == dirs;
  }

  method MakeDirectory(ghost s: Tree, ghost sr: Path, dst: Store, dr: Path, k: Path, ghost dR: Tree,
                       ghost done: set<Path>)
    returns (r: Result<(), VfsError>)
    requires WellFormed(s) && WellFormed(dR) && dst.Valid() && dr in dR && dR[dr] == Dir
    requires DirsMade(s, sr, dR, dst.tree, dr, done) && IsDirAt(s, sr, k)
    modifies dst`tree
    ensures dst.Valid()
    ensures r.Ok? ==> DirsMade(s, sr, dR, dst.tree, dr, done + {k})
    ensures r.Err? ==> dst.tree == old(dst.tree)
  {
    ghost var before := dst.tree;
    r := dst.CreateDirAll(dr + k);
    if r.Ok? {
      OneMoreDir(s, sr, dR, before, dr, done, k);
    }
  }

  lemma ElementsStep(s: seq<Path>, i: nat)
    requires i < |s|
    ensures Elements(s[..i + 1]) == Elements(s[..i]) + {s[i]}
  {
    assert s[..i + 1] == s[..i] + [s[i]];
  }

  /** Files handled so far: exactly the counterparts of `done` may have changed since `dD`. */
  ghost predicate FilesDone(s: Tree, sr: Path, dR: Tree, dD: Tree, d2: Tree, dr: Path, done: set<Path>) {
    && WellFormed(d2)
    && (forall p :: p in dD ==> p in d2)
    && (forall p :: p in d2 && !(Within(dr, p) && p[|dr|..] in done) ==> p in dD && d2[p] == dD[p])
    && (forall k :: k in done ==> sr + k in s && EntrySynced(s[sr + k], dR, d2, dr + k))
  }

  lemma EntryUnaffected(src: Node, dR: Tree, d2: Tree, d3: Tree, p: Path)
    requires EntrySynced(src, dR, d2, p) && p in d3 && d3[p] == d2[p]
    ensures EntrySynced(src, dR, d3, p)
  {}

  lemma OneMoreFile(s: Tree, sr: Path, dR: Tree, dD: Tree, d2: Tree, d3: Tree, dr: Path, done: set<Path>, k: Path)
    requires FilesDone(s, sr, dR, dD, d2, dr, done) && k !in done && WellFormed(d3)
    requires sr + k in s && EntrySynced(s[sr + k], dR, d3, dr + k)
    requires dr + k in d3 && d3 == d2[dr + k := d3[dr + k]]
    ensures FilesDone(s, sr, dR, dD, d3, dr, done + {k})
  {
    hide EntrySynced, WellFormed;
    assert (dr + k)[|dr|..] == k;
    assert Within(dr, dr + k);
    forall l | l in done
      ensures sr + l in s && EntrySynced(s[sr + l], dR, d3, dr + l)
    {
      if dr + l == dr + k {
        RelativeInjective(dr, l, k);
      }
      EntryIsThere(s[sr + l], dR, d2, dr + l);
      EntryUnaffected(s[sr + l], dR, d2, d3, dr + l);
    }
  }

  lemma EntryIsThere(src: Node, dR: Tree, d: Tree, p: Path)
    requires EntrySynced(src, dR, d, p)
    ensures p in d
  {}

  /** Whether a source file must be copied over what the destination listing shows. */
  function ShouldCopy(src: Info, dstMap: map<Path, Info>, k: Path): bool {
    k !in dstMap || dstMap[k].isDir || Newer(src.modified, dstMap[k].modified) || src.size != dstMap[k].size
  }

  lemma ShouldCopyMeansStale(s: Tree, sr: Path, dR: Tree, dr: Path, dstMap: map<Path, Info>, k: Path)
    requires Collected(dstMap, dR, dr) && k != [] && sr + k in s && s[sr + k].File?
    ensures ShouldCopy(InfoOf(sr + k, s[sr + k]), dstMap, k)
            <==> !(dr + k in dR && UpToDate(s[sr + k], dR[dr + k]))
  {}

  method CopyStaleFiles(src: Store, sr: Path, dst: Store, dr: Path, sourceMap: map<Path, Info>,
                        dstMap: map<Path, Info>, files: seq<Path>, ghost dR: Tree)
    returns (r: Result<(), VfsError>, ghost done: set<Path>)
    requires src != dst && src.Valid() && dst.Valid()
    requires Collected(sourceMap, src.tree, sr) && Collected(dstMap, dR, dr) && Distinct(files)
    requires forall k :: k in files ==> k != [] && k in sourceMap && !sourceMap[k].isDir
    requires KeepsAll(dR, dst.tree)
    requires forall k :: k in files ==> dr + k[..|k| - 1] in dst.tree
    modifies dst`tree
    ensures dst.Valid() && done <= Elements(files) && FilesDone(src.tree, sr, dR, old(dst.tree), dst.tree, dr, done)
    ensures r.Ok? ==> done == Elements(files)
  {
    ghost var s, dD := src.tree, dst.tree;
    done := {};
    assert FilesDone(s, sr, dR, dD, dD, dr, done);
    hide *;
    assert Elements(files[..0]) == {};
    r := Ok(());
    var i := 0;
    while i < |files| && r.Ok?
      invariant 0 <= i <= |files| && dst.Valid() && done <= Elements(files)
      invariant FilesDone(s, sr, dR, dD, dst.tree, dr, done)
      invariant r.Ok? ==> done == Elements(files[..i])
    {
      var k := files[i];
      DistinctAt(files, i);
      r := CopyIfStale(src, sr, dst, dr, sourceMap, dstMap, k, dR, dD, done);
      if r.Ok? {
        ElementsStep(files, i);
        done := done + {k};
      }
      i := i + 1;
    }
    assert files[..|files|] == files;
  }

  lemma DistinctAt(s: seq<Path>, i: nat)
    requires Distinct(s) && i < |s|
    ensures s[i] in s && s[i] !in Elements(s[..i]) && s[i] in Elements(s)
  {}

  method CopyIfStale(src: Store, sr: Path, dst: Store, dr: Path, sourceMap: map<Path, Info>,
                     dstMap: map<Path, Info>, k: Path, ghost dR: Tree, ghost dD: Tree, ghost done: set<Path>)
    returns (r: Result<(), VfsError>)
    requires src != dst && src.Valid() && dst.Valid()
    requires Collected(sourceMap, src.tree, sr) && Collected(dstMap, dR, dr)
    requires k != [] && k in sourceMap && !sourceMap[k].isDir && k !in done
    requires KeepsAll(dR, dD)
    requires dr + k[..|k| - 1] in dD && FilesDone(src.tree, sr, dR, dD, dst.tree, dr, done)
    modifies dst`tree
    ensures dst.Valid()
    ensures r.Ok? ==> FilesDone(src.tree, sr, dR, dD, dst.tree, dr, done + {k})
    ensures r.Err? ==> dst.tree == old(dst.tree)
  {
    ghost var s, before := src.tree, dst.tree;
    assert sourceMap[k] == InfoOf(sr + k, s[sr + k]) && s[sr + k].File?;
    var copy := ShouldCopy(sourceMap[k], dstMap, k);
    if copy {
      ParentIsThere(s, sr, dR, dD, before, dr, done, k);
      DirsAlreadyThere(before, ParentPath(dr + k));
      hide FilesDone, FileCopied, HasParent;
      r := CopyFileBetween(src, sr + k, dst, dr + k);
    } else {
      r := Ok(());
    }
    if r.Ok? {
      FileHandled(s, sr, dstMap, dR, dD, before, dst.tree, dr, done, k, copy);
    }
  }

  lemma ParentIsThere(s: Tree, sr: Path, dR: Tree, dD: Tree, d2: Tree, dr: Path, done: set<Path>, k: Path)
    requires k != [] && dr + k[..|k| - 1] in dD && FilesDone(s, sr, dR, dD, d2, dr, done)
    ensures HasParent(d2, dr + k)
  {
    assert (dr + k)[..|dr + k| - 1] == dr + k[..|k| - 1];
  }

  lemma FileHandled(s: Tree, sr: Path, dstMap: map<Path, Info>, dR: Tree, dD: Tree, d2: Tree, d3: Tree, dr: Path,
                    done: set<Path>, k: Path, copy: bool)
    requires Collected(dstMap, dR, dr) && k != [] && sr + k in s && s[sr + k].File? && k !in done
    requires KeepsAll(dR, dD) && FilesDone(s, sr, dR, dD, d2, dr, done) && WellFormed(d3)
    requires copy == ShouldCopy(InfoOf(sr + k, s[sr + k]), dstMap, k)
    requires if copy then FileCopied(s, sr + k, d2, d3, dr + k) else d3 == d2
    ensures FilesDone(s, sr, dR, dD, d3, dr, done + {k})
  {
    ShouldCopyMeansStale(s, sr, dR, dr, dstMap, k);
    hide WellFormed, FilesDone, Collected, ShouldCopy;
    if !copy {
      StaysSynced(s, sr, dR, dD, d2, dr, done, k);
    }
    OneMoreFile(s, sr, dR, dD, d2, d3, dr, done, k);
  }

  lemma StaysSynced(s: Tree, sr: Path, dR: Tree, dD: Tree, d2: Tree, dr: Path, done: set<Path>, k: Path)
    requires FilesDone(s, sr, dR, dD, d2, dr, done) && k !in done && KeepsAll(dR, dD)
    requires sr + k in s && s[sr + k].File? && dr + k in dR && UpToDate(s[sr + k], dR[dr + k])
    ensures EntrySynced(s[sr + k], dR, d2, dr + k) && d2 == d2[dr + k := d2[dr + k]]
  {
    SameHere(dR, dD, d2, dr, done, k);
    hide FilesDone, WellFormed, UpToDate;
  }

  lemma SameHere(dR: Tree, dD: Tree, d2: Tree, dr: Path, done: set<Path>, k: Path)
    requires KeepsAll(dR, dD) && dr + k in dR && k !in done
    requires forall p :: p in dD ==> p in d2
    requires forall p :: p in d2 && !(Within(dr, p) && p[|dr|..] in done) ==> p in dD && d2[p] == dD[p]
    ensures dr + k in d2 && d2[dr + k] == dR[dr + k]
  {
    assert (dr + k)[|dr|..] == k;
  }

  /** From `t2` to `t` only paths below the root that the source does not have went away. */
  ghost predicate OnlyExtrasGone(s: Tree, sr: Path, dr: Path, t2: Tree, t: Tree) {
    && t.Keys <= t2.Keys && (forall p :: p in t ==> t[p] == t2[p])
    && (forall p :: p in t2 && p !in t ==> IsExtra(s, sr, dr, p))
  }

  ghost predicate IsExtra(s: Tree, sr: Path, dr: Path, p: Path) {
    Within(dr, p) && p != dr && sr + p[|dr|..] !in s
  }

  /** Everything below the destination root was there when it was listed, or is a source path. */
  ghost predicate NothingForeign(s: Tree, sr: Path, dR: Tree, t: Tree, dr: Path) {
    forall p :: p in t && Within(dr, p) && p != dr ==> p in dR || sr + p[|dr|..] in s
  }

  /** The first `n` extras of the list are gone. */
  ghost predicate GoneUpTo(order: seq<Path>, n: nat, t: Tree, dr: Path)
    requires n <= |order|
  {
    forall i :: 0 <= i < n ==> dr + order[i] !in t
  }

  ghost predicate DeepestFirst(order: seq<Path>) {
    forall i, j :: 0 <= i < j < |order| ==> |order[i]| >= |order[j]|
  }

  function Extras(sourceMap: map<Path, Info>, dstMap: map<Path, Info>): set<Path> {
    set k | k in dstMap.Keys && k != [] && k !in sourceMap
  }

  method ExtrasDeepestFirst(sourceMap: map<Path, Info>, dstMap: map<Path, Info>) returns (order: seq<Path>)
    ensures Elements(order) == Extras(sourceMap, dstMap) && DeepestFirst(order)
  {
    var shallow := ByDepth(Extras(sourceMap, dstMap));
    order := Reverse(shallow);
    forall k
      ensures k in shallow <==> k in order
    {
      if k in shallow {
        var i :| 0 <= i < |shallow| && shallow[i] == k;
        assert order[|shallow| - 1 - i] == k;
      }
    }
  }

  /** When its turn comes an extra path has nothing left below it. */
  lemma ExtraIsEmpty(s: Tree, sr: Path, dR: Tree, t: Tree, dr: Path, sourceMap: map<Path, Info>,
                     dstMap: map<Path, Info>, order: seq<Path>, i: nat)
    requires WellFormed(s) && Collected(sourceMap, s, sr) && Collected(dstMap, dR, dr)
    requires Elements(order) == Extras(sourceMap, dstMap) && DeepestFirst(order) && i < |order|
    requires NothingForeign(s, sr, dR, t, dr) && GoneUpTo(order, i, t, dr)
    ensures Under(t, dr + order[i]) <= {dr + order[i]}
    ensures IsExtra(s, sr, dr, dr + order[i])
  {
    var k := order[i];
    assert k in Elements(order);
    assert (dr + k)[|dr|..] == k;
    forall q | q in t && Within(dr + k, q)
      ensures q == dr + k
    {
      if q != dr + k {
        DeeperExtraIsGone(s, sr, dR, t, dr, sourceMap, dstMap, order, i, q);
      }
    }
  }

  lemma DeeperExtraIsGone(s: Tree, sr: Path, dR: Tree, t: Tree, dr: Path, sourceMap: map<Path, Info>,
                          dstMap: map<Path, Info>, order: seq<Path>, i: nat, q: Path)
    requires WellFormed(s) && Collected(sourceMap, s, sr) && Collected(dstMap, dR, dr)
    requires Elements(order) == Extras(sourceMap, dstMap) && DeepestFirst(order) && i < |order|
    requires NothingForeign(s, sr, dR, t, dr) && GoneUpTo(order, i, t, dr)
    requires Within(dr + order[i], q) && q != dr + order[i]
    ensures q !in t
  {
    if q in t {
      hide DeepestFirst, GoneUpTo, WellFormed;
      var k := order[i];
      assert k in Elements(order);
      var l := q[|dr|..];
      BelowJoined(dr, k, q);
      if sr + l in s {
        assert Within(sr + k, sr + l);
        AncestorsAreDirs(s, sr + l, sr + k);
      }
      assert l in Extras(sourceMap, dstMap);
      DeeperIsGone(order, i, t, dr, l);
    }
  }

  lemma BelowJoined(root: Path, k: Path, q: Path)
    requires Within(root + k, q) && q != root + k
    ensures var l := q[|root|..]; q == root + l && Within(k, l) && |l| > |k|
  {
    var l := q[|root|..];
    assert q[..|root|] == (root + k)[..|root|] == root;
    assert l[..|k|] == q[|root|..][..|k|] == k;
  }

  lemma DeeperIsGone(order: seq<Path>, i: nat, t: Tree, dr: Path, l: Path)
    requires i < |order| && DeepestFirst(order) && GoneUpTo(order, i, t, dr)
    requires l in Elements(order) && |l| > |order[i]|
    ensures dr + l !in t
  {
    var j :| 0 <= j < |order| && order[j] == l;
    assert j < i;
  }

  lemma ListedIsGone(order: seq<Path>, t: Tree, dr: Path, k: Path)
    requires GoneUpTo(order, |order|, t, dr) && k in Elements(order)
    ensures dr + k !in t
  {
    var i :| 0 <= i < |order| && order[i] == k;
  }

  /** Deletes the destination's extra paths, deepest first. */
  method DeleteExtraPaths(dst: Store, dr: Path, sourceMap: map<Path, Info>, dstMap: map<Path, Info>,
                          ghost s: Tree, ghost sr: Path, ghost dR: Tree) returns (r: Result<(), VfsError>)
    requires dst.Valid() && WellFormed(s) && Collected(sourceMap, s, sr) && Collected(dstMap, dR, dr)
    requires NothingForeign(s, sr, dR, dst.tree, dr)
    modifies dst
    ensures dst.Valid() && OnlyExtrasGone(s, sr, dr, old(dst.tree), dst.tree)
    ensures Accounted(old(dst.deletions), dst.deletions, old(dst.tree), dst.tree)
    ensures r.Ok? ==> forall k :: k != [] && dr + k in dst.tree ==> sr + k in s
  {
    ghost var t2, log0 := dst.tree, dst.deletions;
    var order := ExtrasDeepestFirst(sourceMap, dstMap);
    NothingDeleted(log0, t2);
    hide Accounted, Collected, WellFormed, Extras, Elements, DeepestFirst, IsExtra;
    r := Ok(());
    var i := 0;
    while i < |order| && r.Ok?
      invariant 0 <= i <= |order| && dst.Valid() && OnlyExtrasGone(s, sr, dr, t2, dst.tree)
      invariant Accounted(log0, dst.deletions, t2, dst.tree)
      invariant r.Ok? ==> GoneUpTo(order, i, dst.tree, dr)
    {
      r := DeleteExtra(dst, dr, sourceMap, dstMap, s, sr, dR, order, i, t2, log0);
      i := i + 1;
    }
    if r.Ok? {
      AllExtrasGone(s, sr, dR, dst.tree, dr, sourceMap, dstMap, order);
    }
  }

  lemma AllExtrasGone(s: Tree, sr: Path, dR: Tree, t: Tree, dr: Path, sourceMap: map<Path, Info>,
                      dstMap: map<Path, Info>, order: seq<Path>)
    requires Collected(sourceMap, s, sr) && Collected(dstMap, dR, dr)
    requires Elements(order) == Extras(sourceMap, dstMap)
    requires NothingForeign(s, sr, dR, t, dr) && GoneUpTo(order, |order|, t, dr)
    ensures forall k :: k != [] && dr + k in t ==> sr + k in s
  {
    forall k | k != [] && dr + k in t
      ensures sr + k in s
    {
      assert (dr + k)[|dr|..] == k && Within(dr, dr + k);
      if k in Elements(order) {
        ListedIsGone(order, t, dr, k);
      }
    }
  }

  method DeleteExtra(dst: Store, dr: Path, sourceMap: map<Path, Info>, dstMap: map<Path, Info>, ghost s: Tree,
                     ghost sr: Path, ghost dR: Tree, order: seq<Path>, i: nat, ghost t2: Tree,
                     ghost log0: seq<(Path, bool)>) returns (r: Result<(), VfsError>)
    requires dst.Valid() && WellFormed(s) && Collected(sourceMap, s, sr) && Collected(dstMap, dR, dr)
    requires NothingForeign(s, sr, dR, dst.tree, dr)
    requires Elements(order) == Extras(sourceMap, dstMap) && DeepestFirst(order) && i < |order|
    requires OnlyExtrasGone(s, sr, dr, t2, dst.tree) && GoneUpTo(order, i, dst.tree, dr)
    requires Accounted(log0, dst.deletions, t2, dst.tree)
    modifies dst
    ensures dst.Valid() && OnlyExtrasGone(s, sr, dr, t2, dst.tree)
    ensures Accounted(log0, dst.deletions, t2, dst.tree)
    ensures dst.tree.Keys <= old(dst.tree).Keys
    ensures r.Ok? ==> GoneUpTo(order, i + 1, dst.tree, dr)
  {
    hide Collected, WellFormed, Extras, Elements, DeepestFirst, Accounted, IsExtra;
    ghost var before, log1 := dst.tree, dst.deletions;
    ExtraIsEmpty(s, sr, dR, before, dr, sourceMap, dstMap, order, i);
    r := DeletePathRecursive(dst, dr + order[i]);
    AccountedThen(log0, log1, dst.deletions, t2, before, dst.tree);
    forall p | p in before && p !in dst.tree
      ensures p == dr + order[i]
    {
      assert p in Under(before, dr + order[i]);
    }
    if r.Ok? {
      assert Within(dr + order[i], dr + order[i]);
    }
  }

  /** The paths a run deleted: each once, each empty by then, each below the root, none a source path. */
  ghost predicate OnlyExtrasDeleted(before: seq<(Path, bool)>, after: seq<(Path, bool)>, s: Tree, sr: Path, dr: Path) {
    && before <= after && Distinct(LogPaths(after[|before|..]))
    && forall i :: |before| <= i < |after| ==> after[i].1 && IsExtra(s, sr, dr, after[i].0)
  }

  lemma DeletionsAreExtras(before: seq<(Path, bool)>, after: seq<(Path, bool)>, s: Tree, sr: Path, dr: Path, t2: Tree,
                           t: Tree)
    requires Accounted(before, after, t2, t) && OnlyExtrasGone(s, sr, dr, t2, t)
    ensures OnlyExtrasDeleted(before, after, s, sr, dr)
  {
    var log := after[|before|..];
    forall i | |before| <= i < |after|
      ensures after[i].1 && IsExtra(s, sr, dr, after[i].0)
    {
      assert log[i - |before|] == after[i];
      assert LogPaths(log)[i - |before|] in Elements(LogPaths(log));
    }
  }

  method SplitByKind(m: map<Path, Info>) returns (dirs: seq<Path>, files: seq<Path>)
    ensures Elements(dirs) == set k | k in m.Keys && m[k].isDir
    ensures Elements(files) == (set k | k in m.Keys && !m[k].isDir) && Distinct(files)
  {
    dirs := ByDepth(set k | k in m.Keys && m[k].isDir);
    files := ByDepth(set k | k in m.Keys && !m[k].isDir);
  }

  /** The listings hold what the phases need: source directories, source files, and a place for each file. */
  lemma KindsOf(s: Tree, sr: Path, m: map<Path, Info>, dirs: seq<Path>, files: seq<Path>)
    requires WellFormed(s) && sr in s && s[sr] == Dir && Collected(m, s, sr)
    requires Elements(dirs) == set k | k in m.Keys && m[k].isDir
    requires Elements(files) == set k | k in m.Keys && !m[k].isDir
    ensures forall k :: k in dirs ==> IsDirAt(s, sr, k)
    ensures forall k :: k in files ==> k != [] && k in m && !m[k].isDir && (k[..|k| - 1] == [] || k[..|k| - 1] in dirs)
  {
    forall k | k in files
      ensures k != [] && k in m && !m[k].isDir && (k[..|k| - 1] == [] || k[..|k| - 1] in dirs)
    {
      assert k in Elements(files);
      assert sr + [] == sr;
      if k != [] {
        var parent := k[..|k| - 1];
        assert Within(sr + parent, sr + k);
        AncestorsAreDirs(s, sr + k, sr + parent);
        assert parent == [] || parent in Elements(dirs);
      }
    }
    forall k | k in dirs
      ensures IsDirAt(s, sr, k)
    {
      assert k in Elements(dirs);
    }
  }

  lemma RootMade(d0: Tree, dr: Path)
    requires WellFormed(d0) && dr in WithDirs(d0, dr)
    ensures OnlyRootAdded(d0, WithDirs(d0, dr), dr)
    ensures forall k :: k != [] ==> (dr + k in WithDirs(d0, dr) <==> dr + k in d0)
  {
    forall k: Path | k != []
      ensures !Within(dr + k, dr)
    {}
  }

  lemma OutsideUntouched(s: Tree, sr: Path, d0: Tree, dR: Tree, d1: Tree, d2: Tree, d3: Tree, dr: Path,
                         made: set<Path>, copied: set<Path>)
    requires OnlyRootAdded(d0, dR, dr) && DirsMade(s, sr, dR, d1, dr, made)
    requires FilesDone(s, sr, dR, d1, d2, dr, copied) && OnlyExtrasGone(s, sr, dr, d2, d3)
    ensures OnlyRootAdded(d0, d3, dr)
  {}

  lemma RootKeeps(s: Tree, sr: Path, d0: Tree, dr: Path, mayDelete: bool)
    requires WellFormed(d0) && dr in WithDirs(d0, dr)
    ensures EntriesKept(s, sr, d0, d0, dr, mayDelete) && EntriesKept(s, sr, d0, WithDirs(d0, dr), dr, mayDelete)
  {
    hide EntrySynced;
    RootMade(d0, dr);
  }

  /** However far a run came, it left every entry as it was, finally synced, or deleted as an extra. */
  lemma RunKeeps(s: Tree, sr: Path, d0: Tree, d1: Tree, d2: Tree, d3: Tree, dr: Path,
                 made: set<Path>, copied: set<Path>, mayDelete: bool)
    requires WellFormed(d0) && dr in WithDirs(d0, dr)
    requires DirsMade(s, sr, WithDirs(d0, dr), d1, dr, made) && FilesDone(s, sr, WithDirs(d0, dr), d1, d2, dr, copied)
    requires OnlyExtrasGone(s, sr, dr, d2, d3) && (mayDelete || d3 == d2)
    ensures EntriesKept(s, sr, d0, d3, dr, mayDelete)
  {
    forall k: Path | k != []
      ensures EntryKept(s, sr + k, d0, d3, dr + k, mayDelete)
    {
      RootMade(d0, dr);
      EntryOfRun(s, sr, d0, d1, d2, d3, dr, made, copied, mayDelete, k);
    }
  }

  lemma EntryOfRun(s: Tree, sr: Path, d0: Tree, d1: Tree, d2: Tree, d3: Tree, dr: Path,
                   made: set<Path>, copied: set<Path>, mayDelete: bool, k: Path)
    requires k != [] && SameAt(d0, WithDirs(d0, dr), dr + k)
    requires DirsMade(s, sr, WithDirs(d0, dr), d1, dr, made) && FilesDone(s, sr, WithDirs(d0, dr), d1, d2, dr, copied)
    requires OnlyExtrasGone(s, sr, dr, d2, d3) && (mayDelete || d3 == d2)
    ensures EntryKept(s, sr + k, d0, d3, dr + k, mayDelete)
  {
    hide WithDirs, WellFormed;
    var p := dr + k;
    assert p[|dr|..] == k && Within(dr, p);
    if k in copied {
      assert EntrySynced(s[sr + k], WithDirs(d0, dr), d2, p);
    }
  }

  lemma NothingForeignAfterCopy(s: Tree, sr: Path, dR: Tree, d1: Tree, d2: Tree, dr: Path,
                                made: set<Path>, copied: set<Path>)
    requires DirsMade(s, sr, dR, d1, dr, made) && FilesDone(s, sr, dR, d1, d2, dr, copied)
    ensures NothingForeign(s, sr, dR, d2, dr)
  {}

  /** Putting the phases together. */
  lemma PhasesSync(s: Tree, sr: Path, d0: Tree, dR: Tree, d1: Tree, d2: Tree, d3: Tree, dr: Path,
                   m: map<Path, Info>, dirs: seq<Path>, files: seq<Path>, mirror: bool)
    requires WellFormed(s) && WellFormed(d0) && sr in s && s[sr] == Dir && Collected(m, s, sr)
    requires Elements(dirs) == set k | k in m.Keys && m[k].isDir
    requires Elements(files) == set k | k in m.Keys && !m[k].isDir
    requires dR == WithDirs(d0, dr) && dr in dR && dR[dr] == Dir && WellFormed(d3)
    requires DirsMade(s, sr, dR, d1, dr, Elements(dirs)) && FilesDone(s, sr, dR, d1, d2, dr, Elements(files))
    requires if mirror then OnlyExtrasGone(s, sr, dr, d2, d3) && forall k :: k != [] && dr + k in d3 ==> sr + k in s
             else d3 == d2
    ensures SyncedTo(s, sr, d0, d3, dr, mirror)
  {
    RootMade(d0, dr);
    OutsideUntouched(s, sr, d0, dR, d1, d2, d3, dr, Elements(dirs), Elements(files));
    RootStays(s, sr, dR, d1, d2, d3, dr, m, dirs, files);
    forall k | k != [] && sr + k in s
      ensures EntrySynced(s[sr + k], d0, d3, dr + k)
    {
      SourceEntry(s, sr, d0, dR, d1, d2, d3, dr, m, dirs, files, k);
    }
    if !mirror {
      forall k | k != [] && sr + k !in s
        ensures dr + k in d3 <==> dr + k in d0
        ensures dr + k in d0 ==> d3[dr + k] == d0[dr + k]
      {
        ForeignEntry(s, sr, d0, dR, d1, d2, dr, m, dirs, files, k);
      }
    }
  }

  lemma RootStays(s: Tree, sr: Path, dR: Tree, d1: Tree, d2: Tree, d3: Tree, dr: Path,
                  m: map<Path, Info>, dirs: seq<Path>, files: seq<Path>)
    requires sr in s && s[sr] == Dir && Collected(m, s, sr) && dr in dR && dR[dr] == Dir
    requires Elements(files) == set k | k in m.Keys && !m[k].isDir
    requires DirsMade(s, sr, dR, d1, dr, Elements(dirs)) && FilesDone(s, sr, dR, d1, d2, dr, Elements(files))
    requires OnlyExtrasGone(s, sr, dr, d2, d3)
    ensures dr in d3 && d3[dr] == Dir
  {
    assert dr[|dr|..] == [] && sr + [] == sr;
  }

  lemma SourceEntry(s: Tree, sr: Path, d0: Tree, dR: Tree, d1: Tree, d2: Tree, d3: Tree, dr: Path,
                    m: map<Path, Info>, dirs: seq<Path>, files: seq<Path>, k: Path)
    requires k != [] && sr + k in s && Collected(m, s, sr) && WellFormed(d0)
    requires Elements(dirs) == set k | k in m.Keys && m[k].isDir
    requires Elements(files) == set k | k in m.Keys && !m[k].isDir
    requires dR == WithDirs(d0, dr) && dr in dR
    requires DirsMade(s, sr, dR, d1, dr, Elements(dirs)) && FilesDone(s, sr, dR, d1, d2, dr, Elements(files))
    requires OnlyExtrasGone(s, sr, dr, d2, d3)
    ensures EntrySynced(s[sr + k], d0, d3, dr + k)
  {
    RootMade(d0, dr);
    assert (dr + k)[|dr|..] == k && Within(dr, dr + k);
    if k in Elements(files) {
      assert EntrySynced(s[sr + k], dR, d2, dr + k);
    } else {
      assert k in Elements(dirs);
    }
  }

  lemma ForeignEntry(s: Tree, sr: Path, d0: Tree, dR: Tree, d1: Tree, d2: Tree, dr: Path,
                     m: map<Path, Info>, dirs: seq<Path>, files: seq<Path>, k: Path)
    requires k != [] && sr + k !in s && Collected(m, s, sr) && WellFormed(d0)
    requires Elements(files) == set k | k in m.Keys && !m[k].isDir
    requires dR == WithDirs(d0, dr) && dr in dR
    requires DirsMade(s, sr, dR, d1, dr, Elements(dirs)) && FilesDone(s, sr, dR, d1, d2, dr, Elements(files))
    ensures dr + k in d2 <==> dr + k in d0
    ensures dr + k in d0 ==> d2[dr + k] == d0[dr + k]
  {
    RootMade(d0, dr);
    assert (dr + k)[|dr|..] == k && Within(dr, dr + k);
  }

  /**
   * One-way sync. On success the destination is `SyncedTo` the source. On every exit, failed or not:
   * the source is untouched, nothing outside the destination root changed, each entry is as it was,
   * finally synced or a deleted extra, and the deletions made were of extra paths only, each once and
   * already empty; without `deleteExtras` there are none.
   */
  method SyncUnidirectional(src: Store, sr: Path, dst: Store, dr: Path, deleteExtras: bool)
    returns (r: Result<(), VfsError>)
    requires src != dst && src.Valid() && dst.Valid()
    modifies dst
    ensures dst.Valid()
    ensures r.Ok? ==> SyncedTo(src.tree, sr, old(dst.tree), dst.tree, dr, deleteExtras)
    ensures OnlyRootAdded(old(dst.tree), dst.tree, dr)
    ensures EntriesKept(src.tree, sr, old(dst.tree), dst.tree, dr, deleteExtras)
    ensures OnlyExtrasDeleted(old(dst.deletions), dst.deletions, src.tree, sr, dr)
    ensures !deleteExtras ==> dst.deletions == old(dst.deletions)
  {
    if sr != [] {
      var exists' :- src.Exists(sr);
      if !exists' {
        return Err(NotFound);
      }
    }
    ghost var d0 := dst.tree;
    var _ :- EnsureDirectoryExists(dst, dr);
    RootMade(d0, dr);
    RootKeeps(src.tree, sr, d0, dr, deleteExtras);
    var sourceMap :- CollectTree(src, sr);
    var dstMap :- CollectTree(dst, dr);
    r := RunPhases(src, sr, dst, dr, sourceMap, dstMap, deleteExtras, d0);
  }

  method RunPhases(src: Store, sr: Path, dst: Store, dr: Path, sourceMap: map<Path, Info>, dstMap: map<Path, Info>,
                   deleteExtras: bool, ghost d0: Tree) returns (r: Result<(), VfsError>)
    requires src != dst && src.Valid() && dst.Valid() && WellFormed(d0)
    requires sr in src.tree && src.tree[sr] == Dir && dst.tree == WithDirs(d0, dr) && dr in dst.tree
              && dst.tree[dr] == Dir
    requires Collected(sourceMap, src.tree, sr) && Collected(dstMap, dst.tree, dr)
    modifies dst
    ensures dst.Valid()
    ensures r.Ok? ==> SyncedTo(src.tree, sr, d0, dst.tree, dr, deleteExtras)
    ensures OnlyRootAdded(d0, dst.tree, dr)
    ensures EntriesKept(src.tree, sr, d0, dst.tree, dr, deleteExtras)
    ensures OnlyExtrasDeleted(old(dst.deletions), dst.deletions, src.tree, sr, dr)
    ensures !deleteExtras ==> dst.deletions == old(dst.deletions)
  {
    ghost var s, dR, log0 := src.tree, dst.tree, dst.deletions;
    RootMade(d0, dr);
    var dirs, files := SplitByKind(sourceMap);
    KindsOf(s, sr, sourceMap, dirs, files);
    hide SyncedTo, OnlyRootAdded, Collected, DirsMade, FilesDone, NothingForeign, OnlyExtrasGone, Accounted, WithDirs;
    hide OnlyExtrasDeleted, EntriesKept;
    ghost var made;
    r, made := MakeDirectories(s, sr, dst, dr, dirs);
    ghost var d1 := dst.tree;
    NoFilesYet(s, sr, dR, d1, dr, made);
    ghost var copied: set<Path> := {};
    if r.Ok? {
      PlacesForFiles(s, sr, dR, d1, dr, dirs, files);
      r, copied := CopyStaleFiles(src, sr, dst, dr, sourceMap, dstMap, files, dR);
    }
    ghost var d2 := dst.tree;
    NothingForeignAfterCopy(s, sr, dR, d1, d2, dr, made, copied);
    NoExtrasYet(s, sr, dr, d2, log0);
    if r.Ok? && deleteExtras {
      r := DeleteExtraPaths(dst, dr, sourceMap, dstMap, s, sr, dR);
    }
    OutsideUntouched(s, sr, d0, dR, d1, d2, dst.tree, dr, made, copied);
    RunKeeps(s, sr, d0, d1, d2, dst.tree, dr, made, copied, deleteExtras);
    DeletionsAreExtras(log0, dst.deletions, s, sr, dr, d2, dst.tree);
    if r.Ok? {
      PhasesSync(s, sr, d0, dR, d1, d2, dst.tree, dr, sourceMap, dirs, files, deleteExtras);
    }
  }

  lemma NoFilesYet(s: Tree, sr: Path, dR: Tree, d1: Tree, dr: Path, made: set<Path>)
    requires DirsMade(s, sr, dR, d1, dr, made)
    ensures FilesDone(s, sr, dR, d1, d1, dr, {})
  {}

  lemma NoExtrasYet(s: Tree, sr: Path, dr: Path, d2: Tree, log: seq<(Path, bool)>)
    ensures OnlyExtrasGone(s, sr, dr, d2, d2) && Accounted(log, log, d2, d2)
  {
    NothingDeleted(log, d2);
  }

  lemma PlacesForFiles(s: Tree, sr: Path, dR: Tree, d1: Tree, dr: Path, dirs: seq<Path>, files: seq<Path>)
    requires DirsMade(s, sr, dR, d1, dr, Elements(dirs)) && dr in dR
    requires forall k :: k in files ==> k != [] && (k[..|k| - 1] == [] || k[..|k| - 1] in dirs)
    ensures forall k :: k in files ==> dr + k[..|k| - 1] in d1
    ensures KeepsAll(dR, d1)
  {
    forall k | k in files
      ensures dr + k[..|k| - 1] in d1
    {
      if k[..|k| - 1] == [] {
        assert dr + k[..|k| - 1] == dr;
      }
    }
  }
}
