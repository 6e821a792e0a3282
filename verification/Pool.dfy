/** The storage pool: a primary operator with an optional backup, and a read cache in front of them. */
module Pool {
  import opened Wrappers
  import opened Bytes
  import opened ReadCache
  import Counting

  datatype Node = Dir(modified: Option<int>) | File(content: seq<byte>, modified: Option<int>)

  type Tree = map<string, Node>

  datatype PoolError = NotFound | IsADirectory | Unexpected

  /** A path as listings give it: no slash at its end, unless it is the root. */
  predicate Canonical(path: string) {
    path == "/" || (path != "" && path[|path| - 1] != '/')
  }

  function NormalizeEntryPath(path: string): string {
    if path == "/" || path == "" || path[|path| - 1] != '/' then path else path[..|path| - 1]
  }

  /** The path of a directory with its slash. */
  function ListPath(normalized: string): string {
    if normalized == "/" then "/" else TrimSlashes(normalized) + "/"
  }

  function TrimSlashes(path: string): string {
    if path != "" && path[|path| - 1] == '/' then TrimSlashes(path[..|path| - 1]) else path
  }

  /** `path` lies strictly below the directory `dir`. */
  predicate StrictlyBelow(dir: string, path: string) {
    if dir == "/" then path != "/" else dir + "/" <= path
  }

  function InfoOf(path: string, node: Node): FileInfo {
    match node
    case Dir(modified) => FileInfo(path, true, 0, modified)
    case File(content, modified) => FileInfo(path, false, |content|, modified)
  }

  /** What a stat tells: the path asked for, the kind, the number of bytes and the time. */
  lemma InfoTells(path: string, node: Node)
    ensures var info := InfoOf(path, node);
            && info.path == path && (info.isDir <==> node.Dir?) && info.modified == node.modified
            && info.size == if node.File? then |node.content| else 0
  {}

  // ---- ranges ----

  datatype Range = Range(start: nat, end: nat)

  predicate Within(i: int, start: nat, end: nat) {
    start <= i < end
  }

  function ClampReadRange(start: nat, end: nat, size: nat): (r: Range)
    ensures r.start <= r.end <= size
    ensures forall i :: Within(i, r.start, r.end) <==> Within(i, start, end) && Within(i, 0, size)
  {
    var s := Min(start, size);
    var e := Min(end, size);
    Range(s, if e < s then s else e)
  }

  function SliceBytes(data: seq<byte>, start: nat, end: nat): seq<byte> {
    var s := Min(start, |data|);
    var e := Min(end, |data|);
    if s >= e then [] else data[s..e]
  }

  lemma CanonicalIsKept(path: string)
    requires Canonical(path)
    ensures NormalizeEntryPath(path) == path && NormalizeEntryPath(ListPath(path)) == path
  {}

  /** Slicing a whole file is reading its clamped range. */
  lemma SliceIsClampedRange(data: seq<byte>, start: nat, end: nat)
    ensures var r := ClampReadRange(start, end, |data|); SliceBytes(data, start, end) == data[r.start..r.end]
  {}

  // ---- the backend ----

  /** The same files with the same contents and times, except at the paths named. */
  ghost predicate SameFilesExcept(a: Tree, b: Tree, paths: set<string>) {
    forall p :: p !in paths ==>
      ((p in a && a[p].File?) <==> (p in b && b[p].File?)) && (p in a && a[p].File? ==> a[p] == b[p])
  }

  /** Reading a file, or a range of it, without any cache. */
  ghost predicate DirectRead(t: Tree, path: string, hit: Hit) {
    path in t && t[path].File? && hit == Hit(t[path].content, InfoOf(path, t[path]))
  }

  ghost predicate DirectReadRange(t: Tree, path: string, start: nat, end: nat, hit: Hit) {
    path in t && t[path].File? && hit == Hit(SliceBytes(t[path].content, start, end), InfoOf(path, t[path]))
  }

  /** The paths after a directory was renamed: everything below it keeps its suffix. */
  ghost predicate Renamed(before: Tree, after: Tree, src: string, dst: string)
    requires dst != "/"
  {
    && (forall p :: p in before && p != src && !StrictlyBelow(src, p) && p != dst ==>
          p in after && after[p] == before[p])
    && (forall p :: p in after && p != dst && !StrictlyBelow(dst, p) ==>
          p in before && p != src && !StrictlyBelow(src, p))
    && (forall p :: p in after && (p == dst || StrictlyBelow(dst, p)) ==>
          src + p[|dst|..] in before && after[p] == before[src + p[|dst|..]])
  }

  ghost predicate CoherentWith(entries: Entries, t: Tree) {
    forall k :: k in entries ==> DirectRead(t, k, Hit(entries[k].data, entries[k].info))
  }

  lemma StoredIsCoherent(before: Entries, after: Entries, t: Tree, path: string, hit: Hit)
    requires CoherentWith(before, t) && DirectRead(t, path, hit) && PartOf(after - {path}, before)
    requires after != before && path in after ==> after[path].data == hit.data && after[path].info == hit.info
    ensures CoherentWith(after, t)
  {
    forall k | k in after
      ensures DirectRead(t, k, Hit(after[k].data, after[k].info))
    {
      assert k != path ==> k in after - {path} && k in before;
    }
  }

  /** Files changed only where nothing is cached. */
  lemma UncachedChange(entries: Entries, before: Tree, after: Tree, paths: set<string>)
    requires CoherentWith(entries, before) && SameFilesExcept(before, after, paths)
    requires forall k :: k in entries ==> k !in paths
    ensures CoherentWith(entries, after)
  {}

  lemma SameEntriesLess(entries: Entries, left: Entries, t: Tree, src: string, dst: string)
    requires CoherentWith(entries, t) && left == entries - {src} - {dst}
    ensures CoherentWith(left, t) && forall k :: k in left ==> k !in {src, dst}
  {}

  /** After a directory was renamed, entries below its old place are stale, and no others. */
  lemma StaleExactlyBelowSource(entries: Entries, before: Tree, after: Tree, src: string, dst: string)
    requires CoherentWith(entries, before)
    requires CanRename(before, src, dst) && Renamed(before, after, src, dst)
    ensures CoherentWith(entries - {src} - {dst}, after) <==> forall k :: k in entries ==> !StrictlyBelow(src, k)
  {
    var kept := entries - {src} - {dst};
    if k :| k in entries && StrictlyBelow(src, k) {
      assert k in kept && k in before;
      assert k !in after;
      assert !DirectRead(after, k, Hit(kept[k].data, kept[k].info));
    } else {
      forall k | k in kept
        ensures DirectRead(after, k, Hit(kept[k].data, kept[k].info))
      {
        assert DirectRead(before, k, Hit(entries[k].data, entries[k].info));
      }
    }
  }

  /** A directory may move to another place outside itself where there is nothing, or an empty directory. */
  predicate CanRename(t: Tree, src: string, dst: string) {
    && src != dst && src != "/" && dst != "/"
    && !StrictlyBelow(src, dst)
    && forall p :: p in t.Keys ==> !StrictlyBelow(dst, p)
  }

  function RenameDirectory(t: Tree, src: string, dst: string): Tree
    requires src != "/" && dst != "/"
  {
    var kept := map p | p in t.Keys && p != src && !StrictlyBelow(src, p) && p != dst :: t[p];
    var names := set p | p in t.Keys && (p == src || StrictlyBelow(src, p)) :: dst + p[|src|..];
    kept + map q | q in names && src + q[|dst|..] in t :: t[src + q[|dst|..]]
  }

  lemma RenameDirectoryRenames(t: Tree, src: string, dst: string)
    requires CanRename(t, src, dst) && Canonical(src) && Canonical(dst) && forall p :: p in t ==> Canonical(p)
    ensures var t' := RenameDirectory(t, src, dst);
            Renamed(t, t', src, dst) && forall p :: p in t' ==> Canonical(p)
  {
    var t' := RenameDirectory(t, src, dst);
    var names := set p | p in t.Keys && (p == src || StrictlyBelow(src, p)) :: dst + p[|src|..];
    forall q | q in names
      ensures (q == dst || StrictlyBelow(dst, q)) && src + q[|dst|..] in t && Canonical(q)
    {
      var p :| p in t.Keys && (p == src || StrictlyBelow(src, p)) && q == dst + p[|src|..];
      NewName(src, dst, p);
    }
    assert forall p :: p in t' && p !in names ==> p in t && t'[p] == t[p];
  }

  lemma NewName(src: string, dst: string, p: string)
    requires Canonical(src) && Canonical(dst) && Canonical(p) && src != "/" && dst != "/"
    requires p == src || StrictlyBelow(src, p)
    ensures var q := dst + p[|src|..]; (q == dst || StrictlyBelow(dst, q)) && src + q[|dst|..] == p && Canonical(q)
  {
    var q := dst + p[|src|..];
    assert src + p[|src|..] == p && q[|dst|..] == p[|src|..];
    if p == src {
      assert q == dst;
    } else {
      assert p[|src|] == '/' == q[|dst|];
      assert q[|q| - 1] == p[|p| - 1];
    }
  }

  function Paths(infos: seq<FileInfo>): set<string> {
    set info | info in infos :: info.path
  }

  ghost predicate AllListed(t: Tree, root: string, infos: seq<FileInfo>) {
    forall info :: info in infos ==>
      info.path in t && Canonical(info.path) && info == InfoOf(info.path, t[info.path])
          && (info.path == root || StrictlyBelow(root, info.path))
  }

  ghost predicate Listing(t: Tree, root: string, infos: seq<FileInfo>) {
    AllListed(t, root, infos) && forall p :: p in t && StrictlyBelow(root, p) ==> p in Paths(infos)
  }

  /** Nothing is deleted after a directory it lies below. */
  ghost predicate DeepestFirst(deleted: seq<string>) {
    forall i, j :: 0 <= i < j < |deleted| ==> !StrictlyBelow(deleted[i], deleted[j])
  }

  ghost predicate LongerFirst(deleted: seq<string>) {
    forall i, j :: 0 <= i < j < |deleted| ==> |deleted[i]| >= |deleted[j]|
  }

  lemma LongerIsDeeper(deleted: seq<string>)
    requires LongerFirst(deleted) && "/" !in deleted
    ensures DeepestFirst(deleted)
  {}

  /** Nothing changed but that paths at or below `path` may be gone. */
  ghost predicate OnlyBelowRemoved(before: Tree, after: Tree, path: string) {
    && after.Keys <= before.Keys
    && (forall p :: p in after ==> after[p] == before[p])
    && forall p :: p in before && p !in after ==> p == path || StrictlyBelow(path, p)
  }

  /** The listed entries other than the directory's own. */
  function EntriesBelow(infos: seq<FileInfo>, path: string): set<FileInfo> {
    set info | info in infos && NormalizeEntryPath(info.path) != path
  }

  ghost predicate AllBelow(listed: seq<FileInfo>, infos: set<FileInfo>, path: string) {
    forall info :: info in infos ==>
      info in listed && StrictlyBelow(path, info.path) && Canonical(info.path) && info.path != "/"
  }

  /** The listed paths are gone, but for those left and the directory itself. */
  ghost predicate Gone(t: Tree, listed: seq<FileInfo>, left: set<FileInfo>, path: string) {
    forall info :: info in listed && info.path != path && info !in left ==> info.path !in t
  }

  lemma ListedAreBelow(listing: Tree, t: Tree, path: string, listed: seq<FileInfo>)
    requires Canonical(path) && Listing(listing, path, listed)
    ensures AllBelow(listed, EntriesBelow(listed, path), path) && Gone(t, listed, EntriesBelow(listed, path), path)
  {
    forall info | info in listed
      ensures NormalizeEntryPath(info.path) == info.path
    {
      CanonicalIsKept(info.path);
    }
  }

  function PathsOf(log: seq<Deletion>): (paths: seq<string>)
    ensures |paths| == |log| && forall i :: 0 <= i < |log| ==> paths[i] == log[i].path
  {
    seq(|log|, i requires 0 <= i < |log| => log[i].path)
  }

  lemma PathsOfLonger(log: seq<Deletion>, d: Deletion)
    ensures PathsOf(log + [d]) == PathsOf(log) + [d.path]
  {}

  /** The paths that went are the logged ones. */
  ghost predicate LogsWhatWent(log: seq<Deletion>, t0: Tree, t: Tree) {
    forall p :: p in PathsOf(log) <==> p in t0 && p !in t
  }

  ghost predicate AllAlone(log: seq<Deletion>) {
    forall d :: d in log ==> d.alone
  }

  /**
   * The log has exactly the paths that went, each once, none after a directory it lies below; and
   * nothing was left below any of them when it went, if the whole tree was known.
   */
  ghost predicate DeletedInOrder(log: seq<Deletion>, t0: Tree, t1: Tree, wholeTree: bool) {
    && LogsWhatWent(log, t0, t1) && Counting.Distinct(PathsOf(log)) && DeepestFirst(PathsOf(log))
    && (wholeTree ==> AllAlone(log))
  }

  /**
   * What holds between two deletions: only paths below the directory went, in order of length, no
   * path left is longer than one deleted, and while none failed the listed paths not left are gone.
   */
  ghost predicate DeletedSoFar(t0: Tree, t: Tree, listed: seq<FileInfo>, left: set<FileInfo>, path: string,
                               log: seq<Deletion>, ok: bool) {
    && OnlyBelowRemoved(t0, t, path) && LogsWhatWent(log, t0, t) && Counting.Distinct(PathsOf(log))
    && LongestFirst(PathsOf(log), left, path)
    && (Listing(t0, path, listed) ==> AllAlone(log))
    && (ok ==> Gone(t, listed, left, path))
  }

  ghost predicate LongestFirst(deleted: seq<string>, left: set<FileInfo>, path: string) {
    && LongerFirst(deleted)
    && (forall info, d :: info in left && d in deleted ==> |info.path| <= |d|)
    && (forall d :: d in deleted ==> d != "/" && !StrictlyBelow(d, path))
  }

  lemma NothingDeletedYet(t: Tree, listed: seq<FileInfo>, left: set<FileInfo>, path: string)
    requires Gone(t, listed, left, path)
    ensures DeletedSoFar(t, t, listed, left, path, [], true)
  {}

  /** With the whole tree listed, nothing is left below a longest path among those left. */
  lemma LongestIsAlone(t0: Tree, t: Tree, listed: seq<FileInfo>, left: set<FileInfo>, info: FileInfo, path: string)
    requires OnlyBelowRemoved(t0, t, path) && Gone(t, listed, left, path) && Listing(t0, path, listed)
    requires AllBelow(listed, left, path) && Canonical(path) && IsLongest(left, info)
    ensures NothingBelow(t, info.path)
  {
    forall q | q in t
      ensures !StrictlyBelow(info.path, q)
    {
      if StrictlyBelow(info.path, q) {
        BelowBelow(path, info.path, q);
        PresentIsNoLonger(t0, t, listed, left, info, path, q);
      }
    }
  }

  predicate IsLongest(infos: set<FileInfo>, info: FileInfo) {
    info in infos && forall other :: other in infos ==> |other.path| <= |info.path|
  }

  lemma PresentIsNoLonger(t0: Tree, t: Tree, listed: seq<FileInfo>, left: set<FileInfo>, info: FileInfo, path: string,
                          q: string)
    requires OnlyBelowRemoved(t0, t, path) && Gone(t, listed, left, path) && Listing(t0, path, listed)
    requires IsLongest(left, info) && q in t && StrictlyBelow(path, q) && q != path
    ensures |q| <= |info.path|
  {
    assert q in Paths(listed);
    var other :| other in listed && other.path == q;
    assert other in left;
  }

  lemma BelowBelow(path: string, p: string, q: string)
    requires Canonical(path) && StrictlyBelow(path, p) && Canonical(p) && p != "/" && StrictlyBelow(p, q)
    ensures StrictlyBelow(path, q) && q != path && |q| > |p|
  {
    if path != "/" {
      assert p + "/" <= q && path + "/" <= p;
      assert q[..|path| + 1] == p[..|path| + 1] == path + "/";
    }
  }

  lemma OneMoreDeleted(t0: Tree, t1: Tree, t2: Tree, listed: seq<FileInfo>, left: set<FileInfo>, info: FileInfo,
                       path: string, log: seq<Deletion>, ok: bool)
    requires DeletedSoFar(t0, t1, listed, left, path, log, true) && AllBelow(listed, left, path)
    requires IsLongest(left, info) && Canonical(path)
    requires (t2 == t1 || t2 == t1 - {info.path}) && (ok ==> info.path !in t2)
    ensures DeletedSoFar(t0, t2, listed, left - {info}, path, Logged(log, t1, t2, info.path), ok)
  {
    hide StrictlyBelow, Listing, PathsOf, NothingBelow, AllBelow, Gone, LongestFirst, IsLongest, Counting.Distinct;
    NextToDelete(listed, left, info, path);
    if Listing(t0, path, listed) {
      LongestIsAlone(t0, t1, listed, left, info, path);
    }
    OneLessLeft(t1, t2, listed, left, info, path, ok);
    OneMoreInOrder(PathsOf(log), left, info, path);
    if t2 != t1 {
      var d := Deletion(info.path, NothingBelow(t1, info.path));
      PathsOfLonger(log, d);
      LogOneMore(t0, t1, t2, log, d, path);
    }
  }

  lemma NextToDelete(listed: seq<FileInfo>, left: set<FileInfo>, info: FileInfo, path: string)
    requires AllBelow(listed, left, path) && IsLongest(left, info) && Canonical(path)
    ensures StrictlyBelow(path, info.path) && info.path != "/" && !StrictlyBelow(info.path, path)
  {
    BelowIsNotAbove(path, info.path);
  }

  lemma OneLessLeft(t1: Tree, t2: Tree, listed: seq<FileInfo>, left: set<FileInfo>, info: FileInfo, path: string,
                    ok: bool)
    requires Gone(t1, listed, left, path) && t2.Keys <= t1.Keys && (ok ==> info.path !in t2)
    ensures ok ==> Gone(t2, listed, left - {info}, path)
  {}

  lemma OneMoreInOrder(deleted: seq<string>, left: set<FileInfo>, info: FileInfo, path: string)
    requires LongestFirst(deleted, left, path) && IsLongest(left, info)
    requires info.path != "/" && !StrictlyBelow(info.path, path)
    ensures LongestFirst(deleted, left - {info}, path) && LongestFirst(deleted + [info.path], left - {info}, path)
  {
    hide StrictlyBelow;
  }

  /** One more path went and was logged. */
  lemma LogOneMore(t0: Tree, t1: Tree, t2: Tree, log: seq<Deletion>, d: Deletion, path: string)
    requires OnlyBelowRemoved(t0, t1, path) && LogsWhatWent(log, t0, t1) && Counting.Distinct(PathsOf(log))
    requires d.path in t1 && t2 == t1 - {d.path} && (d.path == path || StrictlyBelow(path, d.path))
    ensures OnlyBelowRemoved(t0, t2, path) && LogsWhatWent(log + [d], t0, t2) && Counting.Distinct(PathsOf(log + [d]))
  {
    hide StrictlyBelow;
    PathsOfLonger(log, d);
  }

  lemma BelowIsNotAbove(path: string, below: string)
    requires Canonical(path) && Canonical(below) && StrictlyBelow(path, below) && below != "/"
    ensures !StrictlyBelow(below, path)
  {}

  /** Deleting the directory last keeps all of this. */
  lemma RootDeleted(t0: Tree, t1: Tree, t2: Tree, listed: seq<FileInfo>, left: set<FileInfo>, path: string,
                    log: seq<Deletion>, rootDone: bool, wholeTree: bool)
    requires wholeTree ==> Listing(t0, path, listed)
    requires DeletedSoFar(t0, t1, listed, left, path, log, rootDone)
    requires t2 == t1 || (rootDone && left == {} && t2 == t1 - {path})
    requires Canonical(path)
    ensures OnlyBelowRemoved(t0, t2, path)
    ensures rootDone && left == {} && wholeTree ==> NothingBelow(t2, path)
    ensures DeletedInOrder(Logged(log, t1, t2, path), t0, t2, wholeTree)
  {
    DirectoryLast(PathsOf(log), left, path);
    hide LongestFirst, DeepestFirst, StrictlyBelow, PathsOf;
    if rootDone && left == {} && wholeTree {
      NothingLeft(t0, t1, path, listed);
    }
    hide Listing, Gone, NothingBelow;
    if t2 != t1 {
      var d := Deletion(path, NothingBelow(t1, path));
      PathsOfLonger(log, d);
      LogOneMore(t0, t1, t2, log, d, path);
    }
  }

  lemma DirectoryLast(deleted: seq<string>, left: set<FileInfo>, path: string)
    requires LongestFirst(deleted, left, path)
    ensures DeepestFirst(deleted) && DeepestFirst(deleted + [path])
  {
    LongerIsDeeper(deleted);
  }

  lemma NothingRemoved(t: Tree, log: seq<Deletion>, path: string, wholeTree: bool)
    ensures OnlyBelowRemoved(t, t, path) && DeletedInOrder(log[|log|..], t, t, wholeTree)
  {}

  lemma LogGrew(log0: seq<Deletion>, log: seq<Deletion>, t1: Tree, t2: Tree, path: string)
    ensures var log1 := Logged(log0 + log, t1, t2, path);
            log0 <= log1 && log1[|log0|..] == Logged(log, t1, t2, path)
  {}

  lemma NothingLeft(t0: Tree, t1: Tree, path: string, listed: seq<FileInfo>)
    requires Listing(t0, path, listed) && Gone(t1, listed, {}, path) && OnlyBelowRemoved(t0, t1, path)
              && Canonical(path)
    ensures NothingBelow(t1, path)
  {
    forall p | p in t0 && StrictlyBelow(path, p)
      ensures p !in t1
    {
      assert p in Paths(listed);
      var info :| info in listed && info.path == p;
    }
  }

  /** Nothing is strictly below the path. */
  ghost predicate NothingBelow(t: Tree, path: string) {
    forall p :: p in t ==> !StrictlyBelow(path, p)
  }

  /** A path that went, and whether nothing was left below it then. */
  datatype Deletion = Deletion(path: string, alone: bool)

  /** The log after a deletion of `p` that may or may not have taken effect. */
  ghost function Logged(log: seq<Deletion>, t0: Tree, t1: Tree, p: string): seq<Deletion> {
    if t1 == t0 then log else log + [Deletion(p, NothingBelow(t0, p))]
  }

  /** How often reads, stats and listings of an operator have failed. */
  datatype Failures = Failures(ofRead: nat, ofStat: nat, ofList: nat)

  class Operator {
    var tree: Tree
    /** Every deletion that took effect, in order. */
    ghost var deletions: seq<Deletion>
    /** How often a question to the operator has failed. */
    ghost var failures: Failures

    ghost predicate Valid()
      reads this`tree
    {
      forall p :: p in tree ==> Canonical(p)
    }

    method Read(path: string) returns (r: Result<seq<byte>, PoolError>)
      modifies this`failures
      ensures failures == if r.Err? then old(failures).(ofRead := old(failures).ofRead + 1) else old(failures)
      ensures r.Ok? ==> path in tree && tree[path].File? && r.value == tree[path].content
    {
      var available: bool := *;
      r := if !available then Err(Unexpected)
           else if path !in tree then Err(NotFound)
           else if tree[path].Dir? then Err(IsADirectory)
           else Ok(tree[path].content);
      if r.Err? {
        failures := failures.(ofRead := failures.ofRead + 1);
      }
    }

    method ReadWith(path: string, range: Range) returns (r: Result<seq<byte>, PoolError>)
      modifies this`failures
      ensures failures == if r.Err? then old(failures).(ofRead := old(failures).ofRead + 1) else old(failures)
      ensures r.Ok? ==> path in tree && tree[path].File? && range.start <= range.end <= |tree[path].content|
                        && r.value == tree[path].content[range.start..range.end]
    {
      r := Read(path);
      if r.Ok? {
        if range.start <= range.end <= |r.value| {
          r := Ok(r.value[range.start..range.end]);
        } else {
          r := Err(Unexpected);
          failures := failures.(ofRead := failures.ofRead + 1);
        }
      }
    }

    method Stat(path: string) returns (r: Result<FileInfo, PoolError>)
      modifies this`failures
      ensures failures == if r.Err? then old(failures).(ofStat := old(failures).ofStat + 1) else old(failures)
      ensures r.Ok? ==> NormalizeEntryPath(path) in tree && r.value == InfoOf(path, tree[NormalizeEntryPath(path)])
    {
      var available: bool := *;
      r := if !available then Err(Unexpected)
           else if NormalizeEntryPath(path) !in tree then Err(NotFound)
           else Ok(InfoOf(path, tree[NormalizeEntryPath(path)]));
      if r.Err? {
        failures := failures.(ofStat := failures.ofStat + 1);
      }
    }

    /** Lists what is below a directory, each path once, in any order; the directory itself may be among it. */
    method ListRecursive(path: string) returns (r: Result<seq<FileInfo>, PoolError>)
      requires Valid()
      modifies this`failures
      ensures failures == if r.Err? then old(failures).(ofList := old(failures).ofList + 1) else old(failures)
      ensures r.Ok? ==> Listing(tree, NormalizeEntryPath(path), r.value)
    {
      var available: bool := *;
      if !available {
        failures := failures.(ofList := failures.ofList + 1);
        return Err(Unexpected);
      }
      var root := NormalizeEntryPath(path);
      var infos: seq<FileInfo> := [];
      var left := set p | p in tree.Keys && (p == root || StrictlyBelow(root, p));
      while left != {}
        invariant left <= tree.Keys
        invariant forall p :: p in tree && (p == root || StrictlyBelow(root, p)) ==> p in left || p in Paths(infos)
        invariant forall p :: p in left ==> p == root || StrictlyBelow(root, p)
        invariant AllListed(tree, root, infos)
        decreases left
      {
        var p :| p in left;
        infos := infos + [InfoOf(p, tree[p])];
        left := left - {p};
      }
      r := Ok(infos);
    }

    /** Writes a file; a failed write may leave anything at its path. */
    method Write(path: string, data: seq<byte>) returns (r: Result<(), PoolError>)
      requires Valid() && Canonical(path)
      modifies this`tree
      ensures Valid()
      ensures SameFilesExcept(old(tree), tree, {path})
      ensures r.Ok? ==> path in tree && tree[path].File? && tree[path].content == data
    {
      if path in tree && tree[path].Dir? {
        return Err(IsADirectory);
      }
      var done: bool := *;
      var stored: seq<byte>, modified: Option<int> := *, *;
      tree := tree[path := File(if done then data else stored, modified)];
      r := if done then Ok(()) else Err(Unexpected);
    }

    /** Deletes just the path; one with a slash at its end names a directory, and a missing path is no error. */
    method Delete(path: string) returns (r: Result<(), PoolError>)
      requires Valid()
      modifies this`tree, this`deletions
      ensures Valid()
      ensures tree == old(tree) || tree == old(tree) - {NormalizeEntryPath(path)}
      ensures deletions == Logged(old(deletions), old(tree), tree, NormalizeEntryPath(path))
      ensures NormalizeEntryPath(path) != path ==> SameFilesExcept(old(tree), tree, {})
      ensures r.Ok? ==> NormalizeEntryPath(path) !in tree
    {
      var p := NormalizeEntryPath(path);
      var available: bool := *;
      if !available || (p != path && p in tree && tree[p].File?) {
        return Err(Unexpected);
      }
      deletions := Logged(deletions, tree, tree - {p}, p);
      tree := tree - {p};
      r := Ok(());
    }

    /** Moves a file, or a directory with all that is below it. */
    method Rename(src: string, dst: string) returns (r: Result<(), PoolError>)
      requires Valid() && Canonical(dst)
      modifies this`tree
      ensures Valid()
      ensures r.Err? ==> SameFilesExcept(old(tree), tree, {src, dst})
      ensures r.Ok? ==> src in old(tree)
      ensures r.Ok? && old(tree)[src].File? ==>
                && SameFilesExcept(old(tree), tree, {src, dst})
                && src !in tree && dst in tree && tree[dst].File? && tree[dst].content == old(tree)[src].content
      ensures r.Ok? && old(tree)[src].Dir? ==> CanRename(old(tree), src, dst) && Renamed(old(tree), tree, src, dst)
    {
      var available: bool := *;
      if !available || src !in tree || src == dst || (tree[src].Dir? && !CanRename(tree, src, dst)) {
        return Err(Unexpected);
      }
      if tree[src].File? {
        if dst in tree && tree[dst].Dir? {
          return Err(IsADirectory);
        }
        var modified: Option<int> := *;
        tree := (tree - {src})[dst := File(tree[src].content, modified)];
      } else {
        RenameDirectoryRenames(tree, src, dst);
        tree := RenameDirectory(tree, src, dst);
      }
      r := Ok(());
    }

    method Copy(src: string, dst: string) returns (r: Result<(), PoolError>)
      requires Valid() && Canonical(dst)
      modifies this`tree
      ensures Valid()
      ensures SameFilesExcept(old(tree), tree, {dst})
      ensures r.Ok? ==> && src in old(tree) && old(tree)[src].File?
                        && dst in tree && tree[dst].File? && tree[dst].content == old(tree)[src].content
    {
      if src !in tree || tree[src].Dir? || src == dst || (dst in tree && tree[dst].Dir?) {
        return Err(Unexpected);
      }
      var done: bool := *;
      var stored: seq<byte>, modified: Option<int> := *, *;
      tree := tree[dst := File(if done then tree[src].content else stored, modified)];
      r := if done then Ok(()) else Err(Unexpected);
    }
  }

  class VfsPool {
    const primary: Operator
    const backup: Option<Operator>
    const cache: Cache

    ghost function Backups(): set<Operator> {
      if backup.Some? then {backup.value} else {}
    }

    ghost predicate Valid()
      reads this, cache, primary`tree, Backups()`tree
    {
      cache.Valid() && primary.Valid() && (backup.Some? ==> backup.value != primary && backup.value.Valid())
    }

    ghost function Now(): Moment
      reads primary`tree, primary`failures
    {
      Moment(primary.tree, primary.failures)
    }

    ghost function BackupTree(): Option<Tree>
      reads Backups()`tree
    {
      if backup.Some? then Some(backup.value.tree) else None
    }

    /** Every cached entry is what a direct read of the primary would give now. */
    ghost predicate Coherent()
      reads cache, primary`tree
    {
      CoherentWith(cache.entries, primary.tree)
    }

    constructor (primary: Operator, backup: Option<Operator>, config: Config)
      requires config.capacity <= U64_MAX && primary.Valid()
      requires backup.Some? ==> backup.value != primary && backup.value.Valid()
      ensures Valid() && Coherent() && this.primary == primary && this.backup == backup && fresh(cache)
    {
      this.primary := primary;
      this.backup := backup;
      this.cache := new Cache(config);
    }

    /** The clock may show anything. */
    method NowTs() returns (now: int) {
      now := *;
    }

    method InvalidateReadCache(path: string)
      requires Valid()
      modifies cache
      ensures Valid() && cache.entries == old(cache.entries) - {path}
    {
      cache.Remove(path);
    }

    /** The backup is asked only when the primary has failed. */
    method Stat(path: string) returns (r: Result<FileInfo, PoolError>)
      requires backup.Some? ==> backup.value != primary
      modifies primary`failures, Backups()`failures
      ensures primary.failures.ofRead == old(primary.failures.ofRead)
                && primary.failures.ofList == old(primary.failures.ofList)
      ensures var p := NormalizeEntryPath(path);
              if primary.failures == old(primary.failures) then
                r.Ok? && p in primary.tree && r.value == InfoOf(path, primary.tree[p])
              else
                && primary.failures.ofStat > old(primary.failures.ofStat)
                && (r.Ok? ==> backup.Some? && p in backup.value.tree && r.value == InfoOf(path, backup.value.tree[p]))
    {
      r := primary.Stat(path);
      if r.Err? && backup.Some? {
        r := backup.value.Stat(path);
      }
    }

    /**
     * What is read through the cache is what a direct read gives. The backup answers only when the
     * primary's read has failed, and a primary without failure answers always.
     */
    method Read(path: string) returns (r: Result<Hit, PoolError>)
      requires Valid() && Coherent() && Canonical(path)
      modifies cache, primary`failures, Backups()`failures
      ensures Valid() && Coherent()
      ensures primary.failures == old(primary.failures) ==> r.Ok?
      ensures r.Ok? && primary.failures.ofRead == old(primary.failures.ofRead) ==>
                DirectRead(primary.tree, path, r.value)
      ensures r.Ok? && primary.failures.ofRead != old(primary.failures.ofRead) ==>
                backup.Some? && DirectRead(backup.value.tree, path, r.value)
      ensures primary.failures.ofRead >= old(primary.failures.ofRead)
    {
      CanonicalIsKept(path);
      var now := NowTs();
      var hit := cache.Get(path, now);
      if hit.Some? {
        return Ok(hit.value);
      }
      var data := primary.Read(path);
      if data.Ok? {
        r := Remember(path, data.value);
        return;
      }
      if backup.None? {
        return Err(data.error);
      }
      data := backup.value.Read(path);
      if data.Err? {
        return Err(data.error);
      }
      var info := backup.value.Stat(path);
      r := if info.Err? then Err(info.error) else Ok(Hit(data.value, info.value));
    }

    /** Completes what was read from the primary and puts it into the cache. */
    method Remember(path: string, data: seq<byte>) returns (r: Result<Hit, PoolError>)
      requires Valid() && Coherent() && Canonical(path)
      requires path in primary.tree && primary.tree[path].File? && data == primary.tree[path].content
      modifies cache, primary`failures
      ensures Valid() && Coherent()
      ensures primary.failures.ofRead == old(primary.failures.ofRead)
      ensures primary.failures == old(primary.failures) ==> r.Ok?
      ensures r.Ok? ==> DirectRead(primary.tree, path, r.value)
    {
      CanonicalIsKept(path);
      var info := primary.Stat(path);
      if info.Err? {
        return Err(info.error);
      }
      ghost var before := cache.entries;
      var cleanup := NowTs();
      var eviction := NowTs();
      var created := NowTs();
      var stored := cache.Put(path, data, info.value, PutTimes(cleanup, eviction, created));
      StoredIsCoherent(before, cache.entries, primary.tree, path, Hit(data, info.value));
      r := Ok(Hit(data, info.value));
    }

    /**
     * A range through the cache is what a direct read of the range gives. The backup answers only when
     * the primary's stat has failed, and a primary without failure answers always.
     */
    method ReadRange(path: string, start: nat, end: nat) returns (r: Result<Hit, PoolError>)
      requires Valid() && Coherent() && Canonical(path)
      modifies cache, primary`failures, Backups()`failures
      ensures Valid() && Coherent()
      ensures primary.failures == old(primary.failures) ==> r.Ok?
      ensures r.Ok? && primary.failures.ofStat == old(primary.failures.ofStat) ==>
                DirectReadRange(primary.tree, path, start, end, r.value)
      ensures r.Ok? && primary.failures.ofStat != old(primary.failures.ofStat) ==>
                backup.Some? && DirectReadRange(backup.value.tree, path, start, end, r.value)
      ensures primary.failures.ofStat >= old(primary.failures.ofStat)
    {
      CanonicalIsKept(path);
      var now := NowTs();
      var hit := cache.Get(path, now);
      if hit.Some? {
        return Ok(Hit(SliceBytes(hit.value.data, start, end), hit.value.info));
      }
      var info := primary.Stat(path);
      if info.Ok? {
        r := ReadClamped(primary, path, start, end, info.value);
        return;
      }
      if backup.None? {
        return Err(info.error);
      }
      info := backup.value.Stat(path);
      if info.Err? {
        return Err(info.error);
      }
      r := ReadClamped(backup.value, path, start, end, info.value);
    }

    method ReadClamped(operator: Operator, path: string, start: nat, end: nat, info: FileInfo)
      returns (r: Result<Hit, PoolError>)
      requires path in operator.tree && info == InfoOf(path, operator.tree[path])
      modifies operator`failures
      ensures operator.failures.ofStat == old(operator.failures.ofStat)
      ensures r.Err? <==> operator.failures != old(operator.failures)
      ensures r.Ok? ==> DirectReadRange(operator.tree, path, start, end, r.value)
    {
      var data := operator.ReadWith(path, ClampReadRange(start, end, info.size));
      if data.Err? {
        return Err(data.error);
      }
      SliceIsClampedRange(operator.tree[path].content, start, end);
      r := Ok(Hit(data.value, info));
    }

    method Write(path: string, data: seq<byte>) returns (r: Result<FileInfo, PoolError>)
      requires Valid() && Coherent() && Canonical(path)
      modifies cache, primary, Backups()`failures
      ensures Valid() && Coherent()
      ensures SameFilesExcept(old(primary.tree), primary.tree, {path})
      ensures r.Ok? ==> path in primary.tree && primary.tree[path].File? && primary.tree[path].content == data
    {
      InvalidateReadCache(path);
      var written := primary.Write(path, data);
      if written.Err? {
        return Err(written.error);
      }
      r := Stat(path);
    }

    method CopyFile(src: string, dst: string) returns (r: Result<FileInfo, PoolError>)
      requires Valid() && Coherent() && Canonical(dst)
      modifies cache, primary, Backups()`failures
      ensures Valid() && Coherent()
      ensures SameFilesExcept(old(primary.tree), primary.tree, {dst})
      ensures r.Ok? ==> && src in old(primary.tree) && old(primary.tree)[src].File?
                        && dst in primary.tree && primary.tree[dst].File?
                        && primary.tree[dst].content == old(primary.tree)[src].content
    {
      InvalidateReadCache(src);
      InvalidateReadCache(dst);
      var copied := primary.Copy(src, dst);
      if copied.Err? {
        return Err(copied.error);
      }
      r := Stat(dst);
    }

    /**
     * Renaming a file keeps the cache coherent. Renaming a directory keeps it so exactly when nothing
     * below the directory was cached.
     */
    method MoveFile(src: string, dst: string) returns (r: Result<FileInfo, PoolError>, ghost renamed: bool)
      requires Valid() && Coherent() && Canonical(src) && Canonical(dst)
      modifies cache, primary, Backups()`failures
      ensures Valid()
      ensures r.Ok? ==> renamed
      ensures renamed ==> src in old(primary.tree)
      ensures renamed && old(primary.tree)[src].Dir? ==>
                (Coherent() <==> forall k :: k in old(cache.entries) ==> !StrictlyBelow(src, k))
      ensures !renamed || old(primary.tree)[src].File? ==> Coherent()
      ensures !renamed ==> SameFilesExcept(old(primary.tree), primary.tree, {src, dst})
      ensures renamed && old(primary.tree)[src].File? ==>
                && SameFilesExcept(old(primary.tree), primary.tree, {src, dst})
                && src !in primary.tree && dst in primary.tree && primary.tree[dst].File?
                && primary.tree[dst].content == old(primary.tree)[src].content
    {
      hide CoherentWith, SameFilesExcept, StrictlyBelow;
      var moved := RenamePath(src, dst);
      renamed := moved.Ok?;
      if moved.Err? {
        return Err(moved.error), renamed;
      }
      r := Stat(dst);
    }

    /** Takes both paths out of the cache and renames. */
    method RenamePath(src: string, dst: string) returns (r: Result<(), PoolError>)
      requires Valid() && Coherent() && Canonical(src) && Canonical(dst)
      modifies cache, primary`tree
      ensures Valid()
      ensures r.Ok? ==> src in old(primary.tree)
      ensures r.Ok? && old(primary.tree)[src].Dir? ==>
                (Coherent() <==> forall k :: k in old(cache.entries) ==> !StrictlyBelow(src, k))
      ensures r.Err? || old(primary.tree)[src].File? ==>
                Coherent() && SameFilesExcept(old(primary.tree), primary.tree, {src, dst})
      ensures r.Ok? && old(primary.tree)[src].File? ==>
                && src !in primary.tree && dst in primary.tree && primary.tree[dst].File?
                && primary.tree[dst].content == old(primary.tree)[src].content
    {
      InvalidateReadCache(src);
      InvalidateReadCache(dst);
      r := primary.Rename(src, dst);
      hide CoherentWith, SameFilesExcept, Renamed, StrictlyBelow, CanRename;
      if r.Ok? && old(primary.tree)[src].Dir? {
        StaleExactlyBelowSource(old(cache.entries), old(primary.tree), primary.tree, src, dst);
      } else {
        SameEntriesLess(old(cache.entries), cache.entries, old(primary.tree), src, dst);
        UncachedChange(cache.entries, old(primary.tree), primary.tree, {src, dst});
      }
    }

    /** Lists through the primary, or through the backup when the primary cannot list. */
    method ListRecursive(path: string) returns (r: Result<seq<FileInfo>, PoolError>)
      requires Valid()
      modifies primary`failures, Backups()`failures
      ensures primary.failures.ofRead == old(primary.failures.ofRead)
                && primary.failures.ofStat == old(primary.failures.ofStat)
      ensures var root := NormalizeEntryPath(path);
              if primary.failures == old(primary.failures) then r.Ok? && Listing(primary.tree, root, r.value)
              else
                && primary.failures.ofList > old(primary.failures.ofList)
                && (r.Ok? ==> backup.Some? && Listing(backup.value.tree, root, r.value))
    {
      r := primary.ListRecursive(path);
      if r.Err? && backup.Some? {
        r := backup.value.ListRecursive(path);
      }
    }

    /**
     * Deletes what is listed below a directory, deepest first, and then the directory. If the primary
     * could list it, or there is no backup to list from, each path was alone when it went.
     */
    method RemoveTree(path: string) returns (r: Result<(), PoolError>)
      requires Valid() && Coherent() && Canonical(path)
      modifies cache, primary, Backups()`failures
      ensures Valid() && Coherent()
      ensures old(primary.deletions) <= primary.deletions
      ensures DeletedInOrder(primary.deletions[|old(primary.deletions)|..], old(primary.tree), primary.tree,
                ListsWhole(old(primary.failures)))
      ensures OnlyBelowRemoved(old(primary.tree), primary.tree, path)
      ensures primary.failures.ofStat == old(primary.failures.ofStat)
      ensures r.Ok? ==> path !in primary.tree
      ensures r.Ok? && ListsWhole(old(primary.failures)) ==> NothingBelow(primary.tree, path)
    {
      hide CoherentWith, Listing, Gone, AllBelow, OnlyBelowRemoved, DeletedInOrder, DeletedSoFar, NothingBelow;
      CanonicalIsKept(path);
      ghost var t0, log0 := primary.tree, primary.deletions;
      var listed := ListRecursive(ListPath(path));
      ghost var whole := ListsWhole(old(primary.failures));
      if listed.Err? {
        NothingRemoved(t0, log0, path, whole);
        return Err(listed.error);
      }
      ListedAreBelow(if whole then t0 else backup.value.tree, t0, path, listed.value);
      ghost var log, left;
      r, log, left := DeleteAll(path, listed.value, EntriesBelow(listed.value, path));
      ghost var t1, done := primary.tree, r.Ok?;
      if r.Ok? {
        r := DeleteRoot(path);
      }
      RootDeleted(t0, t1, primary.tree, listed.value, left, path, log, done, whole);
      LogGrew(log0, log, t1, primary.tree, path);
    }

    /** Since it had failed that often, the primary has listed whatever was asked, or there is no backup to ask. */
    ghost predicate ListsWhole(before: Failures)
      reads primary`failures
    {
      backup.None? || primary.failures.ofList == before.ofList
    }

    /** Deletes the directory itself, so that no file of that path goes. */
    method DeleteRoot(path: string) returns (r: Result<(), PoolError>)
      requires Valid() && Coherent() && Canonical(path)
      modifies cache, primary`tree, primary`deletions
      ensures Valid() && Coherent()
      ensures primary.tree == old(primary.tree) || primary.tree == old(primary.tree) - {path}
      ensures primary.deletions == Logged(old(primary.deletions), old(primary.tree), primary.tree, path)
      ensures path != "/" ==> SameFilesExcept(old(primary.tree), primary.tree, {})
      ensures r.Ok? ==> path !in primary.tree
    {
      CanonicalIsKept(path);
      InvalidateReadCache(path);
      r := primary.Delete(ListPath(path));
    }

    /** Deletes the listed paths, the longest first, until one fails. */
    method DeleteAll(path: string, ghost listed: seq<FileInfo>, infos: set<FileInfo>)
      returns (r: Result<(), PoolError>, ghost log: seq<Deletion>, ghost left: set<FileInfo>)
      requires Valid() && Coherent() && Canonical(path)
      requires AllBelow(listed, infos, path) && Gone(primary.tree, listed, infos, path)
      modifies cache, primary`tree, primary`deletions
      ensures Valid() && Coherent()
      ensures primary.deletions == old(primary.deletions) + log
      ensures DeletedSoFar(old(primary.tree), primary.tree, listed, left, path, log, r.Ok?)
      ensures r.Ok? ==> left == {}
    {
      hide CoherentWith, DeletedSoFar, NothingBelow;
      ghost var t0 := primary.tree;
      var rest := infos;
      r, log := Ok(()), [];
      NothingDeletedYet(t0, listed, rest, path);
      while r.Ok? && rest != {}
        invariant Valid() && Coherent() && rest <= infos && AllBelow(listed, rest, path)
        invariant primary.deletions == old(primary.deletions) + log
        invariant DeletedSoFar(t0, primary.tree, listed, rest, path, log, r.Ok?)
        decreases rest
      {
        ghost var t1 := primary.tree;
        var info := Longest(rest);
        r := DeleteListed(info);
        OneMoreDeleted(t0, t1, primary.tree, listed, rest, info, path, log, r.Ok?);
        rest := rest - {info};
        log := Logged(log, t1, primary.tree, info.path);
      }
      left := rest;
    }

    /** An entry whose path is no shorter than any other's. */
    method Longest(infos: set<FileInfo>) returns (longest: FileInfo)
      requires infos != {}
      ensures IsLongest(infos, longest)
    {
      longest :| longest in infos;
      var left := infos - {longest};
      while left != {}
        invariant left <= infos && longest in infos
        invariant forall info :: info in infos && info !in left ==> |info.path| <= |longest.path|
        decreases left
      {
        var info :| info in left;
        left := left - {info};
        if |info.path| > |longest.path| {
          longest := info;
        }
      }
    }

    /** Deletes a file, or a directory with everything listed below it. */
    method Delete(path: string) returns (r: Result<FileInfo, PoolError>)
      requires Valid() && Coherent() && Canonical(path)
      modifies cache, primary, Backups()`failures
      ensures Valid() && Coherent()
      ensures OnlyBelowRemoved(old(primary.tree), primary.tree, path)
      ensures r.Ok? ==> path !in primary.tree
      ensures r.Ok? && primary.failures == old(primary.failures) ==>
                && path in old(primary.tree) && r.value == InfoOf(path, old(primary.tree)[path])
                && if r.value.isDir then NothingBelow(primary.tree, path)
                   else primary.tree == old(primary.tree) - {path}
    {
      CanonicalIsKept(path);
      var info := Stat(path);
      if info.Err? {
        return Err(info.error);
      }
      InvalidateReadCache(path);
      var deleted: Result<(), PoolError>;
      if info.value.isDir {
        deleted := RemoveTree(path);
      } else {
        deleted := primary.Delete(path);
      }
      r := if deleted.Err? then Err(deleted.error) else Ok(info.value);
    }

    /** Deletes a listed path, with a slash if it is a directory, so that no file of that path goes. */
    method DeleteListed(info: FileInfo) returns (r: Result<(), PoolError>)
      requires Valid() && Coherent() && Canonical(info.path)
      modifies cache, primary`tree, primary`deletions
      ensures Valid() && Coherent()
      ensures primary.tree == old(primary.tree) || primary.tree == old(primary.tree) - {info.path}
      ensures primary.deletions == Logged(old(primary.deletions), old(primary.tree), primary.tree, info.path)
      ensures info.isDir && info.path != "/" ==> SameFilesExcept(old(primary.tree), primary.tree, {})
      ensures r.Ok? ==> info.path !in primary.tree
    {
      var deletePath := info.path;
      if info.isDir && (deletePath == "" || deletePath[|deletePath| - 1] != '/') {
        deletePath := deletePath + "/";
      }
      InvalidateReadCache(deletePath);
      r := primary.Delete(deletePath);
    }
  }

  datatype Command =
    | ReadFile(path: string)
    | ReadPart(path: string, start: nat, end: nat)
    | WriteFile(path: string, data: seq<byte>)
    | DeletePath(path: string)
    | CopyPath(src: string, dst: string)
    | MovePath(src: string, dst: string)

  predicate OnCanonicalPaths(c: Command) {
    match c
    case ReadFile(p) => Canonical(p)
    case ReadPart(p, _, _) => Canonical(p)
    case WriteFile(p, _) => Canonical(p)
    case DeletePath(p) => Canonical(p)
    case CopyPath(src, dst) => Canonical(src) && Canonical(dst)
    case MovePath(src, dst) => Canonical(src) && Canonical(dst)
  }

  /** Whether a command succeeded, and what it read. */
  datatype Answer = Answer(ok: bool, hit: Option<Hit>)

  /** What the primary holds at a moment of a run, and how often it has failed by then. */
  datatype Moment = Moment(tree: Tree, failures: Failures)

  /** The answer is what a direct read of an operator that holds the tree gives, for a command that reads. */
  ghost predicate DirectAnswer(c: Command, t: Tree, a: Answer) {
    a.hit.Some? &&
    match c
    case ReadFile(p) => DirectRead(t, p, a.hit.value)
    case ReadPart(p, start, end) => DirectReadRange(t, p, start, end, a.hit.value)
    case _ => false
  }

  predicate Reads(c: Command) {
    c.ReadFile? || c.ReadPart?
  }

  /** The question to the primary that decides whether the backup is asked has failed. */
  predicate FailedBefore(c: Command, before: Failures, after: Failures) {
    if c.ReadFile? then after.ofRead > before.ofRead else after.ofStat > before.ofStat
  }

  /**
   * A read is answered by what the primary holds, and always if the primary does not fail. Only when
   * it has failed is the answer what the backup holds, or none. Nothing but a read answers with bytes.
   */
  ghost predicate Transparent(c: Command, m0: Moment, m1: Moment, backup: Option<Tree>, a: Answer) {
    if Reads(c) then
      && (m1.failures == m0.failures ==> a.ok && DirectAnswer(c, m1.tree, a))
      && (a.ok ==> if FailedBefore(c, m0.failures, m1.failures) then backup.Some? && DirectAnswer(c, backup.value, a)
                   else DirectAnswer(c, m1.tree, a))
      && (!a.ok ==> a.hit.None?)
    else a.hit.None?
  }

  ghost predicate HasFile(t: Tree, p: string, content: seq<byte>) {
    p in t && t[p].File? && t[p].content == content
  }

  /** What a command does to the primary, and what it has done if it succeeded. */
  ghost predicate Stepped(c: Command, t0: Tree, t1: Tree, ok: bool) {
    match c
    case ReadFile(_) => t1 == t0
    case ReadPart(_, _, _) => t1 == t0
    case WriteFile(p, data) => SameFilesExcept(t0, t1, {p}) && (ok ==> HasFile(t1, p, data))
    case DeletePath(p) => OnlyBelowRemoved(t0, t1, p) && (ok ==> p !in t1)
    case CopyPath(src, dst) =>
      SameFilesExcept(t0, t1, {dst}) && (ok ==> src in t0 && t0[src].File? && HasFile(t1, dst, t0[src].content))
    case MovePath(src, dst) =>
      && SameFilesExcept(t0, t1, {src, dst})
      && (ok ==> src in t0 && t0[src].File? && src !in t1 && HasFile(t1, dst, t0[src].content))
  }

  /** One command; a rename of a directory is not one. */
  method ExecuteOne(pool: VfsPool, c: Command) returns (a: Answer)
    requires pool.Valid() && pool.Coherent() && OnCanonicalPaths(c)
    modifies pool.cache, pool.primary, pool.Backups()`failures
    ensures pool.Valid() && pool.Coherent()
    ensures Stepped(c, old(pool.primary.tree), pool.primary.tree, a.ok)
    ensures Transparent(c, old(pool.Now()), pool.Now(), pool.BackupTree(), a)
  {
    match c {
      case ReadFile(p) =>
        var r := pool.Read(p);
        a := Answer(r.Ok?, if r.Ok? then Some(r.value) else None);
      case ReadPart(p, start, end) =>
        var r := pool.ReadRange(p, start, end);
        a := Answer(r.Ok?, if r.Ok? then Some(r.value) else None);
      case WriteFile(p, data) =>
        var r := pool.Write(p, data);
        a := Answer(r.Ok?, None);
      case DeletePath(p) =>
        var r := pool.Delete(p);
        a := Answer(r.Ok?, None);
      case CopyPath(src, dst) =>
        var r := pool.CopyFile(src, dst);
        a := Answer(r.Ok?, None);
      case MovePath(src, dst) =>
        if src in pool.primary.tree && pool.primary.tree[src].Dir? {
          return Answer(false, None);
        }
        var r, _ := pool.MoveFile(src, dst);
        a := Answer(r.Ok?, None);
    }
  }

  /**
   * In any run of commands every read is answered as a direct read of the primary would be at that
   * moment, whether it came from the cache or not, or, only if the primary failed during that very
   * command, as a direct read of the backup. `moments` is what the primary held, and how often it had
   * failed, before the first command and after each.
   */
  method Execute(pool: VfsPool, commands: seq<Command>) returns (answers: seq<Answer>, ghost moments: seq<Moment>)
    requires pool.Valid() && pool.Coherent()
    requires forall c :: c in commands ==> OnCanonicalPaths(c)
    modifies pool.cache, pool.primary, pool.Backups()`failures
    ensures pool.Valid() && pool.Coherent() && pool.BackupTree() == old(pool.BackupTree())
    ensures |answers| == |commands| && |moments| == |commands| + 1
    ensures moments[0] == old(pool.Now()) && moments[|commands|] == pool.Now()
    ensures forall i :: 0 <= i < |commands| ==>
              && Stepped(commands[i], moments[i].tree, moments[i + 1].tree, answers[i].ok)
              && Transparent(commands[i], moments[i], moments[i + 1], pool.BackupTree(), answers[i])
  {
    hide Stepped, Transparent;
    answers, moments := [], [pool.Now()];
    while |answers| < |commands|
      invariant pool.Valid() && pool.Coherent() && pool.BackupTree() == old(pool.BackupTree())
      invariant |answers| <= |commands| && |moments| == |answers| + 1
      invariant moments[0] == old(pool.Now()) && moments[|answers|] == pool.Now()
      invariant forall i :: 0 <= i < |answers| ==>
                  && Stepped(commands[i], moments[i].tree, moments[i + 1].tree, answers[i].ok)
                  && Transparent(commands[i], moments[i], moments[i + 1], pool.BackupTree(), answers[i])
    {
      var a := ExecuteOne(pool, commands[|answers|]);
      answers := answers + [a];
      moments := moments + [pool.Now()];
    }
  }

  /** A rename leaves a stale entry: what was cached below the old directory is there no more. */
  lemma RenameLeavesStaleEntry(content: seq<byte>, at: Option<int>, e: Entry)
    requires e.data == content && e.info == FileInfo("/d/f", false, |content|, at)
    ensures var before: Tree := map["/d" := Dir(None), "/d/f" := File(content, at)];
            var after: Tree := map["/e" := Dir(None), "/e/f" := File(content, at)];
            var entries: Entries := map["/d/f" := e];
            && CoherentWith(entries, before) && CanRename(before, "/d", "/e") && Renamed(before, after, "/d", "/e")
            && !CoherentWith(entries - {"/d"} - {"/e"}, after)
  {
    var before: Tree := map["/d" := Dir(None), "/d/f" := File(content, at)];
    var after: Tree := map["/e" := Dir(None), "/e/f" := File(content, at)];
    var entries: Entries := map["/d/f" := e];
    assert "/d" + "/" <= "/d/f" && "/e" + "/" <= "/e/f" && "/e" + "/" == "/e/";
    assert "/d"[1] != "/e/"[1] && "/d/f"[1] != "/e/"[1] && "/e"[1] != "/d/"[1] && "/d" + "/" == "/d/";
    assert "/d" + "/e"[|"/e"|..] == "/d" && "/d" + "/e/f"[|"/e"|..] == "/d/f";
    assert CoherentWith(entries, before) && Renamed(before, after, "/d", "/e");
    StaleExactlyBelowSource(entries, before, after, "/d", "/e");
  }
}
