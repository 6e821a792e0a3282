/** Moving and copying between two storages: copy the whole subtree first, delete the source after. */
module CrossStorageMove {
  import opened Wrappers
  import opened Counting
  import opened Storage
  import opened TreeDeletion

  /** Where the source path `q` at or below `sp` lands below `dp`. */
  function Image(sp: Path, dp: Path, q: Path): Path
    requires Within(sp, q)
  {
    dp + q[|sp|..]
  }

  /** Whether `d` is where something of the source subtree lands. */
  ghost predicate IsImage(s: Tree, sp: Path, dp: Path, d: Path) {
    Within(dp, d) && sp + d[|dp|..] in s
  }

  /**
   * How a copy, finished or not, may have changed the destination: everything there keeps its place;
   * every entry is as it was, or is a faithful copy of what lands there, or is a directory above `dp`.
   */
  ghost predicate CopyFrame(s: Tree, sp: Path, d0: Tree, d1: Tree, dp: Path) {
    && d0.Keys <= d1.Keys
    && forall d :: d in d1 ==>
         || (d in d0 && d1[d] == d0[d])
         || (IsImage(s, sp, dp, d) && SameAs(s[sp + d[|dp|..]], d1[d]))
         || (Within(d, dp) && d != dp && d1[d] == Dir)
  }

  /** Every path of the source subtree exists below `dp`, with the same kind and content. */
  ghost predicate CopyComplete(s: Tree, sp: Path, d: Tree, dp: Path) {
    forall q :: q in s && Within(sp, q) ==> Image(sp, dp, q) in d && SameAs(s[q], d[Image(sp, dp, q)])
  }

  lemma CopyFrameTransitive(s: Tree, sp: Path, d0: Tree, d1: Tree, d2: Tree, dp: Path)
    requires CopyFrame(s, sp, d0, d1, dp) && CopyFrame(s, sp, d1, d2, dp)
    ensures CopyFrame(s, sp, d0, d2, dp)
  {}

  /** What a copy of one child may change, a copy of its parent may change. */
  lemma CopyFrameOfChild(s: Tree, sp: Path, name: string, d0: Tree, d1: Tree, dp: Path)
    requires WellFormed(s) && sp in s && s[sp] == Dir
    requires CopyFrame(s, sp + [name], d0, d1, dp + [name])
    ensures CopyFrame(s, sp, d0, d1, dp)
  {
    hide WellFormed;
    forall d | d in d1 && !(d in d0 && d1[d] == d0[d])
      ensures || (IsImage(s, sp, dp, d) && SameAs(s[sp + d[|dp|..]], d1[d]))
              || (Within(d, dp) && d != dp && d1[d] == Dir)
    {
      if IsImage(s, sp + [name], dp + [name], d) && SameAs(s[sp + [name] + d[|dp| + 1..]], d1[d]) {
        ImageOfChild(s, sp, name, dp, d);
      } else {
        AboveChild(dp, name, d);
        assert sp + dp[|dp|..] == sp;
      }
    }
  }

  lemma ImageOfChild(s: Tree, sp: Path, name: string, dp: Path, d: Path)
    requires IsImage(s, sp + [name], dp + [name], d)
    ensures IsImage(s, sp, dp, d) && sp + d[|dp|..] == sp + [name] + d[|dp| + 1..]
  {
    assert d[|dp|..] == [name] + d[|dp| + 1..];
    assert sp + ([name] + d[|dp| + 1..]) == sp + [name] + d[|dp| + 1..];
    assert d[..|dp|] == dp;
  }

  lemma AboveChild(dp: Path, name: string, d: Path)
    requires Within(d, dp + [name]) && d != dp + [name]
    ensures Within(d, dp)
  {
    InitKeepsPrefix(dp + [name], d);
    assert (dp + [name])[..|dp|] == dp;
  }

  /** A finished child stays finished while its siblings are copied. */
  lemma CompleteUnderFrame(s: Tree, sp: Path, child: Path, other: Path, d0: Tree, d1: Tree, dp: Path)
    requires |child| == |sp| + 1 && |other| == |sp| + 1 && Within(sp, child) && Within(sp, other)
    requires CopyComplete(s, child, d0, Image(sp, dp, child))
    requires CopyFrame(s, other, d0, d1, Image(sp, dp, other))
    ensures CopyComplete(s, child, d1, Image(sp, dp, child))
  {
    forall q | q in s && Within(child, q)
      ensures Image(child, Image(sp, dp, child), q) in d1
      ensures SameAs(s[q], d1[Image(child, Image(sp, dp, child), q)])
    {
      var e, d := Image(sp, dp, other), Image(child, Image(sp, dp, child), q);
      if d1[d] != d0[d] {
        if IsImage(s, other, e, d) && SameAs(s[other + d[|e|..]], d1[d]) {
          assert d[|e|..] == q[|child|..];
          assert d[|dp|] == child[|sp|] && e[|dp|] == other[|sp|];
          assert other == sp + [other[|sp|]] && child == sp + [child[|sp|]];
          assert other == child;
          assert other + d[|e|..] == q;
        } else {
          assert false;
        }
      }
    }
  }

  /** A directory and the subtrees of all its children make up its subtree. */
  lemma CompleteFromChildren(s: Tree, sp: Path, d: Tree, dp: Path, children: set<Path>)
    requires WellFormed(s) && sp in s && s[sp] == Dir && dp in d && d[dp] == Dir
    requires children == ChildrenOf(s, sp)
    requires forall c :: c in children ==> CopyComplete(s, c, d, Image(sp, dp, c))
    ensures CopyComplete(s, sp, d, dp)
  {
    forall q | q in s && Within(sp, q)
      ensures Image(sp, dp, q) in d && SameAs(s[q], d[Image(sp, dp, q)])
    {
      if |q| == |sp| {
        assert q == sp && Image(sp, dp, q) == dp;
      } else {
        BelowSomeChild(s, sp, q, dp);
        hide WellFormed, Image;
        assert CopyComplete(s, q[..|sp| + 1], d, Image(sp, dp, q[..|sp| + 1]));
      }
    }
  }

  lemma BelowSomeChild(s: Tree, sp: Path, q: Path, dp: Path)
    requires WellFormed(s) && q in s && Within(sp, q) && |q| > |sp|
    ensures var c := q[..|sp| + 1];
            c in ChildrenOf(s, sp) && Within(c, q) && Image(c, Image(sp, dp, c), q) == Image(sp, dp, q)
  {
    AncestorsAreDirs(s, q, q[..|sp| + 1]);
  }

  /** Makes sure that there is a parent: the directories missing above `path` are made, and nothing else. */
  method EnsureParentDir(storage: Store, path: Path) returns (r: Result<(), VfsError>)
    requires storage.Valid()
    modifies storage`tree
    ensures storage.Valid()
    ensures r.Ok? ==> ParentPath(path) in storage.tree && storage.tree == WithDirs(old(storage.tree), ParentPath(path))
    ensures r.Err? ==> storage.tree == old(storage.tree)
  {
    var parent := ParentPath(path);
    if parent != [] {
      var exists' :- storage.Exists(parent);
      if !exists' {
        r := storage.CreateDirAll(parent);
        assert Within(parent, parent);
        return;
      }
    }
    DirsAlreadyThere(storage.tree, parent);
    r := Ok(());
  }

  lemma ParentDirsAreFrame(s: Tree, sp: Path, d0: Tree, dp: Path)
    requires WellFormed(d0)
    ensures CopyFrame(s, sp, d0, WithDirs(d0, ParentPath(dp)), dp)
  {
    if dp == [] {
      DirsAlreadyThere(d0, []);
    } else {
      forall q
        ensures Within(q, ParentPath(dp)) ==> Within(q, dp) && q != dp
      {
        InitKeepsPrefix(dp, q);
      }
    }
  }

  lemma DirCreated(s: Tree, sp: Path, d0: Tree, dp: Path)
    requires sp in s && s[sp] == Dir
    ensures CopyFrame(s, sp, d0, WithDirs(d0, dp), dp) && dp in WithDirs(d0, dp)
  {
    assert sp + dp[|dp|..] == sp;
    assert Within(dp, dp);
  }

  lemma FileWritten(s: Tree, sp: Path, d0: Tree, d1: Tree, dp: Path)
    requires WellFormed(s) && sp in s && s[sp].File? && dp in d1 && SameAs(s[sp], d1[dp]) && d1 == d0[dp := d1[dp]]
    ensures CopyFrame(s, sp, d0, d1, dp) && CopyComplete(s, sp, d1, dp)
  {
    assert sp + dp[|dp|..] == sp;
    FileIsAlone(s, sp, d1, dp);
  }

  /** Copies a file or a whole subtree from one storage to another. */
  method CopyPathBetween(src: Store, sp: Path, dst: Store, dp: Path) returns (r: Result<(), VfsError>)
    requires src != dst && src.Valid() && dst.Valid()
    modifies dst`tree
    ensures dst.Valid()
    ensures CopyFrame(src.tree, sp, old(dst.tree), dst.tree, dp)
    ensures r.Ok? ==> sp in src.tree && CopyComplete(src.tree, sp, dst.tree, dp)
    decreases Under(src.tree, sp), 1
  {
    var info :- src.Stat(sp);
    if info.isDir {
      ghost var d0 := dst.tree;
      var _ :- dst.CreateDirAll(dp);
      DirCreated(src.tree, sp, d0, dp);
      assert dst.tree[dp] == Dir by {
        assert Within(dp, dp);
      }
      ghost var d1 := dst.tree;
      var entries :- src.List(sp);
      r := CopyEntries(src, sp, entries, dst, dp);
      CopyFrameTransitive(src.tree, sp, d0, d1, dst.tree, dp);
    } else {
      r := CopyFile(src, sp, dst, dp);
    }
  }

  method CopyFile(src: Store, sp: Path, dst: Store, dp: Path) returns (r: Result<(), VfsError>)
    requires src != dst && src.Valid() && dst.Valid() && sp in src.tree
    modifies dst`tree
    ensures dst.Valid()
    ensures CopyFrame(src.tree, sp, old(dst.tree), dst.tree, dp)
    ensures r.Ok? ==> CopyComplete(src.tree, sp, dst.tree, dp)
  {
    ghost var d0 := dst.tree;
    var parent := EnsureParentDir(dst, dp);
    ghost var d1 := dst.tree;
    ParentDirsAreFrame(src.tree, sp, d0, dp);
    assert CopyFrame(src.tree, sp, d0, d1, dp);
    var _ :- parent;
    var content :- src.ReadStream(sp);
    var _ :- dst.WriteStream(dp, content);
    FileWritten(src.tree, sp, d1, dst.tree, dp);
    CopyFrameTransitive(src.tree, sp, d0, d1, dst.tree, dp);
    r := Ok(());
  }

  /** The first `n` entries are fully copied. */
  ghost predicate FirstComplete(s: Tree, sp: Path, entries: seq<Info>, n: nat, d: Tree, dp: Path)
    requires n <= |entries|
  {
    forall k :: 0 <= k < n ==> ChildComplete(s, sp, entries[k].path, d, dp)
  }

  /** The state of the loop over a directory's entries. */
  ghost predicate CopyingEntries(s: Tree, sp: Path, d0: Tree, d1: Tree, dp: Path) {
    WellFormed(d1) && CopyFrame(s, sp, d0, d1, dp) && dp in d1 && d1[dp] == Dir
  }

  method CopyEntries(src: Store, sp: Path, entries: seq<Info>, dst: Store, dp: Path) returns (r: Result<(), VfsError>)
    requires src != dst && src.Valid() && dst.Valid()
    requires sp in src.tree && src.tree[sp] == Dir && dp in dst.tree && dst.tree[dp] == Dir
    requires Lists(entries, src.tree, ChildrenOf(src.tree, sp))
    modifies dst`tree
    ensures CopyingEntries(src.tree, sp, old(dst.tree), dst.tree, dp)
    ensures r.Ok? ==> CopyComplete(src.tree, sp, dst.tree, dp)
    decreases Under(src.tree, sp), 0, 1
  {
    ghost var s, d0 := src.tree, dst.tree;
    assert CopyingEntries(s, sp, d0, d0, dp);
    assert FirstComplete(s, sp, entries, 0, d0, dp);
    hide *;
    r := Ok(());
    var i := 0;
    while i < |entries| && r.Ok?
      invariant 0 <= i <= |entries| && CopyingEntries(s, sp, d0, dst.tree, dp)
      invariant r.Ok? ==> FirstComplete(s, sp, entries, i, dst.tree, dp)
      decreases |entries| - i
    {
      r := CopyEntry(src, sp, entries, i, dst, dp, d0);
      i := i + 1;
    }
    if r.Ok? {
      AllChildren(s, sp, dst.tree, dp, entries, d0);
    }
  }

  method CopyEntry(src: Store, sp: Path, entries: seq<Info>, i: nat, dst: Store, dp: Path, ghost d0: Tree)
    returns (r: Result<(), VfsError>)
    requires src != dst && src.Valid() && i < |entries|
    requires sp in src.tree && src.tree[sp] == Dir
    requires Lists(entries, src.tree, ChildrenOf(src.tree, sp))
    requires CopyingEntries(src.tree, sp, d0, dst.tree, dp) && FirstComplete(src.tree, sp, entries, i, dst.tree, dp)
    modifies dst`tree
    ensures CopyingEntries(src.tree, sp, d0, dst.tree, dp)
    ensures r.Ok? ==> FirstComplete(src.tree, sp, entries, i + 1, dst.tree, dp)
    decreases Under(src.tree, sp), 0, 0, 1
  {
    ghost var before := dst.tree;
    IsListedChild(src.tree, sp, entries, i);
    hide CopyFrame, ChildComplete, IsChild, Lists, ChildrenOf, FirstComplete, Under;
    r := CopyChild(src, sp, entries[i].path, dst, dp);
    CopyFrameTransitive(src.tree, sp, d0, before, dst.tree, dp);
    if r.Ok? {
      NextComplete(src.tree, sp, entries, i, before, dst.tree, dp);
    }
  }

  /** Whatever child was complete before still is. */
  ghost predicate KeepsComplete(s: Tree, sp: Path, d0: Tree, d1: Tree, dp: Path) {
    forall c :: ChildComplete(s, sp, c, d0, dp) ==> ChildComplete(s, sp, c, d1, dp)
  }

  lemma NextComplete(s: Tree, sp: Path, entries: seq<Info>, i: nat, d0: Tree, d1: Tree, dp: Path)
    requires i < |entries| && FirstComplete(s, sp, entries, i, d0, dp) && KeepsComplete(s, sp, d0, d1, dp)
    requires ChildComplete(s, sp, entries[i].path, d1, dp)
    ensures FirstComplete(s, sp, entries, i + 1, d1, dp)
  {
    hide ChildComplete;
  }

  ghost predicate IsChild(s: Tree, sp: Path, c: Path) {
    c in s && Within(sp, c) && |c| == |sp| + 1
  }

  ghost predicate ChildComplete(s: Tree, sp: Path, c: Path, d: Tree, dp: Path) {
    IsChild(s, sp, c) && CopyComplete(s, c, d, Image(sp, dp, c))
  }

  method CopyChild(src: Store, sp: Path, child: Path, dst: Store, dp: Path) returns (r: Result<(), VfsError>)
    requires src != dst && src.Valid() && dst.Valid() && IsChild(src.tree, sp, child)
    requires sp in src.tree && src.tree[sp] == Dir && dp in dst.tree && dst.tree[dp] == Dir
    modifies dst`tree
    ensures dst.Valid() && dp in dst.tree && dst.tree[dp] == Dir
    ensures CopyFrame(src.tree, sp, old(dst.tree), dst.tree, dp)
    ensures r.Ok? ==> ChildComplete(src.tree, sp, child, dst.tree, dp)
    ensures KeepsComplete(src.tree, sp, old(dst.tree), dst.tree, dp)
    decreases Under(src.tree, sp), 0, 0, 0
  {
    ghost var s, before := src.tree, dst.tree;
    var childDst := dp + [child[|sp|]];
    assert Image(sp, dp, child) == childDst && sp + [child[|sp|]] == child;
    StrictlyUnder(s, sp, child);
    r := CopyPathBetween(src, child, dst, childDst);
    CopyFrameOfChild(s, sp, child[|sp|], before, dst.tree, dp);
    DirStays(s, sp, before, dst.tree, dp);
    hide CopyFrame, CopyComplete, WellFormed;
    forall c | ChildComplete(s, sp, c, before, dp)
      ensures ChildComplete(s, sp, c, dst.tree, dp)
    {
      CompleteUnderFrame(s, sp, c, child, before, dst.tree, dp);
    }
  }

  lemma IsListedChild(s: Tree, sp: Path, entries: seq<Info>, i: nat)
    requires i < |entries| && Lists(entries, s, ChildrenOf(s, sp))
    ensures IsChild(s, sp, entries[i].path)
  {
    assert PathsOf(entries)[i] in Elements(PathsOf(entries));
  }

  lemma StrictlyUnder(s: Tree, sp: Path, child: Path)
    requires sp in s && Within(sp, child) && |child| > |sp|
    ensures Under(s, child) < Under(s, sp)
  {
    assert sp in Under(s, sp) && sp !in Under(s, child);
    forall q | q in Under(s, child)
      ensures q in Under(s, sp)
    {
      assert q[..|sp|] == child[..|sp|];
    }
  }

  lemma DirStays(s: Tree, sp: Path, d0: Tree, d1: Tree, dp: Path)
    requires sp in s && s[sp] == Dir && CopyFrame(s, sp, d0, d1, dp) && dp in d0 && d0[dp] == Dir
    ensures dp in d1 && d1[dp] == Dir
  {
    assert sp + dp[|dp|..] == sp;
  }

  lemma AllChildren(s: Tree, sp: Path, d: Tree, dp: Path, entries: seq<Info>, d0: Tree)
    requires WellFormed(s) && sp in s && s[sp] == Dir && CopyingEntries(s, sp, d0, d, dp)
    requires Lists(entries, s, ChildrenOf(s, sp))
    requires FirstComplete(s, sp, entries, |entries|, d, dp)
    ensures CopyComplete(s, sp, d, dp)
  {
    forall c | c in ChildrenOf(s, sp)
      ensures CopyComplete(s, c, d, Image(sp, dp, c))
    {
      assert c in Elements(PathsOf(entries));
      var k :| 0 <= k < |entries| && PathsOf(entries)[k] == c;
      assert ChildComplete(s, sp, entries[k].path, d, dp);
    }
    CompleteFromChildren(s, sp, d, dp, ChildrenOf(s, sp));
  }

  lemma FileIsAlone(s: Tree, sp: Path, d: Tree, dp: Path)
    requires WellFormed(s) && sp in s && s[sp].File? && dp in d && SameAs(s[sp], d[dp])
    ensures CopyComplete(s, sp, d, dp)
  {
    forall q | q in s && Within(sp, q)
      ensures Image(sp, dp, q) == dp && q == sp
    {
      AncestorsAreDirs(s, q, sp);
    }
  }

  /** A resolved path: the storage it lives in, its path there, and whether it is the root of a mount. */
  datatype Endpoint = Endpoint(storage: Store, path: Path, isMountRoot: bool)

  /** Every file the source held at the start is intact there, or fully present at the destination. */
  ghost predicate NothingLost(s0: Tree, sp: Path, s1: Tree, d1: Tree, dp: Path) {
    forall q :: q in s0 && Within(sp, q) && s0[q].File? ==>
      || (q in s1 && s1[q] == s0[q])
      || (Image(sp, dp, q) in d1 && SameAs(s0[q], d1[Image(sp, dp, q)]))
  }

  /**
   * Moves or copies across storages. Any storage operation may fail, so what holds at every exit
   * holds at every step: no file is lost, the source is touched only after the whole copy is in place.
   */
  method GenericMoveOrCopy(src: Endpoint, dst: Endpoint, deleteSource: bool) returns (r: Result<Info, VfsError>)
    requires src.storage != dst.storage && src.storage.Valid() && dst.storage.Valid()
    modifies src.storage, dst.storage`tree
    ensures src.storage.Valid() && dst.storage.Valid()
    ensures NothingLost(old(src.storage.tree), src.path, src.storage.tree, dst.storage.tree, dst.path)
    ensures Removed(old(src.storage.tree), src.storage.tree, src.path)
    ensures src.storage.tree != old(src.storage.tree) ==>
              deleteSource && CopyComplete(old(src.storage.tree), src.path, dst.storage.tree, dst.path)
    ensures CopyFrame(old(src.storage.tree), src.path, old(dst.storage.tree), dst.storage.tree, dst.path)
    ensures r.Ok? ==> && CopyComplete(old(src.storage.tree), src.path, dst.storage.tree, dst.path)
                      && src.storage.tree == if !deleteSource then old(src.storage.tree)
                                             else old(src.storage.tree) - Under(old(src.storage.tree), src.path)
    ensures src.isMountRoot || dst.isMountRoot ==>
              r == Err(PermissionDenied) && dst.storage.tree == old(dst.storage.tree)
  {
    if src.isMountRoot || dst.isMountRoot {
      return Err(PermissionDenied);
    }
    ghost var s0 := src.storage.tree;
    var _ :- CopyPathBetween(src.storage, src.path, dst.storage, dst.path);
    if deleteSource {
      var _ :- DeletePathRecursive(src.storage, src.path);
    }
    r := dst.storage.Stat(dst.path);
  }
}
