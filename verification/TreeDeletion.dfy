/** Recursive deletion: children first, then the emptied directory. */
module TreeDeletion {
  import opened Wrappers
  import opened Counting
  import opened Storage

  /** `t1` is `t0` without some of the paths at or below `p`. */
  ghost predicate Removed(t0: Tree, t1: Tree, p: Path) {
    && t1.Keys <= t0.Keys
    && (forall q :: q in t1 ==> t1[q] == t0[q])
    && (forall q :: q in t0 && !Within(p, q) ==> q in t1)
  }

  function LogPaths(log: seq<(Path, bool)>): (paths: seq<Path>)
    ensures |paths| == |log| && forall i :: 0 <= i < |log| ==> paths[i] == log[i].0
  {
    seq(|log|, i requires 0 <= i < |log| => log[i].0)
  }

  /** The log holds each removed path exactly once, and each was a file or an empty directory by then. */
  ghost predicate EachOnceWhenEmpty(log: seq<(Path, bool)>, removed: set<Path>) {
    && (forall i :: 0 <= i < |log| ==> log[i].1)
    && Distinct(LogPaths(log)) && Elements(LogPaths(log)) == removed
  }

  /** The deletions logged since the log was `before` are exactly those that lead from `t0` to `t1`. */
  ghost predicate Accounted(before: seq<(Path, bool)>, after: seq<(Path, bool)>, t0: Tree, t1: Tree) {
    before <= after && EachOnceWhenEmpty(after[|before|..], t0.Keys - t1.Keys)
  }

  lemma NothingDeleted(log: seq<(Path, bool)>, t: Tree)
    ensures Accounted(log, log, t, t)
  {
    assert LogPaths(log[|log|..]) == [];
  }

  lemma AccountedThen(a: seq<(Path, bool)>, b: seq<(Path, bool)>, c: seq<(Path, bool)>, t0: Tree, t1: Tree, t2: Tree)
    requires Accounted(a, b, t0, t1) && Accounted(b, c, t1, t2)
    requires t2.Keys <= t1.Keys <= t0.Keys
    ensures Accounted(a, c, t0, t2)
  {
    var first, second, both := b[|a|..], c[|b|..], c[|a|..];
    assert both == first + second;
    assert LogPaths(both) == LogPaths(first) + LogPaths(second);
    forall k, l | 0 <= k < l < |both|
      ensures LogPaths(both)[k] != LogPaths(both)[l]
    {
      if k < |first| <= l {
        assert LogPaths(both)[k] in Elements(LogPaths(first));
        assert LogPaths(both)[l] in Elements(LogPaths(second));
      }
    }
    assert t0.Keys - t2.Keys == (t0.Keys - t1.Keys) + (t1.Keys - t2.Keys);
    forall p
      ensures p in Elements(LogPaths(both)) <==> p in t0.Keys - t2.Keys
    {
      assert p in LogPaths(both) <==> p in LogPaths(first) || p in LogPaths(second);
      assert p in Elements(LogPaths(first)) <==> p in t0.Keys - t1.Keys;
      assert p in Elements(LogPaths(second)) <==> p in t1.Keys - t2.Keys;
    }
  }

  lemma OneDeletion(a: seq<(Path, bool)>, t0: Tree, p: Path)
    requires p in t0
    ensures Accounted(a, a + [(p, true)], t0, t0 - {p})
  {
    var log := (a + [(p, true)])[|a|..];
    assert log == [(p, true)];
    assert LogPaths(log) == [p];
    assert t0.Keys - (t0 - {p}).Keys == {p};
  }

  lemma RemovedThen(t0: Tree, t1: Tree, t2: Tree, p: Path, q: Path)
    requires Removed(t0, t1, p) && Removed(t1, t2, q) && Within(p, q)
    ensures Removed(t0, t2, p)
  {
    forall x | Within(q, x)
      ensures Within(p, x)
    {
      assert x[..|p|] == q[..|p|];
    }
  }

  /** Nothing at or below any of the first `n` entries is left. */
  ghost predicate Gone(t: Tree, entries: seq<Info>, n: nat)
    requires n <= |entries|
  {
    forall k, q :: 0 <= k < n && q in t ==> !Within(entries[k].path, q)
  }

  /** Once the subtrees of all children are gone, the directory is alone in its subtree. */
  lemma AloneAfterChildren(t0: Tree, t: Tree, p: Path, entries: seq<Info>)
    requires WellFormed(t0) && Removed(t0, t, p) && p in t
    requires Lists(entries, t0, ChildrenOf(t0, p)) && Gone(t, entries, |entries|)
    ensures Under(t, p) == {p}
  {
    forall q | q in t && Within(p, q)
      ensures q == p
    {
      if q != p {
        BelowSomeEntry(t0, p, entries, q);
      }
    }
    assert Within(p, p);
  }

  lemma BelowSomeEntry(t: Tree, p: Path, entries: seq<Info>, q: Path)
    requires WellFormed(t) && q in t && Within(p, q) && q != p && Lists(entries, t, ChildrenOf(t, p))
    ensures exists k :: 0 <= k < |entries| && Within(entries[k].path, q)
  {
    var c := q[..|p| + 1];
    AncestorsAreDirs(t, q, c);
    assert c in Elements(PathsOf(entries));
    var k :| 0 <= k < |entries| && PathsOf(entries)[k] == c;
    assert Within(entries[k].path, q);
  }

  lemma SmallerBelow(t0: Tree, t: Tree, p: Path, child: Path)
    requires p in t0 && t.Keys <= t0.Keys && Within(p, child) && |child| > |p|
    ensures Under(t, child) < Under(t0, p)
  {
    assert p in Under(t0, p) && p !in Under(t, child);
    forall q | q in Under(t, child)
      ensures q in Under(t0, p)
    {
      assert q[..|p|] == child[..|p|];
    }
  }

  method DeletePathRecursive(storage: Store, p: Path) returns (r: Result<(), VfsError>)
    requires storage.Valid()
    modifies storage
    ensures storage.Valid() && Removed(old(storage.tree), storage.tree, p)
    ensures Accounted(old(storage.deletions), storage.deletions, old(storage.tree), storage.tree)
    ensures r.Ok? ==> p in old(storage.tree) && storage.tree == old(storage.tree) - Under(old(storage.tree), p)
    decreases Under(storage.tree, p), 1
  {
    ghost var t0, log0 := storage.tree, storage.deletions;
    NothingDeleted(log0, t0);
    var info :- storage.Stat(p);
    if info.isDir {
      var entries :- storage.List(p);
      r := DeleteEntries(storage, p, entries);
      if r.Err? {
        return r;
      }
    } else {
      FileAlone(t0, p);
    }
    r := DeleteLeaf(storage, p, t0, log0);
  }

  lemma FileAlone(t: Tree, p: Path)
    requires WellFormed(t) && p in t && t[p].File?
    ensures Under(t, p) == {p}
  {
    forall q | q in t && Within(p, q)
      ensures q == p
    {
      AncestorsAreDirs(t, q, p);
    }
    assert Within(p, p);
  }

  method DeleteLeaf(storage: Store, p: Path, ghost t0: Tree, ghost log0: seq<(Path, bool)>)
    returns (r: Result<(), VfsError>)
    requires storage.Valid() && Under(storage.tree, p) == {p}
    requires Removed(t0, storage.tree, p) && Accounted(log0, storage.deletions, t0, storage.tree)
    modifies storage
    ensures storage.Valid() && Removed(t0, storage.tree, p)
    ensures Accounted(log0, storage.deletions, t0, storage.tree)
    ensures r.Ok? ==> storage.tree == t0 - Under(t0, p)
  {
    ghost var t1, log1 := storage.tree, storage.deletions;
    assert p in Under(t1, p);
    r := storage.Delete(p);
    if r.Ok? {
      OneDeletion(log1, t1, p);
      assert storage.tree == t1 - {p};
      AccountedThen(log0, log1, storage.deletions, t0, t1, storage.tree);
      forall q | q in t1 && Within(p, q)
        ensures q == p
      {
        assert q in Under(t1, p);
      }
    }
  }

  method DeleteEntries(storage: Store, p: Path, entries: seq<Info>) returns (r: Result<(), VfsError>)
    requires storage.Valid() && p in storage.tree
    requires Lists(entries, storage.tree, ChildrenOf(storage.tree, p))
    modifies storage
    ensures storage.Valid() && Removed(old(storage.tree), storage.tree, p)
    ensures Accounted(old(storage.deletions), storage.deletions, old(storage.tree), storage.tree)
    ensures r.Ok? ==> Under(storage.tree, p) == {p}
    decreases Under(storage.tree, p), 0, 1
  {
    ghost var t0, log0 := storage.tree, storage.deletions;
    NothingDeleted(log0, t0);
    assert Removed(t0, t0, p);
    hide Accounted, ChildrenOf, Lists, Under, WellFormed, Removed, Gone;
    r := Ok(());
    var i := 0;
    assert Gone(t0, entries, 0) by {
      NoneGone(t0, entries);
    }
    while i < |entries| && r.Ok?
      invariant 0 <= i <= |entries|
      invariant storage.Valid() && p in storage.tree && Removed(t0, storage.tree, p)
      invariant Accounted(log0, storage.deletions, t0, storage.tree)
      invariant r.Ok? ==> Gone(storage.tree, entries, i)
    {
      r := DeleteEntry(storage, p, entries, i, t0, log0);
      i := i + 1;
    }
    if r.Ok? {
      AloneAfterChildren(t0, storage.tree, p, entries);
    }
  }

  method DeleteEntry(storage: Store, p: Path, entries: seq<Info>, i: nat, ghost t0: Tree, ghost log0: seq<(Path, bool)>)
    returns (r: Result<(), VfsError>)
    requires storage.Valid() && p in storage.tree && p in t0 && i < |entries|
    requires Lists(entries, t0, ChildrenOf(t0, p))
    requires Removed(t0, storage.tree, p) && Accounted(log0, storage.deletions, t0, storage.tree)
    requires Gone(storage.tree, entries, i)
    modifies storage
    ensures storage.Valid() && p in storage.tree && Removed(t0, storage.tree, p)
    ensures Accounted(log0, storage.deletions, t0, storage.tree)
    ensures r.Ok? ==> Gone(storage.tree, entries, i + 1)
    decreases Under(t0, p), 0, 0
  {
    hide Accounted, ChildrenOf, Lists, Under;
    ghost var t1, log1 := storage.tree, storage.deletions;
    var child := entries[i].path;
    ListedChild(t0, p, entries, i);
    SmallerBelow(t0, t1, p, child);
    r := DeletePathRecursive(storage, child);
    RemovedThen(t0, t1, storage.tree, p, child);
    AccountedThen(log0, log1, storage.deletions, t0, t1, storage.tree);
    if r.Ok? {
      NoneUnder(t1, storage.tree, child);
    }
  }

  lemma NoneGone(t: Tree, entries: seq<Info>)
    ensures Gone(t, entries, 0)
  {}

  lemma ListedChild(t: Tree, p: Path, entries: seq<Info>, i: nat)
    requires i < |entries| && Lists(entries, t, ChildrenOf(t, p))
    ensures Within(p, entries[i].path) && |entries[i].path| == |p| + 1 && !Within(entries[i].path, p)
  {
    assert PathsOf(entries)[i] in Elements(PathsOf(entries));
  }

  lemma NoneUnder(t0: Tree, t: Tree, p: Path)
    requires t == t0 - Under(t0, p)
    ensures forall q :: q in t ==> !Within(p, q)
  {}
}
