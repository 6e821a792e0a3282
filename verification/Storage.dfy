/** A storage: a finite tree of directories and files, with operations that may fail at any time. */
module Storage {
  import opened Wrappers
  import opened Bytes
  import opened Counting

  /** A path is its list of segments; the root is the empty list. */
  type Path = seq<string>

  datatype Node = Dir | File(content: seq<byte>, modified: Option<int>)

  type Tree = map<Path, Node>

  datatype Info = Info(path: Path, isDir: bool, size: nat, modified: Option<int>)

  datatype VfsError = NotFound | NotADirectory | IsADirectory | PermissionDenied | Io

  /** `p` is `root` or below it. */
  predicate Within(root: Path, p: Path) {
    root <= p
  }

  function InfoOf(path: Path, node: Node): Info {
    match node
    case Dir => Info(path, true, 0, None)
    case File(content, modified) => Info(path, false, |content|, modified)
  }

  /** The root is a directory, and whatever has a path has a directory for a parent. */
  ghost predicate WellFormed(t: Tree) {
    && [] in t && t[[]] == Dir
    && forall p :: p in t && p != [] ==> p[..|p| - 1] in t && t[p[..|p| - 1]] == Dir
  }

  lemma {:induction false} AncestorsAreDirs(t: Tree, p: Path, q: Path)
    requires WellFormed(t) && p in t && Within(q, p)
    ensures q in t && (q != p ==> t[q] == Dir)
    decreases |p| - |q|
  {
    if q != p {
      InitKeepsPrefix(p, q);
      AncestorsAreDirs(t, p[..|p| - 1], q);
    }
  }

  lemma InitKeepsPrefix(p: Path, q: Path)
    requires p != []
    ensures Within(q, p) <==> Within(q, p[..|p| - 1]) || q == p
  {
    var init := p[..|p| - 1];
    if q <= p && q != p {
      assert q == p[..|q|] == init[..|q|];
    }
  }

  /** The directory a path is in; the root is in itself. */
  function ParentPath(p: Path): Path {
    if p == [] then [] else p[..|p| - 1]
  }

  /** The paths at or below `p`. */
  ghost function Under(t: Tree, p: Path): set<Path> {
    set q | q in t && Within(p, q)
  }

  /** The paths directly below `p`. */
  function ChildrenOf(t: Tree, p: Path): set<Path> {
    set q | q in t.Keys && Within(p, q) && |q| == |p| + 1
  }

  /** `t` with `p` and its ancestors as directories. */
  ghost function WithDirs(t: Tree, p: Path): Tree {
    map q | q in t.Keys + Prefixes(p) :: if q in t then t[q] else Dir
  }

  lemma DirsAlreadyThere(t: Tree, p: Path)
    requires WellFormed(t) && p in t
    ensures WithDirs(t, p) == t
  {
    forall q | Within(q, p)
      ensures q in t
    {
      AncestorsAreDirs(t, p, q);
    }
  }

  function Prefixes(p: Path): (r: set<Path>)
    ensures forall q :: q in r <==> Within(q, p)
    decreases |p|
  {
    if p == [] then {[]}
    else
      assert forall q {:trigger Within(q, p)} :: Within(q, p) <==> Within(q, p[..|p| - 1]) || q == p by {
        forall q: Path
          ensures Within(q, p) <==> Within(q, p[..|p| - 1]) || q == p
        {
          InitKeepsPrefix(p, q);
        }
      }
      Prefixes(p[..|p| - 1]) + {p}
  }

  lemma WithDirsWellFormed(t: Tree, p: Path)
    requires WellFormed(t) && forall q :: Within(q, p) && q in t ==> t[q] == Dir
    ensures WellFormed(WithDirs(t, p))
  {
    var t' := WithDirs(t, p);
    forall q | q in t' && q != []
      ensures q[..|q| - 1] in t' && t'[q[..|q| - 1]] == Dir
    {
      if q !in t {
        assert Within(q, p) && Within(q[..|q| - 1], p);
      }
    }
    assert Within([], p);
  }

  /** Same kind, and for files the same content. */
  ghost predicate SameAs(a: Node, b: Node) {
    (a.Dir? && b.Dir?) || (a.File? && b.File? && a.content == b.content)
  }

  function PathsOf(infos: seq<Info>): (paths: seq<Path>)
    ensures |paths| == |infos| && forall i :: 0 <= i < |infos| ==> paths[i] == infos[i].path
  {
    seq(|infos|, i requires 0 <= i < |infos| => infos[i].path)
  }

  /** The entries of a set of paths, each once, in some order. */
  ghost predicate Lists(infos: seq<Info>, t: Tree, paths: set<Path>) {
    && Distinct(PathsOf(infos)) && Elements(PathsOf(infos)) == paths
    && forall i :: 0 <= i < |infos| ==> infos[i].path in t && infos[i] == InfoOf(infos[i].path, t[infos[i].path])
  }

  class Store {
    var tree: Tree
    /** Every successful deletion, in order: the path, and whether nothing was left below it. */
    ghost var deletions: seq<(Path, bool)>

    ghost predicate Valid()
      reads this
    {
      WellFormed(tree)
    }

    method Exists(p: Path) returns (r: Result<bool, VfsError>)
      ensures r.Ok? ==> r.value == (p in tree)
    {
      if * {
        return Err(Io);
      }
      r := Ok(p in tree);
    }

    method Stat(p: Path) returns (r: Result<Info, VfsError>)
      ensures r.Ok? ==> p in tree && r.value == InfoOf(p, tree[p])
    {
      if * {
        return Err(Io);
      }
      r := if p in tree then Ok(InfoOf(p, tree[p])) else Err(NotFound);
    }

    /** The direct children of a directory, in any order. */
    method List(p: Path) returns (r: Result<seq<Info>, VfsError>)
      ensures r.Ok? ==> p in tree && tree[p] == Dir
                        && Lists(r.value, tree, ChildrenOf(tree, p))
    {
      if * {
        return Err(Io);
      }
      if p !in tree || tree[p] != Dir {
        return Err(NotADirectory);
      }
      var infos := Enumerate(ChildrenOf(tree, p));
      r := Ok(infos);
    }

    /** Everything below a directory, in any order, possibly with an entry for the directory itself. */
    method ListRecursive(p: Path) returns (r: Result<seq<Info>, VfsError>)
      ensures r.Ok? ==> p in tree && tree[p] == Dir
                        && (Lists(r.value, tree, Under(tree, p)) || Lists(r.value, tree, Under(tree, p) - {p}))
    {
      if * {
        return Err(Io);
      }
      if p !in tree || tree[p] != Dir {
        return Err(NotADirectory);
      }
      var below := set q | q in tree.Keys && Within(p, q);
      if * {
        below := below - {p};
      }
      var infos := Enumerate(below);
      r := Ok(infos);
    }

    method Enumerate(paths: set<Path>) returns (infos: seq<Info>)
      requires paths <= tree.Keys
      ensures Lists(infos, tree, paths)
    {
      infos := [];
      var left := paths;
      while left != {}
        invariant left <= paths
        invariant Lists(infos, tree, paths - left)
        decreases left
      {
        var p :| p in left;
        assert PathsOf(infos + [InfoOf(p, tree[p])]) == PathsOf(infos) + [p];
        infos := infos + [InfoOf(p, tree[p])];
        assert paths - (left - {p}) == (paths - left) + {p};
        left := left - {p};
      }
      assert paths - left == paths;
    }

    method CreateDirAll(p: Path) returns (r: Result<(), VfsError>)
      requires Valid()
      modifies this`tree
      ensures Valid()
      ensures r.Ok? ==> tree == WithDirs(old(tree), p) && forall q :: Within(q, p) && q in old(tree) ==>
                old(tree)[q] == Dir
      ensures r.Err? ==> tree == old(tree)
    {
      if * {
        return Err(Io);
      }
      if exists q :: q in Prefixes(p) && q in tree && tree[q] != Dir {
        return Err(NotADirectory);
      }
      tree := map q | q in tree.Keys + Prefixes(p) :: if q in tree then tree[q] else Dir;
      WithDirsWellFormed(old(tree), p);
      r := Ok(());
    }

    method ReadStream(p: Path) returns (r: Result<seq<byte>, VfsError>)
      ensures r.Ok? ==> p in tree && tree[p].File? && r.value == tree[p].content
    {
      if * {
        return Err(Io);
      }
      if p !in tree {
        return Err(NotFound);
      }
      r := match tree[p]
           case Dir => Err(IsADirectory)
           case File(content, _) => Ok(content);
    }

    /** Replaces or creates a file; the storage picks the new modification time. */
    method WriteStream(p: Path, content: seq<byte>) returns (r: Result<(), VfsError>)
      requires Valid()
      modifies this`tree
      ensures Valid()
      ensures r.Ok? ==> && p != [] && p in tree && tree[p].File? && tree[p].content == content
                        && tree == old(tree)[p := tree[p]]
                        && (p in old(tree) ==> old(tree)[p].File?)
      ensures r.Err? ==> tree == old(tree)
    {
      if * {
        return Err(Io);
      }
      if p == [] || p[..|p| - 1] !in tree || tree[p[..|p| - 1]] != Dir {
        return Err(NotFound);
      }
      if p in tree && tree[p] == Dir {
        return Err(IsADirectory);
      }
      var modified: Option<int> := *;
      tree := tree[p := File(content, modified)];
      r := Ok(());
    }

    /** Removes a file, or a directory with whatever is below it. */
    method Delete(p: Path) returns (r: Result<(), VfsError>)
      requires Valid()
      modifies this
      ensures Valid()
      ensures r.Ok? ==> && p != [] && p in old(tree) && tree == old(tree) - Under(old(tree), p)
                        && deletions == old(deletions) + [(p, Under(old(tree), p) == {p})]
      ensures r.Err? ==> tree == old(tree) && deletions == old(deletions)
    {
      if * {
        return Err(Io);
      }
      if p == [] || p !in tree {
        return Err(NotFound);
      }
      deletions := deletions + [(p, Under(tree, p) == {p})];
      tree := map q | q in tree.Keys && !Within(p, q) :: tree[q];
      forall q | q in tree && q != []
        ensures q[..|q| - 1] in tree && tree[q[..|q| - 1]] == Dir
      {
        assert q in old(tree);
        InitKeepsPrefix(q, p);
      }
      r := Ok(());
    }
  }
}
