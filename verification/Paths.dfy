/** Slash-separated paths as strings and as segment lists. */
module Paths {
  import opened Text

  /** A path segment: not empty, and no slash in it. */
  predicate IsSegment(s: string) {
    s != "" && '/' !in s
  }

  ghost predicate AllSegments(segments: seq<string>) {
    forall s :: s in segments ==> IsSegment(s)
  }

  /** The absolute path of a segment list. */
  function Render(segments: seq<string>): string {
    if segments == [] then "/" else "/" + Join(segments, '/')
  }

  lemma {:induction false} JoinOuterChars(segments: seq<string>)
    requires segments != [] && AllSegments(segments)
    ensures var j := Join(segments, '/'); j != "" && j[0] != '/' && j[|j| - 1] != '/'
  {
    assert IsSegment(segments[0]);
    if |segments| > 1 {
      JoinOuterChars(segments[1..]);
    }
  }

  lemma SplitOfRender(segments: seq<string>)
    requires AllSegments(segments)
    ensures Split(Render(segments), '/') == [""] + if segments == [] then [""] else segments
  {
    assert "" + ['/'] + Join(segments, '/') == Render(segments);
    SplitAtSeparator("", '/', Join(segments, '/'));
    if segments != [] {
      SplitOfJoin(segments, '/');
    }
  }

  lemma RenderConcat(a: seq<string>, b: seq<string>)
    requires AllSegments(a) && AllSegments(b) && b != []
    ensures Render(a + b) == if a == [] then Render(b) else Render(a) + "/" + Join(b, '/')
    ensures a != [] ==> Render(a) != "/" && TrimEnd(Render(a), Only('/')) == Render(a)
    ensures TrimStart(Render(b), Only('/')) == Join(b, '/')
  {
    hide TrimStart, TrimEnd, Join;
    JoinOuterChars(b);
    TrimsOneSlash(Join(b, '/'));
    if a == [] {
      assert a + b == b;
    } else {
      var x, y := Join(a, '/'), Join(b, '/');
      JoinOuterChars(a);
      KeepsEnd("/" + x);
      JoinConcat(a, b, '/');
      assert "/" + (x + ['/'] + y) == "/" + x + "/" + y;
    }
  }

  lemma TrimsOneSlash(s: string)
    requires s != "" && s[0] != '/'
    ensures TrimStart("/" + s, Only('/')) == s
  {
    assert ("/" + s)[1..] == s;
  }

  lemma KeepsEnd(s: string)
    requires s == "" || s[|s| - 1] != '/'
    ensures TrimEnd(s, Only('/')) == s
  {}

  lemma KeepsStart(s: string)
    requires s == "" || s[0] != '/'
    ensures TrimStart(s, Only('/')) == s
  {}

  // ---- the string helpers of the mount layer ----

  function StripPrefix(s: string, prefix: string): string {
    if prefix <= s then s[|prefix|..] else s
  }

  function RelativePath(root: string, path: string): string {
    if root == "/" then TrimStart(path, Only('/')) else TrimStart(StripPrefix(path, root), Only('/'))
  }

  /** A path below a root: the join both of the sync engine and of the mounts. */
  function JoinRoot(root: string, child: string): string {
    if child == "" then root
    else if root == "/" then "/" + TrimStart(child, Only('/'))
    else TrimEnd(root, Only('/')) + "/" + TrimStart(child, Only('/'))
  }

  function NonEmptyCount(pieces: seq<string>): nat {
    if pieces == [] then 0 else (if pieces[0] == "" then 0 else 1) + NonEmptyCount(pieces[1..])
  }

  function PathDepth(path: string): nat {
    NonEmptyCount(Split(path, '/'))
  }

  lemma StrippedTail(root: string, tail: string)
    ensures StripPrefix(root + tail, root) == tail
  {}

  lemma RelativeToItself(root: seq<string>)
    ensures RelativePath(Render(root), Render(root)) == ""
  {
    assert TrimStart("", Only('/')) == "" && "/"[1..] == "" && TrimStart("/", Only('/')) == "";
    hide Render, TrimStart;
    StrippedTail(Render(root), "");
    assert Render(root) + "" == Render(root);
  }

  /** The key of an entry below a root is its relative segment list, joined. */
  lemma RelativePathIsRelativeSegments(root: seq<string>, k: seq<string>)
    requires AllSegments(root) && AllSegments(k)
    ensures RelativePath(Render(root), Render(root + k)) == Join(k, '/')
  {
    if k == [] {
      assert root + k == root;
      RelativeToItself(root);
    } else {
      RenderConcat(root, k);
      hide TrimStart, TrimEnd, StripPrefix;
      if root == [] {
        assert Render(root) == "/";
      } else {
        hide Render, Join;
        BelowRoot(Render(root), Render(root + k), k);
      }
    }
  }

  lemma BelowRoot(root: string, path: string, k: seq<string>)
    requires root != "/" && AllSegments(k) && k != [] && path == root + "/" + Join(k, '/')
    ensures RelativePath(root, path) == Join(k, '/')
  {
    JoinOuterChars(k);
    hide Join;
    var joined := Join(k, '/');
    TrimsOneSlash(joined);
    assert path == root + ("/" + joined);
    StrippedTail(root, "/" + joined);
    hide TrimStart, StripPrefix;
  }

  /** Joining a key to a root is appending its segments. */
  lemma JoinRootIsAppend(root: seq<string>, k: seq<string>)
    requires AllSegments(root) && AllSegments(k)
    ensures JoinRoot(Render(root), Join(k, '/')) == Render(root + k)
  {
    if k == [] {
      assert root + k == root;
    } else {
      JoinOuterChars(k);
      KeepsStart(Join(k, '/'));
      RenderConcat(root, k);
    }
  }

  lemma {:induction false} AllCount(segments: seq<string>)
    requires AllSegments(segments)
    ensures NonEmptyCount(segments) == |segments|
  {
    if segments != [] {
      assert IsSegment(segments[0]);
      AllCount(segments[1..]);
    }
  }

  lemma PathDepthIsLength(segments: seq<string>)
    requires AllSegments(segments)
    ensures PathDepth(Render(segments)) == |segments|
  {
    SplitOfRender(segments);
    var pieces := Split(Render(segments), '/');
    AllCount(segments);
    if segments == [] {
      assert pieces[1..] == [""] && [""][1..] == [];
      assert NonEmptyCount([""]) == 0;
    } else {
      assert pieces[1..] == segments;
    }
  }

  /** Order of strings by their characters, a prefix before its extensions. */
  predicate LexLess(a: string, b: string) {
    b != "" && (a == "" || a[0] < b[0] || (a[0] == b[0] && LexLess(a[1..], b[1..])))
  }

  lemma {:induction false} PrefixIsLexLess(a: string, c: string)
    requires c != ""
    ensures LexLess(a, a + c) && !LexLess(a + c, a)
  {
    if a != "" {
      PrefixIsLexLess(a[1..], c);
      assert (a + c)[1..] == a[1..] + c;
    }
  }

  /** Sorted by their joined keys, relative paths come before their extensions. */
  lemma SortedKeysArePrefixFirst(a: seq<string>, b: seq<string>)
    requires AllSegments(a) && AllSegments(b) && a != [] && a <= b && a != b
    ensures LexLess(Join(a, '/'), Join(b, '/')) && !LexLess(Join(b, '/'), Join(a, '/'))
  {
    var rest := b[|a|..];
    assert a + rest == b;
    JoinConcat(a, rest, '/');
    assert Join(b, '/') == Join(a, '/') + (['/'] + Join(rest, '/'));
    PrefixIsLexLess(Join(a, '/'), ['/'] + Join(rest, '/'));
  }
}
