/** Normalisation and containment of share paths. */
module SharePaths {
  import opened Wrappers
  import opened Text
  import opened Paths

  datatype PathError = InvalidPath | NotADirectory

  /** What is kept of split pieces: trimmed, without the empty ones and the dots. */
  function Kept(pieces: seq<string>): seq<string> {
    if pieces == [] then [] else KeptPiece(pieces[0]) + Kept(pieces[1..])
  }

  /** A piece trimmed, unless nothing or a dot is left of it. */
  function KeptPiece(piece: string): seq<string> {
    if Trim(piece) == "" || Trim(piece) == "." then [] else [Trim(piece)]
  }

  /** The segments of a path in normal form. */
  function AbsoluteSegments(path: string): seq<string> {
    Kept(Split(ReplaceChar(Trim(path), '\\', '/'), '/'))
  }

  function Normalized(path: string): string {
    Render(AbsoluteSegments(path))
  }

  lemma KeptStep(pieces: seq<string>, i: nat)
    requires i < |pieces|
    ensures Kept(pieces[i..]) == KeptPiece(pieces[i]) + Kept(pieces[i + 1..])
  {
    assert pieces[i..][1..] == pieces[i + 1..];
  }

  /** What was kept of the pieces before `i`, the piece and what is kept after it is all that is kept. */
  lemma KeptSoFar(segments: seq<string>, pieces: seq<string>, i: nat, kept: seq<string>)
    requires i < |pieces| && segments + Kept(pieces[i..]) == kept
    ensures (segments + KeptPiece(pieces[i])) + Kept(pieces[i + 1..]) == kept
    ensures KeptPiece(pieces[i]) == [] ==> segments + KeptPiece(pieces[i]) == segments
    ensures forall s :: s in KeptPiece(pieces[i]) ==> s in kept
  {
    hide Kept, KeptPiece;
    KeptStep(pieces, i);
    ConcatAssociates(segments, KeptPiece(pieces[i]), Kept(pieces[i + 1..]));
  }

  lemma SlashAlone(trimmed: string)
    requires trimmed == "" || trimmed == "/"
    ensures Kept(Split(ReplaceChar(trimmed, '\\', '/'), '/')) == []
  {
    assert ReplaceChar(trimmed, '\\', '/') == trimmed;
    PlainIsSegment([]);
    SplitOfRender([]);
    KeptConcat([""], [""]);
  }

  method NormalizeAbsolutePath(path: string) returns (r: string)
    ensures r == Normalized(path)
  {
    hide Trim, Kept, Split, Join;
    var trimmed := Trim(path);
    if trimmed == "" || trimmed == "/" {
      SlashAlone(trimmed);
      return "/";
    }
    var pieces := Split(ReplaceChar(trimmed, '\\', '/'), '/');
    ghost var kept := Kept(pieces);
    var segments := [];
    assert pieces[0..] == pieces;
    for i := 0 to |pieces|
      invariant segments + Kept(pieces[i..]) == kept
    {
      var segment := Trim(pieces[i]);
      KeptSoFar(segments, pieces, i, kept);
      if segment == "" || segment == "." {
        continue;
      }
      segments := segments + [segment];
    }
    KeptOfNothing(pieces[|pieces|..]);
    assert segments + [] == segments;
    r := if segments == [] then "/" else "/" + Join(segments, '/');
  }

  lemma KeptOfNothing(pieces: seq<string>)
    requires pieces == []
    ensures Kept(pieces) == []
  {}

  /** A segment as normalisation leaves it, read with `/` as the only separator. */
  predicate PlainSegment(s: string) {
    s != "" && s != "." && Trimmed(s) && '/' !in s
  }

  lemma PlainIsSegment(segments: seq<string>)
    requires AllPlain(segments)
    ensures AllSegments(segments)
  {
    forall s | s in segments
      ensures IsSegment(s)
    {
      assert PlainSegment(s);
    }
  }

  predicate AllPlain(segments: seq<string>) {
    forall s :: s in segments ==> PlainSegment(s)
  }

  predicate NoBackslash(segments: seq<string>) {
    forall s :: s in segments ==> '\\' !in s
  }

  lemma {:induction false} KeptIsPlain(pieces: seq<string>)
    requires forall piece :: piece in pieces ==> '/' !in piece
    ensures AllPlain(Kept(pieces))
    ensures (forall piece :: piece in pieces ==> '\\' !in piece) ==> NoBackslash(Kept(pieces))
  {
    if pieces != [] {
      TrimShape(pieces[0]);
      KeptIsPlain(pieces[1..]);
    }
  }

  lemma {:induction false} KeptOfPlain(segments: seq<string>)
    requires AllPlain(segments)
    ensures Kept(segments) == segments
  {
    if segments != [] {
      assert PlainSegment(segments[0]);
      TrimShape(segments[0]);
      KeptOfPlain(segments[1..]);
    }
  }

  lemma KeptUnfolds(first: string, rest: seq<string>)
    ensures Kept([first] + rest) == KeptPiece(first) + Kept(rest)
  {
    hide KeptPiece;
    assert ([first] + rest)[1..] == rest;
  }

  lemma {:induction false} KeptConcat(a: seq<string>, b: seq<string>)
    ensures Kept(a + b) == Kept(a) + Kept(b)
  {
    if a == [] {
      assert a + b == b;
    } else {
      hide Kept, KeptPiece;
      var first, rest := a[0], a[1..];
      KeptConcat(rest, b);
      FirstAndRest(a, b);
      KeptUnfolds(first, rest);
      KeptUnfolds(first, rest + b);
      ConcatAssociates(KeptPiece(first), Kept(rest), Kept(b));
    }
  }

  lemma FirstAndRest(a: seq<string>, b: seq<string>)
    requires a != []
    ensures a == [a[0]] + a[1..] && a + b == [a[0]] + (a[1..] + b)
  {}

  lemma ConcatAssociates(a: seq<string>, b: seq<string>, c: seq<string>)
    ensures a + (b + c) == (a + b) + c
  {}

  lemma {:induction false} SplitKeepsChars(s: string, c: char)
    requires c !in s
    ensures forall piece :: piece in Split(s, '/') ==> c !in piece
  {
    if s != "" {
      SplitKeepsChars(s[1..], c);
    }
  }

  lemma AbsoluteSegmentsArePlain(path: string)
    ensures AllPlain(AbsoluteSegments(path)) && NoBackslash(AbsoluteSegments(path))
  {
    var replaced := ReplaceChar(Trim(path), '\\', '/');
    SplitHasNoSeparator(replaced, '/');
    SplitKeepsChars(replaced, '\\');
    KeptIsPlain(Split(replaced, '/'));
  }

  lemma {:induction false} JoinEnds(segments: seq<string>)
    requires segments != [] && AllPlain(segments)
    ensures var j := Join(segments, '/');
            j != "" && !IsSpace(j[|j| - 1]) && j[0] != '/' && j[|j| - 1] != '/'
  {
    assert PlainSegment(segments[0]);
    if |segments| > 1 {
      JoinEnds(segments[1..]);
    }
  }

  lemma {:induction false} JoinBackslash(segments: seq<string>)
    ensures NoBackslash(segments) <==> '\\' !in Join(segments, '/')
  {
    if |segments| > 1 {
      JoinBackslash(segments[1..]);
      assert segments == [segments[0]] + segments[1..];
    }
  }

  lemma RenderIsTrimmed(segments: seq<string>)
    requires AllPlain(segments)
    ensures Trim(Render(segments)) == Render(segments)
    ensures NoBackslash(segments) ==> ReplaceChar(Render(segments), '\\', '/') == Render(segments)
  {
    JoinBackslash(segments);
    if segments != [] {
      JoinEnds(segments);
    }
    TrimShape(Render(segments));
  }

  lemma SegmentsOfRender(segments: seq<string>)
    requires AllPlain(segments) && NoBackslash(segments)
    ensures AbsoluteSegments(Render(segments)) == segments
  {
    RenderIsTrimmed(segments);
    PlainIsSegment(segments);
    SplitOfRender(segments);
    KeptConcat([""], if segments == [] then [""] else segments);
    KeptOfPlain(segments);
  }

  /** Normalising twice is normalising once. */
  lemma NormalizationIdempotent(path: string)
    ensures AbsoluteSegments(Normalized(path)) == AbsoluteSegments(path)
    ensures Normalized(Normalized(path)) == Normalized(path)
  {
    AbsoluteSegmentsArePlain(path);
    SegmentsOfRender(AbsoluteSegments(path));
  }

  /** One path is the other, or goes on after it with a slash. */
  predicate GoesOn(r: string, c: string) {
    c == r || (r <= c && |c| > |r| && c[|r|] == '/')
  }

  function IsPathWithinRoot(root: string, candidate: string): bool {
    var r, c := Normalized(root), Normalized(candidate);
    r == "/" || GoesOn(r, c)
  }

  /** The string test says exactly that the root's segments are a prefix of the candidate's. */
  lemma WithinIffSegmentPrefix(root: string, candidate: string)
    ensures IsPathWithinRoot(root, candidate) <==> AbsoluteSegments(root) <= AbsoluteSegments(candidate)
  {
    AbsoluteSegmentsArePlain(root);
    AbsoluteSegmentsArePlain(candidate);
    RenderPrefix(AbsoluteSegments(root), AbsoluteSegments(candidate));
  }

  /** Containment is reflexive and transitive, and mutual only between spellings of one path. */
  lemma WithinIsPreorder(a: string, b: string, c: string)
    ensures IsPathWithinRoot(a, a)
    ensures IsPathWithinRoot(a, b) && IsPathWithinRoot(b, c) ==> IsPathWithinRoot(a, c)
    ensures IsPathWithinRoot(a, b) && IsPathWithinRoot(b, a) ==> Normalized(a) == Normalized(b)
  {
    hide IsPathWithinRoot, AbsoluteSegments;
    WithinIffSegmentPrefix(a, a);
    WithinIffSegmentPrefix(a, b);
    WithinIffSegmentPrefix(b, a);
    WithinIffSegmentPrefix(b, c);
    WithinIffSegmentPrefix(a, c);
    var x, y := AbsoluteSegments(a), AbsoluteSegments(b);
    if x <= y <= x {
      assert x == y[..|x|] == y;
    }
  }

  lemma RenderPrefix(r: seq<string>, c: seq<string>)
    requires AllPlain(r) && AllPlain(c) && NoBackslash(r) && NoBackslash(c)
    ensures r <= c <==> Render(r) == "/" || GoesOn(Render(r), Render(c))
  {
    SegmentsOfRender(r);
    SegmentsOfRender(c);
    hide AbsoluteSegments;
    if r == [] {
      assert Render(r) == "/";
    } else {
      JoinEnds(r);
      if r <= c && r != c {
        PrefixGoesOn(r, c);
      }
      if GoesOn(Render(r), Render(c)) && Render(r) != Render(c) {
        GoesOnOnlyWithPrefix(r, c);
      }
    }
  }

  lemma PrefixGoesOn(r: seq<string>, c: seq<string>)
    requires r != [] && r <= c && r != c
    ensures GoesOn(Render(r), Render(c))
  {
    var rest := c[|r|..];
    assert r + rest == c;
    JoinConcat(r, rest, '/');
    hide Join;
    assert Render(c) == Render(r) + ['/'] + Join(rest, '/');
  }

  lemma GoesOnOnlyWithPrefix(r: seq<string>, c: seq<string>)
    requires AllPlain(r) && AllPlain(c) && r != [] && Render(r) != Render(c) && GoesOn(Render(r), Render(c))
    ensures r <= c
  {
    var rs, cs := Render(r), Render(c);
    PlainIsSegment(r);
    SplitOfRender(r);
    PlainIsSegment(c);
    SplitOfRender(c);
    hide Split, Render;
    var rest := Split(cs[|rs| + 1..], '/');
    assert cs == rs + ['/'] + cs[|rs| + 1..];
    SplitAtSeparator(rs, '/', cs[|rs| + 1..]);
    TailsAgree(r, rest, c);
  }

  lemma TailsAgree(r: seq<string>, rest: seq<string>, c: seq<string>)
    requires r != [] && rest != [] && [""] + r + rest == [""] + if c == [] then [""] else c
    ensures r <= c
  {
    assert ([""] + r + rest)[1..] == r + rest;
    if c != [] {
      assert ([""] + c)[1..] == c;
    }
  }

  /** Percent decoding is a parameter: any function that may fail. */
  type PercentDecode = string -> Option<string>

  function DecodeSharePath(decode: PercentDecode, raw: string): Option<string> {
    var replaced := ReplaceChar(raw, '\\', '/');
    if '%' in replaced then decode(replaced) else Some(replaced)
  }

  predicate Forbidden(segment: string) {
    segment == ".." || exists c :: c in segment && IsControl(c)
  }

  /** The segments of a requested path, or none when one of them is forbidden. */
  function RelativeSegments(decode: PercentDecode, requested: string): Option<seq<string>> {
    match DecodeSharePath(decode, Trim(requested))
    case None => None
    case Some(decoded) =>
      var kept := Kept(Split(decoded, '/'));
      if exists s :: s in kept && Forbidden(s) then None else Some(kept)
  }

  method NormalizeShareRelativePath(decode: PercentDecode, requested: string) returns (r: Result<string, PathError>)
    ensures r == match RelativeSegments(decode, requested)
                 case None => Err(InvalidPath)
                 case Some(segments) => Ok(Render(segments))
  {
    hide Trim, Kept, Split, Join, Forbidden;
    var decoded := DecodeSharePath(decode, Trim(requested));
    if decoded.None? {
      return Err(InvalidPath);
    }
    var pieces := Split(decoded.value, '/');
    ghost var kept := Kept(pieces);
    var segments := [];
    assert pieces[0..] == pieces;
    for i := 0 to |pieces|
      invariant segments + Kept(pieces[i..]) == kept
      invariant forall s :: s in segments ==> !Forbidden(s)
    {
      var segment := Trim(pieces[i]);
      KeptSoFar(segments, pieces, i, kept);
      if segment == "" || segment == "." {
        continue;
      }
      if Forbidden(segment) {
        assert segment in kept;
        return Err(InvalidPath);
      }
      segments := segments + [segment];
    }
    KeptOfNothing(pieces[|pieces|..]);
    assert segments + [] == segments;
    r := Ok(if segments == [] then "/" else "/" + Join(segments, '/'));
  }

  method ResolveShareDescendantPath(decode: PercentDecode, base: string, requested: string, baseIsDir: bool)
    returns (r: Result<string, PathError>)
    ensures r == Resolved(decode, base, requested, baseIsDir)
  {
    var basePath := NormalizeAbsolutePath(base);
    var relativePath :- NormalizeShareRelativePath(decode, requested);
    RelativeSegmentsArePlain(decode, requested);
    ghost var relative := RelativeSegments(decode, requested).value;
    if relative != [] {
      JoinEnds(relative);
    }
    if relativePath == "/" {
      return Ok(basePath);
    }
    if !baseIsDir {
      return Err(NotADirectory);
    }
    var candidate := if basePath == "/" then relativePath
      else TrimEnd(basePath, Only('/')) + "/" + TrimStart(relativePath, Only('/'));
    CandidateIsRendered(base, relative);
    FinalCheckNeverRejects(base, relative);
    r := if IsPathWithinRoot(basePath, candidate) then Ok(candidate) else Err(InvalidPath);
  }

  /**
   * What resolving promises: the base's segments followed by the requested ones. There is no
   * outcome of the closing containment check here, because it never rejects.
   */
  function Resolved(decode: PercentDecode, base: string, requested: string, baseIsDir: bool): Result<string,
                    PathError> {
    match RelativeSegments(decode, requested)
    case None => Err(InvalidPath)
    case Some(relative) =>
      if relative == [] then Ok(Normalized(base))
      else if !baseIsDir then Err(NotADirectory)
      else Ok(Render(AbsoluteSegments(base) + relative))
  }

  /** The piece is neither two dots nor holds a control character, spaces around it aside. */
  predicate Harmless(piece: string) {
    Trim(piece) != ".." && forall i :: 0 <= i < |Trim(piece)| ==> !IsControl(Trim(piece)[i])
  }

  /** A request is accepted exactly when it decodes and every piece between slashes is harmless. */
  lemma AcceptedExactly(decode: PercentDecode, requested: string)
    ensures var decoded := DecodeSharePath(decode, Trim(requested));
            RelativeSegments(decode, requested).Some?
            <==> decoded.Some? && forall piece :: piece in Split(decoded.value, '/') ==> Harmless(piece)
  {
    var decoded := DecodeSharePath(decode, Trim(requested));
    if decoded.Some? {
      var pieces := Split(decoded.value, '/');
      hide Trim, Split, Kept;
      ForbiddenAmongKept(pieces);
    }
  }

  /** Without a percent sign in the request no decoder is asked, and a backslash separates like a slash. */
  lemma NoPercentNoDecoder(decode: PercentDecode, requested: string)
    requires '%' !in requested
    ensures DecodeSharePath(decode, Trim(requested)) == Some(ReplaceChar(Trim(requested), '\\', '/'))
  {
    TrimShape(requested);
    var trimmed := Trim(requested);
    hide Trim;
    assert forall i :: 0 <= i < |trimmed| ==> trimmed[i] in requested;
  }

  /** With one it is asked for the text with its backslashes turned into slashes. */
  lemma PercentAsksDecoder(decode: PercentDecode, requested: string)
    requires '%' in Trim(requested)
    ensures DecodeSharePath(decode, Trim(requested)) == decode(ReplaceChar(Trim(requested), '\\', '/'))
  {
    var trimmed := Trim(requested);
    hide Trim;
    var i :| 0 <= i < |trimmed| && trimmed[i] == '%';
    assert ReplaceChar(trimmed, '\\', '/')[i] == '%';
  }

  lemma {:induction false} ForbiddenAmongKept(pieces: seq<string>)
    ensures (exists s :: s in Kept(pieces) && Forbidden(s)) <==> exists piece :: piece in pieces && !Harmless(piece)
  {
    hide Trim;
    if pieces != [] {
      ForbiddenAmongKept(pieces[1..]);
      ForbiddenPiece(pieces[0]);
      assert pieces == [pieces[0]] + pieces[1..];
      hide KeptPiece, Harmless, Forbidden;
    }
  }

  lemma ForbiddenPiece(piece: string)
    ensures (exists s :: s in KeptPiece(piece) && Forbidden(s)) <==> !Harmless(piece)
  {
    var trimmed := Trim(piece);
    hide Trim;
    assert trimmed in KeptPiece(piece) || trimmed == "" || trimmed == ".";
    assert !IsControl('.');
    assert Forbidden(trimmed) <==> !Harmless(piece) by {
      if Forbidden(trimmed) && trimmed != ".." {
        var c :| c in trimmed && IsControl(c);
        var i :| 0 <= i < |trimmed| && trimmed[i] == c;
      }
    }
  }

  lemma RelativeSegmentsArePlain(decode: PercentDecode, requested: string)
    requires RelativeSegments(decode, requested).Some?
    ensures var relative := RelativeSegments(decode, requested).value;
            AllPlain(relative) && forall s :: s in relative ==> !Forbidden(s)
  {
    var decoded := DecodeSharePath(decode, Trim(requested)).value;
    SplitHasNoSeparator(decoded, '/');
    KeptIsPlain(Split(decoded, '/'));
  }

  lemma CandidateIsRendered(base: string, relative: seq<string>)
    requires AllPlain(relative) && relative != []
    ensures (if Normalized(base) == "/" then Render(relative)
             else TrimEnd(Normalized(base), Only('/')) + "/" + TrimStart(Render(relative), Only('/')))
         == Render(AbsoluteSegments(base) + relative)
  {
    AbsoluteSegmentsArePlain(base);
    PlainIsSegment(AbsoluteSegments(base));
    PlainIsSegment(relative);
    RenderConcat(AbsoluteSegments(base), relative);
  }

  lemma ReplaceConcat(a: string, b: string, from: char, to: char)
    ensures ReplaceChar(a + b, from, to) == ReplaceChar(a, from, to) + ReplaceChar(b, from, to)
  {}

  /** What a segment falls into when it is read again: a backslash separates, too. */
  function Pieces(segment: string): seq<string> {
    Kept(Split(ReplaceChar(segment, '\\', '/'), '/'))
  }

  function AllPieces(segments: seq<string>): seq<string> {
    if segments == [] then [] else Pieces(segments[0]) + AllPieces(segments[1..])
  }

  lemma {:induction false} PiecesOfJoin(segments: seq<string>)
    requires segments != []
    ensures Pieces(Join(segments, '/')) == AllPieces(segments)
  {
    hide Kept, Split, ReplaceChar;
    if |segments| > 1 {
      var first, rest := segments[0], Join(segments[1..], '/');
      PiecesOfJoin(segments[1..]);
      PiecesOfBoth(first, rest);
    } else {
      assert AllPieces(segments[1..]) == [];
    }
  }

  lemma PiecesOfBoth(a: string, b: string)
    ensures Pieces(a + ['/'] + b) == Pieces(a) + Pieces(b)
  {
    ReplaceConcat(a + ['/'], b, '\\', '/');
    ReplaceConcat(a, ['/'], '\\', '/');
    assert ReplaceChar(['/'], '\\', '/') == ['/'];
    hide Kept, Split;
    SplitAtSeparator(ReplaceChar(a, '\\', '/'), '/', ReplaceChar(b, '\\', '/'));
    KeptConcat(Split(ReplaceChar(a, '\\', '/'), '/'), Split(ReplaceChar(b, '\\', '/'), '/'));
  }

  lemma PiecesOfTrimmed(path: string)
    requires Trim(path) == path
    ensures AbsoluteSegments(path) == Pieces(path)
  {
    hide Kept, Split, ReplaceChar, Trim;
  }

  lemma PiecesOfNothing()
    ensures Pieces("") == []
  {
    SlashAlone("");
  }

  /** Normalising a rendered path splits its segments into their pieces. */
  lemma SegmentsOfAnyRender(segments: seq<string>)
    requires AllPlain(segments)
    ensures AbsoluteSegments(Render(segments)) == AllPieces(segments)
  {
    hide Kept, Split, ReplaceChar, Pieces, Trim, AbsoluteSegments;
    RenderIsTrimmed(segments);
    PiecesOfTrimmed(Render(segments));
    PiecesOfNothing();
    if segments == [] {
      PiecesOfBoth("", "");
      assert Render(segments) == "" + ['/'] + "";
    } else {
      PiecesOfJoin(segments);
      PiecesOfBoth("", Join(segments, '/'));
      assert Render(segments) == "" + ['/'] + Join(segments, '/');
    }
  }

  lemma AllPiecesUnfold(first: string, rest: seq<string>)
    ensures AllPieces([first] + rest) == Pieces(first) + AllPieces(rest)
  {
    hide Pieces;
    assert ([first] + rest)[1..] == rest;
  }

  lemma {:induction false} AllPiecesConcat(a: seq<string>, b: seq<string>)
    ensures AllPieces(a + b) == AllPieces(a) + AllPieces(b)
  {
    if a == [] {
      assert a + b == b;
    } else {
      hide Pieces, AllPieces;
      var first, rest := a[0], a[1..];
      AllPiecesConcat(rest, b);
      FirstAndRest(a, b);
      AllPiecesUnfold(first, rest);
      AllPiecesUnfold(first, rest + b);
      ConcatAssociates(Pieces(first), AllPieces(rest), AllPieces(b));
    }
  }

  lemma {:induction false} AmongPieces(x: string, segments: seq<string>)
    ensures x in AllPieces(segments) <==> exists s :: s in segments && x in Pieces(s)
  {
    hide Pieces;
    if segments != [] {
      AmongPieces(x, segments[1..]);
      assert segments == [segments[0]] + segments[1..];
    }
  }

  lemma SegmentsBelow(a: seq<string>, b: seq<string>)
    requires AllPlain(a) && NoBackslash(a) && AllPlain(b)
    ensures AbsoluteSegments(Render(a + b)) == a + AllPieces(b)
  {
    hide Pieces, AbsoluteSegments;
    SegmentsOfRender(a);
    SegmentsOfAnyRender(a);
    SegmentsOfAnyRender(a + b);
    AllPiecesConcat(a, b);
  }

  /** A base's normal form followed by plain segments stays within the base, whatever the segments hold. */
  lemma FinalCheckNeverRejects(base: string, relative: seq<string>)
    requires AllPlain(relative)
    ensures IsPathWithinRoot(Normalized(base), Render(AbsoluteSegments(base) + relative))
  {
    AbsoluteSegmentsArePlain(base);
    SegmentsBelow(AbsoluteSegments(base), relative);
    NormalizationIdempotent(base);
    WithinIffSegmentPrefix(Normalized(base), Render(AbsoluteSegments(base) + relative));
  }

  /**
   * A resolved path below the base is the base's segments and then the requested ones, none of
   * which is empty, a dot, two dots, or holds a control character.
   */
  lemma ResolvedSegments(decode: PercentDecode, base: string, requested: string, baseIsDir: bool)
    requires Resolved(decode, base, requested, baseIsDir).Ok?
    ensures var relative := RelativeSegments(decode, requested).value;
            && Resolved(decode, base, requested, baseIsDir) == Ok(Render(AbsoluteSegments(base) + relative))
            && AllPlain(relative)
            && forall s :: s in relative ==> s != ".." && forall c :: c in s ==> !IsControl(c)
  {
    RelativeSegmentsArePlain(decode, requested);
    var relative := RelativeSegments(decode, requested).value;
    assert forall s :: s in relative ==> !Forbidden(s);
    assert AbsoluteSegments(base) + [] == AbsoluteSegments(base);
  }

  /** The result is its own normal form exactly when no requested segment holds a backslash after decoding. */
  lemma ResolvedIsNormalIff(decode: PercentDecode, base: string, requested: string, baseIsDir: bool)
    requires Resolved(decode, base, requested, baseIsDir).Ok?
    ensures var path := Resolved(decode, base, requested, baseIsDir).value;
            Normalized(path) == path <==> NoBackslash(RelativeSegments(decode, requested).value)
  {
    ResolvedSegments(decode, base, requested, baseIsDir);
    var relative := RelativeSegments(decode, requested).value;
    var all := AbsoluteSegments(base) + relative;
    AbsoluteSegmentsArePlain(base);
    assert NoBackslash(all) <==> NoBackslash(relative) by {
      assert forall s :: s in relative ==> s in all;
    }
    if NoBackslash(relative) {
      SegmentsOfRender(all);
    } else {
      var normal := AbsoluteSegments(Render(all));
      AbsoluteSegmentsArePlain(Render(all));
      JoinBackslash(all);
      JoinBackslash(normal);
      assert '\\' in Render(all) && '\\' !in Render(normal);
    }
  }

  /**
   * The normal form of a resolved path is the base's segments and then the pieces of the requested
   * ones; it has a segment of two dots exactly when the base has one or a piece is one.
   */
  lemma NormalFormOfResolved(decode: PercentDecode, base: string, requested: string, baseIsDir: bool)
    requires Resolved(decode, base, requested, baseIsDir).Ok?
    ensures var relative, path := RelativeSegments(decode, requested).value, Resolved(decode, base, requested,
              baseIsDir).value;
            && AbsoluteSegments(path) == AbsoluteSegments(base) + AllPieces(relative)
            && (".." in AbsoluteSegments(path)
                <==> ".." in AbsoluteSegments(base) || exists s :: s in relative && ".." in Pieces(s))
  {
    ResolvedSegments(decode, base, requested, baseIsDir);
    AbsoluteSegmentsArePlain(base);
    var relative := RelativeSegments(decode, requested).value;
    SegmentsBelow(AbsoluteSegments(base), relative);
    AmongPieces("..", relative);
  }

  /**
   * Two dots between backslashes that were percent-encoded are one segment when resolved, and two dots in
   * normal form.
   */
  lemma EncodedBackslashes(decode: PercentDecode, base: string)
    requires decode("%5C..%5C") == Some("\\..\\")
    ensures var resolved := Resolved(decode, base, "%5C..%5C", true);
            && resolved == Ok(Render(AbsoluteSegments(base) + ["\\..\\"]))
            && AbsoluteSegments(resolved.value) == AbsoluteSegments(base) + [".."]
  {
    hide Pieces, RelativeSegments, AbsoluteSegments;
    var segment := "\\..\\";
    EncodedBackslashesKept(decode);
    PiecesOfDots();
    assert AllPieces([segment]) == Pieces(segment) + AllPieces([segment][1..]);
    NormalFormOfResolved(decode, base, "%5C..%5C", true);
  }

  lemma EncodedBackslashesKept(decode: PercentDecode)
    requires decode("%5C..%5C") == Some("\\..\\")
    ensures RelativeSegments(decode, "%5C..%5C") == Some(["\\..\\"])
  {
    var requested, segment := "%5C..%5C", "\\..\\";
    EncodedAsIs();
    BackslashesAsIs();
    hide Trim, Kept, Split, ReplaceChar;
    assert requested[0] == '%';
  }

  lemma EncodedAsIs()
    ensures ReplaceChar(Trim("%5C..%5C"), '\\', '/') == "%5C..%5C"
  {
    TrimShape("%5C..%5C");
  }

  lemma BackslashesAsIs()
    ensures Kept(Split("\\..\\", '/')) == ["\\..\\"]
  {
    SplitOfPiece("\\..\\", '/');
    TrimShape("\\..\\");
    KeptOfPlain(["\\..\\"]);
  }

  lemma PiecesOfDots()
    ensures Pieces("\\..\\") == [".."]
  {
    var dots: string := "..";
    assert ReplaceChar("\\..\\", '\\', '/') == "" + ['/'] + (dots + ['/'] + "");
    SplitAtSeparator("", '/', dots + ['/'] + "");
    SplitAtSeparator(dots, '/', "");
    SplitOfPiece(dots, '/');
    TrimShape(dots);
    KeptConcat([""], [dots] + [""]);
    KeptConcat([dots], [""]);
    KeptOfPlain([dots]);
  }
}
