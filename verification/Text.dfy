/** String operations the modelled code takes from the Rust standard library. */
module Text {

  /** Unicode White_Space, which `str::trim` strips. */
  predicate IsSpace(c: char) {
    || '\U{9}' <= c <= '\U{d}' || c == ' ' || c == '\U{85}' || c == '\U{a0}' || c == '\U{1680}'
    || '\U{2000}' <= c <= '\U{200a}' || c == '\U{2028}' || c == '\U{2029}' || c == '\U{202f}'
    || c == '\U{205f}' || c == '\U{3000}'
  }

  predicate IsControl(c: char) {
    c < ' ' || '\U{7f}' <= c <= '\U{9f}'
  }

  /** The code points of the control characters, as Unicode's category Cc has them. */
  lemma ControlCodes(c: char)
    ensures IsControl(c) <==> c as int <= 31 || 127 <= c as int <= 159
  {}

  /** The code points of white space, as Unicode's property White_Space has them. */
  lemma SpaceCodes(c: char)
    ensures IsSpace(c) <==>
            c as int in {9, 10, 11, 12, 13, 32, 133, 160, 5760, 8192, 8193, 8194, 8195, 8196, 8197, 8198, 8199, 8200,
                         8201, 8202, 8232, 8233, 8239, 8287, 12288}
  {}

  /** What a trimming operation strips: white space, or one character. */
  datatype CharClass = Space | Only(c: char)

  predicate Drops(drop: CharClass, c: char) {
    match drop
    case Space => IsSpace(c)
    case Only(d) => c == d
  }

  function TrimStart(s: string, drop: CharClass): string {
    if s != "" && Drops(drop, s[0]) then TrimStart(s[1..], drop) else s
  }

  function TrimEnd(s: string, drop: CharClass): string {
    if s != "" && Drops(drop, s[|s| - 1]) then TrimEnd(s[..|s| - 1], drop) else s
  }

  function Trim(s: string): string {
    TrimEnd(TrimStart(s, Space), Space)
  }

  /** No white space at either end. */
  predicate Trimmed(s: string) {
    s == "" || (!IsSpace(s[0]) && !IsSpace(s[|s| - 1]))
  }

  lemma {:induction false} TrimStartShape(s: string, drop: CharClass)
    ensures TrimStart(s, drop) == "" || !Drops(drop, TrimStart(s, drop)[0])
    ensures forall c :: c in TrimStart(s, drop) ==> c in s
  {
    if s != "" && Drops(drop, s[0]) {
      TrimStartShape(s[1..], drop);
    }
  }

  lemma {:induction false} TrimEndShape(s: string, drop: CharClass)
    ensures var t := TrimEnd(s, drop); t <= s && (t == "" || !Drops(drop, t[|t| - 1]))
  {
    if s != "" && Drops(drop, s[|s| - 1]) {
      TrimEndShape(s[..|s| - 1], drop);
    }
  }

  lemma TrimShape(s: string)
    ensures Trimmed(Trim(s))
    ensures forall c :: c in Trim(s) ==> c in s
    ensures Trimmed(s) ==> Trim(s) == s
  {
    TrimStartShape(s, Space);
    TrimEndShape(TrimStart(s, Space), Space);
  }

  function ReplaceChar(s: string, from: char, to: char): (r: string)
    ensures |r| == |s|
    ensures forall i :: 0 <= i < |s| ==> r[i] == if s[i] == from then to else s[i]
  {
    seq(|s|, i requires 0 <= i < |s| => if s[i] == from then to else s[i])
  }

  function ToAsciiLower(s: string): (r: string)
    ensures |r| == |s|
  {
    seq(|s|, i requires 0 <= i < |s| => if 'A' <= s[i] <= 'Z' then (s[i] as int + 32) as char else s[i])
  }

  /** The pieces between separators: always at least one. */
  function Split(s: string, sep: char): (pieces: seq<string>)
    ensures |pieces| >= 1
  {
    if s == "" then [""]
    else
      var rest := Split(s[1..], sep);
      if s[0] == sep then [""] + rest else [[s[0]] + rest[0]] + rest[1..]
  }

  function Join(pieces: seq<string>, sep: char): string {
    if pieces == [] then ""
    else if |pieces| == 1 then pieces[0]
    else pieces[0] + [sep] + Join(pieces[1..], sep)
  }

  lemma {:induction false} SplitHasNoSeparator(s: string, sep: char)
    ensures forall piece :: piece in Split(s, sep) ==> sep !in piece
  {
    if s != "" {
      SplitHasNoSeparator(s[1..], sep);
    }
  }

  lemma SplitOfLonger(s: string, tail: string, sep: char)
    requires s != "" && s == [s[0]] + tail
    ensures var rest := Split(tail, sep);
            Split(s, sep) == if s[0] == sep then [""] + rest else [[s[0]] + rest[0]] + rest[1..]
  {
    assert s[1..] == tail;
  }

  /** Splitting a concatenation around a separator splits both sides. */
  lemma {:induction false} SplitAtSeparator(a: string, sep: char, b: string)
    ensures Split(a + [sep] + b, sep) == Split(a, sep) + Split(b, sep)
  {
    var whole := a + [sep] + b;
    if a == "" {
      assert whole[1..] == b;
    } else {
      hide Split;
      var tail := a[1..] + [sep] + b;
      SplitAtSeparator(a[1..], sep, b);
      SplitOfLonger(a, a[1..], sep);
      assert whole == [a[0]] + tail;
      SplitOfLonger(whole, tail, sep);
      SamePieces(Split(a[1..], sep), Split(b, sep), a[0]);
    }
  }

  lemma SamePieces(a: seq<string>, b: seq<string>, c: char)
    requires a != []
    ensures [""] + (a + b) == ([""] + a) + b
    ensures [[c] + (a + b)[0]] + (a + b)[1..] == ([[c] + a[0]] + a[1..]) + b
  {
    TailOfConcat(a, b);
  }

  lemma TailOfConcat(a: seq<string>, b: seq<string>)
    requires a != []
    ensures (a + b)[0] == a[0] && (a + b)[1..] == a[1..] + b
  {}

  lemma {:induction false} SplitOfPiece(s: string, sep: char)
    requires sep !in s
    ensures Split(s, sep) == [s]
  {
    if s != "" {
      SplitOfPiece(s[1..], sep);
      assert s == [s[0]] + s[1..];
    }
  }

  lemma {:induction false} SplitOfJoin(pieces: seq<string>, sep: char)
    requires pieces != [] && forall piece :: piece in pieces ==> sep !in piece
    ensures Split(Join(pieces, sep), sep) == pieces
  {
    SplitOfPiece(pieces[0], sep);
    if |pieces| > 1 {
      SplitOfJoin(pieces[1..], sep);
      SplitAtSeparator(pieces[0], sep, Join(pieces[1..], sep));
    }
  }

  lemma {:induction false} JoinOfSplit(s: string, sep: char)
    ensures Join(Split(s, sep), sep) == s
  {
    if s != "" {
      JoinOfSplit(s[1..], sep);
      var rest := Split(s[1..], sep);
      if s[0] == sep {
        assert Join([""] + rest, sep) == "" + [sep] + Join(rest, sep);
      } else {
        assert ([[s[0]] + rest[0]] + rest[1..])[1..] == rest[1..];
      }
    }
  }

  lemma {:induction false} JoinConcat(a: seq<string>, b: seq<string>, sep: char)
    requires a != [] && b != []
    ensures Join(a + b, sep) == Join(a, sep) + [sep] + Join(b, sep)
  {
    if |a| == 1 {
      assert (a + b)[1..] == b;
    } else {
      JoinConcat(a[1..], b, sep);
      assert (a + b)[1..] == a[1..] + b;
    }
  }
}
