/** The two text operations of SQL the file index relies on: LIKE patterns and REPLACE. */
module SqlText {

  /** How a database compares letters in a pattern: as they are, or with ASCII case ignored. */
  datatype Collation = CaseSensitive | IgnoresAsciiCase

  predicate IsAsciiLetter(c: char) {
    'A' <= c <= 'Z' || 'a' <= c <= 'z'
  }

  /** The letter in the other case. */
  function OtherCase(c: char): char {
    if 'A' <= c <= 'Z' then c - 'A' + 'a'
    else if 'a' <= c <= 'z' then c - 'a' + 'A'
    else c
  }

  predicate SameChar(collation: Collation, a: char, b: char) {
    a == b || (collation.IgnoresAsciiCase? && a == OtherCase(b))
  }

  /**
   * `%` matches any text and `_` any one character; every other character matches what the collation equates
   * with it.
   */
  predicate Like(collation: Collation, pattern: string, s: string)
    decreases |pattern| + |s|
  {
    if pattern == "" then s == ""
    else if pattern[0] == '%' then Like(collation, pattern[1..], s) || (s != "" && Like(collation, pattern, s[1..]))
    else
      && s != "" && (pattern[0] == '_' || SameChar(collation, pattern[0], s[0]))
      && Like(collation, pattern[1..], s[1..])
  }

  /** The character matches nothing but itself. */
  predicate MatchesOnlyItself(collation: Collation, c: char) {
    c != '%' && c != '_' && (collation.IgnoresAsciiCase? ==> !IsAsciiLetter(c))
  }

  /** The text has no wildcard, and no letter if case is ignored. */
  predicate Plain(collation: Collation, s: string) {
    forall i :: 0 <= i < |s| ==> MatchesOnlyItself(collation, s[i])
  }

  lemma {:induction false} PercentMatchesAll(collation: Collation, s: string)
    ensures Like(collation, "%", s)
  {
    if s != "" {
      PercentMatchesAll(collation, s[1..]);
    }
  }

  lemma {:induction false} LikeLiteral(collation: Collation, prefix: string, s: string)
    requires Plain(collation, prefix)
    ensures Like(collation, prefix + "%", s) <==> prefix <= s
  {
    PercentMatchesAll(collation, s);
    if prefix == "" {
      assert prefix + "%" == "%";
    } else {
      assert MatchesOnlyItself(collation, prefix[0]);
      assert (prefix + "%")[1..] == prefix[1..] + "%";
      if s != "" {
        LikeLiteral(collation, prefix[1..], s[1..]);
        assert prefix == [prefix[0]] + prefix[1..] && s == [s[0]] + s[1..];
      }
    }
  }

  /** Any text matches itself as a pattern. */
  lemma {:induction false} SameTextMatches(collation: Collation, text: string, pattern: string, s: string)
    requires Like(collation, pattern, s)
    ensures Like(collation, text + pattern, text + s)
  {
    if text == "" {
      assert text + pattern == pattern && text + s == s;
    } else {
      SameTextMatches(collation, text[1..], pattern, s);
      assert (text + pattern)[1..] == text[1..] + pattern && (text + s)[1..] == text[1..] + s;
    }
  }

  /** On this text the pattern "prefix, then anything" is the prefix test. */
  predicate TestsPrefix(collation: Collation, prefix: string, s: string) {
    Like(collation, prefix + "%", s) <==> prefix <= s
  }

  /** What has the prefix always matches; a pattern can only err by matching more. */
  lemma PrefixMatches(collation: Collation, prefix: string, s: string)
    requires prefix <= s
    ensures Like(collation, prefix + "%", s)
  {
    var rest := s[|prefix|..];
    PercentMatchesAll(collation, rest);
    SameTextMatches(collation, prefix, "%", rest);
    assert prefix + rest == s;
  }

  /** Another text that the pattern takes for the one with the prefix: it differs from it in one character. */
  lemma TakenForPrefix(collation: Collation, prefix: string, i: nat) returns (s: string)
    requires i < |prefix| && !MatchesOnlyItself(collation, prefix[i])
    ensures !(prefix <= s) && Like(collation, prefix + "%", s)
  {
    var before, c, after := prefix[..i], prefix[i], prefix[i + 1..];
    var other := if c == '%' || c == '_' then 'a' else OtherCase(c);
    s := before + ([other] + after);
    assert prefix == before + ([c] + after) && other != c;
    var pattern := [c] + (after + "%");
    MatchesAfter(collation, after);
    assert pattern[1..] == after + "%" && ([other] + after)[1..] == after;
    assert Like(collation, pattern, after) || c != '%';
    assert Like(collation, pattern, [other] + after);
    SameTextMatches(collation, before, pattern, [other] + after);
    assert prefix + "%" == before + pattern;
    assert s[i] == other;
  }

  lemma MatchesAfter(collation: Collation, text: string)
    ensures Like(collation, text + "%", text)
  {
    PrefixMatches(collation, text, text);
  }

  /** The pattern "prefix, then anything" is the prefix test for all texts exactly when the prefix is plain. */
  lemma LikeIsPrefixExactly(collation: Collation, prefix: string)
    ensures Plain(collation, prefix) <==> forall s :: TestsPrefix(collation, prefix, s)
  {
    if Plain(collation, prefix) {
      forall s
        ensures TestsPrefix(collation, prefix, s)
      {
        LikeLiteral(collation, prefix, s);
      }
    } else {
      var i :| 0 <= i < |prefix| && !MatchesOnlyItself(collation, prefix[i]);
      var s := TakenForPrefix(collation, prefix, i);
      assert !TestsPrefix(collation, prefix, s);
    }
  }

  function Slashes(s: string): nat {
    if s == "" then 0 else (if s[0] == '/' then 1 else 0) + Slashes(s[1..])
  }

  lemma {:induction false} LikeNeedsSlashes(collation: Collation, pattern: string, s: string)
    requires Like(collation, pattern, s)
    ensures Slashes(pattern) <= Slashes(s)
    decreases |pattern| + |s|
  {
    if pattern != "" {
      if pattern[0] == '%' {
        if Like(collation, pattern[1..], s) {
          LikeNeedsSlashes(collation, pattern[1..], s);
        } else {
          LikeNeedsSlashes(collation, pattern, s[1..]);
        }
      } else {
        LikeNeedsSlashes(collation, pattern[1..], s[1..]);
      }
    }
  }

  lemma {:induction false} SlashesConcat(a: string, b: string)
    ensures Slashes(a + b) == Slashes(a) + Slashes(b)
  {
    if a == "" {
      assert a + b == b;
    } else {
      SlashesConcat(a[1..], b);
      assert (a + b)[1..] == a[1..] + b;
    }
  }

  /** A path is not among its own children, wildcards or not. */
  lemma NotBelowItself(collation: Collation, path: string)
    ensures !Like(collation, path + "/%", path)
  {
    SlashesConcat(path, "/%");
    assert "/%"[1..] == "%" && "%"[1..] == "";
    assert Slashes("/%") == 1;
    if Like(collation, path + "/%", path) {
      LikeNeedsSlashes(collation, path + "/%", path);
    }
  }

  // ---- REPLACE ----

  /** All occurrences of `from`, left to right and not overlapping, become `to`. */
  function Replace(s: string, from: string, to: string): string
    decreases |s|
  {
    if from == "" || s == "" then s
    else if from <= s then to + Replace(s[|from|..], from, to)
    else [s[0]] + Replace(s[1..], from, to)
  }

  predicate Occurs(text: string, s: string) {
    text <= s || (s != "" && Occurs(text, s[1..]))
  }

  /** Replacing leaves a text as it is exactly when there is nothing to replace, or nothing changes. */
  lemma {:induction false} ReplaceIsIdentityExactly(s: string, from: string, to: string)
    requires from != ""
    ensures Replace(s, from, to) == s <==> from == to || !Occurs(from, s)
    decreases |s|
  {
    if s != "" {
      if from <= s {
        var tail := s[|from|..];
        assert s == from + tail;
        if from == to {
          ReplaceIsIdentityExactly(tail, from, to);
        } else {
          ReplaceMovesOn(tail, from, to);
          if Replace(s, from, to) == s {
            SameConcat(to, Replace(tail, from, to), from, tail, from);
          }
        }
      } else {
        ReplaceIsIdentityExactly(s[1..], from, to);
        assert s == [s[0]] + s[1..];
      }
    }
  }

  /** Replacing makes a text shorter, longer or neither, as the replacement is. */
  lemma {:induction false} ReplaceMovesOn(s: string, from: string, to: string)
    requires from != ""
    ensures |to| <= |from| ==> |Replace(s, from, to)| <= |s|
    ensures |to| >= |from| ==> |Replace(s, from, to)| >= |s|
    decreases |s|
  {
    if s != "" {
      if from <= s {
        ReplaceMovesOn(s[|from|..], from, to);
      } else {
        ReplaceMovesOn(s[1..], from, to);
      }
    }
  }

  /** What occurs in a text is no longer than it, and as long only if it is the text. */
  lemma {:induction false} OccursIsShorter(text: string, s: string)
    requires Occurs(text, s)
    ensures |text| <= |s| && (|text| == |s| ==> text == s)
    decreases |s|
  {
    if !(text <= s) {
      OccursIsShorter(text, s[1..]);
    }
  }

  /** Replacing what occurs by something longer makes a text longer. */
  lemma {:induction false} ReplaceGrows(s: string, from: string, to: string)
    requires from != "" && Occurs(from, s) && |to| > |from|
    ensures |Replace(s, from, to)| > |s|
    decreases |s|
  {
    if from <= s {
      ReplaceMovesOn(s[|from|..], from, to);
    } else {
      ReplaceGrows(s[1..], from, to);
    }
  }

  lemma SameConcat(a: string, b: string, c: string, d: string, from: string)
    requires a + b == c + d && from == c
    requires |a| <= |c| ==> |b| <= |d|
    requires |a| >= |c| ==> |b| >= |d|
    ensures a == c
  {
    assert |a| + |b| == |c| + |d|;
    assert (a + b)[..|a|] == a && (c + d)[..|c|] == c;
  }

  /** A text that occurs nowhere in a text occurs nowhere in a prefix of it. */
  lemma {:induction false} OccursInPrefix(text: string, prefix: string, s: string)
    requires prefix <= s && Occurs(text, prefix)
    ensures Occurs(text, s)
    decreases |prefix|
  {
    if !(text <= prefix) {
      OccursInPrefix(text, prefix[1..], s[1..]);
    }
  }
}
