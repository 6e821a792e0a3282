/** Fresh names: destinations of a batch operation, and entries of an archive. */
module Naming {
  import opened Wrappers
  import opened Counting
  import opened Text
  import Decimal

  /** Everything before the last `c` and everything after it. */
  function RSplitOnce(s: string, c: char): Option<(string, string)> {
    if s == "" then None
    else if s[|s| - 1] == c then Some((s[..|s| - 1], ""))
    else match RSplitOnce(s[..|s| - 1], c)
      case None => None
      case Some((before, after)) => Some((before, after + [s[|s| - 1]]))
  }

  lemma {:induction false} RSplitOnceParts(s: string, c: char)
    ensures RSplitOnce(s, c).Some? <==> c in s
    ensures RSplitOnce(s, c).Some? ==>
              var (before, after) := RSplitOnce(s, c).value; s == before + [c] + after && c !in after
  {
    if s != "" {
      RSplitOnceParts(s[..|s| - 1], c);
      assert s == s[..|s| - 1] + [s[|s| - 1]];
    }
  }

  lemma {:induction false} RSplitOnceAt(before: string, c: char, after: string)
    requires c !in after
    ensures RSplitOnce(before + [c] + after, c) == Some((before, after))
    decreases |after|
  {
    var s := before + [c] + after;
    if after == "" {
      assert s[..|s| - 1] == before;
    } else {
      var front := after[..|after| - 1];
      RSplitOnceAt(before, c, front);
      assert s[..|s| - 1] == before + [c] + front;
      assert after == front + [after[|after| - 1]];
    }
  }

  function FileName(path: string): string {
    match RSplitOnce(path, '/')
    case None => path
    case Some((_, name)) => name
  }

  // ---- batch destinations ----

  const LAST_SUFFIX: nat := 10_000

  function SplitStemAndExt(fileName: string): (string, string) {
    match RSplitOnce(fileName, '.')
    case Some((stem, ext)) => if stem != "" then (stem, ext) else (fileName, "")
    case None => (fileName, "")
  }

  /** What a numbered name puts before and after the number. */
  function SuffixFrame(candidate: string): (string, string) {
    var (dir, fileName) := match RSplitOnce(candidate, '/')
                           case Some(parts) => parts
                           case None => ("", candidate);
    var (stem, ext) := SplitStemAndExt(fileName);
    ((if dir == "" then "" else dir + "/") + stem + " (", if ext == "" then ")" else ")." + ext)
  }

  function Numbered(candidate: string, idx: nat): string {
    var (before, after) := SuffixFrame(candidate);
    before + Decimal.Show(idx) + after
  }

  lemma SplitDotted(stem: string, ext: string)
    requires '.' !in ext
    ensures SplitStemAndExt(stem + "." + ext) == if stem != "" then (stem, ext) else (stem + "." + ext, "")
    ensures SplitStemAndExt(ext) == (ext, "")
  {
    RSplitOnceAt(stem, '.', ext);
    RSplitOnceParts(ext, '.');
  }

  /** The frame of a name in a directory, and of a name alone. */
  lemma FrameOf(dir: string, name: string)
    requires dir != "" && '/' !in name
    ensures var (stem, ext) := SplitStemAndExt(name);
            var after := if ext == "" then ")" else ")." + ext;
            && SuffixFrame(dir + "/" + name) == (dir + "/" + stem + " (", after)
            && SuffixFrame(name) == (stem + " (", after)
  {
    RSplitOnceAt(dir, '/', name);
    RSplitOnceParts(name, '/');
    hide RSplitOnce, SplitStemAndExt;
    var stem := SplitStemAndExt(name).0;
    assert "" + stem == stem;
  }

  /** The number goes between the stem and the extension, in the same directory if there is one. */
  lemma NumberedShape(dir: string, stem: string, ext: string, idx: nat)
    requires dir != "" && stem != "" && ext != "" && '/' !in stem && '/' !in ext && '.' !in ext
    ensures var name := stem + "." + ext;
            && Numbered(dir + "/" + name, idx) == dir + "/" + stem + " (" + Decimal.Show(idx) + ")." + ext
            && Numbered(name, idx) == stem + " (" + Decimal.Show(idx) + ")." + ext
  {
    SplitDotted(stem, ext);
    FrameOf(dir, stem + "." + ext);
    hide Decimal.Show, SuffixFrame, SplitStemAndExt;
  }

  /**
   * It goes after a name without an extension, as one without a dot is, and one whose only dot is its first
   * character.
   */
  lemma NumberedShapeWithout(dir: string, name: string, idx: nat)
    requires dir != "" && '/' !in name && '.' !in name
    ensures Numbered(dir + "/" + name, idx) == dir + "/" + name + " (" + Decimal.Show(idx) + ")"
    ensures Numbered(name, idx) == name + " (" + Decimal.Show(idx) + ")"
    ensures Numbered(dir + "/" + ("." + name), idx) == dir + "/" + ("." + name) + " (" + Decimal.Show(idx) + ")"
  {
    SplitDotted("", name);
    assert "" + "." + name == "." + name;
    FrameOf(dir, name);
    FrameOf(dir, "." + name);
    hide Decimal.Show, SuffixFrame, SplitStemAndExt;
  }

  lemma NumberedInjective(candidate: string, i: nat, j: nat)
    requires Numbered(candidate, i) == Numbered(candidate, j)
    ensures i == j
  {
    FramedInjective(SuffixFrame(candidate).0, SuffixFrame(candidate).1, i, j);
  }

  lemma FramedInjective(before: string, after: string, i: nat, j: nat)
    requires before + Decimal.Show(i) + after == before + Decimal.Show(j) + after
    ensures i == j
  {
    var x, y := Decimal.Show(i), Decimal.Show(j);
    var s := before + x + after;
    assert |x| == |y|;
    assert s[|before|..|before| + |x|] == x;
    assert (before + y + after)[|before|..|before| + |y|] == y;
    Decimal.ShowInjective(i, j);
  }

  /** A numbered name is longer than its candidate, even where the frame drops a slash or a dot. */
  lemma NumberedIsLonger(candidate: string, idx: nat)
    ensures |Numbered(candidate, idx)| > |candidate|
  {
    hide Decimal.Show;
    RSplitOnceParts(candidate, '/');
    var fileName := if RSplitOnce(candidate, '/').Some? then RSplitOnce(candidate, '/').value.1 else candidate;
    RSplitOnceParts(fileName, '.');
  }

  /** The first number in `idx..=LAST_SUFFIX` whose name is free, if there is one. */
  function FirstFree(candidate: string, reserved: set<string>, idx: nat): (r: Option<nat>)
    requires idx <= LAST_SUFFIX + 1
    decreases LAST_SUFFIX + 1 - idx
  {
    if idx > LAST_SUFFIX then None
    else if Numbered(candidate, idx) !in reserved then Some(idx)
    else FirstFree(candidate, reserved, idx + 1)
  }

  lemma {:induction false} FirstFreeIsLeast(candidate: string, reserved: set<string>, idx: nat)
    requires idx <= LAST_SUFFIX + 1
    ensures match FirstFree(candidate, reserved, idx)
            case None => forall i :: idx <= i <= LAST_SUFFIX ==> Numbered(candidate, i) in reserved
            case Some(k) => idx <= k <= LAST_SUFFIX && Numbered(candidate, k) !in reserved
                            && forall i :: idx <= i < k ==> Numbered(candidate, i) in reserved
    decreases LAST_SUFFIX + 1 - idx
  {
    hide Numbered;
    if idx <= LAST_SUFFIX && Numbered(candidate, idx) in reserved {
      FirstFreeIsLeast(candidate, reserved, idx + 1);
    }
  }

  /** The name one reservation hands out: it is new unless every number is taken. */
  function Reserved(candidate: string, reserved: set<string>): string {
    if candidate !in reserved then candidate
    else match FirstFree(candidate, reserved, 1)
      case Some(idx) => Numbered(candidate, idx)
      case None => candidate
  }

  method ReserveBatchDestination(candidate: string, reserved: set<string>)
    returns (name: string, reserved': set<string>)
    ensures name == Reserved(candidate, reserved) && reserved' == reserved + {name}
  {
    if candidate !in reserved {
      return candidate, reserved + {candidate};
    }
    for idx := 1 to LAST_SUFFIX + 1
      invariant FirstFree(candidate, reserved, 1) == FirstFree(candidate, reserved, idx)
    {
      var next := Numbered(candidate, idx);
      if next !in reserved {
        return next, reserved + {next};
      }
    }
    assert reserved + {candidate} == reserved;
    name, reserved' := candidate, reserved;
  }

  /** The names handed out to a batch of candidates, in order. */
  function Names(candidates: seq<string>): (names: seq<string>)
    ensures |names| == |candidates|
  {
    if candidates == [] then []
    else
      var before := Names(candidates[..|candidates| - 1]);
      before + [Reserved(candidates[|candidates| - 1], Elements(before))]
  }

  /** What the storage is asked first: a free path near the wanted one, or nothing on failure. */
  type UniquePath = string -> Option<string>

  function Candidate(src: string, dstDir: string, unique: UniquePath): string {
    var base := TrimEnd(dstDir, Only('/')) + "/" + FileName(src);
    match unique(base)
    case Some(path) => path
    case None => base
  }

  /** The last segment of a path is its name. */
  lemma NameOfPath(dir: string, name: string)
    requires '/' !in name
    ensures FileName(name) == name && FileName(dir + "/" + name) == name
  {
    RSplitOnceParts(name, '/');
    RSplitOnceAt(dir, '/', name);
  }

  predicate AllSlashes(s: string) {
    forall i :: 0 <= i < |s| ==> s[i] == '/'
  }

  /**
   * The storage is asked for the source's name directly in the target directory, whatever slashes that
   * ends in; its answer is the candidate, or that path itself when there is none.
   */
  lemma CandidateIsInTarget(src: string, target: string, slashes: string, name: string, unique: UniquePath)
    requires '/' !in name && (src == name || exists dir :: src == dir + "/" + name)
    requires (target == "" || target[|target| - 1] != '/') && AllSlashes(slashes)
    ensures var wanted := target + "/" + name;
            Candidate(src, target + slashes, unique) == if unique(wanted).Some? then unique(wanted).value else wanted
  {
    if src != name {
      var dir :| src == dir + "/" + name;
      NameOfPath(dir, name);
    } else {
      NameOfPath("", name);
    }
    TrimsSlashes(target, slashes);
  }

  lemma {:induction false} TrimsSlashes(target: string, slashes: string)
    requires (target == "" || target[|target| - 1] != '/') && AllSlashes(slashes)
    ensures TrimEnd(target + slashes, Only('/')) == target
    decreases |slashes|
  {
    if slashes == "" {
      assert target + slashes == target;
    } else {
      var fewer := slashes[..|slashes| - 1];
      TrimsSlashes(target, fewer);
      assert (target + slashes)[..|target + slashes| - 1] == target + fewer;
    }
  }

  function Candidates(srcs: seq<string>, dstDir: string, unique: UniquePath): (r: seq<string>)
    ensures |r| == |srcs|
  {
    seq(|srcs|, i requires 0 <= i < |srcs| => Candidate(srcs[i], dstDir, unique))
  }

  lemma NamesStep(candidates: seq<string>, i: nat)
    requires i < |candidates|
    ensures var before := Names(candidates[..i]);
            Names(candidates[..i + 1]) == before + [Reserved(candidates[i], Elements(before))]
  {
    assert candidates[..i + 1][..i] == candidates[..i];
  }

  method PrepareCopyLikeTargets(srcs: seq<string>, dstDir: string, unique: UniquePath)
    returns (plans: seq<(string, string)>)
    ensures |plans| == |srcs|
    ensures forall i :: 0 <= i < |srcs| ==> plans[i] == (srcs[i], Names(Candidates(srcs, dstDir, unique))[i])
  {
    hide Names, Reserved, Candidate;
    ghost var candidates := Candidates(srcs, dstDir, unique);
    var reserved: set<string> := {};
    plans := [];
    for i := 0 to |srcs|
      invariant |plans| == i && reserved == Elements(Names(candidates[..i]))
      invariant forall k :: 0 <= k < i ==> plans[k] == (srcs[k], Names(candidates[..i])[k])
    {
      var dst;
      dst, reserved := ReserveBatchDestination(Candidate(srcs[i], dstDir, unique), reserved);
      plans := plans + [(srcs[i], dst)];
      NamesStep(candidates, i);
    }
    assert candidates[..|srcs|] == candidates;
  }

  ghost function NumberedUpTo(candidate: string, last: nat): set<string> {
    if last == 0 then {} else NumberedUpTo(candidate, last - 1) + {Numbered(candidate, last)}
  }

  lemma {:induction false} NumberedUpToSize(candidate: string, last: nat)
    ensures |NumberedUpTo(candidate, last)| == last
    ensures forall i :: 1 <= i <= last ==> Numbered(candidate, i) in NumberedUpTo(candidate, last)
    ensures forall i :: i > last ==> Numbered(candidate, i) !in NumberedUpTo(candidate, last)
    ensures candidate !in NumberedUpTo(candidate, last)
  {
    hide Numbered;
    if last > 0 {
      NumberedUpToSize(candidate, last - 1);
      NumberedIsLonger(candidate, last);
      forall i | i > last
        ensures Numbered(candidate, i) != Numbered(candidate, last)
      {
        if Numbered(candidate, i) == Numbered(candidate, last) {
          NumberedInjective(candidate, i, last);
        }
      }
    }
  }

  /** With at most 10,000 names taken, a reservation is always new: a candidate has 10,001 names. */
  lemma ReservationIsFresh(candidate: string, reserved: set<string>)
    requires |reserved| <= LAST_SUFFIX
    ensures Reserved(candidate, reserved) !in reserved
  {
    hide Numbered;
    FirstFreeIsLeast(candidate, reserved, 1);
    if candidate in reserved && FirstFree(candidate, reserved, 1).None? {
      NumberedUpToSize(candidate, LAST_SUFFIX);
      NumberedUpToWithin(candidate, LAST_SUFFIX, reserved);
      SubsetSize(NumberedUpTo(candidate, LAST_SUFFIX) + {candidate}, reserved);
    }
  }

  lemma {:induction false} NumberedUpToWithin(candidate: string, last: nat, names: set<string>)
    requires forall i :: 1 <= i <= last ==> Numbered(candidate, i) in names
    ensures NumberedUpTo(candidate, last) <= names
  {
    if last > 0 {
      NumberedUpToWithin(candidate, last - 1, names);
    }
  }

  lemma {:induction false} NamesAreDistinct(candidates: seq<string>)
    requires |candidates| <= 10_001
    ensures Distinct(Names(candidates))
  {
    hide Reserved;
    if candidates != [] {
      var before := Names(candidates[..|candidates| - 1]);
      NamesAreDistinct(candidates[..|candidates| - 1]);
      DistinctSize(before);
      ReservationIsFresh(candidates[|candidates| - 1], Elements(before));
    }
  }

  function Repeat(candidate: string, count: nat): (r: seq<string>)
    ensures |r| == count && forall i :: 0 <= i < count ==> r[i] == candidate
  {
    if count == 0 then [] else Repeat(candidate, count - 1) + [candidate]
  }

  lemma RepeatStep(candidate: string, count: nat)
    requires count > 0
    ensures var before := Names(Repeat(candidate, count - 1));
            Names(Repeat(candidate, count)) == before + [Reserved(candidate, Elements(before))]
  {
    assert Repeat(candidate, count)[..count - 1] == Repeat(candidate, count - 1);
  }

  /** Once the plain name and the first numbers are taken, the next number is. */
  lemma NextNumberIsReserved(candidate: string, last: nat)
    requires last < LAST_SUFFIX
    ensures Reserved(candidate, {candidate} + NumberedUpTo(candidate, last)) == Numbered(candidate, last + 1)
  {
    hide Numbered;
    NumberedUpToSize(candidate, last);
    FirstFreeIsLeast(candidate, {candidate} + NumberedUpTo(candidate, last), 1);
    NumberedIsLonger(candidate, last + 1);
  }

  /** A batch of one repeated candidate takes the plain name, then the numbers in turn. */
  lemma {:induction false} RepeatedCandidate(candidate: string, count: nat)
    requires 1 <= count <= LAST_SUFFIX + 1
    ensures Elements(Names(Repeat(candidate, count))) == {candidate} + NumberedUpTo(candidate, count - 1)
    decreases count
  {
    hide Numbered, Names, Repeat, Reserved;
    if count == 1 {
      FirstTakesPlainName(candidate);
    } else {
      RepeatStep(candidate, count);
      RepeatedCandidate(candidate, count - 1);
      NextNumberIsReserved(candidate, count - 2);
    }
  }

  lemma FirstTakesPlainName(candidate: string)
    ensures Elements(Names(Repeat(candidate, 1))) == {candidate}
  {
    hide Numbered, FirstFree;
    assert Repeat(candidate, 1) == [candidate];
    assert Elements<string>([]) == {};
    assert Names([candidate]) == [candidate];
  }

  lemma TooManyRepeats(candidate: string, count: nat)
    requires count > LAST_SUFFIX + 1
    ensures !Distinct(Names(Repeat(candidate, count)))
    decreases count
  {
    hide Numbered, Names, Repeat;
    RepeatStep(candidate, count);
    var before, after := Names(Repeat(candidate, count - 1)), Names(Repeat(candidate, count));
    if count > LAST_SUFFIX + 2 {
      TooManyRepeats(candidate, count - 1);
      var k, l :| 0 <= k < l < |before| && before[k] == before[l];
      assert after[k] == after[l];
    } else {
      RepeatedCandidate(candidate, count - 1);
      NumberedUpToSize(candidate, LAST_SUFFIX);
      FirstFreeIsLeast(candidate, Elements(before), 1);
      assert after[count - 1] == candidate && candidate in before;
      var k :| 0 <= k < |before| && before[k] == candidate;
      assert after[k] == after[count - 1];
    }
  }

  /**
   * Destinations of a batch are pairwise distinct, whatever the sources are called and the storage
   * answers, exactly for batches of at most 10,001 paths.
   */
  lemma DistinctExactlyUpToLimit(count: nat)
    ensures (forall srcs: seq<string>, dstDir: string, unique: UniquePath :: |srcs| == count ==>
               Distinct(Names(Candidates(srcs, dstDir, unique))))
            <==> count <= 10_001
  {
    hide Names, Candidates, Distinct;
    if count <= LAST_SUFFIX + 1 {
      forall srcs: seq<string>, dstDir: string, unique: UniquePath | |srcs| == count
        ensures Distinct(Names(Candidates(srcs, dstDir, unique)))
      {
        NamesAreDistinct(Candidates(srcs, dstDir, unique));
      }
    } else {
      CopiesOfOneNameClash(count);
    }
  }

  function NoAnswer(path: string): Option<string> {
    None
  }

  lemma CopiesOfOneNameClash(count: nat)
    requires count > LAST_SUFFIX + 1
    ensures !Distinct(Names(Candidates(Repeat("a", count), "", NoAnswer)))
  {
    hide Names, Candidate, Distinct;
    var candidate := Candidate("a", "", NoAnswer);
    assert Candidates(Repeat("a", count), "", NoAnswer) == Repeat(candidate, count);
    TooManyRepeats(candidate, count);
  }

  // ---- archive entries ----

  /** A Rust collection cannot hold more elements than this. */
  const ISIZE_MAX: nat := 0x7fff_ffff_ffff_ffff

  /** The name before the number, and the extension with its dot. */
  function StemAndExtension(base: string): (string, string) {
    match RSplitOnce(base, '.')
    case Some((stem, ext)) => if stem != "" then (stem, "." + ext) else (base, "")
    case None => (base, "")
  }

  function EntryName(base: string, suffix: nat): string {
    var (stem, extension) := StemAndExtension(base);
    stem + " (" + Decimal.Show(suffix) + (")" + extension)
  }

  /** The number goes between the stem and the extension, or after a name without one. */
  lemma EntryNameShape(stem: string, ext: string, suffix: nat)
    requires stem != "" && '.' !in ext
    ensures EntryName(stem + "." + ext, suffix) == stem + " (" + Decimal.Show(suffix) + ")." + ext
    ensures '.' !in stem ==> EntryName(stem, suffix) == stem + " (" + Decimal.Show(suffix) + ")"
    ensures EntryName("." + ext, suffix) == "." + ext + " (" + Decimal.Show(suffix) + ")"
  {
    hide Decimal.Show;
    RSplitOnceAt(stem, '.', ext);
    RSplitOnceAt("", '.', ext);
    assert "" + "." + ext == "." + ext;
    RSplitOnceParts(stem, '.');
    hide RSplitOnce;
    assert ")" + ("." + ext) == ")." + ext && ")" + "" == ")";
  }

  lemma EntryNamesDiffer(base: string, i: nat, j: nat)
    ensures EntryName(base, i) != base
    ensures i != j ==> EntryName(base, i) != EntryName(base, j)
  {
    hide Decimal.Show;
    RSplitOnceParts(base, '.');
    var (stem, extension) := StemAndExtension(base);
    assert base == stem + extension;
    if EntryName(base, i) == EntryName(base, j) {
      FramedInjective(stem + " (", ")" + extension, i, j);
    }
  }

  ghost function EntryNamesBelow(base: string, suffix: nat): set<string> {
    if suffix <= 2 then {base} else EntryNamesBelow(base, suffix - 1) + {EntryName(base, suffix - 1)}
  }

  lemma {:induction false} EntryNamesBelowSize(base: string, suffix: nat)
    requires suffix >= 2
    ensures |EntryNamesBelow(base, suffix)| == suffix - 1
    ensures forall k :: k >= suffix ==> EntryName(base, k) !in EntryNamesBelow(base, suffix)
  {
    hide EntryName;
    forall k | k >= suffix
      ensures EntryName(base, k) != base && EntryName(base, k) != EntryName(base, suffix - 1)
    {
      EntryNamesDiffer(base, k, suffix - 1);
    }
    if suffix > 2 {
      EntryNamesBelowSize(base, suffix - 1);
    }
  }

  /**
   * Returns a name that was not in `seen`: the wanted one, or the one with the least free number
   * from 2 on. The loop ends because the names it has passed over are distinct members of `seen`.
   */
  method UniqueArchiveEntryName(base: string, seen: set<string>) returns (name: string, seen': set<string>)
    requires |seen| <= ISIZE_MAX
    ensures name !in seen && seen' == seen + {name}
    ensures base !in seen ==> name == base
    ensures base in seen ==> exists k :: 2 <= k <= |seen| + 1 && name == EntryName(base, k)
                                         && forall i :: 2 <= i < k ==> EntryName(base, i) in seen
  {
    hide EntryName;
    if base !in seen {
      return base, seen + {base};
    }
    var suffix := 2;
    while true
      invariant 2 <= suffix <= |seen| + 1
      invariant EntryNamesBelow(base, suffix) <= seen
      invariant forall i :: 2 <= i < suffix ==> EntryName(base, i) in seen
      decreases |seen| + 1 - suffix
    {
      var candidate := EntryName(base, suffix);
      if candidate !in seen {
        return candidate, seen + {candidate};
      }
      EntryNamesBelowSize(base, suffix + 1);
      SubsetSize(EntryNamesBelow(base, suffix + 1), seen);
      suffix := if suffix == 0xffff_ffff_ffff_ffff then suffix else suffix + 1;
    }
  }
}
