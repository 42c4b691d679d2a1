/** What the direct meaning of a glob says about paths and their segments. */
module GlobLaws {
  import opened Glob
  import opened SplitText

  // ----- a path filter

  function ToLower(c: char): char {
    if 'A' <= c <= 'Z' then (c as int + 32) as char else c
  }

  function LowerCase(s: string): (r: string)
    ensures |r| == |s|
  {
    seq(|s|, i requires 0 <= i < |s| => ToLower(s[i]))
  }

  predicate EndsWith(s: string, suffix: string) {
    |suffix| <= |s| && s[|s| - |suffix|..] == suffix
  }

  /** `/\.(?:md|mdx)$/i` */
  predicate IsMarkdownPath(path: string) {
    EndsWith(LowerCase(path), ".md") || EndsWith(LowerCase(path), ".mdx")
  }

  ghost predicate IsIncluded(path: string, included: seq<string>, excluded: seq<string>) {
    && IsMarkdownPath(path)
    && (exists pattern | pattern in included :: PathGlobMatches(pattern, path))
    && !exists pattern | pattern in excluded :: PathGlobMatches(pattern, path)
  }

  /** `.md` or `.mdx`, with each letter in either case. */
  predicate IsMarkdownExtension(s: string) {
    && 3 <= |s| <= 4
    && s[0] == '.' && s[1] in "mM" && s[2] in "dD"
    && (|s| == 4 ==> s[3] in "xX")
  }

  predicate HasMarkdownExtension(path: string) {
    exists i | 0 <= i <= |path| :: IsMarkdownExtension(path[i..])
  }

  lemma SuffixInLowerCase(path: string, n: nat)
    requires n <= |path|
    ensures LowerCase(path)[|path| - n..] == LowerCase(path[|path| - n..])
  {
  }

  lemma ExtensionsInLowerCase(s: string)
    ensures LowerCase(s) == ".md" || LowerCase(s) == ".mdx" <==> IsMarkdownExtension(s)
  {
    var lower := LowerCase(s);
    assert |s| > 0 ==> lower[0] == ToLower(s[0]);
    assert |s| > 1 ==> lower[1] == ToLower(s[1]);
    assert |s| > 2 ==> lower[2] == ToLower(s[2]);
    assert |s| > 3 ==> lower[3] == ToLower(s[3]);
  }

  lemma MarkdownPathMeaning(path: string)
    ensures IsMarkdownPath(path) <==> HasMarkdownExtension(path)
  {
    hide LowerCase, IsMarkdownExtension;
    var n := |path|;
    if IsMarkdownPath(path) {
      var k := if EndsWith(LowerCase(path), ".md") then 3 else 4;
      SuffixInLowerCase(path, k);
      ExtensionsInLowerCase(path[n - k..]);
    }
    if i :| 0 <= i <= n && IsMarkdownExtension(path[i..]) {
      SuffixInLowerCase(path, n - i);
      ExtensionsInLowerCase(path[i..]);
    }
  }

  /**
   * A path is included exactly when it ends in a Markdown extension and the direct meaning of some glob that includes,
   * and of none that excludes, accepts it.
   */
  lemma InclusionMeaning(path: string, included: seq<string>, excluded: seq<string>)
    ensures IsIncluded(path, included, excluded) <==>
      && HasMarkdownExtension(path)
      && (exists pattern | pattern in included :: GlobMatches(pattern, path))
      && forall pattern | pattern in excluded :: !GlobMatches(pattern, path)
  {
    hide GlobMatches, PathGlobMatches, IsMarkdownPath, HasMarkdownExtension;
    MarkdownPathMeaning(path);
    forall pattern: string
      ensures PathGlobMatches(pattern, path) <==> GlobMatches(pattern, path)
    {
      CompiledGlobMeaning(pattern, path);
    }
  }

  // ----- literal characters

  /** A pattern without wildcards matches itself and nothing else, whatever characters it is made of. */
  lemma {:induction false} LiteralGlob(pattern: string, path: string)
    requires '*' !in pattern && '?' !in pattern
    ensures PathGlobMatches(pattern, path) <==> path == pattern
  {
    CompiledGlobMeaning(pattern, path);
    LiteralMeaning(pattern, path);
    hide GlobMatches, PathGlobMatches;
  }

  lemma {:induction false} LiteralMeaning(pattern: string, path: string)
    requires '*' !in pattern && '?' !in pattern
    ensures GlobMatches(pattern, path) <==> path == pattern
  {
    if pattern != [] {
      assert pattern[0] in pattern;
      assert forall c | c in pattern[1..] :: c in pattern;
      assert pattern == [pattern[0]] + pattern[1..];
      if path != [] {
        LiteralMeaning(pattern[1..], path[1..]);
        assert path == [path[0]] + path[1..];
      }
    }
  }

  // ----- segments

  /** The text split at every slash; never empty. */
  function Segments(s: string): (r: seq<string>)
    ensures |r| > 0
  {
    Split(s, '/')
  }

  predicate HasDoubleStar(pattern: string) {
    exists i | 0 <= i < |pattern| - 1 :: pattern[i] == '*' && pattern[i + 1] == '*'
  }

  lemma SegmentsOfJoined(left: string, right: string)
    requires '/' !in left
    ensures Segments(left + "/" + right) == [left] + Segments(right)
  {
    SplitOfJoined(left, '/', right);
  }

  lemma SegmentsWithoutSlash(s: string)
    requires '/' !in s
    ensures Segments(s) == [s]
  {
    SplitWithout(s, '/');
  }

  function FirstSlash(s: string): (i: nat)
    requires '/' in s
    ensures i < |s| && s[i] == '/' && '/' !in s[..i]
  {
    if s[0] == '/' then 0 else
      assert s == [s[0]] + s[1..];
      var i := FirstSlash(s[1..]);
      assert s[..i + 1] == [s[0]] + s[1..][..i];
      i + 1
  }

  lemma TailOfPattern(pattern: string)
    requires pattern != []
    ensures !HasDoubleStar(pattern) ==> !HasDoubleStar(pattern[1..]) && !("**" <= pattern)
    ensures '/' !in pattern ==> '/' !in pattern[1..]
  {
    if i :| 0 <= i < |pattern[1..]| - 1 && pattern[1..][i] == '*' && pattern[1..][i + 1] == '*' {
      assert pattern[i + 1] == '*' && pattern[i + 2] == '*';
    }
    if "**" <= pattern {
      assert pattern[0] == '*' && pattern[0 + 1] == '*';
    }
  }

  lemma PartsOfPattern(left: string, right: string)
    ensures !HasDoubleStar(left + "/" + right) ==> !HasDoubleStar(left) && !HasDoubleStar(right)
  {
    var pattern := left + "/" + right;
    if i :| 0 <= i < |left| - 1 && left[i] == '*' && left[i + 1] == '*' {
      assert pattern[i] == '*' && pattern[i + 1] == '*';
    }
    if i :| 0 <= i < |right| - 1 && right[i] == '*' && right[i + 1] == '*' {
      var k := |left| + 1 + i;
      assert pattern[k] == '*' && pattern[k + 1] == '*';
    }
  }

  /** The first character of the pattern takes `path[..k]` and the rest of the pattern the rest of the path. */
  ghost predicate TakesAt(pattern: string, path: string, k: nat)
    requires pattern != []
  {
    && k <= |path|
    && (if pattern[0] == '*' then InOneSegment(path[..k])
        else k == 1 && if pattern[0] == '?' then path[0] != '/' else path[0] == pattern[0])
    && GlobMatches(pattern[1..], path[k..])
  }

  lemma FirstCharacterTakes(pattern: string, path: string)
    requires pattern != [] && !("**" <= pattern)
    ensures GlobMatches(pattern, path) <==> exists k: nat :: TakesAt(pattern, path, k)
  {
    if GlobMatches(pattern, path) {
      if pattern[0] == '*' {
        var k :| 0 <= k <= |path| && InOneSegment(path[..k]) && GlobMatches(pattern[1..], path[k..]);
        assert TakesAt(pattern, path, k);
      } else {
        assert TakesAt(pattern, path, 1);
      }
    }
  }

  /** One segment of a pattern never matches across a slash. */
  lemma {:induction false} SegmentPatternStaysInside(pattern: string, path: string)
    requires !HasDoubleStar(pattern) && '/' !in pattern
    requires GlobMatches(pattern, path)
    ensures '/' !in path
    decreases |pattern|
  {
    if pattern != [] {
      hide GlobMatches, HasDoubleStar;
      TailOfPattern(pattern);
      FirstCharacterTakes(pattern, path);
      var k: nat :| TakesAt(pattern, path, k);
      SegmentPatternStaysInside(pattern[1..], path[k..]);
      assert path == path[..k] + path[k..];
      assert pattern[0] in pattern;
    }
  }

  /** A way to cut a path at a slash so that `left` matches before it and `right` after it. */
  ghost predicate CutAt(left: string, right: string, path: string, i: nat) {
    i < |path| && path[i] == '/' && GlobMatches(left, path[..i]) && GlobMatches(right, path[i + 1..])
  }

  lemma {:induction false} JoinedPatternCuts(left: string, right: string, path: string)
    requires '/' !in left && !HasDoubleStar(left + "/" + right)
    ensures GlobMatches(left + "/" + right, path) <==> exists i: nat :: CutAt(left, right, path, i)
    decreases |left|
  {
    hide GlobMatches, HasDoubleStar, CutAt;
    if left == [] {
      EmptyLeftCuts(left, right, path);
    } else {
      var pattern := left + "/" + right;
      TailOfPattern(pattern);
      var tail := left[1..];
      assert pattern[1..] == tail + "/" + right;
      assert forall c | c in tail :: c in left;
      PartsOfPattern(left, right);
      TailOfPattern(left);
      FirstCharacterTakes(pattern, path);
      if GlobMatches(pattern, path) {
        var k: nat :| TakesAt(pattern, path, k);
        JoinedPatternCuts(tail, right, path[k..]);
        var i: nat :| CutAt(tail, right, path[k..], i);
        CutLater(left, right, path, k, i);
      }
      if i: nat :| CutAt(left, right, path, i) {
        var k := CutEarlier(left, right, path, i);
        JoinedPatternCuts(tail, right, path[k..]);
        assert TakesAt(pattern, path, k);
      }
    }
  }

  lemma EmptyLeftCuts(left: string, right: string, path: string)
    requires left == []
    ensures GlobMatches(left + "/" + right, path) <==> exists i: nat :: CutAt(left, right, path, i)
  {
    var pattern := left + "/" + right;
    assert pattern[0] == '/' && pattern[1..] == right && !("**" <= pattern);
    if GlobMatches(pattern, path) {
      assert path[..0] == left;
      assert CutAt(left, right, path, 0);
    }
  }

  lemma CutEarlier(left: string, right: string, path: string, i: nat) returns (k: nat)
    requires left != [] && !("**" <= left) && CutAt(left, right, path, i)
    ensures k <= i <= |path| && CutAt(left[1..], right, path[k..], i - k)
    ensures GlobMatches((left + "/" + right)[1..], path[k..]) ==> TakesAt(left + "/" + right, path, k)
  {
    hide GlobMatches;
    FirstCharacterTakes(left, path[..i]);
    k :| TakesAt(left, path[..i], k);
    assert path[k..][..i - k] == path[..i][k..] && path[k..][i - k + 1..] == path[i + 1..];
    assert path[..i][..k] == path[..k];
  }

  lemma CutLater(left: string, right: string, path: string, k: nat, i: nat)
    requires left != [] && !("**" <= left)
    requires TakesAt(left + "/" + right, path, k)
    requires CutAt(left[1..], right, path[k..], i)
    ensures CutAt(left, right, path, k + i)
  {
    hide GlobMatches;
    var before := path[..k + i];
    assert before[..k] == path[..k] && before[k..] == path[k..][..i];
    assert path[k..][i + 1..] == path[k + i + 1..];
    assert TakesAt(left, before, k);
    FirstCharacterTakes(left, before);
  }

  /** Each segment of the pattern matches the segment of the path at the same place. */
  ghost predicate SegmentwiseMatches(patterns: seq<string>, segments: seq<string>) {
    && |patterns| == |segments|
    && forall i | 0 <= i < |patterns| :: GlobMatches(patterns[i], segments[i])
  }

  lemma SegmentwiseCons(pattern: string, patterns: seq<string>, segment: string, segments: seq<string>)
    ensures SegmentwiseMatches([pattern] + patterns, [segment] + segments)
       <==> GlobMatches(pattern, segment) && SegmentwiseMatches(patterns, segments)
  {
    hide GlobMatches;
    var all, them := [pattern] + patterns, [segment] + segments;
    if SegmentwiseMatches(all, them) {
      assert GlobMatches(all[0], them[0]);
      assert forall i | 0 <= i < |patterns| :: patterns[i] == all[i + 1] && segments[i] == them[i + 1];
    }
  }

  lemma CutPath(path: string, i: nat)
    requires i < |path| && path[i] == '/' && '/' !in path[..i]
    ensures Segments(path) == [path[..i]] + Segments(path[i + 1..])
  {
    hide Segments;
    assert path == path[..i] + "/" + path[i + 1..];
    SegmentsOfJoined(path[..i], path[i + 1..]);
  }

  /**
   * `*` and `?` stay inside one segment: a pattern without `**` matches a path exactly when both have the
   * same number of segments and match segment by segment.
   */
  lemma {:induction false} GlobIsSegmentwise(pattern: string, path: string)
    requires !HasDoubleStar(pattern)
    ensures GlobMatches(pattern, path) <==> SegmentwiseMatches(Segments(pattern), Segments(path))
    decreases |pattern|
  {
    hide GlobMatches, HasDoubleStar, Segments, SegmentwiseMatches;
    if '/' in pattern {
      var cut := FirstSlash(pattern);
      var left, right := pattern[..cut], pattern[cut + 1..];
      assert pattern == left + "/" + right;
      SegmentsOfJoined(left, right);
      PartsOfPattern(left, right);
      JoinedPatternCuts(left, right, path);
      if i: nat :| CutAt(left, right, path, i) {
        SegmentPatternStaysInside(left, path[..i]);
        CutPath(path, i);
        GlobIsSegmentwise(right, path[i + 1..]);
        SegmentwiseCons(left, Segments(right), path[..i], Segments(path[i + 1..]));
      }
      if SegmentwiseMatches(Segments(pattern), Segments(path)) {
        SegmentwiseHasSlash([left] + Segments(right), path);
        var i := FirstSlash(path);
        CutPath(path, i);
        SegmentwiseCons(left, Segments(right), path[..i], Segments(path[i + 1..]));
        GlobIsSegmentwise(right, path[i + 1..]);
        assert CutAt(left, right, path, i);
      }
    } else {
      SegmentsWithoutSlash(pattern);
      if GlobMatches(pattern, path) {
        SegmentPatternStaysInside(pattern, path);
      }
      if '/' in path {
        SegmentwiseLength([pattern], path);
      } else {
        SegmentsWithoutSlash(path);
        SegmentwiseCons(pattern, [], path, []);
        assert [pattern] + [] == [pattern] && [path] + [] == [path];
        assert SegmentwiseMatches([], []) by { NoSegments(); }
      }
    }
  }

  lemma NoSegments()
    ensures SegmentwiseMatches([], [])
  {
  }

  lemma SegmentwiseHasSlash(patterns: seq<string>, path: string)
    requires SegmentwiseMatches(patterns, Segments(path)) && |patterns| > 1
    ensures '/' in path
  {
    hide Segments, GlobMatches;
    if '/' !in path {
      SegmentsWithoutSlash(path);
    }
  }

  lemma SegmentwiseLength(patterns: seq<string>, path: string)
    requires '/' in path && |patterns| == 1
    ensures !SegmentwiseMatches(patterns, Segments(path))
  {
    hide Segments, GlobMatches;
    CutPath(path, FirstSlash(path));
  }

  // ----- the default filter

  /** The directories of a path, with their slashes. */
  function DirectoryPart(path: string): (d: string)
    ensures d <= path
    ensures d == [] || d[|d| - 1] == '/'
    ensures '/' !in path[|d|..]
  {
    if path == [] then [] else
    var last := |path| - 1;
    if path[last] == '/' then path else
      var d := DirectoryPart(path[..last]);
      assert path[|d|..] == path[..last][|d|..] + [path[last]];
      d
  }

  lemma SuffixMeaning(path: string)
    ensures GlobMatches(".md", path) <==> path == ".md"
  {
    LiteralMeaning(".md", path);
  }

  lemma FileNameMeaning(path: string)
    ensures GlobMatches("*.md", path) <==> EndsWith(path, ".md") && '/' !in path
  {
    hide GlobMatches;
    assert "*.md"[1] == '.';
    FirstCharacterTakes("*.md", path);
    assert "*.md"[1..] == ".md";
    if k: nat :| TakesAt("*.md", path, k) {
      SuffixMeaning(path[k..]);
      assert path == path[..k] + ".md";
    }
    if EndsWith(path, ".md") && '/' !in path {
      var k := |path| - 3;
      SuffixMeaning(path[k..]);
      assert TakesAt("*.md", path, k);
    }
  }

  lemma MarkdownPathSplits(path: string)
    requires EndsWith(path, ".md") && OneLine(DirectoryPart(path))
    ensures var d := |DirectoryPart(path)|;
      d <= |path| && DirectoryRun(path, d) && EndsWith(path[d..], ".md") && '/' !in path[d..]
  {
    var d, suffix := |DirectoryPart(path)|, path[|path| - 3..];
    assert suffix == ".md" && d <= |path| && path[..d] == DirectoryPart(path);
    hide DirectoryPart, OneLine;
    forall k | |path| - 3 <= k < |path| ensures path[k] != '/' {
      assert path[k] == suffix[k - (|path| - 3)];
    }
    assert d <= |path| - 3 by {
      assert d > 0 ==> path[d - 1] == path[..d][d - 1] == '/';
    }
    assert path[d..][|path[d..]| - 3..] == suffix;
  }

  lemma MarkdownSplitIsPath(path: string, i: nat)
    requires DirectoryRun(path, i) && EndsWith(path[i..], ".md") && '/' !in path[i..]
    ensures EndsWith(path, ".md") && OneLine(DirectoryPart(path))
  {
    var d := |DirectoryPart(path)|;
    assert path[|path| - 3..] == path[i..][|path[i..]| - 3..];
    assert forall k | i <= k < |path| :: path[k] == path[i..][k - i] != '/';
    assert DirectoryPart(path) == path[..i][..d];
  }

  /**
   * The default filter for Markdown files matches exactly the paths that end in `.md` and whose directory part has no
   * line terminator: the file name itself may contain one, because only `.` excludes them.
   */
  lemma MarkdownFilterMeaning(path: string)
    ensures PathGlobMatches("**/*.md", path) <==> EndsWith(path, ".md") && OneLine(DirectoryPart(path))
  {
    hide PathGlobMatches, GlobMatches, DirectoryRun, EndsWith, OneLine;
    CompiledGlobMeaning("**/*.md", path);
    DirectoriesThenFile(path);
    if PathGlobMatches("**/*.md", path) {
      var i: nat :| i <= |path| && DirectoryRun(path, i) && GlobMatches("*.md", path[i..]);
      FileNameMeaning(path[i..]);
      MarkdownSplitIsPath(path, i);
    }
    if EndsWith(path, ".md") && OneLine(DirectoryPart(path)) {
      var d := |DirectoryPart(path)|;
      MarkdownPathSplits(path);
      FileNameMeaning(path[d..]);
      assert d <= |path| && DirectoryRun(path, d) && GlobMatches("*.md", path[d..]);
    }
  }

  ghost predicate DirectoryRun(path: string, i: nat) {
    i <= |path| && (i == 0 || path[i - 1] == '/') && OneLine(path[..i])
  }

  lemma DirectoriesThenFile(path: string)
    ensures GlobMatches("**/*.md", path)
       <==> exists i: nat :: i <= |path| && DirectoryRun(path, i) && GlobMatches("*.md", path[i..])
  {
    assert "**/*.md"[3..] == "*.md";
    assert path[0..] == path;
    if GlobMatches("**/*.md", path) {
      if GlobMatches("*.md", path) {
        assert DirectoryRun(path, 0);
      } else {
        var i :| 0 < i <= |path| && path[i - 1] == '/' && OneLine(path[..i]) && GlobMatches("*.md", path[i..]);
        assert DirectoryRun(path, i);
      }
    }
    hide GlobMatches;
  }

  /** A file name with a line terminator passes the default filter. */
  lemma FileNameMayHaveLineTerminator()
    ensures PathGlobMatches("**/*.md", "a\nb.md")
    ensures !PathGlobMatches("**/*.md", "a\n/b.md")
  {
    MarkdownFilterMeaning("a\nb.md");
    MarkdownFilterMeaning("a\n/b.md");
    hide PathGlobMatches;
    assert "a\nb.md"[3..] == "b.md"[1..];
    assert DirectoryPart("a\n/b.md")[1] == '\n' by {
      assert "a\n/b.md"[2] == '/';
    }
  }
}
