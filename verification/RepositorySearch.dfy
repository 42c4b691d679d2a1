/** Searching the files of a repository, and reading ranges of their lines. */
module RepositorySearch {
  import opened JsNumbers
  import opened RepositoryPaths
  import opened RepositoryWalk
  import opened Selections
  import opened KeyedLists
  import opened SplitText
  import opened Substrings
  import opened Utf8
  import opened Wrappers

  // ----- lines

  /** `split(/\r\n|\r|\n/)`; never empty. */
  function Lines(text: string): (r: seq<string>)
    ensures |r| > 0
    decreases |text|
  {
    if text == [] then [[]]
    else if "\r\n" <= text then [[]] + Lines(text[2..])
    else if text[0] == '\r' || text[0] == '\n' then [[]] + Lines(text[1..])
    else
      var rest := Lines(text[1..]);
      [[text[0]] + rest[0]] + rest[1..]
  }

  lemma {:induction false} LinesAreLines(text: string)
    ensures forall i | 0 <= i < |Lines(text)| :: '\r' !in Lines(text)[i] && '\n' !in Lines(text)[i]
    decreases |text|
  {
    if text != [] {
      if "\r\n" <= text {
        LinesAreLines(text[2..]);
      } else {
        LinesAreLines(text[1..]);
      }
    }
  }

  /** Lines joined by line feeds are read back as they were. */
  lemma {:induction false} LinesOfJoin(lines: seq<string>)
    requires lines != [] && forall i | 0 <= i < |lines| :: '\r' !in lines[i] && '\n' !in lines[i]
    ensures Lines(Join(lines, '\n')) == lines
  {
    LineThen(lines[0], if |lines| == 1 then None else Some(Join(lines[1..], '\n')));
    if |lines| == 1 {
      assert lines == [lines[0]];
    } else {
      LinesOfJoin(lines[1..]);
      assert lines == [lines[0]] + lines[1..];
    }
  }

  lemma {:induction false} LineThen(line: string, rest: Option<string>)
    requires '\r' !in line && '\n' !in line
    ensures rest.None? ==> Lines(line) == [line]
    ensures rest.Some? ==> Lines(line + ['\n'] + rest.value) == [line] + Lines(rest.value)
  {
    if line == [] {
      if rest.Some? {
        assert ([] + ['\n'] + rest.value)[1..] == rest.value;
      }
    } else {
      LineThen(line[1..], rest);
      assert line == [line[0]] + line[1..];
      if rest.Some? {
        var text := line + ['\n'] + rest.value;
        assert text[0] == line[0] && text[1..] == line[1..] + ['\n'] + rest.value;
      }
    }
  }

  // ----- any line terminators

  predicate IsTerminator(s: string) {
    s == "\r\n" || s == "\r" || s == "\n"
  }

  predicate AreLines(lines: seq<string>) {
    forall i | 0 <= i < |lines| :: '\r' !in lines[i] && '\n' !in lines[i]
  }

  predicate AreTerminators(ends: seq<string>) {
    forall i | 0 <= i < |ends| :: IsTerminator(ends[i])
  }

  /** Lines with a terminator between each two of them. */
  function Terminated(lines: seq<string>, ends: seq<string>): string
    requires |lines| == |ends| + 1
  {
    if ends == [] then lines[0] else lines[0] + ends[0] + Terminated(lines[1..], ends[1..])
  }

  /** A lone carriage return, an empty line and a lone line feed: as a text they are one terminator. */
  predicate LooksLikeOne(lines: seq<string>, ends: seq<string>, i: nat)
    requires |lines| == |ends| + 1 && i + 1 < |ends|
  {
    ends[i] == "\r" && lines[i + 1] == [] && ends[i + 1] == "\n"
  }

  /**
   * A text splits into exactly the lines that were joined, whatever mix of terminators joined them, unless two of the
   * terminators look like one; then there are fewer lines.
   */
  lemma {:induction false} LinesOfText(lines: seq<string>, ends: seq<string>)
    requires |lines| == |ends| + 1 && AreLines(lines) && AreTerminators(ends)
    ensures Lines(Terminated(lines, ends)) == lines
      <==> !exists i: nat | i + 1 < |ends| :: LooksLikeOne(lines, ends, i)
    ensures |Lines(Terminated(lines, ends))| <= |lines|
    decreases |lines|
  {
    if ends == [] {
      LineThen(lines[0], None);
      assert lines == [lines[0]];
    } else {
      LaterLooks(lines, ends);
      LinesOfText(lines[1..], ends[1..]);
      if |ends| > 1 && LooksLikeOne(lines, ends, 0) {
        LinesOfText(lines[2..], ends[2..]);
        OneForTwo(lines, ends);
      } else {
        OneMoreLine(lines, ends);
      }
    }
  }

  lemma LaterLooks(lines: seq<string>, ends: seq<string>)
    requires |lines| == |ends| + 1 && |ends| > 0
    ensures (exists i: nat | i + 1 < |ends| :: LooksLikeOne(lines, ends, i))
      <==> || (|ends| > 1 && LooksLikeOne(lines, ends, 0))
           || exists i: nat | i + 1 < |ends[1..]| :: LooksLikeOne(lines[1..], ends[1..], i)
  {
    assert forall i: nat | i + 1 < |ends[1..]| ::
      LooksLikeOne(lines[1..], ends[1..], i) <==> LooksLikeOne(lines, ends, i + 1);
    if i: nat :| i + 1 < |ends| && LooksLikeOne(lines, ends, i) {
      if i > 0 {
        assert LooksLikeOne(lines[1..], ends[1..], i - 1);
      }
    }
  }

  lemma AfterTerminator(end: string, rest: string)
    requires IsTerminator(end) && !(end == "\r" && "\n" <= rest)
    ensures Lines(end + rest) == [[]] + Lines(rest)
  {
    var text := end + rest;
    assert text[|end|..] == rest;
    if end == "\r\n" {
      assert text[..2] == "\r\n";
    } else if end == "\r" && rest != [] {
      assert text[1] == rest[0] && rest[..1] == [rest[0]];
    }
  }

  /** A line before its terminator and a text that does not extend the terminator. */
  lemma {:induction false} LineBefore(line: string, end: string, rest: string)
    requires '\r' !in line && '\n' !in line && IsTerminator(end)
    requires !(end == "\r" && "\n" <= rest)
    ensures Lines(line + end + rest) == [line] + Lines(rest)
  {
    hide IsTerminator;
    var text := line + end + rest;
    if line == [] {
      assert text == end + rest;
      AfterTerminator(end, rest);
    } else {
      LineBefore(line[1..], end, rest);
      assert text[1..] == line[1..] + end + rest;
      OneMoreCharacter(line, text, Lines(rest));
    }
  }

  lemma OneMoreCharacter(line: string, text: string, others: seq<string>)
    requires line != [] && text != [] && text[0] == line[0] && line[0] !in "\r\n"
    requires Lines(text[1..]) == [line[1..]] + others
    ensures Lines(text) == [line] + others
  {
    assert line == [line[0]] + line[1..];
  }

  lemma OneMoreLine(lines: seq<string>, ends: seq<string>)
    requires |lines| == |ends| + 1 && |ends| > 0 && AreLines(lines) && AreTerminators(ends)
    requires |ends| > 1 ==> !LooksLikeOne(lines, ends, 0)
    ensures Lines(Terminated(lines, ends)) == [lines[0]] + Lines(Terminated(lines[1..], ends[1..]))
  {
    var rest := Terminated(lines[1..], ends[1..]);
    assert lines[1] != [] ==> rest[0] == lines[1][0] && lines[1][0] in lines[1];
    assert lines[1] == [] && |ends| > 1 ==> rest[0] == ends[1][0];
    assert "\n" <= rest ==> rest[0] == '\n';
    LineBefore(lines[0], ends[0], rest);
  }

  lemma OneForTwo(lines: seq<string>, ends: seq<string>)
    requires |lines| == |ends| + 1 && |ends| > 1 && AreLines(lines) && AreTerminators(ends)
    requires LooksLikeOne(lines, ends, 0)
    ensures Lines(Terminated(lines, ends)) == [lines[0]] + Lines(Terminated(lines[2..], ends[2..]))
  {
    var rest := Terminated(lines[2..], ends[2..]);
    assert lines[1..][1..] == lines[2..] && ends[1..][1..] == ends[2..];
    assert Terminated(lines[1..], ends[1..]) == "\n" + rest;
    assert lines[0] + "\r" + ("\n" + rest) == lines[0] + "\r\n" + rest;
    LineBefore(lines[0], "\r\n", rest);
  }

  /** A number between one and a maximum, or its default. */
  function OptionalPositive(given: Option<int>, fallback: nat, maximum: nat): (r: Option<nat>)
    ensures r.Some? && fallback >= 1 ==> r.value >= 1
  {
    if given.None? then Some(fallback)
    else if 1 <= given.value <= maximum then Some(given.value)
    else None
  }

  datatype Excerpt = Excerpt(startLine: nat, endLine: nat, content: string)

  /** `readTextFile`, from the decoded text; `None` is a failure. */
  function ReadRange(text: string, startLine: Option<int>, endLine: Option<int>): Option<Excerpt> {
    var lines := if text == [] then [] else Lines(text);
    var start :- OptionalPositive(startLine, 1, 1_000_000);
    var end :- OptionalPositive(endLine, if lines == [] then 1 else |lines|, 1_000_000);
    if end < start || start > |lines| then None
    else Some(Excerpt(start, Min(end, |lines|), Join(lines[start - 1..Min(end, |lines|)], '\n')))
  }

  /** An empty file has no lines to read. */
  function LineCount(text: string): nat {
    if text == [] then 0 else |Lines(text)|
  }

  predicate IsLineNumber(given: Option<int>) {
    given.Some? ==> 1 <= given.value <= 1_000_000
  }

  /**
   * A read succeeds exactly when its bounds are line numbers in order and the file reaches the first of them. The
   * excerpt begins where it was asked to, ends where it was asked to or with the file, and read again is exactly
   * those lines.
   */
  lemma ExcerptIsRange(text: string, startLine: Option<int>, endLine: Option<int>)
    ensures var first := if startLine.Some? then startLine.value else 1;
      ReadRange(text, startLine, endLine).Some?
      <==> && IsLineNumber(startLine) && IsLineNumber(endLine)
           && first <= LineCount(text)
           && (endLine.Some? ==> first <= endLine.value)
    ensures var r := ReadRange(text, startLine, endLine);
      r.Some? ==>
        && r.value.startLine == (if startLine.Some? then startLine.value else 1)
        && r.value.endLine == (if endLine.Some? then Min(endLine.value, |Lines(text)|) else |Lines(text)|)
        && 1 <= r.value.startLine <= r.value.endLine <= |Lines(text)|
        && Lines(r.value.content) == Lines(text)[r.value.startLine - 1..r.value.endLine]
  {
    var r := ReadRange(text, startLine, endLine);
    if r.Some? {
      LinesAreLines(text);
      LinesOfJoin(Lines(text)[r.value.startLine - 1..r.value.endLine]);
    }
  }

  // ----- search

  datatype Match = Match(path: string, line: nat, content: string)

  const MAXIMUM_SEARCHED_BYTES := 1_048_576
  const MAXIMUM_SEARCHED_FILES := 10_000

  /** The text of a file; `None` is one that is skipped, being too large or no UTF-8. */
  function TextOf(bytes: seq<byte>, maximumOutputBytes: nat): Option<string> {
    if |bytes| > Min(maximumOutputBytes, MAXIMUM_SEARCHED_BYTES) then None else Decode(bytes)
  }

  function MatchesFrom(path: string, lines: seq<string>, query: string, number: nat): seq<Match>
    decreases |lines|
  {
    if lines == [] then []
    else
      (if Contains(lines[0], query) then [Match(path, number, lines[0])] else [])
        + MatchesFrom(path, lines[1..], query, number + 1)
  }

  /** All matches of one file. */
  function MatchesIn(content: string -> seq<byte>, path: string, query: string, maximumOutputBytes: nat): seq<Match> {
    var text := TextOf(content(path), maximumOutputBytes);
    if text.None? then [] else MatchesFrom(path, Lines(text.value), query, 1)
  }

  /** All matches, file by file and line by line. */
  function AllMatches(content: string -> seq<byte>, paths: seq<string>, query: string, maximumOutputBytes: nat)
      : seq<Match>
  {
    if paths == [] then []
    else
      MatchesIn(content, paths[0], query, maximumOutputBytes)
        + AllMatches(content, paths[1..], query, maximumOutputBytes)
  }

  /** What the line at this index contributes. */
  function MatchAt(path: string, lines: seq<string>, query: string, i: nat): Option<Match> {
    if i < |lines| && Contains(lines[i], query) then Some(Match(path, i + 1, lines[i])) else None
  }

  lemma {:induction false} MatchesAreSelected(path: string, lines: seq<string>, query: string, from: nat)
    requires from <= |lines|
    ensures MatchesFrom(path, lines[from..], query, from + 1)
      == Selected(|lines| - from, (i: nat) => MatchAt(path, lines, query, from + i))
    decreases |lines| - from
  {
    hide Contains;
    if from < |lines| {
      var rest := lines[from + 1..];
      assert lines[from..][0] == lines[from] && lines[from..][1..] == rest;
      MatchesAreSelected(path, lines, query, from + 1);
      SelectedFirst(|lines| - from - 1, (i: nat) => MatchAt(path, lines, query, from + i),
                    (i: nat) => MatchAt(path, lines, query, from + 1 + i));
    }
  }

  /** The matches of a file that is read are its lines that contain the query, in order, numbered from one. */
  lemma MatchesAreTheLines(path: string, lines: seq<string>, query: string)
    ensures Selects(|lines|, (i: nat) => MatchAt(path, lines, query, i), MatchesFrom(path, lines, query, 1))
  {
    hide MatchAt, MatchesFrom;
    MatchesAreSelected(path, lines, query, 0);
    assert lines[0..] == lines;
    SelectedAlike(|lines|, (i: nat) => MatchAt(path, lines, query, 0 + i), (i: nat) => MatchAt(path, lines, query, i));
    SelectedMeaning(|lines|, (i: nat) => MatchAt(path, lines, query, i));
  }

  function Together(parts: seq<seq<Match>>): seq<Match> {
    if parts == [] then [] else parts[0] + Together(parts[1..])
  }

  /** These are the matches of one file: none when it is skipped. */
  ghost predicate AreMatchesOf(path: string, text: Option<string>, query: string, matches: seq<Match>) {
    if text.None? then matches == []
    else Selects(|Lines(text.value)|, (i: nat) => MatchAt(path, Lines(text.value), query, i), matches)
  }

  /** All matches are those of the files, one after the other. */
  lemma {:induction false} AllMatchesMeaning(
      content: string -> seq<byte>, paths: seq<string>, query: string, maximumOutputBytes: nat)
      returns (parts: seq<seq<Match>>)
    ensures |parts| == |paths| && Together(parts) == AllMatches(content, paths, query, maximumOutputBytes)
    ensures forall k | 0 <= k < |paths| ::
      AreMatchesOf(paths[k], TextOf(content(paths[k]), maximumOutputBytes), query, parts[k])
  {
    hide TextOf, Lines, MatchAt, MatchesFrom, AreMatchesOf;
    parts := [];
    if paths != [] {
      var rest := AllMatchesMeaning(content, paths[1..], query, maximumOutputBytes);
      var first := MatchesIn(content, paths[0], query, maximumOutputBytes);
      MatchesOfFile(content, paths[0], query, maximumOutputBytes);
      parts := [first] + rest;
      assert parts[1..] == rest;
    }
  }

  lemma MatchesOfFile(content: string -> seq<byte>, path: string, query: string, maximumOutputBytes: nat)
    ensures AreMatchesOf(path, TextOf(content(path), maximumOutputBytes), query,
                         MatchesIn(content, path, query, maximumOutputBytes))
  {
    hide TextOf, Lines, MatchAt, MatchesFrom;
    var text := TextOf(content(path), maximumOutputBytes);
    if text.Some? {
      MatchesAreTheLines(path, Lines(text.value), query);
    }
  }

  function First<T>(xs: seq<T>, n: nat): seq<T> {
    xs[..Min(n, |xs|)]
  }

  /** `searchFiles` over a sorted listing: exactly the first matches, in path and line order. */
  method SearchPaths(
      content: string -> seq<byte>, paths: seq<string>, query: string, maximumResults: nat, maximumOutputBytes: nat)
      returns (matches: seq<Match>)
    requires maximumResults >= 1
    ensures matches == First(AllMatches(content, paths, query, maximumOutputBytes), maximumResults)
  {
    hide MatchesIn;
    matches := [];
    ghost var all := AllMatches(content, paths, query, maximumOutputBytes);
    assert paths[0..] == paths;
    for i := 0 to |paths|
      invariant |matches| < maximumResults
      invariant matches + AllMatches(content, paths[i..], query, maximumOutputBytes) == all
    {
      assert paths[i..][0] == paths[i] && paths[i..][1..] == paths[i + 1..];
      ghost var rest := AllMatches(content, paths[i + 1..], query, maximumOutputBytes);
      ghost var found := MatchesIn(content, paths[i], query, maximumOutputBytes);
      assert matches + (found + rest) == matches + found + rest;
      var full;
      matches, full := SearchFile(content, paths[i], query, maximumResults, maximumOutputBytes, matches);
      if full {
        return;
      }
    }
    assert matches + [] == matches;
  }

  /** The lines of one file; `full` when the limit has been reached. */
  method SearchFile(
      content: string -> seq<byte>, path: string, query: string, maximumResults: nat, maximumOutputBytes: nat,
      before: seq<Match>)
      returns (matches: seq<Match>, full: bool)
    requires |before| < maximumResults
    ensures var all := before + MatchesIn(content, path, query, maximumOutputBytes);
      && full == (|all| >= maximumResults)
      && matches == if full then all[..maximumResults] else all
  {
    hide Lines, Contains, TextOf;
    matches := before;
    var text := TextOf(content(path), maximumOutputBytes);
    if text.None? {
      return before, false;
    }
    var lines := Lines(text.value);
    ghost var all := before + MatchesFrom(path, lines, query, 1);
    assert lines[0..] == lines;
    for index := 0 to |lines|
      invariant |matches| < maximumResults
      invariant matches + MatchesFrom(path, lines[index..], query, index + 1) == all
    {
      assert lines[index..][0] == lines[index] && lines[index..][1..] == lines[index + 1..];
      var line := lines[index];
      ghost var rest := MatchesFrom(path, lines[index + 1..], query, index + 2);
      if Contains(line, query) {
        assert matches + ([Match(path, index + 1, line)] + rest) == matches + [Match(path, index + 1, line)] + rest;
        matches := matches + [Match(path, index + 1, line)];
        if |matches| >= maximumResults {
          return matches, true;
        }
      }
    }
    assert matches + [] == matches;
    return matches, false;
  }

  /** The names of a prefix; the root has none. */
  function NamesOf(prefix: Option<string>): seq<string> {
    if prefix.Some? then Split(prefix.value, '/') else []
  }

  /** `searchFiles`, where `start` is what lies at the prefix; `None` is a failure. */
  method SearchFiles(
      content: string -> seq<byte>, prefix: Option<string>, start: Option<Node>, query: string,
      maximumResults: Option<int>, maximumOutputBytes: nat, before: Comparator)
      returns (matches: Option<seq<Match>>)
    ensures matches.Some?
      <==> && 1 <= Utf16Length(query) <= 512
           && (maximumResults.Some? ==> 1 <= maximumResults.value <= 500)
           && (prefix.Some? ==> IsSafePath(prefix.value))
           && start.Some? && start.value.DirectoryNode?
           && !Refused(Files(NamesOf(prefix), start.value.entries), MAXIMUM_SEARCHED_FILES)
    ensures matches.Some? ==> exists paths: seq<string> ::
      && multiset(paths) == Files(NamesOf(prefix), start.value.entries)
      && (IsTotalOrder(before) ==> IsSorted(Itself, before, paths))
      && matches.value == First(AllMatches(content, paths, query, maximumOutputBytes),
                                if maximumResults.Some? then maximumResults.value else 100)
  {
    hide Files, Refused, IsSafePath;
    if !(1 <= Utf16Length(query) <= 512) {
      return None;
    }
    var limit := OptionalPositive(maximumResults, 100, 500);
    if limit.None? {
      return None;
    }
    if prefix.Some? && !IsSafePath(prefix.value) {
      return None;
    }
    var paths := AllFiles(NamesOf(prefix), start, MAXIMUM_SEARCHED_FILES, before);
    if paths.None? {
      return None;
    }
    var found := SearchPaths(content, paths.value, query, limit.value, maximumOutputBytes);
    return Some(found);
  }
}
