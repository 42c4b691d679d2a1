/** Fenced code in Markdown: blanking it, and the headings outside it. */
module MarkdownFences {
  import opened RepositoryPaths
  import opened SplitText
  import opened Wrappers

  datatype Fence = Fence(marker: char, length: nat)

  function LeadingSpaces(line: string): (n: nat)
    ensures n <= |line|
  {
    if line != [] && line[0] == ' ' then 1 + LeadingSpaces(line[1..]) else 0
  }

  function RunLength(s: string, marker: char): (n: nat)
    ensures n <= |s|
  {
    if s != [] && s[0] == marker then 1 + RunLength(s[1..], marker) else 0
  }

  /** At most three spaces, then at least three backticks or tildes. */
  function FenceOf(line: string): Option<Fence> {
    var indent := LeadingSpaces(line);
    var rest := line[indent..];
    if indent > 3 || rest == [] || rest[0] !in "`~" || RunLength(rest, rest[0]) < 3 then None
    else Some(Fence(rest[0], RunLength(rest, rest[0])))
  }

  /** The open fence after a fence line: it opens one, closes the open one, or is part of its code. */
  function Toggled(open: Option<Fence>, found: Fence): Option<Fence> {
    if open.None? then Some(found)
    else if open.value.marker == found.marker && found.length >= open.value.length then None
    else open
  }

  function NextFence(open: Option<Fence>, line: string): Option<Fence> {
    var found := FenceOf(line);
    if found.Some? then Toggled(open, found.value) else open
  }

  function Spaces(n: nat): (s: string)
    ensures |s| == n && forall i | 0 <= i < n :: s[i] == ' '
  {
    seq(n, _ => ' ')
  }

  /** As many spaces as the line has UTF-16 code units. */
  function Blank(line: string): string {
    Spaces(Utf16Length(line))
  }

  function BlankLines(open: Option<Fence>, lines: seq<string>): (r: seq<string>)
    ensures |r| == |lines|
    decreases |lines|
  {
    if lines == [] then []
    else
      var hidden := FenceOf(lines[0]).Some? || open.Some?;
      [if hidden then Blank(lines[0]) else lines[0]] + BlankLines(NextFence(open, lines[0]), lines[1..])
  }

  /** `withoutFencedCode` */
  function WithoutFencedCode(markdown: string): string {
    Join(BlankLines(None, Split(markdown, '\n')), '\n')
  }

  /** The callback of `map`, with the fence that it carries from line to line. */
  method BlankFencedCode(markdown: string) returns (result: string)
    ensures result == WithoutFencedCode(markdown)
  {
    hide FenceOf, Split, Blank, Join, BlankLines;
    var lines := Split(markdown, '\n');
    var fence: Option<Fence> := None;
    var blanked: seq<string> := [];
    assert lines[0..] == lines;
    for i := 0 to |lines|
      invariant BlankLines(None, lines) == blanked + BlankLines(fence, lines[i..])
    {
      FirstLine(fence, lines, i);
      var line := lines[i];
      var found := FenceOf(line);
      var hidden := found.Some? || fence.Some?;
      ghost var rest := BlankLines(NextFence(fence, line), lines[i + 1..]);
      assert forall blank: string :: blanked + ([blank] + rest) == blanked + [blank] + rest;
      if found.Some? {
        if fence.None? {
          fence := found;
        } else if fence.value.marker == found.value.marker && found.value.length >= fence.value.length {
          fence := None;
        }
      }
      blanked := blanked + [if hidden then Blank(line) else line];
    }
    NothingBlanked(fence, lines[|lines|..]);
    assert blanked + [] == blanked;
    return Join(blanked, '\n');
  }

  lemma FirstLine(open: Option<Fence>, lines: seq<string>, i: nat)
    requires i < |lines|
    ensures BlankLines(open, lines[i..])
      == [if FenceOf(lines[i]).Some? || open.Some? then Blank(lines[i]) else lines[i]]
         + BlankLines(NextFence(open, lines[i]), lines[i + 1..])
  {
    hide FenceOf, Blank;
    assert lines[i..][1..] == lines[i + 1..];
  }

  lemma NothingBlanked(open: Option<Fence>, lines: seq<string>)
    requires lines == []
    ensures BlankLines(open, lines) == []
  {
  }

  // ----- blanking keeps positions, and blanking twice changes nothing

  lemma {:induction false} SpacesAreOneUnitEach(s: string)
    requires forall i | 0 <= i < |s| :: s[i] == ' '
    ensures Utf16Length(s) == |s|
  {
    if s != [] {
      SpacesAreOneUnitEach(s[1..]);
    }
  }

  lemma {:induction false} SpacesAreNoFence(s: string)
    requires forall i | 0 <= i < |s| :: s[i] == ' '
    ensures LeadingSpaces(s) == |s| && FenceOf(s) == None
  {
    if s != [] {
      SpacesAreNoFence(s[1..]);
    }
  }

  lemma BlankMeaning(line: string)
    ensures Utf16Length(Blank(line)) == Utf16Length(line)
    ensures FenceOf(Blank(line)) == None && '\n' !in Blank(line)
    ensures Blank(Blank(line)) == Blank(line)
  {
    SpacesAreOneUnitEach(Blank(line));
    SpacesAreNoFence(Blank(line));
  }

  lemma {:induction false} BlankedLines(open: Option<Fence>, lines: seq<string>)
    requires forall i | 0 <= i < |lines| :: '\n' !in lines[i]
    ensures var blanked := BlankLines(open, lines);
      && (forall i | 0 <= i < |lines| :: Utf16Length(blanked[i]) == Utf16Length(lines[i]) && '\n' !in blanked[i])
      && (forall i | 0 <= i < |lines| :: FenceOf(blanked[i]) == None)
    decreases |lines|
  {
    if lines != [] {
      BlankMeaning(lines[0]);
      BlankedLines(NextFence(open, lines[0]), lines[1..]);
    }
  }

  lemma {:induction false} FenceFreeLinesStay(lines: seq<string>)
    requires forall i | 0 <= i < |lines| :: FenceOf(lines[i]) == None
    ensures BlankLines(None, lines) == lines
    decreases |lines|
  {
    if lines != [] {
      FenceFreeLinesStay(lines[1..]);
      assert lines == [lines[0]] + lines[1..];
    }
  }

  lemma SplitOfBlanked(markdown: string)
    ensures Split(WithoutFencedCode(markdown), '\n') == BlankLines(None, Split(markdown, '\n'))
  {
    var lines := Split(markdown, '\n');
    JoinOfSplit(markdown, '\n');
    BlankedLines(None, lines);
    SplitOfJoin(BlankLines(None, lines), '\n');
  }

  /** The text keeps its lines, and each line its length in code units: every newline stays where it was. */
  lemma BlankingKeepsPositions(markdown: string)
    ensures var before, after := Split(markdown, '\n'), Split(WithoutFencedCode(markdown), '\n');
      && |after| == |before|
      && forall i | 0 <= i < |before| :: Utf16Length(after[i]) == Utf16Length(before[i])
    ensures Utf16Length(WithoutFencedCode(markdown)) == Utf16Length(markdown)
  {
    var lines := Split(markdown, '\n');
    SplitOfBlanked(markdown);
    JoinOfSplit(markdown, '\n');
    BlankedLines(None, lines);
    JoinedLength(lines, BlankLines(None, lines));
  }

  lemma {:induction false} LengthOfConcat(a: string, b: string)
    ensures Utf16Length(a + b) == Utf16Length(a) + Utf16Length(b)
  {
    if a == [] {
      assert a + b == b;
    } else {
      LengthOfConcat(a[1..], b);
      assert (a + b)[1..] == a[1..] + b;
    }
  }

  lemma {:induction false} JoinedLength(a: seq<string>, b: seq<string>)
    requires |a| == |b| && forall i | 0 <= i < |a| :: Utf16Length(a[i]) == Utf16Length(b[i])
    ensures Utf16Length(Join(a, '\n')) == Utf16Length(Join(b, '\n'))
  {
    if |a| > 1 {
      JoinedLength(a[1..], b[1..]);
      LengthOfConcat(a[0], ['\n'] + Join(a[1..], '\n'));
      LengthOfConcat(b[0], ['\n'] + Join(b[1..], '\n'));
      LengthOfConcat(['\n'], Join(a[1..], '\n'));
      LengthOfConcat(['\n'], Join(b[1..], '\n'));
      assert a[0] + ['\n'] + Join(a[1..], '\n') == a[0] + (['\n'] + Join(a[1..], '\n'));
      assert b[0] + ['\n'] + Join(b[1..], '\n') == b[0] + (['\n'] + Join(b[1..], '\n'));
    }
  }

  lemma BlankingIsIdempotent(markdown: string)
    ensures WithoutFencedCode(WithoutFencedCode(markdown)) == WithoutFencedCode(markdown)
  {
    var lines := Split(markdown, '\n');
    JoinOfSplit(markdown, '\n');
    BlankedLines(None, lines);
    SplitOfBlanked(markdown);
    FenceFreeLinesStay(BlankLines(None, lines));
  }

  // ----- headings

  /** What a heading line says: its level, its text and the anchor that the text gives on its own. */
  datatype HeadingLine = HeadingLine(level: nat, text: string, baseAnchor: string)

  /** A reader of heading lines; `None` for other lines and for headings whose base anchor is empty. */
  type Reader = string -> Option<HeadingLine>

  /** A heading line has a hash mark. */
  ghost predicate ReadsHeadings(read: Reader) {
    forall line :: read(line).Some? ==> '#' in line
  }

  datatype Heading = Heading(level: nat, text: string, anchor: string, line: nat)

  /** The anchor of a heading after `count` others with its base. */
  function Anchor(base: string, count: nat, decimal: nat -> string): string {
    if count == 0 then base else base + "-" + decimal(count)
  }

  function Count(counts: map<string, nat>, base: string): nat {
    if base in counts then counts[base] else 0
  }

  function ReadOutside(read: Reader, open: Option<Fence>, line: string): Option<HeadingLine> {
    if FenceOf(line).Some? || open.Some? then None else read(line)
  }

  /** The headings of the lines from `number` on. */
  function Headings(
      read: Reader, decimal: nat -> string, open: Option<Fence>, counts: map<string, nat>, lines: seq<string>,
      number: nat
  ): seq<Heading>
    decreases |lines|
  {
    if lines == [] then []
    else
      var rest, next := lines[1..], NextFence(open, lines[0]);
      match ReadOutside(read, open, lines[0])
      case None => Headings(read, decimal, next, counts, rest, number + 1)
      case Some(HeadingLine(level, text, base)) =>
        var count := Count(counts, base);
        [Heading(level, text, Anchor(base, count, decimal), number)]
          + Headings(read, decimal, next, counts[base := count + 1], rest, number + 1)
  }

  /** `extractHeadings` */
  method ExtractHeadings(read: Reader, decimal: nat -> string, markdown: string) returns (headings: seq<Heading>)
    ensures headings == Headings(read, decimal, None, map[], Split(markdown, '\n'), 1)
  {
    hide FenceOf, Split, Anchor;
    headings := [];
    var duplicateAnchors: map<string, nat> := map[];
    var fence: Option<Fence> := None;
    var lines := Split(markdown, '\n');
    assert lines[0..] == lines;
    for index := 0 to |lines|
      invariant Headings(read, decimal, None, map[], lines, 1)
        == headings + Headings(read, decimal, fence, duplicateAnchors, lines[index..], index + 1)
    {
      assert lines[index..][1..] == lines[index + 1..];
      var line := lines[index];
      var found := FenceOf(line);
      if found.Some? {
        if fence.None? {
          fence := found;
        } else if fence.value.marker == found.value.marker && found.value.length >= fence.value.length {
          fence := None;
        }
        continue;
      }
      if fence.Some? {
        continue;
      }
      var heading := read(line);
      if heading.None? {
        continue;
      }
      var base := heading.value.baseAnchor;
      var duplicateCount := if base in duplicateAnchors then duplicateAnchors[base] else 0;
      duplicateAnchors := duplicateAnchors[base := duplicateCount + 1];
      headings := headings
        + [Heading(heading.value.level, heading.value.text, Anchor(base, duplicateCount, decimal), index + 1)];
    }
  }

  /** A blanked line is read as the line was, and opens no fence. */
  lemma BlankedLine(read: Reader, open: Option<Fence>, lines: seq<string>)
    requires ReadsHeadings(read) && lines != []
    ensures var blanked := BlankLines(open, lines);
      && blanked[1..] == BlankLines(NextFence(open, lines[0]), lines[1..])
      && ReadOutside(read, None, blanked[0]) == ReadOutside(read, open, lines[0])
      && NextFence(None, blanked[0]) == None
  {
    var line := lines[0];
    BlankMeaning(line);
    assert read(Blank(line)) == None;
    hide FenceOf, Blank;
  }

  lemma {:induction false} HeadingsOfBlanked(
      read: Reader, decimal: nat -> string, open: Option<Fence>, counts: map<string, nat>, lines: seq<string>,
      number: nat)
    requires ReadsHeadings(read)
    ensures Headings(read, decimal, None, counts, BlankLines(open, lines), number)
      == Headings(read, decimal, open, counts, lines, number)
    decreases |lines|
  {
    if lines != [] {
      BlankedLine(read, open, lines);
      hide FenceOf, NextFence, ReadOutside, BlankLines, Anchor;
      var rest, next, heading := lines[1..], NextFence(open, lines[0]), ReadOutside(read, open, lines[0]);
      if heading.None? {
        HeadingsOfBlanked(read, decimal, next, counts, rest, number + 1);
      } else {
        var base := heading.value.baseAnchor;
        HeadingsOfBlanked(read, decimal, next, counts[base := Count(counts, base) + 1], rest, number + 1);
      }
    }
  }

  /** Blanking fenced code changes no heading, not even its line number. */
  lemma BlankingKeepsHeadings(read: Reader, decimal: nat -> string, markdown: string)
    requires ReadsHeadings(read)
    ensures Headings(read, decimal, None, map[], Split(WithoutFencedCode(markdown), '\n'), 1)
      == Headings(read, decimal, None, map[], Split(markdown, '\n'), 1)
  {
    SplitOfBlanked(markdown);
    HeadingsOfBlanked(read, decimal, None, map[], Split(markdown, '\n'), 1);
  }

  /** The heading lines outside fenced code, with their line numbers. */
  function Found(read: Reader, open: Option<Fence>, lines: seq<string>, number: nat): seq<(HeadingLine, nat)>
    decreases |lines|
  {
    if lines == [] then []
    else
      var heading := ReadOutside(read, open, lines[0]);
      (if heading.Some? then [(heading.value, number)] else [])
        + Found(read, NextFence(open, lines[0]), lines[1..], number + 1)
  }

  /** How many of these have this base anchor. */
  function Occurrences(found: seq<(HeadingLine, nat)>, base: string): nat {
    if found == [] then 0
    else (if found[0].0.baseAnchor == base then 1 else 0) + Occurrences(found[1..], base)
  }

  /** A heading as it is numbered after this many others with its base. */
  function Numbered(found: (HeadingLine, nat), count: nat, decimal: nat -> string): Heading {
    Heading(found.0.level, found.0.text, Anchor(found.0.baseAnchor, count, decimal), found.1)
  }

  lemma {:induction false} AsManyHeadings(
      read: Reader, decimal: nat -> string, open: Option<Fence>, counts: map<string, nat>, lines: seq<string>,
      number: nat)
    ensures |Headings(read, decimal, open, counts, lines, number)| == |Found(read, open, lines, number)|
    decreases |lines|
  {
    hide FenceOf, NextFence, ReadOutside, Anchor;
    if lines != [] {
      var heading, next, rest := ReadOutside(read, open, lines[0]), NextFence(open, lines[0]), lines[1..];
      if heading.None? {
        AsManyHeadings(read, decimal, next, counts, rest, number + 1);
      } else {
        var base := heading.value.baseAnchor;
        AsManyHeadings(read, decimal, next, counts[base := Count(counts, base) + 1], rest, number + 1);
      }
    }
  }

  /** What one heading line adds. */
  lemma HeadingTaken(
      read: Reader, decimal: nat -> string, open: Option<Fence>, counts: map<string, nat>, lines: seq<string>,
      number: nat)
    requires lines != [] && ReadOutside(read, open, lines[0]).Some?
    ensures var heading, next := ReadOutside(read, open, lines[0]).value, NextFence(open, lines[0]);
      var count := Count(counts, heading.baseAnchor);
      && Found(read, open, lines, number) == [(heading, number)] + Found(read, next, lines[1..], number + 1)
      && Headings(read, decimal, open, counts, lines, number)
        == [Numbered((heading, number), count, decimal)]
           + Headings(read, decimal, next, counts[heading.baseAnchor := count + 1], lines[1..], number + 1)
  {
    hide FenceOf, NextFence, ReadOutside, Anchor;
  }

  lemma CountGrows(counts: map<string, nat>, first: (HeadingLine, nat), others: seq<(HeadingLine, nat)>, base: string)
    ensures var grown := counts[first.0.baseAnchor := Count(counts, first.0.baseAnchor) + 1];
      Count(counts, base) + Occurrences([first] + others, base) == Count(grown, base) + Occurrences(others, base)
  {
    assert ([first] + others)[1..] == others;
  }

  lemma LineSkipped(
      read: Reader, decimal: nat -> string, open: Option<Fence>, counts: map<string, nat>, lines: seq<string>,
      number: nat)
    ensures lines == [] ==> Found(read, open, lines, number) == []
    ensures lines != [] && ReadOutside(read, open, lines[0]).None? ==>
      var next := NextFence(open, lines[0]);
      && Found(read, open, lines, number) == Found(read, next, lines[1..], number + 1)
      && Headings(read, decimal, open, counts, lines, number)
         == Headings(read, decimal, next, counts, lines[1..], number + 1)
  {
    hide FenceOf, NextFence, ReadOutside, Anchor;
  }

  lemma {:induction false} NumberingFrom(
      read: Reader, decimal: nat -> string, open: Option<Fence>, counts: map<string, nat>, lines: seq<string>,
      number: nat,
      i: nat)
    requires i < |Found(read, open, lines, number)| == |Headings(read, decimal, open, counts, lines, number)|
    ensures var found := Found(read, open, lines, number);
      var base := found[i].0.baseAnchor;
      Headings(read, decimal, open, counts, lines, number)[i]
        == Numbered(found[i], Count(counts, base) + Occurrences(found[..i], base), decimal)
    decreases |lines|
  {
    hide FenceOf, NextFence, ReadOutside, Numbered, Found, Headings, Count, Occurrences;
    LineSkipped(read, decimal, open, counts, lines, number);
    var heading, next, rest := ReadOutside(read, open, lines[0]), NextFence(open, lines[0]), lines[1..];
    if heading.None? {
      NumberingFrom(read, decimal, next, counts, rest, number + 1, i);
    } else {
      var found, others := Found(read, open, lines, number), Found(read, next, rest, number + 1);
      var base := heading.value.baseAnchor;
      var grown := counts[base := Count(counts, base) + 1];
      HeadingTaken(read, decimal, open, counts, lines, number);
      if i == 0 {
        NoOccurrences(found, base);
      } else {
        NumberingFrom(read, decimal, next, grown, rest, number + 1, i - 1);
        assert found[..i] == [found[0]] + others[..i - 1];
        CountGrows(counts, found[0], others[..i - 1], found[i].0.baseAnchor);
      }
    }
  }

  lemma NoOccurrences(found: seq<(HeadingLine, nat)>, base: string)
    ensures Occurrences(found[..0], base) == 0
  {
  }

  /** The k-th heading with a base anchor has the suffix k - 1, and the first has none. */
  lemma HeadingsAreNumbered(read: Reader, decimal: nat -> string, markdown: string)
    ensures var lines := Split(markdown, '\n');
      var found, headings := Found(read, None, lines, 1), Headings(read, decimal, None, map[], lines, 1);
      && |headings| == |found|
      && forall i | 0 <= i < |found| ::
           headings[i] == Numbered(found[i], Occurrences(found[..i], found[i].0.baseAnchor), decimal)
  {
    var lines := Split(markdown, '\n');
    AsManyHeadings(read, decimal, None, map[], lines, 1);
    var found, headings := Found(read, None, lines, 1), Headings(read, decimal, None, map[], lines, 1);
    forall i | 0 <= i < |found|
      ensures headings[i] == Numbered(found[i], Occurrences(found[..i], found[i].0.baseAnchor), decimal)
    {
      NumberingFrom(read, decimal, None, map[], lines, 1, i);
    }
    hide Headings, Found, Split, Occurrences, Numbered;
  }
}
