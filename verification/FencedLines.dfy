/** Which lines of a document are fenced, said without the automaton that finds them. */
module FencedLines {
  import opened MarkdownFences
  import opened RepositoryPaths
  import opened Selections
  import opened SplitText
  import opened Wrappers

  function Run(marker: char, n: nat): (s: string)
    ensures |s| == n && forall i | 0 <= i < n :: s[i] == marker
  {
    seq(n, _ => marker)
  }

  /** At most three spaces, then a run of this many backticks or tildes and no more of them. */
  ghost predicate IsFenceLine(line: string, marker: char, length: nat) {
    && marker in "`~" && length >= 3
    && exists indent: nat :: indent <= 3 && IsRunAt(line, indent, marker, length)
  }

  /** Spaces, a run of this length, and something else or nothing. */
  ghost predicate IsRunAt(line: string, indent: nat, marker: char, length: nat) {
    exists rest: string :: line == Spaces(indent) + Run(marker, length) + rest && (rest == [] || rest[0] != marker)
  }

  ghost predicate IsFence(line: string) {
    exists marker, length :: IsFenceLine(line, marker, length)
  }

  /** A fence of the same marker that is at least as long. */
  ghost predicate Closes(opener: string, line: string) {
    exists marker, length, other ::
      IsFenceLine(opener, marker, length) && IsFenceLine(line, marker, other) && other >= length
  }

  /** A fence line that does not lie in a fence that is open before it. */
  ghost predicate Opens(lines: seq<string>, o: nat)
    decreases o, 1
  {
    o < |lines| && IsFence(lines[o]) && !InCode(lines, o)
  }

  /** Some line before this one opens a fence, and no line between them closes it. */
  ghost predicate InCode(lines: seq<string>, i: nat)
    decreases i, 0
  {
    i <= |lines| && exists o | 0 <= o < i :: Opens(lines, o) && forall k | o < k < i :: !Closes(lines[o], lines[k])
  }

  /** A fence line, or a line in an open fence. */
  ghost predicate Fenced(lines: seq<string>, i: nat)
    requires i < |lines|
  {
    IsFence(lines[i]) || InCode(lines, i)
  }

  // ----- recognizing a fence line

  lemma {:induction false} SpacesCounted(n: nat, rest: string)
    requires rest == [] || rest[0] != ' '
    ensures LeadingSpaces(Spaces(n) + rest) == n
  {
    var line := Spaces(n) + rest;
    if n > 0 {
      assert line[1..] == Spaces(n - 1) + rest;
      SpacesCounted(n - 1, rest);
    } else {
      assert line == rest;
    }
  }

  lemma {:induction false} RunCounted(n: nat, marker: char, rest: string)
    requires rest == [] || rest[0] != marker
    ensures RunLength(Run(marker, n) + rest, marker) == n
  {
    var line := Run(marker, n) + rest;
    if n > 0 {
      assert line[1..] == Run(marker, n - 1) + rest;
      RunCounted(n - 1, marker, rest);
    } else {
      assert line == rest;
    }
  }

  lemma {:induction false} SpacesLead(line: string)
    ensures var n := LeadingSpaces(line);
      line == Spaces(n) + line[n..] && (n < |line| ==> line[n] != ' ')
  {
    if line != [] && line[0] == ' ' {
      SpacesLead(line[1..]);
    }
  }

  lemma {:induction false} RunLeads(s: string, marker: char)
    ensures var n := RunLength(s, marker);
      s == Run(marker, n) + s[n..] && (n < |s| ==> s[n] != marker)
  {
    if s != [] && s[0] == marker {
      RunLeads(s[1..], marker);
    }
  }

  lemma FoundIsFenceLine(line: string)
    requires FenceOf(line).Some?
    ensures IsFenceLine(line, FenceOf(line).value.marker, FenceOf(line).value.length)
  {
    var indent := LeadingSpaces(line);
    var run := line[indent..];
    var marker, length := FenceOf(line).value.marker, FenceOf(line).value.length;
    SpacesLead(line);
    RunLeads(run, marker);
    var rest := run[length..];
    assert line == Spaces(indent) + Run(marker, length) + rest;
    assert IsRunAt(line, indent, marker, length);
  }

  lemma FenceLineIsFound(line: string, marker: char, length: nat)
    requires IsFenceLine(line, marker, length)
    ensures FenceOf(line) == Some(Fence(marker, length))
  {
    var indent: nat :| indent <= 3 && IsRunAt(line, indent, marker, length);
    var rest: string :|
      line == Spaces(indent) + Run(marker, length) + rest && (rest == [] || rest[0] != marker);
    var run := Run(marker, length) + rest;
    assert line == Spaces(indent) + run && run[0] == marker;
    SpacesCounted(indent, run);
    RunCounted(length, marker, rest);
    assert line[indent..] == run;
  }

  /** The recognizer finds exactly the fence lines. */
  lemma FenceOfMeaning(line: string, marker: char, length: nat)
    ensures FenceOf(line) == Some(Fence(marker, length)) <==> IsFenceLine(line, marker, length)
    ensures FenceOf(line).Some? <==> IsFence(line)
  {
    hide FenceOf, IsFenceLine;
    if FenceOf(line).Some? {
      FoundIsFenceLine(line);
    }
    if IsFenceLine(line, marker, length) {
      FenceLineIsFound(line, marker, length);
    }
    if m, n :| IsFenceLine(line, m, n) {
      FenceLineIsFound(line, m, n);
    }
  }

  lemma ClosesMeaning(opener: string, line: string)
    requires FenceOf(opener).Some?
    ensures Closes(opener, line)
      <==> && FenceOf(line).Some?
           && FenceOf(line).value.marker == FenceOf(opener).value.marker
           && FenceOf(line).value.length >= FenceOf(opener).value.length
  {
    hide FenceOf, IsFenceLine;
    FoundIsFenceLine(opener);
    if FenceOf(line).Some? {
      FoundIsFenceLine(line);
    }
    if m, n, k :| IsFenceLine(opener, m, n) && IsFenceLine(line, m, k) && k >= n {
      FenceLineIsFound(opener, m, n);
      FenceLineIsFound(line, m, k);
    }
  }

  // ----- the automaton is in a fence exactly there

  /** The fence that is open before line `i`. */
  function FenceAt(open: Option<Fence>, lines: seq<string>, i: nat): Option<Fence>
    requires i <= |lines|
  {
    if i == 0 then open else NextFence(FenceAt(open, lines, i - 1), lines[i - 1])
  }

  /** The opener of the fence that is open before line `i`. */
  ghost predicate OpenedBy(lines: seq<string>, i: nat, o: nat) {
    o < i <= |lines| && Opens(lines, o) && forall k | o < k < i :: !Closes(lines[o], lines[k])
  }

  /** What the automaton remembers before line `i`: nothing outside code, and inside it the fence of the opener. */
  ghost predicate Remembers(lines: seq<string>, i: nat, fence: Option<Fence>) {
    if fence.None? then !InCode(lines, i)
    else exists o: nat :: OpenedBy(lines, i, o) && FenceOf(lines[o]) == fence
  }

  /** No two openers are open at once. */
  lemma OneOpener(lines: seq<string>, i: nat, o: nat, p: nat)
    requires OpenedBy(lines, i, o) && OpenedBy(lines, i, p)
    ensures o == p
  {
    hide Closes, IsFence;
    if o != p {
      OpenInside(lines, i, if o < p then o else p, if o < p then p else o);
      assert false;
    }
  }

  lemma OpenInside(lines: seq<string>, i: nat, o: nat, p: nat)
    requires OpenedBy(lines, i, o) && o < p < i
    ensures InCode(lines, p)
  {
    hide Closes, Opens;
  }

  lemma Opened(lines: seq<string>, i: nat)
    requires i <= |lines|
    ensures InCode(lines, i) <==> exists o: nat :: OpenedBy(lines, i, o)
  {
    hide Closes, IsFence;
    if InCode(lines, i) {
      var o :| 0 <= o < i && Opens(lines, o) && forall k | o < k < i :: !Closes(lines[o], lines[k]);
      assert OpenedBy(lines, i, o);
    }
  }

  /** An opener that is open behind line `i` was open before it, or is that line. */
  lemma OpenedEarlier(lines: seq<string>, i: nat, o: nat)
    requires i < |lines|
    ensures OpenedBy(lines, i + 1, o)
      <==> (OpenedBy(lines, i, o) && !Closes(lines[o], lines[i])) || (o == i && Opens(lines, i))
  {
    hide Closes, Opens;
  }

  lemma RememberedNext(lines: seq<string>, i: nat, next: nat, fence: Option<Fence>)
    requires i < |lines| && next == i + 1 && Remembers(lines, i, fence)
    ensures Remembers(lines, next, NextFence(fence, lines[i]))
  {
    hide FenceOf, Closes, Opens, InCode;
    Opened(lines, i);
    Opened(lines, next);
    OpensMeaning(lines, i);
    FenceOfMeaning(lines[i], ' ', 0);
    if fence.None? {
      forall o: nat ensures OpenedBy(lines, next, o) <==> o == i && Opens(lines, i) {
        OpenedEarlier(lines, i, o);
      }
    } else {
      var o: nat :| OpenedBy(lines, i, o) && FenceOf(lines[o]) == fence;
      ClosesMeaning(lines[o], lines[i]);
      forall p: nat ensures OpenedBy(lines, next, p) <==> p == o && !Closes(lines[o], lines[i]) {
        OpenedEarlier(lines, i, p);
        if OpenedBy(lines, i, p) {
          OneOpener(lines, i, o, p);
        }
      }
    }
  }

  lemma OpensMeaning(lines: seq<string>, i: nat)
    requires i < |lines|
    ensures Opens(lines, i) <==> IsFence(lines[i]) && !InCode(lines, i)
  {
  }

  lemma {:induction false} AutomatonRemembers(lines: seq<string>, i: nat)
    requires i <= |lines|
    ensures Remembers(lines, i, FenceAt(None, lines, i))
    ensures FenceAt(None, lines, i).Some? <==> InCode(lines, i)
  {
    hide NextFence, InCode, OpenedBy, FenceOf;
    if i == 0 {
      NothingOpen(lines);
    } else {
      AutomatonRemembers(lines, i - 1);
      RememberedNext(lines, i - 1, i, FenceAt(None, lines, i - 1));
    }
    Opened(lines, i);
  }

  lemma NothingOpen(lines: seq<string>)
    ensures !InCode(lines, 0)
  {
  }

  // ----- what is blanked

  lemma {:induction false} FenceAtSuffix(open: Option<Fence>, lines: seq<string>, i: nat)
    requires 0 < i <= |lines|
    ensures FenceAt(open, lines, i) == FenceAt(NextFence(open, lines[0]), lines[1..], i - 1)
  {
    hide NextFence;
    if i > 1 {
      FenceAtSuffix(open, lines, i - 1);
      assert lines[1..][i - 2] == lines[i - 1];
    }
  }

  lemma {:induction false} BlankedAt(open: Option<Fence>, lines: seq<string>, i: nat)
    requires i < |lines|
    ensures BlankLines(open, lines)[i]
      == if FenceOf(lines[i]).Some? || FenceAt(open, lines, i).Some? then Blank(lines[i]) else lines[i]
    decreases i
  {
    hide NextFence, FenceOf, Blank;
    if i > 0 {
      FenceAtSuffix(open, lines, i);
      BlankedAt(NextFence(open, lines[0]), lines[1..], i - 1);
      assert BlankLines(open, lines)[i] == BlankLines(NextFence(open, lines[0]), lines[1..])[i - 1];
    }
  }

  /** Exactly the fenced lines become spaces, one for each code unit; every other line stays as it is. */
  lemma ExactlyFencedLinesAreBlanked(markdown: string)
    ensures var before, after := Split(markdown, '\n'), Split(WithoutFencedCode(markdown), '\n');
      && |after| == |before|
      && forall i | 0 <= i < |before| ::
           after[i] == if Fenced(before, i) then Spaces(Utf16Length(before[i])) else before[i]
  {
    var lines := Split(markdown, '\n');
    hide Split, WithoutFencedCode, FenceOf, InCode, IsFence, BlankLines;
    SplitOfBlanked(markdown);
    forall i | 0 <= i < |lines|
      ensures BlankLines(None, lines)[i]
        == if Fenced(lines, i) then Spaces(Utf16Length(lines[i])) else lines[i]
    {
      BlankedAt(None, lines, i);
      AutomatonRemembers(lines, i);
      FenceOfMeaning(lines[i], ' ', 0);
      assert Blank(lines[i]) == Spaces(Utf16Length(lines[i]));
    }
  }

  // ----- which headings there are

  /** What a line gives: a heading with its line number, unless it is fenced. */
  ghost function HeadingAt(read: Reader, lines: seq<string>, i: nat): Option<(HeadingLine, nat)> {
    if i < |lines| && !Fenced(lines, i) && read(lines[i]).Some? then Some((read(lines[i]).value, i + 1)) else None
  }

  /** The same, as the automaton sees it. */
  function ReadAt(read: Reader, open: Option<Fence>, lines: seq<string>, number: nat, i: nat)
      : Option<(HeadingLine, nat)>
  {
    if i >= |lines| then None
    else
      var heading := ReadOutside(read, FenceAt(open, lines, i), lines[i]);
      if heading.Some? then Some((heading.value, number + i)) else None
  }

  lemma {:induction false} FoundIsSelected(read: Reader, open: Option<Fence>, lines: seq<string>, number: nat)
    ensures Found(read, open, lines, number)
         == Selected(|lines|, (i: nat) => ReadAt(read, open, lines, number, i))
    decreases |lines|
  {
    hide NextFence, ReadOutside, FenceAt;
    if lines != [] {
      var image := (i: nat) => ReadAt(read, open, lines, number, i);
      var next, rest := NextFence(open, lines[0]), lines[1..];
      var tail := (i: nat) => ReadAt(read, next, rest, number + 1, i);
      FoundIsSelected(read, next, rest, number + 1);
      StartOfLines(open, lines);
      forall i: nat | i < |rest| ensures tail(i) == image(i + 1) {
        FenceAtSuffix(open, lines, i + 1);
      }
      SelectedFirst(|rest|, image, tail);
    }
  }

  lemma StartOfLines(open: Option<Fence>, lines: seq<string>)
    ensures FenceAt(open, lines, 0) == open
  {
  }

  /** The headings are those of the lines that are not fenced, each once and in order, under their line numbers. */
  lemma HeadingsAreOutside(read: Reader, markdown: string)
    ensures var lines := Split(markdown, '\n');
      Selects(|lines|, (i: nat) => HeadingAt(read, lines, i), Found(read, None, lines, 1))
  {
    var lines := Split(markdown, '\n');
    hide Split, Selects, Found, FenceOf, InCode, IsFence;
    var image, seen := (i: nat) => HeadingAt(read, lines, i), (i: nat) => ReadAt(read, None, lines, 1, i);
    FoundIsSelected(read, None, lines, 1);
    forall i: nat | i < |lines| ensures seen(i) == image(i) {
      AutomatonRemembers(lines, i);
      FenceOfMeaning(lines[i], ' ', 0);
    }
    SelectedAlike(|lines|, seen, image);
    SelectedMeaning(|lines|, image);
  }
}
