/** How a link in a document is resolved to a path of its repository. */
module RelativeLinks {
  import opened Characters
  import opened RepositoryPaths
  import opened SplitText
  import opened Wrappers

  // ----- the syntax of a destination

  /** What `trim` removes. */
  predicate IsWhiteSpace(c: char) {
    || c in " \t\n\r\U{000B}\U{000C}\U{00A0}\U{1680}\U{2028}\U{2029}\U{202F}\U{205F}\U{3000}\U{FEFF}"
    || '\U{2000}' <= c <= '\U{200A}'
  }

  predicate IsBlank(s: string) {
    forall i | 0 <= i < |s| :: IsWhiteSpace(s[i])
  }

  function TrimStart(s: string): string {
    if s != [] && IsWhiteSpace(s[0]) then TrimStart(s[1..]) else s
  }

  function TrimEnd(s: string): string {
    if s != [] && IsWhiteSpace(s[|s| - 1]) then TrimEnd(s[..|s| - 1]) else s
  }

  /** One angle bracket off either end. */
  function Unbracketed(t: string): string {
    var u := if t != [] && t[0] == '<' then t[1..] else t;
    if u != [] && u[|u| - 1] == '>' then u[..|u| - 1] else u
  }

  function Bare(destination: string): string {
    Unbracketed(TrimEnd(TrimStart(destination)))
  }

  /** Text around which there may be blanks. */
  predicate IsTrimmed(s: string) {
    s != [] && !IsWhiteSpace(s[0]) && !IsWhiteSpace(s[|s| - 1])
  }

  lemma {:induction false} TrimStartOf(before: string, s: string)
    requires IsBlank(before) && s != [] && !IsWhiteSpace(s[0])
    ensures TrimStart(before + s) == s
  {
    hide IsWhiteSpace;
    if before == [] {
      assert before + s == s;
    } else {
      assert (before + s)[0] == before[0] && (before + s)[1..] == before[1..] + s;
      TrimStartOf(before[1..], s);
    }
  }

  lemma TrimEndStep(s: string, blank: char)
    requires IsWhiteSpace(blank)
    ensures TrimEnd(s + [blank]) == TrimEnd(s)
  {
    hide IsWhiteSpace;
    assert (s + [blank])[..|s|] == s;
  }

  lemma {:induction false} TrimEndOf(s: string, after: string)
    requires IsBlank(after) && s != [] && !IsWhiteSpace(s[|s| - 1])
    ensures TrimEnd(s + after) == s
  {
    hide IsWhiteSpace;
    if after == [] {
      assert s + after == s;
    } else {
      hide TrimEnd;
      var front, last := after[..|after| - 1], after[|after| - 1];
      TrimEndOf(s, front);
      TrimEndStep(s + front, last);
      assert s + front + [last] == s + after;
    }
  }

  lemma {:induction false} NothingIsLeft(blank: string)
    requires IsBlank(blank)
    ensures TrimStart(blank) == []
  {
    if blank != [] {
      NothingIsLeft(blank[1..]);
    }
  }

  lemma TrimsTo(before: string, s: string, after: string)
    requires IsBlank(before) && IsBlank(after) && IsTrimmed(s)
    ensures TrimEnd(TrimStart(before + s + after)) == s
  {
    hide IsBlank, IsWhiteSpace, TrimStart, TrimEnd;
    TrimStartOf(before, s + after);
    assert before + (s + after) == before + s + after;
    TrimEndOf(s, after);
  }

  lemma BareOf(before: string, s: string, after: string)
    requires IsBlank(before) && IsBlank(after) && IsTrimmed(s)
    ensures Bare(before + s + after) == Unbracketed(s)
  {
    hide Unbracketed, IsBlank, IsTrimmed, TrimStart, TrimEnd;
    TrimsTo(before, s, after);
  }

  /** Blanks around a destination do not matter, nor does a pair of angle brackets, nor one of the two. */
  lemma BareForms(before: string, s: string, after: string)
    requires IsBlank(before) && IsBlank(after)
    ensures IsTrimmed(s) && s[0] != '<' && s[|s| - 1] != '>' ==> Bare(before + s + after) == s
    ensures Bare(before + "<" + s + ">" + after) == s
    ensures IsTrimmed(s) && s[|s| - 1] != '>' ==> Bare(before + "<" + s + after) == s
    ensures IsTrimmed(s) && s[0] != '<' ==> Bare(before + s + ">" + after) == s
    ensures Bare(before) == []
  {
    NothingIsLeft(before);
    hide IsBlank, IsWhiteSpace, Bare, Unbracketed;
    BracketsAreNotBlank();
    BracketsComeOff(s);
    Regroup(before, "<", s, ">", after);
    BareOf(before, "<" + s + ">", after);
    if IsTrimmed(s) {
      Regroup(before, "<", s, [], after);
      Regroup(before, [], s, ">", after);
      BareOf(before, s, after);
      BareOf(before, "<" + s, after);
      BareOf(before, s + ">", after);
    }
  }

  lemma Regroup(a: string, b: string, c: string, d: string, e: string)
    ensures a + (b + c + d) + e == a + b + c + d + e
    ensures d == [] ==> a + (b + c) + e == a + b + c + e
    ensures b == [] ==> a + (c + d) + e == a + c + d + e
  {
    if d == [] {
      assert a + (b + c) + e == a + b + c + e;
    }
    if b == [] {
      assert a + (c + d) + e == a + c + d + e;
    }
  }

  lemma BracketsComeOff(s: string)
    ensures Unbracketed("<" + s + ">") == s
    ensures s != [] && s[0] != '<' && s[|s| - 1] != '>' ==> Unbracketed(s) == s
    ensures s != [] && s[|s| - 1] != '>' ==> Unbracketed("<" + s) == s
    ensures s != [] && s[0] != '<' ==> Unbracketed(s + ">") == s
  {
    assert ("<" + s + ">")[1..] == s + ">" && (s + ">")[..|s|] == s && ("<" + s)[1..] == s;
  }

  lemma BracketsAreNotBlank()
    ensures !IsWhiteSpace('<') && !IsWhiteSpace('>')
  {
  }

  predicate IsLetter(c: char) {
    'A' <= c <= 'Z' || 'a' <= c <= 'z'
  }

  predicate IsSchemeCharacter(c: char) {
    IsLetter(c) || '0' <= c <= '9' || c in "+.-"
  }

  /** `/^[A-Za-z][A-Za-z0-9+.-]*:/` */
  predicate HasScheme(s: string) {
    exists i | 0 < i < |s| :: s[i] == ':' && IsLetter(s[0]) && forall k | 0 <= k < i :: IsSchemeCharacter(s[k])
  }

  /** The text before the first `?` or `#`. */
  function BeforeQuery(s: string): (r: string)
    ensures r <= s && '?' !in r && '#' !in r
    ensures |r| < |s| ==> s[|r|] in "?#"
  {
    if s == [] || s[0] in "?#" then [] else [s[0]] + BeforeQuery(s[1..])
  }

  /** The destination is refused without being resolved. */
  predicate IsRefused(bare: string) {
    || bare == []
    || bare[0] == '/'
    || '\\' in bare
    || (exists i | 0 <= i < |bare| :: IsControl(bare[i]))
    || HasScheme(bare)
    || BeforeQuery(bare) == []
  }

  // ----- resolution

  predicate IsName(segment: string) {
    segment != "" && segment != "." && segment != ".."
  }

  /** Where the remaining segments lead from this stack of names; `None` above the root. */
  function ResolveFrom(resolved: seq<string>, segments: seq<string>): Option<seq<string>>
    decreases |segments|
  {
    if segments == [] then Some(resolved)
    else if segments[0] == "" || segments[0] == "." then ResolveFrom(resolved, segments[1..])
    else if segments[0] == ".." then
      if resolved == [] then None else ResolveFrom(resolved[..|resolved| - 1], segments[1..])
    else ResolveFrom(resolved + [segments[0]], segments[1..])
  }

  function Directory(documentPath: string): seq<string> {
    var segments := Split(documentPath, '/');
    segments[..|segments| - 1]
  }

  function RepositoryPathFromLink(destination: string, documentPath: string): Option<string> {
    var bare := Bare(destination);
    if IsRefused(bare) then None
    else
      var resolved :- ResolveFrom([], Directory(documentPath) + Split(BeforeQuery(bare), '/'));
      var path := Join(resolved, '/');
      if IsRepositoryPath(path) then Some(path) else None
  }

  /** The loop that pushes and pops names. */
  method ResolveSegments(segments: seq<string>) returns (result: Option<seq<string>>)
    ensures result == ResolveFrom([], segments)
  {
    var resolved: seq<string> := [];
    assert segments[0..] == segments;
    for i := 0 to |segments|
      invariant ResolveFrom(resolved, segments[i..]) == ResolveFrom([], segments)
    {
      assert segments[i..][0] == segments[i] && segments[i..][1..] == segments[i + 1..];
      var segment := segments[i];
      if |segment| == 0 || segment == "." {
        continue;
      }
      if segment == ".." {
        if |resolved| == 0 {
          return None;
        }
        resolved := resolved[..|resolved| - 1];
        continue;
      }
      resolved := resolved + [segment];
    }
    return Some(resolved);
  }

  // ----- when resolution is defined

  /** Names entered minus climbs. */
  function Depth(segments: seq<string>): int {
    if segments == [] then 0
    else
      var last := segments[|segments| - 1];
      Depth(segments[..|segments| - 1]) + (if last == ".." then -1 else if IsName(last) then 1 else 0)
  }

  lemma {:induction false} DepthOfConcat(a: seq<string>, b: seq<string>)
    ensures Depth(a + b) == Depth(a) + Depth(b)
  {
    if b == [] {
      assert a + b == a;
    } else {
      DepthOfConcat(a, b[..|b| - 1]);
      assert (a + b)[..|a + b| - 1] == a + b[..|b| - 1];
    }
  }

  /** Some prefix of the segments leads above the directory that lies this deep. */
  predicate Climbs(depth: int, segments: seq<string>) {
    exists k | 0 <= k <= |segments| :: depth + Depth(segments[..k]) < 0
  }

  lemma ClimbsStep(depth: nat, segments: seq<string>)
    requires segments != []
    ensures var step := if segments[0] == ".." then -1 else if IsName(segments[0]) then 1 else 0;
      Climbs(depth, segments) <==> depth + step < 0 || Climbs(depth + step, segments[1..])
  {
    var head := segments[..1];
    var step := Depth(head);
    assert head[..0] == [] && Depth([]) == 0;
    forall k | 0 <= k <= |segments| - 1 ensures Depth(segments[..k + 1]) == step + Depth(segments[1..][..k]) {
      DepthOfConcat(head, segments[1..][..k]);
      assert segments[..k + 1] == head + segments[1..][..k];
    }
    if Climbs(depth, segments) {
      var k :| 0 <= k <= |segments| && depth + Depth(segments[..k]) < 0;
      assert segments[..0] == [];
      assert k > 0;
      assert depth + step + Depth(segments[1..][..k - 1]) < 0;
    }
    if depth + step < 0 {
      assert depth + Depth(segments[..1]) < 0;
    }
    if Climbs(depth + step, segments[1..]) {
      var k :| 0 <= k <= |segments| - 1 && depth + step + Depth(segments[1..][..k]) < 0;
      assert depth + Depth(segments[..k + 1]) < 0;
    }
  }

  predicate AllNames(segments: seq<string>) {
    forall i | 0 <= i < |segments| :: IsName(segments[i])
  }

  /** Resolution fails exactly when a prefix climbs above the root; its result is names only, at the depth reached. */
  lemma {:induction false} ResolvesIffNeverClimbs(resolved: seq<string>, segments: seq<string>)
    requires AllNames(resolved)
    ensures var r := ResolveFrom(resolved, segments);
      && (r.None? <==> Climbs(|resolved|, segments))
      && (r.Some? ==> AllNames(r.value) && |r.value| == |resolved| + Depth(segments))
    decreases |segments|
  {
    if segments == [] {
      assert segments[..0] == [];
    } else {
      ClimbsStep(|resolved|, segments);
      var rest := segments[1..];
      DepthOfConcat(segments[..1], rest);
      assert segments == segments[..1] + rest;
      assert segments[..1][..0] == [];
      if segments[0] == ".." {
        if resolved != [] {
          ResolvesIffNeverClimbs(resolved[..|resolved| - 1], rest);
        }
      } else if IsName(segments[0]) {
        ResolvesIffNeverClimbs(resolved + [segments[0]], rest);
      } else {
        ResolvesIffNeverClimbs(resolved, rest);
      }
    }
  }

  /** Every path that a link resolves to is a legal repository path without empty, `.` or `..` segments. */
  lemma ResolvedIsClean(destination: string, documentPath: string)
    ensures var r := RepositoryPathFromLink(destination, documentPath);
      r.Some? ==> IsRepositoryPath(r.value) && AllNames(Split(r.value, '/'))
  {
    var r, bare := RepositoryPathFromLink(destination, documentPath), Bare(destination);
    if r.Some? {
      var segments := Directory(documentPath) + Split(BeforeQuery(bare), '/');
      ResolvesIffNeverClimbs([], segments);
      JoinOfSplit(documentPath, '/');
      JoinOfSplit(BeforeQuery(bare), '/');
      var names := ResolveFrom([], segments).value;
      ResolvedComesFrom([], segments);
      assert Join([], '/') == [];
      SplitOfJoin(names, '/');
    }
  }

  predicate WithoutSlash(segments: seq<string>) {
    forall i | 0 <= i < |segments| :: '/' !in segments[i]
  }

  lemma {:induction false} ResolvedComesFrom(resolved: seq<string>, segments: seq<string>)
    requires WithoutSlash(resolved) && WithoutSlash(segments)
    ensures var r := ResolveFrom(resolved, segments); r.Some? ==> WithoutSlash(r.value)
    decreases |segments|
  {
    if segments != [] {
      assert WithoutSlash(segments[1..]);
      if segments[0] == "" || segments[0] == "." {
        ResolvedComesFrom(resolved, segments[1..]);
      } else if segments[0] == ".." {
        if resolved != [] {
          ResolvedComesFrom(resolved[..|resolved| - 1], segments[1..]);
        }
      } else {
        ResolvedComesFrom(resolved + [segments[0]], segments[1..]);
      }
    }
  }

  /** Exactly when a link resolves: it is not refused, never climbs above the root, and ends at a legal path. */
  lemma ResolvesExactly(destination: string, documentPath: string)
    ensures var bare := Bare(destination);
      var segments := Directory(documentPath) + Split(BeforeQuery(bare), '/');
      RepositoryPathFromLink(destination, documentPath).Some?
      <==> && !IsRefused(bare)
           && !Climbs(0, segments)
           && var resolved := ResolveFrom([], segments); resolved.Some? ==> IsRepositoryPath(Join(resolved.value, '/'))
  {
    ResolvesIffNeverClimbs([], Directory(documentPath) + Split(BeforeQuery(Bare(destination)), '/'));
  }

  // ----- queries and fragments

  predicate IsClean(s: string) {
    '\\' !in s && forall i | 0 <= i < |s| :: !IsControl(s[i])
  }

  lemma {:induction false} BeforeTheQuery(s: string, mark: char, rest: string)
    requires mark in "?#"
    ensures BeforeQuery(s + [mark] + rest) == BeforeQuery(s)
  {
    var all := s + [mark] + rest;
    if s != [] {
      assert all[0] == s[0] && all[1..] == s[1..] + [mark] + rest;
      BeforeTheQuery(s[1..], mark, rest);
    }
  }

  lemma SchemeBeforeMark(s: string, mark: char, rest: string)
    requires mark in "?#"
    ensures HasScheme(s + [mark] + rest) <==> HasScheme(s)
  {
    var all := s + [mark] + rest;
    assert all[|s|] == mark && !IsSchemeCharacter(mark) && mark != ':';
    assert forall k | 0 <= k < |s| :: all[k] == s[k];
  }

  /**
   * A question mark or a hash, with any text after it, changes nothing about where a link leads, except that a
   * backslash or a control character in that text has the link refused.
   */
  lemma QueryDoesNotMatter(link: string, queried: string, mark: char, rest: string, documentPath: string)
    requires mark in "?#" && Bare(queried) == Bare(link) + [mark] + rest
    ensures RepositoryPathFromLink(queried, documentPath)
      == if IsClean(rest) then RepositoryPathFromLink(link, documentPath) else None
  {
    hide Bare, ResolveFrom, Directory, Split, Join, IsRepositoryPath, HasScheme, BeforeQuery;
    var s := Bare(link);
    BeforeTheQuery(s, mark, rest);
    SchemeBeforeMark(s, mark, rest);
    RefusedWithQuery(s, mark, rest);
  }

  lemma RefusedWithQuery(s: string, mark: char, rest: string)
    requires mark in "?#"
    requires BeforeQuery(s + [mark] + rest) == BeforeQuery(s) && (HasScheme(s + [mark] + rest) <==> HasScheme(s))
    ensures IsRefused(s + [mark] + rest) <==> IsRefused(s) || !IsClean(rest)
  {
    hide HasScheme;
    var all := s + [mark] + rest;
    assert all[|s|] == mark && !IsControl(mark);
    assert forall k | 0 <= k < |s| :: all[k] == s[k];
    assert forall k | 0 <= k < |rest| :: all[|s| + 1 + k] == rest[k];
    assert forall k | |s| < k < |all| :: all[k] == rest[k - |s| - 1];
    if s == [] {
      assert BeforeQuery(s) == [];
    }
  }

  // ----- relative links

  /** Up to the ancestor that lies `common` deep, and down to the target. */
  function Relative(directory: seq<string>, target: seq<string>, common: nat): seq<string>
    requires common <= |directory| && common <= |target|
  {
    seq(|directory| - common, _ => "..") + target[common..]
  }

  lemma {:induction false} EntersNames(resolved: seq<string>, names: seq<string>, rest: seq<string>)
    requires AllNames(names)
    ensures ResolveFrom(resolved, names + rest) == ResolveFrom(resolved + names, rest)
    decreases |names|
  {
    if names == [] {
      assert names + rest == rest && resolved + names == resolved;
    } else {
      assert (names + rest)[1..] == names[1..] + rest;
      EntersNames(resolved + [names[0]], names[1..], rest);
      assert resolved + [names[0]] + names[1..] == resolved + names;
    }
  }

  lemma {:induction false} Leaves(resolved: seq<string>, n: nat, rest: seq<string>)
    requires n <= |resolved|
    ensures ResolveFrom(resolved, seq(n, _ => "..") + rest) == ResolveFrom(resolved[..|resolved| - n], rest)
    decreases n
  {
    var ups := seq(n, _ => "..");
    if n == 0 {
      assert ups + rest == rest && resolved[..|resolved|] == resolved;
    } else {
      assert (ups + rest)[1..] == seq(n - 1, _ => "..") + rest;
      Leaves(resolved[..|resolved| - 1], n - 1, rest);
      assert resolved[..|resolved| - 1][..|resolved| - n] == resolved[..|resolved| - n];
    }
  }

  /** The relative link through any common ancestor leads back to the target. */
  lemma RelativeLinkResolves(directory: seq<string>, target: seq<string>, common: nat)
    requires AllNames(directory) && AllNames(target)
    requires common <= |directory| && common <= |target| && directory[..common] == target[..common]
    ensures ResolveFrom([], directory + Relative(directory, target, common)) == Some(target)
  {
    var n := |directory| - common;
    var ups := seq(n, _ => "..");
    EntersNames([], directory, ups + target[common..]);
    assert [] + directory == directory;
    assert target[..common] == directory[..|directory| - n];
    hide ResolveFrom;
    Leaves(directory, n, target[common..]);
    EntersNames(target[..common], target[common..], []);
    assert target[common..] + [] == target[common..] && target[..common] + target[common..] == target;
  }

  /** A text that stands for itself as a destination. */
  predicate IsPlain(s: string) {
    && IsTrimmed(s) && s[0] != '<' && s[|s| - 1] != '>' && s[0] != '/'
    && IsClean(s) && '?' !in s && '#' !in s
    && !HasScheme(s)
  }

  lemma NoQuery(s: string)
    requires '?' !in s && '#' !in s
    ensures BeforeQuery(s) == s
  {
    var r := BeforeQuery(s);
    assert s[..|s|] == s;
  }

  lemma PlainStandsForItself(s: string)
    requires IsPlain(s)
    ensures Bare(s) == s && BeforeQuery(s) == s && !IsRefused(s)
  {
    hide IsWhiteSpace, Bare, BeforeQuery, HasScheme;
    BareForms([], s, []);
    assert [] + s + [] == s;
    NoQuery(s);
    hide IsBlank;
  }

  /** And so does its text, for names that a destination can spell, with or without blanks and angle brackets. */
  lemma RelativeDestinationResolves(
      directory: seq<string>, file: string, target: seq<string>, common: nat, destination: string)
    requires AllNames(directory) && AllNames(target) && common <= |directory| && common < |target|
    requires directory[..common] == target[..common]
    requires '/' !in file && WithoutSlash(directory) && WithoutSlash(target)
    requires IsRepositoryPath(Join(target, '/'))
    requires IsPlain(Join(Relative(directory, target, common), '/'))
    requires exists before, after | IsBlank(before) && IsBlank(after) ::
      || destination == before + Join(Relative(directory, target, common), '/') + after
      || destination == before + "<" + Join(Relative(directory, target, common), '/') + ">" + after
    ensures RepositoryPathFromLink(destination, Join(directory + [file], '/')) == Some(Join(target, '/'))
  {
    hide Split, Join, Relative, IsRefused, Bare, BeforeQuery, IsRepositoryPath, Depth, ResolveFrom, IsBlank;
    var relative := Relative(directory, target, common);
    var link := Join(relative, '/');
    PlainStandsForItself(link);
    var before, after :| IsBlank(before) && IsBlank(after)
      && (destination == before + link + after || destination == before + "<" + link + ">" + after);
    BareForms(before, link, after);
    RelativeTextResolves(directory, file, target, common);
  }

  lemma RelativeWithoutSlash(directory: seq<string>, target: seq<string>, common: nat)
    requires common <= |directory| && common < |target| && WithoutSlash(target)
    ensures WithoutSlash(Relative(directory, target, common)) && Relative(directory, target, common) != []
  {
  }

  lemma RelativeTextResolves(directory: seq<string>, file: string, target: seq<string>, common: nat)
    requires AllNames(directory) && AllNames(target) && common <= |directory| && common < |target|
    requires directory[..common] == target[..common]
    requires '/' !in file && WithoutSlash(directory) && WithoutSlash(target)
    ensures ResolveFrom([], Directory(Join(directory + [file], '/'))
                            + Split(Join(Relative(directory, target, common), '/'), '/'))
      == Some(target)
  {
    hide Split, Join, Relative, ResolveFrom, AllNames;
    RelativeWithoutSlash(directory, target, common);
    SplitOfJoin(Relative(directory, target, common), '/');
    SplitOfJoin(directory + [file], '/');
    assert (directory + [file])[..|directory|] == directory;
    RelativeLinkResolves(directory, target, common);
  }
}
