/**
 * The path filters of the Git Markdown source: a glob is compiled to the text of a regular expression, which
 * the regular-expression engine then parses and matches.
 */
module Glob {
  import opened Wrappers

  // ----- the compiler

  const SYNTAX_CHARACTERS := "|\\{}()[]^$+?."

  function Escaped(c: char): string {
    if c in SYNTAX_CHARACTERS then ['\\', c] else [c]
  }

  /** The next piece of a non-empty pattern: the text it emits and how many characters it covers. */
  function Piece(pattern: string): (r: (string, nat))
    requires pattern != []
    ensures 1 <= r.1 <= |pattern|
  {
    if "**/" <= pattern then ("(?:.*/)?", 3)
    else if "**" <= pattern then (".*", 2)
    else if pattern[0] == '*' then ("[^/]*", 1)
    else if pattern[0] == '?' then ("[^/]", 1)
    else (Escaped(pattern[0]), 1)
  }

  function Emitted(pattern: string): string
    decreases |pattern|
  {
    if pattern == [] then []
    else Piece(pattern).0 + Emitted(pattern[Piece(pattern).1..])
  }

  /** The text between `new RegExp(` and `, "u")`. */
  method CompileGlob(pattern: string) returns (expression: string)
    ensures expression == "^" + Emitted(pattern) + "$"
  {
    hide Emitted;
    expression := "^";
    var index := 0;
    while index < |pattern|
      invariant 0 <= index <= |pattern|
      invariant expression + Emitted(pattern[index..]) == "^" + Emitted(pattern)
    {
      EmitPiece(expression, pattern, index);
      ghost var (text, width) := Piece(pattern[index..]);
      ghost var emitted, next := expression + text, index + width;
      var character := pattern[index];
      if character == '*' {
        if index + 1 < |pattern| && pattern[index + 1] == '*' {
          index := index + 1;
          if index + 1 < |pattern| && pattern[index + 1] == '/' {
            index := index + 1;
            expression := expression + "(?:.*/)?";
          } else {
            expression := expression + ".*";
          }
        } else {
          expression := expression + "[^/]*";
        }
      } else if character == '?' {
        expression := expression + "[^/]";
      } else {
        expression := expression + Escaped(character);
      }
      index := index + 1;
      assert index == next && expression == emitted;
    }
    assert pattern[index..] == [];
    assert expression + Emitted([]) == expression by { EmittedNothing(); }
    expression := expression + "$";
  }

  lemma EmittedNothing()
    ensures Emitted([]) == []
  {
  }

  lemma EmitPiece(expression: string, pattern: string, index: nat)
    requires index < |pattern|
    ensures var (text, width) := Piece(pattern[index..]);
      expression + Emitted(pattern[index..]) == expression + text + Emitted(pattern[index + width..])
  {
    var (text, width) := Piece(pattern[index..]);
    assert pattern[index..][width..] == pattern[index + width..];
  }

  // ----- the regular expressions it emits

  datatype Regex =
    | Empty
    | Char(c: char)
    | Dot
    | NotSlash
    | Concat(left: Regex, right: Regex)
    | Star(body: Regex)
    | Optional(body: Regex)

  /** The four characters that `.` does not match without the `s` flag. */
  predicate IsLineTerminator(c: char) {
    c == '\n' || c == '\r' || c == '\U{2028}' || c == '\U{2029}'
  }

  /** Membership of `s` in the language of `r`. */
  ghost predicate Matches(r: Regex, s: string)
    decreases r, |s|
  {
    match r
    case Empty => s == []
    case Char(c) => s == [c]
    case Dot => |s| == 1 && !IsLineTerminator(s[0])
    case NotSlash => |s| == 1 && s[0] != '/'
    case Concat(left, right) => exists i | 0 <= i <= |s| :: Matches(left, s[..i]) && Matches(right, s[i..])
    case Star(body) => s == [] || exists i | 0 < i <= |s| :: Matches(body, s[..i]) && Matches(r, s[i..])
    case Optional(body) => s == [] || Matches(body, s)
  }

  // ----- the parser of the engine, on the fragment

  /** An unescaped pattern character stands for itself unless it is one of these. */
  predicate IsSyntaxCharacter(c: char) {
    c in "^$\\.*+?()[]{}|"
  }

  /** One atom and the text after it. `Disjunction` is parsed without its `|` alternatives. */
  function ParseAtom(text: string): (r: Option<(Regex, string)>)
    ensures r.Some? ==> |r.value.1| < |text|
    decreases |text|, 0
  {
    if text == [] then None
    else if text[0] == '.' then Some((Dot, text[1..]))
    else if "[^/]" <= text then Some((NotSlash, text[4..]))
    else if "(?:" <= text then
      var (body, rest) :- ParseTerms(text[3..]);
      if rest != [] && rest[0] == ')' then Some((body, rest[1..])) else None
    else if text[0] == '\\' then
      if |text| > 1 && (IsSyntaxCharacter(text[1]) || text[1] == '/') then Some((Char(text[1]), text[2..])) else None
    else if IsSyntaxCharacter(text[0]) then None
    else Some((Char(text[0]), text[1..]))
  }

  function Quantified(atom: Regex, text: string): (r: (Regex, string))
    ensures |r.1| <= |text|
  {
    if text != [] && text[0] == '*' then (Star(atom), text[1..])
    else if text != [] && text[0] == '?' then (Optional(atom), text[1..])
    else (atom, text)
  }

  /** Quantified atoms up to a closing parenthesis, the final anchor or the end of the text. */
  function ParseTerms(text: string): (r: Option<(Regex, string)>)
    ensures r.Some? ==> |r.value.1| <= |text|
    decreases |text|, 1
  {
    if text == [] || text[0] == ')' || text[0] == '$' then Some((Empty, text))
    else
      var (atom, afterAtom) :- ParseAtom(text);
      var (term, afterTerm) := Quantified(atom, afterAtom);
      if afterTerm != [] && afterTerm[0] in "*+?{" then None
      else
        var (terms, rest) :- ParseTerms(afterTerm);
        Some((Concat(term, terms), rest))
  }

  function ParseRegex(text: string): Option<Regex> {
    if "^" <= text then
      var (terms, rest) :- ParseTerms(text[1..]);
      if rest == "$" then Some(terms) else None
    else None
  }

  /** `new RegExp(text, "u").test(path)`; a text outside the fragment would be a `SyntaxError`. */
  ghost predicate TestRegex(text: string, path: string) {
    match ParseRegex(text)
    case Some(r) => Matches(r, path)
    case None => false
  }

  ghost predicate PathGlobMatches(pattern: string, path: string) {
    TestRegex("^" + Emitted(pattern) + "$", path)
  }

  // ----- the emitted text parses to the intended expression

  function PieceRegex(pattern: string): Regex
    requires pattern != []
  {
    if "**/" <= pattern then Optional(Concat(Star(Dot), Concat(Char('/'), Empty)))
    else if "**" <= pattern then Star(Dot)
    else if pattern[0] == '*' then Star(NotSlash)
    else if pattern[0] == '?' then NotSlash
    else Char(pattern[0])
  }

  function GlobRegex(pattern: string): Regex
    decreases |pattern|
  {
    if pattern == [] then Empty
    else Concat(PieceRegex(pattern), GlobRegex(pattern[Piece(pattern).1..]))
  }

  /** No emitted text starts with a character that would quantify what stands before it. */
  lemma EmittedStartsAtom(pattern: string)
    ensures (Emitted(pattern) + "$")[0] !in "*+?{)"
    ensures pattern != [] ==> (Emitted(pattern) + "$")[0] != '$'
  {
    if pattern != [] {
      assert Emitted(pattern)[0] == Piece(pattern).0[0];
    }
  }

  lemma ParseDirectories(rest: string)
    ensures ParseAtom("(?:.*/)?" + rest) == Some((Concat(Star(Dot), Concat(Char('/'), Empty)), "?" + rest))
  {
    var text := "(?:.*/)?" + rest;
    assert text[3..] == ".*/)?" + rest;
    assert (".*/)?" + rest)[1..] == "*/)?" + rest;
    assert ("*/)?" + rest)[1..] == "/)?" + rest;
    assert ("/)?" + rest)[1..] == ")?" + rest;
    assert (")?" + rest)[1..] == "?" + rest;
    assert ParseTerms(")?" + rest) == Some((Empty, ")?" + rest));
    assert ParseTerms("/)?" + rest) == Some((Concat(Char('/'), Empty), ")?" + rest));
    assert ParseTerms(".*/)?" + rest) == Some((Concat(Star(Dot), Concat(Char('/'), Empty)), ")?" + rest));
  }

  lemma ParseStar(rest: string)
    ensures ParseAtom(".*" + rest) == Some((Dot, "*" + rest))
    ensures ParseAtom("[^/]*" + rest) == Some((NotSlash, "*" + rest))
    ensures ("*" + rest)[1..] == rest
  {
    assert (".*" + rest)[1..] == "*" + rest;
    assert "[^/]" <= "[^/]*" + rest;
    assert ("[^/]*" + rest)[4..] == "*" + rest;
  }

  lemma ParseCharacter(c: char, rest: string)
    requires c != '*'
    ensures ParseAtom(Escaped(c) + rest) == Some((Char(c), rest))
  {
    var text := Escaped(c) + rest;
    assert text[|Escaped(c)|..] == rest;
    assert text[0] == Escaped(c)[0];
    if c in SYNTAX_CHARACTERS {
      assert text[1] == c;
    }
  }

  lemma ParsePiece(pattern: string, rest: string)
    requires pattern != []
    requires rest != [] && rest[0] !in "*+?{"
    ensures ParseAtom(Piece(pattern).0 + rest).Some?
    ensures var (atom, afterAtom) := ParseAtom(Piece(pattern).0 + rest).value;
      Quantified(atom, afterAtom) == (PieceRegex(pattern), rest)
  {
    hide ParseAtom;
    if "**/" <= pattern {
      ParseDirectories(rest);
      assert ("?" + rest)[1..] == rest;
    } else if pattern[0] == '*' {
      ParseStar(rest);
    } else if pattern[0] == '?' {
      ParseSegmentCharacter(rest);
    } else {
      ParseCharacter(pattern[0], rest);
    }
  }

  lemma ParseSegmentCharacter(rest: string)
    ensures ParseAtom("[^/]" + rest) == Some((NotSlash, rest))
  {
    assert ("[^/]" + rest)[4..] == rest;
  }

  /** The engine reads the emitted text as the expression that the glob's pieces denote. */
  lemma {:induction false} EmittedParses(pattern: string)
    ensures ParseTerms(Emitted(pattern) + "$") == Some((GlobRegex(pattern), "$"))
    decreases |pattern|
  {
    if pattern != [] {
      hide ParseAtom, Quantified, PieceRegex, Piece;
      var (piece, width) := Piece(pattern);
      var rest := Emitted(pattern[width..]) + "$";
      assert Emitted(pattern) + "$" == piece + rest;
      EmittedStartsAtom(pattern);
      EmittedStartsAtom(pattern[width..]);
      ParsePiece(pattern, rest);
      EmittedParses(pattern[width..]);
    } else {
      assert Emitted(pattern) + "$" == "$";
    }
  }

  // ----- the direct meaning of a glob

  ghost predicate OneLine(s: string) {
    forall i | 0 <= i < |s| :: !IsLineTerminator(s[i])
  }

  ghost predicate InOneSegment(s: string) {
    '/' !in s
  }

  ghost predicate GlobMatches(pattern: string, path: string)
    decreases |pattern|
  {
    if pattern == [] then
      path == []
    else if "**/" <= pattern then
      || GlobMatches(pattern[3..], path)
      || exists i | 0 < i <= |path| ::
           path[i - 1] == '/' && OneLine(path[..i]) && GlobMatches(pattern[3..], path[i..])
    else if "**" <= pattern then
      exists i | 0 <= i <= |path| :: OneLine(path[..i]) && GlobMatches(pattern[2..], path[i..])
    else if pattern[0] == '*' then
      exists i | 0 <= i <= |path| :: InOneSegment(path[..i]) && GlobMatches(pattern[1..], path[i..])
    else
      && path != []
      && (if pattern[0] == '?' then path[0] != '/' else path[0] == pattern[0])
      && GlobMatches(pattern[1..], path[1..])
  }

  lemma {:induction false} StarOfDot(s: string)
    ensures Matches(Star(Dot), s) <==> OneLine(s)
    decreases |s|
  {
    if s != [] {
      StarOfDot(s[1..]);
      assert s[..1] == [s[0]];
      if OneLine(s) {
        assert Matches(Dot, s[..1]) && Matches(Star(Dot), s[1..]);
      }
      if Matches(Star(Dot), s) {
        var i :| 0 < i <= |s| && Matches(Dot, s[..i]) && Matches(Star(Dot), s[i..]);
        assert i == |s[..i]| == 1;
        assert s == [s[0]] + s[1..];
      }
    }
  }

  lemma {:induction false} StarOfNotSlash(s: string)
    ensures Matches(Star(NotSlash), s) <==> InOneSegment(s)
    decreases |s|
  {
    if s != [] {
      StarOfNotSlash(s[1..]);
      assert s[..1] == [s[0]] && s == [s[0]] + s[1..];
      if InOneSegment(s) {
        assert Matches(NotSlash, s[..1]) && Matches(Star(NotSlash), s[1..]);
      }
      if Matches(Star(NotSlash), s) {
        var i :| 0 < i <= |s| && Matches(NotSlash, s[..i]) && Matches(Star(NotSlash), s[i..]);
        assert i == |s[..i]| == 1;
      }
    }
  }

  /** `.*` followed by a slash: a run of directories on one line. */
  lemma DirectoriesRegex(s: string)
    ensures Matches(Concat(Star(Dot), Concat(Char('/'), Empty)), s)
       <==> s != [] && s[|s| - 1] == '/' && OneLine(s)
  {
    var slash := Concat(Char('/'), Empty);
    if Matches(Concat(Star(Dot), slash), s) {
      var i :| 0 <= i <= |s| && Matches(Star(Dot), s[..i]) && Matches(slash, s[i..]);
      StarOfDot(s[..i]);
      var k :| 0 <= k <= |s[i..]| && Matches(Char('/'), s[i..][..k]) && Matches(Empty, s[i..][k..]);
      assert s[i..] == s[i..][..k] == "/";
      assert s == s[..i] + "/";
    }
    if s != [] && s[|s| - 1] == '/' && OneLine(s) {
      var i := |s| - 1;
      StarOfDot(s[..i]);
      assert s[i..] == "/" && s[i..][..1] == "/" && s[i..][1..] == [];
      assert Matches(Char('/'), s[i..][..1]) && Matches(Empty, s[i..][1..]);
      assert Matches(slash, s[i..]);
    }
  }

  ghost predicate SplitMatches(left: Regex, right: Regex, s: string, i: nat)
    requires i <= |s|
  {
    Matches(left, s[..i]) && Matches(right, s[i..])
  }

  lemma ConcatSplits(left: Regex, right: Regex, s: string)
    ensures Matches(Concat(left, right), s) <==> exists i: nat | i <= |s| :: SplitMatches(left, right, s, i)
  {
    if i: nat :| i <= |s| && SplitMatches(left, right, s, i) {
      assert Matches(left, s[..i]) && Matches(right, s[i..]);
    }
    if Matches(Concat(left, right), s) {
      var i :| 0 <= i <= |s| && Matches(left, s[..i]) && Matches(right, s[i..]);
      assert SplitMatches(left, right, s, i);
    }
  }

  /** One way to match: the first piece takes `path[..i]`, the rest of the pattern takes the rest of the path. */
  ghost predicate PieceTakes(pattern: string, path: string, i: nat)
    requires pattern != [] && i <= |path|
  {
    Matches(PieceRegex(pattern), path[..i]) && GlobMatches(pattern[Piece(pattern).1..], path[i..])
  }

  lemma DirectoriesTake(pattern: string, path: string)
    requires "**/" <= pattern
    ensures GlobMatches(pattern, path) <==> exists i: nat | i <= |path| :: PieceTakes(pattern, path, i)
  {
    hide Matches;
    var run := Concat(Star(Dot), Concat(Char('/'), Empty));
    forall i: nat | i <= |path|
      ensures Matches(PieceRegex(pattern), path[..i])
         <==> i == 0 || (path[i - 1] == '/' && OneLine(path[..i]))
    {
      OptionalMeaning(run, path[..i]);
      DirectoriesRegex(path[..i]);
    }
    assert path[0..] == path;
    if GlobMatches(pattern, path) {
      if GlobMatches(pattern[3..], path) {
        assert PieceTakes(pattern, path, 0);
      } else {
        var i :| 0 < i <= |path| && path[i - 1] == '/' && OneLine(path[..i]) && GlobMatches(pattern[3..], path[i..]);
        assert PieceTakes(pattern, path, i);
      }
    }
  }

  lemma OptionalMeaning(body: Regex, s: string)
    ensures Matches(Optional(body), s) <==> s == [] || Matches(body, s)
  {
  }

  lemma RunTakes(pattern: string, path: string)
    requires "*" <= pattern && !("**/" <= pattern)
    ensures GlobMatches(pattern, path) <==> exists i: nat | i <= |path| :: PieceTakes(pattern, path, i)
  {
    hide Matches;
    forall i: nat | i <= |path|
      ensures Matches(PieceRegex(pattern), path[..i])
         <==> if "**" <= pattern then OneLine(path[..i]) else InOneSegment(path[..i])
    {
      StarOfDot(path[..i]);
      StarOfNotSlash(path[..i]);
    }
    if GlobMatches(pattern, path) {
      var i :| 0 <= i <= |path| && Matches(PieceRegex(pattern), path[..i])
               && GlobMatches(pattern[Piece(pattern).1..], path[i..]);
      assert PieceTakes(pattern, path, i);
    }
  }

  lemma CharacterTakes(pattern: string, path: string)
    requires pattern != [] && pattern[0] != '*'
    ensures GlobMatches(pattern, path) <==> exists i: nat | i <= |path| :: PieceTakes(pattern, path, i)
  {
    if path != [] {
      assert path[..1] == [path[0]];
      if GlobMatches(pattern, path) {
        assert PieceTakes(pattern, path, 1);
      }
    }
    if i: nat :| i <= |path| && PieceTakes(pattern, path, i) {
      assert |path[..i]| == 1;
      assert path[..i][0] == path[0];
    }
  }

  /** The language of the compiled expression is the direct meaning of the glob. */
  lemma {:induction false} GlobRegexMeaning(pattern: string, path: string)
    ensures Matches(GlobRegex(pattern), path) <==> GlobMatches(pattern, path)
    decreases |pattern|
  {
    if pattern != [] {
      hide Matches, GlobMatches;
      var rest := pattern[Piece(pattern).1..];
      var left, right := PieceRegex(pattern), GlobRegex(rest);
      ConcatSplits(left, right, path);
      forall i: nat | i <= |path|
        ensures SplitMatches(left, right, path, i) <==> PieceTakes(pattern, path, i)
      {
        GlobRegexMeaning(rest, path[i..]);
      }
      if "**/" <= pattern {
        DirectoriesTake(pattern, path);
      } else if pattern[0] == '*' {
        RunTakes(pattern, path);
      } else {
        CharacterTakes(pattern, path);
      }
    }
  }

  /**
   * Compiling a glob to regular-expression text, parsing that text and matching the path is the direct
   * meaning of the glob, for every glob and every path.
   */
  lemma CompiledGlobMeaning(pattern: string, path: string)
    ensures PathGlobMatches(pattern, path) <==> GlobMatches(pattern, path)
  {
    hide Matches, GlobMatches;
    EmittedParses(pattern);
    assert ("^" + Emitted(pattern) + "$")[1..] == Emitted(pattern) + "$";
    GlobRegexMeaning(pattern, path);
  }
}
