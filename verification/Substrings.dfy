/** Occurrences of one text in another. */
module Substrings {

  /** `s.includes(part)` */
  predicate Contains(s: string, part: string) {
    exists i | 0 <= i <= |s| :: part <= s[i..]
  }

  predicate ContainsAt(s: string, part: string, i: nat) {
    i + |part| <= |s| && s[i..i + |part|] == part
  }

  lemma ContainedAt(s: string, part: string) returns (i: nat)
    requires Contains(s, part)
    ensures ContainsAt(s, part, i)
  {
    i :| 0 <= i <= |s| && part <= s[i..];
    assert s[i..][..|part|] == s[i..i + |part|];
  }

  lemma ContainsIsAt(s: string, part: string, i: nat)
    requires ContainsAt(s, part, i)
    ensures Contains(s, part)
  {
    assert s[i..][..|part|] == s[i..i + |part|];
    assert part <= s[i..];
  }

  /** An occurrence inside a stretch of a string is an occurrence in the string, shifted. */
  lemma Shifted(front: string, middle: string, back: string, part: string, i: nat)
    requires i + |part| <= |middle|
    ensures ContainsAt(middle, part, i) <==> ContainsAt(front + middle + back, part, |front| + i)
  {
    var s := front + middle + back;
    assert middle[i..i + |part|] == s[|front| + i..|front| + i + |part|];
  }

  lemma Widened(front: string, middle: string, back: string, part: string)
    requires Contains(middle, part)
    ensures Contains(front + middle + back, part)
  {
    var i := ContainedAt(middle, part);
    Shifted(front, middle, back, part, i);
    ContainsIsAt(front + middle + back, part, |front| + i);
  }
}
