/** `JSON.stringify` on canonical values, and the proof that a reader of JSON gets the value back. */
module JsonText {
  import opened CanonicalJson
  import opened JsonReader
  import opened Wrappers

  /** `Number::toString`, as far as the proofs depend on it. */
  ghost predicate IsNumberText<N(!new)>(text: N -> string) {
    && (forall m, n :: text(m) == text(n) ==> m == n)
    && forall n :: text(n) != [] && AllNumberCharacters(text(n))
  }

  predicate AllNumberCharacters(s: string) {
    forall i | 0 <= i < |s| :: IsNumberCharacter(s[i])
  }

  // ----- the printer

  function HexDigit(n: nat): char
    requires n < 16
  {
    "0123456789abcdef"[n]
  }

  function Escape(c: char): (r: string)
    ensures r != [] && r[0] != '"'
  {
    if c == '"' then "\\\""
    else if c == '\\' then "\\\\"
    else if c as int == 8 then "\\b"
    else if c == '\t' then "\\t"
    else if c == '\n' then "\\n"
    else if c as int == 12 then "\\f"
    else if c == '\r' then "\\r"
    else if c as int < 32 then "\\u00" + [HexDigit(c as int / 16), HexDigit(c as int % 16)]
    else [c]
  }

  /** The rest of a string after some of its characters, with the closing quote. */
  function StringTail(s: string): string {
    if s == [] then "\"" else Escape(s[0]) + StringTail(s[1..])
  }

  function Quote(s: string): string {
    "\"" + StringTail(s)
  }

  function Print<N>(v: Value<N>, text: N -> string): string
    decreases v
  {
    match v
    case Null => "null"
    case Bool(b) => if b then "true" else "false"
    case Number(n) => text(n)
    case Text(s) => Quote(s)
    case List(items) => "[" + PrintItems(items, text)
    case Object(members) => "{" + PrintMembers(members, text)
    case NonFinite => "null"
    case Unsupported => ""
  }

  function PrintItems<N>(items: seq<Value<N>>, text: N -> string): string
    decreases items, 1
  {
    if items == [] then "]" else Print(items[0], text) + PrintItemsTail(items[1..], text)
  }

  function PrintItemsTail<N>(items: seq<Value<N>>, text: N -> string): string
    decreases items, 0
  {
    if items == [] then "]" else "," + Print(items[0], text) + PrintItemsTail(items[1..], text)
  }

  function PrintMember<N>(m: Member<N>, text: N -> string): string
    decreases m, 0
  {
    Quote(m.key) + ":" + Print(m.value, text)
  }

  function PrintMembers<N>(members: seq<Member<N>>, text: N -> string): string
    decreases members, 1
  {
    if members == [] then "}" else PrintMember(members[0], text) + PrintMembersTail(members[1..], text)
  }

  function PrintMembersTail<N>(members: seq<Member<N>>, text: N -> string): string
    decreases members, 0
  {
    if members == [] then "}" else "," + PrintMember(members[0], text) + PrintMembersTail(members[1..], text)
  }

  /** `canonicalizeConfiguration`; `None` is the thrown `TypeError`. */
  function CanonicalizeConfiguration<N>(v: Value<N>, text: N -> string): Option<string> {
    var canonical :- Canonicalize(v);
    Some(Print(canonical, text))
  }

  // ----- reading the text

  /** What may follow a value inside a larger text. */
  ghost predicate EndsValue(rest: string) {
    rest == [] || rest[0] in ",]}"
  }

  /** Numbers are read back from what they are printed as. */
  ghost predicate ReadsNumbers<N(!new)>(number: string -> Option<N>, text: N -> string) {
    forall n :: text(n) != [] && AllNumberCharacters(text(n)) && number(text(n)) == Some(n)
  }

  lemma DigitIsRead(n: nat)
    requires n < 16
    ensures HexValue(HexDigit(n)) == Some(n)
  {
  }

  /** A control character without a letter of its own: four digits, of which the first two are zeros. */
  lemma ControlIsRead(c: char, rest: string)
    requires c as int < 32
    ensures var e := "\\u00" + [HexDigit(c as int / 16), HexDigit(c as int % 16)] + rest;
      ReadUnicode(e) == Some((c, 6))
  {
    var n := c as int;
    var digits := [HexDigit(n / 16), HexDigit(n % 16)];
    var e := "\\u00" + digits + rest;
    assert e[2..] == "00" + digits + rest;
    assert e[2] == '0' && e[3] == '0' && e[4] == digits[0] && e[5] == digits[1];
    DigitIsRead(n / 16);
    DigitIsRead(n % 16);
    hide HexDigit;
    assert ReadUnit(e[2..]) == Some(n);
  }

  /** A character is escaped only if it must be, and with a letter if there is one. */
  lemma EscapeIsShortest(c: char)
    ensures Escape(c) == [c] <==> c as int >= 0x20 && c != '"' && c != '\\'
    ensures |Escape(c)| == 2 <==> c in "\"\\\t\n\r" || c as int in {8, 12}
  {
  }

  lemma EscapeIsRead(c: char, rest: string)
    ensures ReadCharacter(Escape(c) + rest) == Some((c, |Escape(c)|))
    ensures (Escape(c) + rest)[0] != '"'
  {
    hide HexDigit, ReadUnicode;
    var s := Escape(c) + rest;
    assert s[0] == Escape(c)[0];
    assert |Escape(c)| > 1 ==> s[1] == Escape(c)[1];
    if |Escape(c)| == 6 {
      ControlIsRead(c, rest);
    }
  }

  lemma {:induction false} StringIsRead(t: string, rest: string)
    ensures ReadString(StringTail(t) + rest) == Some((t, rest))
  {
    if t == [] {
      assert ("\"" + rest)[1..] == rest;
    } else {
      var behind := StringTail(t[1..]) + rest;
      EscapeIsRead(t[0], behind);
      assert StringTail(t) + rest == Escape(t[0]) + behind;
      assert (Escape(t[0]) + behind)[|Escape(t[0])|..] == behind;
      StringIsRead(t[1..], rest);
      hide Escape, ReadCharacter;
      assert t == [t[0]] + t[1..];
    }
  }

  lemma {:induction false} NumberIsMeasured(digits: string, rest: string)
    requires AllNumberCharacters(digits) && EndsValue(rest)
    ensures NumberLength(digits + rest) == |digits|
  {
    if digits == [] {
      assert digits + rest == rest;
    } else {
      assert (digits + rest)[1..] == digits[1..] + rest;
      NumberIsMeasured(digits[1..], rest);
    }
  }

  lemma NumberIsRead<N(!new)>(n: N, rest: string, text: N -> string, number: string -> Option<N>)
    requires ReadsNumbers(number, text) && EndsValue(rest)
    ensures ReadPlain(text(n) + rest, number) == Some((Number(n), rest))
  {
    var s := text(n) + rest;
    assert AllNumberCharacters(text(n));
    NumberIsMeasured(text(n), rest);
    assert s[0] == text(n)[0] && IsNumberCharacter(s[0]);
    assert s[..|text(n)|] == text(n) && s[|text(n)|..] == rest;
    hide NumberLength;
  }

  lemma LiteralIsRead<N>(v: Value<N>, rest: string, text: N -> string, number: string -> Option<N>)
    requires v.Null? || v.Bool?
    ensures ReadPlain(Print(v, text) + rest, number) == Some((v, rest))
  {
    var s := Print(v, text) + rest;
    assert s[|Print(v, text)|..] == rest;
    assert s[0] == Print(v, text)[0];
  }

  /** How a printed value begins. */
  predicate Begins(s: string) {
    s != [] && !IsSpace(s[0]) && s[0] !in ",]}"
  }

  lemma PrintBegins<N(!new)>(v: Value<N>, rest: string, text: N -> string, number: string -> Option<N>)
    requires ReadsNumbers(number, text) && IsJson(v)
    ensures Begins(Print(v, text) + rest)
    ensures Skip(Print(v, text) + rest) == Print(v, text) + rest
    ensures var c := (Print(v, text) + rest)[0];
      && (c == '"' <==> v.Text?) && (c == '[' <==> v.List?) && (c == '{' <==> v.Object?)
  {
    assert (Print(v, text) + rest)[0] == Print(v, text)[0];
    if v.Number? {
      assert IsNumberCharacter(text(v.n)[0]);
    }
  }

  lemma BeginsStays(s: string)
    requires Begins(s)
    ensures Skip(s) == s
  {
  }

  lemma DelimiterStays(c: char, rest: string)
    requires c in ",]}:"
    ensures Skip([c] + rest) == [c] + rest && ([c] + rest)[1..] == rest
  {
  }

  /** Reading a printed value gives the value and what follows it, inside any larger text. */
  lemma {:induction false} PrintedIsRead<N(!new)>(
      v: Value<N>, rest: string, text: N -> string, number: string -> Option<N>)
    requires ReadsNumbers(number, text) && IsJson(v) && EndsValue(rest)
    ensures ReadValue(Print(v, text) + rest, number) == Some((v, rest))
    decreases v, 3
  {
    hide ReadsNumbers, ReadItems, ReadMembers, ReadString, ReadPlain, PrintItems, PrintMembers, StringTail, EndsValue,
      Begins, IsSpace, Skip;
    PrintBegins(v, rest, text, number);
    var s := Print(v, text) + rest;
    match v
    case Text(t) =>
      StringIsRead(t, rest);
      assert s[1..] == StringTail(t) + rest;
    case List(items) =>
      assert s[1..] == PrintItems(items, text) + rest;
      ItemsBegin(items, rest, text, number);
      if items == [] {
        assert PrintItems(items, text) + rest == [']'] + rest by { NoItems<N>(text); }
        DelimiterStays(']', rest);
      } else {
        ItemsAreRead(items, rest, text, number);
      }
    case Object(members) =>
      assert s[1..] == PrintMembers(members, text) + rest;
      MembersBegin(members, rest, text);
      if members == [] {
        assert PrintMembers(members, text) + rest == ['}'] + rest by { NoMembers<N>(text); }
        DelimiterStays('}', rest);
      } else {
        MembersAreRead(members, rest, text, number);
      }
    case Number(n) => NumberIsRead(n, rest, text, number);
    case Null => LiteralIsRead(v, rest, text, number);
    case Bool(_) => LiteralIsRead(v, rest, text, number);
    case NonFinite =>
    case Unsupported =>
  }

  lemma NoItems<N>(text: N -> string)
    ensures PrintItems([], text) == "]"
  {
  }

  lemma NoMembers<N>(text: N -> string)
    ensures PrintMembers([], text) == "}"
  {
  }

  ghost predicate AllJson<N>(items: seq<Value<N>>) {
    forall i | 0 <= i < |items| :: IsJson(items[i])
  }

  ghost predicate AllMembersJson<N>(members: seq<Member<N>>) {
    forall i | 0 <= i < |members| :: IsJson(members[i].value)
  }

  lemma ItemsBegin<N(!new)>(items: seq<Value<N>>, rest: string, text: N -> string, number: string -> Option<N>)
    requires ReadsNumbers(number, text) && AllJson(items)
    ensures items != [] ==> Begins(PrintItems(items, text) + rest) && (PrintItems(items, text) + rest)[0] != ']'
    ensures items != [] ==> Skip(PrintItems(items, text) + rest) == PrintItems(items, text) + rest
  {
    if items != [] {
      PrintBegins(items[0], PrintItemsTail(items[1..], text) + rest, text, number);
      assert PrintItems(items, text) + rest == Print(items[0], text) + (PrintItemsTail(items[1..], text) + rest);
    }
  }

  lemma MembersBegin<N>(members: seq<Member<N>>, rest: string, text: N -> string)
    ensures members != [] ==>
      Begins(PrintMembers(members, text) + rest) && (PrintMembers(members, text) + rest)[0] != '}'
    ensures members != [] ==> Skip(PrintMembers(members, text) + rest) == PrintMembers(members, text) + rest
  {
    if members != [] {
      assert PrintMembers(members, text) + rest
          == PrintMember(members[0], text) + (PrintMembersTail(members[1..], text) + rest);
      assert PrintMember(members[0], text)[0] == '"';
    }
  }

  lemma ItemsTailShape<N>(items: seq<Value<N>>, rest: string, text: N -> string)
    ensures EndsValue(PrintItemsTail(items, text) + rest)
    ensures items == [] ==> PrintItemsTail(items, text) + rest == [']'] + rest
    ensures items != [] ==> PrintItemsTail(items, text) + rest == [','] + (PrintItems(items, text) + rest)
  {
    if items != [] {
      CommaFirst(Print(items[0], text), PrintItemsTail(items[1..], text), rest);
    }
  }

  lemma CommaFirst(a: string, b: string, rest: string)
    ensures "," + a + b + rest == [','] + ((a + b) + rest)
  {
  }

  lemma MembersTailShape<N>(members: seq<Member<N>>, rest: string, text: N -> string)
    ensures EndsValue(PrintMembersTail(members, text) + rest)
    ensures members == [] ==> PrintMembersTail(members, text) + rest == ['}'] + rest
    ensures members != [] ==> PrintMembersTail(members, text) + rest == [','] + (PrintMembers(members, text) + rest)
  {
    hide PrintMember;
    if members != [] {
      CommaFirst(PrintMember(members[0], text), PrintMembersTail(members[1..], text), rest);
    }
  }

  lemma {:induction false} ItemsAreRead<N(!new)>(
      items: seq<Value<N>>, rest: string, text: N -> string, number: string -> Option<N>)
    requires ReadsNumbers(number, text) && AllJson(items) && items != []
    ensures ReadItems(PrintItems(items, text) + rest, number) == Some((items, rest))
    decreases items, 2
  {
    hide ReadsNumbers, ReadValue, Print, PrintItemsTail, EndsValue, Skip, IsJson;
    var tail := items[1..];
    var behind := PrintItemsTail(tail, text) + rest;
    assert PrintItems(items, text) + rest == Print(items[0], text) + behind;
    ItemsTailShape(tail, rest, text);
    PrintedIsRead(items[0], behind, text, number);
    assert items == [items[0]] + tail;
    if tail == [] {
      assert items == [items[0]];
      DelimiterStays(']', rest);
    } else {
      DelimiterStays(',', PrintItems(tail, text) + rest);
      ItemsAreRead(tail, rest, text, number);
    }
  }

  lemma {:induction false} MemberIsRead<N(!new)>(
      m: Member<N>, rest: string, text: N -> string, number: string -> Option<N>)
    requires ReadsNumbers(number, text) && IsJson(m.value) && EndsValue(rest)
    ensures ReadMember(PrintMember(m, text) + rest, number) == Some((m, rest))
    decreases m
  {
    hide ReadsNumbers, ReadValue, ReadString, Print, StringTail, EndsValue, Skip, IsJson;
    var behind := [':'] + (Print(m.value, text) + rest);
    var s := PrintMember(m, text) + rest;
    assert s == Quote(m.key) + behind && s[0] == '"' && s[1..] == StringTail(m.key) + behind;
    assert Begins(s) by { hide Print; }
    BeginsStays(s);
    StringIsRead(m.key, behind);
    DelimiterStays(':', Print(m.value, text) + rest);
    PrintedIsRead(m.value, rest, text, number);
  }

  lemma {:induction false} MembersAreRead<N(!new)>(
      members: seq<Member<N>>, rest: string, text: N -> string, number: string -> Option<N>)
    requires ReadsNumbers(number, text) && AllMembersJson(members) && members != []
    ensures ReadMembers(PrintMembers(members, text) + rest, number) == Some((members, rest))
    decreases members, 2
  {
    hide ReadsNumbers, ReadMember, PrintMember, PrintMembersTail, EndsValue, Skip, IsJson;
    var tail := members[1..];
    var behind := PrintMembersTail(tail, text) + rest;
    assert PrintMembers(members, text) + rest == PrintMember(members[0], text) + behind;
    MembersTailShape(tail, rest, text);
    MemberIsRead(members[0], behind, text, number);
    assert members == [members[0]] + tail;
    if tail == [] {
      assert members == [members[0]];
      DelimiterStays('}', rest);
    } else {
      DelimiterStays(',', PrintMembers(tail, text) + rest);
      MembersAreRead(tail, rest, text, number);
    }
  }

  /** A JSON reader gets every JSON value back from its text. */
  lemma TextIsRead<N(!new)>(v: Value<N>, text: N -> string, number: string -> Option<N>)
    requires ReadsNumbers(number, text) && IsJson(v)
    ensures ReadText(Print(v, text), number) == Some(v)
  {
    hide Print, ReadValue, ReadsNumbers, IsJson;
    assert Print(v, text) + [] == Print(v, text) && EndsValue([]);
    PrintedIsRead(v, [], text, number);
  }

  /** The number that is printed like this. */
  ghost function Printing<N(!new)>(text: N -> string, s: string): Option<N> {
    if exists n :: text(n) == s then
      var n :| text(n) == s;
      Some(n)
    else None
  }

  /** Numbers can be read back, because no two are printed alike. */
  lemma NumbersCanBeRead<N(!new)>(text: N -> string) returns (number: string -> Option<N>)
    requires IsNumberText(text)
    ensures ReadsNumbers(number, text)
  {
    number := s => Printing(text, s);
    forall n ensures text(n) != [] && AllNumberCharacters(text(n)) && number(text(n)) == Some(n) {
      assert text(n) == text(n);
    }
  }

  /** A printed value is never the start of another one's text: the text determines value and remainder. */
  lemma PrintIsUnique<N(!new)>(a: Value<N>, b: Value<N>, r: string, s: string, text: N -> string)
    requires IsNumberText(text) && IsJson(a) && IsJson(b)
    requires Print(a, text) + r == Print(b, text) + s
    requires EndsValue(r) && EndsValue(s)
    ensures a == b && r == s
  {
    hide Print, ReadValue, IsNumberText, ReadsNumbers, IsJson, EndsValue;
    var number := NumbersCanBeRead(text);
    PrintedIsRead(a, r, text, number);
    PrintedIsRead(b, s, text, number);
  }

  // ----- the configuration's identity

  /**
   * Canonicalizing a configuration succeeds exactly when it is JSON, and two configurations then have the same
   * canonical text exactly when they are equal up to the order of object keys.
   */
  lemma CanonicalTextIsIdentity<N(!new)>(a: Value<N>, b: Value<N>, text: N -> string)
    requires IsNumberText(text) && HasDistinctKeys(a) && HasDistinctKeys(b)
    ensures CanonicalizeConfiguration(a, text).Some? <==> IsJson(a)
    ensures IsJson(a) && IsJson(b) ==>
      (CanonicalizeConfiguration(a, text) == CanonicalizeConfiguration(b, text) <==> SameValue(a, b))
  {
    hide IsNumberText, Print, Canonicalize, IsJson, SameValue, HasDistinctKeys;
    CanonicalizeSucceeds(a);
    CanonicalizeSucceeds(b);
    if IsJson(a) && IsJson(b) {
      CanonicalFormsDecide(a, b);
      var canonicalA, canonicalB := Canonicalize(a).value, Canonicalize(b).value;
      CanonicalIsJson(a);
      CanonicalIsJson(b);
      if Print(canonicalA, text) == Print(canonicalB, text) {
        assert Print(canonicalA, text) + [] == Print(canonicalB, text) + [];
        assert EndsValue([]);
        PrintIsUnique(canonicalA, canonicalB, [], [], text);
      }
    }
  }

  /** A JSON reader gets from the canonical text the configuration itself, up to the order of object keys. */
  lemma CanonicalTextIsRead<N(!new)>(v: Value<N>, text: N -> string, number: string -> Option<N>)
    requires ReadsNumbers(number, text) && IsJson(v) && HasDistinctKeys(v)
    ensures var canonical := CanonicalizeConfiguration(v, text);
      canonical.Some?
      && var read := ReadText(canonical.value, number);
         read.Some? && SameValue(v, read.value)
  {
    hide ReadsNumbers, ReadText, Print, Canonicalize, IsJson, HasDistinctKeys, SameValue;
    CanonicalIsSame(v);
    CanonicalIsJson(v);
    TextIsRead(Canonicalize(v).value, text, number);
  }

  /** Canonicalizing a canonical value changes nothing. */
  lemma CanonicalizationIsIdempotent<N(!new)>(v: Value<N>, text: N -> string)
    requires IsJson(v) && HasDistinctKeys(v)
    ensures Canonicalize(v).Some?
    ensures Canonicalize(Canonicalize(v).value) == Canonicalize(v)
    ensures CanonicalizeConfiguration(Canonicalize(v).value, text) == CanonicalizeConfiguration(v, text)
  {
    CanonicalizeSucceeds(v);
    CanonicalIsFixed(v);
    hide Canonicalize, Print, IsJson, HasDistinctKeys;
  }
}
