/** A reader of JSON texts by the grammar of RFC 8259: sections 2 to 5 for the structure, section 7 for strings. */
module JsonReader {
  import opened CanonicalJson
  import opened Wrappers

  /** Section 2: insignificant white space. */
  predicate IsSpace(c: char) {
    c in " \t\n\r"
  }

  function Skip(s: string): (rest: string)
    ensures |rest| <= |s|
  {
    if s != [] && IsSpace(s[0]) then Skip(s[1..]) else s
  }

  // ----- strings

  function HexValue(digit: char): (n: Option<nat>)
    ensures n.Some? ==> n.value < 16
  {
    if '0' <= digit <= '9' then Some(digit as int - '0' as int)
    else if 'a' <= digit <= 'f' then Some(digit as int - 'a' as int + 10)
    else if 'A' <= digit <= 'F' then Some(digit as int - 'A' as int + 10)
    else None
  }

  /** Four hexadecimal digits at the front. */
  function ReadUnit(s: string): (unit: Option<nat>)
    ensures unit.Some? ==> unit.value < 0x1_0000 && |s| >= 4
  {
    if |s| < 4 then None
    else
      var a :- HexValue(s[0]);
      var b :- HexValue(s[1]);
      var c :- HexValue(s[2]);
      var d :- HexValue(s[3]);
      Some(a * 0x1000 + b * 0x100 + c * 0x10 + d)
  }

  /** What the digits behind a backslash and `u` stand for, and the length of the whole; surrogates come in pairs. */
  function ReadUnicode(s: string): (r: Option<(char, nat)>)
    requires |s| >= 2
    ensures r.Some? ==> 1 <= r.value.1 <= |s|
  {
    var unit :- ReadUnit(s[2..]);
    if unit < 0xD800 || 0xE000 <= unit then Some((unit as char, 6))
    else if unit < 0xDC00 && "\\u" <= s[6..] then
      var low :- ReadUnit(s[8..]);
      if 0xDC00 <= low < 0xE000 then Some(((0x1_0000 + (unit - 0xD800) * 0x400 + (low - 0xDC00)) as char, 12)) else None
    else None
  }

  /** One character of a string, written as itself or escaped, and its length. */
  function ReadCharacter(s: string): (r: Option<(char, nat)>)
    requires s != []
    ensures r.Some? ==> 1 <= r.value.1 <= |s|
  {
    if s[0] == '"' || s[0] as int < 0x20 then None
    else if s[0] != '\\' then Some((s[0], 1))
    else if |s| < 2 then None
    else
      match s[1]
      case '"' => Some(('"', 2))
      case '\\' => Some(('\\', 2))
      case '/' => Some(('/', 2))
      case 'b' => Some((0x08 as char, 2))
      case 'f' => Some((0x0C as char, 2))
      case 'n' => Some((0x0A as char, 2))
      case 'r' => Some((0x0D as char, 2))
      case 't' => Some((0x09 as char, 2))
      case 'u' => ReadUnicode(s)
      case _ => None
  }

  /** The rest of a string behind its opening quote. */
  function ReadString(s: string): (r: Option<(string, string)>)
    ensures r.Some? ==> |r.value.1| < |s|
  {
    if s == [] then None
    else if s[0] == '"' then Some(([], s[1..]))
    else
      var (c, n) :- ReadCharacter(s);
      var (text, rest) :- ReadString(s[n..]);
      Some(([c] + text, rest))
  }

  // ----- numbers

  predicate IsNumberCharacter(c: char) {
    '0' <= c <= '9' || c in "+-.eE"
  }

  /** How many characters of numbers stand at the front. */
  function NumberLength(s: string): (n: nat)
    ensures n <= |s|
  {
    if s != [] && IsNumberCharacter(s[0]) then 1 + NumberLength(s[1..]) else 0
  }

  /** What a number stands for is left to `number`. */
  function ReadNumber<N>(s: string, number: string -> Option<N>): (r: Option<(N, string)>)
    ensures r.Some? ==> |r.value.1| < |s|
  {
    var length := NumberLength(s);
    if length == 0 then None
    else
      var n :- number(s[..length]);
      Some((n, s[length..]))
  }

  // ----- values

  /** The literal names of section 3, or a number. */
  function ReadPlain<N>(s: string, number: string -> Option<N>): (r: Option<(Value<N>, string)>)
    ensures r.Some? ==> |r.value.1| < |s|
  {
    if "null" <= s then Some((Null, s[4..]))
    else if "true" <= s then Some((Bool(true), s[4..]))
    else if "false" <= s then Some((Bool(false), s[5..]))
    else
      var (n, rest) :- ReadNumber(s, number);
      Some((Number(n), rest))
  }

  /** The value at the front of a text, and what follows it. */
  function ReadValue<N>(s: string, number: string -> Option<N>): (r: Option<(Value<N>, string)>)
    ensures r.Some? ==> |r.value.1| < |s|
    decreases |s|, 1
  {
    var t := Skip(s);
    if t == [] then None
    else if t[0] == '"' then
      var (text, rest) :- ReadString(t[1..]);
      Some((Text(text), rest))
    else if t[0] == '[' then
      var u := Skip(t[1..]);
      if u != [] && u[0] == ']' then Some((List([]), u[1..]))
      else
        var (items, rest) :- ReadItems(t[1..], number);
        Some((List(items), rest))
    else if t[0] == '{' then
      var u := Skip(t[1..]);
      if u != [] && u[0] == '}' then Some((Object([]), u[1..]))
      else
        var (members, rest) :- ReadMembers(t[1..], number);
        Some((Object(members), rest))
    else ReadPlain(t, number)
  }

  /** The items of an array up to its closing bracket. */
  function ReadItems<N>(s: string, number: string -> Option<N>): (r: Option<(seq<Value<N>>, string)>)
    ensures r.Some? ==> |r.value.1| < |s|
    decreases |s|, 2
  {
    var (item, behind) :- ReadValue(s, number);
    var t := Skip(behind);
    if t == [] then None
    else if t[0] == ']' then Some(([item], t[1..]))
    else if t[0] == ',' then
      var (items, rest) :- ReadItems(t[1..], number);
      Some(([item] + items, rest))
    else None
  }

  /** A name, a colon and a value. */
  function ReadMember<N>(s: string, number: string -> Option<N>): (r: Option<(Member<N>, string)>)
    ensures r.Some? ==> |r.value.1| < |s|
    decreases |s|, 2
  {
    var t := Skip(s);
    if t == [] || t[0] != '"' then None
    else
      var (key, behind) :- ReadString(t[1..]);
      var u := Skip(behind);
      if u == [] || u[0] != ':' then None
      else
        var (value, rest) :- ReadValue(u[1..], number);
        Some((Member(key, value), rest))
  }

  function ReadMembers<N>(s: string, number: string -> Option<N>): (r: Option<(seq<Member<N>>, string)>)
    ensures r.Some? ==> |r.value.1| < |s|
    decreases |s|, 3
  {
    var (member, behind) :- ReadMember(s, number);
    var t := Skip(behind);
    if t == [] then None
    else if t[0] == '}' then Some(([member], t[1..]))
    else if t[0] == ',' then
      var (members, rest) :- ReadMembers(t[1..], number);
      Some(([member] + members, rest))
    else None
  }

  /** A whole text is one value. */
  function ReadText<N>(s: string, number: string -> Option<N>): Option<Value<N>> {
    var (value, rest) :- ReadValue(s, number);
    if Skip(rest) == [] then Some(value) else None
  }
}
